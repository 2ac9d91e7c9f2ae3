/** The few Python and pandas sequence primitives the dashboard relies on:
    `min`, positional `iloc` indexing with negative offsets, `tail(n)` and
    reversal (the descending re-sort of an ascending index). */
module PySeq {
  import opened Wrappers

  /** pandas' "single positional indexer is out-of-bounds". pandas' message
      names neither the position nor the length; the fields are this model's
      own, to tell failing reads apart. */
  datatype IndexError = IndexError(position: int, length: nat)

  /** Python's built-in `min` on two integers. */
  function Min(a: int, b: int): (m: int)
    ensures m <= a && m <= b
    ensures m == a || m == b
  {
    if a <= b then a else b
  }

  /** `s.iloc[i]`: a non-negative `i` counts from the front, a negative one
      from the back (`-1` is the last element); anything else raises. */
  function ILoc<T>(s: seq<T>, i: int): (r: Result<T, IndexError>)
    ensures r.Ok? <==> -|s| <= i < |s|
    ensures r.Err? ==> r.error == IndexError(i, |s|)
  {
    if 0 <= i < |s| then Ok(s[i])
    else if -|s| <= i < 0 then Ok(s[|s| + i])
    else Err(IndexError(i, |s|))
  }

  /** `s.tail(n)`: the last `n` elements, or all of them when there are fewer. */
  function Tail<T>(s: seq<T>, n: nat): (r: seq<T>)
    ensures |r| == Min(n, |s|)
    ensures s == s[..|s| - |r|] + r
  {
    if |s| <= n then s else s[|s| - n..]
  }

  /** The elements of `s` from last to first. */
  function Reverse<T>(s: seq<T>): (r: seq<T>)
    ensures |r| == |s|
    ensures forall i :: 0 <= i < |s| ==> r[i] == s[|s| - 1 - i]
  {
    if |s| == 0 then [] else [s[|s| - 1]] + Reverse(s[..|s| - 1])
  }

  /** Negative positional indexing is forward indexing into the reversed
      sequence: `s.iloc[-k]` is element `k - 1` of `s[::-1]`. */
  lemma ILocNegativeIsReversed<T>(s: seq<T>, k: int)
    requires 1 <= k <= |s|
    ensures ILoc(s, -k) == ILoc(Reverse(s), k - 1) == Ok(s[|s| - k])
  {
  }

  /** Reversal only reorders: it keeps every element with its multiplicity. */
  lemma {:induction false} ReversePermutes<T>(s: seq<T>)
    ensures multiset(Reverse(s)) == multiset(s)
  {
    if |s| > 0 {
      var init := s[..|s| - 1];
      ReversePermutes(init);
      assert s == init + [s[|s| - 1]];
      assert Reverse(s) == [s[|s| - 1]] + Reverse(init);
    }
  }
}
