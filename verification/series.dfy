/** One column of the data frame as a dated series, and pandas' `dropna`,
    which keeps only the points that carry a value. */
module Series {
  import opened Wrappers

  /** A calendar day, as a day number. */
  type Date = int

  /** A cell of a frame column together with its index label; `None` is NaN. */
  datatype Point = Point(date: Date, value: Option<real>)

  /** An observation that survived `dropna`. */
  datatype Obs = Obs(date: Date, value: real)

  /** `series.dropna()`: the present points, in their original order. */
  function Dropna(xs: seq<Point>): (r: seq<Obs>)
    ensures |r| <= |xs|
  {
    if |xs| == 0 then []
    else
      var p := xs[|xs| - 1];
      Dropna(xs[..|xs| - 1]) + (if p.value.Some? then [Obs(p.date, p.value.value)] else [])
  }

  /** The positions of `xs` that hold a value, in increasing order. */
  function Present(xs: seq<Point>): (ps: seq<nat>)
    ensures forall k :: 0 <= k < |ps| ==> ps[k] < |xs| && xs[ps[k]].value.Some?
    ensures forall k, l :: 0 <= k < l < |ps| ==> ps[k] < ps[l]
    ensures forall i :: 0 <= i < |xs| && xs[i].value.Some? ==> i in ps
  {
    if |xs| == 0 then []
    else
      var init := Present(xs[..|xs| - 1]);
      if xs[|xs| - 1].value.Some? then init + [|xs| - 1] else init
  }

  /** The values of a run of observations, dates dropped. */
  function Values(obs: seq<Obs>): (vs: seq<real>)
    ensures |vs| == |obs|
    ensures forall k :: 0 <= k < |obs| ==> vs[k] == obs[k].value
  {
    seq(|obs|, k requires 0 <= k < |obs| => obs[k].value)
  }

  /** Observations seen again as cells that all carry a value. */
  function Lift(obs: seq<Obs>): (xs: seq<Point>)
    ensures |xs| == |obs|
    ensures forall k :: 0 <= k < |obs| ==> xs[k] == Point(obs[k].date, Some(obs[k].value))
  {
    seq(|obs|, k requires 0 <= k < |obs| => Point(obs[k].date, Some(obs[k].value)))
  }

  /** Dates strictly increase along a column. */
  predicate Ascending(xs: seq<Point>) {
    forall i, j :: 0 <= i < j < |xs| ==> xs[i].date < xs[j].date
  }

  /** Dates strictly increase along a run of observations. */
  predicate ObsAscending(obs: seq<Obs>) {
    forall i, j :: 0 <= i < j < |obs| ==> obs[i].date < obs[j].date
  }

  /** `dropna` keeps exactly the present positions, in order: its k-th
      observation is the cell at the k-th present position. */
  lemma {:induction false} DropnaIsPresent(xs: seq<Point>)
    ensures |Dropna(xs)| == |Present(xs)|
    ensures forall k :: 0 <= k < |Present(xs)| ==>
      Dropna(xs)[k] == Obs(xs[Present(xs)[k]].date, xs[Present(xs)[k]].value.value)
  {
    if |xs| > 0 {
      var init := xs[..|xs| - 1];
      var last := |xs| - 1;
      DropnaIsPresent(init);
      var d, ps := Dropna(init), Present(init);
      forall k | 0 <= k < |ps|
        ensures Dropna(xs)[k] == Obs(xs[Present(xs)[k]].date, xs[Present(xs)[k]].value.value)
      {
        assert Dropna(xs)[k] == d[k];
        assert Present(xs)[k] == ps[k];
        assert xs[ps[k]] == init[ps[k]];
      }
      if xs[last].value.Some? {
        assert Present(xs)[|ps|] == last;
        assert Dropna(xs)[|ps|] == Obs(xs[last].date, xs[last].value.value);
      }
    }
  }

  /** The series is empty after `dropna` exactly when every cell is NaN. */
  lemma {:induction false} DropnaEmpty(xs: seq<Point>)
    ensures |Dropna(xs)| == 0 <==> forall i :: 0 <= i < |xs| ==> xs[i].value.None?
  {
    DropnaIsPresent(xs);
    if |Present(xs)| > 0 {
      assert xs[Present(xs)[0]].value.Some?;
    }
  }

  /** The last observation after `dropna` is the last cell that carries a
      value: every later cell is NaN. */
  lemma {:induction false} DropnaLast(xs: seq<Point>)
    requires |Dropna(xs)| > 0
    ensures exists i :: (0 <= i < |xs|
      && xs[i] == Point(Dropna(xs)[|Dropna(xs)| - 1].date, Some(Dropna(xs)[|Dropna(xs)| - 1].value))
      && forall j :: i < j < |xs| ==> xs[j].value.None?)
  {
    var init := xs[..|xs| - 1];
    var p := xs[|xs| - 1];
    if p.value.Some? {
      assert xs[|xs| - 1] == p;
    } else {
      assert Dropna(xs) == Dropna(init);
      DropnaLast(init);
      var i :| 0 <= i < |init|
        && init[i] == Point(Dropna(init)[|Dropna(init)| - 1].date, Some(Dropna(init)[|Dropna(init)| - 1].value))
        && forall j :: i < j < |init| ==> init[j].value.None?;
      assert xs[i] == init[i];
      assert forall j :: i < j < |xs| ==> xs[j].value.None? by {
        forall j | i < j < |xs| ensures xs[j].value.None? {
          if j < |init| { assert xs[j] == init[j]; }
        }
      }
    }
  }

  /** `dropna` keeps the index ordered. */
  lemma DropnaKeepsOrder(xs: seq<Point>)
    requires Ascending(xs)
    ensures ObsAscending(Dropna(xs))
  {
    DropnaIsPresent(xs);
  }

  /** On cells that all carry a value, `dropna` changes nothing. */
  lemma {:induction false} DropnaOfLift(obs: seq<Obs>)
    ensures Dropna(Lift(obs)) == obs
  {
    if |obs| > 0 {
      var init := obs[..|obs| - 1];
      DropnaOfLift(init);
      assert Lift(obs)[..|obs| - 1] == Lift(init);
    }
  }

  /** Dropping missing points twice is the same as dropping them once. */
  lemma DropnaIdempotent(xs: seq<Point>)
    ensures Dropna(Lift(Dropna(xs))) == Dropna(xs)
  {
    DropnaOfLift(Dropna(xs));
  }

  /** `dropna` works cell by cell: it distributes over concatenation. */
  lemma {:induction false} DropnaAppend(a: seq<Point>, b: seq<Point>)
    ensures Dropna(a + b) == Dropna(a) + Dropna(b)
  {
    if |b| == 0 {
      assert a + b == a;
    } else {
      var binit := b[..|b| - 1];
      DropnaAppend(a, binit);
      assert (a + b)[..|a + b| - 1] == a + binit;
    }
  }
}
