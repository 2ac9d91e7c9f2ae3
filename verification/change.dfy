/** The trailing change behind every metric card. The card displays the
    latest value, the lookback count and the percent change; the reference
    value up to thirty observations earlier and the absolute change are
    intermediate results the percent is computed from. */
module Change {
  import opened Wrappers
  import opened PySeq

  /** The comparison window, in observations. */
  const Lookback: nat := 30

  /** The values computed for one series' card: `current`, `daysBack` and
      `changePct` are displayed, while `previous` (absent when the series has
      a single point) and `change` only feed the percent. */
  datatype Trailing = Trailing(current: real, daysBack: nat, previous: Option<real>, change: real, changePct: real)

  /** `change / previous * 100`, guarded against a zero reference. */
  function Percent(change: real, previous: real): (pct: real)
    ensures previous != 0.0 ==> pct * previous == change * 100.0
    ensures previous == 0.0 ==> pct == 0.0
  {
    if previous != 0.0 then change / previous * 100.0 else 0.0
  }

  /** The change and percent change agree with the two values they compare:
      `change = current - previous` and `changePct = change / previous * 100`
      with a zero reference giving 0, and both are 0 without a reference. */
  predicate Measured(t: Trailing) {
    && (t.previous.None? ==> t.change == 0.0 && t.changePct == 0.0)
    && (t.previous.Some? ==> t.change == t.current - t.previous.value)
    && (t.previous.Some? && t.previous.value != 0.0 ==> t.changePct * t.previous.value == t.change * 100.0)
    && (t.previous.Some? && t.previous.value == 0.0 ==> t.changePct == 0.0)
  }

  /** The change computation of one metric card, on the series after
      `dropna`. The caller only gets here with a non-empty series. */
  function ComputeChange(s: seq<real>): (r: Trailing)
    requires |s| > 0
    ensures r.current == s[|s| - 1]
    ensures r.daysBack <= Lookback && r.daysBack <= |s| - 1
    ensures r.daysBack == Lookback || r.daysBack == |s| - 1
    ensures |s| > Lookback ==> r.daysBack == Lookback
    ensures r.daysBack == 0 <==> |s| == 1
    ensures r.daysBack > 0 ==> r.previous == Some(s[|s| - 1 - r.daysBack])
    ensures r.daysBack == 0 ==> r.previous == None
    ensures Measured(r)
  {
    var current := ILoc(s, -1).value;
    var daysBack := Min(Lookback, |s| - 1);
    if daysBack > 0 then
      var previous := ILoc(s, -daysBack - 1).value;
      var change := current - previous;
      Trailing(current, daysBack, Some(previous), change, Percent(change, previous))
    else
      Trailing(current, daysBack, None, 0.0, 0.0)
  }

  /** The reference value lies exactly `daysBack` observations before the
      latest one, and both reads are in range. */
  lemma ReferenceInRange(s: seq<real>)
    requires |s| > 0
    ensures ILoc(s, -1) == Ok(s[|s| - 1]) == Ok(ComputeChange(s).current)
    ensures var r := ComputeChange(s);
      r.daysBack > 0 ==>
        && 0 <= (|s| - 1) - r.daysBack
        && ILoc(s, -(r.daysBack as int) - 1) == Ok(s[(|s| - 1) - r.daysBack]) == Ok(r.previous.value)
  {
  }

  /** A zero reference gives a zero percent change whatever the latest value. */
  lemma ZeroReference(s: seq<real>)
    requires |s| > 1
    requires s[|s| - 1 - Min(Lookback, |s| - 1)] == 0.0
    ensures ComputeChange(s).changePct == 0.0
    ensures ComputeChange(s).change == s[|s| - 1]
  {
  }

  /** The percent change is the inverse of growing the reference by that
      percentage: `previous * (1 + pct / 100) == current`. */
  lemma PercentRoundTrip(s: seq<real>)
    requires |s| > 0
    requires ComputeChange(s).previous.Some? && ComputeChange(s).previous.value != 0.0
    ensures var r := ComputeChange(s);
      r.previous.value * (1.0 + r.changePct / 100.0) == r.current
  {
  }

  /** The percent change is positive exactly when the value moved away from
      zero's side of the reference: up from a positive reference or down from
      a negative one. */
  lemma PercentSign(s: seq<real>)
    requires |s| > 0
    ensures var r := ComputeChange(s);
      r.changePct > 0.0 <==>
        r.previous.Some? &&
        ((r.previous.value > 0.0 && r.current > r.previous.value) ||
         (r.previous.value < 0.0 && r.current < r.previous.value))
  {
  }

  /** Quoting change and reference in another unit leaves the percent alone. */
  lemma PercentScales(change: real, previous: real, k: real)
    requires k != 0.0
    ensures Percent(k * change, k * previous) == Percent(change, previous)
  {
  }

  /** Only the last `Lookback + 1` observations matter: older history
      prepended to a long enough series leaves the card unchanged. */
  lemma OnlyWindowMatters(older: seq<real>, s: seq<real>)
    requires |s| > Lookback
    ensures ComputeChange(older + s) == ComputeChange(s)
  {
  }

  /** A month of gold prices from 1900 to 2000: thirty days back, a change
      of 100 and a rise of 100/19 percent (about 5.263). */
  lemma GoldMonthScenario(s: seq<real>)
    requires |s| == 31 && s[0] == 1900.0 && s[30] == 2000.0
    ensures ComputeChange(s) == Trailing(2000.0, 30, Some(1900.0), 100.0, 100.0 / 19.0)
  {
  }

  /** A negative reference: from -5 to -3 is a change of +2 but a percent
      change of -40, because the division keeps the reference's sign. */
  lemma NegativeReferenceScenario(s: seq<real>)
    requires |s| > 1
    requires s[|s| - 1] == -3.0 && s[|s| - 1 - Min(Lookback, |s| - 1)] == -5.0
    ensures ComputeChange(s).change == 2.0
    ensures ComputeChange(s).changePct == -40.0
  {
  }
}
