/** The dashboard page over the fetched data frame: one card per metric that
    has data, and the "recent rows" table, newest first. */
module Dashboard {
  import opened Wrappers
  import opened PySeq
  import opened Series
  import opened Change

  /** One row of the frame: its date label and the cells that hold a value.
      A column missing from `cells` is NaN on that date. */
  datatype Row = Row(date: Date, cells: map<string, real>)

  /** The frame built from the fetched series: its column names and rows. */
  datatype Frame = Frame(columns: seq<string>, rows: seq<Row>)

  /** A metric the page shows, by column name, with its display unit. */
  datatype Metric = Metric(name: string, unit: string)

  /** A rendered metric card: the trailing change and the date of the latest
      observation. */
  datatype Card = Card(name: string, unit: string, trailing: Trailing, latestDate: Date)

  /** The table shows this many of the most recent rows. */
  const RecentRows: nat := 30

  /** The five metrics, in display order: gold price, dollar index, nominal
      rate, inflation expectation, real rate. */
  const Metrics: seq<Metric> := [
    Metric("黄金价格", "$/盎司"),
    Metric("美元指数", ""),
    Metric("名义利率", "%"),
    Metric("通胀预期", "%"),
    Metric("实际利率", "%")
  ]

  /** `df[name]`: the column as a dated series, NaN where a row has no value. */
  function Column(f: Frame, name: string): (xs: seq<Point>)
    ensures |xs| == |f.rows|
    ensures forall i :: 0 <= i < |xs| ==> xs[i].date == f.rows[i].date
    ensures forall i :: 0 <= i < |xs| ==>
      (xs[i].value.Some? <==> name in f.rows[i].cells) &&
      (xs[i].value.Some? ==> xs[i].value.value == f.rows[i].cells[name])
  {
    seq(|f.rows|, i requires 0 <= i < |f.rows| =>
      Point(f.rows[i].date, if name in f.rows[i].cells then Some(f.rows[i].cells[name]) else None))
  }

  /** On the values that survive `dropna`, the lookback counts present
      cells, not frame rows, and the reference is the present cell that many
      places before the last one. */
  lemma {:induction false} WindowOverPresent(xs: seq<Point>)
    requires |Dropna(xs)| > 0
    ensures var ps, t := Present(xs), ComputeChange(Values(Dropna(xs)));
      && |ps| > 0
      && t.daysBack == Min(Lookback, |ps| - 1)
      && (t.daysBack > 0 ==> t.previous == Some(xs[ps[|ps| - 1 - t.daysBack]].value.value))
  {
    DropnaIsPresent(xs);
    var d, ps := Dropna(xs), Present(xs);
    var vals := Values(d);
    var t := ComputeChange(vals);
    assert |vals| == |ps|;
    if t.daysBack > 0 {
      var k := |ps| - 1 - t.daysBack;
      assert t.previous == Some(vals[k]);
      assert vals[k] == d[k].value == xs[ps[k]].value.value;
    }
  }

  /** The card of one metric, if any: the column must exist and must keep at
      least one value after `dropna`. */
  function CardFor(f: Frame, m: Metric): (r: Option<Card>)
    ensures r.Some? <==>
      m.name in f.columns && exists i :: 0 <= i < |f.rows| && m.name in f.rows[i].cells
    ensures r.Some? ==> r.value.name == m.name && r.value.unit == m.unit
    ensures r.Some? ==> exists i :: (0 <= i < |f.rows| && m.name in f.rows[i].cells
      && r.value.latestDate == f.rows[i].date
      && r.value.trailing.current == f.rows[i].cells[m.name]
      && forall j :: i < j < |f.rows| ==> m.name !in f.rows[j].cells)
  {
    if m.name in f.columns then
      var xs := Column(f, m.name);
      var series := Dropna(xs);
      DropnaEmpty(xs);
      if |series| > 0 then
        DropnaLast(xs);
        var last := series[|series| - 1];
        Some(Card(m.name, m.unit, ComputeChange(Values(series)), last.date))
      else
        assert forall i :: 0 <= i < |f.rows| ==> m.name !in f.rows[i].cells by {
          forall i | 0 <= i < |f.rows| ensures m.name !in f.rows[i].cells {
            assert xs[i].value.None?;
          }
        }
        None
    else
      None
  }

  /** The numbers on a card: the lookback is `min(30, n - 1)` over the `n`
      rows that hold a value for the metric, the reference is the value in
      the row that many present rows before the last, and change and percent
      agree with the two values. */
  lemma CardForTrailing(f: Frame, m: Metric)
    requires CardFor(f, m).Some?
    ensures var ps, t := Present(Column(f, m.name)), CardFor(f, m).value.trailing;
      && |ps| > 0
      && t.daysBack == Min(Lookback, |ps| - 1)
      && (t.daysBack > 0 ==> t.previous == Some(f.rows[ps[|ps| - 1 - t.daysBack]].cells[m.name]))
      && (t.daysBack == 0 ==> t.previous.None?)
      && Measured(t)
  {
    var xs := Column(f, m.name);
    DropnaEmpty(xs);
    WindowOverPresent(xs);
    assert CardFor(f, m).value.trailing == ComputeChange(Values(Dropna(xs)));
  }

  /** The positions of `xs` where `g` gives a result, in increasing order. */
  function Picked<A, B>(xs: seq<A>, g: A -> Option<B>): (ps: seq<nat>)
    ensures |ps| <= |xs|
    ensures forall k :: 0 <= k < |ps| ==> ps[k] < |xs| && g(xs[ps[k]]).Some?
    ensures forall k, l :: 0 <= k < l < |ps| ==> ps[k] < ps[l]
    ensures forall a :: 0 <= a < |xs| && g(xs[a]).Some? ==> a in ps
  {
    if |xs| == 0 then []
    else
      var init := Picked(xs[..|xs| - 1], g);
      if g(xs[|xs| - 1]).Some? then init + [|xs| - 1] else init
  }

  /** The results `g` gives on `xs`, in order, skipping the `None`s: the
      shape of the card loop, which renders a card for some metrics and
      skips the others. */
  function FilterMap<A, B>(xs: seq<A>, g: A -> Option<B>): (r: seq<B>)
    ensures |r| == |Picked(xs, g)|
    ensures forall k :: 0 <= k < |r| ==> g(xs[Picked(xs, g)[k]]) == Some(r[k])
  {
    var ps := Picked(xs, g);
    seq(|ps|, k requires 0 <= k < |ps| => g(xs[ps[k]]).value)
  }

  /** The card loop's body for frame `f`, as a function of the metric. */
  function CardOf(f: Frame): Metric -> Option<Card> {
    m => CardFor(f, m)
  }

  /** The cards of the page, in metric order: the k-th card belongs to the
      k-th metric that has data (`Picked` lists those positions, increasing
      and complete), so no metric is skipped or shown twice. */
  function Cards(f: Frame, metrics: seq<Metric>): (r: seq<Card>)
    ensures |r| == |Picked(metrics, CardOf(f))| <= |metrics|
    ensures forall k :: 0 <= k < |r| ==> CardFor(f, metrics[Picked(metrics, CardOf(f))[k]]) == Some(r[k])
  {
    FilterMap(metrics, CardOf(f))
  }

  /** Every card names the metric it was computed for: the k-th card carries
      the name and unit of the k-th metric with data. */
  lemma CardsNamed(f: Frame, metrics: seq<Metric>)
    ensures var r, ps := Cards(f, metrics), Picked(metrics, CardOf(f));
      forall k :: 0 <= k < |r| ==> r[k].name == metrics[ps[k]].name && r[k].unit == metrics[ps[k]].unit
  {
  }

  /** No two of the page's metrics share a column name. */
  lemma MetricsDistinct()
    ensures forall i, j :: 0 <= i < j < |Metrics| ==> Metrics[i].name != Metrics[j].name
  {
  }

  /** The cards of the page: the five metrics, in display order, each at most
      once. A card never names a metric outside the list, and no two cards
      share a metric. */
  function PageCards(f: Frame): (r: seq<Card>)
    ensures |r| <= |Metrics|
    ensures forall k :: 0 <= k < |r| ==>
      (exists j :: 0 <= j < |Metrics| && r[k].name == Metrics[j].name && r[k].unit == Metrics[j].unit)
    ensures forall i, j :: 0 <= i < j < |r| ==> r[i].name != r[j].name
  {
    CardsNamed(f, Metrics);
    MetricsDistinct();
    Cards(f, Metrics)
  }

  /** A frame whose dates ascend gives every column ascending dates, so the
      order facts about `dropna` apply to each card's series. */
  lemma ColumnAscending(f: Frame, name: string)
    requires RowsAscending(f.rows)
    ensures Ascending(Column(f, name))
  {
  }

  /** `df.tail(30).sort_index(ascending=False)` on a frame whose index is
      ascending: the last thirty rows, newest first. */
  function RecentDesc(rows: seq<Row>): (r: seq<Row>)
    ensures |r| == Min(RecentRows, |rows|)
    ensures forall i :: 0 <= i < |r| ==> r[i] == rows[|rows| - 1 - i]
  {
    Reverse(Tail(rows, RecentRows))
  }

  /** Dates strictly increase down the frame. */
  predicate RowsAscending(rows: seq<Row>) {
    forall i, j :: 0 <= i < j < |rows| ==> rows[i].date < rows[j].date
  }

  /** Dates strictly decrease down the table. */
  predicate RowsDescending(rows: seq<Row>) {
    forall i, j :: 0 <= i < j < |rows| ==> rows[i].date > rows[j].date
  }

  /** The recent table is sorted newest first and holds exactly the rows of
      `tail(30)`. */
  lemma RecentIsSortedTail(rows: seq<Row>)
    requires RowsAscending(rows)
    ensures RowsDescending(RecentDesc(rows))
    ensures multiset(RecentDesc(rows)) == multiset(Tail(rows, RecentRows))
  {
    ReversePermutes(Tail(rows, RecentRows));
  }

  /** Two date-descending tables with the same rows start with the same row:
      each head is the newest row of the other table. */
  lemma HeadsAgree(t: seq<Row>, u: seq<Row>)
    requires RowsDescending(t) && RowsDescending(u)
    requires |t| > 0 && multiset(t) == multiset(u)
    ensures |u| > 0 && t[0] == u[0]
  {
    assert t[0] in multiset(u);
    var j :| 0 <= j < |u| && u[j] == t[0];
    assert u[0] in multiset(t);
    var k :| 0 <= k < |t| && t[k] == u[0];
    assert u[0].date <= t[0].date <= u[0].date;
  }

  /** Dropping the first row drops it from the multiset of rows. */
  lemma DropHead(t: seq<Row>)
    requires |t| > 0
    ensures multiset(t[1..]) == multiset(t) - multiset{t[0]}
  {
    assert t == [t[0]] + t[1..];
  }

  /** Two date-descending tables with the same rows are the same table. */
  lemma {:induction false} DescendingUnique(t: seq<Row>, u: seq<Row>)
    requires RowsDescending(t) && RowsDescending(u)
    requires multiset(t) == multiset(u)
    ensures t == u
  {
    if |t| == 0 {
      assert |u| == |multiset(u)| == 0;
    } else {
      HeadsAgree(t, u);
      DropHead(t);
      DropHead(u);
      DescendingUnique(t[1..], u[1..]);
      assert t == [t[0]] + t[1..] && u == [u[0]] + u[1..];
    }
  }

  /** The reversal is what `sort_index(ascending=False)` produces on the
      tail: any newest-first arrangement of the last thirty rows equals it. */
  lemma RecentIsSortIndex(rows: seq<Row>, t: seq<Row>)
    requires RowsAscending(rows)
    requires RowsDescending(t) && multiset(t) == multiset(Tail(rows, RecentRows))
    ensures t == RecentDesc(rows)
  {
    RecentIsSortedTail(rows);
    DescendingUnique(t, RecentDesc(rows));
  }
}
