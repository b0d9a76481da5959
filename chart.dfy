/** The chart builder: an inclusive date-range filter over the enriched
    table, and the three series of the chart aligned on the kept rows. */
module Chart {
  import opened Wrappers
  import opened Indicators
  import opened Pipeline

  /** One row of the enriched table: its input columns and the columns the
      pipeline appended. */
  datatype Row = Row(input: Record, derived: Derived)

  /** The series of the chart: the x axis (report dates), the closing price
      on the right-hand axis, and the Non-Commercial and Commercial net
      positions on the left-hand axis. */
  datatype ChartData = ChartData(
    dates: seq<int>,
    cierre: seq<real>,
    netNC: seq<int>,
    netCom: seq<int>)

  /** The earliest report date of a non-empty table. */
  function MinFecha(rows: seq<Row>): (d: int)
    requires |rows| > 0
    ensures exists k :: 0 <= k < |rows| && rows[k].input.fecha == d
    ensures forall k :: 0 <= k < |rows| ==> d <= rows[k].input.fecha
  {
    if |rows| == 1 then rows[0].input.fecha
    else
      var m := MinFecha(rows[1..]);
      if rows[0].input.fecha <= m then rows[0].input.fecha else m
  }

  /** The latest report date of a non-empty table. */
  function MaxFecha(rows: seq<Row>): (d: int)
    requires |rows| > 0
    ensures exists k :: 0 <= k < |rows| && rows[k].input.fecha == d
    ensures forall k :: 0 <= k < |rows| ==> rows[k].input.fecha <= d
  {
    if |rows| == 1 then rows[0].input.fecha
    else
      var m := MaxFecha(rows[1..]);
      if m <= rows[0].input.fecha then rows[0].input.fecha else m
  }

  /** The start of the range: the given date, or else the earliest date. The
      earliest date of an empty table is undefined (pandas' NaT). */
  function StartBound(rows: seq<Row>, start: Option<int>): Option<int>
  {
    if start.Some? then start
    else if |rows| == 0 then None
    else Some(MinFecha(rows))
  }

  /** The end of the range: the given date, or else the latest date. */
  function EndBound(rows: seq<Row>, end: Option<int>): Option<int>
  {
    if end.Some? then end
    else if |rows| == 0 then None
    else Some(MaxFecha(rows))
  }

  /** The mask: `lo <= fecha <= hi`; a comparison with an undefined bound is
      false. */
  predicate InRange(fecha: int, lo: Option<int>, hi: Option<int>)
  {
    lo.Some? && hi.Some? && lo.value <= fecha <= hi.value
  }

  /** The rows whose date passes the mask, in table order. */
  function Select(rows: seq<Row>, lo: Option<int>, hi: Option<int>): seq<Row>
  {
    if |rows| == 0 then []
    else
      var last := rows[|rows| - 1];
      Select(rows[..|rows| - 1], lo, hi) + (if InRange(last.input.fecha, lo, hi) then [last] else [])
  }

  /** The positions of the rows the mask keeps, in increasing order. */
  ghost function KeptIndices(rows: seq<Row>, lo: Option<int>, hi: Option<int>): seq<int>
  {
    if |rows| == 0 then []
    else
      var n := |rows| - 1;
      KeptIndices(rows[..n], lo, hi) + (if InRange(rows[n].input.fecha, lo, hi) then [n] else [])
  }

  /** The filtered table of the chart. */
  function FilterByDate(rows: seq<Row>, start: Option<int>, end: Option<int>): seq<Row>
  {
    Select(rows, StartBound(rows, start), EndBound(rows, end))
  }

  /** The chart's series, all taken row by row from the filtered table. */
  function BuildChart(rows: seq<Row>, start: Option<int>, end: Option<int>): (c: ChartData)
    ensures var f := FilterByDate(rows, start, end);
      && |c.dates| == |f| && |c.cierre| == |f| && |c.netNC| == |f| && |c.netCom| == |f|
      && forall j :: 0 <= j < |f| ==>
           && c.dates[j] == f[j].input.fecha
           && c.cierre[j] == f[j].input.cierre
           && c.netNC[j] == f[j].derived.nc.net
           && c.netCom[j] == f[j].derived.com.net
  {
    var f := FilterByDate(rows, start, end);
    ChartData(
      seq(|f|, j requires 0 <= j < |f| => f[j].input.fecha),
      seq(|f|, j requires 0 <= j < |f| => f[j].input.cierre),
      seq(|f|, j requires 0 <= j < |f| => f[j].derived.nc.net),
      seq(|f|, j requires 0 <= j < |f| => f[j].derived.com.net))
  }

  /** Kept positions are positions of the table, in strictly increasing
      order. */
  lemma {:induction false} KeptIndicesIncrease(rows: seq<Row>, lo: Option<int>, hi: Option<int>)
    ensures forall j :: 0 <= j < |KeptIndices(rows, lo, hi)| ==>
      0 <= KeptIndices(rows, lo, hi)[j] < |rows|
    ensures forall j, j' :: 0 <= j < j' < |KeptIndices(rows, lo, hi)| ==>
      KeptIndices(rows, lo, hi)[j] < KeptIndices(rows, lo, hi)[j']
  {
    if |rows| > 0 {
      var n := |rows| - 1;
      KeptIndicesIncrease(rows[..n], lo, hi);
      var pidx, idx := KeptIndices(rows[..n], lo, hi), KeptIndices(rows, lo, hi);
      var extra := if InRange(rows[n].input.fecha, lo, hi) then [n] else [];
      assert idx == pidx + extra;
      forall j | 0 <= j < |idx|
        ensures 0 <= idx[j] <= n && (j < |pidx| ==> idx[j] == pidx[j] < n)
      {
        if j >= |pidx| {
          assert idx[j] == extra[0] == n;
        }
      }
    }
  }

  /** A position is kept exactly when its row passes the mask. */
  lemma {:induction false} KeptIndicesExact(rows: seq<Row>, lo: Option<int>, hi: Option<int>)
    ensures forall k :: 0 <= k < |rows| ==>
      (k in KeptIndices(rows, lo, hi) <==> InRange(rows[k].input.fecha, lo, hi))
  {
    if |rows| > 0 {
      var n := |rows| - 1;
      var p := rows[..n];
      KeptIndicesExact(p, lo, hi);
      KeptIndicesIncrease(p, lo, hi);
      var pidx := KeptIndices(p, lo, hi);
      assert forall j :: 0 <= j < |pidx| ==> pidx[j] != n;
      forall k | 0 <= k < n
        ensures k in KeptIndices(rows, lo, hi) <==> InRange(rows[k].input.fecha, lo, hi)
      {
        assert p[k] == rows[k];
      }
    }
  }

  /** The j-th kept row is the row at the j-th kept position. */
  lemma {:induction false} SelectAtKept(rows: seq<Row>, lo: Option<int>, hi: Option<int>)
    ensures |Select(rows, lo, hi)| == |KeptIndices(rows, lo, hi)|
    ensures forall j :: 0 <= j < |KeptIndices(rows, lo, hi)| ==>
      0 <= KeptIndices(rows, lo, hi)[j] < |rows| &&
      Select(rows, lo, hi)[j] == rows[KeptIndices(rows, lo, hi)[j]]
  {
    KeptIndicesIncrease(rows, lo, hi);
    if |rows| > 0 {
      var n := |rows| - 1;
      var p := rows[..n];
      SelectAtKept(p, lo, hi);
      KeptIndicesIncrease(p, lo, hi);
      var pidx := KeptIndices(p, lo, hi);
      forall j | 0 <= j < |pidx|
        ensures Select(rows, lo, hi)[j] == rows[KeptIndices(rows, lo, hi)[j]]
      {
        assert p[pidx[j]] == rows[pidx[j]];
      }
    }
  }

  /** The filter keeps exactly the rows whose date passes the mask, in their
      original relative order: the j-th kept row is the row at the j-th kept
      position, the kept positions increase, and a position is kept exactly
      when its row passes the mask. */
  lemma SelectKeepsOrder(rows: seq<Row>, lo: Option<int>, hi: Option<int>)
    ensures var s, idx := Select(rows, lo, hi), KeptIndices(rows, lo, hi);
      && |s| == |idx|
      && (forall j :: 0 <= j < |idx| ==> 0 <= idx[j] < |rows| && s[j] == rows[idx[j]])
      && (forall j, j' :: 0 <= j < j' < |idx| ==> idx[j] < idx[j'])
      && (forall k :: 0 <= k < |rows| ==> (k in idx <==> InRange(rows[k].input.fecha, lo, hi)))
  {
    KeptIndicesIncrease(rows, lo, hi);
    KeptIndicesExact(rows, lo, hi);
    SelectAtKept(rows, lo, hi);
  }

  /** A row is in the filtered table exactly when it is in the table and its
      date passes the mask. */
  lemma {:induction false} SelectMembership(rows: seq<Row>, lo: Option<int>, hi: Option<int>, r: Row)
    ensures r in Select(rows, lo, hi) <==> r in rows && InRange(r.input.fecha, lo, hi)
  {
    if |rows| > 0 {
      var n := |rows| - 1;
      SelectMembership(rows[..n], lo, hi, r);
      assert rows == rows[..n] + [rows[n]];
    }
  }

  /** Filtering distributes over concatenation: the rows kept from `a + b` are
      those kept from `a` followed by those kept from `b`. */
  lemma {:induction false} SelectAppend(a: seq<Row>, b: seq<Row>, lo: Option<int>, hi: Option<int>)
    ensures Select(a + b, lo, hi) == Select(a, lo, hi) + Select(b, lo, hi)
  {
    if |b| > 0 {
      var n := |b| - 1;
      assert (a + b)[..|a + b| - 1] == a + b[..n];
      SelectAppend(a, b[..n], lo, hi);
    } else {
      assert a + b == a;
    }
  }

  /** When every row passes the mask, the filter keeps the whole table. */
  lemma {:induction false} SelectAll(rows: seq<Row>, lo: Option<int>, hi: Option<int>)
    requires forall k :: 0 <= k < |rows| ==> InRange(rows[k].input.fecha, lo, hi)
    ensures Select(rows, lo, hi) == rows
  {
    if |rows| > 0 {
      var n := |rows| - 1;
      SelectAll(rows[..n], lo, hi);
      assert rows == rows[..n] + [rows[n]];
    }
  }

  /** An empty date range, and in particular a start after the end, gives
      an empty filtered table and so an empty chart. */
  lemma {:induction false} SelectEmptyRange(rows: seq<Row>, lo: int, hi: int)
    requires hi < lo
    ensures Select(rows, Some(lo), Some(hi)) == []
  {
    if |rows| > 0 {
      SelectEmptyRange(rows[..|rows| - 1], lo, hi);
    }
  }

  /** With both bounds absent the range runs from the earliest to the latest
      date, and every row is kept. */
  lemma DefaultBoundsKeepAll(rows: seq<Row>)
    ensures FilterByDate(rows, None, None) == rows
  {
    if |rows| > 0 {
      SelectAll(rows, StartBound(rows, None), EndBound(rows, None));
    }
  }

  /** A range of a single day keeps exactly the rows of that date. */
  lemma SingleDay(rows: seq<Row>, d: int, r: Row)
    ensures r in FilterByDate(rows, Some(d), Some(d)) <==> r in rows && r.input.fecha == d
  {
    SelectMembership(rows, Some(d), Some(d), r);
  }
}
