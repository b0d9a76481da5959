/** The analyzer object: it holds the table, appends the derived columns to
    it in place once, and builds the chart from the enriched table. */
module Analyzer {
  import opened Wrappers
  import opened Indicators
  import opened Rolling
  import opened Pipeline
  import opened Chart

  class COTAnalyzer {
    /** The input columns of the table, one record per row. */
    var data: seq<Record>
    /** The columns appended to the table, one entry per row. */
    var derived: seq<Derived>

    /** The table is enriched: its appended columns are the ones derived
        from its input columns, one set per row. */
    ghost predicate Valid()
      reads this
    {
      derived == Derive(data)
    }

    /** The enriched table, row by row. */
    function Table(): (t: seq<Row>)
      reads this
      requires Valid()
      ensures |t| == |data|
      ensures forall i :: 0 <= i < |t| ==> t[i].input == data[i] && t[i].derived == derived[i]
    {
      var inputs, columns := data, derived;
      seq(|inputs|, i requires 0 <= i < |inputs| => Row(inputs[i], columns[i]))
    }

    /** Loads an already read table and enriches it. */
    constructor (rows: seq<Record>)
      ensures Valid()
      ensures data == rows && derived == Derive(rows)
    {
      data := rows;
      derived := [];
      new;
      CreateAdditionalColumns();
    }

    /** Appends every derived column: the net positions and percentages of
        the three categories, the 156-row rolling bounds and stochastic
        indices of the net Commercial position and of open interest, and the
        Commercial long and short counts as percentages of open interest.
        The input columns, the row count and the row order are unchanged. */
    method CreateAdditionalColumns()
      modifies this
      ensures data == old(data)
      ensures Valid()
      ensures derived == Derive(data)
    {
      var rows := data;
      var n := |rows|;
      var lowestCom, highestCom := RollingExtrema(NetComColumn(rows), Window);
      var lowestOI, highestOI := RollingExtrema(OIColumn(rows), Window);
      var columns := new Derived[n];
      for i := 0 to n
        modifies columns
        invariant forall k :: 0 <= k < i ==> columns[k] == DeriveRow(rows, k)
      {
        columns[i] := Assemble(rows[i], lowestCom[i], highestCom[i], lowestOI[i], highestOI[i]);
      }
      derived := columns[..];
    }

    /** The chart of the rows dated from `start` to `end`, both inclusive; an
        absent bound defaults to the earliest or latest date of the table.
        Every point of the chart comes from one row of the table: its date,
        its closing price and its Non-Commercial and Commercial long minus
        short. */
    method PlotDataOneGraph(start: Option<int>, end: Option<int>) returns (fig: ChartData)
      requires Valid()
      ensures fig == BuildChart(Table(), start, end)
      ensures forall j :: 0 <= j < |fig.dates| ==>
        exists k ::
          && 0 <= k < |data|
          && fig.dates[j] == data[k].fecha
          && fig.cierre[j] == data[k].cierre
          && fig.netNC[j] == data[k].ncLong - data[k].ncShort
          && fig.netCom[j] == data[k].comLong - data[k].comShort
    {
      var table := Table();
      fig := BuildChart(table, start, end);
      var lo, hi := StartBound(table, start), EndBound(table, end);
      SelectAtKept(table, lo, hi);
      forall j | 0 <= j < |fig.dates|
        ensures exists k ::
          && 0 <= k < |data|
          && fig.dates[j] == data[k].fecha
          && fig.cierre[j] == data[k].cierre
          && fig.netNC[j] == data[k].ncLong - data[k].ncShort
          && fig.netCom[j] == data[k].comLong - data[k].comShort
      {
        var k := KeptIndices(table, lo, hi)[j];
        DeriveCategories(data, k);
        assert table[k].derived == Derive(data)[k];
      }
    }
  }
}
