/** The indicator pipeline as a specification: the columns appended to every
    row of the table, as functions of the input columns. */
module Pipeline {
  import opened Wrappers
  import opened Indicators
  import opened Rolling

  /** The length of the trailing window of both stochastic indices
      (156 weekly reports, three years). */
  const Window: nat := 156

  /** The columns appended to one row. */
  datatype Derived = Derived(
    nc: CategoryColumns,
    com: CategoryColumns,
    retail: CategoryColumns,
    lowestCom: Option<int>, highestCom: Option<int>, indexCom: Option<real>,
    lowestOI: Option<int>, highestOI: Option<int>, indexOI: Option<real>,
    clOI: Option<real>, csOI: Option<real>)

  /** The "Posiciones Netas Com" column. */
  function NetComColumn(rows: seq<Record>): (c: seq<int>)
    ensures |c| == |rows|
  {
    seq(|rows|, i requires 0 <= i < |rows| => rows[i].comLong - rows[i].comShort)
  }

  /** The "OI" column. */
  function OIColumn(rows: seq<Record>): (c: seq<int>)
    ensures |c| == |rows|
  {
    seq(|rows|, i requires 0 <= i < |rows| => rows[i].oi)
  }

  /** The derived columns of row `i`, given the already computed rolling
      bounds of that row. */
  function Assemble(r: Record,
                    lowestCom: Option<int>, highestCom: Option<int>,
                    lowestOI: Option<int>, highestOI: Option<int>): Derived
  {
    Derived(
      Category(r.ncLong, r.ncShort),
      Category(r.comLong, r.comShort),
      Category(r.retailLong, r.retailShort),
      lowestCom, highestCom, Stochastic(r.comLong - r.comShort, lowestCom, highestCom),
      lowestOI, highestOI, Stochastic(r.oi, lowestOI, highestOI),
      Percent(r.comLong, r.oi), Percent(r.comShort, r.oi))
  }

  /** The derived columns of row `i` of the table. */
  function DeriveRow(rows: seq<Record>, i: nat): Derived
    requires i < |rows|
  {
    Assemble(rows[i],
             RollingMin(NetComColumn(rows), Window, i), RollingMax(NetComColumn(rows), Window, i),
             RollingMin(OIColumn(rows), Window, i), RollingMax(OIColumn(rows), Window, i))
  }

  /** The derived columns of the whole table, one entry per row, in row
      order. */
  function Derive(rows: seq<Record>): (d: seq<Derived>)
    ensures |d| == |rows|
  {
    seq(|rows|, i requires 0 <= i < |rows| => DeriveRow(rows, i))
  }

  /** Each category's columns are `Category` of that row's long and short
      counts, so `CategorySpec` holds of them: the net positions are exactly
      long minus short, the three percentages are defined exactly when long +
      short is non-zero, and then the shares add up to 100 and the spread is
      their difference, the net position as a percentage of long + short. */
  lemma DeriveCategories(rows: seq<Record>, i: nat)
    requires i < |rows|
    ensures Derive(rows)[i].nc == Category(rows[i].ncLong, rows[i].ncShort)
    ensures Derive(rows)[i].com == Category(rows[i].comLong, rows[i].comShort)
    ensures Derive(rows)[i].retail == Category(rows[i].retailLong, rows[i].retailShort)
    ensures Derive(rows)[i].nc.net == rows[i].ncLong - rows[i].ncShort
    ensures Derive(rows)[i].com.net == rows[i].comLong - rows[i].comShort
    ensures Derive(rows)[i].retail.net == rows[i].retailLong - rows[i].retailShort
    ensures var d, r := Derive(rows)[i], rows[i];
      && (d.com.pctLong.Some? <==> r.comLong + r.comShort != 0)
      && (d.com.pctShort.Some? <==> r.comLong + r.comShort != 0)
      && (d.com.pctSpread.Some? <==> r.comLong + r.comShort != 0)
      && (r.comLong + r.comShort != 0 ==>
            d.com.pctLong.value + d.com.pctShort.value == 100.0 &&
            d.com.pctSpread.value == d.com.pctLong.value - d.com.pctShort.value &&
            d.com.pctSpread == Percent(r.comLong - r.comShort, r.comLong + r.comShort))
      && (d.nc.pctLong.Some? <==> r.ncLong + r.ncShort != 0)
      && (d.nc.pctShort.Some? <==> r.ncLong + r.ncShort != 0)
      && (d.nc.pctSpread.Some? <==> r.ncLong + r.ncShort != 0)
      && (r.ncLong + r.ncShort != 0 ==>
            d.nc.pctLong.value + d.nc.pctShort.value == 100.0 &&
            d.nc.pctSpread.value == d.nc.pctLong.value - d.nc.pctShort.value &&
            d.nc.pctSpread == Percent(r.ncLong - r.ncShort, r.ncLong + r.ncShort))
      && (d.retail.pctLong.Some? <==> r.retailLong + r.retailShort != 0)
      && (d.retail.pctShort.Some? <==> r.retailLong + r.retailShort != 0)
      && (d.retail.pctSpread.Some? <==> r.retailLong + r.retailShort != 0)
      && (r.retailLong + r.retailShort != 0 ==>
            d.retail.pctLong.value + d.retail.pctShort.value == 100.0 &&
            d.retail.pctSpread.value == d.retail.pctLong.value - d.retail.pctShort.value &&
            d.retail.pctSpread == Percent(r.retailLong - r.retailShort, r.retailLong + r.retailShort))
  {
    var r := rows[i];
    CategorySpec(r.ncLong, r.ncShort);
    CategorySpec(r.comLong, r.comShort);
    CategorySpec(r.retailLong, r.retailShort);
  }

  /** The Commercial bounds and index: undefined on the first 155 rows;
      afterwards the lowest and highest are the extremes of the 156 net
      Commercial positions (Com Long - Com Short of the table's rows) ending
      at the row, bracket the row's own net
      position, and the index is defined exactly when the range is not flat
      and then is (net - lowest) / (highest - lowest) * 100, in [0, 100]. */
  lemma DeriveComIndex(rows: seq<Record>, i: nat)
    requires i < |rows|
    ensures var d := Derive(rows)[i];
      && (d.lowestCom.None? <==> i < Window - 1)
      && (d.highestCom.None? <==> i < Window - 1)
      && (d.lowestCom.Some? ==>
            d.lowestCom == Some(SeqMin(Trailing(NetComColumn(rows), Window, i))) &&
            d.highestCom == Some(SeqMax(Trailing(NetComColumn(rows), Window, i))) &&
            d.lowestCom.value <= d.com.net <= d.highestCom.value)
      && (d.indexCom.Some? <==>
            Window - 1 <= i && d.lowestCom.value < d.highestCom.value)
      && (d.indexCom.Some? ==> 0.0 <= d.indexCom.value <= 100.0)
      && (d.indexCom.Some? ==>
            d.indexCom.value * (d.highestCom.value - d.lowestCom.value) as real ==
            100.0 * (d.com.net - d.lowestCom.value) as real)
    ensures Window - 1 <= i ==>
      var lo, hi := Derive(rows)[i].lowestCom.value, Derive(rows)[i].highestCom.value;
      && (exists k :: i + 1 - Window <= k <= i && rows[k].comLong - rows[k].comShort == lo)
      && (exists k :: i + 1 - Window <= k <= i && rows[k].comLong - rows[k].comShort == hi)
      && (forall k :: i + 1 - Window <= k <= i ==> lo <= rows[k].comLong - rows[k].comShort <= hi)
  {
    var c := NetComColumn(rows);
    RollingBounds(c, Window, i);
    assert forall k :: 0 <= k < |rows| ==> c[k] == rows[k].comLong - rows[k].comShort;
    assert c[i] == Derive(rows)[i].com.net;
    if Window - 1 <= i {
      var lo, hi := RollingMin(c, Window, i).value, RollingMax(c, Window, i).value;
      StochasticDefined(c[i], Some(lo), Some(hi));
      if lo < hi {
        StochasticInRange(c[i], lo, hi);
      }
    }
  }

  /** The open-interest bounds and index, with the same guarantees as
      `DeriveComIndex`, over the OI values of the table's rows. */
  lemma DeriveOIIndex(rows: seq<Record>, i: nat)
    requires i < |rows|
    ensures var d := Derive(rows)[i];
      && (d.lowestOI.None? <==> i < Window - 1)
      && (d.highestOI.None? <==> i < Window - 1)
      && (d.lowestOI.Some? ==>
            d.lowestOI == Some(SeqMin(Trailing(OIColumn(rows), Window, i))) &&
            d.highestOI == Some(SeqMax(Trailing(OIColumn(rows), Window, i))) &&
            d.lowestOI.value <= rows[i].oi <= d.highestOI.value)
      && (d.indexOI.Some? <==>
            Window - 1 <= i && d.lowestOI.value < d.highestOI.value)
      && (d.indexOI.Some? ==> 0.0 <= d.indexOI.value <= 100.0)
      && (d.indexOI.Some? ==>
            d.indexOI.value * (d.highestOI.value - d.lowestOI.value) as real ==
            100.0 * (rows[i].oi - d.lowestOI.value) as real)
    ensures Window - 1 <= i ==>
      var lo, hi := Derive(rows)[i].lowestOI.value, Derive(rows)[i].highestOI.value;
      && (exists k :: i + 1 - Window <= k <= i && rows[k].oi == lo)
      && (exists k :: i + 1 - Window <= k <= i && rows[k].oi == hi)
      && (forall k :: i + 1 - Window <= k <= i ==> lo <= rows[k].oi <= hi)
  {
    var c := OIColumn(rows);
    RollingBounds(c, Window, i);
    assert forall k :: 0 <= k < |rows| ==> c[k] == rows[k].oi;
    if Window - 1 <= i {
      var lo, hi := RollingMin(c, Window, i).value, RollingMax(c, Window, i).value;
      StochasticDefined(c[i], Some(lo), Some(hi));
      if lo < hi {
        StochasticInRange(c[i], lo, hi);
      }
    }
  }

  /** The two columns the rolling windows run over are the table's net
      Commercial positions and its open interest, row by row. */
  lemma RollingColumns(rows: seq<Record>, k: nat)
    requires k < |rows|
    ensures NetComColumn(rows)[k] == Derive(rows)[k].com.net
    ensures NetComColumn(rows)[k] == rows[k].comLong - rows[k].comShort
    ensures OIColumn(rows)[k] == rows[k].oi
  {
  }

  /** CL/OI and CS/OI have no finite value exactly when OI is zero; otherwise
      they are the Commercial long and short counts as percentages of OI. */
  lemma DeriveOIRatios(rows: seq<Record>, i: nat)
    requires i < |rows|
    ensures var d, r := Derive(rows)[i], rows[i];
      && (d.clOI.None? <==> r.oi == 0)
      && (d.csOI.None? <==> r.oi == 0)
      && (r.oi != 0 ==>
            d.clOI.value * r.oi as real == 100.0 * r.comLong as real &&
            d.csOI.value * r.oi as real == 100.0 * r.comShort as real)
  {
    PercentSpec(rows[i].comLong, rows[i].oi);
    PercentSpec(rows[i].comShort, rows[i].oi);
  }

  /** No look-ahead: the derived columns of a row depend only on that row and
      the rows before it, so deriving a prefix of the table gives the same
      values as deriving the whole table. */
  lemma DerivePrefix(rows: seq<Record>, n: nat, i: nat)
    requires i < n <= |rows|
    ensures Derive(rows[..n])[i] == Derive(rows)[i]
  {
    var p := rows[..n];
    assert NetComColumn(p) == NetComColumn(rows)[..n];
    assert OIColumn(p) == OIColumn(rows)[..n];
    if Window - 1 <= i {
      assert Trailing(NetComColumn(p), Window, i) == Trailing(NetComColumn(rows), Window, i);
      assert Trailing(OIColumn(p), Window, i) == Trailing(OIColumn(rows), Window, i);
    }
  }
}
