/** The per-row formulas of the indicator pipeline: net positions, long and
    short shares with their spread, the stochastic index and the ratios to
    open interest. Counts are integers; percentages are exact reals, and a
    division by zero yields `None` instead of NaN or infinity. */
module Indicators {
  import opened Wrappers

  /** One reporting week: the input columns of the table. `fecha` is the
      report date as a day ordinal, `cierre` the closing price. */
  datatype Record = Record(
    fecha: int,
    cierre: real,
    oi: int,
    ncLong: int, ncShort: int,
    comLong: int, comShort: int,
    retailLong: int, retailShort: int)

  /** The columns derived for one trader category: "Posiciones Netas",
      "% Largos", "% Cortos" and "% Diferencial". */
  datatype CategoryColumns = CategoryColumns(
    net: int,
    pctLong: Option<real>,
    pctShort: Option<real>,
    pctSpread: Option<real>)

  /** `part / whole * 100`; undefined when `whole` is zero. */
  function Percent(part: int, whole: int): Option<real>
  {
    if whole == 0 then None else Some(part as real / whole as real * 100.0)
  }

  /** Difference of two columns; undefined if either operand is. */
  function Minus(a: Option<real>, b: Option<real>): Option<real>
  {
    if a.Some? && b.Some? then Some(a.value - b.value) else None
  }

  /** The four columns of one category, from its long and short counts. The
      spread is taken from the unformatted shares. */
  function Category(long: int, short: int): CategoryColumns
  {
    var pctLong := Percent(long, long + short);
    var pctShort := Percent(short, long + short);
    CategoryColumns(long - short, pctLong, pctShort, Minus(pctLong, pctShort))
  }

  /** The stochastic index `(x - low) / (high - low) * 100`; undefined when a
      bound is undefined or the range is flat. */
  function Stochastic(x: int, low: Option<int>, high: Option<int>): Option<real>
  {
    if low.Some? && high.Some? && high.value != low.value then
      Some((x - low.value) as real / (high.value - low.value) as real * 100.0)
    else
      None
  }

  /** A percentage is defined exactly when its denominator is non-zero, and
      then it is the number that, times the denominator, gives 100 times the
      part. */
  lemma PercentSpec(part: int, whole: int)
    ensures Percent(part, whole).Some? <==> whole != 0
    ensures Percent(part, whole).Some? ==>
      Percent(part, whole).value * whole as real == 100.0 * part as real
    ensures 0 <= part <= whole && whole != 0 ==>
      0.0 <= Percent(part, whole).value <= 100.0
  {
    if whole != 0 {
      var q := part as real / whole as real;
      assert q * whole as real == part as real;
      if 0 <= part <= whole {
        assert 0.0 <= q <= 1.0;
      }
    }
  }

  /** The net position is exactly long minus short. The three percentages
      are defined exactly when long + short is non-zero; then the shares add
      up to 100, the spread is their difference, and the spread is the net
      position as a percentage of long + short. With non-negative counts both
      shares lie in [0, 100]. */
  lemma CategorySpec(long: int, short: int)
    ensures Category(long, short).net == long - short
    ensures Category(long, short).pctLong.Some? <==> long + short != 0
    ensures Category(long, short).pctShort.Some? <==> long + short != 0
    ensures Category(long, short).pctSpread.Some? <==> long + short != 0
    ensures long + short != 0 ==>
      var c := Category(long, short);
      && c.pctLong.value + c.pctShort.value == 100.0
      && c.pctSpread.value == c.pctLong.value - c.pctShort.value
      && c.pctSpread == Percent(long - short, long + short)
    ensures 0 <= long && 0 <= short && long + short != 0 ==>
      var c := Category(long, short);
      && 0.0 <= c.pctLong.value <= 100.0
      && 0.0 <= c.pctShort.value <= 100.0
  {
    var total := long + short;
    if total != 0 {
      var t := total as real;
      var l := long as real / t;
      var s := short as real / t;
      assert l * t == long as real;
      assert s * t == short as real;
      calc {
        (l + s) * t;
        l * t + s * t;
        long as real + short as real;
        t;
      }
      assert l + s == 1.0;
      assert (l - s) * t == l * t - s * t;
      assert (l - s) * t == (long - short) as real;
      assert l - s == (long - short) as real / t;
      PercentSpec(long, total);
      PercentSpec(short, total);
    }
  }

  /** Where the current value lies inside its non-flat range, the index is
      defined and lies in [0, 100]: 0 at the low end, 100 at the high end. */
  lemma StochasticInRange(x: int, low: int, high: int)
    requires low <= x <= high
    requires low < high
    ensures Stochastic(x, Some(low), Some(high)).Some?
    ensures 0.0 <= Stochastic(x, Some(low), Some(high)).value <= 100.0
    ensures x == low ==> Stochastic(x, Some(low), Some(high)).value == 0.0
    ensures x == high ==> Stochastic(x, Some(low), Some(high)).value == 100.0
  {
    var q := (x - low) as real / (high - low) as real;
    assert q * (high - low) as real == (x - low) as real;
    assert 0.0 <= q <= 1.0;
  }

  /** The index is undefined exactly when a bound is undefined or the range
      is flat; otherwise it is the number that, times the range, gives 100
      times the distance of `x` above the low bound. */
  lemma StochasticDefined(x: int, low: Option<int>, high: Option<int>)
    ensures Stochastic(x, low, high).None? <==>
      low.None? || high.None? || low.value == high.value
    ensures Stochastic(x, low, high).Some? ==>
      Stochastic(x, low, high).value * (high.value - low.value) as real ==
      100.0 * (x - low.value) as real
  {
    if Stochastic(x, low, high).Some? {
      var q := (x - low.value) as real / (high.value - low.value) as real;
      assert q * (high.value - low.value) as real == (x - low.value) as real;
    }
  }

  /** A worked example: a net position of 500 in a window ranging from -1000
      to 2000 sits at 50%. */
  lemma StochasticExample()
    ensures Stochastic(500, Some(-1000), Some(2000)) == Some(50.0)
  {
  }
}
