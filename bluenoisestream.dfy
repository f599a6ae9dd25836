/** The noise streams of BlueNoiseStream.h.

    Each stream filters uniform white noise with a three-tap filter over the
    current random value and the two previous ones, shifts its two-entry
    history, and maps the filtered (no longer uniform) value back towards a
    uniform one: BlueNoiseStreamLUT through a 64-entry table of the CDF,
    BlueNoiseStreamPolynomial and RedNoiseStreamPolynomial through a
    piecewise cubic chosen without branching and evaluated in Horner form.
    The random value that RandomFloat01 would draw is a parameter of Next. */
module BlueNoiseStream {
  import opened MathUtils
  import opened Polynomial

  function MinInt(a: int, b: int): int { if a <= b then a else b }

  /** C++ int(f): truncation toward zero. */
  function Trunc(f: real): (i: int)
    ensures 0.0 <= f ==> i == f.Floor
    ensures -1.0 < f ==> 0 <= i
    ensures i as real <= f || f < 0.0
  {
    if f >= 0.0 then f.Floor else -((-f).Floor)
  }

  // ---------------------------------------------------------------------------
  // The filters
  // ---------------------------------------------------------------------------

  /** The blue (high-pass) filter 0.5 * value - 1.0 * last0 + 0.5 * last1. Its taps
      sum to 0, so a constant signal is removed; on inputs in [0, 1] the output
      stays in [-1, 1], and in (-1, 1) when the inputs stay below 1. */
  function BlueFilter(value: real, last0: real, last1: real): (y: real)
    ensures 0.0 <= value <= 1.0 && 0.0 <= last0 <= 1.0 && 0.0 <= last1 <= 1.0 ==> -1.0 <= y <= 1.0
    ensures 0.0 <= value < 1.0 && 0.0 <= last0 < 1.0 && 0.0 <= last1 < 1.0 ==> -1.0 < y < 1.0
    ensures value == last0 == last1 ==> y == 0.0
  {
    value * 0.5 + last0 * -1.0 + last1 * 0.5
  }

  /** y * 0.5 + 0.5 maps [-1, 1] onto [0, 1], and (-1, 1) into (0, 1). */
  function ToUnit(y: real): (x: real)
    ensures -1.0 <= y <= 1.0 ==> 0.0 <= x <= 1.0
    ensures -1.0 < y < 1.0 ==> 0.0 < x < 1.0
    ensures y == 0.0 ==> x == 0.5
  {
    y * 0.5 + 0.5
  }

  /** The red (low-pass) filter 0.25 * value + 0.5 * last0 + 0.25 * last1. Its taps
      sum to 1, so a constant signal passes unchanged and inputs in [0, 1]
      (resp. [0, 1)) give an output in [0, 1] (resp. [0, 1)). */
  function RedFilter(value: real, last0: real, last1: real): (y: real)
    ensures 0.0 <= value <= 1.0 && 0.0 <= last0 <= 1.0 && 0.0 <= last1 <= 1.0 ==> 0.0 <= y <= 1.0
    ensures 0.0 <= value < 1.0 && 0.0 <= last0 < 1.0 && 0.0 <= last1 < 1.0 ==> 0.0 <= y < 1.0
    ensures value == last0 == last1 ==> y == value
  {
    value * 0.25 + last0 * 0.5 + last1 * 0.25
  }

  // ---------------------------------------------------------------------------
  // The CDF lookup table
  // ---------------------------------------------------------------------------

  /** The tabulated CDF of the blue-filtered noise, at x = i / 63 for i in 0..63,
      written as eight rows of eight entries. */
  const LutRow0: seq<real> := [0.000008, 0.000126, 0.000478, 0.001155, 0.002251, 0.004030, 0.006441, 0.009596]
  const LutRow1: seq<real> := [0.013695, 0.018927, 0.025355, 0.033032, 0.042107, 0.052496, 0.064787, 0.078712]
  const LutRow2: seq<real> := [0.094684, 0.112292, 0.131824, 0.152818, 0.175335, 0.199049, 0.224476, 0.250783]
  const LutRow3: seq<real> := [0.277852, 0.305973, 0.334680, 0.363986, 0.393945, 0.424846, 0.455969, 0.486683]
  const LutRow4: seq<real> := [0.517827, 0.548521, 0.579180, 0.609718, 0.639919, 0.669180, 0.698089, 0.726230]
  const LutRow5: seq<real> := [0.753389, 0.779630, 0.804358, 0.828272, 0.850459, 0.871144, 0.890308, 0.907814]
  const LutRow6: seq<real> := [0.923487, 0.937238, 0.949365, 0.959586, 0.968409, 0.975893, 0.982001, 0.987002]
  const LutRow7: seq<real> := [0.990933, 0.994027, 0.996302, 0.997890, 0.998971, 0.999558, 0.999887, 0.999991]
  const LUT: seq<real> := LutRow0 + LutRow1 + LutRow2 + LutRow3 + LutRow4 + LutRow5 + LutRow6 + LutRow7

  /** lutSize, the number of table entries. */
  const LutSize: nat := 64

  ghost predicate StrictlyIncreasing(s: seq<real>)
  {
    forall i :: 0 <= i < |s| - 1 ==> s[i] < s[i + 1]
  }

  /** Two strictly increasing runs joined where the first ends below the second's start. */
  lemma IncreasingAppend(a: seq<real>, b: seq<real>)
    requires StrictlyIncreasing(a) && StrictlyIncreasing(b)
    requires |a| > 0 && |b| > 0 && a[|a| - 1] < b[0]
    ensures StrictlyIncreasing(a + b)
  {
    forall i | 0 <= i < |a + b| - 1
      ensures (a + b)[i] < (a + b)[i + 1]
    {
      if i < |a| - 1 {
        assert (a + b)[i] == a[i] && (a + b)[i + 1] == a[i + 1];
      } else if i == |a| - 1 {
        assert (a + b)[i] == a[i] && (a + b)[i + 1] == b[0];
      } else {
        assert (a + b)[i] == b[i - |a|] && (a + b)[i + 1] == b[i + 1 - |a|];
      }
    }
  }

  /** Each row of the table increases strictly. */
  lemma LutRowsIncreasing()
    ensures StrictlyIncreasing(LutRow0) && StrictlyIncreasing(LutRow1)
    ensures StrictlyIncreasing(LutRow2) && StrictlyIncreasing(LutRow3)
    ensures StrictlyIncreasing(LutRow4) && StrictlyIncreasing(LutRow5)
    ensures StrictlyIncreasing(LutRow6) && StrictlyIncreasing(LutRow7)
  {
  }

  /** The rows joined in order increase strictly. */
  lemma LutIncreasing()
    ensures |LUT| == LutSize && StrictlyIncreasing(LUT)
  {
    LutRowsIncreasing();
    var s := LutRow0;
    IncreasingAppend(s, LutRow1);
    s := s + LutRow1;
    IncreasingAppend(s, LutRow2);
    s := s + LutRow2;
    IncreasingAppend(s, LutRow3);
    s := s + LutRow3;
    IncreasingAppend(s, LutRow4);
    s := s + LutRow4;
    IncreasingAppend(s, LutRow5);
    s := s + LutRow5;
    IncreasingAppend(s, LutRow6);
    s := s + LutRow6;
    IncreasingAppend(s, LutRow7);
    s := s + LutRow7;
  }

  /** The table is a CDF: 64 entries, strictly increasing, all strictly between 0 and 1. */
  lemma LutIsCdf()
    ensures |LUT| == LutSize
    ensures forall i :: 0 <= i < LutSize - 1 ==> LUT[i] < LUT[i + 1]
    ensures forall i :: 0 <= i < LutSize ==> 0.0 < LUT[i] < 1.0
  {
    LutIncreasing();
    IncreasingBounded(LUT, 0);
    assert LUT[0] == 0.000008 && LUT[63] == 0.999991;
  }

  /** In a strictly increasing sequence, entry i is at most every later entry
      and at most the last one. */
  lemma {:induction false} IncreasingBounded(s: seq<real>, i: nat)
    requires i < |s| && StrictlyIncreasing(s)
    ensures forall j :: i <= j < |s| ==> s[i] <= s[j] <= s[|s| - 1]
    decreases |s| - i
  {
    if i < |s| - 1 {
      IncreasingBounded(s, i + 1);
    }
  }

  /** The table is nondecreasing between any two positions. */
  lemma LutOrdered(i: int, j: int)
    requires 0 <= i <= j < LutSize
    ensures LUT[i] <= LUT[j]
  {
    LutIncreasing();
    IncreasingBounded(LUT, i);
  }

  /** The two table positions read for x and the fraction between them. */
  datatype LutIndex = LutIndex(index1: int, index2: int, fract: real)

  /** xindexf = min(x * (lutSize - 1), lutSize - 1), xindex1 = int(xindexf),
      xindex2 = min(xindex1 + 1, lutSize - 1), fract = xindexf - floor(xindexf).
      The source needs x * 63 > -1, or int() gives a negative index. Both
      indices are then in bounds, and for x in [0, 1] index1 + fract recovers x * 63. */
  function LutIndexOf(x: real): (k: LutIndex)
    requires x * 63.0 > -1.0
    ensures 0 <= k.index1 <= LutSize - 1
    ensures k.index2 == MinInt(k.index1 + 1, LutSize - 1)
    ensures 0.0 <= k.fract < 1.0
    ensures 0.0 <= x <= 1.0 ==> k.index1 as real + k.fract == x * 63.0
    ensures 1.0 <= x ==> k.index1 == LutSize - 1 && k.fract == 0.0
  {
    var xindexf := Min(x * (LutSize - 1) as real, (LutSize - 1) as real);
    var xindex1 := Trunc(xindexf);
    LutIndex(xindex1, MinInt(xindex1 + 1, LutSize - 1), xindexf - xindexf.Floor as real)
  }

  /** The LUT path of BlueNoiseStreamLUT::Next: exactly 0 at x == 0 and exactly 1
      from x == 1 on; elsewhere the linear interpolation of the two table entries
      around x * 63. */
  function LutCdf(x: real): (r: real)
    requires x * 63.0 > -1.0
    ensures x == 0.0 ==> r == 0.0
    ensures 1.0 <= x ==> r == 1.0
    ensures 0.0 < x < 1.0 ==>
      var k := LutIndexOf(x); r == Lerp(LUT[k.index1], LUT[k.index1 + 1], k.fract)
    ensures 0.0 <= r <= 1.0
  {
    LutIsCdf();
    var k := LutIndexOf(x);
    var (y1, y2) :=
      if k.index1 == 0 && k.fract == 0.0 then (0.0, 0.0)
      else if k.index1 == LutSize - 1 then (1.0, 1.0)
      else (LUT[k.index1], LUT[k.index2]);
    Lerp(y1, y2, k.fract)
  }

  /** For x in (0, 1) the result lies between table entries index1 and index1 + 1. */
  lemma LutCdfBracketed(x: real)
    requires 0.0 < x < 1.0
    ensures LutIndexOf(x).index1 < LutSize - 1
    ensures LUT[LutIndexOf(x).index1] <= LutCdf(x) <= LUT[LutIndexOf(x).index1 + 1]
  {
    var k := LutIndexOf(x);
    LutIsCdf();
    assert k.index1 < LutSize - 1;
    assert LUT[k.index1] < LUT[k.index1 + 1];
  }

  /** Larger x reads the table at the same or a later position. */
  lemma LutIndexMonotone(x: real, x': real)
    requires 0.0 <= x <= x' <= 1.0
    ensures LutIndexOf(x).index1 <= LutIndexOf(x').index1
    ensures LutIndexOf(x).index1 == LutIndexOf(x').index1 ==> LutIndexOf(x).fract <= LutIndexOf(x').fract
  {
    var k, k' := LutIndexOf(x), LutIndexOf(x');
    var i, i' := k.index1 as real, k'.index1 as real;
    assert x * 63.0 <= x' * 63.0;
    assert i + k.fract <= i' + k'.fract;
  }

  /** The table lookup is a CDF again: nondecreasing in x on [0, infinity). */
  lemma LutCdfMonotone(x: real, x': real)
    requires 0.0 <= x <= x'
    ensures LutCdf(x) <= LutCdf(x')
  {
    if x == 0.0 || 1.0 <= x' {
      return;
    }
    LutIndexMonotone(x, x');
    if LutIndexOf(x).index1 == LutIndexOf(x').index1 {
      LutCdfSameCell(x, x');
    } else {
      LutCdfBracketed(x);
      LutCdfBracketed(x');
      LutOrdered(LutIndexOf(x).index1 + 1, LutIndexOf(x').index1);
    }
  }

  /** Within one table cell the lookup grows with the fraction. */
  lemma LutCdfSameCell(x: real, x': real)
    requires 0.0 < x <= x' < 1.0
    requires LutIndexOf(x).index1 == LutIndexOf(x').index1
    requires LutIndexOf(x).fract <= LutIndexOf(x').fract
    ensures LutCdf(x) <= LutCdf(x')
  {
    var k, k' := LutIndexOf(x), LutIndexOf(x');
    LutCdfBracketed(x);
    LutOrdered(k.index1, k.index1 + 1);
    LerpMonotone(LUT[k.index1], LUT[k.index1 + 1], k.fract, k'.fract);
  }

  // ---------------------------------------------------------------------------
  // The piecewise cubic
  // ---------------------------------------------------------------------------

  /** Four cubics, highest power first, one per quarter of [0, 1]. */
  const PolynomialCoefficients: seq<real> := [
    5.25964, 0.039474, 0.000708779, 0.0,
    -5.20987, 7.82905, -1.93105, 0.159677,
    -5.22644, 7.8272, -1.91677, 0.15507,
    5.23882, -15.761, 15.8054, -4.28323
  ]

  /** first = min(int(x * 4), 3) * 4: the offset of the cubic for the quarter that
      holds x, the last quarter also taking x >= 1. Needs x * 4 > -1, or int()
      gives a negative offset. */
  function PieceOffset(x: real): (first: int)
    requires x * 4.0 > -1.0
    ensures first == 0 || first == 4 || first == 8 || first == 12
    ensures 0.0 <= x ==> (first / 4) as real <= x * 4.0
    ensures first < 12 ==> x * 4.0 < (first / 4 + 1) as real
  {
    MinInt(Trunc(x * 4.0), 3) * 4
  }

  /** c[f+3] + x * (c[f+2] + x * (c[f+1] + x * c[f])): the Horner form of the cubic
      whose coefficients c[f..f+3] run from the highest power down. */
  function Horner(c: seq<real>, first: int, x: real): (r: real)
    requires 0 <= first && first + 3 < |c|
    ensures r == PolyValue([c[first + 3], c[first + 2], c[first + 1], c[first]], x)
    ensures r == c[first + 3] + c[first + 2] * x + c[first + 1] * (x * x) + c[first] * (x * x * x)
  {
    CubicValue(c[first + 3], c[first + 2], c[first + 1], c[first], x);
    c[first + 3] + x * (c[first + 2] + x * (c[first + 1] + x * c[first]))
  }

  /** The piecewise-cubic path of the polynomial streams. */
  function PiecewiseCubic(x: real): (r: real)
    requires x * 4.0 > -1.0
    ensures var f := PieceOffset(x);
      r == PolyValue([PolynomialCoefficients[f + 3], PolynomialCoefficients[f + 2],
                      PolynomialCoefficients[f + 1], PolynomialCoefficients[f]], x)
  {
    Horner(PolynomialCoefficients, PieceOffset(x), x)
  }

  /** The first cubic has no constant term, so 0 maps to exactly 0; the last one
      reaches 0.99999 at 1. */
  lemma PiecewiseCubicEndpoints()
    ensures PiecewiseCubic(0.0) == 0.0
    ensures PiecewiseCubic(1.0) == 0.99999
  {
    assert PieceOffset(0.0) == 0;
    assert PieceOffset(1.0) == 12;
  }

  // ---------------------------------------------------------------------------
  // The streams
  // ---------------------------------------------------------------------------

  /** Blue noise made uniform again through the CDF table. */
  class BlueNoiseStreamLUT {
    /** m_lastValues: the previous random value and the one before it. */
    const lastValues: array<real>

    ghost predicate Valid()
      reads this, lastValues
    {
      lastValues.Length == 2 && 0.0 <= lastValues[0] <= 1.0 && 0.0 <= lastValues[1] <= 1.0
    }

    /** The history starts with two random draws, first and second. */
    constructor (first: real, second: real)
      requires 0.0 <= first <= 1.0 && 0.0 <= second <= 1.0
      ensures Valid() && fresh(lastValues) && lastValues[..] == [first, second]
    {
      lastValues := new real[2][first, second];
    }

    /** Filters the new random value with the history, shifts the history and
        maps the filtered value through the table; the result is in [0, 1]. */
    method Next(value: real) returns (r: real)
      requires Valid() && 0.0 <= value <= 1.0
      modifies lastValues
      ensures Valid()
      ensures lastValues[0] == value && lastValues[1] == old(lastValues[0])
      ensures r == LutCdf(ToUnit(BlueFilter(value, old(lastValues[0]), old(lastValues[1]))))
      ensures 0.0 <= r <= 1.0
    {
      var y := BlueFilter(value, lastValues[0], lastValues[1]);
      lastValues[1] := lastValues[0];
      lastValues[0] := value;
      var x := ToUnit(y);
      r := LutCdf(x);
    }
  }

  /** Blue noise made uniform again through the piecewise cubic. */
  class BlueNoiseStreamPolynomial {
    /** m_lastValues: the previous random value and the one before it. */
    const lastValues: array<real>

    ghost predicate Valid()
      reads this, lastValues
    {
      lastValues.Length == 2 && 0.0 <= lastValues[0] <= 1.0 && 0.0 <= lastValues[1] <= 1.0
    }

    constructor (first: real, second: real)
      requires 0.0 <= first <= 1.0 && 0.0 <= second <= 1.0
      ensures Valid() && fresh(lastValues) && lastValues[..] == [first, second]
    {
      lastValues := new real[2][first, second];
    }

    /** Filters, shifts the history, and evaluates the cubic of the quarter of
        [0, 1] that the normalised value falls in. */
    method Next(value: real) returns (r: real)
      requires Valid() && 0.0 <= value <= 1.0
      modifies lastValues
      ensures Valid()
      ensures lastValues[0] == value && lastValues[1] == old(lastValues[0])
      ensures r == PiecewiseCubic(ToUnit(BlueFilter(value, old(lastValues[0]), old(lastValues[1]))))
    {
      var y := BlueFilter(value, lastValues[0], lastValues[1]);
      lastValues[1] := lastValues[0];
      lastValues[0] := value;
      var x := ToUnit(y);
      var first := PieceOffset(x);
      r := Horner(PolynomialCoefficients, first, x);
    }
  }

  /** Red noise made uniform again through the same piecewise cubic. */
  class RedNoiseStreamPolynomial {
    /** m_lastValues: the previous random value and the one before it. */
    const lastValues: array<real>

    ghost predicate Valid()
      reads this, lastValues
    {
      lastValues.Length == 2 && 0.0 <= lastValues[0] <= 1.0 && 0.0 <= lastValues[1] <= 1.0
    }

    constructor (first: real, second: real)
      requires 0.0 <= first <= 1.0 && 0.0 <= second <= 1.0
      ensures Valid() && fresh(lastValues) && lastValues[..] == [first, second]
    {
      lastValues := new real[2][first, second];
    }

    /** Low-pass filters, shifts the history, and evaluates the cubic of the
        quarter of [0, 1] that the filtered value falls in. */
    method Next(value: real) returns (r: real)
      requires Valid() && 0.0 <= value <= 1.0
      modifies lastValues
      ensures Valid()
      ensures lastValues[0] == value && lastValues[1] == old(lastValues[0])
      ensures r == PiecewiseCubic(RedFilter(value, old(lastValues[0]), old(lastValues[1])))
    {
      var y := RedFilter(value, lastValues[0], lastValues[1]);
      lastValues[1] := lastValues[0];
      lastValues[0] := value;
      var x := y;
      var first := PieceOffset(x);
      r := Horner(PolynomialCoefficients, first, x);
    }
  }
}
