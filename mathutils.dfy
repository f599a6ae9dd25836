/** Linear interpolation and discrete convolution (mathutils.h). */
module MathUtils {

  function Min(a: real, b: real): real { if a <= b then a else b }
  function Max(a: real, b: real): real { if a <= b then b else a }

  /** A * (1 - t) + B * t: hits both endpoints and, for t in [0, 1], stays between them. */
  function Lerp(a: real, b: real, t: real): (r: real)
    ensures t == 0.0 ==> r == a
    ensures t == 1.0 ==> r == b
    ensures 0.0 <= t <= 1.0 ==> Min(a, b) <= r <= Max(a, b)
  {
    LerpOffset(a, b, t);
    LerpShift(b - a, t);
    a * (1.0 - t) + b * t
  }

  lemma LerpOffset(a: real, b: real, t: real)
    ensures a * (1.0 - t) + b * t == a + (b - a) * t
  {
  }

  lemma LerpShift(d: real, t: real)
    ensures 0.0 <= t <= 1.0 ==> Min(0.0, d) <= d * t <= Max(0.0, d)
  {
    if 0.0 <= t <= 1.0 {
      var e := if d >= 0.0 then d else -d;
      MulNonnegative(e, t);
      MulNonnegative(e, 1.0 - t);
      assert e * (1.0 - t) == e - e * t;
    }
  }

  lemma MulNonnegative(a: real, b: real)
    requires 0.0 <= a && 0.0 <= b
    ensures 0.0 <= a * b
  {
  }

  /** For an increasing pair of endpoints, Lerp grows with t. */
  lemma LerpMonotone(a: real, b: real, t: real, t': real)
    requires a <= b && t <= t'
    ensures Lerp(a, b, t) <= Lerp(a, b, t')
  {
    LerpOffset(a, b, t);
    LerpOffset(a, b, t');
    MulNonnegative(b - a, t' - t);
    assert (b - a) * t' - (b - a) * t == (b - a) * (t' - t);
  }

  /** The term A[i] * B[k - i] of output k, or 0 when B has no index k - i. */
  function ConvolutionTerm(a: seq<real>, b: seq<real>, k: int, i: nat): real
    requires i < |a|
  {
    if 0 <= k - i < |b| then a[i] * b[k - i] else 0.0
  }

  /** The sum of the terms of output k for i in [0, m). */
  function PartialConvolution(a: seq<real>, b: seq<real>, k: int, m: nat): real
    requires m <= |a|
  {
    if m == 0 then 0.0 else PartialConvolution(a, b, k, m - 1) + ConvolutionTerm(a, b, k, m - 1)
  }

  /** Output k of the discrete convolution: the sum of A[i] * B[j] over all i + j == k. */
  function ConvolutionAt(a: seq<real>, b: seq<real>, k: int): real
  {
    PartialConvolution(a, b, k, |a|)
  }

  /** Terms with i <= k - |B| are outside B, so a prefix of them sums to 0. */
  lemma {:induction false} PrefixOutsideB(a: seq<real>, b: seq<real>, k: int, m: nat)
    requires m <= |a| && (m == 0 || m + |b| <= k + 1)
    ensures PartialConvolution(a, b, k, m) == 0.0
  {
    if m > 0 { PrefixOutsideB(a, b, k, m - 1); }
  }

  /** Terms with i > k are outside B, so stopping at any m > k loses nothing. */
  lemma {:induction false} TailOutsideB(a: seq<real>, b: seq<real>, k: int, m: nat, m': nat)
    requires m <= m' <= |a| && k < m
    ensures PartialConvolution(a, b, k, m') == PartialConvolution(a, b, k, m)
  {
    if m' > m { TailOutsideB(a, b, k, m, m' - 1); }
  }

  /** Convolving with the unit impulse [1] reproduces the input. */
  lemma {:induction false} ConvolveWithImpulse(a: seq<real>, k: nat)
    requires k < |a|
    ensures ConvolutionAt(a, [1.0], k) == a[k]
  {
    PrefixOutsideB(a, [1.0], k, k);
    TailOutsideB(a, [1.0], k, k + 1, |a|);
  }

  /** out[k] = sum of A[i] * B[k - i], with the source's index clipping and
      the invariant indexA + indexB == outIndex. Both inputs empty is excluded:
      the source would then ask for a vector of size -1. */
  method Convolve(a: seq<real>, b: seq<real>) returns (out: seq<real>)
    requires |a| + |b| >= 1
    ensures |out| == |a| + |b| - 1
    ensures forall k :: 0 <= k < |out| ==> out[k] == ConvolutionAt(a, b, k)
  {
    var sizeA := |a|;
    var sizeB := |b|;
    var sizeOut := sizeA + sizeB - 1;
    var buf := new real[sizeOut](_ => 0.0);
    for outIndex := 0 to sizeOut
      invariant forall k :: 0 <= k < outIndex ==> buf[k] == ConvolutionAt(a, b, k)
      invariant forall k :: outIndex <= k < sizeOut ==> buf[k] == 0.0
    {
      var indexA := outIndex - sizeB + 1;
      var indexB := sizeB - 1;
      if indexA < 0 {
        indexB := indexB + indexA;
        indexA := 0;
      }
      PrefixOutsideB(a, b, outIndex, indexA);
      while indexA < sizeA && indexB >= 0
        invariant 0 <= indexA <= sizeA
        invariant -1 <= indexB
        invariant indexA + indexB == outIndex
        invariant buf[outIndex] == PartialConvolution(a, b, outIndex, indexA)
        invariant forall k :: 0 <= k < outIndex ==> buf[k] == ConvolutionAt(a, b, k)
        invariant forall k :: outIndex < k < sizeOut ==> buf[k] == 0.0
        decreases sizeA - indexA
      {
        assert PartialConvolution(a, b, outIndex, indexA + 1)
            == PartialConvolution(a, b, outIndex, indexA) + a[indexA] * b[indexB];
        buf[outIndex] := buf[outIndex] + a[indexA] * b[indexB];
        indexA := indexA + 1;
        indexB := indexB - 1;
      }
      if indexA < sizeA {
        TailOutsideB(a, b, outIndex, indexA, sizeA);
      }
    }
    out := buf[..];
  }
}
