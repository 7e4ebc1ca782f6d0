/**
 * The Gibbs energy, cumulative distribution and threshold selection that both
 * relaxation programs run for one byte of the image: the energy of a candidate
 * luminance is 5 per neighbourhood sample that differs from it, each candidate
 * is weighted by `exp(-Eq / TEMPERATURE)`, the weights are summed into a
 * 257-entry CDF, and the first candidate whose normalised CDF exceeds the
 * threshold is chosen.
 *
 * `exp` is a call into the C maths library; it is a parameter `w` here, an
 * arbitrary strictly positive function of the integer exponent.
 */
module Gibbs {
  import opened Geometry
  import opened Wrappers

  type Byte = x: int | 0 <= x < 256

  /** Energy added by one neighbourhood sample that differs from the candidate. */
  const MismatchPenalty := 5

  /** The weight function stands for `exp`: strictly positive everywhere. */
  ghost predicate PositiveWeights(w: int -> real) {
    forall q :: w(q) > 0.0
  }

  /** C's `/` on `int`: the quotient truncated toward zero. */
  function CDiv(a: int, b: int): (q: int)
    requires b > 0
    ensures a >= 0 ==> q * b <= a < q * b + b
    ensures a < 0 ==> q * b - b < a <= q * b
  {
    if a >= 0 then a / b else -((-a) / b)
  }

  /** Every offset of the stencil, applied to pixel (i, j) and channel k, reads a byte of `s`. */
  predicate StencilInBounds(s: seq<Byte>, lay: Layout, i: int, j: int, k: int, offs: seq<(int, int)>) {
    forall t :: 0 <= t < |offs| ==> 0 <= Index(lay, i + offs[t].0, j + offs[t].1, k) < |s|
  }

  /** The byte the stencil offset `o` reads for pixel (i, j), channel k. The
      relaxation loops only visit bytes whose stencil lies inside the buffer
      (see `StencilInBounds`); outside it the model reads 0. */
  function Sample(s: seq<Byte>, lay: Layout, i: int, j: int, k: int, o: (int, int)): Byte {
    var x := Index(lay, i + o.0, j + o.1, k);
    if 0 <= x < |s| then s[x] else 0
  }

  /** Penalty of one sample against candidate `lum`. */
  function Penalty(sample: int, lum: int): int {
    if sample != lum then MismatchPenalty else 0
  }

  /** Gibbs energy of candidate `lum`: the penalty for each stencil sample that differs from it. */
  function Energy(s: seq<Byte>, lay: Layout, i: int, j: int, k: int, offs: seq<(int, int)>, lum: int): (e: int)
    ensures 0 <= e <= 5 * |offs| && e % 5 == 0
  {
    if offs == [] then 0
    else
      var n := |offs| - 1;
      Energy(s, lay, i, j, k, offs[..n], lum) + Penalty(Sample(s, lay, i, j, k, offs[n]), lum)
  }

  /** Appending one offset to the stencil adds that sample's penalty. */
  lemma EnergyAppend(s: seq<Byte>, lay: Layout, i: int, j: int, k: int, offs: seq<(int, int)>, o: (int, int), lum: int)
    ensures Energy(s, lay, i, j, k, offs + [o], lum)
            == Energy(s, lay, i, j, k, offs, lum) + Penalty(Sample(s, lay, i, j, k, o), lum)
  {
    assert (offs + [o])[..|offs|] == offs;
  }

  /** The energy depends on the buffer only through the samples the stencil reads. */
  lemma {:induction false} EnergySameSamples(s: seq<Byte>, t: seq<Byte>, lay: Layout, i: int, j: int, k: int,
                                             offs: seq<(int, int)>, lum: int)
    requires forall o :: o in offs ==> Sample(s, lay, i, j, k, o) == Sample(t, lay, i, j, k, o)
    ensures Energy(s, lay, i, j, k, offs, lum) == Energy(t, lay, i, j, k, offs, lum)
  {
    if offs != [] {
      var n := |offs| - 1;
      assert offs[n] in offs;
      forall o | o in offs[..n] ensures Sample(s, lay, i, j, k, o) == Sample(t, lay, i, j, k, o) {
        assert o in offs;
      }
      EnergySameSamples(s, t, lay, i, j, k, offs[..n], lum);
    }
  }

  /** The energies of all 256 candidate luminances. */
  function Energies(s: seq<Byte>, lay: Layout, i: int, j: int, k: int, offs: seq<(int, int)>): (es: seq<int>)
    ensures |es| == 256
    ensures forall lum :: 0 <= lum < 256 ==> es[lum] == Energy(s, lay, i, j, k, offs, lum)
  {
    seq(256, lum => Energy(s, lay, i, j, k, offs, lum))
  }

  /** The weight `exp(-Eq / T)` of a candidate of energy `eq`, the exponent being an integer quotient. */
  function Weight(w: int -> real, eq: int, temperature: int): real
    requires temperature > 0
  {
    w(CDiv(-eq, temperature))
  }

  /** `gibbs_CDF[n]`: the sum of the weights of candidates 0 .. n-1. */
  function Cdf(es: seq<int>, temperature: int, w: int -> real, n: nat): real
    requires temperature > 0 && n <= |es|
  {
    if n == 0 then 0.0 else Cdf(es, temperature, w, n - 1) + Weight(w, es[n - 1], temperature)
  }

  /** The whole 257-entry array `gibbs_CDF`. */
  function CdfTable(es: seq<int>, temperature: int, w: int -> real): (c: seq<real>)
    requires temperature > 0 && |es| == 256
    ensures |c| == 257
    ensures forall n :: 0 <= n <= 256 ==> c[n] == Cdf(es, temperature, w, n)
  {
    seq(257, n requires 0 <= n <= 256 => Cdf(es, temperature, w, n))
  }

  /** Entry n + 1 of the table adds the weight of candidate n, of energy `eq`, to entry n (`prev`). */
  lemma CdfTableStep(es: seq<int>, temperature: int, w: int -> real, n: nat, prev: real, eq: int)
    requires temperature > 0 && |es| == 256 && n < 256 && eq == es[n]
    requires prev == CdfTable(es, temperature, w)[n]
    ensures CdfTable(es, temperature, w)[n + 1] == prev + w(CDiv(-eq, temperature))
  {
  }

  /** Each step of the CDF adds a strictly positive weight, so it is strictly increasing. */
  lemma {:induction false} CdfStrictlyIncreasing(es: seq<int>, temperature: int, w: int -> real, a: nat, b: nat)
    requires temperature > 0 && PositiveWeights(w)
    requires a < b <= |es|
    ensures Cdf(es, temperature, w, a) < Cdf(es, temperature, w, b)
  {
    assert Weight(w, es[b - 1], temperature) > 0.0;
    if a < b - 1 {
      CdfStrictlyIncreasing(es, temperature, w, a, b - 1);
    }
  }

  /** The CDF starts at 0, increases strictly and ends strictly positive. */
  lemma CdfShape(es: seq<int>, temperature: int, w: int -> real)
    requires temperature > 0 && PositiveWeights(w) && |es| == 256
    ensures CdfTable(es, temperature, w)[0] == 0.0
    ensures CdfTable(es, temperature, w)[256] > 0.0
    ensures forall a, b :: 0 <= a < b <= 256 ==> CdfTable(es, temperature, w)[a] < CdfTable(es, temperature, w)[b]
  {
    var c := CdfTable(es, temperature, w);
    forall a, b | 0 <= a < b <= 256 ensures c[a] < c[b] {
      CdfStrictlyIncreasing(es, temperature, w, a, b);
    }
  }

  /** `gibbs_CDF[lum+1] / gibbs_CDF[256]`: the normalised CDF after candidate `lum`. */
  function Ratio(c: seq<real>, lum: int): real
    requires |c| == 257 && c[256] > 0.0 && 0 <= lum < 256
  {
    c[lum + 1] / c[256]
  }

  /** The threshold scan from candidate `lum` upward: the first candidate whose
      normalised CDF exceeds `threshold`, or None when there is none. */
  function SelectFrom(c: seq<real>, threshold: real, lum: nat): (r: Option<Byte>)
    requires |c| == 257 && c[256] > 0.0
    decreases 256 - lum
    ensures r.Some? ==> lum <= r.value < 256 && Ratio(c, r.value) > threshold
    ensures r.Some? ==> forall l :: lum <= l < r.value ==> Ratio(c, l) <= threshold
    ensures r.None? ==> forall l :: lum <= l < 256 ==> Ratio(c, l) <= threshold
  {
    if lum >= 256 then None
    else if Ratio(c, lum) > threshold then Some(lum)
    else SelectFrom(c, threshold, lum + 1)
  }

  /** When the threshold is below 1 the scan always succeeds, at the latest at
      candidate 255, whose normalised CDF is exactly 1. */
  lemma SelectAlwaysSucceeds(c: seq<real>, threshold: real)
    requires |c| == 257 && c[256] > 0.0 && threshold < 1.0
    ensures SelectFrom(c, threshold, 0).Some?
  {
    assert Ratio(c, 255) == 1.0;
  }

  /** The luminance written for a byte whose candidate energies are `es`: the
      smallest candidate whose normalised CDF exceeds the threshold. */
  function Choose(es: seq<int>, temperature: int, w: int -> real, threshold: real): (lum: Byte)
    requires |es| == 256 && temperature > 0 && PositiveWeights(w) && threshold < 1.0
    ensures CdfTable(es, temperature, w)[256] > 0.0
    ensures Ratio(CdfTable(es, temperature, w), lum) > threshold
    ensures forall l :: 0 <= l < lum ==> Ratio(CdfTable(es, temperature, w), l) <= threshold
  {
    var c := CdfTable(es, temperature, w);
    CdfShape(es, temperature, w);
    SelectAlwaysSucceeds(c, threshold);
    SelectFrom(c, threshold, 0).value
  }

  /** The threshold loop `for (lum = 0; lum <= 255; lum++) if (CDF[lum+1]/CDF[256] > TH) { ...; lum = 256; }`:
      reports whether it stopped at a candidate, and which. */
  method Threshold(cdf: array<real>, threshold: real) returns (found: bool, lum: int)
    requires cdf.Length == 257 && cdf[256] > 0.0
    ensures found ==> 0 <= lum < 256 && Ratio(cdf[..], lum) > threshold
    ensures found ==> forall l :: 0 <= l < lum ==> Ratio(cdf[..], l) <= threshold
    ensures !found ==> forall l :: 0 <= l < 256 ==> Ratio(cdf[..], l) <= threshold
    ensures SelectFrom(cdf[..], threshold, 0) == if found then Some(lum) else None
  {
    found, lum := false, 0;
    while lum <= 255
      invariant 0 <= lum <= 256
      invariant forall l :: 0 <= l < lum ==> Ratio(cdf[..], l) <= threshold
    {
      if cdf[lum + 1] / cdf[256] > threshold {
        found := true;
        break;
      }
      lum := lum + 1;
    }
    UniqueSelection(cdf[..], threshold, 0, found, lum);
  }

  /** The threshold scan's result is fixed by its contract: starting at `from`,
      it stops at the first candidate above the threshold, or finds none. */
  lemma {:induction false} UniqueSelection(c: seq<real>, threshold: real, from: nat, found: bool, lum: int)
    requires |c| == 257 && c[256] > 0.0 && from <= lum
    requires found ==> lum < 256 && Ratio(c, lum) > threshold
    requires forall l :: from <= l < lum && l < 256 ==> Ratio(c, l) <= threshold
    requires !found ==> lum >= 256
    ensures SelectFrom(c, threshold, from) == if found then Some(lum) else None
    decreases lum - from
  {
    if from < lum && from < 256 {
      UniqueSelection(c, threshold, from + 1, found, lum);
    }
  }
}
