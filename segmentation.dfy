/**
 * The segmenter proper: `ITERATIONS` rounds of Markov-random-field relaxation
 * over a disc-shaped neighbourhood, double-buffered between two copies of the
 * image, followed by a byte-wise mask pass that keeps the bytes whose relaxed
 * value equals the relaxed value of the middle byte of the buffer.
 */
module Segmentation {
  import opened Geometry
  import opened Gibbs
  import opened Relaxation

  const TEMPERATURE := 23
  const ITERATIONS := 3
  const THRESHOLD := 0.85
  const PARTITION := 80

  /** The relaxation this program runs: a disc of radius R, R also being the margin. */
  function SegRule(R: nat): Rule {
    Rule(R, Disc(R), TEMPERATURE, THRESHOLD)
  }

  /** The offsets (l, m) of row l, m running from -R up to mEnd - 1, that lie in
      the disc l² + m² ≤ R², in the order the energy loop visits them. */
  function RowOffsets(R: nat, l: int, mEnd: int): seq<(int, int)>
    decreases mEnd + R
  {
    if mEnd <= -(R as int) then []
    else RowOffsets(R, l, mEnd - 1) + (if l * l + (mEnd - 1) * (mEnd - 1) <= R * R then [(l, mEnd - 1)] else [])
  }

  /** The disc offsets of the rows l = -R .. lEnd - 1, in loop order. */
  function DiscOffsets(R: nat, lEnd: int): seq<(int, int)>
    decreases lEnd + R
  {
    if lEnd <= -(R as int) then [] else DiscOffsets(R, lEnd - 1) + RowOffsets(R, lEnd - 1, R + 1)
  }

  /** The neighbourhood of radius R, as the energy loop visits it. */
  function Disc(R: nat): seq<(int, int)> {
    DiscOffsets(R, R + 1)
  }

  lemma {:induction false} RowOffsetsMembers(R: nat, l: int, mEnd: int)
    decreases mEnd + R
    ensures forall o :: o in RowOffsets(R, l, mEnd) <==>
              o.0 == l && -(R as int) <= o.1 < mEnd && l * l + o.1 * o.1 <= R * R
  {
    if mEnd > -(R as int) {
      RowOffsetsMembers(R, l, mEnd - 1);
    }
  }

  lemma {:induction false} DiscOffsetsMembers(R: nat, lEnd: int)
    decreases lEnd + R
    ensures forall o :: o in DiscOffsets(R, lEnd) <==>
              -(R as int) <= o.0 < lEnd && -(R as int) <= o.1 <= R && o.0 * o.0 + o.1 * o.1 <= R * R
  {
    if lEnd > -(R as int) {
      DiscOffsetsMembers(R, lEnd - 1);
      RowOffsetsMembers(R, lEnd - 1, R + 1);
    }
  }

  /** The neighbourhood of radius R holds exactly the offsets in [-R, R]² within
      distance R of the origin, the origin included. */
  lemma DiscMembers(R: nat)
    ensures forall o :: o in Disc(R) <==>
              -(R as int) <= o.0 <= R && -(R as int) <= o.1 <= R && o.0 * o.0 + o.1 * o.1 <= R * R
    ensures (0, 0) in Disc(R)
  {
    DiscOffsetsMembers(R, R + 1);
  }

  /** The disc as the energy loop has visited it when it reaches (l, m). */
  function DiscPrefix(R: nat, l: int, m: int): seq<(int, int)> {
    DiscOffsets(R, l) + RowOffsets(R, l, m)
  }

  /** Every offset the energy loop visits lies in [-R, R]². */
  lemma DiscPrefixBounded(R: nat, l: int, m: int)
    requires -(R as int) <= l <= R && m <= R + 1
    ensures forall o :: o in DiscPrefix(R, l, m) ==> -(R as int) <= o.0 <= R && -(R as int) <= o.1 <= R
  {
    DiscOffsetsMembers(R, l);
    RowOffsetsMembers(R, l, m);
  }

  /** The m loop starts at the rows already done ... */
  lemma DiscPrefixStart(R: nat, l: int)
    ensures DiscPrefix(R, l, -(R as int)) == DiscOffsets(R, l)
  {
    assert DiscOffsets(R, l) + [] == DiscOffsets(R, l);
  }

  /** ... and ends with row l added. */
  lemma DiscPrefixEnd(R: nat, l: int)
    requires -(R as int) <= l
    ensures DiscPrefix(R, l, R + 1) == DiscOffsets(R, l + 1)
  {
  }

  /** One step of the m loop. */
  lemma DiscPrefixStep(R: nat, l: int, m: int)
    requires -(R as int) <= m
    ensures DiscPrefix(R, l, m + 1)
            == DiscPrefix(R, l, m) + (if l * l + m * m <= R * R then [(l, m)] else [])
  {
  }

  /** For an interior byte, every disc sample lies inside the buffer. */
  lemma DiscInBounds(s: seq<Byte>, lay: Layout, R: nat, i: int, j: int, k: int)
    requires lay.RowsFit() && |s| >= lay.Size() && Interior(lay, R, i, j, k)
    ensures StencilInBounds(s, lay, i, j, k, Disc(R))
  {
    DiscMembers(R);
    InteriorReadsInBounds(s, lay, R, i, j, k, Disc(R));
  }

  /** The energy loop over l and m for one candidate `lum`: `Eq` is 5 per disc sample that differs from `lum`. */
  method DiscEnergy(src: array<Byte>, lay: Layout, R: nat, i: int, j: int, k: int, lum: int) returns (eq: int)
    requires lay.RowsFit() && src.Length >= lay.Size() && Interior(lay, R, i, j, k)
    ensures eq == Energy(src[..], lay, i, j, k, Disc(R), lum)
  {
    eq := 0;
    var l: int := -(R as int);
    while l <= R
      invariant -(R as int) <= l <= R + 1
      invariant eq == Energy(src[..], lay, i, j, k, DiscOffsets(R, l), lum)
    {
      eq := RowEnergy(src, lay, R, i, j, k, lum, l, eq);
      l := l + 1;
    }
    assert l == R + 1;
  }

  /** The inner m loop of the energy loop, for row l of the disc. */
  method RowEnergy(src: array<Byte>, lay: Layout, R: nat, i: int, j: int, k: int, lum: int, l: int, eq0: int)
    returns (eq: int)
    requires lay.RowsFit() && src.Length >= lay.Size() && Interior(lay, R, i, j, k)
    requires -(R as int) <= l <= R
    requires eq0 == Energy(src[..], lay, i, j, k, DiscOffsets(R, l), lum)
    ensures eq == Energy(src[..], lay, i, j, k, DiscOffsets(R, l + 1), lum)
  {
    eq := eq0;
    var order := R * R;
    var m: int := -(R as int);
    while m <= R
      invariant -(R as int) <= m <= R + 1
      invariant eq == eq0 + RowPenalties(src[..], lay, R, i, j, k, lum, l, m)
    {
      if l * l + m * m <= order {
        IndexInBounds(lay, i + l, j + m, k);
        eq := eq + (if src[Index(lay, i + l, j + m, k)] != lum then 5 else 0);
      }
      m := m + 1;
    }
    RowPenaltiesAddRow(src[..], lay, R, i, j, k, lum, l, m);
    DiscPrefixEnd(R, l);
  }

  /** The penalties the m loop adds for row l, m running from -R up to mEnd - 1. */
  function RowPenalties(s: seq<Byte>, lay: Layout, R: nat, i: int, j: int, k: int, lum: int, l: int, mEnd: int): int
    decreases mEnd + R
  {
    if mEnd <= -(R as int) then 0
    else
      var m := mEnd - 1;
      RowPenalties(s, lay, R, i, j, k, lum, l, m)
        + (if l * l + m * m <= R * R then Penalty(Sample(s, lay, i, j, k, (l, m)), lum) else 0)
  }

  /** The m loop's running sum is the energy of the disc offsets it has visited. */
  lemma {:induction false} RowPenaltiesAddRow(s: seq<Byte>, lay: Layout, R: nat, i: int, j: int, k: int, lum: int, l: int, mEnd: int)
    requires -(R as int) <= mEnd
    ensures Energy(s, lay, i, j, k, DiscPrefix(R, l, mEnd), lum)
            == Energy(s, lay, i, j, k, DiscOffsets(R, l), lum) + RowPenalties(s, lay, R, i, j, k, lum, l, mEnd)
    decreases mEnd + R
  {
    if mEnd == -(R as int) {
      DiscPrefixStart(R, l);
    } else {
      var m := mEnd - 1;
      EnergyStep(s, lay, R, i, j, k, lum, l, m);
      RowPenaltiesAddRow(s, lay, R, i, j, k, lum, l, m);
    }
  }

  /** One step of the m loop adds the penalty of the sample at (l, m) when (l, m) lies in the disc. */
  lemma EnergyStep(s: seq<Byte>, lay: Layout, R: nat, i: int, j: int, k: int, lum: int, l: int, m: int)
    requires -(R as int) <= m
    ensures Energy(s, lay, i, j, k, DiscPrefix(R, l, m + 1), lum)
            == Energy(s, lay, i, j, k, DiscPrefix(R, l, m), lum)
               + if l * l + m * m <= R * R then Penalty(Sample(s, lay, i, j, k, (l, m)), lum) else 0
  {
    var before := DiscPrefix(R, l, m);
    DiscPrefixStep(R, l, m);
    if l * l + m * m <= R * R {
      EnergyAppend(s, lay, i, j, k, before, (l, m), lum);
    } else {
      assert DiscPrefix(R, l, m + 1) == before;
    }
  }

  /** The lum loop: fills the 257-entry `gibbs_CDF` of one interior byte. */
  method PixelCdf(src: array<Byte>, lay: Layout, R: nat, i: int, j: int, k: int, w: int -> real)
    returns (cdf: array<real>)
    requires lay.RowsFit() && src.Length >= lay.Size() && Interior(lay, R, i, j, k)
    ensures fresh(cdf) && cdf[..] == CdfTable(Energies(src[..], lay, i, j, k, Disc(R)), TEMPERATURE, w)
  {
    ghost var s := src[..];
    ghost var es := Energies(s, lay, i, j, k, Disc(R));
    ghost var c := CdfTable(es, TEMPERATURE, w);
    cdf := new real[257];
    cdf[0] := 0.0;
    var lum := 0;
    while lum <= 255
      invariant 0 <= lum <= 256
      invariant src[..] == s
      invariant forall n :: 0 <= n <= lum ==> cdf[n] == c[n]
    {
      var eq := DiscEnergy(src, lay, R, i, j, k, lum);
      CdfTableStep(es, TEMPERATURE, w, lum, cdf[lum], eq);
      cdf[lum + 1] := cdf[lum] + w(CDiv(-eq, TEMPERATURE));
      lum := lum + 1;
    }
    assert cdf[..] == c;
  }

  /** The body of the i/j/k loops: build the CDF, scan it, store the chosen luminance. */
  method RelaxByte(src: array<Byte>, dst: array<Byte>, lay: Layout, R: nat, w: int -> real, i: int, j: int, k: int)
    requires src != dst && lay.RowsFit() && src.Length >= lay.Size() && dst.Length == src.Length
    requires Interior(lay, R, i, j, k) && PositiveWeights(w)
    modifies dst
    ensures 0 <= Index(lay, i, j, k) < dst.Length
    ensures dst[..] == old(dst[..])[Index(lay, i, j, k) := RelaxedByte(src[..], lay, SegRule(R), w, i, j, k)]
  {
    IndexInBounds(lay, i, j, k);
    var cdf := PixelCdf(src, lay, R, i, j, k, w);
    ghost var es := Energies(src[..], lay, i, j, k, Disc(R));
    CdfShape(es, TEMPERATURE, w);
    var found, lum := Threshold(cdf, THRESHOLD);
    SelectAlwaysSucceeds(cdf[..], THRESHOLD);
    if found {
      dst[Index(lay, i, j, k)] := lum;
    }
  }

  /** One iteration's i/j/k loops: every interior byte of `dst` gets the value
      relaxation chooses from `src`; every other byte of `dst` is left as it was.
      All reads are from `src` and all writes to `dst`, so the order of the loops
      does not matter. */
  method RelaxPass(src: array<Byte>, dst: array<Byte>, lay: Layout, R: nat, w: int -> real)
    requires src != dst && lay.RowsFit() && src.Length >= lay.Size() && dst.Length == src.Length
    requires PositiveWeights(w)
    modifies dst
    ensures dst[..] == Pass(src[..], old(dst[..]), lay, SegRule(R), w)
  {
    ghost var s := src[..];
    ghost var prev := dst[..];
    var i: int := R;
    while i < lay.height - R
      invariant R <= i
      invariant Progress(dst[..], s, prev, lay, SegRule(R), w, i, R, 0)
    {
      var j: int := R;
      while j < lay.width - R
        invariant R <= j
        invariant Progress(dst[..], s, prev, lay, SegRule(R), w, i, j, 0)
      {
        var k := 0;
        while k < lay.depth
          invariant 0 <= k <= lay.depth
          invariant Progress(dst[..], s, prev, lay, SegRule(R), w, i, j, k)
        {
          ghost var cur := dst[..];
          RelaxByte(src, dst, lay, R, w, i, j, k);
          ProgressByte(cur, s, prev, lay, SegRule(R), w, i, j, k);
          k := k + 1;
        }
        ProgressRow(dst[..], s, prev, lay, SegRule(R), w, i, j);
        j := j + 1;
      }
      ProgressNextRow(dst[..], s, prev, lay, SegRule(R), w, i, j);
      i := i + 1;
    }
    ProgressDone(dst[..], s, prev, lay, SegRule(R), w, i);
  }

  /** The image after n iterations of relaxation. */
  function Relaxed(s: seq<Byte>, lay: Layout, R: nat, w: int -> real, n: nat): (r: seq<Byte>)
    requires lay.RowsFit() && |s| >= lay.Size() && PositiveWeights(w)
    ensures |r| == |s|
  {
    if n == 0 then s
    else
      var before := Relaxed(s, lay, R, w, n - 1);
      Pass(before, before, lay, SegRule(R), w)
  }

  /** Bytes that are not interior, among them the margin of width R and the row
      padding, are never written, so every iteration leaves them as in the original. */
  lemma {:induction false} RelaxedKeepsUnwritten(s: seq<Byte>, lay: Layout, R: nat, w: int -> real, n: nat, g: int)
    requires lay.RowsFit() && |s| >= lay.Size() && PositiveWeights(w)
    requires 0 <= g < |s| && !Written(lay, R, g)
    ensures Relaxed(s, lay, R, w, n)[g] == s[g]
  {
    if n > 0 {
      RelaxedKeepsUnwritten(s, lay, R, w, n - 1, g);
    }
  }

  /** The setup copy and the ITERATIONS loop: both buffers start as the image, and
      at the start of each iteration they are swapped, so that the previous
      output is read and the older buffer is overwritten. */
  method Relax(img: array<Byte>, lay: Layout, R: nat, w: int -> real) returns (copy: array<Byte>, mask: array<Byte>)
    requires lay.RowsFit() && img.Length >= lay.Size() && PositiveWeights(w)
    ensures fresh(copy) && fresh(mask) && copy != mask
    ensures mask[..] == Relaxed(img[..], lay, R, w, ITERATIONS)
    ensures copy[..] == Relaxed(img[..], lay, R, w, ITERATIONS - 1)
  {
    ghost var s := img[..];
    copy := new Byte[img.Length];
    mask := new Byte[img.Length];
    var g := 0;
    while g < img.Length
      invariant 0 <= g <= img.Length
      invariant forall x :: 0 <= x < g ==> copy[x] == img[x] && mask[x] == img[x]
    {
      copy[g] := img[g];
      mask[g] := img[g];
      g := g + 1;
    }
    assert copy[..] == s && mask[..] == s;
    var h := 0;
    while h < ITERATIONS
      invariant 0 <= h <= ITERATIONS
      invariant fresh(copy) && fresh(mask) && copy != mask
      invariant copy.Length == mask.Length == |s|
      invariant mask[..] == Relaxed(s, lay, R, w, h)
      invariant copy[..] == Relaxed(s, lay, R, w, if h == 0 then 0 else h - 1)
    {
      var toModify := mask;
      mask := copy;
      copy := toModify;
      ghost var older := mask[..];
      ghost var current := copy[..];
      RelaxPass(copy, mask, lay, R, w);
      forall x | 0 <= x < |s| ensures mask[x] == Relaxed(s, lay, R, w, h + 1)[x] {
        if !Written(lay, R, x) {
          RelaxedKeepsUnwritten(s, lay, R, w, h, x);
          RelaxedKeepsUnwritten(s, lay, R, w, if h == 0 then 0 else h - 1, x);
        }
      }
      h := h + 1;
    }
  }

  /** The mask pass: a byte is kept when its relaxed value equals the relaxed
      value of the middle byte of the buffer, and zeroed otherwise. */
  function Masked(s: seq<Byte>, m: seq<Byte>): (r: seq<Byte>)
    requires |s| == |m|
    ensures |r| == |s|
  {
    seq(|s|, g requires 0 <= g < |s| => if m[g] == m[|s| / 2] then s[g] else 0)
  }

  /** Each byte is either kept or zeroed; the middle byte is always kept. */
  lemma MaskedKeepsOrZeroes(s: seq<Byte>, m: seq<Byte>)
    requires |s| == |m|
    ensures forall g :: 0 <= g < |s| ==> Masked(s, m)[g] == s[g] || Masked(s, m)[g] == 0
    ensures forall g :: 0 <= g < |s| && s[g] != 0 ==> (Masked(s, m)[g] == s[g] <==> m[g] == m[|s| / 2])
    ensures |s| > 0 ==> Masked(s, m)[|s| / 2] == s[|s| / 2]
  {
  }

  /** Masking twice with the same mask is masking once. */
  lemma MaskedIdempotent(s: seq<Byte>, m: seq<Byte>)
    requires |s| == |m|
    ensures Masked(Masked(s, m), m) == Masked(s, m)
  {
  }

  /** The loop `img[g] = (img_mask[g] == img_mask[ImageSize/2]) ? img[g] : 0`. */
  method ApplyMask(img: array<Byte>, mask: array<Byte>)
    requires img != mask && img.Length == mask.Length
    modifies img
    ensures img[..] == Masked(old(img[..]), mask[..])
  {
    var g := 0;
    while g < img.Length
      invariant 0 <= g <= img.Length
      invariant forall x :: 0 <= x < g ==> img[x] == Masked(old(img[..]), mask[..])[x]
      invariant forall x :: g <= x < img.Length ==> img[x] == old(img[x])
    {
      img[g] := if mask[g] == mask[img.Length / 2] then img[g] else 0;
      g := g + 1;
    }
  }

  /** The whole segmenter between loading and saving the bitmap: geometry,
      relaxation, mask pass. Returns the relaxed buffer that is saved as the mask. */
  method Segment(img: array<Byte>, width: nat, height: nat, bitPerPix: nat, w: int -> real) returns (mask: array<Byte>)
    requires img.Length >= PaddedLayout(width, height, bitPerPix).Size() && PositiveWeights(w)
    modifies img
    ensures fresh(mask)
    ensures mask[..] == Relaxed(old(img[..]), PaddedLayout(width, height, bitPerPix),
                                Radius(width, height, PARTITION), w, ITERATIONS)
    ensures img[..] == Masked(old(img[..]), mask[..])
  {
    var lay := PaddedLayout(width, height, bitPerPix);
    var R := Radius(width, height, PARTITION);
    var copy;
    copy, mask := Relax(img, lay, R, w);
    ApplyMask(img, mask);
  }
}
