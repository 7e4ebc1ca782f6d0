/**
 * The second-order Markov-random-field pass: every channel of every pixel gets
 * the luminance chosen from the Gibbs CDF of its eight neighbours (the four
 * edge neighbours, then the four corner neighbours), read from the image and
 * written into a separate mask buffer. Rows are not padded here: a row is
 * `Width * byte_depth` bytes.
 *
 * The loops as written run i up to Height - 1 and j up to Width - 1, so the
 * neighbour reads of the last row and the last column leave the image; the
 * pass modelled and proved below is the corrected one that stops one pixel
 * short of every border, and the lemmas at the end exhibit the overrun.
 */
module SecondOrder {
  import opened Geometry
  import opened Gibbs
  import opened Relaxation

  const TEMPERATURE := 1
  const THRESHOLD := 0.7

  /** The neighbour offsets (row, column) in the order the energy is summed. */
  const Stencil: seq<(int, int)> := [(-1, 0), (1, 0), (0, -1), (0, 1), (-1, -1), (-1, 1), (1, -1), (1, 1)]

  /** The relaxation of the corrected pass: margin 1, the eight neighbours. */
  const MrfRule := Rule(1, Stencil, TEMPERATURE, THRESHOLD)

  /** `byte_depth = biBitCount / 8`, `byte_width = biWidth * byte_depth`: rows without padding. */
  function UnpaddedLayout(width: nat, height: nat, bitPerPix: nat): (lay: Layout)
    ensures lay.width == width && lay.height == height && lay.depth == BytesPerPixel(bitPerPix)
    ensures lay.depth * 8 <= bitPerPix < lay.depth * 8 + 8
    ensures lay.rowBytes == width * lay.depth && lay.Size() == width * lay.depth * height
  {
    var d := BytesPerPixel(bitPerPix);
    Layout(width, height, d, width * d)
  }

  /** The unpadded rows take no more room than the 4-byte aligned rows the
      bitmap stores (and `biSizeImage` counts), and exactly as much when the
      picture is empty or a row of pixels is already a multiple of 4 bytes. */
  lemma UnpaddedWithinPadded(width: nat, height: nat, bitPerPix: nat)
    ensures UnpaddedLayout(width, height, bitPerPix).Size() <= PaddedLayout(width, height, bitPerPix).Size()
    ensures UnpaddedLayout(width, height, bitPerPix).Size() == PaddedLayout(width, height, bitPerPix).Size() <==>
              height == 0 || (width * BytesPerPixel(bitPerPix)) % 4 == 0
  {
    var u, p := UnpaddedLayout(width, height, bitPerPix), PaddedLayout(width, height, bitPerPix);
    var x := u.rowBytes;
    var gap := p.rowBytes - x;
    assert p.Size() - u.Size() == gap * height by {
      assert p.Size() == (x + gap) * height;
    }
    AlignedGap(x, p.rowBytes);
    if height > 0 && gap > 0 {
      MulSign(gap, height);
    }
  }

  /** A multiple of 4 less than 4 above x equals x exactly when x is itself a multiple of 4. */
  lemma AlignedGap(x: int, r: int)
    requires r % 4 == 0 && x <= r < x + 4
    ensures r == x <==> x % 4 == 0
  {
  }

  /** The stencil is the 3×3 block around the pixel without its centre, each neighbour once. */
  lemma StencilMembers()
    ensures |Stencil| == 8
    ensures forall o :: o in Stencil <==> -1 <= o.0 <= 1 && -1 <= o.1 <= 1 && o != (0, 0)
    ensures forall a, b :: 0 <= a < b < |Stencil| ==> Stencil[a] != Stencil[b]
  {
  }

  /** The energy of a candidate is a multiple of 5 between 0 and 40. */
  lemma EnergyRange(s: seq<Byte>, lay: Layout, i: int, j: int, k: int, lum: int)
    ensures 0 <= Energy(s, lay, i, j, k, Stencil, lum) <= 40
    ensures Energy(s, lay, i, j, k, Stencil, lum) % 5 == 0
  {
    StencilMembers();
  }

  /** Adding the t-th neighbour to the sum adds its penalty. */
  lemma StencilStep(s: seq<Byte>, lay: Layout, i: int, j: int, k: int, lum: int, t: nat)
    requires t < 8
    ensures Energy(s, lay, i, j, k, Stencil[..t + 1], lum)
            == Energy(s, lay, i, j, k, Stencil[..t], lum) + Penalty(Sample(s, lay, i, j, k, Stencil[t]), lum)
  {
    assert Stencil[..t + 1] == Stencil[..t] + [Stencil[t]];
    EnergyAppend(s, lay, i, j, k, Stencil[..t], Stencil[t], lum);
  }

  /** For a pixel one away from every border, every neighbour read stays in the
      image and is a true neighbour: its row and column lie inside the picture. */
  lemma NeighboursInside(s: seq<Byte>, lay: Layout, i: int, j: int, k: int)
    requires lay.RowsFit() && |s| >= lay.Size() && Interior(lay, 1, i, j, k)
    ensures StencilInBounds(s, lay, i, j, k, Stencil)
    ensures forall o :: o in Stencil ==> 0 <= i + o.0 < lay.height && 0 <= j + o.1 < lay.width
  {
    StencilMembers();
    InteriorReadsInBounds(s, lay, 1, i, j, k, Stencil);
  }

  /** One term `(img[(i+dl)*byte_width + (j+dm)*byte_depth + k] != lum) ? 5 : 0`. */
  method Mismatch(img: array<Byte>, lay: Layout, i: int, j: int, k: int, dl: int, dm: int, lum: int) returns (p: int)
    requires lay.RowsFit() && img.Length >= lay.Size() && Interior(lay, 1, i, j, k)
    requires -1 <= dl <= 1 && -1 <= dm <= 1
    ensures p == Penalty(Sample(img[..], lay, i, j, k, (dl, dm)), lum)
  {
    IndexInBounds(lay, i + dl, j + dm, k);
    p := if img[Index(lay, i + dl, j + dm, k)] != lum then 5 else 0;
  }

  /** The eight `Eq += (img[...] != lum) ? 5 : 0` statements for one candidate. */
  method PixelEnergy(img: array<Byte>, lay: Layout, i: int, j: int, k: int, lum: int) returns (eq: int)
    requires lay.RowsFit() && img.Length >= lay.Size() && Interior(lay, 1, i, j, k)
    ensures eq == Energy(img[..], lay, i, j, k, Stencil, lum)
  {
    ghost var s := img[..];
    assert Stencil[..0] == [];
    var p: int;
    eq := 0;
    p := Mismatch(img, lay, i, j, k, -1, 0, lum);
    eq := eq + p;
    StencilStep(s, lay, i, j, k, lum, 0);
    p := Mismatch(img, lay, i, j, k, 1, 0, lum);
    eq := eq + p;
    StencilStep(s, lay, i, j, k, lum, 1);
    p := Mismatch(img, lay, i, j, k, 0, -1, lum);
    eq := eq + p;
    StencilStep(s, lay, i, j, k, lum, 2);
    p := Mismatch(img, lay, i, j, k, 0, 1, lum);
    eq := eq + p;
    StencilStep(s, lay, i, j, k, lum, 3);
    p := Mismatch(img, lay, i, j, k, -1, -1, lum);
    eq := eq + p;
    StencilStep(s, lay, i, j, k, lum, 4);
    p := Mismatch(img, lay, i, j, k, -1, 1, lum);
    eq := eq + p;
    StencilStep(s, lay, i, j, k, lum, 5);
    p := Mismatch(img, lay, i, j, k, 1, -1, lum);
    eq := eq + p;
    StencilStep(s, lay, i, j, k, lum, 6);
    p := Mismatch(img, lay, i, j, k, 1, 1, lum);
    eq := eq + p;
    StencilStep(s, lay, i, j, k, lum, 7);
    assert Stencil[..8] == Stencil;
  }

  /** No neighbour read lands on the byte being relaxed. */
  lemma CentreNotSampled(lay: Layout, i: int, j: int, k: int, o: (int, int))
    requires lay.RowsFit() && Interior(lay, 1, i, j, k) && o in Stencil
    ensures Index(lay, i + o.0, j + o.1, k) != Index(lay, i, j, k)
  {
    assert -1 <= o.1 <= 1 && o != (0, 0);
    IndexDecodes(lay, i, j, k);
    IndexDecodes(lay, i + o.0, j + o.1, k);
  }

  /** The new value of a byte does not depend on the byte's own old value: the
      centre of the 3×3 block is not part of the stencil. */
  lemma CentreIgnored(s: seq<Byte>, lay: Layout, w: int -> real, i: int, j: int, k: int, v: Byte)
    requires lay.RowsFit() && Interior(lay, 1, i, j, k) && PositiveWeights(w)
    requires 0 <= Index(lay, i, j, k) < |s|
    ensures RelaxedByte(s[Index(lay, i, j, k) := v], lay, MrfRule, w, i, j, k) == RelaxedByte(s, lay, MrfRule, w, i, j, k)
  {
    var t := s[Index(lay, i, j, k) := v];
    forall o | o in Stencil ensures Sample(t, lay, i, j, k, o) == Sample(s, lay, i, j, k, o) {
      CentreNotSampled(lay, i, j, k, o);
    }
    forall lum | 0 <= lum < 256
      ensures Energies(t, lay, i, j, k, Stencil)[lum] == Energies(s, lay, i, j, k, Stencil)[lum]
    {
      EnergySameSamples(t, s, lay, i, j, k, Stencil, lum);
    }
    assert Energies(t, lay, i, j, k, Stencil) == Energies(s, lay, i, j, k, Stencil);
  }

  /** The lum loop: fills the 257-entry `gibbs_CDF` of one byte; with
      `TEMPERATURE` 1 the exponent `-Eq / TEMPERATURE` is `-Eq` exactly. */
  method PixelCdf(img: array<Byte>, lay: Layout, i: int, j: int, k: int, w: int -> real)
    returns (cdf: array<real>)
    requires lay.RowsFit() && img.Length >= lay.Size() && Interior(lay, 1, i, j, k)
    ensures fresh(cdf) && cdf[..] == CdfTable(Energies(img[..], lay, i, j, k, Stencil), TEMPERATURE, w)
  {
    ghost var s := img[..];
    ghost var es := Energies(s, lay, i, j, k, Stencil);
    ghost var c := CdfTable(es, TEMPERATURE, w);
    cdf := new real[257];
    cdf[0] := 0.0;
    var lum := 0;
    while lum <= 255
      invariant 0 <= lum <= 256
      invariant img[..] == s
      invariant forall n :: 0 <= n <= lum ==> cdf[n] == c[n]
    {
      var eq := PixelEnergy(img, lay, i, j, k, lum);

      CdfTableStep(es, TEMPERATURE, w, lum, cdf[lum], eq);
      cdf[lum + 1] := cdf[lum] + w(CDiv(-eq, TEMPERATURE));
      lum := lum + 1;
    }
    assert cdf[..] == c;
  }

  /** The body of the i/j/k loops: build the CDF, scan it, store the chosen luminance in the mask. */
  method RelaxByte(img: array<Byte>, mask: array<Byte>, lay: Layout, w: int -> real, i: int, j: int, k: int)
    requires img != mask && lay.RowsFit() && img.Length >= lay.Size() && mask.Length == img.Length
    requires Interior(lay, 1, i, j, k) && PositiveWeights(w)
    modifies mask
    ensures 0 <= Index(lay, i, j, k) < mask.Length
    ensures mask[..] == old(mask[..])[Index(lay, i, j, k) := RelaxedByte(img[..], lay, MrfRule, w, i, j, k)]
  {
    IndexInBounds(lay, i, j, k);
    var cdf := PixelCdf(img, lay, i, j, k, w);
    ghost var es := Energies(img[..], lay, i, j, k, Stencil);
    CdfShape(es, TEMPERATURE, w);
    var found, lum := Threshold(cdf, THRESHOLD);
    SelectAlwaysSucceeds(cdf[..], THRESHOLD);
    if found {
      mask[Index(lay, i, j, k)] := lum;
    }
  }

  /** The i/j/k loops with the corrected bounds 1 <= i < Height - 1 and
      1 <= j < Width - 1: every byte at least one pixel away from the border
      gets its relaxed value from the image; the rest of the mask keeps what it held. */
  method SecondOrderPass(img: array<Byte>, mask: array<Byte>, lay: Layout, w: int -> real)
    requires img != mask && lay.RowsFit() && img.Length >= lay.Size() && mask.Length == img.Length
    requires PositiveWeights(w)
    modifies mask
    ensures mask[..] == Pass(img[..], old(mask[..]), lay, MrfRule, w)
  {
    ghost var s := img[..];
    ghost var prev := mask[..];
    var i := 1;
    while i < lay.height - 1
      invariant 1 <= i
      invariant Progress(mask[..], s, prev, lay, MrfRule, w, i, 1, 0)
    {
      var j := 1;
      while j < lay.width - 1
        invariant 1 <= j
        invariant Progress(mask[..], s, prev, lay, MrfRule, w, i, j, 0)
      {
        var k := 0;
        while k < lay.depth
          invariant 0 <= k <= lay.depth
          invariant Progress(mask[..], s, prev, lay, MrfRule, w, i, j, k)
        {
          ghost var cur := mask[..];
          RelaxByte(img, mask, lay, w, i, j, k);
          ProgressByte(cur, s, prev, lay, MrfRule, w, i, j, k);
          k := k + 1;
        }
        ProgressRow(mask[..], s, prev, lay, MrfRule, w, i, j);
        j := j + 1;
      }
      ProgressNextRow(mask[..], s, prev, lay, MrfRule, w, i, j);
      i := i + 1;
    }
    ProgressDone(mask[..], s, prev, lay, MrfRule, w, i);
  }

  /** The loops as written: `for (i = 1; i < biHeight; i++) for (j = 1; j < biWidth; j++)
      for (k = 0; k < byte_depth; k++)`. */
  predicate VisitedAsWritten(lay: Layout, i: int, j: int, k: int) {
    1 <= i < lay.height && 1 <= j < lay.width && 0 <= k < lay.depth
  }

  /** As written, the loops visit the last row, whose lower neighbour
      `img[(i+1)*byte_width + j*byte_depth + k]` lies past the end of the image. */
  lemma AsWrittenReadsPastBuffer(lay: Layout)
    requires lay.height >= 2 && lay.width >= 2 && lay.depth >= 1 && lay.rowBytes == lay.width * lay.depth
    ensures VisitedAsWritten(lay, lay.height - 1, 1, 0)
    ensures Index(lay, lay.height - 1 + 1, 1, 0) >= lay.Size()
  {
    assert Index(lay, lay.height, 1, 0) == lay.Size() + lay.depth;
  }

  /** As written, the loops visit the last column, whose right neighbour
      `img[i*byte_width + (j+1)*byte_depth + k]` is the first pixel of the next
      row, on the opposite border of the picture. */
  lemma AsWrittenWrapsToNextRow(lay: Layout, i: int, k: int)
    requires lay.rowBytes == lay.width * lay.depth
    requires VisitedAsWritten(lay, i, lay.width - 1, k)
    ensures Index(lay, i, lay.width - 1 + 1, k) == Index(lay, i + 1, 0, k)
    ensures lay.width - 1 + 1 >= lay.width
  {
  }

  /** With the corrected bounds every byte the loops visit reads only true
      neighbours inside the image, and the bytes the loops no longer visit are
      exactly the last row and the last column of the loops as written. */
  lemma CorrectedBoundsSafe(s: seq<Byte>, lay: Layout, i: int, j: int, k: int)
    requires lay.RowsFit() && |s| >= lay.Size()
    ensures Interior(lay, 1, i, j, k) ==> StencilInBounds(s, lay, i, j, k, Stencil)
    ensures Interior(lay, 1, i, j, k) ==> forall o :: o in Stencil ==> 0 <= i + o.0 < lay.height && 0 <= j + o.1 < lay.width
    ensures Interior(lay, 1, i, j, k) <==> VisitedAsWritten(lay, i, j, k) && i != lay.height - 1 && j != lay.width - 1
  {
    if Interior(lay, 1, i, j, k) {
      NeighboursInside(s, lay, i, j, k);
    }
  }
}
