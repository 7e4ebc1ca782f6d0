/**
 * One pass of Markov-random-field relaxation, as both relaxation programs run
 * it: every channel of every pixel at least `margin` away from the border is
 * given the luminance chosen from the Gibbs CDF of its neighbourhood in the
 * source buffer; every other byte of the destination buffer is left alone.
 * The programs differ only in the neighbourhood, the margin and the constants,
 * which a `Rule` collects.
 */
module Relaxation {
  import opened Geometry
  import opened Gibbs

  /** The parameters of a relaxation program: the loop margin, the stencil of
      neighbour offsets in the order the energy loop reads them, `TEMPERATURE`
      and `THRESHOLD`. */
  datatype Rule = Rule(margin: nat, offs: seq<(int, int)>, temperature: int, threshold: real)
  {
    predicate Valid() {
      temperature > 0 && threshold < 1.0
    }
  }

  /** Pixel (i, j), channel k, is visited by the relaxation loops: at least `margin` away from every border. */
  predicate Interior(lay: Layout, margin: nat, i: int, j: int, k: int) {
    margin <= i < lay.height - margin && margin <= j < lay.width - margin && 0 <= k < lay.depth
  }

  /** For an interior byte, every offset in [-margin, margin]² reads inside the buffer. */
  lemma InteriorReadsInBounds(s: seq<Byte>, lay: Layout, margin: nat, i: int, j: int, k: int, offs: seq<(int, int)>)
    requires lay.RowsFit() && |s| >= lay.Size() && Interior(lay, margin, i, j, k)
    requires forall o :: o in offs ==> -(margin as int) <= o.0 <= margin && -(margin as int) <= o.1 <= margin
    ensures StencilInBounds(s, lay, i, j, k, offs)
  {
    forall t | 0 <= t < |offs| ensures 0 <= Index(lay, i + offs[t].0, j + offs[t].1, k) < |s| {
      assert offs[t] in offs;
      IndexInBounds(lay, i + offs[t].0, j + offs[t].1, k);
    }
  }

  /** The value a pass writes for byte (i, j, k) when it reads `s`: the first
      candidate whose normalised Gibbs CDF exceeds the threshold. */
  function RelaxedByte(s: seq<Byte>, lay: Layout, rule: Rule, w: int -> real, i: int, j: int, k: int): Byte
    requires rule.Valid() && PositiveWeights(w)
  {
    Choose(Energies(s, lay, i, j, k, rule.offs), rule.temperature, w, rule.threshold)
  }

  /** Byte `g` is one the relaxation loops write: a channel of an interior pixel. */
  predicate Written(lay: Layout, margin: nat, g: int) {
    lay.rowBytes > 0 && lay.depth > 0 && g >= 0 &&
    Interior(lay, margin, RowOf(lay, g), ColOf(lay, g), ChannelOf(lay, g))
  }

  /** One pass reading `s` and writing into a buffer that held `prev`. */
  function Pass(s: seq<Byte>, prev: seq<Byte>, lay: Layout, rule: Rule, w: int -> real): (r: seq<Byte>)
    requires |prev| == |s| && rule.Valid() && PositiveWeights(w)
    ensures |r| == |s|
  {
    seq(|s|, g requires 0 <= g < |s| =>
      if Written(lay, rule.margin, g) then RelaxedByte(s, lay, rule, w, RowOf(lay, g), ColOf(lay, g), ChannelOf(lay, g))
      else prev[g])
  }

  /** Byte `g` comes before (i, j, k) in the order of the i/j/k loops. */
  predicate Before(lay: Layout, g: int, i: int, j: int, k: int)
    requires lay.rowBytes > 0 && lay.depth > 0
  {
    RowOf(lay, g) < i || (RowOf(lay, g) == i && (ColOf(lay, g) < j || (ColOf(lay, g) == j && ChannelOf(lay, g) < k)))
  }

  /** `cur` holds the pass's result for the bytes before (i, j, k) and `prev` elsewhere. */
  ghost predicate Progress(cur: seq<Byte>, s: seq<Byte>, prev: seq<Byte>, lay: Layout, rule: Rule, w: int -> real,
                           i: int, j: int, k: int)
    requires |prev| == |s| && rule.Valid() && PositiveWeights(w)
  {
    |cur| == |s| &&
    forall g :: 0 <= g < |s| ==>
      cur[g] == if Written(lay, rule.margin, g) && Before(lay, g, i, j, k) then Pass(s, prev, lay, rule, w)[g] else prev[g]
  }

  /** Writing byte (i, j, k) moves the loops one channel on. */
  lemma ProgressByte(cur: seq<Byte>, s: seq<Byte>, prev: seq<Byte>, lay: Layout, rule: Rule, w: int -> real,
                     i: int, j: int, k: int)
    requires lay.RowsFit() && |s| >= lay.Size() && |prev| == |s| && rule.Valid() && PositiveWeights(w)
    requires Interior(lay, rule.margin, i, j, k) && Progress(cur, s, prev, lay, rule, w, i, j, k)
    requires 0 <= Index(lay, i, j, k) < |s|
    ensures Progress(cur[Index(lay, i, j, k) := RelaxedByte(s, lay, rule, w, i, j, k)], s, prev, lay, rule, w, i, j, k + 1)
  {
    var x := Index(lay, i, j, k);
    IndexDecodes(lay, i, j, k);
    forall g | 0 <= g < |s| && g != x
      ensures !(RowOf(lay, g) == i && ColOf(lay, g) == j && ChannelOf(lay, g) == k)
    {
      IndexOfDecoded(lay, g);
    }
  }

  /** After the last channel the k loop ends and the loops move to the next pixel. */
  lemma ProgressRow(cur: seq<Byte>, s: seq<Byte>, prev: seq<Byte>, lay: Layout, rule: Rule, w: int -> real, i: int, j: int)
    requires |prev| == |s| && rule.Valid() && PositiveWeights(w)
    requires Progress(cur, s, prev, lay, rule, w, i, j, lay.depth)
    ensures Progress(cur, s, prev, lay, rule, w, i, j + 1, 0)
  {
  }

  /** After the last interior column the j loop ends and the loops move to the next row. */
  lemma ProgressNextRow(cur: seq<Byte>, s: seq<Byte>, prev: seq<Byte>, lay: Layout, rule: Rule, w: int -> real, i: int, j: int)
    requires |prev| == |s| && rule.Valid() && PositiveWeights(w)
    requires j >= lay.width - rule.margin && Progress(cur, s, prev, lay, rule, w, i, j, 0)
    ensures Progress(cur, s, prev, lay, rule, w, i + 1, rule.margin, 0)
  {
  }

  /** After the last interior row the buffer holds the whole pass. */
  lemma ProgressDone(cur: seq<Byte>, s: seq<Byte>, prev: seq<Byte>, lay: Layout, rule: Rule, w: int -> real, i: int)
    requires |prev| == |s| && rule.Valid() && PositiveWeights(w)
    requires i >= lay.height - rule.margin && Progress(cur, s, prev, lay, rule, w, i, rule.margin, 0)
    ensures cur == Pass(s, prev, lay, rule, w)
  {
  }

  /** A byte at or past `rowBytes · height`, the slack of a buffer sized larger
      than the rows it holds, lies in no row of the image and is never written. */
  lemma TailNeverWritten(lay: Layout, margin: nat, g: int)
    requires lay.rowBytes > 0 && g >= lay.Size()
    ensures RowOf(lay, g) >= lay.height
    ensures !Written(lay, margin, g)
  {
    var q := g / lay.rowBytes;
    if q < lay.height {
      MulSign(lay.height - q, lay.rowBytes);
      assert false;
    }
  }

  /** A byte in a row's padding is never written. */
  lemma PaddingNeverWritten(lay: Layout, margin: nat, g: int)
    requires lay.rowBytes > 0 && g >= 0 && g % lay.rowBytes >= lay.width * lay.depth
    ensures !Written(lay, margin, g)
  {
    if lay.depth > 0 {
      PaddingColumn(lay, g);
    }
  }
}
