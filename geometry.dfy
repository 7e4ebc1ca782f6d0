/**
 * Geometry of a decoded bitmap as the segmentation programs compute it from the
 * bitmap's info header: bytes per pixel, the padding that aligns every row to a
 * 4-byte boundary (the Windows BMP row layout), the row stride and the radius of
 * the Markov neighbourhood.
 */
module Geometry {

  /** A strided, row-major view: `rowBytes` is the stride of one row, padding included. */
  datatype Layout = Layout(width: nat, height: nat, depth: nat, rowBytes: nat)
  {
    /** The stride holds a whole row of pixels. */
    predicate RowsFit() {
      width * depth <= rowBytes
    }

    /** Number of bytes the buffer holds. */
    function Size(): nat {
      rowBytes * height
    }
  }

  /** Byte offset of channel `k` of the pixel in row `row`, column `col`. */
  function Index(lay: Layout, row: int, col: int, k: int): int {
    row * lay.rowBytes + col * lay.depth + k
  }

  /** The row of the byte at offset `g`. */
  function RowOf(lay: Layout, g: int): int
    requires lay.rowBytes > 0
  {
    g / lay.rowBytes
  }

  /** The column of the byte at offset `g`. */
  function ColOf(lay: Layout, g: int): int
    requires lay.rowBytes > 0 && lay.depth > 0
  {
    (g % lay.rowBytes) / lay.depth
  }

  /** The channel of the byte at offset `g`. */
  function ChannelOf(lay: Layout, g: int): int
    requires lay.rowBytes > 0 && lay.depth > 0
  {
    (g % lay.rowBytes) % lay.depth
  }

  /** `bitPerPix / 8`: whole bytes per pixel. */
  function BytesPerPixel(bitPerPix: nat): (d: nat)
    ensures d * 8 <= bitPerPix < d * 8 + 8
  {
    bitPerPix / 8
  }

  /** `x & 0x3` on a two's-complement int keeps the two low bits, which is
      Euclidean remainder modulo 4 whatever the sign of `x`. */
  function LowTwoBits(x: int): (b: int)
    ensures 0 <= b < 4 && (x - b) % 4 == 0
  {
    x % 4
  }

  /** `(4 - pixelBytes & 0x3) & 0x3`: C's `-` binds tighter than `&`. The result
      is the least number of bytes that brings a row to a multiple of 4. */
  function Padding(pixelBytes: int): (p: int)
    ensures 0 <= p < 4
    ensures (pixelBytes + p) % 4 == 0
  {
    LowTwoBits(LowTwoBits(4 - pixelBytes))
  }

  /** The layout of a bitmap whose rows are padded to a 4-byte boundary. */
  function PaddedLayout(width: nat, height: nat, bitPerPix: nat): (lay: Layout)
    ensures lay.width == width && lay.height == height
    ensures lay.depth == BytesPerPixel(bitPerPix)
    ensures width * lay.depth <= lay.rowBytes < width * lay.depth + 4
    ensures lay.rowBytes % 4 == 0
  {
    var d := BytesPerPixel(bitPerPix);
    Layout(width, height, d, width * d + Padding(width * d))
  }

  function Min(a: int, b: int): int {
    if a < b then a else b
  }

  /** `(Width < Height) ? Width/PARTITION : Height/PARTITION`: the integer quotient
      of the smaller side by the partition constant. */
  function Radius(width: nat, height: nat, partition: nat): (r: nat)
    requires partition > 0
    ensures r * partition <= Min(width, height) < (r + 1) * partition
  {
    if width < height then width / partition else height / partition
  }

  lemma MulSign(n: int, b: int)
    requires b > 0
    ensures n >= 1 ==> n * b >= b
    ensures n <= -1 ==> n * b <= -b
  {
    if n >= 1 {
      assert n * b == (n - 1) * b + b;
    } else if n <= -1 {
      assert n * b == (n + 1) * b - b;
    }
  }

  lemma DivUnique(x: int, b: int, q: int, r: int)
    requires b > 0 && 0 <= r < b && x == q * b + r
    ensures x / b == q && x % b == r
  {
    assert (q - x / b) * b == x % b - r;
    MulSign(q - x / b, b);
  }

  /** A channel of a pixel inside the picture lies inside the buffer. */
  lemma IndexInBounds(lay: Layout, row: int, col: int, k: int)
    requires lay.RowsFit()
    requires 0 <= row < lay.height && 0 <= col < lay.width && 0 <= k < lay.depth
    ensures 0 <= Index(lay, row, col, k) < lay.Size()
  {
    MulSign(lay.width - col, lay.depth);
    assert col * lay.depth + k < lay.rowBytes;
    MulSign(lay.height - row, lay.rowBytes);
    assert row * lay.rowBytes + lay.rowBytes <= lay.height * lay.rowBytes;
  }

  /** The row, column and channel of a byte are recovered from its offset,
      because a row of pixels fits in the stride. */
  lemma IndexDecodes(lay: Layout, row: int, col: int, k: int)
    requires lay.RowsFit()
    requires 0 <= col < lay.width && 0 <= k < lay.depth
    ensures lay.rowBytes > 0 && lay.depth > 0
    ensures RowOf(lay, Index(lay, row, col, k)) == row
    ensures ColOf(lay, Index(lay, row, col, k)) == col
    ensures ChannelOf(lay, Index(lay, row, col, k)) == k
  {
    MulSign(lay.width - col, lay.depth);
    MulSign(lay.width, lay.depth);
    DivUnique(Index(lay, row, col, k), lay.rowBytes, row, col * lay.depth + k);
    DivUnique(col * lay.depth + k, lay.depth, col, k);
  }

  /** A byte offset is determined by its row, column and channel. */
  lemma IndexOfDecoded(lay: Layout, g: int)
    requires lay.rowBytes > 0 && lay.depth > 0
    ensures g == Index(lay, RowOf(lay, g), ColOf(lay, g), ChannelOf(lay, g))
  {
  }

  /** A byte that lies in a row's padding has a column at or beyond the width. */
  lemma PaddingColumn(lay: Layout, g: int)
    requires lay.rowBytes > 0 && lay.depth > 0
    requires g % lay.rowBytes >= lay.width * lay.depth
    ensures ColOf(lay, g) >= lay.width
  {
    MulSign(lay.width - ColOf(lay, g), lay.depth);
  }
}
