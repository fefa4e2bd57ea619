/** RGBA bitmaps and `Bitmap::sub_image`, the crop applied to a composition
    object's cropping rectangle. */
module Bitmaps {
  import opened Bytes

  const U32_LIMIT: nat := 0x1_0000_0000

  /** An RGBA image: four bytes per pixel (red, green, blue, alpha), row after row. */
  datatype Bitmap = Bitmap(width: U32, height: U32, pixels: seq<byte>)

  /** `Bitmap::default()`: no pixels at all. */
  const EMPTY: Bitmap := Bitmap(0, 0, [])

  /** The pixel buffer holds exactly `width * height` pixels. */
  predicate WellFormed(b: Bitmap) {
    |b.pixels| == 4 * b.width * b.height
  }

  /** `u32::saturating_add`. */
  function SaturatingAddU32(a: U32, b: U32): U32 {
    if a + b < U32_LIMIT then a + b else U32_LIMIT - 1
  }

  /** One past the last source row the crop copies: the requested bottom edge
      (saturated at the largest `u32`), clamped to the bitmap's height. */
  function RowLimit(b: Bitmap, top: U32, height: U32): (r: U32)
    ensures r <= b.height
    ensures r <= top + height
    ensures r == b.height || r == top + height || r == U32_LIMIT - 1
  {
    var bottom := SaturatingAddU32(top, height);
    if bottom < b.height then bottom else b.height
  }

  /** `count` strides of `n` bytes: `count * n`, written as a repeated sum so
      that offsets stay linear for the solver (`StrideIsProduct` gives the
      product form). */
  function Stride(n: nat, count: nat): nat {
    if count == 0 then 0 else Stride(n, count - 1) + n
  }

  lemma {:induction false} StrideIsProduct(n: nat, count: nat)
    ensures Stride(n, count) == count * n
  {
    if count > 0 {
      StrideIsProduct(n, count - 1);
    }
  }

  /** Offset of the first byte of source row `y`: `y * width * 4`, a product
      of `u32` values computed before the `usize` conversion. */
  function RowStart(b: Bitmap, y: nat): nat {
    Stride(4 * b.width, y)
  }

  /** Row `y` can be copied: its offset does not overflow `u32` and the
      `width` pixels starting at column `left` lie inside the pixel buffer. */
  predicate RowCopyable(b: Bitmap, left: U32, y: nat, width: U32) {
    RowStart(b, y) < U32_LIMIT && RowStart(b, y) + 4 * left + 4 * width <= |b.pixels|
  }

  /** The capacity `4 * width * height` is a product of `u32` values, taken
      left to right: neither `4 * width` nor the whole product may overflow. */
  predicate CapacityFits(width: U32, height: U32) {
    4 * width < U32_LIMIT && Stride(4 * width, height) < U32_LIMIT
  }

  /** `sub_image` neither overflows nor slices out of range. */
  predicate CropSafe(b: Bitmap, left: U32, top: U32, width: U32, height: U32) {
    && CapacityFits(width, height)
    && forall y :: top <= y < RowLimit(b, top, height) ==> RowCopyable(b, left, y, width)
  }

  /** A crop whose capacity overflows is not safe, however small the bitmap:
      a 0x8000-pixel-wide, one-row bitmap cropped to 0x8000 by 0x8000 asks
      for 2^32 bytes. */
  lemma OverflowingCapacityIsUnsafe(b: Bitmap, left: U32, top: U32)
    ensures !CropSafe(b, left, top, 0x8000, 0x8000)
  {
    StrideIsProduct(4 * 0x8000, 0x8000);
  }

  /** The `width` pixels of row `y` starting at column `left`. */
  function Line(b: Bitmap, left: U32, y: nat, width: U32): (line: seq<byte>)
    requires RowCopyable(b, left, y, width)
    ensures |line| == 4 * width
  {
    var begin := RowStart(b, y) + 4 * left;
    b.pixels[begin..begin + 4 * width]
  }

  /** Number of source rows a crop copies. */
  function RowsCopied(b: Bitmap, top: U32, height: U32): nat {
    if RowLimit(b, top, height) <= top then 0 else RowLimit(b, top, height) - top
  }

  /** The lines a crop copies, top to bottom. */
  function Lines(b: Bitmap, left: U32, top: U32, width: U32, height: U32): (ls: seq<seq<byte>>)
    requires CropSafe(b, left, top, width, height)
    ensures |ls| == RowsCopied(b, top, height)
    ensures forall i :: 0 <= i < |ls| ==> ls[i] == Line(b, left, top + i, width)
    ensures forall i :: 0 <= i < |ls| ==> |ls[i]| == 4 * width
  {
    var rows := RowsCopied(b, top, height);
    seq(rows, i requires 0 <= i < rows => Line(b, left, top + i, width))
  }

  /** `Bitmap::sub_image`: the rectangle with top-left corner (`left`, `top`)
      of the requested size, copied row by row. Rows below the bitmap are not
      copied, yet the result reports the requested width and height. */
  function SubImage(b: Bitmap, left: U32, top: U32, width: U32, height: U32): (r: Bitmap)
    requires CropSafe(b, left, top, width, height)
    ensures r.width == width && r.height == height
    ensures |r.pixels| == Stride(4 * width, RowsCopied(b, top, height))
  {
    var lines := Lines(b, left, top, width, height);
    FlattenLength(lines, 4 * width);
    Bitmap(width, height, Flatten(lines))
  }

  /** A crop holds `4 * width` bytes for every row it copies. */
  lemma SubImageSize(b: Bitmap, left: U32, top: U32, width: U32, height: U32)
    requires CropSafe(b, left, top, width, height)
    ensures |SubImage(b, left, top, width, height).pixels| == 4 * width * RowsCopied(b, top, height)
  {
    StrideIsProduct(4 * width, RowsCopied(b, top, height));
  }

  /** Concatenating `|parts|` parts of `n` bytes each gives `|parts|` strides of `n`. */
  lemma {:induction false} FlattenLength(parts: seq<seq<byte>>, n: nat)
    requires forall k :: 0 <= k < |parts| ==> |parts[k]| == n
    ensures |Flatten(parts)| == Stride(n, |parts|)
    decreases |parts|
  {
    if |parts| > 0 {
      FlattenLength(parts[1..], n);
    }
  }

  /** Byte `c` of part `i` sits `i` strides into the concatenation. */
  lemma {:induction false} FlattenAt(parts: seq<seq<byte>>, n: nat, i: nat, c: nat)
    requires forall k :: 0 <= k < |parts| ==> |parts[k]| == n
    requires i < |parts| && c < n
    ensures Stride(n, i) + c < |Flatten(parts)|
    ensures Flatten(parts)[Stride(n, i) + c] == parts[i][c]
    decreases i
  {
    FlattenLength(parts, n);
    StrideMonotone(n, i + 1, |parts|);
    var rest := Flatten(parts[1..]);
    assert Flatten(parts) == parts[0] + rest;
    if i > 0 {
      FlattenAt(parts[1..], n, i - 1, c);
      assert parts[1..][i - 1] == parts[i];
    }
  }

  /** Pixel-wise meaning of a crop: byte `c` of output row `i` (which starts
      at offset `i * width * 4`) is byte `c` of source row `top + i` counted
      from column `left` (offset `(top + i) * b.width * 4 + left * 4`; see
      `StrideIsProduct`). */
  lemma SubImageAt(b: Bitmap, left: U32, top: U32, width: U32, height: U32, i: nat, c: nat)
    requires CropSafe(b, left, top, width, height)
    requires top + i < RowLimit(b, top, height) && c < 4 * width
    ensures RowStart(b, top + i) + 4 * left + c < |b.pixels|
    ensures var r := SubImage(b, left, top, width, height);
            && Stride(4 * width, i) + c < |r.pixels|
            && r.pixels[Stride(4 * width, i) + c] == b.pixels[RowStart(b, top + i) + 4 * left + c]
  {
    var lines := SubImageLines(b, left, top, width, height, i);
    FlattenedLineAt(b, left, top + i, width, lines, i, c);
  }

  /** Byte `c` of line `i` of a concatenation of lines, when that line is
      source row `y`. */
  lemma FlattenedLineAt(b: Bitmap, left: U32, y: nat, width: U32, lines: seq<seq<byte>>, i: nat, c: nat)
    requires RowCopyable(b, left, y, width) && c < 4 * width
    requires i < |lines| && forall k :: 0 <= k < |lines| ==> |lines[k]| == 4 * width
    requires lines[i] == Line(b, left, y, width)
    ensures RowStart(b, y) + 4 * left + c < |b.pixels|
    ensures Stride(4 * width, i) + c < |Flatten(lines)|
    ensures Flatten(lines)[Stride(4 * width, i) + c] == b.pixels[RowStart(b, y) + 4 * left + c]
  {
    FlattenAt(lines, 4 * width, i, c);
    LineAt(b, left, y, width, c);
  }

  /** The crop's pixels are its lines joined, and line `i` is source row `top + i`. */
  lemma SubImageLines(b: Bitmap, left: U32, top: U32, width: U32, height: U32, i: nat)
    returns (lines: seq<seq<byte>>)
    requires CropSafe(b, left, top, width, height)
    requires top + i < RowLimit(b, top, height)
    ensures RowCopyable(b, left, top + i, width)
    ensures i < |lines| && forall k :: 0 <= k < |lines| ==> |lines[k]| == 4 * width
    ensures lines[i] == Line(b, left, top + i, width)
    ensures SubImage(b, left, top, width, height).pixels == Flatten(lines)
  {
    lines := Lines(b, left, top, width, height);
  }

  lemma LineAt(b: Bitmap, left: U32, y: nat, width: U32, c: nat)
    requires RowCopyable(b, left, y, width) && c < 4 * width
    ensures RowStart(b, y) + 4 * left + c < |b.pixels|
    ensures Line(b, left, y, width)[c] == b.pixels[RowStart(b, y) + 4 * left + c]
  {
  }

  lemma {:induction false} StrideMonotone(n: nat, a: nat, b: nat)
    requires a <= b
    ensures Stride(n, a) <= Stride(n, b)
    decreases b
  {
    if a < b {
      StrideMonotone(n, a, b - 1);
    }
  }

  /** A crop rectangle inside a well-formed bitmap whose byte count and row
      size are `u32` values never panics, and yields a well-formed bitmap of
      the requested size. (For a bitmap with at least one row the row size
      bound follows from the byte count.) */
  lemma InsideCropIsWellFormed(b: Bitmap, left: U32, top: U32, width: U32, height: U32)
    requires WellFormed(b) && |b.pixels| < U32_LIMIT && 4 * b.width < U32_LIMIT
    requires left + width <= b.width && top + height <= b.height
    ensures CropSafe(b, left, top, width, height)
    ensures WellFormed(SubImage(b, left, top, width, height))
  {
    StrideIsProduct(4 * b.width, b.height);
    BufferSize(b.width, b.height);
    StrideLe(4 * width, height, 4 * b.width, b.height);
    assert CapacityFits(width, height);
    assert RowLimit(b, top, height) == top + height;
    forall y | top <= y < top + height
      ensures RowCopyable(b, left, y, width)
    {
      RowInside(b, left, y, width);
    }
    assert RowsCopied(b, top, height) == height;
    SubImageSize(b, left, top, width, height);
  }

  /** Every row of a well-formed bitmap that fits the `u32` offsets can be
      copied from any column range inside its width. */
  lemma RowInside(b: Bitmap, left: U32, y: nat, width: U32)
    requires WellFormed(b) && |b.pixels| <= U32_LIMIT
    requires left + width <= b.width && y < b.height
    ensures RowCopyable(b, left, y, width)
  {
    var n := 4 * b.width;
    StrideMonotone(n, y + 1, b.height);
    StrideIsProduct(n, b.height);
    BufferSize(b.width, b.height);
    assert RowStart(b, y) + n <= |b.pixels|;
  }

  /** Fewer strides of a smaller size cover no more. */
  lemma {:induction false} StrideLe(n: nat, a: nat, m: nat, b: nat)
    requires n <= m && a <= b
    ensures Stride(n, a) <= Stride(m, b)
    decreases b
  {
    if a == b {
      if a > 0 {
        StrideLe(n, a - 1, m, b - 1);
      }
    } else {
      StrideLe(n, a, m, b - 1);
    }
  }

  lemma BufferSize(w: nat, h: nat)
    ensures 4 * w * h == h * (4 * w)
  {
  }

  lemma MulLess(k: nat, a: nat, b: nat)
    requires k > 0 && a < b
    ensures k * a < k * b
  {
  }

  /** A crop whose bottom edge lies below the bitmap copies only the rows
      that exist, so its buffer is shorter than its reported size promises. */
  lemma ClampedCropIsShort(b: Bitmap, left: U32, top: U32, width: U32, height: U32)
    requires CropSafe(b, left, top, width, height)
    requires top < b.height < top + height && width > 0
    ensures var r := SubImage(b, left, top, width, height);
            |r.pixels| == 4 * width * (b.height - top) && !WellFormed(r)
  {
    assert RowsCopied(b, top, height) == b.height - top;
    SubImageSize(b, left, top, width, height);
    MulLess(4 * width, b.height - top, height);
  }
}
