/** The run-length code grammar of object data (`decode_image_data_code`) and
    the cursor that walks a buffer one code at a time (`ImageDataDecoder`).

    A code is one of four widths. A non-zero first byte is a single pixel of
    that colour. A zero first byte is followed by v1, whose top two bits choose
    the form: 00 is a short run of colour 0 (or, when v1 is zero, the end of a
    line); 01 is a 14-bit run of colour 0 stored plus one; 10 is a 6-bit run of
    colour v2; 11 is a 14-bit run of colour v3. */
module Rle {
  import opened Results
  import opened Bytes
  import Wire

  datatype ImageDataCode = Color(color: byte, count: U16) | EndOfLine

  /** The longest run a code can express: fourteen bits. */
  const MAX_RUN: nat := 0x3FFF

  /** `v & 0xC0`: the top two bits of a byte, left in place. */
  function TopTwoBits(v: byte): byte {
    v / 64 * 64
  }

  /** `v & 0x3F`: the low six bits of a byte. */
  function LowSixBits(v: byte): byte {
    v % 64
  }

  /** The 14-bit run length `(v1 & 0x3F) << 8 | v2`: the shift leaves the low
      eight bits clear, so the OR adds v2. */
  function RunLength14(v1: byte, v2: byte): (n: nat)
    ensures n <= MAX_RUN
  {
    LowSixBits(v1) * 256 + v2
  }

  /** The masks above are the source's bitwise operations on the byte's bit pattern. */
  lemma TopTwoBitsIsBitwise(v: bv8)
    ensures TopTwoBits(v as int) == (v & 0xC0) as int
  {
  }

  lemma LowSixBitsIsBitwise(v: bv8)
    ensures LowSixBits(v as int) == (v & 0x3F) as int
  {
  }

  /** The run length above is the source's 16-bit shift-and-or. */
  lemma RunLength14IsBitwise(v1: bv8, v2: bv8)
    ensures RunLength14(v1 as int, v2 as int) == ((((v1 as bv16) & 0x3F) << 8) | (v2 as bv16)) as int
  {
    var low := (v1 as bv16) & 0x3F;
    LowSixBitsIsBitwise(v1);
    Widen(v1 & 0x3F);
    assert low == (v1 & 0x3F) as bv16;
    ShiftOr(low, v2);
  }

  lemma Widen(v: bv8)
    ensures (v as bv16) as int == v as int
  {
  }

  /** Shifting a six-bit value up by a byte and OR-ing a byte into the gap is
      the arithmetic `hi * 256 + lo`. */
  lemma ShiftOr(hi: bv16, lo: bv8)
    requires hi < 64
    ensures ((hi << 8) | (lo as bv16)) as int == hi as int * 256 + lo as int
  {
  }

  /** The three values the top two bits of a byte can take besides zero, as value ranges. */
  lemma TopBits(v: byte)
    ensures TopTwoBits(v) == 0x40 <==> 64 <= v < 128
    ensures TopTwoBits(v) == 0x80 <==> 128 <= v < 192
    ensures TopTwoBits(v) == 0xC0 <==> 192 <= v
  {
  }

  function DecodeImageDataCode(buf: seq<byte>): (r: Result<(ImageDataCode, nat), Wire.Error>)
    // every failure is an empty or a cut-short buffer: the final branch is never taken
    ensures r.Err? <==> |buf| < CodeLength(buf)
    ensures r.Err? ==> r.error == (if |buf| == 0 then Wire.EmptyBuffer else Wire.NotEnoughData)
    ensures r.Ok? ==> r.value.1 == CodeLength(buf) && 1 <= r.value.1 <= 4 && r.value.1 <= |buf|
    ensures r.Ok? && r.value.0.Color? ==> r.value.0.count <= MAX_RUN
  {
    if |buf| == 0 then Err(Wire.EmptyBuffer)
    else
      var v0 := buf[0];
      if v0 > 0 then Ok((Color(v0, 1), 1))
      else if |buf| < 2 then Err(Wire.NotEnoughData)
      else
        var v1 := buf[1];
        TopBits(v1);
        if 1 <= v1 <= 63 then Ok((Color(0, v1), 2))
        else if v1 == 0 then Ok((EndOfLine, 2))
        else if |buf| < 3 then Err(Wire.NotEnoughData)
        else
          var v2 := buf[2];
          if TopTwoBits(v1) == 0x40 then
            Ok((Color(0, SaturatingSub(RunLength14(v1, v2), 1)), 3))
          else if TopTwoBits(v1) == 0x80 then
            Ok((Color(v2, LowSixBits(v1)), 3))
          else if |buf| < 4 then Err(Wire.NotEnoughData)
          else
            var v3 := buf[3];
            if TopTwoBits(v1) == 0xC0 then Ok((Color(v3, RunLength14(v1, v2)), 4))
            else Err(Wire.InvalidRleData)
  }

  /** The value each form decodes to, in terms of the byte values rather than bit masks. */
  lemma DecodeImageDataCodeForms(buf: seq<byte>)
    ensures |buf| >= 1 && buf[0] != 0 ==> DecodeImageDataCode(buf) == Ok((Color(buf[0], 1), 1))
    ensures |buf| >= 2 && buf[0] == 0 && buf[1] == 0 ==> DecodeImageDataCode(buf) == Ok((EndOfLine, 2))
    ensures |buf| >= 2 && buf[0] == 0 && 1 <= buf[1] <= 63 ==>
              DecodeImageDataCode(buf) == Ok((Color(0, buf[1]), 2))
    ensures |buf| >= 3 && buf[0] == 0 && 64 <= buf[1] < 128 ==>
              DecodeImageDataCode(buf) == Ok((Color(0, SaturatingSub((buf[1] as int - 64) * 256 + buf[2], 1)), 3))
    ensures |buf| >= 3 && buf[0] == 0 && 128 <= buf[1] < 192 ==>
              DecodeImageDataCode(buf) == Ok((Color(buf[2], buf[1] - 128), 3))
    ensures |buf| >= 4 && buf[0] == 0 && 192 <= buf[1] ==>
              DecodeImageDataCode(buf) == Ok((Color(buf[3], (buf[1] as int - 192) * 256 + buf[2]), 4))
  {
    if |buf| >= 2 && buf[0] == 0 {
      TopBits(buf[1]);
    }
  }

  /** The length of the code that starts `buf`, decided by its first byte and,
      when that is zero, by the range v1 falls in (a missing v1 reads as zero). */
  function CodeLength(buf: seq<byte>): nat {
    if |buf| == 0 then 1
    else if buf[0] != 0 then 1
    else if |buf| == 1 then 2
    else if buf[1] < 64 then 2
    else if buf[1] < 192 then 3
    else 4
  }

  // ---------------------------------------------------------------------------
  // The cursor over a whole object buffer

  datatype ImageDataDecoder = ImageDataDecoder(buf: seq<byte>, offset: nat) {
    predicate Valid() {
      offset <= |buf|
    }
  }

  /** `decode_image_data`: a cursor at the start of the buffer. */
  function DecodeImageData(buf: seq<byte>): (d: ImageDataDecoder)
    ensures d.Valid() && d.buf == buf && d.offset == 0
  {
    ImageDataDecoder(buf, 0)
  }

  /** `Iterator::next`. Nothing once the whole buffer is consumed; otherwise
      the next code and a cursor past it, or the decoding error and the cursor
      left where it was. */
  function Next(d: ImageDataDecoder): (r: (Option<Result<ImageDataCode, Wire.Error>>, ImageDataDecoder))
    requires d.Valid()
    ensures r.1.Valid() && r.1.buf == d.buf
    ensures r.0.None? <==> d.offset == |d.buf|
    ensures r.0.None? ==> r.1 == d
    ensures r.0.Some? ==> (r.0.value.Err? <==> DecodeImageDataCode(d.buf[d.offset..]).Err?)
    ensures r.0.Some? && r.0.value.Err? ==>
              r.1 == d && r.0.value.error == DecodeImageDataCode(d.buf[d.offset..]).error
    ensures r.0.Some? && r.0.value.Ok? ==>
              && d.offset < r.1.offset <= d.offset + 4
              && DecodeImageDataCode(d.buf[d.offset..]) == Ok((r.0.value.value, r.1.offset - d.offset))
  {
    if d.offset == |d.buf| then (None, d)
    else
      match DecodeImageDataCode(d.buf[d.offset..])
      case Err(e) => (Some(Err(e)), d)
      case Ok((code, n)) => (Some(Ok(code)), d.(offset := d.offset + n))
  }

  /** Everything the cursor yields, in order, until it is exhausted; the first
      error ends the walk. */
  function Codes(d: ImageDataDecoder): (r: Result<seq<ImageDataCode>, Wire.Error>)
    requires d.Valid()
    decreases |d.buf| - d.offset
  {
    match Next(d)
    case (None, _) => Ok([])
    case (Some(Err(e)), _) => Err(e)
    case (Some(Ok(code)), rest) =>
      var codes :- Codes(rest);
      Ok([code] + codes)
  }

  // ---------------------------------------------------------------------------
  // Encoding, the partner of decoding

  predicate Encodable(c: ImageDataCode) {
    c.Color? ==> c.count <= MAX_RUN
  }

  /** The shortest code for c. */
  function EncodeCode(c: ImageDataCode): (bs: seq<byte>)
    requires Encodable(c)
    ensures 1 <= |bs| <= 4
  {
    match c
    case EndOfLine => [0, 0]
    case Color(color, n) =>
      if color != 0 && n == 1 then [color]
      else if color == 0 && 1 <= n <= 63 then [0, n]
      else if n <= 63 then [0, 0x80 + n, color]
      else if color == 0 && n < MAX_RUN then [0, 0x40 + (n + 1) / 256, (n + 1) % 256]
      else [0, 0xC0 + n / 256, n % 256, color]
  }

  function EncodeCodes(cs: seq<ImageDataCode>): (bs: seq<byte>)
    requires forall i :: 0 <= i < |cs| ==> Encodable(cs[i])
  {
    if |cs| == 0 then [] else EncodeCode(cs[0]) + EncodeCodes(cs[1..])
  }

  /** Decoding the code for c, whatever follows it, gives c and its length. */
  lemma DecodeEncodeCode(c: ImageDataCode, rest: seq<byte>)
    requires Encodable(c)
    ensures DecodeImageDataCode(EncodeCode(c) + rest) == Ok((c, |EncodeCode(c)|))
  {
    var e := EncodeCode(c);
    var bs := e + rest;
    assert forall i :: 0 <= i < |e| ==> bs[i] == e[i];
    match c
    case EndOfLine =>
      DecodeImageDataCodeForms(bs);
    case Color(color, n) =>
      if color != 0 && n == 1 {
        DecodeImageDataCodeForms(bs);
      } else if color == 0 && 1 <= n <= 63 {
        DecodeImageDataCodeForms(bs);
      } else if n <= 63 {
        DecodeShortRun(color, n, bs);
      } else if color == 0 && n < MAX_RUN {
        DecodeLongZeroRun(n, bs);
      } else {
        DecodeLongRun(color, n, bs);
      }
  }

  lemma DecodeShortRun(color: byte, n: nat, bs: seq<byte>)
    requires n <= 63 && |bs| >= 3
    requires bs[0] == 0 && bs[1] == 0x80 + n && bs[2] == color
    ensures DecodeImageDataCode(bs) == Ok((Color(color, n), 3))
  {
    DecodeImageDataCodeForms(bs);
  }

  lemma DecodeLongZeroRun(n: nat, bs: seq<byte>)
    requires 63 < n < MAX_RUN && |bs| >= 3
    requires bs[0] == 0 && bs[1] == 0x40 + (n + 1) / 256 && bs[2] == (n + 1) % 256
    ensures DecodeImageDataCode(bs) == Ok((Color(0, n), 3))
  {
    DecodeImageDataCodeForms(bs);
    assert (bs[1] as int - 64) * 256 + bs[2] == n + 1;
  }

  lemma DecodeLongRun(color: byte, n: nat, bs: seq<byte>)
    requires 63 < n <= MAX_RUN && |bs| >= 4
    requires bs[0] == 0 && bs[1] == 0xC0 + n / 256 && bs[2] == n % 256 && bs[3] == color
    ensures DecodeImageDataCode(bs) == Ok((Color(color, n), 4))
  {
    DecodeImageDataCodeForms(bs);
    assert (bs[1] as int - 192) * 256 + bs[2] == n;
  }

  /** Walking the concatenated codes of cs yields exactly cs. */
  lemma CodesOfEncodeCodes(cs: seq<ImageDataCode>)
    requires forall i :: 0 <= i < |cs| ==> Encodable(cs[i])
    ensures Codes(DecodeImageData(EncodeCodes(cs))) == Ok(cs)
  {
    CodesFrom([], cs);
  }

  lemma {:induction false} CodesFrom(prefix: seq<byte>, cs: seq<ImageDataCode>)
    requires forall i :: 0 <= i < |cs| ==> Encodable(cs[i])
    ensures Codes(ImageDataDecoder(prefix + EncodeCodes(cs), |prefix|)) == Ok(cs)
    decreases |cs|
  {
    var d := ImageDataDecoder(prefix + EncodeCodes(cs), |prefix|);
    if |cs| == 0 {
      assert d.buf == prefix;
    } else {
      var head := EncodeCode(cs[0]);
      var tail := EncodeCodes(cs[1..]);
      assert d.buf[|prefix|..] == head + tail;
      DecodeEncodeCode(cs[0], tail);
      assert d.buf == (prefix + head) + tail;
      CodesFrom(prefix + head, cs[1..]);
      assert [cs[0]] + cs[1..] == cs;
    }
  }
}
