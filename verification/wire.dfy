/** The fixed-layout records of a PGS stream and the big-endian readers that
    parse them from a byte cursor. A cursor is a byte sequence plus a
    position; every reader returns the parsed value and the position after it. */
module Wire {
  import opened Results
  import opened Bytes

  const MAGIC_NUMBER: U16 := 0x5047 // "PG"

  const SEGMENT_TYPE_PDS: U8 := 0x14
  const SEGMENT_TYPE_ODS: U8 := 0x15
  const SEGMENT_TYPE_PCS: U8 := 0x16
  const SEGMENT_TYPE_WDS: U8 := 0x17
  const SEGMENT_TYPE_END: U8 := 0x80

  const FRAME_RATE: U8 := 0x10

  const COMPOSITION_STATE_NORMAL: U8 := 0x00
  const COMPOSITION_STATE_ACQUISITION_POINT: U8 := 0x40
  const COMPOSITION_STATE_EPOCH_START: U8 := 0x80

  const PALETTE_UPDATE_FLAG_FALSE: U8 := 0x00
  const PALETTE_UPDATE_FLAG_TRUE: U8 := 0x80

  const OBJECT_CROPPED_FLAG_OFF: U8 := 0x00
  const OBJECT_CROPPED_FLAG_FORCE: U8 := 0x40

  const LAST_IN_SEQUENCE_FLAG_LAST_IN_SEQ: U8 := 0x40
  const LAST_IN_SEQUENCE_FLAG_FIRST_IN_SEQ: U8 := 0x80
  const LAST_IN_SEQUENCE_FLAG_FIRST_AND_LAST_IN_SEQ: U8 := 0xC0

  /** Encoded sizes of the fixed-layout records. */
  const HEADER_SIZE: nat := 13
  const SEGMENT_PCS_SIZE: nat := 11
  const WINDOW_SIZE: nat := 9
  const SEGMENT_PDS_SIZE: nat := 2
  const PALETTE_ENTRY_SIZE: nat := 5
  const SEGMENT_ODS_SIZE: nat := 11

  /** The two error kinds the decoder distinguishes. */
  datatype ErrorKind = UnexpectedEof | InvalidData

  /** One constructor per distinct `std::io::Error` the decoder raises. */
  datatype Error =
    | ShortRead                  // `read_exact` ran out of input
    | EmptyBuffer                // an RLE code was requested from no bytes
    | NotEnoughData              // an RLE code is cut short
    | InvalidRleData             // an RLE code matches no form
    | InvalidMagic               // segment header magic is not "PG"
    | InvalidCroppedFlag
    | InvalidPaletteUpdateFlag
    | InvalidCompositionState
    | InvalidLastInSequenceFlag
    | InvalidSegmentType
    | PcsNotFirst                // a display set must open with a PCS
    | PcsInMiddle                // a second PCS before the END
  {
    function Kind(): ErrorKind {
      if ShortRead? || EmptyBuffer? then UnexpectedEof else InvalidData
    }
  }

  /** A value read from a cursor and the cursor position just after it. */
  datatype Parsed<+T> = Parsed(value: T, next: nat)

  // ---------------------------------------------------------------------------
  // Primitive readers

  /** `Read::read_exact`: exactly n bytes, or a short-read failure. */
  function ReadExact(buf: seq<byte>, pos: nat, n: nat): (r: Result<Parsed<seq<byte>>, Error>)
    ensures r.Ok? <==> pos + n <= |buf|
    ensures r.Ok? ==> r.value.value == buf[pos..pos + n] && r.value.next == pos + n
    ensures r.Err? ==> r.error == ShortRead
  {
    if pos + n <= |buf| then Ok(Parsed(buf[pos..pos + n], pos + n)) else Err(ShortRead)
  }

  function ReadU8(buf: seq<byte>, pos: nat): (r: Result<Parsed<U8>, Error>)
    ensures r.Ok? <==> pos + 1 <= |buf|
    ensures r.Ok? ==> r.value == Parsed(buf[pos], pos + 1)
    ensures r.Err? ==> r.error == ShortRead
  {
    var bytes :- ReadExact(buf, pos, 1);
    var v: U8 := bytes.value[0];
    Ok(Parsed(v, bytes.next))
  }

  /** `read_u16`: two bytes, most significant first. */
  function ReadU16(buf: seq<byte>, pos: nat): (r: Result<Parsed<U16>, Error>)
    ensures r.Ok? <==> pos + 2 <= |buf|
    ensures r.Ok? ==> r.value.next == pos + 2
    ensures r.Ok? ==> r.value.value == buf[pos] as int * 0x100 + buf[pos + 1]
    ensures r.Ok? ==> r.value.value == BigEndian(buf[pos..pos + 2])
    ensures r.Err? ==> r.error == ShortRead
  {
    var bytes :- ReadExact(buf, pos, 2);
    Pow256Values();
    BigEndian2(bytes.value);
    var v: U16 := BigEndian(bytes.value);
    Ok(Parsed(v, bytes.next))
  }

  /** `read_u24`: three bytes read into the low end of a zeroed four-byte
      buffer, then decoded big-endian. */
  function ReadU24(buf: seq<byte>, pos: nat): (r: Result<Parsed<U32>, Error>)
    ensures r.Ok? <==> pos + 3 <= |buf|
    ensures r.Ok? ==> r.value.next == pos + 3
    ensures r.Ok? ==> r.value.value
                      == buf[pos] as int * 0x1_0000 + buf[pos + 1] as int * 0x100 + buf[pos + 2]
    ensures r.Ok? ==> r.value.value == BigEndian(buf[pos..pos + 3]) < 0x100_0000
    ensures r.Err? ==> r.error == ShortRead
  {
    var bytes :- ReadExact(buf, pos, 3);
    Pow256Values();
    BigEndianLeadingZero(bytes.value);
    BigEndian3(bytes.value);
    var v: U32 := BigEndian([0] + bytes.value);
    Ok(Parsed(v, bytes.next))
  }

  /** `read_u32`: four bytes, most significant first. */
  function ReadU32(buf: seq<byte>, pos: nat): (r: Result<Parsed<U32>, Error>)
    ensures r.Ok? <==> pos + 4 <= |buf|
    ensures r.Ok? ==> r.value.next == pos + 4
    ensures r.Ok? ==> r.value.value == buf[pos] as int * 0x100_0000 + buf[pos + 1] as int * 0x1_0000
                                       + buf[pos + 2] as int * 0x100 + buf[pos + 3]
    ensures r.Ok? ==> r.value.value == BigEndian(buf[pos..pos + 4])
    ensures r.Err? ==> r.error == ShortRead
  {
    var bytes :- ReadExact(buf, pos, 4);
    Pow256Values();
    BigEndian4(bytes.value);
    var v: U32 := BigEndian(bytes.value);
    Ok(Parsed(v, bytes.next))
  }

  // ---------------------------------------------------------------------------
  // Primitive encoders, the inverses of the readers

  function U8Bytes(v: U8): (bs: seq<byte>)
    ensures |bs| == 1
  {
    Pow256Values();
    ToBigEndian(v, 1)
  }

  function U16Bytes(v: U16): (bs: seq<byte>)
    ensures |bs| == 2
  {
    Pow256Values();
    ToBigEndian(v, 2)
  }

  function U24Bytes(v: U32): (bs: seq<byte>)
    requires v < 0x100_0000
    ensures |bs| == 3
  {
    Pow256Values();
    ToBigEndian(v, 3)
  }

  function U32Bytes(v: U32): (bs: seq<byte>)
    ensures |bs| == 4
  {
    Pow256Values();
    ToBigEndian(v, 4)
  }

  lemma ReadU8At(buf: seq<byte>, pos: nat, v: U8)
    requires At(buf, pos, U8Bytes(v))
    ensures ReadU8(buf, pos) == Ok(Parsed(v, pos + 1))
  {
    Pow256Values();
    BigEndianOfToBigEndian(v, 1);
    BigEndian1(U8Bytes(v));
    assert buf[pos] == U8Bytes(v)[0];
  }

  lemma ReadU16At(buf: seq<byte>, pos: nat, v: U16)
    requires At(buf, pos, U16Bytes(v))
    ensures ReadU16(buf, pos) == Ok(Parsed(v, pos + 2))
  {
    Pow256Values();
    BigEndianOfToBigEndian(v, 2);
  }

  lemma ReadU24At(buf: seq<byte>, pos: nat, v: U32)
    requires v < 0x100_0000
    requires At(buf, pos, U24Bytes(v))
    ensures ReadU24(buf, pos) == Ok(Parsed(v, pos + 3))
  {
    Pow256Values();
    BigEndianOfToBigEndian(v, 3);
  }

  lemma ReadU32At(buf: seq<byte>, pos: nat, v: U32)
    requires At(buf, pos, U32Bytes(v))
    ensures ReadU32(buf, pos) == Ok(Parsed(v, pos + 4))
  {
    Pow256Values();
    BigEndianOfToBigEndian(v, 4);
  }

  // ---------------------------------------------------------------------------
  // Fixed-layout records

  datatype SegmentHeader = SegmentHeader(
    magicNumber: U16, pts: U32, dts: U32, segmentType: U8, segmentSize: U16)

  /** Presentation Composition Segment, fixed part. */
  datatype SegmentPcs = SegmentPcs(
    width: U16, height: U16, framerate: U8, compositionNumber: U16,
    compositionState: U8, paletteUpdateFlag: U8, paletteId: U8,
    numberOfCompositionObjects: U8)

  /** A composition object as laid out on the wire; the four cropping fields
      are present only when the cropped flag is OBJECT_CROPPED_FLAG_FORCE and
      are zero otherwise. */
  datatype CompositionObject = CompositionObject(
    objectId: U16, windowId: U8, objectCroppedFlag: U8,
    horizontalPosition: U16, verticalPosition: U16,
    croppingHorizontalPosition: U16, croppingVerticalPosition: U16,
    croppingWidth: U16, croppingHeight: U16)
  {
    /** Cropping fields that were not on the wire keep their default of zero. */
    predicate WellFormed() {
      objectCroppedFlag != OBJECT_CROPPED_FLAG_FORCE ==>
        croppingHorizontalPosition == 0 && croppingVerticalPosition == 0
        && croppingWidth == 0 && croppingHeight == 0
    }
  }

  /** Window Definition Segment, fixed part. */
  datatype SegmentWds = SegmentWds(numberOfWindows: U8)

  datatype Window = Window(
    windowId: U8, horizontalPosition: U16, verticalPosition: U16,
    width: U16, height: U16)

  /** Palette Definition Segment, fixed part. */
  datatype SegmentPds = SegmentPds(paletteId: U8, paletteVersion: U8)

  datatype PaletteEntry = PaletteEntry(
    paletteEntryId: U8, luminance: U8, colorDiffRed: U8, colorDiffBlue: U8,
    transparency: U8)

  /** Object Definition Segment, fixed part. */
  datatype SegmentOds = SegmentOds(
    objectId: U16, objectVersion: U8, lastInSequenceFlag: U8,
    objectDataLength: U32, width: U16, height: U16)

  /** Wire size of a composition object with the given cropped flag. */
  function CompositionObjectSize(croppedFlag: U8): nat {
    if croppedFlag == OBJECT_CROPPED_FLAG_FORCE then 16 else 8
  }

  // ---------------------------------------------------------------------------
  // Record readers (`Wire::read`)

  /** magic(2) pts(4) dts(4) type(1) size(2), in that order. */
  function ReadSegmentHeader(buf: seq<byte>, pos: nat): (r: Result<Parsed<SegmentHeader>, Error>)
    ensures r.Ok? <==> pos + HEADER_SIZE <= |buf|
    ensures r.Err? ==> r.error == ShortRead
    ensures r.Ok? ==> r.value.next == pos + HEADER_SIZE
    ensures r.Ok? ==>
              var h := r.value.value;
              && h.magicNumber == BigEndian(buf[pos..pos + 2])
              && h.pts == BigEndian(buf[pos + 2..pos + 6])
              && h.dts == BigEndian(buf[pos + 6..pos + 10])
              && h.segmentType == buf[pos + 10]
              && h.segmentSize == BigEndian(buf[pos + 11..pos + 13])
  {
    var magic :- ReadU16(buf, pos);
    var pts :- ReadU32(buf, magic.next);
    var dts :- ReadU32(buf, pts.next);
    var segmentType :- ReadU8(buf, dts.next);
    var size :- ReadU16(buf, segmentType.next);
    Ok(Parsed(SegmentHeader(magic.value, pts.value, dts.value, segmentType.value, size.value), size.next))
  }

  function ReadSegmentPcs(buf: seq<byte>, pos: nat): (r: Result<Parsed<SegmentPcs>, Error>)
    ensures r.Ok? <==> pos + SEGMENT_PCS_SIZE <= |buf|
    ensures r.Err? ==> r.error == ShortRead
    ensures r.Ok? ==> r.value.next == pos + SEGMENT_PCS_SIZE
    ensures r.Ok? ==>
              var p := r.value.value;
              && p.width == BigEndian(buf[pos..pos + 2])
              && p.height == BigEndian(buf[pos + 2..pos + 4])
              && p.framerate == buf[pos + 4]
              && p.compositionNumber == BigEndian(buf[pos + 5..pos + 7])
              && p.compositionState == buf[pos + 7]
              && p.paletteUpdateFlag == buf[pos + 8]
              && p.paletteId == buf[pos + 9]
              && p.numberOfCompositionObjects == buf[pos + 10]
  {
    var width :- ReadU16(buf, pos);
    var height :- ReadU16(buf, width.next);
    var framerate :- ReadU8(buf, height.next);
    var compositionNumber :- ReadU16(buf, framerate.next);
    var compositionState :- ReadU8(buf, compositionNumber.next);
    var paletteUpdateFlag :- ReadU8(buf, compositionState.next);
    var paletteId :- ReadU8(buf, paletteUpdateFlag.next);
    var count :- ReadU8(buf, paletteId.next);
    Ok(Parsed(SegmentPcs(width.value, height.value, framerate.value, compositionNumber.value,
                         compositionState.value, paletteUpdateFlag.value, paletteId.value,
                         count.value), count.next))
  }

  /** Eight bytes, then eight more only when the cropped flag forces cropping. */
  function ReadCompositionObject(buf: seq<byte>, pos: nat): (r: Result<Parsed<CompositionObject>, Error>)
    ensures pos + 8 > |buf| ==> r == Err(ShortRead)
    ensures pos + 8 <= |buf| ==>
              var flag := buf[pos + 3];
              && (r.Ok? <==> pos + CompositionObjectSize(flag) <= |buf|)
              && (r.Ok? ==> r.value.next == pos + CompositionObjectSize(flag)
                            && r.value.value.objectCroppedFlag == flag)
    ensures r.Err? ==> r.error == ShortRead
    ensures r.Ok? ==> r.value.value.WellFormed()
  {
    var objectId :- ReadU16(buf, pos);
    var windowId :- ReadU8(buf, objectId.next);
    var flag :- ReadU8(buf, windowId.next);
    var x :- ReadU16(buf, flag.next);
    var y :- ReadU16(buf, x.next);
    var s := CompositionObject(objectId.value, windowId.value, flag.value, x.value, y.value, 0, 0, 0, 0);
    if flag.value == OBJECT_CROPPED_FLAG_FORCE then
      var cx :- ReadU16(buf, y.next);
      var cy :- ReadU16(buf, cx.next);
      var cw :- ReadU16(buf, cy.next);
      var ch :- ReadU16(buf, cw.next);
      Ok(Parsed(s.(croppingHorizontalPosition := cx.value, croppingVerticalPosition := cy.value,
                    croppingWidth := cw.value, croppingHeight := ch.value), ch.next))
    else
      Ok(Parsed(s, y.next))
  }

  function ReadSegmentWds(buf: seq<byte>, pos: nat): (r: Result<Parsed<SegmentWds>, Error>)
    ensures r.Ok? <==> pos + 1 <= |buf|
    ensures r.Err? ==> r.error == ShortRead
    ensures r.Ok? ==> r.value == Parsed(SegmentWds(buf[pos]), pos + 1)
  {
    var count :- ReadU8(buf, pos);
    Ok(Parsed(SegmentWds(count.value), count.next))
  }

  function ReadWindow(buf: seq<byte>, pos: nat): (r: Result<Parsed<Window>, Error>)
    ensures r.Ok? <==> pos + WINDOW_SIZE <= |buf|
    ensures r.Err? ==> r.error == ShortRead
    ensures r.Ok? ==> r.value.next == pos + WINDOW_SIZE
  {
    var id :- ReadU8(buf, pos);
    var x :- ReadU16(buf, id.next);
    var y :- ReadU16(buf, x.next);
    var width :- ReadU16(buf, y.next);
    var height :- ReadU16(buf, width.next);
    Ok(Parsed(Window(id.value, x.value, y.value, width.value, height.value), height.next))
  }

  function ReadSegmentPds(buf: seq<byte>, pos: nat): (r: Result<Parsed<SegmentPds>, Error>)
    ensures r.Ok? <==> pos + SEGMENT_PDS_SIZE <= |buf|
    ensures r.Err? ==> r.error == ShortRead
    ensures r.Ok? ==> r.value == Parsed(SegmentPds(buf[pos], buf[pos + 1]), pos + 2)
  {
    var id :- ReadU8(buf, pos);
    var version :- ReadU8(buf, id.next);
    Ok(Parsed(SegmentPds(id.value, version.value), version.next))
  }

  function ReadPaletteEntry(buf: seq<byte>, pos: nat): (r: Result<Parsed<PaletteEntry>, Error>)
    ensures r.Ok? <==> pos + PALETTE_ENTRY_SIZE <= |buf|
    ensures r.Err? ==> r.error == ShortRead
    ensures r.Ok? ==> r.value.next == pos + PALETTE_ENTRY_SIZE
    ensures r.Ok? ==> r.value.value == PaletteEntry(buf[pos], buf[pos + 1],
                                                    buf[pos + 2], buf[pos + 3],
                                                    buf[pos + 4])
  {
    var id :- ReadU8(buf, pos);
    var y :- ReadU8(buf, id.next);
    var cr :- ReadU8(buf, y.next);
    var cb :- ReadU8(buf, cr.next);
    var alpha :- ReadU8(buf, cb.next);
    Ok(Parsed(PaletteEntry(id.value, y.value, cr.value, cb.value, alpha.value), alpha.next))
  }

  /** The object data length is a 24-bit field. */
  function ReadSegmentOds(buf: seq<byte>, pos: nat): (r: Result<Parsed<SegmentOds>, Error>)
    ensures r.Ok? <==> pos + SEGMENT_ODS_SIZE <= |buf|
    ensures r.Err? ==> r.error == ShortRead
    ensures r.Ok? ==> r.value.next == pos + SEGMENT_ODS_SIZE
    ensures r.Ok? ==> r.value.value.lastInSequenceFlag == buf[pos + 3]
    ensures r.Ok? ==> r.value.value.objectDataLength == BigEndian(buf[pos + 4..pos + 7]) < 0x100_0000
  {
    var id :- ReadU16(buf, pos);
    var version :- ReadU8(buf, id.next);
    var flag :- ReadU8(buf, version.next);
    var length :- ReadU24(buf, flag.next);
    var width :- ReadU16(buf, length.next);
    var height :- ReadU16(buf, width.next);
    Ok(Parsed(SegmentOds(id.value, version.value, flag.value, length.value, width.value, height.value),
              height.next))
  }

  // ---------------------------------------------------------------------------
  // Record encoders, the inverses of the record readers

  function EncodeSegmentHeader(h: SegmentHeader): (bs: seq<byte>)
    ensures |bs| == HEADER_SIZE
  {
    U16Bytes(h.magicNumber) + U32Bytes(h.pts) + U32Bytes(h.dts) + U8Bytes(h.segmentType)
    + U16Bytes(h.segmentSize)
  }

  function EncodeSegmentPcs(p: SegmentPcs): (bs: seq<byte>)
    ensures |bs| == SEGMENT_PCS_SIZE
  {
    U16Bytes(p.width) + U16Bytes(p.height) + U8Bytes(p.framerate) + U16Bytes(p.compositionNumber)
    + U8Bytes(p.compositionState) + U8Bytes(p.paletteUpdateFlag) + U8Bytes(p.paletteId)
    + U8Bytes(p.numberOfCompositionObjects)
  }

  function EncodeCompositionObject(o: CompositionObject): (bs: seq<byte>)
    ensures |bs| == CompositionObjectSize(o.objectCroppedFlag)
  {
    U16Bytes(o.objectId) + U8Bytes(o.windowId) + U8Bytes(o.objectCroppedFlag)
    + U16Bytes(o.horizontalPosition) + U16Bytes(o.verticalPosition)
    + (if o.objectCroppedFlag == OBJECT_CROPPED_FLAG_FORCE then
         U16Bytes(o.croppingHorizontalPosition) + U16Bytes(o.croppingVerticalPosition)
         + U16Bytes(o.croppingWidth) + U16Bytes(o.croppingHeight)
       else [])
  }

  function EncodeWindow(w: Window): (bs: seq<byte>)
    ensures |bs| == WINDOW_SIZE
  {
    U8Bytes(w.windowId) + U16Bytes(w.horizontalPosition) + U16Bytes(w.verticalPosition)
    + U16Bytes(w.width) + U16Bytes(w.height)
  }

  function EncodeSegmentPds(p: SegmentPds): (bs: seq<byte>)
    ensures |bs| == SEGMENT_PDS_SIZE
  {
    U8Bytes(p.paletteId) + U8Bytes(p.paletteVersion)
  }

  function EncodePaletteEntry(e: PaletteEntry): (bs: seq<byte>)
    ensures |bs| == PALETTE_ENTRY_SIZE
  {
    U8Bytes(e.paletteEntryId) + U8Bytes(e.luminance) + U8Bytes(e.colorDiffRed)
    + U8Bytes(e.colorDiffBlue) + U8Bytes(e.transparency)
  }

  function EncodeSegmentOds(o: SegmentOds): (bs: seq<byte>)
    requires o.objectDataLength < 0x100_0000
    ensures |bs| == SEGMENT_ODS_SIZE
  {
    U16Bytes(o.objectId) + U8Bytes(o.objectVersion) + U8Bytes(o.lastInSequenceFlag)
    + U24Bytes(o.objectDataLength) + U16Bytes(o.width) + U16Bytes(o.height)
  }

  // ---------------------------------------------------------------------------
  // Round trips: reading an encoded record gives it back and consumes exactly its bytes

  lemma ReadSegmentHeaderInverse(buf: seq<byte>, pos: nat, h: SegmentHeader)
    requires At(buf, pos, EncodeSegmentHeader(h))
    ensures ReadSegmentHeader(buf, pos) == Ok(Parsed(h, pos + HEADER_SIZE))
  {
    var a, b, c, d, e := U16Bytes(h.magicNumber), U32Bytes(h.pts), U32Bytes(h.dts),
                         U8Bytes(h.segmentType), U16Bytes(h.segmentSize);
    AtConcat(buf, pos, a + b + c + d, e);
    AtConcat(buf, pos, a + b + c, d);
    AtConcat(buf, pos, a + b, c);
    AtConcat(buf, pos, a, b);
    ReadU16At(buf, pos, h.magicNumber);
    ReadU32At(buf, pos + 2, h.pts);
    ReadU32At(buf, pos + 6, h.dts);
    ReadU8At(buf, pos + 10, h.segmentType);
    ReadU16At(buf, pos + 11, h.segmentSize);
  }

  lemma ReadSegmentPcsInverse(buf: seq<byte>, pos: nat, p: SegmentPcs)
    requires At(buf, pos, EncodeSegmentPcs(p))
    ensures ReadSegmentPcs(buf, pos) == Ok(Parsed(p, pos + SEGMENT_PCS_SIZE))
  {
    var a, b, c, d := U16Bytes(p.width), U16Bytes(p.height), U8Bytes(p.framerate),
                      U16Bytes(p.compositionNumber);
    var e, f, g, h := U8Bytes(p.compositionState), U8Bytes(p.paletteUpdateFlag),
                      U8Bytes(p.paletteId), U8Bytes(p.numberOfCompositionObjects);
    AtConcat(buf, pos, a + b + c + d + e + f + g, h);
    AtConcat(buf, pos, a + b + c + d + e + f, g);
    AtConcat(buf, pos, a + b + c + d + e, f);
    AtConcat(buf, pos, a + b + c + d, e);
    AtConcat(buf, pos, a + b + c, d);
    AtConcat(buf, pos, a + b, c);
    AtConcat(buf, pos, a, b);
    ReadU16At(buf, pos, p.width);
    ReadU16At(buf, pos + 2, p.height);
    ReadU8At(buf, pos + 4, p.framerate);
    ReadU16At(buf, pos + 5, p.compositionNumber);
    ReadU8At(buf, pos + 7, p.compositionState);
    ReadU8At(buf, pos + 8, p.paletteUpdateFlag);
    ReadU8At(buf, pos + 9, p.paletteId);
    ReadU8At(buf, pos + 10, p.numberOfCompositionObjects);
  }

  lemma ReadCompositionObjectInverse(buf: seq<byte>, pos: nat, o: CompositionObject)
    requires o.WellFormed()
    requires At(buf, pos, EncodeCompositionObject(o))
    ensures ReadCompositionObject(buf, pos)
            == Ok(Parsed(o, pos + CompositionObjectSize(o.objectCroppedFlag)))
  {
    var a, b, c, d, e := U16Bytes(o.objectId), U8Bytes(o.windowId), U8Bytes(o.objectCroppedFlag),
                         U16Bytes(o.horizontalPosition), U16Bytes(o.verticalPosition);
    var f, g, h, i := U16Bytes(o.croppingHorizontalPosition), U16Bytes(o.croppingVerticalPosition),
                      U16Bytes(o.croppingWidth), U16Bytes(o.croppingHeight);
    var tail := if o.objectCroppedFlag == OBJECT_CROPPED_FLAG_FORCE then f + g + h + i else [];
    AtConcat(buf, pos, a + b + c + d + e, tail);
    AtConcat(buf, pos, a + b + c + d, e);
    AtConcat(buf, pos, a + b + c, d);
    AtConcat(buf, pos, a + b, c);
    AtConcat(buf, pos, a, b);
    ReadU16At(buf, pos, o.objectId);
    ReadU8At(buf, pos + 2, o.windowId);
    ReadU8At(buf, pos + 3, o.objectCroppedFlag);
    ReadU16At(buf, pos + 4, o.horizontalPosition);
    ReadU16At(buf, pos + 6, o.verticalPosition);
    if o.objectCroppedFlag == OBJECT_CROPPED_FLAG_FORCE {
      AtConcat(buf, pos + 8, f + g + h, i);
      AtConcat(buf, pos + 8, f + g, h);
      AtConcat(buf, pos + 8, f, g);
      ReadU16At(buf, pos + 8, o.croppingHorizontalPosition);
      ReadU16At(buf, pos + 10, o.croppingVerticalPosition);
      ReadU16At(buf, pos + 12, o.croppingWidth);
      ReadU16At(buf, pos + 14, o.croppingHeight);
    }
  }

  lemma ReadWindowInverse(buf: seq<byte>, pos: nat, w: Window)
    requires At(buf, pos, EncodeWindow(w))
    ensures ReadWindow(buf, pos) == Ok(Parsed(w, pos + WINDOW_SIZE))
  {
    var a, b, c, d, e := U8Bytes(w.windowId), U16Bytes(w.horizontalPosition),
                         U16Bytes(w.verticalPosition), U16Bytes(w.width), U16Bytes(w.height);
    AtConcat(buf, pos, a + b + c + d, e);
    AtConcat(buf, pos, a + b + c, d);
    AtConcat(buf, pos, a + b, c);
    AtConcat(buf, pos, a, b);
    ReadU8At(buf, pos, w.windowId);
    ReadU16At(buf, pos + 1, w.horizontalPosition);
    ReadU16At(buf, pos + 3, w.verticalPosition);
    ReadU16At(buf, pos + 5, w.width);
    ReadU16At(buf, pos + 7, w.height);
  }

  lemma ReadSegmentPdsInverse(buf: seq<byte>, pos: nat, p: SegmentPds)
    requires At(buf, pos, EncodeSegmentPds(p))
    ensures ReadSegmentPds(buf, pos) == Ok(Parsed(p, pos + SEGMENT_PDS_SIZE))
  {
    AtConcat(buf, pos, U8Bytes(p.paletteId), U8Bytes(p.paletteVersion));
    ReadU8At(buf, pos, p.paletteId);
    ReadU8At(buf, pos + 1, p.paletteVersion);
  }

  lemma ReadPaletteEntryInverse(buf: seq<byte>, pos: nat, e: PaletteEntry)
    requires At(buf, pos, EncodePaletteEntry(e))
    ensures ReadPaletteEntry(buf, pos) == Ok(Parsed(e, pos + PALETTE_ENTRY_SIZE))
  {
    var a, b, c, d, f := U8Bytes(e.paletteEntryId), U8Bytes(e.luminance), U8Bytes(e.colorDiffRed),
                         U8Bytes(e.colorDiffBlue), U8Bytes(e.transparency);
    AtConcat(buf, pos, a + b + c + d, f);
    AtConcat(buf, pos, a + b + c, d);
    AtConcat(buf, pos, a + b, c);
    AtConcat(buf, pos, a, b);
    ReadU8At(buf, pos, e.paletteEntryId);
    ReadU8At(buf, pos + 1, e.luminance);
    ReadU8At(buf, pos + 2, e.colorDiffRed);
    ReadU8At(buf, pos + 3, e.colorDiffBlue);
    ReadU8At(buf, pos + 4, e.transparency);
  }

  lemma ReadSegmentOdsInverse(buf: seq<byte>, pos: nat, o: SegmentOds)
    requires o.objectDataLength < 0x100_0000
    requires At(buf, pos, EncodeSegmentOds(o))
    ensures ReadSegmentOds(buf, pos) == Ok(Parsed(o, pos + SEGMENT_ODS_SIZE))
  {
    var a, b, c, d, e, f := U16Bytes(o.objectId), U8Bytes(o.objectVersion),
                            U8Bytes(o.lastInSequenceFlag), U24Bytes(o.objectDataLength),
                            U16Bytes(o.width), U16Bytes(o.height);
    AtConcat(buf, pos, a + b + c + d + e, f);
    AtConcat(buf, pos, a + b + c + d, e);
    AtConcat(buf, pos, a + b + c, d);
    AtConcat(buf, pos, a + b, c);
    AtConcat(buf, pos, a, b);
    ReadU16At(buf, pos, o.objectId);
    ReadU8At(buf, pos + 2, o.objectVersion);
    ReadU8At(buf, pos + 3, o.lastInSequenceFlag);
    ReadU24At(buf, pos + 4, o.objectDataLength);
    ReadU16At(buf, pos + 7, o.width);
    ReadU16At(buf, pos + 9, o.height);
  }

  // ---------------------------------------------------------------------------
  // The other direction: a successful read consumed exactly the encoding of its value

  lemma ReadU8Bytes(buf: seq<byte>, pos: nat)
    requires ReadU8(buf, pos).Ok?
    ensures At(buf, pos, U8Bytes(ReadU8(buf, pos).value.value))
  {
    Pow256Values();
    BigEndian1(buf[pos..pos + 1]);
    ToBigEndianOfBigEndian(buf[pos..pos + 1]);
  }

  lemma ReadU16Bytes(buf: seq<byte>, pos: nat)
    requires ReadU16(buf, pos).Ok?
    ensures At(buf, pos, U16Bytes(ReadU16(buf, pos).value.value))
  {
    ToBigEndianOfBigEndian(buf[pos..pos + 2]);
  }

  lemma ReadCompositionObjectBytes(buf: seq<byte>, pos: nat)
    requires ReadCompositionObject(buf, pos).Ok?
    ensures At(buf, pos, EncodeCompositionObject(ReadCompositionObject(buf, pos).value.value))
  {
    var o := ReadCompositionObject(buf, pos).value.value;
    ReadU16Bytes(buf, pos);
    ReadU8Bytes(buf, pos + 2);
    ReadU8Bytes(buf, pos + 3);
    ReadU16Bytes(buf, pos + 4);
    ReadU16Bytes(buf, pos + 6);
    var a, b, c, d, e := U16Bytes(o.objectId), U8Bytes(o.windowId), U8Bytes(o.objectCroppedFlag),
                         U16Bytes(o.horizontalPosition), U16Bytes(o.verticalPosition);
    AtJoin(buf, pos, a, b);
    AtJoin(buf, pos, a + b, c);
    AtJoin(buf, pos, a + b + c, d);
    AtJoin(buf, pos, a + b + c + d, e);
    if o.objectCroppedFlag == OBJECT_CROPPED_FLAG_FORCE {
      ReadU16Bytes(buf, pos + 8);
      ReadU16Bytes(buf, pos + 10);
      ReadU16Bytes(buf, pos + 12);
      ReadU16Bytes(buf, pos + 14);
      var f, g, h, i := U16Bytes(o.croppingHorizontalPosition), U16Bytes(o.croppingVerticalPosition),
                        U16Bytes(o.croppingWidth), U16Bytes(o.croppingHeight);
      AtJoin(buf, pos + 8, f, g);
      AtJoin(buf, pos + 8, f + g, h);
      AtJoin(buf, pos + 8, f + g + h, i);
      AtJoin(buf, pos, a + b + c + d + e, f + g + h + i);
    } else {
      assert EncodeCompositionObject(o) == a + b + c + d + e + [];
    }
  }
}
