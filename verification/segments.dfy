/** Functional segments (`decode_segment`): a 13-byte header, a payload of the
    declared size, and one of five typed bodies decoded from that payload. */
module Segments {
  import opened Results
  import opened Bytes
  import Wire

  datatype CompositionState = Normal | AcquisitionPoint | EpochStart

  datatype LastInSequenceFlag = Last | First | FirstAndLast

  /** The two timestamps of a segment header that matter downstream. */
  datatype Header = Header(pts: U32, dts: U32)

  datatype CompositionObjectCropping = CompositionObjectCropping(
    width: U16, height: U16, horizontalPosition: U16, verticalPosition: U16)

  datatype CompositionObject = CompositionObject(
    objectId: U16, windowId: U8, horizontalPosition: U16, verticalPosition: U16,
    cropping: Option<CompositionObjectCropping>)

  datatype Window = Window(
    windowId: U8, width: U16, height: U16, horizontalPosition: U16, verticalPosition: U16)

  datatype PaletteEntry = PaletteEntry(
    entryId: U8, luminance: U8, colorDiffRed: U8, colorDiffBlue: U8, transparency: U8)

  /** Presentation Composition Segment. */
  datatype Pcs = Pcs(
    header: Header, width: U16, height: U16, compositionNumber: U16,
    compositionState: CompositionState, paletteUpdate: bool, paletteId: U8,
    compositionObjects: seq<CompositionObject>)

  /** Window Definition Segment. */
  datatype Wds = Wds(header: Header, windows: seq<Window>)

  /** Palette Definition Segment. */
  datatype Pds = Pds(header: Header, paletteId: U8, paletteVersion: U8, entries: seq<PaletteEntry>)

  /** Object Definition Segment, carrying its fragment of run-length data in
      `data` (the decoder reads this payload and the extractor consumes it). */
  datatype Ods = Ods(
    header: Header, objectId: U16, objectVersion: U8, lastInSequence: LastInSequenceFlag,
    width: U16, height: U16, data: seq<byte>)

  /** END of display set segment. */
  datatype End = End(header: Header)

  datatype Segment = PCS(pcs: Pcs) | WDS(wds: Wds) | PDS(pds: Pds) | ODS(ods: Ods) | END(end: End)

  /** `impl From<SegmentHeader> for Header`. */
  function HeaderOf(h: Wire.SegmentHeader): Header {
    Header(h.pts, h.dts)
  }

  function SegmentHeader(s: Segment): Header {
    match s
    case PCS(p) => p.header
    case WDS(w) => w.header
    case PDS(p) => p.header
    case ODS(o) => o.header
    case END(e) => e.header
  }

  /** The segment type byte that announces each kind of segment. */
  function TypeTag(s: Segment): U8 {
    match s
    case PCS(_) => Wire.SEGMENT_TYPE_PCS
    case WDS(_) => Wire.SEGMENT_TYPE_WDS
    case PDS(_) => Wire.SEGMENT_TYPE_PDS
    case ODS(_) => Wire.SEGMENT_TYPE_ODS
    case END(_) => Wire.SEGMENT_TYPE_END
  }

  // ---------------------------------------------------------------------------
  // Flag bytes

  function CompositionStateFlag(s: CompositionState): (flag: U8)
  {
    match s
    case EpochStart => Wire.COMPOSITION_STATE_EPOCH_START
    case AcquisitionPoint => Wire.COMPOSITION_STATE_ACQUISITION_POINT
    case Normal => Wire.COMPOSITION_STATE_NORMAL
  }

  function DecodeCompositionState(flag: U8): (r: Result<CompositionState, Wire.Error>)
    ensures r.Ok? <==> flag in {0x00, 0x40, 0x80}
    ensures r.Ok? ==> CompositionStateFlag(r.value) == flag
    ensures r.Err? ==> r.error == Wire.InvalidCompositionState
  {
    if flag == Wire.COMPOSITION_STATE_EPOCH_START then Ok(EpochStart)
    else if flag == Wire.COMPOSITION_STATE_ACQUISITION_POINT then Ok(AcquisitionPoint)
    else if flag == Wire.COMPOSITION_STATE_NORMAL then Ok(Normal)
    else Err(Wire.InvalidCompositionState)
  }

  function PaletteUpdateFlag(update: bool): (flag: U8)
  {
    if update then Wire.PALETTE_UPDATE_FLAG_TRUE else Wire.PALETTE_UPDATE_FLAG_FALSE
  }

  function DecodePaletteUpdate(flag: U8): (r: Result<bool, Wire.Error>)
    ensures r.Ok? <==> flag in {0x00, 0x80}
    ensures r.Ok? ==> PaletteUpdateFlag(r.value) == flag
    ensures r.Err? ==> r.error == Wire.InvalidPaletteUpdateFlag
  {
    if flag == Wire.PALETTE_UPDATE_FLAG_TRUE then Ok(true)
    else if flag == Wire.PALETTE_UPDATE_FLAG_FALSE then Ok(false)
    else Err(Wire.InvalidPaletteUpdateFlag)
  }

  function LastInSequenceFlagByte(f: LastInSequenceFlag): (flag: U8)
  {
    match f
    case First => Wire.LAST_IN_SEQUENCE_FLAG_FIRST_IN_SEQ
    case Last => Wire.LAST_IN_SEQUENCE_FLAG_LAST_IN_SEQ
    case FirstAndLast => Wire.LAST_IN_SEQUENCE_FLAG_FIRST_AND_LAST_IN_SEQ
  }

  function DecodeLastInSequence(flag: U8): (r: Result<LastInSequenceFlag, Wire.Error>)
    ensures r.Ok? <==> flag in {0x40, 0x80, 0xC0}
    ensures r.Ok? ==> LastInSequenceFlagByte(r.value) == flag
    ensures r.Err? ==> r.error == Wire.InvalidLastInSequenceFlag
  {
    if flag == Wire.LAST_IN_SEQUENCE_FLAG_FIRST_IN_SEQ then Ok(First)
    else if flag == Wire.LAST_IN_SEQUENCE_FLAG_LAST_IN_SEQ then Ok(Last)
    else if flag == Wire.LAST_IN_SEQUENCE_FLAG_FIRST_AND_LAST_IN_SEQ then Ok(FirstAndLast)
    else Err(Wire.InvalidLastInSequenceFlag)
  }

  /** Every flag value the encoder writes decodes back to what was encoded. */
  lemma FlagsRoundTrip(s: CompositionState, update: bool, f: LastInSequenceFlag)
    ensures DecodeCompositionState(CompositionStateFlag(s)) == Ok(s)
    ensures DecodePaletteUpdate(PaletteUpdateFlag(update)) == Ok(update)
    ensures DecodeLastInSequence(LastInSequenceFlagByte(f)) == Ok(f)
  {
  }

  /** The cropping block of a composition object: present exactly when the
      cropped flag forces it, absent when the flag is off, an error otherwise. */
  function DecodeCropping(o: Wire.CompositionObject): (r: Result<Option<CompositionObjectCropping>, Wire.Error>)
    ensures r.Ok? <==> o.objectCroppedFlag in {0x00, 0x40}
    ensures r.Ok? ==> (r.value.Some? <==> o.objectCroppedFlag == Wire.OBJECT_CROPPED_FLAG_FORCE)
    ensures r.Err? ==> r.error == Wire.InvalidCroppedFlag
  {
    if o.objectCroppedFlag == Wire.OBJECT_CROPPED_FLAG_OFF then Ok(None)
    else if o.objectCroppedFlag == Wire.OBJECT_CROPPED_FLAG_FORCE then
      Ok(Some(CompositionObjectCropping(
        o.croppingWidth, o.croppingHeight, o.croppingHorizontalPosition, o.croppingVerticalPosition)))
    else Err(Wire.InvalidCroppedFlag)
  }

  // ---------------------------------------------------------------------------
  // Conversions between wire records and segment records

  function CompositionObjectOf(o: Wire.CompositionObject, cropping: Option<CompositionObjectCropping>): CompositionObject {
    CompositionObject(o.objectId, o.windowId, o.horizontalPosition, o.verticalPosition, cropping)
  }

  /** The wire record a composition object is written as. */
  function WireCompositionObject(o: CompositionObject): (w: Wire.CompositionObject)
    ensures w.WellFormed()
    ensures DecodeCropping(w) == Ok(o.cropping)
    ensures CompositionObjectOf(w, o.cropping) == o
  {
    match o.cropping
    case None =>
      Wire.CompositionObject(o.objectId, o.windowId, Wire.OBJECT_CROPPED_FLAG_OFF,
                             o.horizontalPosition, o.verticalPosition, 0, 0, 0, 0)
    case Some(c) =>
      Wire.CompositionObject(o.objectId, o.windowId, Wire.OBJECT_CROPPED_FLAG_FORCE,
                             o.horizontalPosition, o.verticalPosition,
                             c.horizontalPosition, c.verticalPosition, c.width, c.height)
  }

  function WindowOf(w: Wire.Window): Window {
    Window(w.windowId, w.width, w.height, w.horizontalPosition, w.verticalPosition)
  }

  function WireWindow(w: Window): Wire.Window {
    Wire.Window(w.windowId, w.horizontalPosition, w.verticalPosition, w.width, w.height)
  }

  function PaletteEntryOf(e: Wire.PaletteEntry): PaletteEntry {
    PaletteEntry(e.paletteEntryId, e.luminance, e.colorDiffRed, e.colorDiffBlue, e.transparency)
  }

  function WirePaletteEntry(e: PaletteEntry): Wire.PaletteEntry {
    Wire.PaletteEntry(e.entryId, e.luminance, e.colorDiffRed, e.colorDiffBlue, e.transparency)
  }

  // ---------------------------------------------------------------------------
  // Repeated records inside a payload

  /** `number_of_composition_objects` objects, each checked for a valid
      cropped flag before the next one is read. */
  function ReadCompositionObjects(buf: seq<byte>, pos: nat, n: nat)
    : (r: Result<Wire.Parsed<seq<CompositionObject>>, Wire.Error>)
    requires pos <= |buf|
    ensures r.Ok? ==> |r.value.value| == n
    ensures r.Ok? ==> pos + 8 * n <= r.value.next <= pos + 16 * n && r.value.next <= |buf|
    ensures r.Err? ==> r.error in {Wire.ShortRead, Wire.InvalidCroppedFlag}
    decreases n
  {
    if n == 0 then Ok(Wire.Parsed([], pos))
    else
      var obj :- Wire.ReadCompositionObject(buf, pos);
      var cropping :- DecodeCropping(obj.value);
      var rest :- ReadCompositionObjects(buf, obj.next, n - 1);
      Ok(Wire.Parsed([CompositionObjectOf(obj.value, cropping)] + rest.value, rest.next))
  }

  /** In wire order: the bytes the objects were read from are exactly the
      concatenated encodings of the objects returned. */
  lemma {:induction false} ReadCompositionObjectsBytes(buf: seq<byte>, pos: nat, n: nat)
    requires pos <= |buf|
    requires ReadCompositionObjects(buf, pos, n).Ok?
    ensures At(buf, pos, EncodeCompositionObjects(ReadCompositionObjects(buf, pos, n).value.value))
    decreases n
  {
    if n == 0 {
      assert EncodeCompositionObjects(ReadCompositionObjects(buf, pos, n).value.value) == [];
    } else {
      var next := ReadCompositionObjectsStep(buf, pos, n);
      ReadCompositionObjectsBytes(buf, next, n - 1);
      ReadCompositionObjectsJoin(buf, pos, n, next);
    }
  }

  /** One object read off the front: the first object returned is the one
      read, written back as the same wire record, and the rest come from the
      following read. */
  lemma ReadCompositionObjectsStep(buf: seq<byte>, pos: nat, n: nat) returns (next: nat)
    requires pos <= |buf| && n > 0
    requires ReadCompositionObjects(buf, pos, n).Ok?
    ensures var obj := Wire.ReadCompositionObject(buf, pos);
            && obj.Ok? && next == obj.value.next && next <= |buf|
            && ReadCompositionObjects(buf, next, n - 1).Ok?
            && var objects := ReadCompositionObjects(buf, pos, n).value.value;
               && objects[1..] == ReadCompositionObjects(buf, next, n - 1).value.value
               && WireCompositionObject(objects[0]) == obj.value.value
  {
    var obj := Wire.ReadCompositionObject(buf, pos).value;
    next := obj.next;
    var cropping := DecodeCropping(obj.value).value;
    assert obj.value.WellFormed();
    var rest := ReadCompositionObjects(buf, obj.next, n - 1).value.value;
    assert ReadCompositionObjects(buf, pos, n).value.value == [CompositionObjectOf(obj.value, cropping)] + rest;
  }

  lemma ReadCompositionObjectsJoin(buf: seq<byte>, pos: nat, n: nat, next: nat)
    requires pos <= |buf| && n > 0
    requires ReadCompositionObjects(buf, pos, n).Ok?
    requires var obj := Wire.ReadCompositionObject(buf, pos);
             && obj.Ok? && next == obj.value.next && next <= |buf|
             && ReadCompositionObjects(buf, next, n - 1).Ok?
             && var objects := ReadCompositionObjects(buf, pos, n).value.value;
                && objects[1..] == ReadCompositionObjects(buf, next, n - 1).value.value
                && WireCompositionObject(objects[0]) == obj.value.value
    requires At(buf, next, EncodeCompositionObjects(ReadCompositionObjects(buf, next, n - 1).value.value))
    ensures At(buf, pos, EncodeCompositionObjects(ReadCompositionObjects(buf, pos, n).value.value))
  {
    var objects := ReadCompositionObjects(buf, pos, n).value.value;
    var head := Wire.EncodeCompositionObject(Wire.ReadCompositionObject(buf, pos).value.value);
    Wire.ReadCompositionObjectBytes(buf, pos);
    assert EncodeCompositionObjects(objects) == head + EncodeCompositionObjects(objects[1..]);
    AtJoin(buf, pos, head, EncodeCompositionObjects(objects[1..]));
  }

  function EncodeCompositionObjects(objects: seq<CompositionObject>): (bs: seq<byte>)
    ensures 8 * |objects| <= |bs| <= 16 * |objects|
  {
    if |objects| == 0 then []
    else Wire.EncodeCompositionObject(WireCompositionObject(objects[0]))
         + EncodeCompositionObjects(objects[1..])
  }

  function ReadWindows(buf: seq<byte>, pos: nat, n: nat): (r: Result<Wire.Parsed<seq<Window>>, Wire.Error>)
    requires pos <= |buf|
    ensures r.Ok? <==> pos + Wire.WINDOW_SIZE * n <= |buf|
    ensures r.Ok? ==> |r.value.value| == n && r.value.next == pos + Wire.WINDOW_SIZE * n
    ensures r.Err? ==> r.error == Wire.ShortRead
    decreases n
  {
    if n == 0 then Ok(Wire.Parsed([], pos))
    else
      var window :- Wire.ReadWindow(buf, pos);
      var rest :- ReadWindows(buf, window.next, n - 1);
      Ok(Wire.Parsed([WindowOf(window.value)] + rest.value, rest.next))
  }

  function EncodeWindows(windows: seq<Window>): (bs: seq<byte>)
    ensures |bs| == Wire.WINDOW_SIZE * |windows|
  {
    if |windows| == 0 then [] else Wire.EncodeWindow(WireWindow(windows[0])) + EncodeWindows(windows[1..])
  }

  /** Palette entries are read five bytes at a time for as long as the cursor
      is short of the payload's end; there is no count field. */
  function ReadPaletteEntries(buf: seq<byte>, pos: nat): (r: Result<Wire.Parsed<seq<PaletteEntry>>, Wire.Error>)
    requires pos <= |buf|
    ensures r.Ok? <==> (|buf| - pos) % Wire.PALETTE_ENTRY_SIZE == 0
    ensures r.Ok? ==> Wire.PALETTE_ENTRY_SIZE * |r.value.value| == |buf| - pos && r.value.next == |buf|
    ensures r.Err? ==> r.error == Wire.ShortRead
    decreases |buf| - pos
  {
    if pos >= |buf| then Ok(Wire.Parsed([], pos))
    else
      var entry :- Wire.ReadPaletteEntry(buf, pos);
      var rest :- ReadPaletteEntries(buf, entry.next);
      Ok(Wire.Parsed([PaletteEntryOf(entry.value)] + rest.value, rest.next))
  }

  function EncodePaletteEntries(entries: seq<PaletteEntry>): (bs: seq<byte>)
    ensures |bs| == Wire.PALETTE_ENTRY_SIZE * |entries|
  {
    if |entries| == 0 then []
    else Wire.EncodePaletteEntry(WirePaletteEntry(entries[0])) + EncodePaletteEntries(entries[1..])
  }

  // ---------------------------------------------------------------------------
  // Typed bodies

  /** The PCS branch of `decode_segment`: the 11-byte record, its composition
      objects, then the palette update flag and only then the composition
      state; the frame rate byte is read but never checked. */
  function DecodePcs(header: Header, payload: seq<byte>): (r: Result<Pcs, Wire.Error>)
    ensures r.Ok? <==> && |payload| >= Wire.SEGMENT_PCS_SIZE
                       && ReadCompositionObjects(payload, Wire.SEGMENT_PCS_SIZE, payload[10]).Ok?
                       && payload[8] in {0x00, 0x80}
                       && payload[7] in {0x00, 0x40, 0x80}
    ensures |payload| < Wire.SEGMENT_PCS_SIZE ==> r.Err? && r.error == Wire.ShortRead
    ensures |payload| >= Wire.SEGMENT_PCS_SIZE ==>
              var objects := ReadCompositionObjects(payload, Wire.SEGMENT_PCS_SIZE, payload[10]);
              && (objects.Err? ==> r.Err? && r.error == objects.error)
              && (objects.Ok? && payload[8] !in {0x00, 0x80} ==>
                    r.Err? && r.error == Wire.InvalidPaletteUpdateFlag)
              && (objects.Ok? && payload[8] in {0x00, 0x80} && payload[7] !in {0x00, 0x40, 0x80} ==>
                    r.Err? && r.error == Wire.InvalidCompositionState)
              && (r.Ok? ==> r.value.compositionObjects == objects.value.value)
    ensures r.Ok? ==>
              var p := r.value;
              && p.header == header
              && p.width == BigEndian(payload[0..2])
              && p.height == BigEndian(payload[2..4])
              && p.compositionNumber == BigEndian(payload[5..7])
              && CompositionStateFlag(p.compositionState) == payload[7]
              && PaletteUpdateFlag(p.paletteUpdate) == payload[8]
              && p.paletteId == payload[9]
              && |p.compositionObjects| == payload[10]
  {
    var pcs :- Wire.ReadSegmentPcs(payload, 0);
    var objects :- ReadCompositionObjects(payload, pcs.next, pcs.value.numberOfCompositionObjects);
    var paletteUpdate :- DecodePaletteUpdate(pcs.value.paletteUpdateFlag);
    var state :- DecodeCompositionState(pcs.value.compositionState);
    Ok(Pcs(header, pcs.value.width, pcs.value.height, pcs.value.compositionNumber, state,
           paletteUpdate, pcs.value.paletteId, objects.value))
  }

  function DecodeWds(header: Header, payload: seq<byte>): (r: Result<Wds, Wire.Error>)
    ensures r.Ok? <==> |payload| >= 1 && |payload| >= 1 + Wire.WINDOW_SIZE * payload[0]
    ensures r.Ok? ==> |r.value.windows| == payload[0] && r.value.header == header
    ensures r.Err? ==> r.error == Wire.ShortRead
  {
    var wds :- Wire.ReadSegmentWds(payload, 0);
    var windows :- ReadWindows(payload, wds.next, wds.value.numberOfWindows);
    Ok(Wds(header, windows.value))
  }

  /** A palette payload must be the two-byte id and version followed by whole
      five-byte entries. */
  function DecodePds(header: Header, payload: seq<byte>): (r: Result<Pds, Wire.Error>)
    ensures r.Ok? <==> |payload| >= 2 && (|payload| - 2) % Wire.PALETTE_ENTRY_SIZE == 0
    ensures r.Ok? ==> 2 + Wire.PALETTE_ENTRY_SIZE * |r.value.entries| == |payload|
    ensures r.Ok? ==> r.value.header == header && r.value.paletteId == payload[0]
    ensures r.Err? ==> r.error == Wire.ShortRead
  {
    var pds :- Wire.ReadSegmentPds(payload, 0);
    var entries :- ReadPaletteEntries(payload, pds.next);
    Ok(Pds(header, pds.value.paletteId, pds.value.paletteVersion, entries.value))
  }

  /** The object data that follows the fixed part is `object_data_length - 4`
      bytes (the length counts the width and height fields), read before the
      sequence flag is checked. */
  function DecodeOds(header: Header, payload: seq<byte>): (r: Result<Ods, Wire.Error>)
    ensures |payload| < Wire.SEGMENT_ODS_SIZE ==> r == Err(Wire.ShortRead)
    ensures |payload| >= Wire.SEGMENT_ODS_SIZE ==>
              var length := SaturatingSub(BigEndian(payload[4..7]), 4);
              && (Wire.SEGMENT_ODS_SIZE + length > |payload| ==> r == Err(Wire.ShortRead))
              && (Wire.SEGMENT_ODS_SIZE + length <= |payload| ==>
                    (r.Ok? <==> payload[3] in {0x40, 0x80, 0xC0}))
              && (r.Ok? ==> r.value.data == payload[Wire.SEGMENT_ODS_SIZE..Wire.SEGMENT_ODS_SIZE + length])
    ensures r.Ok? ==> r.value.header == header
    ensures r.Err? ==> r.error in {Wire.ShortRead, Wire.InvalidLastInSequenceFlag}
  {
    var ods :- Wire.ReadSegmentOds(payload, 0);
    var data :- Wire.ReadExact(payload, ods.next, SaturatingSub(ods.value.objectDataLength, 4));
    var flag :- DecodeLastInSequence(ods.value.lastInSequenceFlag);
    Ok(Ods(header, ods.value.objectId, ods.value.objectVersion, flag, ods.value.width,
           ods.value.height, data.value))
  }

  /** Dispatch on the segment type byte. */
  function DecodePayload(h: Wire.SegmentHeader, payload: seq<byte>): (r: Result<Segment, Wire.Error>)
    ensures h.segmentType !in {0x14, 0x15, 0x16, 0x17, 0x80} ==> r == Err(Wire.InvalidSegmentType)
    ensures h.segmentType == Wire.SEGMENT_TYPE_END ==> r == Ok(END(End(HeaderOf(h))))
    ensures r.Ok? ==> TypeTag(r.value) == h.segmentType && SegmentHeader(r.value) == HeaderOf(h)
    ensures h.segmentType == Wire.SEGMENT_TYPE_PCS ==>
              var d := DecodePcs(HeaderOf(h), payload);
              r == if d.Ok? then Ok(PCS(d.value)) else Err(d.error)
    ensures h.segmentType == Wire.SEGMENT_TYPE_WDS ==>
              var d := DecodeWds(HeaderOf(h), payload);
              r == if d.Ok? then Ok(WDS(d.value)) else Err(d.error)
    ensures h.segmentType == Wire.SEGMENT_TYPE_PDS ==>
              var d := DecodePds(HeaderOf(h), payload);
              r == if d.Ok? then Ok(PDS(d.value)) else Err(d.error)
    ensures h.segmentType == Wire.SEGMENT_TYPE_ODS ==>
              var d := DecodeOds(HeaderOf(h), payload);
              r == if d.Ok? then Ok(ODS(d.value)) else Err(d.error)
  {
    var header := HeaderOf(h);
    if h.segmentType == Wire.SEGMENT_TYPE_PCS then
      var pcs :- DecodePcs(header, payload);
      Ok(PCS(pcs))
    else if h.segmentType == Wire.SEGMENT_TYPE_WDS then
      var wds :- DecodeWds(header, payload);
      Ok(WDS(wds))
    else if h.segmentType == Wire.SEGMENT_TYPE_PDS then
      var pds :- DecodePds(header, payload);
      Ok(PDS(pds))
    else if h.segmentType == Wire.SEGMENT_TYPE_ODS then
      var ods :- DecodeOds(header, payload);
      Ok(ODS(ods))
    else if h.segmentType == Wire.SEGMENT_TYPE_END then
      Ok(END(End(header)))
    else
      Err(Wire.InvalidSegmentType)
  }

  /** `decode_segment`, checking in order: a full header, the magic number
      (before the payload is looked at), a full payload of the declared size,
      then the typed body decoded from the payload alone. On success the
      reader has moved by exactly the header and the declared payload size,
      and the segment's kind and timestamps are those of the header. */
  function DecodeSegment(buf: seq<byte>, pos: nat): (r: Result<Wire.Parsed<Segment>, Wire.Error>)
    ensures pos + Wire.HEADER_SIZE > |buf| ==> r.Err? && r.error == Wire.ShortRead
    ensures pos + Wire.HEADER_SIZE <= |buf| && BigEndian(buf[pos..pos + 2]) != Wire.MAGIC_NUMBER ==>
              r.Err? && r.error == Wire.InvalidMagic
    ensures pos + Wire.HEADER_SIZE <= |buf| && BigEndian(buf[pos..pos + 2]) == Wire.MAGIC_NUMBER
            && pos + Wire.HEADER_SIZE + BigEndian(buf[pos + 11..pos + 13]) > |buf| ==>
              r.Err? && r.error == Wire.ShortRead
    ensures r.Ok? ==>
              && pos + Wire.HEADER_SIZE <= r.value.next <= |buf|
              && r.value.next == pos + Wire.HEADER_SIZE + BigEndian(buf[pos + 11..pos + 13])
              && TypeTag(r.value.value) == buf[pos + 10]
              && SegmentHeader(r.value.value)
                 == Header(BigEndian(buf[pos + 2..pos + 6]), BigEndian(buf[pos + 6..pos + 10]))
    ensures var header := Wire.ReadSegmentHeader(buf, pos);
            header.Ok? && header.value.value.magicNumber == Wire.MAGIC_NUMBER ==>
              var payload := Wire.ReadExact(buf, header.value.next, header.value.value.segmentSize);
              payload.Ok? ==>
                var body := DecodePayload(header.value.value, payload.value.value);
                && (body.Err? ==> r.Err? && r.error == body.error)
                && (body.Ok? ==> r.Ok? && r.value.value == body.value)
  {
    var header :- Wire.ReadSegmentHeader(buf, pos);
    if header.value.magicNumber != Wire.MAGIC_NUMBER then Err(Wire.InvalidMagic)
    else
      var payload :- Wire.ReadExact(buf, header.next, header.value.segmentSize);
      var segment :- DecodePayload(header.value, payload.value);
      Ok(Wire.Parsed(segment, payload.next))
  }

  // ---------------------------------------------------------------------------
  // Encoding: the inverse of decoding, for segments whose counts and sizes fit
  // their wire fields

  /** A segment can be written when every count and length fits the field
      that carries it: one byte for object and window counts, two bytes for
      the segment size, three bytes for the object data length. */
  predicate Encodable(s: Segment) {
    match s
    case PCS(p) => |p.compositionObjects| < 0x100
    case WDS(w) => |w.windows| < 0x100
    case PDS(p) => Wire.SEGMENT_PDS_SIZE + Wire.PALETTE_ENTRY_SIZE * |p.entries| < 0x1_0000
    case ODS(o) => Wire.SEGMENT_ODS_SIZE + |o.data| < 0x1_0000
    case END(_) => true
  }

  /** The fixed PCS record of `p`, with any frame rate byte (the decoder
      ignores it; an encoder would write `Wire.FRAME_RATE`). */
  function WireSegmentPcs(p: Pcs, frameRate: U8): Wire.SegmentPcs
    requires |p.compositionObjects| < 0x100
  {
    Wire.SegmentPcs(p.width, p.height, frameRate, p.compositionNumber,
                    CompositionStateFlag(p.compositionState), PaletteUpdateFlag(p.paletteUpdate),
                    p.paletteId, |p.compositionObjects|)
  }

  function WireSegmentOds(o: Ods): Wire.SegmentOds
    requires Wire.SEGMENT_ODS_SIZE + |o.data| < 0x1_0000
  {
    Wire.SegmentOds(o.objectId, o.objectVersion, LastInSequenceFlagByte(o.lastInSequence),
                    |o.data| + 4, o.width, o.height)
  }

  /** The payload of a segment: its fixed part followed by its repeated records
      or object data. */
  function EncodePayload(s: Segment): (bs: seq<byte>)
    requires Encodable(s)
    ensures |bs| < 0x1_0000
  {
    match s
    case PCS(p) => EncodePcsPayload(p, Wire.FRAME_RATE)
    case WDS(w) => Wire.U8Bytes(|w.windows|) + EncodeWindows(w.windows)
    case PDS(p) => Wire.EncodeSegmentPds(Wire.SegmentPds(p.paletteId, p.paletteVersion))
                   + EncodePaletteEntries(p.entries)
    case ODS(o) => Wire.EncodeSegmentOds(WireSegmentOds(o)) + o.data
    case END(_) => []
  }

  function EncodeSegment(s: Segment): (bs: seq<byte>)
    requires Encodable(s)
    ensures |bs| >= Wire.HEADER_SIZE
  {
    var payload := EncodePayload(s);
    var h := SegmentHeader(s);
    Wire.EncodeSegmentHeader(Wire.SegmentHeader(Wire.MAGIC_NUMBER, h.pts, h.dts, TypeTag(s), |payload|))
    + payload
  }

  /** Reading one more object in front of a successful read. */
  lemma ReadCompositionObjectsCons(buf: seq<byte>, pos: nat, obj: CompositionObject, n: nat)
    requires At(buf, pos, Wire.EncodeCompositionObject(WireCompositionObject(obj)))
    requires ReadCompositionObjects(buf, pos + |Wire.EncodeCompositionObject(WireCompositionObject(obj))|, n).Ok?
    ensures var rest := ReadCompositionObjects(buf, pos + |Wire.EncodeCompositionObject(WireCompositionObject(obj))|, n);
            var r := ReadCompositionObjects(buf, pos, n + 1);
            r.Ok? && r.value.value == [obj] + rest.value.value && r.value.next == rest.value.next
  {
    Wire.ReadCompositionObjectInverse(buf, pos, WireCompositionObject(obj));
  }

  lemma {:induction false} ReadCompositionObjectsInverse(buf: seq<byte>, pos: nat, objects: seq<CompositionObject>)
    requires At(buf, pos, EncodeCompositionObjects(objects))
    ensures var r := ReadCompositionObjects(buf, pos, |objects|);
            r.Ok? && r.value.value == objects && r.value.next == pos + |EncodeCompositionObjects(objects)|
    decreases |objects|
  {
    if |objects| > 0 {
      var a := Wire.EncodeCompositionObject(WireCompositionObject(objects[0]));
      var rest := objects[1..];
      var b := EncodeCompositionObjects(rest);
      assert EncodeCompositionObjects(objects) == a + b;
      AtConcat(buf, pos, a, b);
      ReadCompositionObjectsInverse(buf, pos + |a|, rest);
      ReadCompositionObjectsCons(buf, pos, objects[0], |rest|);
      assert objects == [objects[0]] + rest;
    } else {
      assert ReadCompositionObjects(buf, pos, 0) == Ok(Wire.Parsed([], pos));
    }
  }

  lemma ReadWindowsCons(buf: seq<byte>, pos: nat, w: Window, n: nat)
    requires At(buf, pos, Wire.EncodeWindow(WireWindow(w)))
    requires ReadWindows(buf, pos + Wire.WINDOW_SIZE, n).Ok?
    ensures var rest := ReadWindows(buf, pos + Wire.WINDOW_SIZE, n);
            var r := ReadWindows(buf, pos, n + 1);
            r.Ok? && r.value.value == [w] + rest.value.value && r.value.next == rest.value.next
  {
    Wire.ReadWindowInverse(buf, pos, WireWindow(w));
    assert WindowOf(WireWindow(w)) == w;
  }

  lemma {:induction false} ReadWindowsInverse(buf: seq<byte>, pos: nat, windows: seq<Window>)
    requires At(buf, pos, EncodeWindows(windows))
    ensures var r := ReadWindows(buf, pos, |windows|);
            r.Ok? && r.value.value == windows && r.value.next == pos + |EncodeWindows(windows)|
    decreases |windows|
  {
    if |windows| > 0 {
      var a := Wire.EncodeWindow(WireWindow(windows[0]));
      var rest := windows[1..];
      var b := EncodeWindows(rest);
      assert EncodeWindows(windows) == a + b;
      AtConcat(buf, pos, a, b);
      ReadWindowsInverse(buf, pos + |a|, rest);
      ReadWindowsCons(buf, pos, windows[0], |rest|);
      assert windows == [windows[0]] + rest;
    }
  }

  /** Entries are read up to the end of the payload, so the round trip needs
      the encoded entries to end exactly there. */
  lemma {:induction false} ReadPaletteEntriesInverse(buf: seq<byte>, pos: nat, entries: seq<PaletteEntry>)
    requires At(buf, pos, EncodePaletteEntries(entries))
    requires pos + Wire.PALETTE_ENTRY_SIZE * |entries| == |buf|
    ensures ReadPaletteEntries(buf, pos) == Ok(Wire.Parsed(entries, |buf|))
    decreases |entries|
  {
    if |entries| > 0 {
      var a := Wire.EncodePaletteEntry(WirePaletteEntry(entries[0]));
      AtConcat(buf, pos, a, EncodePaletteEntries(entries[1..]));
      Wire.ReadPaletteEntryInverse(buf, pos, WirePaletteEntry(entries[0]));
      ReadPaletteEntriesInverse(buf, pos + |a|, entries[1..]);
      assert entries == [entries[0]] + entries[1..];
    }
  }

  /** A PCS payload: the fixed record followed by the composition objects. */
  function EncodePcsPayload(p: Pcs, frameRate: U8): seq<byte>
    requires |p.compositionObjects| < 0x100
  {
    Wire.EncodeSegmentPcs(WireSegmentPcs(p, frameRate)) + EncodeCompositionObjects(p.compositionObjects)
  }

  /** Whatever the frame rate byte holds, and whatever trails the composition
      objects, the payload decodes back to `p`. */
  lemma DecodePcsInverse(p: Pcs, frameRate: U8, extra: seq<byte>)
    requires |p.compositionObjects| < 0x100
    ensures DecodePcs(p.header, EncodePcsPayload(p, frameRate) + extra) == Ok(p)
  {
    var a := Wire.EncodeSegmentPcs(WireSegmentPcs(p, frameRate));
    var b := EncodeCompositionObjects(p.compositionObjects);
    var buf := a + b + extra;
    assert EncodePcsPayload(p, frameRate) + extra == buf;
    AtConcat(buf, 0, a + b, extra);
    AtConcat(buf, 0, a, b);
    Wire.ReadSegmentPcsInverse(buf, 0, WireSegmentPcs(p, frameRate));
    ReadCompositionObjectsInverse(buf, |a|, p.compositionObjects);
    FlagsRoundTrip(p.compositionState, p.paletteUpdate, Last);
  }

  /** Bytes after the windows are not looked at. */
  lemma DecodeWdsInverse(w: Wds, extra: seq<byte>)
    requires |w.windows| < 0x100
    ensures DecodeWds(w.header, EncodePayload(WDS(w)) + extra) == Ok(w)
  {
    var a := Wire.U8Bytes(|w.windows|);
    var b := EncodeWindows(w.windows);
    var buf := a + b + extra;
    assert EncodePayload(WDS(w)) + extra == buf;
    AtConcat(buf, 0, a + b, extra);
    AtConcat(buf, 0, a, b);
    Wire.ReadU8At(buf, 0, |w.windows|);
    ReadWindowsInverse(buf, 1, w.windows);
  }

  lemma DecodePdsInverse(p: Pds)
    requires Encodable(PDS(p))
    ensures DecodePds(p.header, EncodePayload(PDS(p))) == Ok(p)
  {
    var a := Wire.EncodeSegmentPds(Wire.SegmentPds(p.paletteId, p.paletteVersion));
    var b := EncodePaletteEntries(p.entries);
    var buf := a + b;
    assert At(buf, 0, a + b);
    AtConcat(buf, 0, a, b);
    Wire.ReadSegmentPdsInverse(buf, 0, Wire.SegmentPds(p.paletteId, p.paletteVersion));
    ReadPaletteEntriesInverse(buf, |a|, p.entries);
  }

  /** Bytes after the object data are not looked at. */
  lemma DecodeOdsInverse(o: Ods, extra: seq<byte>)
    requires Encodable(ODS(o))
    ensures DecodeOds(o.header, EncodePayload(ODS(o)) + extra) == Ok(o)
  {
    var a := Wire.EncodeSegmentOds(WireSegmentOds(o));
    var buf := a + o.data + extra;
    assert EncodePayload(ODS(o)) + extra == buf;
    AtConcat(buf, 0, a + o.data, extra);
    AtConcat(buf, 0, a, o.data);
    Wire.ReadSegmentOdsInverse(buf, 0, WireSegmentOds(o));
    FlagsRoundTrip(Normal, false, o.lastInSequence);
  }

  lemma DecodePayloadInverse(h: Wire.SegmentHeader, s: Segment)
    requires Encodable(s)
    requires h.segmentType == TypeTag(s) && HeaderOf(h) == SegmentHeader(s)
    ensures DecodePayload(h, EncodePayload(s)).Ok? && DecodePayload(h, EncodePayload(s)).value == s
  {
    var payload := EncodePayload(s);
    match s
    case PCS(p) =>
      EmptySuffix(payload);
      DecodePcsInverse(p, Wire.FRAME_RATE, []);
      DecodePayloadPcs(h, payload);
    case WDS(w) =>
      EmptySuffix(payload);
      DecodeWdsInverse(w, []);
      DecodePayloadWds(h, payload);
    case PDS(p) =>
      DecodePdsInverse(p);
      DecodePayloadPds(h, payload);
    case ODS(o) =>
      EmptySuffix(payload);
      DecodeOdsInverse(o, []);
      DecodePayloadOds(h, payload);
    case END(_) =>
  }

  lemma EmptySuffix(bs: seq<byte>)
    ensures bs + [] == bs
  {
  }

  lemma DecodePayloadPcs(h: Wire.SegmentHeader, payload: seq<byte>)
    requires h.segmentType == Wire.SEGMENT_TYPE_PCS && DecodePcs(HeaderOf(h), payload).Ok?
    ensures DecodePayload(h, payload) == Ok(PCS(DecodePcs(HeaderOf(h), payload).value))
  {
  }

  lemma DecodePayloadWds(h: Wire.SegmentHeader, payload: seq<byte>)
    requires h.segmentType == Wire.SEGMENT_TYPE_WDS && DecodeWds(HeaderOf(h), payload).Ok?
    ensures DecodePayload(h, payload) == Ok(WDS(DecodeWds(HeaderOf(h), payload).value))
  {
  }

  lemma DecodePayloadPds(h: Wire.SegmentHeader, payload: seq<byte>)
    requires h.segmentType == Wire.SEGMENT_TYPE_PDS && DecodePds(HeaderOf(h), payload).Ok?
    ensures DecodePayload(h, payload) == Ok(PDS(DecodePds(HeaderOf(h), payload).value))
  {
  }

  lemma DecodePayloadOds(h: Wire.SegmentHeader, payload: seq<byte>)
    requires h.segmentType == Wire.SEGMENT_TYPE_ODS && DecodeOds(HeaderOf(h), payload).Ok?
    ensures DecodePayload(h, payload) == Ok(ODS(DecodeOds(HeaderOf(h), payload).value))
  {
  }

  /** A header carrying the magic number and the payload's size, followed by
      a payload that decodes, is decoded to that payload's segment. */
  lemma DecodeFramed(buf: seq<byte>, pos: nat, h: Wire.SegmentHeader, payload: seq<byte>)
    requires h.magicNumber == Wire.MAGIC_NUMBER && h.segmentSize == |payload|
    requires At(buf, pos, Wire.EncodeSegmentHeader(h) + payload)
    requires DecodePayload(h, payload).Ok?
    ensures var r := DecodeSegment(buf, pos);
            r.Ok? && r.value.value == DecodePayload(h, payload).value
            && r.value.next == pos + Wire.HEADER_SIZE + |payload|
  {
    AtConcat(buf, pos, Wire.EncodeSegmentHeader(h), payload);
    Wire.ReadSegmentHeaderInverse(buf, pos, h);
    assert Wire.ReadExact(buf, pos + Wire.HEADER_SIZE, |payload|).value.value == payload;
  }

  /** Decoding an encoded segment gives it back and stops right after it. */
  lemma DecodeSegmentInverse(buf: seq<byte>, pos: nat, s: Segment)
    requires Encodable(s)
    requires At(buf, pos, EncodeSegment(s))
    ensures var r := DecodeSegment(buf, pos);
            r.Ok? && r.value.value == s && r.value.next == pos + |EncodeSegment(s)|
  {
    var payload := EncodePayload(s);
    var h := SegmentHeader(s);
    var wh := Wire.SegmentHeader(Wire.MAGIC_NUMBER, h.pts, h.dts, TypeTag(s), |payload|);
    assert EncodeSegment(s) == Wire.EncodeSegmentHeader(wh) + payload;
    DecodePayloadInverse(wh, s);
    DecodeFramed(buf, pos, wh, payload);
  }
}
