# sup-to-srt in Dafny

sup-to-srt converts a Blu-ray PGS subtitle stream (a `.sup` file) into SRT text.
This project models its core in Dafny and proves properties of the model:

- **Wire layer (`Wire`, `Bytes`).** The big-endian readers `read_u8`, `read_u16`, `read_u24` and `read_u32`. The fixed-layout records of a segment (header, PCS, composition object, WDS, window, PDS, palette entry, ODS) and their `Wire::read` implementations. A reader is a byte sequence plus a position; a short read is an error.
- **Run-length codes (`Rle`).** `decode_image_data_code`, which reads one code of an object's image data, and the `ImageDataDecoder` iterator that walks a buffer code by code.
- **Segments (`Segments`).** `decode_segment` reads the 13-byte header, checks the magic number "PG", reads the payload and decodes it by segment type into a PCS (presentation composition), WDS (window definition), PDS (palette definition), ODS (object definition) or END. `Header::from` keeps the two timestamps.
- **Display sets (`DisplaySets`).** `decode_display_set`: a PCS, then WDS, PDS and ODS segments in any order, up to the first END.
- **Bitmap extraction (`Extract`, `Bitmaps`).** `subtitles_extract` walks the display sets. It keeps the palettes and objects of the current epoch, joins ODS fragments into objects, and turns every shown composition object into a timed bitmap subtitle. Each subtitle's end time is patched in when the next display set arrives. `Bitmap::sub_image` is the crop.
- **SRT output (`Srt`, `Times`).** `srt_duration_display` formats a duration as `HH:MM:SS,mmm`. `subtitles_to_srt` turns timed text subtitles into SRT cues: it sorts the add and remove actions by time, sweeps them while keeping the list of subtitles on screen, and writes one cue for every action after which the trimmed on-screen text is not empty.

Every decoder has a partner. Most have an encoder and a round-trip lemma. The display-set loop is paired with a reference assembly of a list of segments. The extraction loop is paired with a reference timeline. The SRT sweep is paired with a functional cue list, whose well-formedness is proved separately.

## Model

| member | source | states |
|---|---|---|
| Wire.ReadU8 | pgs/src/wire.rs:233-237 | succeeds exactly when at least one byte is left; returns that byte and advances by one; otherwise fails as a short read |
| Wire.ReadU16 | pgs/src/wire.rs:239-243 | succeeds exactly when at least two bytes are left; the value is the big-endian number they form; advances by two; a short read otherwise |
| Wire.ReadU24 | pgs/src/wire.rs:245-249 | succeeds exactly when at least three bytes are left; the value is their big-endian number, below 2^24; advances by three |
| Wire.ReadU32 | pgs/src/wire.rs:251-255 | succeeds exactly when at least four bytes are left; the value is their big-endian number; advances by four |
| Wire.ReadU8At | pgs/src/wire.rs:233-237 | reading a byte back from where it was written yields it |
| Wire.ReadU16At | pgs/src/wire.rs:239-243 | reading back the two big-endian bytes of a u16 yields the value |
| Wire.ReadU24At | pgs/src/wire.rs:245-249 | reading back the three big-endian bytes of a 24-bit value yields the value |
| Wire.ReadU32At | pgs/src/wire.rs:251-255 | reading back the four big-endian bytes of a u32 yields the value |
| Wire.ReadU8Bytes | pgs/src/wire.rs:233-237 | a successful read has consumed exactly the byte it returns (the other direction of the round trip) |
| Wire.ReadU16Bytes | pgs/src/wire.rs:239-243 | a successful read has consumed exactly the big-endian encoding of the value it returns |
| Bytes.BigEndianOfToBigEndian | pgs/src/wire.rs:239-255 | writing a value as n big-endian bytes and reading them back gives the value, for every value below 256^n |
| Bytes.ToBigEndianOfBigEndian | pgs/src/wire.rs:239-255 | reading n bytes as a big-endian number and writing it back as n bytes gives the same bytes |
| Wire.ReadSegmentHeader | pgs/src/wire.rs:257-267 | succeeds exactly when at least 13 bytes are left; the fields are magic, pts, dts, type and size, in that order and big-endian |
| Wire.ReadSegmentHeaderInverse | pgs/src/wire.rs:257-267 | an encoded header is read back unchanged, and the reader ends right after it |
| Wire.ReadSegmentPcs | pgs/src/wire.rs:269-282 | succeeds exactly when at least 11 bytes are left; width, height, frame rate, composition number, composition state, palette update flag, palette id and object count sit at their byte offsets, big-endian |
| Wire.ReadSegmentPcsInverse | pgs/src/wire.rs:269-282 | an encoded PCS record is read back unchanged |
| Wire.ReadCompositionObject | pgs/src/wire.rs:284-300 | reads 8 bytes, plus 8 more for the cropping rectangle exactly when the cropped flag is 0x40; without that flag the cropping fields are zero; fails only on a short read |
| Wire.ReadCompositionObjectInverse | pgs/src/wire.rs:284-300 | an encoded composition object of either size is read back unchanged |
| Wire.ReadCompositionObjectBytes | pgs/src/wire.rs:284-300 | a successful read consumed exactly the encoding of what it returns |
| Wire.ReadSegmentWds | pgs/src/wire.rs:302-308 | succeeds exactly when at least one byte is left; that byte is the window count |
| Wire.ReadWindow | pgs/src/wire.rs:310-320 | succeeds exactly when at least 9 bytes are left, and advances by 9 |
| Wire.ReadWindowInverse | pgs/src/wire.rs:310-320 | an encoded window is read back unchanged |
| Wire.ReadSegmentPds | pgs/src/wire.rs:322-329 | succeeds exactly when at least 2 bytes are left; they are the palette id and version |
| Wire.ReadSegmentPdsInverse | pgs/src/wire.rs:322-329 | an encoded PDS record is read back unchanged |
| Wire.ReadPaletteEntry | pgs/src/wire.rs:331-341 | succeeds exactly when at least 5 bytes are left; they are the entry id, Y, Cr, Cb and alpha in that order |
| Wire.ReadPaletteEntryInverse | pgs/src/wire.rs:331-341 | an encoded palette entry is read back unchanged |
| Wire.ReadSegmentOds | pgs/src/wire.rs:343-354 | succeeds exactly when at least 11 bytes are left; the fourth byte is the sequence flag; the data length is the 24-bit big-endian number after it |
| Wire.ReadSegmentOdsInverse | pgs/src/wire.rs:343-354 | an encoded ODS record is read back unchanged |
| Rle.DecodeImageDataCode | pgs/src/wire.rs:144-227 | fails exactly when the buffer is shorter than the code its first bytes announce: "empty buffer" for no bytes, "not enough data" otherwise. The "invalid rle data" branch is never taken. On success it consumes 1 to 4 bytes and a run never exceeds 14 bits |
| Rle.DecodeImageDataCodeForms | pgs/src/wire.rs:152-221 | the value of each of the six forms, stated on byte ranges rather than bit masks: a single pixel, end of line, a short zero run, a long zero run stored plus one, a short coloured run, a long coloured run |
| Rle.TopTwoBitsIsBitwise | pgs/src/wire.rs:193-215 | the arithmetic selector equals `v1 & 0b11000000` |
| Rle.LowSixBitsIsBitwise | pgs/src/wire.rs:201-204 | the arithmetic run length equals `v1 & 0b00111111` |
| Rle.RunLength14IsBitwise | pgs/src/wire.rs:214-220 | the arithmetic 14-bit run equals `(v1 & 0b00111111) << 8 \| v2` computed on u16 |
| Rle.DecodeEncodeCode | pgs/src/wire.rs:144-227 | the shortest encoding of any code with a run of at most 14 bits decodes back to that code and its length, whatever follows it |
| Rle.DecodeLongZeroRun | pgs/src/wire.rs:193-199 | a long zero run is stored as its length plus one |
| Rle.DecodeShortRun | pgs/src/wire.rs:201-205 | the 10 form gives a run of up to 63 pixels of the third byte's colour |
| Rle.DecodeLongRun | pgs/src/wire.rs:215-221 | the 11 form gives a 14-bit run of the fourth byte's colour |
| Rle.DecodeImageData | pgs/src/wire.rs:229-231 | the iterator starts at offset 0 of the buffer |
| Rle.Next | pgs/src/wire.rs:131-141 | yields nothing exactly at the end of the buffer; yields an error exactly when decoding the code at the offset fails, and then it is that decoder's error and the iterator stays in place; otherwise it yields the code at the offset and advances by that code's 1 to 4 bytes |
| Rle.CodesOfEncodeCodes | pgs/src/wire.rs:128-141 | iterating over the concatenated encodings of a code list yields the list, and then stops |
| Rle.CodesFrom | pgs/src/wire.rs:128-141 | the same, for an iterator that starts after an arbitrary prefix |
| Segments.DecodeCompositionState | pgs/src/lib.rs:217-227 | accepts exactly 0x00, 0x40 and 0x80, and maps them back to the same flag; anything else is "invalid composition state" |
| Segments.DecodePaletteUpdate | pgs/src/lib.rs:206-215 | accepts exactly 0x00 and 0x80; anything else is "invalid palette update flag" |
| Segments.DecodeLastInSequence | pgs/src/lib.rs:283-295 | accepts exactly 0x40, 0x80 and 0xC0; anything else is "invalid last in sequence flag" |
| Segments.FlagsRoundTrip | pgs/src/wire.rs:15-28 | each enumeration value encodes to its constant, and that constant decodes back to the value |
| Segments.DecodeCropping | pgs/src/lib.rs:182-196 | there is a cropping rectangle exactly when the flag is 0x40; a flag other than 0x00 or 0x40 is "invalid object cropped flag" |
| Segments.WireCompositionObject | pgs/src/lib.rs:182-203 | every composition object has a wire record that converts back to it |
| Segments.ReadCompositionObjects | pgs/src/lib.rs:178-204 | a successful loop returns exactly as many objects as announced and consumes 8 to 16 bytes each; its only errors are a short read and a bad cropped flag |
| Segments.ReadCompositionObjectsInverse | pgs/src/lib.rs:178-204 | a list of encoded composition objects is read back unchanged |
| Segments.ReadWindows | pgs/src/lib.rs:242-252 | succeeds exactly when 9 bytes per announced window are present, and returns that many windows |
| Segments.ReadWindowsInverse | pgs/src/lib.rs:242-252 | a list of encoded windows is read back unchanged |
| Segments.ReadPaletteEntries | pgs/src/lib.rs:260-270 | reads entries until the payload ends; succeeds exactly when what is left is a multiple of 5 bytes |
| Segments.ReadPaletteEntriesInverse | pgs/src/lib.rs:260-270 | a payload of encoded entries is read back as the entry list |
| Segments.DecodePcs | pgs/src/lib.rs:176-239 | succeeds exactly when the payload holds the 11-byte record, the announced composition objects read without error, the palette update byte is 0x00 or 0x80 and the composition state byte is 0x00, 0x40 or 0x80. Errors come in source order: a short record, then the objects' own error, then "invalid palette update flag", then "invalid composition state". A result keeps the header, takes width, height, composition number and palette id from their bytes, maps both flag bytes back to the bytes read, and holds the objects read; the frame rate byte is never checked |
| Segments.DecodePcsInverse | pgs/src/lib.rs:176-239 | an encoded PCS (up to 255 objects) decodes back unchanged, whatever its frame rate byte and whatever trails it in the payload |
| Segments.DecodeWds | pgs/src/lib.rs:240-257 | succeeds exactly when the payload holds the count byte and that many windows |
| Segments.DecodeWdsInverse | pgs/src/lib.rs:240-257 | an encoded WDS decodes back unchanged |
| Segments.DecodePds | pgs/src/lib.rs:258-277 | succeeds exactly when the payload is 2 bytes plus whole 5-byte entries; the entries fill the payload |
| Segments.DecodePdsInverse | pgs/src/lib.rs:258-277 | an encoded PDS decodes back unchanged |
| Segments.DecodeOds | pgs/src/lib.rs:278-305 | reads the 11-byte record, then (data length − 4, saturating) data bytes; a short payload is a short read; otherwise it succeeds exactly when the sequence flag is valid; the data is exactly those bytes |
| Segments.DecodeOdsInverse | pgs/src/lib.rs:278-305 | an encoded ODS (with its data) decodes back unchanged |
| Segments.DecodePayload | pgs/src/lib.rs:175-315 | a type outside the five segment types is "invalid segment type"; END needs no payload; a PCS, WDS, PDS or ODS type gives exactly the segment its body decoder reads from the payload, or that decoder's error unchanged; a decoded segment has the header's type and the header's pts and dts (`Header::from`) |
| Segments.DecodePayloadInverse | pgs/src/lib.rs:175-315 | every encodable segment's payload decodes back to it under a header of its type |
| Segments.DecodeSegment | pgs/src/lib.rs:159-316 | too few bytes for a header is a short read; a wrong magic number is "invalid header magic value", checked before the payload; a payload shorter than the size field is a short read; once header and payload are both there, the result is the body decoder's segment or its error unchanged; on success the reader ends exactly after header and payload, and the segment has the header's type byte and its pts and dts (`Header::from`) |
| Segments.DecodeFramed | pgs/src/lib.rs:159-175 | a header with the right magic and size in front of a decodable payload yields that payload's segment |
| Segments.DecodeSegmentInverse | pgs/src/lib.rs:159-316 | every encodable segment, written out, decodes back to itself, and the reader ends right after it |
| DisplaySets.DecodeDisplaySet | pgs/src/lib.rs:318-327 | propagates the first segment's error; a first segment other than a PCS is "expected pcs as first segment"; a result keeps that PCS and ends at least two headers further on |
| DisplaySets.CollectSegments | pgs/src/lib.rs:329-354 | a segment that fails to decode ends the loop with its error; a PCS is "found PCS in the middle of display set"; an END closes the display set with the lists collected so far and ends right after it; the loop only appends to the WDS, PDS and ODS lists and keeps the PCS |
| DisplaySets.CollectFailsAfter | pgs/src/lib.rs:333-343 | after any run of inner segments, a segment that fails to decode ends the loop with that segment's error |
| DisplaySets.DecodeDisplaySetFailsAfter | pgs/src/lib.rs:318-343 | a segment that fails to decode after the PCS and any inner segments fails the whole display set with that segment's error |
| DisplaySets.CollectDecoded | pgs/src/lib.rs:333-354 | over inner segments closed by an END, the loop appends each segment to its kind's list in arrival order and stops right after the END |
| DisplaySets.CollectRejectsPcs | pgs/src/lib.rs:335-340 | a PCS reached before any END makes the loop fail with "found PCS in the middle of display set" |
| DisplaySets.DecodeDisplaySetOfSegments | pgs/src/lib.rs:318-355 | the bytes of a PCS, any inner segments and an END decode to the display set assembled from that list |
| DisplaySets.DecodeDisplaySetRejectsSecondPcs | pgs/src/lib.rs:333-340 | a second PCS before the END rejects the whole display set |
| DisplaySets.FirstIsPcs | pgs/src/lib.rs:319-333 | once the first segment is a PCS, the result is that of the loop started right after it |
| Bitmaps.RowLimit | src/main.rs:56 | the crop stops at the requested bottom edge (saturated at u32::MAX) or at the bitmap's height, whichever is lower |
| Bitmaps.Lines | src/main.rs:56-61 | the row-slicing definition of the crop, one slice per copied row of source row `top + i` from column `left`; its byte-level consequence is the `Bitmaps.SubImageAt` row |
| Bitmaps.SubImage | src/main.rs:53-68 | defined exactly on the crops that do not panic (`CropSafe`: the capacity `4 * width * height` fits u32, every copied row's offset fits u32 and its slice lies in the buffer); the result reports the requested width and height, and holds 4 × width bytes per copied row |
| Bitmaps.OverflowingCapacityIsUnsafe | src/main.rs:54 | a 0x8000 × 0x8000 crop is never safe, whatever the bitmap, because its capacity is 2^32 |
| Bitmaps.SubImageSize | src/main.rs:54-67 | the crop's buffer is 4 × width × (rows copied) bytes |
| Bitmaps.SubImageAt | src/main.rs:56-61 | byte c of output row i is byte c of source row top + i, counted from column left |
| Bitmaps.InsideCropIsWellFormed | src/main.rs:53-68 | a rectangle inside a well-formed bitmap whose byte count and row size are below 2^32 never panics and gives a well-formed bitmap |
| Bitmaps.ClampedCropIsShort | src/main.rs:56-67 | a rectangle reaching below the bitmap copies only the existing rows, so its buffer is shorter than its reported size |
| Extract.StorePalettes | src/main.rs:187-190 | the palette ids afterwards are the old ids plus those of the display set's PDS; untouched ids keep their palette |
| Extract.PaletteLastWriterWins | src/main.rs:187-190 | the last PDS with an id is the palette stored under it |
| Extract.Render | src/main.rs:131-144 | rendering succeeds exactly when the renderer does, with its bitmap |
| Extract.StoreOds | src/main.rs:199-232 | a First fragment starts the object's data; a Last fragment appends to it and finishes the object; FirstAndLast replaces it and finishes it. A finished object carries the render of its data. "invalid ods segment" happens exactly for a Last fragment on an existing finished object. A new object takes its size from the fragment, an existing one keeps its own, and other objects are unchanged. The render error happens exactly when a FirstAndLast or an accepted Last fragment's assembled data does not render with that size and the palette. A First fragment cannot fail and leaves the bitmap as it was |
| Extract.StoreAllOds | src/main.rs:199-232 | processing a display set's fragments keeps every other object and adds every fragment's id; every finished object a fragment touched carries the render of its data with the given palette; errors are only "invalid ods segment" or a render error |
| Extract.StoreAllOdsSnoc | src/main.rs:199-232 | fragments are processed strictly in order: one more fragment after a run is one `StoreOds` on the run's objects, and an error in the run is the error of the whole |
| Extract.FirstThenLastIsFirstAndLast | src/main.rs:208-230 | a First fragment followed by a Last fragment has the effect of one FirstAndLast fragment with the joined data |
| Extract.Crop | src/main.rs:254-265 | without a cropping rectangle the bitmap is unchanged; with one, the crop succeeds exactly when `sub_image` would not panic with overflow checks on, including the u32 overflow of its capacity, and then yields `sub_image` of that rectangle |
| Extract.ComposeOne | src/main.rs:234-271 | a composition object yields one bitmap when its object exists and is finished, and none otherwise |
| Extract.CropAll | src/main.rs:254-265 | cropping a list succeeds exactly when every crop does, and keeps the order |
| Extract.ComposeCropsShown | src/main.rs:234-271 | the bitmaps of a PCS are the crops of exactly its shown composition objects, in order |
| Extract.Advance | src/main.rs:176-271 | an epoch start forgets objects and palettes; "PCS referenced invalid palette" happens exactly when the PCS's palette id is neither kept nor defined in the display set; the object ids afterwards are the kept ones plus the ODS ids. With the palette present, the new objects are the fragments stored in order over the kept objects, rendered with the palette the PCS names after this display set's PDS; their error is the step's error. Otherwise the bitmaps are the crops of the shown composition objects over the new objects, in order, and the step fails with the crop error exactly when one of those crops fails |
| Extract.CloseSubtitles | src/main.rs:172-174 | exactly the subtitles listed as previous get the new end time; nothing else changes |
| Extract.Extend | src/main.rs:167-272 | one display set succeeds exactly when its time-independent part does, and keeps the previous-subtitle indices in range |
| Extract.ExtractSubtitles | src/main.rs:146-155 | no display sets give no subtitles; a first display set that is not an epoch start is an error |
| Extract.StartTimes | src/main.rs:171 | each display set's time is its PCS's pts through the clock |
| Extract.CloseLastBlock | src/main.rs:172-174 | closing the previous display set's subtitles moves the end of exactly the last block to the new time |
| Extract.ExtendFollows | src/main.rs:167-272 | one loop iteration extends the reference timeline by the display set's block |
| Extract.RunFollows | src/main.rs:167-272 | the loop over any display sets fails exactly when the reference bitmap computation does, and otherwise follows the reference timeline |
| Extract.ExtractFollowsTimeline | src/main.rs:146-275 | extraction fails exactly when some display set fails. Otherwise the subtitles are the reference timeline: each display set's bitmaps are shown from its time to the next display set's time, and the last set's bitmaps end at 0 |
| Times.AsSecs | src/main.rs:339 | the whole seconds of a duration, at most u64::MAX |
| Times.SubsecMillis | src/main.rs:343 | the whole milliseconds past the last second, below 1000 |
| Srt.Pad | src/main.rs:344 | a zero-padded decimal field: only digits, the requested width unless the number needs more, and reading it back gives the number |
| Srt.ValueOfDigits | src/main.rs:420 | the decimal digits of a cue number read back as that number |
| Srt.Split | src/main.rs:339-343 | minutes and seconds are below 60 and millis below 1000; hours, minutes and seconds add up to the whole seconds; millis are the subsecond millis |
| Srt.SplitDeterminesMillis | src/main.rs:339-343 | the four fields determine the duration's whole number of milliseconds |
| Srt.Display | src/main.rs:334-349 | the text is at least 12 characters; everything before `:MM:SS,mmm` is the hours written as `{hours:02}` (`Pad` to width 2: at least two digits, no more than the number needs); parsing it back gives the four fields of the split, so the format loses nothing, even for hours beyond 99 |
| Srt.DisplayInjective | src/main.rs:334-349 | durations with different millisecond counts display differently |
| Srt.Trim | src/main.rs:411 | the trimmed text is empty or starts and ends with non-whitespace |
| Srt.TrimEmpty | src/main.rs:411-413 | the trimmed text is empty exactly when the text is all whitespace |
| Srt.TrimIsStartThenEnd | src/main.rs:411 | trimming equals removing leading, then trailing whitespace, each characterised by position |
| Srt.Actions | src/main.rs:386-397 | two actions per subtitle: add at its begin, remove at its end, in subtitle order |
| Srt.SortedActions | src/main.rs:398 | the sorted actions are a permutation of the actions, ordered by time |
| Srt.InsertSorted | src/main.rs:398 | inserting into a time-ordered list keeps it ordered |
| Srt.SortByTimeSorted | src/main.rs:373-377 | the sort orders the actions by timestamp only |
| Srt.SortByTimeStable | src/main.rs:398 | the sort is stable: actions with equal timestamps keep their relative order |
| Srt.Retain | src/main.rs:403 | keeps exactly the on-screen entries other than the removed subtitle |
| Srt.SurvivorsStep | src/main.rs:400-404 | the on-screen list after each action is the reference list: the subtitles added and not yet removed, in the order they were added |
| Srt.SurvivorsNameSubtitles | src/main.rs:407-408 | every on-screen index names an existing subtitle, so `subtitles[idx]` cannot panic |
| Srt.ScreenTextBlank | src/main.rs:406-410 | the joined on-screen text is blank exactly when every on-screen subtitle's text is |
| Srt.CaptionEmpty | src/main.rs:406-413 | a cue is skipped exactly when every on-screen subtitle's text is blank |
| Srt.CaptionsAt | src/main.rs:400-411 | the caption after action i is the trimmed on-screen text after the first i + 1 actions |
| Srt.CuesFromNumbered | src/main.rs:420-429 | cues are numbered consecutively from the starting number |
| Srt.CuesFromOrdered | src/main.rs:414-418 | every cue ends no earlier than it begins (the next action's time, or Duration::MAX for the last action) |
| Srt.CuesFromDisjoint | src/main.rs:414-418 | consecutive cues do not overlap |
| Srt.CuesWellFormed | src/main.rs:400-431 | the cues of any subtitle list are numbered from 1, have non-empty text that starts and ends with non-whitespace, and are ordered and non-overlapping |
| Srt.RenderCuesFrom | src/main.rs:413-430 | an action with an empty caption writes nothing; otherwise it writes the cue block (number, time line, text, blank line) and the next number is one higher |
| Srt.BlockParses | src/main.rs:420-428 | a written block reads back as the cue's number, the fields of both ends of its time range, and its text, whatever line breaks the text holds |
| Srt.Sweep | src/main.rs:400-431 | the imperative sweep over the actions writes exactly the rendering of the reference cue list |
| Srt.SubtitlesToSrt | src/main.rs:351-434 | the SRT text is the rendering of the reference cue list of the subtitles |

## Left out

- `main` and its command-line handling (src/main.rs:83-120): file I/O and argument parsing.
- `subtitles_ocr` (src/main.rs:277-332) and `subtitles_viewer` (src/main.rs:436-472): optical character recognition and a GUI viewer. `subtitles_to_srt` therefore takes the text subtitles as input.
- `decode_display_sets`, `decode_rle_data`, `clock_to_duration` and `PaletteEntry::to_rgba` are not part of this model. `Extract.ExtractSubtitles` takes the list of display sets, a `Clock` and a `Renderer` as parameters instead. The renderer stands for `bitmap_from_object_and_palette` (src/main.rs:131-144).
- Logging (`tracing`) and the epoch counter, which only feeds a log line.
- The window bookkeeping: WDS segments are decoded but `subtitles_extract` never uses them.
- Extract.ExtractSubtitles: the `assert_eq!` on the display size (src/main.rs:168-169) is the precondition `SameDisplaySize` rather than a modelled panic.
- Bitmaps.SubImage: models the build with overflow checks on, which is Rust's default debug profile. There a u32 overflow of the capacity `4 * width * height` or of `y * width * 4` panics, and so does an out-of-range slice. These three are excluded by the precondition `CropSafe`. Inside the extractor the same condition is tested, and a failure is the error `CropPanics`.
- Bitmaps.SubImage: a release build, where overflow checks are off, is not modelled. There a wrapped capacity only sizes the allocation and the crop goes on. A wrapped row offset copies from the wrapped position, unless the slice's bounds check panics.
- Extract.Crop: `CropPanics` on a capacity or row-offset overflow describes the build with overflow checks on only. A release build, as under Bitmaps.SubImage, is not modelled.
- Srt.Sweep: the cue counter `current_sub_num` (src/main.rs:384) is an unsuffixed integer literal, so Rust types it `i32`. The model's counter is unbounded, so it does not model what happens after 2^31 − 1 cues: a panic with overflow checks on, negative cue numbers without them. The action and subtitle indices are `usize` and are unbounded as well.
- The `Wire.Error` constructors stand for the messages of `std::io::Error`; the two error kinds are `Wire.Error.Kind`.
- Bytes are integers from 0 to 255. The bit masks of `decode_image_data_code` are written as arithmetic, and `Rle.TopTwoBitsIsBitwise`, `Rle.LowSixBitsIsBitwise` and `Rle.RunLength14IsBitwise` tie them to the bitwise operations.
- The `ODS` record in pgs/src/lib.rs:130-142 has no data field. Yet `decode_segment` reads the object data (pgs/src/lib.rs:280-281) and `subtitles_extract` uses `ods.data` (src/main.rs:212, 228). The model follows the code that reads and uses the data, and gives `Segments.Ods` a `data` field.
- A byte-level round trip for whole display sets (encoding a segment list and decoding it with `decode_display_set`) is not stated. `DisplaySets.DecodeDisplaySetOfSegments` covers the decoding direction for any bytes that decode to a well-ordered segment list, and `Segments.DecodeSegmentInverse` covers each segment.
- `write!` formatting is modelled directly as string concatenation of zero-padded decimal fields (`Srt.Pad`, `Srt.Display`, `Srt.Block`).
- Srt.IsWhitespace follows the Unicode White_Space property used by `str::trim`, at the level of characters; no encoding to UTF-8 is modelled.
- The long zero-run form of the run-length code is decoded as the stored 14-bit length minus one, saturating at zero (pgs/src/wire.rs:197). The model keeps this as written (`Rle.DecodeLongZeroRun`), and the encoder stores such runs plus one.
