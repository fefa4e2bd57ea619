/** `subtitles_extract`: walks the display sets of a stream, keeps the objects
    and palettes of the current epoch, assembles objects from their ODS
    fragments, and turns every shown composition object into a timed bitmap
    subtitle. Time flows from the presentation timestamps through a clock
    function, and run-length decoding plus colour conversion is a renderer
    function; both are parameters. */
module Extract {
  import opened Results
  import opened Bytes
  import opened Segments
  import opened DisplaySets
  import opened Bitmaps
  import opened Times

  /** An object being assembled from its ODS fragments. */
  datatype Object = Object(width: U16, height: U16, finished: bool, data: seq<byte>, bitmap: Bitmap)

  datatype BitmapSubtitle = BitmapSubtitle(range: TimeRange, bitmap: Bitmap)

  datatype ExtractError =
    | NotEpochStart   // the first display set does not start an epoch
    | InvalidPalette  // the PCS names a palette that is not defined
    | InvalidOds      // a Last fragment for an object that is already finished
    | RenderFailed    // the object's run-length data did not decode
    | CropPanics      // the cropping rectangle overflows or leaves the bitmap

  /** `bitmap_from_object_and_palette`: object width, height and run-length
      data plus the palette give an RGBA bitmap, or fail. */
  type Renderer = (U16, U16, seq<byte>, Pds) -> Option<Bitmap>

  /** `clock_to_duration`: a 90 kHz presentation timestamp as a duration. */
  type Clock = U32 -> Duration

  /** The objects and palettes defined in the current epoch. */
  datatype Epoch = Epoch(objects: map<U16, Object>, palettes: map<U8, Pds>)

  const NO_EPOCH: Epoch := Epoch(map[], map[])

  function OdsIds(odss: seq<Ods>): set<U16> {
    set i | 0 <= i < |odss| :: odss[i].objectId
  }

  function PdsIds(pdss: seq<Pds>): set<U8> {
    set i | 0 <= i < |pdss| :: pdss[i].paletteId
  }

  // ---------------------------------------------------------------------------
  // Palettes

  /** Each PDS of a display set replaces the palette with its id. */
  function StorePalettes(palettes: map<U8, Pds>, pdss: seq<Pds>): (r: map<U8, Pds>)
    ensures r.Keys == palettes.Keys + PdsIds(pdss)
    ensures forall id :: id in palettes && id !in PdsIds(pdss) ==> r[id] == palettes[id]
    decreases |pdss|
  {
    if |pdss| == 0 then palettes
    else
      assert PdsIds(pdss) == {pdss[0].paletteId} + PdsIds(pdss[1..]);
      StorePalettes(palettes[pdss[0].paletteId := pdss[0]], pdss[1..])
  }

  /** The last PDS with a given id is the one that stays. */
  lemma {:induction false} PaletteLastWriterWins(palettes: map<U8, Pds>, pdss: seq<Pds>, j: nat)
    requires j < |pdss|
    requires forall k :: j < k < |pdss| ==> pdss[k].paletteId != pdss[j].paletteId
    ensures pdss[j].paletteId in StorePalettes(palettes, pdss)
    ensures StorePalettes(palettes, pdss)[pdss[j].paletteId] == pdss[j]
    decreases |pdss|
  {
    var id := pdss[j].paletteId;
    var next := palettes[pdss[0].paletteId := pdss[0]];
    assert StorePalettes(palettes, pdss) == StorePalettes(next, pdss[1..]);
    if j == 0 {
      assert id !in PdsIds(pdss[1..]);
    } else {
      PaletteLastWriterWins(next, pdss[1..], j - 1);
    }
  }

  // ---------------------------------------------------------------------------
  // Objects

  /** The entry `or_insert` creates for an object id seen for the first time. */
  function FreshObject(ods: Ods): Object {
    Object(ods.width, ods.height, false, [], EMPTY)
  }

  /** The object a fragment updates: the one stored under its id, or the
      entry `or_insert` creates. */
  function Entry(objects: map<U16, Object>, ods: Ods): Object {
    if ods.objectId in objects then objects[ods.objectId] else FreshObject(ods)
  }

  /** The run-length data an object holds once the fragment is stored: Last
      appends to what the entry holds, the other flags start afresh. */
  function Assembled(objects: map<U16, Object>, ods: Ods): seq<byte> {
    if ods.lastInSequence == Last then Entry(objects, ods).data + ods.data else ods.data
  }

  function Render(obj: Object, palette: Pds, render: Renderer): (r: Result<Bitmap, ExtractError>)
    ensures r.Ok? <==> render(obj.width, obj.height, obj.data, palette).Some?
    ensures r.Ok? ==> render(obj.width, obj.height, obj.data, palette) == Some(r.value)
    ensures r.Err? ==> r.error == RenderFailed
  {
    match render(obj.width, obj.height, obj.data, palette)
    case None => Err(RenderFailed)
    case Some(bitmap) => Ok(bitmap)
  }

  /** One ODS fragment: First starts the object's data afresh, Last appends
      to it and completes the object, FirstAndLast does both at once. A
      completed object is rendered with the display set's palette. */
  function StoreOds(objects: map<U16, Object>, ods: Ods, palette: Pds, render: Renderer)
    : (r: Result<map<U16, Object>, ExtractError>)
    ensures r.Ok? ==> r.value.Keys == objects.Keys + {ods.objectId}
    ensures r.Ok? ==> forall id :: id in objects && id != ods.objectId ==> r.value[id] == objects[id]
    ensures r.Ok? ==> var o := r.value[ods.objectId];
              && (ods.objectId in objects ==>
                    o.width == objects[ods.objectId].width && o.height == objects[ods.objectId].height)
              && (ods.objectId !in objects ==> o.width == ods.width && o.height == ods.height)
              && (o.finished <==> ods.lastInSequence != First)
              && (o.finished ==> render(o.width, o.height, o.data, palette) == Some(o.bitmap))
              && o.data == (if ods.lastInSequence == Last && ods.objectId in objects
                            then objects[ods.objectId].data + ods.data else ods.data)
    ensures r.Err? ==> r.error == InvalidOds || r.error == RenderFailed
    ensures (r.Err? && r.error == InvalidOds) <==>
              ods.lastInSequence == Last && ods.objectId in objects && objects[ods.objectId].finished
    ensures (r.Err? && r.error == RenderFailed) <==>
              var e := Entry(objects, ods);
              && ods.lastInSequence != First
              && !(ods.lastInSequence == Last && e.finished)
              && render(e.width, e.height, Assembled(objects, ods), palette).None?
    ensures ods.lastInSequence == First ==>
              r.Ok? && r.value[ods.objectId].bitmap == Entry(objects, ods).bitmap
  {
    var obj := Entry(objects, ods);
    match ods.lastInSequence
    case FirstAndLast =>
      var o := obj.(finished := true, data := ods.data);
      var bitmap :- Render(o, palette, render);
      Ok(objects[ods.objectId := o.(bitmap := bitmap)])
    case First =>
      Ok(objects[ods.objectId := obj.(finished := false, data := ods.data)])
    case Last =>
      if obj.finished then Err(InvalidOds)
      else
        var o := obj.(finished := true, data := obj.data + ods.data);
        var bitmap :- Render(o, palette, render);
        Ok(objects[ods.objectId := o.(bitmap := bitmap)])
  }

  /** The ODS fragments of a display set, in order. */
  function StoreAllOds(objects: map<U16, Object>, odss: seq<Ods>, palette: Pds, render: Renderer)
    : (r: Result<map<U16, Object>, ExtractError>)
    ensures r.Ok? ==> r.value.Keys == objects.Keys + OdsIds(odss)
    ensures r.Ok? ==> forall id :: id in objects && id !in OdsIds(odss) ==> r.value[id] == objects[id]
    ensures r.Ok? ==> forall id :: id in objects ==>
              r.value[id].width == objects[id].width && r.value[id].height == objects[id].height
    ensures r.Ok? ==> forall id :: id in OdsIds(odss) && r.value[id].finished ==>
              render(r.value[id].width, r.value[id].height, r.value[id].data, palette) == Some(r.value[id].bitmap)
    ensures r.Err? ==> r.error == InvalidOds || r.error == RenderFailed
    decreases |odss|
  {
    if |odss| == 0 then Ok(objects)
    else
      assert OdsIds(odss) == {odss[0].objectId} + OdsIds(odss[1..]);
      var next :- StoreOds(objects, odss[0], palette, render);
      StoreAllOds(next, odss[1..], palette, render)
  }

  /** The fragments are stored strictly one after the other: one more
      fragment after a run of them is `StoreOds` applied to the run's
      objects, and an error anywhere in the run is the error of the whole. */
  lemma {:induction false} StoreAllOdsSnoc(objects: map<U16, Object>, odss: seq<Ods>, ods: Ods,
                                           palette: Pds, render: Renderer)
    ensures StoreAllOds(objects, odss, palette, render).Err? ==>
              StoreAllOds(objects, odss + [ods], palette, render)
                == Err(StoreAllOds(objects, odss, palette, render).error)
    ensures StoreAllOds(objects, odss, palette, render).Ok? ==>
              StoreAllOds(objects, odss + [ods], palette, render)
                == StoreOds(StoreAllOds(objects, odss, palette, render).value, ods, palette, render)
    decreases |odss|
  {
    if |odss| == 0 {
      assert [] + [ods] == [ods];
      assert [ods][1..] == [];
    } else {
      assert (odss + [ods])[0] == odss[0];
      assert (odss + [ods])[1..] == odss[1..] + [ods];
      var first := StoreOds(objects, odss[0], palette, render);
      if first.Ok? {
        StoreAllOdsSnoc(first.value, odss[1..], ods, palette, render);
      }
    }
  }

  /** Sending an object as a First fragment and then a Last fragment has the
      same effect as sending the joined data as a single FirstAndLast. */
  lemma FirstThenLastIsFirstAndLast(objects: map<U16, Object>, first: Ods, last: Ods, palette: Pds, render: Renderer)
    requires first.lastInSequence == First && last.lastInSequence == Last
    requires first.objectId == last.objectId
    ensures var whole := first.(lastInSequence := FirstAndLast, data := first.data + last.data);
            var split := StoreOds(objects, first, palette, render);
            && split.Ok?
            && StoreOds(split.value, last, palette, render) == StoreOds(objects, whole, palette, render)
  {
    var id := first.objectId;
    var whole := first.(lastInSequence := FirstAndLast, data := first.data + last.data);
    var obj := if id in objects then objects[id] else FreshObject(first);
    var mid := objects[id := obj.(finished := false, data := first.data)];
    assert StoreOds(objects, first, palette, render) == Ok(mid);
    var o := obj.(finished := true, data := first.data + last.data);
    assert mid[id].(finished := true, data := mid[id].data + last.data) == o;
    match render(o.width, o.height, o.data, palette)
    case None =>
    case Some(bitmap) =>
      assert mid[id := o.(bitmap := bitmap)] == objects[id := o.(bitmap := bitmap)];
  }

  // ---------------------------------------------------------------------------
  // Compositions

  /** A composition object is shown when its object exists and is finished;
      any other composition object is skipped. */
  predicate Shown(objects: map<U16, Object>, comp: CompositionObject) {
    comp.objectId in objects && objects[comp.objectId].finished
  }

  /** The bitmap of a shown composition object: its object's bitmap, cut to
      the cropping rectangle when there is one. */
  function Crop(bitmap: Bitmap, comp: CompositionObject): (r: Result<Bitmap, ExtractError>)
    ensures comp.cropping.None? ==> r.Ok? && r.value == bitmap
    ensures comp.cropping.Some? ==> var c := comp.cropping.value;
              && (r.Ok? <==> CropSafe(bitmap, c.horizontalPosition, c.verticalPosition, c.width, c.height))
              && (r.Ok? ==> r.value == SubImage(bitmap, c.horizontalPosition, c.verticalPosition, c.width, c.height))
    ensures r.Err? ==> r.error == CropPanics
  {
    match comp.cropping
    case None => Ok(bitmap)
    case Some(c) =>
      if CropSafe(bitmap, c.horizontalPosition, c.verticalPosition, c.width, c.height)
      then Ok(SubImage(bitmap, c.horizontalPosition, c.verticalPosition, c.width, c.height))
      else Err(CropPanics)
  }

  function ComposeOne(objects: map<U16, Object>, comp: CompositionObject): (r: Result<seq<Bitmap>, ExtractError>)
    ensures r.Ok? ==> |r.value| == if Shown(objects, comp) then 1 else 0
  {
    if !Shown(objects, comp) then Ok([])
    else
      var bitmap :- Crop(objects[comp.objectId].bitmap, comp);
      Ok([bitmap])
  }

  /** The composition loop: one bitmap per shown composition object, in order. */
  function Compose(objects: map<U16, Object>, comps: seq<CompositionObject>): (r: Result<seq<Bitmap>, ExtractError>)
    ensures r.Ok? ==> |r.value| <= |comps|
    ensures r.Err? ==> r.error == CropPanics
    decreases |comps|
  {
    if |comps| == 0 then Ok([])
    else
      var here :- ComposeOne(objects, comps[0]);
      var rest :- Compose(objects, comps[1..]);
      Ok(here + rest)
  }

  /** The shown composition objects, in order (reference for `Compose`). */
  function ShownOf(objects: map<U16, Object>, comps: seq<CompositionObject>): (shown: seq<CompositionObject>)
    ensures forall k :: 0 <= k < |shown| ==> Shown(objects, shown[k])
    decreases |comps|
  {
    if |comps| == 0 then []
    else (if Shown(objects, comps[0]) then [comps[0]] else []) + ShownOf(objects, comps[1..])
  }

  /** Each composition object of `comps` cropped in turn (reference for
      `Compose`, applied to the shown objects only). */
  function CropAll(objects: map<U16, Object>, comps: seq<CompositionObject>): (r: Result<seq<Bitmap>, ExtractError>)
    requires forall k :: 0 <= k < |comps| ==> comps[k].objectId in objects
    ensures r.Ok? <==> forall k :: 0 <= k < |comps| ==> Crop(objects[comps[k].objectId].bitmap, comps[k]).Ok?
    ensures r.Ok? ==> |r.value| == |comps|
    ensures r.Ok? ==> forall k :: 0 <= k < |comps| ==>
              Crop(objects[comps[k].objectId].bitmap, comps[k]) == Ok(r.value[k])
    decreases |comps|
  {
    if |comps| == 0 then Ok([])
    else
      var bitmap :- Crop(objects[comps[0].objectId].bitmap, comps[0]);
      var rest :- CropAll(objects, comps[1..]);
      assert forall k :: 1 <= k < |comps| ==> comps[k] == comps[1..][k - 1];
      Ok([bitmap] + rest)
  }

  /** `Compose` is "keep the shown composition objects, then crop each":
      it succeeds exactly when every crop of a shown object does, and then
      yields one bitmap per shown object, in order. */
  lemma {:induction false} ComposeCropsShown(objects: map<U16, Object>, comps: seq<CompositionObject>)
    ensures Compose(objects, comps) == CropAll(objects, ShownOf(objects, comps))
    decreases |comps|
  {
    if |comps| > 0 {
      ComposeCropsShown(objects, comps[1..]);
      var comp := comps[0];
      var tail := ShownOf(objects, comps[1..]);
      if Shown(objects, comp) {
        assert ShownOf(objects, comps) == [comp] + tail;
        assert ([comp] + tail)[1..] == tail;
      } else {
        assert ShownOf(objects, comps) == tail;
        assert ComposeOne(objects, comp) == Ok([]);
        var rest := Compose(objects, comps[1..]);
        if rest.Ok? {
          EmptyPrefix(rest.value);
        }
      }
    }
  }

  // ---------------------------------------------------------------------------
  // One display set

  datatype Step = Step(epoch: Epoch, bitmaps: seq<Bitmap>)

  /** Palette ids defined when the PCS's palette is looked up. */
  function PalettesAvailable(e: Epoch, ds: DisplaySet): set<U8> {
    (if ds.pcs.compositionState == EpochStart then {} else e.palettes.Keys) + PdsIds(ds.pds)
  }

  /** The epoch a display set builds on: an epoch start forgets all objects
      and palettes. */
  function Restart(e: Epoch, ds: DisplaySet): Epoch {
    if ds.pcs.compositionState == EpochStart then NO_EPOCH else e
  }

  /** The part of one loop iteration that does not depend on time: an epoch
      start forgets all objects and palettes, then the PDS, the palette
      lookup, the ODS and the composition objects are processed in turn. */
  function Advance(e: Epoch, ds: DisplaySet, render: Renderer): (r: Result<Step, ExtractError>)
    ensures (r.Err? && r.error == InvalidPalette) <==> ds.pcs.paletteId !in PalettesAvailable(e, ds)
    ensures r.Ok? ==> r.value.epoch.palettes.Keys == PalettesAvailable(e, ds)
    ensures r.Ok? && ds.pcs.compositionState == EpochStart ==>
              r.value.epoch.objects.Keys == OdsIds(ds.ods)
    ensures r.Ok? && ds.pcs.compositionState != EpochStart ==>
              r.value.epoch.objects.Keys == e.objects.Keys + OdsIds(ds.ods)
    ensures r.Ok? ==> |r.value.bitmaps| <= |ds.pcs.compositionObjects|
    ensures r.Ok? ==> Compose(r.value.epoch.objects, ds.pcs.compositionObjects) == Ok(r.value.bitmaps)
    ensures var start := Restart(e, ds);
            var palettes := StorePalettes(start.palettes, ds.pds);
            ds.pcs.paletteId in palettes ==>
              var objects := StoreAllOds(start.objects, ds.ods, palettes[ds.pcs.paletteId], render);
              && (objects.Err? ==> r == Err(objects.error))
              && (objects.Ok? ==>
                    var shown := CropAll(objects.value, ShownOf(objects.value, ds.pcs.compositionObjects));
                    && (r.Ok? <==> shown.Ok?)
                    && (r.Err? ==> r.error == CropPanics)
                    && (r.Ok? ==> r.value.epoch == Epoch(objects.value, palettes) && Ok(r.value.bitmaps) == shown))
  {
    var start := Restart(e, ds);
    var palettes := StorePalettes(start.palettes, ds.pds);
    if ds.pcs.paletteId !in palettes then Err(InvalidPalette)
    else
      var objects :- StoreAllOds(start.objects, ds.ods, palettes[ds.pcs.paletteId], render);
      ComposeCropsShown(objects, ds.pcs.compositionObjects);
      var bitmaps :- Compose(objects, ds.pcs.compositionObjects);
      Ok(Step(Epoch(objects, palettes), bitmaps))
  }

  // ---------------------------------------------------------------------------
  // The timed loop

  /** The extraction state: the epoch, the subtitles so far, and the indices
      of the subtitles opened by the previous display set, whose end time is
      still to be set. */
  datatype State = State(epoch: Epoch, subtitles: seq<BitmapSubtitle>, previous: seq<nat>)

  predicate ValidPrevious(st: State) {
    forall k :: 0 <= k < |st.previous| ==> st.previous[k] < |st.subtitles|
  }

  /** Subtitles showing `bitmaps`, from `begin` to `end`. */
  function Block(bitmaps: seq<Bitmap>, begin: Duration, end: Duration): (b: seq<BitmapSubtitle>)
    ensures |b| == |bitmaps|
  {
    seq(|bitmaps|, k requires 0 <= k < |bitmaps| => BitmapSubtitle(TimeRange(begin, end), bitmaps[k]))
  }

  function Indices(from: nat, count: nat): (ix: seq<nat>)
    ensures |ix| == count
  {
    seq(count, k requires 0 <= k < count => from + k)
  }

  /** Draining `previous_subtitles`: every listed subtitle ends at `time`. */
  function CloseSubtitles(subs: seq<BitmapSubtitle>, previous: seq<nat>, time: Duration): (r: seq<BitmapSubtitle>)
    requires forall k :: 0 <= k < |previous| ==> previous[k] < |subs|
    ensures |r| == |subs|
    ensures forall i :: 0 <= i < |subs| ==>
              r[i] == if i in previous then subs[i].(range := subs[i].range.(end := time)) else subs[i]
    decreases |previous|
  {
    if |previous| == 0 then subs
    else
      var i := previous[0];
      var next := subs[i := subs[i].(range := subs[i].range.(end := time))];
      assert forall j :: j in previous <==> j == i || j in previous[1..];
      CloseSubtitles(next, previous[1..], time)
  }

  /** One iteration of the loop over display sets. */
  function Extend(st: State, ds: DisplaySet, clock: Clock, render: Renderer): (r: Result<State, ExtractError>)
    requires ValidPrevious(st)
    ensures r.Ok? ==> ValidPrevious(r.value)
    ensures r.Ok? <==> Advance(st.epoch, ds, render).Ok?
  {
    var time := clock(ds.pcs.header.pts);
    var closed := CloseSubtitles(st.subtitles, st.previous, time);
    var step :- Advance(st.epoch, ds, render);
    Ok(State(step.epoch, closed + Block(step.bitmaps, time, 0), Indices(|closed|, |step.bitmaps|)))
  }

  function Run(st: State, sets: seq<DisplaySet>, clock: Clock, render: Renderer): (r: Result<State, ExtractError>)
    requires ValidPrevious(st)
    ensures r.Ok? ==> ValidPrevious(r.value)
    decreases |sets|
  {
    if |sets| == 0 then Ok(st)
    else
      var next :- Extend(st, sets[0], clock, render);
      Run(next, sets[1..], clock, render)
  }

  /** Every display set has the size of the first (the source asserts it). */
  predicate SameDisplaySize(sets: seq<DisplaySet>) {
    forall i :: 0 <= i < |sets| ==>
      sets[i].pcs.width == sets[0].pcs.width && sets[i].pcs.height == sets[0].pcs.height
  }

  /** `subtitles_extract`, from the decoded display sets on. */
  function ExtractSubtitles(sets: seq<DisplaySet>, clock: Clock, render: Renderer)
    : (r: Result<seq<BitmapSubtitle>, ExtractError>)
    requires SameDisplaySize(sets)
    ensures |sets| == 0 ==> r.Ok? && r.value == []
    ensures |sets| > 0 && sets[0].pcs.compositionState != EpochStart ==> r.Err? && r.error == NotEpochStart
  {
    if |sets| == 0 then Ok([])
    else if sets[0].pcs.compositionState != EpochStart then Err(NotEpochStart)
    else
      var st :- Run(State(NO_EPOCH, [], []), sets, clock, render);
      Ok(st.subtitles)
  }

  // ---------------------------------------------------------------------------
  // Reference timeline

  /** The bitmaps each display set contributes, set by set. */
  function AllBitmaps(e: Epoch, sets: seq<DisplaySet>, render: Renderer): (r: Result<seq<seq<Bitmap>>, ExtractError>)
    ensures r.Ok? ==> |r.value| == |sets|
    decreases |sets|
  {
    if |sets| == 0 then Ok([])
    else
      var step :- Advance(e, sets[0], render);
      var rest :- AllBitmaps(step.epoch, sets[1..], render);
      Ok([step.bitmaps] + rest)
  }

  /** The time of each display set, in order. */
  function StartTimes(sets: seq<DisplaySet>, clock: Clock): (ts: seq<Duration>)
    ensures |ts| == |sets|
    ensures forall i :: 0 <= i < |sets| ==> ts[i] == clock(sets[i].pcs.header.pts)
    decreases |sets|
  {
    if |sets| == 0 then [] else [clock(sets[0].pcs.header.pts)] + StartTimes(sets[1..], clock)
  }

  /** The intended timing: the bitmaps of display set `i` are shown from its
      time until the time of display set `i + 1`; those of the last set end
      at `until`. */
  function Timeline(times: seq<Duration>, bitmaps: seq<seq<Bitmap>>, until: Duration): seq<BitmapSubtitle>
    requires |times| == |bitmaps|
    decreases |times|
  {
    if |times| == 0 then []
    else
      var n := |times| - 1;
      Timeline(times[..n], bitmaps[..n], times[n]) + Block(bitmaps[n], times[n], until)
  }

  /** Indices of the subtitles of the last display set in a timeline. */
  function LastIndices(times: seq<Duration>, bitmaps: seq<seq<Bitmap>>): seq<nat>
    requires |times| == |bitmaps|
  {
    if |times| == 0 then []
    else
      var n := |times| - 1;
      Indices(|Timeline(times[..n], bitmaps[..n], times[n])|, |bitmaps[n]|)
  }

  /** The loop state after the display sets that produced `times` and `bitmaps`. */
  predicate Follows(st: State, times: seq<Duration>, bitmaps: seq<seq<Bitmap>>) {
    && |times| == |bitmaps|
    && st.subtitles == Timeline(times, bitmaps, 0)
    && st.previous == LastIndices(times, bitmaps)
  }

  lemma FollowsValid(st: State, times: seq<Duration>, bitmaps: seq<seq<Bitmap>>)
    requires Follows(st, times, bitmaps)
    ensures ValidPrevious(st)
  {
    if |times| > 0 {
      var n := |times| - 1;
      assert st.subtitles == Timeline(times[..n], bitmaps[..n], times[n]) + Block(bitmaps[n], times[n], 0);
    }
  }

  /** Closing the last block of a timeline that ends at 0 moves its end to `time`. */
  lemma CloseLastBlock(times: seq<Duration>, bitmaps: seq<seq<Bitmap>>, time: Duration)
    requires |times| == |bitmaps| && |times| > 0
    ensures var prev := LastIndices(times, bitmaps);
            var subs := Timeline(times, bitmaps, 0);
            && (forall k :: 0 <= k < |prev| ==> prev[k] < |subs|)
            && CloseSubtitles(subs, prev, time) == Timeline(times, bitmaps, time)
  {
    var n := |times| - 1;
    var front := Timeline(times[..n], bitmaps[..n], times[n]);
    assert Timeline(times, bitmaps, 0) == front + Block(bitmaps[n], times[n], 0);
    assert Timeline(times, bitmaps, time) == front + Block(bitmaps[n], times[n], time);
    CloseBlock(front, bitmaps[n], times[n], time);
  }

  /** Closing the subtitles of a trailing block that ends at 0 gives the
      block ending at `time`, and leaves the subtitles in front alone. */
  lemma CloseBlock(front: seq<BitmapSubtitle>, bitmaps: seq<Bitmap>, begin: Duration, time: Duration)
    ensures var prev := Indices(|front|, |bitmaps|);
            var subs := front + Block(bitmaps, begin, 0);
            && (forall k :: 0 <= k < |prev| ==> prev[k] < |subs|)
            && CloseSubtitles(subs, prev, time) == front + Block(bitmaps, begin, time)
  {
    var prev := Indices(|front|, |bitmaps|);
    var open := Block(bitmaps, begin, 0);
    var closed := Block(bitmaps, begin, time);
    var r := CloseSubtitles(front + open, prev, time);
    forall i | 0 <= i < |front| + |open|
      ensures r[i] == (front + closed)[i]
    {
      InIndices(|front|, |bitmaps|, i);
    }
  }

  lemma InIndices(from: nat, count: nat, i: nat)
    ensures i in Indices(from, count) <==> from <= i < from + count
  {
    if from <= i < from + count {
      assert Indices(from, count)[i - from] == i;
    }
  }

  /** One display set extends the timeline by one block. */
  lemma {:induction false} ExtendFollows(st: State, ds: DisplaySet, clock: Clock, render: Renderer,
                                         times: seq<Duration>, bitmaps: seq<seq<Bitmap>>)
    requires Follows(st, times, bitmaps)
    ensures ValidPrevious(st)
    ensures var r := Extend(st, ds, clock, render);
            var a := Advance(st.epoch, ds, render);
            && (r.Ok? <==> a.Ok?)
            && (r.Err? ==> r.error == a.error)
            && (r.Ok? ==> (&& r.value.epoch == a.value.epoch
                           && Follows(r.value, times + [clock(ds.pcs.header.pts)], bitmaps + [a.value.bitmaps])))
  {
    FollowsValid(st, times, bitmaps);
    var a := Advance(st.epoch, ds, render);
    if a.Ok? {
      var time := clock(ds.pcs.header.pts);
      var times' := times + [time];
      var bitmaps' := bitmaps + [a.value.bitmaps];
      assert times'[..|times|] == times && bitmaps'[..|times|] == bitmaps;
      var closed := CloseSubtitles(st.subtitles, st.previous, time);
      if |times| > 0 {
        CloseLastBlock(times, bitmaps, time);
      }
      assert closed == Timeline(times, bitmaps, time);
      assert Timeline(times', bitmaps', 0) == closed + Block(a.value.bitmaps, time, 0);
    }
  }

  lemma RunStep(st: State, sets: seq<DisplaySet>, clock: Clock, render: Renderer)
    requires ValidPrevious(st) && |sets| > 0
    ensures var e := Extend(st, sets[0], clock, render);
            var r := Run(st, sets, clock, render);
            && (e.Err? ==> r.Err? && r.error == e.error)
            && (e.Ok? ==> r == Run(e.value, sets[1..], clock, render))
  {
  }

  lemma AllBitmapsStep(e: Epoch, sets: seq<DisplaySet>, render: Renderer)
    requires |sets| > 0
    ensures var a := Advance(e, sets[0], render);
            var b := AllBitmaps(e, sets, render);
            && (a.Err? ==> b.Err? && b.error == a.error)
            && (a.Ok? ==> var rest := AllBitmaps(a.value.epoch, sets[1..], render);
                  && (b.Ok? <==> rest.Ok?)
                  && (rest.Err? ==> b.error == rest.error)
                  && (rest.Ok? ==> b.value == [a.value.bitmaps] + rest.value))
  {
  }

  lemma {:induction false} RunFollows(st: State, sets: seq<DisplaySet>, clock: Clock, render: Renderer,
                                      times: seq<Duration>, bitmaps: seq<seq<Bitmap>>)
    requires Follows(st, times, bitmaps)
    ensures ValidPrevious(st)
    ensures var r := Run(st, sets, clock, render);
            var b := AllBitmaps(st.epoch, sets, render);
            && (r.Ok? <==> b.Ok?)
            && (r.Err? ==> r.error == b.error)
            && (r.Ok? ==> Follows(r.value, times + StartTimes(sets, clock), bitmaps + b.value))
    decreases |sets|
  {
    FollowsValid(st, times, bitmaps);
    if |sets| == 0 {
      assert times + StartTimes(sets, clock) == times;
      assert bitmaps + [] == bitmaps;
    } else {
      ExtendFollows(st, sets[0], clock, render, times, bitmaps);
      RunStep(st, sets, clock, render);
      AllBitmapsStep(st.epoch, sets, render);
      var a := Advance(st.epoch, sets[0], render);
      if a.Ok? {
        var next := Extend(st, sets[0], clock, render).value;
        var time := clock(sets[0].pcs.header.pts);
        RunFollows(next, sets[1..], clock, render, times + [time], bitmaps + [a.value.bitmaps]);
        ConcatShift(times, time, StartTimes(sets[1..], clock));
        var rest := AllBitmaps(a.value.epoch, sets[1..], render);
        if rest.Ok? {
          ConcatShift(bitmaps, a.value.bitmaps, rest.value);
        }
      }
    }
  }

  lemma EmptyPrefix<T>(xs: seq<T>)
    ensures [] + xs == xs
  {
  }

  lemma ConcatShift<T>(xs: seq<T>, x: T, ys: seq<T>)
    ensures xs + [x] + ys == xs + ([x] + ys)
  {
  }

  /** The back-patching loop computes the intended timeline: extraction
      succeeds exactly when every display set's objects and compositions
      do, and then subtitle blocks follow the display sets, each ending
      when the next display set starts and the last block ending at 0. */
  lemma {:induction false} ExtractFollowsTimeline(sets: seq<DisplaySet>, clock: Clock, render: Renderer)
    requires SameDisplaySize(sets)
    requires |sets| > 0 && sets[0].pcs.compositionState == EpochStart
    ensures var r := ExtractSubtitles(sets, clock, render);
            var b := AllBitmaps(NO_EPOCH, sets, render);
            && (r.Ok? <==> b.Ok?)
            && (r.Err? ==> r.error == b.error)
            && (r.Ok? ==> r.value == Timeline(StartTimes(sets, clock), b.value, 0))
  {
    var st := State(NO_EPOCH, [], []);
    assert Follows(st, [], []);
    RunFollows(st, sets, clock, render, [], []);
    EmptyPrefix(StartTimes(sets, clock));
    var b := AllBitmaps(NO_EPOCH, sets, render);
    if b.Ok? {
      EmptyPrefix(b.value);
    }
  }
}
