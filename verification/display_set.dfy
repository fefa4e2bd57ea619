/** Display sets (`decode_display_set`): a PCS, then any number of WDS, PDS
    and ODS segments, closed by the first END. */
module DisplaySets {
  import opened Results
  import opened Bytes
  import Wire
  import opened Segments

  datatype DisplaySet = DisplaySet(pcs: Pcs, wds: seq<Wds>, pds: seq<Pds>, ods: seq<Ods>, end: End)

  /** `decode_display_set`: the first segment must be a PCS; the segments
      after it are sorted into their kind's list, in arrival order, until the
      first END. */
  function DecodeDisplaySet(buf: seq<byte>, pos: nat): (r: Result<Wire.Parsed<DisplaySet>, Wire.Error>)
    ensures DecodeSegment(buf, pos).Err? ==> r.Err? && r.error == DecodeSegment(buf, pos).error
    ensures DecodeSegment(buf, pos).Ok? && !DecodeSegment(buf, pos).value.value.PCS? ==>
              r.Err? && r.error == Wire.PcsNotFirst
    ensures r.Ok? ==> DecodeSegment(buf, pos).Ok? && r.value.value.pcs == DecodeSegment(buf, pos).value.value.pcs
    ensures r.Ok? ==> pos + 2 * Wire.HEADER_SIZE <= r.value.next <= |buf|
  {
    var first :- DecodeSegment(buf, pos);
    if !first.value.PCS? then Err(Wire.PcsNotFirst)
    else CollectSegments(buf, first.next, first.value.pcs, [], [], [])
  }

  /** The loop of `decode_display_set`, with the lists collected so far. */
  function CollectSegments(buf: seq<byte>, pos: nat, pcs: Pcs, wds: seq<Wds>, pds: seq<Pds>, ods: seq<Ods>)
    : (r: Result<Wire.Parsed<DisplaySet>, Wire.Error>)
    requires pos <= |buf|
    ensures r.Ok? ==> pos + Wire.HEADER_SIZE <= r.value.next <= |buf|
    ensures r.Ok? ==> var ds := r.value.value;
              && ds.pcs == pcs
              && wds <= ds.wds && pds <= ds.pds && ods <= ds.ods
    ensures DecodeSegment(buf, pos).Err? ==> r.Err? && r.error == DecodeSegment(buf, pos).error
    ensures DecodeSegment(buf, pos).Ok? && DecodeSegment(buf, pos).value.value.PCS? ==>
              r.Err? && r.error == Wire.PcsInMiddle
    ensures DecodeSegment(buf, pos).Ok? && DecodeSegment(buf, pos).value.value.END? ==>
              var d := DecodeSegment(buf, pos).value;
              r == Ok(Wire.Parsed(DisplaySet(pcs, wds, pds, ods, d.value.end), d.next))
    decreases |buf| - pos
  {
    var seg :- DecodeSegment(buf, pos);
    match seg.value
    case PCS(_) => Err(Wire.PcsInMiddle)
    case WDS(w) => CollectSegments(buf, seg.next, pcs, wds + [w], pds, ods)
    case PDS(p) => CollectSegments(buf, seg.next, pcs, wds, pds + [p], ods)
    case ODS(o) => CollectSegments(buf, seg.next, pcs, wds, pds, ods + [o])
    case END(e) => Ok(Wire.Parsed(DisplaySet(pcs, wds, pds, ods, e), seg.next))
  }

  // ---------------------------------------------------------------------------
  // Reference: a display set assembled from its list of segments

  /** The WDS a single segment contributes: itself if it is one, nothing otherwise. */
  function WdsIn(s: Segment): seq<Wds> {
    if s.WDS? then [s.wds] else []
  }

  function PdsIn(s: Segment): seq<Pds> {
    if s.PDS? then [s.pds] else []
  }

  function OdsIn(s: Segment): seq<Ods> {
    if s.ODS? then [s.ods] else []
  }

  function WdsOf(segs: seq<Segment>): seq<Wds> {
    if |segs| == 0 then [] else WdsIn(segs[0]) + WdsOf(segs[1..])
  }

  function PdsOf(segs: seq<Segment>): seq<Pds> {
    if |segs| == 0 then [] else PdsIn(segs[0]) + PdsOf(segs[1..])
  }

  function OdsOf(segs: seq<Segment>): seq<Ods> {
    if |segs| == 0 then [] else OdsIn(segs[0]) + OdsOf(segs[1..])
  }

  /** Peeling the first inner segment off a segment list moves its
      contribution into the lists collected so far. */
  lemma FiltersShift(rest: seq<Segment>, wds: seq<Wds>, pds: seq<Pds>, ods: seq<Ods>)
    requires |rest| >= 2
    ensures var inner := rest[..|rest| - 1];
            var innerTail := rest[1..][..|rest| - 2];
            && (wds + WdsIn(rest[0])) + WdsOf(innerTail) == wds + WdsOf(inner)
            && (pds + PdsIn(rest[0])) + PdsOf(innerTail) == pds + PdsOf(inner)
            && (ods + OdsIn(rest[0])) + OdsOf(innerTail) == ods + OdsOf(inner)
  {
    var inner := rest[..|rest| - 1];
    var innerTail := rest[1..][..|rest| - 2];
    assert inner[0] == rest[0];
    assert inner[1..] == innerTail;
    assert WdsOf(inner) == WdsIn(rest[0]) + WdsOf(innerTail);
    assert PdsOf(inner) == PdsIn(rest[0]) + PdsOf(innerTail);
    assert OdsOf(inner) == OdsIn(rest[0]) + OdsOf(innerTail);
  }

  /** A segment that may stand between the PCS and the END. */
  predicate Inner(s: Segment) {
    s.WDS? || s.PDS? || s.ODS?
  }

  /** A well-formed display set on the wire: PCS, inner segments, END. */
  predicate WellOrdered(segs: seq<Segment>) {
    && |segs| >= 2
    && segs[0].PCS?
    && segs[|segs| - 1].END?
    && forall i :: 0 < i < |segs| - 1 ==> Inner(segs[i])
  }

  function Assemble(segs: seq<Segment>): DisplaySet
    requires WellOrdered(segs)
  {
    var inner := segs[1..|segs| - 1];
    DisplaySet(segs[0].pcs, WdsOf(inner), PdsOf(inner), OdsOf(inner), segs[|segs| - 1].end)
  }

  // ---------------------------------------------------------------------------
  // The loop against the list of segments it reads

  /** Decoding segment after segment from `pos` yields `segs` and stops at `next`. */
  predicate DecodesTo(buf: seq<byte>, pos: nat, segs: seq<Segment>, next: nat)
    decreases |segs|
  {
    if |segs| == 0 then next == pos
    else
      var r := DecodeSegment(buf, pos);
      r.Ok? && r.value.value == segs[0] && DecodesTo(buf, r.value.next, segs[1..], next)
  }

  /** One pass of the loop over an inner segment moves it into its list. */
  lemma CollectInnerStep(buf: seq<byte>, pos: nat, pcs: Pcs, wds: seq<Wds>, pds: seq<Pds>, ods: seq<Ods>)
    requires DecodeSegment(buf, pos).Ok? && Inner(DecodeSegment(buf, pos).value.value)
    ensures var d := DecodeSegment(buf, pos).value;
            d.next <= |buf|
            && CollectSegments(buf, pos, pcs, wds, pds, ods)
               == CollectSegments(buf, d.next, pcs, wds + WdsIn(d.value), pds + PdsIn(d.value), ods + OdsIn(d.value))
  {
    assert wds + [] == wds && pds + [] == pds && ods + [] == ods;
  }

  /** What is left of a list of inner segments and a final one after its first. */
  lemma RestShape(rest: seq<Segment>)
    requires |rest| >= 2
    requires forall i :: 0 <= i < |rest| - 1 ==> Inner(rest[i])
    ensures Inner(rest[0])
    ensures var tail := rest[1..];
            && |tail| >= 1 && tail[|tail| - 1] == rest[|rest| - 1]
            && (forall i :: 0 <= i < |tail| - 1 ==> Inner(tail[i]))
  {
  }

  /** Given the segments the loop reads, it collects every inner segment in
      order and stops right after the END. */
  lemma {:induction false} CollectDecoded(buf: seq<byte>, pos: nat, pcs: Pcs,
                                          wds: seq<Wds>, pds: seq<Pds>, ods: seq<Ods>,
                                          rest: seq<Segment>, next: nat)
    requires pos <= |buf|
    requires |rest| >= 1 && rest[|rest| - 1].END?
    requires forall i :: 0 <= i < |rest| - 1 ==> Inner(rest[i])
    requires DecodesTo(buf, pos, rest, next)
    ensures var r := CollectSegments(buf, pos, pcs, wds, pds, ods);
            var inner := rest[..|rest| - 1];
            && r.Ok?
            && r.value.value == DisplaySet(pcs, wds + WdsOf(inner), pds + PdsOf(inner), ods + OdsOf(inner),
                                           rest[|rest| - 1].end)
            && r.value.next == next
    decreases |rest|
  {
    var d := DecodeSegment(buf, pos).value;
    if |rest| == 1 {
      assert rest[..0] == [];
      assert wds + [] == wds && pds + [] == pds && ods + [] == ods;
    } else {
      RestShape(rest);
      CollectInnerStep(buf, pos, pcs, wds, pds, ods);
      CollectDecoded(buf, d.next, pcs, wds + WdsIn(d.value), pds + PdsIn(d.value), ods + OdsIn(d.value),
                     rest[1..], next);
      FiltersShift(rest, wds, pds, ods);
    }
  }

  /** A second PCS before any END is rejected. */
  lemma {:induction false} CollectRejectsPcs(buf: seq<byte>, pos: nat, pcs: Pcs,
                                             wds: seq<Wds>, pds: seq<Pds>, ods: seq<Ods>,
                                             rest: seq<Segment>, next: nat)
    requires pos <= |buf|
    requires |rest| >= 1 && rest[|rest| - 1].PCS?
    requires forall i :: 0 <= i < |rest| - 1 ==> Inner(rest[i])
    requires DecodesTo(buf, pos, rest, next)
    ensures var r := CollectSegments(buf, pos, pcs, wds, pds, ods);
            r.Err? && r.error == Wire.PcsInMiddle
    decreases |rest|
  {
    var d := DecodeSegment(buf, pos).value;
    if |rest| > 1 {
      RestShape(rest);
      CollectInnerStep(buf, pos, pcs, wds, pds, ods);
      CollectRejectsPcs(buf, d.next, pcs, wds + WdsIn(d.value), pds + PdsIn(d.value), ods + OdsIn(d.value),
                        rest[1..], next);
    }
  }

  /** A segment that fails to decode after inner segments ends the loop with
      that segment's error. */
  lemma {:induction false} CollectFailsAfter(buf: seq<byte>, pos: nat, pcs: Pcs,
                                             wds: seq<Wds>, pds: seq<Pds>, ods: seq<Ods>,
                                             inner: seq<Segment>, next: nat)
    requires pos <= |buf|
    requires forall i :: 0 <= i < |inner| ==> Inner(inner[i])
    requires DecodesTo(buf, pos, inner, next)
    requires DecodeSegment(buf, next).Err?
    ensures var r := CollectSegments(buf, pos, pcs, wds, pds, ods);
            r.Err? && r.error == DecodeSegment(buf, next).error
    decreases |inner|
  {
    if |inner| == 0 {
      assert next == pos;
    } else {
      var d := DecodeSegment(buf, pos).value;
      assert d.value == inner[0] && DecodesTo(buf, d.next, inner[1..], next);
      CollectInnerStep(buf, pos, pcs, wds, pds, ods);
      CollectFailsAfter(buf, d.next, pcs, wds + WdsIn(d.value), pds + PdsIn(d.value), ods + OdsIn(d.value),
                        inner[1..], next);
    }
  }

  /** A segment that fails to decode after the PCS and inner segments fails
      the whole display set with that segment's error. */
  lemma DecodeDisplaySetFailsAfter(buf: seq<byte>, pos: nat, segs: seq<Segment>, next: nat)
    requires |segs| >= 1 && segs[0].PCS?
    requires forall i :: 0 < i < |segs| ==> Inner(segs[i])
    requires DecodesTo(buf, pos, segs, next)
    requires DecodeSegment(buf, next).Err?
    ensures var r := DecodeDisplaySet(buf, pos);
            r.Err? && r.error == DecodeSegment(buf, next).error
  {
    var d := DecodeSegment(buf, pos).value;
    assert d.value == segs[0] && DecodesTo(buf, d.next, segs[1..], next);
    FirstIsPcs(buf, pos);
    CollectFailsAfter(buf, d.next, segs[0].pcs, [], [], [], segs[1..], next);
  }

  /** `decode_display_set` against the segments it reads: a well-ordered list
      assembles into its display set, whatever the interleaving of the inner
      segments, and reading stops right after the END. */
  lemma DecodeDisplaySetOfSegments(buf: seq<byte>, pos: nat, segs: seq<Segment>, next: nat)
    requires WellOrdered(segs)
    requires DecodesTo(buf, pos, segs, next)
    ensures var r := DecodeDisplaySet(buf, pos);
            r.Ok? && r.value.value == Assemble(segs) && r.value.next == next
  {
    var d := DecodeSegment(buf, pos).value;
    TailShape(segs);
    CollectDecoded(buf, d.next, segs[0].pcs, [], [], [], segs[1..], next);
  }

  /** What is left of a list after its first segment. */
  lemma DropFirst(segs: seq<Segment>)
    requires |segs| >= 2
    requires forall i :: 0 < i < |segs| - 1 ==> Inner(segs[i])
    ensures var tail := segs[1..];
            && |tail| >= 1 && tail[|tail| - 1] == segs[|segs| - 1]
            && (forall i :: 0 <= i < |tail| - 1 ==> Inner(tail[i]))
  {
  }

  /** What is left of a well-ordered list after its PCS. */
  lemma TailShape(segs: seq<Segment>)
    requires WellOrdered(segs)
    ensures var tail := segs[1..];
            && |tail| >= 1 && tail[|tail| - 1].END?
            && (forall i :: 0 <= i < |tail| - 1 ==> Inner(tail[i]))
            && tail[..|tail| - 1] == segs[1..|segs| - 1]
            && [] + WdsOf(tail[..|tail| - 1]) == WdsOf(segs[1..|segs| - 1])
            && [] + PdsOf(tail[..|tail| - 1]) == PdsOf(segs[1..|segs| - 1])
            && [] + OdsOf(tail[..|tail| - 1]) == OdsOf(segs[1..|segs| - 1])
  {
    var tail := segs[1..];
    assert tail[..|tail| - 1] == segs[1..|segs| - 1];
  }

  /** A PCS after the first, with only inner segments between, is rejected. */
  lemma DecodeDisplaySetRejectsSecondPcs(buf: seq<byte>, pos: nat, segs: seq<Segment>, next: nat)
    requires |segs| >= 2 && segs[0].PCS? && segs[|segs| - 1].PCS?
    requires forall i :: 0 < i < |segs| - 1 ==> Inner(segs[i])
    requires DecodesTo(buf, pos, segs, next)
    ensures var r := DecodeDisplaySet(buf, pos);
            r.Err? && r.error == Wire.PcsInMiddle
  {
    var d := DecodeSegment(buf, pos).value;
    DropFirst(segs);
    CollectRejectsPcs(buf, d.next, segs[0].pcs, [], [], [], segs[1..], next);
    FirstIsPcs(buf, pos);
  }

  /** Once the first segment is a PCS, the rest is the loop. */
  lemma FirstIsPcs(buf: seq<byte>, pos: nat)
    requires DecodeSegment(buf, pos).Ok? && DecodeSegment(buf, pos).value.value.PCS?
    ensures var d := DecodeSegment(buf, pos).value;
            DecodeDisplaySet(buf, pos) == CollectSegments(buf, d.next, d.value.pcs, [], [], [])
  {
  }
}
