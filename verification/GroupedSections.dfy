/** The chunk-aligned grouped sections of `graph_group.rs`. The loader also
    admits larger aligned offsets with zero padding, so only "the loader undoes
    the writer" holds. */
module GroupedSections {
  import opened Wrappers
  import opened Bytes

  const CHUNK: nat := 65536
  const GROUP_HEADER_BYTES: nat := 16
  const FRAME_HEADER_BYTES: nat := 16

  datatype Width =
    | WidthU16 | WidthU32 | WidthU64 | WidthF32 | WidthTaggedNeighbor | WidthFragmentRef | WidthOverflowChain
  {

    function Code(): u32 {
      match this
      case WidthU16 => 1
      case WidthU32 => 2
      case WidthU64 => 3
      case WidthF32 => 4
      case WidthTaggedNeighbor => 5
      case WidthFragmentRef => 6
      case WidthOverflowChain => 7
    }

    /** Element size, 0 for the variable-width payloads. */
    function Bytes(): nat {
      match this
      case WidthU16 => 2
      case WidthU32 => 4
      case WidthF32 => 4
      case WidthU64 => 8
      case WidthFragmentRef => 16
      case WidthTaggedNeighbor => 0
      case WidthOverflowChain => 0
    }
  }

  datatype Group = Group(elemCount: u64, payload: bytes)

  datatype Frame = Frame(elemCount: u64, offset: nat, length: nat)

  /** The exponent field of a single-precision bit pattern is not all ones. */
  predicate FiniteF32(bits: nat) {
    bits / 0x80_0000 % 256 != 255
  }

  predicate AllFinite(payload: bytes) {
    forall w :: w in Words(payload, 4) ==> FiniteF32(w)
  }

  predicate WidthAgrees(width: Width, elemCount: nat, length: nat) {
    width.Bytes() > 0 ==> length == elemCount * width.Bytes()
  }

  predicate GroupValid(width: Width, g: Group) {
    WidthAgrees(width, g.elemCount, |g.payload|) && (width == WidthF32 ==> AllFinite(g.payload))
  }

  function Total(groups: seq<Group>): nat {
    if groups == [] then 0 else groups[0].elemCount + Total(groups[1..])
  }

  // ----- The writer -----

  /** Header and payload of one group. */
  function FrameBytes(g: Group): bytes
    requires |g.payload| < U64_LIMIT
  {
    Put64(g.elemCount) + Put64(|g.payload|) + g.payload
  }

  function FramesBytes(groups: seq<Group>): (r: seq<bytes>)
    requires forall i :: 0 <= i < |groups| ==> |groups[i].payload| < U64_LIMIT
    ensures |r| == |groups|
    ensures forall i :: 0 <= i < |r| ==>
      && r[i] == FrameBytes(groups[i])
      && |r[i]| == FRAME_HEADER_BYTES + |groups[i].payload|
  {
    seq(|groups|, i requires 0 <= i < |groups| => FrameBytes(groups[i]))
  }

  /** Every frame starts on a chunk boundary. */
  function FrameOffsets(next: nat, groups: seq<Group>): (offsets: seq<nat>)
    ensures |offsets| == |groups|
    ensures forall i :: 0 <= i < |offsets| ==> offsets[i] % CHUNK == 0
    decreases |groups|
  {
    if groups == [] then []
    else
      var offset := AlignUp(next, CHUNK);
      [offset] + FrameOffsets(offset + FRAME_HEADER_BYTES + |groups[0].payload|, groups[1..])
  }

  lemma {:induction false} FramesPlaceable(next: nat, groups: seq<Group>)
    requires forall i :: 0 <= i < |groups| ==> |groups[i].payload| < U64_LIMIT
    ensures Placeable(next, FramesBytes(groups), FrameOffsets(next, groups))
    decreases |groups|
  {
    hide FrameBytes;
    if groups != [] {
      var items, offsets := FramesBytes(groups), FrameOffsets(next, groups);
      var from := offsets[0] + |items[0]|;
      FramesPlaceable(from, groups[1..]);
      assert FramesBytes(groups[1..]) == items[1..];
      assert offsets[1..] == FrameOffsets(from, groups[1..]);
      PlaceableCons(next, items, offsets);
    }
  }

  function DirectoryEnd(count: nat): nat {
    GROUP_HEADER_BYTES + (count + 1) * 8
  }

  /** Length of the whole section: the end of the last frame. */
  function SectionEnd(groups: seq<Group>): nat
    requires forall i :: 0 <= i < |groups| ==> |groups[i].payload| < U64_LIMIT
  {
    GapStart(DirectoryEnd(|groups|), FramesBytes(groups), FrameOffsets(DirectoryEnd(|groups|), groups), |groups|)
  }

  function SectionPrefix(width: Width, groups: seq<Group>, end: nat): (s: bytes)
    requires |groups| < U32_LIMIT && Total(groups) < U64_LIMIT
    ensures |s| == DirectoryEnd(|groups|)
  {
    Put32(|groups|) + Put32(width.Code()) + Put64(Total(groups))
    + PutWords(FrameOffsets(DirectoryEnd(|groups|), groups) + [end], 8)
  }

  predicate Groupable(width: Width, groups: seq<Group>) {
    && |groups| < U32_LIMIT
    && (forall i :: 0 <= i < |groups| ==> |groups[i].payload| < U64_LIMIT && GroupValid(width, groups[i]))
    && Total(groups) < U64_LIMIT
    && SectionEnd(groups) < U64_LIMIT
  }

  function EncodeGroupedSection(width: Width, groups: seq<Group>): Result<bytes> {
    if !Groupable(width, groups) then Err
    else
      FramesPlaceable(DirectoryEnd(|groups|), groups);
      Ok(Place(SectionPrefix(width, groups, SectionEnd(groups)), FramesBytes(groups),
        FrameOffsets(DirectoryEnd(|groups|), groups)))
  }

  // ----- The loader, on the bytes of the section -----

  /** Frame `i` between its directory offset and the next: header, payload, zero padding. */
  function OpenFrame(
    section: bytes, width: Width, directoryEnd: nat, offset: nat, next: nat, last: bool): (r: Result<Frame>)
    ensures r.Ok? ==> r.value.offset + r.value.length <= |section|
  {
    if !(directoryEnd <= offset < next <= |section| && offset % CHUNK == 0) then Err else
    :- Need(offset + FRAME_HEADER_BYTES <= next);
    var elemCount := Get64(section, offset);
    var length := Get64(section, offset + 8);
    var end := offset + FRAME_HEADER_BYTES + length;
    :- Need(if last then end == next else end <= next && AllZero(section[end..next]));
    :- Need(WidthAgrees(width, elemCount, length));
    :- Need(width == WidthF32 ==> AllFinite(section[offset + FRAME_HEADER_BYTES..end]));
    Ok(Frame(elemCount, offset + FRAME_HEADER_BYTES, length))
  }

  function OpenFrames(
    section: bytes, width: Width, directoryEnd: nat, offsets: seq<nat>, i: nat): (r: Result<seq<Frame>>)
    requires i < |offsets|
    ensures r.Ok? ==> |r.value| == |offsets| - 1 - i
    decreases |offsets| - i
  {
    if i + 1 == |offsets| then Ok([])
    else
      var frame :- OpenFrame(section, width, directoryEnd, offsets[i], offsets[i + 1], i + 2 == |offsets|);
      var rest :- OpenFrames(section, width, directoryEnd, offsets, i + 1);
      Ok([frame] + rest)
  }

  function FrameTotal(frames: seq<Frame>): nat {
    if frames == [] then 0 else frames[0].elemCount + FrameTotal(frames[1..])
  }

  function OpenGroupedSection(
    section: bytes, sectionOffset: nat, sectionElemCount: nat, expectedGroups: nat,
    width: Width): (r: Result<seq<Frame>>)
    ensures r.Ok? ==> |r.value| == expectedGroups
  {
    if !(sectionOffset % CHUNK == 0 && GROUP_HEADER_BYTES + 8 <= |section|) then Err else
    :- Need(Get32(section, 0) == expectedGroups && Get32(section, 4) == width.Code());
    var semantic := Get64(section, 8);
    :- Need(sectionElemCount == semantic);
    var directoryEnd := DirectoryEnd(expectedGroups);
    :- Need(directoryEnd <= |section|);
    var offsets := Words(section[GROUP_HEADER_BYTES..directoryEnd], 8);
    assert |offsets| == expectedGroups + 1;
    :- Need(offsets[expectedGroups] == |section|);
    if expectedGroups == 0 then
      :- Need(semantic == 0 && offsets[0] == directoryEnd);
      Ok([])
    else
      :- Need(directoryEnd <= offsets[0] <= |section| && AllZero(section[directoryEnd..offsets[0]]));
      var frames :- OpenFrames(section, width, directoryEnd, offsets, 0);
      :- Need(FrameTotal(frames) == semantic);
      Ok(frames)
  }

  function ReadGroup(section: bytes, f: Frame): Result<bytes> {
    if !(f.offset + f.length <= |section|) then Err else
    Ok(section[f.offset..f.offset + f.length])
  }

  /** All groups of an opened section, element counts and payloads. */
  function ReadGroups(section: bytes, frames: seq<Frame>): (r: Result<seq<Group>>)
    ensures r.Ok? ==> |r.value| == |frames|
  {
    if frames == [] then Ok([])
    else
      var payload :- ReadGroup(section, frames[0]);
      var rest :- ReadGroups(section, frames[1..]);
      Ok([Group(frames[0].elemCount, payload)] + rest)
  }

  function LoadGroups(
    section: bytes, sectionOffset: nat, sectionElemCount: nat, expectedGroups: nat,
    width: Width): (r: Result<seq<Group>>)
    ensures r.Ok? ==> |r.value| == expectedGroups
  {
    var frames :- OpenGroupedSection(section, sectionOffset, sectionElemCount, expectedGroups, width);
    ReadGroups(section, frames)
  }

  // ----- The loader undoes the writer -----

  function FrameOf(offset: nat, g: Group): Frame {
    Frame(g.elemCount, offset + FRAME_HEADER_BYTES, |g.payload|)
  }

  /** A placed frame opens as itself. */
  lemma {:induction false} OpenPlacedFrame(
    section: bytes, width: Width, directoryEnd: nat, offset: nat, next: nat, last: bool, g: Group)
    requires GroupValid(width, g) && |g.payload| < U64_LIMIT
    requires directoryEnd <= offset && offset % CHUNK == 0 && next <= |section|
    requires offset + FRAME_HEADER_BYTES + |g.payload| <= next
    requires section[offset..offset + FRAME_HEADER_BYTES + |g.payload|] == FrameBytes(g)
    requires if last then offset + FRAME_HEADER_BYTES + |g.payload| == next
             else AllZero(section[offset + FRAME_HEADER_BYTES + |g.payload|..next])
    ensures OpenFrame(section, width, directoryEnd, offset, next, last) == Ok(FrameOf(offset, g))
    ensures ReadGroup(section, FrameOf(offset, g)) == Ok(g.payload)
  {
    hide FromLE, AllFinite;
    var f := FrameBytes(g);
    var end := offset + FRAME_HEADER_BYTES + |g.payload|;
    SubSlice(section, offset, end, 0, 8);
    SubSlice(section, offset, end, 8, 16);
    SubSlice(section, offset, end, 16, end - offset);
    assert f[0..8] == Put64(g.elemCount);
    assert f[8..16] == Put64(|g.payload|);
    assert f[16..end - offset] == g.payload;
  }

  /** Frame `i` of a written section as the loader sees it through the directory. */
  predicate PlacedGroup(section: bytes, width: Width, directoryEnd: nat, groups: seq<Group>, offsets: seq<nat>, i: nat)
    requires |offsets| == |groups| + 1 && i < |groups|
  {
    && |groups[i].payload| < U64_LIMIT
    && GroupValid(width, groups[i])
    && directoryEnd <= offsets[i] && offsets[i] % CHUNK == 0
    && offsets[i + 1] <= |section|
    && var end := offsets[i] + FRAME_HEADER_BYTES + |groups[i].payload|;
    && end <= offsets[i + 1]
    && section[offsets[i]..end] == FrameBytes(groups[i])
    && (if i + 1 == |groups| then end == offsets[i + 1] else AllZero(section[end..offsets[i + 1]]))
  }

  /** The opened frames hold the groups: totals and payloads agree. */
  predicate Holds(section: bytes, r: Result<seq<Frame>>, groups: seq<Group>) {
    r.Ok? && FrameTotal(r.value) == Total(groups) && ReadGroups(section, r.value) == Ok(groups)
  }

  lemma {:induction false} HoldsCons(section: bytes, f: Frame, rest: seq<Frame>, g: Group, others: seq<Group>)
    requires f.elemCount == g.elemCount && ReadGroup(section, f) == Ok(g.payload)
    requires Holds(section, Ok(rest), others)
    ensures Holds(section, Ok([f] + rest), [g] + others)
  {
    assert ([f] + rest)[1..] == rest && ([g] + others)[1..] == others;
  }

  lemma {:induction false} OpenPlacedFrames(
    section: bytes, width: Width, directoryEnd: nat, groups: seq<Group>, offsets: seq<nat>, i: nat)
    requires |offsets| == |groups| + 1 && i <= |groups|
    requires forall k :: 0 <= k < |groups| ==> PlacedGroup(section, width, directoryEnd, groups, offsets, k)
    ensures Holds(section, OpenFrames(section, width, directoryEnd, offsets, i), groups[i..])
    decreases |groups| - i
  {
    hide OpenFrame, ReadGroup, ReadGroups, FrameBytes, GroupValid, FrameTotal, Total;
    if i < |groups| {
      assert PlacedGroup(section, width, directoryEnd, groups, offsets, i);
      OpenPlacedFrame(section, width, directoryEnd, offsets[i], offsets[i + 1], i + 2 == |offsets|, groups[i]);
      OpenPlacedFrames(section, width, directoryEnd, groups, offsets, i + 1);
      var rest := OpenFrames(section, width, directoryEnd, offsets, i + 1).value;
      HoldsCons(section, FrameOf(offsets[i], groups[i]), rest, groups[i], groups[i + 1..]);
      assert groups[i..] == [groups[i]] + groups[i + 1..];
    } else {
      EmptyHolds(section);
      assert groups[i..] == [];
    }
  }

  lemma {:induction false} EmptyHolds(section: bytes)
    ensures Holds(section, Ok([]), [])
  {
  }

  /** One placed frame, seen through the directory. */
  lemma {:induction false} FramePlaced(
    section: bytes, width: Width, from: nat, groups: seq<Group>, items: seq<bytes>, starts: seq<nat>, i: nat)
    requires |items| == |starts| == |groups| && i < |groups|
    requires |groups[i].payload| < U64_LIMIT && GroupValid(width, groups[i])
    requires items[i] == FrameBytes(groups[i]) && starts[i] % CHUNK == 0
    requires Placed(section, from, items, starts, i) && from <= starts[i]
    requires if i + 1 < |groups| then Placed(section, from, items, starts, i + 1)
             else |section| == starts[i] + |items[i]|
    ensures PlacedGroup(section, width, from, groups, starts + [|section|], i)
  {
    var offsets := starts + [|section|];
    assert offsets[i] == starts[i];
    if i + 1 < |groups| {
      assert offsets[i + 1] == starts[i + 1];
      assert GapStart(from, items, starts, i + 1) == starts[i] + |items[i]|;
    } else {
      assert offsets[i + 1] == |section|;
    }
  }

  /** Every frame of a laid-out section, and the fill before the first. */
  lemma {:induction false} FramesPlaced(
    section: bytes, width: Width, prefix: bytes, groups: seq<Group>, items: seq<bytes>, starts: seq<nat>)
    requires |items| == |starts| == |groups| > 0
    requires forall i :: 0 <= i < |groups| ==>
      && |groups[i].payload| < U64_LIMIT && GroupValid(width, groups[i])
      && items[i] == FrameBytes(groups[i]) && starts[i] % CHUNK == 0
    requires Placeable(|prefix|, items, starts) && section == Place(prefix, items, starts)
    ensures forall i :: 0 <= i < |groups| ==> PlacedGroup(section, width, |prefix|, groups, starts + [|section|], i)
    ensures |prefix| <= starts[0] <= |section| && AllZero(section[|prefix|..starts[0]])
  {
    hide FrameBytes, GroupValid, Place;
    PlaceReads(prefix, items, starts, 0, section);
    forall i | 0 <= i < |groups| ensures PlacedGroup(section, width, |prefix|, groups, starts + [|section|], i) {
      PlaceReads(prefix, items, starts, i, section);
      FrameFloor(|prefix|, items, starts, i);
      if i + 1 < |groups| {
        PlaceReads(prefix, items, starts, i + 1, section);
      }
      FramePlaced(section, width, |prefix|, groups, items, starts, i);
    }
  }

  lemma {:induction false} FrameFloor(from: nat, items: seq<bytes>, offsets: seq<nat>, i: nat)
    requires Placeable(from, items, offsets) && i < |items|
    ensures from <= offsets[i]
    decreases i
  {
    assert GapStart(from, items, offsets, i) <= offsets[i];
    if i > 0 {
      FrameFloor(from, items, offsets, i - 1);
    }
  }

  /** The fixed fields and the directory read back from the front of the section. */
  lemma {:induction false} PrefixReads(section: bytes, count: u32, code: u32, total: u64, offsets: seq<nat>)
    requires |offsets| == count + 1
    requires forall i :: 0 <= i < |offsets| ==> offsets[i] < U64_LIMIT
    requires Put32(count) + Put32(code) + Put64(total) + PutWords(offsets, 8) <= section
    ensures DirectoryEnd(count) <= |section|
    ensures Get32(section, 0) == count && Get32(section, 4) == code && Get64(section, 8) == total
    ensures Words(section[GROUP_HEADER_BYTES..DirectoryEnd(count)], 8) == offsets
  {
    var table := PutWords(offsets, 8);
    var prefix := Put32(count) + Put32(code) + Put64(total) + table;
    assert section[..|prefix|] == prefix;
    assert section[0..4] == Put32(count);
    assert section[4..8] == Put32(code);
    assert section[8..16] == Put64(total);
    assert section[16..DirectoryEnd(count)] == table;
    PowValues();
    WordsRoundTrip(offsets, 8);
  }

  lemma {:induction false} OffsetsBounded(section: bytes, prefix: bytes, items: seq<bytes>, starts: seq<nat>)
    requires Placeable(|prefix|, items, starts) && section == Place(prefix, items, starts)
    ensures forall i :: 0 <= i < |starts| ==> starts[i] <= |section|
  {
    forall i | 0 <= i < |starts| ensures starts[i] <= |section| {
      PlaceReads(prefix, items, starts, i, section);
    }
  }

  lemma {:induction false} LoadsOnce(
    section: bytes, width: Width, groups: seq<Group>, offsets: seq<nat>, sectionOffset: nat)
    requires sectionOffset % CHUNK == 0 && DirectoryEnd(|groups|) <= |section|
    requires |offsets| == |groups| + 1 && offsets[|groups|] == |section|
    requires Get32(section, 0) == |groups| && Get32(section, 4) == width.Code() && Get64(section, 8) == Total(groups)
    requires Words(section[GROUP_HEADER_BYTES..DirectoryEnd(|groups|)], 8) == offsets
    requires groups == [] ==> |section| == DirectoryEnd(0)
    requires groups != [] ==>
      && DirectoryEnd(|groups|) <= offsets[0] <= |section| && AllZero(section[DirectoryEnd(|groups|)..offsets[0]])
      && Holds(section, OpenFrames(section, width, DirectoryEnd(|groups|), offsets, 0), groups)
    ensures LoadGroups(section, sectionOffset, Total(groups), |groups|, width) == Ok(groups)
  {
  }

  /** A section laid out from a readable prefix and placed frames loads as its groups. */
  lemma {:induction false} LaidOutLoads(
    width: Width, groups: seq<Group>, prefix: bytes, items: seq<bytes>, starts: seq<nat>, section: bytes,
    sectionOffset: nat)
    requires sectionOffset % CHUNK == 0
    requires |groups| < U32_LIMIT && Total(groups) < U64_LIMIT && |section| < U64_LIMIT
    requires |items| == |starts| == |groups|
    requires forall i :: 0 <= i < |groups| ==>
      && |groups[i].payload| < U64_LIMIT && GroupValid(width, groups[i])
      && items[i] == FrameBytes(groups[i]) && starts[i] % CHUNK == 0
    requires Placeable(|prefix|, items, starts) && section == Place(prefix, items, starts)
    requires prefix == Put32(|groups|) + Put32(width.Code()) + Put64(Total(groups)) + PutWords(starts + [|section|], 8)
    ensures LoadGroups(section, sectionOffset, Total(groups), |groups|, width) == Ok(groups)
    ensures |section| >= 24
  {
    PlaceKeepsPrefix(prefix, items, starts);
    OffsetsBounded(section, prefix, items, starts);
    var offsets := starts + [|section|];
    PrefixReads(section, |groups|, width.Code(), Total(groups), offsets);
    var from := DirectoryEnd(|groups|);
    assert |prefix| == from;
    if groups == [] {
      assert section == prefix;
    } else {
      FramesPlaced(section, width, prefix, groups, items, starts);
      OpenPlacedFrames(section, width, from, groups, offsets, 0);
      assert groups[0..] == groups;
      assert from <= offsets[0] <= |section| && AllZero(section[from..offsets[0]]);
      assert Holds(section, OpenFrames(section, width, from, offsets, 0), groups);
    }
    LoadsOnce(section, width, groups, offsets, sectionOffset);
  }

  /** Loading a written section returns the groups, element counts and payloads, in order. */
  lemma {:induction false} GroupedSectionRoundTrip(width: Width, groups: seq<Group>, section: bytes, sectionOffset: nat)
    requires EncodeGroupedSection(width, groups) == Ok(section)
    requires sectionOffset % CHUNK == 0
    ensures LoadGroups(section, sectionOffset, Total(groups), |groups|, width) == Ok(groups)
    ensures |section| >= 24
  {
    var from := DirectoryEnd(|groups|);
    FramesPlaceable(from, groups);
    LaidOutLoads(width, groups, SectionPrefix(width, groups, SectionEnd(groups)), FramesBytes(groups),
      FrameOffsets(from, groups),
      section, sectionOffset);
  }
}
