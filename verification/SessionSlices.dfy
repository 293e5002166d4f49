/** A recording's blocks in a transcript: its slice, splicing it into another transcript and removing it
    (crates/vt-store/src/transcript_projection.rs:277-362, 402-458; crates/vt-ffi/src/session_move.rs:183-207, 297-309). */
module SessionSlices {
  import opened Prelude

  /** A machine's captured block, a user's annotation, or a block of any other owner. */
  datatype Owner = Capture(session: string) | User | Foreign(name: string)

  datatype Block = Block(id: string, owner: Owner, text: string, lanes: map<string, string>)

  type Blocks = seq<Block>

  // ----- whose slice a block belongs to

  /** The session whose slice a block continues: annotations belong to the capture block before them. */
  function NextOwner(current: Option<string>, block: Block): Option<string> {
    match block.owner
    case Capture(session) => Some(session)
    case User => current
    case Foreign(_) => None
  }

  function OwnerAfter(items: Blocks, current: Option<string>): Option<string> {
    if items == [] then current else NextOwner(OwnerAfter(items[..|items| - 1], current), items[|items| - 1])
  }

  /** The session's blocks, with the annotations that follow them. */
  function SliceOf(items: Blocks, session: string, current: Option<string>): Blocks {
    if items == [] then []
    else
      var last := if OwnerAfter(items, current) == Some(session) then [items[|items| - 1]] else [];
      SliceOf(items[..|items| - 1], session, current) + last
  }

  function RestOf(items: Blocks, session: string, current: Option<string>): Blocks {
    if items == [] then []
    else
      var last := if OwnerAfter(items, current) == Some(session) then [] else [items[|items| - 1]];
      RestOf(items[..|items| - 1], session, current) + last
  }

  lemma {:induction false} OwnerConcat(a: Blocks, b: Blocks, current: Option<string>)
    ensures OwnerAfter(a + b, current) == OwnerAfter(b, OwnerAfter(a, current))
  {
    if b == [] {
      assert a + b == a;
    } else {
      OwnerConcat(a, b[..|b| - 1], current);
      assert (a + b)[..|a + b| - 1] == a + b[..|b| - 1];
    }
  }

  lemma {:induction false} SliceConcat(a: Blocks, b: Blocks, session: string, current: Option<string>)
    ensures SliceOf(a + b, session, current) == SliceOf(a, session, current) + SliceOf(b, session, OwnerAfter(a, current))
  {
    if b == [] {
      assert a + b == a;
    } else {
      SliceConcat(a, b[..|b| - 1], session, current);
      OwnerConcat(a, b, current);
      assert (a + b)[..|a + b| - 1] == a + b[..|b| - 1];
    }
  }

  lemma {:induction false} RestConcat(a: Blocks, b: Blocks, session: string, current: Option<string>)
    ensures RestOf(a + b, session, current) == RestOf(a, session, current) + RestOf(b, session, OwnerAfter(a, current))
  {
    if b == [] {
      assert a + b == a;
    } else {
      RestConcat(a, b[..|b| - 1], session, current);
      OwnerConcat(a, b, current);
      assert (a + b)[..|a + b| - 1] == a + b[..|b| - 1];
    }
  }

  /** The blocks begin with one that is not an annotation, so nothing before them matters. */
  predicate Opens(items: Blocks) {
    items == [] || !items[0].owner.User?
  }

  lemma {:induction false} OpeningForgets(items: Blocks, session: string, current: Option<string>)
    requires Opens(items)
    ensures SliceOf(items, session, current) == SliceOf(items, session, None)
    ensures RestOf(items, session, current) == RestOf(items, session, None)
    ensures items != [] ==> OwnerAfter(items, current) == OwnerAfter(items, None)
  {
    if items != [] {
      OpeningForgets(items[..|items| - 1], session, current);
    }
  }

  // ----- the slice's place

  datatype Range = Range(start: nat, end: nat)

  predicate OwnedBy(block: Block, session: string) {
    block.owner == Capture(session)
  }

  predicate Belongs(block: Block, session: string) {
    OwnedBy(block, session) || block.owner.User?
  }

  /** The session's first capture block up to the next block that is not an annotation, with all of its capture
      blocks and nobody else's. */
  ghost predicate IsSliceRange(items: Blocks, session: string, range: Range) {
    && range.start < range.end <= |items|
    && OwnedBy(items[range.start], session)
    && (forall p | 0 <= p < |items| && OwnedBy(items[p], session) :: range.start <= p < range.end)
    && (forall p | range.start <= p < range.end :: Belongs(items[p], session))
    && Opens(items[range.end..])
  }

  /** Another owner's block stands between two of the session's. */
  ghost predicate IsInterleaved(items: Blocks, session: string) {
    exists a, b, c :: IsInterruption(items, session, a, b, c)
  }

  ghost predicate IsInterruption(items: Blocks, session: string, a: int, b: int, c: int) {
    0 <= a < b < c < |items| && OwnedBy(items[a], session) && !Belongs(items[b], session) && OwnedBy(items[c], session)
  }

  datatype SliceRange = NoSlice | Slice(range: Range) | Interleaved

  method SessionSliceRange(items: Blocks, session: string) returns (r: SliceRange)
    ensures r.NoSlice? <==> forall p | 0 <= p < |items| :: !OwnedBy(items[p], session)
    ensures r.Slice? ==> IsSliceRange(items, session, r.range)
    ensures r.Interleaved? <==> IsInterleaved(items, session)
  {
    var start := 0;
    while start < |items| && !OwnedBy(items[start], session)
      invariant start <= |items| && forall p | 0 <= p < start :: !OwnedBy(items[p], session)
    {
      start := start + 1;
    }
    if start == |items| {
      return NoSlice;
    }
    var lastCapture := start;
    for i := start to |items|
      invariant start <= lastCapture < |items| && OwnedBy(items[lastCapture], session) && (i > start ==> lastCapture < i)
      invariant forall p | lastCapture < p < i :: !OwnedBy(items[p], session)
    {
      if OwnedBy(items[i], session) {
        lastCapture := i;
      }
    }
    for i := start to lastCapture + 1
      invariant forall p | start <= p < i :: Belongs(items[p], session)
    {
      if !OwnedBy(items[i], session) && !items[i].owner.User? {
        assert IsInterruption(items, session, start, i, lastCapture);
        return Interleaved;
      }
    }
    var end := lastCapture;
    while end + 1 < |items| && items[end + 1].owner.User?
      invariant lastCapture <= end < |items| && forall p | start <= p <= end :: Belongs(items[p], session)
    {
      end := end + 1;
    }
    assert end + 1 < |items| ==> items[end + 1..][0] == items[end + 1];
    r := Slice(Range(start, end + 1));
  }

  lemma {:induction false} BelongingIsSlice(items: Blocks, session: string, current: Option<string>)
    requires forall p | 0 <= p < |items| :: Belongs(items[p], session)
    requires current == Some(session) || (items != [] && OwnedBy(items[0], session)) || items == []
    ensures SliceOf(items, session, current) == items && RestOf(items, session, current) == []
    ensures items != [] ==> OwnerAfter(items, current) == Some(session)
  {
    if items != [] {
      var front, last := items[..|items| - 1], items[|items| - 1];
      BelongingIsSlice(front, session, current);
      assert items == front + [last] && Belongs(last, session);
      assert OwnerAfter(items, current) == Some(session) by {
        if front == [] {
          assert items[0] == last;
        }
      }
    }
  }

  ghost predicate AreStrangers(items: Blocks, session: string, current: Option<string>) {
    && (forall p | 0 <= p < |items| :: !OwnedBy(items[p], session))
    && (current != Some(session) || Opens(items))
  }

  lemma {:induction false} StrangersOwner(items: Blocks, session: string, current: Option<string>)
    requires AreStrangers(items, session, current)
    ensures items != [] || current != Some(session) ==> OwnerAfter(items, current) != Some(session)
  {
    if items != [] {
      assert !OwnedBy(items[|items| - 1], session);
      if |items| > 1 {
        assert items[..|items| - 1][0] == items[0];
        StrangersOwner(items[..|items| - 1], session, current);
      }
    }
  }

  lemma {:induction false} StrangersHaveNoSlice(items: Blocks, session: string, current: Option<string>)
    requires AreStrangers(items, session, current)
    ensures SliceOf(items, session, current) == []
  {
    if items != [] {
      StrangersOwner(items, session, current);
      assert AreStrangers(items[..|items| - 1], session, current);
      StrangersHaveNoSlice(items[..|items| - 1], session, current);
    }
  }

  lemma {:induction false} StrangersStay(items: Blocks, session: string, current: Option<string>)
    requires AreStrangers(items, session, current)
    ensures RestOf(items, session, current) == items
  {
    if items != [] {
      StrangersOwner(items, session, current);
      assert AreStrangers(items[..|items| - 1], session, current);
      StrangersStay(items[..|items| - 1], session, current);
      assert items == items[..|items| - 1] + [items[|items| - 1]];
    }
  }

  lemma StrangersAreRest(items: Blocks, session: string, current: Option<string>)
    requires forall p | 0 <= p < |items| :: !OwnedBy(items[p], session)
    requires current != Some(session) || Opens(items)
    ensures SliceOf(items, session, current) == [] && RestOf(items, session, current) == items
    ensures items != [] || current != Some(session) ==> OwnerAfter(items, current) != Some(session)
  {
    assert AreStrangers(items, session, current);
    StrangersOwner(items, session, current);
    StrangersHaveNoSlice(items, session, current);
    StrangersStay(items, session, current);
  }

  /** Cutting out a range leaves the blocks before and after it. */
  function Without(items: Blocks, range: Range): Blocks
    requires range.start <= range.end <= |items|
  {
    items[..range.start] + items[range.end..]
  }

  /** The session's blocks between two stretches of strangers, the second of which opens anew. */
  lemma SliceOfThree(before: Blocks, own: Blocks, after: Blocks, session: string)
    requires forall p | 0 <= p < |before| :: !OwnedBy(before[p], session)
    requires own != [] && OwnedBy(own[0], session) && forall p | 0 <= p < |own| :: Belongs(own[p], session)
    requires Opens(after) && forall p | 0 <= p < |after| :: !OwnedBy(after[p], session)
    ensures SliceOf(before + own + after, session, None) == own
  {
    calc {
      SliceOf(before + own + after, session, None);
    == { SliceConcat(before + own, after, session, None); }
      SliceOf(before + own, session, None) + SliceOf(after, session, OwnerAfter(before + own, None));
    == { StrangersAreRest(after, session, OwnerAfter(before + own, None)); }
      SliceOf(before + own, session, None) + [];
    == { SliceConcat(before, own, session, None); }
      SliceOf(before, session, None) + SliceOf(own, session, OwnerAfter(before, None)) + [];
    == { StrangersAreRest(before, session, None); BelongingIsSlice(own, session, OwnerAfter(before, None)); }
      [] + own + [];
    ==
      own;
    }
  }

  lemma RestOfThree(before: Blocks, own: Blocks, after: Blocks, session: string)
    requires forall p | 0 <= p < |before| :: !OwnedBy(before[p], session)
    requires own != [] && OwnedBy(own[0], session) && forall p | 0 <= p < |own| :: Belongs(own[p], session)
    requires Opens(after) && forall p | 0 <= p < |after| :: !OwnedBy(after[p], session)
    ensures RestOf(before + own + after, session, None) == before + after
  {
    calc {
      RestOf(before + own + after, session, None);
    == { RestConcat(before + own, after, session, None); }
      RestOf(before + own, session, None) + RestOf(after, session, OwnerAfter(before + own, None));
    == { StrangersAreRest(after, session, OwnerAfter(before + own, None)); }
      RestOf(before + own, session, None) + after;
    == { RestConcat(before, own, session, None); }
      RestOf(before, session, None) + RestOf(own, session, OwnerAfter(before, None)) + after;
    == { StrangersAreRest(before, session, None); BelongingIsSlice(own, session, OwnerAfter(before, None)); }
      before + [] + after;
    ==
      before + after;
    }
  }

  /** A slice's range holds exactly the session's blocks, and cutting it out leaves exactly the rest. */
  lemma RangeIsSlice(items: Blocks, session: string, range: Range)
    requires IsSliceRange(items, session, range)
    ensures SliceOf(items, session, None) == items[range.start..range.end]
    ensures RestOf(items, session, None) == Without(items, range)
  {
    var before, own, after := items[..range.start], items[range.start..range.end], items[range.end..];
    assert items == before + own + after;
    SliceOfThree(before, own, after, session);
    RestOfThree(before, own, after, session);
  }

  lemma NoRangeIsNoSlice(items: Blocks, session: string)
    requires forall p | 0 <= p < |items| :: !OwnedBy(items[p], session)
    ensures SliceOf(items, session, None) == [] && RestOf(items, session, None) == items
  {
    StrangersAreRest(items, session, None);
  }

  // ----- the operations

  const SUPPORTED_LANES := {"en", "th", "ja", "ko", "fr", "es", "de", "zh"}

  predicate HasId(items: Blocks, id: string) {
    exists p | 0 <= p < |items| :: items[p].id == id
  }

  /** The slice's blocks put in from `cursor` on, passing over those already there. */
  function Spliced(items: Blocks, cursor: nat, blocks: Blocks): Blocks
    requires cursor <= |items|
    decreases |blocks|
  {
    if blocks == [] then items
    else if HasId(items, blocks[0].id) then Spliced(items, cursor, blocks[1..])
    else Spliced(items[..cursor] + [blocks[0]] + items[cursor..], cursor + 1, blocks[1..])
  }

  function IdIndex(items: Blocks, id: string): (p: nat)
    ensures p <= |items| && (p < |items| <==> HasId(items, id))
    ensures p < |items| ==> items[p].id == id && forall q | 0 <= q < p :: items[q].id != id
  {
    if items == [] then 0
    else if items[0].id == id then 0
    else
      var rest := IdIndex(items[1..], id);
      assert forall q | 1 <= q < |items| :: items[q] == items[1..][q - 1];
      rest + 1
  }

  /** The first block captured for a listed session, or the end of the transcript. */
  function AnchorIndex(items: Blocks, later: seq<string>): (p: nat)
    ensures p <= |items| && (p < |items| ==> items[p].owner.Capture? && items[p].owner.session in later)
    ensures forall q | 0 <= q < p :: !(items[q].owner.Capture? && items[q].owner.session in later)
  {
    if items == [] then 0
    else if items[0].owner.Capture? && items[0].owner.session in later then 0
    else
      assert forall q | 1 <= q < |items| :: items[q] == items[1..][q - 1];
      1 + AnchorIndex(items[1..], later)
  }

  predicate AreWellFormed(blocks: Blocks) {
    forall p | 0 <= p < |blocks| :: blocks[p].id != "" && blocks[p].lanes.Keys <= SUPPORTED_LANES
  }

  /** A transcript kept as blocks. */
  class Transcript {
    var items: Blocks

    constructor (blocks: Blocks)
      ensures items == blocks
    {
      items := blocks;
    }

    method SessionSlice(session: string) returns (slice: Option<Blocks>)
      ensures slice.None? <==> IsInterleaved(items, session)
      ensures slice.Some? ==> slice.value == SliceOf(items, session, None)
    {
      var r := SessionSliceRange(items, session);
      match r {
        case NoSlice =>
          NoRangeIsNoSlice(items, session);
          slice := Some([]);
        case Slice(range) =>
          RangeIsSlice(items, session, range);
          SlicedIsWhole(items, session);
          slice := Some(items[range.start..range.end]);
        case Interleaved =>
          slice := None;
      }
    }

    method SpliceSessionSlice(blocks: Blocks, before: Option<string>) returns (inserted: Option<nat>)
      modifies this
      ensures inserted.Some? <==> AreWellFormed(blocks) && (before.Some? ==> HasId(old(items), before.value))
      ensures inserted.None? ==> items == old(items)
      ensures inserted.Some? ==>
        && items == Spliced(old(items), if before.Some? then IdIndex(old(items), before.value) else |old(items)|, blocks)
        && |items| == |old(items)| + inserted.value
    {
      for i := 0 to |blocks|
        invariant items == old(items)
        invariant forall p | 0 <= p < i :: blocks[p].id != "" && blocks[p].lanes.Keys <= SUPPORTED_LANES
      {
        if blocks[i].id == "" || !(blocks[i].lanes.Keys <= SUPPORTED_LANES) {
          return None;
        }
      }
      if before.Some? && !HasId(items, before.value) {
        return None;
      }
      var cursor: nat := if before.Some? then IdIndex(items, before.value) else |items|;
      ghost var start: nat := cursor;
      var count: nat := 0;
      assert blocks[0..] == blocks;
      for i := 0 to |blocks|
        invariant cursor <= |items| && |items| == |old(items)| + count
        invariant Spliced(items, cursor, blocks[i..]) == Spliced(old(items), start, blocks)
      {
        assert blocks[i..][0] == blocks[i] && blocks[i..][1..] == blocks[i + 1..];
        if !HasId(items, blocks[i].id) {
          items := items[..cursor] + [blocks[i]] + items[cursor..];
          cursor := cursor + 1;
          count := count + 1;
        }
      }
      inserted := Some(count);
    }

    method RemoveSessionSlice(session: string) returns (removed: Option<nat>)
      modifies this
      ensures removed.None? <==> IsInterleaved(old(items), session)
      ensures items == if removed.Some? then RestOf(old(items), session, None) else old(items)
    {
      var r := SessionSliceRange(items, session);
      match r {
        case NoSlice =>
          NoRangeIsNoSlice(items, session);
          removed := Some(0);
        case Slice(range) =>
          RangeIsSlice(items, session, range);
          SlicedIsWhole(items, session);
          removed := Some(range.end - range.start);
          items := items[..range.start] + items[range.end..];
        case Interleaved =>
          removed := None;
      }
    }
  }

  lemma SlicedIsWhole(items: Blocks, session: string)
    requires exists range :: IsSliceRange(items, session, range)
    ensures !IsInterleaved(items, session)
  {
    var range :| IsSliceRange(items, session, range);
    forall a, b, c
      ensures !IsInterruption(items, session, a, b, c)
    {
    }
  }

  method FirstLaterCaptureBlock(items: Blocks, later: seq<string>) returns (id: Option<string>)
    ensures id.None? <==> AnchorIndex(items, later) == |items|
    ensures id.Some? ==> id.value == items[AnchorIndex(items, later)].id
  {
    for i := 0 to |items|
      invariant forall q | 0 <= q < i :: !(items[q].owner.Capture? && items[q].owner.session in later)
    {
      if items[i].owner.Capture? && items[i].owner.session in later {
        assert AnchorIndex(items, later) == i;
        return Some(items[i].id);
      }
    }
    id := None;
  }

  /** Where the slice goes: before the first block with the anchor's id. */
  function InsertAt(items: Blocks, later: seq<string>): (p: nat)
    ensures p <= |items| && (DistinctIds(items) ==> p == AnchorIndex(items, later))
  {
    var anchor := AnchorIndex(items, later);
    if anchor == |items| then anchor
    else
      assert items[anchor].id == items[IdIndex(items, items[anchor].id)].id;
      IdIndex(items, items[anchor].id)
  }

  /** The target after the copy: nothing happens when the source has no slice. */
  function Copied(target: Blocks, source: Blocks, session: string, later: seq<string>): Blocks {
    Spliced(target, InsertAt(target, later), SliceOf(source, session, None))
  }

  /** The whole copy of a slice, or nothing when it cannot be told apart or is malformed. */
  method CopyTranscriptSlice(source: Transcript, target: Transcript, session: string, later: seq<string>) returns (ok: bool)
    requires source != target
    modifies target
    ensures ok <==> !IsInterleaved(source.items, session) && AreWellFormed(SliceOf(source.items, session, None))
    ensures target.items == if ok then Copied(old(target.items), source.items, session, later) else old(target.items)
  {
    var slice := source.SessionSlice(session);
    if slice.None? {
      return false;
    }
    if slice.value == [] {
      return true;
    }
    var anchor := FirstLaterCaptureBlock(target.items, later);
    var inserted := target.SpliceSessionSlice(slice.value, anchor);
    ok := inserted.Some?;
  }

  // ----- what keeps a set of transcripts sound

  ghost predicate DistinctIds(items: Blocks) {
    forall i, j | 0 <= i < j < |items| :: items[i].id != items[j].id
  }

  /** Each block's id tells whose slice it is in: `home` is that assignment, the same for every transcript. */
  ghost predicate IsHoused(items: Blocks, current: Option<string>, home: string -> Option<string>) {
    items == [] || (
      && IsHoused(items[..|items| - 1], current, home)
      && home(items[|items| - 1].id) == OwnerAfter(items, current))
  }

  ghost predicate IsTidy(items: Blocks) {
    forall session: string :: !IsInterleaved(items, session)
  }

  ghost predicate IsSound(items: Blocks, home: string -> Option<string>) {
    DistinctIds(items) && IsHoused(items, None, home) && IsTidy(items)
  }

  lemma {:induction false} HousedConcat(a: Blocks, b: Blocks, current: Option<string>, home: string -> Option<string>)
    ensures IsHoused(a + b, current, home) <==> IsHoused(a, current, home) && IsHoused(b, OwnerAfter(a, current), home)
  {
    if b == [] {
      assert a + b == a;
    } else {
      HousedConcat(a, b[..|b| - 1], current, home);
      OwnerConcat(a, b, current);
      assert (a + b)[..|a + b| - 1] == a + b[..|b| - 1];
    }
  }

  lemma {:induction false} HousedForgets(items: Blocks, current: Option<string>, home: string -> Option<string>)
    requires Opens(items)
    ensures IsHoused(items, current, home) <==> IsHoused(items, None, home)
  {
    if items != [] {
      HousedForgets(items[..|items| - 1], current, home);
      OpeningForgets(items, "", current);
    }
  }

  /** The blocks of a slice, and only they, have the session as their home. */
  lemma {:induction false} SliceIsAtHome(items: Blocks, session: string, home: string -> Option<string>)
    requires IsHoused(items, None, home)
    ensures forall b | b in SliceOf(items, session, None) :: b in items && home(b.id) == Some(session) && Belongs(b, session)
    ensures SliceOf(items, session, None) == [] <==> forall b | b in items :: home(b.id) != Some(session)
    ensures SliceOf(items, session, None) != [] ==> OwnedBy(SliceOf(items, session, None)[0], session)
    ensures OwnerAfter(items, None) == Some(session) ==> SliceOf(items, session, None) != []
  {
    if items != [] {
      var front, last := items[..|items| - 1], items[|items| - 1];
      SliceIsAtHome(front, session, home);
      assert items == front + [last];
    }
  }

  lemma {:induction false} SliceIdsAreDistinct(items: Blocks, session: string, home: string -> Option<string>)
    requires DistinctIds(items) && IsHoused(items, None, home)
    ensures DistinctIds(SliceOf(items, session, None))
  {
    if items != [] {
      var front, last := items[..|items| - 1], items[|items| - 1];
      SliceIdsAreDistinct(front, session, home);
      SliceIsAtHome(front, session, home);
      var slice := SliceOf(front, session, None);
      forall i | 0 <= i < |slice|
        ensures slice[i].id != last.id
      {
        assert slice[i] in slice;
      }
    }
  }

  // ----- what a splice puts in

  /** The blocks whose ids the transcript lacks, in their order. */
  function Missing(items: Blocks, blocks: Blocks): Blocks {
    if blocks == [] then []
    else if HasId(items, blocks[0].id) then Missing(items, blocks[1..])
    else [blocks[0]] + Missing(items, blocks[1..])
  }

  lemma {:induction false} MissingIsLacked(items: Blocks, blocks: Blocks, b: Block)
    ensures b in Missing(items, blocks) <==> b in blocks && !HasId(items, b.id)
  {
    if blocks != [] {
      MissingIsLacked(items, blocks[1..], b);
      assert b in blocks <==> b == blocks[0] || b in blocks[1..];
    }
  }

  lemma {:induction false} NothingMissing(items: Blocks, blocks: Blocks)
    requires forall b | b in blocks :: HasId(items, b.id)
    ensures Missing(items, blocks) == []
  {
    if blocks != [] {
      assert blocks[0] in blocks;
      NothingMissing(items, blocks[1..]);
    }
  }

  lemma Associate(a: Blocks, b: Blocks, c: Blocks)
    ensures a + b + c == a + (b + c)
  {
  }

  lemma {:induction false} MissingConcat(items: Blocks, a: Blocks, b: Blocks)
    ensures Missing(items, a + b) == Missing(items, a) + Missing(items, b)
  {
    if a == [] {
      assert a + b == b;
    } else {
      var head, rest := a[0], a[1..];
      MissingConcat(items, rest, b);
      assert (a + b)[0] == head && (a + b)[1..] == rest + b;
      Associate([head], Missing(items, rest), Missing(items, b));
    }
  }

  lemma {:induction false} AllMissing(items: Blocks, blocks: Blocks)
    requires forall b | b in blocks :: !HasId(items, b.id)
    ensures Missing(items, blocks) == blocks
  {
    if blocks != [] {
      assert blocks[0] in blocks;
      AllMissing(items, blocks[1..]);
    }
  }

  /** A block put in leaves the same others missing. */
  lemma {:induction false} MissingAfter(items: Blocks, more: Blocks, blocks: Blocks)
    requires forall b | b in blocks :: HasId(items, b.id) <==> HasId(more, b.id)
    ensures Missing(items, blocks) == Missing(more, blocks)
  {
    if blocks != [] {
      assert blocks[0] in blocks;
      MissingAfter(items, more, blocks[1..]);
    }
  }

  lemma {:induction false} MissingIsDistinct(items: Blocks, blocks: Blocks)
    requires DistinctIds(blocks)
    ensures DistinctIds(Missing(items, blocks))
  {
    if blocks != [] {
      MissingIsDistinct(items, blocks[1..]);
      var rest := Missing(items, blocks[1..]);
      forall j | 0 <= j < |rest|
        ensures rest[j].id != blocks[0].id
      {
        MissingIsLacked(items, blocks[1..], rest[j]);
        var i :| 0 <= i < |blocks[1..]| && blocks[1..][i] == rest[j];
        assert blocks[i + 1] == rest[j];
      }
    }
  }

  lemma InsertHasId(items: Blocks, cursor: nat, block: Block, id: string)
    requires cursor <= |items|
    ensures HasId(items[..cursor] + [block] + items[cursor..], id) <==> HasId(items, id) || block.id == id
  {
    var more := items[..cursor] + [block] + items[cursor..];
    if p :| 0 <= p < |items| && items[p].id == id {
      assert more[if p < cursor then p else p + 1] == items[p];
    }
    assert more[cursor] == block;
    if p :| 0 <= p < |more| && more[p].id == id {
      assert more[p] == if p < cursor then items[p] else if p == cursor then block else items[p - 1];
    }
  }

  /** One block put in ahead of the rest of a splice. */
  lemma SpliceOne(items: Blocks, cursor: nat, b: Block, rest: Blocks)
    requires cursor <= |items|
    ensures var more := items[..cursor] + [b] + items[cursor..];
      more[..cursor + 1] + rest + more[cursor + 1..] == items[..cursor] + ([b] + rest) + items[cursor..]
  {
    var more := items[..cursor] + [b] + items[cursor..];
    assert more[..cursor + 1] == items[..cursor] + [b] && more[cursor + 1..] == items[cursor..];
  }

  lemma SameMissing(items: Blocks, cursor: nat, blocks: Blocks)
    requires cursor <= |items| && DistinctIds(blocks) && blocks != []
    ensures Missing(items[..cursor] + [blocks[0]] + items[cursor..], blocks[1..]) == Missing(items, blocks[1..])
  {
    var more, rest := items[..cursor] + [blocks[0]] + items[cursor..], blocks[1..];
    forall c | c in rest
      ensures HasId(items, c.id) <==> HasId(more, c.id)
    {
      var i :| 0 <= i < |rest| && rest[i] == c;
      assert c == blocks[i + 1];
      InsertHasId(items, cursor, blocks[0], c.id);
    }
    MissingAfter(items, more, rest);
  }

  /** The splice puts the missing blocks in, together and in order, and no others. */
  lemma {:induction false} SplicedIsMissing(items: Blocks, cursor: nat, blocks: Blocks)
    requires cursor <= |items| && DistinctIds(blocks)
    ensures Spliced(items, cursor, blocks) == items[..cursor] + Missing(items, blocks) + items[cursor..]
    decreases |blocks|
  {
    if blocks == [] {
      assert items == items[..cursor] + [] + items[cursor..];
    } else if HasId(items, blocks[0].id) {
      SplicedIsMissing(items, cursor, blocks[1..]);
    } else {
      var more := items[..cursor] + [blocks[0]] + items[cursor..];
      SplicedIsMissing(more, cursor + 1, blocks[1..]);
      SameMissing(items, cursor, blocks);
      SpliceOne(items, cursor, blocks[0], Missing(items, blocks[1..]));
    }
  }

  lemma SpliceNew(items: Blocks, cursor: nat, blocks: Blocks)
    requires cursor <= |items| && DistinctIds(blocks) && forall b | b in blocks :: !HasId(items, b.id)
    ensures Spliced(items, cursor, blocks) == items[..cursor] + blocks + items[cursor..]
  {
    SplicedIsMissing(items, cursor, blocks);
    AllMissing(items, blocks);
  }

  lemma {:induction false} SpliceKnown(items: Blocks, cursor: nat, blocks: Blocks)
    requires cursor <= |items| && forall b | b in blocks :: HasId(items, b.id)
    ensures Spliced(items, cursor, blocks) == items
    decreases |blocks|
  {
    if blocks != [] {
      assert blocks[0] in blocks;
      SpliceKnown(items, cursor, blocks[1..]);
    }
  }

  // ----- copying

  lemma NotHome(items: Blocks, session: string, home: string -> Option<string>)
    requires IsHoused(items, None, home) && SliceOf(items, session, None) == []
    ensures forall p | 0 <= p < |items| :: !OwnedBy(items[p], session) && home(items[p].id) != Some(session)
  {
    SliceIsAtHome(items, session, home);
    forall p | 0 <= p < |items|
      ensures !OwnedBy(items[p], session) && home(items[p].id) != Some(session)
    {
      assert items[p] in items;
      HomeOfCapture(items, p, home);
    }
  }

  lemma {:induction false} HomeOfCapture(items: Blocks, p: nat, home: string -> Option<string>)
    requires IsHoused(items, None, home) && p < |items|
    ensures items[p].owner.Capture? ==> home(items[p].id) == Some(items[p].owner.session)
  {
    if p < |items| - 1 {
      HomeOfCapture(items[..|items| - 1], p, home);
    }
  }

  /** Into a transcript without it the slice goes whole, at the anchor. */
  lemma CopyIsWhole(target: Blocks, source: Blocks, session: string, later: seq<string>, home: string -> Option<string>)
    requires DistinctIds(source) && IsHoused(source, None, home) && DistinctIds(target) && IsHoused(target, None, home)
    requires SliceOf(target, session, None) == []
    ensures var pos := AnchorIndex(target, later);
      Copied(target, source, session, later) == target[..pos] + SliceOf(source, session, None) + target[pos..]
  {
    var slice := SliceOf(source, session, None);
    SliceIsAtHome(source, session, home);
    SliceIdsAreDistinct(source, session, home);
    NotHome(target, session, home);
    SpliceNew(target, InsertAt(target, later), slice);
  }

  /** Into a transcript that has it nothing goes. */
  lemma CopyAgainIsNothing(target: Blocks, source: Blocks, session: string, later: seq<string>, home: string -> Option<string>)
    requires SliceOf(target, session, None) == SliceOf(source, session, None) && IsHoused(target, None, home)
    ensures Copied(target, source, session, later) == target
  {
    SliceIsAtHome(target, session, home);
    forall b | b in SliceOf(source, session, None)
      ensures HasId(target, b.id)
    {
      var p :| 0 <= p < |target| && target[p] == b;
    }
    SpliceKnown(target, InsertAt(target, later), SliceOf(source, session, None));
  }

  /** A slice put in at an anchor: what the three parts must be. */
  ghost predicate IsSplice(before: Blocks, own: Blocks, after: Blocks, session: string) {
    && (forall p | 0 <= p < |before| :: !OwnedBy(before[p], session))
    && own != [] && OwnedBy(own[0], session) && (forall p | 0 <= p < |own| :: Belongs(own[p], session))
    && Opens(after) && (forall p | 0 <= p < |after| :: !OwnedBy(after[p], session))
  }

  lemma SpliceLeavesOthers(before: Blocks, own: Blocks, after: Blocks, session: string, other: string)
    requires IsSplice(before, own, after, session) && other != session
    ensures SliceOf(before + own + after, other, None) == SliceOf(before + after, other, None)
  {
    calc {
      SliceOf(before + own + after, other, None);
    == { SliceConcat(before + own, after, other, None); }
      SliceOf(before + own, other, None) + SliceOf(after, other, OwnerAfter(before + own, None));
    == { OpeningForgets(after, other, OwnerAfter(before + own, None)); }
      SliceOf(before + own, other, None) + SliceOf(after, other, None);
    == { SliceConcat(before, own, other, None); StrangersAreRest(own, other, OwnerAfter(before, None)); }
      SliceOf(before, other, None) + [] + SliceOf(after, other, None);
    == { OpeningForgets(after, other, OwnerAfter(before, None)); }
      SliceOf(before, other, None) + SliceOf(after, other, OwnerAfter(before, None));
    == { SliceConcat(before, after, other, None); }
      SliceOf(before + after, other, None);
    }
  }

  lemma {:induction false} OwnIsHoused(own: Blocks, session: string, current: Option<string>, home: string -> Option<string>)
    requires forall p | 0 <= p < |own| :: Belongs(own[p], session) && home(own[p].id) == Some(session)
    requires own != [] ==> OwnedBy(own[0], session)
    ensures IsHoused(own, current, home)
  {
    if own != [] {
      OwnIsHoused(own[..|own| - 1], session, current, home);
      BelongingIsSlice(own, session, current);
    }
  }

  lemma SpliceIsHoused(before: Blocks, own: Blocks, after: Blocks, session: string, home: string -> Option<string>)
    requires IsSplice(before, own, after, session) && IsHoused(before + after, None, home)
    requires forall p | 0 <= p < |own| :: home(own[p].id) == Some(session)
    ensures IsHoused(before + own + after, None, home)
  {
    HousedConcat(before, after, None, home);
    HousedForgets(after, OwnerAfter(before, None), home);
    HousedForgets(after, OwnerAfter(before + own, None), home);
    OwnIsHoused(own, session, OwnerAfter(before, None), home);
    HousedConcat(before, own, None, home);
    HousedConcat(before + own, after, None, home);
  }

  /** The blocks after the slice begin with one captured for a listed session, none of which is before it. */
  ghost predicate IsAnchored(before: Blocks, after: Blocks, later: seq<string>) {
    && (after != [] ==> after[0].owner.Capture? && after[0].owner.session in later)
    && (forall p | 0 <= p < |before| && before[p].owner.Capture? :: before[p].owner.session !in later)
  }

  lemma SpliceIsTidy(before: Blocks, own: Blocks, after: Blocks, session: string, later: seq<string>)
    requires IsSplice(before, own, after, session) && IsAnchored(before, after, later) && IsTidy(before + after)
    ensures IsTidy(before + own + after)
  {
    var items, rest, n, m := before + own + after, before + after, |before|, |own|;
    assert forall p | 0 <= p < |items| :: items[p] == if p < n then rest[p] else if p < n + m then own[p - n] else rest[p - m];
    forall s: string, a, b, c
      ensures !IsInterruption(items, s, a, b, c)
    {
      if IsInterruption(items, s, a, b, c) {
        SpliceInterruption(before, own, after, session, later, s, a, b, c);
      }
    }
  }

  lemma SpliceInterruption(before: Blocks, own: Blocks, after: Blocks, session: string, later: seq<string>, s: string, a: int, b: int, c: int)
    requires IsSplice(before, own, after, session) && IsAnchored(before, after, later)
    requires IsInterruption(before + own + after, s, a, b, c)
    ensures IsInterleaved(before + after, s)
  {
    var rest, n, m := before + after, |before|, |own|;
    var a' := if a < n then a else a - m;
    var c' := if c < n then c else c - m;
    var b' := if b < n then b else if b < n + m then n else b - m;
    assert forall p | n <= p < n + m :: (before + own + after)[p] == own[p - n];
    if s != session {
      assert (before + own + after)[a] == rest[a'] && (before + own + after)[c] == rest[c'];
      if n <= b < n + m {
        assert after != [] && rest[n] == after[0] && c' >= n;
        assert a < n;
        assert rest[a'] == before[a];
        assert c' != n;
      } else {
        assert (before + own + after)[b] == rest[b'];
      }
      assert IsInterruption(rest, s, a', b', c');
    }
  }

  lemma SlicePartsAreSplice(target: Blocks, slice: Blocks, session: string, pos: nat, later: seq<string>, home: string -> Option<string>)
    requires IsHoused(target, None, home) && SliceOf(target, session, None) == [] && pos == AnchorIndex(target, later)
    requires slice != [] && OwnedBy(slice[0], session) && forall b | b in slice :: Belongs(b, session)
    ensures IsSplice(target[..pos], slice, target[pos..], session) && IsAnchored(target[..pos], target[pos..], later)
    ensures target[..pos] + target[pos..] == target
  {
    NotHome(target, session, home);
  }

  /** The slice goes into a transcript that has none of it. */
  lemma FirstCopyKeepsSound(target: Blocks, source: Blocks, session: string, later: seq<string>, home: string -> Option<string>)
    requires IsSound(target, home) && IsSound(source, home)
    requires SliceOf(target, session, None) == [] && SliceOf(source, session, None) != []
    ensures IsSound(Copied(target, source, session, later), home)
  {
    var slice, pos := SliceOf(source, session, None), AnchorIndex(target, later);
    CopyIsWhole(target, source, session, later, home);
    SliceIsAtHome(source, session, home);
    SlicePartsAreSplice(target, slice, session, pos, later, home);
    assert forall p | 0 <= p < |slice| :: slice[p] in slice;
    SpliceIsHoused(target[..pos], slice, target[pos..], session, home);
    SpliceIsTidy(target[..pos], slice, target[pos..], session, later);
    SpliceIsDistinct(target, pos, source, session, home);
  }

  lemma FirstCopyHolds(target: Blocks, source: Blocks, session: string, later: seq<string>, home: string -> Option<string>)
    requires IsSound(target, home) && IsSound(source, home)
    requires SliceOf(target, session, None) == [] && SliceOf(source, session, None) != []
    ensures SliceOf(Copied(target, source, session, later), session, None) == SliceOf(source, session, None)
    ensures RestOf(Copied(target, source, session, later), session, None) == target
    ensures forall other | other != session ::
      SliceOf(Copied(target, source, session, later), other, None) == SliceOf(target, other, None)
  {
    var slice, pos := SliceOf(source, session, None), AnchorIndex(target, later);
    var before, rest := target[..pos], target[pos..];
    CopyIsWhole(target, source, session, later, home);
    SliceIsAtHome(source, session, home);
    SlicePartsAreSplice(target, slice, session, pos, later, home);
    SliceOfThree(before, slice, rest, session);
    RestOfThree(before, slice, rest, session);
    forall other | other != session
      ensures SliceOf(before + slice + rest, other, None) == SliceOf(target, other, None)
    {
      SpliceLeavesOthers(before, slice, rest, session, other);
    }
  }

  /** The copy puts the slice there whole, leaves every other slice, keeps the transcript sound, and cutting the
      slice out again gives the target back. */
  lemma CopyKeepsSound(target: Blocks, source: Blocks, session: string, later: seq<string>, home: string -> Option<string>)
    requires IsSound(target, home) && IsSound(source, home)
    requires SliceOf(target, session, None) in {[], SliceOf(source, session, None)}
    ensures var after := Copied(target, source, session, later);
      && IsSound(after, home)
      && SliceOf(after, session, None) == SliceOf(source, session, None)
      && (forall other | other != session :: SliceOf(after, other, None) == SliceOf(target, other, None))
      && (SliceOf(target, session, None) == [] ==> RestOf(after, session, None) == target)
  {
    if SliceOf(target, session, None) == SliceOf(source, session, None) {
      CopyAgainIsNothing(target, source, session, later, home);
      if SliceOf(target, session, None) == [] {
        NotHome(target, session, home);
        NoRangeIsNoSlice(target, session);
      }
    } else {
      FirstCopyKeepsSound(target, source, session, later, home);
      FirstCopyHolds(target, source, session, later, home);
    }
  }

  lemma SpliceIsDistinct(target: Blocks, pos: nat, source: Blocks, session: string, home: string -> Option<string>)
    requires IsSound(target, home) && IsSound(source, home) && SliceOf(target, session, None) == [] && pos <= |target|
    ensures DistinctIds(target[..pos] + SliceOf(source, session, None) + target[pos..])
  {
    var slice := SliceOf(source, session, None);
    SliceIsAtHome(source, session, home);
    SliceIdsAreDistinct(source, session, home);
    NotHome(target, session, home);
    forall i, j | 0 <= i < |target| && 0 <= j < |slice|
      ensures target[i].id != slice[j].id
    {
      assert slice[j] in slice;
    }
    InsertIsDistinct(target, pos, slice);
  }

  lemma InsertIsDistinct(target: Blocks, pos: nat, slice: Blocks)
    requires pos <= |target| && DistinctIds(target) && DistinctIds(slice)
    requires forall i, j | 0 <= i < |target| && 0 <= j < |slice| :: target[i].id != slice[j].id
    ensures DistinctIds(target[..pos] + slice + target[pos..])
  {
    var after, m := target[..pos] + slice + target[pos..], |slice|;
    forall i, j | 0 <= i < j < |after|
      ensures after[i].id != after[j].id
    {
      assert after[i] == if i < pos then target[i] else if i < pos + m then slice[i - pos] else target[i - m];
      assert after[j] == if j < pos then target[j] else if j < pos + m then slice[j - pos] else target[j - m];
    }
  }

  // ----- removing

  lemma {:induction false} RestOwner(items: Blocks, session: string)
    ensures OwnerAfter(items, None) == Some(session) || OwnerAfter(RestOf(items, session, None), None) == OwnerAfter(items, None)
  {
    if items != [] {
      var front, last := items[..|items| - 1], items[|items| - 1];
      RestOwner(front, session);
      if OwnerAfter(items, None) != Some(session) {
        assert (RestOf(front, session, None) + [last])[..|RestOf(front, session, None)|] == RestOf(front, session, None);
      }
    }
  }

  lemma {:induction false} RestLeavesOthers(items: Blocks, session: string, other: string)
    requires other != session
    ensures SliceOf(RestOf(items, session, None), other, None) == SliceOf(items, other, None)
  {
    if items != [] {
      var front, last := items[..|items| - 1], items[|items| - 1];
      RestLeavesOthers(front, session, other);
      RestOwner(items, session);
      var rest := RestOf(front, session, None);
      if OwnerAfter(items, None) == Some(session) {
        assert rest + [] == rest;
        assert SliceOf(front, other, None) + [] == SliceOf(front, other, None);
      } else {
        assert (rest + [last])[..|rest|] == rest;
      }
    }
  }

  lemma {:induction false} RestHasNoSlice(items: Blocks, session: string)
    ensures SliceOf(RestOf(items, session, None), session, None) == []
    ensures RestOf(RestOf(items, session, None), session, None) == RestOf(items, session, None)
  {
    if items != [] {
      var front, last := items[..|items| - 1], items[|items| - 1];
      RestHasNoSlice(front, session);
      RestOwner(items, session);
      var rest := RestOf(front, session, None);
      if OwnerAfter(items, None) == Some(session) {
        assert rest + [] == rest;
      } else {
        assert (rest + [last])[..|rest|] == rest;
      }
    }
  }

  lemma {:induction false} RestIsHoused(items: Blocks, session: string, home: string -> Option<string>)
    requires IsHoused(items, None, home)
    ensures IsHoused(RestOf(items, session, None), None, home)
    ensures forall b | b in RestOf(items, session, None) :: b in items
  {
    if items != [] {
      var front, last := items[..|items| - 1], items[|items| - 1];
      RestIsHoused(front, session, home);
      RestOwner(items, session);
      var rest := RestOf(front, session, None);
      assert items == front + [last];
      if OwnerAfter(items, None) == Some(session) {
        assert rest + [] == rest;
      } else {
        assert (rest + [last])[..|rest|] == rest;
      }
    }
  }

  lemma {:induction false} TrailingEnd(items: Blocks, session: string, start: nat, end: nat) returns (range: Range)
    requires start < end <= |items| && OwnedBy(items[start], session)
    requires forall p | 0 <= p < |items| && OwnedBy(items[p], session) :: start <= p < end
    requires forall p | start <= p < end :: Belongs(items[p], session)
    ensures IsSliceRange(items, session, range)
    decreases |items| - end
  {
    if end < |items| && items[end].owner.User? {
      range := TrailingEnd(items, session, start, end + 1);
    } else {
      range := Range(start, end);
    }
  }

  lemma {:induction false} FirstOwned(items: Blocks, session: string, p: nat) returns (first: nat)
    requires p < |items| && OwnedBy(items[p], session)
    ensures first <= p && OwnedBy(items[first], session) && forall q | 0 <= q < first :: !OwnedBy(items[q], session)
    decreases p
  {
    if q: nat :| q < p && OwnedBy(items[q], session) {
      first := FirstOwned(items, session, q);
    } else {
      first := p;
    }
  }

  lemma {:induction false} LastOwned(items: Blocks, session: string, p: nat) returns (last: nat)
    requires p < |items| && OwnedBy(items[p], session)
    ensures p <= last < |items| && OwnedBy(items[last], session) && forall q | last < q < |items| :: !OwnedBy(items[q], session)
    decreases |items| - p
  {
    if q: nat :| p < q < |items| && OwnedBy(items[q], session) {
      last := LastOwned(items, session, q);
    } else {
      last := p;
    }
  }

  lemma SliceHasRange(items: Blocks, session: string, p: nat) returns (range: Range)
    requires !IsInterleaved(items, session) && p < |items| && OwnedBy(items[p], session)
    ensures IsSliceRange(items, session, range)
  {
    var first := FirstOwned(items, session, p);
    var last := LastOwned(items, session, p);
    forall q | first <= q < last + 1
      ensures Belongs(items[q], session)
    {
      assert !IsInterruption(items, session, first, q, last);
    }
    range := TrailingEnd(items, session, first, last + 1);
  }

  lemma CutIsTidy(items: Blocks, range: Range)
    requires range.start <= range.end <= |items| && IsTidy(items)
    ensures IsTidy(Without(items, range))
  {
    forall s: string
      ensures !IsInterleaved(Without(items, range), s)
    {
      if a, b, c :| IsInterruption(Without(items, range), s, a, b, c) {
        CutInterruption(items, range, s, a, b, c);
      }
    }
  }

  /** Where a block stood before the cut. */
  function Uncut(range: Range, p: int): int
    requires range.start <= range.end
  {
    if p < range.start then p else p + range.end - range.start
  }

  lemma UncutBlock(items: Blocks, range: Range, p: nat)
    requires range.start <= range.end <= |items| && p < |Without(items, range)|
    ensures Uncut(range, p) < |items| && Without(items, range)[p] == items[Uncut(range, p)]
  {
  }

  lemma CutInterruption(items: Blocks, range: Range, s: string, a: int, b: int, c: int)
    requires range.start <= range.end <= |items| && IsInterruption(Without(items, range), s, a, b, c)
    ensures IsInterleaved(items, s)
  {
    UncutBlock(items, range, a);
    UncutBlock(items, range, b);
    UncutBlock(items, range, c);
    assert IsInterruption(items, s, Uncut(range, a), Uncut(range, b), Uncut(range, c));
  }

  lemma CutIsDistinct(items: Blocks, range: Range)
    requires range.start <= range.end <= |items| && DistinctIds(items)
    ensures DistinctIds(Without(items, range))
  {
    var rest, n := Without(items, range), range.end - range.start;
    forall i, j | 0 <= i < j < |rest|
      ensures rest[i].id != rest[j].id
    {
      assert rest[i] == items[if i < range.start then i else i + n] && rest[j] == items[if j < range.start then j else j + n];
    }
  }

  /** Removing a slice leaves every other one and keeps the transcript sound; removing it again changes nothing. */
  lemma RemoveKeepsSound(items: Blocks, session: string, home: string -> Option<string>)
    requires IsSound(items, home)
    ensures var after := RestOf(items, session, None);
      && IsSound(after, home)
      && SliceOf(after, session, None) == []
      && RestOf(after, session, None) == after
      && (forall other | other != session :: SliceOf(after, other, None) == SliceOf(items, other, None))
  {
    RestHasNoSlice(items, session);
    forall other | other != session
      ensures SliceOf(RestOf(items, session, None), other, None) == SliceOf(items, other, None)
    {
      RestLeavesOthers(items, session, other);
    }
    RestIsHoused(items, session, home);
    if p: nat :| p < |items| && OwnedBy(items[p], session) {
      var range := SliceHasRange(items, session, p);
      RangeIsSlice(items, session, range);
      CutIsTidy(items, range);
      CutIsDistinct(items, range);
    } else {
      NoRangeIsNoSlice(items, session);
    }
  }

  // ----- recording order

  ghost predicate IsInOrder(items: Blocks, times: map<string, int>) {
    forall i, j | 0 <= i < j < |items| && IsTimed(items[i], times) && IsTimed(items[j], times) :: TimeOf(items[i], times) <= TimeOf(items[j], times)
  }

  predicate IsTimed(block: Block, times: map<string, int>) {
    block.owner.Capture? && block.owner.session in times
  }

  function TimeOf(block: Block, times: map<string, int>): int
    requires IsTimed(block, times)
  {
    times[block.owner.session]
  }

  /** `later` lists the transcript's sessions recorded after the copied one, and no others. */
  ghost predicate ListsLater(items: Blocks, later: seq<string>, session: string, times: map<string, int>) {
    && session in times
    && (forall s | s in later :: s in times && times[s] > times[session])
    && (forall p | 0 <= p < |items| && IsTimed(items[p], times) && TimeOf(items[p], times) > times[session] :: items[p].owner.session in later)
  }

  /** A copy keeps the transcript in recording order, ties or not: the anchor is its first later block. */
  lemma CopyKeepsOrder(target: Blocks, source: Blocks, session: string, later: seq<string>, times: map<string, int>, home: string -> Option<string>)
    requires IsSound(target, home) && IsSound(source, home) && SliceOf(target, session, None) in {[], SliceOf(source, session, None)}
    requires IsInOrder(target, times) && ListsLater(target, later, session, times)
    ensures IsInOrder(Copied(target, source, session, later), times)
  {
    var slice, pos := SliceOf(source, session, None), AnchorIndex(target, later);
    if SliceOf(target, session, None) == slice {
      CopyAgainIsNothing(target, source, session, later, home);
    } else {
      CopyIsWhole(target, source, session, later, home);
      SliceIsAtHome(source, session, home);
      SlicePartsAreSplice(target, slice, session, pos, later, home);
      SpliceKeepsOrder(target[..pos], slice, target[pos..], session, later, times);
    }
  }

  lemma SpliceKeepsOrder(before: Blocks, own: Blocks, after: Blocks, session: string, later: seq<string>, times: map<string, int>)
    requires IsSplice(before, own, after, session) && IsAnchored(before, after, later) && IsInOrder(before + after, times)
    requires session in times && forall s | s in later :: s in times && times[s] > times[session]
    requires forall p | 0 <= p < |before| && IsTimed(before[p], times) && TimeOf(before[p], times) > times[session] :: before[p].owner.session in later
    ensures IsInOrder(before + own + after, times)
  {
    var items, rest, n, m := before + own + after, before + after, |before|, |own|;
    if after != [] {
      assert rest[n] == after[0];
    }
    forall i, j | 0 <= i < j < |items| && IsTimed(items[i], times) && IsTimed(items[j], times)
      ensures TimeOf(items[i], times) <= TimeOf(items[j], times)
    {
      assert items[i] == if i < n then rest[i] else if i < n + m then own[i - n] else rest[i - m];
      assert items[j] == if j < n then rest[j] else if j < n + m then own[j - n] else rest[j - m];
      if i < n {
        assert rest[i] == before[i];
      }
      if n <= i < n + m {
        assert Belongs(own[i - n], session);
      }
      if n <= j < n + m {
        assert Belongs(own[j - n], session);
      }
      if j >= n + m && i < n + m {
        assert IsTimed(rest[n], times) && TimeOf(rest[n], times) <= TimeOf(rest[j - m], times);
      }
    }
  }
}
