/** Copying a recording's slice into a transcript that already has some of it, as after a clear that was cut off:
    which blocks go in, and exactly when the result is sound and whole
    (crates/vt-store/src/transcript_projection.rs:297-342, crates/vt-ffi/src/session_move.rs:183-207). */
module PartialCopy {
  import opened Prelude
  import opened SessionSlices

  // ----- a slice and what is missing of it

  lemma {:induction false} AtHomeIsInSlice(items: Blocks, session: string, home: string -> Option<string>, p: nat)
    requires IsHoused(items, None, home) && p < |items| && home(items[p].id) == Some(session)
    ensures items[p] in SliceOf(items, session, None)
  {
    if p < |items| - 1 {
      AtHomeIsInSlice(items[..|items| - 1], session, home, p);
    }
  }

  lemma OwnIsNotMissing(target: Blocks, session: string, home: string -> Option<string>)
    requires IsHoused(target, None, home)
    ensures Missing(target, SliceOf(target, session, None)) == []
  {
    SliceIsAtHome(target, session, home);
    forall b | b in SliceOf(target, session, None)
      ensures HasId(target, b.id)
    {
      var p :| 0 <= p < |target| && target[p] == b;
    }
    NothingMissing(target, SliceOf(target, session, None));
  }

  /** A block of the slice that is past what is there already is not there. */
  lemma PastIsLacked(target: Blocks, whole: Blocks, session: string, home: string -> Option<string>, j: nat)
    requires IsHoused(target, None, home) && DistinctIds(whole)
    requires SliceOf(target, session, None) <= whole && |SliceOf(target, session, None)| <= j < |whole| && home(whole[j].id) == Some(session)
    ensures !HasId(target, whole[j].id)
  {
    var have := SliceOf(target, session, None);
    forall p: nat | p < |target|
      ensures target[p].id != whole[j].id
    {
      if home(target[p].id) == Some(session) {
        AtHomeIsInSlice(target, session, home, p);
        var i :| 0 <= i < |have| && have[i] == target[p];
        assert whole[i] == have[i];
      }
    }
  }

  /** Of a slice that begins with what is there already, exactly the rest is missing. */
  lemma PrefixIsCompleted(target: Blocks, source: Blocks, session: string, home: string -> Option<string>)
    requires IsSound(target, home) && IsSound(source, home)
    ensures var have, whole := SliceOf(target, session, None), SliceOf(source, session, None);
      have + Missing(target, whole) == whole <==> have <= whole
  {
    var have, whole := SliceOf(target, session, None), SliceOf(source, session, None);
    if have <= whole {
      var rest := whole[|have|..];
      assert whole == have + rest;
      OwnIsNotMissing(target, session, home);
      RestIsMissing(target, source, session, home);
      MissingConcat(target, have, rest);
    }
  }

  lemma RestIsMissing(target: Blocks, source: Blocks, session: string, home: string -> Option<string>)
    requires IsSound(target, home) && IsSound(source, home)
    requires SliceOf(target, session, None) <= SliceOf(source, session, None)
    ensures var rest := SliceOf(source, session, None)[|SliceOf(target, session, None)|..]; Missing(target, rest) == rest
  {
    var have, whole := SliceOf(target, session, None), SliceOf(source, session, None);
    SliceIsAtHome(source, session, home);
    SliceIdsAreDistinct(source, session, home);
    var rest := whole[|have|..];
    forall b | b in rest
      ensures !HasId(target, b.id)
    {
      var j :| 0 <= j < |rest| && rest[j] == b;
      assert whole[|have| + j] in whole;
      PastIsLacked(target, whole, session, home, |have| + j);
    }
    AllMissing(target, rest);
  }

  // ----- where the missing blocks go

  /** The session's slice ends at `p`. */
  ghost predicate EndsAt(items: Blocks, session: string, p: nat) {
    exists range :: IsSliceRange(items, session, range) && range.end == p
  }

  /** Nothing of the slice is there, or nothing of it is missing, or what is missing goes in right behind it. */
  ghost predicate CopyFits(target: Blocks, source: Blocks, session: string, later: seq<string>) {
    || SliceOf(target, session, None) == []
    || Missing(target, SliceOf(source, session, None)) == []
    || EndsAt(target, session, AnchorIndex(target, later))
  }

  ghost predicate IsMore(target: Blocks, more: Blocks, session: string, home: string -> Option<string>) {
    DistinctIds(more) && forall b | b in more :: Belongs(b, session) && home(b.id) == Some(session) && !HasId(target, b.id)
  }

  lemma CopiedIsMissing(target: Blocks, source: Blocks, session: string, later: seq<string>, home: string -> Option<string>)
    requires IsSound(target, home) && IsSound(source, home)
    ensures var pos, missing := AnchorIndex(target, later), Missing(target, SliceOf(source, session, None));
      && Copied(target, source, session, later) == target[..pos] + missing + target[pos..]
      && IsMore(target, missing, session, home)
  {
    var slice := SliceOf(source, session, None);
    SliceIdsAreDistinct(source, session, home);
    SliceIsAtHome(source, session, home);
    MissingIsDistinct(target, slice);
    SplicedIsMissing(target, InsertAt(target, later), slice);
    forall b | b in Missing(target, slice)
      ensures Belongs(b, session) && home(b.id) == Some(session) && !HasId(target, b.id)
    {
      MissingIsLacked(target, slice, b);
    }
  }

  /** The three parts of a transcript with a longer slice in place of a shorter one. */
  lemma GrownIsSplice(target: Blocks, range: Range, more: Blocks, session: string, home: string -> Option<string>)
    requires IsHoused(target, None, home) && IsSliceRange(target, session, range) && IsMore(target, more, session, home)
    ensures var before, own, rest := target[..range.start], target[range.start..range.end], target[range.end..];
      && IsSplice(before, own + more, rest, session) && IsSplice(before, own, rest, session)
      && (forall p | 0 <= p < |own + more| :: home((own + more)[p].id) == Some(session))
  {
    var own := target[range.start..range.end];
    assert forall p | 0 <= p < |own| :: Belongs(own[p], session) by {
      assert forall p | 0 <= p < |own| :: own[p] == target[range.start + p];
    }
    RangeIsSlice(target, session, range);
    SliceIsAtHome(target, session, home);
    forall p | 0 <= p < |own + more|
      ensures home((own + more)[p].id) == Some(session) && Belongs((own + more)[p], session)
    {
      if p < |own| {
        assert (own + more)[p] == own[p] && own[p] in own;
      } else {
        assert (own + more)[p] == more[p - |own|] && more[p - |own|] in more;
      }
    }
  }

  lemma GrownParts(target: Blocks, range: Range, more: Blocks, session: string)
    requires IsSliceRange(target, session, range)
    ensures var before, own, rest := target[..range.start], target[range.start..range.end], target[range.end..];
      && own == SliceOf(target, session, None) && before + rest == RestOf(target, session, None)
      && before + own + rest == target && target[..range.end] + more + rest == before + (own + more) + rest
  {
    RangeIsSlice(target, session, range);
    ThreeParts(target, range.start, range.end, more);
  }

  lemma ThreeParts(items: Blocks, start: nat, end: nat, more: Blocks)
    requires start <= end <= |items|
    ensures items[..start] + items[start..end] + items[end..] == items
    ensures items[..end] + more + items[end..] == items[..start] + (items[start..end] + more) + items[end..]
  {
    assert items[..end] == items[..start] + items[start..end];
    assert items[..start] + (items[start..end] + more) == items[..end] + more;
  }

  lemma GrownIsDistinct(target: Blocks, pos: nat, more: Blocks, session: string, home: string -> Option<string>)
    requires pos <= |target| && DistinctIds(target) && IsMore(target, more, session, home)
    ensures DistinctIds(target[..pos] + more + target[pos..])
  {
    forall i, j | 0 <= i < |target| && 0 <= j < |more|
      ensures target[i].id != more[j].id
    {
      assert more[j] in more;
    }
    InsertIsDistinct(target, pos, more);
  }

  /** A longer slice in place of a shorter one. */
  lemma GrownSliceFits(target: Blocks, range: Range, more: Blocks, session: string, later: seq<string>, home: string -> Option<string>)
    requires IsSound(target, home) && IsSliceRange(target, session, range) && range.end == AnchorIndex(target, later)
    requires IsMore(target, more, session, home)
    ensures var after := target[..range.end] + more + target[range.end..];
      && IsSound(after, home)
      && SliceOf(after, session, None) == SliceOf(target, session, None) + more
  {
    var before, own, rest := target[..range.start], target[range.start..range.end], target[range.end..];
    GrownParts(target, range, more, session);
    GrownIsSplice(target, range, more, session, home);
    RemoveKeepsSound(target, session, home);
    assert IsAnchored(before, rest, later);
    SliceOfThree(before, own + more, rest, session);
    SpliceIsHoused(before, own + more, rest, session, home);
    SpliceIsTidy(before, own + more, rest, session, later);
    GrownIsDistinct(target, range.end, more, session, home);
  }

  lemma GrownLeavesOthers(target: Blocks, range: Range, more: Blocks, session: string, home: string -> Option<string>, other: string)
    requires IsHoused(target, None, home) && IsSliceRange(target, session, range) && IsMore(target, more, session, home) && other != session
    ensures SliceOf(target[..range.end] + more + target[range.end..], other, None) == SliceOf(target, other, None)
  {
    var before, own, rest := target[..range.start], target[range.start..range.end], target[range.end..];
    GrownParts(target, range, more, session);
    GrownIsSplice(target, range, more, session, home);
    SpliceLeavesOthers(before, own + more, rest, session, other);
    SpliceLeavesOthers(before, own, rest, session, other);
  }

  /** A capture block of the session away from its slice leaves another owner's block between them. */
  lemma StrayCaptureTears(target: Blocks, range: Range, more: Blocks, pos: nat, session: string)
    requires IsSliceRange(target, session, range) && pos <= |target| && more != [] && OwnedBy(more[0], session)
    requires if pos < range.start then !Belongs(target[pos], session) else pos > range.end
    ensures IsInterleaved(target[..pos] + more + target[pos..], session)
  {
    var after := target[..pos] + more + target[pos..];
    assert after[pos] == more[0];
    if pos < range.start {
      assert after[pos + |more|] == target[pos] && after[range.start + |more|] == target[range.start];
      assert IsInterruption(after, session, pos, pos + |more|, range.start + |more|);
    } else {
      assert after[range.start] == target[range.start] && after[range.end] == target[range.end];
      assert target[range.end] == target[range.end..][0];
      assert IsInterruption(after, session, range.start, range.end, pos);
    }
  }

  lemma AnchorIsOutside(target: Blocks, range: Range, session: string, later: seq<string>)
    requires IsSliceRange(target, session, range) && session !in later
    ensures AnchorIndex(target, later) < range.start || AnchorIndex(target, later) >= range.end
  {
    var pos := AnchorIndex(target, later);
    assert pos < |target| ==> !Belongs(target[pos], session);
  }

  /** Away from the slice's end, missing blocks join another slice or tear this one apart. */
  lemma StrayBlocksDoNotFit(target: Blocks, range: Range, more: Blocks, session: string, later: seq<string>, home: string -> Option<string>)
    requires IsSound(target, home) && IsSliceRange(target, session, range) && session !in later
    requires AnchorIndex(target, later) != range.end && more != [] && Belongs(more[0], session) && home(more[0].id) == Some(session)
    ensures !IsSound(target[..AnchorIndex(target, later)] + more + target[AnchorIndex(target, later)..], home)
  {
    var pos := AnchorIndex(target, later);
    AnchorIsOutside(target, range, session, later);
    if OwnedBy(more[0], session) {
      StrayCaptureTears(target, range, more, pos, session);
    } else {
      StrayOwner(target, range, pos, session);
      StrayIsNotHoused(target[..pos], more, target[pos..], session, home);
    }
  }

  /** Before the slice, or past the block that ends it, the session's turn is not on. */
  lemma StrayOwner(target: Blocks, range: Range, pos: nat, session: string)
    requires IsSliceRange(target, session, range) && pos <= |target| && (pos < range.start || pos > range.end)
    ensures OwnerAfter(target[..pos], None) != Some(session)
  {
    if pos < range.start {
      StrangersAreRest(target[..pos], session, None);
    } else {
      var front, back := target[..range.end], target[range.end..pos];
      assert target[..pos] == front + back && back[0] == target[range.end..][0];
      forall p | 0 <= p < |back|
        ensures !OwnedBy(back[p], session)
      {
        assert back[p] == target[range.end + p];
      }
      OwnerConcat(front, back, None);
      StrangersAreRest(back, session, OwnerAfter(front, None));
    }
  }

  lemma StrayIsNotHoused(before: Blocks, more: Blocks, after: Blocks, session: string, home: string -> Option<string>)
    requires more != [] && more[0].owner.User? && home(more[0].id) == Some(session) && OwnerAfter(before, None) != Some(session)
    ensures !IsHoused(before + more + after, None, home)
  {
    HousedConcat(before + more, after, None, home);
    HousedConcat(before, more, None, home);
    assert more == [more[0]] + more[1..];
    HousedConcat([more[0]], more[1..], OwnerAfter(before, None), home);
    assert [more[0]][..0] == [];
  }

  /** The copy leaves the transcript sound exactly when it fits; then the slice is what was there followed by what
      was missing of it, and the other slices are as they were. */
  lemma CopySoundExactly(target: Blocks, source: Blocks, session: string, later: seq<string>, home: string -> Option<string>)
    requires IsSound(target, home) && IsSound(source, home) && session !in later
    ensures var after, have, whole := Copied(target, source, session, later), SliceOf(target, session, None), SliceOf(source, session, None);
      && (IsSound(after, home) <==> CopyFits(target, source, session, later))
      && (CopyFits(target, source, session, later) ==>
        && SliceOf(after, session, None) == have + Missing(target, whole)
        && forall other | other != session :: SliceOf(after, other, None) == SliceOf(target, other, None))
  {
    var have, whole := SliceOf(target, session, None), SliceOf(source, session, None);
    if have == [] {
      CopyKeepsSound(target, source, session, later, home);
      PrefixIsCompleted(target, source, session, home);
    } else if Missing(target, whole) == [] {
      CopiedIsMissing(target, source, session, later, home);
      assert target[..AnchorIndex(target, later)] + [] + target[AnchorIndex(target, later)..] == target;
      assert have + [] == have;
    } else {
      MissingSoundExactly(target, source, session, later, home);
    }
  }

  lemma MissingSoundExactly(target: Blocks, source: Blocks, session: string, later: seq<string>, home: string -> Option<string>)
    requires IsSound(target, home) && IsSound(source, home) && session !in later
    requires SliceOf(target, session, None) != [] && Missing(target, SliceOf(source, session, None)) != []
    ensures var after, have, whole := Copied(target, source, session, later), SliceOf(target, session, None), SliceOf(source, session, None);
      && (IsSound(after, home) <==> EndsAt(target, session, AnchorIndex(target, later)))
      && (EndsAt(target, session, AnchorIndex(target, later)) ==>
        && SliceOf(after, session, None) == have + Missing(target, whole)
        && forall other | other != session :: SliceOf(after, other, None) == SliceOf(target, other, None))
  {
    var pos, missing := AnchorIndex(target, later), Missing(target, SliceOf(source, session, None));
    CopiedIsMissing(target, source, session, later, home);
    var range := SliceRangeOf(target, session);
    assert missing[0] in missing;
    if pos == range.end {
      GrownSliceFits(target, range, missing, session, later, home);
      assert EndsAt(target, session, pos);
      forall other | other != session
        ensures SliceOf(Copied(target, source, session, later), other, None) == SliceOf(target, other, None)
      {
        GrownLeavesOthers(target, range, missing, session, home, other);
      }
    } else {
      StrayBlocksDoNotFit(target, range, missing, session, later, home);
      if r :| IsSliceRange(target, session, r) && r.end == pos {
        OneSliceRange(target, session, r, range);
        assert false;
      }
    }
  }

  lemma SliceRangeOf(items: Blocks, session: string) returns (range: Range)
    requires IsTidy(items) && SliceOf(items, session, None) != []
    ensures IsSliceRange(items, session, range)
  {
    assert exists p: nat :: p < |items| && OwnedBy(items[p], session) by {
      if forall p: nat | p < |items| :: !OwnedBy(items[p], session) {
        NoRangeIsNoSlice(items, session);
      }
    }
    var p: nat :| p < |items| && OwnedBy(items[p], session);
    range := SliceHasRange(items, session, p);
  }

  lemma OneSliceRange(items: Blocks, session: string, a: Range, b: Range)
    requires IsSliceRange(items, session, a) && IsSliceRange(items, session, b)
    ensures a == b
  {
    RangeIsSlice(items, session, a);
    RangeIsSlice(items, session, b);
    assert a.start == b.start;
    assert |items[a.start..a.end]| == |items[b.start..b.end]|;
  }

  /** The copy leaves the source's slice, whole and apart from the others, exactly when the target had a first part
      of it, none and all counting as such, and the rest goes in right behind that part. */
  lemma CopyTakesSliceAlong(target: Blocks, source: Blocks, session: string, later: seq<string>, home: string -> Option<string>)
    requires IsSound(target, home) && IsSound(source, home) && session !in later
    ensures var after := Copied(target, source, session, later);
      (IsSound(after, home) && SliceOf(after, session, None) == SliceOf(source, session, None))
      <==> (CopyFits(target, source, session, later) && SliceOf(target, session, None) <= SliceOf(source, session, None))
  {
    CopySoundExactly(target, source, session, later, home);
    PrefixIsCompleted(target, source, session, home);
  }
}
