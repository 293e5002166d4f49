/** Copying a recording's section of flat text into another document, and clearing it from one
    (crates/vt-ffi/src/session_move.rs:154-178, 213-289, 311-331). */
module FlatMove {
  import opened Prelude
  import opened MarkedRanges
  import opened StyledText
  import opened OwnedText

  // ----- where the section goes

  predicate Has(doc: Doc, session: string) {
    exists p | 0 <= p < |doc| :: OwnedBy(doc[p], session)
  }

  /** The first character the session owns, or the end of the document. */
  function FirstOwned(doc: Doc, session: string): (p: nat)
    ensures p <= |doc| && (p < |doc| <==> Has(doc, session))
    ensures p < |doc| ==> OwnedBy(doc[p], session) && forall q | 0 <= q < p :: !OwnedBy(doc[q], session)
  {
    if doc == [] then 0
    else if OwnedBy(doc[0], session) then 0
    else
      var rest := FirstOwned(doc[1..], session);
      assert Has(doc[1..], session) ==> OwnedBy(doc[1..][rest], session) && doc[1..][rest] == doc[rest + 1];
      assert forall q | 1 <= q < rest + 1 :: doc[q] == doc[1..][q - 1];
      rest + 1
  }

  /** The start of the first listed session that has text, or the end of the document. */
  function Anchor(doc: Doc, later: seq<string>): (pos: nat)
    ensures pos <= |doc|
  {
    if later == [] then |doc| else if Has(doc, later[0]) then FirstOwned(doc, later[0]) else Anchor(doc, later[1..])
  }

  ghost predicate IsPlaceable(doc: Doc, session: string) {
    HasReadableMarks(doc) && !IsSplit(doc, session)
  }

  lemma PlaceIsFirst(doc: Doc, session: string, place: Option<TextRange>)
    requires IsPlace(doc, session, place)
    ensures place.Some? <==> Has(doc, session)
    ensures place.Some? ==> place.value.pos == FirstOwned(doc, session)
  {
    if place.Some? {
      assert OwnedBy(doc[place.value.pos], session);
    }
  }

  /** Some section looked at on the way to the anchor cannot be placed. */
  ghost predicate AnchorFails(doc: Doc, later: seq<string>) {
    later != [] && (!IsPlaceable(doc, later[0]) || (!Has(doc, later[0]) && AnchorFails(doc, later[1..])))
  }

  method FlatAnchorPosition(editor: Editor, later: seq<string>) returns (r: Result<Option<nat>, SearchError>)
    ensures r.Err? <==> AnchorFails(editor.doc, later)
    ensures r.Ok? ==> (if r.value.Some? then r.value.value else |editor.doc|) == Anchor(editor.doc, later)
  {
    for i := 0 to |later|
      invariant Anchor(editor.doc, later) == Anchor(editor.doc, later[i..])
      invariant AnchorFails(editor.doc, later) <==> AnchorFails(editor.doc, later[i..])
    {
      var found := FindPlace(editor, later[i]);
      if found.Err? {
        return Err(found.error);
      }
      PlaceIsFirst(editor.doc, later[i], found.value);
      if found.value.Some? {
        return Ok(Some(found.value.value.pos));
      }
      assert later[i..][1..] == later[i + 1..];
    }
    r := Ok(None);
  }

  // ----- the two operations

  /** The target after the copy: nothing happens when there is nothing to copy, or when it is already there. */
  function Copied(target: Doc, source: Doc, session: string, later: seq<string>, inherit: Inherit): Doc {
    if !Has(source, session) || Has(target, session) then target
    else
      var pos := Anchor(target, later);
      Insert(target, pos, Over(inherit(target, pos), Mine(source, session)))
  }

  ghost predicate CopyFails(target: Doc, source: Doc, session: string, later: seq<string>) {
    || !IsPlaceable(source, session)
    || (Has(source, session) && (!IsPlaceable(target, session) || (!Has(target, session) && AnchorFails(target, later))))
  }

  method RemoveFlatSection(editor: Editor, session: string) returns (ok: bool)
    modifies editor`doc
    ensures ok <==> IsPlaceable(old(editor.doc), session)
    ensures editor.doc == if ok then Others(old(editor.doc), session) else old(editor.doc)
  {
    var found := FindPlace(editor, session);
    if found.Err? {
      return false;
    }
    ClearedIsOthers(editor.doc, session, found.value);
    ok := true;
    if found.value.None? {
      return;
    }
    editor.DeleteRange(found.value.value);
  }

  method CopyFlatSection(source: Editor, target: Editor, session: string, later: seq<string>) returns (ok: bool)
    requires source != target
    modifies target`doc
    ensures ok <==> !CopyFails(old(target.doc), source.doc, session, later)
    ensures target.doc == if ok then Copied(old(target.doc), source.doc, session, later, target.inherit) else old(target.doc)
  {
    var sourceDelta := source.GetDelta();
    var range := FindPlace(source, session);
    if range.Err? {
      return false;
    }
    PlaceIsFirst(source.doc, session, range.value);
    if range.value.None? {
      return true;
    }
    ClearedIsOthers(source.doc, session, range.value);
    var section := FlatSectionFromDelta(sourceDelta, range.value.value);
    assert section.Ok?;
    var existing := FindPlace(target, session);
    if existing.Err? {
      return false;
    }
    PlaceIsFirst(target.doc, session, existing.value);
    if existing.value.Some? {
      return true;
    }
    var anchor := FlatAnchorPosition(target, later);
    if anchor.Err? {
      return false;
    }
    var insertPos := if anchor.value.Some? then anchor.value.value else |target.doc|;
    SpliceKeepsMarks(section.value, Mine(source.doc, session), target.inherit(target.doc, insertPos));
    target.InsertMarked(insertPos, section.value.text, section.value.marks);
    ok := true;
  }

  // ----- what the operations keep

  /** Every session mark can be read and every session's text is one stretch, or there is none. */
  ghost predicate IsWellOwned(doc: Doc) {
    HasReadableMarks(doc) && forall session: string :: !IsSplit(doc, session)
  }

  lemma {:induction false} WellOwnedNeverFails(target: Doc, source: Doc, session: string, later: seq<string>)
    requires IsWellOwned(target) && IsWellOwned(source)
    ensures !AnchorFails(target, later) && !CopyFails(target, source, session, later)
  {
    if later != [] {
      WellOwnedNeverFails(target, source, session, later[1..]);
    }
  }

  /** An anchor never falls inside a section. */
  lemma {:induction false} AnchorIsOutside(doc: Doc, later: seq<string>, session: string, range: TextRange)
    requires IsPlaceAt(doc, session, range)
    ensures Anchor(doc, later) <= range.pos || Anchor(doc, later) >= range.pos + range.len
  {
    if later != [] {
      if Has(doc, later[0]) {
        PlaceIsFirst(doc, session, Some(range));
      } else {
        AnchorIsOutside(doc, later[1..], session, range);
      }
    }
  }

  lemma InsertKeepsPlace(doc: Doc, pos: nat, cells: Doc, session: string, range: TextRange)
    requires pos <= |doc| && NoneOwned(cells, session) && IsPlaceAt(doc, session, range)
    requires pos <= range.pos || pos >= range.pos + range.len
    ensures IsPlaceAt(Insert(doc, pos, cells), session, if pos <= range.pos then TextRange(range.pos + |cells|, range.len) else range)
  {
    var after := Insert(doc, pos, cells);
    assert forall p | 0 <= p < |after| :: after[p] == if p < pos then doc[p] else if p < pos + |cells| then cells[p - pos] else doc[p - |cells|];
  }

  lemma InsertKeepsFree(doc: Doc, pos: nat, cells: Doc, session: string)
    requires pos <= |doc| && NoneOwned(cells, session) && NoneOwned(doc, session)
    ensures NoneOwned(Insert(doc, pos, cells), session)
  {
  }

  lemma DeleteKeepsPlace(doc: Doc, gone: TextRange, session: string, range: TextRange)
    requires gone.pos + gone.len <= |doc| && IsPlaceAt(doc, session, range)
    requires range.pos + range.len <= gone.pos || gone.pos + gone.len <= range.pos
    ensures IsPlaceAt(Delete(doc, gone), session, if gone.pos <= range.pos then TextRange(range.pos - gone.len, range.len) else range)
  {
    var after := Delete(doc, gone);
    assert forall p | 0 <= p < |after| :: after[p] == if p < gone.pos then doc[p] else doc[p + gone.len];
  }

  lemma PlacesAreApart(doc: Doc, session: string, range: TextRange, other: string, otherRange: TextRange)
    requires IsPlaceAt(doc, session, range) && IsPlaceAt(doc, other, otherRange) && other != session
    ensures range.pos + range.len <= otherRange.pos || otherRange.pos + otherRange.len <= range.pos
  {
    var p := if range.pos <= otherRange.pos then otherRange.pos else range.pos;
    assert !(OwnedBy(doc[p], session) && OwnedBy(doc[p], other));
  }

  lemma PlaceOf(doc: Doc, session: string) returns (place: Option<TextRange>)
    requires !IsSplit(doc, session)
    ensures IsPlace(doc, session, place)
  {
    place :| IsPlace(doc, session, place);
  }

  /** Copying a section keeps every section in one piece. */
  lemma CopyKeepsPlaces(target: Doc, source: Doc, session: string, later: seq<string>, inherit: Inherit)
    requires IsWellOwned(target)
    ensures IsWellOwned(Copied(target, source, session, later, inherit))
  {
    if Has(source, session) && !Has(target, session) {
      var pos := Anchor(target, later);
      var cells := Over(inherit(target, pos), Mine(source, session));
      MineIsOwned(source, session);
      OverCovers(inherit(target, pos), Mine(source, session), Mine(source, session), session);
      SectionIsReadable(target, pos, cells, session);
      forall other: string
        ensures !IsSplit(Insert(target, pos, cells), other)
      {
        InsertKeepsSection(target, pos, cells, session, later, other);
      }
    }
  }

  lemma SectionIsReadable(doc: Doc, pos: nat, cells: Doc, session: string)
    requires pos <= |doc| && HasReadableMarks(doc) && AllOwned(cells, session)
    ensures HasReadableMarks(Insert(doc, pos, cells))
  {
    assert HasReadableMarks(doc[..pos]) && HasReadableMarks(doc[pos..]);
    ReadableConcat(doc[..pos], cells);
    ReadableConcat(doc[..pos] + cells, doc[pos..]);
  }

  lemma InsertKeepsOther(doc: Doc, pos: nat, cells: Doc, later: seq<string>, other: string)
    requires pos == Anchor(doc, later) && NoneOwned(cells, other) && !IsSplit(doc, other)
    ensures !IsSplit(Insert(doc, pos, cells), other)
  {
    var after := Insert(doc, pos, cells);
    var place := PlaceOf(doc, other);
    if place.Some? {
      AnchorIsOutside(doc, later, other, place.value);
      InsertKeepsPlace(doc, pos, cells, other, place.value);
      assert IsPlace(after, other, Some(if pos <= place.value.pos then TextRange(place.value.pos + |cells|, place.value.len) else place.value));
    } else {
      InsertKeepsFree(doc, pos, cells, other);
      assert IsPlace(after, other, None);
    }
  }

  lemma InsertKeepsSection(doc: Doc, pos: nat, cells: Doc, session: string, later: seq<string>, other: string)
    requires pos == Anchor(doc, later) && AllOwned(cells, session) && cells != [] && NoneOwned(doc, session) && !IsSplit(doc, other)
    ensures !IsSplit(Insert(doc, pos, cells), other)
  {
    var after := Insert(doc, pos, cells);
    if other == session {
      InsertPlaceAt(doc, pos, cells, session);
      assert IsPlace(after, session, Some(TextRange(pos, |cells|)));
    } else {
      OwnersDiffer(cells, session, other);
      InsertKeepsOther(doc, pos, cells, later, other);
    }
  }

  /** Clearing a section keeps every other section in one piece. */
  lemma ClearKeepsPlaces(doc: Doc, session: string)
    requires IsWellOwned(doc)
    ensures IsWellOwned(Others(doc, session))
  {
    var place := PlaceOf(doc, session);
    ClearedIsOthers(doc, session, place);
    if place.Some? {
      var after := Delete(doc, place.value);
      assert HasReadableMarks(after);
      forall other: string
        ensures !IsSplit(after, other)
      {
        if other == session {
          assert IsPlace(after, session, None);
        } else {
          var otherPlace := PlaceOf(doc, other);
          if otherPlace.Some? {
            PlacesAreApart(doc, session, place.value, other, otherPlace.value);
            DeleteKeepsPlace(doc, place.value, other, otherPlace.value);
            var range := otherPlace.value;
            assert IsPlace(after, other, Some(if place.value.pos <= range.pos then TextRange(range.pos - place.value.len, range.len) else range));
          } else {
            assert IsPlace(after, other, None);
          }
        }
      }
    }
  }

  /** The characters, with at least the marks they had. */
  ghost predicate Covers(cells: Doc, original: Doc) {
    && |cells| == |original|
    && forall i | 0 <= i < |cells| :: cells[i].c == original[i].c
         && forall key | key in original[i].attrs :: Carries(cells[i], key, original[i].attrs[key])
  }

  lemma {:induction false} FiltersSort(doc: Doc, session: string)
    ensures AllOwned(Mine(doc, session), session) && NoneOwned(Others(doc, session), session)
  {
    if doc != [] {
      FiltersSort(doc[..|doc| - 1], session);
    }
  }

  lemma {:induction false} MineIsThere(doc: Doc, session: string)
    ensures Mine(doc, session) != [] <==> Has(doc, session)
  {
    if doc != [] {
      var front, last := doc[..|doc| - 1], doc[|doc| - 1];
      MineIsThere(front, session);
      HasGrows(front, last, session);
      assert doc == front + [last];
    }
  }

  lemma HasGrows(front: Doc, last: Cell, session: string)
    ensures Has(front + [last], session) <==> Has(front, session) || OwnedBy(last, session)
  {
    var doc := front + [last];
    if Has(front, session) {
      var p :| 0 <= p < |front| && OwnedBy(front[p], session);
      assert OwnedBy(doc[p], session);
    }
    if OwnedBy(last, session) {
      assert OwnedBy(doc[|front|], session);
    }
    if Has(doc, session) {
      var p :| 0 <= p < |doc| && OwnedBy(doc[p], session);
      assert p < |front| ==> OwnedBy(front[p], session);
    }
  }

  lemma MineIsOwned(doc: Doc, session: string)
    ensures AllOwned(Mine(doc, session), session) && NoneOwned(Others(doc, session), session)
    ensures Mine(doc, session) != [] <==> Has(doc, session)
  {
    FiltersSort(doc, session);
    MineIsThere(doc, session);
  }

  lemma OverCovers(inherited: Attrs, cells: Doc, original: Doc, session: string)
    requires Covers(cells, original) && AllOwned(cells, session)
    ensures Covers(Over(inherited, cells), original) && AllOwned(Over(inherited, cells), session)
  {
  }

  /** Another session's characters are not this one's. */
  lemma OwnersDiffer(cells: Doc, session: string, other: string)
    requires AllOwned(cells, session) && other != session
    ensures NoneOwned(cells, other)
  {
  }

  /** The copy holds the section with every mark it had, and clearing it again gives the target back exactly. */
  lemma CopyHoldsSection(target: Doc, source: Doc, session: string, later: seq<string>, inherit: Inherit, original: Doc)
    requires Covers(Mine(source, session), original)
    requires Has(target, session) ==> Covers(Mine(target, session), original)
    ensures Covers(Mine(Copied(target, source, session, later, inherit), session), original)
    ensures !Has(target, session) ==> Others(Copied(target, source, session, later, inherit), session) == target
  {
    MineIsOwned(source, session);
    MineIsOwned(target, session);
    if Has(source, session) && !Has(target, session) {
      var pos := Anchor(target, later);
      OverCovers(inherit(target, pos), Mine(source, session), original, session);
      InsertPlaces(target, pos, Over(inherit(target, pos), Mine(source, session)), session);
    } else if !Has(target, session) {
      FreeFilter(target, session);
    }
  }

  lemma CopyLeavesOthers(target: Doc, source: Doc, session: string, later: seq<string>, inherit: Inherit, other: string)
    requires other != session
    ensures Mine(Copied(target, source, session, later, inherit), other) == Mine(target, other)
  {
    MineIsOwned(source, session);
    if Has(source, session) && !Has(target, session) {
      var pos := Anchor(target, later);
      var cells := Over(inherit(target, pos), Mine(source, session));
      OverCovers(inherit(target, pos), Mine(source, session), Mine(source, session), session);
      OwnersDiffer(cells, session, other);
      InsertKeepsMine(target, pos, cells, other);
    }
  }

  lemma AnchorIsBetween(doc: Doc, later: seq<string>, value: Value)
    requires IsWellOwned(doc) && 0 < Anchor(doc, later) < |doc|
    ensures !Carries(doc[Anchor(doc, later) - 1], SESSION_ID, value) || !Carries(doc[Anchor(doc, later)], SESSION_ID, value)
  {
    var pos := Anchor(doc, later);
    if Carries(doc[pos - 1], SESSION_ID, value) {
      assert value.Str? && OwnedBy(doc[pos - 1], value.s);
      var place := PlaceOf(doc, value.s);
      AnchorIsOutside(doc, later, value.s, place.value);
      assert !OwnedBy(doc[pos], value.s);
    }
  }

  /** Text put in at an anchor takes over no session's mark: both its neighbours would have to carry it. */
  lemma AnchorIsOwnedByNone(doc: Doc, later: seq<string>, inherit: Inherit)
    requires IsOrderly(inherit) && IsWellOwned(doc)
    ensures SESSION_ID !in inherit(doc, Anchor(doc, later))
  {
    var pos := Anchor(doc, later);
    assert !Expands(SESSION_ID);
    if SESSION_ID in inherit(doc, pos) {
      AnchorIsBetween(doc, later, inherit(doc, pos)[SESSION_ID]);
    }
  }

  lemma CopiedAt(target: Doc, source: Doc, session: string, later: seq<string>, inherit: Inherit, i: nat)
    requires Has(source, session) && !Has(target, session) && i < |Mine(source, session)|
    ensures var pos, original, after := Anchor(target, later), Mine(source, session)[i], Copied(target, source, session, later, inherit);
      pos + i < |after| && after[pos + i] == Cell(original.c, inherit(target, pos) + original.attrs)
  {
    var pos := Anchor(target, later);
    InsertedAt(target, pos, Over(inherit(target, pos), Mine(source, session)), i);
  }

  lemma InsertedAt(doc: Doc, pos: nat, cells: Doc, i: nat)
    requires pos <= |doc| && i < |cells|
    ensures Insert(doc, pos, cells)[pos + i] == cells[i]
  {
  }

  /** A mark that does not expand is on a copied character exactly when it was on the original, with its value;
      the one exception is a mark, never a session's, that both neighbours of the copy carry with one value. */
  lemma CopyMarksExactly(target: Doc, source: Doc, session: string, later: seq<string>, inherit: Inherit, i: nat, key: string)
    requires IsOrderly(inherit) && IsWellOwned(target) && Has(source, session) && !Has(target, session)
    requires i < |Mine(source, session)| && !Expands(key)
    ensures var pos, original := Anchor(target, later), Mine(source, session)[i];
      var after := Copied(target, source, session, later, inherit);
      && pos + i < |after| && after[pos + i].c == original.c
      && (key in original.attrs ==> Carries(after[pos + i], key, original.attrs[key]))
      && (key in after[pos + i].attrs && key !in original.attrs ==>
        && key != SESSION_ID && 0 < pos < |target|
        && Carries(target[pos - 1], key, after[pos + i].attrs[key]) && Carries(target[pos], key, after[pos + i].attrs[key]))
  {
    AnchorIsOwnedByNone(target, later, inherit);
    CopiedAt(target, source, session, later, inherit, i);
  }

  /** Once the section is there, or when there is none, copying again changes nothing. */
  lemma CopyTwiceIsOnce(target: Doc, source: Doc, session: string, later: seq<string>, later': seq<string>, inherit: Inherit)
    ensures var once := Copied(target, source, session, later, inherit);
      Copied(once, source, session, later', inherit) == once
  {
    CopyHoldsSectionOf(target, source, session, later, inherit);
  }

  lemma CopyHoldsSectionOf(target: Doc, source: Doc, session: string, later: seq<string>, inherit: Inherit)
    ensures Has(source, session) ==> Has(Copied(target, source, session, later, inherit), session)
  {
    if Has(source, session) && !Has(target, session) {
      MineIsOwned(source, session);
      CopyHoldsSection(target, source, session, later, inherit, Mine(source, session));
      MineIsOwned(Copied(target, source, session, later, inherit), session);
    }
  }

  /** Clearing empties the session's text, leaves the others', and doing it again changes nothing. */
  lemma ClearLeavesOthers(doc: Doc, session: string, other: string)
    ensures Mine(Others(doc, session), session) == [] && !Has(Others(doc, session), session)
    ensures other != session ==> Mine(Others(doc, session), other) == Mine(doc, other)
    ensures Others(Others(doc, session), session) == Others(doc, session)
  {
    MineIsOwned(doc, session);
    FreeFilter(Others(doc, session), session);
    if other != session {
      FiltersCommute(doc, session, other);
    }
  }

  lemma {:induction false} FiltersCommute(doc: Doc, session: string, other: string)
    requires other != session
    ensures Mine(Others(doc, session), other) == Mine(doc, other)
  {
    if doc != [] {
      var front, last := doc[..|doc| - 1], doc[|doc| - 1];
      FiltersCommute(front, session, other);
      if OwnedBy(last, session) {
        assert Others(front, session) + [] == Others(front, session);
      } else {
        assert (Others(front, session) + [last])[..|Others(front, session)|] == Others(front, session);
      }
    }
  }

  // ----- a copy that fails half-way

  /** The first `kept` characters are the session's and the rest are nobody's. */
  ghost predicate IsPartlyOwned(cells: Doc, session: string, kept: nat) {
    && kept <= |cells| && AllOwned(cells[..kept], session)
    && forall i | kept <= i < |cells| :: SESSION_ID !in cells[i].attrs
  }

  /** What a copy that fails among its marks has put into the target: all of the text, marked up to some character. */
  ghost predicate IsHalfCopy(source: Doc, session: string, cells: Doc, kept: nat) {
    && Has(source, session) && |cells| == |Mine(source, session)| && IsPartlyOwned(cells, session, kept)
    && forall i | 0 <= i < |cells| :: cells[i].c == Mine(source, session)[i].c
  }

  lemma PartsAreNobodys(cells: Doc, session: string, kept: nat, other: string)
    requires IsPartlyOwned(cells, session, kept) && other != session
    ensures NoneOwned(cells, other) && HasReadableMarks(cells)
  {
    forall p | 0 <= p < |cells|
      ensures !OwnedBy(cells[p], other) && (SESSION_ID in cells[p].attrs ==> cells[p].attrs[SESSION_ID].Str?)
    {
      if p < kept {
        assert OwnedBy(cells[..kept][p], session);
      }
    }
  }

  lemma HalfIsMine(doc: Doc, pos: nat, cells: Doc, session: string, kept: nat)
    requires pos <= |doc| && NoneOwned(doc, session) && IsPartlyOwned(cells, session, kept)
    ensures Mine(Insert(doc, pos, cells), session) == cells[..kept]
    ensures !IsSplit(Insert(doc, pos, cells), session)
  {
    var before, own, after := doc[..pos], cells[..kept], cells[kept..] + doc[pos..];
    var whole := Insert(doc, pos, cells);
    assert whole == before + own + after;
    assert NoneOwned(after, session);
    MineThree(before, own, after, session);
    if kept == 0 {
      assert NoneOwned(whole, session);
      assert IsPlace(whole, session, None);
    } else {
      InsertPlaceAt(doc[..pos] + after, pos, own, session);
      assert Insert(doc[..pos] + after, pos, own) == whole;
      assert IsPlace(whole, session, Some(TextRange(pos, kept)));
    }
  }

  /** A copy that fails half-way leaves the target well owned, every other session's text as it was, and the session
      with the characters that were marked. */
  lemma HalfCopyLeaves(target: Doc, session: string, later: seq<string>, cells: Doc, kept: nat)
    requires IsWellOwned(target) && !Has(target, session) && IsPartlyOwned(cells, session, kept)
    ensures var after := Insert(target, Anchor(target, later), cells);
      && IsWellOwned(after) && Mine(after, session) == cells[..kept]
      && forall other | other != session :: Mine(after, other) == Mine(target, other)
  {
    var pos := Anchor(target, later);
    var after := Insert(target, pos, cells);
    HalfIsMine(target, pos, cells, session, kept);
    PartsAreNobodys(cells, session, kept, session + ".");
    assert HasReadableMarks(target[..pos]) && HasReadableMarks(target[pos..]);
    ReadableConcat(target[..pos], cells);
    ReadableConcat(target[..pos] + cells, target[pos..]);
    forall other: string | other != session
      ensures !IsSplit(after, other) && Mine(after, other) == Mine(target, other)
    {
      PartsAreNobodys(cells, session, kept, other);
      InsertKeepsOther(target, pos, cells, later, other);
      InsertKeepsMine(target, pos, cells, other);
    }
  }

  // ----- recording order

  /** The session a character belongs to, when it is one of those with a known recording time. */
  predicate IsRanked(cell: Cell, times: map<string, int>) {
    SESSION_ID in cell.attrs && cell.attrs[SESSION_ID].Str? && cell.attrs[SESSION_ID].s in times
  }

  function TimeOf(cell: Cell, times: map<string, int>): int
    requires IsRanked(cell, times)
  {
    times[cell.attrs[SESSION_ID].s]
  }

  /** The sections read in the order they were recorded. */
  ghost predicate IsInOrder(doc: Doc, times: map<string, int>) {
    forall i, j | 0 <= i < j < |doc| && IsRanked(doc[i], times) && IsRanked(doc[j], times) :: TimeOf(doc[i], times) <= TimeOf(doc[j], times)
  }

  /** `later` lists the document's sessions recorded after the moved one, and no others. */
  ghost predicate ListsLater(doc: Doc, later: seq<string>, session: string, times: map<string, int>) {
    && session in times
    && (forall s | s in later :: s in times && times[s] > times[session])
    && (forall p | 0 <= p < |doc| && IsRanked(doc[p], times) && TimeOf(doc[p], times) > times[session] ::
          doc[p].attrs[SESSION_ID].s in later)
  }

  ghost predicate IsLater(cell: Cell, session: string, times: map<string, int>)
    requires session in times
  {
    IsRanked(cell, times) && TimeOf(cell, times) > times[session]
  }

  /** The anchor stands at this session's text, and none of those listed before has any. */
  ghost predicate IsFirstListed(doc: Doc, later: seq<string>, i: nat)
    requires Anchor(doc, later) < |doc|
  {
    i < |later| && OwnedBy(doc[Anchor(doc, later)], later[i]) && forall j | 0 <= j < i :: !Has(doc, later[j])
  }

  lemma {:induction false} AnchorMeets(doc: Doc, later: seq<string>)
    ensures Anchor(doc, later) == |doc| ==> forall s | s in later :: !Has(doc, s)
    ensures Anchor(doc, later) < |doc| ==> exists i: nat :: IsFirstListed(doc, later, i)
  {
    if later != [] {
      if Has(doc, later[0]) {
        assert IsFirstListed(doc, later, 0);
      } else {
        AnchorMeets(doc, later[1..]);
        if Anchor(doc, later[1..]) < |doc| {
          var i: nat :| IsFirstListed(doc, later[1..], i);
          assert forall j | 0 < j < i + 1 :: later[j] == later[1..][j - 1];
          assert IsFirstListed(doc, later, i + 1);
        }
      }
    }
  }

  /** What stands after the anchor was recorded later than the moved session. */
  lemma AfterAnchorIsLater(doc: Doc, later: seq<string>, session: string, times: map<string, int>)
    requires ListsLater(doc, later, session, times) && IsInOrder(doc, times)
    ensures forall p | Anchor(doc, later) <= p < |doc| && IsRanked(doc[p], times) :: TimeOf(doc[p], times) > times[session]
    ensures Anchor(doc, later) == |doc| ==> forall p | 0 <= p < |doc| :: !IsLater(doc[p], session, times)
  {
    var pos := Anchor(doc, later);
    AnchorMeets(doc, later);
    if pos < |doc| {
      assert IsLater(doc[pos], session, times);
    } else {
      forall p | 0 <= p < |doc|
        ensures !IsLater(doc[p], session, times)
      {
        if IsLater(doc[p], session, times) {
          assert OwnedBy(doc[p], doc[p].attrs[SESSION_ID].s);
        }
      }
    }
  }

  /** The order is kept exactly when no later section stands before the anchor. */
  lemma CopyKeepsOrder(target: Doc, later: seq<string>, session: string, cells: Doc, times: map<string, int>)
    requires ListsLater(target, later, session, times) && IsInOrder(target, times) && cells != [] && AllOwned(cells, session)
    ensures IsInOrder(Insert(target, Anchor(target, later), cells), times)
      <==> forall p | 0 <= p < Anchor(target, later) :: !IsLater(target[p], session, times)
  {
    var pos := Anchor(target, later);
    var after := Insert(target, pos, cells);
    AfterAnchorIsLater(target, later, session, times);
    assert forall p | 0 <= p < |after| :: after[p] == if p < pos then target[p] else if p < pos + |cells| then cells[p - pos] else target[p - |cells|];
    assert after[pos] == cells[0] && IsRanked(cells[0], times) && TimeOf(cells[0], times) == times[session];
    if IsInOrder(after, times) {
      forall p | 0 <= p < pos
        ensures !IsLater(target[p], session, times)
      {
        assert after[p] == target[p];
      }
    }
  }

  /** It always is when the list is by recording time and no two listed sections share one. */
  lemma DistinctTimesKeepOrder(target: Doc, later: seq<string>, session: string, times: map<string, int>)
    requires ListsLater(target, later, session, times) && IsInOrder(target, times)
    requires forall i, j | 0 <= i < j < |later| :: times[later[i]] < times[later[j]]
    requires IsWellOwned(target)
    ensures forall p | 0 <= p < Anchor(target, later) :: !IsLater(target[p], session, times)
  {
    var pos := Anchor(target, later);
    AnchorMeets(target, later);
    AfterAnchorIsLater(target, later, session, times);
    if pos < |target| {
      var i: nat :| IsFirstListed(target, later, i);
      forall p | 0 <= p < pos
        ensures !IsLater(target[p], session, times)
      {
        if IsLater(target[p], session, times) {
          var k :| 0 <= k < |later| && later[k] == target[p].attrs[SESSION_ID].s;
          assert OwnedBy(target[p], later[k]) && Has(target, later[k]);
          assert k == i;
          AnchorIsFirst(target, later, p);
        }
      }
    }
  }

  lemma {:induction false} AnchorIsFirst(doc: Doc, later: seq<string>, p: nat)
    requires p < Anchor(doc, later) < |doc|
    ensures forall s | OwnedBy(doc[Anchor(doc, later)], s) :: !OwnedBy(doc[p], s)
  {
    if !Has(doc, later[0]) {
      AnchorIsFirst(doc, later[1..], p);
    }
  }

  /** One character of a session's. */
  function Letter(c: char, session: string): Cell {
    Cell(c, map[SESSION_ID := Str(session)])
  }

  /** Two sections recorded in the same second stand in the order they arrived, here `u` before `t`'s turn in
      the list; a section recorded before both then lands between them. */
  lemma TieSplitsOrder(inherit: Inherit, target: Doc, source: Doc, later: seq<string>, times: map<string, int>)
    requires target == [Letter('u', "u"), Letter('t', "t")] && source == [Letter('s', "s")]
    requires later == ["t", "u"] && times == map["s" := 5, "t" := 10, "u" := 10]
    ensures IsInOrder(target, times) && ListsLater(target, later, "s", times)
    ensures !IsInOrder(Copied(target, source, "s", later, inherit), times)
  {
    var pos := FirstOwned(target, "t");
    assert OwnedBy(target[1], "t") && !OwnedBy(target[0], "t");
    assert pos == 1 && Anchor(target, later) == pos;
    assert OwnedBy(source[0], "s") && !OwnedBy(target[0], "s") && !OwnedBy(target[1], "s");
    MineIsOwned(source, "s");
    var cells := Over(inherit(target, pos), Mine(source, "s"));
    OverCovers(inherit(target, pos), Mine(source, "s"), Mine(source, "s"), "s");
    CopyKeepsOrder(target, later, "s", cells, times);
    assert IsLater(target[0], "s", times);
  }
}
