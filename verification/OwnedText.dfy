/** The text a session owns in a styled document: where it is, and what is left without it. */
module OwnedText {
  import opened Prelude
  import opened MarkedRanges
  import opened StyledText

  predicate OwnedBy(cell: Cell, session: string) {
    SESSION_ID in cell.attrs && cell.attrs[SESSION_ID] == Str(session)
  }

  /** Where the session's text is: nowhere, or one stretch. */
  ghost predicate IsPlace(doc: Doc, session: string, place: Option<TextRange>) {
    match place
    case None => forall p | 0 <= p < |doc| :: !OwnedBy(doc[p], session)
    case Some(range) => IsPlaceAt(doc, session, range)
  }

  ghost predicate IsPlaceAt(doc: Doc, session: string, range: TextRange) {
    0 < range.len && range.pos + range.len <= |doc|
    && forall p | 0 <= p < |doc| :: OwnedBy(doc[p], session) <==> range.pos <= p < range.pos + range.len
  }

  /** Every session mark is a string. */
  ghost predicate HasReadableMarks(doc: Doc) {
    forall p | 0 <= p < |doc| :: SESSION_ID in doc[p].attrs ==> doc[p].attrs[SESSION_ID].Str?
  }

  /** The session's text has no single place. */
  ghost predicate IsSplit(doc: Doc, session: string) {
    forall place :: !IsPlace(doc, session, place)
  }

  lemma HitsAreOwned(doc: Doc, session: string)
    ensures forall p | 0 <= p < |doc| :: Hits(doc, OfSession(session))[p] == OwnedBy(doc[p], session)
  {
  }

  lemma StretchIsPlace(doc: Doc, session: string, range: TextRange)
    ensures IsStretch(Hits(doc, OfSession(session)), range) <==> IsPlaceAt(doc, session, range)
  {
    HitsAreOwned(doc, session);
    var hits := Hits(doc, OfSession(session));
    if IsStretch(hits, range) {
      forall p | 0 <= p < |doc|
        ensures OwnedBy(doc[p], session) <==> range.pos <= p < range.pos + range.len
      {
        assert hits[p] == OwnedBy(doc[p], session);
      }
    }
    if IsPlaceAt(doc, session, range) {
      forall p | 0 <= p < |hits|
        ensures hits[p] <==> range.pos <= p < range.pos + range.len
      {
        assert hits[p] == OwnedBy(doc[p], session);
      }
    }
  }

  lemma PlaceIsUnique(doc: Doc, session: string, a: Option<TextRange>, b: Option<TextRange>)
    requires IsPlace(doc, session, a) && IsPlace(doc, session, b)
    ensures a == b
  {
    if a.Some? {
      assert OwnedBy(doc[a.value.pos], session) && OwnedBy(doc[a.value.pos + a.value.len - 1], session);
    }
    if b.Some? {
      assert OwnedBy(doc[b.value.pos], session) && OwnedBy(doc[b.value.pos + b.value.len - 1], session);
    }
  }

  // ----- reading the marks of a Delta

  ghost predicate AreReadable(segments: seq<Segment>) {
    forall i | 0 <= i < |segments| :: !MarksAreMalformed(AttrsOf(segments[i]), OfSession(""))
  }

  lemma {:induction false} ReadableSegments(segments: seq<Segment>)
    requires forall i | 0 <= i < |segments| :: IsRun(segments[i])
    ensures AreReadable(segments) <==> HasReadableMarks(Cells(segments))
  {
    if segments != [] {
      var n := |segments| - 1;
      ReadableSegments(segments[..n]);
      ReadableConcat(Cells(segments[..n]), Styled(TextOf(segments[n]), AttrsOf(segments[n])));
      assert AreReadable(segments) <==> AreReadable(segments[..n]) && !MarksAreMalformed(AttrsOf(segments[n]), OfSession("")) by {
        assert segments == segments[..n] + [segments[n]];
      }
      ReadableRun(TextOf(segments[n]), AttrsOf(segments[n]));
    }
  }

  lemma ReadableConcat(a: Doc, b: Doc)
    ensures HasReadableMarks(a + b) <==> HasReadableMarks(a) && HasReadableMarks(b)
  {
    if HasReadableMarks(a + b) {
      assert forall p | 0 <= p < |a| :: (a + b)[p] == a[p];
      assert forall p | 0 <= p < |b| :: (a + b)[|a| + p] == b[p];
    }
  }

  lemma ReadableRun(text: string, attrs: Attrs)
    requires text != ""
    ensures HasReadableMarks(Styled(text, attrs)) <==> !MarksAreMalformed(attrs, OfSession(""))
  {
    assert Styled(text, attrs)[0].attrs == attrs;
  }

  /** The session's place in an open document, when its marks can be read and its text is not split. */
  method FindPlace(editor: Editor, session: string) returns (r: Result<Option<TextRange>, SearchError>)
    ensures r.Ok? <==> HasReadableMarks(editor.doc) && !IsSplit(editor.doc, session)
    ensures r.Ok? ==> IsPlace(editor.doc, session, r.value)
  {
    var delta := editor.GetDelta();
    r := SessionSectionRange(delta, session);
    ReadableSegments(delta);
    PlaceFromSearch(delta, editor.doc, session, r);
  }

  lemma PlaceFromSearch(delta: seq<Segment>, doc: Doc, session: string, r: Result<Option<TextRange>, SearchError>)
    requires Cells(delta) == doc && (AreReadable(delta) <==> HasReadableMarks(doc))
    requires forall i | 0 <= i < |delta| :: IsRun(delta[i])
    requires r.Err? && !r.error.Split? <==> exists i | 0 <= i < |delta| :: SectionIsMalformed(delta[i])
    requires IsAnswer(Hits(doc, OfSession(session)), r)
    ensures r.Ok? <==> HasReadableMarks(doc) && !IsSplit(doc, session)
    ensures r.Ok? ==> IsPlace(doc, session, r.value)
  {
    MalformedSegments(delta, session);
    AnswerIsPlace(doc, session, r);
  }

  /** In a document's own Delta only a session mark can be malformed. */
  lemma MalformedSegments(delta: seq<Segment>, session: string)
    requires forall i | 0 <= i < |delta| :: IsRun(delta[i])
    ensures AreReadable(delta) <==> !exists i | 0 <= i < |delta| :: SectionIsMalformed(delta[i])
    ensures AreReadable(delta) <==> !exists i | 0 <= i < |delta| :: IsMalformed(delta[i], OfSession(session))
  {
    forall i | 0 <= i < |delta|
      ensures SectionIsMalformed(delta[i]) <==> MarksAreMalformed(AttrsOf(delta[i]), OfSession(""))
      ensures IsMalformed(delta[i], OfSession(session)) <==> MarksAreMalformed(AttrsOf(delta[i]), OfSession(""))
    {
      assert IsRun(delta[i]);
    }
  }

  lemma AnswerIsPlace(doc: Doc, session: string, r: Result<Option<TextRange>, SearchError>)
    requires IsAnswer(Hits(doc, OfSession(session)), r)
    ensures r.Ok? ==> IsPlace(doc, session, r.value) && !IsSplit(doc, session)
    ensures r.Err? && r.error.Split? ==> IsSplit(doc, session)
  {
    match r {
      case Ok(None) =>
        HitsAreOwned(doc, session);
        forall p | 0 <= p < |doc|
          ensures !OwnedBy(doc[p], session)
        {
          assert Hits(doc, OfSession(session))[p] == OwnedBy(doc[p], session);
        }
        assert IsPlace(doc, session, None);
      case Ok(Some(range)) =>
        StretchIsPlace(doc, session, range);
        assert IsPlace(doc, session, Some(range));
      case Err(error) =>
        if error.Split? {
          SplitSearch(doc, session);
        }
    }
  }

  lemma SplitSearch(doc: Doc, session: string)
    requires exists p | 0 <= p < |doc| :: Hits(doc, OfSession(session))[p]
    requires forall range :: !IsStretch(Hits(doc, OfSession(session)), range)
    ensures IsSplit(doc, session)
  {
    HitsAreOwned(doc, session);
    var p :| 0 <= p < |doc| && Hits(doc, OfSession(session))[p];
    assert OwnedBy(doc[p], session);
    forall place: Option<TextRange>
      ensures !IsPlace(doc, session, place)
    {
      if place.Some? {
        StretchIsPlace(doc, session, place.value);
      }
    }
  }

  // ----- the text without the session's

  function Others(doc: Doc, session: string): Doc {
    if doc == [] then []
    else Others(doc[..|doc| - 1], session) + if OwnedBy(doc[|doc| - 1], session) then [] else [doc[|doc| - 1]]
  }

  /** The session's own text. */
  function Mine(doc: Doc, session: string): Doc {
    if doc == [] then []
    else Mine(doc[..|doc| - 1], session) + if OwnedBy(doc[|doc| - 1], session) then [doc[|doc| - 1]] else []
  }

  lemma {:induction false} FilterConcat(a: Doc, b: Doc, session: string)
    ensures Others(a + b, session) == Others(a, session) + Others(b, session)
    ensures Mine(a + b, session) == Mine(a, session) + Mine(b, session)
  {
    if b == [] {
      assert a + b == a;
    } else {
      FilterConcat(a, b[..|b| - 1], session);
      assert (a + b)[..|a + b| - 1] == a + b[..|b| - 1];
    }
  }

  ghost predicate AllOwned(doc: Doc, session: string) {
    forall p | 0 <= p < |doc| :: OwnedBy(doc[p], session)
  }

  ghost predicate NoneOwned(doc: Doc, session: string) {
    forall p | 0 <= p < |doc| :: !OwnedBy(doc[p], session)
  }

  lemma {:induction false} OwnedFilter(doc: Doc, session: string)
    requires AllOwned(doc, session)
    ensures Others(doc, session) == [] && Mine(doc, session) == doc
  {
    if doc != [] {
      OwnedFilter(doc[..|doc| - 1], session);
    }
  }

  lemma {:induction false} FreeFilter(doc: Doc, session: string)
    requires NoneOwned(doc, session)
    ensures Others(doc, session) == doc && Mine(doc, session) == []
  {
    if doc != [] {
      FreeFilter(doc[..|doc| - 1], session);
    }
  }

  function Cleared(doc: Doc, place: Option<TextRange>): Doc
    requires place.Some? ==> place.value.pos + place.value.len <= |doc|
  {
    if place.Some? then Delete(doc, place.value) else doc
  }

  lemma OthersThree(before: Doc, own: Doc, after: Doc, session: string)
    requires NoneOwned(before, session) && AllOwned(own, session) && NoneOwned(after, session)
    ensures Others(before + own + after, session) == before + after
  {
    calc {
      Others(before + own + after, session);
    == { FilterConcat(before + own, after, session); }
      Others(before + own, session) + Others(after, session);
    == { FilterConcat(before, own, session); }
      Others(before, session) + Others(own, session) + Others(after, session);
    == { FreeFilter(before, session); OwnedFilter(own, session); FreeFilter(after, session); }
      before + [] + after;
    ==
      before + after;
    }
  }

  lemma MineThree(before: Doc, own: Doc, after: Doc, session: string)
    requires NoneOwned(before, session) && AllOwned(own, session) && NoneOwned(after, session)
    ensures Mine(before + own + after, session) == own
  {
    calc {
      Mine(before + own + after, session);
    == { FilterConcat(before + own, after, session); }
      Mine(before + own, session) + Mine(after, session);
    == { FilterConcat(before, own, session); }
      Mine(before, session) + Mine(own, session) + Mine(after, session);
    == { FreeFilter(before, session); OwnedFilter(own, session); FreeFilter(after, session); }
      [] + own + [];
    ==
      own;
    }
  }

  /** Clearing the section leaves exactly the text that is not the session's. */
  lemma ClearedIsOthers(doc: Doc, session: string, place: Option<TextRange>)
    requires IsPlace(doc, session, place)
    ensures place.Some? ==> place.value.pos + place.value.len <= |doc|
    ensures Cleared(doc, place) == Others(doc, session) && NoneOwned(Cleared(doc, place), session)
    ensures Mine(doc, session) == if place.Some? then doc[place.value.pos..place.value.pos + place.value.len] else []
  {
    if place.None? {
      FreeFilter(doc, session);
    } else {
      var r := place.value;
      var before, own, after := doc[..r.pos], doc[r.pos..r.pos + r.len], doc[r.pos + r.len..];
      assert doc == before + own + after;
      OthersThree(before, own, after, session);
      MineThree(before, own, after, session);
    }
  }

  lemma InsertPlaceAt(base: Doc, pos: nat, cells: Doc, session: string)
    requires NoneOwned(base, session) && AllOwned(cells, session) && cells != [] && pos <= |base|
    ensures IsPlaceAt(Insert(base, pos, cells), session, TextRange(pos, |cells|))
  {
    var after := Insert(base, pos, cells);
    forall p | 0 <= p < |after|
      ensures OwnedBy(after[p], session) <==> pos <= p < pos + |cells|
    {
      assert after[p] == if p < pos then base[p] else if p < pos + |cells| then cells[p - pos] else base[p - |cells|];
    }
  }

  /** Text put into a document that had none of the session's is the session's one stretch. */
  lemma InsertPlaces(base: Doc, pos: nat, cells: Doc, session: string)
    requires NoneOwned(base, session) && AllOwned(cells, session) && cells != [] && pos <= |base|
    ensures var (after, range) := (Insert(base, pos, cells), TextRange(pos, |cells|));
      && IsPlace(after, session, Some(range)) && Delete(after, range) == base
      && Others(after, session) == base && Mine(after, session) == cells
  {
    InsertPlaceAt(base, pos, cells, session);
    OthersThree(base[..pos], cells, base[pos..], session);
    MineThree(base[..pos], cells, base[pos..], session);
    assert base[..pos] + base[pos..] == base;
  }

  /** Another session's text stays where it is among the rest. */
  lemma InsertKeepsMine(base: Doc, pos: nat, cells: Doc, session: string)
    requires NoneOwned(cells, session) && pos <= |base|
    ensures Mine(Insert(base, pos, cells), session) == Mine(base, session)
  {
    calc {
      Mine(Insert(base, pos, cells), session);
    == { FilterConcat(base[..pos] + cells, base[pos..], session); }
      Mine(base[..pos] + cells, session) + Mine(base[pos..], session);
    == { FilterConcat(base[..pos], cells, session); FreeFilter(cells, session); }
      Mine(base[..pos], session) + [] + Mine(base[pos..], session);
    == { FilterConcat(base[..pos], base[pos..], session); }
      Mine(base[..pos] + base[pos..], session);
    == { assert base[..pos] + base[pos..] == base; }
      Mine(base, session);
    }
  }
}
