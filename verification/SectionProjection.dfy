/** Writing a recording's transcript into its section of a shared document
    (crates/vt-ffi/src/notebook_api.rs:540-684, 744-809). */
module SectionProjection {
  import opened Prelude
  import opened MarkedRanges
  import opened StyledText
  import opened OwnedText
  import Numerals

  // ----- the rendered section

  datatype Spoken = Spoken(id: string, timestampMs: nat, text: string)

  function TwoDigits(n: nat): string {
    (if n < 10 then "0" else "") + Numerals.Decimal(n)
  }

  function FormatTimestamp(ms: nat): string {
    var total := ms / 1000;
    var (hours, minutes, seconds) := (total / 3600, total % 3600 / 60, total % 60);
    (if hours > 0 then TwoDigits(hours) + ":" else "") + TwoDigits(minutes) + ":" + TwoDigits(seconds)
  }

  function Heading(session: string, title: Option<string>, separated: bool): string {
    (if separated then "\n\n" else "") + "## " + (if title.Some? then title.value else session) + "\n"
  }

  function BlockText(block: Spoken): string {
    "[" + FormatTimestamp(block.timestampMs) + "]\n" + block.text
  }

  function BlockMarks(block: Spoken): Attrs {
    map["segment_id" := Str(block.id), "timestamp_ms" := Number(block.timestampMs)]
  }

  /** The blocks, each under its own marks, an unmarked blank line between any two. */
  function Blocks(blocks: seq<Spoken>): Doc {
    if blocks == [] then []
    else
      var n := |blocks| - 1;
      Blocks(blocks[..n]) + (if n > 0 then Styled("\n\n", map[]) else []) + Styled(BlockText(blocks[n]), BlockMarks(blocks[n]))
  }

  function Owned(session: string, cells: Doc): (r: Doc)
    ensures |r| == |cells|
    ensures forall i | 0 <= i < |cells| :: r[i] == Cell(cells[i].c, cells[i].attrs[SESSION_ID := Str(session)])
  {
    MarkRange(cells, Mark(0, |cells|, SESSION_ID, Str(session)))
  }

  function Rendered(session: string, title: Option<string>, blocks: seq<Spoken>, separated: bool): Doc {
    Owned(session, Styled(Heading(session, title, separated), map[]) + Blocks(blocks))
  }

  /** Adds unmarked text. */
  method LiftPlain(section: FlatSection, text: string, ghost cells: Doc) returns (r: FlatSection)
    requires IsLift(section, cells)
    ensures IsLift(r, cells + Styled(text, map[]))
  {
    RestyleGrows(Styled(section.text, map[]), Styled(text, map[]), section.marks);
    assert Styled(section.text + text, map[]) == Styled(section.text, map[]) + Styled(text, map[]);
    r := FlatSection(section.text + text, section.marks);
  }

  method LiftBlock(section: FlatSection, block: Spoken, ghost cells: Doc) returns (r: FlatSection)
    requires IsLift(section, cells)
    ensures IsLift(r, cells + Styled(BlockText(block), BlockMarks(block)))
  {
    var start, text := |section.text|, BlockText(block);
    r := LiftPlain(section, text, cells);
    r := LiftMark(r, Mark(start, |text|, "segment_id", Str(block.id)), cells + Styled(text, map[]));
    MarkTail(cells, text, map[], "segment_id", Str(block.id));
    r := LiftMark(r, Mark(start, |text|, "timestamp_ms", Number(block.timestampMs)), cells + Styled(text, map["segment_id" := Str(block.id)]));
    MarkTail(cells, text, map["segment_id" := Str(block.id)], "timestamp_ms", Number(block.timestampMs));
  }

  method LiftMark(section: FlatSection, mark: Mark, ghost cells: Doc) returns (r: FlatSection)
    requires IsLift(section, cells) && mark.pos + mark.len <= |section.text|
    ensures r.text == section.text && IsLift(r, MarkRange(cells, mark))
  {
    assert (section.marks + [mark])[..|section.marks|] == section.marks;
    r := FlatSection(section.text, section.marks + [mark]);
  }

  /** Adds the block at `index`, after a blank line unless it is the first. */
  method LiftNext(section: FlatSection, blocks: seq<Spoken>, index: nat, ghost heading: Doc) returns (r: FlatSection)
    requires index < |blocks| && IsLift(section, heading + Blocks(blocks[..index]))
    ensures IsLift(r, heading + Blocks(blocks[..index + 1]))
  {
    ghost var cells := heading + Blocks(blocks[..index]);
    ghost var gap: Doc := [];
    r := section;
    if index > 0 {
      r := LiftPlain(r, "\n\n", cells);
      gap := Styled("\n\n", map[]);
    }
    assert cells + [] == cells;
    r := LiftBlock(r, blocks[index], cells + gap);
    NextBlock(heading, blocks, index, gap);
  }

  lemma NextBlock(heading: Doc, blocks: seq<Spoken>, index: nat, gap: Doc)
    requires index < |blocks| && gap == if index > 0 then Styled("\n\n", map[]) else []
    ensures heading + Blocks(blocks[..index]) + gap + Styled(BlockText(blocks[index]), BlockMarks(blocks[index]))
      == heading + Blocks(blocks[..index + 1])
  {
    assert blocks[..index + 1][..index] == blocks[..index];
  }

  method RenderTranscriptSection(session: string, title: Option<string>, blocks: seq<Spoken>, separated: bool)
      returns (r: FlatSection)
    ensures IsLift(r, Rendered(session, title, blocks, separated))
  {
    var text := if separated then "\n\n" else "";
    text := text + "## " + (if title.Some? then title.value else session) + "\n";
    ghost var heading := Styled(text, map[]);
    r := FlatSection(text, []);
    assert heading + Blocks(blocks[..0]) == heading;
    for index := 0 to |blocks|
      invariant IsLift(r, heading + Blocks(blocks[..index]))
    {
      r := LiftNext(r, blocks, index, heading);
    }
    assert blocks[..|blocks|] == blocks;
    r := LiftMark(r, Mark(0, |r.text|, SESSION_ID, Str(session)), heading + Blocks(blocks));
  }

  // ----- putting it in its place

  function InsertPos(doc: Doc, place: Option<TextRange>): nat {
    if place.Some? then place.value.pos else |doc|
  }

  /** The section as it lands in the document. */
  function NewSection(base: Doc, pos: nat, session: string, title: Option<string>, blocks: seq<Spoken>, inherit: Inherit): Doc {
    Over(inherit(base, pos), Rendered(session, title, blocks, pos > 0))
  }

  /** The document with the section rendered anew in its place, or at the end. */
  function Projected(doc: Doc, place: Option<TextRange>, session: string, title: Option<string>, blocks: seq<Spoken>, inherit: Inherit): Doc
    requires place.Some? ==> place.value.pos + place.value.len <= |doc|
  {
    var (base, pos) := (Cleared(doc, place), InsertPos(doc, place));
    Insert(base, pos, NewSection(base, pos, session, title, blocks, inherit))
  }

  /** The new section stands where the old one stood, between the text before it and the text behind it, or at the end of
      the document, with a blank line before it unless it is the first. */
  ghost predicate IsSynced(doc: Doc, after: Doc, place: Option<TextRange>, session: string, title: Option<string>, blocks: seq<Spoken>, inherit: Inherit) {
    match place
    case None => after == doc + Over(inherit(doc, |doc|), Rendered(session, title, blocks, doc != []))
    case Some(range) =>
      && range.pos + range.len <= |doc|
      && var (before, behind) := (doc[..range.pos], doc[range.pos + range.len..]);
         after == before + Over(inherit(before + behind, range.pos), Rendered(session, title, blocks, before != [])) + behind
  }

  lemma InsertsBack(doc: Doc, range: TextRange, cells: Doc)
    requires range.pos + range.len <= |doc|
    ensures Insert(Delete(doc, range), range.pos, cells) == doc[..range.pos] + cells + doc[range.pos + range.len..]
  {
    assert Delete(doc, range)[..range.pos] == doc[..range.pos];
    assert Delete(doc, range)[range.pos..] == doc[range.pos + range.len..];
  }

  lemma InsertsLast(doc: Doc, cells: Doc)
    ensures Insert(doc, |doc|, cells) == doc + cells
  {
  }

  lemma ProjectedIsSynced(doc: Doc, place: Option<TextRange>, session: string, title: Option<string>, blocks: seq<Spoken>, inherit: Inherit)
    requires place.Some? ==> place.value.pos + place.value.len <= |doc|
    ensures IsSynced(doc, Projected(doc, place, session, title, blocks, inherit), place, session, title, blocks, inherit)
  {
    var cells := NewSection(Cleared(doc, place), InsertPos(doc, place), session, title, blocks, inherit);
    if place.Some? {
      assert doc[..place.value.pos] != [] <==> place.value.pos > 0;
      InsertsBack(doc, place.value, cells);
    } else {
      InsertsLast(doc, cells);
    }
  }

  /** The session's text is replaced by the new section, or the document is left as it was: on a session mark
      that cannot be read, on split ownership, and when the new text cannot be stored. */
  method SyncSessionTranscript(editor: Editor, session: string, title: Option<string>, blocks: seq<Spoken>, stores: bool)
      returns (ok: bool, ghost place: Option<TextRange>)
    modifies editor`doc
    ensures ok <==> stores && HasReadableMarks(old(editor.doc)) && !IsSplit(old(editor.doc), session)
    ensures ok ==> IsPlace(old(editor.doc), session, place)
    ensures ok && place.Some? ==> place.value.pos + place.value.len <= |old(editor.doc)|
    ensures ok ==> editor.doc == Projected(old(editor.doc), place, session, title, blocks, editor.inherit)
    ensures ok ==> IsSynced(old(editor.doc), editor.doc, place, session, title, blocks, editor.inherit)
    ensures !ok ==> editor.doc == old(editor.doc)
  {
    var snapshot := editor.doc;
    place := None;
    var delta := editor.GetDelta();
    var found := FindUniqueMarkedRange(delta, OfSession(session));
    ReadableSegments(delta);
    FoundPlace(delta, snapshot, session, found);
    if found.Err? {
      return false, None;
    }
    place := found.value;
    var insertPos := |editor.doc|;
    if found.value.Some? {
      editor.DeleteRange(found.value.value);
      insertPos := found.value.value.pos;
    }
    WriteSection(editor, insertPos, session, title, blocks);
    if !stores {
      editor.doc := snapshot;
      return false, place;
    }
    ProjectedIsSynced(snapshot, place, session, title, blocks, editor.inherit);
    ok := true;
  }

  method WriteSection(editor: Editor, pos: nat, session: string, title: Option<string>, blocks: seq<Spoken>)
    requires pos <= |editor.doc|
    modifies editor`doc
    ensures editor.doc == Insert(old(editor.doc), pos, NewSection(old(editor.doc), pos, session, title, blocks, editor.inherit))
  {
    var rendered := RenderTranscriptSection(session, title, blocks, pos > 0);
    SpliceKeepsMarks(rendered, Rendered(session, title, blocks, pos > 0), editor.inherit(editor.doc, pos));
    editor.InsertMarked(pos, rendered.text, rendered.marks);
  }

  /** The search refuses exactly what the section resolver refuses, on a document's own Delta. */
  lemma FoundPlace(delta: seq<Segment>, doc: Doc, session: string, r: Result<Option<TextRange>, SearchError>)
    requires Cells(delta) == doc && (AreReadable(delta) <==> HasReadableMarks(doc))
    requires forall i | 0 <= i < |delta| :: IsRun(delta[i])
    requires r.Err? && !r.error.Split? <==> exists i | 0 <= i < |delta| :: IsMalformed(delta[i], OfSession(session))
    requires IsAnswer(Hits(doc, OfSession(session)), r)
    ensures r.Ok? <==> HasReadableMarks(doc) && !IsSplit(doc, session)
    ensures r.Ok? ==> IsPlace(doc, session, r.value)
  {
    MalformedSegments(delta, session);
    AnswerIsPlace(doc, session, r);
  }

  // ----- what a projection does to the document

  /** The text of the section is the session's, whatever it inherited. */
  lemma NewSectionIsOwned(base: Doc, pos: nat, session: string, title: Option<string>, blocks: seq<Spoken>, inherit: Inherit)
    ensures var cells := NewSection(base, pos, session, title, blocks, inherit);
      cells != [] && AllOwned(cells, session)
  {
    assert |Heading(session, title, pos > 0)| > 0;
  }

  /** A projection leaves every other character alone and leaves the session one stretch: the rendered section. */
  lemma ProjectionReplacesSection(doc: Doc, place: Option<TextRange>, session: string, title: Option<string>, blocks: seq<Spoken>, inherit: Inherit)
    requires IsPlace(doc, session, place)
    ensures place.Some? ==> place.value.pos + place.value.len <= |doc|
    ensures var (after, base, pos) := (Projected(doc, place, session, title, blocks, inherit), Cleared(doc, place), InsertPos(doc, place));
      var cells := NewSection(base, pos, session, title, blocks, inherit);
      && IsPlace(after, session, Some(TextRange(pos, |cells|)))
      && Others(after, session) == Others(doc, session) == base
      && Mine(after, session) == cells
      && Delete(after, TextRange(pos, |cells|)) == base
  {
    ClearedIsOthers(doc, session, place);
    var base, pos := Cleared(doc, place), InsertPos(doc, place);
    NewSectionIsOwned(base, pos, session, title, blocks, inherit);
    InsertPlaces(base, pos, NewSection(base, pos, session, title, blocks, inherit), session);
  }

  /** Projecting the same transcript again gives the identical document; projecting another one gives what it
      would have given at first. */
  lemma ProjectionsReplaceEachOther(doc: Doc, place: Option<TextRange>, first: Doc, again: Option<TextRange>, session: string,
                                    title: Option<string>, blocks: seq<Spoken>, title': Option<string>, blocks': seq<Spoken>, inherit: Inherit)
    requires IsPlace(doc, session, place) && (place.Some? ==> place.value.pos + place.value.len <= |doc|)
    requires first == Projected(doc, place, session, title, blocks, inherit) && IsPlace(first, session, again)
    ensures again.Some? && again.value.pos + again.value.len <= |first|
    ensures Projected(first, again, session, title', blocks', inherit) == Projected(doc, place, session, title', blocks', inherit)
  {
    ProjectionReplacesSection(doc, place, session, title, blocks, inherit);
    var pos := InsertPos(doc, place);
    var range := TextRange(pos, |NewSection(Cleared(doc, place), pos, session, title, blocks, inherit)|);
    PlaceIsUnique(first, session, again, Some(range));
  }

  // ----- the words of a section

  /** The parts one after the other, with the gap between any two. */
  function Joined(parts: seq<Doc>, gap: Doc): Doc {
    if parts == [] then []
    else
      var n := |parts| - 1;
      Joined(parts[..n], gap) + (if n > 0 then gap else []) + parts[n]
  }

  /** Where part `i` begins: behind the parts before it and a gap after each. */
  function Offset(parts: seq<Doc>, gap: Doc, i: nat): nat
    requires i <= |parts|
  {
    if i == 0 then 0 else Offset(parts, gap, i - 1) + |parts[i - 1]| + |gap|
  }

  ghost predicate Stands(whole: Doc, at: nat, part: Doc) {
    at + |part| <= |whole| && whole[at..at + |part|] == part
  }

  lemma {:induction false} OffsetInPrefix(parts: seq<Doc>, gap: Doc, n: nat, i: nat)
    requires i <= n <= |parts|
    ensures Offset(parts[..n], gap, i) == Offset(parts, gap, i)
  {
    if i > 0 {
      OffsetInPrefix(parts, gap, n, i - 1);
    }
  }

  lemma {:induction false} JoinedEnds(parts: seq<Doc>, gap: Doc)
    ensures |Joined(parts, gap)| + (if parts == [] then 0 else |gap|) == Offset(parts, gap, |parts|)
  {
    if parts != [] {
      JoinedEnds(parts[..|parts| - 1], gap);
      OffsetInPrefix(parts, gap, |parts| - 1, |parts| - 1);
    }
  }

  lemma StandsInLonger(whole: Doc, more: Doc, at: nat, part: Doc)
    requires Stands(whole, at, part)
    ensures Stands(whole + more, at, part)
  {
  }

  /** The last part stands at the end, behind a gap unless it is the only one. */
  lemma LastStands(front: Doc, gap: Doc, part: Doc)
    ensures Stands(front + (gap + part), |front| + |gap|, part) && Stands(front + (gap + part), |front|, gap)
  {
  }

  lemma JoinedSplit(parts: seq<Doc>, gap: Doc)
    requires parts != []
    ensures var n := |parts| - 1;
      Joined(parts, gap) == Joined(parts[..n], gap) + ((if n > 0 then gap else []) + parts[n])
  {
  }

  lemma LastPartStands(parts: seq<Doc>, gap: Doc)
    requires parts != []
    ensures var n := |parts| - 1; Stands(Joined(parts, gap), Offset(parts, gap, n), parts[n])
    ensures var n := |parts| - 1;
      n > 0 ==> Offset(parts, gap, n) >= |gap| && Stands(Joined(parts, gap), Offset(parts, gap, n) - |gap|, gap)
  {
    var n := |parts| - 1;
    JoinedSplit(parts, gap);
    if n == 0 {
      assert Joined(parts[..0], gap) == [] && [] + ([] + parts[0]) == parts[0];
      assert parts[0][0..0 + |parts[0]|] == parts[0];
    } else {
      OffsetInPrefix(parts, gap, n, n);
      JoinedEnds(parts[..n], gap);
      LastStands(Joined(parts[..n], gap), gap, parts[n]);
    }
  }

  lemma {:induction false} PartStands(parts: seq<Doc>, gap: Doc, i: nat)
    requires i < |parts|
    ensures Stands(Joined(parts, gap), Offset(parts, gap, i), parts[i])
    ensures i > 0 ==> Offset(parts, gap, i) >= |gap| && Stands(Joined(parts, gap), Offset(parts, gap, i) - |gap|, gap)
  {
    var n := |parts| - 1;
    if i == n {
      LastPartStands(parts, gap);
    } else {
      var front, more := Joined(parts[..n], gap), (if n > 0 then gap else []) + parts[n];
      JoinedSplit(parts, gap);
      OffsetInPrefix(parts, gap, n, i);
      PartStands(parts[..n], gap, i);
      StandsInLonger(front, more, Offset(parts, gap, i), parts[i]);
      if i > 0 {
        StandsInLonger(front, more, Offset(parts, gap, i) - |gap|, gap);
      }
    }
  }

  const BLANK: Doc := Styled("\n\n", map[])

  function Spelled(blocks: seq<Spoken>): (parts: seq<Doc>)
    ensures |parts| == |blocks|
  {
    seq(|blocks|, i requires 0 <= i < |blocks| => Styled(BlockText(blocks[i]), BlockMarks(blocks[i])))
  }

  lemma SpelledPrefix(blocks: seq<Spoken>, n: nat)
    requires n <= |blocks|
    ensures Spelled(blocks)[..n] == Spelled(blocks[..n])
  {
  }

  lemma {:induction false} BlocksAreJoined(blocks: seq<Spoken>)
    ensures Blocks(blocks) == Joined(Spelled(blocks), BLANK)
  {
    if blocks != [] {
      BlocksAreJoined(blocks[..|blocks| - 1]);
      SpelledPrefix(blocks, |blocks| - 1);
    }
  }

  /** What a block says: its time, and on the next line what was spoken. */
  function Words(block: Spoken): string {
    "[" + FormatTimestamp(block.timestampMs) + "]\n" + block.text
  }

  /** How many characters each block says. */
  function Spans(blocks: seq<Spoken>): (spans: seq<nat>)
    ensures |spans| == |blocks|
  {
    seq(|blocks|, i requires 0 <= i < |blocks| => |Words(blocks[i])|)
  }

  /** Where block `i` begins, counted from the end of the heading: behind the blocks before it and two characters after
      each. */
  function StartOf(spans: seq<nat>, i: nat): nat
    requires i <= |spans|
  {
    if i == 0 then 0 else StartOf(spans, i - 1) + spans[i - 1] + 2
  }

  lemma {:induction false} StartsAreOffsets(parts: seq<Doc>, gap: Doc, spans: seq<nat>, i: nat)
    requires i <= |parts| == |spans| && |gap| == 2 && forall k | 0 <= k < |parts| :: |parts[k]| == spans[k]
    ensures StartOf(spans, i) == Offset(parts, gap, i)
  {
    if i > 0 {
      StartsAreOffsets(parts, gap, spans, i - 1);
    }
  }

  lemma SpansFit(blocks: seq<Spoken>)
    ensures |BLANK| == 2 && forall k | 0 <= k < |blocks| :: |Spelled(blocks)[k]| == Spans(blocks)[k]
  {
  }

  /** The words stand at `at`, every character with these marks and the session's. */
  ghost predicate ReadsAt(cells: Doc, at: nat, words: string, marks: Attrs, session: string) {
    at + |words| <= |cells| && forall k | 0 <= k < |words| :: cells[at + k] == Cell(words[k], marks[SESSION_ID := Str(session)])
  }

  lemma OwnedReads(session: string, head: string, cells: Doc, at: nat, words: string, marks: Attrs)
    requires Stands(cells, at, Styled(words, marks))
    ensures ReadsAt(Owned(session, Styled(head, map[]) + cells), |head| + at, words, marks, session)
  {
    var plain, own := Styled(head, map[]) + cells, Styled(words, marks);
    forall k | 0 <= k < |words|
      ensures Owned(session, plain)[|head| + at + k] == Cell(words[k], marks[SESSION_ID := Str(session)])
    {
      assert plain[|head| + at + k] == cells[at + k] == cells[at..at + |own|][k] == own[k];
    }
  }

  /** The line a section begins with. */
  function HeadLine(session: string, title: Option<string>, separated: bool): string {
    (if separated then "\n\n## " else "## ") + (match title case Some(words) => words case None => session) + "\n"
  }

  lemma RenderedIs(session: string, title: Option<string>, blocks: seq<Spoken>, separated: bool)
    ensures Rendered(session, title, blocks, separated) ==
      Owned(session, Styled(HeadLine(session, title, separated), map[]) + Joined(Spelled(blocks), BLANK))
  {
    BlocksAreJoined(blocks);
    assert Heading(session, title, separated) == HeadLine(session, title, separated);
  }

  lemma SpokenStands(blocks: seq<Spoken>, i: nat)
    requires i < |blocks|
    ensures Stands(Joined(Spelled(blocks), BLANK), StartOf(Spans(blocks), i), Styled(Words(blocks[i]), BlockMarks(blocks[i])))
  {
    SpansFit(blocks);
    StartsAreOffsets(Spelled(blocks), BLANK, Spans(blocks), i);
    PartStands(Spelled(blocks), BLANK, i);
  }

  lemma GapStands(blocks: seq<Spoken>, i: nat)
    requires 0 < i < |blocks|
    ensures StartOf(Spans(blocks), i) >= 2 && Stands(Joined(Spelled(blocks), BLANK), StartOf(Spans(blocks), i) - 2, Styled("\n\n", map[]))
  {
    SpansFit(blocks);
    StartsAreOffsets(Spelled(blocks), BLANK, Spans(blocks), i);
    PartStands(Spelled(blocks), BLANK, i);
  }

  lemma HeadingReads(session: string, head: string, cells: Doc)
    ensures ReadsAt(Owned(session, Styled(head, map[]) + cells), 0, head, map[], session)
    ensures |Owned(session, Styled(head, map[]) + cells)| == |head| + |cells|
  {
    assert forall k | 0 <= k < |head| :: (Styled(head, map[]) + cells)[k] == Cell(head[k], map[]);
  }

  /** A section begins with its heading, unmarked but for the session, and ends with its last block. */
  lemma SectionBegins(session: string, title: Option<string>, blocks: seq<Spoken>, separated: bool)
    ensures ReadsAt(Rendered(session, title, blocks, separated), 0, HeadLine(session, title, separated), map[], session)
    ensures |Rendered(session, title, blocks, separated)| + (if blocks == [] then 0 else 2) ==
      |HeadLine(session, title, separated)| + StartOf(Spans(blocks), |blocks|)
  {
    var parts := Spelled(blocks);
    RenderedIs(session, title, blocks, separated);
    HeadingReads(session, HeadLine(session, title, separated), Joined(parts, BLANK));
    JoinedEnds(parts, BLANK);
    SpansFit(blocks);
    StartsAreOffsets(parts, BLANK, Spans(blocks), |blocks|);
  }

  /** Behind the heading come every block's words under the block's own marks, in order. */
  lemma SectionSpeaks(session: string, title: Option<string>, blocks: seq<Spoken>, separated: bool, i: nat)
    requires i < |blocks|
    ensures ReadsAt(Rendered(session, title, blocks, separated), |HeadLine(session, title, separated)| + StartOf(Spans(blocks), i),
      Words(blocks[i]), map["segment_id" := Str(blocks[i].id), "timestamp_ms" := Number(blocks[i].timestampMs)], session)
  {
    var head, parts := HeadLine(session, title, separated), Spelled(blocks);
    RenderedIs(session, title, blocks, separated);
    SpokenStands(blocks, i);
    OwnedReads(session, head, Joined(parts, BLANK), StartOf(Spans(blocks), i), Words(blocks[i]), BlockMarks(blocks[i]));
  }

  /** Before each but the first comes a blank line that is no block's. */
  lemma SectionSeparates(session: string, title: Option<string>, blocks: seq<Spoken>, separated: bool, i: nat)
    requires 0 < i < |blocks|
    ensures StartOf(Spans(blocks), i) >= 2
    ensures ReadsAt(Rendered(session, title, blocks, separated), |HeadLine(session, title, separated)| + (StartOf(Spans(blocks), i) - 2),
      "\n\n", map[], session)
  {
    GapStands(blocks, i);
    var at := StartOf(Spans(blocks), i) - 2;
    OwnedReads(session, HeadLine(session, title, separated), Joined(Spelled(blocks), BLANK), at, "\n\n", map[]);
    RenderedIs(session, title, blocks, separated);
  }

  // ----- the time of a block

  /** A time reads as hours, if there are any, minutes and seconds, which make up its seconds, each in two digits at
      least. */
  lemma StampReads(ms: nat) returns (h: nat, m: nat, s: nat)
    ensures 3600 * h + 60 * m + s == ms / 1000 && m < 60 && s < 60
    ensures FormatTimestamp(ms) == (if h == 0 then "" else TwoDigits(h) + ":") + TwoDigits(m) + ":" + TwoDigits(s)
  {
    var total := ms / 1000;
    h, m, s := total / 3600, total % 3600 / 60, total % 60;
    assert total % 3600 % 60 == total % 60;
  }

  lemma TwoDigitsRead(n: nat)
    ensures Numerals.ParseIndex(TwoDigits(n)) == Some(n) && |TwoDigits(n)| >= 2 && (n < 100 ==> |TwoDigits(n)| == 2)
  {
    Numerals.DecimalParses(n);
    if n >= 10 {
      Numerals.DecimalHead(n / 10);
      assert TwoDigits(n) == Numerals.Decimal(n);
      assert |Numerals.Decimal(n)| == |Numerals.Decimal(n / 10)| + 1;
      assert n < 100 ==> Numerals.Decimal(n / 10) == [('0' as int + n / 10) as char];
    } else {
      assert Numerals.Decimal(n) == [('0' as int + n) as char];
      assert TwoDigits(n)[..1] == "0" && "0"[..0] == "";
      assert Numerals.ParseDigits("0") == Some(0);
    }
  }
}
