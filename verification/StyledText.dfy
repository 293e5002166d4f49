/** Editing styled text, and lifting a stretch of it with its marks
    (crates/vt-ffi/src/editor_api.rs:57-137, session_move.rs:333-387). */
module StyledText {
  import opened Prelude
  import opened MarkedRanges

  // ----- edits

  datatype Mark = Mark(pos: nat, len: nat, key: string, value: Value)

  predicate Fits(marks: seq<Mark>, n: nat) {
    forall i | 0 <= i < |marks| :: marks[i].pos + marks[i].len <= n
  }

  function MarkRange(doc: Doc, m: Mark): (marked: Doc)
    requires m.pos + m.len <= |doc|
    ensures |marked| == |doc|
    ensures forall i | 0 <= i < |doc| ::
      marked[i] == if m.pos <= i < m.pos + m.len then Cell(doc[i].c, doc[i].attrs[m.key := m.value]) else doc[i]
  {
    seq(|doc|, i requires 0 <= i < |doc| =>
      if m.pos <= i < m.pos + m.len then Cell(doc[i].c, doc[i].attrs[m.key := m.value]) else doc[i])
  }

  function Restyle(doc: Doc, marks: seq<Mark>): (marked: Doc)
    requires Fits(marks, |doc|)
    ensures |marked| == |doc|
  {
    if marks == [] then doc else MarkRange(Restyle(doc, marks[..|marks| - 1]), marks[|marks| - 1])
  }

  /** The marks a document gives text typed between two of its characters. */
  type Inherit = (Doc, nat) -> Attrs

  /** The marks that carry on to text typed after them; the others never leave the text they were put on. */
  predicate Expands(key: string) {
    key in {"bold", "italic", "code", "strikethrough", "segment_id", "timestamp_ms"}
  }

  predicate Carries(cell: Cell, key: string, value: Value) {
    key in cell.attrs && cell.attrs[key] == value
  }

  /** Typed text takes its marks from the character on its left, and a mark that does not expand only inside
      text that carries it on both sides. */
  ghost predicate IsOrderly(inherit: Inherit) {
    forall doc: Doc, pos: nat, key: string | pos <= |doc| && key in inherit(doc, pos) ::
      && 0 < pos && Carries(doc[pos - 1], key, inherit(doc, pos)[key])
      && (!Expands(key) ==> pos < |doc| && Carries(doc[pos], key, inherit(doc, pos)[key]))
  }

  function Insert(doc: Doc, pos: nat, cells: Doc): (r: Doc)
    requires pos <= |doc|
    ensures |r| == |doc| + |cells|
  {
    doc[..pos] + cells + doc[pos..]
  }

  function Delete(doc: Doc, range: TextRange): Doc
    requires range.pos + range.len <= |doc|
  {
    doc[..range.pos] + doc[range.pos + range.len..]
  }

  /** What an editor's Delta is made of. */
  predicate IsRun(segment: Segment) {
    segment.insert.Some? && segment.insert.value != "" && !segment.attributes.NotAnObject?
  }

  /** A document open in the editor. */
  class Editor {
    var doc: Doc
    const inherit: Inherit

    constructor (text: Doc, rule: Inherit)
      ensures doc == text && inherit == rule
    {
      doc, inherit := text, rule;
    }

    /** The Delta: neighbouring characters with the same marks share a segment. */
    method GetDelta() returns (segments: seq<Segment>)
      ensures Cells(segments) == doc
      ensures forall i | 0 <= i < |segments| :: IsRun(segments[i])
    {
      segments := [];
      var i := 0;
      while i < |doc|
        invariant i <= |doc| && Cells(segments) == doc[..i]
        invariant forall j | 0 <= j < |segments| :: IsRun(segments[j])
      {
        var attrs, text := doc[i].attrs, [doc[i].c];
        var k := i + 1;
        while k < |doc| && doc[k].attrs == attrs
          invariant i < k <= |doc| && text != "" && Styled(text, attrs) == doc[i..k]
        {
          text := text + [doc[k].c];
          k := k + 1;
        }
        var segment := Segment(Some(text), if attrs == map[] then Absent else Object(attrs));
        assert (segments + [segment])[..|segments|] == segments;
        assert doc[..i] + doc[i..k] == doc[..k];
        segments := segments + [segment];
        i := k;
      }
      assert doc[..|doc|] == doc;
    }

    method InsertText(pos: nat, text: string)
      requires pos <= |doc|
      modifies this`doc
      ensures doc == Insert(old(doc), pos, Styled(text, inherit(old(doc), pos)))
    {
      doc := doc[..pos] + Styled(text, inherit(doc, pos)) + doc[pos..];
    }

    method DeleteRange(range: TextRange)
      requires range.pos + range.len <= |doc|
      modifies this`doc
      ensures doc == Delete(old(doc), range)
    {
      doc := doc[..range.pos] + doc[range.pos + range.len..];
    }

    /** Inserts a text and puts its marks on it, one by one. */
    method InsertMarked(pos: nat, text: string, marks: seq<Mark>)
      requires pos <= |doc| && Fits(marks, |text|)
      modifies this`doc
      ensures doc == Insert(old(doc), pos, Restyle(Styled(text, inherit(old(doc), pos)), marks))
    {
      ghost var was := doc;
      ghost var base := Styled(text, inherit(doc, pos));
      InsertText(pos, text);
      assert marks[..0] == [];
      for i := 0 to |marks|
        invariant doc == Insert(was, pos, Restyle(base, marks[..i]))
      {
        var mark := marks[i];
        MarkInside(was, pos, Restyle(base, marks[..i]), mark);
        doc := MarkRange(doc, Mark(pos + mark.pos, mark.len, mark.key, mark.value));
        assert marks[..i + 1][..i] == marks[..i];
      }
      assert marks[..|marks|] == marks;
    }
  }

  lemma MarkInside(doc: Doc, pos: nat, inner: Doc, m: Mark)
    requires pos <= |doc| && m.pos + m.len <= |inner|
    ensures MarkRange(Insert(doc, pos, inner), Mark(pos + m.pos, m.len, m.key, m.value)) == Insert(doc, pos, MarkRange(inner, m))
  {
  }

  // ----- marks over inherited marks

  /** The cells, over marks they already had. */
  function Over(inherited: Attrs, cells: Doc): (r: Doc)
    ensures |r| == |cells|
    ensures forall i | 0 <= i < |cells| :: r[i] == Cell(cells[i].c, inherited + cells[i].attrs)
  {
    seq(|cells|, i requires 0 <= i < |cells| => Cell(cells[i].c, inherited + cells[i].attrs))
  }

  lemma {:induction false} RestyleOver(inherited: Attrs, text: string, marks: seq<Mark>)
    requires Fits(marks, |text|)
    ensures Restyle(Styled(text, inherited), marks) == Over(inherited, Restyle(Styled(text, map[]), marks))
  {
    if marks == [] {
      assert inherited + map[] == inherited;
    } else {
      RestyleOver(inherited, text, marks[..|marks| - 1]);
      var bare, m := Restyle(Styled(text, map[]), marks[..|marks| - 1]), marks[|marks| - 1];
      forall i | 0 <= i < |bare|
        ensures MarkRange(Over(inherited, bare), m)[i] == Over(inherited, MarkRange(bare, m))[i]
      {
        assert (inherited + bare[i].attrs)[m.key := m.value] == inherited + bare[i].attrs[m.key := m.value];
      }
    }
  }

  lemma {:induction false} RestyleGrows(doc: Doc, more: Doc, marks: seq<Mark>)
    requires Fits(marks, |doc|)
    ensures Fits(marks, |doc + more|) && Restyle(doc + more, marks) == Restyle(doc, marks) + more
  {
    if marks != [] {
      RestyleGrows(doc, more, marks[..|marks| - 1]);
    }
  }

  // ----- lifting a stretch with its marks

  /** The characters in a range, as far as there are any. */
  function Section(doc: Doc, range: TextRange): Doc {
    doc[Min(range.pos, |doc|)..Min(range.pos + range.len, |doc|)]
  }

  lemma SectionGrows(doc: Doc, more: Doc, range: TextRange)
    ensures var (start, end, stop) := (|doc|, |doc| + |more|, range.pos + range.len);
      if end <= range.pos || start >= stop then Section(doc + more, range) == Section(doc, range)
      else
        && SatSub(range.pos, start) <= Min(|more|, stop - start)
        && Section(doc + more, range) == Section(doc, range) + more[SatSub(range.pos, start)..Min(|more|, stop - start)]
  {
  }

  /** The text and marks of a section: put on the bare text, the marks give back the characters exactly. */
  datatype FlatSection = FlatSection(text: string, marks: seq<Mark>)

  ghost predicate IsLift(section: FlatSection, cells: Doc) {
    && Fits(section.marks, |section.text|)
    && Restyle(Styled(section.text, map[]), section.marks) == cells
  }

  lemma MarkTail(cells: Doc, text: string, attrs: Attrs, key: string, value: Value)
    ensures MarkRange(cells + Styled(text, attrs), Mark(|cells|, |text|, key, value)) == cells + Styled(text, attrs[key := value])
  {
  }

  /** Adds one run of characters and a mark for each of its attributes. */
  method LiftRun(section: FlatSection, taken: string, attrs: Attrs, ghost cells: Doc) returns (r: FlatSection)
    requires IsLift(section, cells)
    ensures IsLift(r, cells + Styled(taken, attrs))
  {
    var text, marks := section.text + taken, section.marks;
    ghost var done: Attrs := map[];
    var keys := attrs.Keys;
    RestyleGrows(Styled(section.text, map[]), Styled(taken, map[]), marks);
    assert Styled(text, map[]) == Styled(section.text, map[]) + Styled(taken, map[]);
    assert |cells| == |section.text|;
    while keys != {}
      invariant keys <= attrs.Keys && done.Keys == attrs.Keys - keys && forall k | k in done :: done[k] == attrs[k]
      invariant Fits(marks, |text|) && Restyle(Styled(text, map[]), marks) == cells + Styled(taken, done)
      decreases keys
    {
      var key :| key in keys;
      var mark := Mark(|section.text|, |taken|, key, attrs[key]);
      assert (marks + [mark])[..|marks|] == marks;
      MarkTail(cells, taken, done, key, attrs[key]);
      marks := marks + [mark];
      done := done[key := attrs[key]];
      keys := keys - {key};
    }
    assert done == attrs;
    r := FlatSection(text, marks);
  }

  /** The part of a run of characters that is inside the range. */
  ghost function Inside(chars: string, attrs: Attrs, start: nat, range: TextRange): Doc {
    var from, to := SatSub(range.pos, start), Min(|chars|, range.pos + range.len - start);
    if start + |chars| <= range.pos || start >= range.pos + range.len || to < from then [] else Styled(chars[from..to], attrs)
  }

  /** What one more segment adds to the section. */
  lemma SegmentTakes(segments: seq<Segment>, i: nat, range: TextRange)
    requires i < |segments|
    ensures Section(Cells(segments[..i + 1]), range) ==
      Section(Cells(segments[..i]), range) + Inside(TextOf(segments[i]), AttrsOf(segments[i]), |Cells(segments[..i])|, range)
  {
    var chars, attrs, start := TextOf(segments[i]), AttrsOf(segments[i]), |Cells(segments[..i])|;
    var stop := range.pos + range.len;
    CellsGrow(segments, i);
    SectionGrows(Cells(segments[..i]), Styled(chars, attrs), range);
    if !(start + |chars| <= range.pos || start >= stop) {
      StyledPart(chars, attrs, SatSub(range.pos, start), Min(|chars|, stop - start));
    }
  }

  lemma StyledPart(chars: string, attrs: Attrs, from: nat, to: nat)
    requires from <= to <= |chars|
    ensures Styled(chars, attrs)[from..to] == Styled(chars[from..to], attrs)
  {
  }

  /** The section with the characters that one more segment has in the range. */
  method LiftSegment(section: FlatSection, segments: seq<Segment>, i: nat, segmentStart: nat, range: TextRange) returns (r: FlatSection)
    requires i < |segments| && segments[i].insert.Some? && segmentStart == |Cells(segments[..i])|
    requires IsLift(section, Section(Cells(segments[..i]), range))
    ensures IsLift(r, Section(Cells(segments[..i + 1]), range))
  {
    var chars, sectionEnd := segments[i].insert.value, range.pos + range.len;
    var segmentEnd := segmentStart + |chars|;
    SegmentTakes(segments, i, range);
    if segmentEnd <= range.pos || segmentStart >= sectionEnd {
      return section;
    }
    var takeFrom := SatSub(range.pos, segmentStart);
    var takeTo := Min(|chars|, sectionEnd - segmentStart);
    r := LiftRun(section, chars[takeFrom..takeTo], AttrsOf(segments[i]), Section(Cells(segments[..i]), range));
  }

  method FlatSectionFromDelta(segments: seq<Segment>, range: TextRange) returns (r: Result<FlatSection, SearchError>)
    ensures r.Err? <==> exists i | 0 <= i < |segments| :: segments[i].insert.None?
    ensures r.Ok? ==> IsLift(r.value, Section(Cells(segments), range))
  {
    var section := FlatSection("", []);
    var cursor: nat := 0;
    for i := 0 to |segments|
      invariant cursor == |Cells(segments[..i])|
      invariant forall j | 0 <= j < i :: segments[j].insert.Some?
      invariant IsLift(section, Section(Cells(segments[..i]), range))
    {
      if segments[i].insert.None? {
        return Err(Malformed(i));
      }
      section := LiftSegment(section, segments, i, cursor, range);
      CellsGrow(segments, i);
      cursor := cursor + |segments[i].insert.value|;
    }
    assert segments[..|segments|] == segments;
    r := Ok(section);
  }

  /** Putting a lifted section into a document gives its characters with every mark they had. */
  lemma SpliceKeepsMarks(section: FlatSection, cells: Doc, inherited: Attrs)
    requires IsLift(section, cells)
    ensures Restyle(Styled(section.text, inherited), section.marks) == Over(inherited, cells)
  {
    RestyleOver(inherited, section.text, section.marks);
  }
}
