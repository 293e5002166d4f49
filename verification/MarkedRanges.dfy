/** Finding the text a recording owns in a styled document (crates/vt-ffi/src/editor_api.rs:494-597,
    notebook_capture_api.rs:9172-9240). */
module MarkedRanges {
  import opened Prelude

  datatype Result<+T, +E> = Ok(value: T) | Err(error: E)

  // ----- styled text

  /** A mark's value: a string, a number, or any other JSON value. */
  datatype Value = Str(s: string) | Number(n: int) | Other(id: nat)

  type Attrs = map<string, Value>

  /** One character with the marks on it. */
  datatype Cell = Cell(c: char, attrs: Attrs)

  type Doc = seq<Cell>

  datatype Attributes = Absent | NotAnObject | Object(attrs: Attrs)

  /** One entry of a document's Delta; `insert` is `None` when it is not a string. */
  datatype Segment = Segment(insert: Option<string>, attributes: Attributes)

  function TextOf(segment: Segment): string {
    if segment.insert.Some? then segment.insert.value else ""
  }

  function AttrsOf(segment: Segment): Attrs {
    if segment.attributes.Object? then segment.attributes.attrs else map[]
  }

  function Styled(text: string, attrs: Attrs): (cells: Doc)
    ensures |cells| == |text|
    ensures forall i | 0 <= i < |text| :: cells[i] == Cell(text[i], attrs)
  {
    seq(|text|, i requires 0 <= i < |text| => Cell(text[i], attrs))
  }

  /** The characters of a Delta with the marks on each. */
  function Cells(segments: seq<Segment>): Doc {
    if segments == [] then []
    else Cells(segments[..|segments| - 1]) + Styled(TextOf(segments[|segments| - 1]), AttrsOf(segments[|segments| - 1]))
  }

  lemma CellsGrow(segments: seq<Segment>, i: nat)
    requires i < |segments|
    ensures Cells(segments[..i + 1]) == Cells(segments[..i]) + Styled(TextOf(segments[i]), AttrsOf(segments[i]))
  {
    assert segments[..i + 1][..i] == segments[..i];
  }

  // ----- selecting by ownership marks

  const SESSION_ID := "session_id"

  const UTTERANCE_ID := "utterance_id"

  const LANE_LANGUAGE := "lane_language"

  datatype Selector = Selector(sessionId: Option<string>, utteranceId: Option<string>, laneLanguage: Option<string>)

  predicate SelectsNothing(s: Selector) {
    s.sessionId.None? && s.utteranceId.None? && s.laneLanguage.None?
  }

  predicate KeyMatches(attrs: Attrs, key: string, expected: Option<string>) {
    expected.Some? ==> key in attrs && attrs[key] == Str(expected.value)
  }

  predicate Matches(attrs: Attrs, s: Selector) {
    KeyMatches(attrs, SESSION_ID, s.sessionId) && KeyMatches(attrs, UTTERANCE_ID, s.utteranceId)
    && KeyMatches(attrs, LANE_LANGUAGE, s.laneLanguage)
  }

  /** A selected key carries something other than a string. */
  predicate KeyIsMalformed(attrs: Attrs, key: string, expected: Option<string>) {
    expected.Some? && key in attrs && !attrs[key].Str?
  }

  predicate MarksAreMalformed(attrs: Attrs, s: Selector) {
    KeyIsMalformed(attrs, SESSION_ID, s.sessionId) || KeyIsMalformed(attrs, UTTERANCE_ID, s.utteranceId)
    || KeyIsMalformed(attrs, LANE_LANGUAGE, s.laneLanguage)
  }

  predicate IsMalformed(segment: Segment, s: Selector) {
    segment.insert.None? || segment.attributes.NotAnObject? || MarksAreMalformed(AttrsOf(segment), s)
  }

  // ----- ranges

  datatype TextRange = TextRange(pos: nat, len: nat)

  ghost predicate Covered(ranges: seq<TextRange>, p: int) {
    exists r | r in ranges :: r.pos <= p < r.pos + r.len
  }

  /** The ranges are sorted, disjoint, never touch, and cover exactly the positions that hit. */
  ghost predicate AreRuns(ranges: seq<TextRange>, hits: seq<bool>) {
    && (forall r | r in ranges :: 0 < r.len && r.pos + r.len <= |hits|)
    && (forall i, j | 0 <= i < j < |ranges| :: ranges[i].pos + ranges[i].len < ranges[j].pos)
    && (forall p | 0 <= p < |hits| :: hits[p] <==> Covered(ranges, p))
  }

  function Hits(cells: Doc, s: Selector): (hits: seq<bool>)
    ensures |hits| == |cells|
    ensures forall p | 0 <= p < |cells| :: hits[p] == Matches(cells[p].attrs, s)
  {
    seq(|cells|, p requires 0 <= p < |cells| => Matches(cells[p].attrs, s))
  }

  /** Extends the last range when it ends at `pos`, adds a new one otherwise. */
  function Push(ranges: seq<TextRange>, pos: nat, len: nat): seq<TextRange> {
    var n := |ranges|;
    if n > 0 && ranges[n - 1].pos + ranges[n - 1].len == pos
    then ranges[n - 1 := TextRange(ranges[n - 1].pos, ranges[n - 1].len + len)]
    else ranges + [TextRange(pos, len)]
  }

  lemma PushCovers(ranges: seq<TextRange>, pos: nat, len: nat, p: nat)
    requires len > 0
    ensures Covered(Push(ranges, pos, len), p) <==> Covered(ranges, p) || pos <= p < pos + len
  {
    var n, pushed := |ranges|, Push(ranges, pos, len);
    if n > 0 && ranges[n - 1].pos + ranges[n - 1].len == pos {
      if Covered(ranges, p) {
        var r :| r in ranges && r.pos <= p < r.pos + r.len;
        var i :| 0 <= i < n && ranges[i] == r;
        assert pushed[i] in pushed;
      }
      assert pushed[n - 1] in pushed && ranges[n - 1] in ranges;
      if Covered(pushed, p) {
        var r :| r in pushed && r.pos <= p < r.pos + r.len;
        var i :| 0 <= i < n && pushed[i] == r;
        assert ranges[i] in ranges;
      }
    } else {
      assert pushed[n] in pushed;
      assert forall r :: r in pushed <==> r in ranges || r == TextRange(pos, len);
    }
  }

  lemma PushKeepsOrder(ranges: seq<TextRange>, pos: nat, len: nat)
    requires len > 0
    requires forall i | 0 <= i < |ranges| :: 0 < ranges[i].len && ranges[i].pos + ranges[i].len <= pos
    requires forall i, j | 0 <= i < j < |ranges| :: ranges[i].pos + ranges[i].len < ranges[j].pos
    ensures var pushed := Push(ranges, pos, len);
      && (forall i | 0 <= i < |pushed| :: 0 < pushed[i].len && pushed[i].pos + pushed[i].len <= pos + len)
      && (forall i, j | 0 <= i < j < |pushed| :: pushed[i].pos + pushed[i].len < pushed[j].pos)
  {
    var n, pushed := |ranges|, Push(ranges, pos, len);
    if !(n > 0 && ranges[n - 1].pos + ranges[n - 1].len == pos) {
      forall i | 0 <= i < n
        ensures ranges[i].pos + ranges[i].len < pos
      {
        assert ranges[i].pos + ranges[i].len <= ranges[n - 1].pos + ranges[n - 1].len;
      }
    }
  }

  lemma PushKeepsRuns(ranges: seq<TextRange>, hits: seq<bool>, more: seq<bool>)
    requires AreRuns(ranges, hits) && |more| > 0 && forall k | 0 <= k < |more| :: more[k]
    ensures AreRuns(Push(ranges, |hits|, |more|), hits + more)
  {
    forall p: nat | p < |hits + more|
      ensures (hits + more)[p] <==> Covered(Push(ranges, |hits|, |more|), p)
    {
      PushCovers(ranges, |hits|, |more|, p);
    }
    assert forall i | 0 <= i < |ranges| :: ranges[i] in ranges;
    PushKeepsOrder(ranges, |hits|, |more|);
  }

  lemma MissKeepsRuns(ranges: seq<TextRange>, hits: seq<bool>, more: seq<bool>)
    requires AreRuns(ranges, hits) && forall k | 0 <= k < |more| :: !more[k]
    ensures AreRuns(ranges, hits + more)
  {
  }

  // ----- the search

  datatype SearchError = NoSelector | Malformed(index: nat) | Split(count: nat)

  method FindMarkedRanges(segments: seq<Segment>, s: Selector) returns (r: Result<seq<TextRange>, SearchError>)
    ensures r == Err(NoSelector) <==> SelectsNothing(s)
    ensures r.Ok? <==> !SelectsNothing(s) && forall i | 0 <= i < |segments| :: !IsMalformed(segments[i], s)
    ensures r.Ok? ==> AreRuns(r.value, Hits(Cells(segments), s))
    ensures r.Err? && r.error != NoSelector ==>
      && r.error.Malformed? && r.error.index < |segments| && IsMalformed(segments[r.error.index], s)
      && forall i | 0 <= i < r.error.index :: !IsMalformed(segments[i], s)
  {
    if s.sessionId.None? && s.utteranceId.None? && s.laneLanguage.None? {
      return Err(NoSelector);
    }
    var cursor: nat := 0;
    var ranges: seq<TextRange> := [];
    ghost var cells: Doc := [];
    for i := 0 to |segments|
      invariant cells == Cells(segments[..i]) && cursor == |cells|
      invariant forall j | 0 <= j < i :: !IsMalformed(segments[j], s)
      invariant AreRuns(ranges, Hits(cells, s))
    {
      var segment := segments[i];
      if segment.insert.None? || segment.attributes.NotAnObject? {
        return Err(Malformed(i));
      }
      var len := |segment.insert.value|;
      var matches := MatchSegment(AttrsOf(segment), s);
      if matches.None? {
        return Err(Malformed(i));
      }
      ScanKeepsRuns(ranges, cells, TextOf(segment), AttrsOf(segment), s);
      if matches.value && len > 0 {
        ranges := Push(ranges, cursor, len);
      }
      CellsGrow(segments, i);
      cells := cells + Styled(TextOf(segment), AttrsOf(segment));
      cursor := cursor + len;
    }
    assert segments[..|segments|] == segments;
    r := Ok(ranges);
  }

  /** Whether the marks carry every selected value; `None` when one of them is not a string. */
  method MatchSegment(attrs: Attrs, s: Selector) returns (m: Option<bool>)
    ensures m.None? <==> MarksAreMalformed(attrs, s)
    ensures m.Some? ==> m.value == Matches(attrs, s)
  {
    var matches := true;
    var selected := [(SESSION_ID, s.sessionId), (UTTERANCE_ID, s.utteranceId), (LANE_LANGUAGE, s.laneLanguage)];
    for i := 0 to |selected|
      invariant forall j | 0 <= j < i :: !KeyIsMalformed(attrs, selected[j].0, selected[j].1)
      invariant matches <==> forall j | 0 <= j < i :: KeyMatches(attrs, selected[j].0, selected[j].1)
    {
      var (key, expected) := selected[i];
      if expected.Some? {
        if key !in attrs {
          matches := false;
        } else if !attrs[key].Str? {
          return None;
        } else {
          matches := matches && attrs[key].s == expected.value;
        }
      }
    }
    assert selected[0].0 == SESSION_ID && selected[1].0 == UTTERANCE_ID && selected[2].0 == LANE_LANGUAGE;
    m := Some(matches);
  }

  /** The ranges after one more run of text. */
  function Scan(ranges: seq<TextRange>, cursor: nat, text: string, attrs: Attrs, s: Selector): seq<TextRange> {
    if Matches(attrs, s) && |text| > 0 then Push(ranges, cursor, |text|) else ranges
  }

  lemma ScanKeepsRuns(ranges: seq<TextRange>, cells: Doc, text: string, attrs: Attrs, s: Selector)
    requires AreRuns(ranges, Hits(cells, s))
    ensures AreRuns(Scan(ranges, |cells|, text, attrs, s), Hits(cells + Styled(text, attrs), s))
  {
    var more := Styled(text, attrs);
    assert Hits(cells + more, s) == Hits(cells, s) + Hits(more, s);
    if Matches(attrs, s) && |text| > 0 {
      PushKeepsRuns(ranges, Hits(cells, s), Hits(more, s));
    } else {
      MissKeepsRuns(ranges, Hits(cells, s), Hits(more, s));
    }
  }

  // ----- what the search depends on

  lemma LastRun(ranges: seq<TextRange>, hits: seq<bool>)
    requires AreRuns(ranges, hits) && ranges != []
    ensures var last := ranges[|ranges| - 1];
      && 0 < last.len && last.pos + last.len <= |hits|
      && (forall p | last.pos <= p < last.pos + last.len :: hits[p])
      && (forall p | last.pos + last.len <= p < |hits| :: !hits[p])
      && (last.pos > 0 ==> !hits[last.pos - 1])
      && AreRuns(ranges[..|ranges| - 1], hits[..last.pos])
  {
    var n := |ranges| - 1;
    var last := ranges[n];
    assert forall i | 0 <= i <= n :: ranges[i] in ranges;
    forall p | 0 <= p < |hits|
      ensures Covered(ranges, p) <==> Covered(ranges[..n], p) || last.pos <= p < last.pos + last.len
    {
      assert ranges == ranges[..n] + [last];
    }
    forall r | r in ranges[..n]
      ensures r.pos + r.len < last.pos
    {
      var i :| 0 <= i < n && ranges[i] == r;
    }
  }

  lemma LastRunsAgree(a: TextRange, b: TextRange, hits: seq<bool>)
    requires 0 < a.len && a.pos + a.len <= |hits| && 0 < b.len && b.pos + b.len <= |hits|
    requires forall p | a.pos <= p < a.pos + a.len :: hits[p]
    requires forall p | b.pos <= p < b.pos + b.len :: hits[p]
    requires forall p | a.pos + a.len <= p < |hits| :: !hits[p]
    requires forall p | b.pos + b.len <= p < |hits| :: !hits[p]
    requires (a.pos > 0 ==> !hits[a.pos - 1]) && (b.pos > 0 ==> !hits[b.pos - 1])
    ensures a == b
  {
    assert hits[a.pos + a.len - 1] && hits[b.pos + b.len - 1];
    assert a.pos + a.len == b.pos + b.len;
  }

  /** The hits alone decide the ranges: the same characters with the same marks give the same ranges however
      the Delta cuts them into segments. */
  lemma {:induction false} RunsAreUnique(a: seq<TextRange>, b: seq<TextRange>, hits: seq<bool>)
    requires AreRuns(a, hits) && AreRuns(b, hits)
    ensures a == b
    decreases |a|
  {
    if a == [] || b == [] {
      OneRunIsStretch(a, hits);
      OneRunIsStretch(b, hits);
    } else {
      var n, m := |a| - 1, |b| - 1;
      LastRun(a, hits);
      LastRun(b, hits);
      LastRunsAgree(a[n], b[m], hits);
      RunsAreUnique(a[..n], b[..m], hits[..a[n].pos]);
      assert a == a[..n] + [a[n]] && b == b[..m] + [b[m]];
    }
  }

  // ----- a single range

  /** The hits are exactly the positions of one stretch. */
  ghost predicate IsStretch(hits: seq<bool>, range: TextRange) {
    0 < range.len && range.pos + range.len <= |hits|
    && forall p | 0 <= p < |hits| :: hits[p] <==> range.pos <= p < range.pos + range.len
  }

  lemma OneRunIsStretch(ranges: seq<TextRange>, hits: seq<bool>)
    requires AreRuns(ranges, hits)
    ensures |ranges| == 0 <==> forall p | 0 <= p < |hits| :: !hits[p]
    ensures |ranges| == 1 ==> IsStretch(hits, ranges[0])
    ensures |ranges| > 1 ==> forall range :: !IsStretch(hits, range)
  {
    if |ranges| == 1 {
      assert ranges == [ranges[0]];
    }
    if |ranges| > 0 {
      assert ranges[0] in ranges;
      assert Covered(ranges, ranges[0].pos);
    }
    if |ranges| > 1 {
      LastRun(ranges, hits);
      var first, gap, last := ranges[0].pos, ranges[|ranges| - 1].pos - 1, ranges[|ranges| - 1].pos;
      assert first < gap < last && hits[first] && !hits[gap] && hits[last];
      forall range
        ensures !IsStretch(hits, range)
      {
      }
    }
  }

  /** What a search for one stretch answers: nothing when there are no hits, the stretch when they are one, and
      a refusal when they are split. */
  ghost predicate IsAnswer(hits: seq<bool>, r: Result<Option<TextRange>, SearchError>) {
    match r
    case Ok(None) => forall p | 0 <= p < |hits| :: !hits[p]
    case Ok(Some(range)) => IsStretch(hits, range)
    case Err(Split(_)) => (exists p | 0 <= p < |hits| :: hits[p]) && forall range :: !IsStretch(hits, range)
    case Err(_) => true
  }

  method Answer(ranges: seq<TextRange>, ghost hits: seq<bool>) returns (r: Result<Option<TextRange>, SearchError>)
    requires AreRuns(ranges, hits)
    ensures IsAnswer(hits, r) && (r.Err? ==> r.error.Split?)
  {
    OneRunIsStretch(ranges, hits);
    if |ranges| == 0 {
      return Ok(None);
    }
    if |ranges| == 1 {
      return Ok(Some(ranges[0]));
    }
    assert hits[ranges[0].pos];
    r := Err(Split(|ranges|));
  }

  /** The one range, nothing, or a refusal: a range is given exactly when the matching characters are one
      stretch, and a split owner is refused. */
  method FindUniqueMarkedRange(segments: seq<Segment>, s: Selector) returns (r: Result<Option<TextRange>, SearchError>)
    ensures r.Err? && !r.error.Split? <==> SelectsNothing(s) || exists i | 0 <= i < |segments| :: IsMalformed(segments[i], s)
    ensures IsAnswer(Hits(Cells(segments), s), r)
  {
    var found := FindMarkedRanges(segments, s);
    if found.Err? {
      return Err(found.error);
    }
    r := Answer(found.value, Hits(Cells(segments), s));
  }

  // ----- the section resolver

  function OfSession(session: string): Selector {
    Selector(Some(session), None, None)
  }

  /** The resolver passes over attributes that are not an object where the search refuses them. */
  predicate SectionIsMalformed(segment: Segment) {
    segment.insert.None? || (SESSION_ID in AttrsOf(segment) && !AttrsOf(segment)[SESSION_ID].Str?)
  }

  method SessionSectionRange(segments: seq<Segment>, session: string) returns (r: Result<Option<TextRange>, SearchError>)
    ensures r.Err? && !r.error.Split? <==> exists i | 0 <= i < |segments| :: SectionIsMalformed(segments[i])
    ensures IsAnswer(Hits(Cells(segments), OfSession(session)), r)
  {
    var ranges := SessionRanges(segments, session);
    if ranges.Err? {
      return Err(ranges.error);
    }
    r := Answer(ranges.value, Hits(Cells(segments), OfSession(session)));
  }

  method ScanSection(ranges: seq<TextRange>, cursor: nat, text: string, attrs: Attrs, session: string, ghost cells: Doc)
    returns (r: seq<TextRange>)
    requires AreRuns(ranges, Hits(cells, OfSession(session))) && cursor == |cells|
    requires SESSION_ID in attrs ==> attrs[SESSION_ID].Str?
    ensures AreRuns(r, Hits(cells + Styled(text, attrs), OfSession(session)))
  {
    ScanKeepsRuns(ranges, cells, text, attrs, OfSession(session));
    r := if SESSION_ID in attrs && attrs[SESSION_ID].s == session && |text| > 0 then Push(ranges, cursor, |text|) else ranges;
    assert r == Scan(ranges, cursor, text, attrs, OfSession(session));
  }

  method SessionRanges(segments: seq<Segment>, session: string) returns (r: Result<seq<TextRange>, SearchError>)
    ensures r.Err? <==> exists i | 0 <= i < |segments| :: SectionIsMalformed(segments[i])
    ensures r.Err? ==> !r.error.Split?
    ensures r.Ok? ==> AreRuns(r.value, Hits(Cells(segments), OfSession(session)))
  {
    var cursor: nat := 0;
    var ranges: seq<TextRange> := [];
    ghost var cells: Doc := [];
    for i := 0 to |segments|
      invariant cells == Cells(segments[..i]) && cursor == |cells|
      invariant forall j | 0 <= j < i :: !SectionIsMalformed(segments[j])
      invariant AreRuns(ranges, Hits(cells, OfSession(session)))
    {
      var segment := segments[i];
      if segment.insert.None? {
        return Err(Malformed(i));
      }
      var attrs := AttrsOf(segment);
      if SESSION_ID in attrs && !attrs[SESSION_ID].Str? {
        return Err(Malformed(i));
      }
      ranges := ScanSection(ranges, cursor, TextOf(segment), attrs, session, cells);
      CellsGrow(segments, i);
      cells := cells + Styled(TextOf(segment), attrs);
      cursor := cursor + |segment.insert.value|;
    }
    assert segments[..|segments|] == segments;
    r := Ok(ranges);
  }
}
