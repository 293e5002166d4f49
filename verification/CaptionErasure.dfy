/** The caption-stability meter: how many presented characters later updates take back
    (crates/vt-ffi/src/capture_erasure.rs:25-226). */
module CaptionErasure {
  import opened Prelude

  // ----- the meter's state

  /** An utterance's place and the role its text plays. */
  type Lane = (nat, string)

  const SOURCE_ROLE := "#source"

  datatype Totals = Totals(updates: nat, erased: nat, appended: nat, presented: nat)

  const ZERO := Totals(0, 0, 0, 0)

  datatype Meter = Meter(
    session: Option<string>,
    presented: map<Lane, string>,
    language: map<Lane, string>,
    totals: map<string, Totals>)

  const EMPTY := Meter(None, map[], map[], map[])

  function Of(totals: map<string, Totals>, language: string): Totals {
    if language in totals then totals[language] else ZERO
  }

  function TextOf(presented: map<Lane, string>, lane: Lane): string {
    if lane in presented then presented[lane] else ""
  }

  // ----- one update

  function CommonPrefix(left: string, right: string): (n: nat)
    ensures n <= |left| && n <= |right|
  {
    if left == [] || right == [] || left[0] != right[0] then 0 else 1 + CommonPrefix(left[1..], right[1..])
  }

  /** How many of the lane's characters are moved when its language changes. */
  function Moved(m: Meter, from: string, laneChars: nat): nat {
    if from in m.totals then Min(m.totals[from].presented, laneChars) else 0
  }

  function Migrate(m: Meter, lane: Lane, language: string, laneChars: nat): Meter {
    if lane !in m.language || m.language[lane] == language then m
    else
      var from := m.language[lane];
      var moved := Moved(m, from, laneChars);
      var left := if from in m.totals then m.totals[from := m.totals[from].(presented := m.totals[from].presented - moved)] else m.totals;
      var target := Of(left, language);
      m.(totals := left[language := target.(presented := target.presented + moved)], language := m.language[lane := language])
  }

  /** The counts after a lane's text goes from `was` to `text`. */
  function Scored(t: Totals, was: string, text: string): Totals {
    var common := CommonPrefix(was, text);
    Totals(t.updates + 1, t.erased + (|was| - common), t.appended + (|text| - common), SatSub(t.presented, |was|) + |text|)
  }

  /** The lane's text is replaced and the change counted under its language. */
  function Rewrite(m: Meter, lane: Lane, language: string, was: string, text: string): Meter {
    m.(
      totals := m.totals[language := Scored(Of(m.totals, language), was, text)],
      presented := m.presented[lane := text],
      language := m.language[lane := language])
  }

  function Record(m: Meter, lane: Lane, language: string, text: string): Meter {
    var was := TextOf(m.presented, lane);
    var moved := Migrate(m, lane, language, |was|);
    if was == text then moved else Rewrite(moved, lane, language, was, text)
  }

  // ----- one utterance

  datatype Variant = Variant(role: string, language: string, text: Option<string>)

  datatype Utterance = Utterance(
    sequence: nat,
    sourceLanguage: string,
    provisional: Option<string>,
    sourceText: string,
    translatedLanguage: Option<string>,
    translatedText: Option<string>,
    variants: seq<Variant>)

  datatype Update = Update(lane: Lane, language: string, text: string)

  function GetOr(o: Option<string>, other: string): string {
    if o.Some? then o.value else other
  }

  function SourceShadow(u: Utterance): seq<Update> {
    if u.sourceText == "" then []
    else [Update((u.sequence, SOURCE_ROLE), GetOr(u.provisional, u.sourceLanguage), u.sourceText)]
  }

  function TranslatedShadow(u: Utterance): seq<Update> {
    if u.translatedLanguage.None? || u.translatedText.None? || u.translatedText.value == "" then []
    else [Update((u.sequence, u.translatedLanguage.value), u.translatedLanguage.value, u.translatedText.value)]
  }

  function VariantUpdate(u: Utterance, v: Variant): seq<Update> {
    if v.text.None? || v.text.value == "" then []
    else if v.role == "source" then [Update((u.sequence, SOURCE_ROLE), GetOr(u.provisional, v.language), v.text.value)]
    else [Update((u.sequence, v.language), v.language, v.text.value)]
  }

  function VariantUpdates(u: Utterance, variants: seq<Variant>): seq<Update> {
    if variants == [] then [] else VariantUpdates(u, variants[..|variants| - 1]) + VariantUpdate(u, variants[|variants| - 1])
  }

  /** The lanes an utterance carries: its language variants if it has any, its shadow fields otherwise. */
  function UpdatesOf(u: Utterance): seq<Update> {
    if u.variants == [] then SourceShadow(u) + TranslatedShadow(u) else VariantUpdates(u, u.variants)
  }

  function RecordAll(m: Meter, updates: seq<Update>): Meter {
    if updates == [] then m
    else
      var last := updates[|updates| - 1];
      Record(RecordAll(m, updates[..|updates| - 1]), last.lane, last.language, last.text)
  }

  function AllUpdates(utterances: seq<Utterance>): seq<Update> {
    if utterances == [] then [] else AllUpdates(utterances[..|utterances| - 1]) + UpdatesOf(utterances[|utterances| - 1])
  }

  function RollSession(m: Meter, session: string): Meter {
    if m.session == Some(session) then m
    else if m.session.None? then m.(session := Some(session))
    else EMPTY.(session := Some(session))
  }

  datatype Event = Captions(session: string, utterances: seq<Utterance>) | Finish

  function Step(m: Meter, event: Event): Meter {
    match event
    case Captions(session, utterances) => RecordAll(RollSession(m, session), AllUpdates(utterances))
    case Finish => if m.session.None? then m else EMPTY
  }

  function Run(m: Meter, events: seq<Event>): Meter {
    if events == [] then m else Step(Run(m, events[..|events| - 1]), events[|events| - 1])
  }

  lemma {:induction false} RecordAllAppends(m: Meter, first: seq<Update>, second: seq<Update>)
    ensures RecordAll(m, first + second) == RecordAll(RecordAll(m, first), second)
  {
    if second == [] {
      assert first + second == first;
    } else {
      var front, last := second[..|second| - 1], second[|second| - 1];
      RecordAllAppends(m, first, front);
      assert (first + second)[..|first + second| - 1] == first + front;
      assert (first + second)[|first + second| - 1] == last;
    }
  }

  // ----- the meter itself

  class ErasureMeter {
    var session: Option<string>
    var presented: map<Lane, string>
    var language: map<Lane, string>
    var totals: map<string, Totals>

    function State(): Meter
      reads this
    {
      Meter(session, presented, language, totals)
    }

    constructor ()
      ensures State() == EMPTY
    {
      session, presented, language, totals := None, map[], map[], map[];
    }

    method FinishSession()
      modifies this
      ensures State() == Step(old(State()), Finish)
    {
      if session.None? {
        return;
      }
      session := None;
      presented := map[];
      language := map[];
      totals := map[];
    }

    method Roll(id: string)
      modifies this
      ensures State() == RollSession(old(State()), id)
    {
      if session != Some(id) {
        FinishSession();
        session := Some(id);
      }
    }

    method MigrateLaneLanguage(lane: Lane, to: string, laneChars: nat)
      modifies this
      ensures State() == Migrate(old(State()), lane, to, laneChars)
    {
      if lane !in language || language[lane] == to {
        return;
      }
      var from := language[lane];
      var moved := if from in totals then Min(totals[from].presented, laneChars) else 0;
      if from in totals {
        totals := totals[from := totals[from].(presented := totals[from].presented - moved)];
      }
      if to !in totals {
        totals := totals[to := ZERO];
      }
      totals := totals[to := totals[to].(presented := totals[to].presented + moved)];
      language := language[lane := to];
    }

    method RecordText(sequence: nat, role: string, to: string, text: string)
      modifies this
      ensures State() == Record(old(State()), (sequence, role), to, text)
    {
      var lane := (sequence, role);
      var was := TextOf(presented, lane);
      MigrateLaneLanguage(lane, to, |was|);
      if was == text {
        return;
      }
      RewriteLane(lane, to, was, text);
    }

    method RewriteLane(lane: Lane, to: string, was: string, text: string)
      modifies this
      ensures State() == Rewrite(old(State()), lane, to, was, text)
    {
      var common := CommonPrefixChars(was, text);
      var t := Of(totals, to);
      t := Totals(t.updates + 1, t.erased + (|was| - common), t.appended + (|text| - common), SatSub(t.presented, |was|) + |text|);
      totals := totals[to := t];
      presented := presented[lane := text];
      language := language[lane := to];
    }

    method AbsorbShadow(u: Utterance)
      modifies this
      ensures State() == RecordAll(old(State()), SourceShadow(u) + TranslatedShadow(u))
    {
      ghost var was := State();
      if u.sourceText != "" {
        RecordText(u.sequence, SOURCE_ROLE, GetOr(u.provisional, u.sourceLanguage), u.sourceText);
        OneUpdate(was, SourceShadow(u)[0]);
      }
      ghost var source := State();
      if u.translatedLanguage.Some? && u.translatedText.Some? && u.translatedText.value != "" {
        RecordText(u.sequence, u.translatedLanguage.value, u.translatedLanguage.value, u.translatedText.value);
        OneUpdate(source, TranslatedShadow(u)[0]);
      }
      RecordAllAppends(was, SourceShadow(u), TranslatedShadow(u));
    }

    method AbsorbVariant(u: Utterance, v: Variant)
      modifies this
      ensures State() == RecordAll(old(State()), VariantUpdate(u, v))
    {
      if v.text.None? || v.text.value == "" {
        return;
      }
      ghost var was := State();
      if v.role == "source" {
        RecordText(u.sequence, SOURCE_ROLE, GetOr(u.provisional, v.language), v.text.value);
      } else {
        RecordText(u.sequence, v.language, v.language, v.text.value);
      }
      OneUpdate(was, VariantUpdate(u, v)[0]);
    }

    method AbsorbUtterance(u: Utterance)
      modifies this
      ensures State() == RecordAll(old(State()), UpdatesOf(u))
    {
      if u.variants == [] {
        AbsorbShadow(u);
        return;
      }
      ghost var was := State();
      for i := 0 to |u.variants|
        invariant State() == RecordAll(was, VariantUpdates(u, u.variants[..i]))
      {
        AbsorbVariant(u, u.variants[i]);
        assert u.variants[..i + 1][..i] == u.variants[..i];
        RecordAllAppends(was, VariantUpdates(u, u.variants[..i]), VariantUpdate(u, u.variants[i]));
      }
      assert u.variants[..|u.variants|] == u.variants;
    }

    method AbsorbCaptions(id: string, utterances: seq<Utterance>)
      modifies this
      ensures State() == Step(old(State()), Captions(id, utterances))
    {
      Roll(id);
      ghost var rolled := State();
      for i := 0 to |utterances|
        invariant State() == RecordAll(rolled, AllUpdates(utterances[..i]))
      {
        AbsorbUtterance(utterances[i]);
        assert utterances[..i + 1][..i] == utterances[..i];
        RecordAllAppends(rolled, AllUpdates(utterances[..i]), UpdatesOf(utterances[i]));
      }
      assert utterances[..|utterances|] == utterances;
    }
  }

  method CommonPrefixChars(left: string, right: string) returns (n: nat)
    ensures n == CommonPrefix(left, right)
  {
    n := 0;
    while n < |left| && n < |right| && left[n] == right[n]
      invariant n <= |left| && n <= |right|
      invariant CommonPrefix(left, right) == n + CommonPrefix(left[n..], right[n..])
    {
      assert left[n..][1..] == left[n + 1..] && right[n..][1..] == right[n + 1..];
      n := n + 1;
    }
  }

  lemma OneUpdate(m: Meter, u: Update)
    ensures RecordAll(m, [u]) == Record(m, u.lane, u.language, u.text)
  {
    assert [u][..0] == [];
  }

  // ----- sums over lanes and over languages

  /** How many characters the lanes filed under a language show. */
  ghost function Filed(presented: map<Lane, string>, language: map<Lane, string>, lanes: set<Lane>, l: string): nat
    requires lanes <= presented.Keys && lanes <= language.Keys
  {
    if lanes == {} then 0
    else
      var lane :| lane in lanes;
      Share(presented, language, lane, l) + Filed(presented, language, lanes - {lane}, l)
  }

  function Share(presented: map<Lane, string>, language: map<Lane, string>, lane: Lane, l: string): nat {
    if lane in presented && lane in language && language[lane] == l then |presented[lane]| else 0
  }

  lemma {:induction false} FiledWithout(presented: map<Lane, string>, language: map<Lane, string>, lanes: set<Lane>, l: string, lane: Lane)
    requires lanes <= presented.Keys && lanes <= language.Keys && lane in lanes
    ensures Filed(presented, language, lanes, l) == Share(presented, language, lane, l) + Filed(presented, language, lanes - {lane}, l)
  {
    var picked :| picked in lanes && Filed(presented, language, lanes, l)
      == Share(presented, language, picked, l) + Filed(presented, language, lanes - {picked}, l);
    if picked != lane {
      FiledWithout(presented, language, lanes - {picked}, l, lane);
      FiledWithout(presented, language, lanes - {lane}, l, picked);
      assert lanes - {picked} - {lane} == lanes - {lane} - {picked};
    }
  }

  lemma {:induction false} FiledAgrees(p: map<Lane, string>, g: map<Lane, string>, p': map<Lane, string>, g': map<Lane, string>, lanes: set<Lane>, l: string)
    requires lanes <= p.Keys && lanes <= g.Keys && lanes <= p'.Keys && lanes <= g'.Keys
    requires forall lane | lane in lanes :: Share(p, g, lane, l) == Share(p', g', lane, l)
    ensures Filed(p, g, lanes, l) == Filed(p', g', lanes, l)
  {
    if lanes != {} {
      var lane :| lane in lanes;
      FiledWithout(p, g, lanes, l, lane);
      FiledWithout(p', g', lanes, l, lane);
      FiledAgrees(p, g, p', g', lanes - {lane}, l);
    }
  }

  /** Writing one lane replaces its share. */
  lemma FiledPut(p: map<Lane, string>, g: map<Lane, string>, lane: Lane, text: string, to: string, l: string)
    requires p.Keys == g.Keys
    ensures Filed(p[lane := text], g[lane := to], p[lane := text].Keys, l)
      == Filed(p, g, p.Keys, l) - Share(p, g, lane, l) + (if to == l then |text| else 0)
  {
    var p', g' := p[lane := text], g[lane := to];
    FiledWithout(p', g', p'.Keys, l, lane);
    var others := p.Keys - {lane};
    assert p'.Keys - {lane} == others;
    FiledAgrees(p, g, p', g', others, l);
    if lane in p {
      FiledWithout(p, g, p.Keys, l, lane);
    } else {
      assert others == p.Keys;
    }
  }

  /** A count summed over the languages. */
  ghost function Sum(totals: map<string, Totals>, languages: set<string>, count: Totals -> int): int
    requires languages <= totals.Keys
  {
    if languages == {} then 0
    else
      var l :| l in languages;
      count(totals[l]) + Sum(totals, languages - {l}, count)
  }

  lemma {:induction false} SumWithout(totals: map<string, Totals>, languages: set<string>, count: Totals -> int, l: string)
    requires languages <= totals.Keys && l in languages
    ensures Sum(totals, languages, count) == count(totals[l]) + Sum(totals, languages - {l}, count)
  {
    var picked :| picked in languages && Sum(totals, languages, count) == count(totals[picked]) + Sum(totals, languages - {picked}, count);
    if picked != l {
      SumWithout(totals, languages - {picked}, count, l);
      SumWithout(totals, languages - {l}, count, picked);
      assert languages - {picked} - {l} == languages - {l} - {picked};
    }
  }

  lemma {:induction false} SumAgrees(a: map<string, Totals>, b: map<string, Totals>, languages: set<string>, count: Totals -> int)
    requires languages <= a.Keys && languages <= b.Keys
    requires forall l | l in languages :: a[l] == b[l]
    ensures Sum(a, languages, count) == Sum(b, languages, count)
  {
    if languages != {} {
      var l :| l in languages;
      SumWithout(a, languages, count, l);
      SumWithout(b, languages, count, l);
      SumAgrees(a, b, languages - {l}, count);
    }
  }

  ghost function Total(totals: map<string, Totals>, count: Totals -> int): int {
    Sum(totals, totals.Keys, count)
  }

  /** Writing one language's totals replaces its count. */
  lemma TotalPut(totals: map<string, Totals>, l: string, t: Totals, count: Totals -> int)
    requires count(ZERO) == 0
    ensures Total(totals[l := t], count) == Total(totals, count) - count(Of(totals, l)) + count(t)
  {
    var after := totals[l := t];
    var others := totals.Keys - {l};
    SumWithout(after, after.Keys, count, l);
    assert after.Keys - {l} == others;
    SumAgrees(totals, after, others, count);
    if l in totals {
      SumWithout(totals, totals.Keys, count, l);
    } else {
      assert others == totals.Keys;
    }
  }

  const ERASED: Totals -> int := (t: Totals) => t.erased

  const APPENDED: Totals -> int := (t: Totals) => t.appended

  const PRESENTED: Totals -> int := (t: Totals) => t.presented

  const UPDATES: Totals -> int := (t: Totals) => t.updates

  // ----- what every update keeps

  /** Each language's presented count is the length of the lanes filed under it, and what was appended less
      what was erased is what is presented. */
  ghost predicate IsBalanced(m: Meter) {
    && m.presented.Keys == m.language.Keys
    && (forall l: string :: Of(m.totals, l).presented == Filed(m.presented, m.language, m.presented.Keys, l))
    && Total(m.totals, APPENDED) - Total(m.totals, ERASED) == Total(m.totals, PRESENTED)
    && (m.session.None? ==> m == EMPTY)
  }

  lemma EmptyIsBalanced(session: Option<string>)
    ensures IsBalanced(EMPTY.(session := session))
  {
  }

  /** A lane's characters are all counted under its language, so neither the smaller-of nor the saturating
      subtraction ever cuts anything off. */
  lemma LaneIsCounted(m: Meter, lane: Lane)
    requires IsBalanced(m) && lane in m.presented
    ensures Of(m.totals, m.language[lane]).presented >= |m.presented[lane]|
    ensures Moved(m, m.language[lane], |m.presented[lane]|) == |m.presented[lane]|
  {
    FiledWithout(m.presented, m.language, m.presented.Keys, m.language[lane], lane);
  }

  /** Moving characters between languages leaves every sum over the languages alone. */
  lemma MoveKeepsTotals(totals: map<string, Totals>, from: string, to: string, chars: nat, count: Totals -> int)
    requires count in {ERASED, APPENDED, UPDATES, PRESENTED} && from in totals && totals[from].presented >= chars && from != to
    ensures var left := totals[from := totals[from].(presented := totals[from].presented - chars)];
      Total(left[to := Of(left, to).(presented := Of(left, to).presented + chars)], count) == Total(totals, count)
  {
    var less := totals[from].(presented := totals[from].presented - chars);
    var left := totals[from := less];
    TotalPut(totals, from, less, count);
    TotalPut(left, to, Of(left, to).(presented := Of(left, to).presented + chars), count);
  }

  lemma MigrateKeepsTotals(m: Meter, lane: Lane, to: string, count: Totals -> int)
    requires IsBalanced(m) && count in {ERASED, APPENDED, UPDATES, PRESENTED}
    ensures Total(Migrate(m, lane, to, |TextOf(m.presented, lane)|).totals, count) == Total(m.totals, count)
  {
    if lane in m.language && m.language[lane] != to {
      LaneIsCounted(m, lane);
      MovedKeepsTotals(m.totals, m.language[lane], to, |m.presented[lane]|, count);
    }
  }

  /** Whether the lane's language has been counted yet or not. */
  lemma MovedKeepsTotals(totals: map<string, Totals>, from: string, to: string, chars: nat, count: Totals -> int)
    requires count in {ERASED, APPENDED, UPDATES, PRESENTED} && from != to && (from in totals ==> totals[from].presented >= chars)
    ensures var moved := if from in totals then Min(totals[from].presented, chars) else 0;
      var left := if from in totals then totals[from := totals[from].(presented := totals[from].presented - moved)] else totals;
      Total(left[to := Of(left, to).(presented := Of(left, to).presented + moved)], count) == Total(totals, count)
  {
    if from in totals {
      MoveKeepsTotals(totals, from, to, chars, count);
    } else {
      TotalPut(totals, to, Of(totals, to), count);
    }
  }

  lemma MigrateKeepsBalance(m: Meter, lane: Lane, to: string)
    requires IsBalanced(m)
    ensures IsBalanced(Migrate(m, lane, to, |TextOf(m.presented, lane)|))
  {
    var after := Migrate(m, lane, to, |TextOf(m.presented, lane)|);
    MigrateKeepsTotals(m, lane, to, ERASED);
    MigrateKeepsTotals(m, lane, to, APPENDED);
    MigrateKeepsTotals(m, lane, to, PRESENTED);
    if lane in m.language && m.language[lane] != to {
      LaneIsCounted(m, lane);
      assert m.presented[lane := m.presented[lane]] == m.presented;
      forall l: string
        ensures Of(after.totals, l).presented == Filed(after.presented, after.language, after.presented.Keys, l)
      {
        FiledPut(m.presented, m.language, lane, m.presented[lane], to, l);
      }
    }
  }

  lemma RewriteKeepsBalance(m: Meter, lane: Lane, to: string, text: string)
    requires IsBalanced(m) && m.session.Some? && (lane in m.language ==> m.language[lane] == to)
    ensures IsBalanced(Rewrite(m, lane, to, TextOf(m.presented, lane), text))
  {
    var was := TextOf(m.presented, lane);
    var scored := Scored(Of(m.totals, to), was, text);
    if lane in m.language {
      LaneIsCounted(m, lane);
    }
    TotalPut(m.totals, to, scored, ERASED);
    TotalPut(m.totals, to, scored, APPENDED);
    TotalPut(m.totals, to, scored, PRESENTED);
    var after := Rewrite(m, lane, to, was, text);
    forall l: string
      ensures Of(after.totals, l).presented == Filed(after.presented, after.language, after.presented.Keys, l)
    {
      FiledPut(m.presented, m.language, lane, text, to, l);
    }
  }

  lemma RecordKeepsBalance(m: Meter, lane: Lane, to: string, text: string)
    requires IsBalanced(m) && m.session.Some?
    ensures IsBalanced(Record(m, lane, to, text)) && Record(m, lane, to, text).session == m.session
  {
    MigrateKeepsBalance(m, lane, to);
    var moved := Migrate(m, lane, to, |TextOf(m.presented, lane)|);
    if TextOf(m.presented, lane) != text {
      RewriteKeepsBalance(moved, lane, to, text);
    }
  }

  lemma {:induction false} RecordAllKeepsBalance(m: Meter, updates: seq<Update>)
    requires IsBalanced(m) && m.session.Some?
    ensures IsBalanced(RecordAll(m, updates)) && RecordAll(m, updates).session == m.session
  {
    if updates != [] {
      var last := updates[|updates| - 1];
      RecordAllKeepsBalance(m, updates[..|updates| - 1]);
      RecordKeepsBalance(RecordAll(m, updates[..|updates| - 1]), last.lane, last.language, last.text);
    }
  }

  /** Over every run of captions, language changes and session changes the books balance. */
  lemma {:induction false} EveryRunBalances(events: seq<Event>)
    ensures IsBalanced(Run(EMPTY, events))
  {
    if events == [] {
      EmptyIsBalanced(None);
    } else {
      var before, event := Run(EMPTY, events[..|events| - 1]), events[|events| - 1];
      EveryRunBalances(events[..|events| - 1]);
      if event.Captions? {
        EmptyIsBalanced(Some(event.session));
        RecordAllKeepsBalance(RollSession(before, event.session), AllUpdates(event.utterances));
      } else {
        EmptyIsBalanced(None);
      }
    }
  }

  // ----- what the counts mean

  /** The common prefix is a prefix of both, and no longer one is. */
  lemma {:induction false} CommonPrefixIsLongest(left: string, right: string, n: nat)
    requires n <= |left| && n <= |right|
    ensures left[..n] == right[..n] <==> n <= CommonPrefix(left, right)
  {
    if n > 0 {
      if left[0] == right[0] {
        CommonPrefixIsLongest(left[1..], right[1..], n - 1);
        assert left[..n] == [left[0]] + left[1..][..n - 1] && right[..n] == [right[0]] + right[1..][..n - 1];
      } else {
        assert left[..n][0] != right[..n][0];
      }
    }
  }

  /** Nothing is taken back exactly when the new text continues the old. */
  lemma ErasesNothing(was: string, text: string)
    ensures |was| - CommonPrefix(was, text) == 0 <==> was <= text
  {
    if |was| <= |text| {
      CommonPrefixIsLongest(was, text, |was|);
      assert was[..|was|] == was;
    }
  }

  /** The text a lane shows after some updates. */
  function Shown(updates: seq<Update>, lane: Lane): string {
    if updates == [] then ""
    else if updates[|updates| - 1].lane == lane then updates[|updates| - 1].text
    else Shown(updates[..|updates| - 1], lane)
  }

  /** The language a lane was last given. */
  function Spoken(updates: seq<Update>, lane: Lane): Option<string> {
    if updates == [] then None
    else if updates[|updates| - 1].lane == lane then Some(updates[|updates| - 1].language)
    else Spoken(updates[..|updates| - 1], lane)
  }

  /** The characters the updates take back, counted against the history, whatever the languages. */
  function TakenBack(updates: seq<Update>): nat {
    if updates == [] then 0
    else
      var (before, last) := (updates[..|updates| - 1], updates[|updates| - 1]);
      var was := Shown(before, last.lane);
      TakenBack(before) + (|was| - CommonPrefix(was, last.text))
  }

  function Added(updates: seq<Update>): nat {
    if updates == [] then 0
    else
      var (before, last) := (updates[..|updates| - 1], updates[|updates| - 1]);
      Added(before) + (|last.text| - CommonPrefix(Shown(before, last.lane), last.text))
  }

  ghost predicate HaveText(updates: seq<Update>) {
    forall u | u in updates :: u.text != ""
  }

  /** The meter's lanes after some updates: the last text and the last language of each lane seen. */
  ghost predicate ShowsLast(m: Meter, updates: seq<Update>) {
    && m.presented.Keys == m.language.Keys
    && (forall lane :: lane in m.presented <==> Spoken(updates, lane).Some?)
    && (forall lane | lane in m.presented :: m.presented[lane] == Shown(updates, lane) && Spoken(updates, lane) == Some(m.language[lane]))
  }

  lemma {:induction false} UnseenShowsNothing(updates: seq<Update>, lane: Lane)
    requires Spoken(updates, lane).None?
    ensures Shown(updates, lane) == ""
  {
    if updates != [] {
      UnseenShowsNothing(updates[..|updates| - 1], lane);
    }
  }

  lemma RecordShowsLast(m: Meter, updates: seq<Update>, u: Update)
    requires ShowsLast(m, updates) && u.text != ""
    ensures TextOf(m.presented, u.lane) == Shown(updates, u.lane)
    ensures ShowsLast(Record(m, u.lane, u.language, u.text), updates + [u])
  {
    var more := updates + [u];
    assert more[..|more| - 1] == updates;
    if u.lane !in m.presented {
      UnseenShowsNothing(updates, u.lane);
    }
    var after := Record(m, u.lane, u.language, u.text);
    assert after.presented == m.presented[u.lane := u.text] && after.language == m.language[u.lane := u.language];
  }

  /** One update's effect on the counts summed over the languages: a change of language scores nothing. */
  lemma RecordScores(m: Meter, lane: Lane, to: string, text: string)
    requires IsBalanced(m) && m.session.Some?
    ensures var (was, after) := (TextOf(m.presented, lane), Record(m, lane, to, text));
      && Total(after.totals, ERASED) == Total(m.totals, ERASED) + (|was| - CommonPrefix(was, text))
      && Total(after.totals, APPENDED) == Total(m.totals, APPENDED) + (|text| - CommonPrefix(was, text))
      && Total(after.totals, UPDATES) == Total(m.totals, UPDATES) + (if was == text then 0 else 1)
  {
    var was := TextOf(m.presented, lane);
    MigrateKeepsTotals(m, lane, to, ERASED);
    MigrateKeepsTotals(m, lane, to, APPENDED);
    MigrateKeepsTotals(m, lane, to, UPDATES);
    var moved := Migrate(m, lane, to, |was|);
    if was == text {
      CommonPrefixIsLongest(was, was, |was|);
    } else {
      var scored := Scored(Of(moved.totals, to), was, text);
      TotalPut(moved.totals, to, scored, ERASED);
      TotalPut(moved.totals, to, scored, APPENDED);
      TotalPut(moved.totals, to, scored, UPDATES);
    }
  }

  /** After any run of updates within a session the meter's lanes show the last text of each lane under its
      last language, and its counts are those of the history. */
  lemma {:induction false} CountsAreHistory(session: string, updates: seq<Update>)
    requires HaveText(updates)
    ensures var m := RecordAll(EMPTY.(session := Some(session)), updates);
      ShowsLast(m, updates) && Total(m.totals, ERASED) == TakenBack(updates) && Total(m.totals, APPENDED) == Added(updates)
  {
    var start := EMPTY.(session := Some(session));
    if updates != [] {
      var before, last := updates[..|updates| - 1], updates[|updates| - 1];
      assert updates == before + [last];
      CountsAreHistory(session, before);
      EmptyIsBalanced(Some(session));
      RecordAllKeepsBalance(start, before);
      RecordShowsLast(RecordAll(start, before), before, last);
      RecordScores(RecordAll(start, before), last.lane, last.language, last.text);
    }
  }

  lemma {:induction false} VariantsHaveText(u: Utterance, variants: seq<Variant>)
    ensures HaveText(VariantUpdates(u, variants))
  {
    if variants != [] {
      VariantsHaveText(u, variants[..|variants| - 1]);
    }
  }

  lemma {:induction false} CaptionsHaveText(utterances: seq<Utterance>)
    ensures HaveText(AllUpdates(utterances))
  {
    if utterances != [] {
      CaptionsHaveText(utterances[..|utterances| - 1]);
      VariantsHaveText(utterances[|utterances| - 1], utterances[|utterances| - 1].variants);
    }
  }

  /** Everything one session's caption events said. */
  function History(events: seq<Event>): seq<Update> {
    if events == [] then []
    else
      var last := events[|events| - 1];
      History(events[..|events| - 1]) + if last.Captions? then AllUpdates(last.utterances) else []
  }

  /** The meter after a session's caption events counts that session's history and nothing else. */
  lemma {:induction false} SessionCountsItsHistory(session: string, before: Meter, events: seq<Event>)
    requires IsBalanced(before) && before.session != Some(session) && events != []
    requires forall e | e in events :: e.Captions? && e.session == session
    ensures var m := Run(before, events);
      ShowsLast(m, History(events)) && Total(m.totals, ERASED) == TakenBack(History(events)) && Total(m.totals, APPENDED) == Added(History(events))
  {
    SessionRun(session, before, events);
    CountsAreHistory(session, History(events));
  }

  lemma {:induction false} SessionRun(session: string, before: Meter, events: seq<Event>)
    requires IsBalanced(before) && before.session != Some(session) && events != []
    requires forall e | e in events :: e.Captions? && e.session == session
    ensures Run(before, events) == RecordAll(EMPTY.(session := Some(session)), History(events)) && HaveText(History(events))
  {
    var start, front, last := EMPTY.(session := Some(session)), events[..|events| - 1], events[|events| - 1];
    CaptionsHaveText(last.utterances);
    EmptyIsBalanced(Some(session));
    RecordAllKeepsBalance(start, History(front));
    RecordAllAppends(start, History(front), AllUpdates(last.utterances));
    if front == [] {
      assert History(events) == AllUpdates(last.utterances);
    } else {
      SessionRun(session, before, front);
    }
  }
}
