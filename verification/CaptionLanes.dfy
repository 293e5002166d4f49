/** Which lanes and languages an utterance's captions are filed under, and what the meter shows once it has taken them in
    (crates/vt-ffi/src/capture_erasure.rs:103-158). */
module CaptionLanes {
  import opened Prelude
  import opened CaptionErasure

  predicate IsShown(text: Option<string>) {
    text.Some? && |text.value| > 0
  }

  function CountShown(variants: seq<Variant>): nat {
    if variants == [] then 0
    else CountShown(variants[..|variants| - 1]) + if IsShown(variants[|variants| - 1].text) then 1 else 0
  }

  /** Spoken text is filed in the utterance's one source lane, under the language guessed so far if there is a guess and
      else under its own; translated text in the lane of its language. */
  predicate IsFiled(u: Utterance, isSource: bool, language: string, text: string, update: Update) {
    && update.text == text && update.lane.0 == u.sequence
    && (isSource ==> update.lane.1 == "#source" && update.language == if u.provisional.Some? then u.provisional.value else language)
    && (!isSource ==> update.lane.1 == language && update.language == language)
  }

  predicate VariantIsIn(u: Utterance, v: Variant, update: Update) {
    v.text.Some? && IsFiled(u, v.role == "source", v.language, v.text.value, update)
  }

  /** The `n`th variant with a text is the `n`th update. */
  lemma {:induction false} VariantsInOrder(u: Utterance, variants: seq<Variant>, i: nat)
    requires i < |variants| && IsShown(variants[i].text)
    ensures |VariantUpdates(u, variants)| == CountShown(variants) && CountShown(variants[..i]) < CountShown(variants)
    ensures VariantIsIn(u, variants[i], VariantUpdates(u, variants)[CountShown(variants[..i])])
  {
    var last := |variants| - 1;
    VariantsAreCounted(u, variants[..last]);
    if i < last {
      VariantsInOrder(u, variants[..last], i);
      assert variants[..last][..i] == variants[..i];
    }
  }

  lemma {:induction false} VariantsAreCounted(u: Utterance, variants: seq<Variant>)
    ensures |VariantUpdates(u, variants)| == CountShown(variants)
  {
    if variants != [] {
      VariantsAreCounted(u, variants[..|variants| - 1]);
    }
  }

  /** Every update comes from a variant with a text. */
  lemma {:induction false} UpdateHasVariant(u: Utterance, variants: seq<Variant>, k: nat) returns (i: nat)
    requires k < |VariantUpdates(u, variants)|
    ensures i < |variants| && IsShown(variants[i].text) && CountShown(variants[..i]) == k
  {
    var last := |variants| - 1;
    VariantsAreCounted(u, variants[..last]);
    if k < CountShown(variants[..last]) {
      i := UpdateHasVariant(u, variants[..last], k);
      assert variants[..last][..i] == variants[..i];
    } else {
      i := last;
    }
  }

  /** An utterance with language variants is counted by them alone: one update for each that has a text, in order. */
  lemma VariantIsFiled(u: Utterance, i: nat)
    requires i < |u.variants| && IsShown(u.variants[i].text)
    ensures |UpdatesOf(u)| == CountShown(u.variants) && CountShown(u.variants[..i]) < |UpdatesOf(u)|
    ensures VariantIsIn(u, u.variants[i], UpdatesOf(u)[CountShown(u.variants[..i])])
  {
    VariantsInOrder(u, u.variants, i);
  }

  /** One without is counted by its spoken text and its translation, where it has them. */
  lemma ShadowIsFiled(u: Utterance)
    requires u.variants == []
    ensures var spoken, translated := |u.sourceText| > 0, u.translatedLanguage.Some? && IsShown(u.translatedText);
      && |UpdatesOf(u)| == (if spoken then 1 else 0) + (if translated then 1 else 0)
      && (spoken ==> IsFiled(u, true, u.sourceLanguage, u.sourceText, UpdatesOf(u)[0]))
      && (translated ==> IsFiled(u, false, u.translatedLanguage.value, u.translatedText.value, UpdatesOf(u)[|UpdatesOf(u)| - 1]))
  {
  }

  /** Two texts of one utterance share a lane exactly when both are spoken, or both are translations into one language, a
      language called "#source" aside. */
  predicate SharesLane(a: Variant, b: Variant) {
    || (a.role == "source" && b.role == "source")
    || (a.role != "source" && b.role != "source" && a.language == b.language)
    || (a.role == "source" && b.role != "source" && b.language == "#source")
    || (a.role != "source" && b.role == "source" && a.language == "#source")
  }

  lemma LanesAreApart(u: Utterance, i: nat, j: nat)
    requires i < |u.variants| && j < |u.variants| && IsShown(u.variants[i].text) && IsShown(u.variants[j].text)
    ensures var all := UpdatesOf(u); var a, b := CountShown(u.variants[..i]), CountShown(u.variants[..j]);
      a < |all| && b < |all| && (all[a].lane == all[b].lane <==> SharesLane(u.variants[i], u.variants[j]))
  {
    VariantIsFiled(u, i);
    VariantIsFiled(u, j);
  }

  lemma {:induction false} UpdatesAreOwn(u: Utterance, k: nat)
    requires k < |UpdatesOf(u)|
    ensures UpdatesOf(u)[k].lane.0 == u.sequence
  {
    if u.variants != [] {
      var i := UpdateHasVariant(u, u.variants, k);
      VariantIsFiled(u, i);
    }
  }

  lemma {:induction false} CountKeepsOrder(variants: seq<Variant>, i: nat, j: nat)
    requires i <= |variants| && j <= |variants| && CountShown(variants[..i]) < CountShown(variants[..j])
    ensures i < j
    decreases i - j
  {
    if j < i {
      assert variants[..i][..i - 1] == variants[..i - 1];
      CountKeepsOrder(variants, i - 1, j);
    }
  }

  // ----- what the meter shows afterwards

  /** The last update of a lane is what it shows. */
  lemma {:induction false} LastIsShown(before: seq<Update>, updates: seq<Update>, k: nat)
    requires k < |updates| && forall j | k < j < |updates| :: updates[j].lane != updates[k].lane
    ensures Shown(before + updates, updates[k].lane) == updates[k].text
    ensures Spoken(before + updates, updates[k].lane) == Some(updates[k].language)
  {
    var last := |updates| - 1;
    assert (before + updates)[..|before + updates| - 1] == before + updates[..last];
    if k < last {
      LastIsShown(before, updates[..last], k);
    }
  }

  lemma {:induction false} OthersAreShown(before: seq<Update>, updates: seq<Update>, lane: Lane)
    requires forall j | 0 <= j < |updates| :: updates[j].lane != lane
    ensures Shown(before + updates, lane) == Shown(before, lane) && Spoken(before + updates, lane) == Spoken(before, lane)
  {
    if updates == [] {
      assert before + updates == before;
    } else {
      assert (before + updates)[..|before + updates| - 1] == before + updates[..|updates| - 1];
      OthersAreShown(before, updates[..|updates| - 1], lane);
    }
  }

  /** After an utterance the meter shows each of its texts in its own lane, unless a later text of the utterance took the
      lane over, and the lanes of every other utterance as they were. */
  lemma CaptionStands(session: string, history: seq<Update>, u: Utterance, i: nat)
    requires HaveText(history) && i < |u.variants| && IsShown(u.variants[i].text)
    requires forall j | i < j < |u.variants| && IsShown(u.variants[j].text) :: !SharesLane(u.variants[i], u.variants[j])
    ensures var (m, v) := (RecordAll(EMPTY.(session := Some(session)), history + UpdatesOf(u)), u.variants[i]);
      if v.role == "source" then Shows(m, (u.sequence, "#source"), v.text.value, if u.provisional.Some? then u.provisional.value else v.language)
      else Shows(m, (u.sequence, v.language), v.text.value, v.language)
  {
    var k := CountShown(u.variants[..i]);
    VariantIsFiled(u, i);
    forall j | k < j < |UpdatesOf(u)|
      ensures UpdatesOf(u)[j].lane != UpdatesOf(u)[k].lane
    {
      var other := UpdateHasVariant(u, u.variants, j);
      CountKeepsOrder(u.variants, i, other);
      LanesAreApart(u, i, other);
    }
    LastIsShown(history, UpdatesOf(u), k);
    VariantsHaveText(u, u.variants);
    CountsAreHistory(session, history + UpdatesOf(u));
  }

  predicate Shows(m: Meter, lane: Lane, text: string, language: string) {
    lane in m.presented && lane in m.language && m.presented[lane] == text && m.language[lane] == language
  }

  lemma OthersStand(session: string, history: seq<Update>, u: Utterance, lane: Lane)
    requires HaveText(history) && lane.0 != u.sequence
    ensures var start := EMPTY.(session := Some(session));
      var (m, after) := (RecordAll(start, history), RecordAll(start, history + UpdatesOf(u)));
      && TextOf(after.presented, lane) == TextOf(m.presented, lane)
      && (lane in after.language <==> lane in m.language) && (lane in m.language ==> after.language[lane] == m.language[lane])
  {
    forall k | 0 <= k < |UpdatesOf(u)|
      ensures UpdatesOf(u)[k].lane != lane
    {
      UpdatesAreOwn(u, k);
    }
    OthersAreShown(history, UpdatesOf(u), lane);
    VariantsHaveText(u, u.variants);
    CountsAreHistory(session, history);
    CountsAreHistory(session, history + UpdatesOf(u));
  }
}
