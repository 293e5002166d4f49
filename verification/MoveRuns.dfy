/** Runs of moves: without edits only a rollback can do harm, and never while plans are up to date; two runs in
    which text is lost; what a move that is not cut off leaves, undoes and repeats
    (crates/vt-ffi/src/session_move.rs:47-152). */
module MoveRuns {
  import opened Prelude
  import opened StyledText
  import opened OwnedText
  import opened SessionMove
  import Text = FlatMove
  import Slices = SessionSlices
  import Partial = PartialCopy
  import Marked = MarkedRanges

  // ----- runs without edits

  ghost predicate IsWholeOrNone(sys: System, notebook: string, tab: Tab, session: string) {
    notebook in sys.books && session in sys.text ==>
      Lacks(sys.books[notebook], tab, session) || Holds(sys.books[notebook], tab, session, sys.text[session])
  }

  /** A move under way has read what its source has. */
  ghost predicate HasReadSource(sys: System) {
    sys.move.Copying? ==> sys.move.plan.source in sys.books && sys.books[sys.move.plan.source].transcript == sys.move.seen
  }

  /** Every notebook has each tab's share of each recording whole or not at all. */
  ghost predicate IsAllOrNothing(sys: System) {
    HasReadSource(sys) && forall notebook, tab, session :: IsWholeOrNone(sys, notebook, tab, session)
  }

  lemma LackingCopyIsNothing(target: Book, source: Book, tab: Tab, session: string, later: seq<string>, inherit: Inherit)
    requires Lacks(source, tab, session)
    ensures CopyInto(target, source, tab, session, later, inherit) == target
    ensures AddsNothing(target, source, tab, session) && StaysSound(target, source, tab, session, later)
  {
    if tab != Realtime {
      Text.MineIsOwned(Flat(source, tab), session);
    }
  }

  lemma WholeCopyTakesAlong(target: Book, source: Book, tab: Tab, session: string, later: seq<string>, content: Content, home: Home)
    requires IsSoundBook(target, home) && Holds(source, tab, session, content)
    requires Lacks(target, tab, session) || Holds(target, tab, session, content)
    ensures TakesAlong(target, source, tab, session, later, content)
    ensures StaysSound(target, source, tab, session, later)
    ensures Holds(target, tab, session, content) ==> AddsNothing(target, source, tab, session)
  {
    if tab == Realtime {
      Partial.OwnIsNotMissing(target.transcript, session, home);
    } else {
      Text.MineIsOwned(Flat(target, tab), session);
      Text.MineIsOwned(Flat(source, tab), session);
    }
  }

  /** With no leftovers about, no copy does harm, and none is made. */
  lemma WholeCopyIsHarmless(sys: System, inherit: Inherit, home: Home)
    requires NothingIsLost(sys, home) && IsAllOrNothing(sys) && sys.move.Copying? && sys.move.done < |TABS|
    ensures IsHarmlessCopy(sys, sys.move.plan, sys.move.done, sys.move.seen)
    ensures IsWholeOrNone(Next(sys, CopyTab, inherit), sys.move.plan.target, TABS[sys.move.done], sys.move.plan.session)
  {
    var plan, i := sys.move.plan, sys.move.done;
    var target, source, tab, session := sys.books[plan.target], sys.books[plan.source], TABS[i], plan.session;
    assert HoldsText(sys, sys.owner[session], tab, session) && AsRead(sys, plan, sys.move.seen) == source;
    assert IsWholeOrNone(sys, plan.target, tab, session) && IsWholeOrNone(sys, plan.source, tab, session);
    CopyExactly(target, source, tab, session, plan.later[i], inherit, sys.text[session], home);
    if Holds(source, tab, session, sys.text[session]) {
      WholeCopyTakesAlong(target, source, tab, session, plan.later[i], sys.text[session], home);
    } else {
      LackingCopyIsNothing(target, source, tab, session, plan.later[i], inherit);
    }
  }

  lemma ShareStepStaysWhole(sys: System, after: System, notebook: string, tab: Tab, session: string)
    requires IsShareStep(sys, after, notebook, tab, session) && IsAllOrNothing(sys) && HasReadSource(after)
    requires IsWholeOrNone(after, notebook, tab, session)
    ensures IsAllOrNothing(after)
  {
    forall n, t, s
      ensures IsWholeOrNone(after, n, t, s)
    {
      assert IsWholeOrNone(sys, n, t, s);
      if n == notebook && (t != tab || s != session) && s in sys.text {
        SameShareHolds(sys.books[n], after.books[n], t, s, sys.text[s]);
      }
    }
  }

  lemma CopyStaysWhole(sys: System, inherit: Inherit, home: Home)
    requires NothingIsLost(sys, home) && IsAllOrNothing(sys) && sys.move.Copying? && sys.move.done < |TABS|
    ensures IsAllOrNothing(Next(sys, CopyTab, inherit))
  {
    var plan, i, after := sys.move.plan, sys.move.done, Next(sys, CopyTab, inherit);
    var target, source, tab, session := sys.books[plan.target], sys.books[plan.source], TABS[i], plan.session;
    WholeCopyIsHarmless(sys, inherit, home);
    assert HoldsText(sys, sys.owner[session], tab, session);
    CopyExactly(target, source, tab, session, plan.later[i], inherit, sys.text[session], home);
    assert AsRead(sys, plan, sys.move.seen) == source;
    assert after.books[plan.target] == CopyInto(target, source, tab, session, plan.later[i], inherit);
    ShareStepStaysWhole(sys, after, plan.target, tab, session);
  }

  lemma ClearStaysWhole(sys: System, after: System, notebook: string, tab: Tab, session: string, home: Home)
    requires NothingIsLost(sys, home) && IsAllOrNothing(sys) && notebook in sys.books && SamePlace(sys, after)
    requires after.books == sys.books[notebook := ClearFrom(sys.books[notebook], tab, session)] && !after.move.Copying?
    ensures IsAllOrNothing(after)
  {
    ClearKeepsBook(sys.books[notebook], tab, session, home);
    ShareStepStaysWhole(sys, after, notebook, tab, session);
  }

  lemma QuietStaysWhole(sys: System, after: System)
    requires after.books == sys.books && after.text == sys.text && IsAllOrNothing(sys) && HasReadSource(after)
    ensures IsAllOrNothing(after)
  {
    forall n, t, s
      ensures IsWholeOrNone(after, n, t, s)
    {
      assert IsWholeOrNone(sys, n, t, s);
    }
  }

  /** Neither an edit nor a copy that breaks off half-way. */
  predicate IsOwnStep(event: Event) {
    !event.EditText? && !event.EditTranscript? && !event.CopyBroken?
  }

  /** The three such steps that write into a notebook. */
  predicate WritesBook(sys: System, event: Event) {
    || (sys.move.Copying? && event.CopyTab? && sys.move.done < |TABS|)
    || (sys.move.RollingBack? && event.UndoTab? && event.works && sys.move.done < |TABS|)
    || (sys.move.Clearing? && event.ClearTab? && sys.move.done < |TABS|)
  }

  lemma OtherStepsWriteNothing(sys: System, event: Event, inherit: Inherit)
    requires event.CopyTab? || event.UndoTab? || event.ClearTab? || event.Crash?
    requires !WritesBook(sys, event)
    ensures Next(sys, event, inherit).books == sys.books && Next(sys, event, inherit).text == sys.text
  {
  }

  lemma CommitsWriteNothing(sys: System, event: Event, inherit: Inherit)
    requires event.Commit? || event.CommitRefused? || event.MakePlan?
    ensures Next(sys, event, inherit).books == sys.books && Next(sys, event, inherit).text == sys.text
  {
  }

  lemma PhasesWriteNothing(sys: System, event: Event, inherit: Inherit)
    requires event.Begin? || event.CopyFailed? || event.ClearFailed?
    ensures Next(sys, event, inherit).books == sys.books && Next(sys, event, inherit).text == sys.text
  {
    var after := Next(sys, event, inherit);
    if event.Begin? {
      assert after == sys.(pending := after.pending, move := after.move);
    } else {
      assert after == sys.(move := after.move);
    }
  }

  lemma StepStaysWhole(sys: System, event: Event, inherit: Inherit, home: Home)
    requires NothingIsLost(sys, home) && IsAllOrNothing(sys) && IsOwnStep(event)
    ensures IsAllOrNothing(Next(sys, event, inherit))
  {
    if !WritesBook(sys, event) {
      if event.CopyTab? || event.UndoTab? || event.ClearTab? || event.Crash? {
        OtherStepsWriteNothing(sys, event, inherit);
      } else if event.Commit? || event.CommitRefused? || event.MakePlan? {
        CommitsWriteNothing(sys, event, inherit);
      } else {
        PhasesWriteNothing(sys, event, inherit);
      }
      QuietStaysWhole(sys, Next(sys, event, inherit));
    } else if event.CopyTab? {
      CopyStaysWhole(sys, inherit, home);
    } else if event.UndoTab? {
      UndoStep(sys, sys.move.plan, sys.move.done, sys.move.seen, inherit);
      ClearStaysWhole(sys, Next(sys, event, inherit), sys.move.plan.target, TABS[sys.move.done], sys.move.plan.session, home);
    } else {
      ClearStep(sys, sys.move.plan, sys.move.done, sys.move.seen, inherit);
      ClearStaysWhole(sys, Next(sys, event, inherit), sys.move.plan.source, TABS[sys.move.done], sys.move.plan.session, home);
    }
  }

  lemma ClearStep(sys: System, plan: Plan, n: nat, seen: Slices.Blocks, inherit: Inherit)
    requires sys.move == Clearing(plan, n, seen) && n < |TABS| && plan.source in sys.books
    ensures Next(sys, ClearTab, inherit) ==
      WithBook(sys, plan.source, ClearFrom(sys.books[plan.source], TABS[n], plan.session), Clearing(plan, n + 1, seen))
  {
  }

  lemma UndoStep(sys: System, plan: Plan, n: nat, seen: Slices.Blocks, inherit: Inherit)
    requires sys.move == RollingBack(plan, n, seen) && n < |TABS| && plan.target in sys.books
    ensures Next(sys, UndoTab(true), inherit) ==
      WithBook(sys, plan.target, ClearFrom(sys.books[plan.target], TABS[n], plan.session), RollingBack(plan, n + 1, seen))
  {
  }

  lemma WholeStepIsHarmless(sys: System, event: Event, inherit: Inherit, home: Home)
    requires NothingIsLost(sys, home) && IsAllOrNothing(sys) && IsOwnStep(event)
    ensures IsHarmless(sys, event, home) <==> !RollsOwnerBack(sys, event)
  {
    if sys.move.Copying? && event.CopyTab? && sys.move.done < |TABS| {
      WholeCopyIsHarmless(sys, inherit, home);
    }
  }

  /** At no point of the run is a notebook rolled back that owns the recording. */
  ghost predicate RollsNoOwnerBack(sys: System, events: seq<Event>, inherit: Inherit)
    decreases |events|
  {
    events == [] || (!RollsOwnerBack(sys, events[0]) && RollsNoOwnerBack(Next(sys, events[0], inherit), events[1..], inherit))
  }

  /** Nobody edits, and no copy breaks off half-way. */
  ghost predicate HasNoEdits(events: seq<Event>) {
    forall e | e in events :: IsOwnStep(e)
  }

  /** However calls race, fail or are cut off: while nobody edits, a run keeps every recording whole in the notebook
      that owns it exactly when no owner is rolled back in it. */
  lemma {:induction false} EditFreeRunExactly(sys: System, events: seq<Event>, inherit: Inherit, home: Home)
    requires NothingIsLost(sys, home) && IsAllOrNothing(sys) && HasNoEdits(events)
    ensures IsKeptThroughout(sys, events, inherit, home) <==> RollsNoOwnerBack(sys, events, inherit)
    decreases |events|
  {
    if events != [] {
      var rest := events[1..];
      assert events == [events[0]] + rest && events[0] in events;
      StepExactly(sys, events[0], inherit, home);
      StepStaysWhole(sys, events[0], inherit, home);
      WholeStepIsHarmless(sys, events[0], inherit, home);
      if !RollsOwnerBack(sys, events[0]) {
        assert HasNoEdits(rest);
        EditFreeRunExactly(Next(sys, events[0], inherit), rest, inherit, home);
      }
    }
  }

  // ----- runs in which plans are up to date

  /** Every move of the run begins while the notebook its plan names still owns the recording. */
  ghost predicate BeginsUpToDate(sys: System, events: seq<Event>, inherit: Inherit)
    decreases |events|
  {
    events == [] || (
      && (sys.move.Idle? && events[0].Begin? ==> IsLive(sys, events[0].plan))
      && BeginsUpToDate(Next(sys, events[0], inherit), events[1..], inherit))
  }

  ghost predicate IsUpToDate(sys: System) {
    sys.move.Copying? || sys.move.RollingBack? ==> IsLive(sys, sys.move.plan)
  }

  lemma StepStaysUpToDate(sys: System, event: Event, inherit: Inherit, home: Home)
    requires NothingIsLost(sys, home) && IsUpToDate(sys)
    requires sys.move.Idle? && event.Begin? ==> IsLive(sys, event.plan)
    ensures IsUpToDate(Next(sys, event, inherit)) && !RollsOwnerBack(sys, event)
  {
  }

  /** While plans are up to date nothing can be lost without edits, whatever fails or is cut off. */
  lemma {:induction false} EveryRunKeepsSections(sys: System, events: seq<Event>, inherit: Inherit, home: Home)
    requires NothingIsLost(sys, home) && IsAllOrNothing(sys) && IsUpToDate(sys)
    requires HasNoEdits(events) && BeginsUpToDate(sys, events, inherit)
    ensures IsKeptThroughout(sys, events, inherit, home)
    decreases |events|
  {
    if events != [] {
      var rest := events[1..];
      assert events == [events[0]] + rest && events[0] in events;
      StepExactly(sys, events[0], inherit, home);
      StepStaysWhole(sys, events[0], inherit, home);
      WholeStepIsHarmless(sys, events[0], inherit, home);
      StepStaysUpToDate(sys, events[0], inherit, home);
      assert HasNoEdits(rest);
      EveryRunKeepsSections(Next(sys, events[0], inherit), rest, inherit, home);
    }
  }

  // ----- a move that is not cut off

  /** The first `n` tabs copied. */
  function CopyTabs(target: Book, source: Book, n: nat, session: string, later: seq<seq<string>>, inherit: Inherit): Book
    requires n <= |TABS| && |later| == |TABS|
  {
    if n == 0 then target else CopyInto(CopyTabs(target, source, n - 1, session, later, inherit), source, TABS[n - 1], session, later[n - 1], inherit)
  }

  function ClearTabs(book: Book, n: nat, session: string): Book
    requires n <= |TABS|
  {
    if n == 0 then book else ClearFrom(ClearTabs(book, n - 1, session), TABS[n - 1], session)
  }

  lemma CopiedTabs(target: Book, source: Book, n: nat, session: string, later: seq<seq<string>>, inherit: Inherit)
    requires n <= |TABS| && |later| == |TABS|
    ensures var copied := CopyTabs(target, source, n, session, later, inherit);
      && copied.transcript == (if n >= 1 then Slices.Copied(target.transcript, source.transcript, session, later[0]) else target.transcript)
      && copied.asyncText == (if n >= 2 then Text.Copied(target.asyncText, source.asyncText, session, later[1], inherit) else target.asyncText)
      && copied.note == (if n >= 3 then Text.Copied(target.note, source.note, session, later[2], inherit) else target.note)
  {
    if n > 0 {
      CopiedTabs(target, source, n - 1, session, later, inherit);
    }
  }

  lemma ClearedTabs(book: Book, session: string)
    ensures ClearTabs(book, |TABS|, session) ==
      Book(Slices.RestOf(book.transcript, session, None), Others(book.asyncText, session), Others(book.note, session))
  {
    var one := ClearTabs(book, 1, session);
    assert one == ClearFrom(ClearTabs(book, 0, session), Realtime, session);
    var two := ClearTabs(book, 2, session);
    assert two == ClearFrom(one, Async, session);
    assert ClearTabs(book, 3, session) == ClearFrom(two, Note, session);
  }

  /** A clear that is not cut off leaves nothing of the recording behind. */
  lemma ClearedLacksAll(book: Book, session: string)
    ensures forall tab: Tab :: Lacks(ClearTabs(book, |TABS|, session), tab, session)
  {
    ClearedTabs(book, session);
    Slices.RestHasNoSlice(book.transcript, session);
    Text.ClearLeavesOthers(book.asyncText, session, session);
    Text.ClearLeavesOthers(book.note, session, session);
  }

  lemma TranscriptUndone(target: Book, source: Book, session: string, later: seq<string>, home: Home)
    requires IsSoundBook(target, home) && IsSoundBook(source, home) && Lacks(target, Realtime, session)
    ensures Slices.RestOf(Slices.Copied(target.transcript, source.transcript, session, later), session, None) == target.transcript
    ensures Slices.RestOf(target.transcript, session, None) == target.transcript
  {
    Slices.CopyKeepsSound(target.transcript, source.transcript, session, later, home);
    Slices.NotHome(target.transcript, session, home);
    Slices.NoRangeIsNoSlice(target.transcript, session);
  }

  lemma TextUndone(target: Marked.Doc, source: Marked.Doc, session: string, later: seq<string>, inherit: Inherit)
    requires Mine(target, session) == []
    ensures Others(Text.Copied(target, source, session, later, inherit), session) == target
    ensures Others(target, session) == target
  {
    Text.MineIsOwned(target, session);
    FreeFilter(target, session);
    Text.CopyHoldsSection(target, source, session, later, inherit, Mine(source, session));
  }

  /** Undoing a copy that got as far as any tab gives the target back exactly as it was. */
  lemma UndoRestoresTarget(target: Book, source: Book, n: nat, session: string, later: seq<seq<string>>, inherit: Inherit, home: Home)
    requires n <= |TABS| && |later| == |TABS|
    requires IsSoundBook(target, home) && IsSoundBook(source, home) && forall tab: Tab :: Lacks(target, tab, session)
    ensures ClearTabs(CopyTabs(target, source, n, session, later, inherit), |TABS|, session) == target
  {
    var copied := CopyTabs(target, source, n, session, later, inherit);
    assert Lacks(target, Realtime, session) && Lacks(target, Async, session) && Lacks(target, Note, session);
    TranscriptUndone(target, source, session, later[0], home);
    TextUndone(target.asyncText, source.asyncText, session, later[1], inherit);
    TextUndone(target.note, source.note, session, later[2], inherit);
    CopiedTabs(target, source, n, session, later, inherit);
    ClearedTabs(copied, session);
  }

  /** The steps of a plan, done once, change nothing when done again, wherever the copy would go this time. */
  lemma RepeatingChangesNothing(target: Book, source: Book, tab: Tab, session: string, later: seq<string>, later': seq<string>,
                                inherit: Inherit, content: Content, home: Home)
    requires IsSoundBook(target, home) && IsSoundBook(source, home) && Holds(source, tab, session, content)
    requires Lacks(target, tab, session) || Holds(target, tab, session, content)
    ensures var copied := CopyInto(target, source, tab, session, later, inherit);
      CopyInto(copied, source, tab, session, later', inherit) == copied
    ensures ClearFrom(ClearFrom(target, tab, session), tab, session) == ClearFrom(target, tab, session)
  {
    if tab == Realtime {
      Slices.CopyKeepsSound(target.transcript, source.transcript, session, later, home);
      Slices.CopyAgainIsNothing(Slices.Copied(target.transcript, source.transcript, session, later), source.transcript, session, later', home);
      Slices.RemoveKeepsSound(target.transcript, session, home);
    } else {
      Text.CopyTwiceIsOnce(Flat(target, tab), Flat(source, tab), session, later, later', inherit);
      Text.ClearLeavesOthers(Flat(target, tab), session, session);
    }
  }

  // ----- the states a run passes through

  lemma RunThen(sys: System, events: seq<Event>, event: Event, inherit: Inherit)
    ensures Run(sys, events + [event], inherit) == Next(Run(sys, events, inherit), event, inherit)
  {
    RunAppends(sys, events, [event], inherit);
    assert Run(Run(sys, events, inherit), [event], inherit) == Run(Next(Run(sys, events, inherit), event, inherit), [], inherit);
  }

  function Repeated(event: Event, n: nat): seq<Event> {
    if n == 0 then [] else Repeated(event, n - 1) + [event]
  }

  function BeginAndCopy(plan: Plan, n: nat): seq<Event> {
    if n == 0 then [] + [Begin(plan)] else BeginAndCopy(plan, n - 1) + [CopyTab]
  }

  function MoveEvents(plan: Plan): seq<Event> {
    BeginAndCopy(plan, |TABS|) + [Commit]
  }

  /** Each tab in turn, and the end. */
  function TabEvents(event: Event): seq<Event> {
    Repeated(event, |TABS|) + [event]
  }

  /** The state while `plan` is being carried out, from the books as they were when it began. */
  function Midway(sys: System, plan: Plan, n: nat, inherit: Inherit): System
    requires n <= |TABS| && |plan.later| == |TABS| && plan.source in sys.books && plan.target in sys.books
  {
    sys.(
      books := sys.books[plan.target := CopyTabs(sys.books[plan.target], sys.books[plan.source], n, plan.session, plan.later, inherit)],
      pending := sys.pending - multiset{plan},
      move := Copying(plan, n, sys.books[plan.source].transcript))
  }

  lemma MidwayStep(sys: System, plan: Plan, n: nat, inherit: Inherit)
    requires IsPlan(sys, plan) && n < |TABS|
    ensures Next(Midway(sys, plan, n, inherit), CopyTab, inherit) == Midway(sys, plan, n + 1, inherit)
  {
    var now := Midway(sys, plan, n, inherit);
    assert IsPlan(now, plan) && now.books[plan.source] == sys.books[plan.source] == AsRead(now, plan, now.move.seen);
    assert Next(now, CopyTab, inherit).books == Midway(sys, plan, n + 1, inherit).books;
  }

  lemma {:induction false} MidwayRun(sys: System, plan: Plan, n: nat, inherit: Inherit)
    requires sys.move.Idle? && plan in sys.pending && IsPlan(sys, plan) && n <= |TABS|
    ensures Run(sys, BeginAndCopy(plan, n), inherit) == Midway(sys, plan, n, inherit)
  {
    if n == 0 {
      RunThen(sys, [], Begin(plan), inherit);
      assert sys.books[plan.target := sys.books[plan.target]] == sys.books;
    } else {
      MidwayRun(sys, plan, n - 1, inherit);
      RunThen(sys, BeginAndCopy(plan, n - 1), CopyTab, inherit);
      MidwayStep(sys, plan, n - 1, inherit);
    }
  }

  /** The state after a whole move: committed when the plan is not out of date, and else turned back. */
  function Moved(sys: System, plan: Plan, inherit: Inherit): System
    requires |plan.later| == |TABS| && plan.source in sys.books && plan.target in sys.books && plan.session in sys.owner
  {
    var copied := Midway(sys, plan, |TABS|, inherit);
    if sys.owner[plan.session] == plan.source
    then copied.(owner := sys.owner[plan.session := plan.target], move := Clearing(plan, 0, copied.move.seen))
    else copied.(move := RollingBack(plan, 0, copied.books[plan.target].transcript))
  }

  lemma CommitStep(sys: System, plan: Plan, inherit: Inherit)
    requires IsPlan(sys, plan)
    ensures Next(Midway(sys, plan, |TABS|, inherit), Commit, inherit) == Moved(sys, plan, inherit)
  {
  }

  lemma MoveRun(sys: System, plan: Plan, inherit: Inherit)
    requires sys.move.Idle? && plan in sys.pending && IsPlan(sys, plan)
    ensures Run(sys, MoveEvents(plan), inherit) == Moved(sys, plan, inherit)
  {
    MidwayRun(sys, plan, |TABS|, inherit);
    CommitStep(sys, plan, inherit);
    RunThen(sys, BeginAndCopy(plan, |TABS|), Commit, inherit);
  }

  function Cleaned(sys: System, notebook: string, session: string, n: nat, move: Phase): System
    requires n <= |TABS| && notebook in sys.books
  {
    sys.(books := sys.books[notebook := ClearTabs(sys.books[notebook], n, session)], move := move)
  }

  lemma CleanedOnce(sys: System, notebook: string, session: string, n: nat, move: Phase, move': Phase)
    requires n < |TABS| && notebook in sys.books
    ensures var now := Cleaned(sys, notebook, session, n, move);
      WithBook(now, notebook, ClearFrom(now.books[notebook], TABS[n], session), move') == Cleaned(sys, notebook, session, n + 1, move')
  {
  }

  lemma ClearNext(sys: System, plan: Plan, n: nat, seen: Slices.Blocks, inherit: Inherit)
    requires plan.source in sys.books && n < |TABS|
    ensures Next(Cleaned(sys, plan.source, plan.session, n, Clearing(plan, n, seen)), ClearTab, inherit) ==
      Cleaned(sys, plan.source, plan.session, n + 1, Clearing(plan, n + 1, seen))
  {
    ClearStep(Cleaned(sys, plan.source, plan.session, n, Clearing(plan, n, seen)), plan, n, seen, inherit);
    CleanedOnce(sys, plan.source, plan.session, n, Clearing(plan, n, seen), Clearing(plan, n + 1, seen));
  }

  lemma UndoNext(sys: System, plan: Plan, n: nat, seen: Slices.Blocks, inherit: Inherit)
    requires plan.target in sys.books && n < |TABS|
    ensures Next(Cleaned(sys, plan.target, plan.session, n, RollingBack(plan, n, seen)), UndoTab(true), inherit) ==
      Cleaned(sys, plan.target, plan.session, n + 1, RollingBack(plan, n + 1, seen))
  {
    UndoStep(Cleaned(sys, plan.target, plan.session, n, RollingBack(plan, n, seen)), plan, n, seen, inherit);
    CleanedOnce(sys, plan.target, plan.session, n, RollingBack(plan, n, seen), RollingBack(plan, n + 1, seen));
  }

  lemma {:induction false} ClearingRun(sys: System, plan: Plan, n: nat, seen: Slices.Blocks, inherit: Inherit)
    requires sys.move == Clearing(plan, 0, seen) && plan.source in sys.books && n <= |TABS|
    ensures Run(sys, Repeated(ClearTab, n), inherit) == Cleaned(sys, plan.source, plan.session, n, Clearing(plan, n, seen))
  {
    if n == 0 {
      assert sys.books[plan.source := sys.books[plan.source]] == sys.books;
    } else {
      ClearingRun(sys, plan, n - 1, seen, inherit);
      RunThen(sys, Repeated(ClearTab, n - 1), ClearTab, inherit);
      ClearNext(sys, plan, n - 1, seen, inherit);
    }
  }

  /** With all tabs done, the move ends. */
  lemma LastStep(sys: System, inherit: Inherit)
    ensures sys.move.Clearing? && sys.move.done >= |TABS| ==> Next(sys, ClearTab, inherit) == sys.(move := Idle)
    ensures sys.move.RollingBack? && sys.move.done >= |TABS| ==> Next(sys, UndoTab(true), inherit) == sys.(move := Idle)
  {
  }

  lemma ClearRun(sys: System, plan: Plan, seen: Slices.Blocks, inherit: Inherit)
    requires sys.move == Clearing(plan, 0, seen) && plan.source in sys.books
    ensures Run(sys, TabEvents(ClearTab), inherit) == Cleaned(sys, plan.source, plan.session, |TABS|, Idle)
  {
    ClearingRun(sys, plan, |TABS|, seen, inherit);
    LastStep(Cleaned(sys, plan.source, plan.session, |TABS|, Clearing(plan, |TABS|, seen)), inherit);
    RunThen(sys, Repeated(ClearTab, |TABS|), ClearTab, inherit);
  }

  lemma {:induction false} UndoingRun(sys: System, plan: Plan, n: nat, seen: Slices.Blocks, inherit: Inherit)
    requires sys.move == RollingBack(plan, 0, seen) && plan.target in sys.books && n <= |TABS|
    ensures Run(sys, Repeated(UndoTab(true), n), inherit) == Cleaned(sys, plan.target, plan.session, n, RollingBack(plan, n, seen))
  {
    if n == 0 {
      assert sys.books[plan.target := sys.books[plan.target]] == sys.books;
    } else {
      UndoingRun(sys, plan, n - 1, seen, inherit);
      RunThen(sys, Repeated(UndoTab(true), n - 1), UndoTab(true), inherit);
      UndoNext(sys, plan, n - 1, seen, inherit);
    }
  }

  lemma UndoRun(sys: System, plan: Plan, seen: Slices.Blocks, inherit: Inherit)
    requires sys.move == RollingBack(plan, 0, seen) && plan.target in sys.books
    ensures Run(sys, TabEvents(UndoTab(true)), inherit) == Cleaned(sys, plan.target, plan.session, |TABS|, Idle)
  {
    UndoingRun(sys, plan, |TABS|, seen, inherit);
    LastStep(Cleaned(sys, plan.target, plan.session, |TABS|, RollingBack(plan, |TABS|, seen)), inherit);
    RunThen(sys, Repeated(UndoTab(true), |TABS|), UndoTab(true), inherit);
  }

  // ----- two calls at once

  function SecondCall(plan: Plan): seq<Event> {
    MoveEvents(plan) + TabEvents(ClearTab) + MoveEvents(plan) + TabEvents(UndoTab(true))
  }

  /** Two calls move the same recording to the same notebook. Both make their plan before either has the lock. */
  function TwoCalls(plan: Plan): seq<Event> {
    var call := MakePlan(plan.session, plan.target, plan.later);
    Repeated(call, 2) + SecondCall(plan)
  }

  lemma TwoPlans(sys: System, plan: Plan, inherit: Inherit)
    requires sys.move.Idle? && IsPlan(sys, plan) && IsLive(sys, plan)
    ensures var planned := Run(sys, Repeated(MakePlan(plan.session, plan.target, plan.later), 2), inherit);
      planned == sys.(pending := planned.pending) && planned.pending[plan] >= 2
  {
    var call := MakePlan(plan.session, plan.target, plan.later);
    var one := sys.(pending := sys.pending + multiset{plan});
    RunThen(sys, [], call, inherit);
    assert Repeated(call, 1) == Repeated(call, 0) + [call] && Repeated(call, 2) == Repeated(call, 1) + [call];
    RunThen(sys, Repeated(call, 1), call, inherit);
    assert IsPlan(one, plan);
  }

  /** The first call moves the recording. The second copies nothing, is refused, and rolls back what the first one
      copied: the notebook that owns the recording now has none of it, and neither has the one it came from. */
  lemma TwoCallsLoseTheRecording(sys: System, plan: Plan, inherit: Inherit, home: Home)
    requires NothingIsLost(sys, home) && IsAllOrNothing(sys) && sys.move.Idle? && IsPlan(sys, plan) && IsLive(sys, plan)
    ensures var after := Run(sys, TwoCalls(plan), inherit);
      && after.move.Idle? && after.owner == sys.owner[plan.session := plan.target] && after.text == sys.text
      && plan.source in after.books && plan.target in after.books
      && forall tab: Tab :: Lacks(after.books[plan.source], tab, plan.session) && Lacks(after.books[plan.target], tab, plan.session)
  {
    var planned := Run(sys, Repeated(MakePlan(plan.session, plan.target, plan.later), 2), inherit);
    TwoPlans(sys, plan, inherit);
    assert IsPlan(planned, plan);
    SecondCallEmpties(planned, plan, inherit);
    RunAppends(sys, Repeated(MakePlan(plan.session, plan.target, plan.later), 2), SecondCall(plan), inherit);
  }

  lemma SecondCallEmpties(sys: System, plan: Plan, inherit: Inherit)
    requires sys.move.Idle? && sys.pending[plan] >= 2 && IsPlan(sys, plan) && IsLive(sys, plan)
    ensures var after := Run(sys, SecondCall(plan), inherit);
      && after.move.Idle? && after.owner == sys.owner[plan.session := plan.target] && after.text == sys.text
      && plan.source in after.books && plan.target in after.books
      && forall tab: Tab :: Lacks(after.books[plan.source], tab, plan.session) && Lacks(after.books[plan.target], tab, plan.session)
  {
    var first := Moved(sys, plan, inherit);
    var cleared := Cleaned(first, plan.source, plan.session, |TABS|, Idle);
    var second := Moved(cleared, plan, inherit);
    MoveRun(sys, plan, inherit);
    RunAppends(sys, MoveEvents(plan), TabEvents(ClearTab), inherit);
    ClearRun(first, plan, first.move.seen, inherit);
    RunAppends(sys, MoveEvents(plan) + TabEvents(ClearTab), MoveEvents(plan), inherit);
    assert IsPlan(cleared, plan);
    MoveRun(cleared, plan, inherit);
    RunAppends(sys, MoveEvents(plan) + TabEvents(ClearTab) + MoveEvents(plan), TabEvents(UndoTab(true)), inherit);
    UndoRun(second, plan, second.move.seen, inherit);
    ClearedLacksAll(first.books[plan.source], plan.session);
    ClearedLacksAll(second.books[plan.target], plan.session);
  }

  // ----- what a move takes along

  function Place(tab: Tab): (i: nat)
    ensures i < |TABS| && TABS[i] == tab
  {
    match tab case Realtime => 0 case Async => 1 case Note => 2
  }

  /** Each tab of the copied book is that tab copied. */
  lemma CopiedShare(target: Book, source: Book, tab: Tab, session: string, later: seq<seq<string>>, inherit: Inherit)
    requires |later| == |TABS|
    ensures var copied, one := CopyTabs(target, source, |TABS|, session, later, inherit),
                               CopyInto(target, source, tab, session, later[Place(tab)], inherit);
      if tab == Realtime then copied.transcript == one.transcript else Flat(copied, tab) == Flat(one, tab)
  {
    CopiedTabs(target, source, |TABS|, session, later, inherit);
  }

  ghost predicate AreFit(target: Book, source: Book, session: string, later: seq<seq<string>>, home: Home) {
    && IsSoundBook(target, home) && IsSoundBook(source, home)
    && |later| == |TABS| && forall i | 0 <= i < |TABS| :: session !in later[i]
  }

  lemma CopiedIsSound(target: Book, source: Book, session: string, later: seq<seq<string>>, inherit: Inherit, home: Home)
    requires AreFit(target, source, session, later, home)
    ensures IsSoundBook(CopyTabs(target, source, |TABS|, session, later, inherit), home)
      <==> StaysSound(target, source, Realtime, session, later[0])
  {
    CopiedTabs(target, source, |TABS|, session, later, inherit);
    var content := ShareOf(source, session);
    CopyExactly(target, source, Realtime, session, later[0], inherit, content, home);
    CopyFlatExactly(target, source, Async, session, later[1], inherit, content, home);
    CopyFlatExactly(target, source, Note, session, later[2], inherit, content, home);
  }

  /** In a sound copied book a tab has the content exactly when its copy takes it along, and other recordings'
      shares are as they were. */
  lemma CopiedTabExactly(target: Book, source: Book, tab: Tab, session: string, later: seq<seq<string>>, inherit: Inherit, content: Content, home: Home)
    requires AreFit(target, source, session, later, home) && StaysSound(target, source, Realtime, session, later[0])
    ensures var copied := CopyTabs(target, source, |TABS|, session, later, inherit);
      && (forall other | other != session :: SameShare(target, copied, tab, other))
      && (Holds(source, tab, session, content) ==>
        (Holds(copied, tab, session, content) <==> TakesAlong(target, source, tab, session, later[Place(tab)], content)))
  {
    CopiedShare(target, source, tab, session, later, inherit);
    var i := Place(tab);
    CopyExactly(target, source, tab, session, later[i], inherit, content, home);
    var copied, one := CopyTabs(target, source, |TABS|, session, later, inherit), CopyInto(target, source, tab, session, later[i], inherit);
    assert IsSoundBook(one, home);
    forall other | other != session
      ensures SameShare(target, copied, tab, other)
    {
      assert SameShare(target, one, tab, other);
    }
  }

  ghost predicate TakesAllAlong(sys: System, plan: Plan)
    requires IsPlan(sys, plan) && plan.session in sys.text
  {
    forall tab: Tab ::
      TakesAlong(sys.books[plan.target], sys.books[plan.source], tab, plan.session, plan.later[Place(tab)], sys.text[plan.session])
  }

  lemma SharesStay(sys: System, plan: Plan, inherit: Inherit, home: Home, tab: Tab, session: string)
    requires NothingIsLost(sys, home) && IsPlan(sys, plan) && IsLive(sys, plan) && session in sys.owner && session != plan.session
    requires StaysSound(sys.books[plan.target], sys.books[plan.source], Realtime, plan.session, plan.later[0])
    ensures HoldsText(Moved(sys, plan, inherit), sys.owner[session], tab, session)
  {
    var target, source, after := sys.books[plan.target], sys.books[plan.source], Moved(sys, plan, inherit);
    assert HoldsText(sys, sys.owner[session], tab, session);
    if sys.owner[session] == plan.target {
      CopiedTabExactly(target, source, tab, plan.session, plan.later, inherit, ShareOf(source, plan.session), home);
      assert SameShare(target, after.books[plan.target], tab, session);
      SameShareHolds(target, after.books[plan.target], tab, session, sys.text[session]);
    }
  }

  lemma MovedHoldsExactly(sys: System, plan: Plan, inherit: Inherit, home: Home, tab: Tab)
    requires NothingIsLost(sys, home) && IsPlan(sys, plan) && IsLive(sys, plan) && plan.session in sys.text
    requires StaysSound(sys.books[plan.target], sys.books[plan.source], Realtime, plan.session, plan.later[0])
    ensures HoldsText(Moved(sys, plan, inherit), plan.target, tab, plan.session) <==>
      TakesAlong(sys.books[plan.target], sys.books[plan.source], tab, plan.session, plan.later[Place(tab)], sys.text[plan.session])
  {
    assert HoldsText(sys, sys.owner[plan.session], tab, plan.session);
    CopiedTabExactly(sys.books[plan.target], sys.books[plan.source], tab, plan.session, plan.later, inherit, sys.text[plan.session], home);
  }

  lemma MovedIsSound(sys: System, plan: Plan, inherit: Inherit, home: Home)
    requires NothingIsLost(sys, home) && IsPlan(sys, plan) && IsLive(sys, plan)
    ensures BooksAreSound(Moved(sys, plan, inherit), home) <==> StaysSound(sys.books[plan.target], sys.books[plan.source], Realtime, plan.session, plan.later[0])
  {
    var after := Moved(sys, plan, inherit);
    CopiedIsSound(sys.books[plan.target], sys.books[plan.source], plan.session, plan.later, inherit, home);
    if IsSoundBook(after.books[plan.target], home) {
      assert BooksAreSound(after, home);
    }
  }

  lemma MovedOwnersHold(sys: System, plan: Plan, inherit: Inherit, home: Home)
    requires NothingIsLost(sys, home) && IsPlan(sys, plan) && IsLive(sys, plan) && plan.session in sys.text
    requires StaysSound(sys.books[plan.target], sys.books[plan.source], Realtime, plan.session, plan.later[0])
    ensures OwnersHold(Moved(sys, plan, inherit)) <==> TakesAllAlong(sys, plan)
  {
    var after := Moved(sys, plan, inherit);
    forall tab: Tab
      ensures HoldsText(after, plan.target, tab, plan.session) <==>
        TakesAlong(sys.books[plan.target], sys.books[plan.source], tab, plan.session, plan.later[Place(tab)], sys.text[plan.session])
    {
      MovedHoldsExactly(sys, plan, inherit, home, tab);
    }
    forall s, t | s in after.owner && s != plan.session
      ensures HoldsText(after, after.owner[s], t, s)
    {
      SharesStay(sys, plan, inherit, home, t, s);
    }
    if OwnersHold(after) {
      forall tab: Tab
        ensures HoldsText(after, plan.target, tab, plan.session)
      {
        assert HoldsText(after, after.owner[plan.session], tab, plan.session);
      }
    }
  }

  /** A move that is not cut off takes the newest text along exactly when, in every tab, the target had nothing of
      the recording left over, or that very text, or in the transcript a first part of it with the rest next. */
  lemma MoveKeepsNewestText(sys: System, plan: Plan, inherit: Inherit, home: Home)
    requires NothingIsLost(sys, home) && sys.move.Idle? && plan in sys.pending && IsLive(sys, plan)
    ensures IsPlan(sys, plan) && plan.session in sys.text
    ensures NothingIsLost(Run(sys, MoveEvents(plan), inherit), home) <==> TakesAllAlong(sys, plan)
  {
    assert IsPlan(sys, plan);
    assert HoldsText(sys, sys.owner[plan.session], Note, plan.session);
    MoveRun(sys, plan, inherit);
    MovedExactly(sys, plan, inherit, home);
  }

  lemma MovedPhase(sys: System, plan: Plan, inherit: Inherit, home: Home)
    requires NothingIsLost(sys, home) && IsPlan(sys, plan) && IsLive(sys, plan)
    ensures PhaseIsSound(Moved(sys, plan, inherit)) && SeenIsSound(Moved(sys, plan, inherit), home)
    ensures forall other | other in Moved(sys, plan, inherit).pending :: IsPlan(Moved(sys, plan, inherit), other)
  {
    var after := Moved(sys, plan, inherit);
    assert after.books[plan.source] == sys.books[plan.source] && IsPlan(after, plan);
    PlansStay(sys, after);
  }

  lemma MovedExactly(sys: System, plan: Plan, inherit: Inherit, home: Home)
    requires NothingIsLost(sys, home) && IsPlan(sys, plan) && IsLive(sys, plan) && plan.session in sys.text
    ensures NothingIsLost(Moved(sys, plan, inherit), home) <==> TakesAllAlong(sys, plan)
  {
    var after := Moved(sys, plan, inherit);
    MovedIsSound(sys, plan, inherit, home);
    MovedPhase(sys, plan, inherit, home);
    if BooksAreSound(after, home) {
      MovedOwnersHold(sys, plan, inherit, home);
    } else {
      assert !TakesAlong(sys.books[plan.target], sys.books[plan.source], Realtime, plan.session, plan.later[Place(Realtime)], sys.text[plan.session]);
    }
  }

  // ----- text edited while a copy was left behind

  /** A move is cut off right after its commit, so the old notebook keeps a copy; then the new one is edited. */
  function CutOff(plan: Plan, note: Marked.Doc): seq<Event> {
    [MakePlan(plan.session, plan.target, plan.later)] + MoveEvents(plan) + ([Crash] + [EditText(plan.target, Note, note)])
  }

  function MovedBack(plan: Plan): seq<Event> {
    [MakePlan(plan.session, plan.target, plan.later)] + MoveEvents(plan) + TabEvents(ClearTab)
  }

  lemma PlanRun(sys: System, plan: Plan, inherit: Inherit)
    requires sys.move.Idle? && IsPlan(sys, plan) && IsLive(sys, plan)
    ensures Run(sys, [MakePlan(plan.session, plan.target, plan.later)], inherit) == sys.(pending := sys.pending + multiset{plan})
  {
    RunThen(sys, [], MakePlan(plan.session, plan.target, plan.later), inherit);
    assert [] + [MakePlan(plan.session, plan.target, plan.later)] == [MakePlan(plan.session, plan.target, plan.later)];
  }

  /** A crash, and then an edit of the note in one notebook. */
  lemma CrashAndEdit(sys: System, notebook: string, note: Marked.Doc, inherit: Inherit)
    requires notebook in sys.books
    ensures Run(sys, [Crash] + [EditText(notebook, Note, note)], inherit) ==
      Edited(sys.(pending := multiset{}, move := Idle), notebook, Note, sys.books[notebook].(note := note))
  {
    var crashed := sys.(pending := multiset{}, move := Idle);
    RunThen(sys, [], Crash, inherit);
    assert [] + [Crash] == [Crash];
    RunThen(sys, [Crash], EditText(notebook, Note, note), inherit);
    EditIs(crashed, notebook, Note, note, inherit);
  }

  /** The move there, the crash after its commit, and the edit. */
  lemma CutOffRun(sys: System, plan: Plan, note: Marked.Doc, inherit: Inherit)
    requires sys.move.Idle? && IsPlan(sys, plan) && IsLive(sys, plan) && plan.session in sys.text
    ensures var after := Run(sys, CutOff(plan, note), inherit);
      && after.move.Idle? && after.owner == sys.owner[plan.session := plan.target] && plan.target in after.books
      && after.books == sys.books[plan.target := after.books[plan.target]] && after.books[plan.target].note == note
      && plan.session in after.text && after.text[plan.session].note == Mine(note, plan.session)
  {
    var call := [MakePlan(plan.session, plan.target, plan.later)];
    var planned := sys.(pending := sys.pending + multiset{plan});
    PlanRun(sys, plan, inherit);
    RunAppends(sys, call, MoveEvents(plan), inherit);
    assert IsPlan(planned, plan);
    MoveRun(planned, plan, inherit);
    var moved := Moved(planned, plan, inherit);
    RunAppends(sys, call + MoveEvents(plan), [Crash] + [EditText(plan.target, Note, note)], inherit);
    CrashAndEdit(moved, plan.target, note, inherit);
  }

  /** The move back, cleared to the end. */
  lemma BackRun(sys: System, plan: Plan, inherit: Inherit)
    requires sys.move.Idle? && IsPlan(sys, plan) && IsLive(sys, plan)
    ensures var after := Run(sys, MovedBack(plan), inherit);
      && after.move.Idle? && after.owner == sys.owner[plan.session := plan.target] && after.text == sys.text
      && plan.source in after.books && plan.target in after.books
      && after.books[plan.target] == CopyTabs(sys.books[plan.target], sys.books[plan.source], |TABS|, plan.session, plan.later, inherit)
      && forall tab: Tab :: Lacks(after.books[plan.source], tab, plan.session)
  {
    var call := [MakePlan(plan.session, plan.target, plan.later)];
    var planned := sys.(pending := sys.pending + multiset{plan});
    PlanRun(sys, plan, inherit);
    RunAppends(sys, call, MoveEvents(plan), inherit);
    assert IsPlan(planned, plan);
    MoveRun(planned, plan, inherit);
    var moved := Moved(planned, plan, inherit);
    RunAppends(sys, call + MoveEvents(plan), TabEvents(ClearTab), inherit);
    ClearRun(moved, plan, moved.move.seen, inherit);
    ClearedLacksAll(moved.books[plan.source], plan.session);
  }

  /** The copy left behind is taken for the copy of the edited note: the recording's owner is left with the old
      note, and what was written since is gone from both notebooks. */
  lemma EditIsLostOnTheWayBack(sys: System, plan: Plan, note: Marked.Doc, back: Plan, inherit: Inherit, home: Home)
    requires NothingIsLost(sys, home) && IsAllOrNothing(sys) && sys.move.Idle? && IsPlan(sys, plan) && IsLive(sys, plan)
    requires IsPlan(sys, back) && back.session == plan.session && back.source == plan.target && back.target == plan.source
    requires Text.IsWellOwned(note)
    requires Text.Has(sys.books[plan.source].note, plan.session)
    requires !Text.Covers(Mine(sys.books[plan.source].note, plan.session), Mine(note, plan.session))
    ensures var after := Run(sys, CutOff(plan, note) + MovedBack(back), inherit);
      && after.move.Idle? && plan.session in after.owner && after.owner[plan.session] == plan.source && plan.session in after.text
      && after.text[plan.session].note == Mine(note, plan.session)
      && !HoldsText(after, plan.source, Note, plan.session)
      && plan.source in after.books && after.books[plan.source].note == sys.books[plan.source].note
      && plan.target in after.books && Lacks(after.books[plan.target], Note, plan.session)
  {
    assert HoldsText(sys, sys.owner[plan.session], Note, plan.session);
    var between := Run(sys, CutOff(plan, note), inherit);
    CutOffRun(sys, plan, note, inherit);
    assert IsPlan(between, back);
    BackRun(between, back, inherit);
    RunAppends(sys, CutOff(plan, note), MovedBack(back), inherit);
    NoteStays(sys.books[plan.source], between.books[plan.target], back.session, back.later, inherit);
  }

  lemma NoteStays(target: Book, source: Book, session: string, later: seq<seq<string>>, inherit: Inherit)
    requires |later| == |TABS| && Text.Has(target.note, session)
    ensures CopyTabs(target, source, |TABS|, session, later, inherit).note == target.note
  {
    CopiedTabs(target, source, |TABS|, session, later, inherit);
  }
}
