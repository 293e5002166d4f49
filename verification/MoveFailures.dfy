/** Moves that fail: what the rollback of a copy leaves, where a clear that fails stops, and what a move made again after
    a crash comes to (crates/vt-ffi/src/session_move.rs:61-83, 84-111). */
module MoveFailures {
  import opened Prelude
  import opened StyledText
  import opened OwnedText
  import opened SessionMove
  import opened MoveRaces
  import opened MoveRuns
  import Text = FlatMove
  import Slices = SessionSlices
  import Marked = MarkedRanges

  // ----- a failure before the commit

  /** Something goes wrong once `n` tabs are copied: the next copy fails, or, after the last, the commit is refused,
      outright or because the recording has another owner by now. */
  ghost predicate Fails(sys: System, plan: Plan, n: nat, event: Event) {
    || event.CopyFailed?
    || (event.CommitRefused? && n == |TABS|)
    || (event.Commit? && n == |TABS| && !IsLive(sys, plan))
  }

  /** A move that fails after `n` copies, with its rollback. */
  function FailedMove(plan: Plan, n: nat, event: Event): seq<Event> {
    BeginAndCopy(plan, n) + [event] + TabEvents(UndoTab(true))
  }

  lemma FailureStep(sys: System, plan: Plan, n: nat, event: Event, inherit: Inherit)
    requires IsPlan(sys, plan) && n <= |TABS| && Fails(sys, plan, n, event)
    ensures var now := Midway(sys, plan, n, inherit);
      Next(now, event, inherit) == now.(move := RollingBack(plan, 0, now.books[plan.target].transcript))
  {
  }

  /** The books after the rollback: the target without anything of the recording. */
  lemma RolledBack(sys: System, plan: Plan, n: nat, event: Event, inherit: Inherit)
    requires sys.move.Idle? && plan in sys.pending && IsPlan(sys, plan) && n <= |TABS| && Fails(sys, plan, n, event)
    ensures var copied := CopyTabs(sys.books[plan.target], sys.books[plan.source], n, plan.session, plan.later, inherit);
      Run(sys, FailedMove(plan, n, event), inherit) ==
      System(sys.books[plan.target := ClearTabs(copied, |TABS|, plan.session)], sys.owner, sys.text, sys.pending - multiset{plan}, Idle)
  {
    var now := Midway(sys, plan, n, inherit);
    var turned := now.(move := RollingBack(plan, 0, now.books[plan.target].transcript));
    MidwayRun(sys, plan, n, inherit);
    RunThen(sys, BeginAndCopy(plan, n), event, inherit);
    FailureStep(sys, plan, n, event, inherit);
    RunAppends(sys, BeginAndCopy(plan, n) + [event], TabEvents(UndoTab(true)), inherit);
    UndoRun(turned, plan, turned.move.seen, inherit);
  }

  /** A move that fails before its commit, wherever it does, and is rolled back leaves every notebook and every owner as
      they were exactly when the target had nothing of the recording before. */
  lemma RollbackRestoresExactly(sys: System, plan: Plan, n: nat, event: Event, inherit: Inherit, home: Home)
    requires BooksAreSound(sys, home) && sys.move.Idle? && plan in sys.pending && IsPlan(sys, plan)
    requires n <= |TABS| && Fails(sys, plan, n, event)
    ensures var after := Run(sys, FailedMove(plan, n, event), inherit);
      && after.move.Idle? && after.owner == sys.owner
      && (after.books == sys.books <==> forall tab: Tab :: Lacks(sys.books[plan.target], tab, plan.session))
  {
    var target, source := sys.books[plan.target], sys.books[plan.source];
    var copied := CopyTabs(target, source, n, plan.session, plan.later, inherit);
    RolledBack(sys, plan, n, event, inherit);
    ClearedLacksAll(copied, plan.session);
    if forall tab: Tab :: Lacks(target, tab, plan.session) {
      UndoRestoresTarget(target, source, n, plan.session, plan.later, inherit, home);
    } else {
      assert ClearTabs(copied, |TABS|, plan.session) != target;
      assert sys.books[plan.target := ClearTabs(copied, |TABS|, plan.session)][plan.target] != sys.books[plan.target];
    }
  }

  /** So it is when the commit is refused, after all three copies. */
  lemma RefusalRestoresExactly(sys: System, plan: Plan, inherit: Inherit, home: Home)
    requires BooksAreSound(sys, home) && sys.move.Idle? && plan in sys.pending && IsPlan(sys, plan)
    ensures var after := Run(sys, FailedMove(plan, |TABS|, CommitRefused), inherit);
      && after.move.Idle? && after.owner == sys.owner
      && (after.books == sys.books <==> forall tab: Tab :: Lacks(sys.books[plan.target], tab, plan.session))
  {
    RollbackRestoresExactly(sys, plan, |TABS|, CommitRefused, inherit, home);
  }

  // ----- a copy that breaks off half-way, rolled back

  /** The characters that got no mark stay: clearing the session takes only those it owns. */
  lemma HalfCopyCleared(doc: Marked.Doc, pos: nat, cells: Marked.Doc, session: string, kept: nat)
    requires pos <= |doc| && NoneOwned(doc, session) && Text.IsPartlyOwned(cells, session, kept)
    ensures Others(Insert(doc, pos, cells), session) == Insert(doc, pos, cells[kept..])
  {
    var before, own, after := doc[..pos], cells[..kept], cells[kept..] + doc[pos..];
    assert Insert(doc, pos, cells) == before + own + after;
    assert NoneOwned(after, session);
    OthersThree(before, own, after, session);
    assert before + after == Insert(doc, pos, cells[kept..]);
  }

  lemma InsertIsNothing(doc: Marked.Doc, pos: nat, cells: Marked.Doc)
    requires pos <= |doc|
    ensures Insert(doc, pos, cells) == doc <==> cells == []
  {
    assert |Insert(doc, pos, cells)| == |doc| + |cells|;
    assert cells == [] ==> doc[..pos] + cells + doc[pos..] == doc;
  }

  function HalfMove(plan: Plan, cells: Marked.Doc, kept: nat): seq<Event> {
    BeginAndCopy(plan, 1) + [CopyBroken(cells, kept)] + TabEvents(UndoTab(true))
  }

  lemma HalfMoveRun(sys: System, plan: Plan, cells: Marked.Doc, kept: nat, inherit: Inherit)
    requires sys.move.Idle? && plan in sys.pending && CanBreakAsync(sys, plan, cells, kept)
    ensures var after := Run(sys, HalfMove(plan, cells, kept), inherit);
      && after.move.Idle? && after.owner == sys.owner && plan.target in after.books
      && after.books[plan.target].asyncText == Others(BrokenText(sys, plan, cells), plan.session)
  {
    var broken := Next(Midway(sys, plan, 1, inherit), CopyBroken(cells, kept), inherit);
    MidwayRun(sys, plan, 1, inherit);
    RunThen(sys, BeginAndCopy(plan, 1), CopyBroken(cells, kept), inherit);
    BreakStep(sys, plan, cells, kept, inherit);
    BrokenPlan(sys, plan, cells, kept, inherit);
    RunAppends(sys, BeginAndCopy(plan, 1) + [CopyBroken(cells, kept)], TabEvents(UndoTab(true)), inherit);
    UndoRun(broken, plan, broken.move.seen, inherit);
    ClearedTabs(broken.books[plan.target], plan.session);
  }

  lemma BrokenPlan(sys: System, plan: Plan, cells: Marked.Doc, kept: nat, inherit: Inherit)
    requires CanBreakAsync(sys, plan, cells, kept)
    ensures var move := Next(Midway(sys, plan, 1, inherit), CopyBroken(cells, kept), inherit).move;
      move.RollingBack? && move == RollingBack(plan, 0, move.seen)
  {
    var now := Midway(sys, plan, 1, inherit);
    CopiedTabs(sys.books[plan.target], sys.books[plan.source], 1, plan.session, plan.later, inherit);
    assert IsPlan(now, plan) && CanBreak(now, cells, kept);
  }

  /** A rollback that works takes back a copy that broke off half-way exactly when every character had its mark; what
      had none stays in the target as nobody's text. */
  lemma HalfCopyUndoneExactly(sys: System, plan: Plan, cells: Marked.Doc, kept: nat, inherit: Inherit, home: Home)
    requires BooksAreSound(sys, home) && sys.move.Idle? && plan in sys.pending && CanBreakAsync(sys, plan, cells, kept)
    ensures var after := Run(sys, HalfMove(plan, cells, kept), inherit);
      && after.move.Idle? && after.owner == sys.owner && plan.target in after.books
      && after.books[plan.target].asyncText == BrokenText(sys, plan, cells[kept..])
      && (after.books[plan.target].asyncText == sys.books[plan.target].asyncText <==> kept == |cells|)
  {
    var doc := sys.books[plan.target].asyncText;
    HalfMoveRun(sys, plan, cells, kept, inherit);
    Text.MineIsOwned(doc, plan.session);
    HalfCopyCleared(doc, Text.Anchor(doc, plan.later[1]), cells, plan.session, kept);
    InsertIsNothing(doc, Text.Anchor(doc, plan.later[1]), cells[kept..]);
  }

  // ----- a clear that fails

  /** The tab of the two books is the same. */
  predicate SameTab(a: Book, b: Book, tab: Tab) {
    if tab == Realtime then a.transcript == b.transcript else Flat(a, tab) == Flat(b, tab)
  }

  /** The tab is one of the first `k` and has nothing of the session, or is as it was. */
  ghost predicate IsClearedUpTo(book: Book, after: Book, session: string, k: nat, tab: Tab) {
    if Place(tab) < k then Lacks(after, tab, session) else SameTab(after, book, tab)
  }

  lemma ClearedOne(book: Book, session: string, cleared: Tab, tab: Tab)
    ensures if tab == cleared then Lacks(ClearFrom(book, cleared, session), tab, session) else SameTab(ClearFrom(book, cleared, session), book, tab)
  {
    Slices.RestHasNoSlice(book.transcript, session);
    Text.ClearLeavesOthers(book.asyncText, session, session);
    Text.ClearLeavesOthers(book.note, session, session);
  }

  lemma {:induction false} ClearedSoFar(book: Book, k: nat, session: string, tab: Tab)
    requires k <= |TABS|
    ensures IsClearedUpTo(book, ClearTabs(book, k, session), session, k, tab)
  {
    if k > 0 {
      ClearedSoFar(book, k - 1, session, tab);
      ClearedOne(ClearTabs(book, k - 1, session), session, TABS[k - 1], tab);
    }
  }

  lemma FailedClearRun(sys: System, plan: Plan, k: nat, inherit: Inherit)
    requires sys.move.Idle? && plan in sys.pending && IsPlan(sys, plan) && IsLive(sys, plan) && k <= |TABS|
    ensures Run(sys, MoveEvents(plan) + Repeated(ClearTab, k) + [ClearFailed], inherit) ==
      Cleaned(Moved(sys, plan, inherit), plan.source, plan.session, k, Idle)
  {
    var moved := Moved(sys, plan, inherit);
    MoveRun(sys, plan, inherit);
    RunAppends(sys, MoveEvents(plan), Repeated(ClearTab, k), inherit);
    ClearingRun(moved, plan, k, moved.move.seen, inherit);
    RunThen(sys, MoveEvents(plan) + Repeated(ClearTab, k), ClearFailed, inherit);
    ClearFailure(Cleaned(moved, plan.source, plan.session, k, Clearing(plan, k, moved.move.seen)), inherit);
  }

  /** A clear that fails ends the move: the recording is the target's, whose copy stays, and the source is rid of the tabs
      cleared before and keeps the others as they were. */
  lemma FailedClearEnds(sys: System, plan: Plan, k: nat, inherit: Inherit)
    requires sys.move.Idle? && plan in sys.pending && IsPlan(sys, plan) && IsLive(sys, plan) && k <= |TABS|
    ensures var after := Run(sys, MoveEvents(plan) + Repeated(ClearTab, k) + [ClearFailed], inherit);
      && after.move.Idle? && after.owner == sys.owner[plan.session := plan.target]
      && plan.source in after.books && plan.target in after.books
      && after.books == sys.books[plan.source := after.books[plan.source]][plan.target := after.books[plan.target]]
      && after.books[plan.target] == CopyTabs(sys.books[plan.target], sys.books[plan.source], |TABS|, plan.session, plan.later, inherit)
      && forall tab: Tab :: IsClearedUpTo(sys.books[plan.source], after.books[plan.source], plan.session, k, tab)
  {
    FailedClearRun(sys, plan, k, inherit);
    forall tab: Tab
      ensures IsClearedUpTo(sys.books[plan.source], ClearTabs(sys.books[plan.source], k, plan.session), plan.session, k, tab)
    {
      ClearedSoFar(sys.books[plan.source], k, plan.session, tab);
    }
  }

  lemma ClearFailure(sys: System, inherit: Inherit)
    requires sys.move.Clearing?
    ensures Next(sys, ClearFailed, inherit) == sys.(move := Idle)
  {
  }

  // ----- a crash, and the move made again

  /** The process ends once `k` tabs are copied; then the same move is made from the beginning. */
  function Replayed(plan: Plan, k: nat): seq<Event> {
    BeginAndCopy(plan, k) + [Crash] + MovedBack(plan)
  }

  /** Each tab copied a second time is as after the first. */
  ghost predicate CopiesStand(target: Book, source: Book, session: string, later: seq<seq<string>>, inherit: Inherit)
    requires |later| == |TABS|
  {
    var transcript := Slices.Copied(target.transcript, source.transcript, session, later[0]);
    var asyncText := Text.Copied(target.asyncText, source.asyncText, session, later[1], inherit);
    var note := Text.Copied(target.note, source.note, session, later[2], inherit);
    && Slices.Copied(transcript, source.transcript, session, later[0]) == transcript
    && Text.Copied(asyncText, source.asyncText, session, later[1], inherit) == asyncText
    && Text.Copied(note, source.note, session, later[2], inherit) == note
  }

  lemma CopiesDoStand(target: Book, source: Book, session: string, later: seq<seq<string>>, inherit: Inherit, content: Content, home: Home)
    requires |later| == |TABS| && IsSoundBook(target, home) && IsSoundBook(source, home) && Holds(source, Realtime, session, content)
    requires Lacks(target, Realtime, session) || Holds(target, Realtime, session, content)
    ensures CopiesStand(target, source, session, later, inherit)
  {
    RepeatingChangesNothing(target, source, Realtime, session, later[0], later[0], inherit, content, home);
    Text.CopyTwiceIsOnce(target.asyncText, source.asyncText, session, later[1], later[1], inherit);
    Text.CopyTwiceIsOnce(target.note, source.note, session, later[2], later[2], inherit);
  }

  lemma RepeatedCopies(target: Book, source: Book, k: nat, session: string, later: seq<seq<string>>, inherit: Inherit)
    requires k <= |TABS| && |later| == |TABS| && CopiesStand(target, source, session, later, inherit)
    ensures CopyTabs(CopyTabs(target, source, k, session, later, inherit), source, |TABS|, session, later, inherit) ==
      CopyTabs(target, source, |TABS|, session, later, inherit)
  {
    CopiedTabs(target, source, k, session, later, inherit);
    CopiedTabs(target, source, |TABS|, session, later, inherit);
    CopiedTabs(CopyTabs(target, source, k, session, later, inherit), source, |TABS|, session, later, inherit);
  }

  lemma CrashRun(sys: System, plan: Plan, k: nat, inherit: Inherit)
    requires sys.move.Idle? && plan in sys.pending && IsPlan(sys, plan) && k <= |TABS|
    ensures Run(sys, BeginAndCopy(plan, k) + [Crash], inherit) == Midway(sys, plan, k, inherit).(pending := multiset{}, move := Idle)
  {
    MidwayRun(sys, plan, k, inherit);
    RunThen(sys, BeginAndCopy(plan, k), Crash, inherit);
  }

  lemma ReplayRun(sys: System, plan: Plan, k: nat, inherit: Inherit)
    requires sys.move.Idle? && plan in sys.pending && IsPlan(sys, plan) && IsLive(sys, plan) && k <= |TABS|
    ensures var (after, crashed) := (Run(sys, Replayed(plan, k), inherit), Midway(sys, plan, k, inherit).(pending := multiset{}, move := Idle));
      after.move.Idle? && (after.books, after.owner) == AfterMove(crashed, plan, inherit) && after.text == sys.text
  {
    var crashed := Midway(sys, plan, k, inherit).(pending := multiset{}, move := Idle);
    CrashRun(sys, plan, k, inherit);
    RunAppends(sys, BeginAndCopy(plan, k) + [Crash], MovedBack(plan), inherit);
    assert IsPlan(crashed, plan);
    WholeMoveIs(crashed, plan, inherit);
  }

  lemma CopiesAgain(sys: System, plan: Plan, k: nat, inherit: Inherit, home: Home)
    requires NothingIsLost(sys, home) && IsPlan(sys, plan) && IsLive(sys, plan) && k <= |TABS|
    requires IsWholeOrNone(sys, plan.target, Realtime, plan.session)
    ensures CopyTabs(CopyTabs(sys.books[plan.target], sys.books[plan.source], k, plan.session, plan.later, inherit),
                     sys.books[plan.source], |TABS|, plan.session, plan.later, inherit) ==
      CopyTabs(sys.books[plan.target], sys.books[plan.source], |TABS|, plan.session, plan.later, inherit)
  {
    assert HoldsText(sys, sys.owner[plan.session], Realtime, plan.session) && IsWholeOrNone(sys, plan.target, Realtime, plan.session);
    CopiesDoStand(sys.books[plan.target], sys.books[plan.source], plan.session, plan.later, inherit, sys.text[plan.session], home);
    RepeatedCopies(sys.books[plan.target], sys.books[plan.source], k, plan.session, plan.later, inherit);
  }

  /** Before the commit a replay converges: whatever tabs were copied when the process ended, the move made again ends in
      the books, owners and text of a move that was not cut off. */
  lemma ReplayConverges(sys: System, plan: Plan, k: nat, inherit: Inherit, home: Home)
    requires NothingIsLost(sys, home) && sys.move.Idle? && plan in sys.pending && IsPlan(sys, plan) && IsLive(sys, plan) && k <= |TABS|
    requires IsWholeOrNone(sys, plan.target, Realtime, plan.session)
    ensures var (once, again) := (Run(sys, MoveEvents(plan) + TabEvents(ClearTab), inherit), Run(sys, Replayed(plan, k), inherit));
      again.books == once.books && again.owner == once.owner && again.text == once.text && again.move.Idle? && once.move.Idle?
  {
    ReplayRun(sys, plan, k, inherit);
    MoveIs(sys, plan, inherit);
    CopiesAgain(sys, plan, k, inherit, home);
    SameAfterMove(sys, plan, k, inherit);
  }

  lemma SameAfterMove(sys: System, plan: Plan, k: nat, inherit: Inherit)
    requires IsPlan(sys, plan) && k <= |TABS|
    requires CopyTabs(CopyTabs(sys.books[plan.target], sys.books[plan.source], k, plan.session, plan.later, inherit),
                      sys.books[plan.source], |TABS|, plan.session, plan.later, inherit) ==
      CopyTabs(sys.books[plan.target], sys.books[plan.source], |TABS|, plan.session, plan.later, inherit)
    ensures AfterMove(Midway(sys, plan, k, inherit).(pending := multiset{}, move := Idle), plan, inherit) == AfterMove(sys, plan, inherit)
  {
    var crashed := Midway(sys, plan, k, inherit).(pending := multiset{}, move := Idle);
    var copied := CopyTabs(sys.books[plan.target], sys.books[plan.source], |TABS|, plan.session, plan.later, inherit);
    assert crashed.books[plan.source] == sys.books[plan.source];
    assert crashed.books[plan.target := copied] == sys.books[plan.target := copied];
  }

  /** The books and owners after a whole move. */
  function AfterMove(sys: System, plan: Plan, inherit: Inherit): (map<string, Book>, map<string, string>)
    requires IsKnown(sys, plan)
  {
    (sys.books[plan.target := CopyTabs(sys.books[plan.target], sys.books[plan.source], |TABS|, plan.session, plan.later, inherit)]
              [plan.source := ClearTabs(sys.books[plan.source], |TABS|, plan.session)],
     sys.owner[plan.session := plan.target])
  }

  lemma MoveIs(sys: System, plan: Plan, inherit: Inherit)
    requires sys.move.Idle? && plan in sys.pending && IsPlan(sys, plan) && IsLive(sys, plan)
    ensures var after := Run(sys, MoveEvents(plan) + TabEvents(ClearTab), inherit);
      after.move.Idle? && (after.books, after.owner) == AfterMove(sys, plan, inherit) && after.text == sys.text
  {
    var moved := Moved(sys, plan, inherit);
    MoveRun(sys, plan, inherit);
    RunAppends(sys, MoveEvents(plan), TabEvents(ClearTab), inherit);
    ClearRun(moved, plan, moved.move.seen, inherit);
  }

  lemma WholeMoveIs(sys: System, plan: Plan, inherit: Inherit)
    requires sys.move.Idle? && IsPlan(sys, plan) && IsLive(sys, plan)
    ensures var after := Run(sys, MovedBack(plan), inherit);
      after.move.Idle? && (after.books, after.owner) == AfterMove(sys, plan, inherit) && after.text == sys.text
  {
    var call := [MakePlan(plan.session, plan.target, plan.later)];
    var planned := sys.(pending := sys.pending + multiset{plan});
    PlanRun(sys, plan, inherit);
    assert IsPlan(planned, plan);
    MoveIs(planned, plan, inherit);
    RunAppends(sys, call, MoveEvents(plan) + TabEvents(ClearTab), inherit);
    assert call + (MoveEvents(plan) + TabEvents(ClearTab)) == MovedBack(plan);
  }
}
