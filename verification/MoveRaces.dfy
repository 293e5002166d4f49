/** What a move does not see: transcripts edited while it runs, which takes no lock it holds, and the rest of a copy
    that broke off half-way (crates/vt-ffi/src/session_move.rs:47-152, crates/vt-ffi/src/block_document_api.rs:266-330). */
module MoveRaces {
  import opened Prelude
  import opened StyledText
  import opened OwnedText
  import opened SessionMove
  import opened MoveRuns
  import Text = FlatMove
  import Slices = SessionSlices
  import Marked = MarkedRanges

  // ----- the source's transcript edited while its recording is moved

  function EditedSource(sys: System, plan: Plan, items: Slices.Blocks): System
    requires plan.source in sys.books
  {
    Edited(sys, plan.source, Realtime, sys.books[plan.source].(transcript := items))
  }

  lemma ThenEdited(sys: System, events: seq<Event>, plan: Plan, items: Slices.Blocks, inherit: Inherit)
    requires plan.source in Run(sys, events, inherit).books
    ensures Run(sys, events + [EditTranscript(plan.source, items)], inherit) == EditedSource(Run(sys, events, inherit), plan, items)
  {
    RunThen(sys, events, EditTranscript(plan.source, items), inherit);
  }

  /** A move in which the source's transcript is edited once `k` tabs are copied. */
  function EditedMove(plan: Plan, k: nat, items: Slices.Blocks): seq<Event>
    requires k <= |TABS|
  {
    CopyAndEdit(plan, k, |TABS|, items) + [Commit]
  }

  /** The edit once `k` tabs are copied, and the copies go on up to `n`. */
  function CopyAndEdit(plan: Plan, k: nat, n: nat, items: Slices.Blocks): seq<Event> {
    if n <= k then BeginAndCopy(plan, k) + [EditTranscript(plan.source, items)] else CopyAndEdit(plan, k, n - 1, items) + [CopyTab]
  }

  /** The next copy does not see the edit: it goes on with what was read when the move began. */
  lemma EditCommutes(sys: System, plan: Plan, n: nat, items: Slices.Blocks, inherit: Inherit)
    requires IsPlan(sys, plan) && n < |TABS|
    ensures Next(EditedSource(Midway(sys, plan, n, inherit), plan, items), CopyTab, inherit) ==
      EditedSource(Midway(sys, plan, n + 1, inherit), plan, items)
  {
    var now := Midway(sys, plan, n, inherit);
    var edited, next := EditedSource(now, plan, items), EditedSource(Midway(sys, plan, n + 1, inherit), plan, items);
    assert IsPlan(edited, plan) && AsRead(edited, plan, edited.move.seen) == sys.books[plan.source];
    assert Next(edited, CopyTab, inherit) == WithBook(edited, plan.target, next.books[plan.target], next.move);
    assert WithBook(edited, plan.target, next.books[plan.target], next.move).books == next.books;
  }

  lemma EditedStart(sys: System, plan: Plan, k: nat, items: Slices.Blocks, inherit: Inherit)
    requires sys.move.Idle? && plan in sys.pending && IsPlan(sys, plan) && k <= |TABS|
    ensures Run(sys, CopyAndEdit(plan, k, k, items), inherit) == EditedSource(Midway(sys, plan, k, inherit), plan, items)
  {
    MidwayRun(sys, plan, k, inherit);
    ThenEdited(sys, BeginAndCopy(plan, k), plan, items, inherit);
  }

  lemma EditedNext(sys: System, plan: Plan, events: seq<Event>, n: nat, items: Slices.Blocks, inherit: Inherit)
    requires IsPlan(sys, plan) && n < |TABS|
    requires Run(sys, events, inherit) == EditedSource(Midway(sys, plan, n, inherit), plan, items)
    ensures Run(sys, events + [CopyTab], inherit) == EditedSource(Midway(sys, plan, n + 1, inherit), plan, items)
  {
    RunThen(sys, events, CopyTab, inherit);
    EditCommutes(sys, plan, n, items, inherit);
  }

  lemma {:induction false} EditedCopies(sys: System, plan: Plan, k: nat, n: nat, items: Slices.Blocks, inherit: Inherit)
    requires sys.move.Idle? && plan in sys.pending && IsPlan(sys, plan) && k <= n <= |TABS|
    ensures Run(sys, CopyAndEdit(plan, k, n, items), inherit) == EditedSource(Midway(sys, plan, n, inherit), plan, items)
  {
    if n == k {
      EditedStart(sys, plan, k, items, inherit);
    } else {
      EditedCopies(sys, plan, k, n - 1, items, inherit);
      EditedNext(sys, plan, CopyAndEdit(plan, k, n - 1, items), n - 1, items, inherit);
    }
  }

  /** The state after such a move: as after the move alone, but with the edited transcript in the source, and its
      slice as what was last written. */
  function EditedAndMoved(sys: System, plan: Plan, items: Slices.Blocks, inherit: Inherit): System
    requires IsKnown(sys, plan) && plan.session in sys.owner
  {
    EditedSource(Midway(sys, plan, |TABS|, inherit), plan, items).(
      owner := sys.owner[plan.session := plan.target], move := Clearing(plan, 0, sys.books[plan.source].transcript))
  }

  predicate IsKnown(sys: System, plan: Plan) {
    |plan.later| == |TABS| && plan.source in sys.books && plan.target in sys.books
  }

  lemma CommitEdited(sys: System, plan: Plan, items: Slices.Blocks, inherit: Inherit)
    requires IsPlan(sys, plan) && IsLive(sys, plan)
    ensures Next(EditedSource(Midway(sys, plan, |TABS|, inherit), plan, items), Commit, inherit) == EditedAndMoved(sys, plan, items, inherit)
  {
  }

  lemma EditedMoveRun(sys: System, plan: Plan, k: nat, items: Slices.Blocks, inherit: Inherit)
    requires sys.move.Idle? && plan in sys.pending && IsPlan(sys, plan) && IsLive(sys, plan) && k <= |TABS|
    ensures Run(sys, EditedMove(plan, k, items), inherit) == EditedAndMoved(sys, plan, items, inherit)
  {
    EditedCopies(sys, plan, k, |TABS|, items, inherit);
    CommitEdited(sys, plan, items, inherit);
    RunThen(sys, CopyAndEdit(plan, k, |TABS|, items), Commit, inherit);
  }

  ghost predicate KeepsSlice(sys: System, plan: Plan, items: Slices.Blocks)
    requires plan.source in sys.books
  {
    Slices.SliceOf(items, plan.session, None) == Slices.SliceOf(sys.books[plan.source].transcript, plan.session, None)
  }

  /** The target holds the slice as it was read, and so what was last written exactly when that is the same. */
  lemma EditedHoldsExactly(sys: System, plan: Plan, items: Slices.Blocks, tab: Tab, inherit: Inherit, home: Home)
    requires NothingIsLost(sys, home) && IsPlan(sys, plan) && IsLive(sys, plan) && plan.session in sys.text
    requires NothingIsLost(Moved(sys, plan, inherit), home)
    ensures HoldsText(EditedAndMoved(sys, plan, items, inherit), plan.target, tab, plan.session)
      <==> (tab == Realtime ==> KeepsSlice(sys, plan, items))
    ensures plan.target in EditedAndMoved(sys, plan, items, inherit).books
    ensures Slices.SliceOf(EditedAndMoved(sys, plan, items, inherit).books[plan.target].transcript, plan.session, None) ==
      Slices.SliceOf(sys.books[plan.source].transcript, plan.session, None)
  {
    var moved := Moved(sys, plan, inherit);
    assert HoldsText(sys, sys.owner[plan.session], Realtime, plan.session);
    assert HoldsText(moved, moved.owner[plan.session], Realtime, plan.session);
    assert HoldsText(moved, moved.owner[plan.session], tab, plan.session);
  }

  lemma OthersHold(sys: System, plan: Plan, items: Slices.Blocks, inherit: Inherit, home: Home, session: string, tab: Tab)
    requires IsPlan(sys, plan) && IsLive(sys, plan) && NothingIsLost(Moved(sys, plan, inherit), home)
    requires session in sys.owner && session != plan.session
    ensures HoldsText(EditedAndMoved(sys, plan, items, inherit), sys.owner[session], tab, session)
  {
    var moved, book := Moved(sys, plan, inherit), sys.books[plan.source].(transcript := items);
    assert HoldsText(moved, moved.owner[session], tab, session);
    EditedHolds(moved, plan.source, Realtime, book, tab, session);
  }

  lemma EditedOwnersHold(sys: System, plan: Plan, items: Slices.Blocks, inherit: Inherit, home: Home)
    requires NothingIsLost(sys, home) && IsPlan(sys, plan) && IsLive(sys, plan) && plan.session in sys.text
    requires NothingIsLost(Moved(sys, plan, inherit), home)
    ensures OwnersHold(EditedAndMoved(sys, plan, items, inherit)) <==> KeepsSlice(sys, plan, items)
  {
    var after := EditedAndMoved(sys, plan, items, inherit);
    EditedHoldsExactly(sys, plan, items, Realtime, inherit, home);
    if KeepsSlice(sys, plan, items) {
      forall s, t | s in after.owner
        ensures HoldsText(after, after.owner[s], t, s)
      {
        if s == plan.session {
          EditedHoldsExactly(sys, plan, items, t, inherit, home);
        } else {
          OthersHold(sys, plan, items, inherit, home, s, t);
        }
      }
    } else {
      assert !HoldsText(after, after.owner[plan.session], Realtime, plan.session);
    }
  }

  lemma EditedIsSound(sys: System, plan: Plan, items: Slices.Blocks, inherit: Inherit, home: Home)
    requires IsPlan(sys, plan) && IsLive(sys, plan) && NothingIsLost(Moved(sys, plan, inherit), home)
    ensures BooksAreSound(EditedAndMoved(sys, plan, items, inherit), home) <==> Slices.IsSound(items, home)
    ensures PhaseIsSound(EditedAndMoved(sys, plan, items, inherit)) <==> KeepsSlice(sys, plan, items)
    ensures forall other | other in EditedAndMoved(sys, plan, items, inherit).pending :: IsPlan(EditedAndMoved(sys, plan, items, inherit), other)
  {
    var moved, book := Moved(sys, plan, inherit), sys.books[plan.source].(transcript := items);
    var after := EditedAndMoved(sys, plan, items, inherit);
    EditKeepsSound(moved, plan.source, Realtime, book, home);
    assert Edited(moved, plan.source, Realtime, book).books == after.books;
    assert IsPlan(after, plan);
    PlansStay(moved, after);
  }

  /** A move that by itself would take everything along, during which the source's transcript is edited, loses
      nothing exactly when the edit is sound and leaves the recording's own slice as it was read. */
  lemma EditDuringMoveExactly(sys: System, plan: Plan, k: nat, items: Slices.Blocks, inherit: Inherit, home: Home)
    requires NothingIsLost(sys, home) && sys.move.Idle? && plan in sys.pending && IsLive(sys, plan) && k <= |TABS|
    requires IsPlan(sys, plan) && plan.session in sys.text && TakesAllAlong(sys, plan)
    ensures NothingIsLost(Run(sys, EditedMove(plan, k, items), inherit), home)
      <==> Slices.IsSound(items, home) && KeepsSlice(sys, plan, items)
  {
    EditedMoveRun(sys, plan, k, items, inherit);
    MovedExactly(sys, plan, inherit, home);
    EditedOwnersHold(sys, plan, items, inherit, home);
    EditedIsSound(sys, plan, items, inherit, home);
  }

  /** Nothing of the recording is in the old notebook, and the new one has its slice as it was before the edit. */
  ghost predicate HasOldSlice(sys: System, after: System, plan: Plan)
    requires plan.source in sys.books
  {
    && after.move.Idle? && plan.session in after.owner && after.owner[plan.session] == plan.target
    && plan.source in after.books && Lacks(after.books[plan.source], Realtime, plan.session)
    && plan.target in after.books
    && Slices.SliceOf(after.books[plan.target].transcript, plan.session, None) ==
       Slices.SliceOf(sys.books[plan.source].transcript, plan.session, None)
  }

  /** The state before the last clear of such a run. */
  ghost predicate IsCopied(sys: System, now: System, plan: Plan)
    requires plan.source in sys.books
  {
    && now.move.Clearing? && now.move.plan == plan && now.move.done == 0
    && plan.session in now.owner && now.owner[plan.session] == plan.target && plan.source != plan.target
    && plan.source in now.books && plan.target in now.books
    && Slices.SliceOf(now.books[plan.target].transcript, plan.session, None) ==
       Slices.SliceOf(sys.books[plan.source].transcript, plan.session, None)
  }

  lemma ClearedHasOldSlice(sys: System, now: System, plan: Plan, inherit: Inherit)
    requires plan.source in sys.books && IsCopied(sys, now, plan)
    ensures var after := Run(now, TabEvents(ClearTab), inherit);
      && HasOldSlice(sys, after, plan) && after.text == now.text
      && plan.target in after.books && after.books[plan.target] == now.books[plan.target]
  {
    ClearRun(now, plan, now.move.seen, inherit);
    ClearedLacksAll(now.books[plan.source], plan.session);
  }

  /** What is written into the recording's slice while the tabs are copied, an annotation say, is cleared with the
      source and in neither notebook afterwards, though its owner is to hold it. */
  lemma EditDuringMoveIsLost(sys: System, plan: Plan, k: nat, items: Slices.Blocks, inherit: Inherit, home: Home)
    requires NothingIsLost(sys, home) && sys.move.Idle? && plan in sys.pending && IsLive(sys, plan) && k <= |TABS|
    requires IsPlan(sys, plan) && plan.session in sys.text && TakesAllAlong(sys, plan)
    requires Slices.IsSound(items, home) && !KeepsSlice(sys, plan, items)
    ensures var after := Run(sys, EditedMove(plan, k, items) + TabEvents(ClearTab), inherit);
      && HasOldSlice(sys, after, plan) && !HoldsText(after, plan.target, Realtime, plan.session)
      && plan.session in after.text && after.text[plan.session].transcript == Slices.SliceOf(items, plan.session, None)
  {
    EditedMoveRun(sys, plan, k, items, inherit);
    RunAppends(sys, EditedMove(plan, k, items), TabEvents(ClearTab), inherit);
    MovedExactly(sys, plan, inherit, home);
    EditedHoldsExactly(sys, plan, items, Realtime, inherit, home);
    ClearedHasOldSlice(sys, EditedAndMoved(sys, plan, items, inherit), plan, inherit);
  }

  lemma LateEditRun(sys: System, plan: Plan, items: Slices.Blocks, inherit: Inherit)
    requires sys.move.Idle? && plan in sys.pending && IsPlan(sys, plan)
    ensures Run(sys, MoveEvents(plan) + [EditTranscript(plan.source, items)], inherit) == EditedSource(Moved(sys, plan, inherit), plan, items)
  {
    MoveRun(sys, plan, inherit);
    ThenEdited(sys, MoveEvents(plan), plan, items, inherit);
  }

  /** The same after the commit: the old notebook's slice is still there to be edited, and then it is cleared. */
  lemma LateEditIsCleared(sys: System, plan: Plan, items: Slices.Blocks, inherit: Inherit, home: Home)
    requires NothingIsLost(sys, home) && sys.move.Idle? && plan in sys.pending && IsLive(sys, plan)
    requires IsPlan(sys, plan) && plan.session in sys.text && TakesAllAlong(sys, plan)
    ensures HasOldSlice(sys, Run(sys, MoveEvents(plan) + [EditTranscript(plan.source, items)] + TabEvents(ClearTab), inherit), plan)
  {
    LateEditRun(sys, plan, items, inherit);
    RunAppends(sys, MoveEvents(plan) + [EditTranscript(plan.source, items)], TabEvents(ClearTab), inherit);
    MovedExactly(sys, plan, inherit, home);
    EditedHoldsExactly(sys, plan, items, Realtime, inherit, home);
    ClearedHasOldSlice(sys, EditedSource(Moved(sys, plan, inherit), plan, items), plan, inherit);
  }

  // ----- half a copy taken for the whole

  /** The copy of the second tab breaks off, and its rollback fails; then the same move is made again, to its end. */
  function BrokenThenMoved(plan: Plan, cells: Marked.Doc, kept: nat): seq<Event> {
    BrokenMove(plan, cells, kept) + MovedBack(plan)
  }

  function CopyEvents(plan: Plan): seq<Event> {
    [MakePlan(plan.session, plan.target, plan.later)] + BeginAndCopy(plan, 1)
  }

  function BrokenMove(plan: Plan, cells: Marked.Doc, kept: nat): seq<Event> {
    CopyEvents(plan) + [CopyBroken(cells, kept)] + TabEvents(UndoTab(false))
  }

  lemma {:induction false} UndoingFails(sys: System, n: nat, inherit: Inherit)
    requires sys.move.RollingBack? && sys.move.done + n <= |TABS|
    ensures Run(sys, Repeated(UndoTab(false), n), inherit) ==
      sys.(move := RollingBack(sys.move.plan, sys.move.done + n, sys.move.seen))
  {
    if n > 0 {
      UndoingFails(sys, n - 1, inherit);
      RunThen(sys, Repeated(UndoTab(false), n - 1), UndoTab(false), inherit);
    }
  }

  /** A rollback every step of which fails leaves everything as it is. */
  lemma FailedUndo(sys: System, inherit: Inherit)
    requires sys.move.RollingBack? && sys.move.done == 0
    ensures Run(sys, TabEvents(UndoTab(false)), inherit) == sys.(move := Idle)
  {
    UndoingFails(sys, |TABS|, inherit);
    RunThen(sys, Repeated(UndoTab(false), |TABS|), UndoTab(false), inherit);
  }

  ghost predicate CanBreakAsync(sys: System, plan: Plan, cells: Marked.Doc, kept: nat) {
    && IsPlan(sys, plan) && Text.IsHalfCopy(sys.books[plan.source].asyncText, plan.session, cells, kept)
    && !Text.Has(sys.books[plan.target].asyncText, plan.session)
  }

  function BrokenText(sys: System, plan: Plan, cells: Marked.Doc): Marked.Doc
    requires IsKnown(sys, plan)
  {
    Insert(sys.books[plan.target].asyncText, Text.Anchor(sys.books[plan.target].asyncText, plan.later[1]), cells)
  }

  /** Only the target differs, and its second tab has the half copy. */
  ghost predicate HasBrokenText(sys: System, after: System, plan: Plan, cells: Marked.Doc)
    requires IsKnown(sys, plan)
  {
    && after.owner == sys.owner && after.text == sys.text && plan.target in after.books
    && after.books == sys.books[plan.target := after.books[plan.target]]
    && after.books[plan.target].asyncText == BrokenText(sys, plan, cells)
  }

  lemma BreakStep(sys: System, plan: Plan, cells: Marked.Doc, kept: nat, inherit: Inherit)
    requires CanBreakAsync(sys, plan, cells, kept)
    ensures var after := Next(Midway(sys, plan, 1, inherit), CopyBroken(cells, kept), inherit);
      HasBrokenText(sys, after, plan, cells) && after.move.RollingBack? && after.move.done == 0
  {
    var now := Midway(sys, plan, 1, inherit);
    CopiedTabs(sys.books[plan.target], sys.books[plan.source], 1, plan.session, plan.later, inherit);
    assert IsPlan(now, plan) && CanBreak(now, cells, kept);
  }

  lemma CopyRun(sys: System, plan: Plan, inherit: Inherit)
    requires sys.move.Idle? && IsPlan(sys, plan) && IsLive(sys, plan)
    ensures Run(sys, CopyEvents(plan), inherit) == Midway(sys.(pending := sys.pending + multiset{plan}), plan, 1, inherit)
  {
    var planned := sys.(pending := sys.pending + multiset{plan});
    PlanRun(sys, plan, inherit);
    RunAppends(sys, [MakePlan(plan.session, plan.target, plan.later)], BeginAndCopy(plan, 1), inherit);
    assert IsPlan(planned, plan);
    MidwayRun(planned, plan, 1, inherit);
  }

  lemma BrokenRun(sys: System, plan: Plan, cells: Marked.Doc, kept: nat, inherit: Inherit)
    requires sys.move.Idle? && IsLive(sys, plan) && CanBreakAsync(sys, plan, cells, kept)
    ensures var after := Run(sys, BrokenMove(plan, cells, kept), inherit);
      HasBrokenText(sys, after, plan, cells) && after.move.Idle?
  {
    var planned := sys.(pending := sys.pending + multiset{plan});
    CopyRun(sys, plan, inherit);
    assert CanBreakAsync(planned, plan, cells, kept);
    BreakStep(planned, plan, cells, kept, inherit);
    RunThen(sys, CopyEvents(plan), CopyBroken(cells, kept), inherit);
    var broken := Run(sys, CopyEvents(plan) + [CopyBroken(cells, kept)], inherit);
    FailedUndo(broken, inherit);
    RunAppends(sys, CopyEvents(plan) + [CopyBroken(cells, kept)], TabEvents(UndoTab(false)), inherit);
  }

  /** What is in the target's second tab already stays as it is. */
  lemma AsyncStays(target: Book, source: Book, session: string, later: seq<seq<string>>, inherit: Inherit)
    requires |later| == |TABS| && Text.Has(target.asyncText, session)
    ensures CopyTabs(target, source, |TABS|, session, later, inherit).asyncText == target.asyncText
  {
    CopiedTabs(target, source, |TABS|, session, later, inherit);
  }

  lemma BrokenIsMine(sys: System, plan: Plan, cells: Marked.Doc, kept: nat, home: Home)
    requires NothingIsLost(sys, home) && IsLive(sys, plan) && CanBreakAsync(sys, plan, cells, kept) && 0 < kept < |cells|
    ensures Mine(BrokenText(sys, plan, cells), plan.session) == cells[..kept] && Text.Has(BrokenText(sys, plan, cells), plan.session)
    ensures plan.session in sys.text && !Text.Covers(cells[..kept], sys.text[plan.session].asyncText)
  {
    assert IsSoundBook(sys.books[plan.target], home);
    assert HoldsText(sys, sys.owner[plan.session], Async, plan.session);
    Text.HalfCopyLeaves(sys.books[plan.target].asyncText, plan.session, plan.later[1], cells, kept);
    Text.MineIsOwned(BrokenText(sys, plan, cells), plan.session);
  }

  /** The characters that got their marks are taken for the whole section: the new owner has them alone, and the old
      notebook is cleared of the rest. */
  lemma HalfCopyIsTakenForWhole(sys: System, plan: Plan, cells: Marked.Doc, kept: nat, inherit: Inherit, home: Home)
    requires NothingIsLost(sys, home) && sys.move.Idle? && IsLive(sys, plan) && CanBreakAsync(sys, plan, cells, kept)
    requires 0 < kept < |cells|
    ensures var after := Run(sys, BrokenThenMoved(plan, cells, kept), inherit);
      && after.move.Idle? && plan.session in after.owner && after.owner[plan.session] == plan.target
      && plan.target in after.books && Mine(after.books[plan.target].asyncText, plan.session) == cells[..kept]
      && !HoldsText(after, plan.target, Async, plan.session)
      && plan.source in after.books && Lacks(after.books[plan.source], Async, plan.session)
  {
    var broken := Run(sys, BrokenMove(plan, cells, kept), inherit);
    BrokenRun(sys, plan, cells, kept, inherit);
    BrokenIsMine(sys, plan, cells, kept, home);
    assert IsPlan(broken, plan);
    BackRun(broken, plan, inherit);
    RunAppends(sys, BrokenMove(plan, cells, kept), MovedBack(plan), inherit);
    AsyncStays(broken.books[plan.target], broken.books[plan.source], plan.session, plan.later, inherit);
  }
}
