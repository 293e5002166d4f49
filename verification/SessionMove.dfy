/** Moving a recording between notebooks: plans, the steps of a move, failures, half copies, crashes, and edits
    (crates/vt-ffi/src/session_move.rs:47-152, crates/vt-store/src/notebook_store.rs:562-640). */
module SessionMove {
  import opened Prelude
  import opened StyledText
  import opened OwnedText
  import Text = FlatMove
  import Slices = SessionSlices
  import Partial = PartialCopy
  import Marked = MarkedRanges

  // ----- the documents

  datatype Tab = Realtime | Async | Note

  /** The tabs in the order a move takes them. */
  const TABS := [Realtime, Async, Note]

  /** A notebook's three documents. */
  datatype Book = Book(transcript: Slices.Blocks, asyncText: Marked.Doc, note: Marked.Doc)

  /** What a recording owns: its transcript slice and its two stretches of text. */
  datatype Content = Content(transcript: Slices.Blocks, asyncText: Marked.Doc, note: Marked.Doc)

  /** The flat text of a tab other than the realtime transcript. */
  function Flat(book: Book, tab: Tab): Marked.Doc {
    if tab == Async then book.asyncText else book.note
  }

  function FlatContent(content: Content, tab: Tab): Marked.Doc {
    if tab == Async then content.asyncText else content.note
  }

  function WithFlat(book: Book, tab: Tab, doc: Marked.Doc): Book {
    if tab == Async then book.(asyncText := doc) else book.(note := doc)
  }

  function ShareOf(book: Book, session: string): Content {
    Content(Slices.SliceOf(book.transcript, session, None), Mine(book.asyncText, session), Mine(book.note, session))
  }

  function CopyInto(target: Book, source: Book, tab: Tab, session: string, later: seq<string>, inherit: Inherit): Book {
    if tab == Realtime then target.(transcript := Slices.Copied(target.transcript, source.transcript, session, later))
    else WithFlat(target, tab, Text.Copied(Flat(target, tab), Flat(source, tab), session, later, inherit))
  }

  function ClearFrom(book: Book, tab: Tab, session: string): Book {
    if tab == Realtime then book.(transcript := Slices.RestOf(book.transcript, session, None))
    else WithFlat(book, tab, Others(Flat(book, tab), session))
  }

  // ----- the steps

  /** What was found out before a move began: who owned the recording, and which of the target's sections come
      after it in each tab. It may be out of date by the time the move begins. */
  datatype Plan = Plan(session: string, source: string, target: string, later: seq<seq<string>>)

  /** `seen` is the transcript with the slice a move counts on: the source's as it was read when the move began, and
      the target's as it was when the move turned to rolling back. */
  datatype Phase =
    | Idle
    | Copying(plan: Plan, done: nat, seen: Slices.Blocks)
    | RollingBack(plan: Plan, done: nat, seen: Slices.Blocks)
    | Clearing(plan: Plan, done: nat, seen: Slices.Blocks)

  /** The notebooks, their owners, the calls that have a plan and wait for the lock, and the move that holds it.
      `text` is what was last written of each recording: no part of the program, but what its owner must hold. */
  datatype System = System(books: map<string, Book>, owner: map<string, string>, text: map<string, Content>,
                           pending: multiset<Plan>, move: Phase)

  datatype Event =
    | MakePlan(session: string, target: string, later: seq<seq<string>>)
    | Begin(plan: Plan)
    | CopyTab
    | CopyFailed
    | CopyBroken(cells: Marked.Doc, kept: nat)
    | Commit
    | CommitRefused
    | UndoTab(works: bool)
    | ClearTab
    | ClearFailed
    | Crash
    | EditText(notebook: string, tab: Tab, doc: Marked.Doc)
    | EditTranscript(notebook: string, items: Slices.Blocks)

  /** A move never goes to the notebook that owns the recording, and its lists never name the recording itself. */
  ghost predicate IsPlan(sys: System, plan: Plan) {
    && plan.session in sys.owner && plan.source in sys.books && plan.target in sys.books && plan.source != plan.target
    && |plan.later| == |TABS| && forall i | 0 <= i < |TABS| :: plan.session !in plan.later[i]
  }

  ghost predicate IsLive(sys: System, plan: Plan) {
    plan.session in sys.owner && sys.owner[plan.session] == plan.source
  }

  function WithBook(sys: System, notebook: string, book: Book, move: Phase): System {
    sys.(books := sys.books[notebook := book], move := move)
  }

  function WithShare(content: Content, tab: Tab, share: Content): Content {
    match tab
    case Realtime => content.(transcript := share.transcript)
    case Async => content.(asyncText := share.asyncText)
    case Note => content.(note := share.note)
  }

  /** What an edit of one tab of a notebook writes: the shares of the recordings the notebook owns. */
  function Written(sys: System, notebook: string, tab: Tab, book: Book): map<string, Content> {
    map s | s in sys.text ::
      if s in sys.owner && sys.owner[s] == notebook then WithShare(sys.text[s], tab, ShareOf(book, s)) else sys.text[s]
  }

  function Edited(sys: System, notebook: string, tab: Tab, book: Book): System {
    sys.(books := sys.books[notebook := book], text := Written(sys, notebook, tab, book))
  }

  /** The source as the move knows it: with its transcript as it was read. */
  function AsRead(sys: System, plan: Plan, seen: Slices.Blocks): Book
    requires plan.source in sys.books
  {
    sys.books[plan.source].(transcript := seen)
  }

  ghost function CopiedNext(sys: System, plan: Plan, i: nat, seen: Slices.Blocks, inherit: Inherit): Book
    requires IsPlan(sys, plan) && i < |TABS|
  {
    CopyInto(sys.books[plan.target], AsRead(sys, plan, seen), TABS[i], plan.session, plan.later[i], inherit)
  }

  /** The copy of a flat tab is under way and would put something in, of which only a part gets its marks. */
  ghost predicate CanBreak(sys: System, cells: Marked.Doc, kept: nat) {
    && sys.move.Copying? && 0 < sys.move.done < |TABS| && IsPlan(sys, sys.move.plan)
    && Text.IsHalfCopy(Flat(sys.books[sys.move.plan.source], TABS[sys.move.done]), sys.move.plan.session, cells, kept)
    && !Text.Has(Flat(sys.books[sys.move.plan.target], TABS[sys.move.done]), sys.move.plan.session)
  }

  function Broken(target: Book, tab: Tab, later: seq<string>, cells: Marked.Doc): Book {
    WithFlat(target, tab, Insert(Flat(target, tab), Text.Anchor(Flat(target, tab), later), cells))
  }

  function TurnBack(sys: System, plan: Plan): Phase {
    RollingBack(plan, 0, if plan.target in sys.books then sys.books[plan.target].transcript else [])
  }

  /** One step. Plans are made at any time; a move takes the lock, reads the source's slice, and uses its plan as it
      is. Only the commit looks at the owner again. A failed copy, whole or half-way, or a refused commit turns to
      undoing the copies, tab by tab, each of which may fail and be passed over; a failed clear ends the move where
      it is; a crash ends everything in progress. Edits of flat text need the lock; edits of a transcript do not. */
  ghost function Next(sys: System, event: Event, inherit: Inherit): System {
    match event
    case MakePlan(session, target, later) =>
      if session in sys.owner && IsPlan(sys, Plan(session, sys.owner[session], target, later))
      then sys.(pending := sys.pending + multiset{Plan(session, sys.owner[session], target, later)}) else sys
    case Begin(plan) =>
      if sys.move.Idle? && plan in sys.pending && plan.source in sys.books
      then sys.(pending := sys.pending - multiset{plan}, move := Copying(plan, 0, sys.books[plan.source].transcript)) else sys
    case CopyTab =>
      if sys.move.Copying? && sys.move.done < |TABS| && IsPlan(sys, sys.move.plan)
      then WithBook(sys, sys.move.plan.target, CopiedNext(sys, sys.move.plan, sys.move.done, sys.move.seen, inherit),
                    Copying(sys.move.plan, sys.move.done + 1, sys.move.seen))
      else sys
    case CopyFailed => if sys.move.Copying? then sys.(move := TurnBack(sys, sys.move.plan)) else sys
    case CopyBroken(cells, kept) =>
      if CanBreak(sys, cells, kept)
      then WithBook(sys, sys.move.plan.target,
                    Broken(sys.books[sys.move.plan.target], TABS[sys.move.done], sys.move.plan.later[sys.move.done], cells),
                    TurnBack(sys, sys.move.plan))
      else sys
    case CommitRefused =>
      if sys.move.Copying? && sys.move.done == |TABS| then sys.(move := TurnBack(sys, sys.move.plan)) else sys
    case Commit =>
      if !sys.move.Copying? || sys.move.done != |TABS| then sys
      else if IsLive(sys, sys.move.plan)
      then sys.(owner := sys.owner[sys.move.plan.session := sys.move.plan.target], move := Clearing(sys.move.plan, 0, sys.move.seen))
      else sys.(move := TurnBack(sys, sys.move.plan))
    case UndoTab(works) =>
      if !sys.move.RollingBack? then sys
      else if sys.move.done >= |TABS| then sys.(move := Idle)
      else if works && sys.move.plan.target in sys.books
      then WithBook(sys, sys.move.plan.target, ClearFrom(sys.books[sys.move.plan.target], TABS[sys.move.done], sys.move.plan.session),
                    RollingBack(sys.move.plan, sys.move.done + 1, sys.move.seen))
      else sys.(move := RollingBack(sys.move.plan, sys.move.done + 1, sys.move.seen))
    case ClearTab =>
      if !sys.move.Clearing? then sys
      else if sys.move.done < |TABS| && sys.move.plan.source in sys.books
      then WithBook(sys, sys.move.plan.source, ClearFrom(sys.books[sys.move.plan.source], TABS[sys.move.done], sys.move.plan.session),
                    Clearing(sys.move.plan, sys.move.done + 1, sys.move.seen))
      else sys.(move := Idle)
    case ClearFailed => if sys.move.Clearing? then sys.(move := Idle) else sys
    case Crash => sys.(pending := multiset{}, move := Idle)
    case EditText(notebook, tab, doc) =>
      if sys.move.Idle? && notebook in sys.books && tab != Realtime
      then Edited(sys, notebook, tab, WithFlat(sys.books[notebook], tab, doc)) else sys
    case EditTranscript(notebook, items) =>
      if notebook in sys.books
      then Edited(sys, notebook, Realtime, sys.books[notebook].(transcript := items)) else sys
  }

  ghost function Run(sys: System, events: seq<Event>, inherit: Inherit): System
    decreases |events|
  {
    if events == [] then sys else Run(Next(sys, events[0], inherit), events[1..], inherit)
  }

  lemma {:induction false} RunAppends(sys: System, a: seq<Event>, b: seq<Event>, inherit: Inherit)
    ensures Run(sys, a + b, inherit) == Run(Run(sys, a, inherit), b, inherit)
    decreases |a|
  {
    if a == [] {
      assert a + b == b;
    } else {
      RunAppends(Next(sys, a[0], inherit), a[1..], b, inherit);
      assert (a + b)[0] == a[0] && (a + b)[1..] == a[1..] + b;
    }
  }

  // ----- what a notebook holds

  /** The tab has the whole of the recording's content: the very blocks, the characters with all their marks. */
  ghost predicate Holds(book: Book, tab: Tab, session: string, content: Content) {
    if tab == Realtime then Slices.SliceOf(book.transcript, session, None) == content.transcript
    else Text.Covers(Mine(Flat(book, tab), session), FlatContent(content, tab))
  }

  ghost predicate Lacks(book: Book, tab: Tab, session: string) {
    if tab == Realtime then Slices.SliceOf(book.transcript, session, None) == []
    else Mine(Flat(book, tab), session) == []
  }

  ghost predicate IsEmpty(content: Content, tab: Tab) {
    if tab == Realtime then content.transcript == [] else FlatContent(content, tab) == []
  }

  lemma LackingHolds(book: Book, tab: Tab, session: string, content: Content)
    requires Lacks(book, tab, session)
    ensures Holds(book, tab, session, content) <==> IsEmpty(content, tab)
  {
  }

  /** Which session's slice each block id is part of. */
  type Home = string -> Option<string>

  ghost predicate IsSoundBook(book: Book, home: Home) {
    Slices.IsSound(book.transcript, home) && Text.IsWellOwned(book.asyncText) && Text.IsWellOwned(book.note)
  }

  /** Nothing but one tab's share of one recording differs between two versions of a book. */
  ghost predicate LeavesOthers(before: Book, after: Book, tab: Tab, session: string) {
    forall s, t | s != session || t != tab :: SameShare(before, after, t, s)
  }

  ghost predicate SameShare(before: Book, after: Book, tab: Tab, session: string) {
    if tab == Realtime then Slices.SliceOf(after.transcript, session, None) == Slices.SliceOf(before.transcript, session, None)
    else Mine(Flat(after, tab), session) == Mine(Flat(before, tab), session)
  }

  // ----- one copy and one clear

  /** The recording's share of the tab would be, after the copy, what it is in the source: in the transcript the
      target has a first part of the slice and the rest goes in right behind it; in a flat tab the target has
      nothing of the recording's, or its very text. */
  ghost predicate TakesAlong(target: Book, source: Book, tab: Tab, session: string, later: seq<string>, content: Content) {
    if tab == Realtime then
      && Partial.CopyFits(target.transcript, source.transcript, session, later)
      && Slices.SliceOf(target.transcript, session, None) <= Slices.SliceOf(source.transcript, session, None)
    else Text.Has(Flat(target, tab), session) ==> Text.Covers(Mine(Flat(target, tab), session), FlatContent(content, tab))
  }

  /** The copy would put nothing into the target. */
  ghost predicate AddsNothing(target: Book, source: Book, tab: Tab, session: string) {
    if tab == Realtime then Slices.Missing(target.transcript, Slices.SliceOf(source.transcript, session, None)) == []
    else Text.Has(Flat(source, tab), session) ==> Text.Has(Flat(target, tab), session)
  }

  ghost predicate StaysSound(target: Book, source: Book, tab: Tab, session: string, later: seq<string>) {
    tab == Realtime ==> Partial.CopyFits(target.transcript, source.transcript, session, later)
  }

  lemma SameTexts(before: Book, after: Book, tab: Tab, session: string)
    requires tab != Realtime && after == WithFlat(before, tab, Flat(after, tab))
    requires forall other | other != session :: Mine(Flat(after, tab), other) == Mine(Flat(before, tab), other)
    ensures LeavesOthers(before, after, tab, session)
  {
  }

  /** What a copy does to a sound book: it stays sound or not, and then holds the recording's content or not. */
  lemma CopyTranscriptExactly(target: Book, source: Book, session: string, later: seq<string>, inherit: Inherit, content: Content, home: Home)
    requires IsSoundBook(target, home) && IsSoundBook(source, home) && session !in later
    ensures var after := CopyInto(target, source, Realtime, session, later, inherit);
      && (IsSoundBook(after, home) <==> StaysSound(target, source, Realtime, session, later))
      && (IsSoundBook(after, home) ==> LeavesOthers(target, after, Realtime, session))
      && (IsSoundBook(after, home) && Holds(source, Realtime, session, content) ==>
        (Holds(after, Realtime, session, content) <==> TakesAlong(target, source, Realtime, session, later, content)))
      && (IsSoundBook(after, home) && Holds(target, Realtime, session, content) ==>
        (Holds(after, Realtime, session, content) <==> AddsNothing(target, source, Realtime, session)))
  {
    var have, whole := Slices.SliceOf(target.transcript, session, None), Slices.SliceOf(source.transcript, session, None);
    var after := CopyInto(target, source, Realtime, session, later, inherit);
    Partial.CopySoundExactly(target.transcript, source.transcript, session, later, home);
    Partial.CopyTakesSliceAlong(target.transcript, source.transcript, session, later, home);
    if IsSoundBook(after, home) {
      assert LeavesOthers(target, after, Realtime, session);
      assert |have + Slices.Missing(target.transcript, whole)| == |have| + |Slices.Missing(target.transcript, whole)|;
      assert have + [] == have;
    }
  }

  lemma CopyTextExactly(target: Marked.Doc, source: Marked.Doc, session: string, later: seq<string>, inherit: Inherit, content: Marked.Doc)
    requires Text.IsWellOwned(target)
    ensures var after := Text.Copied(target, source, session, later, inherit);
      && Text.IsWellOwned(after)
      && (forall other | other != session :: Mine(after, other) == Mine(target, other))
      && (Text.Covers(Mine(source, session), content) ==>
        (Text.Covers(Mine(after, session), content) <==> (Text.Has(target, session) ==> Text.Covers(Mine(target, session), content))))
      && (Text.Covers(Mine(target, session), content) ==>
        (Text.Covers(Mine(after, session), content) <==> (Text.Has(source, session) ==> Text.Has(target, session))))
  {
    var after := Text.Copied(target, source, session, later, inherit);
    Text.CopyKeepsPlaces(target, source, session, later, inherit);
    forall other | other != session
      ensures Mine(after, other) == Mine(target, other)
    {
      Text.CopyLeavesOthers(target, source, session, later, inherit, other);
    }
    Text.MineIsOwned(source, session);
    Text.MineIsOwned(target, session);
    if Text.Has(source, session) && !Text.Has(target, session) {
      Text.CopyHoldsSection(target, source, session, later, inherit, Mine(source, session));
      if Text.Covers(Mine(source, session), content) {
        Text.CopyHoldsSection(target, source, session, later, inherit, content);
      }
    }
  }

  lemma CopyFlatExactly(target: Book, source: Book, tab: Tab, session: string, later: seq<string>, inherit: Inherit, content: Content, home: Home)
    requires IsSoundBook(target, home) && tab != Realtime
    ensures var after := CopyInto(target, source, tab, session, later, inherit);
      && IsSoundBook(after, home) && LeavesOthers(target, after, tab, session)
      && (Holds(source, tab, session, content) ==>
        (Holds(after, tab, session, content) <==> TakesAlong(target, source, tab, session, later, content)))
      && (Holds(target, tab, session, content) ==>
        (Holds(after, tab, session, content) <==> AddsNothing(target, source, tab, session)))
  {
    CopyTextExactly(Flat(target, tab), Flat(source, tab), session, later, inherit, FlatContent(content, tab));
    SameTexts(target, CopyInto(target, source, tab, session, later, inherit), tab, session);
  }

  /** A copied tab: sound exactly when the blocks fit, and then holding the content exactly when the source's is
      taken along, or, where the target held it already, when nothing is added. */
  lemma CopyExactly(target: Book, source: Book, tab: Tab, session: string, later: seq<string>, inherit: Inherit, content: Content, home: Home)
    requires IsSoundBook(target, home) && IsSoundBook(source, home) && session !in later
    ensures var after := CopyInto(target, source, tab, session, later, inherit);
      && (IsSoundBook(after, home) <==> StaysSound(target, source, tab, session, later))
      && (IsSoundBook(after, home) ==> LeavesOthers(target, after, tab, session))
      && (IsSoundBook(after, home) && Holds(source, tab, session, content) ==>
        (Holds(after, tab, session, content) <==> TakesAlong(target, source, tab, session, later, content)))
      && (IsSoundBook(after, home) && Holds(target, tab, session, content) ==>
        (Holds(after, tab, session, content) <==> AddsNothing(target, source, tab, session)))
  {
    if tab == Realtime {
      CopyTranscriptExactly(target, source, session, later, inherit, content, home);
    } else {
      CopyFlatExactly(target, source, tab, session, later, inherit, content, home);
    }
  }

  lemma ClearKeepsText(doc: Marked.Doc, session: string)
    requires Text.IsWellOwned(doc)
    ensures Text.IsWellOwned(Others(doc, session)) && Mine(Others(doc, session), session) == []
    ensures forall other | other != session :: Mine(Others(doc, session), other) == Mine(doc, other)
  {
    Text.ClearKeepsPlaces(doc, session);
    Text.ClearLeavesOthers(doc, session, session);
    forall other | other != session
      ensures Mine(Others(doc, session), other) == Mine(doc, other)
    {
      Text.ClearLeavesOthers(doc, session, other);
    }
  }

  lemma ClearKeepsBook(book: Book, tab: Tab, session: string, home: Home)
    requires IsSoundBook(book, home)
    ensures var after := ClearFrom(book, tab, session);
      IsSoundBook(after, home) && Lacks(after, tab, session) && LeavesOthers(book, after, tab, session)
  {
    if tab == Realtime {
      Slices.RemoveKeepsSound(book.transcript, session, home);
    } else {
      ClearKeepsText(Flat(book, tab), session);
      SameTexts(book, ClearFrom(book, tab, session), tab, session);
    }
  }

  // ----- what a run keeps

  ghost predicate HoldsText(sys: System, notebook: string, tab: Tab, session: string) {
    notebook in sys.books && session in sys.text && Holds(sys.books[notebook], tab, session, sys.text[session])
  }

  /** Every recording's owner has all that was last written of it. */
  ghost predicate OwnersHold(sys: System) {
    forall session, tab | session in sys.owner :: HoldsText(sys, sys.owner[session], tab, session)
  }

  ghost predicate BooksAreSound(sys: System, home: Home) {
    forall n | n in sys.books :: IsSoundBook(sys.books[n], home)
  }

  ghost predicate HasSlice(sys: System, notebook: string, session: string, seen: Slices.Blocks) {
    notebook in sys.books && Slices.SliceOf(sys.books[notebook].transcript, session, None) == Slices.SliceOf(seen, session, None)
  }

  /** The first `done` tabs of the target hold the recording's text. */
  ghost predicate CopiesHold(sys: System, target: string, session: string, done: nat) {
    && (done > 0 ==> HoldsText(sys, target, Realtime, session))
    && (done > 1 ==> HoldsText(sys, target, Async, session))
    && (done > 2 ==> HoldsText(sys, target, Note, session))
  }

  /** With a plan that is not out of date, what was read of the source's slice is what was last written, and the tabs
      copied so far hold the text. */
  ghost predicate CopyIsCurrent(sys: System, plan: Plan, done: nat, seen: Slices.Blocks) {
    && plan.session in sys.text && Slices.SliceOf(seen, plan.session, None) == sys.text[plan.session].transcript
    && CopiesHold(sys, plan.target, plan.session, done)
  }

  /** What a move in progress may count on. A slice that is about to be cleared, from the source or in a rollback, is
      the one the move has seen there: nothing has been written into it since. */
  ghost predicate PhaseIsSound(sys: System) {
    match sys.move
    case Idle => true
    case Copying(plan, done, seen) =>
      IsPlan(sys, plan) && done <= |TABS| && (IsLive(sys, plan) ==> CopyIsCurrent(sys, plan, done, seen))
    case RollingBack(plan, done, seen) => IsPlan(sys, plan) && (done == 0 ==> HasSlice(sys, plan.target, plan.session, seen))
    case Clearing(plan, done, seen) =>
      IsPlan(sys, plan) && !IsLive(sys, plan) && (done == 0 ==> HasSlice(sys, plan.source, plan.session, seen))
  }

  ghost predicate SeenIsSound(sys: System, home: Home) {
    sys.move.Copying? ==> Slices.IsSound(sys.move.seen, home)
  }

  ghost predicate NothingIsLost(sys: System, home: Home) {
    && BooksAreSound(sys, home) && OwnersHold(sys) && PhaseIsSound(sys) && SeenIsSound(sys, home)
    && forall plan | plan in sys.pending :: IsPlan(sys, plan)
  }

  /** The state in which nothing has been moved yet: every owner's share is what was last written. */
  function Opened(books: map<string, Book>, owner: map<string, string>): System
    requires forall s | s in owner :: owner[s] in books
  {
    System(books, owner, map s | s in owner :: ShareOf(books[owner[s]], s), multiset{}, Idle)
  }

  /** Any notebooks whose documents are sound are a state to begin with, whatever else they have of the recordings. */
  lemma OpenedLosesNothing(books: map<string, Book>, owner: map<string, string>, home: Home)
    requires forall s | s in owner :: owner[s] in books
    requires forall n | n in books :: IsSoundBook(books[n], home)
    ensures NothingIsLost(Opened(books, owner), home)
  {
    var sys := Opened(books, owner);
    forall s, t | s in sys.owner
      ensures HoldsText(sys, sys.owner[s], t, s)
    {
      assert sys.text[s] == ShareOf(books[owner[s]], s);
    }
  }

  /** A copy is harmless when the blocks fit; when, with a plan that is not out of date, it takes the text along;
      and when, into a notebook that came to own the recording since the plan was made, it adds nothing. */
  ghost predicate IsHarmlessCopy(sys: System, plan: Plan, i: nat, seen: Slices.Blocks)
    requires IsPlan(sys, plan) && i < |TABS|
  {
    var target, source, tab := sys.books[plan.target], AsRead(sys, plan, seen), TABS[i];
    && StaysSound(target, source, tab, plan.session, plan.later[i])
    && (sys.owner[plan.session] == plan.source && plan.session in sys.text ==>
      TakesAlong(target, source, tab, plan.session, plan.later[i], sys.text[plan.session]))
    && (sys.owner[plan.session] == plan.target ==> AddsNothing(target, source, tab, plan.session))
  }

  /** A tab of the very notebook that owns the recording is rolled back, and there was something in it. */
  ghost predicate RollsOwnerBack(sys: System, event: Event) {
    && sys.move.RollingBack? && event.UndoTab? && event.works && sys.move.done < |TABS|
    && sys.move.plan.session in sys.owner && sys.owner[sys.move.plan.session] == sys.move.plan.target
    && sys.move.plan.session in sys.text && !IsEmpty(sys.text[sys.move.plan.session], TABS[sys.move.done])
  }

  /** A half copy leaves some of the recording in the very notebook that owns it, and there was nothing to be in it. */
  ghost predicate LitterOwner(sys: System, event: Event) {
    && event.CopyBroken? && event.kept > 0 && CanBreak(sys, event.cells, event.kept)
    && sys.move.plan.session in sys.owner && sys.owner[sys.move.plan.session] == sys.move.plan.target
  }

  /** The move under way counts on the recording's slice in this notebook: on the source's from its reading to its
      clearing, on the target's from its copying to the commit or to its undoing. */
  ghost predicate IsWatched(sys: System, notebook: string) {
    match sys.move
    case Idle => false
    case Copying(plan, done, seen) => IsLive(sys, plan) && (notebook == plan.source || (notebook == plan.target && done > 0))
    case RollingBack(plan, done, seen) => done == 0 && notebook == plan.target
    case Clearing(plan, done, seen) => done == 0 && notebook == plan.source
  }

  /** An edit is harmless when it leaves the document sound and, in a notebook whose slice of the moved recording the
      move counts on, that slice as it was. */
  ghost predicate IsHarmlessEdit(sys: System, event: Event, home: Home) {
    && (event.EditText? && sys.move.Idle? && event.notebook in sys.books && event.tab != Realtime ==> Text.IsWellOwned(event.doc))
    && (event.EditTranscript? && event.notebook in sys.books ==>
      && Slices.IsSound(event.items, home)
      && (IsWatched(sys, event.notebook) ==>
        Slices.SliceOf(event.items, sys.move.plan.session, None) ==
        Slices.SliceOf(sys.books[event.notebook].transcript, sys.move.plan.session, None)))
  }

  ghost predicate IsHarmless(sys: System, event: Event, home: Home) {
    && !RollsOwnerBack(sys, event) && !LitterOwner(sys, event)
    && (sys.move.Copying? && event.CopyTab? && sys.move.done < |TABS| && IsPlan(sys, sys.move.plan) ==>
      IsHarmlessCopy(sys, sys.move.plan, sys.move.done, sys.move.seen))
    && IsHarmlessEdit(sys, event, home)
  }

  // ----- one step

  ghost predicate SamePlace(sys: System, after: System) {
    after.owner == sys.owner && after.text == sys.text && after.pending <= sys.pending && after.books.Keys == sys.books.Keys
  }

  /** A step on one tab's share of one recording in one notebook. */
  ghost predicate IsShareStep(sys: System, after: System, notebook: string, tab: Tab, session: string) {
    && SamePlace(sys, after) && notebook in sys.books && after.books == sys.books[notebook := after.books[notebook]]
    && LeavesOthers(sys.books[notebook], after.books[notebook], tab, session)
  }

  lemma SameShareHolds(before: Book, after: Book, tab: Tab, session: string, content: Content)
    requires SameShare(before, after, tab, session)
    ensures Holds(before, tab, session, content) <==> Holds(after, tab, session, content)
    ensures Lacks(before, tab, session) <==> Lacks(after, tab, session)
  {
  }

  lemma ShareStepHolds(sys: System, after: System, notebook: string, tab: Tab, session: string, n: string, t: Tab, s: string)
    requires IsShareStep(sys, after, notebook, tab, session) && (n != notebook || t != tab || s != session)
    ensures HoldsText(after, n, t, s) <==> HoldsText(sys, n, t, s)
  {
    if n == notebook && s in sys.text {
      assert SameShare(sys.books[notebook], after.books[notebook], t, s);
      SameShareHolds(sys.books[notebook], after.books[notebook], t, s, sys.text[s]);
    }
  }

  lemma ShareStepOwners(sys: System, after: System, notebook: string, tab: Tab, session: string)
    requires IsShareStep(sys, after, notebook, tab, session) && OwnersHold(sys) && session in sys.owner
    ensures OwnersHold(after) <==> (sys.owner[session] == notebook ==> HoldsText(after, notebook, tab, session))
  {
    if sys.owner[session] == notebook ==> HoldsText(after, notebook, tab, session) {
      forall s, t | s in after.owner
        ensures HoldsText(after, after.owner[s], t, s)
      {
        assert HoldsText(sys, sys.owner[s], t, s);
        if after.owner[s] != notebook || t != tab || s != session {
          ShareStepHolds(sys, after, notebook, tab, session, sys.owner[s], t, s);
        }
      }
    } else {
      assert !HoldsText(after, after.owner[session], tab, session);
    }
  }

  /** The tabs copied so far stay copied, and the next one joins them or not. */
  lemma CopiesStay(sys: System, after: System, notebook: string, session: string, done: nat)
    requires done < |TABS| && IsShareStep(sys, after, notebook, TABS[done], session) && CopiesHold(sys, notebook, session, done)
    ensures HoldsText(after, notebook, TABS[done], session) <==> CopiesHold(after, notebook, session, done + 1)
  {
    if done > 0 {
      ShareStepHolds(sys, after, notebook, TABS[done], session, notebook, Realtime, session);
    }
    if done > 1 {
      ShareStepHolds(sys, after, notebook, TABS[done], session, notebook, Async, session);
    }
  }

  lemma PlansStay(sys: System, after: System)
    requires forall plan | plan in sys.pending :: IsPlan(sys, plan)
    requires after.books.Keys == sys.books.Keys && sys.owner.Keys <= after.owner.Keys && after.pending <= sys.pending
    ensures forall plan | plan in after.pending :: IsPlan(after, plan)
  {
    forall plan | plan in after.pending
      ensures IsPlan(after, plan)
    {
      assert IsPlan(sys, plan);
    }
  }

  /** A copy that leaves the target sound loses nothing exactly when its two readers find what they count on. */
  lemma SoundCopyStep(sys: System, after: System, plan: Plan, done: nat, home: Home)
    requires NothingIsLost(sys, home) && sys.move.Copying? && sys.move.plan == plan && sys.move.done == done < |TABS|
    requires after.move == Copying(plan, done + 1, sys.move.seen)
    requires IsShareStep(sys, after, plan.target, TABS[done], plan.session) && after.pending == sys.pending
    requires IsSoundBook(after.books[plan.target], home)
    ensures NothingIsLost(after, home)
      <==> (sys.owner[plan.session] in {plan.source, plan.target} ==> HoldsText(after, plan.target, TABS[done], plan.session))
  {
    assert BooksAreSound(after, home);
    PlansStay(sys, after);
    ShareStepOwners(sys, after, plan.target, TABS[done], plan.session);
    if IsLive(sys, plan) {
      CopiesStay(sys, after, plan.target, plan.session, done);
    }
  }

  /** With a plan that is not out of date, the source as it was read holds the text. */
  lemma ReadHoldsText(sys: System, tab: Tab, home: Home)
    requires NothingIsLost(sys, home) && sys.move.Copying?
    ensures IsPlan(sys, sys.move.plan) && sys.move.plan.session in sys.text
    ensures IsSoundBook(AsRead(sys, sys.move.plan, sys.move.seen), home)
    ensures IsLive(sys, sys.move.plan) ==>
      Holds(AsRead(sys, sys.move.plan, sys.move.seen), tab, sys.move.plan.session, sys.text[sys.move.plan.session])
  {
    assert HoldsText(sys, sys.owner[sys.move.plan.session], tab, sys.move.plan.session);
  }

  lemma CopyStepExactly(sys: System, inherit: Inherit, home: Home)
    requires NothingIsLost(sys, home) && sys.move.Copying? && sys.move.done < |TABS|
    ensures NothingIsLost(Next(sys, CopyTab, inherit), home) <==> IsHarmlessCopy(sys, sys.move.plan, sys.move.done, sys.move.seen)
  {
    var plan, done, after := sys.move.plan, sys.move.done, Next(sys, CopyTab, inherit);
    var target, source, tab, session := sys.books[plan.target], AsRead(sys, plan, sys.move.seen), TABS[done], plan.session;
    ReadHoldsText(sys, tab, home);
    assert HoldsText(sys, sys.owner[session], tab, session);
    CopyExactly(target, source, tab, session, plan.later[done], inherit, sys.text[session], home);
    assert after.books[plan.target] == CopyInto(target, source, tab, session, plan.later[done], inherit);
    if IsSoundBook(after.books[plan.target], home) {
      SoundCopyStep(sys, after, plan, done, home);
    } else {
      assert !BooksAreSound(after, home);
    }
  }

  lemma BrokenLeaves(target: Book, tab: Tab, session: string, later: seq<string>, cells: Marked.Doc, kept: nat, content: Content, home: Home)
    requires IsSoundBook(target, home) && tab != Realtime && !Text.Has(Flat(target, tab), session) && Text.IsPartlyOwned(cells, session, kept)
    ensures var after := Broken(target, tab, later, cells);
      && IsSoundBook(after, home) && LeavesOthers(target, after, tab, session)
      && (Holds(target, tab, session, content) ==> (Holds(after, tab, session, content) <==> kept == 0))
  {
    Text.HalfCopyLeaves(Flat(target, tab), session, later, cells, kept);
    Text.MineIsOwned(Flat(target, tab), session);
    SameTexts(target, Broken(target, tab, later, cells), tab, session);
  }

  lemma BrokenStepExactly(sys: System, cells: Marked.Doc, kept: nat, inherit: Inherit, home: Home)
    requires NothingIsLost(sys, home) && CanBreak(sys, cells, kept)
    ensures NothingIsLost(Next(sys, CopyBroken(cells, kept), inherit), home) <==> !LitterOwner(sys, CopyBroken(cells, kept))
  {
    var plan, done, after := sys.move.plan, sys.move.done, Next(sys, CopyBroken(cells, kept), inherit);
    var target, tab, session := sys.books[plan.target], TABS[done], plan.session;
    assert HoldsText(sys, sys.owner[session], tab, session);
    BrokenLeaves(target, tab, session, plan.later[done], cells, kept, sys.text[session], home);
    assert after.books[plan.target] == Broken(target, tab, plan.later[done], cells);
    assert BooksAreSound(after, home);
    ShareStepOwners(sys, after, plan.target, tab, session);
    PlansStay(sys, after);
  }

  lemma ClearStepExactly(sys: System, after: System, notebook: string, tab: Tab, session: string, home: Home)
    requires NothingIsLost(sys, home) && notebook in sys.books && session in sys.owner && session in sys.text
    requires SamePlace(sys, after) && after.books == sys.books[notebook := ClearFrom(sys.books[notebook], tab, session)]
    requires PhaseIsSound(after) && !after.move.Copying?
    ensures NothingIsLost(after, home) <==> (sys.owner[session] == notebook ==> IsEmpty(sys.text[session], tab))
  {
    assert HoldsText(sys, sys.owner[session], tab, session);
    ClearKeepsBook(sys.books[notebook], tab, session, home);
    assert BooksAreSound(after, home);
    ShareStepOwners(sys, after, notebook, tab, session);
    LackingHolds(after.books[notebook], tab, session, sys.text[session]);
    PlansStay(sys, after);
  }

  lemma CommitKeepsOwners(sys: System, inherit: Inherit, home: Home)
    requires NothingIsLost(sys, home) && sys.move.Copying? && sys.move.done == |TABS| && IsLive(sys, sys.move.plan)
    ensures OwnersHold(Next(sys, Commit, inherit))
  {
    var plan, after := sys.move.plan, Next(sys, Commit, inherit);
    forall s, t | s in after.owner
      ensures HoldsText(after, after.owner[s], t, s)
    {
      if s == plan.session {
        assert HoldsText(sys, plan.target, t, s);
      } else {
        assert HoldsText(sys, sys.owner[s], t, s);
      }
    }
  }

  lemma CommitKeeps(sys: System, inherit: Inherit, home: Home)
    requires NothingIsLost(sys, home) && sys.move.Copying? && sys.move.done == |TABS| && IsLive(sys, sys.move.plan)
    ensures NothingIsLost(Next(sys, Commit, inherit), home)
  {
    CommitKeepsOwners(sys, inherit, home);
    assert HoldsText(sys, sys.move.plan.source, Realtime, sys.move.plan.session);
    PlansStay(sys, Next(sys, Commit, inherit));
  }

  /** A notebook one tab of which is edited. */
  ghost predicate IsEdit(sys: System, notebook: string, tab: Tab, book: Book) {
    && notebook in sys.books
    && book == if tab == Realtime then sys.books[notebook].(transcript := book.transcript)
               else WithFlat(sys.books[notebook], tab, Flat(book, tab))
  }

  /** The notebook that is edited has what is written; the others are as they were. */
  lemma EditedHolds(sys: System, notebook: string, tab: Tab, book: Book, t: Tab, session: string)
    requires IsEdit(sys, notebook, tab, book) && session in sys.owner && HoldsText(sys, sys.owner[session], t, session)
    ensures HoldsText(Edited(sys, notebook, tab, book), sys.owner[session], t, session)
  {
  }

  lemma EditKeepsOwners(sys: System, notebook: string, tab: Tab, book: Book, home: Home)
    requires NothingIsLost(sys, home) && IsEdit(sys, notebook, tab, book)
    ensures OwnersHold(Edited(sys, notebook, tab, book))
    ensures forall plan | plan in Edited(sys, notebook, tab, book).pending :: IsPlan(Edited(sys, notebook, tab, book), plan)
  {
    var after := Edited(sys, notebook, tab, book);
    forall s, t | s in after.owner
      ensures HoldsText(after, after.owner[s], t, s)
    {
      EditedHolds(sys, notebook, tab, book, t, s);
    }
    PlansStay(sys, after);
  }

  lemma EditIs(sys: System, notebook: string, tab: Tab, doc: Marked.Doc, inherit: Inherit)
    requires sys.move.Idle? && notebook in sys.books && tab != Realtime
    ensures Next(sys, EditText(notebook, tab, doc), inherit) == Edited(sys, notebook, tab, WithFlat(sys.books[notebook], tab, doc))
  {
  }

  lemma EditTextExactly(sys: System, notebook: string, tab: Tab, doc: Marked.Doc, inherit: Inherit, home: Home)
    requires NothingIsLost(sys, home) && sys.move.Idle? && notebook in sys.books && tab != Realtime
    ensures NothingIsLost(Next(sys, EditText(notebook, tab, doc), inherit), home) <==> Text.IsWellOwned(doc)
  {
    var book := WithFlat(sys.books[notebook], tab, doc);
    EditIs(sys, notebook, tab, doc, inherit);
    EditKeepsOwners(sys, notebook, tab, book, home);
    EditKeepsSound(sys, notebook, tab, book, home);
  }

  lemma EditKeepsSound(sys: System, notebook: string, tab: Tab, book: Book, home: Home)
    requires BooksAreSound(sys, home) && IsEdit(sys, notebook, tab, book)
    ensures BooksAreSound(Edited(sys, notebook, tab, book), home)
      <==> if tab == Realtime then Slices.IsSound(book.transcript, home) else Text.IsWellOwned(Flat(book, tab))
  {
    assert IsSoundBook(sys.books[notebook], home);
    assert Edited(sys, notebook, tab, book).books[notebook] == book;
    assert BooksAreSound(Edited(sys, notebook, tab, book), home) ==> IsSoundBook(book, home);
  }

  /** An edit of a transcript leaves a move what it counts on exactly when a slice it counts on stays as it was. */
  lemma EditKeepsPhase(sys: System, notebook: string, items: Slices.Blocks, home: Home)
    requires NothingIsLost(sys, home) && notebook in sys.books
    ensures var book := sys.books[notebook].(transcript := items);
      PhaseIsSound(Edited(sys, notebook, Realtime, book))
      <==> (IsWatched(sys, notebook) ==>
        Slices.SliceOf(items, sys.move.plan.session, None) == Slices.SliceOf(sys.books[notebook].transcript, sys.move.plan.session, None))
  {
    var after := Edited(sys, notebook, Realtime, sys.books[notebook].(transcript := items));
    if sys.move.Copying? && IsLive(sys, sys.move.plan) {
      EditKeepsCopy(sys, notebook, items, home);
    }
  }

  lemma EditedTarget(sys: System, notebook: string, items: Slices.Blocks, tab: Tab, plan: Plan)
    requires notebook in sys.books && HoldsText(sys, plan.target, tab, plan.session) && IsLive(sys, plan) && plan.source != plan.target
    requires HoldsText(sys, plan.source, tab, plan.session)
    ensures var after := Edited(sys, notebook, Realtime, sys.books[notebook].(transcript := items));
      HoldsText(after, plan.target, tab, plan.session)
      <==> (tab == Realtime && notebook in {plan.source, plan.target} ==>
        Slices.SliceOf(items, plan.session, None) == Slices.SliceOf(sys.books[notebook].transcript, plan.session, None))
  {
  }

  lemma EditKeepsCopy(sys: System, notebook: string, items: Slices.Blocks, home: Home)
    requires NothingIsLost(sys, home) && notebook in sys.books && sys.move.Copying? && IsLive(sys, sys.move.plan)
    ensures var after := Edited(sys, notebook, Realtime, sys.books[notebook].(transcript := items));
      CopyIsCurrent(after, sys.move.plan, sys.move.done, sys.move.seen)
      <==> (IsWatched(sys, notebook) ==>
        Slices.SliceOf(items, sys.move.plan.session, None) == Slices.SliceOf(sys.books[notebook].transcript, sys.move.plan.session, None))
  {
    var plan, done := sys.move.plan, sys.move.done;
    assert HoldsText(sys, plan.source, Realtime, plan.session);
    assert HoldsText(sys, plan.source, Async, plan.session);
    assert HoldsText(sys, plan.source, Note, plan.session);
    if done > 0 {
      EditedTarget(sys, notebook, items, Realtime, plan);
    }
    if done > 1 {
      EditedTarget(sys, notebook, items, Async, plan);
    }
    if done > 2 {
      EditedTarget(sys, notebook, items, Note, plan);
    }
  }

  lemma EditTranscriptExactly(sys: System, notebook: string, items: Slices.Blocks, inherit: Inherit, home: Home)
    requires NothingIsLost(sys, home) && notebook in sys.books
    ensures NothingIsLost(Next(sys, EditTranscript(notebook, items), inherit), home) <==> IsHarmlessEdit(sys, EditTranscript(notebook, items), home)
  {
    var book := sys.books[notebook].(transcript := items);
    var after := Edited(sys, notebook, Realtime, book);
    EditKeepsOwners(sys, notebook, Realtime, book, home);
    EditKeepsPhase(sys, notebook, items, home);
    EditKeepsSound(sys, notebook, Realtime, book, home);
  }

  /** A step that touches no document and no owner. */
  lemma QuietStepKeeps(sys: System, after: System, home: Home)
    requires NothingIsLost(sys, home)
    requires after.books == sys.books && after.owner == sys.owner && after.text == sys.text
    requires PhaseIsSound(after) && SeenIsSound(after, home) && forall plan | plan in after.pending :: IsPlan(after, plan)
    ensures NothingIsLost(after, home)
  {
    forall s, t | s in after.owner
      ensures HoldsText(after, after.owner[s], t, s)
    {
      assert HoldsText(sys, sys.owner[s], t, s);
    }
  }

  lemma UndoStepExactly(sys: System, works: bool, inherit: Inherit, home: Home)
    requires NothingIsLost(sys, home) && sys.move.RollingBack?
    ensures NothingIsLost(Next(sys, UndoTab(works), inherit), home) <==> !RollsOwnerBack(sys, UndoTab(works))
  {
    var plan, after := sys.move.plan, Next(sys, UndoTab(works), inherit);
    assert HoldsText(sys, sys.owner[plan.session], Note, plan.session);
    if works && sys.move.done < |TABS| {
      ClearStepExactly(sys, after, plan.target, TABS[sys.move.done], plan.session, home);
    } else {
      assert after.books == sys.books;
      QuietStepKeeps(sys, after, home);
    }
  }

  lemma ClearingKeeps(sys: System, inherit: Inherit, home: Home)
    requires NothingIsLost(sys, home) && sys.move.Clearing?
    ensures NothingIsLost(Next(sys, ClearTab, inherit), home)
  {
    var plan, after := sys.move.plan, Next(sys, ClearTab, inherit);
    assert HoldsText(sys, sys.owner[plan.session], Note, plan.session);
    if sys.move.done < |TABS| {
      ClearStepExactly(sys, after, plan.source, TABS[sys.move.done], plan.session, home);
    } else {
      QuietStepKeeps(sys, after, home);
    }
  }

  lemma SamePhase(sys: System, after: System)
    requires after.books == sys.books && after.owner == sys.owner && after.text == sys.text
    requires PhaseIsSound(sys) && after.move == sys.move
    ensures PhaseIsSound(after)
  {
  }

  lemma MakePlanKeeps(sys: System, event: Event, inherit: Inherit, home: Home)
    requires NothingIsLost(sys, home) && event.MakePlan?
    ensures NothingIsLost(Next(sys, event, inherit), home)
  {
    var after := Next(sys, event, inherit);
    if after != sys {
      forall plan | plan in after.pending
        ensures IsPlan(after, plan)
      {
        assert plan in sys.pending ==> IsPlan(sys, plan);
      }
      SamePhase(sys, after);
      QuietStepKeeps(sys, after, home);
    }
  }

  lemma OtherStepKeeps(sys: System, event: Event, inherit: Inherit, home: Home)
    requires NothingIsLost(sys, home)
    requires event.Begin? || event.CopyFailed? || event.CommitRefused? || event.ClearFailed? || event.Crash?
    ensures NothingIsLost(Next(sys, event, inherit), home)
  {
    var after := Next(sys, event, inherit);
    if after != sys {
      PlansStay(sys, after);
      if event.Begin? {
        assert IsPlan(sys, event.plan);
        assert HoldsText(sys, sys.owner[event.plan.session], Realtime, event.plan.session);
      }
      QuietStepKeeps(sys, after, home);
    }
  }

  lemma EditStepExactly(sys: System, event: Event, inherit: Inherit, home: Home)
    requires NothingIsLost(sys, home) && (event.EditText? || event.EditTranscript?)
    ensures NothingIsLost(Next(sys, event, inherit), home) <==> IsHarmless(sys, event, home)
  {
    if event.EditText? && sys.move.Idle? && event.notebook in sys.books && event.tab != Realtime {
      EditTextExactly(sys, event.notebook, event.tab, event.doc, inherit, home);
    } else if event.EditTranscript? && event.notebook in sys.books {
      EditTranscriptExactly(sys, event.notebook, event.items, inherit, home);
    } else {
      assert Next(sys, event, inherit) == sys;
    }
  }

  lemma CopyTabExactly(sys: System, inherit: Inherit, home: Home)
    requires NothingIsLost(sys, home)
    ensures NothingIsLost(Next(sys, CopyTab, inherit), home) <==> IsHarmless(sys, CopyTab, home)
  {
    if sys.move.Copying? && sys.move.done < |TABS| {
      CopyStepExactly(sys, inherit, home);
    } else {
      assert Next(sys, CopyTab, inherit) == sys;
    }
  }

  lemma CopyBrokenExactly(sys: System, event: Event, inherit: Inherit, home: Home)
    requires NothingIsLost(sys, home) && event.CopyBroken?
    ensures NothingIsLost(Next(sys, event, inherit), home) <==> IsHarmless(sys, event, home)
  {
    if CanBreak(sys, event.cells, event.kept) {
      BrokenStepExactly(sys, event.cells, event.kept, inherit, home);
    } else {
      assert Next(sys, event, inherit) == sys;
    }
  }

  lemma CommitStepExactly(sys: System, inherit: Inherit, home: Home)
    requires NothingIsLost(sys, home)
    ensures NothingIsLost(Next(sys, Commit, inherit), home) <==> IsHarmless(sys, Commit, home)
  {
    if sys.move.Copying? && sys.move.done == |TABS| {
      if IsLive(sys, sys.move.plan) {
        CommitKeeps(sys, inherit, home);
      } else {
        QuietStepKeeps(sys, Next(sys, Commit, inherit), home);
      }
    }
  }

  lemma UndoTabExactly(sys: System, event: Event, inherit: Inherit, home: Home)
    requires NothingIsLost(sys, home) && event.UndoTab?
    ensures NothingIsLost(Next(sys, event, inherit), home) <==> IsHarmless(sys, event, home)
  {
    if sys.move.RollingBack? {
      UndoStepExactly(sys, event.works, inherit, home);
    } else {
      assert Next(sys, event, inherit) == sys;
    }
  }

  lemma ClearTabExactly(sys: System, inherit: Inherit, home: Home)
    requires NothingIsLost(sys, home)
    ensures NothingIsLost(Next(sys, ClearTab, inherit), home) <==> IsHarmless(sys, ClearTab, home)
  {
    if sys.move.Clearing? {
      ClearingKeeps(sys, inherit, home);
    } else {
      assert Next(sys, ClearTab, inherit) == sys;
    }
  }

  ghost predicate IsPlain(event: Event) {
    event.MakePlan? || event.Begin? || event.CopyFailed? || event.CommitRefused? || event.ClearFailed? || event.Crash?
  }

  lemma PlainIsHarmless(sys: System, event: Event, home: Home)
    requires IsPlain(event)
    ensures IsHarmless(sys, event, home)
  {
  }

  lemma PlainStepKeeps(sys: System, event: Event, inherit: Inherit, home: Home)
    requires NothingIsLost(sys, home) && IsPlain(event)
    ensures NothingIsLost(Next(sys, event, inherit), home)
  {
    if event.MakePlan? {
      MakePlanKeeps(sys, event, inherit, home);
    } else {
      OtherStepKeeps(sys, event, inherit, home);
    }
  }

  /** A step loses nothing exactly when it is harmless. */
  lemma StepExactly(sys: System, event: Event, inherit: Inherit, home: Home)
    requires NothingIsLost(sys, home)
    ensures NothingIsLost(Next(sys, event, inherit), home) <==> IsHarmless(sys, event, home)
  {
    match event
    case EditText(_, _, _) => EditStepExactly(sys, event, inherit, home);
    case EditTranscript(_, _) => EditStepExactly(sys, event, inherit, home);
    case CopyTab => CopyTabExactly(sys, inherit, home);
    case CopyBroken(_, _) => CopyBrokenExactly(sys, event, inherit, home);
    case Commit => CommitStepExactly(sys, inherit, home);
    case UndoTab(_) => UndoTabExactly(sys, event, inherit, home);
    case ClearTab => ClearTabExactly(sys, inherit, home);
    case _ =>
      PlainIsHarmless(sys, event, home);
      PlainStepKeeps(sys, event, inherit, home);
  }

  // ----- whole runs

  ghost predicate IsKeptThroughout(sys: System, events: seq<Event>, inherit: Inherit, home: Home)
    decreases |events|
  {
    NothingIsLost(sys, home) && (events == [] || IsKeptThroughout(Next(sys, events[0], inherit), events[1..], inherit, home))
  }

  ghost predicate IsHarmlessRun(sys: System, events: seq<Event>, inherit: Inherit, home: Home)
    decreases |events|
  {
    events == [] || (IsHarmless(sys, events[0], home) && IsHarmlessRun(Next(sys, events[0], inherit), events[1..], inherit, home))
  }

  /** Whatever plans are made, moves begun, cut off, undone or refused, and texts edited in between: every owner has
      what was last written of its recordings, at every point of the run, exactly when no step does harm. */
  lemma {:induction false} EveryRunExactly(sys: System, events: seq<Event>, inherit: Inherit, home: Home)
    requires NothingIsLost(sys, home)
    ensures IsKeptThroughout(sys, events, inherit, home) <==> IsHarmlessRun(sys, events, inherit, home)
    decreases |events|
  {
    if events != [] {
      StepExactly(sys, events[0], inherit, home);
      if IsHarmless(sys, events[0], home) {
        EveryRunExactly(Next(sys, events[0], inherit), events[1..], inherit, home);
      }
    }
  }
}
