/** The watermark from which a shared document's changes are published, with the steps of a publish and of an
    import taken by different threads (crates/vt-ffi/src/shared_session_docs.rs:363-389, 516-544). */
module PublishWatermark {
  import opened Prelude

  // ----- version vectors

  /** How many operations of each peer are known; each peer numbers its own from nought. */
  type Vector = map<nat, nat>

  datatype Op = Op(peer: nat, counter: nat)

  function At(v: Vector, peer: nat): nat {
    if peer in v then v[peer] else 0
  }

  predicate Includes(v: Vector, op: Op) {
    op.counter < At(v, op.peer)
  }

  ghost predicate AtMost(a: Vector, b: Vector) {
    forall p: nat :: At(a, p) <= At(b, p)
  }

  /** What lies from one version up to another. */
  predicate Between(since: Vector, upTo: Vector, op: Op) {
    !Includes(since, op) && Includes(upTo, op)
  }

  function Grown(before: Vector, after: Vector): set<nat> {
    set p | p in after && after[p] > At(before, p)
  }

  /** The entry raised to include what grew from `before` to `after`. */
  function Extended(entry: Vector, before: Vector, after: Vector): Vector {
    map p | p in entry.Keys + Grown(before, after) ::
      if p in Grown(before, after) then Max(At(entry, p), At(after, p)) else At(entry, p)
  }

  function Joined(a: Vector, b: Vector): Vector {
    map p | p in a.Keys + b.Keys :: Max(At(a, p), At(b, p))
  }

  method ExtendToInclude(entry: Vector, before: Vector, after: Vector) returns (r: Vector)
    ensures r == Extended(entry, before, after)
  {
    r := entry;
    var peers := after.Keys;
    while peers != {}
      invariant peers <= after.Keys
      invariant r.Keys == entry.Keys + (Grown(before, after) - peers)
      invariant forall p | p in r :: r[p] == if p in Grown(before, after) - peers then Max(At(entry, p), At(after, p)) else At(entry, p)
      decreases peers
    {
      var p :| p in peers;
      if after[p] > At(before, p) {
        r := r[p := Max(At(r, p), after[p])];
      }
      peers := peers - {p};
    }
    assert r == Extended(entry, before, after);
  }

  lemma ExtendedAt(entry: Vector, before: Vector, after: Vector, p: nat)
    ensures At(Extended(entry, before, after), p) == if At(after, p) > At(before, p) then Max(At(entry, p), At(after, p)) else At(entry, p)
  {
  }

  lemma JoinedAt(a: Vector, b: Vector, p: nat)
    ensures At(Joined(a, b), p) == Max(At(a, p), At(b, p))
  {
  }

  lemma JoinedGrows(a: Vector, b: Vector)
    ensures AtMost(a, Joined(a, b))
  {
    forall p: nat
      ensures At(a, p) <= At(Joined(a, b), p)
    {
      JoinedAt(a, b, p);
    }
  }

  // ----- the process's shared documents

  class SharedSessions {
    /** The mounted documents' versions; those in `open` are in the registry of shared sessions too. */
    var documents: map<string, Vector>
    var open: set<string>
    var published: map<string, Vector>

    constructor ()
      ensures Valid() && documents == map[] && open == {} && published == map[]
    {
      documents, open, published := map[], {}, map[];
    }

    ghost predicate Valid()
      reads this
    {
      open <= documents.Keys
    }

    function Watermark(id: string): Vector
      reads this`published
    {
      if id in published then published[id] else map[]
    }

    /** Exports everything since the watermark, and raises the watermark to the version read before the export,
        whether or not a room is there to send it to. `meanwhile` is what other threads write into the document
        between the two; an export may fail. */
    method PublishSharedSession(id: string, meanwhile: Vector, exports: bool, connected: bool)
      returns (exported: Option<(Vector, Vector)>, sent: bool)
      requires Valid()
      modifies this`published, this`documents
      ensures Valid()
      ensures exported.Some? <==> id in open && old(Watermark(id)) != old(documents)[id] && exports
      ensures exported.Some? ==>
        exported.value == (old(Watermark(id)), Joined(old(documents)[id], meanwhile)) && Watermark(id) == old(documents)[id]
      ensures exported.None? ==> Watermark(id) == old(Watermark(id))
      ensures forall other | other != id :: Watermark(other) == old(Watermark(other))
      ensures sent <==> exported.Some? && connected
      ensures documents == if id in open && old(Watermark(id)) != old(documents)[id]
                           then old(documents)[id := Joined(old(documents)[id], meanwhile)] else old(documents)
    {
      if id !in open {
        return None, false;
      }
      if id !in published {
        published := published[id := map[]];
      }
      var since, now := published[id], documents[id];
      if since == now {
        return None, false;
      }
      documents := documents[id := Joined(now, meanwhile)];
      if !exports {
        return None, false;
      }
      published := published[id := now];
      exported, sent := Some((since, documents[id])), connected;
    }

    /** Imports a remote update into any mounted document and, for a registered one, takes what the document grew
        by into the watermark. `before` and `after` are what other threads write into the document between the
        reading of its version and the import, and between the import and the second reading. */
    method Apply(id: string, update: Vector, before: Vector, after: Vector) returns (applied: bool)
      requires Valid()
      modifies this`published, this`documents
      ensures Valid()
      ensures applied <==> id in old(documents)
      ensures !applied ==> documents == old(documents) && published == old(published)
      ensures applied ==>
        && documents == old(documents)[id := Joined(Joined(Joined(old(documents)[id], before), update), after)]
        && published == if id in open then old(published)[id := Extended(old(Watermark(id)), old(documents)[id], documents[id])]
                        else old(published)
    {
      var pre := if id in open then Some(documents[id]) else None;
      if id !in documents {
        return false;
      }
      var post := Joined(Joined(Joined(documents[id], before), update), after);
      documents := documents[id := post];
      if pre.Some? {
        var entry := ExtendToInclude(Watermark(id), pre.value, post);
        published := published[id := entry];
      }
      applied := true;
    }
  }

  // ----- runs of one document

  /** What passed the watermark: exported up to `end` while the watermark went up to `mark`, or taken in
      without being exported. */
  datatype Passage = Exported(since: Vector, mark: Vector, end: Vector, sent: bool) | Absorbed(since: Vector, upTo: Vector)

  /** How far an import has come, and the versions it has read. */
  datatype Importing = Started(pre: Vector) | Imported(pre: Vector) | Counted(pre: Vector, post: Vector)

  /** One document in one process. `mark` is the version a publish in progress has read; the publish holds the
      watermark's lock until it is done. `imports` has the imports in progress, of which there may be any number. */
  datatype Life = Life(me: nat, now: Vector, published: Vector, mark: Option<Vector>, imports: map<nat, Importing>, log: seq<Passage>)

  datatype Event =
    | Edit(count: nat)
    | ReadNow
    | Export(connected: bool)
    | ExportFails
    | ReadPre(call: nat)
    | Import(call: nat, update: Vector)
    | ImportFails(call: nat)
    | ReadPost(call: nat)
    | Raise(call: nat)
    | Publish(connected: bool)
    | Apply(update: Vector)

  function Opened(me: nat, now: Vector): Life {
    Life(me, now, map[], None, map[], [])
  }

  /** Everything since the watermark goes out, but the watermark rises only to the version read earlier. */
  function ExportStep(d: Life, mark: Vector, connected: bool): Life {
    d.(published := mark, mark := None, log := d.log + [Exported(d.published, mark, d.now, connected)])
  }

  /** The watermark takes in what grew from `pre` to `post`. */
  function RaiseStep(d: Life, pre: Vector, post: Vector): Life {
    var raised := Extended(d.published, pre, post);
    d.(published := raised, log := d.log + [Absorbed(d.published, raised)])
  }

  /** The call has read both versions, and no publish holds the lock. */
  predicate CanRaise(d: Life, call: nat) {
    call in d.imports && d.imports[call].Counted? && d.mark.None?
  }

  /** One step of one thread; `Publish` and `Apply` are all the steps of one call with no other step between. */
  function Next(d: Life, event: Event): Life {
    match event
    case Edit(count) => d.(now := d.now[d.me := At(d.now, d.me) + count])
    case ReadNow => if d.mark.None? && d.published != d.now then d.(mark := Some(d.now)) else d
    case Export(connected) => if d.mark.Some? then ExportStep(d, d.mark.value, connected) else d
    case ExportFails => d.(mark := None)
    case ReadPre(call) => if call !in d.imports then d.(imports := d.imports[call := Started(d.now)]) else d
    case Import(call, update) =>
      if call in d.imports && d.imports[call].Started?
      then d.(now := Joined(d.now, update), imports := d.imports[call := Imported(d.imports[call].pre)]) else d
    case ImportFails(call) => if call in d.imports && d.imports[call].Started? then d.(imports := d.imports - {call}) else d
    case ReadPost(call) =>
      if call in d.imports && d.imports[call].Imported?
      then d.(imports := d.imports[call := Counted(d.imports[call].pre, d.now)]) else d
    case Raise(call) => if CanRaise(d, call) then RaiseStep(d, d.imports[call].pre, d.imports[call].post).(imports := d.imports - {call}) else d
    case Publish(connected) => if d.mark.None? && d.published != d.now then ExportStep(d, d.now, connected) else d
    case Apply(update) =>
      if d.mark.None? then RaiseStep(d.(now := Joined(d.now, update)), d.now, Joined(d.now, update)) else d
  }

  function Run(d: Life, events: seq<Event>): Life {
    if events == [] then d else Next(Run(d, events[..|events| - 1]), events[|events| - 1])
  }

  lemma RunOne(d: Life, events: seq<Event>, event: Event)
    ensures Run(d, events + [event]) == Next(Run(d, events), event)
  {
    assert (events + [event])[..|events|] == events;
  }

  /** An import nothing interrupts, up to its second reading. */
  lemma ImportRead(d: Life, call: nat, update: Vector)
    requires call !in d.imports
    ensures Next(Next(Next(d, ReadPre(call)), Import(call, update)), ReadPost(call)) ==
      d.(now := Joined(d.now, update), imports := d.imports[call := Counted(d.now, Joined(d.now, update))])
  {
    var started := Next(d, ReadPre(call));
    assert started == d.(imports := d.imports[call := Started(d.now)]);
    var imported := Next(started, Import(call, update));
    assert imported == d.(now := Joined(d.now, update), imports := d.imports[call := Imported(d.now)]);
  }

  /** A whole publish and a whole import are their steps, one after the other. */
  lemma WholeIsItsSteps(d: Life, connected: bool, call: nat, update: Vector)
    requires d.mark.None? && call !in d.imports
    ensures Next(d, Publish(connected)) == Next(Next(d, ReadNow), Export(connected))
    ensures Next(d, Apply(update)) == Next(Next(Next(Next(d, ReadPre(call)), Import(call, update)), ReadPost(call)), Raise(call))
  {
    ImportRead(d, call, update);
    RaiseCloses(d, call, d.now, Joined(d.now, update));
  }

  lemma RaiseCloses(d: Life, call: nat, pre: Vector, now: Vector)
    requires d.mark.None? && call !in d.imports
    ensures Next(d.(now := now, imports := d.imports[call := Counted(pre, now)]), Raise(call)) == RaiseStep(d.(now := now), pre, now)
  {
    assert d.imports[call := Counted(pre, now)] - {call} == d.imports;
  }

  /** A publish whose export fails and an import that fails leave the document, the watermark and every other import as
      they were. */
  lemma FailuresLeaveNothing(d: Life, call: nat)
    ensures d.mark.None? ==> Next(Next(d, ReadNow), ExportFails) == d
    ensures call !in d.imports ==> Next(Next(d, ReadPre(call)), ImportFails(call)) == d
  {
    if call !in d.imports {
      assert d.imports[call := Started(d.now)] - {call} == d.imports;
    }
  }

  // ----- counting what became of an operation

  /** Exported; exported with the watermark passing it; exported ahead of the watermark; taken in without being
      exported; sent to a room. */
  datatype Fate = InExport | Marked | Early | Taken | Sent

  predicate Meets(passage: Passage, fate: Fate, op: Op) {
    match fate
    case InExport => passage.Exported? && Between(passage.since, passage.end, op)
    case Marked => passage.Exported? && Between(passage.since, passage.mark, op)
    case Early => passage.Exported? && Between(passage.mark, passage.end, op)
    case Taken => passage.Absorbed? && Between(passage.since, passage.upTo, op)
    case Sent => passage.Exported? && passage.sent && Between(passage.since, passage.end, op)
  }

  function Times(log: seq<Passage>, fate: Fate, op: Op): nat {
    if log == [] then 0
    else Times(log[..|log| - 1], fate, op) + if Meets(log[|log| - 1], fate, op) then 1 else 0
  }

  lemma LogGrows(log: seq<Passage>, last: Passage, fate: Fate, op: Op)
    ensures Times(log + [last], fate, op) == Times(log, fate, op) + if Meets(last, fate, op) then 1 else 0
  {
    assert (log + [last])[..|log|] == log;
  }

  lemma {:induction false} SentIsExported(log: seq<Passage>, op: Op)
    ensures Times(log, Sent, op) <= Times(log, InExport, op)
  {
    if log != [] {
      SentIsExported(log[..|log| - 1], op);
    }
  }

  /** What the next export will not find new: the version a publish has read, or else the document's. */
  function Settled(d: Life): Vector {
    if d.mark.Some? then d.mark.value else d.now
  }

  ghost predicate ImportIsSound(d: Life, call: nat)
    requires call in d.imports
  {
    && AtMost(d.imports[call].pre, d.now)
    && (d.imports[call].Counted? ==> AtMost(d.imports[call].pre, d.imports[call].post) && AtMost(d.imports[call].post, d.now))
  }

  ghost predicate VersionsAreSound(d: Life) {
    && AtMost(d.published, Settled(d)) && AtMost(Settled(d), d.now)
    && forall call | call in d.imports :: ImportIsSound(d, call)
  }

  /** An operation behind the watermark was marked once or taken in once; ahead of it, it may have gone out once. */
  ghost predicate IsOpAccounted(d: Life, op: Op) {
    && Times(d.log, Marked, op) + Times(d.log, Taken, op) == (if Includes(d.published, op) then 1 else 0)
    && Times(d.log, Early, op) <= (if Includes(Settled(d), op) then 1 else 0)
    && Times(d.log, InExport, op) == Times(d.log, Marked, op) + Times(d.log, Early, op)
  }

  ghost predicate IsAccounted(d: Life) {
    VersionsAreSound(d) && forall op: Op :: IsOpAccounted(d, op)
  }

  lemma ExportOp(d: Life, mark: Vector, connected: bool, op: Op)
    requires IsOpAccounted(d, op) && At(d.published, op.peer) <= At(mark, op.peer) <= At(d.now, op.peer)
    requires Times(d.log, Early, op) <= if Includes(mark, op) then 1 else 0
    ensures IsOpAccounted(ExportStep(d, mark, connected), op)
  {
    var last := Exported(d.published, mark, d.now, connected);
    LogGrows(d.log, last, InExport, op);
    LogGrows(d.log, last, Marked, op);
    LogGrows(d.log, last, Early, op);
    LogGrows(d.log, last, Taken, op);
  }

  lemma ExportAccounts(d: Life, mark: Vector, connected: bool)
    requires IsAccounted(d) && mark == Settled(d)
    ensures IsAccounted(ExportStep(d, mark, connected))
  {
    forall op: Op
      ensures IsOpAccounted(ExportStep(d, mark, connected), op)
    {
      assert IsOpAccounted(d, op);
      ExportOp(d, mark, connected, op);
    }
  }

  lemma RaiseOp(d: Life, pre: Vector, post: Vector, op: Op)
    requires IsOpAccounted(d, op)
    ensures IsOpAccounted(RaiseStep(d, pre, post), op)
  {
    var last := Absorbed(d.published, Extended(d.published, pre, post));
    ExtendedAt(d.published, pre, post, op.peer);
    LogGrows(d.log, last, InExport, op);
    LogGrows(d.log, last, Marked, op);
    LogGrows(d.log, last, Early, op);
    LogGrows(d.log, last, Taken, op);
  }

  lemma RaiseAccounts(d: Life, pre: Vector, post: Vector)
    requires IsAccounted(d) && d.mark.None? && AtMost(post, d.now)
    ensures IsAccounted(RaiseStep(d, pre, post))
  {
    var after := RaiseStep(d, pre, post);
    forall p: nat
      ensures At(after.published, p) <= At(d.now, p)
    {
      ExtendedAt(d.published, pre, post, p);
    }
    forall op: Op
      ensures IsOpAccounted(after, op)
    {
      assert IsOpAccounted(d, op);
      RaiseOp(d, pre, post, op);
    }
  }

  /** A document that only grew, with no version lost. */
  lemma GrowthAccounts(d: Life, after: Life)
    requires IsAccounted(d) && VersionsAreSound(after)
    requires after.log == d.log && after.published == d.published && AtMost(Settled(d), Settled(after))
    ensures IsAccounted(after)
  {
    forall op: Op
      ensures IsOpAccounted(after, op)
    {
      assert IsOpAccounted(d, op);
      assert At(Settled(d), op.peer) <= At(Settled(after), op.peer);
    }
  }

  lemma CloseAccounts(d: Life, call: nat)
    requires IsAccounted(d)
    ensures IsAccounted(d.(imports := d.imports - {call}))
  {
    var after := d.(imports := d.imports - {call});
    forall other | other in after.imports
      ensures ImportIsSound(after, other)
    {
      assert ImportIsSound(d, other);
    }
    GrowthAccounts(d, after);
  }

  /** A document that only grew, whose imports have read nothing that is not in it. */
  lemma GrowthIsSound(d: Life, after: Life)
    requires VersionsAreSound(d) && after.published == d.published && AtMost(d.now, after.now)
    requires AtMost(d.published, Settled(after)) && AtMost(Settled(after), after.now)
    requires forall call | call in after.imports && (call !in d.imports || after.imports[call] != d.imports[call]) :: ImportIsSound(after, call)
    ensures VersionsAreSound(after)
  {
    forall call | call in after.imports
      ensures ImportIsSound(after, call)
    {
      if call in d.imports && after.imports[call] == d.imports[call] {
        assert ImportIsSound(d, call);
      }
    }
  }

  lemma StepAccounts(d: Life, event: Event)
    requires IsAccounted(d)
    ensures IsAccounted(Next(d, event))
  {
    var after := Next(d, event);
    if event.Export? && d.mark.Some? {
      ExportAccounts(d, d.mark.value, event.connected);
    } else if event.Publish? && d.mark.None? {
      ExportAccounts(d, d.now, event.connected);
    } else if event.Raise? && CanRaise(d, event.call) {
      assert ImportIsSound(d, event.call);
      RaiseAccounts(d, d.imports[event.call].pre, d.imports[event.call].post);
      CloseAccounts(RaiseStep(d, d.imports[event.call].pre, d.imports[event.call].post), event.call);
    } else if event.Apply? && d.mark.None? {
      var joined := Joined(d.now, event.update);
      JoinedGrows(d.now, event.update);
      GrowthIsSound(d, d.(now := joined));
      GrowthAccounts(d, d.(now := joined));
      RaiseAccounts(d.(now := joined), d.now, joined);
    } else if after != d {
      if event.Import? {
        JoinedGrows(d.now, event.update);
      }
      GrowthIsSound(d, after);
      GrowthAccounts(d, after);
    }
  }

  /** However the steps of edits, imports and publishes interleave: an operation behind the watermark was marked by
      exactly one export or taken in exactly once, and no operation is in more than two exports. */
  lemma {:induction false} EveryRunAccounts(me: nat, now: Vector, events: seq<Event>)
    ensures IsAccounted(Run(Opened(me, now), events))
  {
    if events == [] {
      assert forall op: Op :: IsOpAccounted(Opened(me, now), op);
    } else {
      EveryRunAccounts(me, now, events[..|events| - 1]);
      StepAccounts(Run(Opened(me, now), events[..|events| - 1]), events[|events| - 1]);
    }
  }

  // ----- what has passed stays as it passed

  predicate IsExport(d: Life, event: Event) {
    (event.Export? && d.mark.Some?) || (event.Publish? && d.mark.None? && d.published != d.now)
  }

  lemma ExportIsFinal(d: Life, mark: Vector, connected: bool, fate: Fate, op: Op)
    requires Includes(d.published, op) && Includes(mark, op)
    ensures var after := ExportStep(d, mark, connected);
      Includes(after.published, op) && Times(after.log, fate, op) == Times(d.log, fate, op)
  {
    LogGrows(d.log, Exported(d.published, mark, d.now, connected), fate, op);
  }

  lemma RaiseIsFinal(d: Life, pre: Vector, post: Vector, fate: Fate, op: Op)
    requires Includes(d.published, op)
    ensures var after := RaiseStep(d, pre, post);
      Includes(after.published, op) && Times(after.log, fate, op) == Times(d.log, fate, op)
  {
    ExtendedAt(d.published, pre, post, op.peer);
    LogGrows(d.log, Absorbed(d.published, Extended(d.published, pre, post)), fate, op);
  }

  lemma StepIsFinal(d: Life, event: Event, fate: Fate, op: Op)
    requires IsAccounted(d) && Includes(d.published, op)
    ensures Includes(Next(d, event).published, op) && Times(Next(d, event).log, fate, op) == Times(d.log, fate, op)
  {
    assert At(d.published, op.peer) <= At(Settled(d), op.peer);
    if IsExport(d, event) {
      ExportIsFinal(d, Settled(d), event.connected, fate, op);
    } else if event.Raise? && CanRaise(d, event.call) {
      RaiseIsFinal(d, d.imports[event.call].pre, d.imports[event.call].post, fate, op);
    } else if event.Apply? && d.mark.None? {
      RaiseIsFinal(d.(now := Joined(d.now, event.update)), d.now, Joined(d.now, event.update), fate, op);
    }
  }

  /** Nothing more becomes of an operation behind the watermark. */
  lemma {:induction false} PassedIsFinal(d: Life, events: seq<Event>, fate: Fate, op: Op)
    requires IsAccounted(d) && Includes(d.published, op)
    ensures IsAccounted(Run(d, events)) && Includes(Run(d, events).published, op)
    ensures Times(Run(d, events).log, fate, op) == Times(d.log, fate, op)
  {
    if events != [] {
      PassedIsFinal(d, events[..|events| - 1], fate, op);
      StepAccounts(Run(d, events[..|events| - 1]), events[|events| - 1]);
      StepIsFinal(Run(d, events[..|events| - 1]), events[|events| - 1], fate, op);
    }
  }

  lemma StepOnlyAdds(d: Life, event: Event, fate: Fate, op: Op)
    ensures Times(Next(d, event).log, fate, op) >= Times(d.log, fate, op)
  {
    var after := Next(d, event);
    if after.log != d.log {
      assert after.log == d.log + [after.log[|d.log|]];
      LogGrows(d.log, after.log[|d.log|], fate, op);
    }
  }

  lemma {:induction false} RunOnlyAdds(d: Life, events: seq<Event>, fate: Fate, op: Op)
    ensures Times(Run(d, events).log, fate, op) >= Times(d.log, fate, op)
  {
    if events != [] {
      RunOnlyAdds(d, events[..|events| - 1], fate, op);
      StepOnlyAdds(Run(d, events[..|events| - 1]), events[|events| - 1], fate, op);
    }
  }

  /** What is not in the document has been in no export. */
  lemma UnknownIsUnexported(d: Life, op: Op)
    requires IsAccounted(d) && !Includes(d.now, op)
    ensures forall fate :: Times(d.log, fate, op) == 0
  {
    assert IsOpAccounted(d, op);
    assert At(d.published, op.peer) <= At(Settled(d), op.peer) <= At(d.now, op.peer);
    SentIsExported(d.log, op);
  }

  // ----- exported twice

  /** The export takes the operation along although the publish had read the version without it. */
  predicate IsOvertaken(d: Life, event: Event, op: Op) {
    event.Export? && d.mark.Some? && !Includes(d.mark.value, op) && Includes(d.now, op)
  }

  ghost predicate WasOvertaken(d: Life, events: seq<Event>, op: Op) {
    events != [] && (
      || WasOvertaken(d, events[..|events| - 1], op)
      || IsOvertaken(Run(d, events[..|events| - 1]), events[|events| - 1], op))
  }

  lemma EarlyExport(d: Life, mark: Vector, connected: bool, op: Op)
    ensures Times(ExportStep(d, mark, connected).log, Early, op) == Times(d.log, Early, op) + if Between(mark, d.now, op) then 1 else 0
  {
    LogGrows(d.log, Exported(d.published, mark, d.now, connected), Early, op);
  }

  lemma EarlyRaise(d: Life, pre: Vector, post: Vector, op: Op)
    ensures Times(RaiseStep(d, pre, post).log, Early, op) == Times(d.log, Early, op)
  {
    LogGrows(d.log, Absorbed(d.published, Extended(d.published, pre, post)), Early, op);
  }

  lemma EarlyStep(d: Life, event: Event, op: Op)
    requires IsAccounted(d)
    ensures Times(Next(d, event).log, Early, op) == Times(d.log, Early, op) + if IsOvertaken(d, event, op) then 1 else 0
  {
    if IsExport(d, event) {
      EarlyExport(d, Settled(d), event.connected, op);
    } else if event.Raise? && CanRaise(d, event.call) {
      EarlyRaise(d, d.imports[event.call].pre, d.imports[event.call].post, op);
    } else if event.Apply? && d.mark.None? {
      EarlyRaise(d.(now := Joined(d.now, event.update)), d.now, Joined(d.now, event.update), op);
    }
  }

  lemma {:induction false} EarlyIsOvertaken(me: nat, now: Vector, events: seq<Event>, op: Op)
    ensures Times(Run(Opened(me, now), events).log, Early, op) == if WasOvertaken(Opened(me, now), events, op) then 1 else 0
  {
    if events != [] {
      var front := events[..|events| - 1];
      EarlyIsOvertaken(me, now, front, op);
      EveryRunAccounts(me, now, front);
      EarlyStep(Run(Opened(me, now), front), events[|events| - 1], op);
      EveryRunAccounts(me, now, events);
      assert IsOpAccounted(Run(Opened(me, now), events), op);
    }
  }

  /** No operation is in more than two exports, and one is in two exactly when some export overtook it, and then
      the watermark passed it otherwise than by an import. */
  lemma ExportedTwiceExactly(me: nat, now: Vector, events: seq<Event>, op: Op)
    ensures var d := Run(Opened(me, now), events);
      && Times(d.log, InExport, op) <= 2
      && (Times(d.log, InExport, op) == 2 <==>
            WasOvertaken(Opened(me, now), events, op) && Includes(d.published, op) && Times(d.log, Taken, op) == 0)
  {
    EveryRunAccounts(me, now, events);
    EarlyIsOvertaken(me, now, events, op);
    assert IsOpAccounted(Run(Opened(me, now), events), op);
  }

  /** An operation that an export overtakes goes out with it and again with the next. */
  lemma OvertakenIsSentTwice(d: Life, op: Op)
    requires IsOvertaken(d, Export(true), op) && AtMost(d.published, d.mark.value) && Times(d.log, Sent, op) == 0
    ensures var overtaken := Next(d, Export(true));
      Times(overtaken.log, Sent, op) == 1 && Times(Next(overtaken, Publish(true)).log, Sent, op) == 2
  {
    assert At(d.published, op.peer) <= At(d.mark.value, op.peer);
    var overtaken := ExportStep(d, d.mark.value, true);
    assert Next(d, Export(true)) == overtaken;
    ExportSends(d, d.mark.value, op);
    PublishSends(overtaken, op);
  }

  lemma ExportSends(d: Life, mark: Vector, op: Op)
    requires Between(d.published, d.now, op)
    ensures Times(ExportStep(d, mark, true).log, Sent, op) == Times(d.log, Sent, op) + 1
  {
    LogGrows(d.log, Exported(d.published, mark, d.now, true), Sent, op);
  }

  lemma PublishSends(d: Life, op: Op)
    requires d.mark.None? && Between(d.published, d.now, op)
    ensures Times(Next(d, Publish(true)).log, Sent, op) == Times(d.log, Sent, op) + 1
  {
    ExportSends(d, d.now, op);
  }

  /** Such is an edit made here while a publish stands between reading the version and exporting. */
  lemma EditDuringPublishIsSentTwice(d: Life)
    requires IsAccounted(d) && d.mark.None? && d.published != d.now
    ensures var op := Op(d.me, At(d.now, d.me));
      var overtaken := Next(Next(Next(d, ReadNow), Edit(1)), Export(true));
      Times(overtaken.log, Sent, op) == 1 && Times(Next(overtaken, Publish(true)).log, Sent, op) == 2
  {
    var op := Op(d.me, At(d.now, d.me));
    UnknownIsUnexported(d, op);
    assert Times(d.log, Sent, op) == 0;
    OvertakenIsSentTwice(Next(Next(d, ReadNow), Edit(1)), op);
  }

  // ----- operations that arrive

  /** The operation is there at the second reading, and its peer has grown since the first. */
  predicate Counts(pre: Vector, post: Vector, op: Op) {
    Includes(post, op) && At(post, op.peer) > At(pre, op.peer)
  }

  /** The closing step of an import that counted the operation. */
  predicate TakesIn(d: Life, event: Event, op: Op) {
    || (event.Raise? && CanRaise(d, event.call) && Counts(d.imports[event.call].pre, d.imports[event.call].post, op))
    || (event.Apply? && d.mark.None? && Counts(d.now, Joined(d.now, event.update), op))
  }

  ghost predicate WasTakenIn(d: Life, events: seq<Event>, op: Op) {
    events != [] && (WasTakenIn(d, events[..|events| - 1], op) || TakesIn(Run(d, events[..|events| - 1]), events[|events| - 1], op))
  }

  /** An export is made before any import has taken the operation in. */
  ghost predicate IsExportedFirst(d: Life, events: seq<Event>, op: Op) {
    events != [] && (
      || IsExportedFirst(d, events[..|events| - 1], op)
      || (!WasTakenIn(d, events[..|events| - 1], op) && IsExport(Run(d, events[..|events| - 1]), events[|events| - 1])))
  }

  predicate HasNoRaise(events: seq<Event>, call: nat) {
    Raise(call) !in events
  }

  /** The call has put the operation into the document. */
  predicate HasArrived(d: Life, call: nat, pre: Vector, op: Op) {
    && Includes(d.now, op) && call in d.imports && d.imports[call].pre == pre
    && (d.imports[call].Imported? || (d.imports[call].Counted? && Includes(d.imports[call].post, op)))
  }

  lemma ArrivedStep(d: Life, event: Event, call: nat, pre: Vector, op: Op)
    requires HasArrived(d, call, pre, op) && event != Raise(call)
    ensures HasArrived(Next(d, event), call, pre, op)
  {
    if event.Import? || event.Apply? {
      JoinedAt(d.now, event.update, op.peer);
    }
  }

  lemma {:induction false} ArrivedRun(d: Life, events: seq<Event>, call: nat, pre: Vector, op: Op)
    requires HasArrived(d, call, pre, op) && HasNoRaise(events, call)
    ensures HasArrived(Run(d, events), call, pre, op)
  {
    if events != [] {
      var last := events[|events| - 1];
      assert last in events && HasNoRaise(events[..|events| - 1], call);
      ArrivedRun(d, events[..|events| - 1], call, pre, op);
      ArrivedStep(Run(d, events[..|events| - 1]), last, call, pre, op);
    }
  }

  /** In the document, and neither exported nor behind the watermark. */
  ghost predicate IsWaiting(d: Life, op: Op) {
    Includes(d.now, op) && !Includes(d.published, op) && Times(d.log, InExport, op) == 0
  }

  /** Behind the watermark without having been exported. */
  ghost predicate IsKeptIn(d: Life, op: Op) {
    Includes(d.published, op) && Times(d.log, InExport, op) == 0
  }

  lemma WaitingExport(d: Life, mark: Vector, connected: bool, op: Op)
    requires IsWaiting(d, op)
    ensures Times(ExportStep(d, mark, connected).log, InExport, op) > 0
  {
    LogGrows(d.log, Exported(d.published, mark, d.now, connected), InExport, op);
  }

  lemma WaitingRaise(d: Life, pre: Vector, post: Vector, op: Op)
    requires IsWaiting(d, op)
    ensures if Counts(pre, post, op) then IsKeptIn(RaiseStep(d, pre, post), op) else IsWaiting(RaiseStep(d, pre, post), op)
  {
    ExtendedAt(d.published, pre, post, op.peer);
    LogGrows(d.log, Absorbed(d.published, Extended(d.published, pre, post)), InExport, op);
  }

  lemma WaitingGrowth(d: Life, event: Event, op: Op)
    requires IsWaiting(d, op) && (event.Edit? || event.Import?)
    ensures IsWaiting(Next(d, event), op)
  {
    if event.Import? {
      JoinedAt(d.now, event.update, op.peer);
    }
  }

  /** What becomes of a waiting operation in one step: an export carries it, an import that counted it takes it in, and
      else it goes on waiting. */
  lemma WaitingStep(d: Life, event: Event, op: Op)
    requires IsWaiting(d, op)
    ensures IsExport(d, event) ==> Times(Next(d, event).log, InExport, op) > 0
    ensures TakesIn(d, event, op) ==> IsKeptIn(Next(d, event), op)
    ensures !IsExport(d, event) && !TakesIn(d, event, op) ==> IsWaiting(Next(d, event), op)
  {
    if IsExport(d, event) {
      WaitingExport(d, if event.Export? then d.mark.value else d.now, event.connected, op);
    } else if event.Raise? && CanRaise(d, event.call) {
      WaitingRaise(d, d.imports[event.call].pre, d.imports[event.call].post, op);
    } else if event.Apply? && d.mark.None? {
      JoinedAt(d.now, event.update, op.peer);
      WaitingRaise(d.(now := Joined(d.now, event.update)), d.now, Joined(d.now, event.update), op);
    } else if event.Edit? || event.Import? {
      WaitingGrowth(d, event, op);
    }
  }

  lemma {:induction false} RunAccounts(d: Life, events: seq<Event>)
    requires IsAccounted(d)
    ensures IsAccounted(Run(d, events))
  {
    if events != [] {
      RunAccounts(d, events[..|events| - 1]);
      StepAccounts(Run(d, events[..|events| - 1]), events[|events| - 1]);
    }
  }

  lemma KeptInStays(d: Life, event: Event, op: Op)
    requires IsAccounted(d) && IsKeptIn(d, op)
    ensures IsKeptIn(Next(d, event), op)
  {
    StepIsFinal(d, event, InExport, op);
  }

  /** What becomes of a waiting operation over a run. */
  lemma {:induction false} WaitingRun(d: Life, events: seq<Event>, op: Op)
    requires IsAccounted(d) && IsWaiting(d, op)
    ensures IsExportedFirst(d, events, op) ==> Times(Run(d, events).log, InExport, op) > 0
    ensures !IsExportedFirst(d, events, op) && WasTakenIn(d, events, op) ==> IsKeptIn(Run(d, events), op)
    ensures !IsExportedFirst(d, events, op) && !WasTakenIn(d, events, op) ==> IsWaiting(Run(d, events), op)
  {
    if events != [] {
      var front, last := events[..|events| - 1], events[|events| - 1];
      WaitingRun(d, front, op);
      RunAccounts(d, front);
      if IsExportedFirst(d, front, op) {
        StepOnlyAdds(Run(d, front), last, InExport, op);
      } else if WasTakenIn(d, front, op) {
        KeptInStays(Run(d, front), last, op);
      } else {
        WaitingStep(Run(d, front), last, op);
      }
    }
  }

  /** The closing step of the import that brought it keeps an operation in for good, unless it has been exported. */
  lemma RaiseTakesArrival(d: Life, call: nat, op: Op, events: seq<Event>)
    requires IsAccounted(d) && CanRaise(d, call) && Times(d.log, InExport, op) == 0
    requires Includes(d.imports[call].post, op) && !Includes(d.imports[call].pre, op)
    ensures Times(Run(Next(d, Raise(call)), events).log, InExport, op) == 0
  {
    var after := Next(d, Raise(call));
    ExtendedAt(d.published, d.imports[call].pre, d.imports[call].post, op.peer);
    LogGrows(d.log, Absorbed(d.published, after.published), InExport, op);
    StepAccounts(d, Raise(call));
    PassedIsFinal(after, events, InExport, op);
  }

  lemma ImportArrives(d: Life, call: nat, update: Vector, op: Op)
    requires IsAccounted(d) && call in d.imports && d.imports[call].Started? && !Includes(d.now, op) && Includes(update, op)
    ensures var from := Next(d, Import(call, update));
      IsAccounted(from) && IsWaiting(from, op) && HasArrived(from, call, d.imports[call].pre, op)
    ensures !Includes(d.imports[call].pre, op)
  {
    JoinedAt(d.now, update, op.peer);
    UnknownIsUnexported(d, op);
    assert ImportIsSound(d, call);
    assert At(d.published, op.peer) <= At(Settled(d), op.peer) <= At(d.now, op.peer) && At(d.imports[call].pre, op.peer) <= At(d.now, op.peer);
    StepAccounts(d, Import(call, update));
  }

  /** Where an arrival stands when the import that brought it comes to its closing step. */
  lemma ArrivalStands(d: Life, call: nat, update: Vector, during: seq<Event>, op: Op)
    requires IsAccounted(d) && call in d.imports && d.imports[call].Started? && !Includes(d.now, op) && Includes(update, op)
    requires HasNoRaise(during, call) && CanRaise(Run(Next(d, Import(call, update)), during), call)
    ensures var after := Run(Next(d, Import(call, update)), during);
      && IsAccounted(after) && Includes(after.imports[call].post, op) && !Includes(after.imports[call].pre, op)
      && (IsExportedFirst(Next(d, Import(call, update)), during, op) <==> Times(after.log, InExport, op) > 0)
  {
    var from := Next(d, Import(call, update));
    ImportArrives(d, call, update, op);
    ArrivedRun(from, during, call, d.imports[call].pre, op);
    WaitingRun(from, during, op);
    RunAccounts(from, during);
  }

  /** The closing step settles it: what has been exported has, and what has not never is. */
  lemma ClosedForGood(d: Life, call: nat, op: Op)
    requires IsAccounted(d) && CanRaise(d, call) && Includes(d.imports[call].post, op) && !Includes(d.imports[call].pre, op)
    ensures Times(d.log, InExport, op) == 0
      <==> forall events: seq<Event> :: Times(Run(Next(d, Raise(call)), events).log, InExport, op) == 0
  {
    if Times(d.log, InExport, op) > 0 {
      StepOnlyAdds(d, Raise(call), InExport, op);
      assert Times(Run(Next(d, Raise(call)), []).log, InExport, op) > 0;
    } else {
      forall events: seq<Event>
        ensures Times(Run(Next(d, Raise(call)), events).log, InExport, op) == 0
      {
        RaiseTakesArrival(d, call, op, events);
      }
    }
  }

  /** Whatever other imports are under way: an operation that arrives with an import is in no export, whatever follows,
      exactly when no export is made before an import, this or another, has taken the operation in. */
  lemma ArrivalStaysOutExactly(d: Life, call: nat, update: Vector, during: seq<Event>, op: Op)
    requires IsAccounted(d) && call in d.imports && d.imports[call].Started? && !Includes(d.now, op) && Includes(update, op)
    requires HasNoRaise(during, call) && CanRaise(Run(Next(d, Import(call, update)), during), call)
    ensures var after := Run(Next(d, Import(call, update)), during);
      !IsExportedFirst(Next(d, Import(call, update)), during, op)
      <==> forall events: seq<Event> :: Times(Run(Next(after, Raise(call)), events).log, InExport, op) == 0
  {
    ArrivalStands(d, call, update, during, op);
    ClosedForGood(Run(Next(d, Import(call, update)), during), call, op);
  }

  /** So a whole import keeps everything it brings out of every export. */
  lemma ArrivedIsNeverExported(d: Life, update: Vector, op: Op, events: seq<Event>)
    requires IsAccounted(d) && d.mark.None? && !Includes(d.now, op) && Includes(update, op)
    ensures Times(Run(Next(d, Apply(update)), events).log, InExport, op) == 0
  {
    UnknownIsUnexported(d, op);
    JoinedAt(d.now, update, op.peer);
    var joined := Joined(d.now, update);
    ExtendedAt(d.published, d.now, joined, op.peer);
    LogGrows(d.log, Absorbed(d.published, Extended(d.published, d.now, joined)), InExport, op);
    StepAccounts(d, Apply(update));
    PassedIsFinal(Next(d, Apply(update)), events, InExport, op);
  }

  // ----- what an export with no room, and an import's last step, keep from ever going out

  /** What an export made while no room is there passes with the watermark is not made up for later. */
  lemma UnsentIsNeverSent(d: Life, op: Op, events: seq<Event>)
    requires IsAccounted(d) && d.mark.Some? && Includes(d.mark.value, op) && !Includes(d.published, op)
    ensures Times(Run(Next(d, Export(false)), events).log, Sent, op) == Times(d.log, Sent, op)
  {
    LogGrows(d.log, Exported(d.published, d.mark.value, d.now, false), Sent, op);
    StepAccounts(d, Export(false));
    PassedIsFinal(Next(d, Export(false)), events, Sent, op);
  }

  /** A publish exports what the watermark has not passed. */
  lemma PublishExports(d: Life, connected: bool, op: Op)
    requires d.mark.None? && Includes(d.now, op) && !Includes(d.published, op)
    ensures Times(Next(d, Publish(connected)).log, InExport, op) == Times(d.log, InExport, op) + 1
  {
    LogGrows(d.log, Exported(d.published, d.now, d.now, connected), InExport, op);
  }

  /** An import's last step ends the exports of an operation not yet passed exactly when the operation was there at
      the second reading and its peer had grown since the first: an arrival, or an edit made in between. */
  lemma RaiseSwallowsExactly(d: Life, call: nat, op: Op)
    requires IsAccounted(d) && CanRaise(d, call) && Includes(d.now, op) && !Includes(d.published, op)
    ensures Counts(d.imports[call].pre, d.imports[call].post, op)
      <==> forall events: seq<Event> :: Times(Run(Next(d, Raise(call)), events).log, InExport, op) == Times(d.log, InExport, op)
  {
    var after := Next(d, Raise(call));
    ExtendedAt(d.published, d.imports[call].pre, d.imports[call].post, op.peer);
    LogGrows(d.log, Absorbed(d.published, after.published), InExport, op);
    StepAccounts(d, Raise(call));
    if Includes(after.published, op) {
      forall events: seq<Event>
        ensures Times(Run(after, events).log, InExport, op) == Times(d.log, InExport, op)
      {
        PassedIsFinal(after, events, InExport, op);
      }
    } else {
      PublishExports(after, true, op);
      RunOne(after, [], Publish(true));
      assert Times(Run(after, [] + [Publish(true)]).log, InExport, op) != Times(d.log, InExport, op);
    }
  }

  /** An import up to its second reading, with an edit made after the first. */
  function EditedImport(d: Life, call: nat, update: Vector): Life {
    Next(Next(Next(Next(d, ReadPre(call)), Edit(1)), Import(call, update)), ReadPost(call))
  }

  lemma EditedImportAccounts(d: Life, call: nat, update: Vector)
    requires IsAccounted(d)
    ensures IsAccounted(EditedImport(d, call, update))
  {
    StepAccounts(d, ReadPre(call));
    StepAccounts(Next(d, ReadPre(call)), Edit(1));
    StepAccounts(Next(Next(d, ReadPre(call)), Edit(1)), Import(call, update));
    StepAccounts(Next(Next(Next(d, ReadPre(call)), Edit(1)), Import(call, update)), ReadPost(call));
  }

  lemma EditedImportIs(d: Life, call: nat, update: Vector)
    requires call !in d.imports
    ensures var now := Joined(d.now[d.me := At(d.now, d.me) + 1], update);
      EditedImport(d, call, update) == d.(now := now, imports := d.imports[call := Counted(d.now, now)])
  {
    var edited := Next(Next(d, ReadPre(call)), Edit(1));
    assert edited == d.(now := d.now[d.me := At(d.now, d.me) + 1], imports := d.imports[call := Started(d.now)]);
    var imported := Next(edited, Import(call, update));
    assert imported == edited.(now := Joined(edited.now, update), imports := d.imports[call := Imported(d.now)]);
  }

  /** An edit made while an import is under way is lost to the room. */
  lemma EditDuringImportIsNeverExported(d: Life, call: nat, update: Vector, events: seq<Event>)
    requires IsAccounted(d) && call !in d.imports && d.mark.None?
    ensures var op := Op(d.me, At(d.now, d.me));
      && Includes(EditedImport(d, call, update).now, op) && !Includes(d.now, op)
      && Times(Run(Next(EditedImport(d, call, update), Raise(call)), events).log, InExport, op) == 0
  {
    var op := Op(d.me, At(d.now, d.me));
    EditedImportAccounts(d, call, update);
    EditedImportIs(d, call, update);
    JoinedAt(d.now[d.me := At(d.now, d.me) + 1], update, d.me);
    UnknownIsUnexported(d, op);
    RaiseTakesArrival(EditedImport(d, call, update), call, op, events);
  }

  // ----- this peer's own edits

  /** Publishes and imports happen at once, with no step of another thread inside them. */
  ghost predicate AreWhole(events: seq<Event>) {
    forall i | 0 <= i < |events| :: events[i].Edit? || events[i].Publish? || events[i].Apply?
  }

  /** No peer but this one writes under this peer's name. */
  ghost predicate IsRemote(d: Life, event: Event) {
    event.Apply? ==> At(event.update, d.me) <= At(d.now, d.me)
  }

  ghost predicate AreRemote(d: Life, events: seq<Event>) {
    forall i | 0 <= i < |events| :: IsRemote(Run(d, events[..i]), events[i])
  }

  ghost predicate IsPlain(d: Life, me: nat, op: Op) {
    d.me == me && d.mark.None? && d.imports == map[] && Times(d.log, Taken, op) == 0 && Times(d.log, Early, op) == 0
  }

  lemma ApplyIsPlain(d: Life, update: Vector, me: nat, op: Op)
    requires IsPlain(d, me, op) && op.peer == me && IsRemote(d, Apply(update))
    ensures IsPlain(RaiseStep(d.(now := Joined(d.now, update)), d.now, Joined(d.now, update)), me, op)
  {
    var last := Absorbed(d.published, Extended(d.published, d.now, Joined(d.now, update)));
    JoinedAt(d.now, update, d.me);
    ExtendedAt(d.published, d.now, Joined(d.now, update), d.me);
    LogGrows(d.log, last, Taken, op);
    LogGrows(d.log, last, Early, op);
  }

  lemma PublishIsPlain(d: Life, connected: bool, me: nat, op: Op)
    requires IsPlain(d, me, op)
    ensures IsPlain(ExportStep(d, d.now, connected), me, op)
  {
    LogGrows(d.log, Exported(d.published, d.now, d.now, connected), Taken, op);
    LogGrows(d.log, Exported(d.published, d.now, d.now, connected), Early, op);
  }

  lemma WholeStepIsPlain(d: Life, event: Event, me: nat, op: Op)
    requires IsPlain(d, me, op) && op.peer == me && IsRemote(d, event) && (event.Edit? || event.Publish? || event.Apply?)
    ensures IsPlain(Next(d, event), me, op)
  {
    if event.Apply? {
      ApplyIsPlain(d, event.update, me, op);
    } else if event.Publish? {
      PublishIsPlain(d, event.connected, me, op);
    }
  }

  lemma {:induction false} WholeRunIsPlain(me: nat, now: Vector, events: seq<Event>, op: Op)
    requires AreWhole(events) && AreRemote(Opened(me, now), events) && op.peer == me
    ensures IsPlain(Run(Opened(me, now), events), me, op)
  {
    if events != [] {
      var front, last := events[..|events| - 1], events[|events| - 1];
      assert AreRemote(Opened(me, now), front) by {
        assert forall i | 0 <= i < |front| :: front[..i] == events[..i] && front[i] == events[i];
      }
      WholeRunIsPlain(me, now, front, op);
      assert IsRemote(Run(Opened(me, now), events[..|events| - 1]), last);
      WholeStepIsPlain(Run(Opened(me, now), front), last, me, op);
    }
  }

  lemma PlainPublish(d: Life, connected: bool, me: nat, op: Op)
    requires IsAccounted(d) && IsPlain(d, me, op) && Includes(d.now, op)
    ensures Times(Next(d, Publish(connected)).log, InExport, op) == 1
  {
    assert IsOpAccounted(d, op);
    if !Includes(d.published, op) {
      PublishExports(d, connected, op);
    } else {
      StepIsFinal(d, Publish(connected), InExport, op);
    }
  }

  /** When publishes and imports are whole, a publish leaves every edit made here before it in exactly one export. */
  lemma OwnEditsAreExportedOnce(me: nat, now: Vector, events: seq<Event>, connected: bool, op: Op)
    requires AreWhole(events) && AreRemote(Opened(me, now), events) && op.peer == me
    requires Includes(Run(Opened(me, now), events).now, op)
    ensures Times(Next(Run(Opened(me, now), events), Publish(connected)).log, InExport, op) == 1
  {
    WholeRunIsPlain(me, now, events, op);
    EveryRunAccounts(me, now, events);
    PlainPublish(Run(Opened(me, now), events), connected, me, op);
  }
}
