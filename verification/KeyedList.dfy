/** The keyed-list diff: one scan over the old items with a running offset
    (crates/vt-mirror/src/diff.rs:366-495). */
module KeyedList {
  import opened Prelude
  import opened MirrorState
  import opened ListScript
  import MapDiff

  datatype ListResult = Ok(changes: seq<ListChange>) | Err(error: MapDiff.DiffError)

  type Id = Option<string>

  /** What the script makes of the old items from `i` on and the new items from `j` on: equal items and items with
      the same id meet, an old item is left where it is when it or its counterpart has no id or the new list has
      run out, and otherwise a new item is put in or an old one dropped. */
  function Merged(was: seq<Value>, goal: seq<Value>, oldIds: seq<Id>, newIds: seq<Id>, i: nat, j: nat): seq<Value>
    requires i <= |was| == |oldIds| && j <= |goal| == |newIds|
    decreases |was| - i + |goal| - j
  {
    if i == |was| then goal[j..]
    else if j < |goal| && was[i] == goal[j] then [goal[j]] + Merged(was, goal, oldIds, newIds, i + 1, j + 1)
    else if j == |goal| || oldIds[i].None? || newIds[j].None? then [was[i]] + Merged(was, goal, oldIds, newIds, i + 1, j)
    else if oldIds[i] == newIds[j] then [goal[j]] + Merged(was, goal, oldIds, newIds, i + 1, j + 1)
    else if newIds[j] !in oldIds then [goal[j]] + Merged(was, goal, oldIds, newIds, i, j + 1)
    else Merged(was, goal, oldIds, newIds, i + 1, j)
  }

  /** The same, slot by slot: an equal or passed item is still the stored one, of two items with the same id the stored
      one becomes the new one, and every other new item is inserted. */
  ghost predicate IsMerge(stored: seq<Slot>, goal: seq<Value>, oldIds: seq<Id>, newIds: seq<Id>, item: Option<Schema>, options: InferOptions,
                          i: nat, j: nat, list: seq<Slot>)
    requires i <= |stored| == |oldIds| && j <= |goal| == |newIds|
    decreases |stored| - i + |goal| - j
  {
    if i == |stored| then
      if j == |goal| then list == []
      else list != [] && IsRightSlot(item, goal[j], list[0]) && IsMerge(stored, goal, oldIds, newIds, item, options, i, j + 1, list[1..])
    else if j < |goal| && stored[i].Read() == goal[j] then
      list != [] && list[0] == stored[i] && IsMerge(stored, goal, oldIds, newIds, item, options, i + 1, j + 1, list[1..])
    else if j == |goal| || oldIds[i].None? || newIds[j].None? then
      list != [] && list[0] == stored[i] && IsMerge(stored, goal, oldIds, newIds, item, options, i + 1, j, list[1..])
    else if oldIds[i] == newIds[j] then
      list != [] && ItemBecomes(stored[i], goal[j], item, options, list[0])
      && IsMerge(stored, goal, oldIds, newIds, item, options, i + 1, j + 1, list[1..])
    else if newIds[j] !in oldIds then
      list != [] && IsRightSlot(item, goal[j], list[0]) && IsMerge(stored, goal, oldIds, newIds, item, options, i, j + 1, list[1..])
    else IsMerge(stored, goal, oldIds, newIds, item, options, i + 1, j, list)
  }

  /** Of some two items with the same id that meet, the stored one is a container whose own diff is refused. */
  ghost predicate MergeIsRefused(stored: seq<Slot>, goal: seq<Value>, oldIds: seq<Id>, newIds: seq<Id>, item: Option<Schema>,
                                 options: InferOptions, i: nat, j: nat)
    requires i <= |stored| == |oldIds| && j <= |goal| == |newIds|
    decreases |stored| - i + |goal| - j
  {
    if i == |stored| then false
    else if j < |goal| && stored[i].Read() == goal[j] then MergeIsRefused(stored, goal, oldIds, newIds, item, options, i + 1, j + 1)
    else if j == |goal| || oldIds[i].None? || newIds[j].None? then MergeIsRefused(stored, goal, oldIds, newIds, item, options, i + 1, j)
    else if oldIds[i] == newIds[j] then
      ItemIsRefused(stored[i], goal[j], item, options) || MergeIsRefused(stored, goal, oldIds, newIds, item, options, i + 1, j + 1)
    else if newIds[j] !in oldIds then MergeIsRefused(stored, goal, oldIds, newIds, item, options, i, j + 1)
    else MergeIsRefused(stored, goal, oldIds, newIds, item, options, i + 1, j)
  }

  /** Where the scan stands: the first `place` items of `reached` are dealt with, the rest are the old
      items from `index` on, untouched and still named by ids of their own. */
  ghost predicate IsAt(stored: seq<Slot>, reached: seq<Slot>, index: nat, place: nat) {
    && index <= |stored| && place <= |reached|
    && reached[place..] == stored[index..]
    && (forall i, j {:trigger reached[i], stored[j]} | 0 <= i < place && index <= j < |stored| && reached[i].Child? && stored[j].Child? ::
          reached[i].cid != stored[j].cid)
  }

  /** Overwriting or inserting at `place`, dropping the old item there, or passing it over. */
  lemma PutAt(stored: seq<Slot>, reached: seq<Slot>, index: nat, place: nat, slot: Slot, consumed: nat)
    requires IsStored(stored) && IsAt(stored, reached, index, place) && index + consumed <= |stored| && consumed <= 1
    requires slot.Child? && slot.cid.Some? ==> consumed == 1 && stored[index].Child? && stored[index].cid == slot.cid
    ensures var reached' := reached[..place] + [slot] + reached[place + consumed..];
      IsAt(stored, reached', index + consumed, place + 1) && reached'[..place + 1] == reached[..place] + [slot]
  {
  }

  lemma DropAt(stored: seq<Slot>, reached: seq<Slot>, index: nat, place: nat)
    requires IsStored(stored) && IsAt(stored, reached, index, place) && index < |stored|
    ensures place < |reached| && IsAt(stored, Without(reached, place), index + 1, place)
    ensures Without(reached, place)[..place] == reached[..place]
  {
  }

  /** The inputs of one diff. */
  datatype Job = Job(stored: seq<Slot>, goal: seq<Value>, selector: Selector, oldIds: seq<Option<string>>, newIds: seq<Option<string>>,
                     item: Option<Schema>, options: InferOptions, ghost regular: bool)
  {
    ghost predicate Valid() {
      && IsStored(stored)
      && |oldIds| == |stored| && |newIds| == |goal|
      && (forall i | 0 <= i < |stored| :: oldIds[i] == SelectId(selector, stored[i].Read()))
      && (forall j | 0 <= j < |goal| :: newIds[j] == SelectId(selector, goal[j]))
      && (regular ==> ItemsLand(stored, goal, selector, item, options))
    }

    /** What the script makes of the items not yet scanned. */
    ghost function Rest(index: nat, used: nat): seq<Value>
      requires Valid() && index <= |stored| && used <= |goal|
    {
      Merged(ReadAll(stored), goal, oldIds, newIds, index, used)
    }

    /** A list that merges the items not yet scanned. */
    ghost predicate Merges(index: nat, used: nat, list: seq<Slot>)
      requires Valid() && index <= |stored| && used <= |goal|
    {
      IsMerge(stored, goal, oldIds, newIds, item, options, index, used, list)
    }

    /** One of the items not yet scanned is refused. */
    ghost predicate Refuses(index: nat, used: nat)
      requires Valid() && index <= |stored| && used <= |goal|
    {
      MergeIsRefused(stored, goal, oldIds, newIds, item, options, index, used)
    }

    /** Whatever merges the items not yet scanned, put behind `front` it merges all of them. */
    ghost predicate Begins(front: seq<Slot>, index: nat, used: nat)
      requires Valid() && index <= |stored| && used <= |goal|
    {
      forall tail | Merges(index, used, tail) :: Merges(0, 0, front + tail)
    }

    /** What the scan has done so far. */
    ghost predicate IsScanned(changes: seq<ListChange>, reached: seq<Slot>, index: nat, place: nat, used: nat)
      requires Valid()
    {
      && RunAll(stored, item, options, changes) == Some(reached)
      && IsAt(stored, reached, index, place) && used <= |goal|
      && (regular ==> ReadAll(reached[..place]) + Rest(index, used) == Rest(0, 0))
      && Begins(reached[..place], index, used) && InsertsRight(item, changes)
    }
  }

  lemma PassAt(stored: seq<Slot>, reached: seq<Slot>, index: nat, place: nat)
    requires IsStored(stored) && IsAt(stored, reached, index, place) && index < |stored|
    ensures place < |reached| && reached[place] == stored[index] && IsAt(stored, reached, index + 1, place + 1)
    ensures reached[..place + 1] == reached[..place] + [reached[place]]
  {
    assert reached[place] == reached[place..][0] == stored[index];
    PutAt(stored, reached, index, place, stored[index], 1);
    assert reached == reached[..place] + [stored[index]] + reached[place + 1..];
  }

  /** The slot settled next, in front of whatever merges the rest. */
  ghost predicate Continues(job: Job, index: nat, used: nat, slot: Slot, index': nat, used': nat)
    requires job.Valid() && index <= |job.stored| && used <= |job.goal| && index' <= |job.stored| && used' <= |job.goal|
  {
    forall tail | job.Merges(index', used', tail) :: job.Merges(index, used, [slot] + tail)
  }

  lemma BeginsOneMore(job: Job, front: seq<Slot>, index: nat, used: nat, slot: Slot, index': nat, used': nat)
    requires job.Valid() && index <= |job.stored| && used <= |job.goal| && index' <= |job.stored| && used' <= |job.goal|
    requires job.Begins(front, index, used) && Continues(job, index, used, slot, index', used')
    ensures job.Begins(front + [slot], index', used')
  {
    forall tail | job.Merges(index', used', tail)
      ensures job.Merges(0, 0, front + [slot] + tail)
    {
      assert job.Merges(index, used, [slot] + tail);
      assert front + [slot] + tail == front + ([slot] + tail);
    }
  }

  /** A slot that may stand next. */
  ghost predicate IsNext(job: Job, index: nat, used: nat, slot: Slot, index': nat, used': nat)
    requires job.Valid() && index <= |job.stored| && used <= |job.goal|
  {
    if index == |job.stored| then used < |job.goal| && IsRightSlot(job.item, job.goal[used], slot) && (index', used') == (index, used + 1)
    else if used < |job.goal| && job.stored[index].Read() == job.goal[used] then slot == job.stored[index] && (index', used') == (index + 1, used + 1)
    else if used == |job.goal| || job.oldIds[index].None? || job.newIds[used].None? then
      slot == job.stored[index] && (index', used') == (index + 1, used)
    else if job.oldIds[index] == job.newIds[used] then
      ItemBecomes(job.stored[index], job.goal[used], job.item, job.options, slot) && (index', used') == (index + 1, used + 1)
    else job.newIds[used] !in job.oldIds && IsRightSlot(job.item, job.goal[used], slot) && (index', used') == (index, used + 1)
  }

  /** The next new item is put in: the old items have run out, or it has an id, another one than the next old item, and
      no old item has it. */
  predicate TakesNew(job: Job, index: nat, used: nat)
    requires |job.oldIds| == |job.stored| && |job.newIds| == |job.goal| && index <= |job.stored| && used < |job.goal|
  {
    index == |job.stored| || (job.stored[index].Read() != job.goal[used] && job.oldIds[index].Some? && job.newIds[used].Some?
                              && job.newIds[used] !in job.oldIds)
  }

  lemma NextContinues(job: Job, index: nat, used: nat, slot: Slot, index': nat, used': nat)
    requires job.Valid() && index <= |job.stored| && used <= |job.goal|
    requires IsNext(job, index, used, slot, index', used')
    ensures index' <= |job.stored| && used' <= |job.goal| && Continues(job, index, used, slot, index', used')
  {
    forall tail | job.Merges(index', used', tail)
      ensures job.Merges(index, used, [slot] + tail)
    {
      assert ([slot] + tail)[0] == slot && ([slot] + tail)[1..] == tail;
    }
  }

  /** One item was settled at `place`. */
  lemma Settled(job: Job, changes: seq<ListChange>, reached: seq<Slot>, index: nat, place: nat, used: nat,
                changes': seq<ListChange>, reached': seq<Slot>, index': nat, used': nat)
    requires job.Valid() && used <= used' <= |job.goal| && index <= index' <= |job.stored|
    requires job.IsScanned(changes, reached, index, place, used)
    requires RunAll(job.stored, job.item, job.options, changes') == Some(reached') && IsAt(job.stored, reached', index', place + 1)
    requires reached'[..place + 1] == reached[..place] + [reached'[place]]
    requires job.regular ==> job.Rest(index, used) == [reached'[place].Read()] + job.Rest(index', used')
    requires IsNext(job, index, used, reached'[place], index', used') && InsertsRight(job.item, changes')
    ensures job.IsScanned(changes', reached', index', place + 1, used')
  {
    NextContinues(job, index, used, reached'[place], index', used');
    if job.regular {
      ReadsOneMore(reached[..place], reached'[place], job.Rest(index', used'));
    }
    BeginsOneMore(job, reached[..place], index, used, reached'[place], index', used');
  }

  lemma ReadsOneMore(front: seq<Slot>, slot: Slot, rest: seq<Value>)
    ensures ReadAll(front + [slot]) + rest == ReadAll(front) + ([slot.Read()] + rest)
  {
    assert ReadAll(front + [slot]) == ReadAll(front) + [slot.Read()];
  }

  /** The next old and new items are equal: nothing to do. */
  lemma Keep(job: Job, changes: seq<ListChange>, reached: seq<Slot>, index: nat, place: nat, used: nat)
    requires job.Valid() && index < |job.stored| && used < |job.goal|
    requires job.IsScanned(changes, reached, index, place, used)
    requires job.stored[index].Read() == job.goal[used]
    ensures job.IsScanned(changes, reached, index + 1, place + 1, used + 1)
  {
    PassAt(job.stored, reached, index, place);
    Settled(job, changes, reached, index, place, used, changes, reached, index + 1, used + 1);
  }

  /** An old item is left where it is: one of the two has no id, or the new list has run out. */
  lemma PassOver(job: Job, changes: seq<ListChange>, reached: seq<Slot>, index: nat, place: nat, used: nat)
    requires job.Valid() && index < |job.stored|
    requires job.IsScanned(changes, reached, index, place, used)
    requires used == |job.goal| || (job.stored[index].Read() != job.goal[used] && (job.oldIds[index].None? || job.newIds[used].None?))
    ensures job.IsScanned(changes, reached, index + 1, place + 1, used)
  {
    PassAt(job.stored, reached, index, place);
    Settled(job, changes, reached, index, place, used, changes, reached, index + 1, used);
  }

  /** The next old item is dropped: both have ids, and another old item has the new one's. */
  predicate DropsOld(job: Job, index: nat, used: nat)
    requires |job.oldIds| == |job.stored| && |job.newIds| == |job.goal| && index < |job.stored| && used < |job.goal|
  {
    job.stored[index].Read() != job.goal[used] && job.oldIds[index].Some? && job.newIds[used].Some?
    && job.oldIds[index] != job.newIds[used] && job.newIds[used] in job.oldIds
  }

  lemma BeginsDrop(job: Job, front: seq<Slot>, index: nat, used: nat)
    requires job.Valid() && index < |job.stored| && used < |job.goal| && DropsOld(job, index, used)
    requires job.Begins(front, index, used)
    ensures job.Begins(front, index + 1, used)
  {
    forall tail | job.Merges(index + 1, used, tail)
      ensures job.Merges(0, 0, front + tail)
    {
      assert job.Merges(index, used, tail);
    }
  }

  lemma Drop(job: Job, changes: seq<ListChange>, reached: seq<Slot>, index: nat, place: nat, used: nat)
    requires job.Valid() && index < |job.stored| && used < |job.goal|
    requires job.IsScanned(changes, reached, index, place, used)
    requires DropsOld(job, index, used)
    ensures place < |reached|
    ensures job.IsScanned(changes + [DeleteAt(place)], Without(reached, place), index + 1, place, used)
  {
    BeginsDrop(job, reached[..place], index, used);
    DropAt(job.stored, reached, index, place);
    RunOneMore(job.stored, job.item, job.options, changes, DeleteAt(place));
  }

  lemma RestTakesNew(job: Job, index: nat, used: nat)
    requires job.Valid() && index <= |job.stored| && used < |job.goal| && TakesNew(job, index, used)
    ensures job.Rest(index, used) == [job.goal[used]] + job.Rest(index, used + 1)
  {
    if index == |job.stored| {
      assert job.goal[used..] == [job.goal[used]] + job.goal[used + 1..];
    }
  }

  /** The insert of the next new item at the current place. */
  method InsertNext(job: Job, changes: seq<ListChange>, ghost reached: seq<Slot>, ghost index: nat, place: nat, used: nat)
    returns (changes': seq<ListChange>, ghost reached': seq<Slot>)
    requires job.Valid() && used < |job.goal|
    requires job.IsScanned(changes, reached, index, place, used)
    requires index <= |job.stored| && TakesNew(job, index, used)
    ensures job.IsScanned(changes', reached', index, place + 1, used + 1)
  {
    RestTakesNew(job, index, used);
    var v := job.goal[used];
    var child := ChildType(job.item, v);
    changes' := changes + [InsertAt(place, v, child)];
    var slot := NewSlot(job.item, job.options, v, child);
    reached' := With(reached, place, slot);
    RunOneMore(job.stored, job.item, job.options, changes, InsertAt(place, v, child));
    PutAt(job.stored, reached, index, place, slot, 0);
    assert v in job.goal;
    NewSlotReads(job.item, job.options, v);
    Settled(job, changes, reached, index, place, used, changes', reached', index, used + 1);
  }

  /** The changes for two items with the same id: a container is edited in place, a plain value replaced. */
  method DiffSameId(job: Job, index: nat, used: nat, place: nat, ghost reached: seq<Slot>) returns (r: ListResult, ghost after: seq<Slot>)
    requires job.Valid() && IsAt(job.stored, reached, index, place) && index < |job.stored| && used < |job.goal|
    requires job.oldIds[index].Some? && job.oldIds[index] == job.newIds[used] && job.stored[index].Read() != job.goal[used]
    ensures r.Ok? ==> RunAll(reached, job.item, job.options, r.changes) == Some(after)
    ensures r.Ok? ==> IsAt(job.stored, after, index + 1, place + 1) && after[..place + 1] == reached[..place] + [after[place]]
    ensures r.Ok? ==> ItemBecomes(job.stored[index], job.goal[used], job.item, job.options, after[place]) && InsertsRight(job.item, r.changes)
    ensures r.Err? <==> ItemIsRefused(job.stored[index], job.goal[used], job.item, job.options)
    ensures job.regular ==> r.Ok? && after[place].Read() == job.goal[used]
  {
    var slot, v := job.stored[index], job.goal[used];
    assert slot in job.stored && v in job.goal && reached[place] == reached[place..][0] == slot;
    if slot.Child? {
      assert IsNested(slot, v, job.selector);
      var nested := MapDiff.DiffContainer(slot.node, slot.node.Read(), v, [], job.item, job.options);
      if nested.Err? {
        return Err(nested.error), reached;
      }
      r := Ok(Nest(slot.cid.value, nested.changes));
      after := EditAt(job.stored, reached, index, place, job.item, job.options, nested.changes);
    } else {
      var child := ChildType(job.item, v);
      r := Ok([DeleteAt(place), InsertAt(place, v, child)]);
      after := ReplaceAt(job.stored, reached, index, place, job.item, job.options, v);
      NewSlotReads(job.item, job.options, v);
    }
  }

  lemma EditAt(stored: seq<Slot>, reached: seq<Slot>, index: nat, place: nat, item: Option<Schema>, options: InferOptions,
               changes: seq<MapDiff.Change>) returns (after: seq<Slot>)
    requires IsStored(stored) && IsAt(stored, reached, index, place) && index < |stored| && stored[index].Child?
    ensures RunAll(reached, item, options, Nest(stored[index].cid.value, changes)) == Some(after)
    ensures IsAt(stored, after, index + 1, place + 1) && after[..place + 1] == reached[..place] + [after[place]]
    ensures after[place] == stored[index].(node := MapDiff.ApplyAll(stored[index].node, item, options, changes, 0))
  {
    var slot := stored[index];
    assert forall i | place <= i < |reached| :: reached[i] == reached[place..][i - place] == stored[index + i - place];
    NestedEditsOneItem(reached, item, options, place, slot.cid.value, changes);
    var edited := slot.(node := MapDiff.ApplyAll(slot.node, item, options, changes, 0));
    after := reached[place := edited];
    PutAt(stored, reached, index, place, edited, 1);
    assert after == reached[..place] + [edited] + reached[place + 1..];
  }

  lemma ReplaceAt(stored: seq<Slot>, reached: seq<Slot>, index: nat, place: nat, item: Option<Schema>, options: InferOptions, v: Value)
    returns (after: seq<Slot>)
    requires IsStored(stored) && IsAt(stored, reached, index, place) && index < |stored|
    ensures RunAll(reached, item, options, [DeleteAt(place), InsertAt(place, v, ChildType(item, v))]) == Some(after)
    ensures IsAt(stored, after, index + 1, place + 1) && after[..place + 1] == reached[..place] + [after[place]]
    ensures after[place] == NewSlot(item, options, v, ChildType(item, v))
  {
    var made := NewSlot(item, options, v, ChildType(item, v));
    after := With(Without(reached, place), place, made);
    PutAt(stored, reached, index, place, made, 1);
    assert after == reached[..place] + [made] + reached[place + 1..];
    RunTwo(reached, item, options, DeleteAt(place), InsertAt(place, v, ChildType(item, v)));
  }

  lemma SameSettles(job: Job, changes: seq<ListChange>, reached: seq<Slot>, index: nat, place: nat, used: nat,
                    more: seq<ListChange>, after: seq<Slot>)
    requires job.Valid() && index < |job.stored| && used < |job.goal|
    requires job.IsScanned(changes, reached, index, place, used)
    requires job.oldIds[index].Some? && job.oldIds[index] == job.newIds[used] && job.stored[index].Read() != job.goal[used]
    requires RunAll(reached, job.item, job.options, more) == Some(after)
    requires IsAt(job.stored, after, index + 1, place + 1) && after[..place + 1] == reached[..place] + [after[place]]
    requires ItemBecomes(job.stored[index], job.goal[used], job.item, job.options, after[place]) && InsertsRight(job.item, more)
    requires job.regular ==> after[place].Read() == job.goal[used]
    ensures job.IsScanned(changes + more, after, index + 1, place + 1, used + 1)
  {
    RunAllAppends(job.stored, job.item, job.options, changes, more);
    Settled(job, changes, reached, index, place, used, changes + more, after, index + 1, used + 1);
  }

  /** One turn of the scan: it goes on from `index` and `used`, or an item is refused. */
  ghost predicate IsTurn(job: Job, r: ListResult, reached': seq<Slot>, index: nat, used: nat, index': nat, place': nat, used': nat)
    requires job.Valid() && index <= |job.stored| && used <= |job.goal|
  {
    && (r.Ok? ==>
        && index <= index' <= |job.stored| && used <= used' <= |job.goal| && index + used < index' + used'
        && job.IsScanned(r.changes, reached', index', place', used')
        && (job.Refuses(index, used) <==> job.Refuses(index', used')))
    && (r.Err? ==> job.Refuses(index, used))
    && (job.regular ==> r.Ok?)
  }

  /** Two items with the same id meet. */
  method ScanSame(job: Job, changes: seq<ListChange>, ghost reached: seq<Slot>, index: nat, place: nat, used: nat)
    returns (r: ListResult, ghost reached': seq<Slot>)
    requires job.Valid() && index < |job.stored| && used < |job.goal|
    requires job.IsScanned(changes, reached, index, place, used)
    requires job.oldIds[index].Some? && job.oldIds[index] == job.newIds[used] && job.stored[index].Read() != job.goal[used]
    ensures IsTurn(job, r, reached', index, used, index + 1, place + 1, used + 1)
  {
    r, reached' := DiffSameId(job, index, used, place, reached);
    if r.Ok? {
      SameSettles(job, changes, reached, index, place, used, r.changes, reached');
      r := Ok(changes + r.changes);
    }
  }

  /** The two items both have ids, and different ones. */
  method ScanClash(job: Job, changes: seq<ListChange>, ghost reached: seq<Slot>, index: nat, place: nat, used: nat)
    returns (changes': seq<ListChange>, index': nat, place': nat, used': nat, ghost reached': seq<Slot>)
    requires job.Valid() && index < |job.stored| && used < |job.goal|
    requires job.IsScanned(changes, reached, index, place, used)
    requires job.oldIds[index].Some? && job.newIds[used].Some? && job.oldIds[index] != job.newIds[used]
    requires job.stored[index].Read() != job.goal[used]
    ensures IsTurn(job, Ok(changes'), reached', index, used, index', place', used')
  {
    if job.newIds[used] !in job.oldIds {
      changes', reached' := InsertNext(job, changes, reached, index, place, used);
      index', place', used' := index, place + 1, used + 1;
    } else {
      Drop(job, changes, reached, index, place, used);
      changes', reached' := changes + [DeleteAt(place)], Without(reached, place);
      index', place', used' := index + 1, place, used;
    }
  }

  /** One turn of the scan: settles a new item, drops an old one, or passes it over. */
  method ScanOne(job: Job, changes: seq<ListChange>, ghost reached: seq<Slot>, index: nat, place: nat, used: nat)
    returns (r: ListResult, index': nat, place': nat, used': nat, ghost reached': seq<Slot>)
    requires job.Valid() && index < |job.stored| && used <= |job.goal|
    requires job.IsScanned(changes, reached, index, place, used)
    ensures IsTurn(job, r, reached', index, used, index', place', used')
  {
    var newId := if used < |job.goal| then job.newIds[used] else None;
    if used < |job.goal| && job.stored[index].Read() == job.goal[used] {
      Keep(job, changes, reached, index, place, used);
      return Ok(changes), index + 1, place + 1, used + 1, reached;
    }
    r, index', place', used', reached' := ScanUnequal(job, changes, reached, index, place, used, newId);
  }

  lemma PassTurn(job: Job, changes: seq<ListChange>, reached: seq<Slot>, index: nat, place: nat, used: nat)
    requires job.Valid() && index < |job.stored| && used <= |job.goal|
    requires job.IsScanned(changes, reached, index, place, used)
    requires used == |job.goal| || (job.stored[index].Read() != job.goal[used] && (job.oldIds[index].None? || job.newIds[used].None?))
    ensures IsTurn(job, Ok(changes), reached, index, used, index + 1, place + 1, used)
  {
    PassOver(job, changes, reached, index, place, used);
  }

  /** The items differ: one of them may have no id, they may share one, or they clash. */
  method ScanUnequal(job: Job, changes: seq<ListChange>, ghost reached: seq<Slot>, index: nat, place: nat, used: nat, newId: Id)
    returns (r: ListResult, index': nat, place': nat, used': nat, ghost reached': seq<Slot>)
    requires job.Valid() && index < |job.stored| && used <= |job.goal|
    requires used < |job.goal| ==> job.stored[index].Read() != job.goal[used]
    requires newId == if used < |job.goal| then job.newIds[used] else None
    requires job.IsScanned(changes, reached, index, place, used)
    ensures IsTurn(job, r, reached', index, used, index', place', used')
  {
    if job.oldIds[index].None? || newId.None? {
      PassTurn(job, changes, reached, index, place, used);
      return Ok(changes), index + 1, place + 1, used, reached;
    }
    if job.oldIds[index] == newId {
      r, reached' := ScanSame(job, changes, reached, index, place, used);
      return r, index + 1, place + 1, used + 1, reached';
    }
    var more;
    more, index', place', used', reached' := ScanClash(job, changes, reached, index, place, used);
    return Ok(more), index', place', used', reached';
  }

  lemma BeginsAtStart(job: Job)
    requires job.Valid()
    ensures job.IsScanned([], job.stored, 0, 0, 0)
  {
    assert forall tail: seq<Slot> :: job.stored[..0] + tail == tail;
    assert ReadAll(job.stored[..0]) + job.Rest(0, 0) == job.Rest(0, 0);
  }

  /** Walks the old list: the new items used up on the way, and the place reached. */
  method ScanOld(job: Job) returns (r: ListResult, place: nat, used: nat, ghost reached: seq<Slot>)
    requires job.Valid()
    ensures r.Ok? ==> used <= |job.goal| && job.IsScanned(r.changes, reached, |job.stored|, place, used)
    ensures r.Err? <==> job.Refuses(0, 0)
    ensures job.regular ==> r.Ok?
  {
    var index: nat, offset := 0, 0;
    r, place, used, reached := Ok([]), 0, 0, job.stored;
    BeginsAtStart(job);
    while index < |job.stored|
      invariant index <= |job.stored| && place == index + offset && used <= |job.goal| && r.Ok?
      invariant job.IsScanned(r.changes, reached, index, place, used)
      invariant job.Refuses(0, 0) <==> job.Refuses(index, used)
      decreases |job.stored| - index + |job.goal| - used
    {
      r, index, place, used, reached := ScanOne(job, r.changes, reached, index, index + offset, used);
      if r.Err? {
        return;
      }
      offset := place - index;
    }
  }

  /** Appends the new items that are left; the scan then stands at the end of both lists. */
  method AppendNew(job: Job, start: seq<ListChange>, ghost was: seq<Slot>, from: nat, first: nat)
    returns (r: ListResult, ghost reached: seq<Slot>)
    requires job.Valid() && first <= |job.goal| && job.IsScanned(start, was, |job.stored|, from, first)
    ensures r.Ok? && RunAll(job.stored, job.item, job.options, r.changes) == Some(reached)
    ensures job.Merges(0, 0, reached) && InsertsRight(job.item, r.changes)
    ensures job.regular ==> ReadAll(reached) == job.Rest(0, 0)
  {
    var place, used, changes := from, first, start;
    reached := was;
    while used < |job.goal|
      invariant used <= |job.goal| && job.IsScanned(changes, reached, |job.stored|, place, used)
    {
      changes, reached := InsertNext(job, changes, reached, |job.stored|, place, used);
      place, used := place + 1, used + 1;
    }
    AtEnd(job, changes, reached, place);
    r := Ok(changes);
  }

  lemma AtEnd(job: Job, changes: seq<ListChange>, reached: seq<Slot>, place: nat)
    requires job.Valid() && job.IsScanned(changes, reached, |job.stored|, place, |job.goal|)
    ensures job.Merges(0, 0, reached)
    ensures job.regular ==> ReadAll(reached) == job.Rest(0, 0)
  {
    assert reached[..place] == reached;
    assert job.Merges(|job.stored|, |job.goal|, []) && reached + [] == reached;
    assert ReadAll(reached) + [] == ReadAll(reached);
  }
}
