/** The list diff without ids: place by place, then a tail of deletions or insertions
    (crates/vt-mirror/src/diff.rs:498-574). The deletions come in ascending order, and the mirror runs them
    one by one (crates/vt-mirror/src/mirror.rs:572-580). */
module PositionalList {
  import opened Prelude
  import opened MirrorState
  import opened ListScript
  import MapDiff

  datatype PositionalResult = Ok(changes: seq<ListChange>) | Err(error: MapDiff.DiffError)

  /** The script brings place `i` to its new item: nothing to do, an edit that lands, or an insert that keeps its value. */
  predicate PlaceLands(stored: seq<Slot>, goal: seq<Value>, i: nat, item: Option<Schema>, options: InferOptions)
    requires i < |goal|
  {
    if i >= |stored| then IsKeptWhole(item, options, goal[i])
    else if stored[i].Read() == goal[i] then true
    else if stored[i].Child? then MapDiff.Lands(stored[i].node, goal[i], item, options)
    else IsKeptWhole(item, options, goal[i])
  }

  ghost predicate AllLand(stored: seq<Slot>, goal: seq<Value>, item: Option<Schema>, options: InferOptions) {
    forall i: nat | i < |goal| :: PlaceLands(stored, goal, i, item, options)
  }

  /** Each place's item is brought to its new value where it is stored, and the items behind are inserted as what they
      should be. */
  ghost predicate PlacesBecome(stored: seq<Slot>, goal: seq<Value>, list: seq<Slot>, item: Option<Schema>, options: InferOptions) {
    && |list| == |goal|
    && (forall i: nat | i < |goal| && i < |stored| :: ItemBecomes(stored[i], goal[i], item, options, list[i]))
    && (forall i: nat | |stored| <= i < |goal| :: IsRightSlot(item, goal[i], list[i]))
  }

  /** The first `n` places are dealt with, the rest still hold the old slots. */
  ghost predicate IsUpdatedTo(stored: seq<Slot>, goal: seq<Value>, list: seq<Slot>, n: nat, item: Option<Schema>, options: InferOptions) {
    && n <= |goal| && n <= |stored| == |list|
    && (forall i: nat | i < n :: list[i].Read() == goal[i] <==> PlaceLands(stored, goal, i, item, options))
    && (forall i: nat | i < n :: ItemBecomes(stored[i], goal[i], item, options, list[i]))
    && (forall i | n <= i < |list| :: list[i] == stored[i])
    && (forall i | 0 <= i < n && list[i].Child? && list[i].cid.Some? :: stored[i].Child? && list[i].cid == stored[i].cid)
  }

  lemma UpdateNext(stored: seq<Slot>, goal: seq<Value>, list: seq<Slot>, n: nat, slot: Slot, item: Option<Schema>, options: InferOptions)
    requires IsUpdatedTo(stored, goal, list, n, item, options) && n < |goal| && n < |stored|
    requires slot.Read() == goal[n] <==> PlaceLands(stored, goal, n, item, options)
    requires ItemBecomes(stored[n], goal[n], item, options, slot)
    requires slot.Child? && slot.cid.Some? ==> stored[n].Child? && slot.cid == stored[n].cid
    ensures IsUpdatedTo(stored, goal, list[n := slot], n + 1, item, options)
  {
  }

  method UpdatePlace(stored: seq<Slot>, goal: seq<Value>, n: nat, item: Option<Schema>, options: InferOptions, ghost list: seq<Slot>)
    returns (r: PositionalResult, ghost list': seq<Slot>)
    requires IsStored(stored) && n < |stored| && n < |goal| && IsUpdatedTo(stored, goal, list, n, item, options)
    ensures r.Ok? ==> RunAll(list, item, options, r.changes) == Some(list') && IsUpdatedTo(stored, goal, list', n + 1, item, options)
    ensures r.Ok? ==> InsertsRight(item, r.changes)
    ensures r.Err? ==> !PlaceLands(stored, goal, n, item, options)
    ensures r.Err? <==> ItemIsRefused(stored[n], goal[n], item, options)
  {
    var slot, v := stored[n], goal[n];
    list' := list;
    if slot.Read() == v {
      r := Ok([]);
      UpdateNext(stored, goal, list, n, slot, item, options);
      assert list[n := slot] == list;
    } else if slot.Child? {
      var nested := MapDiff.DiffContainer(slot.node, slot.node.Read(), v, [], item, options);
      if nested.Err? {
        return Err(nested.error), list;
      }
      r := Ok(Nest(slot.cid.value, nested.changes));
      NestedEditsOneItem(list, item, options, n, slot.cid.value, nested.changes);
      var edited := slot.(node := MapDiff.ApplyAll(slot.node, item, options, nested.changes, 0));
      UpdateNext(stored, goal, list, n, edited, item, options);
      list' := list[n := edited];
    } else {
      var child := ChildType(item, v);
      r := Ok([DeleteAt(n), InsertAt(n, v, child)]);
      ChildIsRight(item, v);
      list' := Remade(stored, goal, list, n, item, options);
    }
  }

  /** A plain item deleted and inserted anew. */
  lemma Remade(stored: seq<Slot>, goal: seq<Value>, list: seq<Slot>, n: nat, item: Option<Schema>, options: InferOptions) returns (after: seq<Slot>)
    requires n < |stored| && n < |goal| && IsUpdatedTo(stored, goal, list, n, item, options)
    requires stored[n].Read() != goal[n] && !stored[n].Child?
    ensures RunAll(list, item, options, [DeleteAt(n), InsertAt(n, goal[n], ChildType(item, goal[n]))]) == Some(after)
    ensures IsUpdatedTo(stored, goal, after, n + 1, item, options)
  {
    var v := goal[n];
    var made := NewSlot(item, options, v, ChildType(item, v));
    NewSlotReads(item, options, v);
    UpdateNext(stored, goal, list, n, made, item, options);
    RunTwo(list, item, options, DeleteAt(n), InsertAt(n, v, ChildType(item, v)));
    assert With(Without(list, n), n, made) == list[n := made];
    after := list[n := made];
  }

  // ----- the tail

  function AscendingDeletes(start: nat, count: nat): seq<ListChange> {
    if count == 0 then [] else AscendingDeletes(start, count - 1) + [DeleteAt(start + count - 1)]
  }

  lemma {:induction false} DeletesShorten(list: seq<Slot>, start: nat, count: nat, item: Option<Schema>, options: InferOptions)
    ensures var r := RunAll(list, item, options, AscendingDeletes(start, count)); r.Some? ==> |r.value| + count == |list|
  {
    if count > 0 {
      RunOneMore(list, item, options, AscendingDeletes(start, count - 1), DeleteAt(start + count - 1));
      DeletesShorten(list, start, count - 1, item, options);
    }
  }

  /** Deleting a tail in ascending order leaves the list as soon as the tail is longer than one item. */
  lemma AscendingDeletesFit(list: seq<Slot>, start: nat, count: nat, item: Option<Schema>, options: InferOptions)
    requires |list| == start + count
    ensures RunAll(list, item, options, AscendingDeletes(start, count)) == if count <= 1 then Some(list[..start]) else None
  {
    if count == 0 {
      assert list[..start] == list;
    } else {
      RunOneMore(list, item, options, AscendingDeletes(start, count - 1), DeleteAt(start + count - 1));
      DeletesShorten(list, start, count - 1, item, options);
      if count == 1 {
        assert Without(list, start) == list[..start];
      }
    }
  }

  function Appends(goal: seq<Value>, start: nat, count: nat, item: Option<Schema>): seq<ListChange>
    requires start + count <= |goal|
  {
    if count == 0 then []
    else
      var v := goal[start + count - 1];
      Appends(goal, start, count - 1, item) + [InsertAt(start + count - 1, v, ChildType(item, v))]
  }

  /** The list, followed by items that read as the new ones wherever these keep their value. */
  ghost predicate IsGrown(list: seq<Slot>, goal: seq<Value>, longer: seq<Slot>, item: Option<Schema>, options: InferOptions) {
    && list <= longer && |longer| <= |goal|
    && (forall k: nat | |list| <= k < |longer| :: longer[k].Read() == goal[k] <==> IsKeptWhole(item, options, goal[k]))
    && (forall k: nat | |list| <= k < |longer| :: IsRightSlot(item, goal[k], longer[k]))
  }

  /** One more item appended where the list ends. */
  lemma AppendOne(front: seq<Slot>, goal: seq<Value>, k: nat, item: Option<Schema>, options: InferOptions) returns (made: Slot)
    requires k == |front| && k < |goal|
    ensures Run(front, item, options, InsertAt(k, goal[k], ChildType(item, goal[k]))) == Some(front + [made])
    ensures made.Read() == goal[k] <==> IsKeptWhole(item, options, goal[k])
    ensures IsRightSlot(item, goal[k], made)
  {
    made := NewSlot(item, options, goal[k], ChildType(item, goal[k]));
    NewSlotReads(item, options, goal[k]);
    assert With(front, k, made) == front + [made];
  }

  lemma GrowOne(list: seq<Slot>, goal: seq<Value>, front: seq<Slot>, made: Slot, item: Option<Schema>, options: InferOptions)
    requires IsGrown(list, goal, front, item, options) && |front| < |goal|
    requires made.Read() == goal[|front|] <==> IsKeptWhole(item, options, goal[|front|])
    requires IsRightSlot(item, goal[|front|], made)
    ensures IsGrown(list, goal, front + [made], item, options)
  {
  }

  lemma AppendsOneMore(list: seq<Slot>, goal: seq<Value>, count: nat, front: seq<Slot>, item: Option<Schema>, options: InferOptions)
    returns (longer: seq<Slot>)
    requires count > 0 && |list| + count <= |goal| && |front| == |list| + count - 1 && IsGrown(list, goal, front, item, options)
    requires RunAll(list, item, options, Appends(goal, |list|, count - 1, item)) == Some(front)
    ensures RunAll(list, item, options, Appends(goal, |list|, count, item)) == Some(longer)
    ensures IsGrown(list, goal, longer, item, options) && |longer| == |list| + count
  {
    var k := |list| + count - 1;
    var made := AppendOne(front, goal, k, item, options);
    longer := front + [made];
    GrowOne(list, goal, front, made, item, options);
    calc {
      RunAll(list, item, options, Appends(goal, |list|, count, item));
    == { AppendsUnfold(goal, |list|, count, item); }
      RunAll(list, item, options, Appends(goal, |list|, count - 1, item) + [InsertAt(k, goal[k], ChildType(item, goal[k]))]);
    == { RunOneMore(list, item, options, Appends(goal, |list|, count - 1, item), InsertAt(k, goal[k], ChildType(item, goal[k]))); }
      Run(front, item, options, InsertAt(k, goal[k], ChildType(item, goal[k])));
    ==
      Some(longer);
    }
  }

  lemma AppendsUnfold(goal: seq<Value>, start: nat, count: nat, item: Option<Schema>)
    requires count > 0 && start + count <= |goal|
    ensures Appends(goal, start, count, item) ==
      Appends(goal, start, count - 1, item) + [InsertAt(start + count - 1, goal[start + count - 1], ChildType(item, goal[start + count - 1]))]
  {
  }

  lemma {:induction false} AppendsRun(list: seq<Slot>, goal: seq<Value>, count: nat, item: Option<Schema>, options: InferOptions)
    returns (longer: seq<Slot>)
    requires |list| + count <= |goal|
    ensures RunAll(list, item, options, Appends(goal, |list|, count, item)) == Some(longer)
    ensures IsGrown(list, goal, longer, item, options) && |longer| == |list| + count
  {
    if count == 0 {
      longer := list;
    } else {
      var front := AppendsRun(list, goal, count - 1, item, options);
      longer := AppendsOneMore(list, goal, count, front, item, options);
    }
  }

  /** Run change by change, the script ends in the new list exactly when the list loses at most one item and every
      place lands; when it loses more, it runs off the list. Containers that keep their place stay what they are. */
  method DiffList(stored: seq<Slot>, goal: seq<Value>, item: Option<Schema>, options: InferOptions) returns (r: PositionalResult)
    requires IsStored(stored)
    ensures r.Err? ==> !AllLand(stored, goal, item, options)
    ensures r.Err? <==> exists i: nat :: i < |stored| && i < |goal| && ItemIsRefused(stored[i], goal[i], item, options)
    ensures r.Ok? ==> (RunAll(stored, item, options, r.changes).Some? <==> |stored| <= |goal| + 1)
    ensures r.Ok? && |stored| <= |goal| + 1 ==>
      (ReadAll(RunAll(stored, item, options, r.changes).value) == goal <==> AllLand(stored, goal, item, options))
    ensures r.Ok? && |stored| <= |goal| + 1 ==> PlacesBecome(stored, goal, RunAll(stored, item, options, r.changes).value, item, options)
    ensures r.Ok? ==> InsertsRight(item, r.changes)
  {
    var common := if |stored| < |goal| then |stored| else |goal|;
    var changes: seq<ListChange> := [];
    ghost var list := stored;
    for i := 0 to common
      invariant Leads(stored, goal, item, options, changes, list, i)
    {
      var part, list' := UpdatePlace(stored, goal, i, item, options, list);
      if part.Err? {
        return part;
      }
      LeadsOn(stored, goal, item, options, changes, list, i, part.changes, list');
      changes, list := changes + part.changes, list';
    }
    var tail := CollectTail(goal, |stored|, item);
    r := Ok(changes + tail);
    LeadsToEnd(stored, goal, item, options, changes, list, tail);
  }

  /** The changes so far deal with the first `i` places. */
  ghost predicate Leads(stored: seq<Slot>, goal: seq<Value>, item: Option<Schema>, options: InferOptions, changes: seq<ListChange>,
                        list: seq<Slot>, i: nat) {
    && RunAll(stored, item, options, changes) == Some(list) && IsUpdatedTo(stored, goal, list, i, item, options)
    && InsertsRight(item, changes) && NoneIsRefused(stored, goal, i, item, options)
  }

  ghost predicate NoneIsRefused(stored: seq<Slot>, goal: seq<Value>, n: nat, item: Option<Schema>, options: InferOptions) {
    forall k: nat | k < n && k < |stored| && k < |goal| :: !ItemIsRefused(stored[k], goal[k], item, options)
  }

  lemma LeadsOn(stored: seq<Slot>, goal: seq<Value>, item: Option<Schema>, options: InferOptions, changes: seq<ListChange>,
                list: seq<Slot>, i: nat, part: seq<ListChange>, after: seq<Slot>)
    requires Leads(stored, goal, item, options, changes, list, i)
    requires RunAll(list, item, options, part) == Some(after) && IsUpdatedTo(stored, goal, after, i + 1, item, options)
    requires InsertsRight(item, part) && i < |stored| && i < |goal| && !ItemIsRefused(stored[i], goal[i], item, options)
    ensures Leads(stored, goal, item, options, changes + part, after, i + 1)
  {
    RunAllAppends(stored, item, options, changes, part);
  }

  /** The deletions of the places the new list does not have, or the insertions of those the old one has not. */
  ghost predicate IsTail(tail: seq<ListChange>, goal: seq<Value>, oldLen: nat, item: Option<Schema>) {
    tail == if |goal| <= oldLen then AscendingDeletes(|goal|, oldLen - |goal|) else Appends(goal, oldLen, |goal| - oldLen, item)
  }

  lemma LeadsToEnd(stored: seq<Slot>, goal: seq<Value>, item: Option<Schema>, options: InferOptions, changes: seq<ListChange>,
                   list: seq<Slot>, tail: seq<ListChange>)
    requires Leads(stored, goal, item, options, changes, list, if |stored| < |goal| then |stored| else |goal|)
    requires IsTail(tail, goal, |stored|, item) && InsertsRight(item, tail)
    ensures InsertsRight(item, changes + tail)
    ensures !exists i: nat :: i < |stored| && i < |goal| && ItemIsRefused(stored[i], goal[i], item, options)
    ensures RunAll(stored, item, options, changes + tail).Some? <==> |stored| <= |goal| + 1
    ensures |stored| <= |goal| + 1 ==>
      (ReadAll(RunAll(stored, item, options, changes + tail).value) == goal <==> AllLand(stored, goal, item, options))
    ensures |stored| <= |goal| + 1 ==> PlacesBecome(stored, goal, RunAll(stored, item, options, changes + tail).value, item, options)
  {
    RunAllAppends(stored, item, options, changes, tail);
    if |goal| <= |stored| {
      ShrinksExactly(stored, goal, list, item, options);
    } else {
      GrowsExactly(stored, goal, list, item, options);
    }
  }

  lemma ShrinksExactly(stored: seq<Slot>, goal: seq<Value>, list: seq<Slot>, item: Option<Schema>, options: InferOptions)
    requires |goal| <= |stored| && IsUpdatedTo(stored, goal, list, |goal|, item, options)
    ensures var r := RunAll(list, item, options, AscendingDeletes(|goal|, |stored| - |goal|));
      (r.Some? <==> |stored| <= |goal| + 1) && (r.Some? ==> (ReadAll(r.value) == goal <==> AllLand(stored, goal, item, options)))
      && (r.Some? ==> PlacesBecome(stored, goal, r.value, item, options))
  {
    AscendingDeletesFit(list, |goal|, |stored| - |goal|, item, options);
    FrontReads(stored, goal, list, item, options);
  }

  lemma FrontReads(stored: seq<Slot>, goal: seq<Value>, list: seq<Slot>, item: Option<Schema>, options: InferOptions)
    requires |goal| <= |stored| && IsUpdatedTo(stored, goal, list, |goal|, item, options)
    ensures ReadAll(list[..|goal|]) == goal <==> AllLand(stored, goal, item, options)
    ensures PlacesBecome(stored, goal, list[..|goal|], item, options)
  {
    var front := list[..|goal|];
    forall i: nat | i < |goal|
      ensures front[i].Read() == goal[i] <==> PlaceLands(stored, goal, i, item, options)
      ensures ItemBecomes(stored[i], goal[i], item, options, front[i])
    {
      assert front[i] == list[i];
    }
    ReadsExactly(stored, goal, front, item, options);
  }

  lemma GrowsExactly(stored: seq<Slot>, goal: seq<Value>, list: seq<Slot>, item: Option<Schema>, options: InferOptions)
    requires |stored| <= |goal| && IsUpdatedTo(stored, goal, list, |stored|, item, options)
    ensures var r := RunAll(list, item, options, Appends(goal, |stored|, |goal| - |stored|, item));
      r.Some? && (ReadAll(r.value) == goal <==> AllLand(stored, goal, item, options)) && PlacesBecome(stored, goal, r.value, item, options)
  {
    var longer := AppendsRun(list, goal, |goal| - |stored|, item, options);
    GrownReads(stored, goal, list, longer, item, options);
  }

  lemma GrownReads(stored: seq<Slot>, goal: seq<Value>, list: seq<Slot>, longer: seq<Slot>, item: Option<Schema>, options: InferOptions)
    requires |stored| <= |goal| == |longer| && IsUpdatedTo(stored, goal, list, |stored|, item, options) && IsGrown(list, goal, longer, item, options)
    ensures ReadAll(longer) == goal <==> AllLand(stored, goal, item, options)
    ensures PlacesBecome(stored, goal, longer, item, options)
  {
    forall i: nat | i < |goal|
      ensures longer[i].Read() == goal[i] <==> PlaceLands(stored, goal, i, item, options)
    {
      assert i < |list| ==> longer[i] == list[i];
    }
    assert forall i: nat | i < |list| :: longer[i] == list[i];
    ReadsExactly(stored, goal, longer, item, options);
  }

  lemma ReadsExactly(stored: seq<Slot>, goal: seq<Value>, list: seq<Slot>, item: Option<Schema>, options: InferOptions)
    requires |list| == |goal|
    requires forall i: nat | i < |goal| :: list[i].Read() == goal[i] <==> PlaceLands(stored, goal, i, item, options)
    ensures ReadAll(list) == goal <==> AllLand(stored, goal, item, options)
  {
    if ReadAll(list) == goal {
      forall i: nat | i < |goal|
        ensures PlaceLands(stored, goal, i, item, options)
      {
        assert ReadAll(list)[i] == goal[i];
      }
    }
  }

  method CollectTail(goal: seq<Value>, oldLen: nat, item: Option<Schema>) returns (changes: seq<ListChange>)
    ensures IsTail(changes, goal, oldLen, item) && InsertsRight(item, changes)
  {
    changes := [];
    if |goal| < oldLen {
      for i := |goal| to oldLen
        invariant changes == AscendingDeletes(|goal|, i - |goal|) && forall c | c in changes :: c.DeleteAt?
      {
        changes := changes + [DeleteAt(i)];
      }
    }
    if oldLen < |goal| {
      for i := oldLen to |goal|
        invariant changes == Appends(goal, oldLen, i - oldLen, item) && InsertsRight(item, changes)
      {
        ChildIsRight(item, goal[i]);
        changes := changes + [InsertAt(i, goal[i], ChildType(item, goal[i]))];
      }
    }
  }
}
