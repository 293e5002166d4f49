/** The movable-list diff: deletions, the fewest moves, insertions, then updates in place
    (crates/vt-mirror/src/diff.rs:228-364). */
module MovableList {
  import opened Prelude
  import opened MirrorState
  import opened ListScript
  import opened MovableScript
  import Lis
  import MapDiff
  import MoveBound

  datatype MovableResult = Ok(changes: seq<ListChange>) | Err(error: MapDiff.DiffError)

  type Id = Option<string>

  /** The old items by id; of several with the same id the last one counts. */
  function IndexMap(ids: seq<Id>): map<string, nat> {
    if ids == [] then map[]
    else
      var last := |ids| - 1;
      if ids[last].Some? then IndexMap(ids[..last])[ids[last].value := last] else IndexMap(ids[..last])
  }

  function Lookup(m: map<string, nat>, id: Id): Option<nat> {
    if id.Some? && id.value in m then Some(m[id.value]) else None
  }

  function From(m: map<string, nat>, ids: seq<Id>): (from: seq<Option<nat>>)
    ensures |from| == |ids|
  {
    seq(|ids|, j requires 0 <= j < |ids| => Lookup(m, ids[j]))
  }

  predicate IsGone(oldIds: seq<Id>, m: map<string, nat>, newIds: seq<Id>, i: nat)
    requires i < |oldIds|
  {
    oldIds[i].Some? && Lookup(m, oldIds[i]) == Some(i) && oldIds[i] !in newIds
  }

  function Gone(oldIds: seq<Id>, m: map<string, nat>, newIds: seq<Id>): (gone: seq<bool>)
    ensures |gone| == |oldIds|
  {
    seq(|oldIds|, i requires 0 <= i < |oldIds| => IsGone(oldIds, m, newIds, i))
  }

  lemma {:induction false} IndexMapIsLast(ids: seq<Id>)
    ensures forall id | id in IndexMap(ids) :: IndexMap(ids)[id] < |ids| && ids[IndexMap(ids)[id]] == Some(id)
    ensures forall i | 0 <= i < |ids| && ids[i].Some? :: ids[i].value in IndexMap(ids) && i <= IndexMap(ids)[ids[i].value]
  {
    if ids != [] {
      IndexMapIsLast(ids[..|ids| - 1]);
    }
  }

  ghost predicate AllDistinct(ids: seq<Id>) {
    (forall i | 0 <= i < |ids| :: ids[i].Some?) && (forall i, j | 0 <= i < j < |ids| :: ids[i] != ids[j])
  }

  /** The last item of its id. */
  ghost predicate IsLastOfId(ids: seq<Id>, i: nat)
    requires i < |ids|
  {
    ids[i].Some? && forall k: nat | i < k < |ids| :: ids[k] != ids[i]
  }

  /** A new item is paired with the last old item of its id, and an old item is deleted exactly when it is the last of its
      id and no new item has the id. So older items of a repeated id are left alone. */
  lemma RepeatedIds(oldIds: seq<Id>, newIds: seq<Id>, i: nat, j: nat)
    requires i < |oldIds| && j < |newIds|
    ensures From(IndexMap(oldIds), newIds)[j] == Some(i) <==> newIds[j] == oldIds[i] && IsLastOfId(oldIds, i)
    ensures Gone(oldIds, IndexMap(oldIds), newIds)[i] <==> oldIds[i] !in newIds && IsLastOfId(oldIds, i)
  {
    IndexMapIsLast(oldIds);
    if oldIds[i].Some? {
      var last := IndexMap(oldIds)[oldIds[i].value];
      assert i <= last && oldIds[last] == oldIds[i];
      assert IsLastOfId(oldIds, i) <==> last == i;
    }
  }

  lemma PairsEqualIds(oldIds: seq<Id>, newIds: seq<Id>, i: nat, j: nat)
    requires AllDistinct(oldIds) && i < |oldIds| && j < |newIds|
    ensures From(IndexMap(oldIds), newIds)[j] == Some(i) <==> oldIds[i] == newIds[j]
  {
    IndexMapIsLast(oldIds);
  }

  lemma PairedIds(oldIds: seq<Id>, newIds: seq<Id>, i: nat)
    requires AllDistinct(oldIds) && i < |oldIds|
    ensures oldIds[i] in newIds <==> Some(i) in From(IndexMap(oldIds), newIds)
  {
    var from := From(IndexMap(oldIds), newIds);
    if j: nat :| j < |newIds| && newIds[j] == oldIds[i] {
      PairsEqualIds(oldIds, newIds, i, j);
      assert from[j] in from;
    }
    if j: nat :| j < |from| && from[j] == Some(i) {
      PairsEqualIds(oldIds, newIds, i, j);
    }
  }

  lemma GoneIsUnpaired(oldIds: seq<Id>, newIds: seq<Id>, i: nat)
    requires AllDistinct(oldIds) && i < |oldIds|
    ensures Gone(oldIds, IndexMap(oldIds), newIds)[i] <==> Some(i) !in From(IndexMap(oldIds), newIds)
  {
    IndexMapIsLast(oldIds);
    assert Lookup(IndexMap(oldIds), oldIds[i]) == Some(i);
    PairedIds(oldIds, newIds, i);
  }

  /** With distinct ids, `from` pairs equal ids, and what it does not point to is deleted. */
  lemma DistinctIdsPair(oldIds: seq<Id>, newIds: seq<Id>)
    requires AllDistinct(oldIds) && AllDistinct(newIds)
    ensures var from := From(IndexMap(oldIds), newIds);
      && PointsInto(from, |oldIds|)
      && (forall i | 0 <= i < |oldIds| :: Gone(oldIds, IndexMap(oldIds), newIds)[i] <==> Some(i) !in from)
      && (forall i, j | 0 <= i < j < |newIds| && from[i].Some? :: from[i] != from[j])
  {
    var from := From(IndexMap(oldIds), newIds);
    IndexMapIsLast(oldIds);
    forall i | 0 <= i < |oldIds|
      ensures Gone(oldIds, IndexMap(oldIds), newIds)[i] <==> Some(i) !in from
    {
      GoneIsUnpaired(oldIds, newIds, i);
    }
    forall i, j | 0 <= i < j < |newIds| && from[i].Some?
      ensures from[i] != from[j]
    {
      PairsEqualIds(oldIds, newIds, from[i].value, i);
      PairsEqualIds(oldIds, newIds, from[i].value, j);
    }
  }

  // ----- the loops

  method BuildIndexMap(ids: seq<Id>) returns (m: map<string, nat>)
    ensures m == IndexMap(ids)
  {
    m := map[];
    for index := 0 to |ids|
      invariant m == IndexMap(ids[..index])
    {
      assert ids[..index + 1][..index] == ids[..index];
      if ids[index].Some? {
        m := m[ids[index].value := index];
      }
    }
    assert ids[..|ids|] == ids;
  }

  /** The common items in the new order. */
  method CollectCommon(m: map<string, nat>, newIds: seq<Id>) returns (common: seq<(nat, nat)>)
    ensures common == Common(From(m, newIds))
  {
    common := [];
    ghost var from := From(m, newIds);
    for j := 0 to |newIds|
      invariant common == Common(from[..j])
    {
      assert from[..j + 1][..j] == from[..j];
      var oldIndex := Lookup(m, newIds[j]);
      if oldIndex.Some? {
        common := common + [(oldIndex.value, j)];
      }
    }
    assert from[..|newIds|] == from;
  }

  lemma DeletesFromBack(gone: seq<bool>, i: nat, changes: seq<ListChange>)
    requires i < |gone|
    ensures changes + Deletes(gone[..i + 1]) == (if gone[i] then changes + [DeleteAt(i)] else changes) + Deletes(gone[..i])
  {
    var front := gone[..i + 1];
    assert front[..i] == gone[..i] && front[i] == gone[i];
    assert changes + ([DeleteAt(i)] + Deletes(gone[..i])) == changes + [DeleteAt(i)] + Deletes(gone[..i]);
    assert changes + ([] + Deletes(gone[..i])) == changes + Deletes(gone[..i]);
  }

  /** The deletions, from the highest index down. */
  method CollectDeletes(oldIds: seq<Id>, m: map<string, nat>, newIds: seq<Id>) returns (changes: seq<ListChange>)
    ensures changes == Deletes(Gone(oldIds, m, newIds))
  {
    changes := [];
    ghost var gone := Gone(oldIds, m, newIds);
    var i := |oldIds|;
    assert gone[..i] == gone;
    while i > 0
      invariant 0 <= i <= |oldIds|
      invariant changes + Deletes(gone[..i]) == Deletes(gone)
    {
      i := i - 1;
      DeletesFromBack(gone, i, changes);
      if IsGone(oldIds, m, newIds, i) {
        assert gone[i];
        changes := changes + [DeleteAt(i)];
      }
    }
    assert gone[..0] == [];
  }

  method CollectMoves(common: seq<(nat, nat)>, lis: seq<nat>) returns (changes: seq<ListChange>)
    ensures changes == Moves(common, lis)
  {
    changes := [];
    for i := 0 to |common|
      invariant changes == Moves(common[..i], lis)
    {
      assert common[..i + 1][..i] == common[..i];
      if i !in lis && common[i].0 != common[i].1 {
        changes := changes + [MoveTo(common[i].0, common[i].1)];
      }
    }
    assert common[..|common|] == common;
  }

  method CollectInserts(goal: seq<Value>, m: map<string, nat>, newIds: seq<Id>, item: Option<Schema>) returns (changes: seq<ListChange>)
    requires |newIds| == |goal|
    ensures changes == Inserts(goal, From(m, newIds), item) && InsertsRight(item, changes)
  {
    changes := [];
    ghost var from := From(m, newIds);
    for j := 0 to |goal|
      invariant changes == Inserts(goal[..j], from[..j], item) && InsertsRight(item, changes)
    {
      ChildIsRight(item, goal[j]);
      assert goal[..j + 1][..j] == goal[..j] && from[..j + 1][..j] == from[..j];
      if Lookup(m, newIds[j]).None? {
        changes := changes + [InsertAt(j, goal[j], ChildType(item, goal[j]))];
      }
    }
    assert goal[..|goal|] == goal && from[..|goal|] == from;
  }

  // ----- updates in place

  /** A new item is inserted as what it should be, and a kept one is brought to its new value where it is stored. */
  ghost predicate PlaceBecomes(stored: seq<Slot>, v: Value, from: Option<nat>, slot: Slot, item: Option<Schema>, options: InferOptions) {
    if from.None? then IsRightSlot(item, v, slot)
    else from.value < |stored| && ItemBecomes(stored[from.value], v, item, options, slot)
  }

  /** `list` holds the new items in their places: those among the first `n` common items and the inserted
      ones read as they should, the rest are still the old slots. */
  ghost predicate IsUpdated(item: Option<Schema>, options: InferOptions, stored: seq<Slot>, goal: seq<Value>, from: seq<Option<nat>>, list: seq<Slot>, n: nat)
    requires |from| == |goal| && PointsInto(from, |stored|)
  {
    && |list| == |goal|
    && (forall j | 0 <= j < |goal| && (from[j].None? || j < n) ::
          list[j].Read() == goal[j] && PlaceBecomes(stored, goal[j], from[j], list[j], item, options))
    && (forall j | n <= j < |goal| && from[j].Some? :: from[j] in from && list[j] == stored[from[j].value])
    && (forall j | 0 <= j < |goal| && list[j].Child? && list[j].cid.Some? ::
          from[j] in from && from[j].Some? && stored[from[j].value].Child? && list[j].cid == stored[from[j].value].cid)
  }

  /** Setting place `j` to a slot that reads right brings the list one item further. */
  lemma UpdateNext(item: Option<Schema>, options: InferOptions, stored: seq<Slot>, goal: seq<Value>, from: seq<Option<nat>>,
                   list: seq<Slot>, j: nat, slot: Slot)
    requires |from| == |goal| && PointsInto(from, |stored|) && j < |goal|
    requires IsUpdated(item, options, stored, goal, from, list, j) && slot.Read() == goal[j]
    requires PlaceBecomes(stored, goal[j], from[j], slot, item, options)
    requires slot.Child? && slot.cid.Some? ==> list[j].Child? && slot.cid == list[j].cid
    ensures IsUpdated(item, options, stored, goal, from, list[j := slot], j + 1)
  {
  }

  lemma OthersNamedApart(item: Option<Schema>, options: InferOptions, stored: seq<Slot>, goal: seq<Value>, from: seq<Option<nat>>,
                         list: seq<Slot>, n: nat, j: nat)
    requires IsStored(stored) && |from| == |goal| && PointsInto(from, |stored|) && j < |goal|
    requires forall a, b | 0 <= a < b < |from| && from[a].Some? :: from[a] != from[b]
    requires IsUpdated(item, options, stored, goal, from, list, n) && list[j].Child? && list[j].cid.Some?
    ensures forall i | 0 <= i < |list| && i != j && list[i].Child? :: list[i].cid != list[j].cid
  {
    forall i | 0 <= i < |list| && i != j && list[i].Child? && list[i].cid.Some?
      ensures list[i].cid != list[j].cid
    {
      assert from[i] in from && from[j] in from && from[i] != from[j];
    }
  }

  /** The changes that bring one kept item up to date. */
  method UpdateItem(stored: seq<Slot>, goal: seq<Value>, ghost from: seq<Option<nat>>, item: Option<Schema>, options: InferOptions,
                    oldIndex: nat, j: nat, ghost list: seq<Slot>, ghost regular: bool) returns (r: MovableResult, ghost list': seq<Slot>)
    requires IsStored(stored) && oldIndex < |stored| && j < |goal|
    requires |from| == |goal| && PointsInto(from, |stored|) && from[j] == Some(oldIndex)
    requires regular ==> IsUpdated(item, options, stored, goal, from, list, j)
    requires regular ==> forall a, b | 0 <= a < b < |from| && from[a].Some? :: from[a] != from[b]
    requires regular ==> IsKeptWhole(item, options, goal[j])
    requires regular && stored[oldIndex].Child? && stored[oldIndex].Read() != goal[j] ==> MapDiff.Lands(stored[oldIndex].node, goal[j], item, options)
    ensures r.Ok? ==> InsertsRight(item, r.changes)
    ensures r.Err? <==> ItemIsRefused(stored[oldIndex], goal[j], item, options)
    ensures regular ==> r.Ok? && RunAll(list, item, options, r.changes) == Some(list') && IsUpdated(item, options, stored, goal, from, list', j + 1)
  {
    var slot, v := stored[oldIndex], goal[j];
    list' := list;
    if slot.Read() == v {
      r := Ok([]);
      if regular {
        UpdateNext(item, options, stored, goal, from, list, j, list[j]);
        assert list[j := list[j]] == list;
      }
    } else if slot.Child? {
      var nested := MapDiff.DiffContainer(slot.node, slot.node.Read(), v, [], item, options);
      if nested.Err? {
        return Err(nested.error), list;
      }
      r := Ok(Nest(slot.cid.value, nested.changes));
      if regular {
        OthersNamedApart(item, options, stored, goal, from, list, j, j);
        NestedEditsOneItem(list, item, options, j, slot.cid.value, nested.changes);
        var edited := slot.(node := MapDiff.ApplyAll(slot.node, item, options, nested.changes, 0));
        UpdateNext(item, options, stored, goal, from, list, j, edited);
        list' := list[j := edited];
      }
    } else {
      var child := ChildType(item, v);
      r := Ok([DeleteAt(j), InsertAt(j, v, child)]);
      NewSlotReads(item, options, v);
      if regular {
        list' := ReplaceItem(stored, goal, from, item, options, list, j);
      }
    }
  }

  /** A plain kept item is deleted and inserted anew in its place. */
  lemma ReplaceItem(stored: seq<Slot>, goal: seq<Value>, from: seq<Option<nat>>, item: Option<Schema>, options: InferOptions,
                    list: seq<Slot>, j: nat) returns (list': seq<Slot>)
    requires |from| == |goal| && PointsInto(from, |stored|) && j < |goal| && from[j].Some?
    requires IsStored(stored) && IsUpdated(item, options, stored, goal, from, list, j) && IsKeptWhole(item, options, goal[j])
    requires from[j] in from && stored[from[j].value].Plain? && stored[from[j].value].Read() != goal[j]
    requires forall a, b | 0 <= a < b < |from| && from[a].Some? :: from[a] != from[b]
    ensures RunAll(list, item, options, [DeleteAt(j), InsertAt(j, goal[j], ChildType(item, goal[j]))]) == Some(list')
    ensures IsUpdated(item, options, stored, goal, from, list', j + 1)
  {
    var child := ChildType(item, goal[j]);
    var made := NewSlot(item, options, goal[j], child);
    NewSlotReads(item, options, goal[j]);
    UpdateNext(item, options, stored, goal, from, list, j, made);
    RunTwo(list, item, options, DeleteAt(j), InsertAt(j, goal[j], child));
    assert With(Without(list, j), j, made) == list[j := made];
    list' := list[j := made];
  }

  lemma {:induction false} CommonRises(from: seq<Option<nat>>)
    ensures forall i | 0 <= i < |Common(from)| :: Common(from)[i].1 < |from| && from[Common(from)[i].1] == Some(Common(from)[i].0)
    ensures forall a, b | 0 <= a < b < |Common(from)| :: Common(from)[a].1 < Common(from)[b].1
  {
    if from != [] {
      CommonRises(from[..|from| - 1]);
    }
  }

  lemma {:induction false} CommonHas(from: seq<Option<nat>>, j: nat) returns (a: nat)
    requires j < |from| && from[j].Some?
    ensures a < |Common(from)| && Common(from)[a].1 == j
  {
    var last := |from| - 1;
    if j < last {
      a := CommonHas(from[..last], j);
    } else {
      a := |Common(from[..last])|;
    }
  }

  /** Between two neighbouring common items the new list holds only new items. */
  lemma CommonGap(from: seq<Option<nat>>, i: nat, j: nat)
    requires i <= |Common(from)| && j < |from|
    requires i > 0 ==> Common(from)[i - 1].1 < j
    requires i < |Common(from)| ==> j < Common(from)[i].1
    ensures from[j].None?
  {
    CommonRises(from);
    if from[j].Some? {
      var a := CommonHas(from, j);
    }
  }

  function Bound(common: seq<(nat, nat)>, i: nat, n: nat): nat
    requires i <= |common|
  {
    if i < |common| then common[i].1 else n
  }

  lemma SkipInserted(item: Option<Schema>, options: InferOptions, stored: seq<Slot>, goal: seq<Value>, from: seq<Option<nat>>, list: seq<Slot>, i: nat, n: nat)
    requires |from| == |goal| && PointsInto(from, |stored|) && i <= |Common(from)|
    requires if i > 0 then n == Common(from)[i - 1].1 + 1 else n == 0
    requires IsUpdated(item, options, stored, goal, from, list, n)
    ensures IsUpdated(item, options, stored, goal, from, list, Bound(Common(from), i, |goal|))
  {
    CommonRises(from);
    var n' := Bound(Common(from), i, |goal|);
    forall j | n <= j < n' && j < |from|
      ensures from[j].None?
    {
      CommonGap(from, i, j);
    }
  }

  ghost predicate PairIsRefused(stored: seq<Slot>, goal: seq<Value>, pair: (nat, nat), item: Option<Schema>, options: InferOptions) {
    pair.0 < |stored| && pair.1 < |goal| && ItemIsRefused(stored[pair.0], goal[pair.1], item, options)
  }

  lemma CommonPair(stored: seq<Slot>, goal: seq<Value>, from: seq<Option<nat>>, i: nat)
    requires |from| == |goal| && PointsInto(from, |stored|) && i < |Common(from)|
    ensures var (oldIndex, j) := Common(from)[i]; j < |goal| && from[j] == Some(oldIndex) && from[j] in from && oldIndex < |stored|
  {
    CommonRises(from);
    assert from[Common(from)[i].1] in from;
  }

  lemma PairLands(stored: seq<Slot>, goal: seq<Value>, selector: Selector, oldIndex: nat, j: nat, item: Option<Schema>, options: InferOptions)
    requires oldIndex < |stored| && j < |goal| && ItemsLand(stored, goal, selector, item, options)
    requires SelectId(selector, goal[j]).Some? && SelectId(selector, stored[oldIndex].Read()) == SelectId(selector, goal[j])
    ensures IsKeptWhole(item, options, goal[j])
    ensures stored[oldIndex].Child? && stored[oldIndex].Read() != goal[j] ==> MapDiff.Lands(stored[oldIndex].node, goal[j], item, options)
  {
    assert stored[oldIndex] in stored && goal[j] in goal;
    assert stored[oldIndex].Child? && stored[oldIndex].Read() != goal[j] ==> IsNested(stored[oldIndex], goal[j], selector);
  }

  lemma FurtherByOne(item: Option<Schema>, options: InferOptions, stored: seq<Slot>, goal: seq<Value>, from: seq<Option<nat>>, arranged: seq<Slot>,
                     changes: seq<ListChange>, list: seq<Slot>, more: seq<ListChange>, list': seq<Slot>, i: nat)
    requires |from| == |goal| && PointsInto(from, |stored|) && i < |Common(from)|
    requires RunAll(arranged, item, options, changes) == Some(list) && RunAll(list, item, options, more) == Some(list')
    requires IsUpdated(item, options, stored, goal, from, list', Common(from)[i].1 + 1)
    ensures RunAll(arranged, item, options, changes + more) == Some(list')
    ensures IsUpdated(item, options, stored, goal, from, list', Bound(Common(from), i + 1, |goal|))
  {
    RunAllAppends(arranged, item, options, changes, more);
    SkipInserted(item, options, stored, goal, from, list', i + 1, Common(from)[i].1 + 1);
  }

  /** Brings one kept item up to date. */
  method UpdateCommon(stored: seq<Slot>, goal: seq<Value>, selector: Selector, ghost from: seq<Option<nat>>, common: seq<(nat, nat)>, i: nat,
                      item: Option<Schema>, options: InferOptions, ghost arranged: seq<Slot>, changes: seq<ListChange>, ghost list: seq<Slot>,
                      ghost regular: bool)
    returns (r: MovableResult, ghost list': seq<Slot>)
    requires IsStored(stored) && |from| == |goal| && PointsInto(from, |stored|) && common == Common(from) && i < |common|
    requires regular ==> RunAll(arranged, item, options, changes) == Some(list)
    requires regular ==> IsUpdated(item, options, stored, goal, from, list, Bound(common, i, |goal|)) && ItemsLand(stored, goal, selector, item, options)
    requires regular ==> forall a, b | 0 <= a < b < |from| && from[a].Some? :: from[a] != from[b]
    requires forall j | 0 <= j < |from| && from[j].Some? && from[j].value < |stored| ::
      SelectId(selector, goal[j]).Some? && SelectId(selector, stored[from[j].value].Read()) == SelectId(selector, goal[j])
    requires InsertsRight(item, changes)
    ensures r.Ok? ==> InsertsRight(item, r.changes)
    ensures r.Err? <==> PairIsRefused(stored, goal, common[i], item, options)
    ensures regular ==> r.Ok? && RunAll(arranged, item, options, r.changes) == Some(list')
    ensures regular ==> IsUpdated(item, options, stored, goal, from, list', Bound(common, i + 1, |goal|))
  {
    var (oldIndex, j) := common[i];
    CommonPair(stored, goal, from, i);
    if regular {
      PairLands(stored, goal, selector, oldIndex, j, item, options);
    }
    r, list' := UpdateItem(stored, goal, from, item, options, oldIndex, j, list, regular);
    if r.Ok? {
      if regular {
        FurtherByOne(item, options, stored, goal, from, arranged, changes, list, r.changes, list', i);
      }
      InsertsOfBoth(item, changes, r.changes);
      r := Ok(changes + r.changes);
    }
  }

  /** The last pass: brings the kept items up to date. */
  method UpdateItems(stored: seq<Slot>, goal: seq<Value>, selector: Selector, ghost from: seq<Option<nat>>, common: seq<(nat, nat)>,
                     item: Option<Schema>, options: InferOptions, ghost arranged: seq<Slot>, ghost regular: bool)
    returns (r: MovableResult, ghost list: seq<Slot>)
    requires IsStored(stored) && |from| == |goal| && PointsInto(from, |stored|) && common == Common(from)
    requires regular ==> IsUpdated(item, options, stored, goal, from, arranged, 0) && ItemsLand(stored, goal, selector, item, options)
    requires regular ==> forall a, b | 0 <= a < b < |from| && from[a].Some? :: from[a] != from[b]
    requires forall j | 0 <= j < |from| && from[j].Some? && from[j].value < |stored| ::
      SelectId(selector, goal[j]).Some? && SelectId(selector, stored[from[j].value].Read()) == SelectId(selector, goal[j])
    ensures r.Ok? ==> InsertsRight(item, r.changes)
    ensures r.Err? <==> exists i :: 0 <= i < |common| && PairIsRefused(stored, goal, common[i], item, options)
    ensures regular ==> r.Ok? && RunAll(arranged, item, options, r.changes) == Some(list) && ReadAll(list) == goal
    ensures regular ==> forall j | 0 <= j < |goal| :: PlaceBecomes(stored, goal[j], from[j], list[j], item, options)
  {
    var changes: seq<ListChange> := [];
    list := arranged;
    CommonRises(from);
    if regular {
      SkipInserted(item, options, stored, goal, from, list, 0, 0);
    }
    for i := 0 to |common|
      invariant InsertsRight(item, changes) && forall k | 0 <= k < i :: !PairIsRefused(stored, goal, common[k], item, options)
      invariant regular ==> RunAll(arranged, item, options, changes) == Some(list)
      invariant regular ==> IsUpdated(item, options, stored, goal, from, list, Bound(common, i, |goal|))
    {
      r, list := UpdateCommon(stored, goal, selector, from, common, i, item, options, arranged, changes, list, regular);
      if r.Err? {
        return;
      }
      changes := r.changes;
    }
    r := Ok(changes);
  }

  // ----- what the script achieves

  /** The items found in both lists stand in the same order in both. */
  ghost predicate SurvivorsKeepOrder(oldIds: seq<Id>, newIds: seq<Id>) {
    forall a: nat, b: nat, p: nat, q: nat | a < b < |newIds| && p < |oldIds| && q < |oldIds| && newIds[a] == oldIds[p] && newIds[b] == oldIds[q] :: p < q
  }

  /** The new list is the old one with at most one item moved elsewhere. */
  ghost predicate RelocatesOne(oldIds: seq<Id>, newIds: seq<Id>) {
    exists p: nat, e: nat :: p < |oldIds| && e < |oldIds| && newIds == MoveBound.MoveItem(oldIds, p, e)
  }

  lemma OrderedIndicesRise(oldIds: seq<Id>, newIds: seq<Id>)
    requires SurvivorsKeepOrder(oldIds, newIds)
    ensures Rises(OldIndices(Common(From(IndexMap(oldIds), newIds))))
  {
    var from := From(IndexMap(oldIds), newIds);
    IndexMapIsLast(oldIds);
    CommonRises(from);
    var common := Common(from);
    forall a, b | 0 <= a < b < |common|
      ensures common[a].0 < common[b].0
    {
      assert newIds[common[a].1] == oldIds[common[a].0] && newIds[common[b].1] == oldIds[common[b].0];
    }
  }

  /** Which item was at each place before the relocation. */
  function Sources(n: nat, p: nat, e: nat): (olds: seq<int>)
    ensures |olds| == n
  {
    seq(n, j requires 0 <= j < n => MoveBound.Source(j, p, e))
  }

  lemma RelocatedPairs(oldIds: seq<Id>, newIds: seq<Id>, p: nat, e: nat)
    requires AllDistinct(oldIds) && p < |oldIds| && e < |oldIds| && newIds == MoveBound.MoveItem(oldIds, p, e)
    ensures forall j | 0 <= j < |newIds| :: From(IndexMap(oldIds), newIds)[j] == Some(MoveBound.Source(j, p, e))
  {
    forall j | 0 <= j < |newIds|
      ensures From(IndexMap(oldIds), newIds)[j] == Some(MoveBound.Source(j, p, e))
    {
      MoveBound.MovedFrom(oldIds, p, e, j);
      PairsEqualIds(oldIds, newIds, MoveBound.Source(j, p, e), j);
    }
  }

  lemma MovedPlaces(places: seq<int>, p: nat, e: nat)
    requires p < |places| && e < |places| && forall i | 0 <= i < |places| :: places[i] == i
    ensures MoveBound.MoveItem(places, p, e) == Sources(|places|, p, e)
  {
    forall j | 0 <= j < |places|
      ensures MoveBound.MoveItem(places, p, e)[j] == Sources(|places|, p, e)[j]
    {
      MoveBound.MovedFrom(places, p, e, j);
    }
  }

  lemma SourcesArePicked(n: nat, p: nat, e: nat) returns (pick: seq<nat>)
    requires p < n && e < n
    ensures Lis.IsIncreasingPick(Sources(n, p, e), pick) && |pick| + 1 >= n
  {
    var places: seq<int> := seq(n, i => i);
    MovedPlaces(places, p, e);
    RisingIsAPick(places);
    pick := MoveBound.MovedHasPick(places, p, e, Places(n));
  }

  /** Moving one item leaves an increasing pick of all the others. */
  lemma RelocatedHasPick(oldIds: seq<Id>, newIds: seq<Id>) returns (pick: seq<nat>)
    requires AllDistinct(oldIds) && RelocatesOne(oldIds, newIds)
    ensures var from := From(IndexMap(oldIds), newIds);
      && |oldIds| == |newIds|
      && (forall j | 0 <= j < |from| :: from[j].Some?)
      && (forall i | 0 <= i < |oldIds| :: Some(i) in from)
      && Lis.IsIncreasingPick(OldIndices(Common(from)), pick) && |pick| + 1 >= |newIds|
  {
    var p: nat, e: nat :| p < |oldIds| && e < |oldIds| && newIds == MoveBound.MoveItem(oldIds, p, e);
    var from := From(IndexMap(oldIds), newIds);
    RelocatedPairs(oldIds, newIds, p, e);
    forall i | 0 <= i < |oldIds|
      ensures Some(i) in from
    {
      var j := if i == p then e else MoveBound.Shifted(i, p, e);
      assert MoveBound.Source(j, p, e) == i && from[j] in from;
    }
    AllCommon(from);
    assert OldIndices(Common(from)) == Sources(|oldIds|, p, e);
    pick := SourcesArePicked(|oldIds|, p, e);
  }

  /** Where nothing is reordered, or nothing is done but move one item, the head of the script puts every
      kept and every inserted item in its place. */
  lemma HeadArranges(stored: seq<Slot>, goal: seq<Value>, oldIds: seq<Id>, newIds: seq<Id>, lis: seq<nat>, item: Option<Schema>, options: InferOptions)
    requires |oldIds| == |stored| && |newIds| == |goal| && AllDistinct(oldIds) && AllDistinct(newIds)
    requires SurvivorsKeepOrder(oldIds, newIds) || RelocatesOne(oldIds, newIds)
    requires IsLongestPick(OldIndices(Common(From(IndexMap(oldIds), newIds))), lis)
    ensures var (m, from) := (IndexMap(oldIds), From(IndexMap(oldIds), newIds));
      && PointsInto(from, |stored|)
      && RunAll(stored, item, options, Head(Gone(oldIds, m, newIds), goal, from, lis, item)) == Some(Arranged(stored, goal, from, item, options))
  {
    var from, gone := From(IndexMap(oldIds), newIds), Gone(oldIds, IndexMap(oldIds), newIds);
    DistinctIdsPair(oldIds, newIds);
    if SurvivorsKeepOrder(oldIds, newIds) {
      OrderedIndicesRise(oldIds, newIds);
      OrderedHead(stored, gone, goal, from, lis, item, options);
    } else {
      RelocatedHead(stored, goal, oldIds, newIds, lis, item, options);
    }
  }

  lemma RelocatedHead(stored: seq<Slot>, goal: seq<Value>, oldIds: seq<Id>, newIds: seq<Id>, lis: seq<nat>, item: Option<Schema>, options: InferOptions)
    requires |oldIds| == |stored| && |newIds| == |goal| && AllDistinct(oldIds) && AllDistinct(newIds)
    requires RelocatesOne(oldIds, newIds)
    requires IsLongestPick(OldIndices(Common(From(IndexMap(oldIds), newIds))), lis)
    ensures var (m, from) := (IndexMap(oldIds), From(IndexMap(oldIds), newIds));
      && PointsInto(from, |stored|)
      && RunAll(stored, item, options, Head(Gone(oldIds, m, newIds), goal, from, lis, item)) == Some(Arranged(stored, goal, from, item, options))
  {
    var from, gone := From(IndexMap(oldIds), newIds), Gone(oldIds, IndexMap(oldIds), newIds);
    DistinctIdsPair(oldIds, newIds);
    var pick := RelocatedHasPick(oldIds, newIds);
    AllCommon(from);
    if |lis| + 1 == |goal| {
      OneRelocatedArranges(stored, gone, goal, from, lis, item, options);
    } else {
      LongPickRises(OldIndices(Common(from)), lis);
      OrderedHead(stored, gone, goal, from, lis, item, options);
    }
  }

  lemma OrderedHead(stored: seq<Slot>, gone: seq<bool>, goal: seq<Value>, from: seq<Option<nat>>, lis: seq<nat>,
                    item: Option<Schema>, options: InferOptions)
    requires |from| == |goal| && |gone| == |stored| && PointsInto(from, |stored|)
    requires forall i | 0 <= i < |stored| :: gone[i] <==> Some(i) !in from
    requires Rises(OldIndices(Common(from))) && IsLongestPick(OldIndices(Common(from)), lis)
    ensures RunAll(stored, item, options, Head(gone, goal, from, lis, item)) == Some(Arranged(stored, goal, from, item, options))
  {
    OrderedSurvivorsStay(Common(from), lis);
    OrderedSurvivorsArrange(stored, gone, goal, from, item, options);
  }

  lemma LongPickRises(s: seq<int>, lis: seq<nat>)
    requires Lis.IsIncreasingPick(s, lis) && |lis| >= |s|
    ensures Rises(s)
  {
    FullChoice(lis, |s|);
    forall i, j | 0 <= i < j < |s|
      ensures s[i] < s[j]
    {
      assert lis[i] == i && lis[j] == j;
    }
  }

  lemma ArrangedIsUpdated(stored: seq<Slot>, goal: seq<Value>, from: seq<Option<nat>>, item: Option<Schema>, options: InferOptions)
    requires |from| == |goal| && PointsInto(from, |stored|)
    requires forall v | v in goal :: IsKeptWhole(item, options, v)
    ensures IsUpdated(item, options, stored, goal, from, Arranged(stored, goal, from, item, options), 0)
  {
    var arranged := Arranged(stored, goal, from, item, options);
    forall j | 0 <= j < |goal|
      ensures from[j] in from
      ensures from[j].None? ==> arranged[j].Read() == goal[j] && IsRightSlot(item, goal[j], arranged[j]) && (arranged[j].Child? ==> arranged[j].cid.None?)
    {
      assert goal[j] in goal;
      NewSlotReads(item, options, goal[j]);
    }
  }

  // ----- the diff

  /** The inputs the script is for: distinct ids, items whose own edits land, and survivors in their old
      order or one moved item as the only change of structure. */
  ghost predicate IsInScope(stored: seq<Slot>, goal: seq<Value>, selector: Selector, item: Option<Schema>, options: InferOptions) {
    var oldIds, newIds := Ids(selector, ReadAll(stored)), Ids(selector, goal);
    && AllDistinct(oldIds) && AllDistinct(newIds)
    && ItemsLand(stored, goal, selector, item, options)
    && (SurvivorsKeepOrder(oldIds, newIds) || RelocatesOne(oldIds, newIds))
  }

  /** Distinct ids, items whose own edits land, and a head of the script that puts every item in its place. */
  ghost predicate IsArranged(stored: seq<Slot>, goal: seq<Value>, selector: Selector, lis: seq<nat>, item: Option<Schema>, options: InferOptions) {
    var oldIds, newIds := Ids(selector, ReadAll(stored)), Ids(selector, goal);
    var from := From(IndexMap(oldIds), newIds);
    && AllDistinct(oldIds) && AllDistinct(newIds) && ItemsLand(stored, goal, selector, item, options)
    && PointsInto(from, |stored|)
    && RunAll(stored, item, options, Head(Gone(oldIds, IndexMap(oldIds), newIds), goal, from, lis, item))
       == Some(Arranged(stored, goal, from, item, options))
  }

  lemma {:induction false} DeletesInsertNothing(gone: seq<bool>)
    ensures forall c | c in Deletes(gone) :: c.DeleteAt?
  {
    if gone != [] {
      DeletesInsertNothing(gone[..|gone| - 1]);
    }
  }

  lemma {:induction false} MovesInsertNothing(common: seq<(nat, nat)>, lis: seq<nat>)
    ensures forall c | c in Moves(common, lis) :: c.MoveTo?
  {
    if common != [] {
      MovesInsertNothing(common[..|common| - 1], lis);
    }
  }

  /** The deletions, the least set of moves and the insertions. */
  method DiffStructure(oldIds: seq<Id>, newIds: seq<Id>, goal: seq<Value>, item: Option<Schema>)
    returns (head: seq<ListChange>, common: seq<(nat, nat)>, ghost lis: seq<nat>)
    requires |newIds| == |goal|
    ensures common == Common(From(IndexMap(oldIds), newIds)) && IsLongestPick(OldIndices(common), lis)
    ensures head == Head(Gone(oldIds, IndexMap(oldIds), newIds), goal, From(IndexMap(oldIds), newIds), lis, item)
    ensures InsertsRight(item, head)
  {
    var m := BuildIndexMap(oldIds);
    common := CollectCommon(m, newIds);
    var deletes := CollectDeletes(oldIds, m, newIds);
    var picked := Lis.LongestIncreasingSubsequence(OldIndices(common));
    var moves := CollectMoves(common, picked);
    var inserts := CollectInserts(goal, m, newIds, item);
    DeletesInsertNothing(Gone(oldIds, m, newIds));
    MovesInsertNothing(common, picked);
    head, lis := deletes + moves + inserts, picked;
  }

  lemma ScopeArranges(stored: seq<Slot>, goal: seq<Value>, selector: Selector, item: Option<Schema>, options: InferOptions, lis: seq<nat>)
    requires IsInScope(stored, goal, selector, item, options)
    requires IsLongestPick(OldIndices(Common(From(IndexMap(Ids(selector, ReadAll(stored))), Ids(selector, goal)))), lis)
    ensures IsArranged(stored, goal, selector, lis, item, options)
  {
    HeadArranges(stored, goal, Ids(selector, ReadAll(stored)), Ids(selector, goal), lis, item, options);
  }

  lemma ArrangedIsReady(stored: seq<Slot>, goal: seq<Value>, selector: Selector, item: Option<Schema>, options: InferOptions, lis: seq<nat>)
    requires IsArranged(stored, goal, selector, lis, item, options)
    ensures var from := From(IndexMap(Ids(selector, ReadAll(stored))), Ids(selector, goal));
      && PointsInto(from, |stored|)
      && IsUpdated(item, options, stored, goal, from, Arranged(stored, goal, from, item, options), 0)
      && (forall a, b | 0 <= a < b < |from| && from[a].Some? :: from[a] != from[b])
  {
    var oldIds, newIds := Ids(selector, ReadAll(stored)), Ids(selector, goal);
    ArrangedIsUpdated(stored, goal, From(IndexMap(oldIds), newIds), item, options);
    DistinctIdsPair(oldIds, newIds);
  }

  lemma FromPairsIds(oldIds: seq<Id>, newIds: seq<Id>)
    ensures var from := From(IndexMap(oldIds), newIds);
      && PointsInto(from, |oldIds|)
      && forall j | 0 <= j < |from| && from[j].Some? :: from[j].value < |oldIds| && newIds[j].Some? && oldIds[from[j].value] == newIds[j]
  {
    IndexMapIsLast(oldIds);
  }

  /** Of two items with the same id the stored one becomes the new one, and items with an id no stored item has are
      inserted as what they should be. */
  ghost predicate ItemsKept(stored: seq<Slot>, goal: seq<Value>, selector: Selector, item: Option<Schema>, options: InferOptions, list: seq<Slot>) {
    var oldIds, newIds := Ids(selector, ReadAll(stored)), Ids(selector, goal);
    && |list| == |goal|
    && (forall i, j | 0 <= i < |stored| && 0 <= j < |goal| && oldIds[i] == newIds[j] :: ItemBecomes(stored[i], goal[j], item, options, list[j]))
    && (forall j | 0 <= j < |goal| && newIds[j] !in oldIds :: IsRightSlot(item, goal[j], list[j]))
  }

  /** Some item's diff is refused: a new item and the last stored one with its id. */
  ghost predicate SomeIsRefused(stored: seq<Slot>, goal: seq<Value>, selector: Selector, item: Option<Schema>, options: InferOptions) {
    var oldIds, newIds := Ids(selector, ReadAll(stored)), Ids(selector, goal);
    exists i: nat, j: nat :: i < |stored| && j < |goal| && newIds[j] == oldIds[i] && IsLastOfId(oldIds, i)
                             && ItemIsRefused(stored[i], goal[j], item, options)
  }

  lemma RefusedPairs(stored: seq<Slot>, goal: seq<Value>, selector: Selector, item: Option<Schema>, options: InferOptions)
    ensures var common := Common(From(IndexMap(Ids(selector, ReadAll(stored))), Ids(selector, goal)));
      (exists i :: 0 <= i < |common| && PairIsRefused(stored, goal, common[i], item, options))
        <==> SomeIsRefused(stored, goal, selector, item, options)
  {
    var oldIds, newIds := Ids(selector, ReadAll(stored)), Ids(selector, goal);
    var from := From(IndexMap(oldIds), newIds);
    CommonRises(from);
    if i :| 0 <= i < |Common(from)| && PairIsRefused(stored, goal, Common(from)[i], item, options) {
      RepeatedIds(oldIds, newIds, Common(from)[i].0, Common(from)[i].1);
    }
    if i: nat, j: nat :| i < |stored| && j < |goal| && newIds[j] == oldIds[i] && IsLastOfId(oldIds, i)
                         && ItemIsRefused(stored[i], goal[j], item, options) {
      RepeatedIds(oldIds, newIds, i, j);
      var a := CommonHas(from, j);
      assert Common(from)[a] == (i, j);
    }
  }

  lemma PlacesAreKept(stored: seq<Slot>, goal: seq<Value>, selector: Selector, item: Option<Schema>, options: InferOptions, list: seq<Slot>)
    requires |list| == |goal|
    requires var (oldIds, newIds) := (Ids(selector, ReadAll(stored)), Ids(selector, goal)); var from := From(IndexMap(oldIds), newIds);
      AllDistinct(oldIds) && forall j | 0 <= j < |goal| :: PlaceBecomes(stored, goal[j], from[j], list[j], item, options)
    ensures ItemsKept(stored, goal, selector, item, options, list)
  {
    var oldIds, newIds := Ids(selector, ReadAll(stored)), Ids(selector, goal);
    var from := From(IndexMap(oldIds), newIds);
    forall i, j | 0 <= i < |stored| && 0 <= j < |goal| && oldIds[i] == newIds[j]
      ensures ItemBecomes(stored[i], goal[j], item, options, list[j])
    {
      PairsEqualIds(oldIds, newIds, i, j);
    }
    forall j | 0 <= j < |goal| && newIds[j] !in oldIds
      ensures IsRightSlot(item, goal[j], list[j])
    {
      FromPairsIds(oldIds, newIds);
      assert from[j].None?;
    }
  }

  /** The script starts with deletions, a least set of moves and insertions, and where these put every item in its
      place, as they do for inputs in scope, it ends in the new list. */
  method DiffMovableList(stored: seq<Slot>, goal: seq<Value>, selector: Selector, item: Option<Schema>, options: InferOptions)
    returns (r: MovableResult, ghost lis: seq<nat>)
    requires IsStored(stored)
    ensures var (oldIds, newIds) := (Ids(selector, ReadAll(stored)), Ids(selector, goal));
      && IsLongestPick(OldIndices(Common(From(IndexMap(oldIds), newIds))), lis)
      && (r.Ok? ==> Head(Gone(oldIds, IndexMap(oldIds), newIds), goal, From(IndexMap(oldIds), newIds), lis, item) <= r.changes)
    ensures r.Ok? ==> InsertsRight(item, r.changes)
    ensures r.Err? <==> SomeIsRefused(stored, goal, selector, item, options)
    ensures IsInScope(stored, goal, selector, item, options) ==> IsArranged(stored, goal, selector, lis, item, options)
    ensures IsArranged(stored, goal, selector, lis, item, options) ==>
      r.Ok? && RunAll(stored, item, options, r.changes).Some? && ReadAll(RunAll(stored, item, options, r.changes).value) == goal
      && ItemsKept(stored, goal, selector, item, options, RunAll(stored, item, options, r.changes).value)
  {
    var oldIds, newIds := Ids(selector, ReadAll(stored)), Ids(selector, goal);
    var head, common;
    head, common, lis := DiffStructure(oldIds, newIds, goal, item);
    ghost var from := From(IndexMap(oldIds), newIds);
    ghost var regular := IsArranged(stored, goal, selector, lis, item, options);
    FromPairsIds(oldIds, newIds);
    RefusedPairs(stored, goal, selector, item, options);
    ghost var arranged := Arranged(stored, goal, from, item, options);
    if regular {
      ArrangedIsReady(stored, goal, selector, item, options, lis);
    }
    if IsInScope(stored, goal, selector, item, options) {
      ScopeArranges(stored, goal, selector, item, options, lis);
    }
    ghost var list;
    r, list := UpdateItems(stored, goal, selector, from, common, item, options, arranged, regular);
    if r.Ok? {
      RunAllAppends(stored, item, options, head, r.changes);
      r := Ok(head + r.changes);
      if regular {
        PlacesAreKept(stored, goal, selector, item, options, list);
      }
    }
  }

  // ----- the moves are as few as they can be

  /** In a rising part of 0..n, n - 1 can only be the last. */
  lemma TopOfPart(part: seq<nat>, n: nat)
    requires n > 0 && Rises(part) && forall a | 0 <= a < |part| :: part[a] < n
    ensures n - 1 in part <==> part != [] && part[|part| - 1] == n - 1
    ensures n - 1 in part ==> forall i: nat | i < n - 1 :: i in part <==> i in part[..|part| - 1]
    ensures n - 1 in part ==> forall a | 0 <= a < |part| - 1 :: part[a] < n - 1
    ensures n - 1 !in part ==> forall a | 0 <= a < |part| :: part[a] < n - 1
  {
    if part != [] {
      var m := |part| - 1;
      assert part == part[..m] + [part[m]];
      assert forall a | 0 <= a < m :: part[a] < part[m];
      assert forall a | 0 <= a <= m :: part[a] in part;
    }
  }

  lemma {:induction false} MovesAndPick(common: seq<(nat, nat)>, lis: seq<nat>, part: seq<nat>)
    requires Rises(part) && forall a | 0 <= a < |part| :: part[a] < |common|
    requires forall i: nat | i < |common| :: i in lis <==> i in part
    ensures |Moves(common, lis)| + |part| <= |common|
  {
    assert |part| > 0 ==> part[0] < |common|;
    if common != [] {
      var last := |common| - 1;
      TopOfPart(part, |common|);
      assert last in lis <==> last in part;
      MovesAndPick(common[..last], lis, if last in part then part[..|part| - 1] else part);
    }
  }

  /** No sequence of single-item moves that brings the survivors, in their old order, into the new order is
      shorter than the moves of the script. */
  lemma NoFewerMoves(oldIds: seq<Id>, newIds: seq<Id>, lis: seq<nat>, steps: seq<MoveBound.Step>)
    requires AllDistinct(oldIds) && AllDistinct(newIds)
    requires var common := Common(From(IndexMap(oldIds), newIds)); IsLongestPick(OldIndices(common), lis)
    requires var survivors: seq<int> := KeptPlaces(Gone(oldIds, IndexMap(oldIds), newIds));
      MoveBound.CanMoveAll(survivors, steps) && MoveBound.MoveAll(survivors, steps) == OldIndices(Common(From(IndexMap(oldIds), newIds)))
    ensures |Moves(Common(From(IndexMap(oldIds), newIds)), lis)| <= |steps|
  {
    var common := Common(From(IndexMap(oldIds), newIds));
    var survivors: seq<int> := KeptPlaces(Gone(oldIds, IndexMap(oldIds), newIds));
    KeptPlacesRise(Gone(oldIds, IndexMap(oldIds), newIds));
    MoveBound.FewestMoves(survivors, OldIndices(common), steps, lis);
    MovesAndPick(common, lis, lis);
  }

  // ----- where it goes wrong

  lemma ReversalMoves(lis: seq<nat>)
    requires forall i | 3 <= i :: i !in lis
    ensures Moves([(2, 0), (1, 1), (0, 2)], lis) ==
      (if 0 !in lis then [MoveTo(2, 0)] else []) + (if 2 !in lis then [MoveTo(0, 2)] else [])
  {
    var c: seq<(nat, nat)> := [(2, 0), (1, 1), (0, 2)];
    assert c[..2] == [(2, 0), (1, 1)] && c[..2][..1] == [(2, 0)] && |c[..2][..1][..0]| == 0;
    assert Moves(c[..2][..1], lis) == if 0 !in lis then [MoveTo(2, 0)] else [];
    assert Moves(c[..2], lis) == Moves(c[..2][..1], lis);
  }

  lemma PickOfTwoRises(s: seq<int>, pick: seq<nat>)
    requires Lis.IsIncreasingPick(s, pick) && |pick| > 1
    ensures exists i, j :: 0 <= i < j < |s| && s[i] < s[j]
  {
    assert pick[0] < pick[1] && s[pick[0]] < s[pick[1]];
  }

  lemma ReversalPick(lis: seq<nat>)
    requires IsLongestPick([2, 1, 0], lis)
    ensures |lis| == 1 && lis[0] < 3
  {
    var s: seq<int> := [2, 1, 0];
    assert forall i | 0 <= i < 3 :: s[i] == 2 - i;
    if |lis| > 1 {
      PickOfTwoRises(s, lis);
      assert false;
    }
    assert Lis.IsIncreasingPick(s, [0]);
  }

  lemma ThreeMoved(a: Slot, b: Slot, c: Slot)
    ensures With(Without([a, b, c], 0), 2, a) == [b, c, a]
    ensures With(Without([a, b, c], 2), 0, c) == [c, a, b]
  {
  }

  /** The three scripts that can come out, and what each of them leaves. */
  lemma ReversedRuns(a: Slot, b: Slot, c: Slot, item: Option<Schema>, options: InferOptions)
    ensures RunAll([a, b, c], item, options, [MoveTo(0, 2)]) == Some([b, c, a])
    ensures RunAll([a, b, c], item, options, [MoveTo(2, 0)]) == Some([c, a, b])
    ensures RunAll([a, b, c], item, options, [MoveTo(2, 0), MoveTo(0, 2)]) == Some([a, b, c])
  {
    ThreeMoved(a, b, c);
    ThreeMoved(c, a, b);
    OneMoveRuns(a, b, c, item, options);
    RunTwo([a, b, c], item, options, MoveTo(2, 0), MoveTo(0, 2));
  }

  lemma OneMoveRuns(a: Slot, b: Slot, c: Slot, item: Option<Schema>, options: InferOptions)
    ensures RunAll([a, b, c], item, options, [MoveTo(0, 2)]) == Some(With(Without([a, b, c], 0), 2, a))
    ensures RunAll([a, b, c], item, options, [MoveTo(2, 0)]) == Some(With(Without([a, b, c], 2), 0, c))
  {
    RunFirst([a, b, c], item, options, MoveTo(0, 2), []);
    RunFirst([a, b, c], item, options, MoveTo(2, 0), []);
    assert [MoveTo(0, 2)] + [] == [MoveTo(0, 2)] && [MoveTo(2, 0)] + [] == [MoveTo(2, 0)];
  }

  /** Reversing three items: whichever longest pick is kept, the stale indices and the skipped middle item
      leave the list in another order than the one asked for. */
  lemma ReversalGoesWrong(a: Slot, b: Slot, c: Slot, lis: seq<nat>, item: Option<Schema>, options: InferOptions)
    requires a != b && b != c && a != c
    requires IsLongestPick([2, 1, 0], lis)
    ensures RunAll([a, b, c], item, options, Moves([(2, 0), (1, 1), (0, 2)], lis)) != Some([c, b, a])
  {
    ReversalPick(lis);
    ReversalMoves(lis);
    ReversedRuns(a, b, c, item, options);
    assert [b, c, a][0] != [c, b, a][0] && [c, a, b][1] != [c, b, a][1] && [a, b, c][0] != [c, b, a][0];
  }
}
