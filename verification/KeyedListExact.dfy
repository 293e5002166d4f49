/** Exactly when the keyed-list script ends in the new list. The scan stops deleting once the new list has
    run out (crates/vt-mirror/src/diff.rs:412-415), so an unused tail of the old list survives. */
module KeyedListExact {
  import opened Prelude
  import opened MirrorState
  import opened ListScript
  import opened KeyedList

  // ----- the script ends in the new list exactly when it passes nothing over

  /** From old item `i` and new item `j` on, no old item is left standing beside its counterpart. */
  predicate PassesNone(was: seq<Value>, goal: seq<Value>, oldIds: seq<Id>, newIds: seq<Id>, i: nat, j: nat)
    requires i <= |was| == |oldIds| && j <= |goal| == |newIds|
    decreases |was| - i + |goal| - j
  {
    if i == |was| then true
    else if j == |goal| then false
    else if was[i] == goal[j] then PassesNone(was, goal, oldIds, newIds, i + 1, j + 1)
    else if oldIds[i].None? || newIds[j].None? then false
    else if oldIds[i] == newIds[j] then PassesNone(was, goal, oldIds, newIds, i + 1, j + 1)
    else if newIds[j] !in oldIds then PassesNone(was, goal, oldIds, newIds, i, j + 1)
    else PassesNone(was, goal, oldIds, newIds, i + 1, j)
  }

  lemma {:induction false} MergedIsLong(was: seq<Value>, goal: seq<Value>, oldIds: seq<Id>, newIds: seq<Id>, i: nat, j: nat)
    requires i <= |was| == |oldIds| && j <= |goal| == |newIds|
    ensures |Merged(was, goal, oldIds, newIds, i, j)| >= |goal| - j
    decreases |was| - i + |goal| - j
  {
    if i < |was| {
      MergedIsLong(was, goal, oldIds, newIds, i + 1, j);
      if j < |goal| {
        MergedIsLong(was, goal, oldIds, newIds, i, j + 1);
        MergedIsLong(was, goal, oldIds, newIds, i + 1, j + 1);
      }
    }
  }

  lemma NextExactly(goal: seq<Value>, j: nat, rest: seq<Value>)
    requires j < |goal|
    ensures [goal[j]] + rest == goal[j..] <==> rest == goal[j + 1..]
  {
    assert goal[j..] == [goal[j]] + goal[j + 1..];
    assert ([goal[j]] + rest)[1..] == rest && goal[j..][1..] == goal[j + 1..];
  }

  /** What is passed over makes the result too long, and nothing else can be wrong with it. */
  lemma {:induction false} MergedExactly(was: seq<Value>, goal: seq<Value>, oldIds: seq<Id>, newIds: seq<Id>, i: nat, j: nat)
    requires i <= |was| == |oldIds| && j <= |goal| == |newIds|
    ensures Merged(was, goal, oldIds, newIds, i, j) == goal[j..] <==> PassesNone(was, goal, oldIds, newIds, i, j)
    decreases |was| - i + |goal| - j
  {
    if i == |was| {
    } else if j < |goal| && (was[i] == goal[j] || (oldIds[i].Some? && oldIds[i] == newIds[j])) {
      MergedExactly(was, goal, oldIds, newIds, i + 1, j + 1);
      NextExactly(goal, j, Merged(was, goal, oldIds, newIds, i + 1, j + 1));
    } else if j == |goal| || oldIds[i].None? || newIds[j].None? {
      MergedIsLong(was, goal, oldIds, newIds, i + 1, j);
      assert |Merged(was, goal, oldIds, newIds, i, j)| > |goal| - j;
    } else if newIds[j] !in oldIds {
      MergedExactly(was, goal, oldIds, newIds, i, j + 1);
      NextExactly(goal, j, Merged(was, goal, oldIds, newIds, i, j + 1));
    } else {
      MergedExactly(was, goal, oldIds, newIds, i + 1, j);
    }
  }

  /** Without ids the script can only add at the end: the old list must be where the new one begins. */
  lemma {:induction false} NoIdsExactly(was: seq<Value>, goal: seq<Value>, oldIds: seq<Id>, newIds: seq<Id>, i: nat)
    requires i <= |was| == |oldIds| && |goal| == |newIds| && i <= |goal|
    requires forall k | 0 <= k < |oldIds| :: oldIds[k].None?
    ensures PassesNone(was, goal, oldIds, newIds, i, i) <==> was[i..] <= goal[i..]
    decreases |was| - i
  {
    if i < |was| && i < |goal| {
      NoIdsExactly(was, goal, oldIds, newIds, i + 1);
      assert was[i..] == [was[i]] + was[i + 1..] && goal[i..] == [goal[i]] + goal[i + 1..];
    }
  }

  // ----- when every item has an id

  /** Every item has an id and the items' own edits land. */
  ghost predicate IsRegular(stored: seq<Slot>, goal: seq<Value>, selector: Selector, item: Option<Schema>, options: InferOptions) {
    AllHaveIds(selector, ReadAll(stored)) && AllHaveIds(selector, goal) && ItemsLand(stored, goal, selector, item, options)
  }

  /** The old index at which the scan has used up the new list; the old list's length when it never does
      before the old items run out. Only the ids matter. */
  function Reach(old_: seq<Option<string>>, goal: seq<Option<string>>, i: nat, j: nat): (k: nat)
    requires i <= |old_| && j <= |goal|
    ensures i <= k <= |old_|
    decreases |old_| - i + |goal| - j
  {
    if j == |goal| then i
    else if i == |old_| then |old_|
    else if old_[i] == goal[j] then Reach(old_, goal, i + 1, j + 1)
    else if goal[j] !in old_ then Reach(old_, goal, i, j + 1)
    else Reach(old_, goal, i + 1, j)
  }

  /** With ids on both sides the script leaves the new list, followed by the old items it had not looked at when the
      new list ran out. */
  lemma {:induction false} MergedIsReach(was: seq<Value>, goal: seq<Value>, selector: Selector, i: nat, j: nat)
    requires AllHaveIds(selector, was) && AllHaveIds(selector, goal) && i <= |was| && j <= |goal|
    ensures Merged(was, goal, Ids(selector, was), Ids(selector, goal), i, j) ==
      goal[j..] + was[Reach(Ids(selector, was), Ids(selector, goal), i, j)..]
    decreases |was| - i + |goal| - j
  {
    var o, g := Ids(selector, was), Ids(selector, goal);
    if i == |was| {
      assert goal[j..] + [] == goal[j..];
    } else if j == |goal| {
      MergedIsReach(was, goal, selector, i + 1, j);
      assert was[i..] == [was[i]] + was[i + 1..];
      assert [] + was[i..] == was[i..] && [] + was[i + 1..] == was[i + 1..];
    } else {
      assert goal[j..] == [goal[j]] + goal[j + 1..];
      assert o[i].Some? && g[j].Some?;
      if o[i] == g[j] {
        MergedIsReach(was, goal, selector, i + 1, j + 1);
        ThreeParts(goal[j], goal[j + 1..], was[Reach(o, g, i + 1, j + 1)..]);
      } else if g[j] !in o {
        MergedIsReach(was, goal, selector, i, j + 1);
        ThreeParts(goal[j], goal[j + 1..], was[Reach(o, g, i, j + 1)..]);
      } else {
        MergedIsReach(was, goal, selector, i + 1, j);
      }
    }
  }

  lemma ThreeParts(v: Value, middle: seq<Value>, end: seq<Value>)
    ensures [v] + (middle + end) == ([v] + middle) + end
  {
  }

  ghost predicate IsDistinct(ids: seq<Id>) {
    forall i, j | 0 <= i < j < |ids| :: ids[i] != ids[j]
  }

  /** Old item `q` is kept, and the scan goes to the end because of it: it is the last one, the scan is past
      it already, or a kept item that stood after it comes before it now. */
  ghost predicate ForcesEnd(was: seq<Id>, goal: seq<Id>, i: nat, j: nat, b: nat, q: nat) {
    && j <= b < |goal| && q < |was| && goal[b] == was[q]
    && (q == |was| - 1 || q < i || exists a, p :: j <= a < b && q < p < |was| && goal[a] == was[p])
  }

  ghost predicate GoesToEnd(was: seq<Id>, goal: seq<Id>, i: nat, j: nat) {
    i == |was| || exists b: nat, q: nat :: ForcesEnd(was, goal, i, j, b, q)
  }

  lemma {:induction false} ReachIsEnd(was: seq<Id>, goal: seq<Id>, i: nat, j: nat)
    requires IsDistinct(was) && IsDistinct(goal) && i <= |was| && j <= |goal|
    ensures Reach(was, goal, i, j) == |was| <==> GoesToEnd(was, goal, i, j)
    decreases |was| - i + |goal| - j
  {
    if j == |goal| || i == |was| {
    } else if was[i] == goal[j] {
      ReachIsEnd(was, goal, i + 1, j + 1);
      AfterMatch(was, goal, i, j);
    } else if goal[j] !in was {
      ReachIsEnd(was, goal, i, j + 1);
      AfterInsert(was, goal, i, j);
    } else {
      ReachIsEnd(was, goal, i + 1, j);
      AfterDrop(was, goal, i, j);
    }
  }

  lemma AfterInsert(was: seq<Id>, goal: seq<Id>, i: nat, j: nat)
    requires i < |was| && j < |goal| && goal[j] !in was
    ensures GoesToEnd(was, goal, i, j) <==> GoesToEnd(was, goal, i, j + 1)
  {
    if GoesToEnd(was, goal, i, j) {
      var b: nat, q: nat :| ForcesEnd(was, goal, i, j, b, q);
      assert ForcesEnd(was, goal, i, j + 1, b, q);
    }
    if GoesToEnd(was, goal, i, j + 1) {
      var b: nat, q: nat :| ForcesEnd(was, goal, i, j + 1, b, q);
      assert ForcesEnd(was, goal, i, j, b, q);
    }
  }

  lemma AfterMatch(was: seq<Id>, goal: seq<Id>, i: nat, j: nat)
    requires IsDistinct(was) && IsDistinct(goal) && i < |was| && j < |goal| && was[i] == goal[j]
    ensures GoesToEnd(was, goal, i, j) <==> GoesToEnd(was, goal, i + 1, j + 1)
  {
    if i + 1 == |was| {
      assert ForcesEnd(was, goal, i, j, j, i);
    } else {
      if GoesToEnd(was, goal, i, j) {
        var b: nat, q: nat :| ForcesEnd(was, goal, i, j, b, q);
        assert ForcesEnd(was, goal, i + 1, j + 1, b, q);
      }
      if GoesToEnd(was, goal, i + 1, j + 1) {
        var b: nat, q: nat :| ForcesEnd(was, goal, i + 1, j + 1, b, q);
        assert ForcesEnd(was, goal, i, j, b, q);
      }
    }
  }

  lemma AfterDrop(was: seq<Id>, goal: seq<Id>, i: nat, j: nat)
    requires IsDistinct(was) && IsDistinct(goal) && i < |was| && j < |goal| && was[i] != goal[j] && goal[j] in was
    ensures GoesToEnd(was, goal, i, j) <==> GoesToEnd(was, goal, i + 1, j)
  {
    var p :| 0 <= p < |was| && was[p] == goal[j];
    if p < i {
      assert ForcesEnd(was, goal, i, j, j, p);
      assert ForcesEnd(was, goal, i + 1, j, j, p);
    } else {
      if GoesToEnd(was, goal, i, j) {
        var b: nat, q: nat :| ForcesEnd(was, goal, i, j, b, q);
        assert ForcesEnd(was, goal, i + 1, j, b, q);
      }
      if GoesToEnd(was, goal, i + 1, j) {
        var b: nat, q: nat :| ForcesEnd(was, goal, i + 1, j, b, q);
        if q == i {
          assert j < b && q < p && goal[j] == was[p];
        }
        assert ForcesEnd(was, goal, i, j, b, q);
      }
    }
  }

  /** The kept items stand in another order than before. */
  ghost predicate SurvivorsReordered(was: seq<Id>, goal: seq<Id>) {
    exists a: nat, b: nat, p: nat, q: nat :: a < b < |goal| && q < p < |was| && goal[a] == was[p] && goal[b] == was[q]
  }

  /** The old list was empty, its last item is kept, or the kept items were reordered. */
  ghost predicate EndsInGoal(was: seq<Id>, goal: seq<Id>) {
    |was| == 0 || was[|was| - 1] in goal || SurvivorsReordered(was, goal)
  }

  lemma KeyedScriptIsExact(was: seq<Value>, goal: seq<Value>, selector: Selector)
    requires DistinctIds(selector, was) && DistinctIds(selector, goal)
    ensures var (o, g) := (Ids(selector, was), Ids(selector, goal));
      goal + was[Reach(o, g, 0, 0)..] == goal <==> EndsInGoal(o, g)
  {
    var o, g := Ids(selector, was), Ids(selector, goal);
    EndCondition(o, g);
    assert |goal + was[Reach(o, g, 0, 0)..]| == |goal| <==> Reach(o, g, 0, 0) == |was|;
  }

  lemma EndCondition(o: seq<Id>, g: seq<Id>)
    requires IsDistinct(o) && IsDistinct(g)
    ensures Reach(o, g, 0, 0) == |o| <==> EndsInGoal(o, g)
  {
    ReachIsEnd(o, g, 0, 0);
    if |o| > 0 && o[|o| - 1] in g {
      var b: nat :| b < |g| && g[b] == o[|o| - 1];
      assert ForcesEnd(o, g, 0, 0, b, |o| - 1);
    } else if SurvivorsReordered(o, g) {
      var a: nat, b: nat, p: nat, q: nat :| a < b < |g| && q < p < |o| && g[a] == o[p] && g[b] == o[q];
      ReorderForcesEnd(o, g, a, b, p, q);
    } else if |o| > 0 && GoesToEnd(o, g, 0, 0) {
      var b: nat, q: nat :| ForcesEnd(o, g, 0, 0, b, q);
      EndForcesReorder(o, g, b, q);
    }
  }

  lemma ReorderForcesEnd(o: seq<Id>, g: seq<Id>, a: nat, b: nat, p: nat, q: nat)
    requires a < b < |g| && q < p < |o| && g[a] == o[p] && g[b] == o[q]
    ensures ForcesEnd(o, g, 0, 0, b, q)
  {
  }

  lemma EndForcesReorder(o: seq<Id>, g: seq<Id>, b: nat, q: nat)
    requires ForcesEnd(o, g, 0, 0, b, q) && q != |o| - 1
    ensures SurvivorsReordered(o, g)
  {
    var a, p :| 0 <= a < b && q < p < |o| && g[a] == o[p];
  }

  /** The script never leaves the list, inserts every item as the container it should become, and ends in a merge of the
      two lists in which a kept container stays the container it was. Where the items' own edits land, the values end in
      `Merged`, which is the new list exactly when no old item is passed over. With ids on both sides that is the new
      list followed by the old items not looked at, and with distinct ids the new list alone exactly when the old list
      was empty, its last item is kept, or the kept items were reordered. */
  method DiffListWithIdSelector(stored: seq<Slot>, goal: seq<Value>, selector: Selector, item: Option<Schema>, options: InferOptions)
    returns (r: ListResult)
    requires IsStored(stored)
    ensures r.Ok? ==> RunAll(stored, item, options, r.changes).Some? && InsertsRight(item, r.changes)
    ensures r.Ok? ==> IsMerge(stored, goal, Ids(selector, ReadAll(stored)), Ids(selector, goal), item, options, 0, 0,
                              RunAll(stored, item, options, r.changes).value)
    ensures r.Err? <==> MergeIsRefused(stored, goal, Ids(selector, ReadAll(stored)), Ids(selector, goal), item, options, 0, 0)
    ensures ItemsLand(stored, goal, selector, item, options) ==>
      r.Ok? && EndsExactly(stored, goal, selector, ReadAll(RunAll(stored, item, options, r.changes).value))
  {
    var job := Job(stored, goal, selector, Ids(selector, ReadAll(stored)), Ids(selector, goal), item, options,
                   ItemsLand(stored, goal, selector, item, options));
    ghost var reached;
    var used, place;
    r, place, used, reached := ScanOld(job);
    if r.Err? {
      return;
    }
    r, reached := AppendNew(job, r.changes, reached, place, used);
    if job.regular {
      MergedEnds(stored, goal, selector);
    }
  }

  /** What the script is proved to end in, and when that is the new list. */
  ghost predicate EndsExactly(stored: seq<Slot>, goal: seq<Value>, selector: Selector, end: seq<Value>) {
    var was := ReadAll(stored);
    var o, g := Ids(selector, was), Ids(selector, goal);
    && end == Merged(was, goal, o, g, 0, 0)
    && (end == goal <==> PassesNone(was, goal, o, g, 0, 0))
    && (AllHaveIds(selector, was) && AllHaveIds(selector, goal) ==> end == goal + was[Reach(o, g, 0, 0)..])
    && (DistinctIds(selector, was) && DistinctIds(selector, goal) ==> (end == goal <==> EndsInGoal(o, g)))
  }

  lemma MergedEnds(stored: seq<Slot>, goal: seq<Value>, selector: Selector)
    ensures EndsExactly(stored, goal, selector, Merged(ReadAll(stored), goal, Ids(selector, ReadAll(stored)), Ids(selector, goal), 0, 0))
  {
    var was := ReadAll(stored);
    assert goal[0..] == goal;
    MergedExactly(was, goal, Ids(selector, was), Ids(selector, goal), 0, 0);
    if AllHaveIds(selector, was) && AllHaveIds(selector, goal) {
      MergedIsReach(was, goal, selector, 0, 0);
      if DistinctIds(selector, was) && DistinctIds(selector, goal) {
        KeyedScriptIsExact(was, goal, selector);
      }
    }
  }

  lemma {:induction false} ReachOfPrefix(o: seq<Id>, k: nat, i: nat)
    requires IsDistinct(o) && i <= k <= |o|
    ensures Reach(o, o[..k], i, i) == k
    decreases k - i
  {
    if i < k {
      ReachOfPrefix(o, k, i + 1);
    }
  }

  /** The script that should drop the end of a list, however long, leaves all of it in place. */
  method DropEnd(stored: seq<Slot>, k: nat, selector: Selector, item: Option<Schema>, options: InferOptions) returns (r: ListResult)
    requires IsStored(stored) && k <= |stored| && DistinctIds(selector, ReadAll(stored))
    requires IsRegular(stored, ReadAll(stored)[..k], selector, item, options)
    ensures r.Ok? && RunAll(stored, item, options, r.changes).Some?
    ensures ReadAll(RunAll(stored, item, options, r.changes).value) == ReadAll(stored)
  {
    ghost var was := ReadAll(stored);
    assert AllHaveIds(selector, was[..k]);
    r := DiffListWithIdSelector(stored, ReadAll(stored)[..k], selector, item, options);
    assert Ids(selector, was[..k]) == Ids(selector, was)[..k];
    ReachOfPrefix(Ids(selector, was), k, 0);
    assert was[..k] + was[k..] == was;
  }
}
