/** The parts of the movable-list script and where they lead: deletions from the back, moves of the items
    outside a longest increasing pick, insertions from the front (crates/vt-mirror/src/diff.rs:277-328). */
module MovableScript {
  import opened Prelude
  import opened MirrorState
  import opened ListScript
  import opened Lis

  // ----- the parts

  function Deletes(gone: seq<bool>): seq<ListChange> {
    if gone == [] then []
    else
      var last := |gone| - 1;
      (if gone[last] then [DeleteAt(last)] else []) + Deletes(gone[..last])
  }

  /** The items found in both lists, in the new order: where each was and where it is wanted. */
  function Common(from: seq<Option<nat>>): seq<(nat, nat)> {
    if from == [] then []
    else
      var last := |from| - 1;
      Common(from[..last]) + if from[last].Some? then [(from[last].value, last)] else []
  }

  function OldIndices(common: seq<(nat, nat)>): (olds: seq<int>)
    ensures |olds| == |common|
  {
    seq(|common|, i requires 0 <= i < |common| => common[i].0)
  }

  function Moves(common: seq<(nat, nat)>, lis: seq<nat>): seq<ListChange> {
    if common == [] then []
    else
      var last := |common| - 1;
      Moves(common[..last], lis) +
      if last !in lis && common[last].0 != common[last].1 then [MoveTo(common[last].0, common[last].1)] else []
  }

  function Inserts(goal: seq<Value>, from: seq<Option<nat>>, item: Option<Schema>): seq<ListChange>
    requires |from| == |goal|
  {
    if goal == [] then []
    else
      var last := |goal| - 1;
      Inserts(goal[..last], from[..last], item) +
      if from[last].None? then [InsertAt(last, goal[last], ChildType(item, goal[last]))] else []
  }

  /** The slots the list should hold before values are brought up to date. */
  function Arranged(stored: seq<Slot>, goal: seq<Value>, from: seq<Option<nat>>, item: Option<Schema>, options: InferOptions): (list: seq<Slot>)
    requires |from| == |goal| && forall f | f in from && f.Some? :: f.value < |stored|
    ensures |list| == |goal|
  {
    seq(|goal|, j requires 0 <= j < |goal| =>
      assert from[j] in from;
      if from[j].Some? then stored[from[j].value] else NewSlot(item, options, goal[j], ChildType(item, goal[j])))
  }

  // ----- increasing sequences

  ghost predicate Rises(s: seq<int>) {
    forall i, j | 0 <= i < j < |s| :: s[i] < s[j]
  }

  lemma {:induction false} RisingWithSameMembers(a: seq<int>, b: seq<int>)
    requires Rises(a) && Rises(b) && forall x :: x in a <==> x in b
    ensures a == b
  {
    assert |a| > 0 ==> a[0] in a && a[0] in b;
    assert |b| > 0 ==> b[0] in b && b[0] in a;
    if a != [] && b != [] {
      var m, n := |a| - 1, |b| - 1;
      assert a[m] in a && b[n] in b;
      assert a[m] == b[n];
      forall x
        ensures x in a[..m] <==> x in b[..n]
      {
        assert x in a[..m] <==> x in a && x != a[m];
        assert x in b[..n] <==> x in b && x != b[n];
      }
      RisingWithSameMembers(a[..m], b[..n]);
    }
  }

  /** A rising choice of all places is every place; of all but one, it leaves out one place. */
  lemma {:induction false} FullChoice(pick: seq<nat>, n: nat)
    requires Rises(pick) && |pick| >= n && forall a | 0 <= a < |pick| :: pick[a] < n
    ensures |pick| == n && forall a | 0 <= a < n :: pick[a] == a
  {
    if pick != [] {
      var last := |pick| - 1;
      forall a | 0 <= a < last
        ensures pick[a] < n - 1
      {
        assert pick[a] < pick[last];
      }
      assert 0 <= pick[last] < n;
      FullChoice(pick[..last], n - 1);
      assert forall a | 0 <= a < last :: pick[a] == pick[..last][a] == a;
      assert last > 0 ==> pick[last - 1] < pick[last];
    }
  }

  lemma {:induction false} AlmostFullChoice(pick: seq<nat>, n: nat) returns (e: nat)
    requires Rises(pick) && |pick| + 1 == n && forall a | 0 <= a < |pick| :: pick[a] < n
    ensures e < n && forall a | 0 <= a < |pick| :: pick[a] == if a < e then a else a + 1
  {
    var last := |pick| - 1;
    if pick == [] || pick[last] < n - 1 {
      e := n - 1;
      forall a | 0 <= a < |pick|
        ensures pick[a] < n - 1
      {
        assert a < last ==> pick[a] < pick[last];
      }
      FullChoice(pick, n - 1);
    } else {
      forall a | 0 <= a < last
        ensures pick[..last][a] < n - 1
      {
        assert pick[a] < pick[last];
      }
      e := AlmostFullChoice(pick[..last], n - 1);
      assert forall a | 0 <= a < last :: pick[a] == pick[..last][a];
    }
  }

  // ----- deletions

  function KeptPlaces(gone: seq<bool>): (places: seq<nat>)
    ensures forall i | 0 <= i < |places| :: places[i] < |gone|
  {
    if gone == [] then []
    else
      var last := |gone| - 1;
      KeptPlaces(gone[..last]) + if gone[last] then [] else [last]
  }

  function Kept(list: seq<Slot>, gone: seq<bool>): (kept: seq<Slot>)
    requires |gone| == |list|
    ensures |kept| == |KeptPlaces(gone)|
  {
    seq(|KeptPlaces(gone)|, i requires 0 <= i < |KeptPlaces(gone)| => list[KeptPlaces(gone)[i]])
  }

  lemma {:induction false} KeptPlacesRise(gone: seq<bool>)
    ensures Rises(KeptPlaces(gone))
    ensures forall x | 0 <= x < |gone| :: x in KeptPlaces(gone) <==> !gone[x]
  {
    if gone != [] {
      var last := |gone| - 1;
      KeptPlacesRise(gone[..last]);
      forall x | 0 <= x < |gone|
        ensures x in KeptPlaces(gone) <==> !gone[x]
      {
        if x < last {
          assert x in KeptPlaces(gone[..last]) <==> !gone[..last][x];
        }
      }
    }
  }

  lemma KeptLast(list: seq<Slot>, gone: seq<bool>)
    requires |gone| == |list| > 0
    ensures var last := |gone| - 1;
      Kept(list, gone) == Kept(list[..last], gone[..last]) + if gone[last] then [] else [list[last]]
  {
  }

  lemma DeleteAtBack(list: seq<Slot>, tail: seq<Slot>, gone: seq<bool>, item: Option<Schema>, options: InferOptions)
    requires |gone| == |list| > 0 && gone[|gone| - 1]
    ensures RunAll(list + tail, item, options, Deletes(gone))
      == RunAll(list[..|list| - 1] + tail, item, options, Deletes(gone[..|gone| - 1]))
  {
    var last := |gone| - 1;
    var rest := Deletes(gone[..last]);
    calc {
      RunAll(list + tail, item, options, Deletes(gone));
    == { assert Deletes(gone) == [DeleteAt(last)] + rest; }
      RunAll(list + tail, item, options, [DeleteAt(last)] + rest);
    == { RunFirst(list + tail, item, options, DeleteAt(last), rest); }
      RunAll(Without(list + tail, last), item, options, rest);
    == { assert Without(list + tail, last) == list[..last] + tail; }
      RunAll(list[..last] + tail, item, options, rest);
    }
  }

  lemma KeepAtBack(list: seq<Slot>, tail: seq<Slot>, gone: seq<bool>)
    requires |gone| == |list| > 0 && !gone[|gone| - 1]
    ensures list[..|list| - 1] + ([list[|list| - 1]] + tail) == list + tail
    ensures Kept(list[..|list| - 1], gone[..|gone| - 1]) + ([list[|list| - 1]] + tail) == Kept(list, gone) + tail
    ensures Deletes(gone) == Deletes(gone[..|gone| - 1])
  {
    KeptLast(list, gone);
  }

  /** Deleting from the back leaves the items not deleted, in order. */
  lemma {:induction false} DeletesKeep(list: seq<Slot>, tail: seq<Slot>, gone: seq<bool>, item: Option<Schema>, options: InferOptions)
    requires |gone| == |list|
    ensures RunAll(list + tail, item, options, Deletes(gone)) == Some(Kept(list, gone) + tail)
    decreases |gone|
  {
    if gone == [] {
      assert list + tail == tail && Kept(list, gone) + tail == tail;
    } else if gone[|gone| - 1] {
      DeleteAtBack(list, tail, gone, item, options);
      DeletesKeep(list[..|list| - 1], tail, gone[..|gone| - 1], item, options);
      KeptLast(list, gone);
      assert Kept(list, gone) == Kept(list[..|list| - 1], gone[..|gone| - 1]);
    } else {
      KeepAtBack(list, tail, gone);
      DeletesKeep(list[..|list| - 1], [list[|list| - 1]] + tail, gone[..|gone| - 1], item, options);
    }
  }

  // ----- insertions

  ghost predicate PointsInto(from: seq<Option<nat>>, n: nat) {
    forall f | f in from && f.Some? :: f.value < n
  }

  lemma {:induction false} CommonMembers(from: seq<Option<nat>>)
    ensures forall x: nat :: x in OldIndices(Common(from)) <==> Some(x) in from
    ensures forall i | 0 <= i < |Common(from)| :: 0 <= Common(from)[i].1 < |from| && from[Common(from)[i].1] == Some(Common(from)[i].0)
  {
    if from != [] {
      var last := |from| - 1;
      CommonMembers(from[..last]);
      var front := OldIndices(Common(from[..last]));
      assert OldIndices(Common(from)) == front + if from[last].Some? then [from[last].value] else [];
      assert forall f :: f in from <==> f in from[..last] || f == from[last];
    }
  }

  lemma ArrangedLast(stored: seq<Slot>, goal: seq<Value>, from: seq<Option<nat>>, item: Option<Schema>, options: InferOptions)
    requires |from| == |goal| > 0 && PointsInto(from, |stored|)
    ensures var last := |goal| - 1;
      && PointsInto(from[..last], |stored|) && from[last] in from
      && Arranged(stored, goal, from, item, options)
      == Arranged(stored, goal[..last], from[..last], item, options)
       + [if from[last].Some? then stored[from[last].value] else NewSlot(item, options, goal[last], ChildType(item, goal[last]))]
  {
    assert forall f | f in from[..|goal| - 1] :: f in from;
  }

  lemma InsertAtBack(front: seq<Slot>, tail: seq<Slot>, c: ListChange, item: Option<Schema>, options: InferOptions)
    requires c.InsertAt? && c.index == |front|
    ensures Run(front + tail, item, options, c) == Some(front + [NewSlot(item, options, c.value, c.child)] + tail)
  {
  }

  /** `done` is the list once the insertions among the first `n` new items have run. */
  ghost predicate IsInserted(kept: seq<Slot>, stored: seq<Slot>, goal: seq<Value>, from: seq<Option<nat>>,
                             item: Option<Schema>, options: InferOptions)
    requires |from| == |goal| && PointsInto(from, |stored|) && |Common(from)| <= |kept|
  {
    RunAll(kept, item, options, Inserts(goal, from, item))
      == Some(Arranged(stored, goal, from, item, options) + kept[|Common(from)|..])
  }

  lemma InsertedPastKept(kept: seq<Slot>, stored: seq<Slot>, goal: seq<Value>, from: seq<Option<nat>>, item: Option<Schema>, options: InferOptions)
    requires |from| == |goal| > 0 && PointsInto(from, |stored|) && PointsInto(from[..|goal| - 1], |stored|)
    requires |Common(from)| <= |kept| && from[|goal| - 1].Some? && from[|goal| - 1].value < |stored|
    requires kept[|Common(from)| - 1] == stored[from[|goal| - 1].value]
    requires IsInserted(kept, stored, goal[..|goal| - 1], from[..|goal| - 1], item, options)
    ensures IsInserted(kept, stored, goal, from, item, options)
  {
    var last := |goal| - 1;
    ArrangedLast(stored, goal, from, item, options);
    var front := Arranged(stored, goal[..last], from[..last], item, options);
    var n := |Common(from[..last])|;
    assert Inserts(goal, from, item) == Inserts(goal[..last], from[..last], item);
    assert front + kept[n..] == front + [kept[n]] + kept[n + 1..];
  }

  lemma InsertedNew(kept: seq<Slot>, stored: seq<Slot>, goal: seq<Value>, from: seq<Option<nat>>, item: Option<Schema>, options: InferOptions)
    requires |from| == |goal| > 0 && PointsInto(from, |stored|) && PointsInto(from[..|goal| - 1], |stored|)
    requires |Common(from)| <= |kept| && from[|goal| - 1].None?
    requires IsInserted(kept, stored, goal[..|goal| - 1], from[..|goal| - 1], item, options)
    ensures IsInserted(kept, stored, goal, from, item, options)
  {
    var last := |goal| - 1;
    ArrangedLast(stored, goal, from, item, options);
    var c := InsertAt(last, goal[last], ChildType(item, goal[last]));
    var front := Arranged(stored, goal[..last], from[..last], item, options);
    assert Common(from) == Common(from[..last]);
    RunOneMore(kept, item, options, Inserts(goal[..last], from[..last], item), c);
    InsertAtBack(front, kept[|Common(from)|..], c, item, options);
  }

  /** With the common items already in order, the insertions from the front complete the list. */
  lemma {:induction false} InsertsComplete(kept: seq<Slot>, stored: seq<Slot>, goal: seq<Value>, from: seq<Option<nat>>,
                                           item: Option<Schema>, options: InferOptions)
    requires |from| == |goal| && PointsInto(from, |stored|) && |Common(from)| <= |kept|
    requires forall i | 0 <= i < |Common(from)| :: Common(from)[i].0 < |stored| && kept[i] == stored[Common(from)[i].0]
    ensures IsInserted(kept, stored, goal, from, item, options)
    decreases |goal|
  {
    if goal == [] {
      assert Arranged(stored, goal, from, item, options) + kept[0..] == kept;
    } else {
      var last := |goal| - 1;
      assert forall f | f in from[..last] :: f in from;
      assert Common(from[..last]) <= Common(from);
      InsertsComplete(kept, stored, goal[..last], from[..last], item, options);
      assert from[last] in from;
      if from[last].Some? {
        assert Common(from)[|Common(from)| - 1] == (from[last].value, last);
        InsertedPastKept(kept, stored, goal, from, item, options);
      } else {
        InsertedNew(kept, stored, goal, from, item, options);
      }
    }
  }

  // ----- the whole head of the script

  function Head(gone: seq<bool>, goal: seq<Value>, from: seq<Option<nat>>, lis: seq<nat>, item: Option<Schema>): seq<ListChange>
    requires |from| == |goal|
  {
    Deletes(gone) + Moves(Common(from), lis) + Inserts(goal, from, item)
  }

  ghost predicate IsLongestPick(s: seq<int>, lis: seq<nat>) {
    IsIncreasingPick(s, lis) && forall pick: seq<nat> | IsIncreasingPick(s, pick) :: |pick| <= |lis|
  }

  lemma RisingIsAPick(s: seq<int>)
    requires Rises(s)
    ensures IsIncreasingPick(s, Places(|s|))
  {
  }

  function Places(n: nat): (places: seq<nat>)
    ensures |places| == n && forall i | 0 <= i < n :: places[i] == i
  {
    seq(n, i => i)
  }

  lemma {:induction false} MovesOnlyOutside(common: seq<(nat, nat)>, lis: seq<nat>)
    requires forall i | 0 <= i < |common| && i !in lis :: common[i].0 == common[i].1
    ensures Moves(common, lis) == []
  {
    if common != [] {
      MovesOnlyOutside(common[..|common| - 1], lis);
    }
  }

  /** The survivors kept their relative order: nothing is moved. */
  lemma OrderedSurvivorsStay(common: seq<(nat, nat)>, lis: seq<nat>)
    requires Rises(OldIndices(common)) && IsLongestPick(OldIndices(common), lis)
    ensures Moves(common, lis) == []
  {
    RisingIsAPick(OldIndices(common));
    FullPick(OldIndices(common), lis);
    MovesOnlyOutside(common, lis);
  }

  /** The survivors kept their relative order: deletions and insertions complete the list. */
  lemma OrderedSurvivorsArrange(stored: seq<Slot>, gone: seq<bool>, goal: seq<Value>, from: seq<Option<nat>>,
                                item: Option<Schema>, options: InferOptions)
    requires |from| == |goal| && |gone| == |stored| && PointsInto(from, |stored|)
    requires forall i | 0 <= i < |stored| :: gone[i] <==> Some(i) !in from
    requires Rises(OldIndices(Common(from)))
    ensures RunAll(stored, item, options, Deletes(gone) + [] + Inserts(goal, from, item)) == Some(Arranged(stored, goal, from, item, options))
  {
    KeptAreCommon(gone, from);
    var kept := Kept(stored, gone);
    assert stored + [] == stored && kept + [] == kept;
    DeletesKeep(stored, [], gone, item, options);
    KeptMatch(stored, gone, from);
    InsertsComplete(kept, stored, goal, from, item, options);
    RunAllAppends(stored, item, options, Deletes(gone) + [], Inserts(goal, from, item));
    assert Deletes(gone) + [] == Deletes(gone) && kept[|kept|..] == [];
    assert Arranged(stored, goal, from, item, options) + [] == Arranged(stored, goal, from, item, options);
  }

  lemma KeptMatch(stored: seq<Slot>, gone: seq<bool>, from: seq<Option<nat>>)
    requires |gone| == |stored| && PointsInto(from, |stored|)
    requires KeptPlaces(gone) == OldIndices(Common(from))
    ensures |Kept(stored, gone)| == |Common(from)|
    ensures forall i | 0 <= i < |Common(from)| :: Common(from)[i].0 < |stored| && Kept(stored, gone)[i] == stored[Common(from)[i].0]
  {
    assert forall i | 0 <= i < |Common(from)| :: OldIndices(Common(from))[i] == Common(from)[i].0 == KeptPlaces(gone)[i];
  }

  lemma FullPick(s: seq<int>, lis: seq<nat>)
    requires IsIncreasingPick(s, lis) && |lis| >= |s|
    ensures |lis| == |s| && forall i | 0 <= i < |s| :: i in lis
  {
    FullChoice(lis, |s|);
    forall i | 0 <= i < |s|
      ensures i in lis
    {
      assert lis[i] == i;
    }
  }

  lemma KeptAreCommon(gone: seq<bool>, from: seq<Option<nat>>)
    requires PointsInto(from, |gone|) && forall i | 0 <= i < |gone| :: gone[i] <==> Some(i) !in from
    requires Rises(OldIndices(Common(from)))
    ensures KeptPlaces(gone) == OldIndices(Common(from))
  {
    KeptPlacesRise(gone);
    CommonMembers(from);
    var places: seq<int>, olds := KeptPlaces(gone), OldIndices(Common(from));
    forall x
      ensures x in places <==> x in olds
    {
      if x in olds {
        var n: nat := x;
        assert Some(n) in from;
      }
    }
    RisingWithSameMembers(places, olds);
  }

  // ----- one relocated item

  /** Every item is kept and all but one keep their relative order: one move puts that item in place. */
  lemma OneRelocatedArranges(stored: seq<Slot>, gone: seq<bool>, goal: seq<Value>, from: seq<Option<nat>>, lis: seq<nat>,
                             item: Option<Schema>, options: InferOptions)
    requires |from| == |goal| == |gone| == |stored| && PointsInto(from, |stored|)
    requires forall i | 0 <= i < |stored| :: !gone[i]
    requires forall j | 0 <= j < |from| :: from[j].Some?
    requires forall i, j | 0 <= i < j < |from| :: from[i] != from[j]
    requires IsLongestPick(OldIndices(Common(from)), lis) && |lis| + 1 == |goal|
    ensures |Moves(Common(from), lis)| == 1
    ensures RunAll(stored, item, options, Head(gone, goal, from, lis, item)) == Some(Arranged(stored, goal, from, item, options))
  {
    AllCommon(from);
    NothingGone(gone);
    NothingInserted(goal, from, item);
    var olds := OldIndices(Common(from));
    forall j | 0 <= j < |olds|
      ensures 0 <= olds[j] < |olds| && from[j] == Some(olds[j])
    {
      assert from[j] in from;
    }
    var e := AlmostFullChoice(lis, |stored|);
    PlacesWithout(olds, lis, e);
    RelocatedPlace(olds, lis, e);
    OnlyMove(Common(from), lis, e);
    MoveArranges(stored, goal, from, olds, e, item, options);
    var c := MoveTo(olds[e], e);
    assert Head(gone, goal, from, lis, item) == [c] + [];
    RunFirst(stored, item, options, c, []);
  }

  lemma MoveArranges(stored: seq<Slot>, goal: seq<Value>, from: seq<Option<nat>>, olds: seq<int>, e: nat, item: Option<Schema>, options: InferOptions)
    requires |from| == |goal| == |stored| == |olds| && PointsInto(from, |stored|) && e < |olds|
    requires forall j | 0 <= j < |olds| :: 0 <= olds[j] < |olds| && from[j] == Some(olds[j])
    requires forall j: nat | j < |olds| && j != e ::
      olds[j] == if PlaceWithout(j, e) < olds[e] then PlaceWithout(j, e) else PlaceWithout(j, e) + 1
    ensures With(Without(stored, olds[e]), e, stored[olds[e]]) == Arranged(stored, goal, from, item, options)
  {
    var moved := With(Without(stored, olds[e]), e, stored[olds[e]]);
    forall j | 0 <= j < |olds|
      ensures moved[j] == stored[olds[j]]
    {
    }
    forall j | 0 <= j < |olds|
      ensures Arranged(stored, goal, from, item, options)[j] == stored[olds[j]]
    {
      assert from[j] in from;
    }
  }

  lemma {:induction false} AllCommon(from: seq<Option<nat>>)
    requires forall j | 0 <= j < |from| :: from[j].Some?
    ensures |Common(from)| == |from| && forall j | 0 <= j < |from| :: Common(from)[j] == (from[j].value, j)
  {
    if from != [] {
      AllCommon(from[..|from| - 1]);
    }
  }

  lemma {:induction false} NothingGone(gone: seq<bool>)
    requires forall i | 0 <= i < |gone| :: !gone[i]
    ensures Deletes(gone) == []
  {
    if gone != [] {
      NothingGone(gone[..|gone| - 1]);
    }
  }

  lemma {:induction false} NothingInserted(goal: seq<Value>, from: seq<Option<nat>>, item: Option<Schema>)
    requires |from| == |goal| && forall j | 0 <= j < |from| :: from[j].Some?
    ensures Inserts(goal, from, item) == []
  {
    if goal != [] {
      NothingInserted(goal[..|goal| - 1], from[..|goal| - 1], item);
    }
  }

  lemma {:induction false} OnlyMove(common: seq<(nat, nat)>, lis: seq<nat>, e: nat)
    requires e < |common| && e !in lis && common[e].1 == e && common[e].0 != e
    requires forall i: nat | i < |common| && i != e :: i in lis
    ensures Moves(common, lis) == [MoveTo(common[e].0, e)]
  {
    var last := |common| - 1;
    if e == last {
      MovesOnlyOutside(common[..last], lis);
    } else {
      OnlyMove(common[..last], lis, e);
    }
  }

  /** The place an item has among the others when the item at `e` is taken out. */
  function PlaceWithout(j: nat, e: nat): nat
    requires j != e
  {
    if j < e then j else j - 1
  }

  /** Away from the relocated place `e` the old indices run through all places but `olds[e]`. */
  lemma PlacesWithout(olds: seq<int>, lis: seq<nat>, e: nat)
    requires IsIncreasingPick(olds, lis) && |lis| + 1 == |olds| && e < |olds|
    requires forall a | 0 <= a < |lis| :: lis[a] == if a < e then a else a + 1
    requires forall i | 0 <= i < |olds| :: 0 <= olds[i] < |olds|
    requires forall i, j | 0 <= i < j < |olds| :: olds[i] != olds[j]
    ensures forall j: nat | j < |olds| && j != e ::
      olds[j] == if PlaceWithout(j, e) < olds[e] then PlaceWithout(j, e) else PlaceWithout(j, e) + 1
  {
    var rest: seq<nat> := seq(|lis|, a requires 0 <= a < |lis| => olds[lis[a]]);
    var p := AlmostFullChoice(rest, |olds|);
    assert forall a | 0 <= a < |rest| :: rest[a] != olds[e];
    if olds[e] != p {
      HasAllBut(rest, p, |olds|, olds[e]);
    }
    forall j: nat | j < |olds| && j != e
      ensures olds[j] == rest[PlaceWithout(j, e)]
    {
      assert lis[PlaceWithout(j, e)] == j;
    }
  }

  /** The relocated item is not where it was. */
  lemma RelocatedPlace(olds: seq<int>, lis: seq<nat>, e: nat)
    requires IsLongestPick(olds, lis) && |lis| + 1 == |olds| && e < |olds|
    requires forall a | 0 <= a < |lis| :: lis[a] == if a < e then a else a + 1
    requires forall j: nat | j < |olds| && j != e ::
      olds[j] == if PlaceWithout(j, e) < olds[e] then PlaceWithout(j, e) else PlaceWithout(j, e) + 1
    ensures e !in lis && forall i: nat | i < |olds| && i != e :: i in lis
    ensures olds[e] != e
  {
    forall i: nat | i < |olds| && i != e
      ensures i in lis
    {
      assert lis[PlaceWithout(i, e)] == i;
    }
    if olds[e] == e {
      assert forall i: nat | i < |olds| :: olds[i] == i;
      RisingIsAPick(olds);
    }
  }

  lemma HasAllBut(rest: seq<nat>, p: nat, n: nat, x: nat)
    requires |rest| + 1 == n && p < n && x < n && x != p
    requires forall a | 0 <= a < |rest| :: rest[a] == if a < p then a else a + 1
    ensures exists a :: 0 <= a < |rest| && rest[a] == x
  {
    assert rest[if x < p then x else x - 1] == x;
  }
}
