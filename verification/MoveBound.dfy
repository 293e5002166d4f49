/** Why the moves of the movable-list script are as few as they can be
    (crates/vt-mirror/src/diff.rs:291-308): one move can lengthen an increasing run by at most one. */
module MoveBound {
  import opened Lis

  datatype Step = Step(from: nat, to: nat)

  /** Take an item out, then put it in where it should end up. */
  function MoveItem<T>(list: seq<T>, from: nat, to: nat): (moved: seq<T>)
    requires from < |list| && to < |list|
    ensures |moved| == |list|
  {
    var rest := list[..from] + list[from + 1..];
    rest[..to] + [list[from]] + rest[to..]
  }

  /** Which item a move leaves at place `j`. */
  function Source(j: nat, from: nat, to: nat): nat {
    if j == to then from
    else
      var q := if j < to then j else j - 1;
      if q < from then q else q + 1
  }

  lemma MovedFrom<T>(list: seq<T>, from: nat, to: nat, j: nat)
    requires from < |list| && to < |list| && j < |list|
    ensures Source(j, from, to) < |list| && MoveItem(list, from, to)[j] == list[Source(j, from, to)]
  {
  }

  ghost predicate CanMoveAll<T>(list: seq<T>, steps: seq<Step>) {
    forall s | s in steps :: s.from < |list| && s.to < |list|
  }

  function MoveAll<T>(list: seq<T>, steps: seq<Step>): (moved: seq<T>)
    requires CanMoveAll(list, steps)
    ensures |moved| == |list|
    decreases |steps|
  {
    if steps == [] then list
    else
      assert steps[0] in steps;
      var moved := MoveItem(list, steps[0].from, steps[0].to);
      MoveAll(moved, steps[1..])
  }

  /** Where a move takes the item at position `p`, for an item that is not the one moved. */
  function Shifted(p: nat, from: nat, to: nat): nat
    requires p != from
  {
    var q := if p < from then p else p - 1;
    if q < to then q else q + 1
  }

  function ShiftedPick(pick: seq<nat>, from: nat, to: nat): seq<nat> {
    if pick == [] then []
    else ShiftedPick(pick[..|pick| - 1], from, to) + (if pick[|pick| - 1] == from then [] else [Shifted(pick[|pick| - 1], from, to)])
  }

  lemma ShiftedKeepsOrder(p: nat, q: nat, from: nat, to: nat)
    requires p < q && p != from && q != from
    ensures Shifted(p, from, to) < Shifted(q, from, to)
  {
  }

  lemma ShiftedItem(list: seq<int>, p: nat, from: nat, to: nat)
    requires from < |list| && to < |list| && p < |list| && p != from
    ensures Shifted(p, from, to) < |list| && MoveItem(list, from, to)[Shifted(p, from, to)] == list[p]
  {
  }

  lemma {:induction false} ShiftedPickMembers(pick: seq<nat>, from: nat, to: nat)
    ensures forall x | x in ShiftedPick(pick, from, to) :: exists p :: p in pick && p != from && x == Shifted(p, from, to)
  {
    if pick != [] {
      ShiftedPickMembers(pick[..|pick| - 1], from, to);
    }
  }

  lemma {:induction false} ShiftedPickLosesOne(list: seq<int>, pick: seq<nat>, from: nat, to: nat)
    requires IsIncreasingPick(list, pick)
    ensures |ShiftedPick(pick, from, to)| + (if from in pick then 1 else 0) == |pick|
  {
    if pick != [] {
      ShiftedPickLosesOne(list, pick[..|pick| - 1], from, to);
      assert pick == pick[..|pick| - 1] + [pick[|pick| - 1]];
    }
  }

  /** What was picked before the last item stays before it. */
  lemma ShiftedStaysBelow(list: seq<int>, pick: seq<nat>, from: nat, to: nat)
    requires from < |list| && to < |list| && IsIncreasingPick(list, pick) && pick != [] && pick[|pick| - 1] != from
    ensures var (front, last) := (ShiftedPick(pick[..|pick| - 1], from, to), pick[|pick| - 1]);
      && Shifted(last, from, to) < |list|
      && forall x | x in front :: x < Shifted(last, from, to) && MoveItem(list, from, to)[x] < MoveItem(list, from, to)[Shifted(last, from, to)]
  {
    var front, last := ShiftedPick(pick[..|pick| - 1], from, to), pick[|pick| - 1];
    ShiftedPickMembers(pick[..|pick| - 1], from, to);
    ShiftedItem(list, last, from, to);
    forall x | x in front
      ensures x < Shifted(last, from, to) && MoveItem(list, from, to)[x] < MoveItem(list, from, to)[Shifted(last, from, to)]
    {
      var p :| p in pick[..|pick| - 1] && p != from && x == Shifted(p, from, to);
      ShiftedKeepsOrder(p, last, from, to);
      ShiftedItem(list, p, from, to);
    }
  }

  lemma PickGrows(list: seq<int>, pick: seq<nat>, x: nat)
    requires IsIncreasingPick(list, pick) && x < |list| && forall p | p in pick :: p < x && list[p] < list[x]
    ensures IsIncreasingPick(list, pick + [x])
  {
    assert forall i | 0 <= i < |pick| :: pick[i] in pick;
  }

  lemma {:induction false} ShiftedPickStaysIncreasing(list: seq<int>, pick: seq<nat>, from: nat, to: nat)
    requires from < |list| && to < |list| && IsIncreasingPick(list, pick)
    ensures IsIncreasingPick(MoveItem(list, from, to), ShiftedPick(pick, from, to))
  {
    if pick != [] {
      ShiftedPickStaysIncreasing(list, pick[..|pick| - 1], from, to);
      if pick[|pick| - 1] != from {
        ShiftedStaysBelow(list, pick, from, to);
        PickGrows(MoveItem(list, from, to), ShiftedPick(pick[..|pick| - 1], from, to), Shifted(pick[|pick| - 1], from, to));
      }
    }
  }

  lemma MovedHasPick(list: seq<int>, from: nat, to: nat, pick: seq<nat>) returns (left: seq<nat>)
    requires from < |list| && to < |list| && IsIncreasingPick(list, pick)
    ensures IsIncreasingPick(MoveItem(list, from, to), left) && |left| + 1 >= |pick|
  {
    left := ShiftedPick(pick, from, to);
    ShiftedPickStaysIncreasing(list, pick, from, to);
    ShiftedPickLosesOne(list, pick, from, to);
  }

  /** After any number of moves, what is left of a sorted list still holds an increasing pick of all but
      that many items. */
  lemma {:induction false} MovesLeaveAPick(list: seq<int>, steps: seq<Step>, pick: seq<nat>) returns (left: seq<nat>)
    requires CanMoveAll(list, steps) && IsIncreasingPick(list, pick)
    ensures IsIncreasingPick(MoveAll(list, steps), left) && |left| + |steps| >= |pick|
    decreases |steps|
  {
    if steps == [] {
      left := pick;
    } else {
      assert steps[0] in steps;
      left := MovedHasPick(list, steps[0].from, steps[0].to, pick);
      left := MovesLeaveAPick(MoveItem(list, steps[0].from, steps[0].to), steps[1..], left);
    }
  }

  /** No sequence of moves that brings a sorted list into the order `goal` is shorter than the number of
      items outside a longest increasing pick of `goal`. */
  lemma FewestMoves(sorted: seq<int>, goal: seq<int>, steps: seq<Step>, lis: seq<nat>)
    requires forall i, j | 0 <= i < j < |sorted| :: sorted[i] < sorted[j]
    requires CanMoveAll(sorted, steps) && MoveAll(sorted, steps) == goal
    requires forall pick: seq<nat> | IsIncreasingPick(goal, pick) :: |pick| <= |lis|
    ensures |goal| - |lis| <= |steps|
  {
    var all: seq<nat> := seq(|sorted|, i requires 0 <= i < |sorted| => i);
    var left := MovesLeaveAPick(sorted, steps, all);
  }
}
