/** Exactly when a movable-list script with at most one move arranges the list. The move's indices are those
    of the old and the new list, but it runs after the deletions and before the insertions
    (crates/vt-mirror/src/diff.rs:23-26, 277-325). */
module MovableExact {
  import opened Prelude
  import opened MirrorState
  import opened ListScript
  import opened Lis
  import opened MovableScript
  import opened MoveBound
  import Diff = MovableList

  // ----- one move of a rising sequence

  ghost predicate IsDistinct(s: seq<int>) {
    forall x, y | 0 <= x < y < |s| :: s[x] != s[y]
  }

  function Omit<T>(s: seq<T>, a: nat): (rest: seq<T>)
    requires a < |s|
    ensures |rest| == |s| - 1
  {
    s[..a] + s[a + 1..]
  }

  /** All but the one at `a` stand in rising order. */
  ghost predicate OthersRise(s: seq<int>, a: nat)
    requires a < |s|
  {
    Rises(Omit(s, a))
  }

  lemma {:induction false} RisesAtLeast(s: seq<int>, x: nat)
    requires Rises(s) && x < |s| && s[0] >= 0
    ensures s[x] >= x
  {
    if x > 0 {
      RisesAtLeast(s, x - 1);
    }
  }

  lemma OmitMembers(s: seq<int>, a: nat)
    requires a < |s| && IsDistinct(s)
    ensures forall x :: x in Omit(s, a) <==> x in s && x != s[a]
  {
    forall x
      ensures x in Omit(s, a) <==> x in s && x != s[a]
    {
      assert s == s[..a] + [s[a]] + s[a + 1..];
    }
  }

  lemma RisingIsDistinct(s: seq<int>)
    requires Rises(s)
    ensures IsDistinct(s)
  {
  }

  lemma OmitKeepsRise(s: seq<int>, a: nat)
    requires Rises(s) && a < |s|
    ensures Rises(Omit(s, a))
  {
  }

  /** What rises without the item at `a` is the rising sequence without that item. */
  lemma OthersAreRest(kp: seq<int>, t: seq<int>, a: nat, r: nat)
    requires Rises(kp) && IsDistinct(t) && |kp| == |t| && a < |t| && r < |kp| && kp[r] == t[a]
    requires forall x :: x in kp <==> x in t
    ensures OthersRise(t, a) <==> Omit(t, a) == Omit(kp, r)
  {
    RisingIsDistinct(kp);
    OmitKeepsRise(kp, r);
    OmitMembers(t, a);
    OmitMembers(kp, r);
    if OthersRise(t, a) {
      RisingWithSameMembers(Omit(t, a), Omit(kp, r));
    }
  }

  lemma OmitInsert(t: seq<int>, kp: seq<int>, a: nat, r: nat)
    requires |kp| == |t| && a < |t| && r < |kp| && kp[r] == t[a]
    ensures MoveItem(kp, r, a) == t <==> Omit(t, a) == Omit(kp, r)
  {
    var rest := Omit(kp, r);
    assert MoveItem(kp, r, a) == rest[..a] + [kp[r]] + rest[a..];
    if Omit(t, a) == rest {
      assert rest[..a] == t[..a] && rest[a..] == t[a + 1..];
      assert t == t[..a] + [t[a]] + t[a + 1..];
    }
    if MoveItem(kp, r, a) == t {
      assert Omit(MoveItem(kp, r, a), a) == rest[..a] + rest[a..];
      assert rest[..a] + rest[a..] == rest;
    }
  }

  /** A pick that leaves out the item at `a` but as long as all the others is all of the others. */
  lemma PickOfOthers(t: seq<int>, lis: seq<nat>, a: nat)
    requires IsIncreasingPick(t, lis) && a < |t| && a !in lis && |lis| + 1 >= |t|
    ensures |lis| + 1 == |t| && OthersRise(t, a)
  {
    if |lis| >= |t| {
      FullPick(t, lis);
      assert false;
    }
    var e := AlmostFullChoice(lis, |t|);
    forall x: nat | x < |t| && x != e
      ensures x in lis
    {
      assert lis[if x < e then x else x - 1] == x;
    }
    var rest := Omit(t, a);
    forall x, y | 0 <= x < y < |rest|
      ensures rest[x] < rest[y]
    {
      assert rest[x] == t[lis[x]] && rest[y] == t[lis[y]];
    }
  }

  /** Where moving the item at `i` gives the order in which only the item at `a`, from `r` before `i`, may be out
      of place, nothing was out of place. */
  lemma WrongItemWasRight(kp: seq<int>, t: seq<int>, lis: seq<nat>, a: nat, r: nat, i: nat, j: nat)
    requires Rises(kp) && IsDistinct(t) && |kp| == |t| && forall x :: x in kp <==> x in t
    requires a < |t| && r < i < |kp| && a <= j < |kp| && kp[r] == t[a]
    requires IsIncreasingPick(t, lis) && a !in lis && |lis| + 1 >= |t| && MoveItem(kp, i, j) == t
    ensures t == kp
  {
    ShiftedItem(kp, r, i, j);
    assert a == Shifted(r, i, j) == r;
    PickOfOthers(t, lis, a);
    OthersAreRest(kp, t, a, r);
    OmitInsert(t, kp, a, r);
    assert MoveItem(kp, r, r) == kp;
  }

  /** Moving another item than the one meant never gives the wanted order. */
  lemma WrongItemNeverHelps(kp: seq<int>, t: seq<int>, lis: seq<nat>, a: nat, r: nat, i: nat, j: nat)
    requires Rises(kp) && IsDistinct(t) && |kp| == |t| && forall x :: x in kp <==> x in t
    requires a < |t| && r < i < |kp| && a <= j < |kp| && kp[r] == t[a]
    requires IsLongestPick(t, lis) && a !in lis
    ensures MoveItem(kp, i, j) != t
  {
    RisingIsAPick(kp);
    if MoveItem(kp, i, j) == t {
      var left := MovedHasPick(kp, i, j, Places(|kp|));
      WrongItemWasRight(kp, t, lis, a, r, i, j);
      FullPick(t, lis);
      assert false;
    }
  }

  /** Moving the item meant gives the wanted order exactly when it goes to its place and the others stand right. */
  lemma RightItemExact(kp: seq<int>, t: seq<int>, a: nat, i: nat, j: nat)
    requires Rises(kp) && IsDistinct(t) && |kp| == |t| && forall x :: x in kp <==> x in t
    requires a < |t| && i < |kp| && kp[i] == t[a] && j < |kp|
    ensures MoveItem(kp, i, j) == t <==> j == a && OthersRise(t, a)
  {
    OthersAreRest(kp, t, a, i);
    OmitInsert(t, kp, a, i);
    if MoveItem(kp, i, j) == t {
      MovedFrom(kp, i, j, j);
    }
  }

  /** A move by the old index `i` and the new index `j` of the item at place `a` puts the order right exactly
      when the others stand right, nothing before `i` was dropped and nothing before `j` is to come. */
  lemma OneMoveExact(kp: seq<int>, t: seq<int>, lis: seq<nat>, a: nat, i: nat, j: nat)
    requires Rises(kp) && (|kp| > 0 ==> kp[0] >= 0) && IsDistinct(t) && |kp| == |t| && forall x :: x in kp <==> x in t
    requires a < |t| && t[a] == i && a <= j
    requires IsLongestPick(t, lis) && a !in lis
    ensures i < |kp| && j < |kp| && MoveItem(kp, i, j) == t <==> i < |kp| && kp[i] == i && j == a && OthersRise(t, a)
  {
    assert t[a] in t;
    var r :| 0 <= r < |kp| && kp[r] == i;
    RisesAtLeast(kp, r);
    if r == i {
      if j < |kp| {
        RightItemExact(kp, t, a, i, j);
      }
    } else if i < |kp| {
      assert kp[r] < kp[i];
      if j < |kp| {
        WrongItemNeverHelps(kp, t, lis, a, r, i, j);
      }
    }
  }

  // ----- what the indices say about the lists

  lemma {:induction false} FirstKept(gone: seq<bool>, i: nat)
    requires i < |gone| && !gone[i]
    ensures i < |KeptPlaces(gone)| && KeptPlaces(gone)[i] == i <==> forall p | 0 <= p < i :: !gone[p]
  {
    KeptPlacesRise(gone);
    var kp := KeptPlaces(gone);
    if i < |kp| && kp[i] == i {
      FirstPlaces(kp, i);
      forall p | 0 <= p < i
        ensures !gone[p]
      {
        assert kp[p] in kp;
      }
    }
    if forall p | 0 <= p < i :: !gone[p] {
      KeptPrefix(gone, i + 1);
    }
  }

  lemma {:induction false} FirstPlaces(kp: seq<nat>, i: nat)
    requires Rises(kp) && i < |kp| && kp[i] == i
    ensures forall p | 0 <= p <= i :: kp[p] == p
  {
    if i > 0 {
      RisesAtLeast(kp, i - 1);
      assert kp[i - 1] < kp[i];
      FirstPlaces(kp, i - 1);
    }
  }

  lemma {:induction false} KeptPrefix(gone: seq<bool>, n: nat)
    requires n <= |gone| && forall p | 0 <= p < n :: !gone[p]
    ensures |KeptPlaces(gone)| >= n && forall p | 0 <= p < n :: KeptPlaces(gone)[p] == p
  {
    if |gone| > n {
      KeptPrefix(gone[..|gone| - 1], n);
    } else if n > 0 {
      KeptPrefix(gone[..n - 1], n - 1);
      KeptCount(gone[..n - 1]);
    }
  }

  lemma {:induction false} KeptCount(gone: seq<bool>)
    ensures |KeptPlaces(gone)| <= |gone|
  {
    if gone != [] {
      KeptCount(gone[..|gone| - 1]);
    }
  }

  /** A common item's place among the common items is its new index exactly when nothing new stands before it. */
  lemma {:induction false} FirstCommon(from: seq<Option<nat>>, a: nat)
    requires a < |Common(from)|
    ensures Common(from)[a].1 >= a && Common(from)[a].1 < |from|
    ensures Common(from)[a].1 == a <==> forall q | 0 <= q < Common(from)[a].1 :: from[q].Some?
  {
    var last := |from| - 1;
    CommonCount(from[..last]);
    if a < |Common(from[..last])| {
      FirstCommon(from[..last], a);
      assert Common(from)[a] == Common(from[..last])[a];
    }
  }

  lemma {:induction false} CommonCount(from: seq<Option<nat>>)
    ensures |Common(from)| <= |from|
    ensures |Common(from)| == |from| <==> forall q | 0 <= q < |from| :: from[q].Some?
  {
    if from != [] {
      CommonCount(from[..|from| - 1]);
    }
  }

  // ----- the insertions neither mend nor spoil an order

  /** The stored list with `list` in the places of the common items. */
  ghost function Replaced(stored: seq<Slot>, common: seq<(nat, nat)>, list: seq<Slot>): (r: seq<Slot>)
    requires |list| == |common|
    ensures |r| == |stored|
  {
    seq(|stored|, x requires 0 <= x < |stored| =>
      if i: nat :| i < |common| && common[i].0 == x then list[i] else stored[x])
  }

  lemma InsertsExact(list: seq<Slot>, stored: seq<Slot>, goal: seq<Value>, from: seq<Option<nat>>, item: Option<Schema>, options: InferOptions)
    requires |from| == |goal| && PointsInto(from, |stored|) && |list| == |Common(from)|
    requires forall x, y | 0 <= x < y < |from| && from[x].Some? :: from[x] != from[y]
    ensures RunAll(list, item, options, Inserts(goal, from, item)) == Some(Arranged(stored, goal, from, item, options))
      <==> forall i | 0 <= i < |list| :: Common(from)[i].0 < |stored| && list[i] == stored[Common(from)[i].0]
  {
    var common := Common(from);
    var other := Replaced(stored, common, list);
    CommonIsPaired(from, |stored|);
    forall i | 0 <= i < |list|
      ensures common[i].0 < |other| && list[i] == other[common[i].0]
    {
    }
    InsertsComplete(list, other, goal, from, item, options);
    assert Arranged(other, goal, from, item, options) + [] == Arranged(other, goal, from, item, options);
    assert list[|common|..] == [];
    if Arranged(other, goal, from, item, options) == Arranged(stored, goal, from, item, options) {
      forall i | 0 <= i < |list|
        ensures list[i] == stored[common[i].0]
      {
        assert Arranged(other, goal, from, item, options)[common[i].1] == Arranged(stored, goal, from, item, options)[common[i].1];
      }
    }
    if forall i | 0 <= i < |list| :: list[i] == stored[common[i].0] {
      InsertsComplete(list, stored, goal, from, item, options);
      assert Arranged(stored, goal, from, item, options) + [] == Arranged(stored, goal, from, item, options);
    }
  }

  lemma CommonIsPaired(from: seq<Option<nat>>, n: nat)
    requires PointsInto(from, n)
    requires forall x, y | 0 <= x < y < |from| && from[x].Some? :: from[x] != from[y]
    ensures forall i | 0 <= i < |Common(from)| :: Common(from)[i].0 < n && Common(from)[i].1 < |from|
    ensures forall i | 0 <= i < |Common(from)| :: from[Common(from)[i].1] == Some(Common(from)[i].0)
    ensures forall i, k | 0 <= i < k < |Common(from)| :: Common(from)[i].0 != Common(from)[k].0
  {
    CommonMembers(from);
    CommonOrder(from);
    forall i | 0 <= i < |Common(from)|
      ensures Common(from)[i].0 < n
    {
      assert from[Common(from)[i].1] in from;
    }
  }

  lemma {:induction false} CommonOrder(from: seq<Option<nat>>)
    ensures forall i, k | 0 <= i < k < |Common(from)| :: Common(from)[i].1 < Common(from)[k].1
    ensures forall i | 0 <= i < |Common(from)| :: Common(from)[i].1 < |from|
  {
    if from != [] {
      CommonOrder(from[..|from| - 1]);
    }
  }

  // ----- the head of the script

  /** The deletions leave the kept items, the moves run on them, and the insertions complete what that gives. */
  lemma HeadRuns(stored: seq<Slot>, gone: seq<bool>, goal: seq<Value>, from: seq<Option<nat>>, lis: seq<nat>,
                 item: Option<Schema>, options: InferOptions)
    requires |from| == |goal| && |gone| == |stored|
    ensures RunAll(stored, item, options, Head(gone, goal, from, lis, item)) ==
      var moved := RunAll(Kept(stored, gone), item, options, Moves(Common(from), lis));
      if moved.Some? then RunAll(moved.value, item, options, Inserts(goal, from, item)) else None
  {
    var deletes, moves, inserts := Deletes(gone), Moves(Common(from), lis), Inserts(goal, from, item);
    assert stored + [] == stored && Kept(stored, gone) + [] == Kept(stored, gone);
    DeletesKeep(stored, [], gone, item, options);
    RunAllAppends(stored, item, options, deletes, moves);
    RunAllAppends(stored, item, options, deletes + moves, inserts);
  }

  lemma SameSlots(stored: seq<Slot>, gone: seq<bool>, from: seq<Option<nat>>, kp: seq<int>)
    requires |gone| == |stored| && PointsInto(from, |stored|)
    requires forall x, y | 0 <= x < y < |stored| :: stored[x] != stored[y]
    requires |kp| == |Common(from)| && forall x | 0 <= x < |kp| :: 0 <= kp[x] < |stored|
    ensures forall i | 0 <= i < |kp| :: Common(from)[i].0 < |stored|
    ensures (forall i | 0 <= i < |kp| :: stored[kp[i]] == stored[Common(from)[i].0]) <==> kp == OldIndices(Common(from))
  {
    CommonMembers(from);
    forall i | 0 <= i < |kp|
      ensures Common(from)[i].0 < |stored|
    {
      assert from[Common(from)[i].1] in from;
    }
    if forall i | 0 <= i < |kp| :: stored[kp[i]] == stored[Common(from)[i].0] {
      forall i | 0 <= i < |kp|
        ensures kp[i] == OldIndices(Common(from))[i]
      {
        assert stored[kp[i]] == stored[Common(from)[i].0];
      }
    }
  }

  /** The kept places are the common items' old indices, in some order. */
  lemma KeptAreOld(gone: seq<bool>, from: seq<Option<nat>>)
    requires PointsInto(from, |gone|) && forall i | 0 <= i < |gone| :: gone[i] <==> Some(i) !in from
    requires forall x, y | 0 <= x < y < |from| && from[x].Some? :: from[x] != from[y]
    ensures var kp: seq<int> := KeptPlaces(gone);
      var olds := OldIndices(Common(from));
      && Rises(kp) && IsDistinct(olds) && |kp| == |olds| && (forall x :: x in kp <==> x in olds)
  {
    KeptPlacesRise(gone);
    CommonMembers(from);
    CommonIsPaired(from, |gone|);
    var kp: seq<int>, olds := KeptPlaces(gone), OldIndices(Common(from));
    forall x
      ensures x in kp <==> x in olds
    {
      if x in olds {
        var n: nat := x;
        assert Some(n) in from;
      }
      if x in kp {
        var n: nat := x;
        assert !gone[n];
      }
    }
    SameSize(kp, olds);
  }

  lemma {:induction false} SameSize(a: seq<int>, b: seq<int>)
    requires IsDistinct(a) && IsDistinct(b) && forall x :: x in a <==> x in b
    ensures |a| == |b|
  {
    if b != [] {
      assert b[0] in b;
    }
    if a != [] {
      var last := |a| - 1;
      assert a[last] in a;
      var j :| 0 <= j < |b| && b[j] == a[last];
      OmitMembers(a, last);
      OmitMembers(b, j);
      assert Omit(a, last) == a[..last];
      OmitIsDistinct(b, j);
      SameSize(a[..last], Omit(b, j));
    }
  }

  lemma OmitIsDistinct(s: seq<int>, a: nat)
    requires IsDistinct(s) && a < |s|
    ensures IsDistinct(Omit(s, a))
  {
  }

  /** What the script's head is run on. */
  ghost predicate IsPlainJob(stored: seq<Slot>, gone: seq<bool>, goal: seq<Value>, from: seq<Option<nat>>) {
    && |from| == |goal| && |gone| == |stored| && PointsInto(from, |stored|)
    && (forall x, y | 0 <= x < y < |stored| :: stored[x] != stored[y])
    && (forall i | 0 <= i < |stored| :: gone[i] <==> Some(i) !in from)
    && (forall x, y | 0 <= x < y < |from| && from[x].Some? :: from[x] != from[y])
  }

  ghost predicate IsJob(stored: seq<Slot>, gone: seq<bool>, goal: seq<Value>, from: seq<Option<nat>>, lis: seq<nat>) {
    IsPlainJob(stored, gone, goal, from) && IsLongestPick(OldIndices(Common(from)), lis)
  }

  /** The head of the script arranges the list. */
  ghost predicate Arranges(stored: seq<Slot>, gone: seq<bool>, goal: seq<Value>, from: seq<Option<nat>>, lis: seq<nat>,
                           item: Option<Schema>, options: InferOptions)
    requires |from| == |goal| && |gone| == |stored| && PointsInto(from, |stored|)
  {
    RunAll(stored, item, options, Head(gone, goal, from, lis, item)) == Some(Arranged(stored, goal, from, item, options))
  }

  /** Without a move, the list is arranged exactly when the survivors keep their order. */
  lemma NoMoveExact(stored: seq<Slot>, gone: seq<bool>, goal: seq<Value>, from: seq<Option<nat>>, lis: seq<nat>,
                    item: Option<Schema>, options: InferOptions)
    requires IsJob(stored, gone, goal, from, lis) && Moves(Common(from), lis) == []
    ensures Arranges(stored, gone, goal, from, lis, item, options) <==> Rises(OldIndices(Common(from)))
  {
    var kp: seq<int> := KeptPlaces(gone);
    HeadRuns(stored, gone, goal, from, lis, item, options);
    KeptAreOld(gone, from);
    InsertsExact(Kept(stored, gone), stored, goal, from, item, options);
    SameSlots(stored, gone, from, kp);
    if Rises(OldIndices(Common(from))) {
      RisingWithSameMembers(kp, OldIndices(Common(from)));
    }
  }

  lemma MoveRuns(kept: seq<Slot>, i: nat, j: nat, item: Option<Schema>, options: InferOptions)
    ensures RunAll(kept, item, options, [MoveTo(i, j)]) == if i < |kept| && j < |kept| then Some(MoveItem(kept, i, j)) else None
  {
    RunFirst(kept, item, options, MoveTo(i, j), []);
    assert [MoveTo(i, j)] + [] == [MoveTo(i, j)];
    if i < |kept| && j < |kept| {
      assert With(Without(kept, i), j, kept[i]) == MoveItem(kept, i, j);
    }
  }

  /** With a single move, the list is arranged exactly when the move brings the kept places into the new order. */
  lemma ArrangesByMove(stored: seq<Slot>, gone: seq<bool>, goal: seq<Value>, from: seq<Option<nat>>, lis: seq<nat>, kp: seq<int>, i: nat, j: nat,
                       item: Option<Schema>, options: InferOptions)
    requires IsJob(stored, gone, goal, from, lis) && Moves(Common(from), lis) == [MoveTo(i, j)] && kp == KeptPlaces(gone)
    ensures Arranges(stored, gone, goal, from, lis, item, options)
      <==> i < |kp| && j < |kp| && MoveItem(kp, i, j) == OldIndices(Common(from))
  {
    HeadRuns(stored, gone, goal, from, lis, item, options);
    MoveRuns(Kept(stored, gone), i, j, item, options);
    if i < |kp| && j < |kp| {
      MovedInserts(stored, gone, goal, from, kp, i, j, item, options);
    }
  }

  /** From the moved slots the inserts arrange the list exactly when the move brings the kept places into order. */
  lemma MovedInserts(stored: seq<Slot>, gone: seq<bool>, goal: seq<Value>, from: seq<Option<nat>>, kp: seq<int>, i: nat, j: nat,
                     item: Option<Schema>, options: InferOptions)
    requires IsPlainJob(stored, gone, goal, from) && kp == KeptPlaces(gone) && i < |kp| && j < |kp|
    ensures RunAll(MoveItem(Kept(stored, gone), i, j), item, options, Inserts(goal, from, item)) == Some(Arranged(stored, goal, from, item, options))
      <==> MoveItem(kp, i, j) == OldIndices(Common(from))
  {
    KeptAreOld(gone, from);
    MovedSlots(stored, gone, i, j);
    InsertsExact(MoveItem(Kept(stored, gone), i, j), stored, goal, from, item, options);
    SameSlots(stored, gone, from, MoveItem(kp, i, j));
  }

  /** With a single move, that of the common item at `a`, the list is arranged exactly when the other survivors
      keep their order, nothing before the item's old index is deleted and nothing before its new index is
      inserted. */
  lemma SingleMoveExact(stored: seq<Slot>, gone: seq<bool>, goal: seq<Value>, from: seq<Option<nat>>, lis: seq<nat>, a: nat,
                        item: Option<Schema>, options: InferOptions)
    requires IsJob(stored, gone, goal, from, lis) && a < |Common(from)| && a !in lis
    requires Moves(Common(from), lis) == [MoveTo(Common(from)[a].0, Common(from)[a].1)]
    ensures Common(from)[a].0 < |gone| && Common(from)[a].1 < |from|
    ensures Arranges(stored, gone, goal, from, lis, item, options)
      <==> OthersRise(OldIndices(Common(from)), a)
           && (forall p | 0 <= p < Common(from)[a].0 :: !gone[p])
           && (forall q | 0 <= q < Common(from)[a].1 :: from[q].Some?)
  {
    var (i, j) := Common(from)[a];
    var kp: seq<int> := KeptPlaces(gone);
    KeptAreOld(gone, from);
    CommonIsPaired(from, |stored|);
    assert from[j] in from && !gone[i];
    FirstKept(gone, i);
    FirstCommon(from, a);
    OneMoveExact(kp, OldIndices(Common(from)), lis, a, i, j);
    ArrangesByMove(stored, gone, goal, from, lis, kp, i, j, item, options);
  }

  lemma MovedSlots(stored: seq<Slot>, gone: seq<bool>, i: nat, j: nat)
    requires |gone| == |stored| && i < |KeptPlaces(gone)| && j < |KeptPlaces(gone)|
    ensures forall x | 0 <= x < |KeptPlaces(gone)| :: MoveItem(KeptPlaces(gone), i, j)[x] < |stored|
    ensures forall x | 0 <= x < |KeptPlaces(gone)| :: MoveItem(Kept(stored, gone), i, j)[x] == stored[MoveItem(KeptPlaces(gone), i, j)[x]]
  {
    forall x | 0 <= x < |KeptPlaces(gone)|
      ensures MoveItem(KeptPlaces(gone), i, j)[x] < |stored|
      ensures MoveItem(Kept(stored, gone), i, j)[x] == stored[MoveItem(KeptPlaces(gone), i, j)[x]]
    {
      MovedFrom(KeptPlaces(gone), i, j, x);
      MovedFrom(Kept(stored, gone), i, j, x);
    }
  }

  /** Lists with distinct ids are such a job, whichever longest pick the differ takes. */
  lemma DistinctIdsMakeAJob(stored: seq<Slot>, goal: seq<Value>, selector: Selector, lis: seq<nat>)
    requires Diff.AllDistinct(Ids(selector, ReadAll(stored))) && Diff.AllDistinct(Ids(selector, goal))
    requires IsLongestPick(OldIndices(Common(Diff.From(Diff.IndexMap(Ids(selector, ReadAll(stored))), Ids(selector, goal)))), lis)
    ensures var (oldIds, newIds) := (Ids(selector, ReadAll(stored)), Ids(selector, goal));
      var m := Diff.IndexMap(oldIds);
      IsJob(stored, Diff.Gone(oldIds, m, newIds), goal, Diff.From(m, newIds), lis)
  {
    var oldIds, newIds := Ids(selector, ReadAll(stored)), Ids(selector, goal);
    Diff.DistinctIdsPair(oldIds, newIds);
    forall x, y | 0 <= x < y < |stored|
      ensures stored[x] != stored[y]
    {
      assert oldIds[x] != oldIds[y];
    }
  }
}
