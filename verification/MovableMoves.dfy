/** Exactly when a movable-list script with any number of moves arranges the list, where neither deletions nor insertions
    shift what the moves name (crates/vt-mirror/src/diff.rs:288-308). */
module MovableMoves {
  import opened Prelude
  import opened MirrorState
  import opened ListScript
  import opened Lis
  import opened MovableScript
  import opened MoveBound
  import opened MovableExact
  import Diff = MovableList

  // ----- the moves

  /** `start` is to be brought into the order of `goal`: of the items outside `lis`, in the order of their places in the
      goal, each is taken from its own number and put at its place. */
  datatype Reorder = Reorder(start: seq<int>, goal: seq<int>, lis: seq<nat>) {
    predicate Valid() {
      |start| == |goal|
    }

    predicate Moves(a: nat)
      requires a < |goal|
    {
      a !in lis && 0 <= goal[a] < |goal| && goal[a] != a
    }

    /** The list once the items placed before `m` have been moved. */
    ghost function After(m: nat): (list: seq<int>)
      requires Valid() && m <= |goal|
      ensures |list| == |goal|
    {
      if m == 0 then start else if Moves(m - 1) then MoveItem(After(m - 1), goal[m - 1], m - 1) else After(m - 1)
    }

    /** The item a move takes, whichever it is. */
    ghost function Item(a: nat): int
      requires Valid() && a < |goal| && Moves(a)
    {
      After(a)[goal[a]]
    }

    ghost function Taken(m: nat): set<int>
      requires Valid() && m <= |goal|
    {
      if m == 0 then {} else if Moves(m - 1) then Taken(m - 1) + {Item(m - 1)} else Taken(m - 1)
    }

    /** The place is beyond those filled by the first moves. */
    ghost predicate IsPast(m: nat, x: nat) {
      forall b: nat | b < m && b !in lis :: b < x
    }

    predicate IsShared(v: int) {
      v in start <==> v in goal
    }

    /** The items are the same, and rise at first and in the pick. */
    ghost predicate IsMatched() {
      Valid() && Rises(start) && IsDistinct(goal) && (forall v :: IsShared(v)) && IsIncreasingPick(goal, lis)
    }

    /** Up to where the moves take them from, each item stands at its number at first, and no pick is longer. */
    ghost predicate IsRegular() {
      && IsMatched() && IsLongestPick(goal, lis)
      && forall a: nat | a < |goal| && a !in lis :: 0 <= goal[a] < |goal| && start[goal[a]] == goal[a]
    }
  }

  lemma AfterStep(o: Reorder, m: nat, x: nat)
    requires o.Valid() && m < |o.goal| && x < |o.goal|
    ensures o.Moves(m) ==> Source(x, o.goal[m], m) < |o.goal| && o.After(m + 1)[x] == o.After(m)[Source(x, o.goal[m], m)]
    ensures !o.Moves(m) ==> o.After(m + 1)[x] == o.After(m)[x]
  {
    if o.Moves(m) {
      MovedFrom(o.After(m), o.goal[m], m, x);
    }
  }

  lemma MoveKeepsMembers(list: seq<int>, i: nat, j: nat)
    requires IsDistinct(list) && i < |list| && j < |list|
    ensures IsDistinct(MoveItem(list, i, j)) && forall v :: v in MoveItem(list, i, j) <==> v in list
  {
    var moved := MoveItem(list, i, j);
    forall x, y | 0 <= x < y < |moved|
      ensures moved[x] != moved[y]
    {
      MovedFrom(list, i, j, x);
      MovedFrom(list, i, j, y);
    }
    forall v
      ensures v in moved <==> v in list
    {
      if v in list {
        var p: nat :| p < |list| && list[p] == v;
        if p == i {
          assert moved[j] == v;
        } else {
          ShiftedItem(list, p, i, j);
        }
      }
    }
  }

  lemma {:induction false} AfterMembers(o: Reorder, m: nat)
    requires o.Valid() && m <= |o.goal| && Rises(o.start) && forall v :: o.IsShared(v)
    ensures IsDistinct(o.After(m)) && forall v :: v in o.After(m) <==> v in o.goal
  {
    if m == 0 {
      RisingIsDistinct(o.start);
      assert forall v :: o.IsShared(v) ==> (v in o.start <==> v in o.goal);
    } else {
      AfterMembers(o, m - 1);
      if o.Moves(m - 1) {
        MoveKeepsMembers(o.After(m - 1), o.goal[m - 1], m - 1);
      }
    }
  }

  // ----- what the moves leave in front of them

  ghost predicate IsMadeBefore(o: Reorder, m: nat)
    requires m <= |o.goal|
  {
    forall a: nat | a < m && a !in o.lis :: o.Moves(a)
  }

  /** No move so far has taken from as far back as `x`. */
  ghost predicate IsBeyond(o: Reorder, m: nat, x: nat)
    requires m <= |o.goal|
  {
    forall b: nat | b < m && b !in o.lis :: o.goal[b] < x
  }

  /** What the last move leaves at a place past those filled. */
  lemma LastMove(o: Reorder, m: nat, x: nat)
    requires o.Valid() && m < |o.goal| && x < |o.goal| && m < x && m !in o.lis && o.Moves(m)
    ensures o.After(m + 1)[x] == o.After(m)[if x <= o.goal[m] then x - 1 else x]
  {
    AfterStep(o, m, x);
  }

  /** Past the places filled so far, the list has what it had at first where no move has taken from further back, and
      something lower where one has. */
  lemma {:induction false} FrontExactly(o: Reorder, m: nat, x: nat)
    requires o.Valid() && m <= |o.goal| && x < |o.goal| && o.IsPast(m, x) && Rises(o.start) && IsMadeBefore(o, m)
    ensures o.After(m)[x] <= o.start[x]
    ensures o.After(m)[x] == o.start[x] <==> IsBeyond(o, m, x)
  {
    if m > 0 {
      var last := m - 1;
      if last in o.lis {
        AfterStep(o, last, x);
        FrontExactly(o, last, x);
      } else {
        LastMove(o, last, x);
        if x <= o.goal[last] {
          FrontExactly(o, last, x - 1);
        } else {
          FrontExactly(o, last, x);
        }
      }
    }
  }

  // ----- moves that do not disturb each other

  /** Every item outside the pick is moved, and from behind all that the moves before it have touched. */
  ghost predicate AreForward(o: Reorder) {
    forall a: nat | a < |o.goal| && a !in o.lis :: o.Moves(a) && forall b: nat | b < a && b !in o.lis :: IsBehind(o, a, b)
  }

  predicate IsBehind(o: Reorder, a: nat, b: nat)
    requires b < a < |o.goal|
  {
    b < o.goal[a] && o.goal[b] < o.goal[a]
  }

  /** A place that no move has filled yet. */
  predicate IsRest(o: Reorder, m: nat, x: nat) {
    x < m ==> x in o.lis
  }

  /** The places filled hold what they should, and the rest still rises. */
  ghost predicate IsOnCourse(o: Reorder, m: nat)
    requires o.Valid() && m <= |o.goal|
  {
    && (forall b: nat | b < m && b !in o.lis :: o.After(m)[b] == o.goal[b])
    && (forall x: nat, y: nat | x < y < |o.goal| :: RisesAt(o, m, x, y))
  }

  ghost predicate RisesAt(o: Reorder, m: nat, x: nat, y: nat)
    requires o.Valid() && m <= |o.goal| && x < y < |o.goal|
  {
    IsRest(o, m, x) && IsRest(o, m, y) ==> o.After(m)[x] < o.After(m)[y]
  }

  /** The move is made, and takes the item meant from behind the places filled. */
  ghost predicate Hits(o: Reorder, a: nat)
    requires o.Valid() && a < |o.goal|
  {
    o.Moves(a) && o.IsPast(a, o.goal[a]) && o.Item(a) == o.goal[a]
  }

  lemma CourseStep(o: Reorder, m: nat)
    requires o.Valid() && m < |o.goal| && IsOnCourse(o, m) && (m !in o.lis ==> Hits(o, m))
    ensures IsOnCourse(o, m + 1)
  {
    forall b: nat | b < m + 1 && b !in o.lis
      ensures o.After(m + 1)[b] == o.goal[b]
    {
      AfterStep(o, m, b);
    }
    var next := m + 1;
    forall x: nat, y: nat | x < y < |o.goal|
      ensures RisesAt(o, next, x, y)
    {
      RestStep(o, m, x, y);
    }
  }

  lemma RestStep(o: Reorder, m: nat, x: nat, y: nat)
    requires o.Valid() && m < |o.goal| && IsOnCourse(o, m) && x < y < |o.goal|
    requires m !in o.lis ==> o.Moves(m) && o.IsPast(m, o.goal[m])
    ensures RisesAt(o, m + 1, x, y)
  {
    AfterStep(o, m, x);
    AfterStep(o, m, y);
    if m in o.lis {
      assert RisesAt(o, m, x, y);
    } else if x != m && y != m {
      assert RisesAt(o, m, Source(x, o.goal[m], m), Source(y, o.goal[m], m));
    }
  }

  ghost predicate HitsBefore(o: Reorder, m: nat)
    requires o.Valid() && m <= |o.goal|
  {
    forall a: nat | a < m && a !in o.lis :: Hits(o, a)
  }

  lemma {:induction false} HitsStayOnCourse(o: Reorder, m: nat)
    requires o.Valid() && m <= |o.goal| && HitsBefore(o, m) && Rises(o.start)
    ensures IsOnCourse(o, m)
  {
    if m == 0 {
      forall x: nat, y: nat | x < y < |o.goal|
        ensures RisesAt(o, 0, x, y)
      {
      }
    } else {
      assert m - 1 !in o.lis ==> Hits(o, m - 1);
      HitsStayOnCourse(o, m - 1);
      CourseStep(o, m - 1);
    }
  }

  lemma ForwardHits(o: Reorder, a: nat)
    requires o.IsRegular() && AreForward(o) && a < |o.goal| && a !in o.lis
    ensures Hits(o, a)
  {
    forall b: nat | b < a && b !in o.lis
      ensures b < o.goal[a] && o.goal[b] < o.goal[a]
    {
      assert IsBehind(o, a, b);
    }
    FrontExactly(o, a, o.goal[a]);
  }

  function Picked(s: seq<int>, lis: seq<nat>): (r: seq<int>)
    requires forall a | 0 <= a < |lis| :: lis[a] < |s|
    ensures |r| == |lis|
  {
    seq(|lis|, a requires 0 <= a < |lis| => s[lis[a]])
  }

  lemma SameAtPick(a: seq<int>, b: seq<int>, lis: seq<nat>)
    requires forall i | 0 <= i < |lis| :: lis[i] < |a| && lis[i] < |b|
    requires |a| == |b| && IsDistinct(a) && (forall v :: v in a <==> v in b)
    requires forall x: nat | x < |a| && x !in lis :: a[x] == b[x]
    ensures forall v | v in Picked(a, lis) :: v in Picked(b, lis)
  {
    forall v | v in Picked(a, lis)
      ensures v in Picked(b, lis)
    {
      var i: nat :| i < |lis| && Picked(a, lis)[i] == v;
      assert v == a[lis[i]] && v in a;
      var x: nat :| x < |b| && b[x] == v;
      if x !in lis {
        assert false;
      }
      var k: nat :| k < |lis| && lis[k] == x;
      assert Picked(b, lis)[k] == v;
    }
  }

  /** A list that stays on course to the end is the goal. */
  lemma CourseArrives(o: Reorder)
    requires o.IsMatched() && IsOnCourse(o, |o.goal|)
    ensures o.After(|o.goal|) == o.goal
  {
    var n := |o.goal|;
    var list := o.After(n);
    AfterMembers(o, n);
    SameAtPick(list, o.goal, o.lis);
    SameAtPick(o.goal, list, o.lis);
    forall i, k | 0 <= i < k < |o.lis|
      ensures Picked(list, o.lis)[i] < Picked(list, o.lis)[k]
    {
      assert RisesAt(o, n, o.lis[i], o.lis[k]);
    }
    RisingWithSameMembers(Picked(list, o.lis), Picked(o.goal, o.lis));
    forall x: nat | x < n
      ensures list[x] == o.goal[x]
    {
      if x in o.lis {
        var i: nat :| i < |o.lis| && o.lis[i] == x;
        assert Picked(list, o.lis)[i] == Picked(o.goal, o.lis)[i];
      }
    }
  }

  lemma ForwardArrives(o: Reorder)
    requires o.IsRegular() && AreForward(o)
    ensures o.After(|o.goal|) == o.goal
  {
    forall a: nat | a < |o.goal| && a !in o.lis
      ensures Hits(o, a)
    {
      ForwardHits(o, a);
    }
    HitsStayOnCourse(o, |o.goal|);
    CourseArrives(o);
  }

  // ----- how many items have to be taken

  /** The places below `n` whose items are not in `taken`. */
  function Untaken(s: seq<int>, taken: set<int>, n: nat): (pick: seq<nat>)
    requires n <= |s|
  {
    if n == 0 then [] else Untaken(s, taken, n - 1) + if s[n - 1] in taken then [] else [n - 1]
  }

  lemma {:induction false} UntakenPlaces(s: seq<int>, taken: set<int>, n: nat)
    requires n <= |s|
    ensures forall i | 0 <= i < |Untaken(s, taken, n)| :: Untaken(s, taken, n)[i] < n && s[Untaken(s, taken, n)[i]] !in taken
    ensures forall i, k | 0 <= i < k < |Untaken(s, taken, n)| :: Untaken(s, taken, n)[i] < Untaken(s, taken, n)[k]
  {
    if n > 0 {
      UntakenPlaces(s, taken, n - 1);
    }
  }

  lemma {:induction false} UntakenCount(s: seq<int>, taken: set<int>, n: nat)
    requires n <= |s| && IsDistinct(s)
    ensures |Untaken(s, taken, n)| + |taken| >= n
  {
    if n > 0 {
      var v := s[n - 1];
      if v in taken {
        UntakenCount(s, taken - {v}, n - 1);
        SameUntaken(s, taken - {v}, taken, n - 1);
      } else {
        UntakenCount(s, taken, n - 1);
      }
    }
  }

  lemma {:induction false} SameUntaken(s: seq<int>, a: set<int>, b: set<int>, n: nat)
    requires n <= |s| && forall x | 0 <= x < n :: s[x] in a <==> s[x] in b
    ensures Untaken(s, a, n) == Untaken(s, b, n)
  {
    if n > 0 {
      SameUntaken(s, a, b, n - 1);
    }
  }

  ghost predicate RiseBut(s: seq<int>, taken: set<int>) {
    forall x, y | 0 <= x < y < |s| && s[x] !in taken && s[y] !in taken :: s[x] < s[y]
  }

  /** Taking items away until the rest rises takes as many as a longest pick leaves out. */
  lemma TakesEnough(s: seq<int>, lis: seq<nat>, taken: set<int>)
    requires IsDistinct(s) && IsLongestPick(s, lis) && RiseBut(s, taken)
    ensures |taken| + |lis| >= |s|
  {
    UntakenPlaces(s, taken, |s|);
    UntakenCount(s, taken, |s|);
    assert IsIncreasingPick(s, Untaken(s, taken, |s|));
  }

  /** How many of the first `m` places are outside the pick. */
  function Outside(lis: seq<nat>, m: nat): nat {
    if m == 0 then 0 else Outside(lis, m - 1) + if m - 1 in lis then 0 else 1
  }

  lemma {:induction false} SameOutside(a: seq<nat>, b: seq<nat>, m: nat)
    requires forall i: nat | i < m :: i in a <==> i in b
    ensures Outside(a, m) == Outside(b, m)
  {
    if m > 0 {
      SameOutside(a, b, m - 1);
    }
  }

  lemma {:induction false} OutsideCount(part: seq<nat>, n: nat)
    requires Rises(part) && forall a | 0 <= a < |part| :: part[a] < n
    ensures Outside(part, n) + |part| == n
  {
    assert part != [] ==> part[0] < n;
    if n > 0 {
      Diff.TopOfPart(part, n);
      if n - 1 in part {
        SameOutside(part, part[..|part| - 1], n - 1);
        OutsideCount(part[..|part| - 1], n - 1);
      } else {
        OutsideCount(part, n - 1);
      }
    }
  }

  lemma {:induction false} TakenGrows(o: Reorder, m: nat, n: nat)
    requires o.Valid() && m <= n <= |o.goal|
    ensures o.Taken(m) <= o.Taken(n)
    ensures |o.Taken(n)| + Outside(o.lis, m) <= |o.Taken(m)| + Outside(o.lis, n)
  {
    if m < n {
      TakenGrows(o, m, n - 1);
    }
  }

  ghost predicate UntakenRises(o: Reorder, m: nat, x: nat, y: nat)
    requires o.Valid() && m <= |o.goal| && x < y < |o.goal|
  {
    o.After(m)[x] !in o.Taken(m) && o.After(m)[y] !in o.Taken(m) ==> o.After(m)[x] < o.After(m)[y]
  }

  /** What no move has taken is in its old order. */
  lemma {:induction false} UntakenKeepsOrder(o: Reorder, m: nat, x: nat, y: nat)
    requires o.Valid() && m <= |o.goal| && x < y < |o.goal| && Rises(o.start)
    ensures UntakenRises(o, m, x, y)
    decreases m
  {
    if m > 0 {
      var last := m - 1;
      AfterStep(o, last, x);
      AfterStep(o, last, y);
      if !o.Moves(last) {
        UntakenKeepsOrder(o, last, x, y);
      } else if x != last && y != last {
        UntakenKeepsOrder(o, last, Source(x, o.goal[last], last), Source(y, o.goal[last], last));
      } else {
        assert o.After(m)[last] == o.Item(last) && o.Item(last) in o.Taken(m);
      }
    }
  }

  /** The moves bring the goal about, and none takes an item a second time. */
  ghost predicate IsTight(o: Reorder) {
    && o.Valid() && o.After(|o.goal|) == o.goal
    && forall a: nat | a < |o.goal| && a !in o.lis :: o.Moves(a) && o.Item(a) !in o.Taken(a)
  }

  lemma TakenRise(o: Reorder)
    requires o.Valid() && o.After(|o.goal|) == o.goal && Rises(o.start)
    ensures RiseBut(o.goal, o.Taken(|o.goal|))
  {
    forall x: nat, y: nat | x < y < |o.goal|
      ensures UntakenRises(o, |o.goal|, x, y)
    {
      UntakenKeepsOrder(o, |o.goal|, x, y);
    }
    forall x, y | 0 <= x < y < |o.goal| && o.goal[x] !in o.Taken(|o.goal|) && o.goal[y] !in o.Taken(|o.goal|)
      ensures o.goal[x] < o.goal[y]
    {
      var x': nat, y': nat := x, y;
      assert UntakenRises(o, |o.goal|, x', y');
    }
  }

  lemma EachTakesAnother(o: Reorder, a: nat)
    requires o.Valid() && a < |o.goal| && a !in o.lis
    requires |o.Taken(|o.goal|)| >= Outside(o.lis, |o.goal|)
    ensures o.Moves(a) && o.Item(a) !in o.Taken(a)
  {
    TakenGrows(o, 0, a);
    TakenGrows(o, a + 1, |o.goal|);
  }

  /** As few moves as these bring the goal about only if each of them takes another item. */
  lemma ArrivingIsTight(o: Reorder)
    requires o.IsRegular() && o.After(|o.goal|) == o.goal
    ensures IsTight(o)
  {
    var n := |o.goal|;
    TakenRise(o);
    TakesEnough(o.goal, o.lis, o.Taken(n));
    OutsideCount(o.lis, n);
    forall a: nat | a < n && a !in o.lis
      ensures o.Moves(a) && o.Item(a) !in o.Taken(a)
    {
      EachTakesAnother(o, a);
    }
  }

  /** Nor could any of the items taken have been left. */
  lemma EachIsNeeded(o: Reorder, v: int)
    requires IsTight(o) && o.IsRegular() && v in o.Taken(|o.goal|)
    ensures !RiseBut(o.goal, o.Taken(|o.goal|) - {v})
  {
    TakenGrows(o, 0, |o.goal|);
    OutsideCount(o.lis, |o.goal|);
    if RiseBut(o.goal, o.Taken(|o.goal|) - {v}) {
      TakesEnough(o.goal, o.lis, o.Taken(|o.goal|) - {v});
    }
  }

  // ----- where an item ends

  /** Where the item at `x` after `m` steps stands after `n`, as long as it is not taken. */
  ghost function Trace(o: Reorder, m: nat, n: nat, x: nat): (p: nat)
    requires o.Valid() && m <= n <= |o.goal| && x < |o.goal|
    ensures p < |o.goal|
  {
    if n == m then x
    else
      var p := Trace(o, m, n - 1, x);
      if o.Moves(n - 1) && p != o.goal[n - 1] then Shifted(p, o.goal[n - 1], n - 1) else p
  }

  ghost predicate Stays(o: Reorder, m: nat, n: nat, v: int)
    requires o.Valid() && n <= |o.goal|
  {
    forall e: nat | m <= e < n && o.Moves(e) :: o.Item(e) != v
  }

  /** A step takes an item that is not the one moved where `Trace` says. */
  lemma TraceStep(o: Reorder, m: nat, n: nat, x: nat, v: int)
    requires o.Valid() && m < n <= |o.goal| && x < |o.goal|
    requires o.After(n - 1)[Trace(o, m, n - 1, x)] == v && (o.Moves(n - 1) ==> o.Item(n - 1) != v)
    ensures o.After(n)[Trace(o, m, n, x)] == v
    ensures o.Moves(n - 1) ==> Trace(o, m, n - 1, x) != o.goal[n - 1]
  {
    if o.Moves(n - 1) {
      ShiftedItem(o.After(n - 1), Trace(o, m, n - 1, x), o.goal[n - 1], n - 1);
    }
  }

  lemma {:induction false} TraceHolds(o: Reorder, m: nat, n: nat, x: nat, v: int)
    requires o.Valid() && m <= n <= |o.goal| && x < |o.goal| && o.After(m)[x] == v && Stays(o, m, n, v)
    ensures o.After(n)[Trace(o, m, n, x)] == v
    ensures m < n && o.Moves(n - 1) ==> Trace(o, m, n - 1, x) != o.goal[n - 1]
  {
    if m < n {
      TraceHolds(o, m, n - 1, x, v);
      TraceStep(o, m, n, x, v);
    }
  }

  /** What has been put in only ever falls back. */
  lemma {:induction false} TraceFalls(o: Reorder, m: nat, k: nat, n: nat, x: nat)
    requires o.Valid() && m <= k <= n <= |o.goal| && x < m
    ensures Trace(o, m, n, x) <= Trace(o, m, k, x) <= x
  {
    if m < n {
      TraceFalls(o, m, if k < n then k else n - 1, n - 1, x);
    }
  }

  lemma {:induction false} TraceOrder(o: Reorder, m: nat, n: nat, x: nat, y: nat, v: int, w: int)
    requires o.Valid() && m <= n <= |o.goal| && x < y < |o.goal|
    requires o.After(m)[x] == v && Stays(o, m, n, v) && o.After(m)[y] == w && Stays(o, m, n, w)
    ensures Trace(o, m, n, x) < Trace(o, m, n, y)
  {
    if m < n {
      TraceOrder(o, m, n - 1, x, y, v, w);
      TraceHolds(o, m, n, x, v);
      TraceHolds(o, m, n, y, w);
      if o.Moves(n - 1) {
        ShiftedKeepsOrder(Trace(o, m, n - 1, x), Trace(o, m, n - 1, y), o.goal[n - 1], n - 1);
      }
    }
  }

  lemma TakenStays(o: Reorder, a: nat)
    requires IsTight(o) && a < |o.goal| && o.Moves(a)
    ensures Stays(o, a + 1, |o.goal|, o.Item(a)) && o.After(a + 1)[a] == o.Item(a)
  {
    AfterStep(o, a, a);
    forall e: nat | a + 1 <= e < |o.goal| && o.Moves(e)
      ensures o.Item(e) != o.Item(a)
    {
      TakenGrows(o, a + 1, e);
      assert o.Item(a) in o.Taken(a + 1);
    }
  }

  // ----- an order that comes out right was moved forward

  /** The item the move at `b` takes ends at its place. */
  ghost predicate IsPlaced(o: Reorder, b: nat)
    requires o.Valid() && b < |o.goal|
  {
    o.Moves(b) && o.Item(b) == o.goal[b]
  }

  lemma PlacedEnds(o: Reorder, b: nat)
    requires IsTight(o) && b < |o.goal| && IsPlaced(o, b) && IsDistinct(o.goal)
    ensures Trace(o, b + 1, |o.goal|, b) == b
  {
    TakenStays(o, b);
    TraceHolds(o, b + 1, |o.goal|, b, o.Item(b));
    var p := Trace(o, b + 1, |o.goal|, b);
    assert o.goal[p] == o.goal[b];
  }

  lemma PlacedIsThere(o: Reorder, b: nat, e: nat)
    requires IsTight(o) && b < e <= |o.goal| && IsPlaced(o, b) && IsDistinct(o.goal)
    ensures Trace(o, b + 1, e, b) == b && o.After(e)[b] == o.goal[b]
  {
    PlacedEnds(o, b);
    TraceFalls(o, b + 1, e, |o.goal|, b);
    IsAtTrace(o, b, e);
  }

  lemma IsAtTrace(o: Reorder, a: nat, e: nat)
    requires IsTight(o) && a < e <= |o.goal| && o.Moves(a)
    ensures o.After(e)[Trace(o, a + 1, e, a)] == o.Item(a)
  {
    TakenStays(o, a);
    TraceHolds(o, a + 1, e, a, o.Item(a));
  }

  /** What stands where it should never moves again, and all later moves take from behind it. */
  lemma TakesFromBehind(o: Reorder, b: nat, e: nat)
    requires IsTight(o) && b < e < |o.goal| && IsPlaced(o, b) && e !in o.lis && IsDistinct(o.goal)
    ensures b < o.goal[e]
  {
    PlacedIsThere(o, b, e);
    PlacedIsThere(o, b, e + 1);
    TakenStays(o, b);
    assert o.Moves(e) && o.Item(e) != o.Item(b);
  }

  lemma AllPast(o: Reorder, c: nat, e: nat)
    requires IsTight(o) && c <= e < |o.goal| && e !in o.lis && HitsBefore(o, c) && IsDistinct(o.goal)
    ensures o.IsPast(c, o.goal[e])
  {
    forall b: nat | b < c && b !in o.lis
      ensures b < o.goal[e]
    {
      assert Hits(o, b);
      TakesFromBehind(o, b, e);
    }
  }

  /** An item that is not the one meant ends before the place it was put at, behind all that stand right, at a place of
      the pick. */
  lemma WrongEnds(o: Reorder, c: nat) returns (f: nat)
    requires IsTight(o) && c < |o.goal| && c !in o.lis && HitsBefore(o, c) && o.Moves(c) && o.Item(c) != o.goal[c]
    ensures f < c && f in o.lis && o.goal[f] == o.Item(c) && f == Trace(o, c + 1, |o.goal|, c)
  {
    f := Trace(o, c + 1, |o.goal|, c);
    TakenStays(o, c);
    TraceHolds(o, c + 1, |o.goal|, c, o.Item(c));
    TraceFalls(o, c + 1, c + 1, |o.goal|, c);
    if f !in o.lis {
      WrongIsNotPlaced(o, c, f);
    }
  }

  lemma WrongIsNotPlaced(o: Reorder, c: nat, f: nat)
    requires IsTight(o) && f < c < |o.goal| && f !in o.lis && HitsBefore(o, c) && o.Moves(c)
    ensures o.Item(c) != o.goal[f]
  {
    assert Hits(o, f);
    TakenGrows(o, f + 1, c);
    assert o.Item(f) in o.Taken(f + 1);
  }

  // ----- the first wrong item

  /** From `c` on, no item outside the pick has a lower number than the one for place `g`. */
  ghost predicate IsLeast(o: Reorder, c: nat, g: nat) {
    && c <= g < |o.goal| && g !in o.lis
    && forall e: nat | c <= e < |o.goal| && e !in o.lis :: o.goal[g] <= o.goal[e]
  }

  lemma FindLeast(o: Reorder, c: nat) returns (g: nat)
    requires c < |o.goal| && c !in o.lis
    ensures IsLeast(o, c, g)
  {
    g := c;
    var i := c;
    while i < |o.goal|
      invariant c <= i <= |o.goal| && c <= g < |o.goal| && g !in o.lis
      invariant forall e: nat | c <= e < i && e !in o.lis :: o.goal[g] <= o.goal[e]
    {
      if i !in o.lis && o.goal[i] < o.goal[g] {
        g := i;
      }
      i := i + 1;
    }
  }

  /** Where the list and the goal agree: as long as the list has items lower than every item still to be put in place. */
  lemma {:induction false} FrontAgrees(o: Reorder, c: nat, g: nat, z: nat)
    requires o.IsMatched() && c <= |o.goal| && IsOnCourse(o, c) && IsLeast(o, c, g) && z <= c
    requires forall x: nat | x < z && IsRest(o, c, x) :: o.After(c)[x] < o.goal[g]
    ensures forall x: nat | x < z :: o.After(c)[x] == o.goal[x]
  {
    if z > 0 {
      FrontAgrees(o, c, g, z - 1);
      if z - 1 in o.lis {
        NextAgrees(o, c, g, z - 1);
      }
    }
  }

  lemma NextAgrees(o: Reorder, c: nat, g: nat, x: nat)
    requires o.IsMatched() && c <= |o.goal| && IsOnCourse(o, c) && IsLeast(o, c, g) && x < c && x in o.lis
    requires forall h: nat | h < x :: o.After(c)[h] == o.goal[h]
    requires o.After(c)[x] < o.goal[g]
    ensures o.After(c)[x] == o.goal[x]
  {
    AfterMembers(o, c);
    var list := o.After(c);
    assert list[x] in list && o.goal[x] in o.goal;
    var f: nat :| f < |o.goal| && o.goal[f] == list[x];
    var h: nat :| h < |list| && list[h] == o.goal[x];
    LowIsPicked(o, c, g, x, f);
    PickRises(o.goal, o.lis, x, f);
    PickedIsRest(o, c, x, h);
    assert x <= h;
    assert x == h || RisesAt(o, c, x, h);
  }

  lemma PickRises(s: seq<int>, lis: seq<nat>, x: nat, y: nat)
    requires IsIncreasingPick(s, lis) && x in lis && y in lis && x < |s| && y < |s|
    ensures x < y <==> s[x] < s[y]
  {
    var i: nat :| i < |lis| && lis[i] == x;
    var k: nat :| k < |lis| && lis[k] == y;
  }

  /** An item lower than all that are still to be put in place is of the pick. */
  lemma LowIsPicked(o: Reorder, c: nat, g: nat, x: nat, f: nat)
    requires o.Valid() && c <= |o.goal| && IsOnCourse(o, c) && IsLeast(o, c, g) && x < |o.goal| && IsRest(o, c, x)
    requires IsDistinct(o.After(c)) && o.After(c)[x] < o.goal[g] && f < |o.goal| && o.goal[f] == o.After(c)[x]
    ensures f in o.lis
  {
  }

  lemma PickedIsRest(o: Reorder, c: nat, x: nat, h: nat)
    requires o.Valid() && c <= |o.goal| && IsOnCourse(o, c) && IsDistinct(o.goal) && x < |o.goal| && x in o.lis
    requires h < |o.goal| && o.After(c)[h] == o.goal[x]
    ensures IsRest(o, c, h)
  {
  }

  /** The list at the first move that takes a wrong item: the item, where it ends, and the lowest one still to come. */
  ghost predicate IsFirstWrong(o: Reorder, c: nat, f: nat, g: nat) {
    && IsTight(o) && o.IsRegular() && c < |o.goal| && c !in o.lis && o.Moves(c) && o.Item(c) != o.goal[c]
    && IsOnCourse(o, c) && HitsBefore(o, c) && IsLeast(o, c, g)
    && f < c && f in o.lis && o.goal[f] == o.Item(c) && f == Trace(o, c + 1, |o.goal|, c)
  }

  /** Past all that is in place, the list has been lowered: the wrong item stands before the one meant. */
  lemma IsLowered(o: Reorder, c: nat, f: nat, g: nat)
    requires IsFirstWrong(o, c, f, g)
    ensures 0 <= o.goal[g] <= o.goal[c] < |o.goal| && o.IsPast(c, o.goal[g]) && o.IsPast(c, o.goal[c])
    ensures o.Item(c) < o.goal[c] && o.After(c)[o.goal[g]] < o.goal[g]
  {
    var p: nat, q: nat := o.goal[g], o.goal[c];
    AllPast(o, c, g);
    AllPast(o, c, c);
    forall a: nat | a < c && a !in o.lis
      ensures o.Moves(a)
    {
      assert Hits(o, a);
    }
    FrontExactly(o, c, q);
    FrontExactly(o, c, p);
  }

  /** It cannot be that the lowest item still to come is beyond the place being filled: up to that place the list would
      agree with the goal, where the wrong item has its place. */
  lemma NotFarBehind(o: Reorder, c: nat, f: nat, g: nat)
    requires IsFirstWrong(o, c, f, g)
    ensures o.goal[g] < c
  {
    IsLowered(o, c, f, g);
    AfterMembers(o, c);
    var p: nat := o.goal[g];
    if c <= p {
      forall x: nat | x < c && IsRest(o, c, x)
        ensures o.After(c)[x] < p
      {
        assert RisesAt(o, c, x, p);
      }
      FrontAgrees(o, c, g, c);
      assert false;
    }
  }

  /** The moves before that of the lowest item do not reach its number. */
  lemma {:induction false} StaysUpTo(o: Reorder, c: nat, g: nat, e: nat)
    requires o.Valid() && IsLeast(o, c, g) && c <= e <= g && 0 <= o.goal[g] < c && IsDistinct(o.goal)
    ensures o.After(e)[o.goal[g]] == o.After(c)[o.goal[g]]
  {
    if c < e {
      StaysUpTo(o, c, g, e - 1);
      AfterStep(o, e - 1, o.goal[g]);
      assert o.Moves(e - 1) ==> o.goal[g] < o.goal[e - 1];
    }
  }

  /** Nor that another item than the one meant here is the lowest: the item its move takes would end before the wrong
      one, but is put behind it. */
  lemma NoOtherIsLower(o: Reorder, c: nat, f: nat, g: nat)
    requires IsFirstWrong(o, c, f, g) && o.goal[g] < c
    ensures g == c
  {
    if c < g {
      IsLowered(o, c, f, g);
      StaysUpTo(o, c, g, g);
      LowerEndsFirst(o, c, f, g);
      PutBehind(o, c, g);
      assert false;
    }
  }

  lemma LowerEndsFirst(o: Reorder, c: nat, f: nat, g: nat)
    requires IsFirstWrong(o, c, f, g) && 0 <= o.goal[g] < o.goal[c] && o.IsPast(c, o.goal[g]) && o.IsPast(c, o.goal[c])
    requires c < g && o.Item(g) == o.After(c)[o.goal[g]] < o.goal[g]
    ensures Trace(o, g + 1, |o.goal|, g) < f
  {
    var p: nat, q: nat, n := o.goal[g], o.goal[c], |o.goal|;
    var h := Trace(o, g + 1, n, g);
    IsAtTrace(o, g, n);
    AfterMembers(o, c);
    LowIsPicked(o, c, g, p, h);
    assert RisesAt(o, c, p, q);
    PickRises(o.goal, o.lis, h, f);
  }

  lemma StayOrdered(o: Reorder, c: nat, g: nat, x: nat)
    requires IsTight(o) && c < g < |o.goal| && c !in o.lis && g !in o.lis && x < g && o.After(g + 1)[x] == o.Item(c)
    ensures Trace(o, g + 1, |o.goal|, x) < Trace(o, g + 1, |o.goal|, g)
  {
    TakenStays(o, c);
    TakenStays(o, g);
    TraceOrder(o, g + 1, |o.goal|, x, g, o.Item(c), o.Item(g));
  }

  lemma PutBehind(o: Reorder, c: nat, g: nat)
    requires IsTight(o) && c < g < |o.goal| && c !in o.lis && g !in o.lis
    ensures Trace(o, c + 1, |o.goal|, c) < Trace(o, g + 1, |o.goal|, g)
  {
    TraceFalls(o, c + 1, g + 1, g + 1, c);
    IsAtTrace(o, c, g + 1);
    StayOrdered(o, c, g, Trace(o, c + 1, g + 1, c));
    TraceTwice(o, c + 1, g + 1, |o.goal|, c);
  }

  lemma {:induction false} TraceTwice(o: Reorder, m: nat, k: nat, n: nat, x: nat)
    requires o.Valid() && m <= k <= n <= |o.goal| && x < |o.goal|
    ensures Trace(o, k, n, Trace(o, m, k, x)) == Trace(o, m, n, x)
  {
    if k < n {
      TraceTwice(o, m, k, n - 1, x);
    }
  }

  /** And if it is the one meant, the wrong item already stood where it ends, and need not have been taken. */
  lemma StoodRight(o: Reorder, c: nat, f: nat)
    requires IsFirstWrong(o, c, f, c) && o.goal[c] < c
    ensures f == o.goal[c] && forall x: nat | x <= f :: o.After(c)[x] == o.goal[x]
  {
    IsLowered(o, c, f, c);
    AfterMembers(o, c);
    var q: nat := o.goal[c];
    var z := 1 + if f < q then f else q;
    forall x: nat | x < z && IsRest(o, c, x)
      ensures o.After(c)[x] < q
    {
      assert x == q || RisesAt(o, c, x, q);
    }
    FrontAgrees(o, c, c, z);
    assert o.After(c)[z - 1] == o.goal[z - 1];
  }

  lemma WasNotNeeded(o: Reorder, c: nat, f: nat, x: nat)
    requires IsFirstWrong(o, c, f, c) && f == o.goal[c] && f < c && forall h: nat | h <= f :: o.After(c)[h] == o.goal[h]
    requires x < |o.goal| && x != f && o.goal[x] !in o.Taken(|o.goal|) && o.IsPast(c, f)
    ensures x < f <==> o.goal[x] < o.Item(c)
  {
    AfterMembers(o, c);
    assert o.goal[x] in o.goal && o.goal[x] in o.After(c);
    var h: nat :| h < |o.goal| && o.After(c)[h] == o.goal[x];
    UntakenIsRest(o, c, h);
    assert h < f ==> RisesAt(o, c, h, f);
    assert f < h ==> RisesAt(o, c, f, h);
  }

  lemma PlacedIsTaken(o: Reorder, c: nat, h: nat)
    requires o.Valid() && h < c <= |o.goal| && h !in o.lis && HitsBefore(o, c) && IsOnCourse(o, c)
    ensures o.After(c)[h] in o.Taken(|o.goal|)
  {
    assert Hits(o, h);
    TakenGrows(o, h + 1, |o.goal|);
    assert o.Item(h) in o.Taken(h + 1);
  }

  lemma UntakenIsRest(o: Reorder, c: nat, h: nat)
    requires o.Valid() && c <= |o.goal| && h < |o.goal| && HitsBefore(o, c) && IsOnCourse(o, c)
    requires o.After(c)[h] !in o.Taken(|o.goal|)
    ensures IsRest(o, c, h)
  {
    if h < c && h !in o.lis {
      PlacedIsTaken(o, c, h);
    }
  }

  lemma IsTaken(o: Reorder, c: nat)
    requires o.Valid() && c < |o.goal| && o.Moves(c)
    ensures o.Item(c) in o.Taken(|o.goal|)
  {
    TakenGrows(o, c + 1, |o.goal|);
    assert o.Item(c) in o.Taken(c + 1);
  }

  /** The item stood right among all that no move takes. */
  lemma NotNeededAt(o: Reorder, c: nat, f: nat, x: nat, y: nat)
    requires IsFirstWrong(o, c, f, c) && f == o.goal[c] && f < c && forall h: nat | h <= f :: o.After(c)[h] == o.goal[h]
    requires x < y < |o.goal| && o.IsPast(c, f) && RiseBut(o.goal, o.Taken(|o.goal|))
    requires (x == f || o.goal[x] !in o.Taken(|o.goal|)) && (y == f || o.goal[y] !in o.Taken(|o.goal|))
    ensures o.goal[x] < o.goal[y]
  {
    if x == f {
      WasNotNeeded(o, c, f, y);
    } else if y == f {
      WasNotNeeded(o, c, f, x);
    }
  }

  lemma NotNeeded(o: Reorder, c: nat, f: nat)
    requires IsFirstWrong(o, c, f, c) && f == o.goal[c] && f < c && forall h: nat | h <= f :: o.After(c)[h] == o.goal[h]
    ensures o.Item(c) in o.Taken(|o.goal|) && RiseBut(o.goal, o.Taken(|o.goal|) - {o.Item(c)})
  {
    IsTaken(o, c);
    TakenRise(o);
    IsLowered(o, c, f, c);
    forall x, y | 0 <= x < y < |o.goal| && o.goal[x] !in o.Taken(|o.goal|) - {o.Item(c)} && o.goal[y] !in o.Taken(|o.goal|) - {o.Item(c)}
      ensures o.goal[x] < o.goal[y]
    {
      NotNeededAt(o, c, f, x, y);
    }
  }

  lemma NoFirstWrong(o: Reorder, c: nat, f: nat, g: nat)
    ensures !IsFirstWrong(o, c, f, g)
  {
    if IsFirstWrong(o, c, f, g) {
      NotFarBehind(o, c, f, g);
      NoOtherIsLower(o, c, f, g);
      StoodRight(o, c, f);
      NotNeeded(o, c, f);
      EachIsNeeded(o, o.Item(c));
    }
  }

  /** So no move takes a wrong item. */
  lemma NoneIsWrong(o: Reorder, c: nat)
    requires IsTight(o) && o.IsRegular() && c < |o.goal| && c !in o.lis && HitsBefore(o, c)
    ensures o.Item(c) == o.goal[c]
  {
    if o.Item(c) != o.goal[c] {
      var g := FindLeast(o, c);
      var f := WrongEnds(o, c);
      HitsStayOnCourse(o, c);
      NoFirstWrong(o, c, f, g);
    }
  }

  lemma NextHits(o: Reorder, m: nat)
    requires IsTight(o) && o.IsRegular() && m < |o.goal| && m !in o.lis && HitsBefore(o, m)
    ensures Hits(o, m)
  {
    NoneIsWrong(o, m);
    AllPast(o, m, m);
  }

  lemma {:induction false} AllHit(o: Reorder, a: nat)
    requires IsTight(o) && o.IsRegular() && a < |o.goal| && a !in o.lis
    ensures Hits(o, a)
  {
    forall b: nat | b < a && b !in o.lis
      ensures Hits(o, b)
    {
      AllHit(o, b);
    }
    NextHits(o, a);
  }

  lemma HitsAreForward(o: Reorder, a: nat, b: nat)
    requires o.IsRegular() && b < a < |o.goal| && a !in o.lis && b !in o.lis && HitsBefore(o, |o.goal|)
    ensures IsBehind(o, a, b)
  {
    assert Hits(o, a);
    forall e: nat | e < a && e !in o.lis
      ensures o.Moves(e)
    {
      assert Hits(o, e);
    }
    FrontExactly(o, a, o.goal[a]);
  }

  /** The moves bring the goal about exactly when every item outside the pick is moved, and each from behind all that the
      moves before it have touched. */
  lemma ArrivesExactly(o: Reorder)
    requires o.IsRegular()
    ensures o.After(|o.goal|) == o.goal <==> AreForward(o)
  {
    if AreForward(o) {
      ForwardArrives(o);
    }
    if o.After(|o.goal|) == o.goal {
      ArrivingIsTight(o);
      forall a: nat | a < |o.goal| && a !in o.lis
        ensures Hits(o, a)
      {
        AllHit(o, a);
      }
      forall a: nat | a < |o.goal| && a !in o.lis
        ensures o.Moves(a) && forall b: nat | b < a && b !in o.lis :: IsBehind(o, a, b)
      {
        assert Hits(o, a);
        forall b: nat | b < a && b !in o.lis
          ensures IsBehind(o, a, b)
        {
          HitsAreForward(o, a, b);
        }
      }
    }
  }

  // ----- the script

  /** Nothing is deleted before the old index, and nothing inserted before the new index, of an item outside the pick. */
  ghost predicate IsClean(gone: seq<bool>, from: seq<Option<nat>>, lis: seq<nat>) {
    forall a: nat | a < |Common(from)| && a !in lis :: IsCleanAt(gone, from, a)
  }

  ghost predicate IsCleanAt(gone: seq<bool>, from: seq<Option<nat>>, a: nat)
    requires a < |Common(from)|
  {
    && Common(from)[a].0 < |gone| && (forall p | 0 <= p < Common(from)[a].0 :: !gone[p])
    && Common(from)[a].1 <= |from| && (forall q | 0 <= q < Common(from)[a].1 :: from[q].Some?)
  }

  function ReorderOf(gone: seq<bool>, from: seq<Option<nat>>, lis: seq<nat>): Reorder {
    Reorder(KeptPlaces(gone), OldIndices(Common(from)), lis)
  }

  lemma CleanAt(stored: seq<Slot>, gone: seq<bool>, goal: seq<Value>, from: seq<Option<nat>>, a: nat)
    requires IsPlainJob(stored, gone, goal, from) && a < |Common(from)| && IsCleanAt(gone, from, a)
    ensures Common(from)[a].1 == a && Common(from)[a].0 < |KeptPlaces(gone)| && KeptPlaces(gone)[Common(from)[a].0] == Common(from)[a].0
  {
    CommonIsPaired(from, |stored|);
    assert from[Common(from)[a].1] in from && !gone[Common(from)[a].0];
    FirstKept(gone, Common(from)[a].0);
    FirstCommon(from, a);
  }

  lemma CleanIsRegular(stored: seq<Slot>, gone: seq<bool>, goal: seq<Value>, from: seq<Option<nat>>, lis: seq<nat>)
    requires IsJob(stored, gone, goal, from, lis) && IsClean(gone, from, lis)
    ensures ReorderOf(gone, from, lis).IsRegular()
    ensures forall a: nat | a < |Common(from)| && a !in lis :: Common(from)[a].1 == a
  {
    var o := ReorderOf(gone, from, lis);
    KeptAreOld(gone, from);
    assert forall v :: o.IsShared(v);
    forall a: nat | a < |o.goal| && a !in lis
      ensures 0 <= o.goal[a] < |o.goal| && o.start[o.goal[a]] == o.goal[a] && Common(from)[a].1 == a
    {
      assert IsCleanAt(gone, from, a);
      CleanAt(stored, gone, goal, from, a);
    }
  }

  ghost predicate AreWithin(places: seq<int>, n: nat) {
    forall x | 0 <= x < |places| :: 0 <= places[x] < n
  }

  ghost function SlotsAt(stored: seq<Slot>, places: seq<int>): (list: seq<Slot>)
    requires AreWithin(places, |stored|)
    ensures |list| == |places|
  {
    seq(|places|, x requires 0 <= x < |places| => stored[places[x]])
  }

  lemma MovedSlotsAt(stored: seq<Slot>, places: seq<int>, i: nat, j: nat)
    requires AreWithin(places, |stored|) && i < |places| && j < |places|
    ensures AreWithin(MoveItem(places, i, j), |stored|)
    ensures MoveItem(SlotsAt(stored, places), i, j) == SlotsAt(stored, MoveItem(places, i, j))
  {
    forall x | 0 <= x < |places|
      ensures 0 <= MoveItem(places, i, j)[x] < |stored|
      ensures MoveItem(SlotsAt(stored, places), i, j)[x] == stored[MoveItem(places, i, j)[x]]
    {
      MovedFrom(places, i, j, x);
      MovedFrom(SlotsAt(stored, places), i, j, x);
    }
  }

  /** The move at `m`, run on the slots as the moves before it left them. */
  lemma NextMoveRuns(stored: seq<Slot>, o: Reorder, m: nat, item: Option<Schema>, options: InferOptions)
    requires o.Valid() && m < |o.goal| && o.Moves(m) && AreWithin(o.After(m), |stored|)
    ensures AreWithin(o.After(m + 1), |stored|)
    ensures Run(SlotsAt(stored, o.After(m)), item, options, MoveTo(o.goal[m], m)) == Some(SlotsAt(stored, o.After(m + 1)))
  {
    var i: nat := o.goal[m];
    var list := SlotsAt(stored, o.After(m));
    MovedSlotsAt(stored, o.After(m), i, m);
    assert With(Without(list, i), m, list[i]) == MoveItem(list, i, m);
  }

  lemma MovesLast(common: seq<(nat, nat)>, lis: seq<nat>, m: nat)
    requires m < |common|
    ensures Moves(common[..m + 1], lis) ==
      Moves(common[..m], lis) + if m !in lis && common[m].0 != common[m].1 then [MoveTo(common[m].0, common[m].1)] else []
  {
    assert common[..m + 1][..m] == common[..m];
  }

  ghost predicate IsRunTo(stored: seq<Slot>, o: Reorder, common: seq<(nat, nat)>, m: nat, item: Option<Schema>, options: InferOptions)
    requires o.Valid() && m <= |common| && m <= |o.goal|
  {
    && AreWithin(o.start, |stored|) && AreWithin(o.After(m), |stored|)
    && RunAll(SlotsAt(stored, o.start), item, options, Moves(common[..m], o.lis)) == Some(SlotsAt(stored, o.After(m)))
  }

  lemma RunsOn(stored: seq<Slot>, o: Reorder, common: seq<(nat, nat)>, m: nat, item: Option<Schema>, options: InferOptions)
    requires o.Valid() && m < |common| && m < |o.goal| && o.Moves(m) && common[m] == (o.goal[m], m)
    requires IsRunTo(stored, o, common, m, item, options)
    ensures IsRunTo(stored, o, common, m + 1, item, options)
  {
    MovesLast(common, o.lis, m);
    NextMoveRuns(stored, o, m, item, options);
    RunOneMore(SlotsAt(stored, o.start), item, options, Moves(common[..m], o.lis), MoveTo(o.goal[m], m));
  }

  lemma RunsNoFurther(stored: seq<Slot>, o: Reorder, common: seq<(nat, nat)>, m: nat, item: Option<Schema>, options: InferOptions)
    requires o.Valid() && m < |common| && m < |o.goal| && !o.Moves(m) && (m in o.lis || common[m].0 == common[m].1)
    requires IsRunTo(stored, o, common, m, item, options)
    ensures IsRunTo(stored, o, common, m + 1, item, options)
  {
    MovesLast(common, o.lis, m);
    assert Moves(common[..m], o.lis) + [] == Moves(common[..m], o.lis);
  }

  /** The moves of the script, run on the kept items, are the moves of the reordering. */
  lemma {:induction false} MovesAreRun(stored: seq<Slot>, o: Reorder, common: seq<(nat, nat)>, m: nat, item: Option<Schema>, options: InferOptions)
    requires o.Valid() && m <= |common| == |o.goal| && AreWithin(o.start, |stored|) && o.goal == OldIndices(common)
    requires forall a: nat | a < |common| && a !in o.lis :: common[a].1 == a && common[a].0 < |common|
    ensures IsRunTo(stored, o, common, m, item, options)
  {
    if m > 0 {
      MovesAreRun(stored, o, common, m - 1, item, options);
      if o.Moves(m - 1) {
        RunsOn(stored, o, common, m - 1, item, options);
      } else {
        RunsNoFurther(stored, o, common, m - 1, item, options);
      }
    }
  }

  /** Every item outside the pick changes its index, and comes from behind the old and the new index of every one moved
      before it. */
  ghost predicate MovesForward(common: seq<(nat, nat)>, lis: seq<nat>) {
    forall a: nat | a < |common| && a !in lis ::
      common[a].0 != common[a].1 && forall b: nat | b < a && b !in lis :: common[b].0 < common[a].0 && common[b].1 < common[a].0
  }

  lemma ForwardIsForward(o: Reorder, common: seq<(nat, nat)>)
    requires o.IsRegular() && o.goal == OldIndices(common)
    requires forall a: nat | a < |common| && a !in o.lis :: common[a].1 == a
    ensures AreForward(o) <==> MovesForward(common, o.lis)
  {
  }

  /** Where no deletion and no insertion shifts what a move names, the script arranges the list exactly when its moves
      go forward, however many there are. */
  lemma MovesExact(stored: seq<Slot>, gone: seq<bool>, goal: seq<Value>, from: seq<Option<nat>>, lis: seq<nat>,
                   item: Option<Schema>, options: InferOptions)
    requires IsJob(stored, gone, goal, from, lis) && IsClean(gone, from, lis)
    ensures Arranges(stored, gone, goal, from, lis, item, options) <==> MovesForward(Common(from), lis)
  {
    var o := ReorderOf(gone, from, lis);
    CleanIsRegular(stored, gone, goal, from, lis);
    ArrangesByReorder(stored, gone, goal, from, lis, item, options);
    ArrivesExactly(o);
    ForwardIsForward(o, Common(from));
  }

  lemma InsertedExactly(stored: seq<Slot>, gone: seq<bool>, goal: seq<Value>, from: seq<Option<nat>>, places: seq<int>,
                        item: Option<Schema>, options: InferOptions)
    requires IsPlainJob(stored, gone, goal, from) && AreWithin(places, |stored|) && |places| == |Common(from)|
    ensures RunAll(SlotsAt(stored, places), item, options, Inserts(goal, from, item)) == Some(Arranged(stored, goal, from, item, options))
      <==> places == OldIndices(Common(from))
  {
    InsertsExact(SlotsAt(stored, places), stored, goal, from, item, options);
    SameSlots(stored, gone, from, places);
  }

  lemma ArrangesByReorder(stored: seq<Slot>, gone: seq<bool>, goal: seq<Value>, from: seq<Option<nat>>, lis: seq<nat>,
                          item: Option<Schema>, options: InferOptions)
    requires IsPlainJob(stored, gone, goal, from) && ReorderOf(gone, from, lis).Valid()
    requires forall a: nat | a < |Common(from)| && a !in lis :: Common(from)[a].1 == a && Common(from)[a].0 < |Common(from)|
    ensures var o := ReorderOf(gone, from, lis);
      Arranges(stored, gone, goal, from, lis, item, options) <==> o.After(|o.goal|) == o.goal
  {
    var o, common := ReorderOf(gone, from, lis), Common(from);
    HeadRuns(stored, gone, goal, from, lis, item, options);
    assert Kept(stored, gone) == SlotsAt(stored, o.start);
    MovesAreRun(stored, o, common, |common|, item, options);
    assert common[..|common|] == common;
    InsertedExactly(stored, gone, goal, from, o.After(|o.goal|), item, options);
  }

  /** So it is for every script that deletes and inserts nothing. */
  lemma ReorderingExact(stored: seq<Slot>, gone: seq<bool>, goal: seq<Value>, from: seq<Option<nat>>, lis: seq<nat>,
                        item: Option<Schema>, options: InferOptions)
    requires IsJob(stored, gone, goal, from, lis) && true !in gone && None !in from
    ensures Arranges(stored, gone, goal, from, lis, item, options) <==> MovesForward(Common(from), lis)
  {
    CommonIsPaired(from, |stored|);
    forall a: nat | a < |Common(from)|
      ensures IsCleanAt(gone, from, a)
    {
      forall q | 0 <= q < |from|
        ensures from[q].Some?
      {
        assert from[q] in from;
      }
    }
    MovesExact(stored, gone, goal, from, lis, item, options);
  }

  /** In terms of the lists: with distinct ids the differ's script ends in the new list when its moves go forward, and its
      head puts the items in their places only then. */
  lemma DiffArrangesExactly(stored: seq<Slot>, goal: seq<Value>, selector: Selector, lis: seq<nat>, item: Option<Schema>, options: InferOptions)
    requires Diff.AllDistinct(Ids(selector, ReadAll(stored))) && Diff.AllDistinct(Ids(selector, goal))
    requires ItemsLand(stored, goal, selector, item, options)
    requires var (oldIds, newIds) := (Ids(selector, ReadAll(stored)), Ids(selector, goal));
      var from := Diff.From(Diff.IndexMap(oldIds), newIds);
      IsLongestPick(OldIndices(Common(from)), lis) && IsClean(Diff.Gone(oldIds, Diff.IndexMap(oldIds), newIds), from, lis)
    ensures Diff.IsArranged(stored, goal, selector, lis, item, options)
      <==> MovesForward(Common(Diff.From(Diff.IndexMap(Ids(selector, ReadAll(stored))), Ids(selector, goal))), lis)
  {
    var oldIds, newIds := Ids(selector, ReadAll(stored)), Ids(selector, goal);
    var m := Diff.IndexMap(oldIds);
    DistinctIdsMakeAJob(stored, goal, selector, lis);
    MovesExact(stored, Diff.Gone(oldIds, m, newIds), goal, Diff.From(m, newIds), lis, item, options);
  }

  // ----- where something shifts what a move names

  lemma ShiftedMoves()
    ensures Moves([(2, 0), (1, 2), (0, 3)], [2]) == [MoveTo(2, 0), MoveTo(1, 2)]
  {
    var c: seq<(nat, nat)> := [(2, 0), (1, 2), (0, 3)];
    assert c[..2] == [(2, 0), (1, 2)] && c[..2][..1] == [(2, 0)] && |c[..2][..1][..0]| == 0;
    assert Moves(c[..2][..1], [2]) == [MoveTo(2, 0)];
    assert Moves(c[..2], [2]) == [MoveTo(2, 0), MoveTo(1, 2)];
  }

  /** Such a script can come out right with a wrong item: from a, b, c to c, a new item, b, a, the second move is meant
      for b, takes a, and gives the order wanted all the same. */
  lemma ShiftedComesRight(a: Slot, b: Slot, c: Slot, item: Option<Schema>, options: InferOptions)
    ensures RunAll([a, b, c], item, options, Moves([(2, 0), (1, 2), (0, 3)], [2])) == Some([c, b, a])
    ensures !MovesForward([(2, 0), (1, 2), (0, 3)], [2])
  {
    ShiftedMoves();
    var common: seq<(nat, nat)> := [(2, 0), (1, 2), (0, 3)];
    assert common[0].0 == 2 && common[1].0 == 1 && 0 !in [2] && 1 !in [2];
    assert With(Without([a, b, c], 2), 0, c) == [c, a, b];
    assert With(Without([c, a, b], 1), 2, a) == [c, b, a];
    RunTwo([a, b, c], item, options, MoveTo(2, 0), MoveTo(1, 2));
  }
}
