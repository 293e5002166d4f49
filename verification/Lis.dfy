/** The longest strictly increasing subsequence behind the minimal move set of a
    movable list (crates/vt-mirror/src/lis.rs). */
module Lis {

  /** `pick` is a strictly increasing list of positions of `s` whose values strictly increase. */
  ghost predicate IsIncreasingPick(s: seq<int>, pick: seq<nat>)
  {
    && (forall a | 0 <= a < |pick| :: pick[a] < |s|)
    && (forall a, b | 0 <= a < b < |pick| :: pick[a] < pick[b] && s[pick[a]] < s[pick[b]])
  }

  /** `rank[j]` is the tail slot position `j` was filed under. A later, larger value always ranks higher. */
  ghost predicate RanksRise(s: seq<int>, rank: seq<nat>)
    requires |rank| <= |s|
  {
    forall j, k | 0 <= j < k < |rank| && s[j] < s[k] :: rank[j] < rank[k]
  }

  /** Every member of an increasing pick ranks at least as high as its place in the pick. */
  lemma {:induction false} PickIsBoundedByRank(s: seq<int>, rank: seq<nat>, pick: seq<nat>, a: nat)
    requires |rank| == |s| && RanksRise(s, rank)
    requires IsIncreasingPick(s, pick) && a < |pick|
    ensures a <= rank[pick[a]]
  {
    if a > 0 {
      PickIsBoundedByRank(s, rank, pick, a - 1);
      assert s[pick[a - 1]] < s[pick[a]];
    }
  }

  /** `predecessor[j]` is read only for a position filed above slot 0, where it continues the chain. */
  const NO_PREDECESSOR: int := -1

  ghost predicate IsLink(s: seq<int>, rank: seq<nat>, link: int, j: nat)
    requires j < |rank| <= |s|
  {
    0 <= link < j && rank[link] + 1 == rank[j] && s[link] < s[j]
  }

  ghost predicate LinksDescend(s: seq<int>, rank: seq<nat>, predecessor: seq<int>)
    requires |rank| <= |s| && |rank| <= |predecessor|
  {
    forall j {:trigger predecessor[j]} | 0 <= j < |rank| && rank[j] > 0 :: IsLink(s, rank, predecessor[j], j)
  }

  /** Position `j` ends a chain no better than the one kept for its rank. */
  ghost predicate IsCovered(s: seq<int>, rank: seq<nat>, tails: seq<nat>, j: nat)
    requires j < |rank| <= |s|
  {
    rank[j] < |tails| && tails[rank[j]] < |s| && s[tails[rank[j]]] <= s[j]
  }

  /** `tails[r]` ends a chain of rank `r` with the least value seen for that rank. */
  ghost predicate TailsAreLeast(s: seq<int>, rank: seq<nat>, tails: seq<nat>)
    requires |rank| <= |s|
  {
    && TailsEndRanks(rank, tails)
    && (forall q, r | 0 <= q < r < |tails| :: s[tails[q]] < s[tails[r]])
    && (forall j: nat {:trigger IsCovered(s, rank, tails, j)} | j < |rank| :: IsCovered(s, rank, tails, j))
  }

  ghost predicate TailsEndRanks(rank: seq<nat>, tails: seq<nat>)
  {
    forall r {:trigger tails[r]} | 0 <= r < |tails| :: tails[r] < |rank| && rank[tails[r]] == r
  }

  /** Where the binary search over the tails lands for `x`. */
  ghost predicate IsTailSlot(s: seq<int>, tails: seq<nat>, x: int, low: nat)
    requires forall r | 0 <= r < |tails| :: tails[r] < |s|
  {
    && low <= |tails|
    && (forall r | 0 <= r < low :: s[tails[r]] < x)
    && (forall r | low <= r < |tails| :: x <= s[tails[r]])
  }

  /** Filing the next position under its slot keeps the ranks rising. */
  lemma FileKeepsRanks(s: seq<int>, rank: seq<nat>, tails: seq<nat>, low: nat)
    requires |rank| < |s|
    requires RanksRise(s, rank) && TailsAreLeast(s, rank, tails)
    requires IsTailSlot(s, tails, s[|rank|], low)
    ensures RanksRise(s, rank + [low])
  {
    forall j, k | 0 <= j < k <= |rank| && s[j] < s[k]
      ensures (rank + [low])[j] < (rank + [low])[k]
    {
      if k == |rank| {
        assert IsCovered(s, rank, tails, j);
      }
    }
  }

  function Filed(tails: seq<nat>, low: nat, i: nat): seq<nat>
    requires low <= |tails|
  {
    if low < |tails| then tails[low := i] else tails + [i]
  }

  lemma FileKeepsRise(s: seq<int>, rank: seq<nat>, tails: seq<nat>, low: nat)
    requires |rank| < |s|
    requires TailsAreLeast(s, rank, tails)
    requires IsTailSlot(s, tails, s[|rank|], low)
    ensures var tails' := Filed(tails, low, |rank|);
      forall q, r | 0 <= q < r < |tails'| :: tails'[q] < |s| && tails'[r] < |s| && s[tails'[q]] < s[tails'[r]]
  {
    var tails' := Filed(tails, low, |rank|);
    forall q, r | 0 <= q < r < |tails'|
      ensures tails'[q] < |s| && tails'[r] < |s| && s[tails'[q]] < s[tails'[r]]
    {
      if q == low {
        assert s[tails[q]] < s[tails[r]];
      }
    }
  }

  lemma FileKeepsCover(s: seq<int>, rank: seq<nat>, tails: seq<nat>, low: nat, j: nat)
    requires j <= |rank| < |s|
    requires TailsAreLeast(s, rank, tails)
    requires IsTailSlot(s, tails, s[|rank|], low)
    ensures IsCovered(s, rank + [low], Filed(tails, low, |rank|), j)
  {
    if j < |rank| {
      assert IsCovered(s, rank, tails, j);
    }
  }

  lemma FileKeepsTails(s: seq<int>, rank: seq<nat>, tails: seq<nat>, low: nat)
    requires |rank| < |s|
    requires TailsAreLeast(s, rank, tails)
    requires IsTailSlot(s, tails, s[|rank|], low)
    ensures TailsAreLeast(s, rank + [low], Filed(tails, low, |rank|))
  {
    var rank', tails' := rank + [low], Filed(tails, low, |rank|);
    FileKeepsRise(s, rank, tails, low);
    forall j: nat | j < |rank'|
      ensures IsCovered(s, rank', tails', j)
    {
      FileKeepsCover(s, rank, tails, low, j);
    }
    assert TailsEndRanks(rank', tails');
  }

  lemma FileKeepsLinks(s: seq<int>, rank: seq<nat>, predecessor: seq<int>, tails: seq<nat>, low: nat,
                       predecessor': seq<int>)
    requires |rank| < |s| == |predecessor| == |predecessor'|
    requires LinksDescend(s, rank, predecessor) && TailsAreLeast(s, rank, tails)
    requires IsTailSlot(s, tails, s[|rank|], low)
    requires predecessor'[..|rank|] == predecessor[..|rank|]
    requires low > 0 ==> predecessor'[|rank|] == tails[low - 1]
    ensures LinksDescend(s, rank + [low], predecessor')
  {
    var i, rank' := |rank|, rank + [low];
    forall j | 0 <= j < |rank'| && rank'[j] > 0
      ensures IsLink(s, rank', predecessor'[j], j)
    {
      if j < i {
        assert predecessor'[j] == predecessor'[..i][j] == predecessor[j];
        assert IsLink(s, rank, predecessor[j], j);
      }
    }
  }

  /** The binary search over the tails. */
  method TailSlot(s: seq<int>, tails: seq<nat>, x: int) returns (low: nat)
    requires forall r | 0 <= r < |tails| :: tails[r] < |s|
    requires forall q, r | 0 <= q < r < |tails| :: s[tails[q]] < s[tails[r]]
    ensures IsTailSlot(s, tails, x, low)
  {
    var high := |tails|;
    low := 0;
    while low < high
      invariant low <= high <= |tails|
      invariant forall r | 0 <= r < low :: s[tails[r]] < x
      invariant forall r | high <= r < |tails| :: x <= s[tails[r]]
    {
      var mid := (low + high) / 2;
      if s[tails[mid]] < x {
        low := mid + 1;
      } else {
        high := mid;
      }
    }
  }

  /** What the forward pass knows about the positions it has filed. */
  ghost predicate IsFiled(s: seq<int>, rank: seq<nat>, predecessor: seq<int>, tails: seq<nat>)
  {
    && |rank| <= |s| == |predecessor|
    && (|rank| > 0 ==> |tails| > 0)
    && RanksRise(s, rank) && LinksDescend(s, rank, predecessor) && TailsAreLeast(s, rank, tails)
  }

  lemma FileNext(s: seq<int>, rank: seq<nat>, predecessor: seq<int>, tails: seq<nat>, low: nat,
                 predecessor': seq<int>)
    requires IsFiled(s, rank, predecessor, tails) && |rank| < |s| == |predecessor'|
    requires IsTailSlot(s, tails, s[|rank|], low)
    requires predecessor'[..|rank|] == predecessor[..|rank|]
    requires low > 0 ==> predecessor'[|rank|] == tails[low - 1]
    ensures IsFiled(s, rank + [low], predecessor', Filed(tails, low, |rank|))
  {
    FileKeepsRanks(s, rank, tails, low);
    FileKeepsTails(s, rank, tails, low);
    FileKeepsLinks(s, rank, predecessor, tails, low, predecessor');
  }

  /** The forward pass. */
  method FileAll(s: seq<int>) returns (predecessor: array<int>, tails: seq<nat>, ghost rank: seq<nat>)
    ensures |rank| == |s| && IsFiled(s, rank, predecessor[..], tails)
  {
    predecessor := new int[|s|](_ => NO_PREDECESSOR);
    tails, rank := [], [];
    for i := 0 to |s|
      invariant |rank| == i
      invariant IsFiled(s, rank, predecessor[..], tails)
    {
      var low := TailSlot(s, tails, s[i]);
      ghost var linked, ended := predecessor[..], tails;
      if low >= |tails| {
        tails := tails + [i];
      } else {
        tails := tails[low := i];
      }
      if low > 0 {
        predecessor[i] := tails[low - 1];
      }
      FileNext(s, rank, linked, ended, low, predecessor[..]);
      rank := rank + [low];
    }
  }

  lemma NoPickIsLonger(s: seq<int>, rank: seq<nat>, predecessor: seq<int>, tails: seq<nat>, pick: seq<nat>)
    requires |rank| == |s| && IsFiled(s, rank, predecessor, tails)
    requires IsIncreasingPick(s, pick)
    ensures |pick| <= |tails|
  {
    if |pick| > 0 {
      PickIsBoundedByRank(s, rank, pick, |pick| - 1);
      assert IsCovered(s, rank, tails, pick[|pick| - 1]);
    }
  }

  method LongestIncreasingSubsequence(s: seq<int>) returns (lis: seq<nat>)
    ensures IsIncreasingPick(s, lis)
    ensures forall pick: seq<nat> | IsIncreasingPick(s, pick) :: |pick| <= |lis|
  {
    if |s| == 0 {
      assert forall pick: seq<nat> | IsIncreasingPick(s, pick) :: |pick| == 0 || pick[0] < |s|;
      return [];
    }
    var predecessor, tails, rank := FileAll(s);
    lis := FollowLinks(s, rank, predecessor, tails);
    forall pick: seq<nat> | IsIncreasingPick(s, pick)
      ensures |pick| <= |lis|
    {
      NoPickIsLonger(s, rank, predecessor[..], tails, pick);
    }
  }

  /** The back-tracking pass: fills the result from its last slot along the predecessor links. */
  method FollowLinks(s: seq<int>, ghost rank: seq<nat>, predecessor: array<int>, tails: seq<nat>)
    returns (lis: seq<nat>)
    requires |rank| == |s| == predecessor.Length && |tails| > 0
    requires LinksDescend(s, rank, predecessor[..]) && TailsAreLeast(s, rank, tails)
    ensures |lis| == |tails| && IsIncreasingPick(s, lis)
  {
    var filled := new nat[|tails|](_ => 0);
    var k: int := tails[|tails| - 1];
    var slot := |tails|;
    while slot > 0
      invariant 0 <= slot <= |tails|
      invariant slot > 0 ==> 0 <= k < |s| && rank[k] == slot - 1
      invariant forall a | slot <= a < |tails| :: filled[a] < |s|
      invariant 0 < slot < |tails| ==> k < filled[slot] && s[k] < s[filled[slot]]
      invariant forall a, b | slot <= a < b < |tails| :: filled[a] < filled[b] && s[filled[a]] < s[filled[b]]
    {
      slot := slot - 1;
      filled[slot] := k;
      if slot > 0 {
        k := predecessor[k];
      }
    }
    lis := filled[..];
  }
}
