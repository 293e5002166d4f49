/** What holds over every run of the store's transactions, in whatever order requests interleave them. */
module QuotaRuns {
  import opened Prelude
  import opened QuotaLedger

  datatype Op =
    | CreateInvite(quota: int)
    | ReserveSession(invite: nat, requested: int, laneCount: int, token: string, now: int)
    | SettleSession(invite: nat, id: string, used: int)
    | ExpireStale(now: int)
    | AdjustQuota(invite: nat, delta: int)
    | SetInviteEnabled(invite: nat, enabled: bool)
    | ReserveSessionKeys(invite: nat, id: string, count: int)
    | ReleaseSessionKeys(id: string, count: int)

  function Step(l: Ledger, op: Op): Ledger {
    match op
    case CreateInvite(quota) => Create(l, quota)
    case ReserveSession(invite, requested, laneCount, token, now) => Reserve(l, invite, requested, laneCount, token, now).0
    case SettleSession(invite, id, used) => Settle(l, invite, id, used)
    case ExpireStale(now) => Expire(l, now)
    case AdjustQuota(invite, delta) => Adjust(l, invite, delta)
    case SetInviteEnabled(invite, enabled) => SetEnabled(l, invite, enabled)
    case ReserveSessionKeys(invite, id, count) => ClaimKeys(l, invite, id, count).0
    case ReleaseSessionKeys(id, count) => ReleaseKeys(l, id, count)
  }

  function Run(l: Ledger, ops: seq<Op>): Ledger {
    if ops == [] then l else Step(Run(l, ops[..|ops| - 1]), ops[|ops| - 1])
  }

  // ----- the invariant

  lemma CreateKeepsBalance(l: Ledger, quota: int)
    requires IsBalanced(l)
    ensures IsBalanced(Create(l, quota))
  {
    var l' := Create(l, quota);
    forall i | 0 <= i < |l.sessions|
      ensures SessionIsSound(l', l.sessions[i]) && l.sessions[i].invite != |l.invites|
    {
      assert SessionIsSound(l, l.sessions[i]);
    }
    SumsOfStranger(l.sessions, |l.invites|);
    forall i: nat | i < |l'.invites|
      ensures InviteBalances(l', i)
    {
      assert i < |l.invites| ==> InviteBalances(l, i);
    }
    assert forall session :: KeyCount(l'.keys, session) == KeyCount(l.keys, session);
  }

  lemma ReserveKeepsBalance(l: Ledger, invite: nat, requested: int, laneCount: int, token: string, now: int)
    requires IsBalanced(l)
    ensures IsBalanced(Reserve(l, invite, requested, laneCount, token, now).0)
  {
    var (l', grant) := Reserve(l, invite, requested, laneCount, token, now);
    if grant.Granted? {
      var s := Session(token, invite, grant.seconds, Lanes(laneCount), now, None);
      assert l'.sessions == l.sessions + [s];
      forall i: nat | i < |l'.invites|
        ensures InviteBalances(l', i)
      {
        assert InviteBalances(l, i);
        SumsAfterAppend(l.sessions, s, i);
      }
      forall i | 0 <= i < |l'.sessions|
        ensures SessionIsSound(l', l'.sessions[i])
      {
        assert i < |l.sessions| ==> SessionIsSound(l, l.sessions[i]);
      }
      assert forall session :: KeyCount(l'.keys, session) == KeyCount(l.keys, session);
    }
  }

  lemma SettleKeepsBalance(l: Ledger, invite: nat, id: string, used: int)
    requires IsBalanced(l)
    ensures IsBalanced(Settle(l, invite, id, used))
  {
    var row := OpenRow(l, invite, id);
    if row.Some? && invite < |l.invites| {
      assert SessionIsSound(l, l.sessions[row.value]);
      SettlingKeepsBalance(l, row.value, Charged(l.sessions[row.value], used));
    }
  }

  lemma {:induction false} ExpireKeepsBalance(l: Ledger, now: int, n: nat)
    requires IsBalanced(l) && n <= |l.sessions|
    ensures IsBalanced(ExpireFirst(l, now, n))
  {
    if n > 0 {
      ExpireKeepsBalance(l, now, n - 1);
      var before := ExpireFirst(l, now, n - 1);
      assert before.sessions[n - 1] == before.sessions[n - 1..][0] == l.sessions[n - 1..][0];
      assert SessionIsSound(before, before.sessions[n - 1]);
      if IsStale(l.sessions[n - 1], now) {
        SettlingKeepsBalance(before, n - 1, 0);
      }
    }
  }

  lemma AdjustKeepsBalance(l: Ledger, invite: nat, delta: int)
    requires IsBalanced(l)
    ensures IsBalanced(Adjust(l, invite, delta))
  {
    OtherColumnsKeepBalance(l, Adjust(l, invite, delta));
  }

  /** Changing quotas or switches keeps the balance as long as every quota still covers its invite. */
  lemma OtherColumnsKeepBalance(l: Ledger, l': Ledger)
    requires IsBalanced(l)
    requires l'.sessions == l.sessions && l'.keys == l.keys && |l'.invites| == |l.invites|
    requires forall i | 0 <= i < |l.invites| ::
      var (was, now) := (l.invites[i], l'.invites[i]);
      now.used == was.used && now.reserved == was.reserved && (now.quota == was.quota || now.used + now.reserved <= now.quota)
    ensures IsBalanced(l')
  {
    forall i: nat | i < |l'.invites|
      ensures InviteBalances(l', i)
    {
      assert InviteBalances(l, i);
    }
    assert forall i | 0 <= i < |l.sessions| :: SessionIsSound(l, l.sessions[i]) ==> SessionIsSound(l', l.sessions[i]);
    assert forall session :: KeyCount(l'.keys, session) == KeyCount(l.keys, session);
  }

  // ----- keys

  lemma {:induction false} KeysAfterClaim(keys: seq<string>, session: string, count: nat, other: string)
    ensures KeyCount(keys + Repeat(session, count), other) == KeyCount(keys, other) + if other == session then count else 0
  {
    if count == 0 {
      assert keys + Repeat(session, 0) == keys;
    } else {
      KeysAfterClaim(keys, session, count - 1, other);
      assert (keys + Repeat(session, count))[..|keys| + count - 1] == keys + Repeat(session, count - 1);
    }
  }

  /** A release takes rows of its own session only, and as many as asked for unless there are fewer. */
  lemma {:induction false} KeysAfterRelease(keys: seq<string>, session: string, count: nat, other: string)
    ensures KeyCount(WithoutNewest(keys, session, count), other) ==
      if other != session then KeyCount(keys, other) else if KeyCount(keys, session) < count then 0 else KeyCount(keys, session) - count
    decreases |keys|
  {
    if keys != [] && count > 0 {
      var last := |keys| - 1;
      if keys[last] == session {
        KeysAfterRelease(keys[..last], session, count - 1, other);
      } else {
        KeysAfterRelease(keys[..last], session, count, other);
        var front := WithoutNewest(keys[..last], session, count);
        assert (front + [keys[last]])[..|front|] == front;
      }
    }
  }

  lemma KeyRowsKeepBalance(l: Ledger, keys: seq<string>)
    requires IsBalanced(l) && forall session :: KeyCount(keys, session) <= SESSION_KEY_BUDGET
    ensures IsBalanced(l.(keys := keys))
  {
    var l' := l.(keys := keys);
    forall i: nat | i < |l'.invites|
      ensures InviteBalances(l', i)
    {
      assert InviteBalances(l, i);
    }
    assert forall i | 0 <= i < |l.sessions| :: SessionIsSound(l, l.sessions[i]) ==> SessionIsSound(l', l.sessions[i]);
  }

  lemma ClaimKeepsBalance(l: Ledger, invite: nat, session: string, count: int)
    requires IsBalanced(l)
    ensures IsBalanced(ClaimKeys(l, invite, session, count).0)
  {
    var (l', issued) := ClaimKeys(l, invite, session, count);
    if issued.Some? {
      forall other
        ensures KeyCount(l'.keys, other) <= SESSION_KEY_BUDGET
      {
        KeysAfterClaim(l.keys, session, count, other);
        assert KeyCount(l.keys, other) <= SESSION_KEY_BUDGET;
      }
      KeyRowsKeepBalance(l, l'.keys);
    }
  }

  lemma ReleaseKeepsBalance(l: Ledger, session: string, count: int)
    requires IsBalanced(l)
    ensures IsBalanced(ReleaseKeys(l, session, count))
  {
    if count >= 1 {
      forall other
        ensures KeyCount(WithoutNewest(l.keys, session, count), other) <= SESSION_KEY_BUDGET
      {
        KeysAfterRelease(l.keys, session, count, other);
        assert KeyCount(l.keys, other) <= SESSION_KEY_BUDGET;
      }
      KeyRowsKeepBalance(l, WithoutNewest(l.keys, session, count));
    }
  }

  lemma StepKeepsBalance(l: Ledger, op: Op)
    requires IsBalanced(l)
    ensures IsBalanced(Step(l, op))
  {
    match op
    case CreateInvite(quota) => CreateKeepsBalance(l, quota);
    case ReserveSession(invite, requested, laneCount, token, now) => ReserveKeepsBalance(l, invite, requested, laneCount, token, now);
    case SettleSession(invite, id, used) => SettleKeepsBalance(l, invite, id, used);
    case ExpireStale(now) => ExpireKeepsBalance(l, now, |l.sessions|);
    case AdjustQuota(invite, delta) => AdjustKeepsBalance(l, invite, delta);
    case SetInviteEnabled(invite, enabled) => OtherColumnsKeepBalance(l, SetEnabled(l, invite, enabled));
    case ReserveSessionKeys(invite, id, count) => ClaimKeepsBalance(l, invite, id, count);
    case ReleaseSessionKeys(id, count) => ReleaseKeepsBalance(l, id, count);
  }

  /** In every ledger reachable from the empty one: each invite's reserved seconds are the sum over its open
      sessions and its used seconds the sum of what was settled, the two together never exceed the quota
      (nor zero, for an invite created with a negative quota), and no session has more than 16 keys. */
  lemma {:induction false} EveryRunBalances(ops: seq<Op>)
    ensures IsBalanced(Run(EMPTY, ops))
  {
    if ops != [] {
      EveryRunBalances(ops[..|ops| - 1]);
      StepKeepsBalance(Run(EMPTY, ops[..|ops| - 1]), ops[|ops| - 1]);
    }
  }

  // ----- history

  /** Session rows only ever gain a settlement, once. */
  ghost predicate Continues(before: Ledger, after: Ledger) {
    && |before.invites| <= |after.invites| && |before.sessions| <= |after.sessions|
    && forall i | 0 <= i < |before.sessions| ::
      && after.sessions[i].(settled := None) == before.sessions[i].(settled := None)
      && (before.sessions[i].settled.Some? ==> after.sessions[i].settled == before.sessions[i].settled)
  }

  lemma {:induction false} ExpireContinues(l: Ledger, now: int, n: nat)
    requires n <= |l.sessions|
    ensures Continues(l, ExpireFirst(l, now, n))
  {
    if n > 0 {
      ExpireContinues(l, now, n - 1);
      var before := ExpireFirst(l, now, n - 1);
      assert before.sessions[n - 1] == before.sessions[n - 1..][0] == l.sessions[n - 1..][0];
    }
  }

  lemma StepContinues(l: Ledger, op: Op)
    ensures Continues(l, Step(l, op))
  {
    if op.ExpireStale? {
      ExpireContinues(l, op.now, |l.sessions|);
    }
  }

  /** A session is settled at most once: whatever is settled before a run is settled the same after it. */
  lemma {:induction false} EveryRunContinues(l: Ledger, ops: seq<Op>)
    ensures Continues(l, Run(l, ops))
  {
    if ops != [] {
      EveryRunContinues(l, ops[..|ops| - 1]);
      StepContinues(Run(l, ops[..|ops| - 1]), ops[|ops| - 1]);
    }
  }

  // ----- what single transactions undo and release

  /** Settling a fresh reservation charges what was used and gives the whole reservation back. */
  lemma ReserveThenSettle(l: Ledger, invite: nat, requested: int, laneCount: int, token: string, now: int, used: int)
    requires Reserve(l, invite, requested, laneCount, token, now).1.Granted?
    ensures var charge := Max(0, Min(used, Reserve(l, invite, requested, laneCount, token, now).1.seconds));
      var after := Step(Step(l, ReserveSession(invite, requested, laneCount, token, now)), SettleSession(invite, token, used));
      && after.invites == l.invites[invite := l.invites[invite].(used := l.invites[invite].used + charge)]
      && (used <= 0 ==> after.invites == l.invites)
  {
    var held := Reserve(l, invite, requested, laneCount, token, now).0;
    assert held.sessions[|held.sessions| - 1].id == token;
    assert OpenRow(held, invite, token) == Some(|l.sessions|);
  }

  /** After an expiry no reservation older than six hours is open, and no younger one was touched. */
  lemma {:induction false} ExpireClearsStale(l: Ledger, now: int, n: nat)
    requires n <= |l.sessions|
    ensures forall i | 0 <= i < n ::
      ExpireFirst(l, now, n).sessions[i] == (if IsStale(l.sessions[i], now) then l.sessions[i].(settled := Some(0)) else l.sessions[i])
  {
    if n > 0 {
      ExpireClearsStale(l, now, n - 1);
      var before := ExpireFirst(l, now, n - 1);
      assert before.sessions[n - 1] == before.sessions[n - 1..][0] == l.sessions[n - 1..][0];
    }
  }

  /** The seconds an invite has left. */
  function Remaining(i: Invite): int {
    i.quota - i.used - i.reserved
  }

  /** A grant is the most that the request, the limit of a session and the invite's remaining seconds all allow,
      and at least a second; it is refused exactly when the invite is missing or paused or has nothing left. */
  lemma ReserveGrantsMost(l: Ledger, invite: nat, requested: int, laneCount: int, token: string, now: int, seconds: int)
    requires Row(l.sessions, token).None?
    ensures Reserve(l, invite, requested, laneCount, token, now).1.Refused? <==>
      (invite >= |l.invites| || !l.invites[invite].enabled || Remaining(l.invites[invite]) <= 0)
    ensures var grant := Reserve(l, invite, requested, laneCount, token, now).1;
      grant.Granted? ==> (1 <= seconds <= grant.seconds <==>
        (1 <= seconds <= Max(1, requested) && seconds <= MAX_SESSION_SECONDS && seconds <= Remaining(l.invites[invite])))
  {
  }

  /** Taking back a change of quota restores the ledger exactly when the change did not run into what is used and
      reserved. */
  lemma AdjustUndone(l: Ledger, invite: nat, delta: int)
    requires invite < |l.invites| && l.invites[invite].used + l.invites[invite].reserved <= l.invites[invite].quota
    ensures Step(Step(l, AdjustQuota(invite, delta)), AdjustQuota(invite, -delta)) == l
      <==> l.invites[invite].quota + delta >= l.invites[invite].used + l.invites[invite].reserved
  {
    var i, undone := l.invites[invite], Adjust(Adjust(l, invite, delta), invite, -delta);
    if i.quota + delta >= i.used + i.reserved {
      assert undone.invites == l.invites;
    } else {
      assert undone.invites[invite].quota != i.quota;
    }
  }

  /** A paused invite grants nothing, and resuming it restores the ledger. */
  lemma PauseUndone(l: Ledger, invite: nat, requested: int, laneCount: int, token: string, now: int)
    requires invite < |l.invites| && l.invites[invite].enabled
    ensures var paused := Step(l, SetInviteEnabled(invite, false));
      && Reserve(paused, invite, requested, laneCount, token, now) == (paused, Refused)
      && Step(paused, SetInviteEnabled(invite, true)) == l
  {
    assert SetEnabled(SetEnabled(l, invite, false), invite, true).invites == l.invites;
  }

  lemma {:induction false} NewestAreAppended(keys: seq<string>, session: string, count: nat)
    ensures WithoutNewest(keys + Repeat(session, count), session, count) == keys
  {
    var all := keys + Repeat(session, count);
    if count == 0 {
      assert all == keys;
    } else {
      assert all[|all| - 1] == session;
      assert all[..|all| - 1] == keys + Repeat(session, count - 1);
      NewestAreAppended(keys, session, count - 1);
    }
  }

  /** Releasing a claim at once restores the ledger. */
  lemma ClaimThenRelease(l: Ledger, invite: nat, session: string, count: int)
    requires ClaimKeys(l, invite, session, count).1.Some?
    ensures Step(Step(l, ReserveSessionKeys(invite, session, count)), ReleaseSessionKeys(session, count)) == l
  {
    NewestAreAppended(l.keys, session, count);
  }

  // ----- wall-clock bound of one stream

  /** Lane-seconds divided back to the wall clock of one lane. */
  function StreamDuration(s: Session): int {
    Max(1, s.reserved / Max(1, Min(s.lanes, MAX_LANES_PER_SESSION)))
  }

  /** The lanes of a session together stay within its reservation exactly when it holds at least one second
      per lane. */
  lemma LanesStayWithinReservation(s: Session)
    requires s.reserved >= 1 && 1 <= s.lanes <= MAX_LANES_PER_SESSION
    ensures s.lanes * StreamDuration(s) <= s.reserved <==> s.lanes <= s.reserved
  {
    var d := s.reserved / s.lanes;
    assert s.lanes * d <= s.reserved < s.lanes * d + s.lanes;
    if d == 0 {
      assert StreamDuration(s) == 1;
    } else {
      assert s.lanes * d >= s.lanes;
    }
  }
}
