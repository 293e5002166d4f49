/** The community-invite quota ledger: what each `BEGIN IMMEDIATE` transaction of the store does to the
    rows (services/community-invite/server.py:218-229, 383-454, 497-552, 650-748). */
module QuotaLedger {
  import opened Prelude

  const MAX_SESSION_SECONDS: int := 5 * 60 * 60
  const RESERVATION_TTL_SECONDS: int := 6 * 60 * 60
  const MAX_LANES_PER_SESSION: int := 4
  const SESSION_KEY_BUDGET: int := 16

  datatype Invite = Invite(quota: int, used: int, reserved: int, enabled: bool)

  datatype Session = Session(id: string, invite: nat, reserved: int, lanes: int, createdAt: int, settled: Option<int>)

  /** Row `i` of `invites` is the invite with id `i`; `keys` holds the session of each issued key, oldest first. */
  datatype Ledger = Ledger(invites: seq<Invite>, sessions: seq<Session>, keys: seq<string>)

  const EMPTY := Ledger([], [], [])

  // ----- sums over rows

  /** What a session holds of an invite, and what it has used of it. */
  function Held(s: Session, invite: nat): int {
    if s.invite == invite && s.settled.None? then s.reserved else 0
  }

  function Spent(s: Session, invite: nat): int {
    if s.invite == invite && s.settled.Some? then s.settled.value else 0
  }

  function HeldSum(sessions: seq<Session>, invite: nat): int {
    if sessions == [] then 0 else HeldSum(sessions[..|sessions| - 1], invite) + Held(sessions[|sessions| - 1], invite)
  }

  function SpentSum(sessions: seq<Session>, invite: nat): int {
    if sessions == [] then 0 else SpentSum(sessions[..|sessions| - 1], invite) + Spent(sessions[|sessions| - 1], invite)
  }

  lemma {:induction false} SumsAfterUpdate(sessions: seq<Session>, i: nat, s: Session, invite: nat)
    requires i < |sessions|
    ensures HeldSum(sessions[i := s], invite) == HeldSum(sessions, invite) - Held(sessions[i], invite) + Held(s, invite)
    ensures SpentSum(sessions[i := s], invite) == SpentSum(sessions, invite) - Spent(sessions[i], invite) + Spent(s, invite)
  {
    var last := |sessions| - 1;
    if i == last {
      assert sessions[i := s][..last] == sessions[..last];
    } else {
      assert sessions[i := s][..last] == sessions[..last][i := s];
      SumsAfterUpdate(sessions[..last], i, s, invite);
    }
  }

  lemma SumsAfterAppend(sessions: seq<Session>, s: Session, invite: nat)
    ensures HeldSum(sessions + [s], invite) == HeldSum(sessions, invite) + Held(s, invite)
    ensures SpentSum(sessions + [s], invite) == SpentSum(sessions, invite) + Spent(s, invite)
  {
    assert (sessions + [s])[..|sessions|] == sessions;
  }

  lemma {:induction false} SumsOfStranger(sessions: seq<Session>, invite: nat)
    requires forall i | 0 <= i < |sessions| :: sessions[i].invite != invite
    ensures HeldSum(sessions, invite) == 0 && SpentSum(sessions, invite) == 0
  {
    if sessions != [] {
      SumsOfStranger(sessions[..|sessions| - 1], invite);
    }
  }

  function KeyCount(keys: seq<string>, session: string): nat {
    if keys == [] then 0 else KeyCount(keys[..|keys| - 1], session) + if keys[|keys| - 1] == session then 1 else 0
  }

  // ----- what every transaction keeps

  ghost predicate InviteBalances(l: Ledger, i: nat)
    requires i < |l.invites|
  {
    var invite := l.invites[i];
    && invite.reserved == HeldSum(l.sessions, i)
    && invite.used == SpentSum(l.sessions, i)
    && invite.reserved >= 0 && invite.used >= 0
    && invite.used + invite.reserved <= Max(0, invite.quota)
  }

  ghost predicate SessionIsSound(l: Ledger, s: Session) {
    && s.invite < |l.invites|
    && s.reserved >= 1
    && 1 <= s.lanes <= MAX_LANES_PER_SESSION
    && (s.settled.Some? ==> 0 <= s.settled.value <= s.reserved)
  }

  ghost predicate IsBalanced(l: Ledger) {
    && (forall i: nat {:trigger InviteBalances(l, i)} | i < |l.invites| :: InviteBalances(l, i))
    && (forall i | 0 <= i < |l.sessions| :: SessionIsSound(l, l.sessions[i]))
    && (forall i, j | 0 <= i < j < |l.sessions| :: l.sessions[i].id != l.sessions[j].id)
    && (forall session {:trigger KeyCount(l.keys, session)} :: KeyCount(l.keys, session) <= SESSION_KEY_BUDGET)
  }

  // ----- transactions

  function Create(l: Ledger, quota: int): Ledger {
    l.(invites := l.invites + [Invite(quota, 0, 0, true)])
  }

  datatype Grant = Granted(seconds: int, lanes: int) | Refused | TokenTaken

  function Row(sessions: seq<Session>, id: string): (row: Option<nat>)
    ensures row.Some? ==> row.value < |sessions| && sessions[row.value].id == id
    ensures row.None? ==> forall i | 0 <= i < |sessions| :: sessions[i].id != id
  {
    if sessions == [] then None
    else if sessions[|sessions| - 1].id == id then Some(|sessions| - 1)
    else Row(sessions[..|sessions| - 1], id)
  }

  /** The open session `id` of the invite. */
  function OpenRow(l: Ledger, invite: nat, id: string): (row: Option<nat>)
    ensures row.Some? ==> row.value < |l.sessions| && l.sessions[row.value].id == id
    ensures row.Some? ==> l.sessions[row.value].invite == invite && l.sessions[row.value].settled.None?
  {
    var row := Row(l.sessions, id);
    if row.Some? && l.sessions[row.value].invite == invite && l.sessions[row.value].settled.None? then row else None
  }

  function ReservedSeconds(i: Invite, requested: int): int {
    Min(Max(1, Min(requested, MAX_SESSION_SECONDS)), i.quota - i.used - i.reserved)
  }

  function Lanes(laneCount: int): int {
    Max(1, Min(laneCount, MAX_LANES_PER_SESSION))
  }

  function Reserve(l: Ledger, invite: nat, requested: int, laneCount: int, token: string, now: int): (Ledger, Grant) {
    if invite >= |l.invites| || !l.invites[invite].enabled then (l, Refused)
    else
      var seconds, row := ReservedSeconds(l.invites[invite], requested), l.invites[invite];
      if seconds <= 0 then (l, Refused)
      else if Row(l.sessions, token).Some? then (l, TokenTaken)
      else
        (l.(sessions := l.sessions + [Session(token, invite, seconds, Lanes(laneCount), now, None)],
            invites := l.invites[invite := row.(reserved := row.reserved + seconds)]),
         Granted(seconds, Lanes(laneCount)))
  }

  function Charged(s: Session, used: int): int {
    Max(0, Min(used, s.reserved))
  }

  function Settle(l: Ledger, invite: nat, id: string, used: int): Ledger {
    var row := OpenRow(l, invite, id);
    if row.None? || invite >= |l.invites| then l
    else
      var s, i := l.sessions[row.value], l.invites[invite];
      l.(sessions := l.sessions[row.value := s.(settled := Some(Charged(s, used)))],
         invites := l.invites[invite := i.(used := i.used + Charged(s, used), reserved := i.reserved - s.reserved)])
  }

  predicate IsStale(s: Session, now: int) {
    s.settled.None? && s.createdAt < now - RESERVATION_TTL_SECONDS
  }

  /** The ledger once the stale reservations among the first `n` sessions have been settled at zero. */
  function ExpireFirst(l: Ledger, now: int, n: nat): (l': Ledger)
    requires n <= |l.sessions|
    ensures |l'.sessions| == |l.sessions| && |l'.invites| == |l.invites| && l'.sessions[n..] == l.sessions[n..]
  {
    if n == 0 then l
    else
      var before, s := ExpireFirst(l, now, n - 1), l.sessions[n - 1];
      if IsStale(s, now) then Release(before, n - 1) else before
  }

  /** Settles session row `row` at zero and gives its reservation back. */
  function Release(l: Ledger, row: nat): (l': Ledger)
    requires row < |l.sessions|
    ensures |l'.sessions| == |l.sessions| && |l'.invites| == |l.invites| && l'.sessions[row + 1..] == l.sessions[row + 1..]
  {
    var s := l.sessions[row];
    l.(sessions := l.sessions[row := s.(settled := Some(0))],
       invites := if s.invite < |l.invites|
                  then l.invites[s.invite := l.invites[s.invite].(reserved := l.invites[s.invite].reserved - s.reserved)]
                  else l.invites)
  }

  function Expire(l: Ledger, now: int): Ledger {
    ExpireFirst(l, now, |l.sessions|)
  }

  function Adjust(l: Ledger, invite: nat, delta: int): Ledger {
    if invite >= |l.invites| then l
    else
      var i := l.invites[invite];
      l.(invites := l.invites[invite := i.(quota := Max(i.used + i.reserved, i.quota + delta))])
  }

  function SetEnabled(l: Ledger, invite: nat, enabled: bool): Ledger {
    if invite >= |l.invites| then l else l.(invites := l.invites[invite := l.invites[invite].(enabled := enabled)])
  }

  function Repeat(session: string, count: nat): (rows: seq<string>)
    ensures |rows| == count
  {
    seq(count, _ => session)
  }

  /** All or nothing: the whole batch fits the budget, or nothing is claimed. */
  function ClaimKeys(l: Ledger, invite: nat, session: string, count: int): (Ledger, Option<int>) {
    if count < 1 || OpenRow(l, invite, session).None? then (l, None)
    else
      var issued := KeyCount(l.keys, session);
      if issued + count > SESSION_KEY_BUDGET then (l, None)
      else (l.(keys := l.keys + Repeat(session, count)), Some(issued + count))
  }

  /** The newest `count` key rows of the session are gone. */
  function WithoutNewest(keys: seq<string>, session: string, count: nat): seq<string> {
    if keys == [] || count == 0 then keys
    else
      var last := |keys| - 1;
      if keys[last] == session then WithoutNewest(keys[..last], session, count - 1)
      else WithoutNewest(keys[..last], session, count) + [keys[last]]
  }

  function ReleaseKeys(l: Ledger, session: string, count: int): Ledger {
    if count < 1 then l else l.(keys := WithoutNewest(l.keys, session, count))
  }

  // ----- each transaction keeps the balance

  lemma InviteAfterUpdate(l: Ledger, row: nat, s: Session, invite: Invite, i: nat)
    requires row < |l.sessions| && i < |l.invites| && l.sessions[row].invite == s.invite < |l.invites|
    requires InviteBalances(l, i)
    requires var was := l.invites[s.invite];
      && invite.reserved == was.reserved - Held(l.sessions[row], s.invite) + Held(s, s.invite)
      && invite.used == was.used - Spent(l.sessions[row], s.invite) + Spent(s, s.invite)
      && 0 <= invite.reserved && 0 <= invite.used && invite.used + invite.reserved <= Max(0, invite.quota)
    ensures InviteBalances(l.(sessions := l.sessions[row := s], invites := l.invites[s.invite := invite]), i)
  {
    SumsAfterUpdate(l.sessions, row, s, i);
  }

  lemma {:induction false} HeldIsPart(sessions: seq<Session>, row: nat, invite: nat)
    requires row < |sessions| && forall i | 0 <= i < |sessions| :: sessions[i].reserved >= 0
    ensures 0 <= Held(sessions[row], invite) <= HeldSum(sessions, invite)
    decreases |sessions|
  {
    var last := |sessions| - 1;
    HeldIsNotNegative(sessions[..last], invite);
    if row < last {
      HeldIsPart(sessions[..last], row, invite);
    }
  }

  lemma {:induction false} HeldIsNotNegative(sessions: seq<Session>, invite: nat)
    requires forall i | 0 <= i < |sessions| :: sessions[i].reserved >= 0
    ensures HeldSum(sessions, invite) >= 0
  {
    if sessions != [] {
      HeldIsNotNegative(sessions[..|sessions| - 1], invite);
    }
  }

  /** Settling an open session, for any charge up to its reservation, keeps the balance. */
  lemma SettlingKeepsBalance(l: Ledger, row: nat, charge: int)
    requires IsBalanced(l) && row < |l.sessions| && l.sessions[row].settled.None?
    requires 0 <= charge <= l.sessions[row].reserved
    ensures var (s, i) := (l.sessions[row], l.invites[l.sessions[row].invite]);
      IsBalanced(l.(sessions := l.sessions[row := s.(settled := Some(charge))],
                    invites := l.invites[s.invite := i.(used := i.used + charge, reserved := i.reserved - s.reserved)]))
  {
    var s := l.sessions[row];
    assert SessionIsSound(l, s);
    var i := l.invites[s.invite];
    var s' := s.(settled := Some(charge));
    var i' := i.(used := i.used + charge, reserved := i.reserved - s.reserved);
    var l' := l.(sessions := l.sessions[row := s'], invites := l.invites[s.invite := i']);
    assert InviteBalances(l, s.invite);
    assert forall k | 0 <= k < |l.sessions| :: SessionIsSound(l, l.sessions[k]);
    HeldIsPart(l.sessions, row, s.invite);
    forall k: nat | k < |l'.invites|
      ensures InviteBalances(l', k)
    {
      assert InviteBalances(l, k);
      InviteAfterUpdate(l, row, s', i', k);
    }
    forall k | 0 <= k < |l'.sessions|
      ensures SessionIsSound(l', l'.sessions[k])
    {
      assert SessionIsSound(l, l.sessions[k]);
    }
    assert forall session :: KeyCount(l'.keys, session) == KeyCount(l.keys, session);
  }
}
