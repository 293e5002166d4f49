/** Starting sessions and minting their keys: many requests at once, each a few transactions with a fallible
    upstream call in between (services/community-invite/server.py:416-454, 497-552, 1325-1360, 1394-1448). */
module MintProtocol {
  import opened Prelude
  import opened QuotaLedger
  import opened QuotaRuns

  const MAX_KEYS_PER_REQUEST: int := MAX_LANES_PER_SESSION

  // ----- requests and their steps

  datatype MintPhase =
    | Arrived            // authorized, nothing read yet
    | Opened             // the session was open when it was read
    | Minting(done: nat) // the batch is claimed, `done` keys are minted
    | Failed             // an upstream call failed, the claim is still held
    | GaveBack           // the claim was released
    | Answered           // the keys went to the client
    | Rejected           // answered with an error, without a claim to give back

  /** A start keeps the key it claimed even when the upstream call fails; the session is settled instead. Whether
      the claim was granted is not looked at. */
  datatype StartPhase =
    | Reserved               // the session's row is there, its key not yet claimed
    | Claimed(granted: bool) // about to call upstream
    | Started(granted: bool) // the client has the session's name and its key
    | Refunded(granted: bool)

  datatype Request =
    | Mint(invite: nat, session: string, count: nat, minting: MintPhase)
    | Start(invite: nat, session: string, starting: StartPhase)

  /** The requests in order of arrival. */
  datatype System = System(ledger: Ledger, requests: seq<Request>)

  datatype Event =
    | ArriveMint(invite: nat, session: string, singleUse: bool, asked: int)
    | ArriveStart(invite: nat, requested: int, laneCount: int, token: string, now: int)
    | Advance(request: nat, ok: bool)
    | Other(op: Op)

  /** A batch asks for one key per lane; the renewal of a shared key is always single. */
  function BatchSize(singleUse: bool, asked: int): nat {
    if singleUse then Max(1, Min(asked, MAX_KEYS_PER_REQUEST)) else 1
  }

  /** The next transaction, upstream call or answer of a mint; `ok` tells whether the service is configured when
      the session has been read, and afterwards whether the upstream call goes through. */
  function AdvanceMint(l: Ledger, r: Request, ok: bool): (Ledger, Request)
    requires r.Mint?
  {
    match r.minting
    case Arrived => (l, r.(minting := if OpenRow(l, r.invite, r.session).Some? then Opened else Rejected))
    case Opened =>
      if !ok then (l, r.(minting := Rejected))
      else
        var (l', issued) := ClaimKeys(l, r.invite, r.session, r.count);
        (l', r.(minting := if issued.Some? then Minting(0) else Rejected))
    case Minting(done) => (l, r.(minting := if !ok then Failed else if done + 1 >= r.count then Answered else Minting(done + 1)))
    case Failed => (ReleaseKeys(l, r.session, r.count), r.(minting := GaveBack))
    case _ => (l, r)
  }

  function AdvanceStart(l: Ledger, r: Request, ok: bool): (Ledger, Request)
    requires r.Start?
  {
    match r.starting
    case Reserved =>
      if !ok then (Settle(l, r.invite, r.session, 0), r.(starting := Refunded(false)))
      else
        var (l', issued) := ClaimKeys(l, r.invite, r.session, 1);
        (l', r.(starting := Claimed(issued.Some?)))
    case Claimed(granted) =>
      if ok then (l, r.(starting := Started(granted)))
      else (Settle(l, r.invite, r.session, 0), r.(starting := Refunded(granted)))
    case _ => (l, r)
  }

  function AdvanceOne(l: Ledger, r: Request, ok: bool): (Ledger, Request) {
    if r.Mint? then AdvanceMint(l, r, ok) else AdvanceStart(l, r, ok)
  }

  predicate Names(r: Request, session: string) {
    r.session == session
  }

  /** Some request has named the session. A new session's random name has never been named. */
  predicate IsNamed(requests: seq<Request>, session: string) {
    exists i | 0 <= i < |requests| :: Names(requests[i], session)
  }

  predicate IsStarting(r: Request, session: string) {
    r.Start? && r.session == session && (r.starting.Reserved? || r.starting.Claimed?)
  }

  /** The session's name has not been told to anybody: its start has not been answered. */
  predicate IsSecret(requests: seq<Request>, session: string) {
    exists i | 0 <= i < |requests| :: IsStarting(requests[i], session)
  }

  function Reserving(s: System, e: Event): (Ledger, Grant)
    requires e.ArriveStart?
  {
    Reserve(s.ledger, e.invite, e.requested, e.laneCount, e.token, e.now)
  }

  /** What clients, the administrator and the clock may do besides: none of them names a session that only its own
      start knows, and keys are claimed and released by the requests above alone. */
  predicate IsAllowed(s: System, op: Op) {
    match op
    case ReserveSessionKeys(_, _, _) => false
    case ReleaseSessionKeys(_, _) => false
    case ReserveSession(_, _, _, _, _) => false
    case SettleSession(_, id, _) => !IsSecret(s.requests, id)
    case _ => true
  }

  function Next(s: System, e: Event): System {
    match e
    case ArriveMint(invite, session, singleUse, asked) =>
      if IsSecret(s.requests, session) then s
      else s.(requests := s.requests + [Mint(invite, session, BatchSize(singleUse, asked), Arrived)])
    case ArriveStart(invite, _, _, token, _) =>
      var (ledger, grant) := Reserving(s, e);
      if IsNamed(s.requests, token) || !grant.Granted? then s
      else System(ledger, s.requests + [Start(invite, token, Reserved)])
    case Advance(i, ok) =>
      if i >= |s.requests| then s
      else
        var (ledger, r) := AdvanceOne(s.ledger, s.requests[i], ok);
        System(ledger, s.requests[i := r])
    case Other(op) => if IsAllowed(s, op) then s.(ledger := Step(s.ledger, op)) else s
  }

  function Runs(s: System, events: seq<Event>): System {
    if events == [] then s else Next(Runs(s, events[..|events| - 1]), events[|events| - 1])
  }

  const START := System(EMPTY, [])

  // ----- what the requests account for

  /** The key rows a request must account for: a mint its whole batch from the claim on, unless it gave it back;
      a start the one key it was granted. */
  function Owed(r: Request): nat {
    match r
    case Mint(_, _, count, minting) => if minting.Minting? || minting.Failed? || minting.Answered? then count else 0
    case Start(_, _, starting) => if !starting.Reserved? && starting.granted then 1 else 0
  }

  /** The keys that went to a client. */
  function Delivered(r: Request): nat {
    match r
    case Mint(_, _, count, minting) => if minting.Answered? then count else 0
    case Start(_, _, starting) => if starting.Started? then 1 else 0
  }

  function TotalOwed(requests: seq<Request>, session: string): nat {
    if requests == [] then 0
    else
      var last := requests[|requests| - 1];
      TotalOwed(requests[..|requests| - 1], session) + if last.session == session then Owed(last) else 0
  }

  function TotalDelivered(requests: seq<Request>, session: string): nat {
    if requests == [] then 0
    else
      var last := requests[|requests| - 1];
      TotalDelivered(requests[..|requests| - 1], session) + if last.session == session then Delivered(last) else 0
  }

  lemma {:induction false} OwedAfterUpdate(requests: seq<Request>, i: nat, r: Request, session: string)
    requires i < |requests| && r.session == requests[i].session
    ensures TotalOwed(requests[i := r], session) ==
      TotalOwed(requests, session) + if r.session == session then Owed(r) as int - Owed(requests[i]) else 0
  {
    var last := |requests| - 1;
    if i == last {
      assert requests[i := r][..last] == requests[..last];
    } else {
      assert requests[i := r][..last] == requests[..last][i := r];
      OwedAfterUpdate(requests[..last], i, r, session);
    }
  }

  lemma {:induction false} OwedIsPart(requests: seq<Request>, i: nat)
    requires i < |requests|
    ensures Owed(requests[i]) <= TotalOwed(requests, requests[i].session)
  {
    if i < |requests| - 1 {
      OwedIsPart(requests[..|requests| - 1], i);
    }
  }

  lemma {:induction false} UnnamedOwesNothing(requests: seq<Request>, session: string)
    requires !IsNamed(requests, session)
    ensures TotalOwed(requests, session) == 0
  {
    if requests != [] {
      assert !Names(requests[|requests| - 1], session);
      assert forall i | 0 <= i < |requests| - 1 :: requests[..|requests| - 1][i] == requests[i];
      UnnamedOwesNothing(requests[..|requests| - 1], session);
    }
  }

  /** When a start is all that names a session, it owes all that is owed for it. */
  lemma {:induction false} OnlyOneOwes(requests: seq<Request>, i: nat)
    requires i < |requests| && forall j | 0 <= j < |requests| && j != i :: !Names(requests[j], requests[i].session)
    ensures TotalOwed(requests, requests[i].session) == Owed(requests[i])
  {
    var last := |requests| - 1;
    var front := requests[..last];
    assert forall j | 0 <= j < last :: front[j] == requests[j];
    if i == last {
      forall j | 0 <= j < |front|
        ensures !Names(front[j], requests[i].session)
      {
        assert !Names(requests[j], requests[i].session);
      }
      UnnamedOwesNothing(front, requests[i].session);
    } else {
      assert !Names(requests[last], requests[i].session);
      forall j | 0 <= j < |front| && j != i
        ensures !Names(front[j], front[i].session)
      {
        assert !Names(requests[j], requests[i].session);
      }
      OnlyOneOwes(front, i);
    }
  }

  // ----- the invariant

  ghost predicate IsSoundMint(r: Request) {
    r.Mint? ==> r.count >= 1 && (r.minting.Minting? ==> r.minting.done < r.count)
  }

  /** While a session's start has not been answered, no other request names the session. */
  ghost predicate SecretsAreKept(requests: seq<Request>) {
    forall i, j | 0 <= i < |requests| && 0 <= j < |requests| && i != j && IsStarting(requests[i], requests[i].session) ::
      !Names(requests[j], requests[i].session)
  }

  ghost predicate RowsMatch(ledger: Ledger, requests: seq<Request>, session: string) {
    KeyCount(ledger.keys, session) == TotalOwed(requests, session)
  }

  ghost predicate IsAccounted(s: System) {
    && IsBalanced(s.ledger)
    && (forall session :: RowsMatch(s.ledger, s.requests, session))
    && (forall i | 0 <= i < |s.requests| :: IsSoundMint(s.requests[i]))
    && SecretsAreKept(s.requests)
  }

  lemma OtherLeavesKeys(l: Ledger, op: Op)
    requires !op.ReserveSessionKeys? && !op.ReleaseSessionKeys?
    ensures Step(l, op).keys == l.keys
  {
    if op.ExpireStale? {
      ExpireLeavesKeys(l, op.now, |l.sessions|);
    }
  }

  lemma {:induction false} ExpireLeavesKeys(l: Ledger, now: int, n: nat)
    requires n <= |l.sessions|
    ensures ExpireFirst(l, now, n).keys == l.keys
  {
    if n > 0 {
      ExpireLeavesKeys(l, now, n - 1);
    }
  }

  lemma AdvanceKeepsBalance(l: Ledger, r: Request, ok: bool)
    requires IsBalanced(l)
    ensures IsBalanced(AdvanceOne(l, r, ok).0)
  {
    if r.Mint? {
      if r.minting.Opened? {
        ClaimKeepsBalance(l, r.invite, r.session, r.count);
      } else if r.minting.Failed? {
        ReleaseKeepsBalance(l, r.session, r.count);
      }
    } else if r.starting.Reserved? || r.starting.Claimed? {
      ClaimKeepsBalance(l, r.invite, r.session, 1);
      SettleKeepsBalance(l, r.invite, r.session, 0);
    }
  }

  lemma MintMovesBoth(l: Ledger, r: Request, ok: bool, session: string)
    requires r.Mint? && Owed(r) <= KeyCount(l.keys, r.session) && IsSoundMint(r)
    ensures var (l', r') := AdvanceMint(l, r, ok);
      KeyCount(l'.keys, session) == KeyCount(l.keys, session) + if r.session == session then Owed(r') as int - Owed(r) else 0
  {
    if r.minting.Opened? {
      KeysAfterClaim(l.keys, r.session, r.count, session);
    } else if r.minting.Failed? {
      KeysAfterRelease(l.keys, r.session, r.count, session);
    }
  }

  lemma StartMovesBoth(l: Ledger, r: Request, ok: bool, session: string)
    requires r.Start?
    ensures var (l', r') := AdvanceStart(l, r, ok);
      KeyCount(l'.keys, session) == KeyCount(l.keys, session) + if r.session == session then Owed(r') as int - Owed(r) else 0
  {
    if r.starting.Reserved? {
      KeysAfterClaim(l.keys, r.session, 1, session);
    }
  }

  /** The key rows and what the request owes change by the same amount. */
  lemma AdvanceMovesBoth(l: Ledger, r: Request, ok: bool, session: string)
    requires Owed(r) <= KeyCount(l.keys, r.session) && IsSoundMint(r)
    ensures var (l', r') := AdvanceOne(l, r, ok);
      KeyCount(l'.keys, session) == KeyCount(l.keys, session) + if r.session == session then Owed(r') as int - Owed(r) else 0
  {
    if r.Mint? {
      MintMovesBoth(l, r, ok, session);
    } else {
      StartMovesBoth(l, r, ok, session);
    }
  }

  lemma AdvanceKeepsRows(s: System, i: nat, ok: bool, session: string)
    requires IsAccounted(s) && i < |s.requests|
    ensures RowsMatch(Next(s, Advance(i, ok)).ledger, Next(s, Advance(i, ok)).requests, session)
  {
    var r := s.requests[i];
    var r' := AdvanceOne(s.ledger, r, ok).1;
    assert RowsMatch(s.ledger, s.requests, session) && RowsMatch(s.ledger, s.requests, r.session);
    OwedIsPart(s.requests, i);
    AdvanceMovesBoth(s.ledger, r, ok, session);
    OwedAfterUpdate(s.requests, i, r', session);
  }

  lemma AdvanceKeepsSecrets(s: System, i: nat, ok: bool)
    requires SecretsAreKept(s.requests) && i < |s.requests|
    ensures SecretsAreKept(Next(s, Advance(i, ok)).requests)
  {
    var after := Next(s, Advance(i, ok)).requests;
    forall a, b | 0 <= a < |after| && 0 <= b < |after| && a != b && IsStarting(after[a], after[a].session)
      ensures !Names(after[b], after[a].session)
    {
      assert IsStarting(s.requests[a], s.requests[a].session);
      assert !Names(s.requests[b], s.requests[a].session);
    }
  }

  lemma AdvanceKeepsAccount(s: System, i: nat, ok: bool)
    requires IsAccounted(s) && i < |s.requests|
    ensures IsAccounted(Next(s, Advance(i, ok)))
  {
    assert IsSoundMint(s.requests[i]);
    AdvanceKeepsBalance(s.ledger, s.requests[i], ok);
    AdvanceKeepsSecrets(s, i, ok);
    forall session
      ensures RowsMatch(Next(s, Advance(i, ok)).ledger, Next(s, Advance(i, ok)).requests, session)
    {
      AdvanceKeepsRows(s, i, ok, session);
    }
  }

  lemma ArrivalKeepsAccount(s: System, ledger: Ledger, r: Request)
    requires IsAccounted(s) && IsBalanced(ledger) && ledger.keys == s.ledger.keys && Owed(r) == 0 && IsSoundMint(r)
    requires !IsSecret(s.requests, r.session) && (IsStarting(r, r.session) ==> !IsNamed(s.requests, r.session))
    ensures IsAccounted(System(ledger, s.requests + [r]))
  {
    var more := s.requests + [r];
    assert more[..|s.requests|] == s.requests;
    forall session
      ensures RowsMatch(ledger, more, session)
    {
      assert RowsMatch(s.ledger, s.requests, session);
    }
    forall i, j | 0 <= i < |more| && 0 <= j < |more| && i != j && IsStarting(more[i], more[i].session)
      ensures !Names(more[j], more[i].session)
    {
      if i < |s.requests| && j < |s.requests| {
        assert !Names(s.requests[j], s.requests[i].session);
      }
    }
  }

  lemma NextKeepsAccount(s: System, e: Event)
    requires IsAccounted(s)
    ensures IsAccounted(Next(s, e))
  {
    match e
    case ArriveMint(invite, session, singleUse, asked) =>
      if !IsSecret(s.requests, session) {
        ArrivalKeepsAccount(s, s.ledger, Mint(invite, session, BatchSize(singleUse, asked), Arrived));
      }
    case ArriveStart(invite, requested, laneCount, token, now) =>
      var (ledger, grant) := Reserving(s, e);
      if !IsNamed(s.requests, token) && grant.Granted? {
        ReserveKeepsBalance(s.ledger, invite, requested, laneCount, token, now);
        SecretIsNamed(s.requests, token);
        ArrivalKeepsAccount(s, ledger, Start(invite, token, Reserved));
      }
    case Advance(i, ok) =>
      if i < |s.requests| {
        AdvanceKeepsAccount(s, i, ok);
      }
    case Other(op) =>
      if IsAllowed(s, op) {
        OtherKeepsAccount(s, op);
      }
  }

  lemma SecretIsNamed(requests: seq<Request>, session: string)
    ensures IsSecret(requests, session) ==> IsNamed(requests, session)
  {
    if i :| 0 <= i < |requests| && IsStarting(requests[i], session) {
      assert Names(requests[i], session);
    }
  }

  lemma OtherKeepsAccount(s: System, op: Op)
    requires IsAccounted(s) && IsAllowed(s, op)
    ensures IsAccounted(Next(s, Other(op)))
  {
    StepKeepsBalance(s.ledger, op);
    OtherLeavesKeys(s.ledger, op);
    forall session
      ensures RowsMatch(Step(s.ledger, op), s.requests, session)
    {
      assert RowsMatch(s.ledger, s.requests, session);
    }
  }

  /** In every interleaving of requests, upstream failures and other transactions, a session's key rows are
      the batches of its mints in flight and answered, and the key its start was granted. */
  lemma {:induction false} EveryInterleavingAccounts(events: seq<Event>)
    ensures IsAccounted(Runs(START, events))
  {
    if events == [] {
      EveryRunBalances([]);
      assert forall session :: RowsMatch(START.ledger, START.requests, session);
    } else {
      EveryInterleavingAccounts(events[..|events| - 1]);
      NextKeepsAccount(Runs(START, events[..|events| - 1]), events[|events| - 1]);
    }
  }

  /** The rows are never more than the budget. */
  lemma KeysStayInBudget(events: seq<Event>, session: string)
    ensures KeyCount(Runs(START, events).ledger.keys, session) == TotalOwed(Runs(START, events).requests, session) <= SESSION_KEY_BUDGET
  {
    EveryInterleavingAccounts(events);
    assert RowsMatch(Runs(START, events).ledger, Runs(START, events).requests, session);
    assert KeyCount(Runs(START, events).ledger.keys, session) <= SESSION_KEY_BUDGET;
  }

  // ----- keys that went out

  /** Every key a client of this session got was claimed before: none was handed out on a start's refused claim. */
  ghost predicate StartsWereGranted(requests: seq<Request>, session: string) {
    forall i | 0 <= i < |requests| && requests[i].Start? && requests[i].session == session :: requests[i].starting != Started(false)
  }

  lemma {:induction false} DeliveredIsOwed(requests: seq<Request>, session: string)
    requires StartsWereGranted(requests, session)
    ensures TotalDelivered(requests, session) <= TotalOwed(requests, session)
  {
    if requests != [] {
      var last := |requests| - 1;
      assert forall i | 0 <= i < last :: requests[..last][i] == requests[i];
      DeliveredIsOwed(requests[..last], session);
    }
  }

  /** A session's clients never get more keys than the budget, as long as its start's claim was granted. */
  lemma DeliveredKeysStayInBudget(events: seq<Event>, session: string)
    requires StartsWereGranted(Runs(START, events).requests, session)
    ensures TotalDelivered(Runs(START, events).requests, session) <= SESSION_KEY_BUDGET
  {
    KeysStayInBudget(events, session);
    DeliveredIsOwed(Runs(START, events).requests, session);
  }

  /** Giving a claim back removes exactly as many rows of the session as the request had claimed, whichever
      rows those are, and none of another session. */
  lemma ReleaseIsExact(events: seq<Event>, i: nat, session: string)
    requires i < |Runs(START, events).requests|
    requires Runs(START, events).requests[i].Mint? && Runs(START, events).requests[i].minting.Failed?
    ensures var s := Runs(START, events);
      var after := Next(s, Advance(i, true));
      KeyCount(after.ledger.keys, session) == KeyCount(s.ledger.keys, session) - if session == s.requests[i].session then s.requests[i].count else 0
  {
    var s := Runs(START, events);
    EveryInterleavingAccounts(events);
    assert IsSoundMint(s.requests[i]);
    assert RowsMatch(s.ledger, s.requests, s.requests[i].session);
    OwedIsPart(s.requests, i);
    AdvanceMovesBoth(s.ledger, s.requests[i], true, session);
  }

  // ----- the start's claim

  /** A start's claim is granted exactly when its session is still open: a fresh session is never over the budget. */
  lemma StartClaimExactly(events: seq<Event>, i: nat)
    requires i < |Runs(START, events).requests|
    requires Runs(START, events).requests[i].Start? && Runs(START, events).requests[i].starting.Reserved?
    ensures var s := Runs(START, events);
      var r := s.requests[i];
      && KeyCount(s.ledger.keys, r.session) == 0
      && Next(s, Advance(i, true)).requests[i].starting == Claimed(OpenRow(s.ledger, r.invite, r.session).Some?)
  {
    EveryInterleavingAccounts(events);
    ClaimExactly(Runs(START, events), i);
  }

  lemma ClaimExactly(s: System, i: nat)
    requires IsAccounted(s) && i < |s.requests| && s.requests[i].Start? && s.requests[i].starting.Reserved?
    ensures KeyCount(s.ledger.keys, s.requests[i].session) == 0
    ensures Next(s, Advance(i, true)).requests[i].starting == Claimed(OpenRow(s.ledger, s.requests[i].invite, s.requests[i].session).Some?)
  {
    var r := s.requests[i];
    assert IsStarting(r, r.session);
    OnlyOneOwes(s.requests, i);
    assert RowsMatch(s.ledger, s.requests, r.session);
  }

  /** The start waits to claim its key, and its session is open. */
  ghost predicate IsWaiting(s: System, i: nat, k: nat, r: Request, now: int) {
    && i < |s.requests| && s.requests[i] == r && r.Start? && r.starting.Reserved?
    && k < |s.ledger.sessions| && s.ledger.sessions[k].id == r.session && s.ledger.sessions[k].invite == r.invite
    && s.ledger.sessions[k].settled.None? && s.ledger.sessions[k].createdAt == now
  }

  /** The event is no step of the start itself, and no cleaning up so late that the reservation has gone stale. */
  predicate LeavesWaiting(e: Event, i: nat, now: int) {
    && !(e.Advance? && e.request == i)
    && (e.Other? && e.op.ExpireStale? ==> e.op.now <= now + RESERVATION_TTL_SECONDS)
  }

  lemma {:induction false} ExpireLeavesFresh(l: Ledger, now: int, n: nat, k: nat)
    requires n <= |l.sessions| && k < |l.sessions| && !IsStale(l.sessions[k], now)
    ensures ExpireFirst(l, now, n).sessions[k] == l.sessions[k]
  {
    if n > 0 {
      ExpireLeavesFresh(l, now, n - 1, k);
    }
  }

  lemma SettleLeavesOther(l: Ledger, invite: nat, id: string, used: int, k: nat)
    requires k < |l.sessions| && l.sessions[k].id != id
    ensures k < |Settle(l, invite, id, used).sessions| && Settle(l, invite, id, used).sessions[k] == l.sessions[k]
  {
  }

  lemma AdvanceLeavesWaiting(s: System, i: nat, k: nat, r: Request, now: int, j: nat, ok: bool)
    requires IsAccounted(s) && IsWaiting(s, i, k, r, now) && j != i
    ensures IsWaiting(Next(s, Advance(j, ok)), i, k, r, now)
  {
    if j < |s.requests| {
      assert IsStarting(s.requests[i], s.requests[i].session);
      assert !Names(s.requests[j], r.session);
      var other := s.requests[j];
      SettleLeavesOther(s.ledger, other.invite, other.session, 0, k);
    }
  }

  lemma OtherLeavesWaiting(s: System, i: nat, k: nat, r: Request, now: int, op: Op)
    requires IsWaiting(s, i, k, r, now) && LeavesWaiting(Other(op), i, now)
    ensures IsWaiting(Next(s, Other(op)), i, k, r, now)
  {
    match op
    case ExpireStale(clock) => ExpireLeavesFresh(s.ledger, clock, |s.ledger.sessions|, k);
    case SettleSession(invite, id, used) =>
      if !IsSecret(s.requests, id) {
        assert IsStarting(s.requests[i], r.session);
        SettleLeavesOther(s.ledger, invite, id, used, k);
      }
    case _ =>
  }

  lemma StepLeavesWaiting(s: System, e: Event, i: nat, k: nat, r: Request, now: int)
    requires IsAccounted(s) && IsWaiting(s, i, k, r, now) && LeavesWaiting(e, i, now)
    ensures IsWaiting(Next(s, e), i, k, r, now)
  {
    match e
    case Advance(j, ok) => AdvanceLeavesWaiting(s, i, k, r, now, j, ok);
    case Other(op) => OtherLeavesWaiting(s, i, k, r, now, op);
    case _ =>
  }

  lemma {:induction false} RunLeavesWaiting(s: System, events: seq<Event>, i: nat, k: nat, r: Request, now: int)
    requires IsAccounted(s) && IsWaiting(s, i, k, r, now)
    requires forall j | 0 <= j < |events| :: LeavesWaiting(events[j], i, now)
    ensures IsAccounted(Runs(s, events)) && IsWaiting(Runs(s, events), i, k, r, now)
  {
    if events != [] {
      RunLeavesWaiting(s, events[..|events| - 1], i, k, r, now);
      NextKeepsAccount(Runs(s, events[..|events| - 1]), events[|events| - 1]);
      StepLeavesWaiting(Runs(s, events[..|events| - 1]), events[|events| - 1], i, k, r, now);
    }
  }

  lemma {:induction false} RowIsFound(sessions: seq<Session>, k: nat)
    requires k < |sessions| && forall a, b | 0 <= a < b < |sessions| :: sessions[a].id != sessions[b].id
    ensures Row(sessions, sessions[k].id) == Some(k)
  {
    if k < |sessions| - 1 {
      RowIsFound(sessions[..|sessions| - 1], k);
    }
  }

  /** Whatever other requests do between a start's reservation and its claim, the claim is granted, unless the
      reservation has gone stale in the meantime. */
  lemma FreshStartIsGranted(s: System, e: Event, during: seq<Event>)
    requires IsAccounted(s) && e.ArriveStart? && |Next(s, e).requests| > |s.requests|
    requires forall j | 0 <= j < |during| :: LeavesWaiting(during[j], |s.requests|, e.now)
    ensures var i, after := |s.requests|, Runs(Next(s, e), during);
      i < |after.requests| && Next(after, Advance(i, true)).requests[i] == Start(e.invite, e.token, Claimed(true))
  {
    var i, k, r := |s.requests|, |s.ledger.sessions|, Start(e.invite, e.token, Reserved);
    NextKeepsAccount(s, e);
    assert IsWaiting(Next(s, e), i, k, r, e.now);
    RunLeavesWaiting(Next(s, e), during, i, k, r, e.now);
    var after := Runs(Next(s, e), during);
    RowIsFound(after.ledger.sessions, k);
    ClaimExactly(after, i);
  }
}
