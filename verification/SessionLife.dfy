/** One session from its invite to its settlement, and one whose start fails, step by step through the service
    (services/community-invite/server.py:1325-1448, 715-748). */
module SessionLife {
  import opened Prelude
  import opened QuotaLedger
  import opened QuotaRuns
  import opened MintProtocol
  import opened QuotaAnswers

  lemma RunsThen(s: System, events: seq<Event>, e: Event)
    ensures Runs(s, events + [e]) == Next(Runs(s, events), e)
  {
    assert (events + [e])[..|events|] == events;
  }

  lemma {:induction false} RunsAppends(s: System, first: seq<Event>, second: seq<Event>)
    ensures Runs(s, first + second) == Runs(Runs(s, first), second)
  {
    if second == [] {
      assert first + second == first;
    } else {
      var last := |second| - 1;
      assert (first + second)[..|first + second| - 1] == first + second[..last];
      RunsAppends(s, first, second[..last]);
    }
  }

  /** What the session holds: what was asked for, a second at least, five hours and the invite's quota at most. */
  function Seconds(quota: int, requested: int): int {
    var most := if requested > 18000 then 18000 else if requested < 1 then 1 else requested;
    if quota < most then quota else most
  }

  function LaneNumber(laneCount: int): nat {
    if laneCount < 1 then 1 else if laneCount > 4 then 4 else laneCount
  }

  function Opening(quota: int, requested: int, laneCount: int, token: string, now: int): seq<Event> {
    [Other(CreateInvite(quota)), ArriveStart(0, requested, laneCount, token, now)]
  }

  /** The invite and its one session. */
  function OneSession(quota: int, requested: int, laneCount: int, token: string, now: int, settled: Option<int>, keys: nat): Ledger {
    var seconds := Seconds(quota, requested);
    Ledger([if settled.Some? then Invite(quota, settled.value, 0, true) else Invite(quota, 0, seconds, true)],
           [Session(token, 0, seconds, LaneNumber(laneCount), now, settled)], Repeat(token, keys))
  }

  lemma OpeningRun(quota: int, requested: int, laneCount: int, token: string, now: int)
    requires quota >= 1
    ensures Runs(START, Opening(quota, requested, laneCount, token, now)) ==
      System(OneSession(quota, requested, laneCount, token, now, None, 0), [Start(0, token, Reserved)])
  {
    var created := System(Ledger([Invite(quota, 0, 0, true)], [], []), []);
    assert Opening(quota, requested, laneCount, token, now)[..1] == [] + [Other(CreateInvite(quota))];
    RunsThen(START, [], Other(CreateInvite(quota)));
    assert Next(START, Other(CreateInvite(quota))) == created;
    assert Repeat(token, 0) == [];
  }

  lemma ClaimOne(quota: int, requested: int, laneCount: int, token: string, now: int, keys: nat, count: nat)
    requires 1 <= count && keys + count <= 16
    ensures var l := OneSession(quota, requested, laneCount, token, now, None, keys);
      ClaimKeys(l, 0, token, count) == (l.(keys := Repeat(token, keys + count)), Some(keys + count))
  {
    RepeatCounts(token, keys);
    assert Repeat(token, keys) + Repeat(token, count) == Repeat(token, keys + count);
  }

  lemma {:induction false} RepeatCounts(session: string, n: nat)
    ensures KeyCount(Repeat(session, n), session) == n
  {
    if n > 0 {
      RepeatCounts(session, n - 1);
      assert Repeat(session, n)[..n - 1] == Repeat(session, n - 1);
    }
  }

  /** A start that is granted, its key, and its answer. */
  lemma StartRun(quota: int, requested: int, laneCount: int, token: string, now: int)
    requires quota >= 1
    ensures Runs(START, Opening(quota, requested, laneCount, token, now) + [Advance(0, true), Advance(0, true)]) ==
      System(OneSession(quota, requested, laneCount, token, now, None, 1), [Start(0, token, Started(true))])
  {
    var opening := Opening(quota, requested, laneCount, token, now);
    var began := System(OneSession(quota, requested, laneCount, token, now, None, 0), [Start(0, token, Reserved)]);
    OpeningRun(quota, requested, laneCount, token, now);
    ClaimOne(quota, requested, laneCount, token, now, 0, 1);
    RunsThen(START, opening, Advance(0, true));
    assert Next(began, Advance(0, true)) ==
      System(OneSession(quota, requested, laneCount, token, now, None, 1), [Start(0, token, Claimed(true))]);
    RunsThen(START, opening + [Advance(0, true)], Advance(0, true));
    assert opening + [Advance(0, true)] + [Advance(0, true)] == opening + [Advance(0, true), Advance(0, true)];
  }

  /** A start fails before its key is claimed or at the call for it: the session is closed at nothing, and the invite has
      all of its seconds again. */
  lemma FailedStartRefunds(quota: int, requested: int, laneCount: int, token: string, now: int, claimed: bool)
    requires quota >= 1
    ensures Runs(START, Opening(quota, requested, laneCount, token, now) + (if claimed then [Advance(0, true)] else []) + [Advance(0, false)]) ==
      System(OneSession(quota, requested, laneCount, token, now, Some(0), if claimed then 1 else 0), [Start(0, token, Refunded(claimed))])
  {
    var opening := Opening(quota, requested, laneCount, token, now);
    var began := System(OneSession(quota, requested, laneCount, token, now, None, 0), [Start(0, token, Reserved)]);
    OpeningRun(quota, requested, laneCount, token, now);
    ClaimOne(quota, requested, laneCount, token, now, 0, 1);
    if claimed {
      RunsThen(START, opening, Advance(0, true));
      assert Next(began, Advance(0, true)) ==
        System(OneSession(quota, requested, laneCount, token, now, None, 1), [Start(0, token, Claimed(true))]);
      RunsThen(START, opening + [Advance(0, true)], Advance(0, false));
      SettleOne(quota, requested, laneCount, token, now, 1, 0);
    } else {
      assert opening + [] == opening;
      RunsThen(START, opening, Advance(0, false));
      SettleOne(quota, requested, laneCount, token, now, 0, 0);
    }
  }

  lemma SettleOne(quota: int, requested: int, laneCount: int, token: string, now: int, keys: nat, used: int)
    requires quota >= 1
    ensures Settle(OneSession(quota, requested, laneCount, token, now, None, keys), 0, token, used) ==
      OneSession(quota, requested, laneCount, token, now, Some(Charge(Seconds(quota, requested), used)), keys)
  {
  }

  /** What is charged for a use of a session: all of it up to what the session holds, and never less than nothing. */
  function Charge(seconds: int, used: int): int {
    if used < 0 then 0 else if used > seconds then seconds else used
  }

  // ----- the keys of the session's lanes

  function Calls(i: nat, n: nat): seq<Event> {
    seq(n, _ => Advance(i, true))
  }

  lemma {:induction false} CallsRun(s: System, i: nat, n: nat)
    requires i < |s.requests| && s.requests[i].Mint? && s.requests[i].minting == Minting(0) && n <= s.requests[i].count
    requires s.requests[i].count >= 1
    ensures Runs(s, Calls(i, n)) ==
      s.(requests := s.requests[i := s.requests[i].(minting := if n == s.requests[i].count then Answered else Minting(n))])
  {
    if n == 0 {
      assert s.requests[i].(minting := Minting(0)) == s.requests[i] && s.requests[i := s.requests[i]] == s.requests;
    } else {
      CallsRun(s, i, n - 1);
      assert Calls(i, n)[..n - 1] == Calls(i, n - 1);
    }
  }

  /** The session's start and its mint. */
  function Requests(token: string, count: nat, minting: MintPhase): seq<Request> {
    [Start(0, token, Started(true)), Mint(0, token, count, minting)]
  }

  lemma MintArrives(l: Ledger, token: string, asked: int)
    ensures Next(System(l, [Start(0, token, Started(true))]), ArriveMint(0, token, true, asked)) ==
      System(l, Requests(token, LaneNumber(asked), Arrived))
  {
  }

  lemma MintIsRead(quota: int, requested: int, laneCount: int, token: string, now: int, n: nat)
    ensures var l := OneSession(quota, requested, laneCount, token, now, None, 1);
      Next(System(l, Requests(token, n, Arrived)), Advance(1, true)) == System(l, Requests(token, n, Opened))
  {
    assert Requests(token, n, Arrived)[1 := Mint(0, token, n, Opened)] == Requests(token, n, Opened);
  }

  lemma MintClaims(quota: int, requested: int, laneCount: int, token: string, now: int, n: nat)
    requires 1 <= n <= 4
    ensures Next(System(OneSession(quota, requested, laneCount, token, now, None, 1), Requests(token, n, Opened)), Advance(1, true)) ==
      System(OneSession(quota, requested, laneCount, token, now, None, 1 + n), Requests(token, n, Minting(0)))
  {
    ClaimOne(quota, requested, laneCount, token, now, 1, n);
    assert Requests(token, n, Opened)[1 := Mint(0, token, n, Minting(0))] == Requests(token, n, Minting(0));
  }

  /** A batch for a started session, all of whose calls work. */
  function Batch(token: string, asked: int): seq<Event> {
    [ArriveMint(0, token, true, asked)] + [Advance(1, true)] + [Advance(1, true)] + Calls(1, LaneNumber(asked))
  }

  lemma MintRun(quota: int, requested: int, laneCount: int, token: string, now: int, asked: int, s: System)
    requires s == System(OneSession(quota, requested, laneCount, token, now, None, 1), [Start(0, token, Started(true))])
    ensures Runs(s, Batch(token, asked)) ==
      System(OneSession(quota, requested, laneCount, token, now, None, 1 + LaneNumber(asked)), Requests(token, LaneNumber(asked), Answered))
  {
    var n := LaneNumber(asked);
    var first: seq<Event> := [ArriveMint(0, token, true, asked)];
    RunsThen(s, [], first[0]);
    assert [] + [first[0]] == first;
    MintArrives(s.ledger, token, asked);
    RunsThen(s, first, Advance(1, true));
    MintIsRead(quota, requested, laneCount, token, now, n);
    RunsThen(s, first + [Advance(1, true)], Advance(1, true));
    MintClaims(quota, requested, laneCount, token, now, n);
    RunsAppends(s, first + [Advance(1, true)] + [Advance(1, true)], Calls(1, n));
    AllMinted(System(OneSession(quota, requested, laneCount, token, now, None, 1 + n), Requests(token, n, Minting(0))), token, n);
  }

  lemma AllMinted(s: System, token: string, n: nat)
    requires n >= 1 && s.requests == Requests(token, n, Minting(0))
    ensures Runs(s, Calls(1, n)) == s.(requests := Requests(token, n, Answered))
  {
    CallsRun(s, 1, n);
    assert s.requests[1 := Mint(0, token, n, Answered)] == Requests(token, n, Answered);
  }

  /** A session's whole life: started, given its key and the keys of its lanes, and settled. */
  function Life(quota: int, requested: int, laneCount: int, token: string, now: int, asked: int, used: int): seq<Event> {
    Opening(quota, requested, laneCount, token, now) + [Advance(0, true), Advance(0, true)] + Batch(token, asked) + [Other(SettleSession(0, token, used))]
  }

  /** Where every call works, an invite with a quota starts a session, hands out its key and one for each lane asked for,
      and is charged what was used of it. */
  lemma WholeLife(quota: int, requested: int, laneCount: int, token: string, now: int, asked: int, used: int)
    requires quota >= 1
    ensures Runs(START, Life(quota, requested, laneCount, token, now, asked, used)) ==
      System(OneSession(quota, requested, laneCount, token, now, Some(Charge(Seconds(quota, requested), used)), 1 + LaneNumber(asked)),
             [Start(0, token, Started(true)), Mint(0, token, LaneNumber(asked), Answered)])
  {
    var start := Opening(quota, requested, laneCount, token, now) + [Advance(0, true), Advance(0, true)];
    StartRun(quota, requested, laneCount, token, now);
    MintRun(quota, requested, laneCount, token, now, asked, Runs(START, start));
    RunsAppends(START, start, Batch(token, asked));
    RunsThen(START, start + Batch(token, asked), Other(SettleSession(0, token, used)));
    SettleOne(quota, requested, laneCount, token, now, 1 + LaneNumber(asked), used);
    assert !IsSecret(Requests(token, LaneNumber(asked), Answered), token);
  }
}
