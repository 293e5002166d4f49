/** What each transaction of the invite service answers and writes, row by row
    (services/community-invite/server.py:383-454, 497-552, 1394-1436). */
module QuotaAnswers {
  import opened Prelude
  import opened QuotaLedger
  import opened QuotaRuns
  import opened MintProtocol

  // ----- key rows

  /** The key rows of a session. */
  function KeyRows(keys: seq<string>, session: string): set<int> {
    set i | 0 <= i < |keys| && keys[i] == session
  }

  lemma {:induction false} CountsKeyRows(keys: seq<string>, session: string)
    ensures |KeyRows(keys, session)| == KeyCount(keys, session)
  {
    if keys == [] {
      assert KeyRows(keys, session) == {};
    } else {
      var last := |keys| - 1;
      CountsKeyRows(keys[..last], session);
      assert KeyRows(keys, session) == KeyRows(keys[..last], session) + if keys[last] == session then {last} else {};
    }
  }

  predicate IsOpen(s: Session, invite: nat, id: string) {
    s.id == id && s.invite == invite && s.settled.None?
  }

  ghost predicate HasOpen(l: Ledger, invite: nat, id: string) {
    exists i | 0 <= i < |l.sessions| :: IsOpen(l.sessions[i], invite, id)
  }

  ghost predicate HasDistinctIds(l: Ledger) {
    forall i, j | 0 <= i < j < |l.sessions| :: l.sessions[i].id != l.sessions[j].id
  }

  lemma OpenIsFound(l: Ledger, invite: nat, id: string)
    requires HasDistinctIds(l)
    ensures OpenRow(l, invite, id).Some? <==> HasOpen(l, invite, id)
  {
    if i :| 0 <= i < |l.sessions| && IsOpen(l.sessions[i], invite, id) {
      RowIsFound(l.sessions, i);
    }
    if OpenRow(l, invite, id).Some? {
      assert IsOpen(l.sessions[OpenRow(l, invite, id).value], invite, id);
    }
  }

  /** A claim is granted exactly when it asks for a key at least, the session is the invite's and open, and the session
      then has sixteen keys at most. It answers with their number and adds that many rows of the session, behind those
      there are; a claim not granted changes nothing. */
  lemma ClaimExactly(l: Ledger, invite: nat, session: string, count: int)
    requires HasDistinctIds(l)
    ensures var (after, issued) := (Step(l, ReserveSessionKeys(invite, session, count)), ClaimKeys(l, invite, session, count).1);
      && (issued.Some? <==> count >= 1 && HasOpen(l, invite, session) && |KeyRows(l.keys, session)| + count <= 16)
      && (issued.Some? ==> issued.value == |KeyRows(l.keys, session)| + count)
      && after.invites == l.invites && after.sessions == l.sessions
      && |after.keys| == |l.keys| + (if issued.Some? then count else 0)
      && (forall i | 0 <= i < |after.keys| :: after.keys[i] == if i < |l.keys| then l.keys[i] else session)
  {
    CountsKeyRows(l.keys, session);
    OpenIsFound(l, invite, session);
  }

  /** The keys that are not the session's. */
  function OthersKeys(keys: seq<string>, session: string): (others: seq<string>)
    ensures session !in others
  {
    if keys == [] then []
    else OthersKeys(keys[..|keys| - 1], session) + if keys[|keys| - 1] == session then [] else [keys[|keys| - 1]]
  }

  /** A release takes the session's newest rows: from some row on none of them is left, everything before that row stays,
      and it is the session's `count`th from the end, or the first row of all where it has fewer. */
  ghost predicate IsRelease(keys: seq<string>, after: seq<string>, session: string, count: nat, from: nat) {
    && from <= |keys| && after == keys[..from] + OthersKeys(keys[from..], session)
    && KeyCount(keys[from..], session) <= count
    && (KeyCount(keys[from..], session) < count ==> from == 0)
    && (from < |keys| && KeyCount(keys[from..], session) == count ==> keys[from] == session)
  }

  lemma {:induction false} ReleaseFrom(keys: seq<string>, session: string, count: nat) returns (from: nat)
    ensures IsRelease(keys, WithoutNewest(keys, session, count), session, count, from)
  {
    if keys == [] || count == 0 {
      from := |keys|;
      assert keys[|keys|..] == [] && keys[..|keys|] == keys;
    } else {
      var last := |keys| - 1;
      if keys[last] == session && count == 1 {
        from := last;
        NewestIsLast(keys, session);
      } else {
        var left := if keys[last] == session then count - 1 else count;
        from := ReleaseFrom(keys[..last], session, left);
        OneMoreKey(keys, session, count, left, from);
      }
    }
  }

  lemma NewestIsLast(keys: seq<string>, session: string)
    requires keys != [] && keys[|keys| - 1] == session
    ensures IsRelease(keys, WithoutNewest(keys, session, 1), session, 1, |keys| - 1)
  {
    var last := |keys| - 1;
    var own := keys[last..];
    assert own == [session] && own[..0] == [];
    assert OthersKeys(own, session) == OthersKeys(own[..0], session) + [];
    assert KeyCount(own, session) == KeyCount(own[..0], session) + 1;
    assert keys[..last] + [] == keys[..last];
  }

  lemma OneMoreKey(keys: seq<string>, session: string, count: nat, left: nat, from: nat)
    requires keys != [] && left > 0 && count == left + if keys[|keys| - 1] == session then 1 else 0
    requires IsRelease(keys[..|keys| - 1], WithoutNewest(keys[..|keys| - 1], session, left), session, left, from)
    ensures IsRelease(keys, WithoutNewest(keys, session, count), session, count, from)
  {
    var last := |keys| - 1;
    assert keys[..last][from..] == keys[from..][..last - from];
    assert keys[..last][..from] == keys[..from];
  }

  /** A release of at least one key. */
  lemma ReleaseExactly(l: Ledger, session: string, count: int)
    ensures var after := Step(l, ReleaseSessionKeys(session, count));
      && after.invites == l.invites && after.sessions == l.sessions
      && (count < 1 ==> after == l)
      && (count >= 1 ==> exists from: nat :: IsRelease(l.keys, after.keys, session, count, from))
  {
    if count >= 1 {
      var from := ReleaseFrom(l.keys, session, count);
    }
  }

  /** A mint whose session was open when it was read begins to mint exactly when the service is configured and its claim
      is granted; else it is answered with an error and nothing is claimed. */
  lemma MintBeginsExactly(l: Ledger, r: Request, ok: bool)
    requires HasDistinctIds(l) && r.Mint? && r.minting.Opened? && r.count >= 1
    ensures var (after, next) := AdvanceMint(l, r, ok);
      && next.(minting := Opened) == r
      && (next.minting == Minting(0) <==> ok && HasOpen(l, r.invite, r.session) && |KeyRows(l.keys, r.session)| + r.count <= 16)
      && (next.minting != Minting(0) ==> next.minting.Rejected? && after == l)
      && (next.minting == Minting(0) ==> |KeyRows(after.keys, r.session)| == |KeyRows(l.keys, r.session)| + r.count)
  {
    ClaimExactly(l, r.invite, r.session, r.count);
    KeysAfterClaim(l.keys, r.session, r.count, r.session);
    CountsKeyRows(l.keys, r.session);
    CountsKeyRows(AdvanceMint(l, r, ok).0.keys, r.session);
  }

  lemma MintOpensExactly(l: Ledger, r: Request, ok: bool)
    requires HasDistinctIds(l) && r.Mint? && r.minting.Arrived?
    ensures AdvanceMint(l, r, ok) == (l, r.(minting := if HasOpen(l, r.invite, r.session) then Opened else Rejected))
  {
    OpenIsFound(l, r.invite, r.session);
  }

  /** A batch has as many keys as were asked for, from one to four, and a renewal one. */
  lemma BatchExactly(singleUse: bool, asked: int)
    ensures !singleUse || asked < 1 ==> BatchSize(singleUse, asked) == 1
    ensures singleUse && 1 <= asked <= 4 ==> BatchSize(singleUse, asked) == asked
    ensures singleUse && asked > 4 ==> BatchSize(singleUse, asked) == 4
  {
  }

  // ----- reservations

  /** A reservation that is granted adds one row, with the name, the invite, the seconds and the time it was made, holds
      the seconds of the invite, and has the lanes asked for, from one to four; one that is not changes nothing. */
  lemma ReserveExactly(l: Ledger, invite: nat, requested: int, laneCount: int, token: string, now: int)
    ensures var (after, grant) := (Step(l, ReserveSession(invite, requested, laneCount, token, now)),
                                   Reserve(l, invite, requested, laneCount, token, now).1);
      && (grant.TokenTaken? ==> exists i | 0 <= i < |l.sessions| :: l.sessions[i].id == token)
      && (!grant.Granted? ==> after == l)
      && (grant.Granted? ==>
          && grant.lanes == (if laneCount < 1 then 1 else if laneCount > 4 then 4 else laneCount)
          && after.sessions == l.sessions + [Session(token, invite, grant.seconds, grant.lanes, now, None)]
          && invite < |l.invites|
          && after.invites == l.invites[invite := l.invites[invite].(reserved := l.invites[invite].reserved + grant.seconds)]
          && after.keys == l.keys)
  {
  }

  /** What a settlement charges: what was used, from nothing up to what was reserved. */
  predicate IsCharge(s: Session, used: int, charge: int) {
    && (used < 0 ==> charge == 0) && (0 <= used <= s.reserved ==> charge == used) && (used > s.reserved ==> charge == s.reserved)
  }

  /** Row `i` is the invite's open session: it is closed with the charge, which moves from the invite's reserved seconds to
      its used ones, and the rest is given back. */
  ghost predicate IsSettlement(l: Ledger, after: Ledger, invite: nat, id: string, used: int, i: nat, charge: int)
    requires invite < |l.invites|
  {
    && i < |l.sessions| && IsOpen(l.sessions[i], invite, id) && IsCharge(l.sessions[i], used, charge)
    && after.sessions == l.sessions[i := l.sessions[i].(settled := Some(charge))]
    && after.invites == l.invites[invite := l.invites[invite].(
         used := l.invites[invite].used + charge, reserved := l.invites[invite].reserved - l.sessions[i].reserved)]
    && after.keys == l.keys
  }

  /** A settlement closes the open session of the invite, and without one changes nothing. */
  lemma SettleExactly(l: Ledger, invite: nat, id: string, used: int)
    requires HasDistinctIds(l) && invite < |l.invites| && forall i | 0 <= i < |l.sessions| :: l.sessions[i].reserved >= 0
    ensures var after := Step(l, SettleSession(invite, id, used));
      if HasOpen(l, invite, id) then exists i, charge :: IsSettlement(l, after, invite, id, used, i, charge) else after == l
  {
    OpenIsFound(l, invite, id);
    var row := OpenRow(l, invite, id);
    if row.Some? {
      assert IsSettlement(l, Step(l, SettleSession(invite, id, used)), invite, id, used, row.value, Charged(l.sessions[row.value], used));
    }
  }

  /** Open, and made more than six hours before. */
  predicate IsOverdue(s: Session, now: int) {
    s.settled.None? && now - s.createdAt > 21600
  }

  lemma {:induction false} ExpireLeavesColumns(l: Ledger, now: int, n: nat)
    requires n <= |l.sessions|
    ensures forall i | 0 <= i < |l.invites| :: ExpireFirst(l, now, n).invites[i].(reserved := 0) == l.invites[i].(reserved := 0)
    ensures ExpireFirst(l, now, n).keys == l.keys
  {
    if n > 0 {
      ExpireLeavesColumns(l, now, n - 1);
    }
  }

  /** An expiry settles exactly the open sessions made more than six hours before, at nothing; every invite then holds what
      its sessions still open hold, and nothing else of it changes. */
  lemma ExpireExactly(l: Ledger, now: int)
    requires IsBalanced(l)
    ensures var after := Step(l, ExpireStale(now));
      && |after.sessions| == |l.sessions| && |after.invites| == |l.invites| && after.keys == l.keys
      && (forall i | 0 <= i < |l.sessions| ::
            after.sessions[i] == if IsOverdue(l.sessions[i], now) then l.sessions[i].(settled := Some(0)) else l.sessions[i])
      && (forall i | 0 <= i < |l.invites| :: after.invites[i] == l.invites[i].(reserved := HeldSum(after.sessions, i)))
  {
    var after := Expire(l, now);
    ExpireClearsStale(l, now, |l.sessions|);
    ExpireLeavesColumns(l, now, |l.sessions|);
    ExpireKeepsBalance(l, now, |l.sessions|);
    forall i: nat | i < |l.invites|
      ensures after.invites[i] == l.invites[i].(reserved := HeldSum(after.sessions, i))
    {
      assert InviteBalances(after, i);
      assert after.invites[i].(reserved := 0) == l.invites[i].(reserved := 0);
    }
  }

  /** A change of quota adds what is asked, but leaves no less than is used and reserved. */
  lemma AdjustExactly(l: Ledger, invite: nat, delta: int)
    requires invite < |l.invites|
    ensures var (was, after) := (l.invites[invite], Step(l, AdjustQuota(invite, delta)));
      && after == l.(invites := l.invites[invite := was.(quota := after.invites[invite].quota)])
      && after.invites[invite].quota == if was.quota + delta < was.used + was.reserved then was.used + was.reserved else was.quota + delta
  {
  }

  /** A stream lasts the longest that the session's lanes together can within what is reserved, and a second at least. */
  lemma StreamIsLongest(s: Session)
    requires 1 <= s.lanes <= 4 && s.reserved >= 0
    ensures StreamDuration(s) >= 1
    ensures s.lanes <= s.reserved ==> s.lanes * StreamDuration(s) <= s.reserved < s.lanes * (StreamDuration(s) + 1)
    ensures s.reserved < s.lanes ==> StreamDuration(s) == 1
  {
    var d := s.reserved / s.lanes;
    assert s.lanes * d <= s.reserved < s.lanes * d + s.lanes;
    if s.lanes <= s.reserved {
      assert d >= 1;
    }
  }

  // ----- minting the keys

  /** A mint's next steps, with how its upstream calls go. */
  function Steps(l: Ledger, r: Request, calls: seq<bool>): (Ledger, Request)
    requires r.Mint?
  {
    if calls == [] then (l, r)
    else
      var (before, now) := Steps(l, r, calls[..|calls| - 1]);
      if now.Mint? then AdvanceMint(before, now, calls[|calls| - 1]) else (before, now)
  }

  ghost predicate AllWork(calls: seq<bool>) {
    forall i | 0 <= i < |calls| :: calls[i]
  }

  /** As long as the calls work a mint goes on, and it is answered with the last of its keys, one call for each. */
  lemma {:induction false} MintsOnePerCall(l: Ledger, r: Request, calls: seq<bool>)
    requires r.Mint? && r.minting == Minting(0) && |calls| <= r.count && AllWork(calls) && r.count >= 1
    ensures Steps(l, r, calls) == (l, r.(minting := if |calls| == r.count then Answered else Minting(|calls|)))
  {
    if calls != [] {
      MintsOnePerCall(l, r, calls[..|calls| - 1]);
    }
  }

  /** A call that fails gives the whole claim back and nothing is answered, whatever comes after. */
  lemma FailedMintGivesBack(l: Ledger, r: Request, calls: seq<bool>, last: bool)
    requires r.Mint? && r.minting == Minting(0) && |calls| < r.count && AllWork(calls)
    ensures Steps(l, r, calls + [false] + [last]) == (l.(keys := WithoutNewest(l.keys, r.session, r.count)), r.(minting := GaveBack))
  {
    MintsOnePerCall(l, r, calls);
    assert (calls + [false])[..|calls|] == calls;
    assert (calls + [false] + [last])[..|calls| + 1] == calls + [false];
  }
}
