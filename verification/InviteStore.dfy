/** The store whose rows the transactions update (services/community-invite/server.py, class `Store`).
    Each method is one transaction, proved against its function in QuotaLedger. */
module InviteStore {
  import opened Prelude
  import opened QuotaLedger

  class Store {
    var invites: seq<Invite>
    var sessions: seq<Session>
    var keys: seq<string>

    function State(): Ledger
      reads this
    {
      Ledger(invites, sessions, keys)
    }

    constructor ()
      ensures State() == EMPTY
    {
      invites, sessions, keys := [], [], [];
    }

    method CreateInvite(quotaSeconds: int) returns (invite: nat)
      modifies this
      ensures State() == Create(old(State()), quotaSeconds) && invite == old(|invites|)
    {
      invite := |invites|;
      invites := invites + [Invite(quotaSeconds, 0, 0, true)];
    }

    method ExpireStaleReservations(now: int)
      modifies this
      ensures State() == Expire(old(State()), now)
    {
      var cutoff := now - RESERVATION_TTL_SECONDS;
      for row := 0 to |sessions|
        invariant |sessions| == old(|sessions|) && sessions[row..] == old(sessions)[row..]
        invariant State() == ExpireFirst(old(State()), now, row)
      {
        var session := sessions[row];
        assert session == sessions[row..][0] == old(sessions)[row..][0];
        if session.settled.None? && session.createdAt < cutoff {
          sessions := sessions[row := session.(settled := Some(0))];
          if session.invite < |invites| {
            var invite := invites[session.invite];
            invites := invites[session.invite := invite.(reserved := invite.reserved - session.reserved)];
          }
        }
        assert sessions[row + 1..] == old(sessions)[row + 1..];
      }
    }

    method ReserveSession(invite: nat, requestedSeconds: int, laneCount: int, token: string, now: int) returns (grant: Grant)
      modifies this
      ensures (State(), grant) == Reserve(old(State()), invite, requestedSeconds, laneCount, token, now)
    {
      var requested := Max(1, Min(requestedSeconds, MAX_SESSION_SECONDS));
      var lanes := Max(1, Min(laneCount, MAX_LANES_PER_SESSION));
      if invite >= |invites| || !invites[invite].enabled {
        return Refused;
      }
      var row := invites[invite];
      var remaining := row.quota - row.used - row.reserved;
      var reserved := Min(requested, remaining);
      if reserved <= 0 {
        return Refused;
      }
      if Row(sessions, token).Some? {
        return TokenTaken;
      }
      sessions := sessions + [Session(token, invite, reserved, lanes, now, None)];
      invites := invites[invite := row.(reserved := row.reserved + reserved)];
      grant := Granted(reserved, lanes);
    }

    /** Returns the seconds the invite has left, or None when there is no such open session. */
    method SettleSession(invite: nat, id: string, usedSeconds: int) returns (remaining: Option<int>)
      modifies this
      ensures State() == Settle(old(State()), invite, id, usedSeconds)
      ensures remaining.Some? <==> OpenRow(old(State()), invite, id).Some? && invite < old(|invites|)
      ensures remaining.Some? ==> remaining.value == Max(0, invites[invite].quota - invites[invite].used - invites[invite].reserved)
    {
      var found := OpenRow(State(), invite, id);
      if found.None? || invite >= |invites| {
        return None;
      }
      var session := sessions[found.value];
      var charged := Max(0, Min(usedSeconds, session.reserved));
      sessions := sessions[found.value := session.(settled := Some(charged))];
      var row := invites[invite];
      invites := invites[invite := row.(used := row.used + charged, reserved := row.reserved - session.reserved)];
      row := invites[invite];
      remaining := Some(Max(0, row.quota - row.used - row.reserved));
    }

    method AdjustInviteQuota(invite: nat, deltaSeconds: int) returns (updated: Option<int>)
      modifies this
      ensures State() == Adjust(old(State()), invite, deltaSeconds)
      ensures updated == if invite < |invites| then Some(invites[invite].quota) else None
    {
      if invite >= |invites| {
        return None;
      }
      var row := invites[invite];
      var floor := row.used + row.reserved;
      var quota := Max(floor, row.quota + deltaSeconds);
      invites := invites[invite := row.(quota := quota)];
      updated := Some(quota);
    }

    method SetInviteEnabled(invite: nat, enabled: bool) returns (found: bool)
      modifies this
      ensures State() == SetEnabled(old(State()), invite, enabled) && found == (invite < |invites|)
    {
      found := invite < |invites|;
      if found {
        invites := invites[invite := invites[invite].(enabled := enabled)];
      }
    }

    method ReserveSessionKeys(invite: nat, id: string, count: int) returns (issued: Option<int>)
      modifies this
      ensures (State(), issued) == ClaimKeys(old(State()), invite, id, count)
    {
      if count < 1 || OpenRow(State(), invite, id).None? {
        return None;
      }
      var before := KeyCount(keys, id);
      if before + count > SESSION_KEY_BUDGET {
        return None;
      }
      keys := keys + Repeat(id, count);
      issued := Some(before + count);
    }

    method ReleaseSessionKeys(id: string, count: int)
      modifies this
      ensures State() == ReleaseKeys(old(State()), id, count)
    {
      if count < 1 {
        return;
      }
      var i, left, kept := |keys|, count, [];
      assert keys[..i] == keys;
      while i > 0 && left > 0
        invariant 0 <= i <= |keys| && 0 <= left
        invariant WithoutNewest(keys, id, count) == WithoutNewest(keys[..i], id, left) + kept
      {
        i := i - 1;
        assert keys[..i + 1][..i] == keys[..i];
        if keys[i] == id {
          left := left - 1;
        } else {
          kept := [keys[i]] + kept;
        }
      }
      keys := keys[..i] + kept;
    }
  }
}
