/**
 The email verification service as it runs: one object holding the tables, one method per
 transaction, each proved to do what the protocol step says and what its caller relies on.
 */
module EmailService {
  import opened Common
  import opened IssueLimits
  import opened EmailVerification
  import opened EmailProgress

  // The row is open, and no other row of its user is.
  ghost predicate OnlyOpen(rows: seq<Challenge>, i: nat) {
    i < |rows| && rows[i].Open() && forall j :: 0 <= j < |rows| && j != i && rows[j].user == rows[i].user ==>
        !rows[j].Open()
  }

  // What the steps leave, in the terms of the methods below.
  lemma OpenedAlone(cfg: Config, db: Db, id: int, commits: bool)
    requires cfg.Valid() && Sound(cfg, db)
    ensures forall i: nat :: i < |db.rows| && MayOpen(db, ActivateRequest(id, commits), i) ==>
        OnlyOpen(Activate(db, id, commits).db.rows, i)
  {
    hide Sound, MayOpen, Activate;
    var r := ActivateRequest(id, commits);
    forall i: nat | i < |db.rows| && MayOpen(db, r, i)
      ensures OnlyOpen(Activate(db, id, commits).db.rows, i)
    {
      OpeningReplaces(cfg, db, r, i);
      assert !db.rows[i].Open() && db.rows[i].usedAt.None? by { MayOpenIsPending(db, r, i); }
    }
  }

  lemma MayOpenIsPending(db: Db, r: Request, i: nat)
    requires r.ActivateRequest? && i < |db.rows| && MayOpen(db, r, i)
    ensures db.rows[i].Pending()
  {
  }

  lemma MissIsCounted(cfg: Config, db: Db, user: int, code: string, now: int)
    requires Sound(cfg, db)
    ensures forall i: nat :: Misses(cfg, db, VerifyRequest(user, code, now), i) ==>
      Verify(cfg, db, user, code, now).db == db.(rows := db.rows[i := db.rows[i].(attempts := db.rows[i].attempts + 1)])
  {
    hide Sound, Verify;
    forall i: nat | Misses(cfg, db, VerifyRequest(user, code, now), i)
      ensures Verify(cfg, db, user, code, now).db
           == db.(rows := db.rows[i := db.rows[i].(attempts := db.rows[i].attempts + 1)])
    {
      WrongCodeCounts(cfg, db, VerifyRequest(user, code, now), i);
    }
  }

  // One object holding the tables; `flows` is what open resend requests hold in memory.
  class EmailVerificationService {
    const cfg: Config
    var accounts: map<int, Account>
    var rows: seq<Challenge>
    var flows: map<int, Flow>

    ghost function State(): Db
      reads this
    {
      Db(accounts, rows, flows)
    }

    ghost predicate Valid()
      reads this
    {
      cfg.Valid() && Sound(cfg, State())
    }

    constructor (cfg: Config)
      requires cfg.Valid()
      ensures this.cfg == cfg && State() == EMPTY && Valid()
    {
      this.cfg := cfg;
      accounts, rows, flows := map[], [], map[];
    }

    method ResendChallenge(user: int, provider: bool, now: int, id: int, code: string) returns (reply: Reply)
      requires Valid() && id !in flows
      modifies this
      ensures Valid()
      ensures var o := Resend(cfg, old(State()), user, provider, now, id, code); State() == o.db && reply == o.reply
      ensures accounts == old(accounts) && old(rows) <= rows
      ensures reply.RateLimited? ==> reply.retryAfter >= 1 && rows == old(rows)
      ensures rows != old(rows) ==> |rows| == |old(rows)| + 1 && rows[|old(rows)|].Pending()
      ensures |rows| > |old(rows)| <==>
        Unverified(old(State()), user) && provider && WithinLimits(cfg, old(State()), user, now)
    {
      hide Sound, WithinLimits;
      ghost var r := ResendRequest(user, provider, now, id, code);
      StepKeeps(cfg, State(), r);
      ResendExactly(cfg, State(), r);
      if user !in accounts || !accounts[user].Eligible() {
        return Accepted;
      }
      if !provider {
        return Unavailable;
      }
      var latest := Latest(rows, user, false);
      if latest.Some? {
        var age := now - rows[latest.value].createdAt;
        if age < cfg.cooldown {
          return RateLimited(Max(1, cfg.cooldown / SECOND - Max(0, WholeSeconds(age))));
        }
      }
      var recent := CountSince(IssueLog(rows), user, now - HOUR);
      if recent >= cfg.hourlyLimit {
        var oldest := OldestSince(rows, user, now - HOUR);
        var retryAfter := 3600;
        if oldest.Some? {
          retryAfter := Max(1, 3600 - Max(0, WholeSeconds(now - oldest.value)));
        }
        return RateLimited(retryAfter);
      }
      rows := rows + [NewChallenge(cfg, id, user, code, now)];
      flows := flows[id := Flow(user, accounts[user].email.value, now, Issued)];
      return Accepted;
    }

    method FinishDelivery(id: int, delivered: bool)
      requires Valid()
      modifies this
      ensures Valid()
      ensures State() == Deliver(old(State()), id, delivered).db
      ensures rows == old(rows) && accounts == old(accounts)
    {
      hide Sound;
      StepKeeps(cfg, State(), DeliverRequest(id, delivered));
      if id in flows && flows[id].stage.Issued? {
        flows := flows[id := flows[id].(stage := if delivered then Delivered else Cancelling)];
      }
    }

    method ActivateChallenge(id: int, commits: bool)
      requires Valid()
      modifies this
      ensures Valid()
      ensures State() == Activate(old(State()), id, commits).db
      ensures accounts == old(accounts) && |rows| == |old(rows)|
      ensures forall i :: 0 <= i < |rows| && rows[i].Open() && !old(rows)[i].Open() ==>
        && id in flows && rows[i].id == id && rows[i].user in accounts && accounts[rows[i].user].Eligible()
        && accounts[rows[i].user].email == Some(flows[id].destination)
      ensures forall i: nat :: i < |rows| && MayOpen(old(State()), ActivateRequest(id, commits), i) ==>
        OnlyOpen(rows, i)
    {
      hide Sound, OnlyOpen, MayOpen;
      StepKeeps(cfg, State(), ActivateRequest(id, commits));
      ActivationOpens(cfg, State(), id, commits);
      OpenedAlone(cfg, State(), id, commits);
      if id !in flows || !flows[id].stage.Delivered? {
        return;
      }
      var flow := flows[id];
      if !commits {
        flows := flows[id := flow.(stage := Cancelling)];
        return;
      }
      var activated := false;
      var latest := Latest(rows, flow.user, false);
      if flow.user in accounts && accounts[flow.user].Eligible() && accounts[flow.user].email == Some(flow.destination)
         && latest.Some? && rows[latest.value].id == id {
        var row := rows[latest.value];
        if row.Pending() && row.expiresAt > flow.at {
          rows := rows[latest.value := row.(activatedAt := Some(flow.at))];
          activated := true;
          rows := InvalidateOpen(rows, flow.user, id, flow.at);
        }
      }
      if !activated {
        rows := CancelPending(rows, id, flow.user, flow.at);
      }
      flows := flows[id := flow.(stage := Done)];
    }

    method CancelChallenge(id: int, commits: bool)
      requires Valid()
      modifies this
      ensures Valid()
      ensures State() == Cancel(old(State()), id, commits).db
      ensures accounts == old(accounts)
      ensures forall c <- rows :: c.Open() ==> c in old(rows)
      ensures commits && id in old(flows) && old(flows)[id].stage == Cancelling ==>
        forall c <- rows :: c.id == id && c.user == old(flows)[id].user ==> !c.Pending()
    {
      hide Sound;
      StepKeeps(cfg, State(), CancelRequest(id, commits));
      if id !in flows || !flows[id].stage.Cancelling? {
        return;
      }
      var flow := flows[id];
      if commits {
        rows := CancelPending(rows, id, flow.user, flow.at);
      }
      flows := flows[id := flow.(stage := Done)];
    }

    method VerifyChallenge(user: int, code: string, now: int) returns (reply: Reply)
      requires Valid()
      modifies this
      ensures Valid()
      ensures var o := Verify(cfg, old(State()), user, code, now); State() == o.db && reply == o.reply
      ensures reply.Verified? ==>
        user in accounts && accounts[user].verified && forall c <- rows :: c.user == user ==> !c.Open()
      ensures reply.Verified? <==>
        user in old(accounts) && old(accounts)[user].Eligible()
            && exists i: nat :: Answers(cfg, old(State()), user, code, now, i)
      ensures forall i: nat :: Misses(cfg, old(State()), VerifyRequest(user, code, now), i) ==>
        accounts == old(accounts) && rows == old(rows)[i := old(rows)[i].(attempts := old(rows)[i].attempts + 1)]
    {
      hide Sound, Judges;
      StepKeeps(cfg, State(), VerifyRequest(user, code, now));
      VerificationCloses(cfg, State(), user, code, now);
      MissIsCounted(cfg, State(), user, code, now);
      var eligible := user in accounts && accounts[user].Eligible();
      var latest := Latest(rows, user, true);
      if !eligible || latest.None? || rows[latest.value].expiresAt <= now
          || rows[latest.value].attempts >= cfg.maxAttempts {
        return Invalid;
      }
      var i, challenge := latest.value, rows[latest.value];
      if challenge.code != code {
        rows := rows[i := challenge.(attempts := challenge.attempts + 1)];
        return Invalid;
      }
      rows := rows[i := challenge.(usedAt := Some(now))];
      accounts := accounts[user := accounts[user].(verified := true)];
      rows := InvalidateOpen(rows, user, challenge.id, now);
      return Verified;
    }
  }
}
