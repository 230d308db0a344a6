/**
 Email verification (services/email_verification_service.py and its repository): a challenge
 is issued in one transaction, delivered, and activated or cancelled in a later one, while
 other requests of the same user run in between.
 */
module EmailVerification {
  import opened Common
  import opened IssueLimits

  datatype Account = Account(active: bool, email: Option<string>, verified: bool) {
    // `_eligible`
    predicate Eligible() {
      active && email.Some? && email.value != "" && !verified
    }
  }

  // `issuedAt` is the time the issuing request read; the row keeps only its rounding, `createdAt`.
  datatype Challenge = Challenge(
    id: int, user: int, code: string, expiresAt: int, attempts: int,
    activatedAt: Option<int>, usedAt: Option<int>, createdAt: int, issuedAt: int)
  {
    predicate Pending() {
      activatedAt.None? && usedAt.None?
    }

    predicate Open() {
      activatedAt.Some? && usedAt.None?
    }
  }

  datatype Stage = Issued | Delivered | Cancelling | Done

  // What a resend request holds between its transactions; `at` is the time it read first.
  datatype Flow = Flow(user: int, destination: string, at: int, stage: Stage)

  datatype Config = Config(lifetime: int, cooldown: int, hourlyLimit: int, maxAttempts: int) {
    predicate Valid() {
      lifetime > 0 && Whole(lifetime) && cooldown > 0 && Whole(cooldown) && hourlyLimit >= 1 && maxAttempts >= 1
    }
  }

  datatype Db = Db(accounts: map<int, Account>, rows: seq<Challenge>, flows: map<int, Flow>)

  datatype Reply = Accepted | Unavailable | RateLimited(retryAfter: int) | Verified | Invalid

  datatype Outcome = Outcome(db: Db, reply: Reply)

  /******* Queries *******/

  function IssueLog(rows: seq<Challenge>): (log: seq<Issue>)
    ensures |log| == |rows| && forall i :: 0 <= i < |rows| ==>
        log[i] == Issue(rows[i].user, rows[i].issuedAt, rows[i].createdAt)
  {
    seq(|rows|, i requires 0 <= i < |rows| => Issue(rows[i].user, rows[i].issuedAt, rows[i].createdAt))
  }

  predicate Later(a: Challenge, b: Challenge) {
    a.createdAt > b.createdAt || (a.createdAt == b.createdAt && a.id > b.id)
  }

  // ORDER BY created_at DESC, id DESC LIMIT 1; `openOnly` adds the active-and-unused condition.
  function Latest(rows: seq<Challenge>, user: int, openOnly: bool): (r: Option<nat>)
    ensures r.Some? ==> r.value < |rows| && rows[r.value].user == user && (openOnly ==> rows[r.value].Open())
    ensures r.Some? ==> forall c <- rows :: c.user == user && (openOnly ==> c.Open()) ==> !Later(c, rows[r.value])
    ensures r.None? ==> forall c <- rows :: !(c.user == user && (openOnly ==> c.Open()))
  {
    if rows == [] then None
    else
      var n := |rows| - 1;
      var best := Latest(rows[..n], user, openOnly);
      assert rows == rows[..n] + [rows[n]];
      if rows[n].user == user && (openOnly ==> rows[n].Open()) && (best.None? || Later(rows[n], rows[best.value]))
      then Some(n) else best
  }

  // `get_oldest_created_since`
  function OldestSince(rows: seq<Challenge>, user: int, since: int): (r: Option<int>)
    ensures r.None? <==> CountSince(IssueLog(rows), user, since) == 0
    ensures r.Some? ==> r.value >= since && exists e <- IssueLog(rows) :: e.user == user && e.at == r.value
    ensures forall c <- rows :: c.user == user && c.createdAt >= since ==> r.Some? && c.createdAt >= r.value
  {
    if rows == [] then None
    else
      var n := |rows| - 1;
      var best := OldestSince(rows[..n], user, since);
      assert IssueLog(rows)[..n] == IssueLog(rows[..n]);
      assert rows == rows[..n] + [rows[n]]
          && IssueLog(rows)[n] == Issue(rows[n].user, rows[n].issuedAt, rows[n].createdAt);
      if rows[n].user == user && rows[n].createdAt >= since && (best.None? || rows[n].createdAt < best.value)
      then Some(rows[n].createdAt) else best
  }

  /******* Updates *******/

  function CancelRow(c: Challenge, id: int, user: int, now: int): Challenge {
    if c.id == id && c.user == user && c.Pending() then c.(usedAt := Some(now)) else c
  }

  function CancelPending(rows: seq<Challenge>, id: int, user: int, now: int): (r: seq<Challenge>)
    ensures |r| == |rows| && forall i :: 0 <= i < |rows| ==> r[i] == CancelRow(rows[i], id, user, now)
  {
    seq(|rows|, i requires 0 <= i < |rows| => CancelRow(rows[i], id, user, now))
  }

  function InvalidateRow(c: Challenge, user: int, spared: int, now: int): Challenge {
    if c.user == user && c.Open() && c.id != spared then c.(usedAt := Some(now)) else c
  }

  function InvalidateOpen(rows: seq<Challenge>, user: int, spared: int, now: int): (r: seq<Challenge>)
    ensures |r| == |rows| && forall i :: 0 <= i < |rows| ==> r[i] == InvalidateRow(rows[i], user, spared, now)
  {
    seq(|rows|, i requires 0 <= i < |rows| => InvalidateRow(rows[i], user, spared, now))
  }

  // Primary key.
  ghost predicate DistinctIds(rows: seq<Challenge>) {
    forall i, j :: 0 <= i < j < |rows| ==> rows[i].id != rows[j].id
  }

  /** A cancellation closes the one challenge of that id and user if it is pending, and nothing else. */
  lemma CancelClosesOne(rows: seq<Challenge>, id: int, user: int, now: int)
    requires DistinctIds(rows)
    ensures var after := CancelPending(rows, id, user, now);
      && |after| == |rows|
      && (forall c <- after :: !(c.id == id && c.user == user && c.Pending()))
      && (forall k :: 0 <= k < |rows| && after[k] != rows[k] ==>
            rows[k].id == id && rows[k].user == user && rows[k].Pending() && after[k] == rows[k].(usedAt := Some(now)))
      && forall j, k :: 0 <= j < |rows| && 0 <= k < |rows| && after[j] != rows[j] && after[k] != rows[k] ==> j == k
  {
    assert forall j, k :: 0 <= j < |rows| && 0 <= k < |rows| && rows[j].id == rows[k].id ==> j == k;
  }

  /** Afterwards the user has no open challenge but the spared one; every other row is as it was,
      and what was closed changed in nothing else. */
  lemma OnlySparedStaysOpen(rows: seq<Challenge>, user: int, spared: int, now: int)
    ensures var after := InvalidateOpen(rows, user, spared, now);
      && |after| == |rows|
      && (forall c <- after :: c.user == user && c.Open() ==> c.id == spared)
      && (forall k :: 0 <= k < |rows| && after[k] != rows[k] ==>
          rows[k].user == user && rows[k].Open() && rows[k].id != spared)
      && forall k :: 0 <= k < |rows| ==> after[k].(usedAt := rows[k].usedAt) == rows[k]
  {
  }

  /******* Transactions *******/

  function Max(a: int, b: int): int {
    if a < b then b else a
  }

  // `int(seconds)` of a duration: Python truncates toward zero.
  function WholeSeconds(d: int): int {
    if d >= 0 then d / SECOND else -((-d) / SECOND)
  }

  function NewChallenge(cfg: Config, id: int, user: int, code: string, now: int): Challenge {
    Challenge(id, user, code, Stored(now + cfg.lifetime), 0, None, None, Stored(now), now)
  }

  // `resend`, first transaction.
  function Resend(cfg: Config, db: Db, user: int, provider: bool, now: int, id: int, code: string): Outcome {
    if user !in db.accounts || !db.accounts[user].Eligible() then Outcome(db, Accepted)
    else if !provider then Outcome(db, Unavailable)
    else
      var latest := Latest(db.rows, user, false);
      if latest.Some? && now - db.rows[latest.value].createdAt < cfg.cooldown then
        Outcome(db, RateLimited(CooldownHint(cfg, now - db.rows[latest.value].createdAt)))
      else if CountSince(IssueLog(db.rows), user, now - HOUR) >= cfg.hourlyLimit then
        var oldest := OldestSince(db.rows, user, now - HOUR);
        Outcome(db, RateLimited(if oldest.None? then 3600 else HourlyHint(now - oldest.value)))
      else
        Outcome(db.(rows := db.rows + [NewChallenge(cfg, id, user, code, now)],
                    flows := db.flows[id := Flow(user, db.accounts[user].email.value, now, Issued)]), Accepted)
  }

  function CooldownHint(cfg: Config, age: int): int {
    Max(1, cfg.cooldown / SECOND - Max(0, WholeSeconds(age)))
  }

  function HourlyHint(age: int): int {
    Max(1, 3600 - Max(0, WholeSeconds(age)))
  }

  function Move(db: Db, id: int, stage: Stage): Db
    requires id in db.flows
  {
    db.(flows := db.flows[id := db.flows[id].(stage := stage)])
  }

  // Delivery; a failure leads to `_cancel_pending`.
  function Deliver(db: Db, id: int, delivered: bool): Outcome {
    if id in db.flows && db.flows[id].stage.Issued?
    then Outcome(Move(db, id, if delivered then Delivered else Cancelling), Accepted)
    else Outcome(db, Accepted)
  }

  // The row the second transaction would open: still pending, newest, sent to the current address.
  function Opening(db: Db, id: int): (r: Option<nat>)
    requires id in db.flows
    ensures r.Some? ==> r.value < |db.rows| && db.rows[r.value].id == id && db.rows[r.value].Pending()
    ensures r.Some? ==> db.rows[r.value].user == db.flows[id].user && db.flows[id].user in db.accounts
    ensures r.Some? ==> db.accounts[db.flows[id].user].Eligible()
  {
    var flow := db.flows[id];
    var latest := Latest(db.rows, flow.user, false);
    if flow.user in db.accounts && db.accounts[flow.user].Eligible()
        && db.accounts[flow.user].email == Some(flow.destination)
       && latest.Some? && db.rows[latest.value].id == id && db.rows[latest.value].Pending()
       && db.rows[latest.value].expiresAt > flow.at
    then latest else None
  }

  // `resend`, second transaction: activate and close the others, or cancel.
  function Activate(db: Db, id: int, commits: bool): Outcome {
    if id !in db.flows || !db.flows[id].stage.Delivered? then Outcome(db, Accepted)
    else if !commits then Outcome(Move(db, id, Cancelling), Unavailable)
    else
      var flow, i := db.flows[id], Opening(db, id);
      if i.Some? then
        var activated := db.rows[i.value := db.rows[i.value].(activatedAt := Some(flow.at))];
        Outcome(Move(db.(rows := InvalidateOpen(activated, flow.user, id, flow.at)), id, Done), Accepted)
      else
        Outcome(Move(db.(rows := CancelPending(db.rows, id, flow.user, flow.at)), id, Done), Accepted)
  }

  // `_cancel_pending`; its failure is swallowed.
  function Cancel(db: Db, id: int, commits: bool): Outcome {
    if id !in db.flows || !db.flows[id].stage.Cancelling? then Outcome(db, Unavailable)
    else
      var flow := db.flows[id];
      var rows := if commits then CancelPending(db.rows, id, flow.user, flow.at) else db.rows;
      Outcome(Move(db.(rows := rows), id, Done), Unavailable)
  }

  function Verify(cfg: Config, db: Db, user: int, code: string, now: int): Outcome {
    var latest := Latest(db.rows, user, true);
    if user !in db.accounts || !db.accounts[user].Eligible() || latest.None?
       || db.rows[latest.value].expiresAt <= now || db.rows[latest.value].attempts >= cfg.maxAttempts
    then Outcome(db, Invalid)
    else
      var i, c := latest.value, db.rows[latest.value];
      if c.code != code then Outcome(db.(rows := db.rows[i := c.(attempts := c.attempts + 1)]), Invalid)
      else
        Outcome(db.(rows := InvalidateOpen(db.rows[i := c.(usedAt := Some(now))], user, c.id, now),
                    accounts := db.accounts[user := db.accounts[user].(verified := true)]), Verified)
  }

  /******* Runs *******/

  datatype Request =
    // Account administration: anything may change except that no step withdraws a verification.
    | SetAccount(user: int, active: bool, email: Option<string>)
    | ResendRequest(user: int, provider: bool, now: int, id: int, code: string)
    | DeliverRequest(id: int, delivered: bool)
    | ActivateRequest(id: int, commits: bool)
    | CancelRequest(id: int, commits: bool)
    | VerifyRequest(user: int, code: string, now: int)

  function Handle(cfg: Config, db: Db, r: Request): Outcome {
    match r
    case SetAccount(user, active, email) =>
      var verified := user in db.accounts && db.accounts[user].verified;
      Outcome(db.(accounts := db.accounts[user := Account(active, email, verified)]), Accepted)
    case ResendRequest(user, provider, now, id, code) => Resend(cfg, db, user, provider, now, id, code)
    case DeliverRequest(id, delivered) => Deliver(db, id, delivered)
    case ActivateRequest(id, commits) => Activate(db, id, commits)
    case CancelRequest(id, commits) => Cancel(db, id, commits)
    case VerifyRequest(user, code, now) => Verify(cfg, db, user, code, now)
  }

  // Generated challenge ids are new.  No assumption is made about any clock.
  predicate Fresh(db: Db, r: Request) {
    r.ResendRequest? ==> r.id !in db.flows
  }

  function Run(cfg: Config, db: Db, rs: seq<Request>): Db
    decreases |rs|
  {
    if rs == [] then db else Run(cfg, Handle(cfg, db, rs[0]).db, rs[1..])
  }

  predicate FreshRun(cfg: Config, db: Db, rs: seq<Request>)
    decreases |rs|
  {
    rs == [] || (Fresh(db, rs[0]) && FreshRun(cfg, Handle(cfg, db, rs[0]).db, rs[1..]))
  }

  const EMPTY: Db := Db(map[], [], map[])

  /******* Invariant *******/

  ghost predicate RowOk(cfg: Config, c: Challenge, accounts: map<int, Account>, flows: map<int, Flow>) {
    && 0 <= c.attempts <= cfg.maxAttempts
    && c.user in accounts && c.id in flows && flows[c.id].user == c.user
    && (c.activatedAt.Some? ==> flows[c.id].stage.Done?)
    && (accounts[c.user].verified ==> !c.Open())
  }

  // One open challenge per user at most, none once verified, and the issue limits.
  ghost predicate Sound(cfg: Config, db: Db) {
    && Paced(IssueLog(db.rows), cfg.cooldown, cfg.hourlyLimit)
    && DistinctIds(db.rows)
    && (forall i, j :: 0 <= i < j < |db.rows| && db.rows[i].user == db.rows[j].user ==>
        !(db.rows[i].Open() && db.rows[j].Open()))
    && (forall i :: 0 <= i < |db.rows| ==> RowOk(cfg, db.rows[i], db.accounts, db.flows))
  }

  lemma SameLog(before: seq<Challenge>, after: seq<Challenge>)
    requires |after| == |before|
    requires forall i :: 0 <= i < |before| ==>
      after[i].user == before[i].user && after[i].createdAt == before[i].createdAt
          && after[i].issuedAt == before[i].issuedAt
    ensures IssueLog(after) == IssueLog(before)
  {
  }

  lemma ResendStep(cfg: Config, db: Db, r: Request)
    requires cfg.Valid() && r.ResendRequest? && Sound(cfg, db) && Fresh(db, r)
    ensures Sound(cfg, Handle(cfg, db, r).db)
  {
    hide Paced, CooldownHint, HourlyHint, OldestSince;
    var o := Resend(cfg, db, r.user, r.provider, r.now, r.id, r.code);
    if o.db != db {
      var log := IssueLog(db.rows);
      forall e | e in log && e.user == r.user
        ensures r.now - e.at >= cfg.cooldown
      {
        var i :| 0 <= i < |log| && log[i] == e;
        assert db.rows[i] in db.rows;
      }
      IssueKeepsPace(log, Issue(r.user, r.now, Stored(r.now)), cfg.cooldown, cfg.hourlyLimit);
      assert IssueLog(o.db.rows) == log + [Issue(r.user, r.now, Stored(r.now))];
      forall i | 0 <= i < |o.db.rows|
        ensures RowOk(cfg, o.db.rows[i], o.db.accounts, o.db.flows) && (i < |db.rows| ==> o.db.rows[i].id != r.id)
      {
        assert i < |db.rows| ==> RowOk(cfg, db.rows[i], db.accounts, db.flows);
      }
    }
  }

  lemma MoveStep(cfg: Config, db: Db, id: int, stage: Stage)
    requires Sound(cfg, db) && id in db.flows && !db.flows[id].stage.Done?
    ensures Sound(cfg, Move(db, id, stage))
  {
    hide Paced;
    var after := Move(db, id, stage);
    forall i | 0 <= i < |db.rows|
      ensures RowOk(cfg, db.rows[i], after.accounts, after.flows)
    {
      assert RowOk(cfg, db.rows[i], db.accounts, db.flows);
    }
  }

  // Rows that only get closed, or gain wrong attempts, keep everything.
  lemma ClosingStep(cfg: Config, db: Db, rows: seq<Challenge>)
    requires Sound(cfg, db) && |rows| == |db.rows|
    requires forall i :: 0 <= i < |rows| ==>
      && rows[i].(usedAt := db.rows[i].usedAt, attempts := db.rows[i].attempts) == db.rows[i]
      && 0 <= rows[i].attempts <= cfg.maxAttempts && (rows[i].usedAt.None? ==> db.rows[i].usedAt.None?)
    ensures Sound(cfg, db.(rows := rows))
  {
    hide Paced;
    assert forall i :: 0 <= i < |rows| ==> rows[i].id == db.rows[i].id;
    assert forall i :: 0 <= i < |rows| ==> rows[i].user == db.rows[i].user;
    assert forall i :: 0 <= i < |rows| ==> rows[i].createdAt == db.rows[i].createdAt;
    assert forall i :: 0 <= i < |rows| ==> rows[i].issuedAt == db.rows[i].issuedAt;
    assert forall i :: 0 <= i < |rows| ==> rows[i].activatedAt == db.rows[i].activatedAt;
    SameLog(db.rows, rows);
    forall i | 0 <= i < |rows|
      ensures RowOk(cfg, rows[i], db.accounts, db.flows)
    {
      assert RowOk(cfg, db.rows[i], db.accounts, db.flows);
    }
  }

  lemma CancelStep(cfg: Config, db: Db, id: int, user: int, now: int)
    requires Sound(cfg, db)
    ensures Sound(cfg, db.(rows := CancelPending(db.rows, id, user, now)))
  {
    hide Paced;
    var rows := CancelPending(db.rows, id, user, now);
    forall i | 0 <= i < |rows|
      ensures rows[i].(usedAt := db.rows[i].usedAt, attempts := db.rows[i].attempts) == db.rows[i]
      ensures 0 <= rows[i].attempts <= cfg.maxAttempts && (rows[i].usedAt.None? ==> db.rows[i].usedAt.None?)
    {
      assert RowOk(cfg, db.rows[i], db.accounts, db.flows);
    }
    ClosingStep(cfg, db, rows);
  }

  lemma OpenStep(cfg: Config, db: Db, id: int)
    requires Sound(cfg, db) && id in db.flows && db.flows[id].stage.Delivered? && Opening(db, id).Some?
    ensures Sound(cfg, Activate(db, id, true).db)
  {
    hide Paced, Latest;
    var flow, i := db.flows[id], Opening(db, id).value;
    var activated := db.rows[i := db.rows[i].(activatedAt := Some(flow.at))];
    var after := Activate(db, id, true).db;
    assert after.rows == InvalidateOpen(activated, flow.user, id, flow.at);
    SameLog(db.rows, after.rows);
    forall k | 0 <= k < |after.rows|
      ensures RowOk(cfg, after.rows[k], after.accounts, after.flows)
    {
      assert RowOk(cfg, db.rows[k], db.accounts, db.flows);
    }
  }

  lemma ActivateStep(cfg: Config, db: Db, r: Request)
    requires r.ActivateRequest? && Sound(cfg, db)
    ensures Sound(cfg, Handle(cfg, db, r).db)
  {
    hide Sound, Opening, Latest;
    if r.id in db.flows && db.flows[r.id].stage.Delivered? {
      var flow := db.flows[r.id];
      if !r.commits {
        MoveStep(cfg, db, r.id, Cancelling);
      } else if Opening(db, r.id).Some? {
        OpenStep(cfg, db, r.id);
      } else {
        CancelStep(cfg, db, r.id, flow.user, flow.at);
        MoveStep(cfg, db.(rows := CancelPending(db.rows, r.id, flow.user, flow.at)), r.id, Done);
      }
    }
  }

  lemma CancellingStep(cfg: Config, db: Db, r: Request)
    requires (r.CancelRequest? || r.DeliverRequest?) && Sound(cfg, db)
    ensures Sound(cfg, Handle(cfg, db, r).db)
  {
    hide Sound;
    var o := Handle(cfg, db, r);
    if r.DeliverRequest? {
      if o.db != db {
        MoveStep(cfg, db, r.id, if r.delivered then Delivered else Cancelling);
      }
    } else if r.id in db.flows && db.flows[r.id].stage.Cancelling? {
      var flow := db.flows[r.id];
      CancelStep(cfg, db, r.id, flow.user, flow.at);
      MoveStep(cfg, db.(rows := if r.commits then CancelPending(db.rows, r.id, flow.user, flow.at)
          else db.rows), r.id, Done);
    }
  }

  lemma VerifyStep(cfg: Config, db: Db, r: Request)
    requires r.VerifyRequest? && Sound(cfg, db)
    ensures Sound(cfg, Handle(cfg, db, r).db)
    ensures Handle(cfg, db, r).reply.Verified? ==> Handle(cfg, db, r).db.accounts[r.user].verified
  {
    hide Paced, Latest;
    var o := Verify(cfg, db, r.user, r.code, r.now);
    if o.db != db {
      var i := Latest(db.rows, r.user, true).value;
      forall k | 0 <= k < |db.rows|
        ensures 0 <= o.db.rows[k].attempts <= cfg.maxAttempts
      {
        assert RowOk(cfg, db.rows[k], db.accounts, db.flows);
      }
      ClosingStep(cfg, db, o.db.rows);
      if o.reply.Verified? {
        var closed := db.(rows := o.db.rows);
        forall k | 0 <= k < |db.rows|
          ensures RowOk(cfg, o.db.rows[k], o.db.accounts, o.db.flows)
        {
          assert RowOk(cfg, closed.rows[k], closed.accounts, closed.flows);
        }
      }
    }
  }

  lemma AccountStep(cfg: Config, db: Db, r: Request)
    requires r.SetAccount? && Sound(cfg, db)
    ensures Sound(cfg, Handle(cfg, db, r).db)
  {
    hide Paced;
    var after := Handle(cfg, db, r).db;
    forall i | 0 <= i < |db.rows|
      ensures RowOk(cfg, db.rows[i], after.accounts, db.flows)
    {
      assert RowOk(cfg, db.rows[i], db.accounts, db.flows);
    }
  }

  lemma StepKeeps(cfg: Config, db: Db, r: Request)
    requires cfg.Valid() && Sound(cfg, db) && Fresh(db, r)
    ensures Sound(cfg, Handle(cfg, db, r).db)
  {
    hide Sound, Handle;
    match r
    case SetAccount(_, _, _) => AccountStep(cfg, db, r);
    case ResendRequest(_, _, _, _, _) => ResendStep(cfg, db, r);
    case DeliverRequest(_, _) => CancellingStep(cfg, db, r);
    case ActivateRequest(_, _) => ActivateStep(cfg, db, r);
    case CancelRequest(_, _) => CancellingStep(cfg, db, r);
    case VerifyRequest(_, _, _) => VerifyStep(cfg, db, r);
  }

  lemma {:induction false} RunKeeps(cfg: Config, db: Db, rs: seq<Request>)
    requires cfg.Valid() && Sound(cfg, db) && FreshRun(cfg, db, rs)
    ensures Sound(cfg, Run(cfg, db, rs))
    decreases |rs|
  {
    hide Sound, Handle, Fresh;
    if rs != [] {
      StepKeeps(cfg, db, rs[0]);
      RunKeeps(cfg, Handle(cfg, db, rs[0]).db, rs[1..]);
    }
  }

  /******* What every run promises *******/

  ghost predicate Reachable(cfg: Config, db: Db) {
    cfg.Valid() && exists rs: seq<Request> :: FreshRun(cfg, EMPTY, rs) && Run(cfg, EMPTY, rs) == db
  }

  /** In every interleaving, whatever any clock reads: at most one open challenge per user, none
      once the address is verified; issue limits and attempt limits hold. */
  lemma ChallengesStaySafe(cfg: Config, db: Db, user: int, from: int)
    requires Reachable(cfg, db)
    ensures forall i, j | 0 <= i < |db.rows| && 0 <= j < |db.rows| && db.rows[i].user == db.rows[j].user ::
              db.rows[i].Open() && db.rows[j].Open() ==> i == j
    ensures forall i :: 0 <= i < |db.rows| && db.rows[i].Open() ==>
              db.rows[i].user in db.accounts && !db.accounts[db.rows[i].user].verified
    ensures forall i, j :: 0 <= i < j < |db.rows| && db.rows[i].user == db.rows[j].user ==>
              db.rows[j].createdAt - db.rows[i].createdAt >= cfg.cooldown
    ensures InHour(IssueLog(db.rows), user, from) <= cfg.hourlyLimit
    ensures InClosedHour(IssueLog(db.rows), user, from) <= cfg.hourlyLimit + 1
    ensures ClosedHoursHold(IssueLog(db.rows), user, cfg.hourlyLimit)
       <==> NeverOnTheHour(IssueLog(db.rows), user, cfg.hourlyLimit)
    ensures forall i :: 0 <= i < |db.rows| ==> db.rows[i].attempts <= cfg.maxAttempts
  {
    hide Run, FreshRun, InHour, InClosedHour, NeverOnTheHour;
    var rs :| FreshRun(cfg, EMPTY, rs) && Run(cfg, EMPTY, rs) == db;
    RunKeeps(cfg, EMPTY, rs);
    HourlyWindow(IssueLog(db.rows), user, from, cfg.cooldown, cfg.hourlyLimit);
    ClosedHourIsExact(IssueLog(db.rows), user, cfg.cooldown, cfg.hourlyLimit);
    forall i | 0 <= i < |db.rows|
      ensures RowOk(cfg, db.rows[i], db.accounts, db.flows)
    {
    }
    forall i, j | 0 <= i < j < |db.rows| && db.rows[i].user == db.rows[j].user
      ensures db.rows[j].createdAt - db.rows[i].createdAt >= cfg.cooldown
    {
      Gap(IssueLog(db.rows), i, j, cfg.cooldown, cfg.hourlyLimit);
    }
  }

  // The user may be sent a challenge apart from the limits.
  predicate Allowed(db: Db, user: int) {
    user in db.accounts && db.accounts[user].Eligible()
  }

  /** A challenge opens only when its own request activates it: delivered, still the newest, and
      sent to the address the account has at that moment. */
  lemma OpensOnlyDelivered(cfg: Config, db: Db, r: Request, i: nat)
    requires i < |Handle(cfg, db, r).db.rows| && Handle(cfg, db, r).db.rows[i].Open()
    requires i < |db.rows| ==> !db.rows[i].Open()
    ensures r.ActivateRequest? && r.commits && r.id in db.flows && db.flows[r.id].stage.Delivered?
    ensures i < |db.rows| && db.rows[i].id == r.id && db.rows[i].expiresAt > db.flows[r.id].at
    ensures db.rows[i].user in db.accounts && db.accounts[db.rows[i].user].Eligible()
    ensures db.accounts[db.rows[i].user].email == Some(db.flows[r.id].destination)
    ensures forall c <- db.rows :: c.user == db.rows[i].user ==> !Later(c, db.rows[i])
  {
    hide CountSince, CooldownHint, HourlyHint, OldestSince;
  }

  // An open challenge of the user that the code answers in time.
  ghost predicate Answers(cfg: Config, db: Db, user: int, code: string, now: int, i: nat) {
    && i < |db.rows| && db.rows[i].user == user && db.rows[i].Open() && db.rows[i].code == code
    && db.rows[i].expiresAt > now && db.rows[i].attempts < cfg.maxAttempts
  }

  /** An address becomes verified exactly by the code of the user's open, live challenge. */
  lemma VerifiedExactlyByCode(cfg: Config, db: Db, r: Request, user: int)
    requires Sound(cfg, db) && (user in db.accounts ==> !db.accounts[user].verified)
    ensures var after := Handle(cfg, db, r).db;
      (user in after.accounts && after.accounts[user].verified) <==>
        && r.VerifyRequest? && r.user == user
        && user in db.accounts && db.accounts[user].Eligible()
        && exists i: nat :: Answers(cfg, db, user, r.code, r.now, i)
  {
    hide CountSince, CooldownHint, HourlyHint, OldestSince, Paced;
    if r.VerifyRequest? && r.user == user {
      var latest := Latest(db.rows, user, true);
      if latest.Some? && Handle(cfg, db, r).reply.Verified? {
        assert Answers(cfg, db, user, r.code, r.now, latest.value);
      }
      if i: nat :| Answers(cfg, db, user, r.code, r.now, i) {
        assert db.rows[i] in db.rows;
        assert latest == Some(i);
      }
    }
  }

  // The newest challenge of the user is younger than the cooldown.
  predicate Cooling(cfg: Config, db: Db, user: int, now: int) {
    var latest := Latest(db.rows, user, false);
    latest.Some? && now - db.rows[latest.value].createdAt < cfg.cooldown
  }

  /** Waiting out the cooldown hint ends the cooldown exactly when the newest challenge is not
      dated in the future. */
  lemma CooldownHintSuffices(cfg: Config, db: Db, r: Request)
    requires cfg.Valid()
    requires r.ResendRequest? && Allowed(db, r.user) && r.provider && Cooling(cfg, db, r.user, r.now)
    ensures Handle(cfg, db, r).reply.RateLimited?
    ensures !Cooling(cfg, db, r.user, r.now + Handle(cfg, db, r).reply.retryAfter * SECOND)
       <==> r.now >= db.rows[Latest(db.rows, r.user, false).value].createdAt
  {
    var age := r.now - db.rows[Latest(db.rows, r.user, false).value].createdAt;
    var hint := CooldownHint(cfg, age);
    assert age >= 0 ==> age + hint * SECOND >= cfg.cooldown;
    assert age < 0 ==> hint == cfg.cooldown / SECOND;
  }

  lemma {:induction false} CountMoves(log: seq<Issue>, user: int, early: int, late: int)
    requires early <= late
    ensures CountSince(log, user, late) <= CountSince(log, user, early)
    ensures CountSince(log, user, late) == CountSince(log, user, early)
       <==> forall e <- log :: e.user == user ==> !(early <= e.at < late)
  {
    if log != [] {
      var init, last := log[..|log| - 1], log[|log| - 1];
      assert log == init + [last];
      CountMoves(init, user, early, late);
    }
  }

  // Whether the wait takes an issue of that age out of the hour.
  lemma HourlyWait(age: int)
    requires 0 <= age <= HOUR
    ensures HourlyHint(age) >= 1
    ensures age + HourlyHint(age) * SECOND > HOUR <==> age % SECOND != 0 || age == HOUR
  {
  }

  /** Waiting out the hourly hint is enough exactly when the age of the oldest challenge in the
      window is not a whole number of seconds: the window is closed, so otherwise that
      challenge is still counted. */
  lemma HourlyHintSuffices(cfg: Config, db: Db, r: Request)
    requires Sound(cfg, db) && cfg.Valid() && r.ResendRequest? && Allowed(db, r.user) && r.provider
    requires !Cooling(cfg, db, r.user, r.now) && Handle(cfg, db, r).reply.RateLimited?
    ensures var oldest := OldestSince(db.rows, r.user, r.now - HOUR);
      && oldest.Some?
      && var again := ResendRequest(r.user, true, r.now + Handle(cfg, db, r).reply.retryAfter * SECOND, r.id, r.code);
         (!Handle(cfg, db, again).reply.RateLimited? <==>
             (r.now - oldest.value) % SECOND != 0 || r.now - oldest.value == HOUR)
  {
    hide Sound, OldestSince, Latest, CountSince, HourlyHint, CooldownHint, NewChallenge, IssueLog;
    var log := IssueLog(db.rows);
    var oldest := OldestSince(db.rows, r.user, r.now - HOUR).value;
    var age := r.now - oldest;
    var hint := HourlyHint(age);
    var later := r.now + hint * SECOND;
    NotFuture(cfg, db, r.user, r.now);
    FullHour(cfg, db, r.user, r.now);
    assert 0 <= age <= HOUR;
    HourlyWait(age);
    CountMoves(log, r.user, r.now - HOUR, later - HOUR);
    forall e | e in log && e.user == r.user && e.at >= r.now - HOUR
      ensures e.at >= oldest
    {
      var i :| 0 <= i < |log| && log[i] == e;
      assert db.rows[i] in db.rows;
    }
  }

  lemma NotFuture(cfg: Config, db: Db, user: int, now: int)
    requires cfg.Valid() && !Cooling(cfg, db, user, now)
    ensures forall e <- IssueLog(db.rows) :: e.user == user ==> e.at < now
  {
    var log := IssueLog(db.rows);
    forall e | e in log && e.user == user
      ensures e.at < now
    {
      var i :| 0 <= i < |log| && log[i] == e;
      assert db.rows[i] in db.rows;
    }
  }

  lemma FullHour(cfg: Config, db: Db, user: int, now: int)
    requires Sound(cfg, db) && cfg.Valid() && forall e <- IssueLog(db.rows) :: e.user == user ==> e.at < now
    ensures CountSince(IssueLog(db.rows), user, now - HOUR) <= cfg.hourlyLimit
  {
    hide CountSince, CountBetween;
    AllBefore(IssueLog(db.rows), user, now - HOUR, now);
    HourlyWindow(IssueLog(db.rows), user, now - HOUR, cfg.cooldown, cfg.hourlyLimit);
  }

  /******* What one transaction leaves *******/

  lemma ActivationOpens(cfg: Config, db: Db, id: int, commits: bool)
    ensures var after := Activate(db, id, commits).db;
      && after.accounts == db.accounts && |after.rows| == |db.rows|
      && forall i :: 0 <= i < |db.rows| && after.rows[i].Open() && !db.rows[i].Open() ==>
          && id in after.flows && after.rows[i].id == id && after.rows[i].user in db.accounts
          && db.accounts[after.rows[i].user].Eligible()
          && db.accounts[after.rows[i].user].email == Some(after.flows[id].destination)
  {
    hide Latest;
  }

  lemma VerificationCloses(cfg: Config, db: Db, user: int, code: string, now: int)
    requires Sound(cfg, db)
    ensures var o := Verify(cfg, db, user, code, now);
      && (o.reply.Verified? <==>
            user in db.accounts && db.accounts[user].Eligible()
                && exists i: nat :: Answers(cfg, db, user, code, now, i))
      && (o.reply.Verified? ==> forall c <- o.db.rows :: c.user == user ==> !c.Open())
  {
    hide Paced, Latest;
    if user in db.accounts && !db.accounts[user].verified {
      VerifiedExactlyByCode(cfg, db, VerifyRequest(user, code, now), user);
    }
    var o := Verify(cfg, db, user, code, now);
    if o.reply.Verified? {
      var i := Latest(db.rows, user, true).value;
      OnlySparedStaysOpen(db.rows[i := db.rows[i].(usedAt := Some(now))], user, db.rows[i].id, now);
    }
  }
}
