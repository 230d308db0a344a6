/**
 What a resend achieves: when a challenge is issued, when it opens, that the mailed code verifies
 the address, and that wrong codes are counted until the challenge is worn out.
 */
module EmailProgress {
  import opened Common
  import opened IssueLimits
  import opened EmailVerification

  /******* The newest challenge *******/

  // The user's challenge that no other challenge of the user is newer than.
  ghost predicate Newest(rows: seq<Challenge>, user: int, i: nat) {
    i < |rows| && rows[i].user == user && forall c <- rows :: c.user == user ==> c.createdAt <= rows[i].createdAt
  }

  lemma NewestIsLatest(cfg: Config, db: Db, user: int)
    requires cfg.Valid() && Sound(cfg, db)
    ensures Latest(db.rows, user, false).Some? ==> Newest(db.rows, user, Latest(db.rows, user, false).value)
    ensures forall i: nat :: Newest(db.rows, user, i) ==> Latest(db.rows, user, false) == Some(i)
  {
    hide Latest;
    var latest := Latest(db.rows, user, false);
    forall i: nat | Newest(db.rows, user, i)
      ensures latest == Some(i)
    {
      var c := db.rows[i];
      assert c in db.rows && db.rows[latest.value] in db.rows;
      SameTimeSameRow(cfg, db, i, latest.value);
    }
  }

  lemma SameTimeSameRow(cfg: Config, db: Db, i: nat, j: nat)
    requires cfg.Valid() && Sound(cfg, db) && i < |db.rows| && j < |db.rows| && db.rows[i].user == db.rows[j].user
    ensures db.rows[i].createdAt == db.rows[j].createdAt ==> i == j
  {
    if i < j {
      Gap(IssueLog(db.rows), i, j, cfg.cooldown, cfg.hourlyLimit);
    } else if j < i {
      Gap(IssueLog(db.rows), j, i, cfg.cooldown, cfg.hourlyLimit);
    }
  }

  // The user's open challenge is the one the query for open challenges finds.
  lemma OpenIsLatest(cfg: Config, db: Db, user: int)
    requires Sound(cfg, db)
    ensures forall i: nat :: i < |db.rows| && db.rows[i].user == user && db.rows[i].Open() ==>
        Latest(db.rows, user, true) == Some(i)
  {
    hide Latest, Paced;
    var latest := Latest(db.rows, user, true);
    forall i: nat | i < |db.rows| && db.rows[i].user == user && db.rows[i].Open()
      ensures latest == Some(i)
    {
      var c := db.rows[i];
      assert c in db.rows;
    }
  }

  /******* Issuing *******/

  // The challenges of the user created at or after a time.
  function CreatedSince(rows: seq<Challenge>, user: int, since: int): set<int> {
    set i | 0 <= i < |rows| && rows[i].user == user && rows[i].createdAt >= since
  }

  // The account is active with an address that is not verified yet.
  predicate Unverified(db: Db, user: int) {
    && user in db.accounts && db.accounts[user].active && !db.accounts[user].verified
    && db.accounts[user].email.Some? && db.accounts[user].email.value != ""
  }

  ghost predicate WithinLimits(cfg: Config, db: Db, user: int, now: int) {
    && |CreatedSince(db.rows, user, now - 3_600_000_000)| < cfg.hourlyLimit
    && forall c <- db.rows :: c.user == user ==> now - c.createdAt >= cfg.cooldown
  }

  /** A challenge is issued exactly for an active account with an unverified address, with a provider,
      fewer challenges in the last hour than the limit, and none younger than the cooldown. */
  lemma ResendExactly(cfg: Config, db: Db, r: Request)
    requires r.ResendRequest?
    ensures var o := Handle(cfg, db, r);
      && (|o.db.rows| > |db.rows| <==> Unverified(db, r.user) && r.provider && WithinLimits(cfg, db, r.user, r.now))
      && (o.reply.RateLimited? <==> Unverified(db, r.user) && r.provider && !WithinLimits(cfg, db, r.user, r.now))
      && (o.reply.Unavailable? <==> Unverified(db, r.user) && !r.provider)
  {
    hide Latest, CountSince, OldestSince, HourlyHint, CooldownHint;
    CountIsSize(IssueLog(db.rows), r.user, r.now - HOUR);
    assert CreatedSince(db.rows, r.user, r.now - HOUR) == RecentEntries(IssueLog(db.rows), r.user, r.now - HOUR);
    var latest := Latest(db.rows, r.user, false);
    if latest.Some? { assert db.rows[latest.value] in db.rows; }
  }

  /******* Opening *******/

  // The activation of `r` opens the challenge at row `i`.
  ghost predicate MayOpen(db: Db, r: Request, i: nat)
    requires r.ActivateRequest? && i < |db.rows|
  {
    var c := db.rows[i];
    && r.commits && c.id == r.id && r.id in db.flows && db.flows[r.id].stage == Delivered
    && c.activatedAt.None? && c.usedAt.None? && db.flows[r.id].at < c.expiresAt && Newest(db.rows, c.user, i)
    && Unverified(db, c.user) && db.accounts[c.user].email == Some(db.flows[r.id].destination)
  }

  lemma RowFlow(cfg: Config, db: Db, i: nat)
    requires Sound(cfg, db) && i < |db.rows|
    ensures db.rows[i].id in db.flows && db.flows[db.rows[i].id].user == db.rows[i].user
    ensures db.rows[i].attempts <= cfg.maxAttempts
    ensures forall j :: 0 <= j < |db.rows| && db.rows[j].id == db.rows[i].id ==> j == i
  {
    hide Paced;
    assert RowOk(cfg, db.rows[i], db.accounts, db.flows);
  }

  /** A delivered challenge opens exactly if it is pending, its user's newest, unexpired when it was
      sent, and sent to the unverified address the active account still has. */
  lemma OpensExactly(cfg: Config, db: Db, r: Request, i: nat)
    requires cfg.Valid() && Sound(cfg, db) && r.ActivateRequest? && i < |db.rows| && !db.rows[i].Open()
    ensures var after := Handle(cfg, db, r).db.rows;
      && |after| == |db.rows|
      && (after[i].Open() <==> MayOpen(db, r, i))
  {
    hide Sound, Latest;
    RowFlow(cfg, db, i);
    NewestIsLatest(cfg, db, db.rows[i].user);
    if r.id in db.flows {
      var latest := Latest(db.rows, db.flows[r.id].user, false);
      if latest.Some? { RowFlow(cfg, db, latest.value); }
    }
  }

  /** What opens replaces whatever the user had open before; no other row and no other user is touched. */
  lemma OpeningReplaces(cfg: Config, db: Db, r: Request, i: nat)
    requires cfg.Valid() && Sound(cfg, db) && r.ActivateRequest? && i < |db.rows| && MayOpen(db, r, i)
    ensures var after := Handle(cfg, db, r).db.rows;
      && |after| == |db.rows|
      && after[i] == db.rows[i].(activatedAt := Some(db.flows[r.id].at))
      && forall j :: 0 <= j < |db.rows| && j != i ==>
          after[j] == if db.rows[j].user == db.rows[i].user && db.rows[j].Open()
                      then db.rows[j].(usedAt := Some(db.flows[r.id].at)) else db.rows[j]
  {
    hide Sound, Latest;
    RowFlow(cfg, db, i);
    NewestIsLatest(cfg, db, db.rows[i].user);
  }

  /** A delivered challenge that does not open is closed, and nothing else changes. */
  lemma ElseCancelled(cfg: Config, db: Db, r: Request, i: nat)
    requires cfg.Valid() && Sound(cfg, db) && r.ActivateRequest? && i < |db.rows| && !MayOpen(db, r, i)
    requires r.commits && db.rows[i].id == r.id && db.flows[r.id].stage == Delivered && db.rows[i].Pending()
    ensures Handle(cfg, db, r).db.rows == db.rows[i := db.rows[i].(usedAt := Some(db.flows[r.id].at))]
  {
    hide Sound, Latest;
    RowFlow(cfg, db, i);
    NewestIsLatest(cfg, db, db.rows[i].user);
    CancelClosesOne(db.rows, r.id, db.rows[i].user, db.flows[r.id].at) by { IdsAreDistinct(cfg, db); }
  }

  lemma IdsAreDistinct(cfg: Config, db: Db)
    requires Sound(cfg, db)
    ensures DistinctIds(db.rows)
  {
  }

  // The delivery of the challenge at row `i` fails, or its activation does not open it.
  ghost predicate Fails(db: Db, r: Request, i: nat)
    requires i < |db.rows|
  {
    var id := db.rows[i].id;
    || (r == DeliverRequest(id, false) && id in db.flows && db.flows[id].stage == Issued)
    || (r.ActivateRequest? && r.id == id && id in db.flows && db.flows[id].stage == Delivered && !MayOpen(db, r, i))
  }

  // The challenge is not open and its request no longer awaits an activation.
  ghost predicate Shut(db: Db, i: nat, id: int) {
    && i < |db.rows| && db.rows[i].id == id && !db.rows[i].Open()
    && id in db.flows && (db.flows[id].stage == Cancelling || db.flows[id].stage == Done)
  }

  lemma ShutStep(cfg: Config, db: Db, r: Request, i: nat, id: int)
    requires Shut(db, i, id) && Fresh(db, r)
    ensures Shut(Handle(cfg, db, r).db, i, id)
  {
    hide Latest, CountSince, OldestSince, HourlyHint, CooldownHint;
  }

  lemma {:induction false} ShutForGood(cfg: Config, db: Db, rs: seq<Request>, i: nat, id: int)
    requires Shut(db, i, id) && FreshRun(cfg, db, rs)
    ensures Shut(Run(cfg, db, rs), i, id)
    decreases |rs|
  {
    hide Shut, Handle, Fresh;
    if rs != [] {
      ShutStep(cfg, db, rs[0], i, id);
      ShutForGood(cfg, Handle(cfg, db, rs[0]).db, rs[1..], i, id);
    }
  }

  /** A challenge whose delivery failed, or that its activation did not open, is never open again,
      whether or not its cancellation commits. */
  lemma FailedRequestNeverOpens(cfg: Config, db: Db, r: Request, i: nat, rs: seq<Request>)
    requires cfg.Valid() && Sound(cfg, db) && i < |db.rows| && Fails(db, r, i)
    requires FreshRun(cfg, Handle(cfg, db, r).db, rs)
    ensures var later := Run(cfg, Handle(cfg, db, r).db, rs);
      i < |later.rows| && later.rows[i].id == db.rows[i].id && !later.rows[i].Open()
  {
    hide Sound, Run, FreshRun, Latest, Newest;
    RowFlow(cfg, db, i);
    OpenIsDone(cfg, db, i);
    if r.ActivateRequest? { OpensExactly(cfg, db, r, i); }
    ShutForGood(cfg, Handle(cfg, db, r).db, rs, i, db.rows[i].id);
  }

  lemma OpenIsDone(cfg: Config, db: Db, i: nat)
    requires Sound(cfg, db) && i < |db.rows|
    ensures db.rows[i].Open() ==> db.rows[i].id in db.flows && db.flows[db.rows[i].id].stage == Done
  {
    hide Paced;
    assert RowOk(cfg, db.rows[i], db.accounts, db.flows);
  }

  /******* Judging a code *******/

  // The request is judged against the challenge at row `i`: open, live and not worn out.
  ghost predicate Judges(cfg: Config, db: Db, r: Request, i: nat) {
    && r.VerifyRequest? && i < |db.rows| && Unverified(db, r.user)
    && var c := db.rows[i];
    && c.user == r.user && c.activatedAt.Some? && c.usedAt.None?
    && r.now < c.expiresAt && c.attempts < cfg.maxAttempts
  }

  ghost predicate Misses(cfg: Config, db: Db, r: Request, i: nat) {
    Judges(cfg, db, r, i) && r.code != db.rows[i].code
  }

  ghost predicate Hits(cfg: Config, db: Db, r: Request, i: nat) {
    Judges(cfg, db, r, i) && r.code == db.rows[i].code
  }

  // The verification succeeds, with the challenge of that id.
  ghost predicate VerifiesWith(cfg: Config, db: Db, r: Request, id: int) {
    && r.VerifyRequest? && Handle(cfg, db, r).reply.Verified?
    && db.rows[Latest(db.rows, r.user, true).value].id == id
  }

  lemma JudgedIsLatest(cfg: Config, db: Db, r: Request, i: nat)
    requires Sound(cfg, db) && r.VerifyRequest?
    ensures Judges(cfg, db, r, i) <==>
      && Unverified(db, r.user) && Latest(db.rows, r.user, true) == Some(i)
      && r.now < db.rows[i].expiresAt && db.rows[i].attempts < cfg.maxAttempts
  {
    hide Sound, Latest;
    OpenIsLatest(cfg, db, r.user);
  }

  /** A wrong code against an open live challenge adds one attempt to its row and changes nothing else. */
  lemma WrongCodeCounts(cfg: Config, db: Db, r: Request, i: nat)
    requires Sound(cfg, db) && Misses(cfg, db, r, i)
    ensures var c := db.rows[i];
      Handle(cfg, db, r) == Outcome(db.(rows := db.rows[i := c.(attempts := c.attempts + 1)]), Invalid)
  {
    hide Sound, Latest;
    JudgedIsLatest(cfg, db, r, i);
  }

  /******* Attempts over runs *******/

  /** A row's attempts go up by one with each wrong code judged against it, and by nothing else. */
  lemma AttemptsStep(cfg: Config, db: Db, r: Request, i: nat)
    requires Sound(cfg, db) && i < |db.rows|
    ensures var after := Handle(cfg, db, r).db.rows;
      && i < |after| && after[i].id == db.rows[i].id
      && after[i].attempts == db.rows[i].attempts + if Misses(cfg, db, r, i) then 1 else 0
  {
    hide Sound, Latest, CountSince, OldestSince, HourlyHint, CooldownHint;
    if r.VerifyRequest? { JudgedIsLatest(cfg, db, r, i); }
  }

  // How many wrong codes a run judges against the row `i`.
  ghost function WrongCodes(cfg: Config, db: Db, rs: seq<Request>, i: nat): nat
    decreases |rs|
  {
    if rs == [] then 0
    else (if Misses(cfg, db, rs[0], i) then 1 else 0) + WrongCodes(cfg, Handle(cfg, db, rs[0]).db, rs[1..], i)
  }

  lemma {:induction false} AttemptsAreWrongCodes(cfg: Config, db: Db, rs: seq<Request>, i: nat)
    requires cfg.Valid() && Sound(cfg, db) && FreshRun(cfg, db, rs) && i < |db.rows|
    ensures var after := Run(cfg, db, rs).rows;
      && i < |after| && after[i].id == db.rows[i].id
      && after[i].attempts == db.rows[i].attempts + WrongCodes(cfg, db, rs, i)
    decreases |rs|
  {
    if rs != [] {
      hide Sound, Handle, Misses, Fresh;
      AttemptsStep(cfg, db, rs[0], i);
      StepKeeps(cfg, db, rs[0]);
      AttemptsAreWrongCodes(cfg, Handle(cfg, db, rs[0]).db, rs[1..], i);
    }
  }

  /** Over any run at most as many wrong codes are judged against a challenge as are left to it, and
      once so many were, it verifies nothing. */
  lemma GuessesAreLimited(cfg: Config, db: Db, rs: seq<Request>, i: nat, r: Request)
    requires cfg.Valid() && Sound(cfg, db) && FreshRun(cfg, db, rs) && i < |db.rows|
    ensures WrongCodes(cfg, db, rs, i) <= cfg.maxAttempts - db.rows[i].attempts
    ensures WrongCodes(cfg, db, rs, i) == cfg.maxAttempts - db.rows[i].attempts
        ==> !VerifiesWith(cfg, Run(cfg, db, rs), r, db.rows[i].id)
  {
    hide Sound, Run, FreshRun, WrongCodes, Latest;
    AttemptsAreWrongCodes(cfg, db, rs, i);
    RunKeeps(cfg, db, rs);
    RowFlow(cfg, Run(cfg, db, rs), i);
  }

  /******* The mailed code works *******/

  // The request does not concern this user's account or this challenge.
  predicate Elsewhere(r: Request, user: int, id: int) {
    match r
    case SetAccount(u, _, _) => u != user
    case ResendRequest(u, _, _, _, _) => u != user
    case DeliverRequest(other, _) => other != id
    case ActivateRequest(other, _) => other != id
    case CancelRequest(other, _) => other != id
    case VerifyRequest(u, _, _) => u != user
  }

  // The challenge `c` is the user's newest, at row `i`, and was sent to the address the account has.
  ghost predicate Underway(db: Db, user: int, i: nat, c: Challenge, flow: Flow) {
    && Unverified(db, user) && db.accounts[user].email == Some(flow.destination)
    && c.id in db.flows && db.flows[c.id] == flow && flow.user == user
    && Newest(db.rows, user, i) && db.rows[i] == c
  }

  predicate SameKey(a: Challenge, b: Challenge) {
    a.user == b.user && a.createdAt == b.createdAt
  }

  lemma NewestRow(rows: seq<Challenge>, user: int, i: nat)
    requires Newest(rows, user, i)
    ensures i < |rows| && rows[i].user == user
  {
  }

  lemma StillNewest(before: seq<Challenge>, after: seq<Challenge>, user: int, i: nat)
    requires Newest(before, user, i) && |before| <= |after|
    requires forall k :: 0 <= k < |before| ==> SameKey(before[k], after[k])
    requires forall k :: |before| <= k < |after| ==> after[k].user != user
    ensures Newest(after, user, i)
  {
    forall d | d in after && d.user == user
      ensures d.createdAt <= after[i].createdAt
    {
      var k :| 0 <= k < |after| && after[k] == d;
      var e := before[k];
      assert e in before && SameKey(before[i], after[i]);
    }
  }

  // Another request may add rows of other users, and close or open some; it leaves row `i` alone.
  lemma OthersRowsStay(cfg: Config, db: Db, r: Request, user: int, i: nat, c: Challenge)
    requires cfg.Valid() && Sound(cfg, db) && Elsewhere(r, user, c.id)
    requires Newest(db.rows, user, i) && db.rows[i] == c
    ensures var after := Handle(cfg, db, r).db.rows; Newest(after, user, i) && after[i] == c
  {
    hide Sound, Latest, Newest, CountSince, OldestSince, HourlyHint, CooldownHint;
    var after := Handle(cfg, db, r).db.rows;
    NewestRow(db.rows, user, i);
    NewestIsLatest(cfg, db, user);
    assert |db.rows| <= |after| && after[i] == c;
    assert forall k :: 0 <= k < |db.rows| ==> SameKey(db.rows[k], after[k]);
    assert forall k :: |db.rows| <= k < |after| ==> after[k].user != user;
    StillNewest(db.rows, after, user, i);
  }

  lemma UnderwayStep(cfg: Config, db: Db, r: Request, user: int, i: nat, c: Challenge, flow: Flow)
    requires cfg.Valid() && Sound(cfg, db) && Fresh(db, r)
    requires Elsewhere(r, user, c.id) && Underway(db, user, i, c, flow)
    ensures Underway(Handle(cfg, db, r).db, user, i, c, flow)
  {
    hide Sound, Latest, Newest, CountSince, OldestSince, HourlyHint, CooldownHint, InvalidateOpen, CancelPending;
    OthersRowsStay(cfg, db, r, user, i, c);
  }

  lemma {:induction false} UnderwayRun(cfg: Config, db: Db, rs: seq<Request>, user: int, i: nat, c: Challenge,
                                       flow: Flow)
    requires cfg.Valid() && Sound(cfg, db) && FreshRun(cfg, db, rs)
    requires (forall r <- rs :: Elsewhere(r, user, c.id)) && Underway(db, user, i, c, flow)
    ensures Underway(Run(cfg, db, rs), user, i, c, flow) && Sound(cfg, Run(cfg, db, rs))
    decreases |rs|
  {
    if rs != [] {
      hide Sound, Handle, Fresh, Underway, Elsewhere;
      assert rs[0] in rs && forall r <- rs[1..] :: r in rs;
      UnderwayStep(cfg, db, rs[0], user, i, c, flow);
      StepKeeps(cfg, db, rs[0]);
      UnderwayRun(cfg, Handle(cfg, db, rs[0]).db, rs[1..], user, i, c, flow);
    }
  }

  lemma RunCons(cfg: Config, db: Db, r: Request, rs: seq<Request>)
    ensures Run(cfg, db, [r] + rs) == Run(cfg, Handle(cfg, db, r).db, rs)
    ensures FreshRun(cfg, db, [r] + rs) <==> Fresh(db, r) && FreshRun(cfg, Handle(cfg, db, r).db, rs)
  {
    hide Handle, Fresh;
    assert ([r] + rs)[1..] == rs;
  }

  lemma {:induction false} RunAppend(cfg: Config, db: Db, a: seq<Request>, b: seq<Request>)
    ensures Run(cfg, db, a + b) == Run(cfg, Run(cfg, db, a), b)
    ensures FreshRun(cfg, db, a + b) <==> FreshRun(cfg, db, a) && FreshRun(cfg, Run(cfg, db, a), b)
    decreases |a|
  {
    if a == [] {
      assert a + b == b;
    } else {
      hide Handle, Fresh;
      assert (a + b)[0] == a[0] && (a + b)[1..] == a[1..] + b;
      RunAppend(cfg, Handle(cfg, db, a[0]).db, a[1..], b);
    }
  }

  // The row and the flow that a permitted resend adds.
  function SentChallenge(cfg: Config, r: Request): Challenge
    requires r.ResendRequest?
  {
    Challenge(r.id, r.user, r.code, Stored(r.now + cfg.lifetime), 0, None, None, Stored(r.now), r.now)
  }

  lemma ResendStarts(cfg: Config, db: Db, r: Request)
    requires cfg.Valid() && r.ResendRequest?
    requires Unverified(db, r.user) && r.provider && WithinLimits(cfg, db, r.user, r.now)
    ensures Underway(Handle(cfg, db, r).db, r.user, |db.rows|, SentChallenge(cfg, r),
                     Flow(r.user, db.accounts[r.user].email.value, r.now, Issued))
  {
    hide Latest, CountSince, OldestSince, HourlyHint, CooldownHint;
    ResendExactly(cfg, db, r);
    var i, after := |db.rows|, Handle(cfg, db, r).db.rows;
    assert |after| == i + 1 && after[i] == SentChallenge(cfg, r);
    forall d | d in after && d.user == r.user
      ensures d.createdAt <= after[i].createdAt
    {
      var k :| 0 <= k < |after| && after[k] == d;
      if k < i {
        var e := db.rows[k];
        assert e in db.rows && e == d;
      }
    }
  }

  lemma DeliveryMoves(cfg: Config, db: Db, user: int, i: nat, c: Challenge, flow: Flow)
    requires Underway(db, user, i, c, flow) && flow.stage == Issued
    ensures Underway(Handle(cfg, db, DeliverRequest(c.id, true)).db, user, i, c, flow.(stage := Delivered))
  {
    hide Newest;
  }

  lemma ActivationMoves(cfg: Config, db: Db, user: int, i: nat, c: Challenge, flow: Flow)
    requires cfg.Valid() && Sound(cfg, db) && Underway(db, user, i, c, flow) && flow.stage == Delivered
    requires c.Pending() && flow.at < c.expiresAt
    ensures Underway(Handle(cfg, db, ActivateRequest(c.id, true)).db, user, i, c.(activatedAt := Some(flow.at)),
                     flow.(stage := Done))
  {
    hide Sound, Latest, Newest;
    var r := ActivateRequest(c.id, true);
    var after := Handle(cfg, db, r).db.rows;
    NewestRow(db.rows, user, i);
    OpeningReplaces(cfg, db, r, i);
    StillNewest(db.rows, after, user, i);
    NewestIsLatest(cfg, db, user);
  }

  lemma OpenChallengeHits(cfg: Config, db: Db, i: nat, c: Challenge, flow: Flow, r: Request)
    requires cfg.Valid() && Sound(cfg, db) && r.VerifyRequest? && Underway(db, r.user, i, c, flow)
    requires c.Open() && c.attempts == 0 && r.code == c.code
    ensures Handle(cfg, db, r).reply.Verified? <==> r.now < c.expiresAt
  {
    hide Sound, Newest, Latest;
    NewestRow(db.rows, r.user, i);
    OpenIsLatest(cfg, db, r.user);
  }

  // A challenge sent by `resend`, delivered and activated, with other requests in between.
  function MailedRun(resend: Request, a: seq<Request>, b: seq<Request>, c: seq<Request>): seq<Request>
    requires resend.ResendRequest?
  {
    [resend] + a + ([DeliverRequest(resend.id, true)] + b + ([ActivateRequest(resend.id, true)] + c))
  }

  /**
   A challenge that may be sent, is delivered and is activated verifies the address by its code
   exactly until its lifetime ends, whatever was open before, whatever other accounts do in between
   and whatever clock their requests read.
   */
  lemma MailedCodeVerifies(cfg: Config, db: Db, resend: Request, a: seq<Request>, b: seq<Request>, c: seq<Request>,
                           r: Request)
    requires cfg.Valid() && Sound(cfg, db) && resend.ResendRequest? && FreshRun(cfg, db, MailedRun(resend, a, b, c))
    requires Unverified(db, resend.user) && resend.provider && WithinLimits(cfg, db, resend.user, resend.now)
    requires forall x <- a + b + c :: Elsewhere(x, resend.user, resend.id)
    requires r.VerifyRequest? && r.user == resend.user && r.code == resend.code
    ensures Handle(cfg, Run(cfg, db, MailedRun(resend, a, b, c)), r).reply.Verified?
       <==> r.now < Stored(resend.now + cfg.lifetime)
  {
    hide Sound, Handle, Run, FreshRun, Underway, Elsewhere, WithinLimits, Fresh;
    var user, id, i := resend.user, resend.id, |db.rows|;
    var deliver, activate := DeliverRequest(id, true), ActivateRequest(id, true);
    var tail := [activate] + c;
    var middle := [deliver] + b + tail;
    assert MailedRun(resend, a, b, c) == [resend] + (a + middle) && middle == [deliver] + (b + tail);
    RunCons(cfg, db, resend, a + middle);
    var issued, row := Handle(cfg, db, resend).db, SentChallenge(cfg, resend);
    var flow := Flow(user, db.accounts[user].email.value, resend.now, Issued);
    ResendStarts(cfg, db, resend);
    StepKeeps(cfg, db, resend);
    RunAppend(cfg, issued, a, middle);
    UnderwayRun(cfg, issued, a, user, i, row, flow);
    var waiting := Run(cfg, issued, a);
    RunCons(cfg, waiting, deliver, b + tail);
    DeliveryMoves(cfg, waiting, user, i, row, flow);
    StepKeeps(cfg, waiting, deliver);
    var delivered, flow2 := Handle(cfg, waiting, deliver).db, flow.(stage := Delivered);
    RunAppend(cfg, delivered, b, tail);
    UnderwayRun(cfg, delivered, b, user, i, row, flow2);
    var ready := Run(cfg, delivered, b);
    RunCons(cfg, ready, activate, c);
    ActivationMoves(cfg, ready, user, i, row, flow2);
    StepKeeps(cfg, ready, activate);
    var open, row2, flow3 := Handle(cfg, ready, activate).db, row.(activatedAt := Some(flow.at)), flow2.(stage := Done);
    UnderwayRun(cfg, open, c, user, i, row2, flow3);
    OpenChallengeHits(cfg, Run(cfg, open, c), i, row2, flow3, r);
  }
}
