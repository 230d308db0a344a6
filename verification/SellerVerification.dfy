/**
 Seller verification (services/seller_verification_service.py,
 repositories/seller_verification_repository.py, core/authorization.py): attempts, their
 evidence and their review. Each transaction is one atomic step; accounts may change
 arbitrarily between steps. Identifiers and challenges are numbers; `created` is the creation
 time as the column keeps it.
 */
module SellerVerification {
  import opened Common

  datatype Status = Pending | UnderReview | Verified | Rejected
  datatype Kind = Selfie | WechatProof | HandwrittenCode

  // `shown` is the challenge the owner presented with the upload, if any, and `at` the time
  // the upload was judged at; the row itself stores neither.
  datatype Evidence = Evidence(key: int, shown: Option<int>, at: int)

  // A row without its id, which is the key of the table. `submitted` is the time at which the
  // submission was judged; the stored submitted_at is read just after it.
  datatype Attempt = Attempt(user: int, status: Status, challenge: int, expires: int, created: int,
                             evidence: map<Kind, Evidence>, submitted: Option<int>,
                             reviewer: Option<int>, reason: Option<string>)

  datatype Account = Account(active: bool, email: bool, phone: bool, admin: bool)

  datatype Event =
    | Start(user: int, id: int, now: int, created: int, challenge: int)
    | Renew(user: int, now: int, challenge: int)
    | Submit(user: int, now: int)
    | Upload(user: int, kind: Kind, key: int, shown: Option<int>, now: int)
    | Review(actor: int, id: int, reason: Option<string>)

  // A step and the accounts it finds.
  datatype Request = Request(accounts: map<int, Account>, event: Event)

  datatype Outcome = Outcome(ok: bool, rows: map<int, Attempt>)

  const ALL_KINDS: set<Kind> := {Selfie, WechatProof, HandwrittenCode}

  // lock_active_user(..., eligible=True)
  predicate Contactable(accounts: map<int, Account>, user: int) {
    user in accounts && accounts[user].active && accounts[user].email && accounts[user].phone
  }

  /******* The latest attempt *******/

  // (created_at, id)
  predicate Older(rows: map<int, Attempt>, a: int, b: int)
    requires a in rows && b in rows
  {
    rows[a].created < rows[b].created || (rows[a].created == rows[b].created && a < b)
  }

  ghost predicate IsLatest(rows: map<int, Attempt>, user: int, id: int) {
    && id in rows && rows[id].user == user
    && forall a <- rows :: rows[a].user == user && a != id ==> Older(rows, a, id)
  }

  // ORDER BY created_at DESC, id DESC LIMIT 1
  ghost function Latest(rows: map<int, Attempt>, user: int): (id: Option<int>)
    ensures id.Some? ==> IsLatest(rows, user, id.value)
    ensures id.None? ==> forall a :: !IsLatest(rows, user, a)
  {
    if exists a :: IsLatest(rows, user, a) then
      var a :| IsLatest(rows, user, a);
      Some(a)
    else None
  }

  // uq_seller_active_user: the generated active_slot is 1 unless the attempt is rejected.
  predicate HasOpen(rows: map<int, Attempt>, user: int) {
    exists a <- rows :: rows[a].user == user && rows[a].status != Rejected
  }

  ghost predicate HasVerified(rows: map<int, Attempt>, user: int) {
    exists a <- rows :: rows[a].user == user && rows[a].status == Verified
  }

  /******* Steps *******/

  function WithoutCode(evidence: map<Kind, Evidence>): map<Kind, Evidence> {
    evidence - {HandwrittenCode}
  }

  ghost function Step(rows: map<int, Attempt>, lifetime: int, request: Request): Outcome {
    var accounts := request.accounts;
    var refused := Outcome(false, rows);
    match request.event
    case Start(user, id, now, created, challenge) =>
      var latest := Latest(rows, user);
      if !Contactable(accounts, user) || (latest.Some? && rows[latest.value].status != Rejected) then refused
      else if HasOpen(rows, user) then refused
      else Outcome(true, rows[id :=
          Attempt(user, Pending, challenge, Stored(now + lifetime), created, map[], None, None, None)])
    case Renew(user, now, challenge) =>
      var latest := Latest(rows, user);
      if !Contactable(accounts, user) || latest.None? || rows[latest.value].status != Pending then refused else
      var row := rows[latest.value];
      Outcome(true, rows[latest.value :=
          row.(challenge := challenge, expires := Stored(now + lifetime), evidence := WithoutCode(row.evidence))])
    case Submit(user, now) =>
      var latest := Latest(rows, user);
      if !Contactable(accounts, user) || latest.None? || rows[latest.value].status != Pending then refused else
      var row := rows[latest.value];
      if row.expires <= now || row.evidence.Keys != ALL_KINDS then refused
      else Outcome(true, rows[latest.value := row.(status := UnderReview, submitted := Some(now))])
    case Upload(user, kind, key, shown, now) =>
      var latest := Latest(rows, user);
      if !Contactable(accounts, user) || latest.None? || rows[latest.value].status != Pending then refused else
      var row := rows[latest.value];
      if kind == HandwrittenCode && (row.expires <= now || shown != Some(row.challenge)) then refused
      else Outcome(true, rows[latest.value := row.(evidence := row.evidence[kind := Evidence(key, shown, now)])])
    case Review(actor, id, reason) =>
      if id !in rows then refused else
      var row := rows[id];
      if !Contactable(accounts, row.user) || actor !in accounts || !accounts[actor].active
          || !accounts[actor].admin then refused
      else if row.user == actor || row.status != UnderReview || row.evidence.Keys != ALL_KINDS then refused
      else Outcome(true, rows[id :=
          row.(status := if reason.Some? then Rejected else Verified, reason := reason, reviewer := Some(actor))])
  }

  // A new row's id is not in use.
  ghost predicate Possible(rows: map<int, Attempt>, event: Event) {
    event.Start? ==> event.id !in rows
  }

  ghost predicate AllPossible(rows: map<int, Attempt>, lifetime: int, requests: seq<Request>)
    decreases |requests|
  {
    requests != [] ==>
      Possible(rows, requests[0].event) && AllPossible(Step(rows, lifetime, requests[0]).rows, lifetime, requests[1..])
  }

  ghost function Run(rows: map<int, Attempt>, lifetime: int, requests: seq<Request>): map<int, Attempt>
    decreases |requests|
  {
    if requests == [] then rows else Run(Step(rows, lifetime, requests[0]).rows, lifetime, requests[1..])
  }

  /******* What every run keeps *******/

  ghost predicate RowSound(rows: map<int, Attempt>, id: int)
    requires id in rows
  {
    var row := rows[id];
    && RowFits(row)
    && (row.status in {UnderReview, Verified} ==> IsLatest(rows, row.user, id))
  }

  // What a row promises by itself.
  ghost predicate RowFits(row: Attempt) {
    && (HandwrittenCode in row.evidence ==>
          row.evidence[HandwrittenCode].shown == Some(row.challenge) && row.evidence[HandwrittenCode].at < row.expires)
    && (row.status != Pending ==> row.evidence.Keys == ALL_KINDS)
    && (row.status == Pending <==> row.submitted.None?)
    && (row.submitted.Some? ==> row.submitted.value < row.expires)
    && (row.status in {Verified, Rejected} <==> row.reviewer.Some?)
    && (row.reviewer.Some? ==> row.reviewer.value != row.user)
    && (row.status == Rejected <==> row.reason.Some?)
  }

  ghost predicate OneOpen(rows: map<int, Attempt>) {
    forall a <- rows, b <- rows ::
      rows[a].user == rows[b].user && rows[a].status != Rejected && rows[b].status != Rejected ==> a == b
  }

  ghost predicate Sound(rows: map<int, Attempt>) {
    OneOpen(rows) && forall id <- rows :: RowSound(rows, id)
  }

  // A change of one row that keeps its owner and its place in time.
  lemma RewriteKeepsLatest(rows: map<int, Attempt>, id: int, row: Attempt)
    requires id in rows && row.user == rows[id].user && row.created == rows[id].created
    ensures forall user, a :: IsLatest(rows[id := row], user, a) <==> IsLatest(rows, user, a)
  {
    var after := rows[id := row];
    forall user, a
      ensures IsLatest(after, user, a) <==> IsLatest(rows, user, a)
    {
      assert forall b <- rows :: after[b].user == rows[b].user && after[b].created == rows[b].created;
      assert forall b :: b in rows <==> b in after;
    }
  }

  lemma RewriteKeepsSound(rows: map<int, Attempt>, id: int, row: Attempt)
    requires Sound(rows) && id in rows && row.user == rows[id].user && row.created == rows[id].created
    requires row.status != Rejected ==> rows[id].status != Rejected
    requires RowFits(row) && (row.status in {UnderReview, Verified} ==> IsLatest(rows, row.user, id))
    ensures Sound(rows[id := row])
  {
    RewriteKeepsLatest(rows, id, row);
    var after := rows[id := row];
    forall a | a in after ensures RowSound(after, a) {
      if a != id { assert RowSound(rows, a); }
    }
  }

  lemma StartKeepsSound(rows: map<int, Attempt>, id: int, row: Attempt)
    requires Sound(rows) && id !in rows && !HasOpen(rows, row.user)
    requires row.status == Pending && RowFits(row)
    ensures Sound(rows[id := row])
  {
    var after := rows[id := row];
    forall a | a in after ensures RowSound(after, a) {
      if a != id {
        assert RowSound(rows, a);
        if after[a].status in {UnderReview, Verified} {
          assert after[a].user != row.user;
          assert IsLatest(after, after[a].user, a);
        }
      }
    }
  }

  lemma StepKeepsSound(rows: map<int, Attempt>, lifetime: int, request: Request)
    requires Sound(rows) && Possible(rows, request.event)
    ensures Sound(Step(rows, lifetime, request).rows)
  {
    hide Sound;
    var after := Step(rows, lifetime, request).rows;
    if after != rows {
      match request.event {
        case Start(_, id, _, _, _) =>
          StartKeepsSound(rows, id, after[id]);
        case Review(_, id, _) =>
          SoundRow(rows, id);
          RewriteKeepsSound(rows, id, after[id]);
        case _ =>
          var id := Latest(rows, request.event.user).value;
          SoundRow(rows, id);
          RewriteKeepsSound(rows, id, after[id]);
      }
    }
  }

  lemma SoundRow(rows: map<int, Attempt>, id: int)
    requires Sound(rows) && id in rows
    ensures RowSound(rows, id)
  {
  }

  lemma {:induction false} RunKeepsSound(rows: map<int, Attempt>, lifetime: int, requests: seq<Request>)
    requires Sound(rows) && AllPossible(rows, lifetime, requests)
    ensures Sound(Run(rows, lifetime, requests))
    decreases |requests|
  {
    if requests != [] {
      StepKeepsSound(rows, lifetime, requests[0]);
      RunKeepsSound(Step(rows, lifetime, requests[0]).rows, lifetime, requests[1..]);
    }
  }

  /**
   From the empty table, after any run: at most one attempt of a user is not rejected,
   handwritten evidence was made for the current challenge while it was live, everything
   submitted was submitted in time with all three kinds, nobody reviewed an own attempt, and
   an attempt under review or verified is the latest of its owner.
   */
  lemma AttemptsStaySound(lifetime: int, requests: seq<Request>)
    requires AllPossible(map[], lifetime, requests)
    ensures Sound(Run(map[], lifetime, requests))
  {
    RunKeepsSound(map[], lifetime, requests);
  }

  lemma LatestIsUnique(rows: map<int, Attempt>, user: int, a: int)
    requires IsLatest(rows, user, a)
    ensures Latest(rows, user) == Some(a)
  {
    var b := Latest(rows, user).value;
    assert IsLatest(rows, user, b);
  }

  /** "Some attempt is verified" and "the latest attempt is verified" are one condition. */
  lemma VerifiedIsLatest(rows: map<int, Attempt>, user: int)
    requires Sound(rows)
    ensures HasVerified(rows, user)
       <==> Latest(rows, user).Some? && rows[Latest(rows, user).value].status == Verified
  {
    if HasVerified(rows, user) {
      var a :| a in rows && rows[a].user == user && rows[a].status == Verified;
      assert RowSound(rows, a);
      LatestIsUnique(rows, user, a);
    }
  }

  lemma VerifiedStep(rows: map<int, Attempt>, lifetime: int, request: Request, user: int)
    requires Possible(rows, request.event) && HasVerified(rows, user)
    ensures HasVerified(Step(rows, lifetime, request).rows, user)
  {
    var after := Step(rows, lifetime, request).rows;
    var a :| a in rows && rows[a].user == user && rows[a].status == Verified;
    assert a in after && after[a] == rows[a];
  }

  /** No request takes a verification back. */
  lemma {:induction false} VerifiedForGood(rows: map<int, Attempt>, lifetime: int, requests: seq<Request>, user: int)
    requires AllPossible(rows, lifetime, requests) && HasVerified(rows, user)
    ensures HasVerified(Run(rows, lifetime, requests), user)
    decreases |requests|
  {
    if requests != [] {
      VerifiedStep(rows, lifetime, requests[0], user);
      VerifiedForGood(Step(rows, lifetime, requests[0]).rows, lifetime, requests[1..], user);
    }
  }

  /******* What each request achieves *******/

  // The user can be reached, and this pending attempt is the latest of the user.
  ghost predicate MayEdit(rows: map<int, Attempt>, accounts: map<int, Account>, user: int, id: int) {
    && user in accounts && accounts[user].active && accounts[user].email && accounts[user].phone
    && IsLatest(rows, user, id) && rows[id].status == Pending
  }

  /** A renewal gives the draft a new challenge for a new lifetime, drops the handwritten evidence of
      the old one and keeps the other kinds. */
  lemma RenewExactly(rows: map<int, Attempt>, lifetime: int, accounts: map<int, Account>, user: int, now: int,
                     challenge: int)
    ensures var o := Step(rows, lifetime, Request(accounts, Renew(user, now, challenge)));
      && (o.ok <==> exists id :: MayEdit(rows, accounts, user, id))
      && forall id :: MayEdit(rows, accounts, user, id) ==>
          var row := o.rows[id];
          && o.rows == rows[id := row] && row.challenge == challenge && row.expires == Stored(now + lifetime)
          && row.evidence.Keys == rows[id].evidence.Keys - {HandwrittenCode}
          && (forall k <- row.evidence :: row.evidence[k] == rows[id].evidence[k])
          && row == rows[id].(challenge := row.challenge, expires := row.expires, evidence := row.evidence)
  {
    EditedIsLatest(rows, accounts, user);
  }

  lemma EditedIsLatest(rows: map<int, Attempt>, accounts: map<int, Account>, user: int)
    ensures forall id :: MayEdit(rows, accounts, user, id) ==> Latest(rows, user) == Some(id)
    ensures var latest := Latest(rows, user);
      latest.Some? && Contactable(accounts, user) && rows[latest.value].status == Pending ==>
          MayEdit(rows, accounts, user, latest.value)
  {
    forall id | MayEdit(rows, accounts, user, id)
      ensures Latest(rows, user) == Some(id)
    {
      LatestIsUnique(rows, user, id);
    }
  }

  /** An upload stores one kind of evidence in the draft and leaves the others; the handwritten code
      must show the challenge while it lives. */
  lemma UploadExactly(rows: map<int, Attempt>, lifetime: int, accounts: map<int, Account>, user: int, kind: Kind,
                      key: int, shown: Option<int>, now: int)
    ensures var o := Step(rows, lifetime, Request(accounts, Upload(user, kind, key, shown, now)));
      && (o.ok <==>
            exists id ::
              && MayEdit(rows, accounts, user, id)
              && (kind == HandwrittenCode ==> now < rows[id].expires && shown == Some(rows[id].challenge)))
      && (!o.ok ==> o.rows == rows)
      && forall id :: MayEdit(rows, accounts, user, id) && o.ok ==>
          o.rows == rows[id := rows[id].(evidence := rows[id].evidence[kind := Evidence(key, shown, now)])]
  {
    EditedIsLatest(rows, accounts, user);
  }

  /** A draft is submitted exactly while its challenge lives and with all three kinds of evidence. */
  lemma SubmitExactly(rows: map<int, Attempt>, lifetime: int, accounts: map<int, Account>, user: int, now: int)
    ensures var o := Step(rows, lifetime, Request(accounts, Submit(user, now)));
      && (o.ok <==>
            exists id ::
              && MayEdit(rows, accounts, user, id) && now < rows[id].expires
              && rows[id].evidence.Keys == {Selfie, WechatProof, HandwrittenCode})
      && (!o.ok ==> o.rows == rows)
      && forall id :: MayEdit(rows, accounts, user, id) && o.ok ==>
          o.rows == rows[id := rows[id].(status := UnderReview, submitted := Some(now))]
  {
    EditedIsLatest(rows, accounts, user);
  }

  // The actor may decide this attempt.
  predicate MayDecide(rows: map<int, Attempt>, accounts: map<int, Account>, actor: int, id: int) {
    && id in rows && rows[id].status == UnderReview && rows[id].user != actor
    && rows[id].user in accounts && accounts[rows[id].user].active && accounts[rows[id].user].email
    && accounts[rows[id].user].phone
    && actor in accounts && accounts[actor].active && accounts[actor].admin
  }

  /** A review is accepted exactly of a submitted attempt of a reachable owner by another active
      administrator; it verifies the attempt without a reason, and rejects it with one. */
  lemma ReviewExactly(rows: map<int, Attempt>, lifetime: int, accounts: map<int, Account>, actor: int, id: int,
                      reason: Option<string>)
    requires Sound(rows)
    ensures var o := Step(rows, lifetime, Request(accounts, Review(actor, id, reason)));
      && (o.ok <==> MayDecide(rows, accounts, actor, id))
      && (o.ok && reason.None? ==>
            o.rows == rows[id := rows[id].(status := Verified, reason := None, reviewer := Some(actor))])
      && (o.ok && reason.Some? ==>
            o.rows == rows[id := rows[id].(status := Rejected, reason := reason, reviewer := Some(actor))])
      && (!o.ok ==> o.rows == rows)
  {
    if id in rows { SoundRow(rows, id); }
  }

  /** A seller becomes verified by nothing but the approval of a submitted attempt. */
  lemma VerifiedExactlyBy(rows: map<int, Attempt>, lifetime: int, request: Request, user: int)
    requires Sound(rows) && Possible(rows, request.event)
    ensures HasVerified(Step(rows, lifetime, request).rows, user) <==>
      || HasVerified(rows, user)
      || (request.event.Review? && request.event.reason.None? && request.event.id in rows
          && rows[request.event.id].user == user
          && MayDecide(rows, request.accounts, request.event.actor, request.event.id))
  {
    hide Sound;
    var after := Step(rows, lifetime, request).rows;
    if HasVerified(rows, user) { VerifiedStep(rows, lifetime, request, user); }
    if request.event.Review? {
      var id := request.event.id;
      ReviewExactly(rows, lifetime, request.accounts, request.event.actor, id, request.event.reason);
      if id in after { assert after[id].status == Verified ==> after[id].user == rows[id].user; }
    }
  }

  // The requests of a user who is verified at the first try.
  function Candidacy(accounts: map<int, Account>, user: int, id: int, start: int, created: int, challenge: int,
                     keys: (int, int, int), times: (int, int, int), submit: int, actor: int): seq<Request>
  {
    [Request(accounts, Start(user, id, start, created, challenge)),
     Request(accounts, Upload(user, Selfie, keys.0, None, times.0)),
     Request(accounts, Upload(user, WechatProof, keys.1, None, times.1)),
     Request(accounts, Upload(user, HandwrittenCode, keys.2, Some(challenge), times.2)),
     Request(accounts, Submit(user, submit)),
     Request(accounts, Review(actor, id, None))]
  }

  lemma RunHead(rows: map<int, Attempt>, lifetime: int, requests: seq<Request>)
    requires requests != []
    ensures Run(rows, lifetime, requests) == Run(Step(rows, lifetime, requests[0]).rows, lifetime, requests[1..])
  {
  }

  // After a rewrite of the draft that leaves it pending it can be edited as before.
  lemma StillEditable(rows: map<int, Attempt>, accounts: map<int, Account>, user: int, id: int, row: Attempt)
    requires MayEdit(rows, accounts, user, id)
    requires row.user == user && row.created == rows[id].created && row.status == Pending
    ensures MayEdit(rows[id := row], accounts, user, id)
  {
    RewriteKeepsLatest(rows, id, row);
  }

  /** Whoever can be reached, has no open attempt, starts one after all earlier ones, uploads the three
      kinds and submits while the challenge lives, is verified by an approving administrator. */
  lemma CandidateIsVerified(rows: map<int, Attempt>, lifetime: int, accounts: map<int, Account>, user: int, id: int,
                            start: int, created: int, challenge: int, keys: (int, int, int), times: (int, int, int),
                            submit: int, actor: int)
    requires Sound(rows) && id !in rows && Contactable(accounts, user) && !HasOpen(rows, user)
    requires InOrder(rows, Start(user, id, start, created, challenge))
    requires times.2 < Stored(start + lifetime) && submit < Stored(start + lifetime)
    requires actor in accounts && accounts[actor].active && accounts[actor].admin && actor != user
    ensures HasVerified(Run(rows, lifetime,
      Candidacy(accounts, user, id, start, created, challenge, keys, times, submit, actor)), user)
  {
    hide Step, Sound, IsLatest, HasOpen, MayEdit, Run;
    var requests := Candidacy(accounts, user, id, start, created, challenge, keys, times, submit, actor);
    var draft := Attempt(user, Pending, challenge, Stored(start + lifetime), created, map[], None, None, None);
    var r1 := rows[id := draft];
    StartExactly(rows, lifetime, accounts, Start(user, id, start, created, challenge));
    StepKeepsSound(rows, lifetime, requests[0]);
    var draft2 := draft.(evidence := draft.evidence[Selfie := Evidence(keys.0, None, times.0)]);
    var r2 := r1[id := draft2];
    UploadExactly(r1, lifetime, accounts, user, Selfie, keys.0, None, times.0);
    StillEditable(r1, accounts, user, id, draft2);
    StepKeepsSound(r1, lifetime, requests[1]);
    var draft3 := draft2.(evidence := draft2.evidence[WechatProof := Evidence(keys.1, None, times.1)]);
    var r3 := r2[id := draft3];
    UploadExactly(r2, lifetime, accounts, user, WechatProof, keys.1, None, times.1);
    StillEditable(r2, accounts, user, id, draft3);
    StepKeepsSound(r2, lifetime, requests[2]);
    var draft4 := draft3.(evidence := draft3.evidence[HandwrittenCode := Evidence(keys.2, Some(challenge), times.2)]);
    var r4 := r3[id := draft4];
    UploadExactly(r3, lifetime, accounts, user, HandwrittenCode, keys.2, Some(challenge), times.2);
    StillEditable(r3, accounts, user, id, draft4);
    StepKeepsSound(r3, lifetime, requests[3]);
    assert draft4.evidence.Keys == {Selfie, WechatProof, HandwrittenCode};
    var r5 := r4[id := draft4.(status := UnderReview, submitted := Some(submit))];
    SubmitExactly(r4, lifetime, accounts, user, submit);
    StepKeepsSound(r4, lifetime, requests[4]);
    ReviewExactly(r5, lifetime, accounts, actor, id, None);
    SixSteps(rows, lifetime, requests, r1, r2, r3, r4, r5);
    var end := Run(rows, lifetime, requests);
    assert id in end && end[id].user == user && end[id].status == Verified;
  }

  lemma SixSteps(rows: map<int, Attempt>, lifetime: int, requests: seq<Request>, r1: map<int, Attempt>,
                 r2: map<int, Attempt>, r3: map<int, Attempt>, r4: map<int, Attempt>, r5: map<int, Attempt>)
    requires |requests| == 6
    requires Step(rows, lifetime, requests[0]).rows == r1 && Step(r1, lifetime, requests[1]).rows == r2
    requires Step(r2, lifetime, requests[2]).rows == r3 && Step(r3, lifetime, requests[3]).rows == r4
    requires Step(r4, lifetime, requests[4]).rows == r5
    ensures Run(rows, lifetime, requests) == Step(r5, lifetime, requests[5]).rows
  {
    hide Step;
    RunHead(rows, lifetime, requests);
    RunHead(r1, lifetime, requests[1..]);
    RunHead(r2, lifetime, requests[2..]);
    RunHead(r3, lifetime, requests[3..]);
    RunHead(r4, lifetime, requests[4..]);
    RunHead(r5, lifetime, requests[5..]);
    assert requests[1..][1..] == requests[2..] && requests[2..][1..] == requests[3..];
    assert requests[3..][1..] == requests[4..] && requests[4..][1..] == requests[5..] && requests[5..][1..] == [];
  }

  /******* Are all earlier attempts rejected? *******/

  ghost predicate OthersRejected(rows: map<int, Attempt>) {
    forall a <- rows :: !IsLatest(rows, rows[a].user, a) ==> rows[a].status == Rejected
  }

  // A draft of the user is hidden behind a newer attempt.
  ghost predicate Stuck(rows: map<int, Attempt>, user: int) {
    exists a <- rows :: rows[a].user == user && rows[a].status == Pending && !IsLatest(rows, user, a)
  }

  // A new attempt comes after every earlier attempt of its owner.
  predicate InOrder(rows: map<int, Attempt>, event: Event) {
    event.Start? ==>
      forall a <- rows :: rows[a].user == event.user ==>
        rows[a].created < event.created || (rows[a].created == event.created && a < event.id)
  }

  /** An attempt starts exactly for a reachable user without an open attempt; the draft is empty, with
      its own challenge, and can be edited if it comes after the earlier attempts. */
  lemma StartExactly(rows: map<int, Attempt>, lifetime: int, accounts: map<int, Account>, event: Event)
    requires event.Start? && event.id !in rows
    ensures var o := Step(rows, lifetime, Request(accounts, event));
      && (o.ok <==> Contactable(accounts, event.user) && !HasOpen(rows, event.user))
      && (!o.ok ==> o.rows == rows)
      && (o.ok ==>
            && o.rows == rows[event.id := Attempt(event.user, Pending, event.challenge, Stored(event.now + lifetime),
                event.created, map[], None, None, None)]
            && (InOrder(rows, event) ==> MayEdit(o.rows, accounts, event.user, event.id)))
  {
    var latest := Latest(rows, event.user);
    assert latest.Some? && rows[latest.value].status != Rejected ==> HasOpen(rows, event.user);
  }

  // The request starts an attempt, and nothing forbids it.
  predicate Admits(rows: map<int, Attempt>, request: Request) {
    && request.event.Start?
    && Contactable(request.accounts, request.event.user) && !HasOpen(rows, request.event.user)
  }

  ghost predicate AllInOrder(rows: map<int, Attempt>, lifetime: int, requests: seq<Request>)
    decreases |requests|
  {
    requests != [] ==>
      && (Admits(rows, requests[0]) ==> InOrder(rows, requests[0].event))
      && AllInOrder(Step(rows, lifetime, requests[0]).rows, lifetime, requests[1..])
  }

  ghost predicate SameAttempts(rows: map<int, Attempt>, after: map<int, Attempt>, user: int) {
    forall a :: if a in rows && rows[a].user == user then a in after && after[a] == rows[a]
                else a in after ==> after[a].user != user
  }

  lemma StuckOrRejected(rows: map<int, Attempt>)
    requires Sound(rows)
    ensures OthersRejected(rows) <==> forall user :: !Stuck(rows, user)
  {
    forall a | a in rows && !IsLatest(rows, rows[a].user, a) && rows[a].status != Rejected
      ensures Stuck(rows, rows[a].user)
    {
      assert RowSound(rows, a);
    }
  }

  lemma StuckStep(rows: map<int, Attempt>, lifetime: int, request: Request, user: int)
    requires Sound(rows) && Possible(rows, request.event) && Stuck(rows, user)
    ensures SameAttempts(rows, Step(rows, lifetime, request).rows, user)
  {
    var a :| a in rows && rows[a].user == user && rows[a].status == Pending && !IsLatest(rows, user, a);
    var event := request.event;
    if event.Review? {
      if event.id in rows && rows[event.id].user == user {
        assert RowSound(rows, event.id);
      }
    } else if event.user == user {
      assert HasOpen(rows, user);
      var latest := Latest(rows, user);
      if latest.Some? {
        assert latest.value != a;
      }
    }
  }

  lemma SameAttemptsStuck(rows: map<int, Attempt>, after: map<int, Attempt>, user: int)
    requires SameAttempts(rows, after, user) && Stuck(rows, user)
    ensures Stuck(after, user)
  {
    var a :| a in rows && rows[a].user == user && rows[a].status == Pending && !IsLatest(rows, user, a);
    if IsLatest(after, user, a) {
      assert forall b <- rows :: rows[b].user == user ==> b in after && after[b] == rows[b];
    }
    assert a in after;
  }

  /** Once an attempt is created behind an older one, no request ever changes that user's attempts again. */
  lemma {:induction false} StuckForGood(rows: map<int, Attempt>, lifetime: int, requests: seq<Request>, user: int)
    requires Sound(rows) && AllPossible(rows, lifetime, requests) && Stuck(rows, user)
    ensures var after := Run(rows, lifetime, requests);
      SameAttempts(rows, after, user) && Stuck(after, user) && !HasVerified(after, user)
    decreases |requests|
  {
    if requests == [] {
      var a :| a in rows && rows[a].user == user && rows[a].status == Pending;
    } else {
      var next := Step(rows, lifetime, requests[0]).rows;
      StuckStep(rows, lifetime, requests[0], user);
      SameAttemptsStuck(rows, next, user);
      StepKeepsSound(rows, lifetime, requests[0]);
      StuckForGood(next, lifetime, requests[1..], user);
      var after := Run(rows, lifetime, requests);
      assert SameAttempts(next, after, user);
    }
  }

  // A step that creates no attempt leaves the others rejected.
  lemma RewriteKeepsOthers(rows: map<int, Attempt>, id: int, row: Attempt)
    requires OthersRejected(rows) && id in rows && row.user == rows[id].user && row.created == rows[id].created
    requires row.status == Rejected || IsLatest(rows, row.user, id)
    ensures OthersRejected(rows[id := row])
  {
    RewriteKeepsLatest(rows, id, row);
  }

  lemma StartOthers(rows: map<int, Attempt>, id: int, row: Attempt)
    requires OthersRejected(rows) && !HasOpen(rows, row.user) && id !in rows && row.status == Pending
    ensures OthersRejected(rows[id := row])
       <==> forall a <- rows :: rows[a].user == row.user ==>
           rows[a].created < row.created || (rows[a].created == row.created && a < id)
  {
    var after := rows[id := row];
    assert IsLatest(after, row.user, id)
      <==> forall a <- rows :: rows[a].user == row.user ==> Older(after, a, id);
    forall a | a in rows && rows[a].user != row.user
      ensures IsLatest(after, rows[a].user, a) <==> IsLatest(rows, rows[a].user, a)
    {
      assert forall b <- rows :: after[b] == rows[b];
    }
  }

  /** After one step the earlier attempts are still rejected exactly if no attempt was created out of order. */
  lemma StepOthers(rows: map<int, Attempt>, lifetime: int, request: Request)
    requires Sound(rows) && OthersRejected(rows) && Possible(rows, request.event)
    ensures var next := Step(rows, lifetime, request);
      OthersRejected(next.rows) <==> (Admits(rows, request) ==> InOrder(rows, request.event))
  {
    var next := Step(rows, lifetime, request);
    if next.ok {
      match request.event {
        case Start(_, id, _, _, _) =>
          StartOthers(rows, id, next.rows[id]);
        case Review(_, id, _) =>
          assert RowSound(rows, id);
          RewriteKeepsOthers(rows, id, next.rows[id]);
        case _ =>
          var id := Latest(rows, request.event.user).value;
          RewriteKeepsOthers(rows, id, next.rows[id]);
      }
    }
  }

  /**
   After a run the attempts other than the latest are all rejected exactly if every attempt
   was created after, in (created_at, id), all earlier attempts of its owner.
   */
  lemma {:induction false} OthersRejectedIffInOrder(rows: map<int, Attempt>, lifetime: int, requests: seq<Request>)
    requires Sound(rows) && OthersRejected(rows) && AllPossible(rows, lifetime, requests)
    ensures OthersRejected(Run(rows, lifetime, requests)) <==> AllInOrder(rows, lifetime, requests)
    decreases |requests|
  {
    if requests != [] {
      var next := Step(rows, lifetime, requests[0]).rows;
      StepOthers(rows, lifetime, requests[0]);
      StepKeepsSound(rows, lifetime, requests[0]);
      if OthersRejected(next) {
        OthersRejectedIffInOrder(next, lifetime, requests[1..]);
      } else {
        StuckOrRejected(next);
        var user :| Stuck(next, user);
        StuckForGood(next, lifetime, requests[1..], user);
        RunKeepsSound(next, lifetime, requests[1..]);
        StuckOrRejected(Run(next, lifetime, requests[1..]));
      }
    }
  }

  /******* A run that hides an attempt *******/

  const ACCOUNTS: map<int, Account> := map[1 := Account(true, true, true, false), 2 := Account(true, true, true, true)]
  const LIFETIME: int := 600 * SECOND

  // User 1 starts at 10 s with challenge 7, shows everything, submits, and user 2 rejects it.
  function Draft(evidence: map<Kind, Evidence>): Attempt {
    Attempt(1, Pending, 7, 610 * SECOND, 10 * SECOND, evidence, None, None, None)
  }

  const COMPLETE: map<Kind, Evidence> :=
    map[][Selfie := Evidence(1, None, 11 * SECOND)][WechatProof := Evidence(2, None, 11 * SECOND)]
       [HandwrittenCode := Evidence(3, Some(7), 11 * SECOND)]
  const SUBMITTED: Attempt := Draft(COMPLETE).(status := UnderReview, submitted := Some(12 * SECOND))
  const REJECTED: Attempt := SUBMITTED.(status := Rejected, reviewer := Some(2), reason := Some("blurred"))
  const AGAIN: Attempt := Attempt(1, Pending, 8, 630 * SECOND, 9 * SECOND, map[], None, None, None)

  function By(event: Event): Request {
    Request(ACCOUNTS, event)
  }

  lemma OnlyAttempt(row: Attempt)
    requires row.user == 1
    ensures Latest(map[5 := row], 1) == Some(5)
  {
    var rows := map[5 := row];
    assert IsLatest(rows, 1, 5);
    LatestIsUnique(rows, 1, 5);
  }

  lemma ExampleStart()
    ensures Step(map[], LIFETIME, By(Start(1, 5, 10 * SECOND, 10 * SECOND, 7))).rows == map[5 := Draft(map[])]
  {
    StoredOrder(610 * SECOND, 610 * SECOND);
    var none: map<int, Attempt> := map[];
    assert Latest(none, 1).None?;
  }

  lemma ExampleUpload(evidence: map<Kind, Evidence>, kind: Kind, key: int, shown: Option<int>)
    requires kind == HandwrittenCode ==> shown == Some(7)
    ensures Step(map[5 := Draft(evidence)], LIFETIME, By(Upload(1, kind, key, shown, 11 * SECOND))).rows
         == map[5 := Draft(evidence[kind := Evidence(key, shown, 11 * SECOND)])]
  {
    OnlyAttempt(Draft(evidence));
  }

  lemma ExampleSubmit()
    ensures Step(map[5 := Draft(COMPLETE)], LIFETIME, By(Submit(1, 12 * SECOND))).rows == map[5 := SUBMITTED]
  {
    OnlyAttempt(Draft(COMPLETE));
    assert COMPLETE.Keys == ALL_KINDS;
  }

  lemma ExampleReview()
    ensures Step(map[5 := SUBMITTED], LIFETIME, By(Review(2, 5, Some("blurred")))).rows == map[5 := REJECTED]
  {
    assert COMPLETE.Keys == ALL_KINDS;
  }

  lemma ExampleAgain()
    ensures var rows, start := map[5 := REJECTED], By(Start(1, 6, 30 * SECOND, 9 * SECOND, 8));
      && OthersRejected(rows) && Admits(rows, start) && !InOrder(rows, start.event)
      && Step(rows, LIFETIME, start) == Outcome(true, map[5 := REJECTED, 6 := AGAIN])
    ensures Stuck(map[5 := REJECTED, 6 := AGAIN], 1)
  {
    OnlyAttempt(REJECTED);
    StoredOrder(630 * SECOND, 630 * SECOND);
    var after := map[5 := REJECTED, 6 := AGAIN];
    assert Older(after, 6, 5) && !IsLatest(after, 1, 6);
    assert after[6].status == Pending;
  }

  lemma RunCons(rows: map<int, Attempt>, request: Request, requests: seq<Request>, after: map<int, Attempt>)
    requires Possible(rows, request.event) && AllPossible(Step(rows, LIFETIME, request).rows, LIFETIME, requests)
    requires Run(Step(rows, LIFETIME, request).rows, LIFETIME, requests) == after
    ensures AllPossible(rows, LIFETIME, [request] + requests) && Run(rows, LIFETIME, [request] + requests) == after
  {
    hide Step, Possible;
    assert ([request] + requests)[1..] == requests;
  }

  /** A clock that steps back between a rejection and the next attempt: a run from the empty
      table after which the user's draft is hidden for good. */
  lemma EarlierClockExample()
    ensures exists requests: seq<Request> ::
      AllPossible(map[], LIFETIME, requests) && Run(map[], LIFETIME, requests) == map[5 := REJECTED, 6 := AGAIN]
    ensures Stuck(map[5 := REJECTED, 6 := AGAIN], 1) && !OthersRejected(map[5 := REJECTED, 6 := AGAIN])
  {
    hide Step, Stuck;
    var end := map[5 := REJECTED, 6 := AGAIN];
    var one := map[][Selfie := Evidence(1, None, 11 * SECOND)];
    var two := one[WechatProof := Evidence(2, None, 11 * SECOND)];
    ExampleStart();
    ExampleUpload(map[], Selfie, 1, None);
    ExampleUpload(one, WechatProof, 2, None);
    ExampleUpload(two, HandwrittenCode, 3, Some(7));
    ExampleSubmit();
    ExampleReview();
    ExampleAgain();
    RunCons(map[5 := REJECTED], By(Start(1, 6, 30 * SECOND, 9 * SECOND, 8)), [], end);
    var again := [By(Start(1, 6, 30 * SECOND, 9 * SECOND, 8))] + [];
    RunCons(map[5 := SUBMITTED], By(Review(2, 5, Some("blurred"))), again, end);
    var review := [By(Review(2, 5, Some("blurred")))] + again;
    RunCons(map[5 := Draft(COMPLETE)], By(Submit(1, 12 * SECOND)), review, end);
    var submit := [By(Submit(1, 12 * SECOND))] + review;
    RunCons(map[5 := Draft(two)], By(Upload(1, HandwrittenCode, 3, Some(7), 11 * SECOND)), submit, end);
    var third := [By(Upload(1, HandwrittenCode, 3, Some(7), 11 * SECOND))] + submit;
    RunCons(map[5 := Draft(one)], By(Upload(1, WechatProof, 2, None, 11 * SECOND)), third, end);
    var second := [By(Upload(1, WechatProof, 2, None, 11 * SECOND))] + third;
    RunCons(map[5 := Draft(map[])], By(Upload(1, Selfie, 1, None, 11 * SECOND)), second, end);
    var first := [By(Upload(1, Selfie, 1, None, 11 * SECOND))] + second;
    RunCons(map[], By(Start(1, 5, 10 * SECOND, 10 * SECOND, 7)), first, end);
    NowHidden(end);
  }

  lemma NowHidden(rows: map<int, Attempt>)
    requires Stuck(rows, 1)
    ensures !OthersRejected(rows)
  {
  }

  /** latest: one pass over the user's attempts. */
  method FindLatest(rows: map<int, Attempt>, user: int) returns (latest: Option<int>)
    ensures latest == Latest(rows, user)
  {
    latest := None;
    var waiting := rows.Keys;
    while waiting != {}
      invariant waiting <= rows.Keys
      invariant latest.None? ==> forall a <- rows :: a !in waiting ==> rows[a].user != user
      invariant latest.Some? ==>
        && latest.value in rows && rows[latest.value].user == user
        && forall a <- rows :: a !in waiting && rows[a].user == user && a != latest.value ==>
            Older(rows, a, latest.value)
      decreases |waiting|
    {
      var a := Any(waiting);
      if rows[a].user == user && (latest.None? || Older(rows, latest.value, a)) {
        latest := Some(a);
      }
      waiting := waiting - {a};
    }
    if latest.Some? {
      assert IsLatest(rows, user, latest.value);
      LatestIsUnique(rows, user, latest.value);
    }
  }

  class SellerVerificationService {
    const lifetime: int
    var rows: map<int, Attempt>

    constructor (lifetime: int)
      ensures rows == map[] && Sound(rows) && this.lifetime == lifetime
    {
      this.lifetime, rows := lifetime, map[];
    }

    method Begin(accounts: map<int, Account>, user: int, id: int, now: int, created: int,
                 challenge: int) returns (ok: bool)
      requires Sound(rows) && id !in rows
      modifies this
      ensures Sound(rows)
      ensures Outcome(ok, rows)
          == Step(old(rows), lifetime, Request(accounts, Start(user, id, now, created, challenge)))
    {
      hide Sound;
      StepKeepsSound(rows, lifetime, Request(accounts, Start(user, id, now, created, challenge)));
      var latest := FindLatest(rows, user);
      if !Contactable(accounts, user) || (latest.Some? && rows[latest.value].status != Rejected) {
        return false;
      }
      if HasOpen(rows, user) {
        return false; // the insert violates the unique active slot
      }
      rows := rows[id := Attempt(user, Pending, challenge, Stored(now + lifetime), created, map[], None, None, None)];
      return true;
    }

    method RenewChallenge(accounts: map<int, Account>, user: int, now: int, challenge: int) returns (ok: bool)
      requires Sound(rows)
      modifies this
      ensures Sound(rows)
      ensures Outcome(ok, rows) == Step(old(rows), lifetime, Request(accounts, Renew(user, now, challenge)))
    {
      hide Sound;
      StepKeepsSound(rows, lifetime, Request(accounts, Renew(user, now, challenge)));
      var latest := FindLatest(rows, user);
      if !Contactable(accounts, user) || latest.None? || rows[latest.value].status != Pending {
        return false;
      }
      var row := rows[latest.value].(challenge := challenge, expires := Stored(now + lifetime));
      if HandwrittenCode in row.evidence {
        row := row.(evidence := row.evidence - {HandwrittenCode});
      }
      assert row.evidence == WithoutCode(rows[latest.value].evidence);
      rows := rows[latest.value := row];
      return true;
    }

    method SubmitDraft(accounts: map<int, Account>, user: int, now: int) returns (ok: bool)
      requires Sound(rows)
      modifies this
      ensures Sound(rows)
      ensures Outcome(ok, rows) == Step(old(rows), lifetime, Request(accounts, Submit(user, now)))
    {
      hide Sound;
      StepKeepsSound(rows, lifetime, Request(accounts, Submit(user, now)));
      var latest := FindLatest(rows, user);
      if !Contactable(accounts, user) || latest.None? || rows[latest.value].status != Pending {
        return false;
      }
      var row := rows[latest.value];
      if row.expires <= now || row.evidence.Keys != ALL_KINDS {
        return false;
      }
      rows := rows[latest.value := row.(status := UnderReview, submitted := Some(now))];
      return true;
    }

    method AddEvidence(accounts: map<int, Account>, user: int, kind: Kind, key: int, shown: Option<int>, now: int)
      returns (ok: bool)
      requires Sound(rows)
      modifies this
      ensures Sound(rows)
      ensures Outcome(ok, rows) == Step(old(rows), lifetime, Request(accounts, Upload(user, kind, key, shown, now)))
    {
      hide Sound;
      StepKeepsSound(rows, lifetime, Request(accounts, Upload(user, kind, key, shown, now)));
      var latest := FindLatest(rows, user);
      if !Contactable(accounts, user) || latest.None? || rows[latest.value].status != Pending {
        return false;
      }
      var row := rows[latest.value];
      if kind == HandwrittenCode && (row.expires <= now || shown != Some(row.challenge)) {
        return false;
      }
      rows := rows[latest.value := row.(evidence := row.evidence[kind := Evidence(key, shown, now)])];
      return true;
    }

    method ReviewAttempt(accounts: map<int, Account>, actor: int, id: int, reason: Option<string>) returns (ok: bool)
      requires Sound(rows)
      modifies this
      ensures Sound(rows)
      ensures Outcome(ok, rows) == Step(old(rows), lifetime, Request(accounts, Review(actor, id, reason)))
    {
      hide Sound;
      StepKeepsSound(rows, lifetime, Request(accounts, Review(actor, id, reason)));
      if id !in rows {
        return false;
      }
      var row := rows[id];
      if !Contactable(accounts, row.user) || actor !in accounts || !accounts[actor].active || !accounts[actor].admin {
        return false;
      }
      if row.user == actor || row.status != UnderReview || row.evidence.Keys != ALL_KINDS {
        return false;
      }
      var status := if reason.Some? then Rejected else Verified;
      rows := rows[id := row.(status := status, reason := reason, reviewer := Some(actor))];
      return true;
    }
  }
}
