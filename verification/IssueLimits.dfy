/**
 Cooldown and hourly limit shared by password-reset and email-verification challenges.

 A table of challenges is abstracted to the log of its issues in the order the rows were
 inserted: who, the time the request read, and the creation time the row stores of it.
 */
module IssueLimits {
  import opened Common

  const HOUR: int := 3600 * SECOND

  datatype Issue = Issue(user: int, read: int, at: int)

  function CountSince(log: seq<Issue>, user: int, since: int): nat {
    if log == [] then 0
    else
      var last := log[|log| - 1];
      CountSince(log[..|log| - 1], user, since) + if last.user == user && last.at >= since then 1 else 0
  }

  // The entries of the user made at or after a time.
  function RecentEntries(log: seq<Issue>, user: int, since: int): set<int> {
    set i | 0 <= i < |log| && log[i].user == user && log[i].at >= since
  }

  lemma RecentNext(log: seq<Issue>, user: int, since: int)
    requires log != []
    ensures var n := |log| - 1;
      RecentEntries(log, user, since) == RecentEntries(log[..n], user, since)
          + (if log[n].user == user && log[n].at >= since then {n} else {})
    ensures |log| - 1 !in RecentEntries(log[..|log| - 1], user, since)
  {
    var n := |log| - 1;
    forall i
      ensures i in RecentEntries(log, user, since) <==>
        i in RecentEntries(log[..n], user, since) || (i == n && log[n].user == user && log[n].at >= since)
    {
      assert 0 <= i < n ==> log[..n][i] == log[i];
    }
  }

  /** The counting query counts them. */
  lemma {:induction false} CountIsSize(log: seq<Issue>, user: int, since: int)
    ensures CountSince(log, user, since) == |RecentEntries(log, user, since)|
  {
    if log == [] {
      assert RecentEntries(log, user, since) == {};
    } else {
      hide RecentEntries;
      CountIsSize(log[..|log| - 1], user, since);
      RecentNext(log, user, since);
    }
  }

  // From `from` up to but not including `to`.
  function CountBetween(log: seq<Issue>, user: int, from: int, to: int): nat {
    if log == [] then 0
    else
      var last := log[|log| - 1];
      CountBetween(log[..|log| - 1], user, from, to) + if last.user == user && from <= last.at < to then 1 else 0
  }

  // The hour that starts at `from`, with and without its end.
  function InHour(log: seq<Issue>, user: int, from: int): nat {
    CountBetween(log, user, from, from + HOUR)
  }

  function InClosedHour(log: seq<Issue>, user: int, from: int): nat {
    CountBetween(log, user, from, from + HOUR + 1)
  }

  // Stored creation times of a user are at least a cooldown apart, and each request found
  // fewer than `limit` of them since an hour before the time it read.
  ghost predicate Paced(log: seq<Issue>, cooldown: int, limit: int) {
    && (forall i :: 0 <= i < |log| ==> log[i].at == Stored(log[i].read))
    && (forall i, j :: 0 <= i < j < |log| && log[i].user == log[j].user ==> log[j].at - log[i].at >= cooldown)
    && (forall j :: 0 <= j < |log| ==> CountSince(log[..j], log[j].user, log[j].read - HOUR) < limit)
  }

  lemma Gap(log: seq<Issue>, i: nat, j: nat, cooldown: int, limit: int)
    requires Paced(log, cooldown, limit) && i < j < |log|
    ensures log[i].user == log[j].user ==> log[j].at - log[i].at >= cooldown
  {
  }

  /** A cooldown of whole seconds survives the rounding, so the two checks keep the log paced. */
  lemma IssueKeepsPace(log: seq<Issue>, issue: Issue, cooldown: int, limit: int)
    requires Paced(log, cooldown, limit) && issue.at == Stored(issue.read) && Whole(cooldown)
    requires forall r <- log :: r.user == issue.user ==> issue.read - r.at >= cooldown
    requires CountSince(log, issue.user, issue.read - HOUR) < limit
    ensures Paced(log + [issue], cooldown, limit)
  {
    hide CountSince, Stored, Whole;
    var after := log + [issue];
    forall j | 0 <= j < |after|
      ensures CountSince(after[..j], after[j].user, after[j].read - HOUR) < limit
    {
      assert after[..j] == if j < |log| then log[..j] else log;
    }
    forall i | 0 <= i < |log| && log[i].user == issue.user
      ensures issue.at - log[i].at >= cooldown
    {
      assert log[i] in log;
      assert log[i].at == Stored(log[i].read);
      WholeSum(log[i].at, cooldown);
      StoredOrder(log[i].at + cooldown, issue.read);
    }
  }

  lemma CountNext(log: seq<Issue>, issue: Issue, user: int, from: int, to: int)
    ensures CountBetween(log + [issue], user, from, to)
         == CountBetween(log, user, from, to) + if issue.user == user && from <= issue.at < to then 1 else 0
  {
    assert (log + [issue])[..|log|] == log;
  }

  // The newest issue of a paced log.
  lemma LastPaced(log: seq<Issue>, issue: Issue, cooldown: int, limit: int)
    requires Paced(log + [issue], cooldown, limit)
    ensures Paced(log, cooldown, limit) && issue.at == Stored(issue.read)
    ensures CountSince(log, issue.user, issue.read - HOUR) < limit
    ensures forall e <- log :: e.user == issue.user ==> issue.at - e.at >= cooldown
    ensures forall e <- log :: Whole(e.at)
  {
    hide CountSince, Stored, Whole;
    var all := log + [issue];
    assert all[|log|] == issue && all[..|log|] == log;
    forall j | 0 <= j < |log|
      ensures all[j] == log[j] && CountSince(log[..j], log[j].user, log[j].read - HOUR) < limit
    {
      assert all[..j] == log[..j];
    }
    forall e | e in log
      ensures Whole(e.at) && (e.user == issue.user ==> issue.at - e.at >= cooldown)
    {
      var i :| 0 <= i < |log| && log[i] == e;
      Gap(all, i, |log|, cooldown, limit);
      assert all[i].at == Stored(all[i].read);
    }
  }

  // What is stored within the hour up to a new row was counted before it.
  lemma Counted(read: int, at: int)
    requires Whole(at) && Stored(read) - HOUR < at
    ensures read - HOUR <= at
  {
  }

  lemma HourStep(log: seq<Issue>, issue: Issue, user: int, from: int, cooldown: int, limit: int)
    requires Paced(log + [issue], cooldown, limit) && InHour(log, user, from) <= limit
    ensures InHour(log + [issue], user, from) <= limit
  {
    hide Stored, Whole, Paced, CountBetween, CountSince;
    LastPaced(log, issue, cooldown, limit);
    CountNext(log, issue, user, from, from + HOUR);
    if issue.user == user && from <= issue.at < from + HOUR {
      forall e | e in log && from <= e.at
        ensures issue.read - HOUR <= e.at
      {
        Counted(issue.read, e.at);
      }
      WiderCountsMore(log, user, from, from + HOUR, issue.read - HOUR);
    }
  }

  /** No hour, wherever it starts, holds more than `limit` issues of one user. */
  lemma {:induction false} HourlyWindow(log: seq<Issue>, user: int, from: int, cooldown: int, limit: int)
    requires Paced(log, cooldown, limit) && limit >= 0
    ensures InHour(log, user, from) <= limit
  {
    if log != [] {
      hide Paced;
      var init, last := log[..|log| - 1], log[|log| - 1];
      assert log == init + [last];
      LastPaced(init, last, cooldown, limit);
      HourlyWindow(init, user, from, cooldown, limit);
      HourStep(init, last, user, from, cooldown, limit);
    }
  }

  lemma {:induction false} WiderCountsMore(log: seq<Issue>, user: int, from: int, to: int, since: int)
    requires forall e <- log :: from <= e.at ==> since <= e.at
    ensures CountBetween(log, user, from, to) <= CountSince(log, user, since)
  {
    if log != [] {
      var init, last := log[..|log| - 1], log[|log| - 1];
      assert last in log;
      WiderCountsMore(init, user, from, to, since);
    }
  }

  /******* The closed hour *******/

  ghost predicate StoredAt(log: seq<Issue>, user: int, at: int) {
    exists e <- log :: e.user == user && e.at == at
  }

  // The request read a time past the second its row stores, an issue lies exactly an hour
  // before that second and so was not counted, and the count left room for just one more.
  ghost predicate OnTheHour(log: seq<Issue>, issue: Issue, limit: int) {
    && issue.at < issue.read
    && StoredAt(log, issue.user, issue.at - HOUR)
    && CountSince(log, issue.user, issue.read - HOUR) == limit - 1
  }

  // No issue of the user was of that kind when it was made.
  ghost predicate NeverOnTheHour(log: seq<Issue>, user: int, limit: int) {
    forall j :: 0 <= j < |log| && log[j].user == user ==> !OnTheHour(log[..j], log[j], limit)
  }

  ghost predicate ClosedHoursHold(log: seq<Issue>, user: int, limit: int) {
    forall from: int :: InClosedHour(log, user, from) <= limit
  }

  lemma {:induction false} SplitCount(log: seq<Issue>, user: int, from: int, middle: int)
    requires from <= middle
    ensures CountSince(log, user, from) == CountBetween(log, user, from, middle) + CountSince(log, user, middle)
  {
    if log != [] {
      SplitCount(log[..|log| - 1], user, from, middle);
    }
  }

  // What the second `second` holds, up to `to`: its own issue, if any.
  ghost predicate HoldsOne(log: seq<Issue>, user: int, second: int, to: int) {
    CountBetween(log, user, second, to) == if StoredAt(log, user, second) then 1 else 0
  }

  lemma HoldsOneStep(log: seq<Issue>, issue: Issue, user: int, second: int, to: int, cooldown: int, limit: int)
    requires Paced(log + [issue], cooldown, limit) && cooldown > 0 && Whole(second) && second < to <= second + SECOND
    requires HoldsOne(log, user, second, to)
    ensures HoldsOne(log + [issue], user, second, to)
  {
    hide Stored, Whole, Paced, CountBetween, StoredAt;
    LastPaced(log, issue, cooldown, limit);
    CountNext(log, issue, user, second, to);
    StoredNext(log, issue, user, second);
    if second <= issue.at < second + SECOND { SameSecond(second, issue.at); }
    if issue.user == user && issue.at == second { NotStoredTwice(log, issue); }
  }

  // Below the next whole second only the second itself can hold issues, and at most one.
  lemma {:induction false} AtMostOne(log: seq<Issue>, user: int, second: int, to: int, cooldown: int, limit: int)
    requires Paced(log, cooldown, limit) && cooldown > 0 && Whole(second) && second < to <= second + SECOND
    ensures HoldsOne(log, user, second, to)
  {
    if log != [] {
      hide Paced, Whole, HoldsOne;
      var init, last := log[..|log| - 1], log[|log| - 1];
      assert log == init + [last];
      LastPaced(init, last, cooldown, limit);
      AtMostOne(init, user, second, to, cooldown, limit);
      HoldsOneStep(init, last, user, second, to, cooldown, limit);
    }
  }

  lemma StoredNext(log: seq<Issue>, issue: Issue, user: int, at: int)
    ensures StoredAt(log + [issue], user, at) <==> StoredAt(log, user, at) || (issue.user == user && issue.at == at)
  {
    if StoredAt(log, user, at) {
      var e :| e in log && e.user == user && e.at == at;
      assert e in log + [issue];
    }
    if issue.user == user && issue.at == at { assert issue in log + [issue]; }
  }

  lemma NotStoredTwice(log: seq<Issue>, issue: Issue)
    requires forall e <- log :: e.user == issue.user ==> e.at < issue.at
    ensures !StoredAt(log, issue.user, issue.at)
  {
  }

  lemma HourBefore(at: int)
    requires Whole(at)
    ensures Whole(at - HOUR) && Whole(at + HOUR)
  {
  }

  // The issues up to an hour before the new row, whatever the request counted.
  lemma ClosedCount(log: seq<Issue>, issue: Issue, cooldown: int, limit: int)
    requires Paced(log + [issue], cooldown, limit) && cooldown > 0
    ensures CountSince(log, issue.user, issue.at - HOUR) <= limit
    ensures CountSince(log, issue.user, issue.at - HOUR) == limit <==> OnTheHour(log, issue, limit)
  {
    hide Stored, Whole, Paced, CountSince, CountBetween;
    var start, counted := issue.at - HOUR, issue.read - HOUR;
    LastPaced(log, issue, cooldown, limit);
    HourBefore(issue.at);
    if issue.at < issue.read {
      SplitCount(log, issue.user, start, counted);
      AtMostOne(log, issue.user, start, counted, cooldown, limit);
    } else {
      SplitCount(log, issue.user, counted, start);
    }
  }

  // A closed hour that reaches to the new row ends with it at the latest.
  lemma ClosedHourUpTo(log: seq<Issue>, issue: Issue, from: int)
    requires from <= issue.at <= from + HOUR
    ensures CountBetween(log, issue.user, from, from + HOUR + 1) <= CountSince(log, issue.user, issue.at - HOUR)
  {
    WiderCountsMore(log, issue.user, from, from + HOUR + 1, issue.at - HOUR);
  }

  lemma {:induction false} AllBefore(log: seq<Issue>, user: int, from: int, to: int)
    requires forall e <- log :: e.user == user ==> e.at < to
    ensures CountBetween(log, user, from, to) == CountSince(log, user, from)
  {
    if log != [] {
      assert log[|log| - 1] in log;
      AllBefore(log[..|log| - 1], user, from, to);
    }
  }

  lemma ClosedHourStep(log: seq<Issue>, issue: Issue, user: int, cooldown: int, limit: int)
    requires Paced(log + [issue], cooldown, limit) && cooldown > 0
    ensures ClosedHoursHold(log + [issue], user, limit)
       <==> ClosedHoursHold(log, user, limit) && (issue.user == user ==> !OnTheHour(log, issue, limit))
  {
    hide Stored, Whole, Paced;
    var all := log + [issue];
    assert all[..|log|] == log && all[|log|] == issue;
    ClosedCount(log, issue, cooldown, limit);
    forall from: int
      ensures InClosedHour(log, user, from) <= InClosedHour(all, user, from)
      ensures issue.user == user && from <= issue.at <= from + HOUR ==>
        InClosedHour(log, user, from) <= CountSince(log, user, issue.at - HOUR)
      ensures !(issue.user == user && from <= issue.at <= from + HOUR) ==>
          InClosedHour(all, user, from) == InClosedHour(log, user, from)
    {
      if issue.user == user && from <= issue.at <= from + HOUR { ClosedHourUpTo(log, issue, from); }
    }
    if issue.user == user {
      LastPaced(log, issue, cooldown, limit);
      AllBefore(log, user, issue.at - HOUR, issue.at + 1);
      assert InClosedHour(all, user, issue.at - HOUR) == CountSince(log, user, issue.at - HOUR) + 1;
    }
    if ClosedHoursHold(all, user, limit) {
      forall from: int
        ensures InClosedHour(log, user, from) <= limit
      {
        assert InClosedHour(all, user, from) <= limit;
      }
    }
  }

  /**
   Closed hours hold at most one issue too many, and they all keep the limit exactly if no
   request came just after the second that its row stores, an hour after an earlier one.
   */
  lemma {:induction false} ClosedHourIsExact(log: seq<Issue>, user: int, cooldown: int, limit: int)
    requires Paced(log, cooldown, limit) && cooldown > 0 && limit >= 0
    ensures ClosedHoursHold(log, user, limit) <==> NeverOnTheHour(log, user, limit)
    ensures ClosedHoursHold(log, user, limit + 1)
  {
    if log != [] {
      hide Stored, Whole, Paced, OnTheHour, InClosedHour;
      var init, last := log[..|log| - 1], log[|log| - 1];
      assert log == init + [last];
      LastPaced(init, last, cooldown, limit);
      ClosedHourIsExact(init, user, cooldown, limit);
      ClosedHourStep(init, last, user, cooldown, limit);
      NeverOnTheHourStep(init, last, user, limit);
    }
    forall from: int
      ensures InClosedHour(log, user, from) <= limit + 1
    {
      OneMore(log, user, from, cooldown, limit);
    }
  }

  lemma NeverOnTheHourStep(log: seq<Issue>, issue: Issue, user: int, limit: int)
    ensures NeverOnTheHour(log + [issue], user, limit)
       <==> NeverOnTheHour(log, user, limit) && (issue.user == user ==> !OnTheHour(log, issue, limit))
  {
    hide OnTheHour;
    var all := log + [issue];
    assert all[|log|] == issue && all[..|log|] == log;
    assert forall j :: 0 <= j < |log| ==> all[..j] == log[..j] && all[j] == log[j];
  }

  lemma OneMore(log: seq<Issue>, user: int, from: int, cooldown: int, limit: int)
    requires Paced(log, cooldown, limit) && cooldown > 0 && limit >= 0
    ensures InClosedHour(log, user, from) <= limit + 1
  {
    hide Stored, Whole;
    HourlyWindow(log, user, from, cooldown, limit);
    SplitBetween(log, user, from, from + HOUR, from + HOUR + 1);
    if Whole(from + HOUR) {
      AtMostOne(log, user, from + HOUR, from + HOUR + 1, cooldown, limit);
    } else {
      NoFraction(log, user, from + HOUR, cooldown, limit);
    }
  }

  lemma {:induction false} SplitBetween(log: seq<Issue>, user: int, from: int, middle: int, to: int)
    requires from <= middle <= to
    ensures CountBetween(log, user, from, to)
        == CountBetween(log, user, from, middle) + CountBetween(log, user, middle, to)
  {
    if log != [] {
      SplitBetween(log[..|log| - 1], user, from, middle, to);
    }
  }

  lemma {:induction false} NoFraction(log: seq<Issue>, user: int, at: int, cooldown: int, limit: int)
    requires Paced(log, cooldown, limit) && !Whole(at)
    ensures CountBetween(log, user, at, at + 1) == 0
  {
    if log != [] {
      hide Stored, Whole, Paced, CountBetween;
      var init, last := log[..|log| - 1], log[|log| - 1];
      assert log == init + [last];
      LastPaced(init, last, cooldown, limit);
      CountNext(init, last, user, at, at + 1);
      NoFraction(init, user, at, cooldown, limit);
    }
  }

  /******* A closed hour with one too many *******/

  function AtSecond(s: int): Issue {
    Issue(1, 1_000_000 * s, 1_000_000 * s)
  }

  // Issues a minute apart, from second 1000 on, and one 0.4 s past the hour after the first.
  function Minutely(n: nat): seq<Issue> {
    if n == 0 then [] else Minutely(n - 1) + [AtSecond(1000 + 60 * (n - 1))]
  }

  const LATE: Issue := Issue(1, 4_600_400_000, 4_600_000_000)

  lemma {:induction false} MinutelyTimes(n: nat)
    ensures forall e <- Minutely(n) :: e.at <= 1_000_000 * (1000 + 60 * (n - 1))
    ensures n > 0 ==> StoredAt(Minutely(n), 1, 1_000_000_000)
  {
    if n > 0 {
      MinutelyTimes(n - 1);
      assert AtSecond(1000 + 60 * (n - 1)) in Minutely(n);
      StoredNext(Minutely(n - 1), AtSecond(1000 + 60 * (n - 1)), 1, 1_000_000_000);
    }
  }

  lemma {:induction false} MinutelyPaced(n: nat)
    requires n <= 5
    ensures Paced(Minutely(n), 60 * SECOND, 5)
  {
    hide Paced, CountSince;
    if n == 0 {
      EmptyIsPaced(60 * SECOND, 5);
    } else {
      MinutelyPaced(n - 1);
      MinutelyNext(n - 1);
    }
  }

  lemma EmptyIsPaced(cooldown: int, limit: int)
    ensures Paced([], cooldown, limit)
  {
  }

  lemma MinutelyNext(n: nat)
    requires n < 5 && Paced(Minutely(n), 60 * SECOND, 5)
    ensures Paced(Minutely(n) + [AtSecond(1000 + 60 * n)], 60 * SECOND, 5)
  {
    hide CountSince, Paced, Stored, Whole, Minutely;
    var issue := AtSecond(1000 + 60 * n);
    MinutelyTimes(n);
    MinutelyCount(n, issue.read - HOUR);
    SecondsAreStored(1000 + 60 * n);
    SecondsAreStored(60);
    IssueKeepsPace(Minutely(n), issue, 60 * SECOND, 5);
  }

  lemma SecondsAreStored(s: int)
    ensures Whole(1_000_000 * s) && Stored(1_000_000 * s) == 1_000_000 * s
  {
    StoredOrder(1_000_000 * s, 1_000_000 * s);
  }

  lemma {:induction false} MinutelyCount(n: nat, since: int)
    ensures since <= 1_000_000_000 ==> CountSince(Minutely(n), 1, since) == n
    ensures 1_000_000_000 < since <= 1_060_000_000 ==> CountSince(Minutely(n), 1, since) == if n == 0 then 0 else n - 1
  {
    if n > 0 {
      assert Minutely(n)[..n - 1] == Minutely(n - 1) by { MinutelyLength(n - 1); }
      MinutelyLength(n);
      MinutelyCount(n - 1, since);
    }
  }

  lemma {:induction false} MinutelyLength(n: nat)
    ensures |Minutely(n)| == n
  {
    if n > 0 {
      MinutelyLength(n - 1);
    }
  }

  /** With a limit of five and a cooldown of a minute a sixth issue is let through, and one closed hour holds six. */
  lemma ClosedHourExample()
    ensures Paced(Minutely(5) + [LATE], 60 * SECOND, 5) && OnTheHour(Minutely(5), LATE, 5)
    ensures InClosedHour(Minutely(5) + [LATE], 1, 1000 * SECOND) == 6
  {
    hide CountSince, CountBetween, Minutely, Paced, StoredAt;
    var log, start := Minutely(5), 1_000_000_000;
    MinutelyPaced(5);
    MinutelyTimes(5);
    MinutelyCount(5, LATE.read - HOUR);
    MinutelyCount(5, start);
    SecondsAreStored(60);
    IssueKeepsPace(log, LATE, 60 * SECOND, 5);
    AllBefore(log, 1, start, start + HOUR + 1);
    CountNext(log, LATE, 1, start, start + HOUR + 1);
  }
}
