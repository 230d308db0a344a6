/**
 Sliding-window rate limiter (core/rate_limit.py).

 The limiter keeps one bounded list of times per key, drops times that have left the
 window and evicts idle keys.  It is proved to decide exactly like an unbounded log of
 every admitted request, and its retry hint is proved exact.
 */
module RateLimiting {
  import opened Common

  datatype Admission = Admission(key: string, at: real)

  datatype Decision = Allowed | Rejected(retryAfter: int)

  datatype Limits = Limits(maxRequests: int, window: int, maxKeys: int) {
    predicate Positive() {
      maxRequests >= 1 && window >= 1 && maxKeys >= 1
    }
  }

  /******* The unbounded log *******/

  // The admission times of `key` later than `cutoff`, oldest first.
  ghost function Since(log: seq<Admission>, key: string, cutoff: real): seq<real> {
    if log == [] then []
    else
      var last := log[|log| - 1];
      Since(log[..|log| - 1], key, cutoff) + (if last.key == key && last.at > cutoff then [last.at] else [])
  }

  ghost function KeysSince(log: seq<Admission>, cutoff: real): set<string> {
    set a <- log | a.at > cutoff :: a.key
  }

  // The reference decision: the key has used up its window, or it would be one active key too many.
  ghost predicate Blocked(limits: Limits, log: seq<Admission>, key: string, now: real) {
    var cutoff := now - limits.window as real;
    || |Since(log, key, cutoff)| >= limits.maxRequests
    || (Since(log, key, cutoff) == [] && |KeysSince(log, cutoff)| >= limits.maxKeys)
  }

  // The admissions of the key, and of anyone, later than a time, by their places in the log.
  ghost function Admissions(log: seq<Admission>, key: string, cutoff: real): set<int> {
    set i | 0 <= i < |log| && log[i].key == key && log[i].at > cutoff
  }

  lemma AdmissionsNext(log: seq<Admission>, key: string, cutoff: real)
    requires log != []
    ensures var n := |log| - 1;
      Admissions(log, key, cutoff) == Admissions(log[..n], key, cutoff)
          + (if log[n].key == key && log[n].at > cutoff then {n} else {})
    ensures |log| - 1 !in Admissions(log[..|log| - 1], key, cutoff)
  {
    var n := |log| - 1;
    forall i
      ensures i in Admissions(log, key, cutoff) <==>
        i in Admissions(log[..n], key, cutoff) || (i == n && log[n].key == key && log[n].at > cutoff)
    {
      assert 0 <= i < n ==> log[..n][i] == log[i];
    }
  }

  lemma {:induction false} SinceIsSize(log: seq<Admission>, key: string, cutoff: real)
    ensures |Since(log, key, cutoff)| == |Admissions(log, key, cutoff)|
  {
    if log == [] {
      assert Admissions(log, key, cutoff) == {};
    } else {
      hide Admissions;
      SinceIsSize(log[..|log| - 1], key, cutoff);
      AdmissionsNext(log, key, cutoff);
    }
  }

  /** A request is blocked exactly if the key was admitted max_requests times in the window before it,
      or is not one of max_keys keys that were admitted in it. */
  lemma BlockedMeans(limits: Limits, log: seq<Admission>, key: string, now: real)
    ensures var from := now - limits.window as real;
      Blocked(limits, log, key, now) <==>
        || |Admissions(log, key, from)| >= limits.maxRequests
        || ((forall a <- log :: a.key == key ==> a.at <= from)
            && |set a <- log | a.at > from :: a.key| >= limits.maxKeys)
  {
    var from := now - limits.window as real;
    SinceIsSize(log, key, from);
    assert |Admissions(log, key, from)| == 0 <==> forall a <- log :: a.key == key ==> a.at <= from by {
      if i :| i in Admissions(log, key, from) { assert log[i] in log; }
      if a :| a in log && a.key == key && a.at > from {
        var i :| 0 <= i < |log| && log[i] == a;
        assert i in Admissions(log, key, from);
      }
    }
  }

  // `r` whole seconds is the exact wait: not blocked after r, still blocked a second earlier.
  ghost predicate ExactWait(limits: Limits, log: seq<Admission>, key: string, now: real, r: int) {
    && 1 <= r <= limits.window
    && !BlockedAfter(limits, log, key, now, r)
    && (forall earlier: int :: 0 <= earlier < r ==> BlockedAfter(limits, log, key, now, earlier))
  }

  ghost predicate BlockedAfter(limits: Limits, log: seq<Admission>, key: string, now: real, seconds: int) {
    Blocked(limits, log, key, now + seconds as real)
  }

  ghost predicate Ordered(times: seq<real>) {
    forall i, j :: 0 <= i < j < |times| ==> times[i] <= times[j]
  }

  ghost predicate Chronological(log: seq<Admission>, now: real) {
    && (forall i, j :: 0 <= i < j < |log| ==> log[i].at <= log[j].at)
    && (forall a <- log :: a.at <= now)
  }

  function Ceil(x: real): (r: int)
    ensures r as real - 1.0 < x <= r as real
  {
    -((-x).Floor)
  }

  lemma {:induction false} SinceOrdered(log: seq<Admission>, key: string, cutoff: real, now: real)
    requires Chronological(log, now)
    ensures var s := Since(log, key, cutoff);
            Ordered(s) && forall i :: 0 <= i < |s| ==> cutoff < s[i] <= now
  {
    if log != [] {
      var init, a := log[..|log| - 1], log[|log| - 1];
      assert Chronological(init, a.at);
      SinceOrdered(init, key, cutoff, a.at);
    }
  }

  lemma {:induction false} SinceActive(log: seq<Admission>, key: string, cutoff: real)
    ensures Since(log, key, cutoff) != [] <==> key in KeysSince(log, cutoff)
  {
    if log != [] {
      var init, a := log[..|log| - 1], log[|log| - 1];
      assert log == init + [a];
      SinceActive(init, key, cutoff);
      KeysSinceSnoc(init, a, cutoff);
    }
  }

  // `max(1, math.ceil(wait))`.
  function Hint(wait: real): int {
    if Ceil(wait) < 1 then 1 else Ceil(wait)
  }

  lemma KeysSinceSnoc(log: seq<Admission>, a: Admission, cutoff: real)
    ensures KeysSince(log + [a], cutoff) == KeysSince(log, cutoff) + if a.at > cutoff then {a.key} else {}
  {
  }

  lemma {:induction false} SinceNone(log: seq<Admission>, key: string, cutoff: real)
    requires forall i :: 0 <= i < |log| ==> log[i].at <= cutoff
    ensures Since(log, key, cutoff) == []
  {
    if log != [] {
      SinceNone(log[..|log| - 1], key, cutoff);
    }
  }

  // A later cutoff drops a prefix.
  lemma {:induction false} SinceLater(log: seq<Admission>, key: string, early: real, late: real, now: real)
    returns (k: nat)
    requires Chronological(log, now) && early <= late
    ensures var s := Since(log, key, early);
            k <= |s| && Since(log, key, late) == s[k..] && forall i :: 0 <= i < k ==> s[i] <= late
  {
    var s := Since(log, key, early);
    k := 0;
    if log != [] {
      var init, a := log[..|log| - 1], log[|log| - 1];
      if a.at <= late {
        SinceNone(log, key, late);
        SinceOrdered(log, key, early, late);
        k := |s|;
      } else {
        var t, tail := Since(init, key, early), if a.key == key then [a.at] else [];
        assert Chronological(init, now);
        k := SinceLater(init, key, early, late, now);
        assert s == t + tail && (t + tail)[k..] == t[k..] + tail;
        assert forall i :: 0 <= i < k ==> s[i] == t[i];
      }
    }
  }

  // A cutoff below every remembered time changes nothing.
  lemma SinceSame(log: seq<Admission>, key: string, early: real, late: real, now: real)
    requires Chronological(log, now) && early <= late
    requires var s := Since(log, key, early); forall i :: 0 <= i < |s| ==> s[i] > late
    ensures Since(log, key, late) == Since(log, key, early)
  {
    var s := Since(log, key, early);
    if s != [] {
      SinceTrimmed(log, key, early, late, now, 0);
    } else {
      var _ := SinceLater(log, key, early, late, now);
    }
  }

  // Dropping the times up to `late` from the front leaves exactly the later ones.
  lemma SinceTrimmed(log: seq<Admission>, key: string, early: real, late: real, now: real, i: nat)
    requires Chronological(log, now) && early <= late
    requires var s := Since(log, key, early);
             i <= |s| && (forall j :: 0 <= j < i ==> s[j] <= late) && (i < |s| ==> s[i] > late)
    ensures Since(log, key, late) == Since(log, key, early)[i..]
  {
    var s := Since(log, key, early);
    var k := SinceLater(log, key, early, late, now);
    SinceOrdered(log, key, late, now);
    assert k < |s| ==> s[k..][0] == s[k];
  }

  /******* The exact wait *******/

  ghost predicate Bounded(limits: Limits, log: seq<Admission>, now: real) {
    var cutoff := now - limits.window as real;
    && limits.Positive() && Chronological(log, now)
    && (forall k: string :: |Since(log, k, cutoff)| <= limits.maxRequests)
    && |KeysSince(log, cutoff)| <= limits.maxKeys
  }

  lemma KeysShrink(log: seq<Admission>, early: real, late: real, key: string, now: real)
    requires Chronological(log, now) && early <= late
    ensures Since(log, key, early) != [] && Since(log, key, late) == []
        ==> |KeysSince(log, late)| < |KeysSince(log, early)|
  {
    SinceActive(log, key, early);
    SinceActive(log, key, late);
    var a, b := KeysSince(log, late), KeysSince(log, early);
    assert b == a + (b - a);
    if key in b - a {
      assert |b - a| > 0;
    }
  }

  // From a real wait to the hint in whole seconds.
  lemma WaitInSeconds(limits: Limits, log: seq<Admission>, key: string, now: real, wait: real)
    requires 0.0 < wait <= limits.window as real
    requires forall at: real :: now <= at < now + wait ==> Blocked(limits, log, key, at)
    requires forall at: real :: at >= now + wait ==> !Blocked(limits, log, key, at)
    ensures ExactWait(limits, log, key, now, Hint(wait))
  {
    var r := Hint(wait);
    forall earlier: int | 0 <= earlier < r
      ensures BlockedAfter(limits, log, key, now, earlier)
    {
      assert earlier as real <= (r - 1) as real < wait;
    }
  }

  // A key that used up its window waits until its oldest remembered request leaves it.
  lemma FullWait(limits: Limits, log: seq<Admission>, key: string, now: real)
    requires Bounded(limits, log, now)
    requires |Since(log, key, now - limits.window as real)| >= limits.maxRequests
    ensures ExactWait(limits, log, key, now,
              Hint(limits.window as real - (now - Since(log, key, now - limits.window as real)[0])))
  {
    hide Since, KeysSince, ExactWait;
    var w, cutoff := limits.window as real, now - limits.window as real;
    var s := Since(log, key, cutoff);
    SinceOrdered(log, key, cutoff, now);
    var first := s[0];
    assert forall i :: 0 <= i < |s| ==> first <= s[i];
    forall at: real | now <= at < first + w
      ensures Blocked(limits, log, key, at)
    {
      SinceSame(log, key, cutoff, at - w, now);
    }
    forall at: real | at >= first + w
      ensures !Blocked(limits, log, key, at)
    {
      FreedSlot(log, key, cutoff, at - w, now);
    }
    WaitInSeconds(limits, log, key, now, w - (now - first));
  }

  lemma FreedSlot(log: seq<Admission>, key: string, cutoff: real, late: real, now: real)
    requires Chronological(log, now) && cutoff <= late && Since(log, key, cutoff) != []
    requires Since(log, key, cutoff)[0] <= late
    ensures |Since(log, key, late)| < |Since(log, key, cutoff)|
    ensures Since(log, key, late) == [] ==> |KeysSince(log, late)| < |KeysSince(log, cutoff)|
  {
    var k := SinceLater(log, key, cutoff, late, now);
    SinceOrdered(log, key, late, now);
    KeysShrink(log, cutoff, late, key, now);
    assert Since(log, key, late) == [] || Since(log, key, late)[0] > late;
  }

  // `idle` is the key whose latest request, at `last`, is the oldest among active keys.
  ghost predicate LongestIdle(log: seq<Admission>, cutoff: real, idle: string, last: real) {
    && Since(log, idle, cutoff) != []
    && Latest(log, idle, cutoff) == last
    && forall k: string :: Since(log, k, cutoff) != [] ==> Latest(log, k, cutoff) >= last
  }

  ghost function Latest(log: seq<Admission>, key: string, cutoff: real): real
    requires Since(log, key, cutoff) != []
  {
    var s := Since(log, key, cutoff);
    s[|s| - 1]
  }

  // A new key waits until the key that has been idle longest leaves the window.
  lemma CrowdedWait(limits: Limits, log: seq<Admission>, key: string, now: real, idle: string, last: real)
    requires Bounded(limits, log, now)
    requires var cutoff := now - limits.window as real;
      && Since(log, key, cutoff) == [] && |KeysSince(log, cutoff)| >= limits.maxKeys
      && LongestIdle(log, cutoff, idle, last)
    ensures ExactWait(limits, log, key, now, Hint(last + limits.window as real - now))
  {
    hide Since, KeysSince, ExactWait;
    var w, cutoff := limits.window as real, now - limits.window as real;
    SinceOrdered(log, idle, cutoff, now);
    forall at: real | now <= at < last + w
      ensures Blocked(limits, log, key, at)
    {
      SinceSame(log, key, cutoff, at - w, now);
      StillCrowded(log, cutoff, at - w, now, idle, last);
    }
    forall at: real | at >= last + w
      ensures !Blocked(limits, log, key, at)
    {
      SinceSame(log, key, cutoff, at - w, now);
      LessCrowded(log, cutoff, at - w, now, idle, last);
    }
    WaitInSeconds(limits, log, key, now, last + w - now);
  }

  lemma StillCrowded(log: seq<Admission>, cutoff: real, late: real, now: real, idle: string, last: real)
    requires Chronological(log, now) && cutoff <= late < last
    requires LongestIdle(log, cutoff, idle, last)
    ensures KeysSince(log, late) == KeysSince(log, cutoff)
  {
    forall k | k in KeysSince(log, cutoff)
      ensures k in KeysSince(log, late)
    {
      SinceActive(log, k, cutoff);
      SinceActive(log, k, late);
      var s := Since(log, k, cutoff);
      assert Latest(log, k, cutoff) >= last;
      var i := SinceLater(log, k, cutoff, late, now);
      assert i != |s|;
    }
  }

  lemma LessCrowded(log: seq<Admission>, cutoff: real, late: real, now: real, idle: string, last: real)
    requires Chronological(log, now) && cutoff < last <= late
    requires LongestIdle(log, cutoff, idle, last)
    ensures |KeysSince(log, late)| < |KeysSince(log, cutoff)|
  {
    SinceOrdered(log, idle, cutoff, now);
    SinceTrimmed(log, idle, cutoff, late, now, |Since(log, idle, cutoff)|);
    KeysShrink(log, cutoff, late, idle, now);
  }

  /******* The bounded limiter *******/

  // The times kept for one key are what the log holds for it after some passed cutoff.
  ghost predicate Remembered(times: seq<real>, log: seq<Admission>, key: string, cutoff: real) {
    exists since: real :: since <= cutoff && times == Since(log, key, since)
  }

  ghost predicate Tracks(limits: Limits, requests: map<string, seq<real>>, log: seq<Admission>, clock: real) {
    var cutoff := clock - limits.window as real;
    && limits.Positive() && Chronological(log, clock)
    && |requests| <= limits.maxKeys
    && (forall k <- requests :: 1 <= |requests[k]| <= limits.maxRequests && Remembered(requests[k], log, k, cutoff))
    && (forall k: string :: k !in requests ==> Since(log, k, cutoff) == [])
  }

  lemma RememberedFacts(times: seq<real>, log: seq<Admission>, key: string, cutoff: real, clock: real)
    requires Chronological(log, clock) && Remembered(times, log, key, cutoff)
    ensures Ordered(times)
    ensures forall i :: 0 <= i < |times| ==> times[i] <= clock
  {
    var since :| since <= cutoff && times == Since(log, key, since);
    SinceOrdered(log, key, since, clock);
  }

  // Dropping outdated times from the front of a list leaves the log's view of the window.
  lemma RememberedTrimmed(times: seq<real>, log: seq<Admission>, key: string, early: real, late: real, clock: real,
                          i: nat)
    requires Chronological(log, clock) && Remembered(times, log, key, early) && early <= late
    requires i <= |times| && (forall j :: 0 <= j < i ==> times[j] <= late) && (i < |times| ==> times[i] > late)
    ensures Since(log, key, late) == times[i..]
  {
    var since :| since <= early && times == Since(log, key, since);
    SinceTrimmed(log, key, since, late, clock, i);
  }

  // A key is active exactly when the latest time kept for it is inside the window.
  lemma ActiveKey(limits: Limits, requests: map<string, seq<real>>, log: seq<Admission>, clock: real, key: string,
                  cutoff: real)
    requires Tracks(limits, requests, log, clock) && clock - limits.window as real <= cutoff
    ensures Since(log, key, cutoff) != [] <==> key in requests && requests[key][|requests[key]| - 1] > cutoff
    ensures Since(log, key, cutoff) != [] ==> Latest(log, key, cutoff) == requests[key][|requests[key]| - 1]
  {
    hide Since;
    var early := clock - limits.window as real;
    if key in requests {
      RememberedActive(requests[key], log, key, early, cutoff, clock);
    } else {
      var _ := SinceLater(log, key, early, cutoff, clock);
    }
  }

  lemma RememberedActive(times: seq<real>, log: seq<Admission>, key: string, early: real, late: real, clock: real)
    requires Chronological(log, clock) && Remembered(times, log, key, early) && early <= late && times != []
    ensures Since(log, key, late) != [] <==> times[|times| - 1] > late
    ensures Since(log, key, late) != [] ==> Latest(log, key, late) == times[|times| - 1]
  {
    RememberedFacts(times, log, key, early, clock);
    if times[|times| - 1] <= late {
      RememberedTrimmed(times, log, key, early, late, clock, |times|);
    } else {
      var i := FirstLater(times, late);
      RememberedTrimmed(times, log, key, early, late, clock, i);
    }
  }

  lemma FirstLater(times: seq<real>, cutoff: real) returns (i: nat)
    requires times != [] && times[|times| - 1] > cutoff && Ordered(times)
    ensures i < |times| && times[i] > cutoff && forall j :: 0 <= j < i ==> times[j] <= cutoff
  {
    i := 0;
    while times[i] <= cutoff
      invariant i < |times| && forall j :: 0 <= j < i ==> times[j] <= cutoff
      decreases |times| - i
    {
      i := i + 1;
    }
  }

  // What the bounded table guarantees about the log itself.
  lemma TrackedIsBounded(limits: Limits, requests: map<string, seq<real>>, log: seq<Admission>, clock: real, now: real)
    requires Tracks(limits, requests, log, clock) && clock <= now
    ensures Bounded(limits, log, now)
  {
    var cutoff := now - limits.window as real;
    forall k: string
      ensures |Since(log, k, cutoff)| <= limits.maxRequests
    {
      var early := clock - limits.window as real;
      if k in requests {
        var since :| since <= early && requests[k] == Since(log, k, since);
        var _ := SinceLater(log, k, since, cutoff, clock);
      } else {
        var _ := SinceLater(log, k, early, cutoff, clock);
      }
    }
    forall k | k in KeysSince(log, cutoff)
      ensures k in requests.Keys
    {
      SinceActive(log, k, cutoff);
      ActiveKey(limits, requests, log, clock, k, cutoff);
    }
    SubsetSize(KeysSince(log, cutoff), requests.Keys);
  }

  lemma SinceSnoc(log: seq<Admission>, a: Admission, key: string, cutoff: real)
    ensures Since(log + [a], key, cutoff)
         == Since(log, key, cutoff) + (if a.key == key && a.at > cutoff then [a.at] else [])
  {
    assert (log + [a])[..|log|] == log;
  }

  // Recording an admission, once the key's list holds exactly its window.
  lemma Admit(limits: Limits, requests: map<string, seq<real>>, log: seq<Admission>, clock: real, now: real,
              key: string)
    requires Tracks(limits, requests, log, clock) && clock <= now
    requires |Since(log, key, now - limits.window as real)| < limits.maxRequests
    requires |requests.Keys + {key}| <= limits.maxKeys
    ensures Tracks(limits, requests[key := Since(log, key, now - limits.window as real) + [now]],
                   log + [Admission(key, now)], now)
  {
    var cutoff := now - limits.window as real;
    hide Since;
    var a := Admission(key, now);
    var times := Since(log, key, cutoff) + [now];
    var requests' := requests[key := times];
    assert requests'.Keys == requests.Keys + {key};
    Ageing(limits, requests, log, clock, now);
    ChronologicalSnoc(log, a, now);
    SinceSnoc(log, a, key, cutoff);
    assert Remembered(times, log + [a], key, cutoff);
    forall k: string | k != key
      ensures k !in requests ==> Since(log + [a], k, cutoff) == []
      ensures k in requests ==> Remembered(requests[k], log + [a], k, cutoff)
    {
      SinceSnoc(log, a, k, cutoff);
      if k in requests {
        RememberedSnoc(requests[k], log, a, k, cutoff);
      }
    }
  }

  lemma ChronologicalSnoc(log: seq<Admission>, a: Admission, now: real)
    requires Chronological(log, now) && a.at == now
    ensures Chronological(log + [a], now)
  {
  }

  lemma RememberedSnoc(times: seq<real>, log: seq<Admission>, a: Admission, key: string, cutoff: real)
    requires Remembered(times, log, key, cutoff) && a.key != key
    ensures Remembered(times, log + [a], key, cutoff)
  {
    var since :| since <= cutoff && times == Since(log, key, since);
    SinceSnoc(log, a, key, since);
  }

  lemma Ageing(limits: Limits, requests: map<string, seq<real>>, log: seq<Admission>, clock: real, now: real)
    requires Tracks(limits, requests, log, clock) && clock <= now
    ensures Tracks(limits, requests, log, now)
  {
    var cutoff := now - limits.window as real;
    forall k: string | k !in requests
      ensures Since(log, k, cutoff) == []
    {
      var _ := SinceLater(log, k, clock - limits.window as real, cutoff, clock);
    }
    forall k | k in requests
      ensures Remembered(requests[k], log, k, cutoff)
    {
      var since :| since <= clock - limits.window as real && requests[k] == Since(log, k, since);
      assert since <= cutoff;
    }
  }

  // The table without the keys whose latest time has left the window.
  function Purged(requests: map<string, seq<real>>, cutoff: real): map<string, seq<real>>
    requires forall k <- requests :: requests[k] != []
  {
    map k <- requests | requests[k][|requests[k]| - 1] > cutoff :: requests[k]
  }

  lemma PurgedKeys(requests: map<string, seq<real>>, cutoff: real)
    requires forall k <- requests :: requests[k] != []
    ensures |Purged(requests, cutoff)| <= |requests|
  {
    SubsetSize(Purged(requests, cutoff).Keys, requests.Keys);
  }

  // Purging loses nothing the window still needs; what is left are the active keys.
  lemma AfterPurge(limits: Limits, requests: map<string, seq<real>>, log: seq<Admission>, clock: real, now: real)
    requires Tracks(limits, requests, log, clock) && clock <= now
    ensures var p := Purged(requests, now - limits.window as real);
      Tracks(limits, p, log, now) && p.Keys == KeysSince(log, now - limits.window as real)
  {
    hide Since, KeysSince, Remembered, Chronological;
    var cutoff := now - limits.window as real;
    var p := Purged(requests, cutoff);
    Ageing(limits, requests, log, clock, now);
    PurgedKeys(requests, cutoff);
    forall k: string
      ensures k !in p ==> Since(log, k, cutoff) == []
      ensures k in p <==> k in KeysSince(log, cutoff)
    {
      ActiveKey(limits, requests, log, clock, k, cutoff);
      SinceActive(log, k, cutoff);
    }
  }

  // Without a slot in a full purged table, a new key is blocked, and for how long.
  lemma CrowdedTable(limits: Limits, requests: map<string, seq<real>>, log: seq<Admission>, now: real, key: string,
                     idle: string, last: real)
    requires Tracks(limits, requests, log, now) && requests.Keys == KeysSince(log, now - limits.window as real)
    requires key !in requests && |requests| >= limits.maxKeys
    requires idle in requests && last == requests[idle][|requests[idle]| - 1]
    requires forall k <- requests :: last <= requests[k][|requests[k]| - 1]
    ensures Blocked(limits, log, key, now)
    ensures ExactWait(limits, log, key, now, Hint(last + limits.window as real - now))
  {
    hide Since, KeysSince, Remembered;
    var cutoff := now - limits.window as real;
    TrackedIsBounded(limits, requests, log, now, now);
    ActiveKey(limits, requests, log, now, idle, cutoff);
    SinceActive(log, idle, cutoff);
    forall k: string | Since(log, k, cutoff) != []
      ensures Latest(log, k, cutoff) >= last
    {
      ActiveKey(limits, requests, log, now, k, cutoff);
    }
    CrowdedWait(limits, log, key, now, idle, last);
  }

  // A key with a slot is never crowded out.
  lemma NotCrowded(limits: Limits, requests: map<string, seq<real>>, log: seq<Admission>, now: real, key: string)
    requires Tracks(limits, requests, log, now) && |requests.Keys + {key}| <= limits.maxKeys
    ensures Since(log, key, now - limits.window as real) == []
        ==> |KeysSince(log, now - limits.window as real)| < limits.maxKeys
  {
    var cutoff := now - limits.window as real;
    var active := KeysSince(log, cutoff);
    if Since(log, key, cutoff) == [] {
      SinceActive(log, key, cutoff);
      forall k | k in active
        ensures k in requests.Keys + {key}
      {
        SinceActive(log, k, cutoff);
      }
      SubsetSize(active + {key}, requests.Keys + {key});
    }
  }

  // Storing the trimmed list of a key that stays.
  lemma Refreshed(limits: Limits, requests: map<string, seq<real>>, log: seq<Admission>, now: real, key: string)
    requires Tracks(limits, requests, log, now) && key in requests
    requires 1 <= |Since(log, key, now - limits.window as real)| <= limits.maxRequests
    ensures Tracks(limits, requests[key := Since(log, key, now - limits.window as real)], log, now)
  {
    hide Since;
    var cutoff := now - limits.window as real;
    var requests' := requests[key := Since(log, key, cutoff)];
    assert requests'.Keys == requests.Keys;
    assert Remembered(Since(log, key, cutoff), log, key, cutoff);
  }

  class InMemoryRateLimiter {
    const limits: Limits
    var requests: map<string, seq<real>>
    ghost var log: seq<Admission>
    ghost var clock: real

    ghost predicate Valid()
      reads this
    {
      Tracks(limits, requests, log, clock)
    }

    constructor (limits: Limits, now: real)
      requires limits.Positive()
      ensures Valid() && this.limits == limits && log == [] && clock == now
    {
      this.limits := limits;
      requests := map[];
      log := [];
      clock := now;
    }

    method Clear()
      requires Valid()
      modifies this
      ensures Valid() && log == [] && clock == old(clock)
    {
      requests := map[];
      log := [];
    }

    // `_make_room_for_key`: forget every key whose latest request left the window.
    method MakeRoomForKey(cutoff: real)
      requires forall k <- requests :: requests[k] != []
      modifies this`requests
      ensures requests == Purged(old(requests), cutoff) && requests.Keys <= old(requests).Keys
    {
      var expired := set k <- requests | requests[k] == [] || requests[k][|requests[k]| - 1] <= cutoff;
      ghost var all := expired;
      while expired != {}
        invariant expired <= all && all <= old(requests).Keys
        invariant requests == map k <- old(requests) | k !in all - expired :: old(requests)[k]
        decreases expired
      {
        var key :| key in expired;
        requests := requests - {key};
        expired := expired - {key};
      }
    }

    // The least latest time over all keys.
    method LongestIdleTime() returns (idle: string, last: real)
      requires requests != map[] && forall k <- requests :: requests[k] != []
      ensures idle in requests && last == requests[idle][|requests[idle]| - 1]
      ensures forall k <- requests :: last <= requests[k][|requests[k]| - 1]
    {
      var keys := requests.Keys;
      assert keys != {};
      idle :| idle in keys;
      last := requests[idle][|requests[idle]| - 1];
      keys := keys - {idle};
      while keys != {}
        invariant keys <= requests.Keys && idle in requests && last == requests[idle][|requests[idle]| - 1]
        invariant forall k <- requests :: k !in keys ==> last <= requests[k][|requests[k]| - 1]
        decreases keys
      {
        var key :| key in keys;
        if requests[key][|requests[key]| - 1] < last {
          idle, last := key, requests[key][|requests[key]| - 1];
        }
        keys := keys - {key};
      }
    }

    // The branch of `consume` for a key without a list: make room, or say how long to wait.
    method RoomForNewKey(key: string, now: real) returns (d: Decision)
      requires Tracks(limits, requests, log, clock) && clock <= now && key !in requests
      modifies this`requests
      ensures Tracks(limits, requests, log, now) && key !in requests
      ensures Since(log, key, now - limits.window as real) == []
      ensures d.Allowed? ==> |requests.Keys + {key}| <= limits.maxKeys
      ensures d.Rejected? ==> Blocked(limits, log, key, now) && ExactWait(limits, log, key, now, d.retryAfter)
    {
      hide Since, KeysSince, Tracks, Blocked, ExactWait, Hint, Purged;
      Tracked(limits, requests, log, clock);
      AfterPurge(limits, requests, log, clock, now);
      MakeRoomForKey(now - limits.window as real);
      Tracked(limits, requests, log, now);
      if |requests| >= limits.maxKeys {
        assert |requests| > 0;
        var idle, last := LongestIdleTime();
        CrowdedTable(limits, requests, log, now, key, idle, last);
        return Rejected(Hint(last + limits.window as real - now));
      }
      return Allowed;
    }

    // The rest of `consume`, once the key has a slot and `times` is its trimmed list.
    method Decide(key: string, times: seq<real>, now: real) returns (d: Decision)
      requires Tracks(limits, requests, log, now)
      requires times == Since(log, key, now - limits.window as real)
      requires if times == [] then |requests.Keys + {key}| <= limits.maxKeys else key in requests
      modifies this
      ensures Valid() && clock == now
      ensures d.Allowed? <==> !Blocked(limits, old(log), key, now)
      ensures log == if d.Allowed? then old(log) + [Admission(key, now)] else old(log)
      ensures d.Rejected? ==> ExactWait(limits, old(log), key, now, d.retryAfter)
    {
      hide Since, KeysSince, Tracks, Blocked, ExactWait, Hint;
      Tracked(limits, requests, log, now);
      clock := now;
      if |times| >= limits.maxRequests {
        FullTable(limits, requests, log, now, key, times);
        requests := requests[key := times];
        return Rejected(Hint(limits.window as real - (now - times[0])));
      }
      assert key in requests ==> requests.Keys + {key} == requests.Keys;
      Admit(limits, requests, log, now, now, key);
      NotBlocked(limits, requests, log, now, key);
      requests, log := requests[key := times + [now]], log + [Admission(key, now)];
      return Allowed;
    }

    // `consume`: the decision is the reference decision on the log of admitted requests, and
    // a rejection carries the exact wait.
    method Consume(key: string, now: real) returns (d: Decision)
      requires Valid() && clock <= now
      modifies this
      ensures Valid() && clock == now
      ensures d.Allowed? <==> !Blocked(limits, old(log), key, now)
      ensures log == if d.Allowed? then old(log) + [Admission(key, now)] else old(log)
      ensures d.Rejected? ==> ExactWait(limits, old(log), key, now, d.retryAfter)
    {
      hide Since, KeysSince, Tracks, Blocked, ExactWait;
      var times: seq<real> := [];
      if key !in requests {
        d := RoomForNewKey(key, now);
        if d.Rejected? {
          clock := now;
          return;
        }
      } else {
        Ageing(limits, requests, log, clock, now);
        Tracked(limits, requests, log, now);
        assert requests.Keys + {key} == requests.Keys;
        times := DropUntil(requests[key], now - limits.window as real);
        ListTrimmed(limits, requests, log, now, key, times);
      }
      d := Decide(key, times, now);
    }
  }

  lemma Tracked(limits: Limits, requests: map<string, seq<real>>, log: seq<Admission>, clock: real)
    requires Tracks(limits, requests, log, clock)
    ensures limits.Positive() && |requests| <= limits.maxKeys && forall k <- requests :: requests[k] != []
    ensures forall k: string :: k !in requests ==> Since(log, k, clock - limits.window as real) == []
  {
  }

  lemma NotBlocked(limits: Limits, requests: map<string, seq<real>>, log: seq<Admission>, now: real, key: string)
    requires Tracks(limits, requests, log, now) && |requests.Keys + {key}| <= limits.maxKeys
    requires |Since(log, key, now - limits.window as real)| < limits.maxRequests
    ensures !Blocked(limits, log, key, now)
  {
    hide Since, KeysSince;
    NotCrowded(limits, requests, log, now, key);
  }

  lemma FullTable(limits: Limits, requests: map<string, seq<real>>, log: seq<Admission>, now: real, key: string,
                  times: seq<real>)
    requires Tracks(limits, requests, log, now) && key in requests
    requires times == Since(log, key, now - limits.window as real) && |times| >= limits.maxRequests
    ensures times != [] && Tracks(limits, requests[key := times], log, now)
    ensures Blocked(limits, log, key, now)
    ensures ExactWait(limits, log, key, now, Hint(limits.window as real - (now - times[0])))
  {
    hide Since, KeysSince, ExactWait;
    TrackedIsBounded(limits, requests, log, now, now);
    Refreshed(limits, requests, log, now, key);
    FullWait(limits, log, key, now);
  }

  // The popleft loop: everything up to `cutoff` leaves the front.
  method DropUntil(full: seq<real>, cutoff: real) returns (times: seq<real>)
    ensures Dropped(full, times, cutoff)
  {
    times := full;
    ghost var i := 0;
    while times != [] && times[0] <= cutoff
      invariant i <= |full| && times == full[i..] && forall j :: 0 <= j < i ==> full[j] <= cutoff
      decreases |times|
    {
      times := times[1..];
      i := i + 1;
    }
  }

  ghost predicate Dropped(full: seq<real>, times: seq<real>, cutoff: real) {
    && |times| <= |full|
    && times == full[|full| - |times|..]
    && (forall j :: 0 <= j < |full| - |times| ==> full[j] <= cutoff)
    && (times != [] ==> times[0] > cutoff)
  }

  lemma ListTrimmed(limits: Limits, requests: map<string, seq<real>>, log: seq<Admission>, now: real, key: string,
                    times: seq<real>)
    requires Tracks(limits, requests, log, now) && key in requests
    requires Dropped(requests[key], times, now - limits.window as real)
    ensures times == Since(log, key, now - limits.window as real)
  {
    hide Since;
    var cutoff := now - limits.window as real;
    var full := requests[key];
    assert times != [] ==> times[0] == full[|full| - |times|];
    RememberedTrimmed(full, log, key, cutoff, cutoff, now, |full| - |times|);
  }
}
