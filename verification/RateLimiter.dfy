/** The sliding-window rate limiter (server/rest_api.py): a per-key cache, pruned on every
    request, compared with the full history of what was accepted. */
module RateLimiter {

  function PushIf(times: seq<real>, t: real, condition: bool): seq<real> {
    if condition then times + [t] else times
  }

  /** The entries younger than the window. */
  function Recent(times: seq<real>, now: real, window: real): seq<real> {
    if |times| == 0 then []
    else
      var rest, t := times[..|times| - 1], times[|times| - 1];
      PushIf(Recent(rest, now, window), t, now - t < window)
  }

  lemma RecentSnoc(times: seq<real>, t: real, now: real, window: real)
    ensures Recent(times + [t], now, window) == PushIf(Recent(times, now, window), t, now - t < window)
  {
    assert (times + [t])[..|times|] == times;
  }

  function Lookup(m: map<string, seq<real>>, key: string): seq<real> {
    if key in m then m[key] else []
  }

  /** One request and its outcome. */
  datatype Entry = Entry(key: string, time: real, allowed: bool)

  /** Every time at which the key was accepted, whatever has been pruned since. */
  function Accepted(log: seq<Entry>, key: string): seq<real> {
    if |log| == 0 then []
    else
      var e := log[|log| - 1];
      PushIf(Accepted(log[..|log| - 1], key), e.time, e.key == key && e.allowed)
  }

  /** The decision, from a list of acceptances. */
  predicate Allows(times: seq<real>, now: real, max: int, window: real) {
    |Recent(times, now, window)| < max
  }

  // ----- what the cache holds -----

  /** Some later request of the same key came a window or more after entry `i`. */
  ghost predicate AgedOut(log: seq<Entry>, i: nat, window: real)
    requires i < |log|
  {
    exists j :: i < j < |log| && log[j].key == log[i].key && log[j].time - log[i].time >= window
  }

  /** The acceptances among the first `n` entries that no later request has aged out. */
  ghost function Kept(log: seq<Entry>, n: nat, key: string, window: real): seq<real>
    requires n <= |log|
  {
    if n == 0 then []
    else
      var e := log[n - 1];
      PushIf(Kept(log, n - 1, key, window), e.time, e.key == key && e.allowed && !AgedOut(log, n - 1, window))
  }

  lemma AgedOutStep(log: seq<Entry>, e: Entry, i: nat, window: real)
    requires i < |log|
    ensures AgedOut(log + [e], i, window) <==>
            AgedOut(log, i, window) || (e.key == log[i].key && e.time - log[i].time >= window)
  {
    var longer := log + [e];
    if AgedOut(log, i, window) {
      var j :| i < j < |log| && log[j].key == log[i].key && log[j].time - log[i].time >= window;
      assert longer[j] == log[j];
    }
    if e.key == log[i].key && e.time - log[i].time >= window {
      assert longer[|log|] == e;
    }
  }

  /** A further request prunes its own key's list and no other. */
  lemma {:induction false} KeptPruned(log: seq<Entry>, e: Entry, n: nat, key: string, window: real)
    requires n <= |log|
    ensures Kept(log + [e], n, key, window) ==
            if key == e.key then Recent(Kept(log, n, key, window), e.time, window) else Kept(log, n, key, window)
  {
    if n > 0 {
      KeptPruned(log, e, n - 1, key, window);
      AgedOutStep(log, e, n - 1, window);
      assert (log + [e])[n - 1] == log[n - 1];
      RecentSnoc(Kept(log, n - 1, key, window), log[n - 1].time, e.time, window);
    }
  }

  lemma KeptStep(log: seq<Entry>, e: Entry, key: string, window: real)
    ensures Kept(log + [e], |log| + 1, key, window) ==
            if key == e.key then PushIf(Recent(Kept(log, |log|, key, window), e.time, window), e.time, e.allowed)
            else Kept(log, |log|, key, window)
  {
    KeptPruned(log, e, |log|, key, window);
    assert !AgedOut(log + [e], |log|, window);
  }

  // ----- cache against history -----

  /** The accepted entries that were aged out and are younger than the window again: what
      the cache has forgotten and the history still counts. */
  ghost function Reentering(log: seq<Entry>, n: nat, key: string, now: real, window: real): set<nat>
    requires n <= |log|
  {
    set i: nat | i < n && Reenters(log, i, key, now, window)
  }

  lemma AcceptedSnoc(log: seq<Entry>, n: nat, key: string)
    requires n < |log|
    ensures Accepted(log[..n + 1], key) ==
            PushIf(Accepted(log[..n], key), log[n].time, log[n].key == key && log[n].allowed)
  {
    assert log[..n + 1][..n] == log[..n];
  }

  ghost predicate Reenters(log: seq<Entry>, i: nat, key: string, now: real, window: real)
    requires i < |log|
  {
    log[i].key == key && log[i].allowed && AgedOut(log, i, window) && now - log[i].time < window
  }

  lemma ReenteringStep(log: seq<Entry>, n: nat, key: string, now: real, window: real)
    requires n < |log|
    ensures |Reentering(log, n + 1, key, now, window)| ==
            |Reentering(log, n, key, now, window)| + if Reenters(log, n, key, now, window) then 1 else 0
  {
    var before := Reentering(log, n, key, now, window);
    assert n !in before;
    assert Reentering(log, n + 1, key, now, window) == if Reenters(log, n, key, now, window) then before + {n} else before;
  }

  /** The history counts exactly the reentering entries on top of the cached ones. */
  lemma {:induction false} CountDifference(log: seq<Entry>, n: nat, key: string, now: real, window: real)
    requires n <= |log|
    ensures |Recent(Accepted(log[..n], key), now, window)| ==
            |Recent(Kept(log, n, key, window), now, window)| + |Reentering(log, n, key, now, window)|
  {
    if n > 0 {
      var k, e := n - 1, log[n - 1];
      CountDifference(log, k, key, now, window);
      AcceptedSnoc(log, k, key);
      ReenteringStep(log, k, key, now, window);
      RecentSnoc(Accepted(log[..k], key), e.time, now, window);
      RecentSnoc(Kept(log, k, key, window), e.time, now, window);
    }
  }

  /** The decision that the cache makes after a log. */
  ghost predicate CacheAllows(log: seq<Entry>, key: string, now: real, max: int, window: real) {
    Allows(Kept(log, |log|, key, window), now, max, window)
  }

  /** For any clock reading, the cache decides as the full history does, whatever the
      maximum, exactly if no aged-out entry has become young again. */
  lemma DecisionRightIff(log: seq<Entry>, key: string, now: real, window: real)
    ensures (forall max: int :: CacheAllows(log, key, now, max, window) == Allows(Accepted(log, key), now, max, window))
            <==> Reentering(log, |log|, key, now, window) == {}
  {
    CountDifference(log, |log|, key, now, window);
    assert log[..|log|] == log;
    var cached, full := Kept(log, |log|, key, window), Accepted(log, key);
    var max := |Recent(full, now, window)|;
    if Reentering(log, |log|, key, now, window) != {} {
      assert CacheAllows(log, key, now, max, window) && !Allows(full, now, max, window);
    }
  }

  /** For a given maximum the two differ exactly if it lies above the cached count and not
      above the cached and the reentering entries together. */
  lemma DecisionWrongIff(log: seq<Entry>, key: string, now: real, max: int, window: real)
    ensures CacheAllows(log, key, now, max, window) != Allows(Accepted(log, key), now, max, window) <==>
            var cached := |Recent(Kept(log, |log|, key, window), now, window)|;
            cached < max <= cached + |Reentering(log, |log|, key, now, window)|
  {
    CountDifference(log, |log|, key, now, window);
    assert log[..|log|] == log;
  }

  /** The key has made no request later than `now`. */
  ghost predicate NotBefore(log: seq<Entry>, key: string, now: real) {
    forall i :: 0 <= i < |log| && log[i].key == key ==> log[i].time <= now
  }

  /** A clock that has not run back for this key lets nothing reenter. */
  lemma ForwardClock(log: seq<Entry>, key: string, now: real, window: real)
    requires NotBefore(log, key, now)
    ensures Reentering(log, |log|, key, now, window) == {}
  {
  }

  // ----- the decision, counted -----

  /** The requests whose acceptances the cache still counts at `now`: accepted, younger than
      the window, and not followed by a request of the key a window or more later. */
  ghost function Counted(log: seq<Entry>, n: nat, key: string, now: real, window: real): set<nat>
    requires n <= |log|
  {
    set i: nat | i < n && CountsAt(log, i, key, now, window)
  }

  ghost predicate CountsAt(log: seq<Entry>, i: nat, key: string, now: real, window: real)
    requires i < |log|
  {
    && log[i].key == key && log[i].allowed && now - log[i].time < window
    && forall j :: i < j < |log| && log[j].key == key ==> log[j].time - log[i].time < window
  }

  lemma CountedStep(log: seq<Entry>, n: nat, key: string, now: real, window: real)
    requires n < |log|
    ensures |Counted(log, n + 1, key, now, window)| ==
            |Counted(log, n, key, now, window)| + if CountsAt(log, n, key, now, window) then 1 else 0
  {
    var before := Counted(log, n, key, now, window);
    assert n !in before;
    assert Counted(log, n + 1, key, now, window) == if CountsAt(log, n, key, now, window) then before + {n} else before;
  }

  lemma CountsIff(log: seq<Entry>, i: nat, key: string, now: real, window: real)
    requires i < |log|
    ensures CountsAt(log, i, key, now, window) <==>
            log[i].key == key && log[i].allowed && !AgedOut(log, i, window) && now - log[i].time < window
  {
  }

  lemma {:induction false} KeptCounted(log: seq<Entry>, n: nat, key: string, now: real, window: real)
    requires n <= |log|
    ensures |Recent(Kept(log, n, key, window), now, window)| == |Counted(log, n, key, now, window)|
  {
    if n > 0 {
      var k, e := n - 1, log[n - 1];
      KeptCounted(log, k, key, now, window);
      CountedStep(log, k, key, now, window);
      CountsIff(log, k, key, now, window);
      RecentSnoc(Kept(log, k, key, window), e.time, now, window);
    } else {
      assert Counted(log, 0, key, now, window) == {};
    }
  }

  // ----- runs -----

  /** Every decision of the log is the cache's. */
  ghost predicate Served(log: seq<Entry>, max: int, window: real) {
    forall k :: 0 <= k < |log| ==> log[k].allowed == CacheAllows(log[..k], log[k].key, log[k].time, max, window)
  }

  /** Every decision is the one that the full history calls for. */
  ghost predicate RightlyServed(log: seq<Entry>, max: int, window: real) {
    forall k :: 0 <= k < |log| ==> log[k].allowed == Allows(Accepted(log[..k], log[k].key), log[k].time, max, window)
  }

  /** At no request do reentering entries make up the difference to the maximum. */
  ghost predicate NoHarmfulReentry(log: seq<Entry>, max: int, window: real) {
    forall k :: 0 <= k < |log| ==>
      var cached := |Recent(Kept(log[..k], k, log[k].key, window), log[k].time, window)|;
      !(cached < max <= cached + |Reentering(log[..k], k, log[k].key, log[k].time, window)|)
  }

  /** A run of the limiter, whatever its clock does, is decided as by the full history
      exactly if no reentry is harmful. */
  lemma RunRightIff(log: seq<Entry>, max: int, window: real)
    requires Served(log, max, window)
    ensures RightlyServed(log, max, window) <==> NoHarmfulReentry(log, max, window)
  {
    forall k | 0 <= k < |log|
      ensures log[k].allowed == Allows(Accepted(log[..k], log[k].key), log[k].time, max, window) <==>
              var cached := |Recent(Kept(log[..k], k, log[k].key, window), log[k].time, window)|;
              !(cached < max <= cached + |Reentering(log[..k], k, log[k].key, log[k].time, window)|)
    {
      DecisionWrongIff(log[..k], log[k].key, log[k].time, max, window);
    }
  }

  /** Each key's requests come in the order of the clock. */
  ghost predicate ChronologicalPerKey(log: seq<Entry>) {
    forall i, j :: 0 <= i < j < |log| && log[i].key == log[j].key ==> log[i].time <= log[j].time
  }

  lemma ChronologicalRunsAreRight(log: seq<Entry>, max: int, window: real)
    requires Served(log, max, window) && ChronologicalPerKey(log)
    ensures RightlyServed(log, max, window)
  {
    forall k | 0 <= k < |log|
      ensures log[k].allowed == Allows(Accepted(log[..k], log[k].key), log[k].time, max, window)
    {
      ForwardClock(log[..k], log[k].key, log[k].time, window);
      DecisionWrongIff(log[..k], log[k].key, log[k].time, max, window);
    }
  }

  /** The cache holds, for every key, the acceptances not aged out at any later request of
      the key, in order, and no empty lists. */
  ghost predicate CacheIsKept(cache: map<string, seq<real>>, log: seq<Entry>, window: real) {
    && (forall key :: Lookup(cache, key) == Kept(log, |log|, key, window))
    && (forall key :: key in cache ==> cache[key] != [])
  }

  /** The cache with one key's list replaced; an empty list is not stored. */
  function Store(cache: map<string, seq<real>>, key: string, times: seq<real>): map<string, seq<real>> {
    if |times| == 0 then cache - {key} else cache[key := times]
  }

  lemma StoreLookup(cache: map<string, seq<real>>, key: string, times: seq<real>)
    ensures Lookup(Store(cache, key, times), key) == times
    ensures forall other :: other != key ==> Lookup(Store(cache, key, times), other) == Lookup(cache, other)
  {
  }

  lemma StoreAppend(cache: map<string, seq<real>>, key: string, times: seq<real>, t: real)
    ensures Store(cache, key, times)[key := times + [t]] == Store(cache, key, times + [t])
  {
  }

  lemma CacheStaysKept(cache: map<string, seq<real>>, log: seq<Entry>, e: Entry, window: real)
    requires CacheIsKept(cache, log, window)
    ensures CacheIsKept(Store(cache, e.key, PushIf(Recent(Lookup(cache, e.key), e.time, window), e.time, e.allowed)),
                        log + [e], window)
  {
    var times := PushIf(Recent(Lookup(cache, e.key), e.time, window), e.time, e.allowed);
    StoreLookup(cache, e.key, times);
    forall key ensures Lookup(Store(cache, e.key, times), key) == Kept(log + [e], |log| + 1, key, window) {
      KeptStep(log, e, key, window);
    }
  }

  class RateLimiter {
    const maxRequests: int
    const window: real
    var requests: map<string, seq<real>>
    /** Every request so far, with its outcome. */
    ghost var log: seq<Entry>

    ghost predicate Valid()
      reads this
    {
      CacheIsKept(requests, log, window) && Served(log, maxRequests, window)
    }

    constructor (maxRequests: int := 30, window: real := 60.0)
      ensures Valid() && this.maxRequests == maxRequests && this.window == window && log == []
    {
      this.maxRequests, this.window := maxRequests, window;
      requests, log := map[], [];
    }

    /** Drops the key's old entries, and the key with its last one. */
    method Prune(key: string, now: real)
      modifies this`requests
      ensures requests == Store(old(requests), key, Recent(old(Lookup(requests, key)), now, window))
    {
      requests := requests[key := Recent(Lookup(requests, key), now, window)];
      if |requests[key]| == 0 {
        requests := requests - {key};
      }
    }

    /** For every reading of the clock: the request is allowed exactly if the recent
        acceptances of the full history, less the reentering ones, are below the maximum. */
    method IsAllowed(key: string, now: real) returns (allowed: bool)
      requires Valid()
      modifies this
      ensures Valid() && log == old(log) + [Entry(key, now, allowed)]
      ensures allowed <==>
              |Recent(Accepted(old(log), key), now, window)| - |Reentering(old(log), |old(log)|, key, now, window)| < maxRequests
      ensures allowed <==> |Counted(old(log), |old(log)|, key, now, window)| < maxRequests
      ensures requests == Store(old(requests), key, PushIf(Recent(old(Lookup(requests, key)), now, window), now, allowed))
    {
      ghost var e := Entry(key, now, CacheAllows(log, key, now, maxRequests, window));
      RequestStep(requests, log, e, maxRequests, window);
      ghost var pruned := Recent(Lookup(requests, key), now, window);
      StoreLookup(requests, key, pruned);
      StoreAppend(requests, key, pruned, now);
      Prune(key, now);
      if |Lookup(requests, key)| >= maxRequests {
        allowed := false;
      } else {
        requests := requests[key := Lookup(requests, key) + [now]];
        allowed := true;
      }
      log := log + [e];
    }
  }

  /** One request: the cache's decision, and what it leaves in the cache and the log. */
  lemma RequestStep(cache: map<string, seq<real>>, log: seq<Entry>, e: Entry, max: int, window: real)
    requires CacheIsKept(cache, log, window) && Served(log, max, window)
    requires e.allowed == CacheAllows(log, e.key, e.time, max, window)
    ensures var pruned := Recent(Lookup(cache, e.key), e.time, window);
            && e.allowed == (|pruned| < max)
            && CacheIsKept(Store(cache, e.key, PushIf(pruned, e.time, e.allowed)), log + [e], window)
    ensures Served(log + [e], max, window)
    ensures e.allowed <==> |Counted(log, |log|, e.key, e.time, window)| < max
    ensures e.allowed <==>
            |Recent(Accepted(log, e.key), e.time, window)| - |Reentering(log, |log|, e.key, e.time, window)| < max
  {
    KeptCounted(log, |log|, e.key, e.time, window);
    CacheStaysKept(cache, log, e, window);
    DecisionFromHistory(log, e.key, e.time, max, window);
    ServedStep(log, e, max, window);
  }

  lemma DecisionFromHistory(log: seq<Entry>, key: string, now: real, max: int, window: real)
    ensures CacheAllows(log, key, now, max, window) <==>
            |Recent(Accepted(log, key), now, window)| - |Reentering(log, |log|, key, now, window)| < max
  {
    CountDifference(log, |log|, key, now, window);
    assert log[..|log|] == log;
  }

  lemma ServedStep(log: seq<Entry>, e: Entry, max: int, window: real)
    requires Served(log, max, window) && e.allowed == CacheAllows(log, e.key, e.time, max, window)
    ensures Served(log + [e], max, window)
  {
    var longer := log + [e];
    forall k | 0 <= k < |longer|
      ensures longer[k].allowed == CacheAllows(longer[..k], longer[k].key, longer[k].time, max, window)
    {
      assert longer[..k] == log[..k];
      assert k == |log| ==> longer[..k] == log;
    }
  }

  // ----- the limit -----

  predicate Inside(t: real, start: real, window: real) {
    start <= t < start + window
  }

  /** The entries of a span that starts at `start` and is as long as the window. */
  function InSpan(times: seq<real>, start: real, window: real): nat {
    if |times| == 0 then 0
    else
      var t := times[|times| - 1];
      InSpan(times[..|times| - 1], start, window) + if Inside(t, start, window) then 1 else 0
  }

  /** A span that reaches `now` holds only recent entries. */
  lemma {:induction false} SpanWithinRecent(times: seq<real>, start: real, now: real, window: real)
    requires now < start + window
    ensures InSpan(times, start, window) <= |Recent(times, now, window)|
  {
    if |times| > 0 {
      SpanWithinRecent(times[..|times| - 1], start, now, window);
    }
  }

  lemma InSpanPush(times: seq<real>, t: real, condition: bool, start: real, window: real)
    ensures InSpan(PushIf(times, t, condition), start, window) ==
            InSpan(times, start, window) + if condition && Inside(t, start, window) then 1 else 0
  {
    assert (times + [t])[..|times|] == times;
  }

  ghost predicate AcceptedInside(e: Entry, key: string, start: real, window: real) {
    e.key == key && e.allowed && start <= e.time < start + window
  }

  /** The accepted requests of the key inside a span, among the first `n`. */
  ghost function AcceptedIn(log: seq<Entry>, n: nat, key: string, start: real, window: real): set<nat>
    requires n <= |log|
  {
    set i: nat | i < n && AcceptedInside(log[i], key, start, window)
  }

  /** They are what `InSpan` counts. */
  lemma {:induction false} InSpanCounts(log: seq<Entry>, n: nat, key: string, start: real, window: real)
    requires n <= |log|
    ensures InSpan(Accepted(log[..n], key), start, window) == |AcceptedIn(log, n, key, start, window)|
  {
    var inside := AcceptedIn(log, n, key, start, window);
    if n == 0 {
      assert inside == {};
    } else {
      var k, e := n - 1, log[n - 1];
      var before := AcceptedIn(log, k, key, start, window);
      InSpanCounts(log, k, key, start, window);
      AcceptedSnoc(log, k, key);
      InSpanPush(Accepted(log[..k], key), e.time, e.key == key && e.allowed, start, window);
      assert k !in before;
      assert inside == if AcceptedInside(e, key, start, window) then before + {k} else before;
    }
  }

  // ----- the cap, whatever the clock does -----

  ghost predicate ForgottenAt(log: seq<Entry>, i: nat, key: string, start: real, window: real)
    requires i < |log|
  {
    log[i].key == key && log[i].allowed && AgedOut(log, i, window) && Inside(log[i].time, start, window)
  }

  /** The acceptances inside a span that later requests have aged out of the cache. */
  ghost function Forgotten(log: seq<Entry>, n: nat, key: string, start: real, window: real): set<nat>
    requires n <= |log|
  {
    set i: nat | i < n && ForgottenAt(log, i, key, start, window)
  }

  lemma ForgottenStep(log: seq<Entry>, n: nat, key: string, start: real, window: real)
    requires n < |log|
    ensures |Forgotten(log, n + 1, key, start, window)| ==
            |Forgotten(log, n, key, start, window)| + if ForgottenAt(log, n, key, start, window) then 1 else 0
  {
    var before := Forgotten(log, n, key, start, window);
    assert n !in before;
    assert Forgotten(log, n + 1, key, start, window) ==
           if ForgottenAt(log, n, key, start, window) then before + {n} else before;
  }

  /** A span's acceptances are the cached ones and the forgotten ones. */
  lemma {:induction false} SpanDifference(log: seq<Entry>, n: nat, key: string, start: real, window: real)
    requires n <= |log|
    ensures InSpan(Accepted(log[..n], key), start, window) ==
            InSpan(Kept(log, n, key, window), start, window) + |Forgotten(log, n, key, start, window)|
  {
    if n > 0 {
      var k, e := n - 1, log[n - 1];
      SpanDifference(log, k, key, start, window);
      AcceptedSnoc(log, k, key);
      ForgottenStep(log, k, key, start, window);
      InSpanPush(Accepted(log[..k], key), e.time, e.key == key && e.allowed, start, window);
      InSpanPush(Kept(log, k, key, window), e.time, e.key == key && e.allowed && !AgedOut(log, k, window), start, window);
    }
  }

  function Cap(max: int): nat {
    if max > 0 then max else 0
  }

  /** No key has more than the maximum of acceptances in any span shorter than the window. */
  ghost predicate Capped(log: seq<Entry>, max: int, window: real) {
    forall key, start :: InSpan(Accepted(log, key), start, window) <= Cap(max)
  }

  /** Every span around `now` has room for one more acceptance: cached and forgotten ones
      together are below the maximum. */
  ghost predicate HasRoom(log: seq<Entry>, key: string, now: real, max: int, window: real) {
    forall start | Inside(now, start, window) ::
      InSpan(Kept(log, |log|, key, window), start, window) + |Forgotten(log, |log|, key, start, window)| < Cap(max)
  }

  /** Every acceptance finds room. */
  ghost predicate AcceptsWithRoom(log: seq<Entry>, max: int, window: real) {
    |log| > 0 ==>
      var before, e := log[..|log| - 1], log[|log| - 1];
      AcceptsWithRoom(before, max, window) && (e.allowed ==> HasRoom(before, e.key, e.time, max, window))
  }

  lemma CapStep(log: seq<Entry>, e: Entry, max: int, window: real)
    requires Capped(log, max, window)
    ensures Capped(log + [e], max, window) <==> (e.allowed ==> HasRoom(log, e.key, e.time, max, window))
  {
    var longer := log + [e];
    assert longer[..|log|] == log && log[..|log|] == log && longer[..|log| + 1] == longer;
    forall key, start
      ensures InSpan(Accepted(longer, key), start, window) == InSpan(Accepted(log, key), start, window) +
              if e.key == key && e.allowed && Inside(e.time, start, window) then 1 else 0
    {
      AcceptedSnoc(longer, |log|, key);
      InSpanPush(Accepted(log, key), e.time, e.key == key && e.allowed, start, window);
    }
    forall start
      ensures InSpan(Accepted(log, e.key), start, window) ==
              InSpan(Kept(log, |log|, e.key, window), start, window) + |Forgotten(log, |log|, e.key, start, window)|
    {
      SpanDifference(log, |log|, e.key, start, window);
    }
    if Capped(longer, max, window) && e.allowed {
      forall start | Inside(e.time, start, window)
        ensures InSpan(Accepted(log, e.key), start, window) < Cap(max)
      {
        assert InSpan(Accepted(longer, e.key), start, window) <= Cap(max);
      }
    }
    if e.allowed ==> HasRoom(log, e.key, e.time, max, window) {
      forall key, start ensures InSpan(Accepted(longer, key), start, window) <= Cap(max) {
        assert InSpan(Accepted(log, key), start, window) <= Cap(max);
      }
    }
  }

  lemma {:induction false} CappedPrefix(log: seq<Entry>, max: int, window: real)
    requires |log| > 0 && Capped(log, max, window)
    ensures Capped(log[..|log| - 1], max, window)
  {
    var before, e := log[..|log| - 1], log[|log| - 1];
    forall key, start ensures InSpan(Accepted(before, key), start, window) <= Cap(max) {
      InSpanPush(Accepted(before, key), e.time, e.key == key && e.allowed, start, window);
      assert InSpan(Accepted(log, key), start, window) <= Cap(max);
    }
  }

  /** The exact condition for the cap, for any clock readings: it holds if and only if
      every acceptance found, in each span around its time, cached and forgotten
      acceptances together below the maximum. */
  lemma {:induction false} CapIff(log: seq<Entry>, max: int, window: real)
    ensures Capped(log, max, window) <==> AcceptsWithRoom(log, max, window)
  {
    if |log| > 0 {
      var before, e := log[..|log| - 1], log[|log| - 1];
      assert log == before + [e];
      CapIff(before, max, window);
      if Capped(log, max, window) {
        CappedPrefix(log, max, window);
      }
      if Capped(before, max, window) {
        CapStep(before, e, max, window);
      }
    }
  }

  lemma RightlyServedPrefix(log: seq<Entry>, n: nat, max: int, window: real)
    requires RightlyServed(log, max, window) && n <= |log|
    ensures RightlyServed(log[..n], max, window)
  {
    forall k | 0 <= k < n
      ensures log[..n][k].allowed ==
              Allows(Accepted(log[..n][..k], log[..n][k].key), log[..n][k].time, max, window)
    {
      assert log[..n][..k] == log[..k];
    }
  }

  /** In a rightly decided run no key is accepted more than `max` times within any span
      shorter than the window, however requests for different keys are interleaved. */
  lemma {:induction false} AtMostMaxPerWindow(log: seq<Entry>, max: int, window: real, key: string, start: real)
    requires RightlyServed(log, max, window)
    ensures InSpan(Accepted(log, key), start, window) <= Cap(max)
  {
    if |log| > 0 {
      var k := |log| - 1;
      var before, e := Accepted(log[..k], key), log[k];
      RightlyServedPrefix(log, k, max, window);
      AtMostMaxPerWindow(log[..k], max, window, key, start);
      assert Accepted(log, key) == PushIf(before, e.time, e.key == key && e.allowed);
      if e.key == key && e.allowed {
        assert (before + [e.time])[..|before|] == before;
        assert log[k].allowed == Allows(Accepted(log[..k], log[k].key), log[k].time, max, window);
        if Inside(e.time, start, window) {
          SpanWithinRecent(before, start, e.time, window);
        }
      }
    }
  }

  /** Right decisions are enough for the cap, though not necessary. */
  lemma RightRunsAreCapped(log: seq<Entry>, max: int, window: real)
    requires RightlyServed(log, max, window)
    ensures Capped(log, max, window)
  {
    forall key, start ensures InSpan(Accepted(log, key), start, window) <= Cap(max) {
      AtMostMaxPerWindow(log, max, window, key, start);
    }
  }

  ghost predicate Sorted(a: seq<real>) {
    forall i, j :: 0 <= i < j < |a| ==> a[i] <= a[j]
  }

  /** No acceptance is later than `clock` if no request is. */
  lemma {:induction false} AcceptedBounded(log: seq<Entry>, key: string, clock: real)
    requires NotBefore(log, key, clock)
    ensures forall i :: 0 <= i < |Accepted(log, key)| ==> Accepted(log, key)[i] <= clock
  {
    if |log| > 0 {
      AcceptedBounded(log[..|log| - 1], key, clock);
    }
  }

  lemma {:induction false} AcceptedSorted(log: seq<Entry>, key: string)
    requires ChronologicalPerKey(log)
    ensures Sorted(Accepted(log, key))
  {
    if |log| > 0 {
      var shorter, e := log[..|log| - 1], log[|log| - 1];
      AcceptedSorted(shorter, key);
      if e.key == key {
        AcceptedBounded(shorter, key, e.time);
        assert Sorted(Accepted(shorter, key) + [e.time]);
      }
    }
  }

  lemma {:induction false} SpanCounts(a: seq<real>, i: nat, j: nat, start: real, window: real)
    requires i <= j < |a|
    requires forall k :: i <= k <= j ==> Inside(a[k], start, window)
    ensures InSpan(a, start, window) >= j - i + 1
    decreases |a|
  {
    var rest := a[..|a| - 1];
    if j < |rest| {
      SpanCounts(rest, i, j, start, window);
    } else if i < j {
      SpanCounts(rest, i, j - 1, start, window);
    }
  }

  /** With a clock that runs forward for each key, acceptance number `i + max` comes at
      least a window after number `i`. */
  lemma SpacedAcceptances(log: seq<Entry>, max: nat, window: real, key: string, i: nat)
    requires max > 0 && Served(log, max, window) && ChronologicalPerKey(log)
    requires i + max < |Accepted(log, key)|
    ensures Accepted(log, key)[i + max] - Accepted(log, key)[i] >= window
  {
    var a := Accepted(log, key);
    AcceptedSorted(log, key);
    if a[i + max] - a[i] < window {
      SpanCounts(a, i, i + max, a[i], window);
      ChronologicalRunsAreRight(log, max, window);
      AtMostMaxPerWindow(log, max, window, key, a[i]);
    }
  }

  // ----- a clock that runs back -----

  /** One more accepted request of the key "k". */
  function Then(log: seq<Entry>, t: real): seq<Entry> {
    log + [Entry("k", t, true)]
  }

  /** With at most two requests in a window of 5: two at time 0 and one at time 10; when the
      clock then reads 1, a third acceptance within one second. */
  function AgedRun(): seq<Entry> {
    Then(Then(Then([], 0.0), 0.0), 10.0)
  }

  function SteppedBack(): seq<Entry> {
    Then(AgedRun(), 1.0)
  }

  /** The limiter produces the log and ends with this list for the key. */
  ghost predicate Reaches(log: seq<Entry>, kept: seq<real>) {
    Served(log, 2, 5.0) && Kept(log, |log|, "k", 5.0) == kept
  }

  lemma ReachesNext(log: seq<Entry>, kept: seq<real>, t: real, pruned: seq<real>)
    requires Reaches(log, kept) && Recent(kept, t, 5.0) == pruned && |pruned| < 2
    ensures Reaches(Then(log, t), pruned + [t])
  {
    KeptStep(log, Entry("k", t, true), "k", 5.0);
    ServedStep(log, Entry("k", t, true), 2, 5.0);
  }

  lemma RecentOne(t: real, now: real)
    ensures Recent([t], now, 5.0) == if now - t < 5.0 then [t] else []
  {
    var none: seq<real> := [];
    assert none + [t] == [t];
    RecentSnoc(none, t, now, 5.0);
  }

  lemma RecentTwo(t: real, u: real, now: real)
    ensures Recent([t, u], now, 5.0) == PushIf(if now - t < 5.0 then [t] else [], u, now - u < 5.0)
  {
    RecentOne(t, now);
    assert [t] + [u] == [t, u];
    RecentSnoc([t], u, now, 5.0);
  }

  lemma FirstReaches(t: real)
    ensures Reaches(Then([], t), [t])
  {
    var none: seq<real> := [];
    assert none + [t] == [t];
    ReachesNext([], none, t, none);
  }

  lemma AgedRunReaches()
    ensures Reaches(AgedRun(), [10.0])
  {
    var none: seq<real> := [];
    assert [0.0] + [0.0] == [0.0, 0.0] && none + [10.0] == [10.0];
    var first := Then([], 0.0);
    FirstReaches(0.0);
    RecentOne(0.0, 0.0);
    ReachesNext(first, [0.0], 0.0, [0.0]);
    RecentTwo(0.0, 0.0, 10.0);
    ReachesNext(Then(first, 0.0), [0.0, 0.0], 10.0, none);
  }

  /** The fourth request finds no room: both requests at time 0 have been forgotten. */
  lemma NoRoomLeft()
    ensures !HasRoom(AgedRun(), "k", 1.0, 2, 5.0)
  {
    var log := AgedRun();
    assert log[2].time == 10.0 && log[2].key == "k";
    var forgotten := Forgotten(log, 3, "k", 0.0, 5.0);
    assert ForgottenAt(log, 0, "k", 0.0, 5.0) && ForgottenAt(log, 1, "k", 0.0, 5.0);
    assert {0, 1} <= forgotten && forgotten == {0, 1} + (forgotten - {0, 1});
    assert Inside(1.0, 0.0, 5.0);
  }

  /** The limiter does produce this run, and the cap is broken: the run is not rightly
      decided either. */
  lemma ClockSteppingBack()
    ensures Served(SteppedBack(), 2, 5.0)
    ensures !Capped(SteppedBack(), 2, 5.0) && !AcceptsWithRoom(SteppedBack(), 2, 5.0)
    ensures !RightlyServed(SteppedBack(), 2, 5.0) && !NoHarmfulReentry(SteppedBack(), 2, 5.0)
  {
    AgedRunReaches();
    RecentOne(10.0, 1.0);
    ReachesNext(AgedRun(), [10.0], 1.0, [10.0]);
    NoRoomLeft();
    assert SteppedBack()[..|SteppedBack()| - 1] == AgedRun();
    CapIff(SteppedBack(), 2, 5.0);
    RunRightIff(SteppedBack(), 2, 5.0);
    if RightlyServed(SteppedBack(), 2, 5.0) {
      RightRunsAreCapped(SteppedBack(), 2, 5.0);
    }
  }

  /** A wrong decision need not break the cap: requests at 0 and 10, and then at 1, which
      the history would refuse. */
  function WrongOnce(): seq<Entry> {
    Then(Then(Then([], 0.0), 10.0), 1.0)
  }

  lemma WrongOnceReached()
    ensures Reaches(WrongOnce(), [10.0, 1.0])
  {
    var none: seq<real> := [];
    assert none + [10.0] == [10.0] && [10.0] + [1.0] == [10.0, 1.0];
    var first := Then([], 0.0);
    FirstReaches(0.0);
    RecentOne(0.0, 10.0);
    ReachesNext(first, [0.0], 10.0, none);
    RecentOne(10.0, 1.0);
    ReachesNext(Then(first, 10.0), [10.0], 1.0, [10.0]);
  }

  lemma AcceptedThen(log: seq<Entry>, t: real, key: string)
    ensures Accepted(Then(log, t), key) == PushIf(Accepted(log, key), t, key == "k")
  {
    assert Then(log, t)[..|log|] == log;
  }

  lemma SpansOfWrongOnce(key: string, start: real)
    ensures InSpan(Accepted(WrongOnce(), key), start, 5.0) <= 2
  {
    var none: seq<Entry> := [];
    var second := Then(Then(none, 0.0), 10.0);
    AcceptedThen(none, 0.0, key);
    AcceptedThen(Then(none, 0.0), 10.0, key);
    AcceptedThen(second, 1.0, key);
    InSpanPush(Accepted(none, key), 0.0, key == "k", start, 5.0);
    InSpanPush(Accepted(Then(none, 0.0), key), 10.0, key == "k", start, 5.0);
    InSpanPush(Accepted(second, key), 1.0, key == "k", start, 5.0);
  }

  lemma HistoryRefuses()
    ensures !RightlyServed(WrongOnce(), 2, 5.0)
  {
    var none: seq<Entry> := [];
    var second := Then(Then(none, 0.0), 10.0);
    AcceptedThen(none, 0.0, "k");
    AcceptedThen(Then(none, 0.0), 10.0, "k");
    assert Accepted(second, "k") == [0.0, 10.0];
    RecentTwo(0.0, 10.0, 1.0);
    assert WrongOnce()[..2] == second && WrongOnce()[2] == Entry("k", 1.0, true);
  }

  lemma WrongButCapped()
    ensures Served(WrongOnce(), 2, 5.0) && Capped(WrongOnce(), 2, 5.0) && !RightlyServed(WrongOnce(), 2, 5.0)
  {
    WrongOnceReached();
    HistoryRefuses();
    forall key, start ensures InSpan(Accepted(WrongOnce(), key), start, 5.0) <= Cap(2) {
      SpansOfWrongOnce(key, start);
    }
  }
}
