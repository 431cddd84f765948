/** What the rate limiter's single counter and restarting deadline amount to, over every sequence of calls. */
module RateLimit {
  import opened Domain
  import opened Redis

  /** One successful IncrRateLimit call. */
  datatype Call = Call(key: string, at: Time)

  ghost predicate Chronological(ts: seq<Time>) {
    forall i, j :: 0 <= i <= j < |ts| ==> ts[i] <= ts[j]
  }

  // ----- The repository's counters after a log of calls -----

  function After(log: seq<Call>, windowSecs: int): Counters {
    if log == [] then map[]
    else
      var last := log[|log| - 1];
      Bumped(After(log[..|log| - 1], windowSecs), last.key, windowSecs, last.at)
  }

  /** The count that the last call of the log returns. */
  function ReturnedCount(log: seq<Call>, windowSecs: int): nat
    requires log != []
  {
    var last := log[|log| - 1];
    NextCount(After(log[..|log| - 1], windowSecs), last.key, last.at)
  }

  /** The times of the calls on one key. */
  function Times(log: seq<Call>, key: string): seq<Time> {
    if log == [] then []
    else
      var last := log[|log| - 1];
      Times(log[..|log| - 1], key) + if last.key == key then [last.at] else []
  }

  // ----- Bursts: calls separated by less than the window -----

  function Window(windowSecs: int): int {
    windowSecs * SECOND
  }

  lemma {:induction false} WindowInNanoseconds(windowSecs: int)
    ensures Window(windowSecs) == windowSecs * 1_000_000_000
  {
  }

  function CountOf(ts: seq<Time>, w: int): (n: nat)
    requires ts != []
    ensures 1 <= n <= |ts|
  {
    var last := |ts| - 1;
    if last == 0 || ts[last] - ts[last - 1] >= w then 1 else 1 + CountOf(ts[..last], w)
  }

  /** Keys do not interfere, and a key's counter is the length of its current burst. */
  lemma {:induction false} CounterIsBurst(log: seq<Call>, windowSecs: int, key: string)
    ensures var ts, counters := Times(log, key), After(log, windowSecs);
      && (key in counters <==> ts != [])
      && (ts != [] ==>
            counters[key] == Counter(CountOf(ts, Window(windowSecs)), ts[|ts| - 1] + Window(windowSecs)))
  {
    if log != [] {
      var front := log[..|log| - 1];
      CounterIsBurst(front, windowSecs, key);
      var ts := Times(log, key);
      if log[|log| - 1].key == key {
        assert ts[..|ts| - 1] == Times(front, key);
      } else {
        assert ts == Times(front, key);
      }
    }
  }

  lemma {:induction false} ReturnedIsBurst(log: seq<Call>, windowSecs: int)
    requires log != []
    ensures var ts := Times(log, log[|log| - 1].key);
      ts != [] && ReturnedCount(log, windowSecs) == CountOf(ts, Window(windowSecs))
  {
    CounterIsBurst(log, windowSecs, log[|log| - 1].key);
  }

  /** Call j starts the burst that contains the last call. */
  ghost predicate StartsBurst(ts: seq<Time>, w: int, j: int) {
    && 0 <= j < |ts|
    && (j == 0 || ts[j] - ts[j - 1] >= w)
    && forall k :: j < k < |ts| ==> ts[k] - ts[k - 1] < w
  }

  /** The count is exactly one plus the calls since the last idle gap of at least the window. */
  lemma {:induction false} CountExact(ts: seq<Time>, w: int, j: int)
    requires ts != []
    ensures StartsBurst(ts, w, j) <==> j == |ts| - CountOf(ts, w)
  {
    var last := |ts| - 1;
    if last > 0 {
      var front := ts[..last];
      CountExact(front, w, j);
      if ts[last] - ts[last - 1] < w {
        assert StartsBurst(ts, w, j) && j < last ==> StartsBurst(front, w, j);
        assert StartsBurst(front, w, j) ==> StartsBurst(ts, w, j);
      }
    }
  }

  // ----- Sliding-window safety -----

  predicate Allowed(log: seq<Call>, windowSecs: int, limit: int)
    requires log != []
  {
    ReturnedCount(log, windowSecs) <= limit
  }

  /** How many calls on the key within [a, a + window) were allowed. */
  function AllowedWithin(log: seq<Call>, windowSecs: int, limit: int, key: string, a: Time): nat {
    if log == [] then 0
    else
      var last := log[|log| - 1];
      AllowedWithin(log[..|log| - 1], windowSecs, limit, key, a) +
        if last.key == key && a <= last.at < a + Window(windowSecs) && Allowed(log, windowSecs, limit) then 1 else 0
  }

  function AllowedTimes(ts: seq<Time>, w: int, limit: int, a: Time): nat {
    if ts == [] then 0
    else
      var last := ts[|ts| - 1];
      AllowedTimes(ts[..|ts| - 1], w, limit, a) +
        if a <= last < a + w && CountOf(ts, w) <= limit then 1 else 0
  }

  lemma {:induction false} AllowedByKey(log: seq<Call>, windowSecs: int, limit: int, key: string, a: Time)
    ensures AllowedWithin(log, windowSecs, limit, key, a) ==
      AllowedTimes(Times(log, key), Window(windowSecs), limit, a)
  {
    if log != [] {
      var front := log[..|log| - 1];
      AllowedByKey(front, windowSecs, limit, key, a);
      var ts := Times(log, key);
      if log[|log| - 1].key == key {
        ReturnedIsBurst(log, windowSecs);
        assert ts[..|ts| - 1] == Times(front, key);
      } else {
        assert ts == Times(front, key);
      }
    }
  }

  lemma {:induction false} NoneBefore(ts: seq<Time>, w: int, limit: int, a: Time)
    requires Chronological(ts) && (ts != [] ==> ts[|ts| - 1] < a)
    ensures AllowedTimes(ts, w, limit, a) == 0
  {
    if ts != [] {
      NoneBefore(ts[..|ts| - 1], w, limit, a);
    }
  }

  function Max(a: int, b: int): int {
    if a > b then a else b
  }

  lemma {:induction false} AllowedBound(ts: seq<Time>, w: int, limit: int, a: Time)
    requires Chronological(ts)
    ensures AllowedTimes(ts, w, limit, a) <= Max(0, limit)
    ensures ts != [] && a <= ts[|ts| - 1] < a + w ==> AllowedTimes(ts, w, limit, a) <= CountOf(ts, w)
  {
    if ts != [] {
      var front, last := ts[..|ts| - 1], ts[|ts| - 1];
      AllowedBound(front, w, limit, a);
      if front == [] || front[|front| - 1] < a {
        NoneBefore(front, w, limit, a);
      }
    }
  }

  ghost predicate ChronologicalLog(log: seq<Call>) {
    forall i, j :: 0 <= i <= j < |log| ==> log[i].at <= log[j].at
  }

  lemma {:induction false} TimesChronological(log: seq<Call>, key: string)
    requires ChronologicalLog(log)
    ensures Chronological(Times(log, key))
    ensures Times(log, key) != [] ==> Times(log, key)[|Times(log, key)| - 1] <= log[|log| - 1].at
  {
    if log != [] {
      TimesChronological(log[..|log| - 1], key);
    }
  }

  /** Sliding-window safety: whatever the calls on whatever keys, no half-open interval of one window
      contains more than limit allowed calls on a key. */
  lemma {:induction false} SlidingWindowSafety(log: seq<Call>, windowSecs: int, limit: int, key: string, a: Time)
    requires ChronologicalLog(log)
    ensures AllowedWithin(log, windowSecs, limit, key, a) <= Max(0, limit)
  {
    AllowedByKey(log, windowSecs, limit, key, a);
    TimesChronological(log, key);
    AllowedBound(Times(log, key), Window(windowSecs), limit, a);
  }

  // ----- Against an exact sliding-window limiter -----

  /** What an exact limiter counts at time t: the attempts in (t - w, t]. */
  function Recent(ts: seq<Time>, w: int, t: Time): nat {
    if ts == [] then 0
    else Recent(ts[..|ts| - 1], w, t) + if ts[|ts| - 1] > t - w then 1 else 0
  }

  lemma {:induction false} NoneRecent(ts: seq<Time>, w: int, t: Time)
    requires Chronological(ts) && (ts != [] ==> ts[|ts| - 1] <= t - w)
    ensures Recent(ts, w, t) == 0
  {
    if ts != [] {
      NoneRecent(ts[..|ts| - 1], w, t);
    }
  }

  /** The limiter never counts less than an exact sliding window would, so every call it allows an exact
      limiter allows too; the counts agree exactly while the whole burst fits the window. */
  lemma {:induction false} CountCoversRecent(ts: seq<Time>, w: int, t: Time)
    requires Chronological(ts) && ts != [] && ts[|ts| - 1] <= t
    ensures Recent(ts, w, t) <= CountOf(ts, w)
    ensures Recent(ts, w, t) == CountOf(ts, w) <==> ts[|ts| - CountOf(ts, w)] > t - w
  {
    var front, last := ts[..|ts| - 1], ts[|ts| - 1];
    if front == [] {
      assert Recent(front, w, t) == 0;
    } else {
      CountCoversRecent(front, w, t);
      if last - front[|front| - 1] >= w || last <= t - w {
        NoneRecent(front, w, t);
      }
      var n := CountOf(front, w);
      assert front[|front| - n] == ts[|front| - n];
    }
  }

  /** Every call the limiter allows, an exact sliding window over all attempts on the key allows too. */
  lemma {:induction false} AllowedByExactWindow(log: seq<Call>, windowSecs: int, limit: int)
    requires ChronologicalLog(log) && log != [] && Allowed(log, windowSecs, limit)
    ensures var last := log[|log| - 1];
      Recent(Times(log, last.key), Window(windowSecs), last.at) <= limit
  {
    var last := log[|log| - 1];
    var ts := Times(log, last.key);
    ReturnedIsBurst(log, windowSecs);
    TimesChronological(log, last.key);
    CountCoversRecent(ts, Window(windowSecs), last.at);
  }

  lemma {:induction false} TimesSnoc(log: seq<Call>, c: Call, key: string)
    ensures Times(log + [c], key) == Times(log, key) + if c.key == key then [c.at] else []
  {
    assert (log + [c])[..|log|] == log;
  }

  /** Three calls on one key. */
  function ThreeCalls(key: string, a: Time, b: Time, c: Time): seq<Call> {
    [Call(key, a)] + [Call(key, b)] + [Call(key, c)]
  }

  lemma {:induction false} TimesOfThree(key: string, a: Time, b: Time, c: Time)
    ensures Times(ThreeCalls(key, a, b, c), key) == [a] + [b] + [c]
  {
    TimesSnoc([Call(key, a)] + [Call(key, b)], Call(key, c), key);
    TimesSnoc([Call(key, a)], Call(key, b), key);
    TimesSnoc([], Call(key, a), key);
    assert [] + [Call(key, a)] == [Call(key, a)] && [] + [a] == [a];
  }

  lemma {:induction false} CountSnoc(ts: seq<Time>, t: Time, w: int)
    requires ts != []
    ensures CountOf(ts + [t], w) == if t - ts[|ts| - 1] >= w then 1 else 1 + CountOf(ts, w)
  {
    assert (ts + [t])[..|ts|] == ts;
  }

  lemma {:induction false} RecentSnoc(ts: seq<Time>, t: Time, w: int, now: Time)
    ensures Recent(ts + [t], w, now) == Recent(ts, w, now) + if t > now - w then 1 else 0
  {
    assert (ts + [t])[..|ts|] == ts;
  }

  lemma {:induction false} CountsOfThree(a: Time, b: Time, c: Time, w: int)
    requires b - a < w && c - b < w && a <= c - w < b <= c
    ensures CountOf([a] + [b] + [c], w) == 3 && Recent([a] + [b] + [c], w, c) == 2
  {
    CountSnoc([a], b, w);
    CountSnoc([a] + [b], c, w);
    RecentSnoc([], a, w, c);
    assert [] + [a] == [a];
    RecentSnoc([a], b, w, c);
    RecentSnoc([a] + [b], c, w, c);
  }

  /** Limiter and exact window can disagree: three calls half a window apart never exceed two per window,
      yet the third is refused under a limit of two. */
  lemma {:induction false} SteadyTrafficRefused(key: string)
    ensures var log := ThreeCalls(key, 0, 30 * SECOND, 60 * SECOND);
      && !Allowed(log, 60, 2)
      && Recent(Times(log, key), Window(60), 60 * SECOND) == 2
  {
    TimesOfThree(key, 0, 30 * SECOND, 60 * SECOND);
    CountsOfThree(0, 30 * SECOND, 60 * SECOND, Window(60));
    ReturnedIsBurst(ThreeCalls(key, 0, 30 * SECOND, 60 * SECOND), 60);
  }

  /** A refused key stays refused through any further calls closer together than the window, and the first
      call after an idle gap of a window counts as one. */
  lemma {:induction false} RefusedUntilIdle(ts: seq<Time>, more: seq<Time>, w: int, limit: int)
    requires ts != [] && CountOf(ts, w) > limit
    requires forall i :: |ts| <= i < |ts + more| ==> (ts + more)[i] - (ts + more)[i - 1] < w
    ensures CountOf(ts + more, w) > limit
    ensures forall t :: t - (ts + more)[|ts + more| - 1] >= w ==> CountOf(ts + more + [t], w) == 1
  {
    var all := ts + more;
    if more == [] {
      assert all == ts;
    } else {
      var front := more[..|more| - 1];
      assert all[..|all| - 1] == ts + front;
      forall i | |ts| <= i < |ts + front| ensures (ts + front)[i] - (ts + front)[i - 1] < w {
        assert (ts + front)[i] == all[i] && (ts + front)[i - 1] == all[i - 1];
      }
      RefusedUntilIdle(ts, front, w, limit);
    }
  }

  lemma {:induction false} TimesAppend(log: seq<Call>, more: seq<Call>, key: string)
    ensures Times(log + more, key) == Times(log, key) + Times(more, key)
  {
    if more == [] {
      assert log + more == log;
    } else {
      var n := |more| - 1;
      assert (log + more)[..|log + more| - 1] == log + more[..n];
      TimesAppend(log, more[..n], key);
    }
  }

  /** In every log: after a refused call, a further call on its key is refused as long as the attempts on the
      key stay closer together than the window, whatever happens on other keys; and the first attempt after
      an idle window counts as one. */
  lemma {:induction false} RefusedKeyStaysRefused(log: seq<Call>, more: seq<Call>, windowSecs: int, limit: int,
                                                  key: string)
    requires log != [] && log[|log| - 1].key == key && !Allowed(log, windowSecs, limit)
    requires var all := Times(log + more, key);
      forall i :: |Times(log, key)| <= i < |all| && i > 0 ==> all[i] - all[i - 1] < Window(windowSecs)
    ensures more != [] && more[|more| - 1].key == key ==> !Allowed(log + more, windowSecs, limit)
    ensures var all := Times(log + more, key);
      all != [] && forall t :: t - all[|all| - 1] >= Window(windowSecs) ==>
        ReturnedCount(log + more + [Call(key, t)], windowSecs) == 1
  {
    var ts, w := Times(log, key), Window(windowSecs);
    ReturnedIsBurst(log, windowSecs);
    TimesAppend(log, more, key);
    RefusedUntilIdle(ts, Times(more, key), w, limit);
    var all := Times(log + more, key);
    if more != [] && more[|more| - 1].key == key {
      ReturnedIsBurst(log + more, windowSecs);
    }
    forall t | t - all[|all| - 1] >= w ensures ReturnedCount(log + more + [Call(key, t)], windowSecs) == 1 {
      CountAfter(log + more, Call(key, t), windowSecs);
    }
  }

  lemma {:induction false} CountAfter(log: seq<Call>, c: Call, windowSecs: int)
    ensures ReturnedCount(log + [c], windowSecs) == CountOf(Times(log, c.key) + [c.at], Window(windowSecs))
  {
    assert (log + [c])[..|log|] == log;
    ReturnedIsBurst(log + [c], windowSecs);
  }
}
