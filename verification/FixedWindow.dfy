/** The limiter against the two fixed-window counters its documentation could mean: one whose window is opened
    by the first call on a key, and one whose windows are aligned with the clock. */
module FixedWindow {
  import opened Domain
  import opened RateLimit
  import opened Redis

  // ----- Windows opened by a call -----

  /** INCR with an EXPIRE only when the key is new: the deadline of a live key stands. */
  function FixedBumped(counters: Counters, key: string, windowSecs: int, now: Time): Counters {
    var deadline := if key in counters && now < counters[key].deadline then counters[key].deadline
                    else now + Window(windowSecs);
    counters[key := Counter(NextCount(counters, key, now), deadline)]
  }

  function FixedAfter(log: seq<Call>, windowSecs: int): Counters {
    if log == [] then map[]
    else
      var last := log[|log| - 1];
      FixedBumped(FixedAfter(log[..|log| - 1], windowSecs), last.key, windowSecs, last.at)
  }

  /** The count a fixed-window limiter returns for the last call of the log. */
  function FixedReturned(log: seq<Call>, windowSecs: int): nat
    requires log != []
  {
    var last := log[|log| - 1];
    NextCount(FixedAfter(log[..|log| - 1], windowSecs), last.key, last.at)
  }

  /** The call that opened the window of the last call. */
  function Opened(ts: seq<Time>, w: int): (s: nat)
    requires ts != []
    ensures s < |ts|
  {
    var last := |ts| - 1;
    if last == 0 then 0
    else
      var s := Opened(ts[..last], w);
      if ts[last] - ts[s] >= w then last else s
  }

  function FixedCount(ts: seq<Time>, w: int): nat
    requires ts != []
  {
    |ts| - Opened(ts, w)
  }

  /** A fixed-window counter holds the calls since its window was opened, key by key. */
  lemma {:induction false} FixedCounterIsWindow(log: seq<Call>, windowSecs: int, key: string)
    ensures var ts, counters := Times(log, key), FixedAfter(log, windowSecs);
      && (key in counters <==> ts != [])
      && (ts != [] ==>
            var w := Window(windowSecs);
            counters[key] == Counter(FixedCount(ts, w), ts[Opened(ts, w)] + w))
  {
    if log != [] {
      var front := log[..|log| - 1];
      FixedCounterIsWindow(front, windowSecs, key);
      var ts := Times(log, key);
      if log[|log| - 1].key == key {
        assert ts[..|ts| - 1] == Times(front, key);
      } else {
        assert ts == Times(front, key);
      }
    }
  }

  lemma {:induction false} FixedReturnedIsWindow(log: seq<Call>, windowSecs: int)
    requires log != []
    ensures var ts := Times(log, log[|log| - 1].key);
      ts != [] && FixedReturned(log, windowSecs) == FixedCount(ts, Window(windowSecs))
  {
    FixedCounterIsWindow(log, windowSecs, log[|log| - 1].key);
  }

  lemma {:induction false} CountOfTimes(ts: seq<Time>, w: int)
    requires Chronological(ts) && ts != []
    ensures FixedCount(ts, w) <= CountOf(ts, w)
    ensures FixedCount(ts, w) == CountOf(ts, w) <==>
      CountOf(ts, w) == 1 || ts[|ts| - 1] - ts[|ts| - CountOf(ts, w)] < w
  {
    var last := |ts| - 1;
    if last > 0 {
      var front := ts[..last];
      CountOfTimes(front, w);
      var s := Opened(front, w);
      assert front[s] == ts[s] && ts[s] <= ts[last - 1];
      assert front[|front| - CountOf(front, w)] == ts[|front| - CountOf(front, w)];
    }
  }

  /** On every log: the limiter never counts less than a fixed-window counter, so whatever it allows a fixed
      window allows too; and it counts the same exactly if the current burst spans less than a window, as a
      burst of one call always does. */
  lemma {:induction false} FixedWindowExactly(log: seq<Call>, windowSecs: int)
    requires ChronologicalLog(log) && log != []
    ensures FixedReturned(log, windowSecs) <= ReturnedCount(log, windowSecs)
    ensures var ts, n := Times(log, log[|log| - 1].key), ReturnedCount(log, windowSecs);
      && 1 <= n <= |ts|
      && (FixedReturned(log, windowSecs) == n <==> n == 1 || ts[|ts| - 1] - ts[|ts| - n] < Window(windowSecs))
  {
    var key := log[|log| - 1].key;
    ReturnedIsBurst(log, windowSecs);
    FixedReturnedIsWindow(log, windowSecs);
    TimesChronological(log, key);
    CountOfTimes(Times(log, key), Window(windowSecs));
  }

  // ----- Windows aligned with the clock -----

  /** How many calls fall into window b of the clock. */
  function AlignedCount(ts: seq<Time>, w: int, b: int): nat
    requires w > 0
  {
    if ts == [] then 0 else AlignedCount(ts[..|ts| - 1], w, b) + if ts[|ts| - 1] / w == b then 1 else 0
  }

  lemma {:induction false} InWindow(t: Time, w: int, b: int)
    requires w > 0
    ensures t / w == b <==> b * w <= t < b * w + w
  {
    var q := t / w;
    assert q * w <= t < q * w + w;
    if q < b {
      assert (q + 1) * w <= b * w;
    } else if q > b {
      assert (b + 1) * w <= q * w;
    }
  }

  lemma {:induction false} AlignedIsRecent(ts: seq<Time>, w: int, b: int)
    requires w > 0 && forall i :: 0 <= i < |ts| ==> ts[i] < b * w + w
    ensures AlignedCount(ts, w, b) == Recent(ts, w, b * w + w - 1)
  {
    if ts != [] {
      AlignedIsRecent(ts[..|ts| - 1], w, b);
      InWindow(ts[|ts| - 1], w, b);
    }
  }

  lemma {:induction false} AlignedOfTimes(ts: seq<Time>, w: int, b: int)
    requires Chronological(ts) && ts != [] && w > 0 && b == ts[|ts| - 1] / w
    ensures AlignedCount(ts, w, b) <= CountOf(ts, w)
    ensures AlignedCount(ts, w, b) == CountOf(ts, w) <==> ts[|ts| - CountOf(ts, w)] / w == b
  {
    InWindow(ts[|ts| - 1], w, b);
    AlignedIsRecent(ts, w, b);
    CountCoversRecent(ts, w, b * w + w - 1);
    InWindow(ts[|ts| - CountOf(ts, w)], w, b);
  }

  /** The same against clock windows: never less, and equal exactly if the whole current burst lies in the
      clock window of the last call. */
  lemma {:induction false} AlignedWindowExactly(log: seq<Call>, windowSecs: int)
    requires ChronologicalLog(log) && log != [] && windowSecs > 0
    ensures var ts, n, w := Times(log, log[|log| - 1].key), ReturnedCount(log, windowSecs), Window(windowSecs);
      && 1 <= n <= |ts|
      && AlignedCount(ts, w, ts[|ts| - 1] / w) <= n
      && (AlignedCount(ts, w, ts[|ts| - 1] / w) == n <==> ts[|ts| - n] / w == ts[|ts| - 1] / w)
  {
    var key := log[|log| - 1].key;
    ReturnedIsBurst(log, windowSecs);
    TimesChronological(log, key);
    var ts, w := Times(log, key), Window(windowSecs);
    AlignedOfTimes(ts, w, ts[|ts| - 1] / w);
  }

  // ----- Where they part -----

  lemma {:induction false} OpenedSnoc(ts: seq<Time>, t: Time, w: int)
    requires ts != []
    ensures Opened(ts + [t], w) == if t - ts[Opened(ts, w)] >= w then |ts| else Opened(ts, w)
  {
    assert (ts + [t])[..|ts|] == ts;
  }

  lemma {:induction false} AlignedSnoc(ts: seq<Time>, t: Time, w: int, b: int)
    requires w > 0
    ensures AlignedCount(ts + [t], w, b) == AlignedCount(ts, w, b) + if t / w == b then 1 else 0
  {
    assert (ts + [t])[..|ts|] == ts;
  }

  /** Three calls half a window apart: the limiter counts three, either fixed window one. */
  lemma {:induction false} FixedWindowDeparts(key: string)
    ensures var log := ThreeCalls(key, 0, 30 * SECOND, 60 * SECOND);
      && ReturnedCount(log, 60) == 3
      && FixedReturned(log, 60) == 1
      && AlignedCount(Times(log, key), Window(60), 60 * SECOND / Window(60)) == 1
  {
    var a, b, c, w := 0, 30 * SECOND, 60 * SECOND, Window(60);
    var log := ThreeCalls(key, a, b, c);
    TimesOfThree(key, a, b, c);
    CountsOfThree(a, b, c, w);
    ReturnedIsBurst(log, 60);
    FixedReturnedIsWindow(log, 60);
    OpenedSnoc([a], b, w);
    OpenedSnoc([a] + [b], c, w);
    AlignedSnoc([], a, w, 1);
    assert [] + [a] == [a];
    AlignedSnoc([a], b, w, 1);
    AlignedSnoc([a] + [b], c, w, 1);
  }
}
