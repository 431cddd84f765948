/** The in-process analytics worker: a bounded channel, a non-blocking producer and a fixed number of
    consumers, with cancellation and close. Every channel operation is its own step. */
module Worker {

  datatype Payload = Payload(
    linkId: int, abTestId: string, ipAddress: string, userAgent: string, referrer: string, clickedAt: string)

  /** Where a consumer goroutine is: at the channel receive, processing an event, about to look whether the
      context was cancelled, or returned with its done signal sent. */
  datatype Phase = Waiting | Busy(event: Payload) | Polling | Exited

  /** What has happened to every event so far; no step consults it. */
  datatype History = History(
    offered: seq<Payload>,
    accepted: seq<Payload>,
    dropped: seq<Payload>,
    received: seq<Payload>,
    succeeded: seq<Payload>,
    failed: seq<Payload>)

  datatype State = State(
    capacity: nat,
    queue: seq<Payload>,
    consumers: seq<Phase>,
    cancelled: bool,
    closed: bool,
    signals: nat,
    history: History)

  datatype Event =
    | Offer(event: Payload)
    | Receive(i: nat)
    | Finish(i: nat, ok: bool)
    | Poll(i: nat)
    | LeaveDrained(i: nat)
    | Cancel
    | Close

  /** Enqueue must not be called on a closed queue; Start closes it only after cancellation. */
  predicate Enabled(s: State, e: Event) {
    match e
    case Offer(_) => !s.closed
    case Receive(i) => i < |s.consumers| && s.consumers[i] == Waiting && s.queue != []
    case Finish(i, _) => i < |s.consumers| && s.consumers[i].Busy?
    case Poll(i) => i < |s.consumers| && s.consumers[i] == Polling
    case LeaveDrained(i) => i < |s.consumers| && s.consumers[i] == Waiting && s.queue == [] && s.closed
    case Cancel => true
    case Close => s.cancelled && !s.closed
  }

  function Step(s: State, e: Event): State
    requires Enabled(s, e)
  {
    var h := s.history;
    match e
    case Offer(x) =>
      if |s.queue| < s.capacity then
        s.(queue := s.queue + [x], history := h.(offered := h.offered + [x], accepted := h.accepted + [x]))
      else s.(history := h.(offered := h.offered + [x], dropped := h.dropped + [x]))
    case Receive(i) =>
      s.(queue := s.queue[1..], consumers := s.consumers[i := Busy(s.queue[0])],
         history := h.(received := h.received + [s.queue[0]]))
    case Finish(i, ok) =>
      var x := s.consumers[i].event;
      s.(consumers := s.consumers[i := Polling],
         history := if ok then h.(succeeded := h.succeeded + [x]) else h.(failed := h.failed + [x]))
    case Poll(i) =>
      if s.cancelled then s.(consumers := s.consumers[i := Exited], signals := s.signals + 1)
      else s.(consumers := s.consumers[i := Waiting])
    case LeaveDrained(i) => s.(consumers := s.consumers[i := Exited], signals := s.signals + 1)
    case Cancel => s.(cancelled := true)
    case Close => s.(closed := true)
  }

  function Started(capacity: nat, concurrency: nat): State {
    State(capacity, [], seq(concurrency, _ => Waiting), false, false, 0, History([], [], [], [], [], []))
  }

  // ----- Conservation -----

  function Carried(p: Phase): multiset<Payload> {
    if p.Busy? then multiset{p.event} else multiset{}
  }

  function InFlight(ps: seq<Phase>): multiset<Payload> {
    if ps == [] then multiset{} else InFlight(ps[..|ps| - 1]) + Carried(ps[|ps| - 1])
  }

  function Count(ps: seq<Phase>, p: Phase): nat {
    if ps == [] then 0
    else Count(ps[..|ps| - 1], p) + if ps[|ps| - 1] == p then 1 else 0
  }

  lemma {:induction false} CountUpdate(ps: seq<Phase>, i: nat, p: Phase, q: Phase)
    requires i < |ps|
    ensures Count(ps[i := p], q) + (if ps[i] == q then 1 else 0) == Count(ps, q) + if p == q then 1 else 0
  {
    var n := |ps| - 1;
    if i < n {
      CountUpdate(ps[..n], i, p, q);
      assert ps[i := p][..n] == ps[..n][i := p];
    } else {
      assert ps[i := p][..n] == ps[..n];
    }
  }

  /** An event is in flight as often as a consumer is busy with it. */
  lemma {:induction false} InFlightCounts(ps: seq<Phase>, x: Payload)
    ensures InFlight(ps)[x] == Count(ps, Busy(x))
  {
    if ps != [] {
      InFlightCounts(ps[..|ps| - 1], x);
    }
  }

  lemma {:induction false} SameCounts<T>(a: multiset<T>, b: multiset<T>)
    requires forall x :: a[x] == b[x]
    ensures a == b
  {
  }

  lemma {:induction false} InFlightUpdate(ps: seq<Phase>, i: nat, p: Phase)
    requires i < |ps|
    ensures InFlight(ps[i := p]) + Carried(ps[i]) == InFlight(ps) + Carried(p)
  {
    forall x ensures (InFlight(ps[i := p]) + Carried(ps[i]))[x] == (InFlight(ps) + Carried(p))[x] {
      InFlightCounts(ps[i := p], x);
      InFlightCounts(ps, x);
      CountUpdate(ps, i, p, Busy(x));
    }
    SameCounts(InFlight(ps[i := p]) + Carried(ps[i]), InFlight(ps) + Carried(p));
  }

  lemma {:induction false} InFlightSize(ps: seq<Phase>)
    ensures |InFlight(ps)| <= |ps|
  {
    if ps != [] {
      InFlightSize(ps[..|ps| - 1]);
    }
  }

  lemma {:induction false} NoneInFlight(n: nat)
    ensures InFlight(seq(n, _ => Waiting)) == multiset{} && Count(seq(n, _ => Waiting), Exited) == 0
  {
    if n > 0 {
      NoneInFlight(n - 1);
      assert seq(n, _ => Waiting)[..n - 1] == seq(n - 1, _ => Waiting);
    }
  }

  lemma {:induction false} CountAll(ps: seq<Phase>, q: Phase)
    ensures Count(ps, q) <= |ps|
    ensures Count(ps, q) == |ps| <==> forall i :: 0 <= i < |ps| ==> ps[i] == q
  {
    if ps != [] {
      var front := ps[..|ps| - 1];
      CountAll(front, q);
      assert forall i :: 0 <= i < |front| ==> front[i] == ps[i];
    }
  }

  lemma {:induction false} CountNone(ps: seq<Phase>, q: Phase)
    requires forall i :: 0 <= i < |ps| ==> ps[i] != q
    ensures Count(ps, q) == 0
  {
    if ps != [] {
      CountNone(ps[..|ps| - 1], q);
    }
  }

  /** Every offered event was accepted or dropped; the accepted ones are, in order, those received followed
      by those queued; and every received one succeeded, failed, or is with exactly one consumer. */
  ghost predicate Conserved(s: State) {
    var h := s.history;
    && multiset(h.offered) == multiset(h.accepted) + multiset(h.dropped)
    && h.accepted == h.received + s.queue
    && multiset(h.received) == multiset(h.succeeded) + multiset(h.failed) + InFlight(s.consumers)
    && |s.queue| <= s.capacity
  }

  ghost predicate Inv(s: State) {
    && Conserved(s)
    && s.signals == Count(s.consumers, Exited)
    && (s.closed ==> s.cancelled)
  }

  lemma {:induction false} SnocCounts<T>(a: seq<T>, x: T)
    ensures multiset(a + [x]) == multiset(a) + multiset{x}
  {
  }

  lemma {:induction false} OneMoreCounted<T>(whole: seq<T>, a: seq<T>, b: seq<T>, x: T)
    requires multiset(whole) == multiset(a) + multiset(b)
    ensures multiset(whole + [x]) == multiset(a + [x]) + multiset(b)
    ensures multiset(whole + [x]) == multiset(a) + multiset(b + [x])
  {
    SnocCounts(whole, x);
    SnocCounts(a, x);
    SnocCounts(b, x);
  }

  lemma {:induction false} OfferConserves(s: State, x: Payload)
    requires Conserved(s) && !s.closed
    ensures Conserved(Step(s, Offer(x)))
  {
    var h := s.history;
    OneMoreCounted(h.offered, h.accepted, h.dropped, x);
    assert h.accepted + [x] == h.received + (s.queue + [x]);
  }

  lemma {:induction false} ReceiveMoves(ps: seq<Phase>, i: nat, x: Payload)
    requires i < |ps| && ps[i] == Waiting
    ensures InFlight(ps[i := Busy(x)]) == InFlight(ps) + multiset{x}
  {
    InFlightUpdate(ps, i, Busy(x));
    assert InFlight(ps[i := Busy(x)]) + Carried(Waiting) == InFlight(ps[i := Busy(x)]);
  }

  lemma {:induction false} OneMoreInFlight(received: seq<Payload>, done: multiset<Payload>, busy: multiset<Payload>,
                                           x: Payload)
    requires multiset(received) == done + busy
    ensures multiset(received + [x]) == done + (busy + multiset{x})
  {
    SnocCounts(received, x);
  }

  lemma {:induction false} HeadMoves<T>(front: seq<T>, queue: seq<T>)
    requires queue != []
    ensures front + queue == (front + [queue[0]]) + queue[1..]
  {
  }

  lemma {:induction false} ReceiveConserves(s: State, i: nat)
    requires Conserved(s) && Enabled(s, Receive(i))
    ensures Conserved(Step(s, Receive(i)))
  {
    var x, h := s.queue[0], s.history;
    ReceiveMoves(s.consumers, i, x);
    OneMoreInFlight(h.received, multiset(h.succeeded) + multiset(h.failed), InFlight(s.consumers), x);
    HeadMoves(h.received, s.queue);
  }

  lemma {:induction false} FinishConserves(s: State, i: nat, ok: bool)
    requires Conserved(s) && Enabled(s, Finish(i, ok))
    ensures Conserved(Step(s, Finish(i, ok)))
  {
    var x := s.consumers[i].event;
    InFlightUpdate(s.consumers, i, Polling);
    assert InFlight(s.consumers[i := Polling]) + multiset{x} == InFlight(s.consumers);
  }

  lemma {:induction false} LeaveConserves(s: State, i: nat, p: Phase)
    requires i < |s.consumers| && !s.consumers[i].Busy? && !p.Busy?
    ensures InFlight(s.consumers[i := p]) == InFlight(s.consumers)
  {
    InFlightUpdate(s.consumers, i, p);
    assert InFlight(s.consumers[i := p]) == InFlight(s.consumers[i := p]) + Carried(s.consumers[i]);
  }

  lemma {:induction false} StepConserves(s: State, e: Event)
    requires Conserved(s) && Enabled(s, e)
    ensures Conserved(Step(s, e))
  {
    match e
    case Offer(x) => OfferConserves(s, x);
    case Receive(i) => ReceiveConserves(s, i);
    case Finish(i, ok) => FinishConserves(s, i, ok);
    case Poll(i) => LeaveConserves(s, i, if s.cancelled then Exited else Waiting);
    case LeaveDrained(i) => LeaveConserves(s, i, Exited);
    case _ =>
  }

  lemma {:induction false} StepCountsSignals(s: State, e: Event)
    requires Enabled(s, e) && s.signals == Count(s.consumers, Exited)
    ensures Step(s, e).signals == Count(Step(s, e).consumers, Exited)
  {
    match e
    case Receive(i) => CountUpdate(s.consumers, i, Busy(s.queue[0]), Exited);
    case Finish(i, _) => CountUpdate(s.consumers, i, Polling, Exited);
    case Poll(i) => CountUpdate(s.consumers, i, if s.cancelled then Exited else Waiting, Exited);
    case LeaveDrained(i) => CountUpdate(s.consumers, i, Exited, Exited);
    case _ =>
  }

  lemma {:induction false} StepKeepsInv(s: State, e: Event)
    requires Inv(s) && Enabled(s, e)
    ensures Inv(Step(s, e))
    ensures |Step(s, e).consumers| == |s.consumers| && Step(s, e).capacity == s.capacity
  {
    StepConserves(s, e);
    StepCountsSignals(s, e);
  }

  ghost predicate Path(ss: seq<State>, es: seq<Event>) {
    |ss| == |es| + 1 && forall i :: 0 <= i < |es| ==> Enabled(ss[i], es[i]) && ss[i + 1] == Step(ss[i], es[i])
  }

  lemma {:induction false} PathInv(ss: seq<State>, es: seq<Event>, i: nat)
    requires Path(ss, es) && Inv(ss[0]) && i < |ss|
    ensures Inv(ss[i])
    ensures |ss[i].consumers| == |ss[0].consumers| && ss[i].capacity == ss[0].capacity
  {
    if i > 0 {
      PathInv(ss, es, i - 1);
      StepKeepsInv(ss[i - 1], es[i - 1]);
    }
  }

  /** Conservation in every reachable state, for every interleaving of producers and consumers. */
  lemma {:induction false} Conservation(capacity: nat, concurrency: nat, ss: seq<State>, es: seq<Event>, i: nat)
    requires Path(ss, es) && ss[0] == Started(capacity, concurrency) && i < |ss|
    ensures Conserved(ss[i])
    ensures |ss[i].history.offered| == |ss[i].history.accepted| + |ss[i].history.dropped|
    ensures |InFlight(ss[i].consumers)| <= concurrency && |ss[i].queue| <= capacity
    ensures ss[i].history.received <= ss[i].history.accepted
  {
    NoneInFlight(concurrency);
    assert Inv(ss[0]);
    PathInv(ss, es, i);
    InFlightSize(ss[i].consumers);
    var h := ss[i].history;
    assert |multiset(h.offered)| == |multiset(h.accepted)| + |multiset(h.dropped)|;
  }

  // ----- When an event is dropped -----

  /** An offer drops its event exactly if the queue is full, and otherwise puts it at the back. */
  lemma {:induction false} OfferExact(s: State, x: Payload)
    requires !s.closed
    ensures Enabled(s, Offer(x))
    ensures var t := Step(s, Offer(x));
      && (|s.queue| >= s.capacity ==> t.queue == s.queue && t.history.dropped == s.history.dropped + [x])
      && (|s.queue| < s.capacity ==> t.queue == s.queue + [x] && t.history.dropped == s.history.dropped)
      && t.consumers == s.consumers && t.history.received == s.history.received
  {
  }

  /** Only an offer to a full queue drops an event. */
  lemma {:induction false} DropOnlyWhenFull(s: State, e: Event)
    requires Enabled(s, e) && Step(s, e).history.dropped != s.history.dropped
    ensures e.Offer? && |s.queue| >= s.capacity
  {
  }

  lemma {:induction false} QueueFits(capacity: nat, concurrency: nat, ss: seq<State>, es: seq<Event>, i: nat)
    requires Path(ss, es) && ss[0] == Started(capacity, concurrency) && i < |ss|
    ensures ss[i].capacity == capacity && |ss[i].queue| <= capacity
    ensures |ss[i].queue| == |ss[i].history.accepted| - |ss[i].history.received|
  {
    NoneInFlight(concurrency);
    PathInv(ss, es, i);
  }

  /** A run in which the accepted events not yet received stay fewer than the capacity drops none. */
  lemma {:induction false} NothingDropped(capacity: nat, concurrency: nat, ss: seq<State>, es: seq<Event>, i: nat)
    requires Path(ss, es) && ss[0] == Started(capacity, concurrency) && i < |ss|
    requires forall j :: 0 <= j < i ==> |ss[j].history.accepted| - |ss[j].history.received| < capacity
    ensures ss[i].history.dropped == []
  {
    if i > 0 {
      NothingDropped(capacity, concurrency, ss, es, i - 1);
      QueueFits(capacity, concurrency, ss, es, i - 1);
      if ss[i].history.dropped != ss[i - 1].history.dropped {
        DropOnlyWhenFull(ss[i - 1], es[i - 1]);
      }
    }
  }

  /** In every run a dropped event found the queue full. */
  lemma {:induction false} DroppedFoundFull(capacity: nat, concurrency: nat, ss: seq<State>, es: seq<Event>, i: nat)
    requires Path(ss, es) && ss[0] == Started(capacity, concurrency) && i < |es|
    ensures ss[i + 1].history.dropped != ss[i].history.dropped ==> es[i].Offer? && |ss[i].queue| == capacity
  {
    QueueFits(capacity, concurrency, ss, es, i);
    if ss[i + 1].history.dropped != ss[i].history.dropped {
      DropOnlyWhenFull(ss[i], es[i]);
    }
  }

  /** A processed event is recorded under its outcome. */
  lemma {:induction false} FinishExact(s: State, i: nat, ok: bool)
    requires Enabled(s, Finish(i, ok))
    ensures var x, h, h' := s.consumers[i].event, s.history, Step(s, Finish(i, ok)).history;
      && h'.succeeded == (if ok then h.succeeded + [x] else h.succeeded)
      && h'.failed == (if ok then h.failed else h.failed + [x])
  {
  }

  /** Before cancellation no consumer returns. */
  lemma {:induction false} NoneLeavesEarly(capacity: nat, concurrency: nat, ss: seq<State>, es: seq<Event>, i: nat)
    requires Path(ss, es) && ss[0] == Started(capacity, concurrency) && i < |ss| && !ss[i].cancelled
    ensures forall k :: 0 <= k < |ss[i].consumers| ==> ss[i].consumers[k] != Exited
  {
    if i > 0 {
      assert Enabled(ss[i - 1], es[i - 1]) && ss[i] == Step(ss[i - 1], es[i - 1]);
      NoneLeavesEarly(capacity, concurrency, ss, es, i - 1);
      NoneInFlight(concurrency);
      PathInv(ss, es, i - 1);
    }
  }

  // ----- Shutdown -----

  /** How many steps a consumer can still take once the context is cancelled. */
  function Rank(p: Phase): nat {
    match p
    case Waiting => 3
    case Busy(_) => 2
    case Polling => 1
    case Exited => 0
  }

  function TotalRank(ps: seq<Phase>): nat {
    if ps == [] then 0 else TotalRank(ps[..|ps| - 1]) + Rank(ps[|ps| - 1])
  }

  lemma {:induction false} RankUpdate(ps: seq<Phase>, i: nat, p: Phase)
    requires i < |ps|
    ensures TotalRank(ps[i := p]) + Rank(ps[i]) == TotalRank(ps) + Rank(p)
  {
    var n := |ps| - 1;
    if i < n {
      RankUpdate(ps[..n], i, p);
      assert ps[i := p][..n] == ps[..n][i := p];
    } else {
      assert ps[i := p][..n] == ps[..n];
    }
  }

  /** How often an event of a kind occurs for consumer i. */
  function Receives(es: seq<Event>, i: nat): nat {
    if es == [] then 0 else Receives(es[..|es| - 1], i) + if es[|es| - 1] == Receive(i) then 1 else 0
  }

  function Finishes(es: seq<Event>, i: nat): nat {
    if es == [] then 0
    else
      var last := es[|es| - 1];
      Finishes(es[..|es| - 1], i) + if last.Finish? && last.i == i then 1 else 0
  }

  function AtLeast(p: Phase, rank: nat): nat {
    if Rank(p) >= rank then 1 else 0
  }

  lemma {:induction false} CancelledStep(s: State, e: Event, i: nat)
    requires Enabled(s, e) && s.cancelled && i < |s.consumers|
    ensures var t := Step(s, e);
      && t.cancelled && |t.consumers| == |s.consumers|
      && (if e == Receive(i) then 1 else 0) + AtLeast(t.consumers[i], 3) <= AtLeast(s.consumers[i], 3)
      && (if e.Finish? && e.i == i then 1 else 0) + AtLeast(t.consumers[i], 2) <= AtLeast(s.consumers[i], 2)
  {
  }

  /** After cancellation a consumer receives at most one more event, and only if it was waiting for one; and
      it finishes at most one, and only if it was waiting or busy. */
  lemma {:induction false} AfterCancellation(ss: seq<State>, es: seq<Event>, i: nat)
    requires Path(ss, es) && ss[0].cancelled && i < |ss[0].consumers|
    ensures ss[|es|].cancelled && |ss[|es|].consumers| == |ss[0].consumers|
    ensures Receives(es, i) + AtLeast(ss[|es|].consumers[i], 3) <= AtLeast(ss[0].consumers[i], 3)
    ensures Finishes(es, i) + AtLeast(ss[|es|].consumers[i], 2) <= AtLeast(ss[0].consumers[i], 2)
  {
    if es != [] {
      var n := |es| - 1;
      AfterCancellation(ss[..n + 1], es[..n], i);
      CancelledStep(ss[n], es[n], i);
    }
  }

  function Completed(h: History): nat {
    |h.succeeded| + |h.failed|
  }

  lemma {:induction false} CompletionStep(s: State, e: Event)
    requires Enabled(s, e) && s.cancelled
    ensures var t := Step(s, e);
      && t.cancelled
      && Completed(t.history) + Unfinished(t.consumers) <= Completed(s.history) + Unfinished(s.consumers)
  {
    if IsConsumerStep(e) {
      UnfinishedUpdate(s.consumers, e.i, Step(s, e).consumers[e.i]);
    }
  }

  /** After cancellation at most one event per consumer is finished in all. */
  lemma {:induction false} CompletionsBounded(ss: seq<State>, es: seq<Event>)
    requires Path(ss, es) && ss[0].cancelled
    ensures ss[|es|].cancelled
    ensures Completed(ss[|es|].history) + Unfinished(ss[|es|].consumers)
      <= Completed(ss[0].history) + Unfinished(ss[0].consumers)
    ensures Completed(ss[|es|].history) <= Completed(ss[0].history) + |ss[0].consumers|
  {
    if es != [] {
      var n := |es| - 1;
      CompletionsBounded(ss[..n + 1], es[..n]);
      CompletionStep(ss[n], es[n]);
    }
  }

  /** Consumers that can still finish an event after cancellation; at most all of them. */
  function Unfinished(ps: seq<Phase>): (n: nat)
    ensures n <= |ps|
  {
    if ps == [] then 0
    else Unfinished(ps[..|ps| - 1]) + if Rank(ps[|ps| - 1]) >= 2 then 1 else 0
  }

  lemma {:induction false} UnfinishedUpdate(ps: seq<Phase>, i: nat, p: Phase)
    requires i < |ps|
    ensures Unfinished(ps[i := p]) + (if Rank(ps[i]) >= 2 then 1 else 0)
      == Unfinished(ps) + if Rank(p) >= 2 then 1 else 0
  {
    var n := |ps| - 1;
    if i < n {
      UnfinishedUpdate(ps[..n], i, p);
      assert ps[i := p][..n] == ps[..n][i := p];
    } else {
      assert ps[i := p][..n] == ps[..n];
    }
  }

  // ----- After close -----

  predicate IsConsumerStep(e: Event) {
    e.Receive? || e.Finish? || e.Poll? || e.LeaveDrained?
  }

  function ConsumerSteps(es: seq<Event>): nat {
    if es == [] then 0 else ConsumerSteps(es[..|es| - 1]) + if IsConsumerStep(es[|es| - 1]) then 1 else 0
  }

  /** After close, as long as some consumer has not exited, one can take a step (processing terminates). */
  lemma {:induction false} SomeStepEnabled(s: State)
    requires s.closed && !(forall i :: 0 <= i < |s.consumers| ==> s.consumers[i] == Exited)
    ensures exists e :: Enabled(s, e) && IsConsumerStep(e)
  {
    var i :| 0 <= i < |s.consumers| && s.consumers[i] != Exited;
    match s.consumers[i]
    case Waiting =>
      if s.queue == [] {
        assert Enabled(s, LeaveDrained(i));
      } else {
        assert Enabled(s, Receive(i));
      }
    case Busy(_) => assert Enabled(s, Finish(i, true));
    case Polling => assert Enabled(s, Poll(i));
  }

  function Monus(a: nat, b: nat): nat {
    if a <= b then 0 else a - b
  }

  ghost predicate IsSuffix<T>(t: seq<T>, s: seq<T>) {
    |t| <= |s| && t == s[|s| - |t|..]
  }

  lemma {:induction false} SuffixTransitive<T>(u: seq<T>, t: seq<T>, s: seq<T>)
    requires IsSuffix(u, t) && IsSuffix(t, s)
    ensures IsSuffix(u, s)
  {
  }

  lemma {:induction false} ClosedStep(s: State, e: Event)
    requires Enabled(s, e) && s.closed && s.cancelled
    ensures var t := Step(s, e);
      && t.closed && t.cancelled
      && t.history.offered == s.history.offered
      && TotalRank(t.consumers) + (if IsConsumerStep(e) then 1 else 0) <= TotalRank(s.consumers)
      && Monus(|t.queue|, Count(t.consumers, Waiting)) == Monus(|s.queue|, Count(s.consumers, Waiting))
      && IsSuffix(t.queue, s.queue)
  {
    if IsConsumerStep(e) {
      RankUpdate(s.consumers, e.i, Step(s, e).consumers[e.i]);
      CountUpdate(s.consumers, e.i, Step(s, e).consumers[e.i], Waiting);
    }
  }

  lemma {:induction false} RankBound(ps: seq<Phase>)
    ensures TotalRank(ps) <= 3 * |ps|
  {
    if ps != [] {
      RankBound(ps[..|ps| - 1]);
    }
  }

  /** After close: no offers, at most three steps per consumer in all, and the queue only loses its front. */
  lemma {:induction false} ClosedRun(ss: seq<State>, es: seq<Event>)
    requires Path(ss, es) && ss[0].closed && ss[0].cancelled
    ensures var s, t := ss[0], ss[|es|];
      && t.closed && t.cancelled
      && TotalRank(t.consumers) + ConsumerSteps(es) <= TotalRank(s.consumers)
      && ConsumerSteps(es) <= 3 * |s.consumers|
      && Monus(|t.queue|, Count(t.consumers, Waiting)) == Monus(|s.queue|, Count(s.consumers, Waiting))
      && IsSuffix(t.queue, s.queue)
  {
    RankBound(ss[0].consumers);
    if es != [] {
      var n := |es| - 1;
      ClosedRun(ss[..n + 1], es[..n]);
      ClosedStep(ss[n], es[n]);
      SuffixTransitive(ss[n + 1].queue, ss[n].queue, ss[0].queue);
    }
  }

  /** Shutdown, exactly. When after close no consumer can step any more, all have exited and all done
      signals have arrived; what was not received is the suffix of the queue beyond one event per consumer
      that was waiting at the close. So the queue is drained exactly when it then held no more events than
      there were waiting consumers, not always. */
  lemma {:induction false} ShutdownExact(ss: seq<State>, es: seq<Event>)
    requires Path(ss, es) && Inv(ss[0]) && ss[0].closed
    requires forall e :: Enabled(ss[|es|], e) ==> !IsConsumerStep(e)
    ensures var s, t := ss[0], ss[|es|];
      && (forall i :: 0 <= i < |t.consumers| ==> t.consumers[i] == Exited)
      && t.signals == |s.consumers|
      && |t.queue| == Monus(|s.queue|, Count(s.consumers, Waiting))
      && IsSuffix(t.queue, s.queue)
      && t.history.accepted == t.history.received + t.queue
      && (t.queue == [] <==> |s.queue| <= Count(s.consumers, Waiting))
  {
    var t := ss[|es|];
    PathInv(ss, es, |es|);
    ClosedRun(ss, es);
    if exists i :: 0 <= i < |t.consumers| && t.consumers[i] != Exited {
      SomeStepEnabled(t);
    }
    CountAll(t.consumers, Exited);
    CountNone(t.consumers, Waiting);
  }

  /** A shutdown that is not a drain: one consumer, busy when the context is cancelled, exits after the event
      it holds and leaves the next one in the queue, with its done signal sent. */
  lemma {:induction false} EventLeftBehind(x: Payload, y: Payload) returns (ss: seq<State>, es: seq<Event>)
    ensures Path(ss, es) && ss[0] == Started(2, 1)
    ensures ss[|es|].closed && ss[|es|].signals == 1 && ss[|es|].queue == [y]
    ensures forall e :: Enabled(ss[|es|], e) ==> !IsConsumerStep(e)
  {
    var s0 := Started(2, 1);
    var s1 := Step(s0, Offer(x));
    var s2 := Step(s1, Receive(0));
    var s3 := Step(s2, Offer(y));
    var s4 := Step(s3, Cancel);
    var s5 := Step(s4, Close);
    var s6 := Step(s5, Finish(0, true));
    var s7 := Step(s6, Poll(0));
    ss := [s0, s1, s2, s3, s4, s5, s6, s7];
    es := [Offer(x), Receive(0), Offer(y), Cancel, Close, Finish(0, true), Poll(0)];
  }

  // ----- The worker -----

  class AnalyticsWorker {
    const capacity: nat
    var queue: seq<Payload>
    var consumers: seq<Phase>
    var cancelled: bool
    var closed: bool
    var signals: nat
    ghost var history: History

    ghost function Model(): State
      reads this
    {
      State(capacity, queue, consumers, cancelled, closed, signals, history)
    }

    /** NewAnalyticsWorker followed by the launch of the consumers in Start. */
    constructor (bufferSize: int, workers: int)
      ensures Model() == Started(if bufferSize <= 0 then 10000 else bufferSize, if workers <= 0 then 4 else workers)
    {
      var n := if workers <= 0 then 4 else workers;
      capacity := if bufferSize <= 0 then 10000 else bufferSize;
      queue, consumers := [], seq(n, _ => Waiting);
      cancelled, closed, signals := false, false, 0;
      history := History([], [], [], [], [], []);
    }

    method Enqueue(payload: Payload)
      requires !closed
      modifies this
      ensures Model() == Step(old(Model()), Offer(payload))
      ensures old(|queue|) < capacity ==> queue == old(queue) + [payload] && history.dropped == old(history.dropped)
      ensures old(|queue|) >= capacity ==> queue == old(queue) && history.dropped == old(history.dropped) + [payload]
    {
      history := history.(offered := history.offered + [payload]);
      if |queue| < capacity {
        queue := queue + [payload];
        history := history.(accepted := history.accepted + [payload]);
      } else {
        history := history.(dropped := history.dropped + [payload]);
      }
    }

    /** The receive at the head of the consumer loop: an event, or the end of a closed and empty channel. */
    method Next(i: nat) returns (more: bool)
      requires i < |consumers| && consumers[i] == Waiting && (queue != [] || closed)
      modifies this
      ensures more <==> old(queue) != []
      ensures Model() == Step(old(Model()), if more then Receive(i) else LeaveDrained(i))
      ensures more ==> queue == old(queue)[1..]
      ensures more ==> |consumers| == |old(consumers)| && consumers[i] == Busy(old(queue)[0])
    {
      if queue == [] {
        consumers := consumers[i := Exited];
        signals := signals + 1;
        return false;
      }
      consumers := consumers[i := Busy(queue[0])];
      history := history.(received := history.received + [queue[0]]);
      queue := queue[1..];
      return true;
    }

    /** The end of one iteration: the outcome of ProcessClickEvent, then the look at the context. */
    method Complete(i: nat, ok: bool) returns (stops: bool)
      requires i < |consumers| && consumers[i].Busy?
      modifies this
      ensures stops <==> old(cancelled)
      ensures Model() == Step(Step(old(Model()), Finish(i, ok)), Poll(i))
      ensures history.succeeded == old(history.succeeded) + if ok then [old(consumers)[i].event] else []
      ensures history.failed == old(history.failed) + if ok then [] else [old(consumers)[i].event]
      ensures |consumers| == |old(consumers)| && consumers[i] == if stops then Exited else Waiting
    {
      ghost var x := consumers[i].event;
      history := if ok then history.(succeeded := history.succeeded + [x])
                 else history.(failed := history.failed + [x]);
      if cancelled {
        consumers := consumers[i := Exited];
        signals := signals + 1;
        return true;
      }
      consumers := consumers[i := Waiting];
      return false;
    }

    method Shutdown()
      requires !closed
      modifies this
      ensures Model() == Step(Step(old(Model()), Cancel), Close)
      ensures cancelled && closed && queue == old(queue)
    {
      cancelled := true;
      closed := true;
    }
  }
}
