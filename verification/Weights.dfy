/** CreateABTest checks the weight sum in one query and inserts in another. Over every interleaving of such
    calls: what the weights of a link can sum to. */
module Weights {
  import opened Domain
  import opened Sequences
  import opened Store
  import Rows
  import Selection

  const WEIGHT_LIMIT: int := 100

  /** A call that has passed the sum check and not yet inserted. */
  datatype Checked = Checked(linkId: int, weight: int)

  datatype State = State(db: Db, checked: seq<Checked>)

  datatype Event =
    | Check(linkId: int, weight: int)
    | InsertChecked(i: nat, test: ABTest)
    | GiveUp(i: nat)
    | Other(w: Write, now: Time)

  /** Lines "validate weight range" and "check total weight" of CreateABTest. */
  predicate PassesCheck(db: Db, linkId: int, weight: int) {
    && 0 < weight <= WEIGHT_LIMIT
    && SumWeights(db.abTests, linkId) + weight <= WEIGHT_LIMIT
  }

  predicate Enabled(s: State, e: Event) {
    match e
    case Check(linkId, weight) => linkId in s.db.links && PassesCheck(s.db, linkId, weight)
    case InsertChecked(i, t) =>
      i < |s.checked| && t.linkId == s.checked[i].linkId && t.weight == s.checked[i].weight
    case GiveUp(i) => i < |s.checked|
    case Other(w, _) => !w.AddABTest?
  }

  function Without<T>(xs: seq<T>, i: nat): seq<T>
    requires i < |xs|
  {
    xs[..i] + xs[i + 1..]
  }

  function Step(s: State, e: Event): State
    requires Enabled(s, e)
  {
    match e
    case Check(linkId, weight) => s.(checked := s.checked + [Checked(linkId, weight)])
    case InsertChecked(i, t) => State(InsertABTest(s.db, t).0, Without(s.checked, i))
    case GiveUp(i) => s.(checked := Without(s.checked, i))
    case Other(w, now) => s.(db := Apply(s.db, w, now))
  }

  // ----- Sums -----

  function PendingWeight(cs: seq<Checked>, linkId: int): int {
    if cs == [] then 0
    else
      var last := cs[|cs| - 1];
      PendingWeight(cs[..|cs| - 1], linkId) + if last.linkId == linkId then last.weight else 0
  }

  function PendingCalls(cs: seq<Checked>, linkId: int): nat {
    if cs == [] then 0
    else PendingCalls(cs[..|cs| - 1], linkId) + if cs[|cs| - 1].linkId == linkId then 1 else 0
  }

  lemma {:induction false} PendingSplit(a: seq<Checked>, b: seq<Checked>, linkId: int)
    ensures PendingWeight(a + b, linkId) == PendingWeight(a, linkId) + PendingWeight(b, linkId)
    ensures PendingCalls(a + b, linkId) == PendingCalls(a, linkId) + PendingCalls(b, linkId)
  {
    if b == [] {
      assert a + b == a;
    } else {
      assert (a + b)[..|a + b| - 1] == a + b[..|b| - 1];
      PendingSplit(a, b[..|b| - 1], linkId);
    }
  }

  lemma {:induction false} PendingWithout(cs: seq<Checked>, i: nat, linkId: int)
    requires i < |cs|
    ensures PendingWeight(Without(cs, i), linkId) ==
      PendingWeight(cs, linkId) - if cs[i].linkId == linkId then cs[i].weight else 0
    ensures PendingCalls(Without(cs, i), linkId) ==
      PendingCalls(cs, linkId) - if cs[i].linkId == linkId then 1 else 0
  {
    PendingSplit(cs[..i], cs[i + 1..], linkId);
    PendingSplit(cs[..i + 1], cs[i + 1..], linkId);
    assert cs == cs[..i + 1] + cs[i + 1..];
    assert cs[..i + 1][..i] == cs[..i];
  }

  lemma {:induction false} RemovalShrinksSum(ts: seq<ABTest>, keep: ABTest -> bool, linkId: int)
    requires forall i :: 0 <= i < |ts| ==> ts[i].weight >= 0
    ensures 0 <= SumWeights(Filter(ts, keep), linkId) <= SumWeights(ts, linkId)
  {
    if ts != [] {
      var front, last := ts[..|ts| - 1], ts[|ts| - 1];
      RemovalShrinksSum(front, keep, linkId);
      if keep(last) {
        assert (Filter(front, keep) + [last])[..|Filter(front, keep)|] == Filter(front, keep);
      }
    }
  }

  // ----- The bound -----

  /** Stored weights of a link plus the weights that have passed the check and may still be inserted. */
  function Committed(s: State, linkId: int): int {
    SumWeights(s.db.abTests, linkId) + PendingWeight(s.checked, linkId)
  }

  ghost predicate Inv(s: State) {
    && Valid(s.db)
    && forall i :: 0 <= i < |s.checked| ==> 0 < s.checked[i].weight <= WEIGHT_LIMIT
  }

  lemma {:induction false} PendingBound(cs: seq<Checked>, linkId: int)
    requires forall i :: 0 <= i < |cs| ==> 0 < cs[i].weight <= WEIGHT_LIMIT
    ensures 0 <= PendingWeight(cs, linkId) <= WEIGHT_LIMIT * PendingCalls(cs, linkId)
  {
    if cs != [] {
      PendingBound(cs[..|cs| - 1], linkId);
    }
  }

  lemma {:induction false} CheckBound(s: State, l: int, weight: int, linkId: int)
    requires Inv(s) && Enabled(s, Check(l, weight))
    ensures var t := Step(s, Check(l, weight));
      Committed(t, linkId) == Committed(s, linkId)
        || Committed(t, linkId) <= WEIGHT_LIMIT * PendingCalls(t.checked, linkId)
  {
    var c := Checked(l, weight);
    PendingBound(s.checked, linkId);
    assert (s.checked + [c])[..|s.checked|] == s.checked;
  }

  lemma {:induction false} InsertBound(s: State, i: nat, t: ABTest, linkId: int)
    requires Inv(s) && Enabled(s, InsertChecked(i, t))
    ensures Committed(Step(s, InsertChecked(i, t)), linkId) <= Committed(s, linkId)
  {
    PendingWithout(s.checked, i, linkId);
    assert (s.db.abTests + [t])[..|s.db.abTests|] == s.db.abTests;
  }

  lemma {:induction false} OtherBound(db: Db, w: Write, now: Time, linkId: int)
    requires ABTestsValid(db) && !w.AddABTest?
    ensures SumWeights(Apply(db, w, now).abTests, linkId) <= SumWeights(db.abTests, linkId)
  {
    if w.RemoveABTest? {
      RemovalShrinksSum(db.abTests, OtherTest(w.testId), linkId);
    } else {
      assert Apply(db, w, now).abTests == db.abTests;
    }
  }

  lemma {:induction false} StepKeepsInv(s: State, e: Event)
    requires Inv(s) && Enabled(s, e)
    ensures Inv(Step(s, e))
  {
    match e
    case InsertChecked(i, t) =>
      ApplyKeepsValid(s.db, AddABTest(t), 0);
      assert Apply(s.db, AddABTest(t), 0) == InsertABTest(s.db, t).0;
    case Other(w, now) => ApplyKeepsValid(s.db, w, now);
    case _ =>
  }

  /** A step either leaves the committed weight of a link no larger, or is a check that brings it to at most
      one hundred for every call then in flight. */
  lemma {:induction false} StepBound(s: State, e: Event, linkId: int)
    requires Inv(s) && Enabled(s, e)
    ensures Committed(Step(s, e), linkId) <= Committed(s, linkId)
      || Committed(Step(s, e), linkId) <= WEIGHT_LIMIT * PendingCalls(Step(s, e).checked, linkId)
  {
    match e
    case Check(l, weight) => CheckBound(s, l, weight, linkId);
    case InsertChecked(i, t) => InsertBound(s, i, t, linkId);
    case GiveUp(i) => PendingWithout(s.checked, i, linkId);
    case Other(w, now) => OtherBound(s.db, w, now, linkId);
  }

  ghost predicate Run(ss: seq<State>, es: seq<Event>) {
    && |ss| == |es| + 1
    && Valid(ss[0].db) && ss[0].checked == []
    && forall i :: 0 <= i < |es| ==> Enabled(ss[i], es[i]) && ss[i + 1] == Step(ss[i], es[i])
  }

  /** If never more than k calls for a link are in flight at once, its stored and pending weights never
      exceed 100 * k (from a start within one hundred); stored weights stay in 1..100 each. */
  lemma {:induction false} WeightBound(ss: seq<State>, es: seq<Event>, linkId: int, k: nat, i: nat)
    requires Run(ss, es) && k >= 1 && i < |ss| && SumWeights(ss[0].db.abTests, linkId) <= WEIGHT_LIMIT
    requires forall j :: 0 <= j < |ss| ==> PendingCalls(ss[j].checked, linkId) <= k
    ensures Inv(ss[i])
    ensures Committed(ss[i], linkId) <= WEIGHT_LIMIT * k
  {
    if i > 0 {
      WeightBound(ss, es, linkId, k, i - 1);
      StepKeepsInv(ss[i - 1], es[i - 1]);
      StepBound(ss[i - 1], es[i - 1], linkId);
    }
  }

  /** Calls that do not overlap keep the weights of a link within one hundred. */
  lemma {:induction false} SerialWeights(ss: seq<State>, es: seq<Event>, linkId: int)
    requires Run(ss, es) && SumWeights(ss[0].db.abTests, linkId) <= WEIGHT_LIMIT
    requires forall j :: 0 <= j < |ss| ==> PendingCalls(ss[j].checked, linkId) <= 1
    ensures SumWeights(ss[|es|].db.abTests, linkId) <= WEIGHT_LIMIT
  {
    WeightBound(ss, es, linkId, 1, |es|);
    PendingBound(ss[|es|].checked, linkId);
  }

  // ----- The bound is reached -----

  /** A run in which at most k calls for the link are ever in flight. */
  ghost predicate RunWithin(ss: seq<State>, es: seq<Event>, linkId: int, k: nat) {
    Run(ss, es) && forall j :: 0 <= j < |ss| ==> PendingCalls(ss[j].checked, linkId) <= k
  }

  lemma {:induction false} RunAppend(ss: seq<State>, es: seq<Event>, linkId: int, k: nat, e: Event)
    requires RunWithin(ss, es, linkId, k) && Enabled(ss[|es|], e)
    requires PendingCalls(Step(ss[|es|], e).checked, linkId) <= k
    ensures RunWithin(ss + [Step(ss[|es|], e)], es + [e], linkId, k)
  {
    var ts, fs := ss + [Step(ss[|es|], e)], es + [e];
    forall i | 0 <= i < |fs| ensures Enabled(ts[i], fs[i]) && ts[i + 1] == Step(ts[i], fs[i]) {
      if i < |es| {
        assert ts[i] == ss[i] && ts[i + 1] == ss[i + 1] && fs[i] == es[i];
      }
    }
  }

  lemma {:induction false} RunTo(ss: seq<State>, es: seq<Event>, linkId: int, k: nat, e: Event, t: State)
      returns (ts: seq<State>, fs: seq<Event>)
    requires RunWithin(ss, es, linkId, k) && Enabled(ss[|es|], e) && t == Step(ss[|es|], e)
    requires PendingCalls(t.checked, linkId) <= k
    ensures RunWithin(ts, fs, linkId, k) && ts[0] == ss[0] && ts[|fs|] == t && fs == es + [e]
  {
    RunAppend(ss, es, linkId, k, e);
    ts, fs := ss + [t], es + [e];
  }

  // ----- Calls one after the other -----

  /** A weight passes exactly if it is between one and a hundred and the link's stored variants leave room. */
  lemma {:induction false} CheckExact(db: Db, linkId: int, weight: int)
    ensures PassesCheck(db, linkId, weight) <==>
      1 <= weight <= 100 && Selection.Total(VariantsOf(db, linkId)) + weight <= 100
  {
    Rows.SumIsTotal(db, linkId);
  }

  /** Variants that may follow those stored: of the link, with new and distinct ids and positive weights that
      fit together with the stored ones. */
  ghost predicate Fit(db: Db, linkId: int, tests: seq<ABTest>) {
    && (forall i :: 0 <= i < |tests| ==> tests[i].linkId == linkId && tests[i].weight >= 1)
    && (forall i :: 0 <= i < |tests| ==> forall u :: u in db.abTests ==> u.id != tests[i].id)
    && (forall i, j :: 0 <= i < j < |tests| ==> tests[i].id != tests[j].id)
    && Selection.Total(VariantsOf(db, linkId)) + Selection.Total(tests) <= 100
  }

  lemma {:induction false} TotalPositive(tests: seq<ABTest>)
    requires forall i :: 0 <= i < |tests| ==> tests[i].weight >= 1
    ensures Selection.Total(tests) >= |tests|
  {
    if tests != [] {
      var front, last := tests[..|tests| - 1], tests[|tests| - 1];
      assert tests == front + [last];
      TotalPositive(front);
      Rows.TotalSnoc(front, last);
    }
  }

  lemma {:induction false} SumSnoc(tests: seq<ABTest>, t: ABTest)
    ensures SumWeights(tests + [t], t.linkId) == SumWeights(tests, t.linkId) + t.weight
  {
    assert (tests + [t])[..|tests|] == tests;
  }

  /** Calls one after the other: each checks and inserts before the next begins. */
  function Calls(tests: seq<ABTest>): seq<Event> {
    if tests == [] then []
    else
      var t := tests[|tests| - 1];
      Calls(tests[..|tests| - 1]) + [Check(t.linkId, t.weight), InsertChecked(0, t)]
  }

  /** Check and insert of one more fitting variant. */
  lemma {:induction false} OneAccepted(ss: seq<State>, es: seq<Event>, linkId: int, t: ABTest)
      returns (ts: seq<State>, fs: seq<Event>)
    requires RunWithin(ss, es, linkId, 1) && ss[|es|].checked == [] && linkId in ss[|es|].db.links
    requires t.linkId == linkId && t.weight >= 1 && SumWeights(ss[|es|].db.abTests, linkId) + t.weight <= 100
    requires SumWeights(ss[|es|].db.abTests, linkId) >= 0 && !HasABTest(ss[|es|].db.abTests, t.id)
    ensures RunWithin(ts, fs, linkId, 1) && ts[0] == ss[0] && ts[|fs|].checked == []
    ensures ts[|fs|].db == ss[|es|].db.(abTests := ss[|es|].db.abTests + [t])
    ensures fs == es + [Check(linkId, t.weight), InsertChecked(0, t)]
  {
    var e, f := Check(linkId, t.weight), InsertChecked(0, t);
    var s1, s2 := CheckAndInsert(ss[|es|], t);
    ts, fs := RunTo(ss, es, linkId, 1, e, s1);
    ts, fs := RunTo(ts, fs, linkId, 1, f, s2);
    assert es + [e] + [f] == es + [e, f];
  }

  lemma {:induction false} CheckAndInsert(s: State, t: ABTest) returns (s1: State, s2: State)
    requires s.checked == [] && t.linkId in s.db.links && !HasABTest(s.db.abTests, t.id)
    requires t.weight >= 1 && SumWeights(s.db.abTests, t.linkId) + t.weight <= 100
    requires SumWeights(s.db.abTests, t.linkId) >= 0
    ensures Enabled(s, Check(t.linkId, t.weight)) && s1 == Step(s, Check(t.linkId, t.weight))
    ensures Enabled(s1, InsertChecked(0, t)) && s2 == Step(s1, InsertChecked(0, t))
    ensures PendingCalls(s1.checked, t.linkId) == 1 && s2 == State(s.db.(abTests := s.db.abTests + [t]), [])
  {
    s1 := Step(s, Check(t.linkId, t.weight));
    assert s1.checked == [Checked(t.linkId, t.weight)] && s1.checked[..0] == [];
    s2 := Step(s1, InsertChecked(0, t));
    assert Without(s1.checked, 0) == [];
  }

  lemma {:induction false} FrontFits(db: Db, linkId: int, tests: seq<ABTest>)
    requires Fit(db, linkId, tests) && tests != []
    ensures Fit(db, linkId, tests[..|tests| - 1])
  {
    Rows.TotalSnoc(tests[..|tests| - 1], tests[|tests| - 1]);
    assert tests == tests[..|tests| - 1] + [tests[|tests| - 1]];
  }

  /** Every variant that fits is accepted: calls one after the other store all of them, up to a sum of exactly
      one hundred. */
  lemma {:induction false} SerialAccepted(db: Db, linkId: int, tests: seq<ABTest>)
      returns (ss: seq<State>, es: seq<Event>)
    requires Valid(db) && linkId in db.links && Fit(db, linkId, tests)
    ensures RunWithin(ss, es, linkId, 1) && ss[0] == State(db, []) && ss[|es|].checked == []
    ensures ss[|es|].db == db.(abTests := db.abTests + tests)
    ensures SumWeights(ss[|es|].db.abTests, linkId) ==
      Selection.Total(VariantsOf(db, linkId)) + Selection.Total(tests)
    ensures es == Calls(tests)
    decreases |tests|
  {
    Rows.SumIsTotal(db, linkId);
    if tests == [] {
      ss, es := [State(db, [])], [];
      assert db.abTests + [] == db.abTests;
    } else {
      var front, t := tests[..|tests| - 1], tests[|tests| - 1];
      assert tests == front + [t];
      FrontFits(db, linkId, tests);
      ss, es := SerialAccepted(db, linkId, front);
      NextFits(db, linkId, front, t);
      ss, es := OneAccepted(ss, es, linkId, t);
    }
  }

  lemma {:induction false} NextFits(db: Db, linkId: int, front: seq<ABTest>, t: ABTest)
    requires ABTestsValid(db) && Fit(db, linkId, front + [t])
    requires SumWeights(db.abTests + front, linkId) ==
      Selection.Total(VariantsOf(db, linkId)) + Selection.Total(front)
    ensures t.linkId == linkId && t.weight >= 1 && !HasABTest(db.abTests + front, t.id)
    ensures 0 <= SumWeights(db.abTests + front, linkId) <= 100 - t.weight
    ensures SumWeights(db.abTests + (front + [t]), linkId) ==
      Selection.Total(VariantsOf(db, linkId)) + Selection.Total(front + [t])
    ensures db.abTests + front + [t] == db.abTests + (front + [t])
  {
    var tests := front + [t];
    assert tests[|front|] == t && forall i :: 0 <= i < |front| ==> tests[i] == front[i];
    Rows.SumIsTotal(db, linkId);
    Rows.TotalSnoc(front, t);
    TotalPositive(front);
    StoredPositive(db, linkId);
    StillFresh(db.abTests, front, t);
    SumSnoc(db.abTests + front, t);
    assert db.abTests + front + [t] == db.abTests + (front + [t]);
  }

  lemma {:induction false} StillFresh(stored: seq<ABTest>, front: seq<ABTest>, t: ABTest)
    requires forall u :: u in stored ==> u.id != t.id
    requires forall i :: 0 <= i < |front| ==> front[i].id != t.id
    ensures !HasABTest(stored + front, t.id)
  {
    forall i | 0 <= i < |stored + front| ensures (stored + front)[i].id != t.id {
      if i < |stored| {
        assert stored[i] in stored;
      }
    }
  }

  lemma {:induction false} StoredPositive(db: Db, linkId: int)
    requires ABTestsValid(db)
    ensures SumWeights(db.abTests, linkId) >= 0
  {
    RemovalShrinksSum(db.abTests, OfLink(linkId), linkId);
  }

  // ----- Calls that overlap -----

  function FullChecks(linkId: int, k: nat): (cs: seq<Checked>)
    ensures |cs| == k && forall i :: 0 <= i < k ==> cs[i] == Checked(linkId, WEIGHT_LIMIT)
  {
    seq(k, _ => Checked(linkId, WEIGHT_LIMIT))
  }

  lemma {:induction false} FullChecksPending(linkId: int, k: nat)
    ensures PendingCalls(FullChecks(linkId, k), linkId) == k
  {
    if k > 0 {
      FullChecksPending(linkId, k - 1);
      assert FullChecks(linkId, k)[..k - 1] == FullChecks(linkId, k - 1);
    }
  }

  /** k calls that all pass the check before any inserts. */
  lemma {:induction false} CheckAll(db: Db, linkId: int, k: nat, n: nat) returns (ss: seq<State>, es: seq<Event>)
    requires Valid(db) && linkId in db.links && SumWeights(db.abTests, linkId) == 0 && k <= n
    ensures RunWithin(ss, es, linkId, n) && ss[0] == State(db, [])
    ensures ss[|es|] == State(db, FullChecks(linkId, k))
  {
    if k == 0 {
      ss, es := [State(db, [])], [];
      assert FullChecks(linkId, 0) == [];
    } else {
      ss, es := CheckAll(db, linkId, k - 1, n);
      var e := Check(linkId, WEIGHT_LIMIT);
      assert FullChecks(linkId, k - 1) + [Checked(linkId, WEIGHT_LIMIT)] == FullChecks(linkId, k);
      FullChecksPending(linkId, k);
      ss, es := RunTo(ss, es, linkId, n, e, Step(ss[|es|], e));
    }
  }

  /** Then all insert, the last to check first. */
  lemma {:induction false} InsertAll(ss: seq<State>, es: seq<Event>, linkId: int, ids: seq<string>, k: nat)
      returns (ts: seq<State>, fs: seq<Event>)
    requires RunWithin(ss, es, linkId, |ids|) && k <= |ids| && linkId in ss[|es|].db.links
    requires ss[|es|].checked == FullChecks(linkId, k)
    requires forall i :: 0 <= i < k ==> !HasABTest(ss[|es|].db.abTests, ids[i])
    requires forall i, j :: 0 <= i < j < |ids| ==> ids[i] != ids[j]
    ensures RunWithin(ts, fs, linkId, |ids|) && ts[0] == ss[0] && ts[|fs|].checked == []
    ensures SumWeights(ts[|fs|].db.abTests, linkId) == SumWeights(ss[|es|].db.abTests, linkId) + WEIGHT_LIMIT * k
    decreases k
  {
    if k == 0 {
      ts, fs := ss, es;
    } else {
      var s := ss[|es|];
      var test := ABTest(ids[k - 1], linkId, "https://example.com", WEIGHT_LIMIT, "", 0);
      var e := InsertChecked(k - 1, test);
      assert Without(s.checked, k - 1) == FullChecks(linkId, k - 1);
      FullChecksPending(linkId, k - 1);
      RunAppend(ss, es, linkId, |ids|, e);
      var s1 := Step(s, e);
      assert s1.db.abTests == s.db.abTests + [test] && s1.db.abTests[..|s.db.abTests|] == s.db.abTests;
      ts, fs := InsertAll(ss + [s1], es + [e], linkId, ids, k - 1);
    }
  }

  /** The bound is sharp for every k: a run with never more than k calls of the link in flight can leave its
      weights summing to exactly 100 * k. */
  lemma {:induction false} OverlapReachesBound(db: Db, linkId: int, ids: seq<string>)
      returns (ss: seq<State>, es: seq<Event>)
    requires Valid(db) && linkId in db.links && SumWeights(db.abTests, linkId) == 0
    requires forall i :: 0 <= i < |ids| ==> !HasABTest(db.abTests, ids[i])
    requires forall i, j :: 0 <= i < j < |ids| ==> ids[i] != ids[j]
    ensures Run(ss, es) && ss[0] == State(db, []) && ss[|es|].checked == []
    ensures forall j :: 0 <= j < |ss| ==> PendingCalls(ss[j].checked, linkId) <= |ids|
    ensures SumWeights(ss[|es|].db.abTests, linkId) == WEIGHT_LIMIT * |ids|
  {
    ss, es := CheckAll(db, linkId, |ids|, |ids|);
    ss, es := InsertAll(ss, es, linkId, ids, |ids|);
  }
}
