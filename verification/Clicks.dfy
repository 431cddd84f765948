/** ProcessClickEvent stores a click in one statement and bumps the link's counter in another. How the two
    stay related over every interleaving, retry and failure. */
module Clicks {
  import opened Domain
  import opened Store

  datatype State = State(
    db: Db,
    pending: multiset<int>,   // links with a stored click whose increment has not been attempted
    missed: multiset<int>)    // links with a stored click whose increment failed or was never attempted

  datatype Event =
    | Save(click: ClickRow, acknowledged: bool)
    | Count(id: int, succeeds: bool)
    | Other(w: Write, now: Time)

  predicate Enabled(s: State, e: Event) {
    match e
    case Save(_, _) => true
    case Count(id, _) => id in s.pending
    case Other(w, _) => !w.SaveClick? && !w.Increment?
  }

  /** A save whose row was stored but whose acknowledgement was lost returns an error: the delivery is
      retried, as another save, and this row is never counted. */
  function Step(s: State, e: Event): State
    requires Enabled(s, e)
  {
    match e
    case Save(click, acknowledged) =>
      var (db, r) := SaveClickEvent(s.db, click);
      if r.Err? then s.(db := db)
      else if acknowledged then s.(db := db, pending := s.pending + multiset{click.linkId})
      else s.(db := db, missed := s.missed + multiset{click.linkId})
    case Count(id, succeeds) =>
      if succeeds then s.(db := IncrementClickCount(s.db, id), pending := s.pending - multiset{id})
      else s.(pending := s.pending - multiset{id}, missed := s.missed + multiset{id})
    case Other(w, now) => s.(db := Apply(s.db, w, now))
  }

  /** SELECT COUNT(*) FROM click_events WHERE link_id = $1. */
  function Rows(clicks: seq<ClickRow>, id: int): nat {
    if clicks == [] then 0
    else Rows(clicks[..|clicks| - 1], id) + if clicks[|clicks| - 1].linkId == id then 1 else 0
  }

  lemma {:induction false} RowsForget(clicks: seq<ClickRow>, variant: string, id: int)
    ensures Rows(ForgetVariant(clicks, variant), id) == Rows(clicks, id)
  {
    if clicks != [] {
      var n := |clicks| - 1;
      RowsForget(clicks[..n], variant, id);
      assert ForgetVariant(clicks, variant)[..n] == ForgetVariant(clicks[..n], variant);
    }
  }

  lemma {:induction false} NoRows(clicks: seq<ClickRow>, id: int)
    requires forall i :: 0 <= i < |clicks| ==> clicks[i].linkId != id
    ensures Rows(clicks, id) == 0
  {
    if clicks != [] {
      NoRows(clicks[..|clicks| - 1], id);
    }
  }

  ghost predicate Balanced(s: State, id: int)
    requires id in s.db.links
  {
    Rows(s.db.clicks, id) == s.db.links[id].clickCount + s.pending[id] + s.missed[id]
  }

  ghost predicate Inv(s: State) {
    && Valid(s.db)
    && (forall id :: id in s.pending || id in s.missed ==> id in s.db.links)
    && forall id :: id in s.db.links ==> Balanced(s, id)
  }

  lemma {:induction false} SaveKeepsInv(s: State, click: ClickRow, acknowledged: bool)
    requires Inv(s)
    ensures Inv(Step(s, Save(click, acknowledged)))
  {
    ApplyKeepsValid(s.db, SaveClick(click), 0);
    assert Apply(s.db, SaveClick(click), 0) == SaveClickEvent(s.db, click).0;
    assert (s.db.clicks + [click])[..|s.db.clicks|] == s.db.clicks;
    var s' := Step(s, Save(click, acknowledged));
    forall id | id in s'.db.links ensures Balanced(s', id) {
      assert Balanced(s, id);
    }
  }

  lemma {:induction false} CountKeepsInv(s: State, id: int, succeeds: bool)
    requires Inv(s) && id in s.pending
    ensures Inv(Step(s, Count(id, succeeds)))
  {
    ApplyKeepsValid(s.db, Increment(id), 0);
    assert Apply(s.db, Increment(id), 0) == IncrementClickCount(s.db, id);
    var s' := Step(s, Count(id, succeeds));
    forall other | other in s'.db.links ensures Balanced(s', other) {
      assert Balanced(s, other);
    }
  }

  lemma {:induction false} OtherClicks(db: Db, w: Write, now: Time, id: int)
    requires !w.SaveClick?
    ensures Rows(Apply(db, w, now).clicks, id) == Rows(db.clicks, id)
  {
    if w.RemoveABTest? {
      RowsForget(db.clicks, w.testId, id);
    }
  }

  lemma {:induction false} OtherLinks(db: Db, w: Write, now: Time, id: int)
    requires LinksValid(db) && !w.Increment? && id in Apply(db, w, now).links
    ensures id in db.links ==> Apply(db, w, now).links[id].clickCount == db.links[id].clickCount
    ensures id !in db.links ==> Apply(db, w, now).links[id].clickCount == 0
  {
  }

  /** Updates, slug changes, soft deletes and the deletion of variants leave rows and counters alone; a new
      link starts with neither. */
  lemma {:induction false} OtherKeepsCounts(db: Db, w: Write, now: Time, id: int)
    requires Valid(db) && !w.SaveClick? && !w.Increment? && id in Apply(db, w, now).links
    ensures var db' := Apply(db, w, now);
      && Rows(db'.clicks, id) == Rows(db.clicks, id)
      && (id in db.links ==> db'.links[id].clickCount == db.links[id].clickCount)
      && (id !in db.links ==> db'.links[id].clickCount == 0 && Rows(db.clicks, id) == 0)
  {
    OtherClicks(db, w, now, id);
    OtherLinks(db, w, now, id);
    if id !in db.links {
      NoRows(db.clicks, id);
    }
  }

  lemma {:induction false} OtherKeepsInv(s: State, w: Write, now: Time)
    requires Inv(s) && !w.SaveClick? && !w.Increment?
    ensures Inv(Step(s, Other(w, now)))
  {
    ApplyKeepsValid(s.db, w, now);
    var s' := Step(s, Other(w, now));
    LinksOnlyGrow(s.db, w, now);
    forall id | id in s'.db.links ensures Balanced(s', id) {
      OtherKeepsCounts(s.db, w, now, id);
      if id in s.db.links {
        assert Balanced(s, id);
      }
    }
  }

  lemma {:induction false} LinksOnlyGrow(db: Db, w: Write, now: Time)
    ensures db.links.Keys <= Apply(db, w, now).links.Keys
  {
  }

  lemma {:induction false} StepKeepsInv(s: State, e: Event)
    requires Inv(s) && Enabled(s, e)
    ensures Inv(Step(s, e))
  {
    match e
    case Save(click, acknowledged) => SaveKeepsInv(s, click, acknowledged);
    case Count(id, succeeds) => CountKeepsInv(s, id, succeeds);
    case Other(w, now) => OtherKeepsInv(s, w, now);
  }

  ghost predicate Run(ss: seq<State>, es: seq<Event>) {
    && |ss| == |es| + 1
    && ss[0] == State(EMPTY, multiset{}, multiset{})
    && forall i :: 0 <= i < |es| ==> Enabled(ss[i], es[i]) && ss[i + 1] == Step(ss[i], es[i])
  }

  /** In every run the stored clicks of a link are its counter plus the increments still due plus those
      missed; so the counter never exceeds the stored clicks and is exact when none is due or missed. */
  lemma {:induction false} ClicksAccounted(ss: seq<State>, es: seq<Event>, i: nat)
    requires Run(ss, es) && i < |ss|
    ensures Inv(ss[i])
    ensures forall id :: id in ss[i].db.links ==>
      var rows, count := Rows(ss[i].db.clicks, id), ss[i].db.links[id].clickCount;
      && rows == count + ss[i].pending[id] + ss[i].missed[id]
      && count <= rows
      && (count == rows <==> id !in ss[i].pending && id !in ss[i].missed)
  {
    if i > 0 {
      ClicksAccounted(ss, es, i - 1);
      StepKeepsInv(ss[i - 1], es[i - 1]);
    }
    forall id | id in ss[i].db.links ensures Balanced(ss[i], id) {}
  }
}
