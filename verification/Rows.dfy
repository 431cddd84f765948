/** What the statements do to stored rows and what the queries return of them, column by column. */
module Rows {
  import opened Common
  import opened Domain
  import opened Sequences
  import opened Store
  import opened Decision
  import Selection

  // ----- Selected children -----

  function TestId(): ABTest -> string { (t: ABTest) => t.id }

  function RuleId(): GeoRule -> string { (r: GeoRule) => r.id }

  lemma {:induction false} FilterDistinct<T, K>(table: seq<T>, keep: T -> bool, key: T -> K)
    requires DistinctBy(table, key)
    ensures DistinctBy(Filter(table, keep), key)
  {
    var rows := Filter(table, keep);
    forall i, j | 0 <= i < j < |rows| ensures key(rows[i]) != key(rows[j]) {
      var p, q := FilterOrder(table, keep, i, j);
    }
  }

  /** The variants of a link are exactly the rows of the table that name it, oldest first. */
  lemma {:induction false} VariantsExact(db: Db, linkId: int)
    ensures forall t :: t in VariantsOf(db, linkId) <==> t in db.abTests && t.linkId == linkId
    ensures var vs := VariantsOf(db, linkId);
      forall i, j :: 0 <= i < j < |vs| ==> vs[i].createdAt <= vs[j].createdAt
    ensures ABTestsValid(db) ==>
      var vs := VariantsOf(db, linkId);
      forall i, j :: 0 <= i < j < |vs| ==> vs[i].id != vs[j].id
  {
    var rows := Filter(db.abTests, OfLink(linkId));
    forall t ensures t in VariantsOf(db, linkId) <==> t in db.abTests && t.linkId == linkId {
      SelectedRows(db.abTests, OfLink(linkId), TestCreated(), t);
    }
    SortByExact(rows, TestCreated());
    var vs := VariantsOf(db, linkId);
    forall i, j | 0 <= i < j < |vs| ensures vs[i].createdAt <= vs[j].createdAt {
      assert TestCreated()(vs[i]) <= TestCreated()(vs[j]);
    }
    if ABTestsValid(db) {
      FilterDistinct(db.abTests, OfLink(linkId), TestId());
      DistinctPermuted(rows, vs, TestId());
      forall i, j | 0 <= i < j < |vs| ensures vs[i].id != vs[j].id {
        assert TestId()(vs[i]) != TestId()(vs[j]);
      }
    }
  }

  /** The rules of a link are exactly the rows of the table that name it, by rising priority number. */
  lemma {:induction false} RulesExact(db: Db, linkId: int)
    ensures forall r :: r in RulesOf(db, linkId) <==> r in db.geoRules && r.linkId == linkId
    ensures var rs := RulesOf(db, linkId);
      forall i, j :: 0 <= i < j < |rs| ==> rs[i].priority <= rs[j].priority
    ensures GeoRulesValid(db) ==>
      var rs := RulesOf(db, linkId);
      forall i, j :: 0 <= i < j < |rs| ==> rs[i].id != rs[j].id
  {
    var rows := Filter(db.geoRules, RuleOfLink(linkId));
    forall r ensures r in RulesOf(db, linkId) <==> r in db.geoRules && r.linkId == linkId {
      SelectedRows(db.geoRules, RuleOfLink(linkId), RulePriority(), r);
    }
    SortByExact(rows, RulePriority());
    var rs := RulesOf(db, linkId);
    forall i, j | 0 <= i < j < |rs| ensures rs[i].priority <= rs[j].priority {
      assert RulePriority()(rs[i]) <= RulePriority()(rs[j]);
    }
    if GeoRulesValid(db) {
      assert DistinctBy(db.geoRules, RuleId()) by {
        forall i, j | 0 <= i < j < |db.geoRules| ensures RuleId()(db.geoRules[i]) != RuleId()(db.geoRules[j]) {
          assert RulesApart(db.geoRules[i], db.geoRules[j]);
        }
      }
      FilterDistinct(db.geoRules, RuleOfLink(linkId), RuleId());
      DistinctPermuted(rows, rs, RuleId());
      forall i, j | 0 <= i < j < |rs| ensures rs[i].id != rs[j].id {
        assert RuleId()(rs[i]) != RuleId()(rs[j]);
      }
    }
  }

  lemma {:induction false} TotalSnoc(vs: seq<ABTest>, t: ABTest)
    ensures Selection.Total(vs + [t]) == Selection.Total(vs) + t.weight
  {
    PrefixSame(vs, vs + [t], |vs|);
  }

  lemma {:induction false} PrefixSame(vs: seq<ABTest>, ws: seq<ABTest>, k: nat)
    requires k <= |vs| && vs <= ws
    ensures Selection.Prefix(vs, k) == Selection.Prefix(ws, k)
  {
    if k > 0 {
      PrefixSame(vs, ws, k - 1);
    }
  }

  lemma {:induction false} TotalInsert(vs: seq<ABTest>, t: ABTest, key: ABTest -> int)
    ensures Selection.Total(Insert(vs, t, key)) == Selection.Total(vs) + t.weight
  {
    if vs == [] || key(vs[|vs| - 1]) <= key(t) {
      TotalSnoc(vs, t);
    } else {
      var front, last := vs[..|vs| - 1], vs[|vs| - 1];
      assert vs == front + [last];
      TotalInsert(front, t, key);
      TotalSnoc(Insert(front, t, key), last);
      TotalSnoc(front, last);
    }
  }

  lemma {:induction false} TotalSorted(vs: seq<ABTest>, key: ABTest -> int)
    ensures Selection.Total(SortBy(vs, key)) == Selection.Total(vs)
  {
    if vs != [] {
      var front, last := vs[..|vs| - 1], vs[|vs| - 1];
      assert vs == front + [last];
      TotalSorted(front, key);
      TotalInsert(SortBy(front, key), last, key);
      TotalSnoc(front, last);
    }
  }

  lemma {:induction false} TotalFiltered(tests: seq<ABTest>, linkId: int)
    ensures Selection.Total(Filter(tests, OfLink(linkId))) == SumWeights(tests, linkId)
  {
    if tests != [] {
      var front, last := tests[..|tests| - 1], tests[|tests| - 1];
      assert tests == front + [last];
      TotalFiltered(front, linkId);
      if last.linkId == linkId {
        TotalSnoc(Filter(front, OfLink(linkId)), last);
      }
    }
  }

  /** The weight sum that CreateABTest checks is the total that the weighted choice of a redirect uses. */
  lemma {:induction false} SumIsTotal(db: Db, linkId: int)
    ensures SumWeights(db.abTests, linkId) == Selection.Total(VariantsOf(db, linkId))
  {
    TotalFiltered(db.abTests, linkId);
    TotalSorted(Filter(db.abTests, OfLink(linkId)), TestCreated());
  }

  // ----- A link as it is read -----

  /** The link found under the slug of a row has the columns of that row, a NULL hash reading as "", and the
      row's own children; and nothing is found under a slug that no row has. */
  lemma {:induction false} FoundIsStored(db: Db, id: int)
    requires LinksValid(db) && id in db.links
    ensures FindBySlug(db, db.links[id].slug).Some?
    ensures var row, l := db.links[id], FindBySlug(db, db.links[id].slug).value;
      && l.id == id && l.userId == row.userId && l.slug == row.slug && l.destinationUrl == row.destinationUrl
      && l.title == row.title && l.isActive == row.isActive && l.clickCount == row.clickCount
      && l.expiredAt == row.expiredAt && l.createdAt == row.createdAt && l.updatedAt == row.updatedAt
      && (row.passwordHash.None? ==> l.passwordHash == "")
      && (row.passwordHash.Some? ==> l.passwordHash == row.passwordHash.value)
      && (forall t :: t in l.abTests <==> t in db.abTests && t.linkId == id)
      && (forall r :: r in l.geoRules <==> r in db.geoRules && r.linkId == id)
  {
    RowBySlugUnique(db, id);
    VariantsExact(db, id);
    RulesExact(db, id);
  }

  lemma {:induction false} FoundExactly(db: Db, slug: string)
    ensures FindBySlug(db, slug).Some? <==> exists id :: id in db.links && db.links[id].slug == slug
  {
  }

  /** What a redirect answered from the database makes of the row: hidden unless active and unexpired, then
      locked unless the password matches the stored hash, then served. */
  lemma {:induction false} StoredDecision(db: Db, id: int, now: Time, matches: Matcher, req: Request)
    requires LinksValid(db) && id in db.links
    ensures FindBySlug(db, db.links[id].slug).Some?
    ensures var row := db.links[id];
      var r := Decide(FindBySlug(db, row.slug).value, now, matches, req);
      var hidden := !row.isActive || (row.expiredAt.Some? && row.expiredAt.value < now);
      var locked := row.passwordHash.Some? && row.passwordHash.value != "";
      && (hidden ==> r == Err(LinkNotFound))
      && (!hidden && locked && req.password == "" ==> r == Err(PasswordRequired))
      && (!hidden && locked && req.password != "" && !matches(row.passwordHash.value, req.password) ==>
            r == Err(InvalidPassword))
      && (!hidden && (!locked || (req.password != "" && matches(row.passwordHash.value, req.password))) ==>
            r.Ok? && r.value.linkId == id)
      && var untested := forall t :: t in db.abTests ==> t.linkId != id;
        var unruled := forall g :: g in db.geoRules ==> g.linkId != id;
        (r.Ok? && untested && unruled ==> r.value.destinationUrl == row.destinationUrl && r.value.statusCode == 301)
  {
    FoundIsStored(db, id);
    var l := FindBySlug(db, db.links[id].slug).value;
    if l.abTests != [] {
      assert l.abTests[0] in db.abTests && l.abTests[0].linkId == id;
    }
    if l.geoRules != [] {
      assert l.geoRules[0] in db.geoRules && l.geoRules[0].linkId == id;
    }
  }

  // ----- Statements on links -----

  /** Every row but one is as before, and there is no new one. */
  ghost predicate OnlyRow(before: Db, after: Db, id: int) {
    && after.links.Keys == before.links.Keys
    && (forall other :: other in before.links && other != id ==> after.links[other] == before.links[other])
    && after.nextId == before.nextId && after.abTests == before.abTests && after.geoRules == before.geoRules
    && after.clicks == before.clicks
  }

  lemma {:induction false} InsertExact(db: Db, userId: string, slug: string, dest: string, title: string,
                                       hash: string, expiredAt: Option<Time>, now: Time)
    ensures var (after, r) := InsertLink(db, userId, slug, dest, title, hash, expiredAt, now);
      && (r.Err? <==> exists id :: id in db.links && db.links[id].slug == slug)
      && (r.Err? ==> r == Err(SlugAlreadyExists) && after.links == db.links)
      && after.nextId == db.nextId + 1
      && after.abTests == db.abTests && after.geoRules == db.geoRules && after.clicks == db.clicks
      && (r.Ok? ==>
            && r.value == db.nextId && after.links.Keys == db.links.Keys + {r.value}
            && (forall other :: other in db.links && other != r.value ==> after.links[other] == db.links[other])
            && var row := after.links[r.value];
              && row.id == r.value && row.userId == userId && row.slug == slug && row.destinationUrl == dest
              && row.title == title && row.isActive && row.clickCount == 0 && row.expiredAt == expiredAt
              && row.createdAt == now && row.updatedAt == now
              && row.passwordHash == if hash == "" then None else Some(hash))
  {
  }

  lemma {:induction false} UpdateExact(db: Db, id: int, p: Patch, now: Time)
    ensures var (after, r) := UpdateLink(db, id, p, now);
      && (r.Ok? <==> id in db.links)
      && (r.Err? ==> r == Err(LinkNotFound) && after == db)
      && (r.Ok? ==>
            && OnlyRow(db, after, id) && after.links[id] == r.value
            && var was, row := db.links[id], r.value;
              && row.destinationUrl == (if p.destinationUrl.Some? then p.destinationUrl.value else was.destinationUrl)
              && row.title == (if p.title.Some? then p.title.value else was.title)
              && row.passwordHash == (if p.password.Some? then p.password else was.passwordHash)
              && row.isActive == (if p.isActive.Some? then p.isActive.value else was.isActive)
              && row.expiredAt == (if p.expiredAt.Some? then p.expiredAt else was.expiredAt)
              && row.updatedAt == now
              && row.id == was.id && row.userId == was.userId && row.slug == was.slug
              && row.clickCount == was.clickCount && row.createdAt == was.createdAt)
  {
  }

  lemma {:induction false} RenameExact(db: Db, id: int, slug: string, now: Time)
    ensures var (after, r) := UpdateSlug(db, id, slug, now);
      && (id !in db.links ==> r == Err(LinkNotFound))
      && (id in db.links && (exists other :: other in db.links && other != id && db.links[other].slug == slug) ==>
            r == Err(SlugAlreadyExists))
      && (id in db.links && (forall other :: other in db.links && other != id ==> db.links[other].slug != slug) ==>
            r == Ok(()))
      && (r.Err? ==> after == db)
      && (r.Ok? ==>
            && OnlyRow(db, after, id)
            && after.links[id].slug == slug && after.links[id].updatedAt == now
            && after.links[id].(slug := db.links[id].slug, updatedAt := db.links[id].updatedAt) == db.links[id])
  {
  }

  /** The soft delete clears is_active and nothing else but the time stamp. */
  lemma {:induction false} DeleteExact(db: Db, id: int, now: Time)
    ensures var (after, r) := DeleteLink(db, id, now);
      && (r == if id in db.links then Ok(()) else Err(LinkNotFound))
      && (r.Err? ==> after == db)
      && (r.Ok? ==>
            && OnlyRow(db, after, id)
            && !after.links[id].isActive && after.links[id].updatedAt == now
            && after.links[id].(isActive := db.links[id].isActive, updatedAt := db.links[id].updatedAt) == db.links[id])
  {
  }

  /** After a soft delete every redirect answered from the database refuses the link, which keeps its slug. */
  lemma {:induction false} DeletedIsRefused(db: Db, id: int, deletedAt: Time, now: Time, matches: Matcher, req: Request)
    requires LinksValid(db) && id in db.links
    ensures var after := DeleteLink(db, id, deletedAt).0;
      && FindBySlug(after, db.links[id].slug).Some?
      && Decide(FindBySlug(after, db.links[id].slug).value, now, matches, req) == Err(LinkNotFound)
  {
    DeleteExact(db, id, deletedAt);
    StoredDecision(DeleteLink(db, id, deletedAt).0, id, now, matches, req);
  }

  lemma {:induction false} IncrementExact(db: Db, id: int)
    ensures var after := IncrementClickCount(db, id);
      && OnlyRow(db, after, id)
      && (id in db.links ==>
            && after.links[id].clickCount == db.links[id].clickCount + 1
            && after.links[id].(clickCount := db.links[id].clickCount) == db.links[id])
  {
  }

  // ----- Statements on variants, rules and clicks -----

  lemma {:induction false} AddVariantExact(db: Db, t: ABTest)
    ensures var (after, r) := InsertABTest(db, t);
      && (r.Ok? <==> t.linkId in db.links && (forall u :: u in db.abTests ==> u.id != t.id) && 1 <= t.weight <= 100)
      && after == (if r.Ok? then db.(abTests := db.abTests + [t]) else db)
      && (r.Err? ==> r == Err(Storage))
  {
    assert HasABTest(db.abTests, t.id) ==> exists u :: u in db.abTests && u.id == t.id;
  }

  /** Deleting a variant removes the row with its id and clears that id from the clicks, nothing else. */
  lemma {:induction false} DropVariantExact(db: Db, id: string)
    ensures var (after, r) := DeleteABTest(db, id);
      && (r == if exists t :: t in db.abTests && t.id == id then Ok(()) else Err(ABTestNotFound))
      && (r.Err? ==> after == db)
      && (r.Ok? ==>
            && (forall t :: t in after.abTests <==> t in db.abTests && t.id != id)
            && after.links == db.links && after.nextId == db.nextId && after.geoRules == db.geoRules
            && |after.clicks| == |db.clicks|
            && forall i :: 0 <= i < |db.clicks| ==>
              && after.clicks[i].abTestId == (if db.clicks[i].abTestId == Some(id) then None else db.clicks[i].abTestId)
              && after.clicks[i].(abTestId := db.clicks[i].abTestId) == db.clicks[i])
  {
    assert HasABTest(db.abTests, id) ==> exists t :: t in db.abTests && t.id == id;
    forall t ensures t in Filter(db.abTests, OtherTest(id)) <==> t in db.abTests && t.id != id {
      assert OtherTest(id)(t) <==> t.id != id;
    }
  }

  /** A rule is refused as a duplicate exactly if its id is taken, or its country on the same link. */
  lemma {:induction false} AddRuleExact(db: Db, r: GeoRule)
    ensures var (after, res) := InsertGeoRule(db, r);
      var duplicate :=
        exists g :: g in db.geoRules && (g.id == r.id || (g.linkId == r.linkId && g.countryCode == r.countryCode));
      && (res == Err(GeoRuleDuplicate) <==> duplicate)
      && (res == Err(Storage) <==> !duplicate && r.linkId !in db.links)
      && (res.Ok? <==> !duplicate && r.linkId in db.links)
      && after == (if res.Ok? then db.(geoRules := db.geoRules + [r]) else db)
  {
    assert HasGeoRule(db.geoRules, r.id) <==> exists g :: g in db.geoRules && g.id == r.id;
    assert CountryTaken(db.geoRules, r.linkId, r.countryCode) <==>
      exists g :: g in db.geoRules && g.linkId == r.linkId && g.countryCode == r.countryCode;
  }

  lemma {:induction false} DropRuleExact(db: Db, id: string)
    ensures var (after, r) := DeleteGeoRule(db, id);
      && (r == if exists g :: g in db.geoRules && g.id == id then Ok(()) else Err(GeoRuleNotFound))
      && (r.Err? ==> after == db)
      && (r.Ok? ==>
            && (forall g :: g in after.geoRules <==> g in db.geoRules && g.id != id)
            && after.(geoRules := db.geoRules) == db)
  {
    assert HasGeoRule(db.geoRules, id) ==> exists g :: g in db.geoRules && g.id == id;
    forall g ensures g in Filter(db.geoRules, OtherRule(id)) <==> g in db.geoRules && g.id != id {
      assert OtherRule(id)(g) <==> g.id != id;
    }
  }

  lemma {:induction false} SaveExact(db: Db, c: ClickRow)
    ensures var (after, r) := SaveClickEvent(db, c);
      && (r.Ok? <==>
            && c.linkId in db.links
            && (c.abTestId.Some? ==> exists t :: t in db.abTests && t.id == c.abTestId.value)
            && |c.ipAddress| <= 45 && |c.countryCode| <= 2 && |c.device| <= 20 && |c.os| <= 50 && |c.browser| <= 50
            && |c.referrer| <= 255)
      && (r.Err? ==> r == Err(Storage))
      && after == (if r.Ok? then db.(clicks := db.clicks + [c]) else db)
  {
    if c.abTestId.Some? {
      assert HasABTest(db.abTests, c.abTestId.value) <==> exists t :: t in db.abTests && t.id == c.abTestId.value;
    }
  }
}
