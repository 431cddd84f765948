/** The database as a value: the tables of the migrations and one function per SQL statement the
    repositories issue. Each returns the new tables and the statement's result. */
module Store {
  import opened Common
  import opened Domain
  import opened Sequences

  /** A row of table links; password_hash and expired_at are nullable. */
  datatype LinkRow = LinkRow(
    id: int,
    userId: string,
    slug: string,
    destinationUrl: string,
    title: string,
    passwordHash: Option<string>,
    isActive: bool,
    clickCount: int,
    expiredAt: Option<Time>,
    createdAt: Time,
    updatedAt: Time)

  /** A row of table click_events, with the columns the statistics read. */
  datatype ClickRow = ClickRow(
    linkId: int,
    abTestId: Option<string>,
    ipAddress: string,
    countryCode: string,
    device: string,
    os: string,
    browser: string,
    referrer: string,
    clickedAt: Time)

  datatype Db = Db(
    links: map<int, LinkRow>,
    nextId: int,
    abTests: seq<ABTest>,
    geoRules: seq<GeoRule>,
    clicks: seq<ClickRow>)

  const EMPTY: Db := Db(map[], 1, [], [], [])

  // ----- Constraints of the schema -----

  ghost predicate UniqueSlugs(links: map<int, LinkRow>) {
    forall i, j :: i in links && j in links && links[i].slug == links[j].slug ==> i == j
  }

  ghost predicate LinksValid(db: Db) {
    && (forall id :: id in db.links ==> db.links[id].id == id && id < db.nextId)
    && UniqueSlugs(db.links)
  }

  ghost predicate ABTestsValid(db: Db) {
    && (forall i :: 0 <= i < |db.abTests| ==> db.abTests[i].linkId in db.links && 0 < db.abTests[i].weight <= 100)
    && (forall i, j :: 0 <= i < j < |db.abTests| ==> db.abTests[i].id != db.abTests[j].id)
  }

  /** Primary key and UNIQUE (link_id, country_code). */
  predicate RulesApart(a: GeoRule, b: GeoRule) {
    a.id != b.id && (a.linkId == b.linkId ==> a.countryCode != b.countryCode)
  }

  ghost predicate GeoRulesValid(db: Db) {
    && (forall i :: 0 <= i < |db.geoRules| ==> db.geoRules[i].linkId in db.links)
    && (forall i, j :: 0 <= i < j < |db.geoRules| ==> RulesApart(db.geoRules[i], db.geoRules[j]))
  }

  predicate HasABTest(abTests: seq<ABTest>, id: string) {
    exists i :: 0 <= i < |abTests| && abTests[i].id == id
  }

  ghost predicate ClicksValid(db: Db) {
    forall i :: 0 <= i < |db.clicks| ==>
      && db.clicks[i].linkId in db.links
      && (db.clicks[i].abTestId.Some? ==> HasABTest(db.abTests, db.clicks[i].abTestId.value))
  }

  /** Every primary key, unique, foreign-key and check constraint of the migrations. */
  ghost predicate Valid(db: Db) {
    LinksValid(db) && ABTestsValid(db) && GeoRulesValid(db) && ClicksValid(db)
  }

  // ----- links -----

  predicate SlugTaken(db: Db, slug: string) {
    exists id :: id in db.links && db.links[id].slug == slug
  }

  /** INSERT INTO links ... RETURNING id. A refused insert still consumes a sequence value. */
  function InsertLink(db: Db, userId: string, slug: string, destinationUrl: string, title: string,
                      passwordHash: string, expiredAt: Option<Time>, now: Time): (Db, Result<int, Error>)
  {
    var id := db.nextId;
    if SlugTaken(db, slug) then (db.(nextId := id + 1), Err(SlugAlreadyExists))
    else
      var hash := if passwordHash == "" then None else Some(passwordHash);
      var row := LinkRow(id, userId, slug, destinationUrl, title, hash, true, 0, expiredAt, now, now);
      (db.(links := db.links[id := row], nextId := id + 1), Ok(id))
  }

  /** Fields that can be patched; None is "not provided". */
  datatype Patch = Patch(
    destinationUrl: Option<string>,
    title: Option<string>,
    password: Option<string>,
    isActive: Option<bool>,
    expiredAt: Option<Time>)

  function Coalesce<T>(provided: Option<T>, stored: T): T {
    if provided.Some? then provided.value else stored
  }

  function PatchRow(row: LinkRow, p: Patch, now: Time): LinkRow {
    row.(destinationUrl := Coalesce(p.destinationUrl, row.destinationUrl),
         title := Coalesce(p.title, row.title),
         passwordHash := if p.password.Some? then p.password else row.passwordHash,
         isActive := Coalesce(p.isActive, row.isActive),
         expiredAt := if p.expiredAt.Some? then p.expiredAt else row.expiredAt,
         updatedAt := now)
  }

  function UpdateLink(db: Db, id: int, p: Patch, now: Time): (Db, Result<LinkRow, Error>) {
    if id !in db.links then (db, Err(LinkNotFound))
    else
      var row := PatchRow(db.links[id], p, now);
      (db.(links := db.links[id := row]), Ok(row))
  }

  function UpdateSlug(db: Db, id: int, slug: string, now: Time): (Db, Result<(), Error>) {
    if id !in db.links then (db, Err(LinkNotFound))
    else if exists other :: other in db.links && other != id && db.links[other].slug == slug then
      (db, Err(SlugAlreadyExists))
    else (db.(links := db.links[id := db.links[id].(slug := slug, updatedAt := now)]), Ok(()))
  }

  /** The soft delete. */
  function DeleteLink(db: Db, id: int, now: Time): (Db, Result<(), Error>) {
    if id !in db.links then (db, Err(LinkNotFound))
    else (db.(links := db.links[id := db.links[id].(isActive := false, updatedAt := now)]), Ok(()))
  }

  function IncrementClickCount(db: Db, id: int): Db {
    if id !in db.links then db
    else db.(links := db.links[id := db.links[id].(clickCount := db.links[id].clickCount + 1)])
  }

  // ----- ab_tests and geo_rules -----

  function OfLink(linkId: int): ABTest -> bool { (t: ABTest) => t.linkId == linkId }

  function RuleOfLink(linkId: int): GeoRule -> bool { (r: GeoRule) => r.linkId == linkId }

  function OtherTest(id: string): ABTest -> bool { (t: ABTest) => t.id != id }

  function OtherRule(id: string): GeoRule -> bool { (r: GeoRule) => r.id != id }

  function TestCreated(): ABTest -> int { (t: ABTest) => t.createdAt }

  function RulePriority(): GeoRule -> int { (r: GeoRule) => r.priority }

  /** SELECT ... FROM ab_tests WHERE link_id = $1 ORDER BY created_at ASC. */
  function VariantsOf(db: Db, linkId: int): seq<ABTest> {
    SortBy(Filter(db.abTests, OfLink(linkId)), TestCreated())
  }

  /** SELECT ... FROM geo_rules WHERE link_id = $1 ORDER BY priority ASC. */
  function RulesOf(db: Db, linkId: int): seq<GeoRule> {
    SortBy(Filter(db.geoRules, RuleOfLink(linkId)), RulePriority())
  }

  function SumWeights(abTests: seq<ABTest>, linkId: int): int {
    if abTests == [] then 0
    else
      var last := abTests[|abTests| - 1];
      SumWeights(abTests[..|abTests| - 1], linkId) + if last.linkId == linkId then last.weight else 0
  }

  function InsertABTest(db: Db, t: ABTest): (Db, Result<(), Error>) {
    if t.linkId !in db.links || HasABTest(db.abTests, t.id) || !(0 < t.weight <= 100) then (db, Err(Storage))
    else (db.(abTests := db.abTests + [t]), Ok(()))
  }

  function Forget(click: ClickRow, id: string): ClickRow {
    if click.abTestId == Some(id) then click.(abTestId := None) else click
  }

  function ForgetVariant(clicks: seq<ClickRow>, id: string): (r: seq<ClickRow>)
    ensures |r| == |clicks|
    ensures forall i :: 0 <= i < |r| ==> r[i] == Forget(clicks[i], id)
  {
    seq(|clicks|, i requires 0 <= i < |clicks| => Forget(clicks[i], id))
  }

  /** DELETE FROM ab_tests; click_events.ab_test_id is ON DELETE SET NULL. */
  function DeleteABTest(db: Db, id: string): (Db, Result<(), Error>) {
    if !HasABTest(db.abTests, id) then (db, Err(ABTestNotFound))
    else (db.(abTests := Filter(db.abTests, OtherTest(id)), clicks := ForgetVariant(db.clicks, id)), Ok(()))
  }

  predicate HasGeoRule(geoRules: seq<GeoRule>, id: string) {
    exists i :: 0 <= i < |geoRules| && geoRules[i].id == id
  }

  predicate CountryTaken(geoRules: seq<GeoRule>, linkId: int, countryCode: string) {
    exists i :: 0 <= i < |geoRules| && geoRules[i].linkId == linkId && geoRules[i].countryCode == countryCode
  }

  function InsertGeoRule(db: Db, r: GeoRule): (Db, Result<(), Error>) {
    if HasGeoRule(db.geoRules, r.id) || CountryTaken(db.geoRules, r.linkId, r.countryCode) then
      (db, Err(GeoRuleDuplicate))
    else if r.linkId !in db.links then (db, Err(Storage))
    else (db.(geoRules := db.geoRules + [r]), Ok(()))
  }

  function DeleteGeoRule(db: Db, id: string): (Db, Result<(), Error>) {
    if !HasGeoRule(db.geoRules, id) then (db, Err(GeoRuleNotFound))
    else (db.(geoRules := Filter(db.geoRules, OtherRule(id))), Ok(()))
  }

  // ----- click_events -----

  /** The widths of the VARCHAR and CHAR columns of click_events, in characters. */
  predicate FitsColumns(c: ClickRow) {
    && |c.ipAddress| <= 45 && |c.countryCode| <= 2 && |c.device| <= 20 && |c.os| <= 50 && |c.browser| <= 50
    && |c.referrer| <= 255
  }

  function SaveClickEvent(db: Db, c: ClickRow): (Db, Result<(), Error>) {
    if !FitsColumns(c) || c.linkId !in db.links || (c.abTestId.Some? && !HasABTest(db.abTests, c.abTestId.value)) then
      (db, Err(Storage))
    else (db.(clicks := db.clicks + [c]), Ok(()))
  }

  // ----- Reading a link -----

  /** SELECT ... FROM links WHERE slug = $1; the unique index makes the choice unique. */
  ghost function RowBySlug(db: Db, slug: string): (r: Option<LinkRow>)
    ensures r.Some? ==> r.value.slug == slug
    ensures r.None? <==> !SlugTaken(db, slug)
  {
    if SlugTaken(db, slug) then
      var id :| id in db.links && db.links[id].slug == slug;
      Some(db.links[id])
    else None
  }

  lemma {:induction false} RowBySlugUnique(db: Db, id: int)
    requires LinksValid(db) && id in db.links
    ensures RowBySlug(db, db.links[id].slug) == Some(db.links[id])
  {
  }

  lemma {:induction false} RowBySlugStored(db: Db, slug: string)
    requires LinksValid(db) && RowBySlug(db, slug).Some?
    ensures var row := RowBySlug(db, slug).value; row.id in db.links && db.links[row.id] == row
  {
    var id :| id in db.links && db.links[id].slug == slug;
    RowBySlugUnique(db, id);
  }

  /** Assembles a domain link from its row, variants and rules; a NULL hash reads as "". */
  function LinkOf(row: LinkRow, abTests: seq<ABTest>, geoRules: seq<GeoRule>): Link {
    Link(row.id, row.userId, row.slug, row.destinationUrl, row.title,
         if row.passwordHash.Some? then row.passwordHash.value else "",
         row.isActive, row.clickCount, row.expiredAt, row.createdAt, row.updatedAt, abTests, geoRules)
  }

  /** FindBySlug, executed without interference between its three queries. */
  ghost function FindBySlug(db: Db, slug: string): Option<Link>
  {
    match RowBySlug(db, slug)
    case None => None
    case Some(row) => Some(LinkOf(row, VariantsOf(db, row.id), RulesOf(db, row.id)))
  }

  // ----- One data type for every statement that writes -----

  datatype Write =
    | Create(userId: string, slug: string, destinationUrl: string, title: string, passwordHash: string,
             expiredAt: Option<Time>)
    | SetSlug(id: int, newSlug: string)
    | Update(id: int, patch: Patch)
    | SoftDelete(id: int)
    | Increment(id: int)
    | AddABTest(test: ABTest)
    | RemoveABTest(testId: string)
    | AddGeoRule(rule: GeoRule)
    | RemoveGeoRule(ruleId: string)
    | SaveClick(click: ClickRow)

  function Apply(db: Db, w: Write, now: Time): Db {
    match w
    case Create(u, s, d, t, p, e) => InsertLink(db, u, s, d, t, p, e, now).0
    case SetSlug(id, s) => UpdateSlug(db, id, s, now).0
    case Update(id, p) => UpdateLink(db, id, p, now).0
    case SoftDelete(id) => DeleteLink(db, id, now).0
    case Increment(id) => IncrementClickCount(db, id)
    case AddABTest(t) => InsertABTest(db, t).0
    case RemoveABTest(id) => DeleteABTest(db, id).0
    case AddGeoRule(r) => InsertGeoRule(db, r).0
    case RemoveGeoRule(id) => DeleteGeoRule(db, id).0
    case SaveClick(c) => SaveClickEvent(db, c).0
  }

  // ----- Every statement keeps every constraint -----

  lemma {:induction false} LinkStatementsKeepValid(db: Db, w: Write, now: Time)
    requires Valid(db) && (w.Create? || w.SetSlug? || w.Update? || w.SoftDelete? || w.Increment?)
    ensures Valid(Apply(db, w, now))
    ensures db.links.Keys <= Apply(db, w, now).links.Keys
  {
  }

  lemma {:induction false} ABTestRemovalKeepsValid(db: Db, id: string)
    requires Valid(db) && HasABTest(db.abTests, id)
    ensures Valid(DeleteABTest(db, id).0)
  {
    var db' := DeleteABTest(db, id).0;
    forall i | 0 <= i < |db'.abTests|
      ensures db'.abTests[i].linkId in db'.links && 0 < db'.abTests[i].weight <= 100
    {
      assert db'.abTests[i] in db.abTests;
    }
    forall i, j | 0 <= i < j < |db'.abTests| ensures db'.abTests[i].id != db'.abTests[j].id {
      var p, q := FilterOrder(db.abTests, OtherTest(id), i, j);
    }
    forall i | 0 <= i < |db'.clicks| && db'.clicks[i].abTestId.Some?
      ensures HasABTest(db'.abTests, db'.clicks[i].abTestId.value)
    {
      var j :| 0 <= j < |db.abTests| && db.abTests[j].id == db.clicks[i].abTestId.value;
      assert db.abTests[j] in db'.abTests;
    }
  }

  lemma {:induction false} GeoRuleRemovalKeepsValid(db: Db, id: string)
    requires Valid(db) && HasGeoRule(db.geoRules, id)
    ensures Valid(DeleteGeoRule(db, id).0)
  {
    var db' := DeleteGeoRule(db, id).0;
    forall i | 0 <= i < |db'.geoRules| ensures db'.geoRules[i].linkId in db'.links {
      assert db'.geoRules[i] in db.geoRules;
    }
    forall i, j | 0 <= i < j < |db'.geoRules| ensures RulesApart(db'.geoRules[i], db'.geoRules[j]) {
      var p, q := FilterOrder(db.geoRules, OtherRule(id), i, j);
    }
  }

  lemma {:induction false} InsertsKeepValid(db: Db, w: Write, now: Time)
    requires Valid(db) && (w.AddABTest? || w.AddGeoRule? || w.SaveClick?)
    ensures Valid(Apply(db, w, now))
  {
    var db' := Apply(db, w, now);
    if w.AddABTest? {
      forall id | HasABTest(db.abTests, id) ensures HasABTest(db'.abTests, id) {
        var j :| 0 <= j < |db.abTests| && db.abTests[j].id == id;
        assert db'.abTests[j].id == id;
      }
    }
  }

  /** Every statement, successful or refused, keeps every constraint of the schema. */
  lemma {:induction false} ApplyKeepsValid(db: Db, w: Write, now: Time)
    requires Valid(db)
    ensures Valid(Apply(db, w, now))
  {
    if w.RemoveABTest? {
      if HasABTest(db.abTests, w.testId) { ABTestRemovalKeepsValid(db, w.testId); }
    } else if w.RemoveGeoRule? {
      if HasGeoRule(db.geoRules, w.ruleId) { GeoRuleRemovalKeepsValid(db, w.ruleId); }
    } else if w.AddABTest? || w.AddGeoRule? || w.SaveClick? {
      InsertsKeepValid(db, w, now);
    } else {
      LinkStatementsKeepValid(db, w, now);
    }
  }

  // ----- Patches -----

  function Later<T>(p: Option<T>, q: Option<T>): Option<T> {
    if q.Some? then q else p
  }

  /** The right-biased union of two patches. */
  function Merge(p: Patch, q: Patch): Patch {
    Patch(Later(p.destinationUrl, q.destinationUrl), Later(p.title, q.title), Later(p.password, q.password),
          Later(p.isActive, q.isActive), Later(p.expiredAt, q.expiredAt))
  }

  const NO_CHANGE: Patch := Patch(None, None, None, None, None)

  function MergeAll(ps: seq<Patch>): Patch {
    if ps == [] then NO_CHANGE else Merge(MergeAll(ps[..|ps| - 1]), ps[|ps| - 1])
  }

  /** A run of updates of one row, the i-th at times[i]. */
  function PatchRun(row: LinkRow, ps: seq<Patch>, times: seq<Time>): LinkRow
    requires |ps| == |times|
  {
    if ps == [] then row
    else
      var n := |ps| - 1;
      PatchRow(PatchRun(row, ps[..n], times[..n]), ps[n], times[n])
  }

  /** Any run of updates is one update by the right-biased merge of its patches, stamped by the last. */
  lemma {:induction false} PatchRunIsMerge(row: LinkRow, ps: seq<Patch>, times: seq<Time>)
    requires |ps| == |times| && ps != []
    ensures PatchRun(row, ps, times) == PatchRow(row, MergeAll(ps), times[|ps| - 1])
  {
    var n := |ps| - 1;
    if n == 0 {
      assert ps[..0] == [] && times[..0] == [];
    } else {
      PatchRunIsMerge(row, ps[..n], times[..n]);
    }
  }

  /** The last provided value, or the stored one. */
  function LastOf<T>(provided: seq<Option<T>>, stored: T): T {
    if provided == [] then stored
    else if provided[|provided| - 1].Some? then provided[|provided| - 1].value
    else LastOf(provided[..|provided| - 1], stored)
  }

  function Each<T>(ps: seq<Patch>, field: Patch -> Option<T>): (r: seq<Option<T>>)
    ensures |r| == |ps| && forall i :: 0 <= i < |ps| ==> r[i] == field(ps[i])
  {
    seq(|ps|, i requires 0 <= i < |ps| => field(ps[i]))
  }

  lemma {:induction false} EachFront<T>(ps: seq<Patch>, field: Patch -> Option<T>)
    requires ps != []
    ensures Each(ps, field)[..|ps| - 1] == Each(ps[..|ps| - 1], field)
  {
  }

  function DestinationField(): Patch -> Option<string> { (p: Patch) => p.destinationUrl }

  function TitleField(): Patch -> Option<string> { (p: Patch) => p.title }

  function PasswordField(): Patch -> Option<string> { (p: Patch) => p.password }

  function ActiveField(): Patch -> Option<bool> { (p: Patch) => p.isActive }

  function ExpiryField(): Patch -> Option<Time> { (p: Patch) => p.expiredAt }

  function Nullable<T>(stored: Option<T>, provided: seq<Option<T>>): Option<T> {
    if provided == [] then stored else Later(Nullable(stored, provided[..|provided| - 1]), provided[|provided| - 1])
  }

  /** After any run of updates each field holds the last value provided for it, or else the stored one. */
  lemma {:induction false} LastProvidedWins(row: LinkRow, ps: seq<Patch>, times: seq<Time>)
    requires |ps| == |times|
    ensures var r := PatchRun(row, ps, times);
      && r.destinationUrl == LastOf(Each(ps, DestinationField()), row.destinationUrl)
      && r.title == LastOf(Each(ps, TitleField()), row.title)
      && r.passwordHash == Nullable(row.passwordHash, Each(ps, PasswordField()))
      && r.isActive == LastOf(Each(ps, ActiveField()), row.isActive)
      && r.expiredAt == Nullable(row.expiredAt, Each(ps, ExpiryField()))
  {
    if ps != [] {
      var n := |ps| - 1;
      LastProvidedWins(row, ps[..n], times[..n]);
      EachFront(ps, DestinationField());
      EachFront(ps, TitleField());
      EachFront(ps, PasswordField());
      EachFront(ps, ActiveField());
      EachFront(ps, ExpiryField());
    }
  }

  /** No run of updates clears an expiry, touches identity, or touches the click counter, although the
      input type documents "set to nil to remove expiry". */
  lemma {:induction false} PatchRunKeeps(row: LinkRow, ps: seq<Patch>, times: seq<Time>)
    requires |ps| == |times|
    ensures var r := PatchRun(row, ps, times);
      && (row.expiredAt.Some? ==> r.expiredAt.Some?)
      && r.id == row.id && r.userId == row.userId && r.slug == row.slug
      && r.clickCount == row.clickCount && r.createdAt == row.createdAt
  {
    if ps != [] {
      var n := |ps| - 1;
      PatchRunKeeps(row, ps[..n], times[..n]);
    }
  }
}
