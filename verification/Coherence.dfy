/** The look-aside cache protocol: redirects reading Redis, then the database, then filling Redis from a
    background goroutine, interleaved with mutations that write the database and delete the cache key
    afterwards. Every database query and every Redis command is its own step. */
module Coherence {
  import opened Common
  import opened Domain
  import opened Sequences
  import opened Store
  import Redis

  /** The context timeout of the goroutine that fills the cache. */
  const FILL_TIMEOUT: int := SECOND

  /** A redirect that missed the cache: FindBySlug is three queries without a transaction. */
  datatype Reader =
    | Started(slug: string)
    | HasRow(row: LinkRow, rowAt: nat)
    | HasVariants(row: LinkRow, rowAt: nat, abTests: seq<ABTest>, abAt: nat)

  /** Which moments of the run the three parts of a link were read at. */
  datatype Origin = Origin(row: LinkRow, rowAt: nat, abAt: nat, rulesAt: nat)

  /** A goroutine about to cache a link; SetLink computes the time to live before it sends the command. */
  datatype Fill = Fill(link: Link, origin: Origin, computedAt: Option<Time>)

  /** A mutation: authorised with the slug FindByID returned, then committed but not yet invalidated. */
  datatype Writer = Authorized(id: int, slug: string) | Written(slug: string)

  /** Why a change of a slug's link will not be followed by a deletion of its cache key. */
  datatype Reason = DeleteFailed | WriteUnacknowledged | WrongSlug | Renamed

  datatype Moment = Moment(at: Time, db: Db)

  datatype Landing = Landing(origin: Origin, computedAt: Time, index: nat)

  datatype Config = Config(
    clock: Time,
    db: Db,
    cache: Redis.LinkCache,
    readers: map<nat, Reader>,
    fills: map<nat, Fill>,
    writers: map<nat, Writer>,
    // History that no step consults: all moments so far, how each cache entry came to be, the moment of
    // the last deletion of each key, and the slugs some change of which no deletion follows.
    trace: seq<Moment>,
    landed: map<string, Landing>,
    deleted: map<string, nat>,
    lost: map<string, Reason>)
  {
    /** The index of the present moment. */
    function Now(): int {
      |trace| - 1
    }
  }

  datatype Event =
    | Tick(d: nat)
    | BeginRead(p: nat, slug: string, redisFails: bool)
    | ReadRow(p: nat)
    | ReadVariants(p: nat)
    | ReadRules(p: nat)
    | AbortRead(p: nat)
    | ComputeTtl(p: nat)
    | Land(p: nat)
    | DropFill(p: nat)
    | Authorize(p: nat, id: int)
    | Commit(p: nat, w: Write, acknowledged: bool)
    | Invalidate(p: nat, delivered: bool)
    | AbortWrite(p: nat)
    | Silent(w: Write)

  /** The statements a mutation authorised for a link may issue. Children are deleted by their own id,
      whatever link they belong to. */
  predicate Mutates(w: Write, id: int) {
    match w
    case Update(i, _) => i == id
    case SoftDelete(i) => i == id
    case AddABTest(t) => t.linkId == id
    case AddGeoRule(r) => r.linkId == id
    case RemoveABTest(_) => true
    case RemoveGeoRule(_) => true
    case _ => false
  }

  /** The statements that are issued without any cache invalidation. */
  predicate IsSilent(w: Write) {
    w.Create? || w.SetSlug? || w.Increment? || w.SaveClick?
  }

  predicate Enabled(c: Config, e: Event) {
    match e
    case Tick(_) => true
    case BeginRead(p, slug, redisFails) =>
      p !in c.readers && (redisFails || Redis.Lookup(c.cache, slug, c.clock).None?)
    case ReadRow(p) => p in c.readers && c.readers[p].Started?
    case ReadVariants(p) => p in c.readers && c.readers[p].HasRow?
    case ReadRules(p) => p in c.readers && c.readers[p].HasVariants?
    case AbortRead(p) => p in c.readers
    case ComputeTtl(p) => p in c.fills && c.fills[p].computedAt.None?
    case Land(p) =>
      && p in c.fills && c.fills[p].computedAt.Some?
      && c.fills[p].origin.rulesAt < |c.trace|
      && c.clock <= c.trace[c.fills[p].origin.rulesAt].at + FILL_TIMEOUT
    case DropFill(p) => p in c.fills
    case Authorize(p, id) => p !in c.writers && id in c.db.links
    case Commit(p, w, _) => p in c.writers && c.writers[p].Authorized? && Mutates(w, c.writers[p].id)
    case Invalidate(p, _) => p in c.writers && c.writers[p].Written?
    case AbortWrite(p) => p in c.writers && c.writers[p].Authorized?
    case Silent(w) => IsSilent(w)
  }

  /** The link a statement changes, if any. */
  ghost function Target(db: Db, w: Write): Option<int> {
    match w
    case SetSlug(id, _) => Some(id)
    case Update(id, _) => Some(id)
    case SoftDelete(id) => Some(id)
    case AddABTest(t) => Some(t.linkId)
    case AddGeoRule(r) => Some(r.linkId)
    case RemoveABTest(id) =>
      if HasABTest(db.abTests, id) then
        var i :| 0 <= i < |db.abTests| && db.abTests[i].id == id;
        Some(db.abTests[i].linkId)
      else None
    case RemoveGeoRule(id) =>
      if HasGeoRule(db.geoRules, id) then
        var i :| 0 <= i < |db.geoRules| && db.geoRules[i].id == id;
        Some(db.geoRules[i].linkId)
      else None
    case _ => None
  }

  /** The slug whose cached link a statement outdates. */
  ghost function TargetSlug(db: Db, w: Write): Option<string> {
    match Target(db, w)
    case None => None
    case Some(id) => if id in db.links then Some(db.links[id].slug) else None
  }

  predicate Succeeds(db: Db, w: Write, now: Time) {
    match w
    case Create(u, s, d, t, p, e) => InsertLink(db, u, s, d, t, p, e, now).1.Ok?
    case SetSlug(id, s) => UpdateSlug(db, id, s, now).1.Ok?
    case Update(id, p) => UpdateLink(db, id, p, now).1.Ok?
    case SoftDelete(id) => DeleteLink(db, id, now).1.Ok?
    case AddABTest(t) => InsertABTest(db, t).1.Ok?
    case RemoveABTest(id) => DeleteABTest(db, id).1.Ok?
    case AddGeoRule(r) => InsertGeoRule(db, r).1.Ok?
    case RemoveGeoRule(id) => DeleteGeoRule(db, id).1.Ok?
    case SaveClick(c) => SaveClickEvent(db, c).1.Ok?
    case Increment(_) => true
  }

  /** Records that no deletion will follow the change that w makes, unless it goes to slug. */
  ghost function Lose(c: Config, w: Write, slug: Option<string>, reason: Reason): map<string, Reason> {
    var target := TargetSlug(c.db, w);
    if target.None? || target == slug then c.lost else c.lost[target.value := reason]
  }

  /** Nothing a redirect can do or suffer is missing: reads and fills can begin, end and fail at any moment,
      and a fill can land within a second. */
  lemma {:induction false} EveryReadAdmitted(c: Config, p: nat, slug: string)
    ensures Enabled(c, BeginRead(p, slug, true)) <==> p !in c.readers
    ensures p !in c.readers && Redis.Lookup(c.cache, slug, c.clock).None? ==> Enabled(c, BeginRead(p, slug, false))
    ensures p in c.readers ==> Enabled(c, AbortRead(p))
    ensures p in c.fills ==> Enabled(c, DropFill(p))
    ensures p in c.fills && c.fills[p].computedAt.Some? && c.fills[p].origin.rulesAt < |c.trace| ==>
      (Enabled(c, Land(p)) <==> c.clock <= c.trace[c.fills[p].origin.rulesAt].at + 1_000_000_000)
  {
  }

  /** Nor anything a mutation can do or suffer: every statement has its step, acknowledged or not, and every
      deletion can be delivered or fail. */
  lemma {:induction false} EveryWriteAdmitted(c: Config, p: nat, id: int, w: Write, slug: string)
    ensures p !in c.writers && id in c.db.links ==> Enabled(c, Authorize(p, id))
    ensures p in c.writers && c.writers[p] == Authorized(id, slug) ==> Enabled(c, AbortWrite(p))
    ensures p in c.writers && c.writers[p] == Authorized(id, slug) ==>
      forall acknowledged ::
        && ((w.Update? || w.SoftDelete?) && w.id == id ==> Enabled(c, Commit(p, w, acknowledged)))
        && (w.AddABTest? && w.test.linkId == id ==> Enabled(c, Commit(p, w, acknowledged)))
        && (w.AddGeoRule? && w.rule.linkId == id ==> Enabled(c, Commit(p, w, acknowledged)))
        && (w.RemoveABTest? || w.RemoveGeoRule? ==> Enabled(c, Commit(p, w, acknowledged)))
    ensures w.Create? || w.SetSlug? || w.Increment? || w.SaveClick? ==> Enabled(c, Silent(w))
    ensures p in c.writers && c.writers[p] == Written(slug) ==>
      Enabled(c, Invalidate(p, true)) && Enabled(c, Invalidate(p, false))
  {
  }

  // ----- One step, component by component -----

  function NextClock(c: Config, e: Event): Time {
    if e.Tick? then c.clock + e.d else c.clock
  }

  function NextDb(c: Config, e: Event): Db {
    if e.Commit? || e.Silent? then Apply(c.db, e.w, c.clock) else c.db
  }

  /** FindBySlug advances one query at a time and ends early when there is no row. */
  ghost function NextReaders(c: Config, e: Event): map<nat, Reader>
    requires Enabled(c, e) && |c.trace| > 0
  {
    match e
    case BeginRead(p, slug, _) => c.readers[p := Started(slug)]
    case ReadRow(p) =>
      (match RowBySlug(c.db, c.readers[p].slug)
       case None => c.readers - {p}
       case Some(row) => c.readers[p := HasRow(row, c.Now())])
    case ReadVariants(p) =>
      var r := c.readers[p];
      c.readers[p := HasVariants(r.row, r.rowAt, VariantsOf(c.db, r.row.id), c.Now())]
    case ReadRules(p) => c.readers - {p}
    case AbortRead(p) => c.readers - {p}
    case _ => c.readers
  }

  /** The link is handed to a fill when its last query returns; SetLink drops an expired link. */
  function NextFills(c: Config, e: Event): map<nat, Fill>
    requires Enabled(c, e) && |c.trace| > 0
  {
    match e
    case ReadRules(p) =>
      var r := c.readers[p];
      var link := LinkOf(r.row, r.abTests, RulesOf(c.db, r.row.id));
      c.fills[p := Fill(link, Origin(r.row, r.rowAt, r.abAt, c.Now()), None)]
    case ComputeTtl(p) =>
      if Redis.LinkTtl(c.fills[p].link, c.clock).None? then c.fills - {p}
      else c.fills[p := c.fills[p].(computedAt := Some(c.clock))]
    case Land(p) => c.fills - {p}
    case DropFill(p) => c.fills - {p}
    case _ => c.fills
  }

  predicate Lands(c: Config, e: Event) {
    && e.Land? && Enabled(c, e)
    && Redis.LinkTtl(c.fills[e.p].link, c.fills[e.p].computedAt.value).Some?
  }

  function NextCache(c: Config, e: Event): Redis.LinkCache
    requires Enabled(c, e)
  {
    if Lands(c, e) then
      var f := c.fills[e.p];
      Redis.Stored(c.cache, f.link, Redis.LinkTtl(f.link, f.computedAt.value).value, c.clock)
    else if e.Invalidate? && e.delivered then c.cache - {c.writers[e.p].slug}
    else c.cache
  }

  function NextLanded(c: Config, e: Event): map<string, Landing>
    requires Enabled(c, e) && |c.trace| > 0
  {
    if Lands(c, e) then
      var f := c.fills[e.p];
      c.landed[f.link.slug := Landing(f.origin, f.computedAt.value, c.Now())]
    else if e.Invalidate? && e.delivered then c.landed - {c.writers[e.p].slug}
    else c.landed
  }

  function NextDeleted(c: Config, e: Event): map<string, nat>
    requires Enabled(c, e) && |c.trace| > 0
  {
    if e.Invalidate? && e.delivered then c.deleted[c.writers[e.p].slug := c.Now()] else c.deleted
  }

  /** A mutation captures its slug when it is authorised, and owes a deletion once its write is acknowledged. */
  function NextWriters(c: Config, e: Event): map<nat, Writer>
    requires Enabled(c, e)
  {
    match e
    case Authorize(p, id) => c.writers[p := Authorized(id, c.db.links[id].slug)]
    case Commit(p, w, acknowledged) =>
      if acknowledged && Succeeds(c.db, w, c.clock) then c.writers[p := Written(c.writers[p].slug)]
      else c.writers - {p}
    case Invalidate(p, _) => c.writers - {p}
    case AbortWrite(p) => c.writers - {p}
    case _ => c.writers
  }

  /** A change is lost when the deletion that should follow fails, is never sent, or names another slug. */
  ghost function NextLost(c: Config, e: Event): map<string, Reason>
    requires Enabled(c, e)
  {
    match e
    case Commit(p, w, acknowledged) =>
      if !Succeeds(c.db, w, c.clock) then c.lost
      else if acknowledged then Lose(c, w, Some(c.writers[p].slug), WrongSlug)
      else Lose(c, w, None, WriteUnacknowledged)
    case Silent(w) => if Succeeds(c.db, w, c.clock) then Lose(c, w, None, Renamed) else c.lost
    case Invalidate(p, delivered) =>
      if delivered then c.lost - {c.writers[p].slug} else c.lost[c.writers[p].slug := DeleteFailed]
    case _ => c.lost
  }

  ghost function Step(c: Config, e: Event): Config
    requires Enabled(c, e) && |c.trace| > 0
  {
    Config(NextClock(c, e), NextDb(c, e), NextCache(c, e), NextReaders(c, e), NextFills(c, e), NextWriters(c, e),
           c.trace + [Moment(NextClock(c, e), NextDb(c, e))],
           NextLanded(c, e), NextDeleted(c, e), NextLost(c, e))
  }

  ghost predicate Initial(c: Config) {
    && Valid(c.db)
    && c.cache == map[] && c.readers == map[] && c.fills == map[] && c.writers == map[]
    && c.trace == [Moment(c.clock, c.db)]
    && c.landed == map[] && c.deleted == map[] && c.lost == map[]
  }

  // ----- What a redirect depends on -----

  /** Everything FindBySlug returns except the click counter, which no decision looks at. */
  ghost function CoreOf(db: Db, slug: string): Option<Link>
  {
    match FindBySlug(db, slug)
    case None => None
    case Some(link) => Some(link.(clickCount := 0))
  }

  /** Between moments k and k + 1 some statement changed the link behind an existing slug. */
  ghost predicate Changed(trace: seq<Moment>, k: int, slug: string)
  {
    && 0 <= k < |trace| - 1
    && CoreOf(trace[k].db, slug).Some?
    && CoreOf(trace[k].db, slug) != CoreOf(trace[k + 1].db, slug)
  }

  ghost predicate Timed(trace: seq<Moment>) {
    forall j, k :: 0 <= j <= k < |trace| ==> trace[j].at <= trace[k].at
  }

  /** The link is what FindBySlug of its slug returned, its three queries running at the origin's moments. */
  ghost predicate Genuine(trace: seq<Moment>, link: Link, o: Origin)
  {
    && o.rowAt <= o.abAt <= o.rulesAt < |trace|
    && RowBySlug(trace[o.rowAt].db, link.slug) == Some(o.row)
    && link == LinkOf(o.row, VariantsOf(trace[o.abAt].db, o.row.id), RulesOf(trace[o.rulesAt].db, o.row.id))
  }

  // ----- The invariant -----

  ghost predicate ReaderInv(trace: seq<Moment>, r: Reader)
  {
    match r
    case Started(_) => true
    case HasRow(row, rowAt) => rowAt < |trace| && RowBySlug(trace[rowAt].db, row.slug) == Some(row)
    case HasVariants(row, rowAt, abTests, abAt) =>
      && rowAt <= abAt < |trace|
      && RowBySlug(trace[rowAt].db, row.slug) == Some(row)
      && abTests == VariantsOf(trace[abAt].db, row.id)
  }

  ghost predicate ReadersInv(c: Config)
  {
    forall p :: p in c.readers ==> ReaderInv(c.trace, c.readers[p])
  }

  ghost predicate FillInv(trace: seq<Moment>, clock: Time, f: Fill)
  {
    && Genuine(trace, f.link, f.origin)
    && (f.computedAt.Some? ==> trace[f.origin.rulesAt].at <= f.computedAt.value <= clock)
  }

  ghost predicate FillsInv(c: Config)
  {
    forall p :: p in c.fills ==> FillInv(c.trace, c.clock, c.fills[p])
  }

  /** What a cache entry holds. */
  ghost predicate EntryRead(trace: seq<Moment>, slug: string, entry: Redis.Entry, l: Landing) {
    Redis.Decoded(entry.data).slug == slug && Genuine(trace, Redis.Decoded(entry.data), l.origin)
  }

  /** When it was read, when its time to live was computed, when it landed, and until when it is readable. */
  ghost predicate EntryTimed(trace: seq<Moment>, expiredAt: Option<Time>, deadline: Time, l: Landing) {
    && l.origin.rulesAt <= l.index < |trace|
    && trace[l.origin.rulesAt].at <= l.computedAt <= trace[l.index].at
    && trace[l.index].at <= trace[l.origin.rulesAt].at + FILL_TIMEOUT
    && match expiredAt
      case None => deadline == trace[l.index].at + Redis.DEFAULT_LINK_TTL
      case Some(e) =>
        && l.computedAt < e
        && deadline == e + Redis.EXPIRY_BUFFER + (trace[l.index].at - l.computedAt)
  }

  ghost predicate EntryInv(trace: seq<Moment>, slug: string, entry: Redis.Entry, l: Landing) {
    && EntryRead(trace, slug, entry, l)
    && EntryTimed(trace, entry.data.expiredAt, entry.deadline, l)
  }

  ghost predicate CacheInv(c: Config)
  {
    && c.cache.Keys == c.landed.Keys
    && (forall slug :: slug in c.cache ==> EntryInv(c.trace, slug, c.cache[slug], c.landed[slug]))
    && (forall slug :: slug in c.cache && slug in c.deleted ==> c.deleted[slug] <= c.landed[slug].index)
  }

  ghost predicate InvalidationDue(c: Config, slug: string) {
    exists p :: p in c.writers && c.writers[p] == Written(slug)
  }

  ghost predicate Covered(c: Config, slug: string, k: int) {
    (slug in c.deleted && k < c.deleted[slug]) || InvalidationDue(c, slug) || slug in c.lost
  }

  /** Every change of a slug was followed by a deletion of its key, or one is still due, or is lost. */
  ghost predicate Accounted(c: Config)
  {
    && (forall slug :: slug in c.deleted ==> c.deleted[slug] < |c.trace|)
    && forall slug, k :: Changed(c.trace, k, slug) ==> Covered(c, slug, k)
  }

  ghost predicate Inv(c: Config) {
    && |c.trace| > 0
    && Valid(c.db)
    && Timed(c.trace)
    && c.trace[c.Now()] == Moment(c.clock, c.db)
    && ReadersInv(c)
    && FillsInv(c)
    && CacheInv(c)
    && Accounted(c)
  }

  // ----- Statements change the core of at most one slug -----

  lemma {:induction false} RemovedElsewhere(db: Db, id: string, linkId: int)
    requires ABTestsValid(db) && HasABTest(db.abTests, id) && Target(db, RemoveABTest(id)) != Some(linkId)
    ensures Filter(Filter(db.abTests, OtherTest(id)), OfLink(linkId)) == Filter(db.abTests, OfLink(linkId))
  {
    forall x | x in db.abTests && OfLink(linkId)(x) ensures OtherTest(id)(x) {
      var j :| 0 <= j < |db.abTests| && db.abTests[j] == x;
    }
    FilterSkips(db.abTests, OfLink(linkId), OtherTest(id));
  }

  lemma {:induction false} OtherTables(db: Db, w: Write, now: Time)
    ensures !w.AddABTest? && !w.RemoveABTest? ==> Apply(db, w, now).abTests == db.abTests
    ensures !w.AddGeoRule? && !w.RemoveGeoRule? ==> Apply(db, w, now).geoRules == db.geoRules
  {
  }

  lemma {:induction false} VariantAddedElsewhere(db: Db, t: ABTest, linkId: int)
    requires t.linkId != linkId
    ensures VariantsOf(InsertABTest(db, t).0, linkId) == VariantsOf(db, linkId)
  {
    FilterSnoc(db.abTests, t, OfLink(linkId));
  }

  lemma {:induction false} VariantsElsewhere(db: Db, w: Write, now: Time, linkId: int)
    requires ABTestsValid(db) && Target(db, w) != Some(linkId)
    ensures VariantsOf(Apply(db, w, now), linkId) == VariantsOf(db, linkId)
  {
    if w.AddABTest? {
      VariantAddedElsewhere(db, w.test, linkId);
    } else if w.RemoveABTest? {
      if HasABTest(db.abTests, w.testId) {
        RemovedElsewhere(db, w.testId, linkId);
      }
    } else {
      OtherTables(db, w, now);
    }
  }

  lemma {:induction false} RuleRemovedElsewhere(db: Db, id: string, linkId: int)
    requires GeoRulesValid(db) && HasGeoRule(db.geoRules, id) && Target(db, RemoveGeoRule(id)) != Some(linkId)
    ensures Filter(Filter(db.geoRules, OtherRule(id)), RuleOfLink(linkId)) == Filter(db.geoRules, RuleOfLink(linkId))
  {
    forall x | x in db.geoRules && RuleOfLink(linkId)(x) ensures OtherRule(id)(x) {
      var j :| 0 <= j < |db.geoRules| && db.geoRules[j] == x;
      var i :| 0 <= i < |db.geoRules| && db.geoRules[i].id == id;
      assert i != j ==> RulesApart(db.geoRules[if i < j then i else j], db.geoRules[if i < j then j else i]);
    }
    FilterSkips(db.geoRules, RuleOfLink(linkId), OtherRule(id));
  }

  lemma {:induction false} RuleAddedElsewhere(db: Db, r: GeoRule, linkId: int)
    requires r.linkId != linkId
    ensures RulesOf(InsertGeoRule(db, r).0, linkId) == RulesOf(db, linkId)
  {
    FilterSnoc(db.geoRules, r, RuleOfLink(linkId));
  }

  lemma {:induction false} RulesElsewhere(db: Db, w: Write, now: Time, linkId: int)
    requires GeoRulesValid(db) && Target(db, w) != Some(linkId)
    ensures RulesOf(Apply(db, w, now), linkId) == RulesOf(db, linkId)
  {
    if w.AddGeoRule? {
      RuleAddedElsewhere(db, w.rule, linkId);
    } else if w.RemoveGeoRule? {
      if HasGeoRule(db.geoRules, w.ruleId) {
        RuleRemovedElsewhere(db, w.ruleId, linkId);
      }
    } else {
      OtherTables(db, w, now);
    }
  }

  lemma {:induction false} RowElsewhere(db: Db, w: Write, now: Time, id: int)
    requires LinksValid(db) && id in db.links && (Target(db, w) != Some(id) || !Succeeds(db, w, now))
    ensures var db' := Apply(db, w, now);
      id in db'.links && db'.links[id].(clickCount := 0) == db.links[id].(clickCount := 0)
  {
  }

  lemma {:induction false} FailureChangesNothing(db: Db, w: Write, now: Time, linkId: int)
    requires !Succeeds(db, w, now)
    ensures VariantsOf(Apply(db, w, now), linkId) == VariantsOf(db, linkId)
    ensures RulesOf(Apply(db, w, now), linkId) == RulesOf(db, linkId)
  {
    var db' := Apply(db, w, now);
    assert db'.abTests == db.abTests && db'.geoRules == db.geoRules;
  }

  /** A statement outdates the cached link of a slug only if it succeeds on that slug's own link. */
  lemma {:induction false} WriteLocal(db: Db, w: Write, now: Time, slug: string)
    requires Valid(db) && LinksValid(Apply(db, w, now))
    requires CoreOf(db, slug).Some? && CoreOf(Apply(db, w, now), slug) != CoreOf(db, slug)
    ensures Succeeds(db, w, now)
    ensures TargetSlug(db, w) == Some(slug)
  {
    var db' := Apply(db, w, now);
    var row := RowBySlug(db, slug).value;
    RowBySlugStored(db, slug);
    if Target(db, w) != Some(row.id) || !Succeeds(db, w, now) {
      RowElsewhere(db, w, now, row.id);
      RowBySlugUnique(db', row.id);
      if Succeeds(db, w, now) {
        VariantsElsewhere(db, w, now, row.id);
        RulesElsewhere(db, w, now, row.id);
      } else {
        FailureChangesNothing(db, w, now, row.id);
      }
    }
  }

  // ----- Every step keeps the invariant -----

  lemma {:induction false} GenuineExtends(trace: seq<Moment>, m: Moment, link: Link, o: Origin)
    requires Genuine(trace, link, o)
    ensures Genuine(trace + [m], link, o)
  {
  }

  lemma {:induction false} StepExtends(c: Config, e: Event)
    requires Inv(c) && Enabled(c, e)
    ensures Valid(Step(c, e).db) && Timed(Step(c, e).trace)
  {
    if e.Commit? || e.Silent? {
      ApplyKeepsValid(c.db, e.w, c.clock);
    }
  }

  lemma {:induction false} ReaderExtends(trace: seq<Moment>, m: Moment, r: Reader)
    requires ReaderInv(trace, r)
    ensures ReaderInv(trace + [m], r)
  {
  }

  lemma {:induction false} ReaderNext(c: Config, e: Event, p: nat)
    requires |c.trace| > 0 && c.trace[c.Now()] == Moment(c.clock, c.db) && ReadersInv(c)
    requires Enabled(c, e) && p in NextReaders(c, e)
    ensures ReaderInv(c.trace, NextReaders(c, e)[p])
  {
    if e.ReadRow? && e.p == p {
      assert RowBySlug(c.db, c.readers[p].slug).Some?;
    } else if e.ReadVariants? && e.p == p {
      assert ReaderInv(c.trace, c.readers[p]);
    } else if !(e.BeginRead? && e.p == p) {
      assert p in c.readers && NextReaders(c, e)[p] == c.readers[p];
    }
  }

  lemma {:induction false} ReadersStep(c: Config, e: Event)
    requires |c.trace| > 0 && c.trace[c.Now()] == Moment(c.clock, c.db) && ReadersInv(c) && Enabled(c, e)
    ensures ReadersInv(Step(c, e))
  {
    var c' := Step(c, e);
    forall p | p in c'.readers ensures ReaderInv(c'.trace, c'.readers[p]) {
      ReaderNext(c, e, p);
      ReaderExtends(c.trace, Moment(c'.clock, c'.db), c'.readers[p]);
    }
  }

  lemma {:induction false} FillExtends(trace: seq<Moment>, m: Moment, clock: Time, clock': Time, f: Fill)
    requires FillInv(trace, clock, f) && clock <= clock'
    ensures FillInv(trace + [m], clock', f)
  {
  }

  lemma {:induction false} FillArrives(c: Config, e: Event)
    requires |c.trace| > 0 && c.trace[c.Now()] == Moment(c.clock, c.db) && ReadersInv(c)
    requires Enabled(c, e) && e.ReadRules?
    ensures FillInv(c.trace, c.clock, NextFills(c, e)[e.p])
  {
    var r := c.readers[e.p];
    assert r.HasVariants?;
  }

  lemma {:induction false} FillMoves(c: Config, e: Event, p: nat)
    requires Enabled(c, e) && |c.trace| > 0 && p in NextFills(c, e) && !(e.ReadRules? && e.p == p)
    ensures p in c.fills
    ensures NextFills(c, e)[p] == c.fills[p] || NextFills(c, e)[p] == c.fills[p].(computedAt := Some(c.clock))
  {
  }

  lemma {:induction false} FillTimed(trace: seq<Moment>, clock: Time, f: Fill)
    requires Timed(trace) && |trace| > 0 && trace[|trace| - 1].at == clock && FillInv(trace, clock, f)
    ensures FillInv(trace, clock, f.(computedAt := Some(clock)))
  {
  }

  lemma {:induction false} FillNext(c: Config, e: Event, p: nat)
    requires Timed(c.trace) && |c.trace| > 0 && c.trace[c.Now()] == Moment(c.clock, c.db)
    requires ReadersInv(c) && FillsInv(c) && Enabled(c, e) && p in NextFills(c, e)
    ensures FillInv(c.trace, c.clock, NextFills(c, e)[p])
  {
    if e.ReadRules? && e.p == p {
      FillArrives(c, e);
    } else {
      FillMoves(c, e, p);
      FillTimed(c.trace, c.clock, c.fills[p]);
    }
  }

  lemma {:induction false} FillsStep(c: Config, e: Event)
    requires Timed(c.trace) && |c.trace| > 0 && c.trace[c.Now()] == Moment(c.clock, c.db)
    requires ReadersInv(c) && FillsInv(c) && Enabled(c, e)
    ensures FillsInv(Step(c, e))
  {
    var c' := Step(c, e);
    forall p | p in c'.fills ensures FillInv(c'.trace, c'.clock, c'.fills[p]) {
      FillNext(c, e, p);
      FillExtends(c.trace, Moment(c'.clock, c'.db), c.clock, c'.clock, c'.fills[p]);
    }
  }

  lemma {:induction false} EntryExtends(trace: seq<Moment>, m: Moment, slug: string, entry: Redis.Entry, l: Landing)
    requires EntryInv(trace, slug, entry, l)
    ensures EntryInv(trace + [m], slug, entry, l)
  {
    GenuineExtends(trace, m, Redis.Decoded(entry.data), l.origin);
  }

  lemma {:induction false} EntryLands(c: Config, e: Event)
    requires |c.trace| > 0 && c.trace[c.Now()] == Moment(c.clock, c.db)
    requires Lands(c, e) && FillInv(c.trace, c.clock, c.fills[e.p])
    ensures var slug := c.fills[e.p].link.slug;
      EntryInv(c.trace, slug, NextCache(c, e)[slug], NextLanded(c, e)[slug])
  {
    Redis.DecodedEncoded(c.fills[e.p].link);
  }

  lemma {:induction false} EntryUntouched(c: Config, e: Event, slug: string)
    requires c.cache.Keys == c.landed.Keys && |c.trace| > 0 && Enabled(c, e) && slug in NextCache(c, e)
    requires !(Lands(c, e) && c.fills[e.p].link.slug == slug)
    ensures slug in c.cache && slug in NextLanded(c, e)
    ensures NextCache(c, e)[slug] == c.cache[slug] && NextLanded(c, e)[slug] == c.landed[slug]
  {
  }

  lemma {:induction false} EntryNext(c: Config, e: Event, slug: string)
    requires |c.trace| > 0 && c.trace[c.Now()] == Moment(c.clock, c.db)
    requires FillsInv(c) && CacheInv(c) && Enabled(c, e) && slug in NextCache(c, e)
    ensures slug in NextLanded(c, e) && EntryInv(c.trace, slug, NextCache(c, e)[slug], NextLanded(c, e)[slug])
  {
    if Lands(c, e) && c.fills[e.p].link.slug == slug {
      EntryLands(c, e);
    } else {
      EntryUntouched(c, e, slug);
    }
  }

  lemma {:induction false} CacheKeysStep(c: Config, e: Event)
    requires c.cache.Keys == c.landed.Keys && Enabled(c, e) && |c.trace| > 0
    requires forall slug :: slug in c.deleted ==> c.deleted[slug] < |c.trace|
    requires forall slug :: slug in c.cache && slug in c.deleted ==> c.deleted[slug] <= c.landed[slug].index
    ensures NextCache(c, e).Keys == NextLanded(c, e).Keys
    ensures forall slug :: slug in NextCache(c, e) && slug in NextDeleted(c, e) ==>
      NextDeleted(c, e)[slug] <= NextLanded(c, e)[slug].index
  {
  }

  lemma {:induction false} CacheStep(c: Config, e: Event)
    requires |c.trace| > 0 && c.trace[c.Now()] == Moment(c.clock, c.db)
    requires FillsInv(c) && CacheInv(c) && Accounted(c) && Enabled(c, e)
    ensures CacheInv(Step(c, e))
  {
    var c' := Step(c, e);
    CacheKeysStep(c, e);
    forall slug | slug in c'.cache ensures EntryInv(c'.trace, slug, c'.cache[slug], c'.landed[slug]) {
      EntryNext(c, e, slug);
      EntryExtends(c.trace, Moment(c'.clock, c'.db), slug, c'.cache[slug], c'.landed[slug]);
    }
  }

  lemma {:induction false} StaysCovered(c: Config, e: Event, slug: string, k: int)
    requires Enabled(c, e) && |c.trace| > 0 && k < c.Now()
    requires Covered(c, slug, k) && (slug in c.deleted ==> c.deleted[slug] < |c.trace|)
    ensures Covered(Step(c, e), slug, k)
  {
    var c' := Step(c, e);
    if e.Invalidate? && c.writers[e.p].slug == slug {
      assert Covered(c', slug, k);
    } else if InvalidationDue(c, slug) {
      var p :| p in c.writers && c.writers[p] == Written(slug);
      assert p in c'.writers && c'.writers[p] == Written(slug);
    }
  }

  /** A successful statement on the slug's link leaves a deletion due, or recorded as lost. */
  lemma {:induction false} SuccessCovered(c: Config, e: Event, slug: string, k: int)
    requires Enabled(c, e) && |c.trace| > 0 && (e.Commit? || e.Silent?)
    requires Succeeds(c.db, e.w, c.clock) && TargetSlug(c.db, e.w) == Some(slug)
    ensures Covered(Step(c, e), slug, k)
  {
    if e.Commit? && e.acknowledged && c.writers[e.p].slug == slug {
      assert NextWriters(c, e)[e.p] == Written(slug);
    } else {
      assert slug in NextLost(c, e);
    }
  }

  lemma {:induction false} NewChangeCovered(c: Config, e: Event, slug: string)
    requires Enabled(c, e) && |c.trace| > 0 && Valid(c.db) && Valid(NextDb(c, e))
    requires CoreOf(c.db, slug).Some? && CoreOf(NextDb(c, e), slug) != CoreOf(c.db, slug)
    ensures Covered(Step(c, e), slug, c.Now())
  {
    WriteLocal(c.db, e.w, c.clock, slug);
    SuccessCovered(c, e, slug, c.Now());
  }

  lemma {:induction false} AccountedStep(c: Config, e: Event)
    requires |c.trace| > 0 && c.trace[c.Now()] == Moment(c.clock, c.db)
    requires Accounted(c) && Enabled(c, e) && Valid(c.db) && Valid(NextDb(c, e))
    ensures Accounted(Step(c, e))
  {
    var c' := Step(c, e);
    forall slug, k | Changed(c'.trace, k, slug) ensures Covered(c', slug, k) {
      if k == c.Now() {
        assert c'.trace[k] == Moment(c.clock, c.db) && c'.trace[k + 1] == Moment(c'.clock, c'.db);
        NewChangeCovered(c, e, slug);
      } else {
        assert Changed(c.trace, k, slug);
        StaysCovered(c, e, slug, k);
      }
    }
  }

  lemma {:induction false} StepKeepsInv(c: Config, e: Event)
    requires Inv(c) && Enabled(c, e)
    ensures Inv(Step(c, e))
  {
    StepExtends(c, e);
    ReadersStep(c, e);
    FillsStep(c, e);
    CacheStep(c, e);
    AccountedStep(c, e);
  }
}
