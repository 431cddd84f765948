/** What the cache protocol guarantees to redirects, over every run, and what it does not. */
module CacheTheorems {
  import opened Common
  import opened Domain
  import opened Store
  import opened Decision
  import opened Coherence
  import Redis

  // ----- Runs -----

  ghost predicate Next(c: Config, e: Event, c': Config) {
    Enabled(c, e) && |c.trace| > 0 && c' == Step(c, e)
  }

  ghost predicate Run(cs: seq<Config>, es: seq<Event>) {
    && |cs| == |es| + 1
    && Initial(cs[0])
    && forall i :: 0 <= i < |es| ==> Next(cs[i], es[i], cs[i + 1])
  }

  /** The invariant holds throughout every run, and the recorded moments are the run itself. */
  lemma {:induction false} RunInv(cs: seq<Config>, es: seq<Event>, i: nat)
    requires Run(cs, es) && i < |cs|
    ensures Inv(cs[i])
    ensures |cs[i].trace| == i + 1
    ensures forall k :: 0 <= k <= i ==> cs[i].trace[k] == Moment(cs[k].clock, cs[k].db)
  {
    if i > 0 {
      RunInv(cs, es, i - 1);
      assert Next(cs[i - 1], es[i - 1], cs[i]);
      StepKeepsInv(cs[i - 1], es[i - 1]);
    }
  }

  // ----- Freshness -----

  ghost predicate SameButClicks(a: Link, b: Link) {
    a.(clickCount := 0) == b.(clickCount := 0)
  }

  /** The link agrees with what the database would return, on all that redirects depend on. */
  ghost predicate Agrees(db: Db, slug: string, link: Link) {
    FindBySlug(db, slug).Some? && SameButClicks(FindBySlug(db, slug).value, link)
  }

  /** What each of the three queries of FindBySlug contributes to a link. */
  datatype Part = Row | Variants | Rules

  predicate SamePart(part: Part, a: Link, b: Link) {
    match part
    case Row => a.(abTests := [], geoRules := []) == b.(abTests := [], geoRules := [])
    case Variants => a.abTests == b.abTests
    case Rules => a.geoRules == b.geoRules
  }

  ghost predicate PartAgrees(db: Db, slug: string, part: Part, link: Link) {
    CoreOf(db, slug).Some? && SamePart(part, CoreOf(db, slug).value, link.(clickCount := 0))
  }

  /** Between moments k and k + 1 some statement changed that part of the link, or took the slug away. */
  ghost predicate PartChanged(trace: seq<Moment>, k: int, slug: string, part: Part) {
    && 0 <= k < |trace| - 1
    && CoreOf(trace[k].db, slug).Some?
    && (CoreOf(trace[k + 1].db, slug).None?
        || !SamePart(part, CoreOf(trace[k].db, slug).value, CoreOf(trace[k + 1].db, slug).value))
  }

  function ReadAt(o: Origin, part: Part): nat {
    match part
    case Row => o.rowAt
    case Variants => o.abAt
    case Rules => o.rulesAt
  }

  /** Statement k changed a part of the link after that very part had been read. */
  ghost predicate Outdates(trace: seq<Moment>, slug: string, o: Origin, part: Part, k: int) {
    ReadAt(o, part) <= k && PartChanged(trace, k, slug, part)
  }

  /** Every part of the link has agreed with the database ever since that part was read. */
  ghost predicate CurrentSinceRead(trace: seq<Moment>, link: Link, o: Origin) {
    forall part: Part, m :: ReadAt(o, part) <= m < |trace| ==> PartAgrees(trace[m].db, link.slug, part, link)
  }

  lemma {:induction false} PartStable(trace: seq<Moment>, slug: string, part: Part, i: int, j: int)
    requires 0 <= i <= j < |trace| && CoreOf(trace[i].db, slug).Some?
    requires forall k :: i <= k < j ==> !PartChanged(trace, k, slug, part)
    ensures CoreOf(trace[j].db, slug).Some?
    ensures SamePart(part, CoreOf(trace[i].db, slug).value, CoreOf(trace[j].db, slug).value)
    decreases j - i
  {
    if i < j {
      PartStable(trace, slug, part, i, j - 1);
      assert !PartChanged(trace, j - 1, slug, part);
    }
  }

  /** Each part agrees at the moment it was read, if the row has not changed until then. */
  lemma {:induction false} AgreesWhenRead(trace: seq<Moment>, link: Link, o: Origin, part: Part)
    requires Genuine(trace, link, o)
    requires forall k :: o.rowAt <= k ==> !PartChanged(trace, k, link.slug, Row)
    ensures PartAgrees(trace[ReadAt(o, part)].db, link.slug, part, link)
  {
    PartStable(trace, link.slug, Row, o.rowAt, ReadAt(o, part));
  }

  lemma {:induction false} CurrentIfNotOutdated(trace: seq<Moment>, link: Link, o: Origin, part: Part, m: int)
    requires Genuine(trace, link, o) && ReadAt(o, part) <= m < |trace|
    requires forall q: Part, k :: !Outdates(trace, link.slug, o, q, k)
    ensures PartAgrees(trace[m].db, link.slug, part, link)
  {
    forall k | o.rowAt <= k ensures !PartChanged(trace, k, link.slug, Row) {
      assert !Outdates(trace, link.slug, o, Row, k);
    }
    AgreesWhenRead(trace, link, o, part);
    forall k | ReadAt(o, part) <= k ensures !PartChanged(trace, k, link.slug, part) {
      assert !Outdates(trace, link.slug, o, part, k);
    }
    PartStable(trace, link.slug, part, ReadAt(o, part), m);
  }

  lemma {:induction false} OutdatedDisagrees(trace: seq<Moment>, link: Link, o: Origin, part: Part, k: int)
    requires Outdates(trace, link.slug, o, part, k)
    ensures ReadAt(o, part) <= k < |trace| - 1
    ensures !PartAgrees(trace[k].db, link.slug, part, link) || !PartAgrees(trace[k + 1].db, link.slug, part, link)
  {
  }

  /** A link read in three parts has been current ever since exactly if no statement changed a part of it
      after that part had been read. */
  lemma {:induction false} CurrentExactly(trace: seq<Moment>, link: Link, o: Origin)
    requires Genuine(trace, link, o)
    ensures CurrentSinceRead(trace, link, o) <==> forall part: Part, k :: !Outdates(trace, link.slug, o, part, k)
  {
    if part: Part, k :| Outdates(trace, link.slug, o, part, k) {
      OutdatedDisagrees(trace, link, o, part, k);
    } else {
      forall part: Part, m | ReadAt(o, part) <= m < |trace| ensures PartAgrees(trace[m].db, link.slug, part, link) {
        CurrentIfNotOutdated(trace, link, o, part, m);
      }
    }
  }

  /** A link whose parts agree with a state is what that state would return. */
  lemma {:induction false} PartsMakeLink(db: Db, link: Link)
    requires PartAgrees(db, link.slug, Row, link) && PartAgrees(db, link.slug, Variants, link)
    requires PartAgrees(db, link.slug, Rules, link)
    ensures Agrees(db, link.slug, link)
  {
    var core := CoreOf(db, link.slug).value;
    assert core == core.(abTests := [], geoRules := []).(abTests := core.abTests, geoRules := core.geoRules);
  }

  /** Some statement before moment at, or from then on, outdated the link. */
  ghost predicate OutdatedBefore(trace: seq<Moment>, slug: string, o: Origin, at: int) {
    exists part: Part, k :: k < at && Outdates(trace, slug, o, part, k)
  }

  ghost predicate OutdatedFrom(trace: seq<Moment>, slug: string, o: Origin, at: int) {
    exists part: Part, k :: at <= k && Outdates(trace, slug, o, part, k)
  }

  lemma {:induction false} CurrentByMoment(trace: seq<Moment>, link: Link, o: Origin, at: int)
    requires Genuine(trace, link, o)
    ensures CurrentSinceRead(trace, link, o) <==>
      !OutdatedBefore(trace, link.slug, o, at) && !OutdatedFrom(trace, link.slug, o, at)
  {
    CurrentExactly(trace, link, o);
  }

  function DeletedAt(c: Config, slug: string): nat {
    if slug in c.deleted then c.deleted[slug] else 0
  }

  /** A fill that landed after the deletion that followed a change of a part it had already read. */
  ghost predicate LateFill(c: Config, slug: string) {
    && slug in c.landed && slug in c.deleted
    && c.deleted[slug] <= c.landed[slug].index
    && OutdatedBefore(c.trace, slug, c.landed[slug].origin, c.deleted[slug])
  }

  /** A change of a part the entry had already read, and no deletion of its key since. */
  ghost predicate Undeleted(c: Config, slug: string) {
    slug in c.landed && OutdatedFrom(c.trace, slug, c.landed[slug].origin, DeletedAt(c, slug))
  }

  lemma {:induction false} EntryIs(c: Config, slug: string)
    requires CacheInv(c) && slug in c.cache
    ensures slug in c.landed && EntryInv(c.trace, slug, c.cache[slug], c.landed[slug])
    ensures slug in c.deleted ==> c.deleted[slug] <= c.landed[slug].index
  {
  }

  lemma {:induction false} OutdatesIsChange(trace: seq<Moment>, slug: string, o: Origin, part: Part, k: int)
    requires Outdates(trace, slug, o, part, k)
    ensures Changed(trace, k, slug)
  {
  }

  /** A change that no deletion has followed is one whose deletion is due or lost. */
  lemma {:induction false} UndeletedIsOwed(c: Config, slug: string)
    requires Accounted(c) && Undeleted(c, slug)
    ensures InvalidationDue(c, slug) || slug in c.lost
  {
    var part: Part, k :| DeletedAt(c, slug) <= k && Outdates(c.trace, slug, c.landed[slug].origin, part, k);
    OutdatesIsChange(c.trace, slug, c.landed[slug].origin, part, k);
    assert Covered(c, slug, k);
  }

  lemma {:induction false} LateExactly(c: Config, slug: string)
    requires slug in c.landed && (slug in c.deleted ==> c.deleted[slug] <= c.landed[slug].index)
    ensures LateFill(c, slug) <==> OutdatedBefore(c.trace, slug, c.landed[slug].origin, DeletedAt(c, slug))
  {
  }

  lemma {:induction false} CurrentAgrees(trace: seq<Moment>, link: Link, o: Origin)
    requires |trace| > 0 && Genuine(trace, link, o) && CurrentSinceRead(trace, link, o)
    ensures Agrees(trace[|trace| - 1].db, link.slug, link)
  {
    assert ReadAt(o, Row) < |trace| && ReadAt(o, Variants) < |trace| && ReadAt(o, Rules) < |trace|;
    PartsMakeLink(trace[|trace| - 1].db, link);
  }

  lemma {:induction false} LinkExactly(c: Config, link: Link)
    requires |c.trace| > 0 && link.slug in c.landed && Genuine(c.trace, link, c.landed[link.slug].origin)
    requires link.slug in c.deleted ==> c.deleted[link.slug] <= c.landed[link.slug].index
    ensures var o := c.landed[link.slug].origin;
      && (CurrentSinceRead(c.trace, link, o) <==> !LateFill(c, link.slug) && !Undeleted(c, link.slug))
      && (CurrentSinceRead(c.trace, link, o) ==> Agrees(c.trace[|c.trace| - 1].db, link.slug, link))
  {
    var o := c.landed[link.slug].origin;
    LateExactly(c, link.slug);
    CurrentByMoment(c.trace, link, o, DeletedAt(c, link.slug));
    if CurrentSinceRead(c.trace, link, o) {
      CurrentAgrees(c.trace, link, o);
    }
  }

  lemma {:induction false} CachedLink(c: Config, slug: string) returns (link: Link)
    requires CacheInv(c) && slug in c.cache
    ensures link == Redis.Decoded(c.cache[slug].data) && link.slug == slug
    ensures slug in c.landed && Genuine(c.trace, link, c.landed[slug].origin)
    ensures slug in c.deleted ==> c.deleted[slug] <= c.landed[slug].index
  {
    EntryIs(c, slug);
    link := Redis.Decoded(c.cache[slug].data);
  }

  lemma {:induction false} LastMoment(cs: seq<Config>, es: seq<Event>)
    requires Run(cs, es)
    ensures var c := cs[|es|];
      |c.trace| > 0 && c.trace[|c.trace| - 1].db == c.db && CacheInv(c) && Accounted(c)
  {
    RunInv(cs, es, |es|);
  }

  /** Freshness in every run, exactly. Whatever failed, each part of a cached link has agreed with the
      database ever since that part was read if and only if the entry is no late fill and no change of a
      part it had already read is undeleted; the deletion for an undeleted change is still due, or lost. */
  lemma {:induction false} FreshExactly(cs: seq<Config>, es: seq<Event>, slug: string)
    requires Run(cs, es) && slug in cs[|es|].cache
    ensures slug in cs[|es|].landed
    ensures var c := cs[|es|];
      var link, o := Redis.Decoded(c.cache[slug].data), c.landed[slug].origin;
      && (CurrentSinceRead(c.trace, link, o) <==> !LateFill(c, slug) && !Undeleted(c, slug))
      && (CurrentSinceRead(c.trace, link, o) ==> Agrees(c.db, slug, link))
      && (Undeleted(c, slug) ==> InvalidationDue(c, slug) || slug in c.lost)
  {
    LastMoment(cs, es);
    var link := CachedLink(cs[|es|], slug);
    LinkExactly(cs[|es|], link);
    if Undeleted(cs[|es|], slug) {
      UndeletedIsOwed(cs[|es|], slug);
    }
  }

  /** So whatever Redis answers agrees with the database, unless a deletion is due or lost or the fill late. */
  lemma {:induction false} FreshInEveryRun(cs: seq<Config>, es: seq<Event>, slug: string)
    requires Run(cs, es)
    ensures var c := cs[|es|];
      match Redis.Lookup(c.cache, slug, c.clock)
      case None => true
      case Some(link) =>
        Agrees(c.db, slug, link) || InvalidationDue(c, slug) || slug in c.lost || LateFill(c, slug)
  {
    if slug in cs[|es|].cache {
      FreshExactly(cs, es, slug);
    }
  }

  lemma {:induction false} DecideIgnoresClicks(a: Link, b: Link, now: Time, matches: Matcher, req: Request)
    requires SameButClicks(a, b)
    ensures Decide(a, now, matches, req) == Decide(b, now, matches, req)
  {
    var z := a.(clickCount := 0);
    assert a == z.(clickCount := a.clickCount) && b == z.(clickCount := b.clickCount);
  }

  /** The step after which some change of the slug will not be followed by a deletion of its key. */
  ghost predicate Loses(c: Config, e: Event, slug: string) {
    && Enabled(c, e)
    && match e
      case Invalidate(p, delivered) => !delivered && c.writers[p].slug == slug
      case Commit(p, w, acknowledged) =>
        && Succeeds(c.db, w, c.clock) && TargetSlug(c.db, w) == Some(slug)
        && (!acknowledged || c.writers[p].slug != slug)
      case Silent(w) => w.SetSlug? && Succeeds(c.db, w, c.clock) && TargetSlug(c.db, w) == Some(slug)
      case _ => false
  }

  lemma {:induction false} NothingLost(cs: seq<Config>, es: seq<Event>, slug: string, i: nat)
    requires Run(cs, es) && i < |cs|
    requires forall j :: 0 <= j < |es| ==> !Loses(cs[j], es[j], slug)
    ensures slug !in cs[i].lost
  {
    if i > 0 {
      NothingLost(cs, es, slug, i - 1);
      assert Next(cs[i - 1], es[i - 1], cs[i]) && !Loses(cs[i - 1], es[i - 1], slug);
    }
  }

  /** Cache transparency over every interleaving: if along the run every deletion of the slug's key was
      delivered, every write of its link was acknowledged and invalidated under that slug, none is still
      due and no fill landed late, then a redirect answered from Redis is the redirect the database would
      have answered, for every clock reading, password, country and draw. */
  lemma {:induction false} CacheTransparent(cs: seq<Config>, es: seq<Event>, slug: string, now: Time,
                                            matches: Matcher, req: Request)
    requires Run(cs, es)
    requires forall j :: 0 <= j < |es| ==> !Loses(cs[j], es[j], slug)
    requires !InvalidationDue(cs[|es|], slug) && !LateFill(cs[|es|], slug)
    requires Redis.Lookup(cs[|es|].cache, slug, cs[|es|].clock).Some?
    ensures var c := cs[|es|];
      && FindBySlug(c.db, slug).Some?
      && Decide(Redis.Lookup(c.cache, slug, c.clock).value, now, matches, req)
           == Decide(FindBySlug(c.db, slug).value, now, matches, req)
  {
    var c := cs[|es|];
    NothingLost(cs, es, slug, |es|);
    FreshInEveryRun(cs, es, slug);
    var link := Redis.Lookup(c.cache, slug, c.clock).value;
    DecideIgnoresClicks(FindBySlug(c.db, slug).value, link, now, matches, req);
  }

  // ----- Bounded staleness -----

  /** The moments of the run at which FindBySlug obtained the row, the variants and the rules of a link. */
  ghost predicate ReadDuring(cs: seq<Config>, link: Link, a: int, b: int, d: int) {
    && 0 <= a <= b <= d < |cs|
    && RowBySlug(cs[a].db, link.slug).Some?
    && var row := RowBySlug(cs[a].db, link.slug).value;
      link == LinkOf(row, VariantsOf(cs[b].db, row.id), RulesOf(cs[d].db, row.id))
  }

  /** In nanoseconds: a day and a second after the read, or eleven seconds after the expiry. */
  ghost predicate WithinBounds(clock: Time, expiredAt: Option<Time>, readAt: Time) {
    match expiredAt
    case None => clock < readAt + 86_401_000_000_000
    case Some(e) => readAt < e && clock < e + 11_000_000_000
  }

  lemma {:induction false} TimedWithinBounds(trace: seq<Moment>, clock: Time, expiredAt: Option<Time>,
                                             deadline: Time, l: Landing)
    requires EntryTimed(trace, expiredAt, deadline, l) && clock < deadline
    ensures WithinBounds(clock, expiredAt, trace[l.origin.rulesAt].at)
  {
  }

  lemma {:induction false} ReadFromTrace(cs: seq<Config>, trace: seq<Moment>, link: Link, o: Origin)
    requires |trace| <= |cs| && forall k :: 0 <= k < |trace| ==> trace[k] == Moment(cs[k].clock, cs[k].db)
    requires Genuine(trace, link, o)
    ensures ReadDuring(cs, link, o.rowAt, o.abAt, o.rulesAt)
  {
  }

  /** A cached entry in a run: how it was read, how it was timed, and that the history is the run itself. */
  lemma {:induction false} EntryInRun(cs: seq<Config>, es: seq<Event>, slug: string) returns (l: Landing)
    requires Run(cs, es) && slug in cs[|es|].cache
    ensures var c := cs[|es|];
      && slug in c.landed && l == c.landed[slug]
      && EntryRead(c.trace, slug, c.cache[slug], l)
      && EntryTimed(c.trace, c.cache[slug].data.expiredAt, c.cache[slug].deadline, l)
      && |c.trace| == |cs| && forall k :: 0 <= k < |cs| ==> c.trace[k] == Moment(cs[k].clock, cs[k].db)
  {
    RunInv(cs, es, |es|);
    EntryIs(cs[|es|], slug);
    l := cs[|es|].landed[slug];
  }

  lemma {:induction false} EntryServed(cs: seq<Config>, trace: seq<Moment>, slug: string, entry: Redis.Entry,
                                       l: Landing, clock: Time)
    requires |trace| == |cs| && forall k :: 0 <= k < |cs| ==> trace[k] == Moment(cs[k].clock, cs[k].db)
    requires EntryRead(trace, slug, entry, l) && EntryTimed(trace, entry.data.expiredAt, entry.deadline, l)
    requires clock < entry.deadline
    ensures var link := Redis.Decoded(entry.data);
      && link.slug == slug
      && exists a, b, d :: ReadDuring(cs, link, a, b, d) && WithinBounds(clock, link.expiredAt, cs[d].clock)
  {
    var link := Redis.Decoded(entry.data);
    TimedWithinBounds(trace, clock, link.expiredAt, entry.deadline, l);
    ReadFromTrace(cs, trace, link, l.origin);
  }

  lemma {:induction false} NeverAfterExpiry(link: Link, now: Time, matches: Matcher, req: Request)
    ensures Decide(link, now, matches, req).Ok? ==> link.expiredAt.None? || now <= link.expiredAt.value
  {
  }

  /** Over every run, whatever failed: a link served from the cache is exactly what FindBySlug of its slug
      returned at an earlier moment d of the run. Without an expiry that moment is less than a day and the
      fill timeout ago. With an expiry E it precedes E, and the entry is unreadable from ten seconds and
      the fill timeout after E; and no redirect on it succeeds after E. */
  lemma {:induction false} BoundedStaleness(cs: seq<Config>, es: seq<Event>, slug: string, matches: Matcher,
                                            req: Request)
    requires Run(cs, es)
    requires Redis.Lookup(cs[|es|].cache, slug, cs[|es|].clock).Some?
    ensures var c := cs[|es|];
      var link := Redis.Lookup(c.cache, slug, c.clock).value;
      && link.slug == slug
      && (exists a, b, d :: ReadDuring(cs, link, a, b, d) && WithinBounds(c.clock, link.expiredAt, cs[d].clock))
      && (Decide(link, c.clock, matches, req).Ok? ==> link.expiredAt.None? || c.clock <= link.expiredAt.value)
  {
    var c := cs[|es|];
    var l := EntryInRun(cs, es, slug);
    EntryServed(cs, c.trace, slug, c.cache[slug], l, c.clock);
    NeverAfterExpiry(Redis.Decoded(c.cache[slug].data), c.clock, matches, req);
  }

  lemma {:induction false} TimedDeadline(trace: seq<Moment>, e: Time, deadline: Time, l: Landing)
    requires EntryTimed(trace, Some(e), deadline, l)
    ensures l.index < |trace| && deadline - e == Redis.EXPIRY_BUFFER + (trace[l.index].at - l.computedAt)
    ensures 0 <= trace[l.index].at - l.computedAt <= FILL_TIMEOUT
  {
  }

  /** How long past its expiry an entry stays readable, in every run: exactly ten seconds more than the time
      its SET took to land after its time to live was computed, which is at most the fill timeout. */
  lemma {:induction false} ExpiringDeadline(cs: seq<Config>, es: seq<Event>, slug: string)
    requires Run(cs, es) && slug in cs[|es|].cache && cs[|es|].cache[slug].data.expiredAt.Some?
    ensures slug in cs[|es|].landed && cs[|es|].landed[slug].index < |cs|
    ensures var entry, l := cs[|es|].cache[slug], cs[|es|].landed[slug];
      var past, delay := entry.deadline - entry.data.expiredAt.value, cs[l.index].clock - l.computedAt;
      && past == Redis.EXPIRY_BUFFER + delay
      && 0 <= delay <= FILL_TIMEOUT
      && (past == Redis.EXPIRY_BUFFER <==> cs[l.index].clock == l.computedAt)
  {
    var l := EntryInRun(cs, es, slug);
    var c := cs[|es|];
    TimedDeadline(c.trace, c.cache[slug].data.expiredAt.value, c.cache[slug].deadline, l);
  }
}
