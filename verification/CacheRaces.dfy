/** Two interleavings the cache protocol permits, from any state in which the link is not cached: a stale
    entry although every invalidation succeeded, and a cached link that the database never held. */
module CacheRaces {
  import opened Common
  import opened Domain
  import opened Sequences
  import opened Store
  import opened Coherence
  import opened CacheTheorems
  import Redis

  // ----- Stretches of a run -----

  ghost predicate Path(cs: seq<Config>, es: seq<Event>) {
    |cs| == |es| + 1 && forall i :: 0 <= i < |es| ==> Next(cs[i], es[i], cs[i + 1])
  }

  /** Along the path no change of the slug's link goes without a deletion of its key, delivered or due. */
  ghost predicate Lossless(cs: seq<Config>, es: seq<Event>, slug: string) {
    |cs| == |es| + 1 && forall i :: 0 <= i < |es| ==> !Loses(cs[i], es[i], slug)
  }

  /** A lossless path from c to d through the given states of the database only. */
  ghost predicate Leads(cs: seq<Config>, es: seq<Event>, c: Config, d: Config, slug: string, dbs: set<Db>) {
    && Path(cs, es) && Lossless(cs, es, slug)
    && cs[0] == c && cs[|es|] == d
    && forall i :: 0 <= i < |cs| ==> cs[i].db in dbs
  }

  lemma {:induction false} PathJoin(cs: seq<Config>, es: seq<Event>, ds: seq<Config>, fs: seq<Event>, slug: string)
    requires Path(cs, es) && Path(ds, fs) && cs[|es|] == ds[0] && Lossless(cs, es, slug) && Lossless(ds, fs, slug)
    ensures Path(cs + ds[1..], es + fs) && Lossless(cs + ds[1..], es + fs, slug)
  {
    var xs, gs := cs + ds[1..], es + fs;
    forall i | 0 <= i < |gs| ensures Next(xs[i], gs[i], xs[i + 1]) && !Loses(xs[i], gs[i], slug) {
      if i < |es| {
        assert Next(cs[i], es[i], cs[i + 1]) && !Loses(cs[i], es[i], slug);
      } else {
        assert Next(ds[i - |es|], fs[i - |es|], ds[i - |es| + 1]) && !Loses(ds[i - |es|], fs[i - |es|], slug);
      }
    }
  }

  lemma {:induction false} Join(cs: seq<Config>, es: seq<Event>, c: Config, d: Config,
                                ds: seq<Config>, fs: seq<Event>, e: Config, slug: string, dbs: set<Db>)
      returns (xs: seq<Config>, gs: seq<Event>)
    requires Leads(cs, es, c, d, slug, dbs) && Leads(ds, fs, d, e, slug, dbs)
    ensures Leads(xs, gs, c, e, slug, dbs)
  {
    PathJoin(cs, es, ds, fs, slug);
    xs, gs := cs + ds[1..], es + fs;
  }

  lemma {:induction false} TwoSteps(c: Config, e: Event, b: Config, f: Event, d: Config, slug: string, dbs: set<Db>)
    requires Next(c, e, b) && Next(b, f, d) && !Loses(c, e, slug) && !Loses(b, f, slug)
    requires c.db in dbs && b.db in dbs && d.db in dbs
    ensures Leads([c, b, d], [e, f], c, d, slug, dbs)
  {
  }

  /** A redirect misses the cache and reads the row. */
  lemma {:induction false} RowRead(c: Config, p: nat, slug: string, dbs: set<Db>)
      returns (cs: seq<Config>, es: seq<Event>, d: Config)
    requires |c.trace| > 0 && p !in c.readers && p !in c.fills && c.db in dbs
    requires Redis.Lookup(c.cache, slug, c.clock).None? && RowBySlug(c.db, slug).Some?
    ensures Leads(cs, es, c, d, slug, dbs)
    ensures d.clock == c.clock && d.db == c.db && d.cache == c.cache && d.writers == c.writers && d.lost == c.lost
    ensures |d.trace| > 0 && p in d.readers && d.readers[p] == HasRow(RowBySlug(c.db, slug).value, |c.trace|)
  {
    var b := Step(c, BeginRead(p, slug, false));
    d := Step(b, ReadRow(p));
    TwoSteps(c, BeginRead(p, slug, false), b, ReadRow(p), d, slug, dbs);
    cs, es := [c, b, d], [BeginRead(p, slug, false), ReadRow(p)];
  }

  /** It reads variants and rules and starts the fill. */
  lemma {:induction false} ChildrenRead(c: Config, p: nat, row: LinkRow, at: nat, slug: string, dbs: set<Db>)
      returns (cs: seq<Config>, es: seq<Event>, d: Config)
    requires |c.trace| > 0 && p in c.readers && c.readers[p] == HasRow(row, at) && c.db in dbs
    ensures Leads(cs, es, c, d, slug, dbs)
    ensures d.clock == c.clock && d.db == c.db && d.cache == c.cache && d.writers == c.writers && d.lost == c.lost
    ensures p in d.fills && d.fills[p].computedAt.None?
    ensures d.fills[p].origin.rulesAt < |d.trace| && d.trace[d.fills[p].origin.rulesAt].at == c.clock
    ensures d.fills[p].link == LinkOf(row, VariantsOf(c.db, row.id), RulesOf(c.db, row.id))
  {
    var b := Step(c, ReadVariants(p));
    d := Step(b, ReadRules(p));
    TwoSteps(c, ReadVariants(p), b, ReadRules(p), d, slug, dbs);
    cs, es := [c, b, d], [ReadVariants(p), ReadRules(p)];
  }

  /** The fill computes its time to live at once and lands after a delay within its timeout. */
  lemma {:induction false} FillLands(c: Config, p: nat, delay: nat, dbs: set<Db>)
      returns (cs: seq<Config>, es: seq<Event>, d: Config)
    requires |c.trace| > 0 && p in c.fills && c.fills[p].computedAt.None? && c.db in dbs && delay <= FILL_TIMEOUT
    requires Redis.LinkTtl(c.fills[p].link, c.clock).Some?
    requires c.fills[p].origin.rulesAt < |c.trace| && c.trace[c.fills[p].origin.rulesAt].at == c.clock
    ensures Leads(cs, es, c, d, c.fills[p].link.slug, dbs)
    ensures d.clock == c.clock + delay && d.db == c.db && d.writers == c.writers && d.lost == c.lost
    ensures |d.trace| > 0
    ensures var link := c.fills[p].link;
      d.cache == Redis.Stored(c.cache, link, Redis.LinkTtl(link, c.clock).value, d.clock)
  {
    var slug := c.fills[p].link.slug;
    var b := Step(c, ComputeTtl(p));
    assert b.fills[p].computedAt == Some(c.clock);
    var t := Step(b, Tick(delay));
    TwoSteps(c, ComputeTtl(p), b, Tick(delay), t, slug, dbs);
    d := FillSets(t, p);
    cs, es := Join([c, b, t], [ComputeTtl(p), Tick(delay)], c, t, [t, d], [Land(p)], d, slug, dbs);
  }

  lemma {:induction false} FillSets(c: Config, p: nat) returns (d: Config)
    requires |c.trace| > 0 && Enabled(c, Land(p))
    requires Redis.LinkTtl(c.fills[p].link, c.fills[p].computedAt.value).Some?
    ensures Leads([c, d], [Land(p)], c, d, c.fills[p].link.slug, {c.db})
    ensures d.clock == c.clock && d.db == c.db && d.writers == c.writers && d.lost == c.lost && |d.trace| > 0
    ensures var f := c.fills[p];
      d.cache == Redis.Stored(c.cache, f.link, Redis.LinkTtl(f.link, f.computedAt.value).value, c.clock)
  {
    d := Step(c, Land(p));
  }

  /** A mutation is authorised, committed and acknowledged; its deletion is now due. */
  lemma {:induction false} Commits(c: Config, p: nat, id: int, w: Write, dbs: set<Db>)
      returns (cs: seq<Config>, es: seq<Event>, d: Config)
    requires |c.trace| > 0 && p !in c.writers && id in c.db.links && Mutates(w, id)
    requires w.Update? || w.AddABTest?
    requires Succeeds(c.db, w, c.clock) && c.db in dbs && Apply(c.db, w, c.clock) in dbs
    ensures Leads(cs, es, c, d, c.db.links[id].slug, dbs)
    ensures d.clock == c.clock && d.db == Apply(c.db, w, c.clock) && c.trace <= d.trace
    ensures d.readers == c.readers && d.fills == c.fills && d.cache == c.cache && d.lost == c.lost
    ensures d.writers == c.writers[p := Written(c.db.links[id].slug)]
  {
    var b := Step(c, Authorize(p, id));
    d := Step(b, Commit(p, w, true));
    TwoSteps(c, Authorize(p, id), b, Commit(p, w, true), d, c.db.links[id].slug, dbs);
    cs, es := [c, b, d], [Authorize(p, id), Commit(p, w, true)];
  }

  /** The deletion is delivered. */
  lemma {:induction false} Deletes(c: Config, p: nat, slug: string, dbs: set<Db>)
      returns (cs: seq<Config>, es: seq<Event>, d: Config)
    requires |c.trace| > 0 && p in c.writers && c.writers[p] == Written(slug) && c.db in dbs
    ensures Leads(cs, es, c, d, slug, dbs)
    ensures d.clock == c.clock && d.db == c.db && d.fills == c.fills && c.trace <= d.trace
    ensures d.writers == c.writers - {p} && d.lost == c.lost - {slug}
  {
    d := Step(c, Invalidate(p, true));
    cs, es := [c, d], [Invalidate(p, true)];
  }

  // ----- A late fill -----

  const NEW_DESTINATION: string := "https://new.example"

  function Retarget(dest: string): Patch {
    Patch(Some(dest), None, None, None, None)
  }

  lemma {:induction false} RetargetedLink(db: Db, slug: string, dest: string, now: Time)
    requires LinksValid(db) && RowBySlug(db, slug).Some?
    ensures var id := RowBySlug(db, slug).value.id;
      var db' := UpdateLink(db, id, Retarget(dest), now).0;
      && id in db.links && db.links[id].slug == slug
      && LinksValid(db')
      && RowBySlug(db', slug).Some? && RowBySlug(db', slug).value.destinationUrl == dest
      && FindBySlug(db', slug).Some? && FindBySlug(db', slug).value.destinationUrl == dest
  {
    RowBySlugStored(db, slug);
    var id := RowBySlug(db, slug).value.id;
    var db' := UpdateLink(db, id, Retarget(dest), now).0;
    assert LinksValid(db');
    RowBySlugUnique(db', id);
  }

  lemma {:induction false} WholeRead(c: Config, p: nat, slug: string, dbs: set<Db>)
      returns (cs: seq<Config>, es: seq<Event>, d: Config)
    requires |c.trace| > 0 && p !in c.readers && p !in c.fills && c.db in dbs
    requires Redis.Lookup(c.cache, slug, c.clock).None? && FindBySlug(c.db, slug).Some?
    ensures Leads(cs, es, c, d, slug, dbs)
    ensures d.clock == c.clock && d.db == c.db && d.cache == c.cache && d.writers == c.writers && d.lost == c.lost
    ensures p in d.fills && d.fills[p].computedAt.None? && Some(d.fills[p].link) == FindBySlug(c.db, slug)
    ensures d.fills[p].origin.rulesAt < |d.trace| && d.trace[d.fills[p].origin.rulesAt].at == c.clock
  {
    var cs1, es1, c1 := RowRead(c, p, slug, dbs);
    var cs2, es2, c2 := ChildrenRead(c1, p, RowBySlug(c.db, slug).value, |c.trace|, slug, dbs);
    cs, es := Join(cs1, es1, c, c1, cs2, es2, c2, slug, dbs);
    d := c2;
  }

  lemma {:induction false} MutateAndDelete(c: Config, p: nat, id: int, w: Write, dbs: set<Db>)
      returns (cs: seq<Config>, es: seq<Event>, d: Config)
    requires |c.trace| > 0 && p !in c.writers && id in c.db.links && w.Update? && Mutates(w, id)
    requires c.db in dbs && Apply(c.db, w, c.clock) in dbs
    ensures Leads(cs, es, c, d, c.db.links[id].slug, dbs)
    ensures d.clock == c.clock && d.db == Apply(c.db, w, c.clock) && d.fills == c.fills && c.trace <= d.trace
    ensures d.writers == c.writers - {p} && d.lost == c.lost - {c.db.links[id].slug}
  {
    var slug := c.db.links[id].slug;
    var cs1, es1, c1 := Commits(c, p, id, w, dbs);
    var cs2, es2, c2 := Deletes(c1, p, slug, dbs);
    cs, es := Join(cs1, es1, c, c1, cs2, es2, c2, slug, dbs);
    d := c2;
  }

  /** A redirect reads the link; a mutation then changes it and deletes the cache key successfully; the
      redirect's fill lands last. Redis now serves the old link, nothing is lost and nothing is due. */
  lemma {:induction false} LateFillRace(c: Config, p: nat, slug: string, dest: string)
      returns (cs: seq<Config>, es: seq<Event>)
    requires |c.trace| > 0 && LinksValid(c.db) && p !in c.readers && p !in c.fills && p !in c.writers
    requires Redis.Lookup(c.cache, slug, c.clock).None?
    requires FindBySlug(c.db, slug).Some? && Redis.LinkTtl(FindBySlug(c.db, slug).value, c.clock).Some?
    ensures Path(cs, es) && cs[0] == c && Lossless(cs, es, slug)
    ensures var last := cs[|es|];
      && Redis.Lookup(last.cache, slug, last.clock) == FindBySlug(c.db, slug)
      && FindBySlug(last.db, slug).Some? && FindBySlug(last.db, slug).value.destinationUrl == dest
      && last.clock == c.clock && last.writers == c.writers && last.lost == c.lost - {slug}
  {
    var row := RowBySlug(c.db, slug).value;
    RetargetedLink(c.db, slug, dest, c.clock);
    var w := Update(row.id, Retarget(dest));
    var dbs := {c.db, Apply(c.db, w, c.clock)};
    var cs1, es1, c1 := WholeRead(c, p, slug, dbs);
    var cs2, es2, c2 := MutateAndDelete(c1, p, row.id, w, dbs);
    var cs3, es3, c3 := FillLands(c2, p, 0, dbs);
    Redis.DecodedEncoded(FindBySlug(c.db, slug).value);
    cs, es := Join(cs1, es1, c, c1, cs2, es2, c2, slug, dbs);
    cs, es := Join(cs, es, c, c2, cs3, es3, c3, slug, dbs);
  }

  /** Unconditional freshness is false: along this run every write was acknowledged and invalidated under the
      right slug and every deletion delivered, none is due, and yet Redis serves a link that the database has
      since changed. Only the last premise of CacheTransparent fails: the fill was late. */
  lemma {:induction false} UnconditionalFreshnessFails()
      returns (cs: seq<Config>, es: seq<Event>, slug: string, link: Link)
    ensures Run(cs, es)
    ensures forall j :: 0 <= j < |es| ==> !Loses(cs[j], es[j], slug)
    ensures var last := cs[|es|];
      && Redis.Lookup(last.cache, slug, last.clock) == Some(link)
      && last.writers == map[] && last.lost == map[]
      && !Agrees(last.db, slug, link) && LateFill(last, slug)
  {
    slug := "1";
    var db := InsertLink(EMPTY, "user", slug, "https://old.example", "", "", None, 0).0;
    assert Valid(db);
    RowBySlugUnique(db, 1);
    var c := Config(0, db, map[], map[], map[], map[], [Moment(0, db)], map[], map[], map[]);
    assert Initial(c);
    cs, es := LateFillRace(c, 0, slug, NEW_DESTINATION);
    link := FindBySlug(db, slug).value;
    assert link.destinationUrl != NEW_DESTINATION by {
      assert "https://old.example"[8] != NEW_DESTINATION[8];
    }
    assert forall l: Link :: SameButClicks(l, link) ==>
      l.(clickCount := 0).destinationUrl == link.(clickCount := 0).destinationUrl;
    FreshInEveryRun(cs, es, slug);
  }

  // ----- A slow fill -----

  lemma {:induction false} Waits(c: Config, d: nat, slug: string) returns (e: Config)
    requires |c.trace| > 0
    ensures Leads([c, e], [Tick(d)], c, e, slug, {c.db})
    ensures e.clock == c.clock + d && e.cache == c.cache
  {
    e := Step(c, Tick(d));
  }

  /** From any state with the link uncached and unexpired, and for every delay within the fill timeout: a fill
      whose SET takes that long leaves an entry that is still readable in the last instant before the time to
      live, counted from its computation, plus the delay has passed. */
  lemma {:induction false} SlowFill(c: Config, p: nat, slug: string, delay: nat)
      returns (cs: seq<Config>, es: seq<Event>)
    requires |c.trace| > 0 && p !in c.readers && p !in c.fills && delay <= FILL_TIMEOUT
    requires Redis.Lookup(c.cache, slug, c.clock).None?
    requires FindBySlug(c.db, slug).Some? && Redis.LinkTtl(FindBySlug(c.db, slug).value, c.clock).Some?
    ensures Path(cs, es) && cs[0] == c
    ensures var last, ttl := cs[|es|], Redis.LinkTtl(FindBySlug(c.db, slug).value, c.clock).value;
      && slug in last.cache && last.cache[slug].deadline == c.clock + ttl + delay
      && last.clock == c.clock + ttl + delay - 1
      && Redis.Lookup(last.cache, slug, last.clock) == FindBySlug(c.db, slug)
  {
    var link := FindBySlug(c.db, slug).value;
    var ttl := Redis.LinkTtl(link, c.clock).value;
    var cs1, es1, c1 := WholeRead(c, p, slug, {c.db});
    var cs2, es2, c2 := FillLands(c1, p, delay, {c.db});
    var c3 := Waits(c2, ttl - 1, slug);
    Redis.DecodedEncoded(link);
    cs, es := Join(cs1, es1, c, c1, cs2, es2, c2, slug, {c.db});
    cs, es := Join(cs, es, c, c2, [c2, c3], [Tick(ttl - 1)], c3, slug, {c.db});
  }

  /** Every excess the timeout permits occurs: for each delay there is a run from an empty cache at whose end
      the clock stands ten seconds and the delay, less an instant, past the expiry of a link that Redis still
      serves. */
  lemma {:induction false} ExpiryOutlived(delay: nat)
      returns (cs: seq<Config>, es: seq<Event>, slug: string, link: Link)
    requires delay <= FILL_TIMEOUT
    ensures Run(cs, es)
    ensures var last := cs[|es|];
      && Redis.Lookup(last.cache, slug, last.clock) == Some(link) && link.expiredAt == Some(100 * SECOND)
      && last.clock == 100 * SECOND + Redis.EXPIRY_BUFFER + delay - 1
      && last.cache[slug].deadline - 100 * SECOND == Redis.EXPIRY_BUFFER + delay
  {
    slug := "1";
    var db := InsertLink(EMPTY, "user", slug, "https://example.com", "", "", Some(100 * SECOND), 0).0;
    assert Valid(db);
    RowBySlugUnique(db, 1);
    var c := Config(0, db, map[], map[], map[], map[], [Moment(0, db)], map[], map[], map[]);
    assert Initial(c);
    link := FindBySlug(db, slug).value;
    cs, es := SlowFill(c, 0, slug, delay);
  }

  // ----- A torn read -----

  lemma {:induction false} VariantAppears(tests: seq<ABTest>, t: ABTest)
    requires !HasABTest(tests, t.id)
    ensures SortBy(Filter(tests + [t], OfLink(t.linkId)), TestCreated())
         != SortBy(Filter(tests, OfLink(t.linkId)), TestCreated())
  {
    FilterSnoc(tests, t, OfLink(t.linkId));
    SortByExact(Filter(tests, OfLink(t.linkId)), TestCreated());
    SortByExact(Filter(tests + [t], OfLink(t.linkId)), TestCreated());
    assert |multiset(Filter(tests + [t], OfLink(t.linkId)))| != |multiset(Filter(tests, OfLink(t.linkId)))|;
  }

  lemma {:induction false} InsertKeepsRow(db: Db, t: ABTest, slug: string)
    requires LinksValid(db) && RowBySlug(db, slug).Some?
    ensures RowBySlug(InsertABTest(db, t).0, slug) == RowBySlug(db, slug)
  {
    RowBySlugStored(db, slug);
    RowBySlugUnique(InsertABTest(db, t).0, RowBySlug(db, slug).value.id);
  }

  lemma {:induction false} Differ(db: Db, slug: string, link: Link)
    requires RowBySlug(db, slug).Some?
    requires var row := RowBySlug(db, slug).value;
      row.destinationUrl != link.destinationUrl || VariantsOf(db, row.id) != link.abTests
    ensures !Agrees(db, slug, link)
  {
    var found := FindBySlug(db, slug).value;
    assert SameButClicks(found, link) ==>
      found.(clickCount := 0).destinationUrl == link.(clickCount := 0).destinationUrl
      && found.(clickCount := 0).abTests == link.(clickCount := 0).abTests;
  }

  function Retargeted(db: Db, id: int, dest: string, now: Time): Db {
    Apply(db, Update(id, Retarget(dest)), now)
  }

  function Extended(db: Db, dest: string, t: ABTest, now: Time): Db {
    Apply(Retargeted(db, t.linkId, dest, now), AddABTest(t), now)
  }

  /** The states before, between and after a retargeting of t's link and the insertion of t. */
  function ThreeStates(db: Db, dest: string, t: ABTest, now: Time): set<Db> {
    {db, Retargeted(db, t.linkId, dest, now), Extended(db, dest, t, now)}
  }

  /** The row before both writes with the children after them. */
  function Mixed(db: Db, row: LinkRow, dest: string, t: ABTest, now: Time): Link {
    var after := Extended(db, dest, t, now);
    LinkOf(row, VariantsOf(after, t.linkId), RulesOf(after, t.linkId))
  }

  lemma {:induction false} RetargetedDiffers(db: Db, slug: string, dest: string, t: ABTest, now: Time, link: Link)
    requires LinksValid(db) && RowBySlug(db, slug).Some? && RowBySlug(db, slug).value.id == t.linkId
    requires link.destinationUrl != dest
    ensures !Agrees(Retargeted(db, t.linkId, dest, now), slug, link)
  {
    RetargetedLink(db, slug, dest, now);
    Differ(Retargeted(db, t.linkId, dest, now), slug, link);
  }

  lemma {:induction false} ExtendedDiffers(db: Db, slug: string, dest: string, t: ABTest, now: Time, link: Link)
    requires LinksValid(db) && RowBySlug(db, slug).Some? && RowBySlug(db, slug).value.id == t.linkId
    requires link.destinationUrl != dest
    ensures !Agrees(Extended(db, dest, t, now), slug, link)
  {
    RetargetedLink(db, slug, dest, now);
    InsertKeepsRow(Retargeted(db, t.linkId, dest, now), t, slug);
    Differ(Extended(db, dest, t, now), slug, link);
  }

  lemma {:induction false} VariantIsNew(db: Db, dest: string, t: ABTest, now: Time)
    requires t.linkId in db.links && !HasABTest(db.abTests, t.id) && 0 < t.weight <= 100
    ensures VariantsOf(Extended(db, dest, t, now), t.linkId) != VariantsOf(db, t.linkId)
  {
    VariantAppears(db.abTests, t);
    assert Extended(db, dest, t, now).abTests == db.abTests + [t];
  }

  /** The mixed link is the link of none of the three states. */
  lemma {:induction false} NeverHeld(db: Db, slug: string, row: LinkRow, dest: string, t: ABTest, now: Time)
    requires LinksValid(db) && RowBySlug(db, slug) == Some(row) && row.destinationUrl != dest
    requires t.linkId == row.id && !HasABTest(db.abTests, t.id) && 0 < t.weight <= 100
    ensures var link := Mixed(db, row, dest, t, now);
      && !Agrees(db, slug, link)
      && !Agrees(Retargeted(db, t.linkId, dest, now), slug, link)
      && !Agrees(Extended(db, dest, t, now), slug, link)
  {
    var link := Mixed(db, row, dest, t, now);
    RowBySlugStored(db, slug);
    VariantIsNew(db, dest, t, now);
    Differ(db, slug, link);
    RetargetedDiffers(db, slug, dest, t, now, link);
    ExtendedDiffers(db, slug, dest, t, now, link);
  }

  /** The row is read before both mutations, variants and rules after them. */
  lemma {:induction false} MixedReadPath(c: Config, p: nat, q: nat, slug: string, row: LinkRow, dest: string, t: ABTest)
      returns (cs: seq<Config>, es: seq<Event>, d: Config)
    requires |c.trace| > 0 && row.id in c.db.links && row.slug == c.db.links[row.id].slug == slug
    requires p !in c.readers && p !in c.fills && p !in c.writers && q !in c.writers && p != q
    requires Redis.Lookup(c.cache, slug, c.clock).None? && RowBySlug(c.db, slug) == Some(row)
    requires t.linkId == row.id && !HasABTest(c.db.abTests, t.id) && 0 < t.weight <= 100
    ensures Leads(cs, es, c, d, slug, ThreeStates(c.db, dest, t, c.clock))
    ensures p in d.fills && d.fills[p].link == Mixed(c.db, row, dest, t, c.clock)
  {
    var dbs := ThreeStates(c.db, dest, t, c.clock);
    var cs1, es1, c1 := RowRead(c, p, slug, dbs);
    var cs2, es2, c2 := Commits(c1, p, row.id, Update(row.id, Retarget(dest)), dbs);
    var cs3, es3, c3 := Commits(c2, q, row.id, AddABTest(t), dbs);
    var cs4, es4, c4 := ChildrenRead(c3, p, row, |c.trace|, slug, dbs);
    cs, es := Join(cs1, es1, c, c1, cs2, es2, c2, slug, dbs);
    cs, es := Join(cs, es, c, c2, cs3, es3, c3, slug, dbs);
    cs, es := Join(cs, es, c, c3, cs4, es4, c4, slug, dbs);
    d := c4;
  }

  /** FindBySlug is no snapshot: with a retargeting and a new variant between its queries it returns the old
      destination together with the new variant, a link that no state of the database ever held. */
  lemma {:induction false} MixedReadRace(c: Config, p: nat, q: nat, slug: string, dest: string, t: ABTest)
      returns (cs: seq<Config>, es: seq<Event>, link: Link)
    requires |c.trace| > 0 && LinksValid(c.db) && p !in c.readers && p !in c.fills
    requires p !in c.writers && q !in c.writers && p != q && Redis.Lookup(c.cache, slug, c.clock).None?
    requires RowBySlug(c.db, slug).Some? && RowBySlug(c.db, slug).value.destinationUrl != dest
    requires t.linkId == RowBySlug(c.db, slug).value.id && !HasABTest(c.db.abTests, t.id) && 0 < t.weight <= 100
    ensures Path(cs, es) && cs[0] == c
    ensures p in cs[|es|].fills && cs[|es|].fills[p].link == link
    ensures forall i :: 0 <= i < |cs| ==> !Agrees(cs[i].db, slug, link)
  {
    var row := RowBySlug(c.db, slug).value;
    RowBySlugStored(c.db, slug);
    link := Mixed(c.db, row, dest, t, c.clock);
    NeverHeld(c.db, slug, row, dest, t, c.clock);
    var last;
    cs, es, last := MixedReadPath(c, p, q, slug, row, dest, t);
  }
}
