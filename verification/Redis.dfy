/** The Redis repository: cached links with a time to live, and rate-limit counters.
    A key set at time t with time to live d is readable at the times before t + d. */
module Redis {
  import opened Common
  import opened Domain

  /** 24 hours. */
  const DEFAULT_LINK_TTL: int := 86_400_000_000_000

  /** 10 seconds. */
  const EXPIRY_BUFFER: int := 10_000_000_000

  // ----- The cached form of a link -----

  datatype CachedABTest = CachedABTest(
    id: string, linkId: int, destinationUrl: string, weight: int, variantLabel: string, createdAt: Time)

  datatype CachedGeoRule = CachedGeoRule(
    id: string, linkId: int, countryCode: string, destinationUrl: string, priority: int, createdAt: Time)

  datatype CachedLink = CachedLink(
    id: int,
    userId: string,
    slug: string,
    destinationUrl: string,
    title: string,
    passwordHash: string,
    isActive: bool,
    clickCount: int,
    expiredAt: Option<Time>,
    createdAt: Time,
    updatedAt: Time,
    abTests: seq<CachedABTest>,
    geoRules: seq<CachedGeoRule>)

  function CacheTest(t: ABTest): CachedABTest {
    CachedABTest(t.id, t.linkId, t.destinationUrl, t.weight, t.variantLabel, t.createdAt)
  }

  function CacheRule(r: GeoRule): CachedGeoRule {
    CachedGeoRule(r.id, r.linkId, r.countryCode, r.destinationUrl, r.priority, r.createdAt)
  }

  function UncacheTest(c: CachedABTest): ABTest {
    ABTest(c.id, c.linkId, c.destinationUrl, c.weight, c.variantLabel, c.createdAt)
  }

  function UncacheRule(c: CachedGeoRule): GeoRule {
    GeoRule(c.id, c.linkId, c.countryCode, c.destinationUrl, c.priority, c.createdAt)
  }

  function Encoded(l: Link): CachedLink {
    CachedLink(l.id, l.userId, l.slug, l.destinationUrl, l.title, l.passwordHash, l.isActive, l.clickCount,
               l.expiredAt, l.createdAt, l.updatedAt,
               seq(|l.abTests|, i requires 0 <= i < |l.abTests| => CacheTest(l.abTests[i])),
               seq(|l.geoRules|, i requires 0 <= i < |l.geoRules| => CacheRule(l.geoRules[i])))
  }

  function Decoded(c: CachedLink): Link {
    Link(c.id, c.userId, c.slug, c.destinationUrl, c.title, c.passwordHash, c.isActive, c.clickCount,
         c.expiredAt, c.createdAt, c.updatedAt,
         seq(|c.abTests|, i requires 0 <= i < |c.abTests| => UncacheTest(c.abTests[i])),
         seq(|c.geoRules|, i requires 0 <= i < |c.geoRules| => UncacheRule(c.geoRules[i])))
  }

  /** Caching loses nothing: a hit returns the very link that was stored. */
  lemma {:induction false} DecodedEncoded(l: Link)
    ensures Decoded(Encoded(l)) == l
  {
    var r := Decoded(Encoded(l));
    assert r.abTests == l.abTests;
    assert r.geoRules == l.geoRules;
  }

  method FromDomainLink(l: Link) returns (c: CachedLink)
    ensures c == Encoded(l)
  {
    c := CachedLink(l.id, l.userId, l.slug, l.destinationUrl, l.title, l.passwordHash, l.isActive, l.clickCount,
                    l.expiredAt, l.createdAt, l.updatedAt, [], []);
    for i := 0 to |l.abTests|
      invariant c == Encoded(l).(abTests := Encoded(l).abTests[..i], geoRules := [])
    {
      var ab := l.abTests[i];
      c := c.(abTests := c.abTests + [CachedABTest(ab.id, ab.linkId, ab.destinationUrl, ab.weight,
                                                   ab.variantLabel, ab.createdAt)]);
    }
    for i := 0 to |l.geoRules|
      invariant c == Encoded(l).(geoRules := Encoded(l).geoRules[..i])
    {
      var gr := l.geoRules[i];
      c := c.(geoRules := c.geoRules + [CachedGeoRule(gr.id, gr.linkId, gr.countryCode, gr.destinationUrl,
                                                      gr.priority, gr.createdAt)]);
    }
  }

  method ToDomainLink(c: CachedLink) returns (l: Link)
    ensures l == Decoded(c)
  {
    l := Link(c.id, c.userId, c.slug, c.destinationUrl, c.title, c.passwordHash, c.isActive, c.clickCount,
              c.expiredAt, c.createdAt, c.updatedAt, [], []);
    for i := 0 to |c.abTests|
      invariant l == Decoded(c).(abTests := Decoded(c).abTests[..i], geoRules := [])
    {
      var ab := c.abTests[i];
      l := l.(abTests := l.abTests + [ABTest(ab.id, ab.linkId, ab.destinationUrl, ab.weight,
                                             ab.variantLabel, ab.createdAt)]);
    }
    for i := 0 to |c.geoRules|
      invariant l == Decoded(c).(geoRules := Decoded(c).geoRules[..i])
    {
      var gr := c.geoRules[i];
      l := l.(geoRules := l.geoRules + [GeoRule(gr.id, gr.linkId, gr.countryCode, gr.destinationUrl,
                                                gr.priority, gr.createdAt)]);
    }
  }

  // ----- The link cache as a value -----

  datatype Entry = Entry(data: CachedLink, deadline: Time)

  type LinkCache = map<string, Entry>

  function Lookup(cache: LinkCache, slug: string, now: Time): Option<Link> {
    if slug in cache && now < cache[slug].deadline then Some(Decoded(cache[slug].data)) else None
  }

  /** The time to live SetLink computes; None when the link has expired and is not cached. */
  function LinkTtl(link: Link, now: Time): (ttl: Option<int>)
    ensures ttl.Some? ==> ttl.value > 0
  {
    if link.expiredAt.None? then Some(DEFAULT_LINK_TTL)
    else if link.expiredAt.value - now <= 0 then None
    else Some(link.expiredAt.value - now + EXPIRY_BUFFER)
  }

  function Stored(cache: LinkCache, link: Link, ttl: int, now: Time): LinkCache {
    cache[link.slug := Entry(Encoded(link), now + ttl)]
  }

  /** How long a link stays cached, in nanoseconds: without an expiry for 24 hours; with one until ten seconds
      after it, counted from the computation of the time to live; an expired link is not cached at all. Other
      keys are not touched. */
  lemma {:induction false} CachedFor(cache: LinkCache, link: Link, computedAt: Time, at: Time, u: Time)
    ensures link.expiredAt.None? ==>
      && LinkTtl(link, computedAt).Some?
      && Lookup(Stored(cache, link, LinkTtl(link, computedAt).value, at), link.slug, u) ==
           if u < at + 86_400_000_000_000 then Some(link) else None
    ensures link.expiredAt.Some? ==> (LinkTtl(link, computedAt).None? <==> link.expiredAt.value <= computedAt)
    ensures link.expiredAt.Some? && computedAt < link.expiredAt.value ==>
      Lookup(Stored(cache, link, LinkTtl(link, computedAt).value, at), link.slug, u) ==
        if u < at + (link.expiredAt.value - computedAt) + 10_000_000_000 then Some(link) else None
    ensures LinkTtl(link, computedAt).Some? ==>
      forall slug :: slug != link.slug ==>
        Lookup(Stored(cache, link, LinkTtl(link, computedAt).value, at), slug, u) == Lookup(cache, slug, u)
  {
    DecodedEncoded(link);
  }

  // ----- Rate-limit counters as a value -----

  datatype Counter = Counter(count: nat, deadline: Time)

  type Counters = map<string, Counter>

  /** INCR of a key at a time: a missing or lapsed key counts from zero. */
  function NextCount(counters: Counters, key: string, now: Time): nat {
    1 + if key in counters && now < counters[key].deadline then counters[key].count else 0
  }

  /** INCR followed by EXPIRE, which restarts the time to live on every call. */
  function Bumped(counters: Counters, key: string, windowSecs: int, now: Time): Counters {
    counters[key := Counter(NextCount(counters, key, now), now + windowSecs * SECOND)]
  }

  // ----- The repository -----

  class CacheRepository {
    var links: LinkCache
    var counters: Counters

    constructor ()
      ensures links == map[] && counters == map[]
    {
      links, counters := map[], map[];
    }

    /** GET; a miss is not an error. */
    method GetLink(slug: string, now: Time) returns (r: Option<Link>)
      ensures r == Lookup(links, slug, now)
    {
      if slug !in links || now >= links[slug].deadline {
        return None;
      }
      var l := ToDomainLink(links[slug].data);
      return Some(l);
    }

    /** SETEX. The time to live is computed at one moment and the command executes at a later one. */
    method SetLink(link: Link, computedAt: Time, now: Time)
      modifies this`links
      ensures links == match LinkTtl(link, computedAt)
                       case None => old(links)
                       case Some(ttl) => Stored(old(links), link, ttl, now)
    {
      var cached := FromDomainLink(link);
      var ttl := DEFAULT_LINK_TTL;
      if link.expiredAt.Some? {
        var remaining := link.expiredAt.value - computedAt;
        if remaining <= 0 {
          return;
        }
        ttl := remaining + EXPIRY_BUFFER;
      }
      links := links[link.slug := Entry(cached, now + ttl)];
    }

    method DeleteLink(slug: string)
      modifies this`links
      ensures links == old(links) - {slug}
    {
      links := links - {slug};
    }

    /** Returns the count after this call and whether it exceeds the limit. */
    method IncrRateLimit(key: string, windowSecs: int, limit: int, now: Time) returns (count: nat, exceeded: bool)
      modifies this`counters
      ensures count == NextCount(old(counters), key, now)
      ensures exceeded <==> count > limit
      ensures counters == Bumped(old(counters), key, windowSecs, now)
    {
      count := 1;
      if key in counters && now < counters[key].deadline {
        count := counters[key].count + 1;
      }
      counters := counters[key := Counter(count, now + windowSecs * SECOND)];
      exceeded := count > limit;
    }
  }
}
