/** The usecases as single calls over the repositories: the order of their checks, statements and cache
    commands. URL validation, password hashing and fresh identifiers are parameters; delivered says whether
    Redis executed the deletion. */
module Usecases {
  import opened Common
  import opened Domain
  import opened Store
  import opened Decision
  import opened Sequences
  import Base62
  import CacheTheorems
  import Clicks
  import Coherence
  import Slugs
  import Postgres
  import Redis
  import Referrer
  import Rows
  import Selection
  import Weights
  import Worker

  lemma {:induction false} TakenBefore(before: Db, after: Db, id: int, slug: string)
    requires id !in before.links && id in after.links && after.links == before.links[id := after.links[id]]
    ensures SlugTaken(before, slug) <==>
      exists other :: other in after.links && other != id && after.links[other].slug == slug
  {
    assert forall other :: other in before.links ==> other in after.links && after.links[other] == before.links[other];
  }

  class LinkUsecase {
    const db: Postgres.Database
    const cache: Redis.CacheRepository
    const isUrl: string -> bool
    const hash: string -> string
    const toUpper: string -> string

    constructor (db: Postgres.Database, cache: Redis.CacheRepository, isUrl: string -> bool, hash: string -> string,
                 toUpper: string -> string)
      ensures this.db == db && this.cache == cache
      ensures this.isUrl == isUrl && this.hash == hash && this.toUpper == toUpper
    {
      this.db, this.cache, this.isUrl, this.hash, this.toUpper := db, cache, isUrl, hash, toUpper;
    }

    /** What an operation on a link may know of it: the slug, if the link exists and is the caller's. */
    function Access(id: int, userId: string): Result<string, Error>
      reads db
    {
      if id !in db.links then Err(LinkNotFound)
      else if db.links[id].userId != userId then Err(Forbidden)
      else Ok(db.links[id].slug)
    }

    method Authorize(id: int, userId: string) returns (r: Result<string, Error>)
      requires LinksValid(db.Model())
      ensures r == Access(id, userId)
    {
      var existing := db.FindById(id);
      if existing.Err? {
        return Err(existing.error);
      }
      if existing.value.userId != userId {
        return Err(Forbidden);
      }
      return Ok(existing.value.slug);
    }

    method Invalidate(slug: string, delivered: bool)
      modifies cache
      ensures cache.counters == old(cache.counters)
      ensures cache.links == if delivered then old(cache.links) - {slug} else old(cache.links)
    {
      if delivered {
        cache.DeleteLink(slug);
      }
    }

    /** The password column of a new link: NULL without a password, else its hash. */
    function HashOf(password: string): Option<string> {
      if password == "" || hash(password) == "" then None else Some(hash(password))
    }

    function FieldsOf(userId: string, dest: string, title: string, password: string,
                      expiredAt: Option<Time>): Slugs.Fields
    {
      Slugs.Fields(userId, dest, title, if password == "" then "" else hash(password), expiredAt)
    }

    /** Custom slugs are checked, then inserted; automatic ones are inserted under a temporary slug and then
        renamed to the numeral of the id the insert returned. */
    method Create(userId: string, dest: string, title: string, password: string, customSlug: string,
                  expiredAt: Option<Time>, nanos: nat, now: Time) returns (r: Result<int, Error>)
      requires Store.Valid(db.Model()) && 0 < db.nextId <= Base62.MAX_INT64
      modifies db
      ensures Store.Valid(db.Model())
      ensures r == if !isUrl(dest) then Err(InvalidUrl)
                   else if customSlug != "" && !Slugs.CustomSlug(customSlug) then Err(InvalidSlug)
                   else if customSlug != "" then
                     if exists id :: id in old(db.links) && old(db.links)[id].slug == customSlug then
                       Err(SlugAlreadyExists)
                     else Ok(old(db.nextId))
                   else if SlugTaken(old(db.Model()), Slugs.TemporarySlug(nanos))
                           || SlugTaken(old(db.Model()), Base62.EncodeSpec(old(db.nextId))) then Err(SlugAlreadyExists)
                   else Ok(old(db.nextId))
      ensures r == Err(InvalidUrl) || r == Err(InvalidSlug) ==> db.Model() == old(db.Model())
      ensures isUrl(dest) && customSlug == "" && r.Err? && !SlugTaken(old(db.Model()), Slugs.TemporarySlug(nanos)) ==>
        old(db.nextId) in db.links && db.links[old(db.nextId)].slug == Slugs.TemporarySlug(nanos)
      ensures customSlug != "" && r == Err(SlugAlreadyExists) ==> db.Model() == old(db.Model())
      ensures r.Ok? ==>
        && r.value == old(db.nextId) && r.value in db.links
        && db.links == old(db.links)[r.value := db.links[r.value]]
        && db.links[r.value] ==
             LinkRow(r.value, userId, if customSlug == "" then Base62.EncodeSpec(r.value) else customSlug,
                     dest, title, HashOf(password), true, 0, expiredAt, now, now)
        && Base62.DecodeSpec(Base62.EncodeSpec(r.value)) == Ok(r.value)
      ensures isUrl(dest) && (customSlug == "" || r.Ok?) ==>
        db.Model() ==
          Allocated(old(db.Model()), customSlug, nanos, FieldsOf(userId, dest, title, password, expiredAt), now)
    {
      if !isUrl(dest) {
        return Err(InvalidUrl);
      }
      var passwordHash := "";
      if password != "" {
        passwordHash := hash(password);
      }
      var slug := customSlug;
      if customSlug != "" {
        if !Slugs.CustomSlug(customSlug) {
          return Err(InvalidSlug);
        }
        var taken := db.SlugExists(customSlug);
        if taken {
          return Err(SlugAlreadyExists);
        }
      } else {
        slug := Slugs.TemporarySlug(nanos);
      }
      ghost var before := db.Model();
      AllocatedExact(before, customSlug, nanos, FieldsOf(userId, dest, title, password, expiredAt), now);
      ApplyKeepsValid(before, Store.Create(userId, slug, dest, title, passwordHash, expiredAt), now);
      r := db.Create(userId, slug, dest, title, passwordHash, expiredAt, now);
      if r.Err? {
        return;
      }
      Base62.DecodeEncode(r.value);
      if customSlug == "" {
        var renamed := ReplaceTemporarySlug(r.value, before, now);
        if renamed.Err? {
          return Err(renamed.error);
        }
      }
    }

    /** The renaming fails exactly when another link already has the numeral as its slug. */
    method ReplaceTemporarySlug(id: int, ghost before: Db, now: Time) returns (r: Result<(), Error>)
      requires Store.Valid(db.Model()) && 0 < id <= Base62.MAX_INT64
      requires id !in before.links && id in db.links && db.links == before.links[id := db.links[id]]
      modifies db
      ensures Store.Valid(db.Model())
      ensures db.Model() == Store.UpdateSlug(old(db.Model()), id, Base62.EncodeSpec(id), now).0
      ensures r.Ok? <==> !SlugTaken(before, Base62.EncodeSpec(id))
      ensures r.Err? ==> r.error == SlugAlreadyExists && db.Model() == old(db.Model())
      ensures r.Ok? ==> db.links == before.links[id :=
        old(db.links)[id].(slug := Base62.EncodeSpec(id), updatedAt := now)]
    {
      var generated := Base62.Encode(id as Base62.int64);
      TakenBefore(before, db.Model(), id, generated);
      ApplyKeepsValid(db.Model(), SetSlug(id, generated), now);
      r := db.UpdateSlug(id, generated, now);
    }

    /** Refused in this order: unknown link, foreign link, malformed destination. */
    method Update(id: int, userId: string, input: Patch, now: Time, delivered: bool) returns (r: Result<LinkRow, Error>)
      requires LinksValid(db.Model())
      modifies db, cache
      ensures r == match old(Access(id, userId))
                   case Err(e) => Err(e)
                   case Ok(_) =>
                     if input.destinationUrl.Some? && !isUrl(input.destinationUrl.value) then Err(InvalidUrl)
                     else UpdateLink(old(db.Model()), id, Hashed(input), now).1
      ensures id !in old(db.links) ==> r == Err(LinkNotFound)
      ensures id in old(db.links) && old(db.links)[id].userId != userId ==> r == Err(Forbidden)
      ensures r.Err? ==> db.Model() == old(db.Model()) && cache.links == old(cache.links)
      ensures r.Ok? ==>
        && id in old(db.links)
        && (db.Model(), cache.links) ==
             Solo(old(db.Model()), old(cache.links), now, id, Store.Write.Update(id, Hashed(input)), delivered)
      ensures r.Ok? ==>
        && old(db.links)[id].userId == userId && id in db.links && db.links[id] == r.value
        && (input.destinationUrl.Some? ==> isUrl(input.destinationUrl.value))
        && r.value.destinationUrl == Coalesce(input.destinationUrl, old(db.links)[id].destinationUrl)
        && (input.password.None? ==> r.value.passwordHash == old(db.links)[id].passwordHash)
        && (input.password == Some("") ==> r.value.passwordHash == Some(""))
        && (input.password.Some? && input.password.value != "" ==>
              r.value.passwordHash == Some(hash(input.password.value)))
    {
      var slug := Authorize(id, userId);
      if slug.Err? {
        return Err(slug.error);
      }
      if input.destinationUrl.Some? && !isUrl(input.destinationUrl.value) {
        return Err(InvalidUrl);
      }
      var patch := input;
      if input.password.Some? && input.password.value != "" {
        patch := input.(password := Some(hash(input.password.value)));
      }
      SoloExact(db.Model(), cache.links, now, id, Store.Write.Update(id, patch), delivered);
      Rows.UpdateExact(db.Model(), id, patch, now);
      r := db.Update(id, patch, now);
      if r.Ok? {
        Invalidate(slug.value, delivered);
      }
    }

    /** A new password is hashed; the empty one, which removes the protection, is stored as it is. */
    function Hashed(p: Patch): Patch {
      if p.password.Some? && p.password.value != "" then p.(password := Some(hash(p.password.value))) else p
    }

    method Delete(id: int, userId: string, now: Time, delivered: bool) returns (r: Result<(), Error>)
      requires LinksValid(db.Model())
      modifies db, cache
      ensures r == match old(Access(id, userId)) case Err(e) => Err(e) case Ok(_) => Ok(())
      ensures id !in old(db.links) ==> r == Err(LinkNotFound)
      ensures id in old(db.links) && old(db.links)[id].userId != userId ==> r == Err(Forbidden)
      ensures r.Err? ==> db.Model() == old(db.Model()) && cache.links == old(cache.links)
      ensures r.Ok? ==>
        && id in old(db.links)
        && (db.Model(), cache.links) == Solo(old(db.Model()), old(cache.links), now, id, SoftDelete(id), delivered)
      ensures r.Ok? ==> old(db.links)[id].userId == userId && id in db.links && !db.links[id].isActive
    {
      var slug := Authorize(id, userId);
      if slug.Err? {
        return Err(slug.error);
      }
      SoloExact(db.Model(), cache.links, now, id, SoftDelete(id), delivered);
      r := db.Delete(id, now);
      if r.Ok? {
        Invalidate(slug.value, delivered);
      }
    }

    /** Refused in this order: unknown or foreign link, malformed destination, weight out of range or sum. An
        accepted call by itself is a Check followed by an InsertChecked of the weight protocol. */
    method CreateABTest(test: ABTest, userId: string, now: Time, delivered: bool) returns (r: Result<(), Error>)
      requires Store.Valid(db.Model()) && !HasABTest(db.abTests, test.id)
      modifies db, cache
      ensures r == match old(Access(test.linkId, userId))
                   case Err(e) => Err(e)
                   case Ok(_) =>
                     if !isUrl(test.destinationUrl) then Err(InvalidUrl)
                     else if !Weights.PassesCheck(old(db.Model()), test.linkId, test.weight) then Err(InvalidABWeight)
                     else Ok(())
      ensures test.linkId !in old(db.links) ==> r == Err(LinkNotFound)
      ensures test.linkId in old(db.links) && old(db.links)[test.linkId].userId != userId ==> r == Err(Forbidden)
      ensures test.linkId in old(db.links) && old(db.links)[test.linkId].userId == userId ==>
        isUrl(test.destinationUrl) ==>
        && (r.Ok? <==> 1 <= test.weight <= 100
                       && Selection.Total(old(VariantsOf(db.Model(), test.linkId))) + test.weight <= 100)
        && (r.Err? ==> r == Err(InvalidABWeight))
      ensures r.Ok? ==> old(db.links)[test.linkId].userId == userId && db.abTests == old(db.abTests) + [test]
      ensures r.Err? ==> db.Model() == old(db.Model()) && cache.links == old(cache.links)
      ensures r.Ok? ==>
        && test.linkId in old(db.links)
        && (db.Model(), cache.links) ==
             Solo(old(db.Model()), old(cache.links), now, test.linkId, AddABTest(test), delivered)
        && SumWeights(db.abTests, test.linkId) <= Weights.WEIGHT_LIMIT
      ensures r.Ok? ==>
        var checked := Weights.Step(Weights.State(old(db.Model()), []), Weights.Check(test.linkId, test.weight));
        Weights.Step(checked, Weights.InsertChecked(0, test)) == Weights.State(db.Model(), [])
    {
      var slug := Authorize(test.linkId, userId);
      if slug.Err? {
        return Err(slug.error);
      }
      if !isUrl(test.destinationUrl) {
        return Err(InvalidUrl);
      }
      if test.weight <= 0 || test.weight > 100 {
        return Err(InvalidABWeight);
      }
      var currentSum := db.SumWeightsByLink(test.linkId);
      Rows.SumIsTotal(db.Model(), test.linkId);
      if currentSum + test.weight > 100 {
        return Err(InvalidABWeight);
      }
      SoloExact(db.Model(), cache.links, now, test.linkId, AddABTest(test), delivered);
      r := db.CreateABTest(test);
      if r.Ok? {
        assert db.abTests[..|old(db.abTests)|] == old(db.abTests);
        Invalidate(slug.value, delivered);
      }
    }

    /** The variant is deleted by its own id, whichever link it belongs to; the key deleted is that of the
        link named in the call. */
    method DeleteABTest(linkId: int, variantId: string, userId: string, now: Time, delivered: bool)
        returns (r: Result<(), Error>)
      requires LinksValid(db.Model())
      modifies db, cache
      ensures r == match old(Access(linkId, userId))
                   case Err(e) => Err(e)
                   case Ok(_) =>
                     match db.uuid(variantId)
                     case None => Err(Storage)
                     case Some(key) => if HasABTest(old(db.abTests), key) then Ok(()) else Err(ABTestNotFound)
      ensures linkId !in old(db.links) ==> r == Err(LinkNotFound)
      ensures linkId in old(db.links) && old(db.links)[linkId].userId != userId ==> r == Err(Forbidden)
      ensures r.Err? ==> db.Model() == old(db.Model()) && cache.links == old(cache.links)
      ensures r.Ok? ==>
        && linkId in old(db.links) && db.uuid(variantId).Some?
        && (db.Model(), cache.links) ==
             Solo(old(db.Model()), old(cache.links), now, linkId, RemoveABTest(db.uuid(variantId).value), delivered)
      ensures r.Ok? ==>
        && old(db.links)[linkId].userId == userId
        && forall t :: t in db.abTests <==> t in old(db.abTests) && Some(t.id) != db.uuid(variantId)
    {
      var slug := Authorize(linkId, userId);
      if slug.Err? {
        return Err(slug.error);
      }
      var key := db.uuid(variantId);
      if key.Some? && HasABTest(db.abTests, key.value) {
        Rows.DropVariantExact(db.Model(), key.value);
        SoloExact(db.Model(), cache.links, now, linkId, RemoveABTest(key.value), delivered);
      }
      r := db.DeleteABTest(variantId);
      if r.Ok? {
        Invalidate(slug.value, delivered);
      }
    }

    /** Refused in this order: unknown or foreign link, a code that is not two bytes, malformed destination,
        taken country. */
    method CreateGeoRule(rule: GeoRule, userId: string, now: Time, delivered: bool) returns (r: Result<(), Error>)
      requires Store.Valid(db.Model()) && !HasGeoRule(db.geoRules, rule.id)
      modifies db, cache
      ensures r == match old(Access(rule.linkId, userId))
                   case Err(e) => Err(e)
                   case Ok(_) =>
                     if ByteLength(toUpper(rule.countryCode)) != 2 then Err(InvalidInput)
                     else if !isUrl(rule.destinationUrl) then Err(InvalidUrl)
                     else if CountryTaken(old(db.geoRules), rule.linkId, toUpper(rule.countryCode)) then
                       Err(GeoRuleDuplicate)
                     else Ok(())
      ensures rule.linkId !in old(db.links) ==> r == Err(LinkNotFound)
      ensures rule.linkId in old(db.links) && old(db.links)[rule.linkId].userId != userId ==> r == Err(Forbidden)
      ensures r == Err(GeoRuleDuplicate) ==>
        exists g :: g in old(db.geoRules) && g.linkId == rule.linkId && g.countryCode == toUpper(rule.countryCode)
      ensures r.Ok? ==>
        && old(db.links)[rule.linkId].userId == userId
        && (forall g :: g in old(db.geoRules) && g.linkId == rule.linkId ==> g.countryCode != toUpper(rule.countryCode))
        && db.geoRules == old(db.geoRules) + [rule.(countryCode := toUpper(rule.countryCode))]
      ensures r.Err? ==> db.Model() == old(db.Model()) && cache.links == old(cache.links)
      ensures r.Ok? ==>
        && rule.linkId in old(db.links)
        && (db.Model(), cache.links) == Solo(old(db.Model()), old(cache.links), now, rule.linkId,
             AddGeoRule(rule.(countryCode := toUpper(rule.countryCode))), delivered)
    {
      var slug := Authorize(rule.linkId, userId);
      if slug.Err? {
        return Err(slug.error);
      }
      var cc := toUpper(rule.countryCode);
      if ByteLength(cc) != 2 {
        return Err(InvalidInput);
      }
      if !isUrl(rule.destinationUrl) {
        return Err(InvalidUrl);
      }
      var stored := rule.(countryCode := cc);
      if !CountryTaken(db.geoRules, rule.linkId, cc) {
        SoloExact(db.Model(), cache.links, now, rule.linkId, AddGeoRule(stored), delivered);
      }
      r := db.CreateGeoRule(stored);
      if r.Ok? {
        Invalidate(slug.value, delivered);
      }
    }

    /** As for variants: deleted by the rule's own id. */
    method DeleteGeoRule(linkId: int, ruleId: string, userId: string, now: Time, delivered: bool)
        returns (r: Result<(), Error>)
      requires LinksValid(db.Model())
      modifies db, cache
      ensures r == match old(Access(linkId, userId))
                   case Err(e) => Err(e)
                   case Ok(_) =>
                     match db.uuid(ruleId)
                     case None => Err(Storage)
                     case Some(key) => if HasGeoRule(old(db.geoRules), key) then Ok(()) else Err(GeoRuleNotFound)
      ensures linkId !in old(db.links) ==> r == Err(LinkNotFound)
      ensures linkId in old(db.links) && old(db.links)[linkId].userId != userId ==> r == Err(Forbidden)
      ensures r.Err? ==> db.Model() == old(db.Model()) && cache.links == old(cache.links)
      ensures r.Ok? ==>
        && linkId in old(db.links) && db.uuid(ruleId).Some?
        && (db.Model(), cache.links) ==
             Solo(old(db.Model()), old(cache.links), now, linkId, RemoveGeoRule(db.uuid(ruleId).value), delivered)
      ensures r.Ok? ==>
        && old(db.links)[linkId].userId == userId
        && forall g :: g in db.geoRules <==> g in old(db.geoRules) && Some(g.id) != db.uuid(ruleId)
    {
      var slug := Authorize(linkId, userId);
      if slug.Err? {
        return Err(slug.error);
      }
      var key := db.uuid(ruleId);
      if key.Some? && HasGeoRule(db.geoRules, key.value) {
        Rows.DropRuleExact(db.Model(), key.value);
        SoloExact(db.Model(), cache.links, now, linkId, RemoveGeoRule(key.value), delivered);
      }
      r := db.DeleteGeoRule(ruleId);
      if r.Ok? {
        Invalidate(slug.value, delivered);
      }
    }
  }

  // ----- What one mutation by itself does -----

  ghost function Idle(db: Db, links: Redis.LinkCache, now: Time): Coherence.Config {
    Coherence.Config(now, db, links, map[], map[], map[], [Coherence.Moment(now, db)], map[], map[], map[])
  }

  /** The tables and the cache after a mutation that meets no other: in the cache protocol, the steps
      Authorize, Commit and Invalidate. */
  ghost function Solo(db: Db, links: Redis.LinkCache, now: Time, id: int, w: Write, delivered: bool): (Db,
                      Redis.LinkCache)
    requires id in db.links && Coherence.Mutates(w, id) && Coherence.Succeeds(db, w, now)
  {
    var authorized := Coherence.Step(Idle(db, links, now), Coherence.Authorize(0, id));
    var committed := Coherence.Step(authorized, Coherence.Commit(0, w, true));
    var done := Coherence.Step(committed, Coherence.Invalidate(0, delivered));
    (done.db, done.cache)
  }

  /** Together these apply the statement and, if Redis executes it, delete the key of the link named. */
  lemma {:induction false} SoloExact(db: Db, links: Redis.LinkCache, now: Time, id: int, w: Write, delivered: bool)
    requires id in db.links && Coherence.Mutates(w, id) && Coherence.Succeeds(db, w, now)
    ensures Solo(db, links, now, id, w, delivered) ==
      (Apply(db, w, now), if delivered then links - {db.links[id].slug} else links)
  {
  }

  lemma {:induction false} AllocatedExact(db: Db, customSlug: string, nanos: nat, f: Slugs.Fields, now: Time)
    requires db.nextId <= Base62.MAX_INT64
    ensures var slug := if Slugs.CustomSlug(customSlug) then customSlug else Slugs.TemporarySlug(nanos);
      var (inserted, r) := InsertLink(db, f.userId, slug, f.dest, f.title, f.passwordHash, f.expiredAt, now);
      Allocated(db, customSlug, nanos, f, now) ==
        if r.Err? || Slugs.CustomSlug(customSlug) then inserted
        else Store.UpdateSlug(inserted, db.nextId, Base62.EncodeSpec(db.nextId), now).0
  {
  }

  /** The tables after a lone creation: in the slug machine, InsertCustom, or InsertTemporary and, if that was
      accepted, Name. */
  function Allocated(db: Db, customSlug: string, nanos: nat, fields: Slugs.Fields, now: Time): Db
    requires db.nextId <= Base62.MAX_INT64
  {
    var s := Slugs.State(db, map[]);
    if Slugs.CustomSlug(customSlug) then Slugs.Step(s, Slugs.InsertCustom(customSlug, fields, now)).db
    else
      var inserted := Slugs.Step(s, Slugs.InsertTemporary(nanos, fields, now));
      if db.nextId in inserted.kinds then Slugs.Step(inserted, Slugs.Name(db.nextId, now)).db else inserted.db
  }

  ghost predicate Misses(db: Db, links: Redis.LinkCache, now: Time, slug: string, redisFails: bool) {
    FindBySlug(db, slug).Some? && (redisFails || Redis.Lookup(links, slug, now).None?)
  }

  /** A lone redirect that is not answered from Redis: BeginRead and ReadRow of the cache protocol. */
  ghost function RowRead(db: Db, links: Redis.LinkCache, now: Time, slug: string,
                         redisFails: bool): (c: Coherence.Config)
    requires Misses(db, links, now, slug, redisFails)
    ensures |c.trace| > 0 && c.clock == now && c.db == db && c.cache == links && 0 in c.readers
    ensures c.readers[0].HasRow? && Some(c.readers[0].row) == RowBySlug(db, slug)
  {
    Coherence.Step(Coherence.Step(Idle(db, links, now), Coherence.BeginRead(0, slug, redisFails)), Coherence.ReadRow(0))
  }

  /** Then ReadVariants and ReadRules. */
  ghost function AllRead(db: Db, links: Redis.LinkCache, now: Time, slug: string,
                         redisFails: bool): (c: Coherence.Config)
    requires Misses(db, links, now, slug, redisFails)
    ensures c.clock == now && c.cache == links && 0 in c.fills
    ensures Some(c.fills[0].link) == FindBySlug(db, slug) && c.fills[0].computedAt.None?
    ensures c.fills[0].origin.rulesAt < |c.trace| && c.trace[c.fills[0].origin.rulesAt].at == now
  {
    var c := RowRead(db, links, now, slug, redisFails);
    Coherence.Step(Coherence.Step(c, Coherence.ReadVariants(0)), Coherence.ReadRules(0))
  }

  /** The cache after its fill: ComputeTtl and, unless the link has expired, Land at once. */
  ghost function Filled(db: Db, links: Redis.LinkCache, now: Time, slug: string, redisFails: bool): (r: Redis.LinkCache)
    requires Misses(db, links, now, slug, redisFails)
    ensures var link := FindBySlug(db, slug).value;
      r == match Redis.LinkTtl(link, now)
           case None => links
           case Some(ttl) => Redis.Stored(links, link, ttl, now)
  {
    var c := AllRead(db, links, now, slug, redisFails);
    var computed := Coherence.Step(c, Coherence.ComputeTtl(0));
    if 0 in computed.fills then Coherence.Step(computed, Coherence.Land(0)).cache else computed.cache
  }

  // ----- Children of other links -----

  /** Deleting a variant leaves the variants of all links but the named one alone exactly if it belongs to
      that link. The usecase authorises the caller for the named link only. */
  lemma {:induction false} DeletionStaysHome(db: Db, i: nat, now: Time, linkId: int)
    requires ABTestsValid(db) && i < |db.abTests|
    ensures (forall other :: other != linkId ==>
              VariantsOf(Apply(db, RemoveABTest(db.abTests[i].id), now), other) == VariantsOf(db, other))
            <==> db.abTests[i].linkId == linkId
  {
    var t := db.abTests[i];
    var w := RemoveABTest(t.id);
    if t.linkId == linkId {
      forall other | other != linkId ensures VariantsOf(Apply(db, w, now), other) == VariantsOf(db, other) {
        Coherence.VariantsElsewhere(db, w, now, other);
      }
    } else {
      SelectedRows(db.abTests, OfLink(t.linkId), TestCreated(), t);
      SelectedRows(Filter(db.abTests, OtherTest(t.id)), OfLink(t.linkId), TestCreated(), t);
      assert VariantsOf(Apply(db, w, now), t.linkId) != VariantsOf(db, t.linkId);
    }
  }

  /** The same for rules. */
  lemma {:induction false} RuleDeletionStaysHome(db: Db, i: nat, now: Time, linkId: int)
    requires GeoRulesValid(db) && i < |db.geoRules|
    ensures (forall other :: other != linkId ==>
              RulesOf(Apply(db, RemoveGeoRule(db.geoRules[i].id), now), other) == RulesOf(db, other))
            <==> db.geoRules[i].linkId == linkId
  {
    var g := db.geoRules[i];
    var w := RemoveGeoRule(g.id);
    if g.linkId == linkId {
      forall other | other != linkId ensures RulesOf(Apply(db, w, now), other) == RulesOf(db, other) {
        Coherence.RulesElsewhere(db, w, now, other);
      }
    } else {
      SelectedRows(db.geoRules, RuleOfLink(g.linkId), RulePriority(), g);
      SelectedRows(Filter(db.geoRules, OtherRule(g.id)), RuleOfLink(g.linkId), RulePriority(), g);
      assert RulesOf(Apply(db, w, now), g.linkId) != RulesOf(db, g.linkId);
    }
  }

  lemma {:induction false} OnlyVariant(db: Db, t: ABTest)
    requires db.abTests == [t]
    ensures VariantsOf(db, t.linkId) == [t] && VariantsOf(Store.DeleteABTest(db, t.id).0, t.linkId) == []
  {
    FilterSnoc([], t, OfLink(t.linkId));
    FilterSnoc([], t, OtherTest(t.id));
    assert [] + [t] == [t];
    SelectOne(t, TestCreated());
  }

  lemma {:induction false} SelectOne<T>(x: T, key: T -> int)
    ensures SortBy([x], key) == [x]
  {
    assert [x][..0] == [];
  }

  lemma {:induction false} TwoLinks(alice: string, bob: string, t: ABTest) returns (db: Db)
    requires t.linkId == 1 && 0 < t.weight <= 100
    ensures Store.Valid(db) && db.links.Keys == {1, 2} && db.abTests == [t]
    ensures db.links[1].userId == alice && db.links[2].userId == bob
  {
    var one := LinkRow(1, alice, "1", "", "", None, true, 0, None, 0, 0);
    var two := LinkRow(2, bob, "2", "", "", None, true, 0, None, 0, 0);
    db := Db(map[1 := one, 2 := two], 3, [t], [], []);
  }

  /** A foreign variant goes: bob owns link 2 only, and by naming it deletes the variant of alice's link 1. */
  lemma {:induction false} ForeignVariantDeleted(alice: string, bob: string, t: ABTest, now: Time) returns (db: Db)
    requires t.linkId == 1 && 0 < t.weight <= 100
    ensures Store.Valid(db) && db.links.Keys == {1, 2}
    ensures db.links[1].userId == alice && db.links[2].userId == bob
    ensures Coherence.Mutates(RemoveABTest(t.id), 2)
    ensures VariantsOf(db, 1) == [t] && VariantsOf(Apply(db, RemoveABTest(t.id), now), 1) == []
  {
    db := TwoLinks(alice, bob, t);
    OnlyVariant(db, t);
  }

  // ----- Rules with the same priority -----

  lemma {:induction false} FilteredOneRule(db: Db, id: int)
    requires GeoRulesValid(db)
    ensures OneRulePerCountry(Filter(db.geoRules, RuleOfLink(id)))
  {
    var rules := Filter(db.geoRules, RuleOfLink(id));
    forall i, j | 0 <= i < j < |rules| ensures rules[i].countryCode != rules[j].countryCode {
      var p, q := FilterOrder(db.geoRules, RuleOfLink(id), i, j);
      assert RuleOfLink(id)(rules[i]) && RuleOfLink(id)(rules[j]);
      assert RulesApart(db.geoRules[p], db.geoRules[q]);
    }
  }

  /** The unique constraint gives every link of the database at most one rule per country. */
  lemma {:induction false} StoredOneRule(db: Db, id: int)
    requires GeoRulesValid(db)
    ensures OneRulePerCountry(RulesOf(db, id))
  {
    FilteredOneRule(db, id);
    SortByExact(Filter(db.geoRules, RuleOfLink(id)), RulePriority());
    OneRulePermuted(Filter(db.geoRules, RuleOfLink(id)), RulesOf(db, id));
  }

  /** Whatever order the database gives rules of equal priority, it decides no redirect on a stored link. */
  lemma {:induction false} TiesNeverDecide(db: Db, slug: string, others: seq<GeoRule>, now: Time, matches: Matcher,
                                           req: Request)
    requires Store.Valid(db) && FindBySlug(db, slug).Some?
    requires multiset(others) == multiset(FindBySlug(db, slug).value.geoRules)
    ensures var link := FindBySlug(db, slug).value;
      Decide(link, now, matches, req) == Decide(link.(geoRules := others), now, matches, req)
  {
    StoredOneRule(db, RowBySlug(db, slug).value.id);
    DecideIgnoresGeoOrder(FindBySlug(db, slug).value, others, now, matches, req);
  }

  // ----- Lengths in bytes -----

  /** The UTF-8 length of a character. */
  function Bytes(c: char): nat {
    if c as int < 0x80 then 1 else if c as int < 0x800 then 2 else if c as int < 0x1_0000 then 3 else 4
  }

  /** Go's len of a string. */
  function ByteLength(s: string): nat {
    if s == "" then 0 else Bytes(s[0]) + ByteLength(s[1..])
  }

  /** A country code is documented to have two letters. What passes is two ASCII characters of any kind, or a
      single character of two bytes. */
  lemma {:induction false} TwoBytesExactly(s: string)
    ensures ByteLength(s) == 2 <==>
      || (|s| == 2 && s[0] as int < 0x80 && s[1] as int < 0x80)
      || (|s| == 1 && 0x80 <= s[0] as int < 0x800)
  {
    if |s| >= 1 {
      if |s| >= 2 {
        assert s[1..][0] == s[1];
        if |s| == 2 {
          assert s[1..][1..] == "";
        } else {
          assert ByteLength(s[1..][1..]) >= 1;
        }
      } else {
        assert s[1..] == "";
      }
    }
  }

  /** Codes of two bytes that are not two letters. */
  lemma {:induction false} TwoBytesExamples()
    ensures ByteLength("1!") == 2
    ensures ByteLength(['\U{E9}']) == 2
  {
    TwoBytesExactly("1!");
    TwoBytesExactly(['\U{E9}']);
  }

  class RedirectUsecase {
    const db: Postgres.Database
    const cache: Redis.CacheRepository
    const matches: Matcher

    constructor (db: Postgres.Database, cache: Redis.CacheRepository, matches: Matcher)
      ensures this.db == db && this.cache == cache && this.matches == matches
    {
      this.db, this.cache, this.matches := db, cache, matches;
    }

    /** What a redirect resolves a slug to: the cached link if Redis answers with one, else the database's. */
    ghost function Resolved(slug: string, now: Time, redisUp: bool): Option<Link>
      reads db, cache
    {
      var cached := if redisUp then Redis.Lookup(cache.links, slug, now) else None;
      if cached.Some? then cached else Store.FindBySlug(db.Model(), slug)
    }

    /** Cache first, then the database; a database result is handed to a fill, which lands if filled. */
    method ResolveLink(slug: string, now: Time, redisUp: bool, filled: bool) returns (r: Result<Link, Error>)
      requires LinksValid(db.Model())
      modifies cache
      ensures cache.counters == old(cache.counters)
      ensures r == match old(Resolved(slug, now, redisUp))
                   case None => Err(LinkNotFound)
                   case Some(link) => Ok(link)
      ensures redisUp && Redis.Lookup(old(cache.links), slug, now).Some? ==>
        r == Ok(Redis.Lookup(old(cache.links), slug, now).value)
      ensures (redisUp && Redis.Lookup(old(cache.links), slug, now).Some?) || r.Err? || !filled ==>
        cache.links == old(cache.links)
      ensures !(redisUp && Redis.Lookup(old(cache.links), slug, now).Some?) && r.Ok? && filled ==>
        && Store.FindBySlug(db.Model(), slug) == Some(r.value)
        && cache.links == Filled(db.Model(), old(cache.links), now, slug, !redisUp)
    {
      var cached := None;
      if redisUp {
        cached := cache.GetLink(slug, now);
      }
      if cached.Some? {
        return Ok(cached.value);
      }
      r := db.FindBySlug(slug);
      if r.Ok? && filled {
        cache.SetLink(r.value, now, now);
      }
    }

    /** What Redis would answer agrees with the database, or it would not answer. */
    ghost predicate Consistent(slug: string, now: Time)
      reads db, cache
    {
      match Redis.Lookup(cache.links, slug, now)
      case None => true
      case Some(link) => CacheTheorems.Agrees(db.Model(), slug, link)
    }

    /** What a redirect makes of a stored row: hidden unless active and unexpired, then locked unless the
        password matches the stored hash, then served. */
    ghost predicate AnswersRow(row: LinkRow, req: Request, now: Time, r: Result<RedirectResult, Error>) {
      if !row.isActive || (row.expiredAt.Some? && row.expiredAt.value < now) then r == Err(LinkNotFound)
      else if row.passwordHash.None? || row.passwordHash.value == "" then r.Ok? && r.value.linkId == row.id
      else if req.password == "" then r == Err(PasswordRequired)
      else if !matches(row.passwordHash.value, req.password) then r == Err(InvalidPassword)
      else r.Ok? && r.value.linkId == row.id
    }

    /** The decision on the resolved link; where the cache is consistent, that of the database alone. */
    method Redirect(slug: string, req: Request, now: Time, redisUp: bool, filled: bool)
        returns (r: Result<RedirectResult, Error>)
      requires LinksValid(db.Model())
      modifies cache
      ensures r == match old(Resolved(slug, now, redisUp))
                   case None => Err(LinkNotFound)
                   case Some(link) => Decide(link, now, matches, req)
      ensures old(Consistent(slug, now)) ==>
        r == match old(Store.FindBySlug(db.Model(), slug))
             case None => Err(LinkNotFound)
             case Some(link) => Decide(link, now, matches, req)
      ensures redisUp && Redis.Lookup(old(cache.links), slug, now).Some? ==>
        r == Decide(Redis.Lookup(old(cache.links), slug, now).value, now, matches, req)
      ensures !(redisUp && Redis.Lookup(old(cache.links), slug, now).Some?) ==>
        && ((forall id :: id in db.links ==> db.links[id].slug != slug) ==> r == Err(LinkNotFound))
        && forall id :: id in db.links && db.links[id].slug == slug ==> AnswersRow(db.links[id], req, now, r)
    {
      forall id | id in db.links && db.links[id].slug == slug
        ensures Store.FindBySlug(db.Model(), slug).Some?
        ensures AnswersRow(db.links[id], req, now, Decide(Store.FindBySlug(db.Model(), slug).value, now, matches, req))
      {
        Rows.StoredDecision(db.Model(), id, now, matches, req);
      }
      ghost var current, served := Store.FindBySlug(db.Model(), slug), Resolved(slug, now, redisUp);
      if Consistent(slug, now) && served.Some? && current.Some? {
        CacheTheorems.DecideIgnoresClicks(current.value, served.value, now, matches, req);
      }
      var link := ResolveLink(slug, now, redisUp, filled);
      if link.Err? {
        return Err(link.error);
      }
      r := DecideOn(link.value, now, matches, req);
    }

    /** A redirect without an address: no country is known, so no geo rule can apply. */
    method UnlockWithPassword(slug: string, password: string, draw: nat, now: Time, redisUp: bool, filled: bool)
        returns (r: Result<RedirectResult, Error>)
      requires LinksValid(db.Model())
      modifies cache
      ensures r == match old(Resolved(slug, now, redisUp))
                   case None => Err(LinkNotFound)
                   case Some(link) => Decide(link.(geoRules := []), now, matches, Request(password, "", draw))
      ensures !(redisUp && Redis.Lookup(old(cache.links), slug, now).Some?) ==>
        forall id :: id in db.links && db.links[id].slug == slug ==>
          AnswersRow(db.links[id], Request(password, "", draw), now, r)
    {
      r := Redirect(slug, Request(password, "", draw), now, redisUp, filled);
    }
  }

  datatype Agent = Agent(device: string, os: string, browser: string)

  class AnalyticsUsecase {
    const db: Postgres.Database
    const country: string -> string
    const agent: string -> Agent
    const mask: string -> string
    const instant: string -> Option<Time>

    constructor (db: Postgres.Database, country: string -> string, agent: string -> Agent, mask: string -> string,
                 instant: string -> Option<Time>)
      ensures this.db == db && this.country == country && this.agent == agent
      ensures this.mask == mask && this.instant == instant
    {
      this.db, this.country, this.agent, this.mask, this.instant := db, country, agent, mask, instant;
    }

    /** The row stored for a payload: the address is located, then masked; the referrer is stripped; a time
        that cannot be read becomes the present; no variant is NULL. */
    function Enriched(payload: Worker.Payload, now: Time): ClickRow {
      var a := agent(payload.userAgent);
      ClickRow(payload.linkId, if payload.abTestId == "" then None else Some(payload.abTestId),
               mask(payload.ipAddress), country(payload.ipAddress), a.device, a.os, a.browser,
               Referrer.Stripped(payload.referrer), Coalesce(instant(payload.clickedAt), now))
    }

    method Enrich(payload: Worker.Payload, now: Time) returns (click: ClickRow)
      ensures click == Enriched(payload, now)
    {
      var referrer := Referrer.StripReferrer(payload.referrer);
      var clickedAt := now;
      if instant(payload.clickedAt).Some? {
        clickedAt := instant(payload.clickedAt).value;
      }
      var abTestId := None;
      if payload.abTestId != "" {
        abTestId := Some(payload.abTestId);
      }
      var a := agent(payload.userAgent);
      click := ClickRow(payload.linkId, abTestId, mask(payload.ipAddress), country(payload.ipAddress),
                        a.device, a.os, a.browser, referrer, clickedAt);
    }

    /** The row fits its columns, and its link and its variant, if any, exist. */
    ghost predicate Storable(click: ClickRow)
      reads db
    {
      match db.Readable(click)
      case None => false
      case Some(row) =>
        && FitsColumns(row) && row.linkId in db.links
        && (row.abTestId.Some? ==> HasABTest(db.abTests, row.abTestId.value))
    }

    /** A save followed by a count, in terms of the click accounting. */
    ghost predicate Accounts(before: Db, click: ClickRow, counted: bool, after: Db) {
      var saved := Clicks.Step(Clicks.State(before, multiset{}, multiset{}), Clicks.Save(click, true));
      && click.linkId in saved.pending
      && Clicks.Step(saved, Clicks.Count(click.linkId, counted)) ==
           Clicks.State(after, multiset{}, if counted then multiset{} else multiset{click.linkId})
    }

    method Persist(click: ClickRow, counted: bool) returns (r: Result<(), Error>)
      modifies db
      ensures r.Err? ==> db.Model() == old(db.Model())
      ensures r.Ok? <==> old(Storable(click))
      ensures r.Ok? ==>
        db.Readable(click).Some? && Accounts(old(db.Model()), db.Readable(click).value, counted, db.Model())
      ensures r.Ok? ==>
        && db.clicks == old(db.clicks) + [db.Readable(click).value] && click.linkId in old(db.links)
        && click.linkId in db.links
        && db.links[click.linkId].clickCount == old(db.links)[click.linkId].clickCount + if counted then 1 else 0
    {
      r := db.SaveClickEvent(click);
      if r.Err? {
        return;
      }
      if counted {
        db.IncrementClickCount(click.linkId);
      }
    }

    /** Stores the enriched click, then counts it; only the store can fail the call, and then nothing changes. */
    method ProcessClickEvent(payload: Worker.Payload, now: Time, counted: bool) returns (r: Result<(), Error>)
      modifies db
      ensures r.Err? ==> db.Model() == old(db.Model())
      ensures r.Ok? <==> old(Storable(Enriched(payload, now)))
      ensures r.Ok? ==>
        && db.Readable(Enriched(payload, now)).Some?
        && Accounts(old(db.Model()), db.Readable(Enriched(payload, now)).value, counted, db.Model())
      ensures r.Ok? ==>
        && |db.clicks| == |old(db.clicks)| + 1 && old(db.clicks) <= db.clicks
        && var row := db.clicks[|old(db.clicks)|];
          && row.linkId == payload.linkId && row.referrer == Referrer.Stripped(payload.referrer)
          && row.ipAddress == mask(payload.ipAddress) && row.countryCode == country(payload.ipAddress)
          && row.device == agent(payload.userAgent).device && row.os == agent(payload.userAgent).os
          && row.browser == agent(payload.userAgent).browser
          && row.clickedAt == (if instant(payload.clickedAt).Some? then instant(payload.clickedAt).value else now)
          && row.abTestId == (if payload.abTestId == "" then None else db.uuid(payload.abTestId))
          && payload.linkId in db.links && payload.linkId in old(db.links)
          && db.links[payload.linkId].clickCount ==
               old(db.links)[payload.linkId].clickCount + if counted then 1 else 0
    {
      var click := Enrich(payload, now);
      r := Persist(click, counted);
    }
  }
}
