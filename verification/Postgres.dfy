/** The Postgres repositories over one database, statement by statement. */
module Postgres {
  import opened Common
  import opened Domain
  import opened Sequences
  import opened Store

  lemma {:induction false} KeepsValid(db: Db, w: Write, now: Time)
    ensures Valid(db) ==> Valid(Apply(db, w, now))
  {
    if Valid(db) {
      ApplyKeepsValid(db, w, now);
    }
  }

  /** Every mutating statement keeps every constraint of the schema, whether it succeeds or is refused. */
  class Database {
    /** How the database reads a UUID: its canonical form, or nothing for malformed text. */
    const uuid: string -> Option<string>
    var links: map<int, LinkRow>
    var nextId: int
    var abTests: seq<ABTest>
    var geoRules: seq<GeoRule>
    var clicks: seq<ClickRow>

    ghost function Model(): Db
      reads this
    {
      Db(links, nextId, abTests, geoRules, clicks)
    }

    constructor (uuid: string -> Option<string>)
      ensures Model() == EMPTY && this.uuid == uuid
    {
      this.uuid := uuid;
      links, nextId, abTests, geoRules, clicks := map[], 1, [], [], [];
    }

    // ----- linkRepository -----

    /** INSERT INTO links; the sequence value is consumed even when the insert is refused. */
    method Create(userId: string, slug: string, destinationUrl: string, title: string, passwordHash: string,
                  expiredAt: Option<Time>, now: Time) returns (r: Result<int, Error>)
      modifies this
      ensures var (db, result) :=
          InsertLink(old(Model()), userId, slug, destinationUrl, title, passwordHash, expiredAt, now);
        Model() == db && r == result
      ensures old(Valid(Model())) ==> Valid(Model())
    {
      KeepsValid(Model(), Store.Create(userId, slug, destinationUrl, title, passwordHash, expiredAt), now);
      var id := nextId;
      nextId := nextId + 1;
      if exists other :: other in links && links[other].slug == slug {
        return Err(SlugAlreadyExists);
      }
      var hash := None;
      if passwordHash != "" {
        hash := Some(passwordHash);
      }
      links := links[id := LinkRow(id, userId, slug, destinationUrl, title, hash, true, 0, expiredAt, now, now)];
      return Ok(id);
    }

    /** Three queries, here without interference between them. */
    method FindBySlug(slug: string) returns (r: Result<Link, Error>)
      requires LinksValid(Model())
      ensures r == match Store.FindBySlug(Model(), slug)
                   case None => Err(LinkNotFound)
                   case Some(link) => Ok(link)
    {
      if !exists id :: id in links && links[id].slug == slug {
        return Err(LinkNotFound);
      }
      var id :| id in links && links[id].slug == slug;
      RowBySlugUnique(Model(), id);
      r := Assemble(links[id]);
    }

    method FindById(id: int) returns (r: Result<Link, Error>)
      requires LinksValid(Model())
      ensures r == if id !in links then Err(LinkNotFound)
                   else Ok(LinkOf(links[id], VariantsOf(Model(), id), RulesOf(Model(), id)))
    {
      if id !in links {
        return Err(LinkNotFound);
      }
      r := Assemble(links[id]);
    }

    method Assemble(row: LinkRow) returns (r: Result<Link, Error>)
      ensures r == Ok(LinkOf(row, VariantsOf(Model(), row.id), RulesOf(Model(), row.id)))
    {
      var hash := "";
      if row.passwordHash.Some? {
        hash := row.passwordHash.value;
      }
      var tests := Select(abTests, OfLink(row.id), TestCreated());
      var rules := Select(geoRules, RuleOfLink(row.id), RulePriority());
      return Ok(Link(row.id, row.userId, row.slug, row.destinationUrl, row.title, hash, row.isActive, row.clickCount,
                     row.expiredAt, row.createdAt, row.updatedAt, tests, rules));
    }

    method Update(id: int, patch: Patch, now: Time) returns (r: Result<LinkRow, Error>)
      modifies this
      ensures var (db, result) := UpdateLink(old(Model()), id, patch, now); Model() == db && r == result
      ensures old(Valid(Model())) ==> Valid(Model())
    {
      KeepsValid(Model(), Store.Write.Update(id, patch), now);
      if id !in links {
        return Err(LinkNotFound);
      }
      var row := links[id];
      if patch.destinationUrl.Some? {
        row := row.(destinationUrl := patch.destinationUrl.value);
      }
      if patch.title.Some? {
        row := row.(title := patch.title.value);
      }
      if patch.password.Some? {
        row := row.(passwordHash := patch.password);
      }
      if patch.isActive.Some? {
        row := row.(isActive := patch.isActive.value);
      }
      if patch.expiredAt.Some? {
        row := row.(expiredAt := patch.expiredAt);
      }
      row := row.(updatedAt := now);
      links := links[id := row];
      return Ok(row);
    }

    method UpdateSlug(id: int, slug: string, now: Time) returns (r: Result<(), Error>)
      modifies this
      ensures var (db, result) := Store.UpdateSlug(old(Model()), id, slug, now); Model() == db && r == result
      ensures old(Valid(Model())) ==> Valid(Model())
    {
      KeepsValid(Model(), SetSlug(id, slug), now);
      if id !in links {
        return Err(LinkNotFound);
      }
      if exists other :: other in links && other != id && links[other].slug == slug {
        return Err(SlugAlreadyExists);
      }
      links := links[id := links[id].(slug := slug, updatedAt := now)];
      return Ok(());
    }

    method Delete(id: int, now: Time) returns (r: Result<(), Error>)
      modifies this
      ensures var (db, result) := DeleteLink(old(Model()), id, now); Model() == db && r == result
      ensures old(Valid(Model())) ==> Valid(Model())
    {
      KeepsValid(Model(), SoftDelete(id), now);
      if id !in links {
        return Err(LinkNotFound);
      }
      links := links[id := links[id].(isActive := false, updatedAt := now)];
      return Ok(());
    }

    method IncrementClickCount(id: int)
      modifies this
      ensures Model() == Store.IncrementClickCount(old(Model()), id)
      ensures old(Valid(Model())) ==> Valid(Model())
    {
      KeepsValid(Model(), Increment(id), 0);
      if id in links {
        links := links[id := links[id].(clickCount := links[id].clickCount + 1)];
      }
    }

    method SlugExists(slug: string) returns (found: bool)
      ensures found <==> SlugTaken(Model(), slug)
    {
      found := exists id :: id in links && links[id].slug == slug;
    }

    // ----- abTestRepository and geoRuleRepository -----

    method CreateABTest(t: ABTest) returns (r: Result<(), Error>)
      modifies this
      ensures var (db, result) := InsertABTest(old(Model()), t); Model() == db && r == result
      ensures old(Valid(Model())) ==> Valid(Model())
    {
      KeepsValid(Model(), AddABTest(t), 0);
      if t.linkId !in links || HasABTest(abTests, t.id) || t.weight <= 0 || t.weight > 100 {
        return Err(Storage);
      }
      abTests := abTests + [t];
      return Ok(());
    }

    /** Malformed ids are an error of the database, not a missing row. */
    method DeleteABTest(id: string) returns (r: Result<(), Error>)
      modifies this
      ensures uuid(id).None? ==> r == Err(Storage) && Model() == old(Model())
      ensures uuid(id).Some? ==>
        var (db, result) := Store.DeleteABTest(old(Model()), uuid(id).value); Model() == db && r == result
      ensures old(Valid(Model())) ==> Valid(Model())
    {
      var key := uuid(id);
      if key.None? {
        return Err(Storage);
      }
      KeepsValid(Model(), RemoveABTest(key.value), 0);
      if !HasABTest(abTests, key.value) {
        return Err(ABTestNotFound);
      }
      abTests := Filter(abTests, OtherTest(key.value));
      clicks := ForgetVariant(clicks, key.value);
      return Ok(());
    }

    method SumWeightsByLink(linkId: int) returns (sum: int)
      ensures sum == SumWeights(abTests, linkId)
    {
      sum := 0;
      for i := 0 to |abTests|
        invariant sum == SumWeights(abTests[..i], linkId)
      {
        assert abTests[..i + 1][..i] == abTests[..i];
        if abTests[i].linkId == linkId {
          sum := sum + abTests[i].weight;
        }
      }
      assert abTests[..|abTests|] == abTests;
    }

    method CreateGeoRule(rule: GeoRule) returns (r: Result<(), Error>)
      modifies this
      ensures var (db, result) := InsertGeoRule(old(Model()), rule); Model() == db && r == result
      ensures old(Valid(Model())) ==> Valid(Model())
    {
      KeepsValid(Model(), AddGeoRule(rule), 0);
      if HasGeoRule(geoRules, rule.id) || CountryTaken(geoRules, rule.linkId, rule.countryCode) {
        return Err(GeoRuleDuplicate);
      }
      if rule.linkId !in links {
        return Err(Storage);
      }
      geoRules := geoRules + [rule];
      return Ok(());
    }

    method DeleteGeoRule(id: string) returns (r: Result<(), Error>)
      modifies this
      ensures uuid(id).None? ==> r == Err(Storage) && Model() == old(Model())
      ensures uuid(id).Some? ==>
        var (db, result) := Store.DeleteGeoRule(old(Model()), uuid(id).value); Model() == db && r == result
      ensures old(Valid(Model())) ==> Valid(Model())
    {
      var key := uuid(id);
      if key.None? {
        return Err(Storage);
      }
      KeepsValid(Model(), RemoveGeoRule(key.value), 0);
      if !HasGeoRule(geoRules, key.value) {
        return Err(GeoRuleNotFound);
      }
      geoRules := Filter(geoRules, OtherRule(key.value));
      return Ok(());
    }

    // ----- analyticsRepository -----

    /** The row as the database reads it, unless its variant id is malformed. */
    function Readable(click: ClickRow): Option<ClickRow> {
      if click.abTestId.None? then Some(click)
      else if uuid(click.abTestId.value).None? then None
      else Some(click.(abTestId := uuid(click.abTestId.value)))
    }

    method SaveClickEvent(click: ClickRow) returns (r: Result<(), Error>)
      modifies this
      ensures Readable(click).None? ==> r == Err(Storage) && Model() == old(Model())
      ensures Readable(click).Some? ==>
        var (db, result) := Store.SaveClickEvent(old(Model()), Readable(click).value); Model() == db && r == result
      ensures old(Valid(Model())) ==> Valid(Model())
    {
      var row := click;
      if click.abTestId.Some? {
        row := click.(abTestId := uuid(click.abTestId.value));
        if row.abTestId.None? {
          return Err(Storage);
        }
      }
      KeepsValid(Model(), SaveClick(row), 0);
      if !FitsColumns(row) || row.linkId !in links {
        return Err(Storage);
      }
      if row.abTestId.Some? && !HasABTest(abTests, row.abTestId.value) {
        return Err(Storage);
      }
      clicks := clicks + [row];
      return Ok(());
    }
  }
}
