/** The cache protocol for slugs that are not temporary. The service renames links only away from their
    temporary slugs, so no permanent slug can lose an invalidation to a renaming. */
module PermanentSlugs {
  import opened Common
  import opened Domain
  import opened Store
  import opened Decision
  import opened Coherence
  import opened CacheTheorems
  import Base62
  import Redis
  import Slugs

  /** Every renaming along the run is of a link with a temporary slug. */
  ghost predicate RenamesTemporaryOnly(cs: seq<Config>, es: seq<Event>) {
    |cs| == |es| + 1 &&
    forall j :: 0 <= j < |es| && es[j].Silent? && es[j].w.SetSlug? && es[j].w.id in cs[j].db.links ==>
      Slugs.IsTemporary(cs[j].db.links[es[j].w.id].slug)
  }

  lemma {:induction false} SilentStep(c: Config, e: Event, slug: string)
    requires Enabled(c, e) && slug in NextLost(c, e) && NextLost(c, e)[slug] == Renamed
    requires !(slug in c.lost && c.lost[slug] == Renamed)
    ensures e.Silent? && e.w.SetSlug? && e.w.id in c.db.links && c.db.links[e.w.id].slug == slug
  {
  }

  /** No other slug is ever recorded as having lost an invalidation to a renaming. */
  lemma {:induction false} NeverLostByRenaming(cs: seq<Config>, es: seq<Event>, slug: string, i: nat)
    requires Run(cs, es) && RenamesTemporaryOnly(cs, es) && !Slugs.IsTemporary(slug) && i < |cs|
    ensures !(slug in cs[i].lost && cs[i].lost[slug] == Renamed)
  {
    if i > 0 {
      NeverLostByRenaming(cs, es, slug, i - 1);
      assert Next(cs[i - 1], es[i - 1], cs[i]);
      if slug in cs[i].lost && cs[i].lost[slug] == Renamed {
        SilentStep(cs[i - 1], es[i - 1], slug);
      }
    }
  }

  /** A step that loses an invalidation of the slug by a failure: the deletion was not delivered, or the write
      not acknowledged, or the deletion went to another slug. */
  ghost predicate LosesByFailure(c: Config, e: Event, slug: string) {
    Loses(c, e, slug) && !e.Silent?
  }

  lemma {:induction false} OnlyFailuresLose(cs: seq<Config>, es: seq<Event>, slug: string, j: nat)
    requires Run(cs, es) && RenamesTemporaryOnly(cs, es) && !Slugs.IsTemporary(slug) && j < |es|
    ensures Loses(cs[j], es[j], slug) ==> LosesByFailure(cs[j], es[j], slug)
  {
    assert Next(cs[j], es[j], cs[j + 1]);
  }

  /** Cache transparency for permanent slugs: renamings need not be excluded. */
  lemma {:induction false} PermanentTransparent(cs: seq<Config>, es: seq<Event>, slug: string, now: Time,
                                                matches: Matcher, req: Request)
    requires Run(cs, es) && RenamesTemporaryOnly(cs, es) && !Slugs.IsTemporary(slug)
    requires forall j :: 0 <= j < |es| ==> !LosesByFailure(cs[j], es[j], slug)
    requires !InvalidationDue(cs[|es|], slug) && !LateFill(cs[|es|], slug)
    requires Redis.Lookup(cs[|es|].cache, slug, cs[|es|].clock).Some?
    ensures var c := cs[|es|];
      && FindBySlug(c.db, slug).Some?
      && Decide(Redis.Lookup(c.cache, slug, c.clock).value, now, matches, req)
           == Decide(FindBySlug(c.db, slug).value, now, matches, req)
  {
    forall j | 0 <= j < |es| ensures !Loses(cs[j], es[j], slug) {
      OnlyFailuresLose(cs, es, slug, j);
    }
    CacheTransparent(cs, es, slug, now, matches, req);
  }

  // ----- Both machines at once -----

  /** The step of the slug machine, if any, that a step of the cache protocol is. */
  ghost predicate Follows(e: Event, now: Time, f: Option<Slugs.Event>) {
    match f
    case None => !e.Commit? && !e.Silent?
    case Some(Abandon(_)) => !e.Commit? && !e.Silent?
    case Some(Name(id, at)) => at == now && e == Silent(SetSlug(id, Base62.EncodeSpec(id)))
    case Some(InsertCustom(slug, x, at)) =>
      at == now && e == Silent(Create(x.userId, slug, x.dest, x.title, x.passwordHash, x.expiredAt))
    case Some(InsertTemporary(nanos, x, at)) =>
      && at == now
      && e == Silent(Create(x.userId, Slugs.TemporarySlug(nanos), x.dest, x.title, x.passwordHash, x.expiredAt))
    case Some(Other(w, at)) => at == now && (e.Commit? || e.Silent?) && e.w == w
  }

  ghost predicate SlugNext(s: Slugs.State, f: Option<Slugs.Event>, s': Slugs.State) {
    match f
    case None => s' == s
    case Some(g) => Slugs.Enabled(s, g) && s' == Slugs.Step(s, g)
  }

  /** A run of the cache protocol whose writes are those of create calls and of other statements, in the order
      the slug machine admits. */
  ghost predicate JointRun(cs: seq<Config>, es: seq<Event>, ss: seq<Slugs.State>, fs: seq<Option<Slugs.Event>>) {
    && Run(cs, es) && |ss| == |cs| && |fs| == |es|
    && Slugs.Inv(ss[0]) && ss[0].db == cs[0].db
    && forall j :: 0 <= j < |es| ==> Follows(es[j], cs[j].clock, fs[j]) && SlugNext(ss[j], fs[j], ss[j + 1])
  }

  lemma {:induction false} FollowsDb(c: Config, e: Event, s: Slugs.State, f: Option<Slugs.Event>, s': Slugs.State)
    requires Enabled(c, e) && Follows(e, c.clock, f) && SlugNext(s, f, s') && s.db == c.db
    ensures s'.db == NextDb(c, e)
  {
  }

  lemma {:induction false} JointState(cs: seq<Config>, es: seq<Event>, ss: seq<Slugs.State>,
                                      fs: seq<Option<Slugs.Event>>, i: nat)
    requires JointRun(cs, es, ss, fs) && i < |cs|
    ensures Slugs.Inv(ss[i]) && ss[i].db == cs[i].db
  {
    if i > 0 {
      JointState(cs, es, ss, fs, i - 1);
      var j := i - 1;
      assert Next(cs[j], es[j], cs[j + 1]) && SlugNext(ss[j], fs[j], ss[j + 1]);
      FollowsDb(cs[j], es[j], ss[j], fs[j], ss[j + 1]);
      if fs[j].Some? {
        Slugs.StepKeepsInv(ss[j], fs[j].value);
      }
    }
  }

  /** In such a run only temporary slugs are ever renamed: naming waits for a row in its temporary state. */
  lemma {:induction false} JointRenames(cs: seq<Config>, es: seq<Event>, ss: seq<Slugs.State>,
                                        fs: seq<Option<Slugs.Event>>)
    requires JointRun(cs, es, ss, fs)
    ensures RenamesTemporaryOnly(cs, es)
  {
    forall j | 0 <= j < |es| && es[j].Silent? && es[j].w.SetSlug? && es[j].w.id in cs[j].db.links
      ensures Slugs.IsTemporary(cs[j].db.links[es[j].w.id].slug)
    {
      JointState(cs, es, ss, fs, j);
      assert Follows(es[j], cs[j].clock, fs[j]) && SlugNext(ss[j], fs[j], ss[j + 1]);
    }
  }

  /** Cache transparency of the service: with create calls interleaved with everything else, a redirect on a
      slug that is not temporary and for which no deletion failed, went astray or is due, and no fill was late,
      is answered from Redis as the database would answer it. */
  lemma {:induction false} ServiceTransparent(cs: seq<Config>, es: seq<Event>, ss: seq<Slugs.State>,
                                              fs: seq<Option<Slugs.Event>>, slug: string, now: Time,
                                              matches: Matcher, req: Request)
    requires JointRun(cs, es, ss, fs) && !Slugs.IsTemporary(slug)
    requires forall j :: 0 <= j < |es| ==> !LosesByFailure(cs[j], es[j], slug)
    requires !InvalidationDue(cs[|es|], slug) && !LateFill(cs[|es|], slug)
    requires Redis.Lookup(cs[|es|].cache, slug, cs[|es|].clock).Some?
    ensures var c := cs[|es|];
      && FindBySlug(c.db, slug).Some?
      && Decide(Redis.Lookup(c.cache, slug, c.clock).value, now, matches, req)
           == Decide(FindBySlug(c.db, slug).value, now, matches, req)
  {
    JointRenames(cs, es, ss, fs);
    PermanentTransparent(cs, es, slug, now, matches, req);
  }
}
