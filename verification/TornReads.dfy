/** FindBySlug is three queries without a transaction. When what they return together is a link the database
    held at one moment. */
module TornReads {
  import opened Common
  import opened Domain
  import opened Store
  import opened Coherence
  import opened CacheTheorems

  /** Two rows read as the same columns, the click counter aside. */
  ghost predicate SameColumns(x: LinkRow, y: LinkRow) {
    SameButClicks(LinkOf(x, [], []), LinkOf(y, [], []))
  }

  /** Two states hold the same of what one query of FindBySlug returns for the link with an id. */
  ghost predicate Same(part: Part, x: Db, y: Db, id: int) {
    match part
    case Row => id in x.links && id in y.links && SameColumns(x.links[id], y.links[id])
    case Variants => VariantsOf(x, id) == VariantsOf(y, id)
    case Rules => RulesOf(x, id) == RulesOf(y, id)
  }

  /** Some statement between the two states changed the link. */
  ghost predicate Touched(x: Db, y: Db, id: int) {
    !Same(Row, x, y, id) || !Same(Variants, x, y, id) || !Same(Rules, x, y, id)
  }

  /** A state holds the link that was read, the click counter aside, exactly if its row, its variants and its
      rules are each those of the moment at which that part was read. */
  lemma {:induction false} HeldExactly(cs: seq<Config>, link: Link, a: int, b: int, d: int, k: nat)
    requires ReadDuring(cs, link, a, b, d) && k < |cs|
    ensures var row, now := RowBySlug(cs[a].db, link.slug).value, RowBySlug(cs[k].db, link.slug);
      Agrees(cs[k].db, link.slug, link) <==>
        && now.Some? && SameColumns(now.value, row)
        && Same(Variants, cs[k].db, cs[b].db, row.id)
        && Same(Rules, cs[k].db, cs[d].db, row.id)
  {
    var row, now := RowBySlug(cs[a].db, link.slug).value, RowBySlug(cs[k].db, link.slug);
    if now.Some? {
      var tests, rules := VariantsOf(cs[k].db, now.value.id), RulesOf(cs[k].db, now.value.id);
      ColumnsApart(now.value, tests, rules, row, link.abTests, link.geoRules);
    }
  }

  lemma {:induction false} ColumnsApart(x: LinkRow, ts: seq<ABTest>, rs: seq<GeoRule>, y: LinkRow, us: seq<ABTest>,
                                        ss: seq<GeoRule>)
    ensures SameButClicks(LinkOf(x, ts, rs), LinkOf(y, us, ss)) <==> SameColumns(x, y) && ts == us && rs == ss
    ensures SameColumns(x, y) ==> x.id == y.id
  {
  }

  lemma {:induction false} SameStays(cs: seq<Config>, id: int, part: Part, i: int, j: int)
    requires 0 <= i <= j < |cs| && id in cs[i].db.links
    requires forall m :: i <= m < j ==> Same(part, cs[m].db, cs[m + 1].db, id)
    ensures Same(part, cs[i].db, cs[j].db, id)
    decreases j - i
  {
    if i < j {
      SameStays(cs, id, part, i, j - 1);
      assert Same(part, cs[j - 1].db, cs[j].db, id);
    }
  }

  lemma {:induction false} IdsStay(cs: seq<Config>, es: seq<Event>, id: int, i: nat, j: nat)
    requires Run(cs, es) && i <= j < |cs| && id in cs[i].db.links
    ensures id in cs[j].db.links
    decreases j - i
  {
    if i < j {
      IdsStay(cs, es, id, i, j - 1);
      assert Next(cs[j - 1], es[j - 1], cs[j]);
    }
  }

  ghost predicate TouchesOnePart(x: Db, y: Db, id: int) {
    || (Same(Variants, x, y, id) && Same(Rules, x, y, id))
    || (Same(Row, x, y, id) && Same(Rules, x, y, id))
    || (Same(Row, x, y, id) && Same(Variants, x, y, id))
  }

  /** A statement writes at most one of the three tables. */
  lemma {:induction false} OneTable(db: Db, w: Write, now: Time)
    ensures var y := Apply(db, w, now);
      && (y.links == db.links || (y.abTests == db.abTests && y.geoRules == db.geoRules))
      && (y.abTests == db.abTests || y.geoRules == db.geoRules)
  {
  }

  lemma {:induction false} OnePart(x: Db, y: Db, id: int)
    requires id in x.links
    requires y.links == x.links || (y.abTests == x.abTests && y.geoRules == x.geoRules)
    requires y.abTests == x.abTests || y.geoRules == x.geoRules
    ensures TouchesOnePart(x, y, id)
  {
  }

  lemma {:induction false} OnePartPerStep(cs: seq<Config>, es: seq<Event>, k: nat, id: int)
    requires Run(cs, es) && k < |es| && id in cs[k].db.links
    ensures TouchesOnePart(cs[k].db, cs[k + 1].db, id)
  {
    assert Next(cs[k], es[k], cs[k + 1]);
    if es[k].Commit? || es[k].Silent? {
      OneTable(cs[k].db, es[k].w, cs[k].clock);
    }
    OnePart(cs[k].db, cs[k + 1].db, id);
  }

  /** The moment m holds the link if the row has not changed between its query and m, nor the variants and
      the rules between m and theirs. */
  lemma {:induction false} HeldAt(cs: seq<Config>, es: seq<Event>, link: Link, a: int, b: int, d: int, m: int, id: int)
    requires Run(cs, es) && ReadDuring(cs, link, a, b, d) && a <= m <= d
    requires RowBySlug(cs[a].db, link.slug).value.id == id
    requires Same(Row, cs[a].db, cs[m].db, id)
    requires Same(Variants, cs[m].db, cs[b].db, id) && Same(Rules, cs[m].db, cs[d].db, id)
    ensures Agrees(cs[m].db, link.slug, link)
  {
    HeldExactly(cs, link, a, b, d, m);
    StoresRow(cs, es, a, link.slug);
    RunInv(cs, es, m);
    RowBySlugUnique(cs[m].db, id);
  }

  lemma {:induction false} StoresRow(cs: seq<Config>, es: seq<Event>, a: nat, slug: string)
    requires Run(cs, es) && a < |cs| && RowBySlug(cs[a].db, slug).Some?
    ensures var row := RowBySlug(cs[a].db, slug).value; row.id in cs[a].db.links && cs[a].db.links[row.id] == row
  {
    RunInv(cs, es, a);
    RowBySlugStored(cs[a].db, slug);
  }

  /** Moment m cuts the read cleanly: the row does not change between its query and m, nor do the variants and
      the rules between m and theirs. */
  ghost predicate CleanCut(cs: seq<Config>, id: int, a: int, b: int, d: int, m: int) {
    && 0 <= a <= m <= d < |cs| && a <= b <= d
    && (forall j :: a <= j < m ==> Same(Row, cs[j].db, cs[j + 1].db, id))
    && (forall j :: m <= j < b || b <= j < m ==> Same(Variants, cs[j].db, cs[j + 1].db, id))
    && (forall j :: m <= j < d ==> Same(Rules, cs[j].db, cs[j + 1].db, id))
  }

  lemma {:induction false} CleanCutHolds(cs: seq<Config>, es: seq<Event>, link: Link, a: int, b: int, d: int,
                                         m: int, id: int)
    requires Run(cs, es) && ReadDuring(cs, link, a, b, d) && CleanCut(cs, id, a, b, d, m)
    requires RowBySlug(cs[a].db, link.slug).value.id == id
    ensures Agrees(cs[m].db, link.slug, link)
  {
    StoresRow(cs, es, a, link.slug);
    IdsStay(cs, es, id, a, m);
    SameStays(cs, id, Row, a, m);
    SameStays(cs, id, Rules, m, d);
    if m <= b {
      SameStays(cs, id, Variants, m, b);
    } else {
      IdsStay(cs, es, id, a, b);
      SameStays(cs, id, Variants, b, m);
    }
    HeldAt(cs, es, link, a, b, d, m, id);
  }

  /** What changes between moments a and d does not change back. */
  ghost predicate NeverReverts(cs: seq<Config>, id: int, a: int, d: int, part: Part)
    requires 0 <= a <= d < |cs|
  {
    forall i, j, k :: a <= i <= j <= k <= d && Same(part, cs[i].db, cs[k].db, id) ==> Same(part, cs[i].db, cs[j].db, id)
  }

  lemma {:induction false} NeverChanged(cs: seq<Config>, id: int, a: int, d: int, part: Part, i: int, k: int)
    requires 0 <= a <= i <= k <= d < |cs| && NeverReverts(cs, id, a, d, part) && Same(part, cs[i].db, cs[k].db, id)
    ensures forall j :: i <= j < k ==> Same(part, cs[j].db, cs[j + 1].db, id)
  {
    forall j | i <= j < k ensures Same(part, cs[j].db, cs[j + 1].db, id) {
      assert Same(part, cs[i].db, cs[j].db, id) && Same(part, cs[i].db, cs[j + 1].db, id);
    }
  }

  lemma {:induction false} HeldParts(cs: seq<Config>, es: seq<Event>, link: Link, a: int, b: int, d: int, m: int,
                                     id: int)
    requires Run(cs, es) && ReadDuring(cs, link, a, b, d) && a <= m <= d && Agrees(cs[m].db, link.slug, link)
    requires RowBySlug(cs[a].db, link.slug).value.id == id
    ensures Same(Row, cs[a].db, cs[m].db, id)
    ensures Same(Variants, cs[m].db, cs[b].db, id) && Same(Rules, cs[m].db, cs[d].db, id)
  {
    HeldExactly(cs, link, a, b, d, m);
    StoresRow(cs, es, a, link.slug);
    StoresRow(cs, es, m, link.slug);
  }

  lemma {:induction false} HeldCutsCleanly(cs: seq<Config>, id: int, a: int, b: int, d: int, m: int)
    requires 0 <= a <= b <= d < |cs| && a <= m <= d
    requires NeverReverts(cs, id, a, d, Row) && NeverReverts(cs, id, a, d, Variants)
    requires NeverReverts(cs, id, a, d, Rules)
    requires Same(Row, cs[a].db, cs[m].db, id)
    requires Same(Variants, cs[m].db, cs[b].db, id) && Same(Rules, cs[m].db, cs[d].db, id)
    ensures CleanCut(cs, id, a, b, d, m)
  {
    NeverChanged(cs, id, a, d, Row, a, m);
    NeverChanged(cs, id, a, d, Rules, m, d);
    if m <= b {
      NeverChanged(cs, id, a, d, Variants, m, b);
    } else {
      NeverChanged(cs, id, a, d, Variants, b, m);
    }
  }

  /** Where nothing changes back: a moment of the read held the returned link exactly if it cuts the read
      cleanly. So the read is torn, held by no moment, exactly if changes separate every moment from one of
      the three queries. */
  lemma {:induction false} SnapshotExactly(cs: seq<Config>, es: seq<Event>, link: Link, a: int, b: int, d: int,
                                           m: int, id: int)
    requires Run(cs, es) && ReadDuring(cs, link, a, b, d) && a <= m <= d
    requires id == RowBySlug(cs[a].db, link.slug).value.id
    requires NeverReverts(cs, id, a, d, Row) && NeverReverts(cs, id, a, d, Variants)
    requires NeverReverts(cs, id, a, d, Rules)
    ensures Agrees(cs[m].db, link.slug, link) <==> CleanCut(cs, id, a, b, d, m)
  {
    if Agrees(cs[m].db, link.slug, link) {
      HeldParts(cs, es, link, a, b, d, m, id);
      HeldCutsCleanly(cs, id, a, b, d, m);
    } else if CleanCut(cs, id, a, b, d, m) {
      CleanCutHolds(cs, es, link, a, b, d, m, id);
    }
  }

  ghost predicate UntouchedBut(cs: seq<Config>, id: int, a: int, d: int, k: int) {
    0 <= a <= d < |cs| && forall j :: a <= j < d && j != k ==> !Touched(cs[j].db, cs[j + 1].db, id)
  }

  /** A read during which the link stood still returned the link of every moment it took. */
  lemma {:induction false} QuietReadIsCurrent(cs: seq<Config>, es: seq<Event>, link: Link, a: int, b: int, d: int,
                                              m: int)
    requires Run(cs, es) && ReadDuring(cs, link, a, b, d) && a <= m <= d
    requires UntouchedBut(cs, RowBySlug(cs[a].db, link.slug).value.id, a, d, d)
    ensures Agrees(cs[m].db, link.slug, link)
  {
    CleanCutHolds(cs, es, link, a, b, d, m, RowBySlug(cs[a].db, link.slug).value.id);
  }

  lemma {:induction false} UntouchedSteps(cs: seq<Config>, id: int, a: int, d: int, k: int, part: Part, i: int, n: int)
    requires UntouchedBut(cs, id, a, d, k) && a <= i && n <= d
    requires i <= k < n ==> Same(part, cs[k].db, cs[k + 1].db, id)
    ensures forall j :: i <= j < n ==> Same(part, cs[j].db, cs[j + 1].db, id)
  {
    forall j | i <= j < n && j != k ensures Same(part, cs[j].db, cs[j + 1].db, id) {
      assert !Touched(cs[j].db, cs[j + 1].db, id);
    }
  }

  /** The moment of the read that one statement k leaves intact: before it if it changed the row, else when
      the changed part was read. */
  lemma {:induction false} IntactMoment(cs: seq<Config>, id: int, a: int, b: int, d: int, k: int) returns (m: int)
    requires a <= b <= d && a <= k < d && UntouchedBut(cs, id, a, d, k)
    requires TouchesOnePart(cs[k].db, cs[k + 1].db, id)
    ensures CleanCut(cs, id, a, b, d, m)
  {
    m := if !Same(Row, cs[k].db, cs[k + 1].db, id) then a
         else if !Same(Variants, cs[k].db, cs[k + 1].db, id) then b else d;
    UntouchedSteps(cs, id, a, d, k, Row, a, m);
    UntouchedSteps(cs, id, a, d, k, Variants, m, b);
    UntouchedSteps(cs, id, a, d, k, Variants, b, m);
    UntouchedSteps(cs, id, a, d, k, Rules, m, d);
  }

  /** A read during which at most one statement changed the link returned a link that the database held at
      one of its moments. Two statements are enough to break this, as CacheRaces.MixedReadRace shows. */
  lemma {:induction false} OneChangeIsSnapshot(cs: seq<Config>, es: seq<Event>, link: Link, a: int, b: int, d: int,
                                               k: nat)
      returns (m: int)
    requires Run(cs, es) && ReadDuring(cs, link, a, b, d) && a <= k < d
    requires UntouchedBut(cs, RowBySlug(cs[a].db, link.slug).value.id, a, d, k)
    ensures a <= m <= d && Agrees(cs[m].db, link.slug, link)
  {
    var id := RowBySlug(cs[a].db, link.slug).value.id;
    StoresRow(cs, es, a, link.slug);
    IdsStay(cs, es, id, a, k);
    OnePartPerStep(cs, es, k, id);
    m := IntactMoment(cs, id, a, b, d, k);
    CleanCutHolds(cs, es, link, a, b, d, m, id);
  }
}
