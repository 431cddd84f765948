/** Slug allocation: custom slugs, temporary slugs, and their replacement by the numeral of the row id,
    over every interleaving of create calls with all other statements. */
module Slugs {
  import opened Common
  import opened Domain
  import opened Positional
  import opened Base62
  import opened Store

  // ----- The three shapes of slug -----

  function Decimal(n: nat): (s: string)
    ensures |s| == |Digits(n, 10)|
    ensures forall i :: 0 <= i < |s| ==> '0' <= s[i] <= '9'
  {
    var ds := Digits(n, 10);
    seq(|ds|, i requires 0 <= i < |ds| => '0' + ds[i] as char)
  }

  /** fmt.Sprintf("tmp-%d", time.Now().UnixNano()), for clocks after 1970. */
  function TemporarySlug(nanos: nat): string {
    "tmp-" + Decimal(nanos)
  }

  /** The pattern for custom slugs: 3 to 20 letters, digits and hyphens. */
  predicate CustomSlug(s: string) {
    3 <= |s| <= 20 && forall i :: 0 <= i < |s| ==> IsSymbol(s[i]) || s[i] == '-'
  }

  /** A custom slug is three to twenty characters of the numeral alphabet or hyphens. */
  lemma {:induction false} CustomSlugExact(s: string)
    ensures CustomSlug(s) <==> 3 <= |s| <= 20 && forall c :: c in s ==> c == '-' || c in Alphabet()
  {
    forall c ensures IsSymbol(c) <==> c in Alphabet() {
      SearchFinds(c);
    }
    if CustomSlug(s) {
      forall c | c in s ensures c == '-' || c in Alphabet() {}
    }
  }

  lemma {:induction false} DecimalInjective(m: nat, n: nat)
    requires Decimal(m) == Decimal(n)
    ensures m == n
  {
    var a, b := Digits(m, 10), Digits(n, 10);
    forall i | 0 <= i < |a| ensures a[i] == b[i] {
      assert Decimal(m)[i] == Decimal(n)[i];
    }
    assert a == b;
    EvalDigits(m, 10);
    EvalDigits(n, 10);
  }

  /** Temporary slugs start with "tmp-" and tell clock readings apart. */
  lemma {:induction false} TemporarySlugsApart(m: nat, n: nat)
    ensures "tmp-" <= TemporarySlug(m)
    ensures TemporarySlug(m) == TemporarySlug(n) ==> m == n
  {
    assert TemporarySlug(m)[4..] == Decimal(m) && TemporarySlug(n)[4..] == Decimal(n);
    if TemporarySlug(m) == TemporarySlug(n) {
      DecimalInjective(m, n);
    }
  }

  const SLUG_COLUMN_WIDTH: nat := 20

  /** The temporary slug fits the VARCHAR(20) slug column only while the clock reads less than 10^16
      nanoseconds, which it did until April 1970. */
  lemma {:induction false} TemporarySlugFitsColumn(nanos: nat)
    ensures |TemporarySlug(nanos)| <= SLUG_COLUMN_WIDTH <==> nanos < 10_000_000_000_000_000
  {
    TenTo16();
    var k := |Digits(nanos, 10)|;
    if nanos > 0 {
      LengthExact(nanos, k, 10);
      if k <= 16 {
        PowMonotone(10, k, 16);
      } else {
        PowMonotone(10, 16, k - 1);
      }
    }
  }

  lemma {:induction false} TenTo16()
    ensures Pow(10, 16) == 10_000_000_000_000_000
  {
    assert Pow(10, 4) == 10_000;
    assert Pow(10, 8) == 100_000_000;
    assert Pow(10, 12) == 1_000_000_000_000;
  }

  // ----- The state machine -----

  /** How far the creation of a row has come: custom rows are final; an automatic row is waiting for its
      slug, has it, or was left behind with its temporary slug. */
  datatype Kind = Custom | Waiting | Named | LeftBehind

  datatype State = State(db: Db, kinds: map<int, Kind>)

  /** What a create call stores besides the slug. */
  datatype Fields = Fields(userId: string, dest: string, title: string, passwordHash: string, expiredAt: Option<Time>)

  datatype Event =
    | InsertCustom(slug: string, fields: Fields, now: Time)
    | InsertTemporary(nanos: nat, fields: Fields, now: Time)
    | Name(id: int, now: Time)
    | Abandon(id: int)
    | Other(w: Write, now: Time)

  predicate Enabled(s: State, e: Event) {
    match e
    case InsertCustom(slug, _, _) => CustomSlug(slug) && s.db.nextId <= MAX_INT64
    case InsertTemporary(_, _, _) => s.db.nextId <= MAX_INT64
    case Name(id, _) => id in s.kinds && s.kinds[id] == Waiting
    case Abandon(id) => id in s.kinds && s.kinds[id] == Waiting
    case Other(w, _) => !w.Create? && !w.SetSlug?
  }

  function Inserted(s: State, slug: string, f: Fields, now: Time, kind: Kind): State {
    var (db, r) := InsertLink(s.db, f.userId, slug, f.dest, f.title, f.passwordHash, f.expiredAt, now);
    State(db, if r.Ok? then s.kinds[r.value := kind] else s.kinds)
  }

  /** The second statement of an automatic create: UpdateSlug to the numeral of the id, which may be refused. */
  function Naming(s: State, id: int, now: Time): State {
    var (db, r) := UpdateSlug(s.db, id, EncodeSpec(id), now);
    State(db, s.kinds[id := if r.Ok? then Named else LeftBehind])
  }

  function Step(s: State, e: Event): State
    requires Enabled(s, e)
  {
    match e
    case InsertCustom(slug, fields, now) => Inserted(s, slug, fields, now, Custom)
    case InsertTemporary(nanos, fields, now) => Inserted(s, TemporarySlug(nanos), fields, now, Waiting)
    case Name(id, now) => Naming(s, id, now)
    case Abandon(id) => s.(kinds := s.kinds[id := LeftBehind])
    case Other(w, now) => s.(db := Apply(s.db, w, now))
  }

  // ----- Invariant -----

  ghost predicate IsTemporary(slug: string) {
    exists nanos :: slug == TemporarySlug(nanos)
  }

  ghost predicate Fits(kind: Kind, id: int, slug: string) {
    match kind
    case Custom => CustomSlug(slug)
    case Waiting => IsTemporary(slug)
    case LeftBehind => IsTemporary(slug)
    case Named => slug == EncodeSpec(id)
  }

  ghost predicate Inv(s: State) {
    && Store.Valid(s.db)
    && 1 <= s.db.nextId <= MAX_INT64 + 1
    && s.kinds.Keys == s.db.links.Keys
    && forall id :: id in s.kinds ==> 1 <= id && Fits(s.kinds[id], id, s.db.links[id].slug)
  }

  lemma {:induction false} InsertKeepsInv(s: State, slug: string, f: Fields, now: Time, kind: Kind)
    requires Inv(s) && s.db.nextId <= MAX_INT64 && Fits(kind, s.db.nextId, slug)
    ensures Inv(Inserted(s, slug, f, now, kind))
  {
    ApplyKeepsValid(s.db, Create(f.userId, slug, f.dest, f.title, f.passwordHash, f.expiredAt), now);
  }

  lemma {:induction false} NamingKeepsInv(s: State, id: int, now: Time)
    requires Inv(s) && id in s.kinds && s.kinds[id] == Waiting
    ensures Inv(Naming(s, id, now))
  {
    ApplyKeepsValid(s.db, SetSlug(id, EncodeSpec(id)), now);
    assert Apply(s.db, SetSlug(id, EncodeSpec(id)), now) == UpdateSlug(s.db, id, EncodeSpec(id), now).0;
  }

  lemma {:induction false} OtherKeepsSlugs(db: Db, w: Write, now: Time)
    requires LinksValid(db) && !w.Create? && !w.SetSlug?
    ensures var db' := Apply(db, w, now);
      && db'.links.Keys == db.links.Keys && db'.nextId == db.nextId
      && forall id :: id in db.links ==> db'.links[id].slug == db.links[id].slug
  {
  }

  lemma {:induction false} StepKeepsInv(s: State, e: Event)
    requires Inv(s) && Enabled(s, e)
    ensures Inv(Step(s, e))
  {
    match e
    case InsertCustom(slug, fields, now) => InsertKeepsInv(s, slug, fields, now, Custom);
    case InsertTemporary(nanos, fields, now) => InsertKeepsInv(s, TemporarySlug(nanos), fields, now, Waiting);
    case Name(id, now) => NamingKeepsInv(s, id, now);
    case Abandon(id) =>
    case Other(w, now) =>
      ApplyKeepsValid(s.db, w, now);
      OtherKeepsSlugs(s.db, w, now);
  }

  ghost predicate Run(ss: seq<State>, es: seq<Event>) {
    && |ss| == |es| + 1
    && ss[0] == State(EMPTY, map[])
    && forall i :: 0 <= i < |es| ==> Enabled(ss[i], es[i]) && ss[i + 1] == Step(ss[i], es[i])
  }

  lemma {:induction false} RunInv(ss: seq<State>, es: seq<Event>, i: nat)
    requires Run(ss, es) && i < |ss|
    ensures Inv(ss[i])
  {
    if i > 0 {
      RunInv(ss, es, i - 1);
      StepKeepsInv(ss[i - 1], es[i - 1]);
    }
  }

  // ----- What every run guarantees -----

  ghost predicate Permanent(s: State, id: int) {
    id in s.kinds && (s.kinds[id] == Custom || s.kinds[id] == Named)
  }

  lemma {:induction false} StepKeepsPermanent(s: State, e: Event, id: int)
    requires Inv(s) && Enabled(s, e) && Permanent(s, id)
    ensures var s' := Step(s, e);
      && Permanent(s', id) && id in s'.db.links && s'.db.links[id].slug == s.db.links[id].slug
  {
    if e.Other? {
      OtherKeepsSlugs(s.db, e.w, e.now);
    }
  }

  lemma {:induction false} PermanentKeeps(ss: seq<State>, es: seq<Event>, i: nat, j: nat, id: int)
    requires Run(ss, es) && i <= j < |ss| && Permanent(ss[i], id)
    ensures Permanent(ss[j], id) && id in ss[i].db.links && id in ss[j].db.links
    ensures ss[j].db.links[id].slug == ss[i].db.links[id].slug
    decreases j - i
  {
    RunInv(ss, es, i);
    if i < j {
      PermanentKeeps(ss, es, i, j - 1, id);
      RunInv(ss, es, j - 1);
      StepKeepsPermanent(ss[j - 1], es[j - 1], id);
    }
  }

  /** Once a slug is permanent it resolves to the same link for ever: neither deactivation, nor deletion,
      nor any other create can take it away. */
  lemma {:induction false} PermanentResolves(ss: seq<State>, es: seq<Event>, i: nat, j: nat, id: int)
    requires Run(ss, es) && i <= j < |ss| && Permanent(ss[i], id)
    ensures id in ss[i].db.links
    ensures var slug := ss[i].db.links[id].slug;
      RowBySlug(ss[j].db, slug).Some? && RowBySlug(ss[j].db, slug).value.id == id
  {
    PermanentKeeps(ss, es, i, j, id);
    RunInv(ss, es, j);
    RowBySlugUnique(ss[j].db, id);
  }

  lemma {:induction false} NoHyphen(n: nat, slug: string)
    requires '-' in slug
    ensures Numeral(n) != slug
  {
    NumeralPositions(n);
    var i :| 0 <= i < |slug| && slug[i] == '-';
    assert !IsSymbol('-');
  }

  /** In every state of every run: no two links share a slug; an automatic link that was completed has the
      slug that decodes to its id, of at most eleven characters; and it differs from every slug with a
      hyphen, in particular from every temporary one. */
  lemma {:induction false} SlugsInEveryRun(ss: seq<State>, es: seq<Event>, i: nat)
    requires Run(ss, es) && i < |ss|
    ensures UniqueSlugs(ss[i].db.links)
    ensures ss[i].kinds.Keys == ss[i].db.links.Keys
    ensures forall id :: id in ss[i].kinds && ss[i].kinds[id] == Named ==>
      && DecodeSpec(ss[i].db.links[id].slug) == Ok(id)
      && |ss[i].db.links[id].slug| <= 11
      && '-' !in ss[i].db.links[id].slug
  {
    RunInv(ss, es, i);
    forall id | id in ss[i].kinds && ss[i].kinds[id] == Named
      ensures DecodeSpec(ss[i].db.links[id].slug) == Ok(id)
      ensures |ss[i].db.links[id].slug| <= 11 && '-' !in ss[i].db.links[id].slug
    {
      DecodeEncode(id);
      if '-' in ss[i].db.links[id].slug {
        NoHyphen(id, ss[i].db.links[id].slug);
      }
    }
  }

  lemma {:induction false} TemporaryHasHyphen(slug: string)
    requires IsTemporary(slug)
    ensures '-' in slug
  {
    assert slug[3] == '-';
  }

  /** Naming an automatic link is refused exactly when somebody has taken the numeral of its id as a custom
      slug; the link then keeps its temporary slug and its create call fails. */
  lemma {:induction false} NamingRefusedExactly(s: State, id: int, now: Time)
    requires Inv(s) && Enabled(s, Name(id, now))
    ensures Step(s, Name(id, now)).kinds[id] == LeftBehind <==>
      exists other :: other in s.kinds && s.kinds[other] == Custom && s.db.links[other].slug == EncodeSpec(id)
    ensures Step(s, Name(id, now)).kinds[id] == LeftBehind ==> Step(s, Name(id, now)).db == s.db
  {
    forall other | other in s.kinds && other != id && s.db.links[other].slug == EncodeSpec(id)
      ensures s.kinds[other] == Custom
    {
      if s.kinds[other] == Named {
        SlugOrder(other, id);
      } else if s.kinds[other] != Custom {
        TemporaryHasHyphen(s.db.links[other].slug);
        NoHyphen(id, s.db.links[other].slug);
      }
    }
  }
}
