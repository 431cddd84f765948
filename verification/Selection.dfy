/** selectABVariant: weighted choice of an A/B variant. The random number is a parameter:
    rand.Intn(n) is draw % n, so every pick in [0, n) is the pick of some draw. */
module Selection {
  import opened Common
  import opened Domain

  /** The sum of the first k weights. */
  function Prefix(vs: seq<ABTest>, k: nat): int
    requires k <= |vs|
  {
    if k == 0 then 0 else Prefix(vs, k - 1) + vs[k - 1].weight
  }

  function Total(vs: seq<ABTest>): int {
    Prefix(vs, |vs|)
  }

  /** The first position at or after i whose cumulative weight exceeds pick. */
  function FirstAbove(vs: seq<ABTest>, pick: int, i: nat): (r: nat)
    requires i <= |vs|
    ensures i <= r <= |vs|
    ensures forall j :: i < j <= r ==> Prefix(vs, j) <= pick
    ensures r < |vs| ==> pick < Prefix(vs, r + 1)
    ensures i < |vs| && pick < Total(vs) ==> r < |vs|
    decreases |vs| - i
  {
    if i == |vs| || pick < Prefix(vs, i + 1) then i else FirstAbove(vs, pick, i + 1)
  }

  /** The position chosen for a pick in [0, Total). */
  function Index(vs: seq<ABTest>, pick: int): (r: nat)
    requires 0 <= pick < Total(vs)
    ensures r < |vs|
  {
    FirstAbove(vs, pick, 0)
  }

  function Selected(vs: seq<ABTest>, draw: nat): Option<ABTest> {
    if vs == [] then None
    else if Total(vs) <= 0 then Some(vs[0])
    else Some(vs[Index(vs, draw % Total(vs))])
  }

  method SelectABVariant(variants: seq<ABTest>, draw: nat) returns (r: Option<ABTest>)
    ensures r == Selected(variants, draw)
  {
    if |variants| == 0 {
      return None;
    }
    var totalWeight := 0;
    for i := 0 to |variants|
      invariant totalWeight == Prefix(variants, i)
    {
      totalWeight := totalWeight + variants[i].weight;
    }
    if totalWeight <= 0 {
      return Some(variants[0]);
    }
    var pick := draw % totalWeight;
    var cumulative := 0;
    for i := 0 to |variants|
      invariant cumulative == Prefix(variants, i)
      invariant FirstAbove(variants, pick, 0) == FirstAbove(variants, pick, i)
    {
      cumulative := cumulative + variants[i].weight;
      if pick < cumulative {
        return Some(variants[i]);
      }
    }
    // The fallback to the last variant is unreachable, whatever the weights are.
    assert false;
  }

  // ----- Exact proportionality -----

  ghost predicate NonNegative(vs: seq<ABTest>) {
    forall i :: 0 <= i < |vs| ==> vs[i].weight >= 0
  }

  lemma {:induction false} PrefixMonotone(vs: seq<ABTest>, i: nat, j: nat)
    requires NonNegative(vs) && i <= j <= |vs|
    ensures Prefix(vs, i) <= Prefix(vs, j)
    decreases j - i
  {
    if i < j {
      PrefixMonotone(vs, i, j - 1);
    }
  }

  /** A pick chooses position i exactly when it lies in i's slice of [0, Total). */
  lemma {:induction false} IndexSlice(vs: seq<ABTest>, pick: int, i: nat)
    requires NonNegative(vs) && 0 <= pick < Total(vs) && i < |vs|
    ensures Index(vs, pick) == i <==> Prefix(vs, i) <= pick < Prefix(vs, i + 1)
  {
    var r := Index(vs, pick);
    if r < i {
      PrefixMonotone(vs, r + 1, i);
    }
  }

  ghost function Interval(lo: int, hi: int): (s: set<int>)
    requires lo <= hi
    ensures forall p :: p in s <==> lo <= p < hi
    ensures |s| == hi - lo
    decreases hi - lo
  {
    if lo == hi then {} else Interval(lo, hi - 1) + {hi - 1}
  }

  ghost function PicksOfPosition(vs: seq<ABTest>, i: nat): set<int> {
    set p: int | 0 <= p < Total(vs) && Index(vs, p) == i
  }

  /** Over all picks in [0, Total) each position is chosen by exactly its weight many. */
  lemma {:induction false} PositionShare(vs: seq<ABTest>, i: nat)
    requires NonNegative(vs) && i < |vs|
    ensures |PicksOfPosition(vs, i)| == vs[i].weight
  {
    var lo, hi := Prefix(vs, i), Prefix(vs, i + 1);
    PrefixMonotone(vs, 0, i);
    PrefixMonotone(vs, i + 1, |vs|);
    forall p | 0 <= p < Total(vs)
      ensures Index(vs, p) == i <==> p in Interval(lo, hi)
    {
      IndexSlice(vs, p, i);
    }
    assert PicksOfPosition(vs, i) == Interval(lo, hi);
  }

  ghost function PicksOf(vs: seq<ABTest>, v: ABTest): set<int> {
    set p: int | 0 <= p < Total(vs) && vs[Index(vs, p)] == v
  }

  lemma {:induction false} PrefixOfFront(vs: seq<ABTest>, x: ABTest, k: nat)
    requires k <= |vs|
    ensures Prefix(vs + [x], k) == Prefix(vs, k)
  {
    if k > 0 {
      PrefixOfFront(vs, x, k - 1);
    }
  }

  lemma {:induction false} PickSnoc(vs: seq<ABTest>, x: ABTest, p: int)
    requires NonNegative(vs) && x.weight >= 0
    ensures Total(vs + [x]) == Total(vs) + x.weight && Total(vs) >= 0
    ensures 0 <= p < Total(vs) ==> (vs + [x])[Index(vs + [x], p)] == vs[Index(vs, p)]
    ensures Total(vs) <= p < Total(vs) + x.weight ==> (vs + [x])[Index(vs + [x], p)] == x
  {
    var ws, n := vs + [x], |vs|;
    assert NonNegative(ws);
    PrefixOfFront(vs, x, n);
    PrefixMonotone(vs, 0, n);
    if 0 <= p < Total(vs) {
      var i := Index(vs, p);
      IndexSlice(vs, p, i);
      PrefixOfFront(vs, x, i);
      PrefixOfFront(vs, x, i + 1);
      IndexSlice(ws, p, i);
    } else if Total(vs) <= p < Total(ws) {
      IndexSlice(ws, p, n);
    }
  }

  lemma {:induction false} PicksWithLast(vs: seq<ABTest>, x: ABTest, v: ABTest, slice: set<int>)
    requires NonNegative(vs) && x.weight >= 0
    requires forall p :: p in slice <==> Total(vs) <= p < Total(vs + [x])
    ensures PicksOf(vs + [x], v) == PicksOf(vs, v) + if x == v then slice else {}
  {
    forall p ensures p in PicksOf(vs + [x], v) <==> p in PicksOf(vs, v) || (x == v && p in slice) {
      PickSnoc(vs, x, p);
    }
  }

  lemma {:induction false} PicksSnoc(vs: seq<ABTest>, x: ABTest, v: ABTest)
    requires NonNegative(vs) && x.weight >= 0
    ensures |PicksOf(vs + [x], v)| == |PicksOf(vs, v)| + if x == v then x.weight else 0
  {
    PickSnoc(vs, x, 0);
    var slice := Interval(Total(vs), Total(vs + [x]));
    PicksWithLast(vs, x, v, slice);
    assert PicksOf(vs, v) !! slice;
  }

  /** The number of picks a variant receives is its weight times its multiplicity. */
  lemma {:induction false} VariantShare(vs: seq<ABTest>, v: ABTest)
    requires NonNegative(vs)
    ensures |PicksOf(vs, v)| == v.weight * multiset(vs)[v]
  {
    if vs == [] {
      assert PicksOf(vs, v) == {};
    } else {
      var front, x := vs[..|vs| - 1], vs[|vs| - 1];
      assert vs == front + [x];
      VariantShare(front, v);
      PicksSnoc(front, x, v);
      assert multiset(vs) == multiset(front) + multiset{x};
      TimesSuccessor(v.weight, multiset(front)[v]);
    }
  }

  lemma {:induction false} TimesSuccessor(w: int, k: nat)
    ensures w * (k + 1) == w * k + w
  {
  }

  /** Shares do not depend on the order in which the query returned the variants. */
  lemma {:induction false} SharesIgnoreOrder(vs: seq<ABTest>, ws: seq<ABTest>, v: ABTest)
    requires NonNegative(vs) && multiset(vs) == multiset(ws)
    ensures |PicksOf(vs, v)| == |PicksOf(ws, v)|
  {
    forall i | 0 <= i < |ws| ensures ws[i].weight >= 0 {
      assert ws[i] in multiset(vs);
    }
    VariantShare(vs, v);
    VariantShare(ws, v);
  }
}
