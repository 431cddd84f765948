/** Positional numerals over an arbitrary base, most significant digit first.

    Both slug shapes of the service are numerals: the permanent slug is the base-62
    numeral of the row id, and the temporary slug carries a decimal clock reading. */
module Positional {

  function Pow(base: nat, e: nat): (p: nat)
    ensures base > 0 ==> p > 0
  {
    if e == 0 then 1 else base * Pow(base, e - 1)
  }

  /** The canonical numeral of n: no leading zero, except for the numeral of 0 itself. */
  function Digits(n: nat, base: nat): (ds: seq<nat>)
    requires base >= 2
    ensures |ds| >= 1 && IsNumeral(ds, base)
    ensures n > 0 ==> ds[0] != 0
    decreases n
  {
    if n < base then [n]
    else
      DivSmaller(n, base);
      Digits(n / base, base) + [n % base]
  }

  ghost predicate IsNumeral(ds: seq<nat>, base: nat) {
    forall i :: 0 <= i < |ds| ==> ds[i] < base
  }

  /** The value of a digit sequence, by Horner's rule. */
  function Eval(ds: seq<nat>, base: nat): nat {
    if ds == [] then 0 else Eval(ds[..|ds| - 1], base) * base + ds[|ds| - 1]
  }

  ghost predicate Canonical(ds: seq<nat>) {
    |ds| == 1 || (|ds| > 1 && ds[0] != 0)
  }

  lemma {:induction false} Gap(p: nat, q: nat, base: nat)
    requires p < q
    ensures p * base + base <= q * base
  {
    var d := q - p - 1;
    assert q * base == p * base + base + d * base by {
      assert q == p + 1 + d;
    }
    assert d * base >= 0;
  }

  lemma {:induction false} DivSmaller(n: nat, base: nat)
    requires base >= 2 && n >= base
    ensures 0 < n / base < n
    ensures n == (n / base) * base + n % base
  {
    var q := n / base;
    assert n == base * q + n % base;
    if q == 0 {
      assert false;
    } else {
      Gap(1, base, q);
    }
  }

  lemma {:induction false} EvalDigits(n: nat, base: nat)
    requires base >= 2
    ensures Eval(Digits(n, base), base) == n
    decreases n
  {
    if n < base {
      assert Digits(n, base)[..0] == [];
    } else {
      DivSmaller(n, base);
      EvalDigits(n / base, base);
      var ds := Digits(n, base);
      assert ds[..|ds| - 1] == Digits(n / base, base);
    }
  }

  lemma {:induction false} ScaleOrder(p: nat, x: nat, q: nat, y: nat, base: nat)
    requires x < base && y < base
    ensures p * base + x < q * base + y <==> p < q || (p == q && x < y)
    ensures p * base + x == q * base + y <==> p == q && x == y
  {
    if p < q {
      Gap(p, q, base);
    } else if q < p {
      Gap(q, p, base);
    }
  }

  lemma {:induction false} MulDivMod(q: nat, r: nat, base: nat)
    requires r < base
    ensures (q * base + r) / base == q && (q * base + r) % base == r
  {
    var n := q * base + r;
    var d, m := n / base, n % base;
    assert n == d * base + m by {
      assert n == base * d + m;
    }
    ScaleOrder(q, r, d, m, base);
  }

  lemma {:induction false} DigitsEval(ds: seq<nat>, base: nat)
    requires base >= 2 && IsNumeral(ds, base) && Canonical(ds)
    ensures Digits(Eval(ds, base), base) == ds
    ensures |ds| > 1 ==> Eval(ds, base) >= base
  {
    var front, last := ds[..|ds| - 1], ds[|ds| - 1];
    var q := Eval(front, base);
    assert ds == front + [last];
    if |ds| == 1 {
      assert q * base == 0;
    } else {
      DigitsEval(front, base);
      if |front| == 1 {
        assert Eval(front[..0], base) == 0;
        assert q == ds[0];
      }
      assert q > 0;
      Gap(0, q, base);
      MulDivMod(q, last, base);
    }
  }

  lemma {:induction false} EvalBounds(ds: seq<nat>, base: nat)
    requires base >= 2 && IsNumeral(ds, base)
    ensures Eval(ds, base) < Pow(base, |ds|)
    ensures ds != [] && ds[0] != 0 ==> Pow(base, |ds| - 1) <= Eval(ds, base)
  {
    if ds != [] {
      var front := ds[..|ds| - 1];
      EvalBounds(front, base);
      var q := Eval(front, base);
      Gap(q, Pow(base, |front|), base);
      assert Pow(base, |ds|) == Pow(base, |front|) * base;
      if ds[0] != 0 && front != [] {
        assert front[0] == ds[0];
        var low := Pow(base, |front| - 1);
        assert Pow(base, |front|) == low * base;
        if low < q {
          Gap(low, q, base);
        }
      }
    }
  }

  lemma {:induction false} PowMonotone(base: nat, a: nat, b: nat)
    requires base >= 1 && a <= b
    ensures Pow(base, a) <= Pow(base, b)
    decreases b - a
  {
    if a < b {
      PowMonotone(base, a, b - 1);
      if base > 1 {
        Gap(1, base, Pow(base, b - 1));
      }
    }
  }

  /** The length of a numeral is exactly the order of magnitude of its value. */
  lemma {:induction false} LengthExact(n: nat, k: nat, base: nat)
    requires base >= 2 && n > 0 && k > 0
    ensures |Digits(n, base)| == k <==> Pow(base, k - 1) <= n < Pow(base, k)
  {
    var ds := Digits(n, base);
    EvalDigits(n, base);
    EvalBounds(ds, base);
    if |ds| < k {
      PowMonotone(base, |ds|, k - 1);
    } else if |ds| > k {
      PowMonotone(base, k, |ds| - 1);
    }
  }

  /** Dictionary order on digit sequences of one length. */
  ghost predicate LexBelow(a: seq<nat>, b: seq<nat>)
    requires |a| == |b|
  {
    exists k :: 0 <= k < |a| && a[..k] == b[..k] && a[k] < b[k]
  }

  /** Shorter first, then dictionary order. */
  ghost predicate Shortlex(a: seq<nat>, b: seq<nat>) {
    |a| < |b| || (|a| == |b| && LexBelow(a, b))
  }

  lemma {:induction false} LexSnoc(a: seq<nat>, b: seq<nat>, x: nat, y: nat)
    requires |a| == |b|
    ensures LexBelow(a + [x], b + [y]) <==> LexBelow(a, b) || (a == b && x < y)
  {
    var u, v := a + [x], b + [y];
    if LexBelow(u, v) {
      var k :| 0 <= k < |u| && u[..k] == v[..k] && u[k] < v[k];
      if k < |a| {
        assert a[..k] == u[..k] == v[..k] == b[..k];
      } else {
        assert a == u[..k] == v[..k] == b;
      }
    }
    if LexBelow(a, b) {
      var k :| 0 <= k < |a| && a[..k] == b[..k] && a[k] < b[k];
      assert u[..k] == a[..k] == b[..k] == v[..k];
      assert u[k] < v[k];
    }
    if a == b && x < y {
      assert u[..|a|] == v[..|a|] && u[|a|] < v[|a|];
    }
  }

  lemma {:induction false} EvalOrder(a: seq<nat>, b: seq<nat>, base: nat)
    requires base >= 2 && |a| == |b| && IsNumeral(a, base) && IsNumeral(b, base)
    ensures Eval(a, base) < Eval(b, base) <==> LexBelow(a, b)
    ensures Eval(a, base) == Eval(b, base) <==> a == b
  {
    if a != [] {
      var n := |a| - 1;
      var a', b', x, y := a[..n], b[..n], a[n], b[n];
      EvalOrder(a', b', base);
      assert a == a' + [x] && b == b' + [y];
      LexSnoc(a', b', x, y);
      ScaleOrder(Eval(a', base), x, Eval(b', base), y, base);
    }
  }

  /** Numeric order is shortlex order of the canonical numerals. */
  lemma {:induction false} OrderExact(a: nat, b: nat, base: nat)
    requires base >= 2
    ensures a < b <==> Shortlex(Digits(a, base), Digits(b, base))
    ensures a == b <==> Digits(a, base) == Digits(b, base)
  {
    var s, t := Digits(a, base), Digits(b, base);
    EvalDigits(a, base);
    EvalDigits(b, base);
    EvalBounds(s, base);
    EvalBounds(t, base);
    if |s| == |t| {
      EvalOrder(s, t, base);
    } else if |s| < |t| {
      PowMonotone(base, |s|, |t| - 1);
    } else {
      PowMonotone(base, |t|, |s| - 1);
    }
  }
}
