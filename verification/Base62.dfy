/** pkg/base62: slugs as base-62 numerals of row ids, on 64-bit machine integers. */
module Base62 {
  import opened Common
  import opened Positional
  import opened Text

  const BASE: nat := 62
  const MAX_INT64: int := 0x7FFF_FFFF_FFFF_FFFF
  const TWO64: int := 0x1_0000_0000_0000_0000

  newtype int64 = x: int | -0x8000_0000_0000_0000 <= x <= 0x7FFF_FFFF_FFFF_FFFF

  // ----- The alphabet -----

  function Decimals(): string { "0123456789" }

  function Lower(): string { "abcdefghijklmnopqrstuvwxyz" }

  function Upper(): string { "ABCDEFGHIJKLMNOPQRSTUVWXYZ" }

  function Alphabet(): string { Decimals() + Lower() + Upper() }

  /** The character of digit d, by arithmetic on character codes. */
  function Symbol(d: nat): char
    requires d < BASE
  {
    if d < 10 then '0' + d as char
    else if d < 36 then 'a' + (d - 10) as char
    else 'A' + (d - 36) as char
  }

  predicate IsSymbol(c: char) {
    '0' <= c <= '9' || 'a' <= c <= 'z' || 'A' <= c <= 'Z'
  }

  /** The digit of a symbol: the inverse of Symbol. */
  function Position(c: char): (d: nat)
    requires IsSymbol(c)
    ensures d < BASE && Symbol(d) == c
  {
    if '0' <= c <= '9' then (c - '0') as nat
    else if 'a' <= c <= 'z' then (c - 'a') as nat + 10
    else (c - 'A') as nat + 36
  }

  lemma {:induction false} AlphabetIs(d: nat)
    requires d < BASE
    ensures |Alphabet()| == BASE && Alphabet()[d] == Symbol(d)
  {
    if d < 10 {
      assert forall i :: 0 <= i < 10 ==> Decimals()[i] == '0' + i as char;
    } else if d < 36 {
      assert forall i :: 0 <= i < 26 ==> Lower()[i] == 'a' + i as char;
    } else {
      assert forall i :: 0 <= i < 26 ==> Upper()[i] == 'A' + i as char;
    }
  }

  function LetterOf(d: nat): (c: char)
    requires d < BASE
    ensures c == Symbol(d)
  {
    AlphabetIs(d);
    Alphabet()[d]
  }

  lemma {:induction false} SearchFindsIn(s: string, c: char)
    requires |s| == BASE && forall d :: 0 <= d < BASE ==> s[d] == Symbol(d)
    ensures IndexOf(s, c) == if IsSymbol(c) then Position(c) else -1
  {
    var r := IndexOf(s, c);
    if r >= 0 {
      PositionSymbol(r);
    }
    if IsSymbol(c) {
      assert s[Position(c)] == c;
    }
  }

  lemma {:induction false} PositionSymbol(d: nat)
    requires d < BASE
    ensures IsSymbol(Symbol(d)) && Position(Symbol(d)) == d
  {
  }

  /** Searching the alphabet literal finds exactly the digit of each symbol. */
  lemma {:induction false} SearchFinds(c: char)
    ensures IndexOf(Alphabet(), c) == if IsSymbol(c) then Position(c) else -1
  {
    AlphabetIs(0);
    forall d | 0 <= d < BASE ensures Alphabet()[d] == Symbol(d) {
      AlphabetIs(d);
    }
    SearchFindsIn(Alphabet(), c);
  }

  /** strings.IndexRune(alphabet, c). */
  method FindSymbol(c: char) returns (r: int)
    ensures r == if IsSymbol(c) then Position(c) else -1
  {
    SearchFinds(c);
    r := IndexOf(Alphabet(), c);
  }

  // ----- Specification: numerals as strings -----

  function Spell(ds: seq<nat>): (s: string)
    requires IsNumeral(ds, BASE)
    ensures |s| == |ds| && forall i :: 0 <= i < |ds| ==> s[i] == Symbol(ds[i])
  {
    seq(|ds|, i requires 0 <= i < |ds| => Symbol(ds[i]))
  }

  /** The base-62 numeral of n. */
  function Numeral(n: nat): (s: string) {
    Spell(Digits(n, BASE))
  }

  predicate Valid(s: string) {
    forall i :: 0 <= i < |s| ==> IsSymbol(s[i])
  }

  function Positions(s: string): (ds: seq<nat>)
    requires Valid(s)
    ensures |ds| == |s|
    ensures forall i :: 0 <= i < |s| ==> ds[i] == Position(s[i])
    ensures IsNumeral(ds, BASE)
  {
    seq(|s|, i requires 0 <= i < |s| => Position(s[i]))
  }

  /** The mathematical (unbounded) value of a numeral string. */
  function Value(s: string): nat
    requires Valid(s)
  {
    Eval(Positions(s), BASE)
  }

  /** Two's-complement truncation to 64 bits, as Go's int64 arithmetic performs it. */
  function Wrap64(x: int): (r: int)
    ensures -MAX_INT64 - 1 <= r <= MAX_INT64
    ensures (x - r) % 0x1_0000_0000_0000_0000 == 0
    ensures -MAX_INT64 - 1 <= x <= MAX_INT64 ==> r == x
  {
    var m := x % 0x1_0000_0000_0000_0000;
    if m > MAX_INT64 then m - 0x1_0000_0000_0000_0000 else m
  }

  function EncodeSpec(id: int): string {
    if id < 0 then "" else Numeral(id)
  }

  datatype DecodeError = EmptyString | InvalidCharacter(c: char)

  /** Length of the longest prefix inside the alphabet. */
  function ValidPrefix(s: string): (n: nat)
    ensures n <= |s| && Valid(s[..n])
    ensures n < |s| ==> !IsSymbol(s[n])
    ensures n == |s| <==> Valid(s)
  {
    if s == "" || !IsSymbol(s[0]) then 0
    else
      var n := 1 + ValidPrefix(s[1..]);
      assert s[..n] == [s[0]] + s[1..][..n - 1];
      n
  }

  function DecodeSpec(s: string): Result<int, DecodeError> {
    if s == "" then Err(EmptyString)
    else if Valid(s) then Ok(Wrap64(Value(s)))
    else Err(InvalidCharacter(s[ValidPrefix(s)]))
  }

  // ----- The loops of Encode, Decode and IsValid -----

  function Reversed(s: string): (r: string)
    ensures |r| == |s|
    ensures forall k :: 0 <= k < |s| ==> r[k] == s[|s| - 1 - k]
  {
    if s == "" then "" else Reversed(s[1..]) + [s[0]]
  }

  lemma {:induction false} ReversedSnoc(s: string, c: char)
    ensures Reversed(s + [c]) == [c] + Reversed(s)
  {
  }

  method ReverseInPlace(buf: array<char>, n: nat)
    requires n <= buf.Length
    modifies buf
    ensures buf[..n] == Reversed(old(buf[..n]))
    ensures buf[n..] == old(buf[n..])
  {
    ghost var was := buf[..];
    var i, j := 0, n - 1;
    while i < j
      invariant 0 <= i && i + j == n - 1 && i <= j + 2
      invariant forall k :: 0 <= k < i ==> buf[k] == was[n - 1 - k] && buf[n - 1 - k] == was[k]
      invariant forall k :: i <= k <= j ==> buf[k] == was[k]
      invariant buf[n..] == was[n..]
    {
      buf[i], buf[j] := buf[j], buf[i];
      i, j := i + 1, j - 1;
    }
  }

  lemma {:induction false} NumeralStep(n: nat)
    requires n > 0
    ensures Numeral(n) == (if n / BASE > 0 then Numeral(n / BASE) else "") + [Symbol(n % BASE)]
  {
    if n >= BASE {
      DivSmaller(n, BASE);
      assert Digits(n, BASE) == Digits(n / BASE, BASE) + [n % BASE];
    } else {
      assert n / BASE == 0 && n % BASE == n;
    }
  }

  lemma {:induction false} ElevenDigits()
    ensures MAX_INT64 < Pow(BASE, 11)
  {
    assert Pow(62, 11) == 62 * 62 * 62 * 62 * 62 * 62 * 62 * 62 * 62 * 62 * 62;
  }

  lemma {:induction false} AtMostEleven(id: int)
    requires 0 <= id <= MAX_INT64
    ensures |Numeral(id)| <= 11
  {
    var k := |Numeral(id)|;
    if id > 0 && k > 11 {
      ElevenDigits();
      LengthExact(id, k, BASE);
      PowMonotone(BASE, 11, k - 1);
    }
  }

  /** What the buffer still lacks of the numeral of id when rest remains to be divided. */
  function Pending(rest: int): (s: string)
    ensures rest > 0 ==> |s| > 0
  {
    if rest > 0 then Numeral(rest) else ""
  }

  lemma {:induction false} EncodeStep(rest: nat, written: string)
    requires rest > 0
    ensures Pending(rest) + Reversed(written) == Pending(rest / BASE) + Reversed(written + [Symbol(rest % BASE)])
  {
    NumeralStep(rest);
    ReversedSnoc(written, Symbol(rest % BASE));
  }

  /** base62.Encode: least significant digit first into an 11-byte buffer, then reversed in place. */
  method Encode(id: int64) returns (s: string)
    ensures s == EncodeSpec(id as int)
  {
    if id == 0 {
      return [LetterOf(0)];
    }
    var buf, n, rest := new char[11], 0, id;
    if id > 0 {
      AtMostEleven(id as int);
    }
    while rest > 0
      invariant 0 <= n <= 11
      invariant rest == id || rest >= 0
      invariant Pending(id as int) == Pending(rest as int) + Reversed(buf[..n])
    {
      var digit := LetterOf((rest % 62) as nat);
      EncodeStep(rest as int, buf[..n]);
      ghost var written := buf[..n];
      buf[n] := digit;
      n := n + 1;
      assert buf[..n] == written + [digit];
      rest := rest / 62;
    }
    ReverseInPlace(buf, n);
    s := buf[..n];
  }

  lemma {:induction false} WrapShift(x: int, k: int)
    ensures Wrap64(x + k * 0x1_0000_0000_0000_0000) == Wrap64(x)
  {
  }

  /** id*base + int64(pos): both operations truncate. */
  function Accumulate(id: int, pos: int): int {
    Wrap64(Wrap64(id * 62) + pos)
  }

  lemma {:induction false} WrapStep(a: int, p: int)
    ensures Accumulate(Wrap64(a), p) == Wrap64(a * 62 + p)
  {
    var i := (a - Wrap64(a)) / 0x1_0000_0000_0000_0000;
    assert a == Wrap64(a) + i * 0x1_0000_0000_0000_0000;
    WrapShift(Wrap64(a) * 62 + p, 62 * i);
    var j := (Wrap64(a) * 62 - Wrap64(Wrap64(a) * 62)) / 0x1_0000_0000_0000_0000;
    assert Wrap64(a) * 62 == Wrap64(Wrap64(a) * 62) + j * 0x1_0000_0000_0000_0000;
    WrapShift(Wrap64(Wrap64(a) * 62) + p, j);
  }

  lemma {:induction false} ValueSnoc(s: string, k: nat)
    requires k < |s| && Valid(s[..k]) && IsSymbol(s[k])
    ensures Valid(s[..k + 1])
    ensures Value(s[..k + 1]) == Value(s[..k]) * 62 + Position(s[k])
  {
    var ds := Positions(s[..k + 1]);
    assert ds[..k] == Positions(s[..k]);
  }

  lemma {:induction false} FirstInvalid(s: string, k: nat)
    requires k < |s| && Valid(s[..k]) && !IsSymbol(s[k])
    ensures !Valid(s) && ValidPrefix(s) == k
  {
    var n := ValidPrefix(s);
    assert forall i :: 0 <= i < n ==> s[i] == s[..n][i];
    assert forall i :: 0 <= i < k ==> s[i] == s[..k][i];
  }

  lemma {:induction false} DecodeCases(s: string)
    requires s != ""
    ensures Valid(s) ==> DecodeSpec(s) == Ok(Wrap64(Value(s)))
    ensures !Valid(s) ==> DecodeSpec(s) == Err(InvalidCharacter(s[ValidPrefix(s)]))
  {
  }

  lemma {:induction false} ValueStep(s: string, k: nat, id: int)
    requires k < |s| && Valid(s[..k]) && IsSymbol(s[k]) && id == Wrap64(Value(s[..k]))
    ensures Valid(s[..k + 1]) && Accumulate(id, Position(s[k])) == Wrap64(Value(s[..k + 1]))
  {
    ValueSnoc(s, k);
    WrapStep(Value(s[..k]), Position(s[k]));
  }

  /** base62.Decode: Horner's rule on int64, which wraps silently on overflow. */
  method Decode(s: string) returns (r: Result<int, DecodeError>)
    ensures r == DecodeSpec(s)
  {
    if s == "" {
      return Err(EmptyString);
    }
    DecodeCases(s);
    var id := 0;
    for k := 0 to |s|
      invariant Valid(s[..k]) && id == Wrap64(Value(s[..k]))
    {
      var pos := FindSymbol(s[k]);
      if pos == -1 {
        FirstInvalid(s, k);
        return Err(InvalidCharacter(s[k]));
      }
      ValueStep(s, k, id);
      id := Accumulate(id, pos);
    }
    assert s[..|s|] == s;
    r := Ok(id);
  }

  lemma {:induction false} Accepts(s: string)
    ensures DecodeSpec(s).Ok? <==> s != "" && forall i :: 0 <= i < |s| ==> IsSymbol(s[i])
  {
  }

  /** base62.IsValid accepts exactly the strings that Decode accepts. */
  method IsValid(s: string) returns (ok: bool)
    ensures ok <==> DecodeSpec(s).Ok?
  {
    Accepts(s);
    if s == "" {
      return false;
    }
    for k := 0 to |s|
      invariant forall i :: 0 <= i < k ==> IsSymbol(s[i])
    {
      var pos := FindSymbol(s[k]);
      if pos < 0 {
        return false;
      }
    }
    return true;
  }

  // ----- Round trips -----

  lemma {:induction false} NumeralPositions(n: nat)
    ensures Valid(Numeral(n)) && Positions(Numeral(n)) == Digits(n, BASE)
  {
    var ds, s := Digits(n, BASE), Numeral(n);
    forall i | 0 <= i < |ds|
      ensures IsSymbol(s[i]) && Position(s[i]) == ds[i]
    {
      PositionSymbol(ds[i]);
    }
  }

  /** No accumulator of a decode exceeds the final value. */
  lemma {:induction false} PrefixValue(s: string, k: nat)
    requires k <= |s| && Valid(s)
    ensures Value(s[..k]) <= Value(s)
    decreases |s| - k
  {
    if k < |s| {
      ValueSnoc(s, k);
      PrefixValue(s, k + 1);
    } else {
      assert s[..k] == s;
    }
  }

  /** Every id the database can issue survives Encode then Decode; the slug has at most eleven
      characters, and no intermediate accumulator of the decode leaves int64. */
  lemma {:induction false} DecodeEncode(id: int)
    requires 0 <= id <= MAX_INT64
    ensures DecodeSpec(EncodeSpec(id)) == Ok(id)
    ensures 1 <= |EncodeSpec(id)| <= 11
    ensures Valid(EncodeSpec(id))
    ensures forall k :: 0 <= k <= |EncodeSpec(id)| ==> Value(EncodeSpec(id)[..k]) <= MAX_INT64
  {
    var s := EncodeSpec(id);
    NumeralPositions(id);
    EvalDigits(id, BASE);
    forall k | 0 <= k <= |s| ensures Value(s[..k]) <= MAX_INT64 {
      PrefixValue(s, k);
    }
    AtMostEleven(id);
  }

  ghost predicate CanonicalSlug(s: string) {
    |s| == 1 || (|s| > 1 && s[0] != '0')
  }

  lemma {:induction false} NumeralOfValue(s: string)
    requires s != "" && Valid(s)
    ensures Numeral(Value(s)) == s <==> CanonicalSlug(s)
  {
    var ds := Positions(s);
    assert ds[0] == 0 <==> s[0] == '0';
    if CanonicalSlug(s) {
      DigitsEval(ds, BASE);
    } else {
      NumeralPositions(Value(s));
    }
  }

  /** For every string Decode accepts: encoding the result gives the string back exactly when it has
      no leading zero and its value fits int64. An overflowing string is accepted and decodes to
      some other number. */
  lemma {:induction false} EncodeDecode(s: string)
    requires DecodeSpec(s).Ok?
    ensures EncodeSpec(DecodeSpec(s).value) == s <==> CanonicalSlug(s) && Value(s) <= MAX_INT64
    ensures DecodeSpec(s) == Ok(Value(s)) <==> Value(s) <= MAX_INT64
  {
    NumeralOfValue(s);
    var id := DecodeSpec(s).value;
    if EncodeSpec(id) == s && id >= 0 {
      NumeralPositions(id);
      EvalDigits(id, BASE);
    }
  }

  /** Overflow is silent: the eleven-character numeral of 2^64 decodes to 0, like the slug "0". */
  lemma {:induction false} DecodeOverflowExample()
    ensures Valid("lYGhA16ahyg") && Value("lYGhA16ahyg") == TWO64
    ensures DecodeSpec("lYGhA16ahyg") == DecodeSpec("0") == Ok(0)
  {
    var s := "lYGhA16ahyg";
    assert Valid(s) && Valid("0");
    OverflowDigits();
    assert Positions(s) == [21, 60, 42, 17, 36, 1, 6, 10, 17, 34, 16];
    assert Positions("0")[..0] == [];
  }

  lemma {:induction false} EvalSnoc(ds: seq<nat>, d: nat)
    ensures Eval(ds + [d], BASE) == Eval(ds, BASE) * BASE + d
  {
    assert (ds + [d])[..|ds|] == ds;
  }

  lemma {:induction false} OverflowFront() returns (ds: seq<nat>)
    ensures ds == [21, 60, 42, 17, 36, 1] && Eval(ds, BASE) == 20_135_446_989
  {
    ds := [];
    EvalSnoc(ds, 21);
    ds := ds + [21];
    EvalSnoc(ds, 60);
    ds := ds + [60];
    EvalSnoc(ds, 42);
    ds := ds + [42];
    EvalSnoc(ds, 17);
    ds := ds + [17];
    EvalSnoc(ds, 36);
    ds := ds + [36];
    EvalSnoc(ds, 1);
    ds := ds + [1];
  }

  lemma {:induction false} OverflowDigits()
    ensures Eval([21, 60, 42, 17, 36, 1, 6, 10, 17, 34, 16], BASE) == TWO64
  {
    var ds := OverflowFront();
    EvalSnoc(ds, 6);
    ds := ds + [6];
    EvalSnoc(ds, 10);
    ds := ds + [10];
    EvalSnoc(ds, 17);
    ds := ds + [17];
    EvalSnoc(ds, 34);
    ds := ds + [34];
    EvalSnoc(ds, 16);
    ds := ds + [16];
    assert ds == [21, 60, 42, 17, 36, 1, 6, 10, 17, 34, 16];
  }

  /** Digits first, then lower case, then upper case. */
  lemma {:induction false} NumeralExamples()
    ensures EncodeSpec(0) == "0" && EncodeSpec(9) == "9" && EncodeSpec(10) == "a" && EncodeSpec(35) == "z"
    ensures EncodeSpec(36) == "A" && EncodeSpec(61) == "Z" && EncodeSpec(62) == "10"
  {
    assert Digits(62, BASE) == Digits(1, BASE) + [0];
  }

  // ----- Order and length -----

  lemma {:induction false} SlugLength(id: int, k: nat)
    requires 0 < id && k > 0
    ensures |EncodeSpec(id)| == k <==> Pow(BASE, k - 1) <= id < Pow(BASE, k)
  {
    LengthExact(id, k, BASE);
  }

  /** Slugs in shortlex order of their alphabet positions are ids in numeric order; distinct ids
      have distinct slugs. */
  lemma {:induction false} SlugOrder(a: int, b: int)
    requires 0 <= a && 0 <= b
    ensures Valid(EncodeSpec(a)) && Valid(EncodeSpec(b))
    ensures a < b <==> Shortlex(Positions(EncodeSpec(a)), Positions(EncodeSpec(b)))
    ensures EncodeSpec(a) == EncodeSpec(b) <==> a == b
  {
    NumeralPositions(a);
    NumeralPositions(b);
    OrderExact(a, b, BASE);
  }
}
