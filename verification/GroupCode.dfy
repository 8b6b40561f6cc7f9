/** Group codes: a UUID written as 22 base-62 symbols, by in-place long division in the server and by exact integer
    arithmetic in the database. */
module GroupCode {
  const LENGTH: nat := 22
  const UUID_LENGTH: nat := 16
  const NUMERALS := "0123456789"
  const UPPER_CASE := "ABCDEFGHIJKLMNOPQRSTUVWXYZ"
  const LOWER_CASE := "abcdefghijklmnopqrstuvwxyz"
  const ALPHABET := NUMERALS + UPPER_CASE + LOWER_CASE

  type Byte = n: nat | n < 0x100
  type Word = n: nat | n < 0x1_0000
  type Digit = n: nat | n < 62

  function Pow(base: nat, exponent: nat): nat {
    if exponent == 0 then 1 else base * Pow(base, exponent - 1)
  }

  /** The number that digits in some base stand for, most significant first. */
  function Value(digits: seq<nat>, base: nat): nat
    decreases |digits|
  {
    if digits == [] then 0 else Value(digits[..|digits| - 1], base) * base + digits[|digits| - 1]
  }

  /** The last `n` base-62 digits of a number. */
  function Digits(v: nat, n: nat): (digits: seq<Digit>)
    ensures |digits| == n
  {
    if n == 0 then [] else Digits(v / 62, n - 1) + [v % 62]
  }

  function Symbol(d: Digit): char {
    ALPHABET[d]
  }

  function Symbols(digits: seq<Digit>): (code: string)
    ensures |code| == |digits|
    ensures forall i | 0 <= i < |digits| :: code[i] == Symbol(digits[i])
    decreases |digits|
  {
    if digits == [] then "" else Symbols(digits[..|digits| - 1]) + [Symbol(digits[|digits| - 1])]
  }

  function Encode(v: nat): string {
    Symbols(Digits(v, LENGTH))
  }

  // ----- arithmetic of the encoding -----

  lemma NextDigitBound(v: nat, p: nat, base: nat, digit: nat)
    requires v < p && digit < base
    ensures v * base + digit < base * p
  {
    assert (v + 1) * base <= p * base;
  }

  lemma {:induction false} ValueIsBounded(digits: seq<nat>, base: nat)
    requires base > 0 && forall i | 0 <= i < |digits| :: digits[i] < base
    ensures Value(digits, base) < Pow(base, |digits|)
    decreases |digits|
  {
    if digits != [] {
      var init := digits[..|digits| - 1];
      ValueIsBounded(init, base);
      NextDigitBound(Value(init, base), Pow(base, |init|), base, digits[|digits| - 1]);
      assert Pow(base, |digits|) == base * Pow(base, |init|);
    }
  }

  lemma QuotientBound(v: nat, p: nat)
    requires v < 62 * p
    ensures v / 62 < p
  {}

  lemma {:induction false} DigitsHaveTheValue(v: nat, n: nat)
    requires v < Pow(62, n)
    ensures Value(Digits(v, n), 62) == v
    decreases n
  {
    if n > 0 {
      QuotientBound(v, Pow(62, n - 1));
      DigitsHaveTheValue(v / 62, n - 1);
      assert Digits(v, n)[..n - 1] == Digits(v / 62, n - 1);
    }
  }

  lemma {:induction false} OnlyTheseDigits(digits: seq<Digit>)
    ensures Digits(Value(digits, 62), |digits|) == digits
    decreases |digits|
  {
    if digits != [] {
      OnlyTheseDigits(digits[..|digits| - 1]);
    }
  }

  lemma {:induction false} PowersMultiply(base: nat, m: nat, n: nat)
    ensures Pow(base, m + n) == Pow(base, m) * Pow(base, n)
    decreases m
  {
    if m > 0 {
      PowersMultiply(base, m - 1, n);
      var p, q := Pow(base, m - 1), Pow(base, n);
      assert Pow(base, m + n) == base * (p * q) == base * p * q;
    }
  }

  lemma PowersUsed()
    ensures Pow(256, UUID_LENGTH) == 340282366920938463463374607431768211456
    ensures Pow(62, LENGTH - 1) == 43674252383913877424036476406214950912
    ensures Pow(62, LENGTH) == 62 * Pow(62, LENGTH - 1)
  {
    PowersMultiply(256, 8, 8);
    PowersMultiply(256, 4, 4);
    assert Pow(256, 4) == 256 * 256 * 256 * 256;
    PowersMultiply(62, 14, 7);
    PowersMultiply(62, 7, 7);
    assert Pow(62, 7) == 62 * Pow(62, 6) == 62 * 62 * 62 * Pow(62, 4) == 3521614606208;
  }

  /** Every UUID is below 8 * 62^21, so 22 digits suffice and the first is at most 7. */
  lemma UuidsFit(uuid: seq<Byte>)
    requires |uuid| == UUID_LENGTH
    ensures Value(uuid, 256) < 8 * Pow(62, LENGTH - 1) < Pow(62, LENGTH)
  {
    ValueIsBounded(uuid, 256);
    PowersUsed();
  }

  // ----- reading a code back -----

  predicate IsAlnum(c: char) {
    '0' <= c <= '9' || 'A' <= c <= 'Z' || 'a' <= c <= 'z'
  }

  /** The number a code stands for: an independent reading of the alphabet. */
  function DigitOf(c: char): Digit
    requires IsAlnum(c)
  {
    if c <= '9' then c as int - '0' as int
    else if c <= 'Z' then c as int - 'A' as int + 10
    else c as int - 'a' as int + 36
  }

  predicate IsCode(code: string) {
    |code| == LENGTH && forall i | 0 <= i < |code| :: IsAlnum(code[i])
  }

  function DigitsOf(code: string): (digits: seq<Digit>)
    requires forall i | 0 <= i < |code| :: IsAlnum(code[i])
    ensures |digits| == |code|
    ensures forall i | 0 <= i < |code| :: digits[i] == DigitOf(code[i])
    decreases |code|
  {
    if code == "" then [] else DigitsOf(code[..|code| - 1]) + [DigitOf(code[|code| - 1])]
  }

  function Decode(code: string): nat
    requires IsCode(code)
  {
    Value(DigitsOf(code), 62)
  }

  lemma Numerals(d: nat)
    requires d < 10
    ensures NUMERALS[d] as int == '0' as int + d
  {}

  lemma UpperCase(d: nat)
    requires d < 26
    ensures UPPER_CASE[d] as int == 'A' as int + d
  {}

  lemma LowerCase(d: nat)
    requires d < 26
    ensures LOWER_CASE[d] as int == 'a' as int + d
  {}

  lemma InRuns(first: string, second: string, third: string, d: nat)
    requires d < |first| + |second| + |third|
    ensures (first + second + third)[d] ==
            if d < |first| then first[d]
            else if d < |first| + |second| then second[d - |first|]
            else third[d - |first| - |second|]
  {}

  lemma SymbolIsAlnum(d: Digit)
    ensures IsAlnum(Symbol(d)) && DigitOf(Symbol(d)) == d
  {
    InRuns(NUMERALS, UPPER_CASE, LOWER_CASE, d);
    if d < 10 { Numerals(d); } else if d < 36 { UpperCase(d - 10); } else { LowerCase(d - 36); }
  }

  lemma DigitsDiffer(c: char, d: char)
    requires IsAlnum(c) && IsAlnum(d) && DigitOf(c) == DigitOf(d)
    ensures c == d
  {}

  lemma SymbolOfDigit(c: char)
    requires IsAlnum(c)
    ensures Symbol(DigitOf(c)) == c
  {
    SymbolIsAlnum(DigitOf(c));
    DigitsDiffer(Symbol(DigitOf(c)), c);
  }

  /** Every code made is well formed and reads back as its UUID. */
  lemma CodeReadsBack(uuid: seq<Byte>)
    requires |uuid| == UUID_LENGTH
    ensures IsCode(Encode(Value(uuid, 256))) && Decode(Encode(Value(uuid, 256))) == Value(uuid, 256)
  {
    var v := Value(uuid, 256);
    var code, digits := Encode(v), Digits(v, LENGTH);
    forall i | 0 <= i < LENGTH ensures IsAlnum(code[i]) && DigitOf(code[i]) == digits[i] {
      SymbolIsAlnum(digits[i]);
    }
    assert DigitsOf(code) == digits;
    UuidsFit(uuid);
    DigitsHaveTheValue(v, LENGTH);
  }

  /** No other 22-symbol code reads as that number: this pins the encoding down. */
  lemma CodeIsUnique(code: string)
    requires IsCode(code)
    ensures Encode(Decode(code)) == code
  {
    OnlyTheseDigits(DigitsOf(code));
    forall i | 0 <= i < LENGTH ensures Symbol(DigitsOf(code)[i]) == code[i] {
      SymbolOfDigit(code[i]);
    }
  }

  // ----- order -----

  /** The order of sequences of one length: the first difference decides. */
  ghost predicate Before(a: seq<nat>, b: seq<nat>) {
    |a| == |b| && exists i :: 0 <= i < |a| && a[i] < b[i] && a[..i] == b[..i]
  }

  lemma BeforeByLast(a: seq<nat>, b: seq<nat>)
    requires |a| == |b| > 0
    ensures var n := |a| - 1;
      Before(a, b) <==> Before(a[..n], b[..n]) || (a[..n] == b[..n] && a[n] < b[n])
  {
    var n := |a| - 1;
    if Before(a, b) {
      var i :| 0 <= i < |a| && a[i] < b[i] && a[..i] == b[..i];
      if i < n {
        assert a[..n][..i] == a[..i] && b[..n][..i] == b[..i];
        assert a[..n][i] < b[..n][i];
      }
    }
    if Before(a[..n], b[..n]) {
      var i :| 0 <= i < n && a[..n][i] < b[..n][i] && a[..n][..i] == b[..n][..i];
      assert a[..n][..i] == a[..i] && b[..n][..i] == b[..i];
      assert a[i] < b[i];
    }
  }

  lemma LeadingPartDecides(u: nat, v: nat, x: nat, y: nat, base: nat)
    requires x < base && y < base
    ensures u * base + x < v * base + y <==> u < v || (u == v && x < y)
    ensures u * base + x == v * base + y <==> u == v && x == y
  {
    if u < v {
      assert (u + 1) * base <= v * base;
      assert (u + 1) * base == u * base + base;
    } else if v < u {
      assert (v + 1) * base <= u * base;
      assert (v + 1) * base == v * base + base;
    }
  }

  lemma {:induction false} OrderIsNumeric(a: seq<nat>, b: seq<nat>, base: nat)
    requires |a| == |b|
    requires forall i | 0 <= i < |a| :: a[i] < base && b[i] < base
    ensures Before(a, b) <==> Value(a, base) < Value(b, base)
    ensures a == b <==> Value(a, base) == Value(b, base)
    decreases |a|
  {
    if a != [] {
      var n := |a| - 1;
      OrderIsNumeric(a[..n], b[..n], base);
      BeforeByLast(a, b);
      LeadingPartDecides(Value(a[..n], base), Value(b[..n], base), a[n], b[n], base);
      assert a == a[..n] + [a[n]] && b == b[..n] + [b[n]];
    }
  }

  function CodePoints(code: string): (points: seq<nat>)
    ensures |points| == |code|
    ensures forall i | 0 <= i < |code| :: points[i] == code[i] as nat
    decreases |code|
  {
    if code == "" then [] else CodePoints(code[..|code| - 1]) + [code[|code| - 1] as nat]
  }

  /** The alphabet ascends. */
  lemma SymbolsAscend(d: Digit, e: Digit)
    ensures Symbol(d) as nat < Symbol(e) as nat <==> d < e
    ensures Symbol(d) == Symbol(e) <==> d == e
  {
    SymbolIsAlnum(d);
    SymbolIsAlnum(e);
  }

  lemma SamePoints(a: seq<Digit>, b: seq<Digit>, k: nat)
    requires k < |a| == |b|
    ensures CodePoints(Symbols(a))[k] == CodePoints(Symbols(b))[k] <==> a[k] == b[k]
    ensures CodePoints(Symbols(a))[k] < CodePoints(Symbols(b))[k] <==> a[k] < b[k]
  {
    SymbolsAscend(a[k], b[k]);
  }

  lemma SymbolsKeepPrefixes(a: seq<Digit>, b: seq<Digit>, i: nat)
    requires i <= |a| == |b|
    ensures CodePoints(Symbols(a))[..i] == CodePoints(Symbols(b))[..i] <==> a[..i] == b[..i]
  {
    var p, q := CodePoints(Symbols(a)), CodePoints(Symbols(b));
    forall k | 0 <= k < i ensures p[..i][k] == q[..i][k] <==> a[..i][k] == b[..i][k] {
      SamePoints(a, b, k);
    }
    assert p[..i] == q[..i] <==> forall k | 0 <= k < i :: p[..i][k] == q[..i][k];
    assert a[..i] == b[..i] <==> forall k | 0 <= k < i :: a[..i][k] == b[..i][k];
  }

  lemma SymbolsKeepOrder(a: seq<Digit>, b: seq<Digit>)
    requires |a| == |b|
    ensures Before(CodePoints(Symbols(a)), CodePoints(Symbols(b))) <==> Before(a, b)
  {
    var p, q := CodePoints(Symbols(a)), CodePoints(Symbols(b));
    forall i | 0 <= i < |a|
      ensures (p[i] < q[i] && p[..i] == q[..i]) <==> (a[i] < b[i] && a[..i] == b[..i])
    {
      SymbolsKeepPrefixes(a, b, i);
      SamePoints(a, b, i);
    }
  }

  /** Codes sort, byte by byte, exactly as their UUIDs do; different UUIDs have different codes. */
  lemma CodesSortAsUuids(u: seq<Byte>, v: seq<Byte>)
    requires |u| == |v| == UUID_LENGTH
    ensures Before(CodePoints(Encode(Value(u, 256))), CodePoints(Encode(Value(v, 256)))) <==> Before(u, v)
    ensures Encode(Value(u, 256)) == Encode(Value(v, 256)) <==> u == v
  {
    var a, b := Digits(Value(u, 256), LENGTH), Digits(Value(v, 256), LENGTH);
    SymbolsKeepOrder(a, b);
    OrderIsNumeric(a, b, 62);
    OrderIsNumeric(u, v, 256);
    UuidsFit(u);
    UuidsFit(v);
    DigitsHaveTheValue(Value(u, 256), LENGTH);
    DigitsHaveTheValue(Value(v, 256), LENGTH);
    CodeReadsBack(u);
    CodeReadsBack(v);
  }

  lemma {:induction false} LeadingDigitWeighs(digits: seq<nat>, base: nat)
    requires digits != []
    ensures digits[0] * Pow(base, |digits| - 1) <= Value(digits, base)
    decreases |digits|
  {
    var n := |digits| - 1;
    if n > 0 {
      LeadingDigitWeighs(digits[..n], base);
      var lead, p, v := digits[0], Pow(base, n - 1), Value(digits[..n], base);
      assert lead * p * base <= v * base;
      assert lead * Pow(base, n) == lead * (base * p) == lead * p * base;
    }
  }

  lemma Scales(lead: nat, p: nat)
    requires lead >= 8
    ensures lead * p >= 8 * p
  {}

  lemma LeadingDigitAtMost7(lead: nat, p: nat, v: nat)
    requires lead * p <= v < 8 * p
    ensures lead <= 7
  {
    if lead >= 8 { Scales(lead, p); }
  }

  lemma SmallSymbols(d: Digit)
    requires d <= 7
    ensures '0' <= Symbol(d) <= '7'
  {
    SymbolIsAlnum(d);
  }

  lemma LeadingSymbolAtMost7(uuid: seq<Byte>)
    requires |uuid| == UUID_LENGTH
    ensures '0' <= Encode(Value(uuid, 256))[0] <= '7'
  {
    var v := Value(uuid, 256);
    var digits := Digits(v, LENGTH);
    UuidsFit(uuid);
    DigitsHaveTheValue(v, LENGTH);
    LeadingDigitWeighs(digits, 62);
    LeadingDigitAtMost7(digits[0], Pow(62, LENGTH - 1), v);
    SmallSymbols(digits[0]);
  }

  // ----- the two algorithms -----

  lemma Halve(v: nat, q: nat, r: nat)
    requires v == q * 62 + r && r < 62
    ensures v / 62 == q && v % 62 == r
  {}

  /** One pass of long division over the bytes, in place. No step leaves 16 bits, no quotient leaves 8. */
  method DivideBy62(remaining: array<Byte>) returns (remainder: Digit)
    modifies remaining
    ensures Value(remaining[..], 256) == Value(old(remaining[..]), 256) / 62
    ensures remainder == Value(old(remaining[..]), 256) % 62
  {
    ghost var was := remaining[..];
    remainder := 0;
    for i := 0 to remaining.Length
      invariant remaining[i..] == was[i..]
      invariant Value(was[..i], 256) == Value(remaining[..i], 256) * 62 + remainder
    {
      ghost var done, left := remaining[..i], remainder;
      var value: Word := remainder * 256 + remaining[i];
      remaining[i] := value / 62;
      remainder := value % 62;
      assert remaining[..i + 1][..i] == done && was[..i + 1][..i] == was[..i];
      assert Value(was[..i + 1], 256) == (Value(done, 256) * 62 + left) * 256 + was[i];
    }
    assert was[..|was|] == was && remaining[..remaining.Length] == remaining[..];
    Halve(Value(was, 256), Value(remaining[..], 256), remainder);
  }

  lemma {:induction false} ZeroValueIsZeroDigits(digits: seq<nat>, base: nat)
    requires base > 0 && Value(digits, base) == 0
    ensures forall i | 0 <= i < |digits| :: digits[i] == 0
    decreases |digits|
  {
    if digits != [] {
      var v := Value(digits[..|digits| - 1], base);
      assert v * base == 0 ==> v == 0;
      ZeroValueIsZeroDigits(digits[..|digits| - 1], base);
    }
  }

  /** `v` divided by 62 `n` times. */
  function Quotient(v: nat, n: nat): nat {
    if n == 0 then v else Quotient(v, n - 1) / 62
  }

  lemma {:induction false} QuotientVanishes(v: nat, n: nat, m: nat)
    requires m <= n && v < Pow(62, n)
    ensures Quotient(v, m) < Pow(62, n - m)
    decreases m
  {
    if m > 0 {
      QuotientVanishes(v, n, m - 1);
      QuotientBound(Quotient(v, m - 1), Pow(62, n - m));
    }
  }

  lemma NothingIsLeft(uuid: seq<Byte>, leftover: seq<Byte>)
    requires |uuid| == UUID_LENGTH && Value(leftover, 256) == Quotient(Value(uuid, 256), LENGTH)
    ensures forall i | 0 <= i < |leftover| :: leftover[i] == 0
  {
    UuidsFit(uuid);
    QuotientVanishes(Value(uuid, 256), LENGTH, LENGTH);
    ZeroValueIsZeroDigits(leftover, 256);
  }

  lemma LastSymbol(v: nat, n: nat)
    requires n > 0
    ensures Symbols(Digits(v, n)) == Symbols(Digits(v / 62, n - 1)) + [Symbol(v % 62)]
  {
    assert Digits(v, n)[..n - 1] == Digits(v / 62, n - 1);
  }

  /** The last symbols of the code of `v` are known, and the first `k` are those of the quotient `q`. */
  ghost predicate TailOfCode(v: nat, k: nat, q: nat, tail: string) {
    Encode(v) == Symbols(Digits(q, k)) + tail
  }

  lemma LongerTail(v: nat, k: nat, q: nat, tail: string)
    requires TailOfCode(v, k + 1, q, tail)
    ensures TailOfCode(v, k, q / 62, [Symbol(q % 62)] + tail)
  {
    LastSymbol(q, k + 1);
  }

  /** `group_code_from_uuid`: 22 rounds of long division, last symbol first; `leftover` is what the bytes end as. */
  method GroupCodeFromUuid(uuid: seq<Byte>) returns (code: string, ghost leftover: seq<Byte>)
    requires |uuid| == UUID_LENGTH
    ensures code == Encode(Value(uuid, 256))
    ensures |leftover| == UUID_LENGTH && forall i | 0 <= i < UUID_LENGTH :: leftover[i] == 0
  {
    var remaining := new Byte[UUID_LENGTH](i requires 0 <= i < UUID_LENGTH => uuid[i]);
    assert remaining[..] == uuid;
    ghost var v := Value(uuid, 256);
    var symbols := new char[LENGTH](_ => '0');
    var k := LENGTH;
    while k > 0
      invariant 0 <= k <= LENGTH
      invariant Value(remaining[..], 256) == Quotient(v, LENGTH - k)
      invariant TailOfCode(v, k, Value(remaining[..], 256), symbols[k..])
    {
      ghost var q, suffix := Value(remaining[..], 256), symbols[k..];
      k := k - 1;
      var remainder := DivideBy62(remaining);
      symbols[k] := ALPHABET[remainder];
      assert symbols[k..] == [symbols[k]] + suffix;
      LongerTail(v, k, q, suffix);
    }
    code := symbols[..];
    assert symbols[0..] == symbols[..];
    leftover := remaining[..];
    NothingIsLeft(uuid, leftover);
  }

  /** The PL/pgSQL function computes the same code: one exact number, then repeated `mod` and `div`. */
  method UuidToBase62(bytes: seq<Byte>) returns (output: string)
    requires |bytes| == UUID_LENGTH
    ensures output == Encode(Value(bytes, 256))
  {
    var number: nat := 0;
    for index := 0 to UUID_LENGTH
      invariant number == Value(bytes[..index], 256)
    {
      number := number * 256 + bytes[index];
      assert bytes[..index + 1][..index] == bytes[..index];
    }
    assert bytes[..UUID_LENGTH] == bytes;
    output := TextOf(number);
  }

  /** The second loop of the PL/pgSQL function. */
  method TextOf(value: nat) returns (output: string)
    ensures output == Encode(value)
  {
    var number := value;
    output := "";
    var left := LENGTH;
    while left > 0
      invariant 0 <= left <= LENGTH
      invariant TailOfCode(value, left, number, output)
    {
      left := left - 1;
      LongerTail(value, left, number, output);
      var digit := number % 62;
      output := [ALPHABET[digit]] + output;
      number := number / 62;
    }
  }
}
