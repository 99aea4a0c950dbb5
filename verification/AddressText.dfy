/** IPv4 text conversion (core/net_address.c): what the parser accepts, what the printer writes,
    and that the two agree. Strings here are C strings without their NUL. */
module AddressText {
  import opened Options
  import opened Words

  predicate IsDigit(c: char) {
    '0' <= c <= '9'
  }

  predicate IsLower(c: char) {
    'a' <= c <= 'z'
  }

  predicate IsHexDigit(c: char) {
    IsDigit(c) || 'a' <= c <= 'f' || 'A' <= c <= 'F'
  }

  predicate IsSpace(c: char) {
    c == ' ' || c == '\U{0C}' || c == '\n' || c == '\r' || c == '\t' || c == '\U{0B}'
  }

  function DigitValue(c: char): (v: nat)
    requires IsHexDigit(c)
    ensures v < 16
  {
    if IsDigit(c) then c as int - '0' as int
    else c as int + 10 - (if IsLower(c) then 'a' as int else 'A' as int)
  }

  datatype Radix = R8 | R10 | R16 {
    function Times(x: nat): nat {
      match this
      case R8 => 8 * x
      case R10 => 10 * x
      case R16 => 16 * x
    }
  }

  /** Digits 8 and 9 are taken in every radix. */
  predicate Continues(base: Radix, c: char) {
    IsDigit(c) || (base == R16 && IsHexDigit(c))
  }

  function Shl8(x: U32): U32 {
    Wrap32(x * 0x100)
  }

  function Shl16(x: U32): U32 {
    Wrap32(x * 0x1_0000)
  }

  function Shl24(x: U32): U32 {
    Wrap32(x * 0x100_0000)
  }

  // ----- The parser as a recursive function on the remaining text

  function Scan(base: Radix, s: string, acc: U32): (r: (U32, string))
    ensures |r.1| <= |s|
  {
    if s != [] && Continues(base, s[0])
    then Scan(base, s[1..], Wrap32(base.Times(acc) + DigitValue(s[0])))
    else (acc, s)
  }

  function ParseNumber(s: string): (r: (U32, string))
    requires s != [] && IsDigit(s[0])
    ensures |r.1| < |s|
  {
    if s[0] != '0' then Scan(R10, s, 0)
    else if |s| > 1 && (s[1] == 'x' || s[1] == 'X') then Scan(R16, s[2..], 0)
    else Scan(R8, s[1..], 0)
  }

  function ParseParts(s: string, parts: seq<U32>): (r: Option<(seq<U32>, string)>)
    requires |parts| <= 3
    ensures r.Some? ==> 1 <= |r.value.0| <= 4
    decreases |s|
  {
    if s == [] || !IsDigit(s[0]) then None
    else
      var (v, rest) := ParseNumber(s);
      if rest == [] || rest[0] != '.' then Some((parts + [v], rest))
      else if |parts| == 3 then None
      else ParseParts(rest[1..], parts + [v])
  }

  predicate TailOk(tail: string) {
    tail == [] || IsSpace(tail[0])
  }

  /** The address of one to four parts; only the last part is range-checked. */
  function Combine(parts: seq<U32>): Option<U32>
    requires 1 <= |parts| <= 4
  {
    if |parts| == 1 then Some(parts[0])
    else if |parts| == 2 then
      if parts[1] > 0xff_ffff then None else Some(Or32(parts[1], Shl24(parts[0])))
    else if |parts| == 3 then
      if parts[2] > 0xffff then None
      else Some(Or32(parts[2], Or32(Shl24(parts[0]), Shl16(parts[1]))))
    else
      if parts[3] > 0xff then None
      else Some(Or32(parts[3], Or32(Or32(Shl24(parts[0]), Shl16(parts[1])), Shl8(parts[2]))))
  }

  function ParseAddress(s: string): Option<U32> {
    match ParseParts(s, [])
    case None => None
    case Some((parts, rest)) => if TailOk(rest) then Combine(parts) else None
  }

  // ----- Reference grammar

  datatype Numeral = Decimal(digits: string) | Octal(digits: string) | Hex(mark: char, digits: string)

  predicate AllContinue(base: Radix, d: string) {
    forall i :: 0 <= i < |d| ==> Continues(base, d[i])
  }

  function BaseOf(n: Numeral): Radix {
    match n
    case Decimal(_) => R10
    case Octal(_) => R8
    case Hex(_, _) => R16
  }

  /** Decimal numerals do not start with 0; octal ones may contain 8 and 9; hex ones may have no digit. */
  predicate WellFormed(n: Numeral) {
    && AllContinue(BaseOf(n), n.digits)
    && (n.Decimal? ==> n.digits != [] && n.digits[0] != '0')
    && (n.Hex? ==> n.mark == 'x' || n.mark == 'X')
  }

  function Spelling(n: Numeral): string {
    match n
    case Decimal(d) => d
    case Octal(d) => "0" + d
    case Hex(m, d) => "0" + [m] + d
  }

  /** Unbounded positional value of a digit string. */
  function Positional(base: Radix, d: string): nat
    requires AllContinue(base, d)
  {
    if d == [] then 0
    else base.Times(Positional(base, d[..|d| - 1])) + DigitValue(d[|d| - 1])
  }

  function NumeralValue(n: Numeral): U32
    requires WellFormed(n)
  {
    Wrap32(Positional(BaseOf(n), n.digits))
  }

  predicate AllWellFormed(parts: seq<Numeral>) {
    forall i :: 0 <= i < |parts| ==> WellFormed(parts[i])
  }

  function Values(parts: seq<Numeral>): (v: seq<U32>)
    requires AllWellFormed(parts)
    ensures |v| == |parts|
  {
    if parts == [] then [] else [NumeralValue(parts[0])] + Values(parts[1..])
  }

  /** The numerals separated by dots, followed by `tail`. */
  function Dotted(parts: seq<Numeral>, tail: string): string
    requires parts != []
  {
    Spelling(parts[0]) + (if |parts| == 1 then tail else "." + Dotted(parts[1..], tail))
  }

  ghost predicate Spells(parts: seq<Numeral>, tail: string, s: string) {
    && 1 <= |parts| <= 4
    && AllWellFormed(parts)
    && TailOk(tail)
    && s == Dotted(parts, tail)
  }

  /** `s` is one to four dotted numerals and an ignored tail, and their combined value is `v`. */
  ghost predicate Denotes(s: string, v: U32) {
    exists parts, tail :: Spells(parts, tail, s) && Combine(Values(parts)) == Some(v)
  }

  // ----- The parser decides the grammar

  /** Left-to-right evaluation without wrap-around. */
  function Horner(base: Radix, acc: nat, d: string): nat
    requires AllContinue(base, d)
    decreases |d|
  {
    if d == [] then acc else Horner(base, base.Times(acc) + DigitValue(d[0]), d[1..])
  }

  lemma {:induction false} HornerLast(base: Radix, acc: nat, d: string, c: char)
    requires AllContinue(base, d) && Continues(base, c)
    ensures AllContinue(base, d + [c])
    ensures Horner(base, acc, d + [c]) == base.Times(Horner(base, acc, d)) + DigitValue(c)
    decreases |d|
  {
    if d == [] {
      assert (d + [c])[1..] == [];
    } else {
      assert (d + [c])[1..] == d[1..] + [c];
      HornerLast(base, base.Times(acc) + DigitValue(d[0]), d[1..], c);
    }
  }

  lemma {:induction false} HornerIsPositional(base: Radix, d: string)
    requires AllContinue(base, d)
    ensures Horner(base, 0, d) == Positional(base, d)
    decreases |d|
  {
    if d != [] {
      var front := d[..|d| - 1];
      HornerIsPositional(base, front);
      HornerLast(base, 0, front, d[|d| - 1]);
      assert front + [d[|d| - 1]] == d;
    }
  }

  lemma WrapShift(x: int, k: int)
    ensures Wrap32(x + k * TWO32) == Wrap32(x)
  {
  }

  /** Wrapping before the next digit does not change the wrapped result. */
  lemma WrapStep(base: Radix, acc: nat, v: nat)
    ensures Wrap32(base.Times(Wrap32(acc)) + v) == Wrap32(base.Times(acc) + v)
  {
    var q := acc / TWO32;
    assert acc == Wrap32(acc) + q * TWO32;
    WrapShift(base.Times(Wrap32(acc)) + v, base.Times(q));
  }

  lemma {:induction false} ScanDigits(base: Radix, d: string, rest: string, acc: nat)
    requires AllContinue(base, d)
    requires rest == [] || !Continues(base, rest[0])
    ensures Scan(base, d + rest, Wrap32(acc)) == (Wrap32(Horner(base, acc, d)), rest)
    decreases |d|
  {
    if d == [] {
      assert d + rest == rest;
    } else {
      assert (d + rest)[1..] == d[1..] + rest;
      WrapStep(base, acc, DigitValue(d[0]));
      ScanDigits(base, d[1..], rest, base.Times(acc) + DigitValue(d[0]));
    }
  }

  lemma {:induction false} ScanSplits(base: Radix, s: string, acc: U32) returns (d: string)
    ensures AllContinue(base, d)
    ensures s == d + Scan(base, s, acc).1
    ensures s != [] && Continues(base, s[0]) ==> d != []
    ensures var rest := Scan(base, s, acc).1; rest == [] || !Continues(base, rest[0])
    decreases |s|
  {
    if s != [] && Continues(base, s[0]) {
      var tail := ScanSplits(base, s[1..], Wrap32(base.Times(acc) + DigitValue(s[0])));
      d := [s[0]] + tail;
      assert s == [s[0]] + s[1..];
    } else {
      d := [];
    }
  }

  /** No character of `rest` could be read as part of the numeral before it. */
  predicate Delimited(n: Numeral, rest: string) {
    && (rest == [] || !Continues(BaseOf(n), rest[0]))
    && (n == Octal("") && rest != [] ==> rest[0] != 'x' && rest[0] != 'X')
  }

  /** The value of a numeral is what scanning its digits gives. */
  lemma ScanNumeral(n: Numeral, rest: string)
    requires WellFormed(n) && Delimited(n, rest)
    ensures Scan(BaseOf(n), n.digits + rest, 0) == (NumeralValue(n), rest)
  {
    HornerIsPositional(BaseOf(n), n.digits);
    ScanDigits(BaseOf(n), n.digits, rest, 0);
  }

  lemma NumberComplete(n: Numeral, rest: string)
    requires WellFormed(n) && Delimited(n, rest)
    ensures var s := Spelling(n) + rest;
      s != [] && IsDigit(s[0]) && ParseNumber(s) == (NumeralValue(n), rest)
  {
    ScanNumeral(n, rest);
    SpellingParts(n, rest);
    hide Scan, NumeralValue, Spelling, WellFormed;
    var s := Spelling(n) + rest;
    if n.Octal? {
      assert |s| > 1 ==> s[1] == (n.digits + rest)[0];
    }
  }

  lemma SpellingParts(n: Numeral, rest: string)
    requires WellFormed(n)
    ensures var s, body := Spelling(n) + rest, n.digits + rest;
      && s != [] && IsDigit(s[0])
      && (n.Decimal? ==> s == body && s[0] != '0')
      && (n.Octal? ==> s[0] == '0' && s[1..] == body)
      && (n.Hex? ==> s[0] == '0' && |s| > 1 && s[1] == n.mark && (s[1] == 'x' || s[1] == 'X') && s[2..] == body)
      && (n.Octal? && n.digits != "" ==> IsDigit(n.digits[0]))
  {
    var s, body := Spelling(n) + rest, n.digits + rest;
    if n.Octal? {
      assert s == "0" + body;
    } else if n.Hex? {
      assert s == "0" + [n.mark] + body;
    }
  }

  /** Splits the first numeral off a text that starts with a digit. */
  lemma FirstNumeral(s: string) returns (n: Numeral, rest: string)
    requires s != [] && IsDigit(s[0])
    ensures WellFormed(n) && Delimited(n, rest) && s == Spelling(n) + rest
  {
    if s[0] != '0' {
      var d := ScanSplits(R10, s, 0);
      n, rest := Decimal(d), Scan(R10, s, 0).1;
      assert d[0] == s[0];
    } else if |s| > 1 && (s[1] == 'x' || s[1] == 'X') {
      var d := ScanSplits(R16, s[2..], 0);
      n, rest := Hex(s[1], d), Scan(R16, s[2..], 0).1;
      assert s == "0" + [s[1]] + (d + rest);
      assert s == Spelling(n) + rest;
    } else {
      var d := ScanSplits(R8, s[1..], 0);
      n, rest := Octal(d), Scan(R8, s[1..], 0).1;
      assert s == "0" + (d + rest);
      assert s == Spelling(n) + rest;
      assert d == "" && rest != "" ==> rest[0] == s[1];
    }
  }

  lemma ValuesCons(n: Numeral, more: seq<Numeral>, done: seq<U32>)
    requires WellFormed(n) && AllWellFormed(more)
    ensures AllWellFormed([n] + more)
    ensures done + [NumeralValue(n)] + Values(more) == done + Values([n] + more)
    ensures Values([n]) == [NumeralValue(n)]
  {
    assert ([n] + more)[1..] == more;
    assert [n][1..] == [];
  }

  /** What the parser does after one numeral. */
  lemma ParseStep(n: Numeral, rest: string, done: seq<U32>)
    requires WellFormed(n) && Delimited(n, rest) && |done| <= 3
    ensures ParseParts(Spelling(n) + rest, done) ==
      if rest == [] || rest[0] != '.' then Some((done + [NumeralValue(n)], rest))
      else if |done| == 3 then None
      else ParseParts(rest[1..], done + [NumeralValue(n)])
  {
    NumberComplete(n, rest);
  }

  lemma {:induction false} PartsComplete(parts: seq<Numeral>, tail: string, done: seq<U32>)
    requires 1 <= |parts| && |done| + |parts| <= 4 && AllWellFormed(parts)
    requires TailOk(tail)
    ensures ParseParts(Dotted(parts, tail), done) == Some((done + Values(parts), tail))
    decreases |parts|
  {
    var n, more := parts[0], parts[1..];
    assert parts == [n] + more;
    ValuesCons(n, more, done);
    if |parts| == 1 {
      ParseStep(n, tail, done);
    } else {
      var rest := "." + Dotted(more, tail);
      assert rest[1..] == Dotted(more, tail);
      ParseStep(n, rest, done);
      PartsComplete(more, tail, done + [NumeralValue(n)]);
    }
  }

  lemma {:induction false} PartsSound(s: string, done: seq<U32>) returns (parts: seq<Numeral>)
    requires |done| <= 3 && ParseParts(s, done).Some?
    ensures 1 <= |parts| <= 4 - |done| && AllWellFormed(parts)
    ensures ParseParts(s, done).value.0 == done + Values(parts)
    ensures s == Dotted(parts, ParseParts(s, done).value.1)
    decreases |s|
  {
    hide ParseNumber, Spelling, NumeralValue, WellFormed, Delimited, Combine;
    var n, rest := FirstNumeral(s);
    ParseStep(n, rest, done);
    if rest == [] || rest[0] != '.' {
      parts := [n];
      ValuesCons(n, [], done);
    } else {
      var more := PartsSound(rest[1..], done + [NumeralValue(n)]);
      ValuesCons(n, more, done);
      parts := [n] + more;
      assert parts[1..] == more;
      assert rest == "." + rest[1..];
    }
  }

  /** The parser accepts exactly the texts of the grammar, with exactly their value. */
  lemma ParserDecidesGrammar(s: string, v: U32)
    ensures ParseAddress(s) == Some(v) <==> Denotes(s, v)
  {
    if ParseAddress(s) == Some(v) {
      var parts := PartsSound(s, []);
      var tail := ParseParts(s, []).value.1;
      assert [] + Values(parts) == Values(parts);
      assert Spells(parts, tail, s) && Combine(Values(parts)) == Some(v);
    }
    if Denotes(s, v) {
      var parts, tail :| Spells(parts, tail, s) && Combine(Values(parts)) == Some(v);
      PartsComplete(parts, tail, []);
      assert [] + Values(parts) == Values(parts);
    }
  }

  lemma Shifted(x: U32)
    ensures Shl24(x) == x % 0x100 * 0x100_0000
    ensures x < 0x100 ==> Shl16(x) == x * 0x1_0000 && Shl8(x) == x * 0x100
  {
    assert x * 0x100_0000 == x / 0x100 * TWO32 + x % 0x100 * 0x100_0000;
  }

  lemma {:induction false} OrCommutes(x: nat, y: nat)
    ensures Or(x, y) == Or(y, x)
    decreases x + y
  {
    if x > 0 || y > 0 {
      OrCommutes(x / 2, y / 2);
    }
  }

  lemma OrByte(h: nat, low: nat)
    requires low < 0x100
    ensures Or(low, h * 0x100) == h * 0x100 + low
  {
    Pow2Values();
    OrDisjoint(h, 8, low);
    OrCommutes(h * 0x100, low);
  }

  lemma OrHalf(h: nat, low: nat)
    requires low < 0x1_0000
    ensures Or(h * 0x1_0000, low) == h * 0x1_0000 + low
  {
    Pow2Values();
    OrDisjoint(h, 16, low);
  }

  lemma OrTop(h: nat, low: nat)
    requires low < 0x100_0000
    ensures Or(h * 0x100_0000, low) == h * 0x100_0000 + low
    ensures Or(low, h * 0x100_0000) == h * 0x100_0000 + low
  {
    Pow2Values();
    OrDisjoint(h, 24, low);
    OrCommutes(h * 0x100_0000, low);
  }

  /** Form a.b: the first part keeps only its low byte, the second its 24 bits. */
  lemma TwoPartValue(a: U32, b: U32)
    ensures Combine([a, b]) == if b > 0xff_ffff then None else Some(a % 0x100 * 0x100_0000 + b)
  {
    if b <= 0xff_ffff {
      Shifted(a);
      OrTop(a % 0x100, b);
    }
  }

  lemma TopPair(a: U8, b: U8)
    ensures Or(a * 0x100_0000, b * 0x1_0000) == (a * 0x100 + b) * 0x1_0000
  {
    OrTop(a, b * 0x1_0000);
  }

  lemma NextByte(h: nat, c: U8)
    ensures Or(h * 0x1_0000, c * 0x100) == (h * 0x100 + c) * 0x100
  {
    OrHalf(h, c * 0x100);
  }

  /** Four byte-sized parts give the usual dotted-quad value. */
  lemma DottedQuadValue(a: U8, b: U8, c: U8, d: U8)
    ensures Combine([a, b, c, d]) == Some(Word(d, c, b, a))
  {
    var ab := a * 0x100 + b;
    var abc := ab * 0x100 + c;
    assert Shl24(a) == a * 0x100_0000 by { Shifted(a); }
    assert Shl16(b) == b * 0x1_0000 by { Shifted(b); }
    assert Shl8(c) == c * 0x100 by { Shifted(c); }
    assert Or32(Shl24(a), Shl16(b)) == ab * 0x1_0000 by { TopPair(a, b); }
    assert Or32(ab * 0x1_0000, Shl8(c)) == abc * 0x100 by { NextByte(ab, c); }
    assert Or32(d, abc * 0x100) == abc * 0x100 + d by { OrByte(abc, d); }
  }

  lemma {:induction false} OrZeroLeft(x: nat)
    ensures Or(0, x) == x
  {
    OrCommutes(0, x);
    OrZero(x);
  }

  lemma ByteOr(x: U8, y: U8)
    ensures Or(x, y) < 0x100
  {
    Pow2Values();
    OrBound(x, y, 8);
  }

  /** Two bytes over one: only the high byte of the second meets the first. */
  lemma OrHighBytes(a: U8, b: U8, b': U8)
    ensures Or(a * 0x100, b * 0x100 + b') == Or(a, b) * 0x100 + b'
  {
    Pow2Values();
    OrSplit(a, 0, b, b', 8);
    OrZeroLeft(b');
  }

  lemma ShiftedSecond(b: U32)
    ensures Shl16(b) == (b / 0x100 % 0x100 * 0x100 + b % 0x100) * 0x1_0000
  {
    var b1, b0 := b / 0x100 % 0x100, b % 0x100;
    assert b / 0x100 == b / 0x1_0000 * 0x100 + b1;
    WrapShift((b1 * 0x100 + b0) * 0x1_0000, b / 0x1_0000);
  }

  lemma ShiftedPair(a: U32, b: U32)
    ensures Or32(Shl24(a), Shl16(b)) == (Or(a % 0x100, b / 0x100 % 0x100) * 0x100 + b % 0x100) * 0x1_0000
  {
    hide Or;
    Shifted(a);
    ShiftedSecond(b);
    OrOfPair(a % 0x100, b / 0x100 % 0x100, b % 0x100);
  }

  lemma OrOfPair(a: U8, b1: U8, b0: U8)
    ensures Or(a * 0x100_0000, (b1 * 0x100 + b0) * 0x1_0000) == (Or(a, b1) * 0x100 + b0) * 0x1_0000
  {
    hide Or;
    OrHighBytes(a, b1, b0);
    Pow2Values();
    OrSplit(a * 0x100, 0, b1 * 0x100 + b0, 0, 16);
    OrZeroLeft(0);
  }

  /** Form a.b.c: nothing but c is checked; the high byte of b runs into a. */
  lemma ThreePartValue(a: U32, b: U32, c: U32)
    ensures Combine([a, b, c]) ==
      if c > 0xffff then None
      else Some((Or(a % 0x100, b / 0x100 % 0x100) * 0x100 + b % 0x100) * 0x1_0000 + c)
  {
    hide Or, Shl16, Shl24;
    if c <= 0xffff {
      ShiftedPair(a, b);
      ByteOr(a % 0x100, b / 0x100 % 0x100);
      var h := Or(a % 0x100, b / 0x100 % 0x100) * 0x100 + b % 0x100;
      OrHalf(h, c);
      OrCommutes(h * 0x1_0000, c);
    }
  }

  lemma OrWithThird(ab: nat, b0: U8, c2: U8, c1: U8, c0: U8)
    ensures Or((ab * 0x100 + b0) * 0x1_0000, ((c2 * 0x100 + c1) * 0x100 + c0) * 0x100) ==
      ((Or(ab, c2) * 0x100 + Or(b0, c1)) * 0x100 + c0) * 0x100
  {
    hide Or;
    Pow2Values();
    OrSplit((ab * 0x100 + b0) * 0x100, 0, (c2 * 0x100 + c1) * 0x100 + c0, 0, 8);
    OrSplit(ab * 0x100 + b0, 0, c2 * 0x100 + c1, c0, 8);
    OrSplit(ab, b0, c2, c1, 8);
    OrZeroLeft(0);
    OrZeroLeft(c0);
  }

  lemma ShiftedThird(c: U32)
    ensures Shl8(c) == ((c / 0x1_0000 % 0x100 * 0x100 + c / 0x100 % 0x100) * 0x100 + c % 0x100) * 0x100
  {
    var c2, c1, c0 := c / 0x1_0000 % 0x100, c / 0x100 % 0x100, c % 0x100;
    assert c / 0x100 == c / 0x1_0000 * 0x100 + c1;
    assert c / 0x1_0000 == c / 0x100_0000 * 0x100 + c2;
    WrapShift(((c2 * 0x100 + c1) * 0x100 + c0) * 0x100, c / 0x100_0000);
  }

  lemma FourBytes(ab: U8, b0: U8, c2: U8, c1: U8, c0: U8, d: U8)
    ensures Or(ab, c2) < 0x100 && Or(b0, c1) < 0x100
    ensures Or32(d, Or32((ab * 0x100 + b0) * 0x1_0000, ((c2 * 0x100 + c1) * 0x100 + c0) * 0x100)) ==
      ((Or(ab, c2) * 0x100 + Or(b0, c1)) * 0x100 + c0) * 0x100 + d
  {
    hide Or;
    OrWithThird(ab, b0, c2, c1, c0);
    ByteOr(ab, c2);
    ByteOr(b0, c1);
    OrByte((Or(ab, c2) * 0x100 + Or(b0, c1)) * 0x100 + c0, d);
  }

  /** Four parts of any size: only the last is checked, and each byte of the address is the OR of all parts that
      reach it. */
  lemma FourPartValue(a: U32, b: U32, c: U32, d: U32)
    ensures Combine([a, b, c, d]) ==
      if d > 0xff then None
      else Some(((Or(Or(a % 0x100, b / 0x100 % 0x100), c / 0x1_0000 % 0x100) * 0x100
                  + Or(b % 0x100, c / 0x100 % 0x100)) * 0x100 + c % 0x100) * 0x100 + d)
  {
    hide Or, Or32, Shl8, Shl16, Shl24;
    if d <= 0xff {
      ShiftedPair(a, b);
      ShiftedThird(c);
      var a0, b1, b0 := a % 0x100, b / 0x100 % 0x100, b % 0x100;
      ByteOr(a0, b1);
      FourBytes(Or(a0, b1), b0, c / 0x1_0000 % 0x100, c / 0x100 % 0x100, c % 0x100, d);
    }
  }

  // ----- The printer

  function DigitChar(d: nat): (c: char)
    requires d < 10
    ensures IsDigit(c) && DigitValue(c) == d
  {
    '0' + d as char
  }

  function DecimalText(n: nat): (t: string)
    ensures 1 <= |t|
  {
    if n < 10 then [DigitChar(n)] else DecimalText(n / 10) + [DigitChar(n % 10)]
  }

  /** The dotted text of the bytes of `addr` from memory offset `k` on. */
  function RenderFrom(addr: U32, k: nat): string
    requires k < 4
    decreases 3 - k
  {
    DecimalText(ByteAt(addr, k)) + (if k == 3 then "" else "." + RenderFrom(addr, k + 1))
  }

  function Render(addr: U32): string {
    RenderFrom(addr, 0)
  }

  lemma {:induction false} DecimalTextValue(n: nat)
    ensures AllContinue(R10, DecimalText(n))
    ensures Positional(R10, DecimalText(n)) == n
    ensures n > 0 ==> DecimalText(n)[0] != '0'
  {
    if n < 10 {
      var t := DecimalText(n);
      assert t[..0] == [];
      assert DigitValue(t[0]) == n;
    } else {
      DecimalTextValue(n / 10);
      var t := DecimalText(n);
      assert t[..|t| - 1] == DecimalText(n / 10);
    }
  }

  function OctetNumeral(b: U8): Numeral {
    if b == 0 then Octal("") else Decimal(DecimalText(b))
  }

  lemma OctetSpelling(b: U8)
    ensures WellFormed(OctetNumeral(b))
    ensures Spelling(OctetNumeral(b)) == DecimalText(b)
    ensures NumeralValue(OctetNumeral(b)) == b
  {
    if b == 0 {
      assert "0" + "" == "0";
    } else {
      DecimalTextValue(b);
      assert Wrap32(b) == b;
    }
  }

  lemma DecimalLength(b: U8)
    ensures |DecimalText(b)| <= 3
  {
    assert |DecimalText(b / 100)| == 1;
    assert b >= 10 ==> |DecimalText(b)| == |DecimalText(b / 10)| + 1;
    assert b / 10 >= 10 ==> |DecimalText(b / 10)| == |DecimalText(b / 10 / 10)| + 1;
  }

  /** A 16-byte buffer always holds the text and its NUL. */
  lemma RenderFits(addr: U32)
    ensures 7 <= |Render(addr)| <= 15
  {
    DecimalLength(ByteAt(addr, 0));
    DecimalLength(ByteAt(addr, 1));
    DecimalLength(ByteAt(addr, 2));
    DecimalLength(ByteAt(addr, 3));
    assert |RenderFrom(addr, 3)| == |DecimalText(ByteAt(addr, 3))|;
    assert |RenderFrom(addr, 2)| == |DecimalText(ByteAt(addr, 2))| + 1 + |RenderFrom(addr, 3)|;
    assert |RenderFrom(addr, 1)| == |DecimalText(ByteAt(addr, 1))| + 1 + |RenderFrom(addr, 2)|;
  }

  /** The printed text is spelled by the numerals of the four bytes. */
  lemma RenderSpelling(addr: U32, k: nat) returns (parts: seq<Numeral>)
    requires k < 4
    ensures |parts| == 4 - k && AllWellFormed(parts)
    ensures Dotted(parts, "") == RenderFrom(addr, k)
    ensures Values(parts) == BytesOf(addr)[k..]
    decreases 3 - k
  {
    var b := ByteAt(addr, k);
    var n := OctetNumeral(b);
    OctetSpelling(b);
    assert BytesOf(addr)[k..] == [b] + BytesOf(addr)[k + 1..];
    if k == 3 {
      ValuesCons(n, [], []);
      parts := [n];
    } else {
      var more := RenderSpelling(addr, k + 1);
      ValuesCons(n, more, []);
      parts := [n] + more;
      assert parts[1..] == more;
    }
  }

  /** Parsing the printed text gives the bytes back, most significant first. */
  lemma PrintThenParse(addr: U32)
    ensures ParseAddress(Render(addr)) == Some(Swap32(addr))
  {
    var parts := RenderSpelling(addr, 0);
    PartsComplete(parts, "", []);
    var b := BytesOf(addr);
    assert [] + Values(parts) == [b[0], b[1], b[2], b[3]];
    DottedQuadValue(b[0], b[1], b[2], b[3]);
  }
}
