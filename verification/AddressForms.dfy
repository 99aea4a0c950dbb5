/** The written forms of IPv4 addresses that core/net_address.c reads, with their digits and tails spelled out here:
    what each of them means to the parser, and what the printer's text looks like. */
module AddressForms {
  import opened Options
  import opened Words
  import opened AddressText

  const LOWER := "0123456789abcdef"
  const UPPER := "0123456789ABCDEF"

  /** The digits of n in that base, most significant first. */
  function Text(n: nat, base: nat, digits: string): (t: string)
    requires 2 <= base <= 16 == |digits|
    ensures t != ""
  {
    if n < base then [digits[n]] else Text(n / base, base, digits) + [digits[n % base]]
  }

  function RadixOf(base: nat): Radix {
    if base == 8 then R8 else if base == 10 then R10 else R16
  }

  predicate Known(base: nat, digits: string) {
    base in {8, 10, 16} && digits in {LOWER, UPPER}
  }

  lemma DigitsMean(d: nat, digits: string)
    requires d < 16 && digits in {LOWER, UPPER}
    ensures IsHexDigit(digits[d]) && DigitValue(digits[d]) == d
    ensures d < 10 ==> IsDigit(digits[d])
    ensures digits[d] == '0' <==> d == 0
  {
    assert |LOWER| == |UPPER| == 16;
    assert LOWER[..10] == UPPER[..10];
  }

  lemma PositionalNext(r: Radix, d: string, c: char)
    requires AllContinue(r, d) && Continues(r, c)
    ensures AllContinue(r, d + [c]) && Positional(r, d + [c]) == r.Times(Positional(r, d)) + DigitValue(c)
  {
    assert (d + [c])[..|d|] == d;
  }

  lemma DigitLeft(n: nat, base: nat)
    requires base in {8, 10, 16}
    ensures RadixOf(base).Times(n / base) + n % base == n && n % base < base
    ensures n >= base ==> 0 < n / base < n
  {
  }

  lemma {:induction false} TextMeans(n: nat, base: nat, digits: string)
    requires Known(base, digits)
    ensures AllContinue(RadixOf(base), Text(n, base, digits))
    ensures Positional(RadixOf(base), Text(n, base, digits)) == n
    ensures n > 0 ==> Text(n, base, digits)[0] != '0'
    decreases n
  {
    DigitLeft(n, base);
    TextStep(n, base, digits);
    DigitsMean(n % base, digits);
    var r, q, d, t := RadixOf(base), n / base, n % base, Text(n, base, digits);
    hide *;
    if n < base {
      NoDigits(r);
      PositionalNext(r, [], digits[d]);
      assert [] + [digits[d]] == [digits[d]];
    } else {
      TextMeans(q, base, digits);
      PositionalNext(r, Text(q, base, digits), digits[d]);
    }
  }

  lemma TextStep(n: nat, base: nat, digits: string)
    requires Known(base, digits)
    ensures |digits| == 16 && 0 <= n % base < base <= 16 && (n < base ==> n % base == n)
    ensures Text(n, base, digits) ==
      if n < base then [digits[n % base]] else Text(n / base, base, digits) + [digits[n % base]]
    ensures Continues(RadixOf(base), digits[n % base])
  {
    DigitsMean(n % base, digits);
  }

  lemma NoDigits(r: Radix)
    ensures AllContinue(r, []) && Positional(r, []) == 0 && r.Times(0) == 0
  {
  }

  /** A text of one numeral and a tail. */
  lemma OnePart(n: Numeral, tail: string)
    requires WellFormed(n) && TailOk(tail)
    ensures ParseAddress(Spelling(n) + tail) == Some(NumeralValue(n))
  {
    PartsComplete([n], tail, []);
    assert [n][1..] == [];
    assert [] + Values([n]) == [NumeralValue(n)];
    hide Spelling, NumeralValue, WellFormed;
  }

  /** A number alone is the address with that value, modulo 2^32. */
  lemma WholeDecimal(n: nat)
    ensures ParseAddress(Text(n, 10, LOWER)) == Some(n % 0x1_0000_0000)
  {
    TextMeans(n, 10, LOWER);
    var t := Text(n, 10, LOWER);
    var m := if n == 0 then Octal("") else Decimal(t);
    assert n == 0 ==> t == "0" == "0" + "";
    OnePart(m, "");
    assert Spelling(m) + "" == t;
  }

  /** So is one in octal behind a 0, */
  lemma WholeOctal(n: nat)
    ensures ParseAddress("0" + Text(n, 8, LOWER)) == Some(n % 0x1_0000_0000)
  {
    TextMeans(n, 8, LOWER);
    var t := Text(n, 8, LOWER);
    OnePart(Octal(t), "");
    assert Spelling(Octal(t)) + "" == "0" + t;
  }

  /** and one in hex behind 0x, whatever the case of its letters; no digit at all counts as 0. */
  lemma WholeHex(n: nat, mark: char, digits: string)
    requires mark in {'x', 'X'} && digits in {LOWER, UPPER}
    ensures ParseAddress("0" + [mark] + Text(n, 16, digits)) == Some(n % 0x1_0000_0000)
    ensures ParseAddress("0" + [mark]) == Some(0)
  {
    TextMeans(n, 16, digits);
    var t := Text(n, 16, digits);
    OnePart(Hex(mark, t), "");
    assert Spelling(Hex(mark, t)) + "" == "0" + [mark] + t;
    OnePart(Hex(mark, ""), "");
    assert Spelling(Hex(mark, "")) + "" == "0" + [mark];
  }

  /** The digits 8 and 9 count in octal numbers, with their own value. */
  lemma NineInOctal()
    ensures ParseAddress("019") == Some(17)
  {
    OnePart(Octal("19"), "");
    assert Spelling(Octal("19")) + "" == "019";
    assert "19"[..1] == "1" && "1"[..0] == "";
    assert Positional(R8, "1") == 1 && Positional(R8, "19") == 17;
  }

  /** After a number, a character that cannot go on ends the address if it is white space, and spoils it if not. */
  lemma TailExactly(n: nat, c: char, rest: string)
    requires n > 0 && c != '.' && !('0' <= c <= '9')
    ensures ParseAddress(Text(n, 10, LOWER) + [c] + rest) ==
      if c in {' ', '\t', '\n', '\r', '\U{0B}', '\U{0C}'} then Some(n % 0x1_0000_0000) else None
  {
    TextMeans(n, 10, LOWER);
    var t, tail := Text(n, 10, LOWER), [c] + rest;
    assert t + [c] + rest == t + tail;
    ParseStep(Decimal(t), tail, []);
    assert Spelling(Decimal(t)) == t;
    assert [] + [NumeralValue(Decimal(t))] == [n % 0x1_0000_0000];
  }

  lemma {:induction false} PrintedDigits(n: nat)
    ensures DecimalText(n) == Text(n, 10, LOWER)
  {
    if n >= 10 {
      PrintedDigits(n / 10);
    }
  }

  /** The printer writes the four bytes, first byte in memory first. */
  lemma PrintedBytes(a: U8, b: U8, c: U8, d: U8)
    ensures Render(Word(a, b, c, d)) ==
      Text(a, 10, LOWER) + "." + Text(b, 10, LOWER) + "." + Text(c, 10, LOWER) + "." + Text(d, 10, LOWER)
  {
    BytesOfWord(a, b, c, d);
    var w := Word(a, b, c, d);
    assert BytesOf(w)[0] == a && BytesOf(w)[1] == b && BytesOf(w)[2] == c && BytesOf(w)[3] == d;
    PrintedDigits(a);
    PrintedDigits(b);
    PrintedDigits(c);
    PrintedDigits(d);
    hide Text, DecimalText, ByteAt, RenderFrom;
    RenderedFrom(w, 3);
    RenderedFrom(w, 2);
    RenderedFrom(w, 1);
    RenderedFrom(w, 0);
    Dots(DecimalText(a), DecimalText(b), DecimalText(c), DecimalText(d));
  }

  lemma RenderedFrom(w: U32, k: nat)
    requires k < 4
    ensures RenderFrom(w, k) == DecimalText(ByteAt(w, k)) + if k == 3 then "" else "." + RenderFrom(w, k + 1)
  {
    hide DecimalText, ByteAt;
  }

  lemma Dots(a: string, b: string, c: string, d: string)
    ensures a + ("." + (b + ("." + (c + ("." + (d + "")))))) == a + "." + b + "." + c + "." + d
  {
    assert d + "" == d;
    assert c + ("." + d) == c + "." + d;
    assert b + ("." + (c + "." + d)) == b + "." + c + "." + d;
  }
}
