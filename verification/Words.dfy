/** Unsigned machine words of the target: explicit ranges, byte order and bitwise OR. */
module Words {
  type U8 = x: int | 0 <= x < 0x100
  type U16 = x: int | 0 <= x < 0x1_0000
  type U32 = x: int | 0 <= x < 0x1_0000_0000

  const TWO32: int := 0x1_0000_0000

  function Wrap32(x: int): U32 {
    x % TWO32
  }

  /** The word whose bytes are b0, b1, b2, b3 in increasing memory order (little-endian target). */
  function Word(b0: U8, b1: U8, b2: U8, b3: U8): U32 {
    b0 + 0x100 * b1 + 0x1_0000 * b2 + 0x100_0000 * b3
  }

  /** The byte of `x` at memory offset `k`. */
  function ByteAt(x: U32, k: nat): U8
    requires k < 4
  {
    match k
    case 0 => x % 0x100
    case 1 => x / 0x100 % 0x100
    case 2 => x / 0x1_0000 % 0x100
    case _ => x / 0x100_0000
  }

  function BytesOf(x: U32): (s: seq<U8>)
    ensures |s| == 4
  {
    [ByteAt(x, 0), ByteAt(x, 1), ByteAt(x, 2), ByteAt(x, 3)]
  }

  /** Byte-order reversal: NET_HTONL on a little-endian target. */
  function Swap32(x: U32): U32 {
    Word(ByteAt(x, 3), ByteAt(x, 2), ByteAt(x, 1), ByteAt(x, 0))
  }

  lemma WordOfBytes(x: U32)
    ensures Word(ByteAt(x, 0), ByteAt(x, 1), ByteAt(x, 2), ByteAt(x, 3)) == x
  {
    var q1, q2 := x / 0x100, x / 0x1_0000;
    assert q1 / 0x100 == q2;
    assert q2 / 0x100 == x / 0x100_0000;
  }

  lemma Quotient8(q: nat, r: U8)
    ensures (q * 0x100 + r) / 0x100 == q && (q * 0x100 + r) % 0x100 == r
  {
  }

  lemma Quotient16(q: nat, r: U16)
    ensures (q * 0x1_0000 + r) / 0x1_0000 == q
  {
  }

  lemma Quotient24(q: nat, r: nat)
    requires r < 0x100_0000
    ensures (q * 0x100_0000 + r) / 0x100_0000 == q
  {
  }

  lemma BytesOfWord(b0: U8, b1: U8, b2: U8, b3: U8)
    ensures BytesOf(Word(b0, b1, b2, b3)) == [b0, b1, b2, b3]
  {
    var x := Word(b0, b1, b2, b3);
    var y, z := b1 + 0x100 * b2 + 0x1_0000 * b3, b2 + 0x100 * b3;
    assert x % 0x100 == b0 && x / 0x100 == y by { Quotient8(y, b0); }
    assert y % 0x100 == b1 by { Quotient8(z, b1); }
    assert x / 0x1_0000 == z by { Quotient16(z, b0 + 0x100 * b1); }
    assert z % 0x100 == b2 by { Quotient8(b3, b2); }
    assert x / 0x100_0000 == b3 by { Quotient24(b3, b0 + 0x100 * b1 + 0x1_0000 * b2); }
    hide Word;
  }

  lemma SwapInvolution(x: U32)
    ensures Swap32(Swap32(x)) == x
  {
    BytesOfWord(ByteAt(x, 3), ByteAt(x, 2), ByteAt(x, 1), ByteAt(x, 0));
    var y := Swap32(x);
    assert BytesOf(y)[0] == ByteAt(x, 3) && BytesOf(y)[1] == ByteAt(x, 2);
    assert BytesOf(y)[2] == ByteAt(x, 1) && BytesOf(y)[3] == ByteAt(x, 0);
    WordOfBytes(x);
  }

  lemma SwapInjective(x: U32, y: U32)
    requires Swap32(x) == Swap32(y)
    ensures x == y
  {
    SwapInvolution(x);
    SwapInvolution(y);
  }

  /** Bitwise OR of two unsigned words, from the least significant bit up. */
  function Or(x: nat, y: nat): nat
    decreases x + y
  {
    if x == 0 && y == 0 then 0
    else 2 * Or(x / 2, y / 2) + (if x % 2 == 1 || y % 2 == 1 then 1 else 0)
  }

  function Pow2(k: nat): (p: nat)
    ensures p > 0
  {
    if k == 0 then 1 else 2 * Pow2(k - 1)
  }

  lemma {:induction false} OrZero(x: nat)
    ensures Or(x, 0) == x
    decreases x
  {
    if x > 0 {
      OrZero(x / 2);
    }
  }

  /** When no bit is set in both words, OR is addition. */
  lemma {:induction false} OrDisjoint(h: nat, k: nat, low: nat)
    requires low < Pow2(k)
    ensures Or(h * Pow2(k), low) == h * Pow2(k) + low
    decreases k
  {
    if k == 0 {
      OrZero(h);
    } else {
      var x := h * Pow2(k);
      assert x == 2 * (h * Pow2(k - 1)) by {
        assert h * (2 * Pow2(k - 1)) == 2 * (h * Pow2(k - 1));
      }
      assert x / 2 == h * Pow2(k - 1) && x % 2 == 0;
      OrDisjoint(h, k - 1, low / 2);
    }
  }

  lemma OrStep(x: nat, y: nat)
    ensures Or(x, y) == 2 * Or(x / 2, y / 2) + (if x % 2 == 1 || y % 2 == 1 then 1 else 0)
  {
  }

  lemma Halves(h: nat, q: nat, low: nat)
    ensures (h * (2 * q) + low) / 2 == h * q + low / 2 && (h * (2 * q) + low) % 2 == low % 2
  {
    assert h * (2 * q) == 2 * (h * q);
  }

  lemma Doubled(o: nat, q: nat, low: nat, bit: nat)
    ensures 2 * (o * q + low) + bit == o * (2 * q) + (2 * low + bit)
  {
    assert o * (2 * q) == 2 * (o * q);
  }

  lemma OrNothing(h: nat, h': nat)
    ensures Or(h * 1 + 0, h' * 1 + 0) == Or(h, h') * 1 + Or(0, 0)
  {
  }

  lemma Pow2Step(k: nat)
    ensures Pow2(0) == 1 && Pow2(k + 1) == 2 * Pow2(k)
  {
  }

  /** OR works on high and low parts separately. */
  lemma {:induction false} OrSplit(h: nat, low: nat, h': nat, low': nat, k: nat)
    requires low < Pow2(k) && low' < Pow2(k)
    ensures Or(h * Pow2(k) + low, h' * Pow2(k) + low') == Or(h, h') * Pow2(k) + Or(low, low')
    decreases k
  {
    hide Or, Pow2;
    if k == 0 {
      Pow2Step(0);
      OrNothing(h, h');
    } else {
      Pow2Step(k - 1);
      var q := Pow2(k - 1);
      OrSplit(h, low / 2, h', low' / 2, k - 1);
      OrDoubled(h, low, h', low', q);
    }
  }

  lemma OrDoubled(h: nat, low: nat, h': nat, low': nat, q: nat)
    requires Or(h * q + low / 2, h' * q + low' / 2) == Or(h, h') * q + Or(low / 2, low' / 2)
    ensures Or(h * (2 * q) + low, h' * (2 * q) + low') == Or(h, h') * (2 * q) + Or(low, low')
  {
    hide Or;
    var bit := if low % 2 == 1 || low' % 2 == 1 then 1 else 0;
    Halves(h, q, low);
    Halves(h', q, low');
    OrStep(h * (2 * q) + low, h' * (2 * q) + low');
    OrStep(low, low');
    Doubled(Or(h, h'), q, Or(low / 2, low' / 2), bit);
  }

  lemma {:induction false} OrBound(x: nat, y: nat, k: nat)
    requires x < Pow2(k) && y < Pow2(k)
    ensures Or(x, y) < Pow2(k)
    decreases k
  {
    if k > 0 {
      OrBound(x / 2, y / 2, k - 1);
    }
  }

  lemma Pow2Values()
    ensures Pow2(8) == 0x100 && Pow2(16) == 0x1_0000 && Pow2(24) == 0x100_0000 && Pow2(32) == TWO32
  {
    assert Pow2(8) == 0x100;
    assert Pow2(12) == 0x1000;
    assert Pow2(16) == 0x1_0000;
    assert Pow2(20) == 0x10_0000;
    assert Pow2(24) == 0x100_0000;
    assert Pow2(28) == 0x1000_0000;
  }

  /** OR of two 32-bit words. */
  function Or32(x: U32, y: U32): U32 {
    Pow2Values();
    OrBound(x, y, 32);
    Or(x, y)
  }
}
