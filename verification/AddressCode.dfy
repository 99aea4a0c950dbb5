/** The loops of core/net_address.c, proved against AddressText. */
module AddressCode {
  import opened Options
  import opened Words
  import opened AddressText

  class IpAddress {
    var addr: U32

    constructor (a: U32)
      ensures addr == a
    {
      addr := a;
    }
  }

  const NUL := '\0'

  ghost predicate Terminated(text: seq<char>, nul: nat) {
    nul < |text| && text[nul] == NUL && forall i :: 0 <= i < nul ==> text[i] != NUL
  }

  /** The C string that starts a NUL-terminated buffer. */
  ghost function CString(text: seq<char>): (s: string)
    requires NUL in text
    ensures Terminated(text, |s|) && s == text[..|s|]
    decreases |text|
  {
    if text[0] == NUL then text[..0]
    else
      var rest := CString(text[1..]);
      assert forall i :: 0 <= i < |rest| + 1 ==> text[i] != NUL by {
        forall i | 0 <= i < |rest| + 1 ensures text[i] != NUL {
          if i > 0 { assert text[i] == text[1..][i - 1]; }
        }
      }
      assert text[|rest| + 1] == text[1..][|rest|];
      assert [text[0]] + rest == text[..|rest| + 1];
      [text[0]] + rest
  }

  /** One number of the dotted text, from cursor `start`; reads no further than the NUL. */
  method CollectNumber(text: seq<char>, ghost nul: nat, start: nat) returns (val: U32, cp: nat)
    requires Terminated(text, nul)
    requires start < nul && IsDigit(text[start])
    ensures start < cp <= nul
    ensures (val, text[cp..nul]) == ParseNumber(text[start..nul])
  {
    cp := start;
    var c0 := text[cp];
    var base := R10;
    ghost var s := text[start..nul];
    if c0 == '0' {
      cp := cp + 1;
      c0 := text[cp];
      assert s[1..] == text[cp..nul];
      if c0 == 'x' || c0 == 'X' {
        base := R16;
        cp := cp + 1;
        c0 := text[cp];
        assert s[2..] == text[cp..nul];
      } else {
        base := R8;
      }
    }
    val := 0;
    while true
      invariant start <= cp <= nul && c0 == text[cp]
      invariant s[0] == '0' ==> start < cp
      invariant ParseNumber(s) == Scan(base, text[cp..nul], val)
      decreases nul - cp
    {
      assert cp < nul ==> text[cp..nul][1..] == text[cp + 1..nul];
      if IsDigit(c0) {
        val := Wrap32(base.Times(val) + DigitValue(c0));
      } else if base == R16 && IsHexDigit(c0) {
        OrNibble(val, DigitValue(c0));
        val := Or32(Wrap32(val * 16), DigitValue(c0));
      } else {
        break;
      }
      cp := cp + 1;
      c0 := text[cp];
    }
  }

  lemma OrNibble(val: U32, d: nat)
    requires d < 16
    ensures Or32(Wrap32(val * 16), d) == Wrap32(val * 16 + d)
  {
    var h := val % 0x1000_0000;
    assert val * 16 == h * 16 + val / 0x1000_0000 * TWO32;
    assert Wrap32(val * 16) == h * 16 by { WrapShift(h * 16, val / 0x1000_0000); }
    assert Wrap32(val * 16 + d) == h * 16 + d by { WrapShift(h * 16 + d, val / 0x1000_0000); }
    assert Or(h * 16, d) == h * 16 + d by {
      assert Pow2(4) == 16;
      OrDisjoint(h, 4, d);
    }
  }

  /** The dotted parts: every completed part goes to `parts`, the last one stays in `val`. */
  method CollectParts(text: seq<char>, ghost nul: nat)
    returns (ok: bool, parts: array<U32>, pp: nat, val: U32, cp: nat)
    requires Terminated(text, nul)
    ensures fresh(parts) && parts.Length == 4 && pp <= 3 && cp <= nul
    ensures ParseParts(text[..nul], []) == if ok then Some((parts[..pp] + [val], text[cp..nul])) else None
  {
    ghost var s := text[..nul];
    parts := new U32[4];
    ok, pp, val, cp := true, 0, 0, 0;
    var c0 := text[cp];
    var done := false;
    assert parts[..0] == [] && text[0..nul] == s;
    while !done
      invariant cp <= nul && c0 == text[cp] && pp <= 3
      invariant !done ==> ok && ParseParts(s, []) == ParseParts(text[cp..nul], parts[..pp])
      invariant done ==> ParseParts(s, []) == if ok then Some((parts[..pp] + [val], text[cp..nul])) else None
      decreases nul - cp, !done
    {
      if !IsDigit(c0) {
        ok, done := false, true;
      } else {
        ghost var before := parts[..pp];
        val, cp := CollectNumber(text, nul, cp);
        c0 := text[cp];
        if c0 == '.' {
          if pp >= 3 {
            ok, done := false, true;
          } else {
            assert text[cp..nul][1..] == text[cp + 1..nul];
            parts[pp] := val;
            pp := pp + 1;
            assert parts[..pp] == before + [val];
            cp := cp + 1;
            c0 := text[cp];
          }
        } else {
          done := true;
        }
      }
    }
  }

  /** Joins the parts into one word, range-checking only the last. */
  method Concoct(parts: array<U32>, pp: nat, last: U32) returns (ok: bool, val: U32)
    requires parts.Length == 4 && pp <= 3
    ensures Combine(parts[..pp] + [last]) == if ok then Some(val) else None
  {
    ghost var all := parts[..pp] + [last];
    ok, val := true, last;
    if pp == 1 {
      if val > 0xff_ffff {
        ok := false;
      }
      val := Or32(val, Shl24(parts[0]));
    } else if pp == 2 {
      if val > 0xffff {
        ok := false;
      } else {
        val := Or32(val, Or32(Shl24(parts[0]), Shl16(parts[1])));
      }
    } else if pp == 3 {
      if val > 0xff {
        ok := false;
      } else {
        val := Or32(val, Or32(Or32(Shl24(parts[0]), Shl16(parts[1])), Shl8(parts[2])));
      }
    }
  }

  /** Parses a dotted address. On success `out`, when given, receives it in memory order; on failure
      it keeps its old value. */
  method NetAton(text: seq<char>, out: IpAddress?) returns (ret: int)
    requires NUL in text
    modifies out
    ensures ret == if ParseAddress(CString(text)).Some? then 1 else 0
    ensures out != null ==>
      out.addr == if ret == 1 then Swap32(ParseAddress(CString(text)).value) else old(out.addr)
  {
    ghost var nul := |CString(text)|;
    var ok, parts, pp, val, cp := CollectParts(text, nul);
    var c0 := text[cp];
    assert ok ==> TailOk(text[cp..nul]) == (c0 == NUL || IsSpace(c0));
    if c0 != NUL && !IsSpace(c0) {
      ok := false;
    } else {
      var fits, whole := Concoct(parts, pp, val);
      ok, val := ok && fits, whole;
    }
    ret := if ok then 1 else 0;
    if ok && out != null {
      out.addr := Swap32(val);
    }
  }

  /** The value of a word read as a signed one. */
  function Signed32(x: U32): int {
    if x < 0x8000_0000 then x else x - TWO32
  }

  lemma SwapZero(x: U32)
    ensures Swap32(x) == 0 <==> x == 0
  {
    assert Swap32(0) == 0;
    if Swap32(x) == 0 {
      SwapInjective(x, 0);
    }
  }

  /** The address as a signed word; failure and the zero address cannot be told apart. */
  method NetAtonR(text: seq<char>) returns (ret: int)
    requires NUL in text
    ensures ParseAddress(CString(text)).Some? ==> ret == Signed32(Swap32(ParseAddress(CString(text)).value))
    ensures -0x8000_0000 <= ret < 0x8000_0000
    ensures ParseAddress(CString(text)).Some? ==>
      ret % 0x1_0000_0000 == Swap32(ParseAddress(CString(text)).value)
    ensures ret == 0 <==> ParseAddress(CString(text)) == None || ParseAddress(CString(text)) == Some(0)
  {
    hide ParseAddress, CString, Swap32;
    var val := new IpAddress(0);
    ret := 0;
    var ok := NetAton(text, val);
    if ok != 0 {
      SwapZero(ParseAddress(CString(text)).value);
      ret := Signed32(val.addr);
    }
  }

  // ----- Printing

  function Clip(t: string, n: int): string {
    if n <= 0 then "" else if |t| <= n then t else t[..n]
  }

  lemma ClipAppend(t: string, c: char, n: int)
    ensures Clip(t + [c], n) == if |Clip(t, n)| < n then Clip(t, n) + [c] else Clip(t, n)
  {
  }

  /** The part of the buffer written so far is the clipped text; the rest is untouched. */
  ghost predicate Holds(now: seq<char>, before: seq<char>, t: string, buflen: int, len: nat) {
    && |now| == |before| && len == |Clip(t, buflen)| <= |now|
    && now == Clip(t, buflen) + before[len..]
  }

  method Put(buf: array<char>, ghost before: seq<char>, ghost t: string, len: nat, buflen: int, c: char)
    returns (len': nat)
    requires buflen <= buf.Length && Holds(buf[..], before, t, buflen, len)
    modifies buf
    ensures Holds(buf[..], before, t + [c], buflen, len')
  {
    len' := len;
    ClipAppend(t, c, buflen);
    if len < buflen {
      buf[len] := c;
      len' := len + 1;
    }
  }

  function Reversed(s: string): string {
    if s == "" then "" else Reversed(s[1..]) + [s[0]]
  }

  lemma {:induction false} ReversedLast(s: string, c: char)
    ensures Reversed(s + [c]) == [c] + Reversed(s)
    decreases |s|
  {
    if s != "" {
      assert (s + [c])[1..] == s[1..] + [c];
      ReversedLast(s[1..], c);
    }
  }

  /** Digits of one byte, least significant first, in a three-character scratch array. */
  method ReverseDigits(b: U8) returns (inv: array<char>, i: nat)
    ensures fresh(inv) && inv.Length == 3 && 1 <= i <= 3
    ensures Reversed(inv[..i]) == DecimalText(b)
  {
    inv := new char[3];
    i := 0;
    var val: nat := b;
    ghost var done := "";
    DecimalLength(b);
    while true
      invariant 0 <= i < 3 && done == inv[..i]
      invariant DecimalText(b) == DecimalText(val) + Reversed(done)
      decreases 3 - i
    {
      var rem := val % 10;
      ReversedLast(done, DigitChar(rem));
      assert val >= 10 ==> |DecimalText(val / 10)| >= 1;
      val := val / 10;
      inv[i] := DigitChar(rem);
      done := done + [DigitChar(rem)];
      i := i + 1;
      assert done == inv[..i];
      if val == 0 {
        break;
      }
      assert |Reversed(done)| == i by { ReversedLength(done); }
    }
  }

  lemma {:induction false} ReversedLength(s: string)
    ensures |Reversed(s)| == |s|
    decreases |s|
  {
    if s != "" {
      ReversedLength(s[1..]);
    }
  }

  /** Copies one byte's digits to the buffer, most significant first. */
  method PutByte(buf: array<char>, ghost before: seq<char>, ghost t: string, len: nat, buflen: int, b: U8)
    returns (len': nat)
    requires buflen <= buf.Length && Holds(buf[..], before, t, buflen, len)
    modifies buf
    ensures Holds(buf[..], before, t + DecimalText(b), buflen, len')
  {
    len' := len;
    hide Holds, DecimalText;
    var inv, i := ReverseDigits(b);
    ghost var done := t;
    while i != 0
      invariant 0 <= i <= 3
      invariant Holds(buf[..], before, done, buflen, len')
      invariant t + DecimalText(b) == done + Reversed(inv[..i])
    {
      i := i - 1;
      assert inv[..i + 1] == inv[..i] + [inv[i]];
      ReversedLast(inv[..i], inv[i]);
      len' := Put(buf, before, done, len', buflen, inv[i]);
      done := done + [inv[i]];
    }
    assert inv[..0] == "";
    assert done == t + DecimalText(b);
  }

  lemma RenderStep(t: string, a: U32, n: nat)
    requires n < 4
    ensures n < 3 ==> t + RenderFrom(a, n) == t + DecimalText(ByteAt(a, n)) + ['.'] + RenderFrom(a, n + 1)
    ensures n == 3 ==> t + RenderFrom(a, n) == t + DecimalText(ByteAt(a, n))
  {
    assert "." == ['.'];
  }

  /** The buffer after printing `t`: the clipped text, a NUL when it fits, then the old content. */
  ghost predicate Printed(now: seq<char>, before: seq<char>, t: string, buflen: int) {
    if |t| < buflen
    then |t| < |before| && now == t + [NUL] + before[|t| + 1..]
    else |Clip(t, buflen)| <= |before| && now == Clip(t, buflen) + before[|Clip(t, buflen)|..]
  }

  /** Prints the four bytes in memory order, never writing past `buflen`; the text is NUL-terminated
      and the result true exactly when text and NUL fit. */
  method NetNtoaR(addr: IpAddress, buf: array<char>, buflen: int) returns (ok: bool)
    requires buflen <= buf.Length
    modifies buf
    ensures ok <==> |Render(addr.addr)| < buflen
    ensures Printed(buf[..], old(buf[..]), Render(addr.addr), buflen)
  {
    ghost var before := buf[..];
    var a := addr.addr;
    ghost var t := "";
    var len: nat := 0;
    var n: nat := 0;
    while n < 4
      invariant n <= 4
      invariant Holds(buf[..], before, t, buflen, len)
      invariant n < 4 ==> Render(a) == t + RenderFrom(a, n)
      invariant n == 4 ==> Render(a) == t
    {
      RenderStep(t, a, n);
      len := PutByte(buf, before, t, len, buflen, ByteAt(a, n));
      t := t + DecimalText(ByteAt(a, n));
      if n < 3 {
        len := Put(buf, before, t, len, buflen, '.');
        t := t + ['.'];
      }
      n := n + 1;
    }
    ok := Finish(buf, before, t, len, buflen);
  }

  method Finish(buf: array<char>, ghost before: seq<char>, ghost t: string, len: nat, buflen: int) returns (ok: bool)
    requires buflen <= buf.Length && Holds(buf[..], before, t, buflen, len)
    modifies buf
    ensures ok <==> |t| < buflen
    ensures Printed(buf[..], before, t, buflen)
  {
    ok := len < buflen;
    if ok {
      buf[len] := NUL;
    }
  }

  lemma {:induction false} RenderHasNoNul(addr: U32, k: nat)
    requires k < 4
    ensures NUL !in RenderFrom(addr, k)
    decreases 3 - k
  {
    var d := DecimalText(ByteAt(addr, k));
    DecimalTextValue(ByteAt(addr, k));
    assert NUL !in d by {
      assert forall i :: 0 <= i < |d| ==> Continues(R10, d[i]);
    }
    if k < 3 {
      RenderHasNoNul(addr, k + 1);
    }
  }

  lemma RenderNoNul(addr: U32)
    ensures NUL !in Render(addr)
  {
    RenderHasNoNul(addr, 0);
  }

  /** Printing to a 16-byte buffer and parsing that buffer succeeds and restores the address. */
  method PrintParseRoundTrip(addr: IpAddress, buf: array<char>, out: IpAddress) returns (printed: bool, parsed: int)
    requires buf.Length == 16 && out != addr
    modifies buf, out
    ensures printed && parsed == 1 && out.addr == addr.addr
  {
    hide Render, ParseAddress, Swap32;
    RenderFits(addr.addr);
    printed := NetNtoaR(addr, buf, 16);
    ghost var t := Render(addr.addr);
    RenderNoNul(addr.addr);
    assert Terminated(buf[..], |t|);
    assert CString(buf[..]) == t;
    parsed := NetAton(buf[..], out);
    PrintThenParse(addr.addr);
    SwapInvolution(addr.addr);
  }
}
