/** The option scanner of services/net_sdhcp.c, and the option lists it can read back.
    `opts` is the memory from the options field on; only its first `len` bytes belong to the message. */
module DhcpOptions {
  import opened Options
  import opened Words

  const PAD: U8 := 0
  const END: U8 := 255
  const SUBNET_MASK: U8 := 1
  const ROUTER: U8 := 3
  const HOST_NAME: U8 := 12
  const REQUESTED_IP: U8 := 50
  const LEASE_TIME: U8 := 51
  const MESSAGE_TYPE: U8 := 53
  const SERVER_ID: U8 := 54
  const CLIENT_ID: U8 := 61

  predicate IsCode(code: U8) {
    code != PAD && code != END
  }

  /** Where the data of the first option `code` at or after `pos` lies: (offset, length). */
  function FindFrom(opts: seq<U8>, len: nat, code: U8, pos: nat): (r: Option<(nat, nat)>)
    requires len <= |opts| && IsCode(code)
    ensures r.Some? ==> r.value.0 <= len && r.value.1 < 0x100
    decreases len - pos
  {
    if pos >= len || opts[pos] == END then None
    else if opts[pos] == PAD then FindFrom(opts, len, code, pos + 1)
    else if pos + 1 >= len then None
    else if opts[pos] == code then Some((pos + 2, opts[pos + 1]))
    else FindFrom(opts, len, code, pos + 2 + opts[pos + 1])
  }

  function Find(opts: seq<U8>, len: nat, code: U8): (r: Option<(nat, nat)>)
    requires len <= |opts| && IsCode(code)
    ensures r.Some? ==> r.value.0 <= len && r.value.1 < 0x100
  {
    FindFrom(opts, len, code, 0)
  }

  /** What lies behind the first `len` bytes makes no difference. */
  lemma {:induction false} FindInside(opts: seq<U8>, len: nat, code: U8, pos: nat)
    requires len <= |opts| && IsCode(code)
    ensures FindFrom(opts, len, code, pos) == FindFrom(opts[..len], len, code, pos)
    decreases len - pos
  {
    if pos < len && opts[pos] == PAD {
      FindInside(opts, len, code, pos + 1);
    } else if pos + 1 < len && opts[pos] != END && opts[pos] != code {
      FindInside(opts, len, code, pos + 2 + opts[pos + 1]);
    }
  }

  /** The cursor loop; the answer depends on the first `len` bytes alone. */
  method FindOption(opts: seq<U8>, len: nat, code: U8) returns (found: bool, data: nat, dataLen: nat)
    requires len <= |opts| && IsCode(code)
    ensures Find(opts, len, code) == if found then Some((data, dataLen)) else None
    ensures Find(opts[..len], len, code) == if found then Some((data, dataLen)) else None
  {
    FindInside(opts, len, code, 0);
    found, data, dataLen := false, 0, 0;
    var hitEnd := false;
    var cur := 0;
    while cur < len && !hitEnd && !found
      invariant hitEnd ==> !found && Find(opts, len, code) == None
      invariant found ==> Find(opts, len, code) == Some((data, dataLen))
      invariant !hitEnd && !found ==> Find(opts, len, code) == FindFrom(opts, len, code, cur)
      decreases len - cur, !hitEnd
    {
      var b := opts[cur];
      if b == PAD {
        cur := cur + 1;
      } else if b == END {
        hitEnd := true;
      } else {
        cur := cur + 1;
        if cur < len {
          var optionLen := opts[cur];
          cur := cur + 1;
          if code == b {
            data, dataLen, found := cur, optionLen, true;
          }
          cur := cur + optionLen;
        }
      }
    }
  }

  // ----- Option lists and the bytes that encode them

  datatype Field = Pad | Opt(code: U8, data: seq<U8>)

  predicate FieldOk(f: Field) {
    f.Opt? ==> IsCode(f.code) && |f.data| < 0x100
  }

  predicate FieldsOk(fs: seq<Field>) {
    forall i :: 0 <= i < |fs| ==> FieldOk(fs[i])
  }

  /** The data of the first option with that code. */
  function FirstData(fs: seq<Field>, code: U8): Option<seq<U8>> {
    if fs == [] then None
    else if fs[0].Opt? && fs[0].code == code then Some(fs[0].data)
    else FirstData(fs[1..], code)
  }

  /** The message ends with the list, or goes on with END and anything. */
  predicate ClosedAt(opts: seq<U8>, len: nat, end: nat) {
    end <= len <= |opts| && (end < len ==> opts[end] == END)
  }

  predicate BytesAt(opts: seq<U8>, pos: nat, data: seq<U8>) {
    pos + |data| <= |opts| && forall i :: 0 <= i < |data| ==> opts[pos + i] == data[i]
  }

  /** The bytes of one field lie at `pos`. */
  predicate FieldAt(opts: seq<U8>, pos: nat, f: Field) {
    if f.Pad? then pos < |opts| && opts[pos] == PAD
    else
      && pos + 1 < |opts|
      && opts[pos] == f.code && opts[pos + 1] == |f.data|
      && BytesAt(opts, pos + 2, f.data)
  }

  function FieldSize(f: Field): nat {
    if f.Pad? then 1 else 2 + |f.data|
  }

  /** The bytes from `pos` to `end` encode the fields, one after the other. */
  predicate ListAt(opts: seq<U8>, pos: nat, fs: seq<Field>, end: nat)
    decreases |fs|
  {
    if fs == [] then pos == end
    else FieldAt(opts, pos, fs[0]) && ListAt(opts, pos + FieldSize(fs[0]), fs[1..], end)
  }

  lemma {:induction false} ListEnds(opts: seq<U8>, pos: nat, fs: seq<Field>, end: nat)
    requires ListAt(opts, pos, fs, end)
    ensures pos <= end
    decreases |fs|
  {
    if fs != [] {
      ListEnds(opts, pos + FieldSize(fs[0]), fs[1..], end);
    }
  }

  /** The scan result denotes the expected data. */
  predicate Denotes(opts: seq<U8>, r: Option<(nat, nat)>, expected: Option<seq<U8>>) {
    match r
    case None => expected.None?
    case Some((at, n)) => expected.Some? && n == |expected.value| && BytesAt(opts, at, expected.value)
  }

  /** The scanner returns the first listed option with that code, and nothing else. */
  lemma {:induction false} FindListed(opts: seq<U8>, pos: nat, fs: seq<Field>, end: nat, len: nat, code: U8)
    requires FieldsOk(fs) && IsCode(code)
    requires ListAt(opts, pos, fs, end) && ClosedAt(opts, len, end)
    ensures Denotes(opts, FindFrom(opts, len, code, pos), FirstData(fs, code))
    decreases |fs|
  {
    if fs != [] {
      var next := pos + FieldSize(fs[0]);
      ListEnds(opts, next, fs[1..], end);
      FindListed(opts, next, fs[1..], end, len, code);
    }
  }

  /** A list may be cut off by the end of the message: a code alone is ignored, and an option whose data runs past the
      end is still found, with the length it claims. */
  lemma {:induction false} FindCutOff(opts: seq<U8>, pos: nat, fs: seq<Field>, end: nat, len: nat, code: U8)
    requires FieldsOk(fs) && IsCode(code) && ListAt(opts, pos, fs, end)
    requires end < len <= |opts| && IsCode(opts[end])
    requires end + 1 == len || end + 2 + opts[end + 1] >= len
    ensures var r := FindFrom(opts, len, code, pos);
      if FirstData(fs, code).Some? then Denotes(opts, r, FirstData(fs, code))
      else r == if end + 1 < len && opts[end] == code then Some((end + 2, opts[end + 1])) else None
    decreases |fs|
  {
    if fs != [] {
      var next := pos + FieldSize(fs[0]);
      ListEnds(opts, next, fs[1..], end);
      FindCutOff(opts, next, fs[1..], end, len, code);
    }
  }

  /** Each field takes at least its two header bytes, so the scan always ends inside the message. */
  lemma {:induction false} FoundAfterHeader(opts: seq<U8>, len: nat, code: U8, pos: nat)
    requires len <= |opts| && IsCode(code)
    ensures var r := FindFrom(opts, len, code, pos);
      r.Some? ==> pos + 2 <= r.value.0 && opts[r.value.0 - 2] == code && opts[r.value.0 - 1] == r.value.1
    decreases len - pos
  {
    if pos >= len || opts[pos] == END {
    } else if opts[pos] == PAD {
      FoundAfterHeader(opts, len, code, pos + 1);
    } else if pos + 1 < len && opts[pos] != code {
      FoundAfterHeader(opts, len, code, pos + 2 + opts[pos + 1]);
    }
  }
}
