/**
 Integers and strings in byte buffers (jni/hook/Bits.h).

 Bytes are numbers below 256. A shift by 8 is a factor of 256, and the "|" of values with
 no bit in common is their sum; the C code never joins any others.
 */
module Bits {

  type u1 = nat

  ghost predicate IsBytes(s: seq<u1>) {
    forall i | 0 <= i < |s| :: s[i] < 0x100
  }

  // ----- What bytes mean -----

  /** 256 to the power n. */
  function Range(n: nat): (r: nat)
    ensures r > 0
  {
    if n == 0 then 1 else 0x100 * Range(n - 1)
  }

  /** The number n bytes stand for, most or least significant byte first. */
  function ValueBE(s: seq<u1>): nat {
    if s == [] then 0 else 0x100 * ValueBE(s[..|s| - 1]) + s[|s| - 1]
  }

  function ValueLE(s: seq<u1>): nat {
    if s == [] then 0 else s[0] + 0x100 * ValueLE(s[1..])
  }

  /** The low n bytes of a number. */
  function BytesBE(v: nat, n: nat): (s: seq<u1>)
    ensures |s| == n && IsBytes(s)
  {
    if n == 0 then [] else BytesBE(v / 0x100, n - 1) + [v % 0x100]
  }

  function BytesLE(v: nat, n: nat): (s: seq<u1>)
    ensures |s| == n && IsBytes(s)
  {
    if n == 0 then [] else [v % 0x100] + BytesLE(v / 0x100, n - 1)
  }

  function Bytes(v: nat, n: nat, big: bool): (s: seq<u1>)
    ensures |s| == n && IsBytes(s)
  {
    if big then BytesBE(v, n) else BytesLE(v, n)
  }

  function Value(s: seq<u1>, big: bool): nat {
    if big then ValueBE(s) else ValueLE(s)
  }

  lemma {:induction false} BytesThenValue(v: nat, n: nat, big: bool)
    requires v < Range(n)
    ensures Value(Bytes(v, n, big), big) == v
    decreases n
  {
    if n > 0 {
      BytesThenValue(v / 0x100, n - 1, big);
      var s, t := Bytes(v, n, big), Bytes(v / 0x100, n - 1, big);
      assert if big then s[..n - 1] == t else s[1..] == t;
    }
  }

  lemma ValueThenBytes(s: seq<u1>, big: bool)
    requires IsBytes(s)
    ensures Value(s, big) < Range(|s|)
    ensures Bytes(Value(s, big), |s|, big) == s
  {
    if big {
      ValueThenBytesBE(s);
    } else {
      ValueThenBytesLE(s);
    }
  }

  lemma {:induction false} ValueThenBytesBE(s: seq<u1>)
    requires IsBytes(s)
    ensures ValueBE(s) < Range(|s|)
    ensures BytesBE(ValueBE(s), |s|) == s
    decreases |s|
  {
    if s != [] {
      var t, b := s[..|s| - 1], s[|s| - 1];
      ValueThenBytesBE(t);
      assert ValueBE(s) == 0x100 * ValueBE(t) + b;
      assert ValueBE(s) / 0x100 == ValueBE(t) && ValueBE(s) % 0x100 == b;
      assert s == t + [b];
    }
  }

  lemma {:induction false} ValueThenBytesLE(s: seq<u1>)
    requires IsBytes(s)
    ensures ValueLE(s) < Range(|s|)
    ensures BytesLE(ValueLE(s), |s|) == s
    decreases |s|
  {
    if s != [] {
      var t, b := s[1..], s[0];
      ValueThenBytesLE(t);
      assert ValueLE(s) == b + 0x100 * ValueLE(t);
      assert ValueLE(s) / 0x100 == ValueLE(t) && ValueLE(s) % 0x100 == b;
      assert s == [b] + t;
    }
  }

  lemma {:induction false} LittleIsBigReversed(v: nat, n: nat, k: nat)
    requires k < n
    ensures BytesLE(v, n)[k] == BytesBE(v, n)[n - 1 - k]
    decreases n
  {
    if k > 0 {
      LittleIsBigReversed(v / 0x100, n - 1, k - 1);
    }
  }

  lemma Snoc(s: seq<u1>, b: u1)
    ensures ValueBE(s + [b]) == 0x100 * ValueBE(s) + b
    ensures ValueLE([b] + s) == b + 0x100 * ValueLE(s)
  {
    assert (s + [b])[..|s|] == s && ([b] + s)[1..] == s;
  }

  lemma Values2(s: seq<u1>)
    requires |s| == 2
    ensures ValueBE(s) == 0x100 * s[0] + s[1]
    ensures ValueLE(s) == s[0] + 0x100 * s[1]
  {
    Snoc([], s[0]);
    Snoc([], s[1]);
    Snoc([s[0]], s[1]);
    Snoc([s[1]], s[0]);
    assert s == [s[0]] + [s[1]];
    assert [] + [s[0]] == [s[0]] && [s[1]] + [] == [s[1]];
    assert [] + [s[1]] == [s[1]] && [s[0]] + [] == [s[0]];
  }

  /** Two more bytes at the low end. */
  lemma TwoMore(s: seq<u1>, n: nat)
    requires |s| == n + 2
    ensures ValueBE(s) == 0x1_0000 * ValueBE(s[..n]) + 0x100 * s[n] + s[n + 1]
    ensures ValueLE(s) == s[0] + 0x100 * s[1] + 0x1_0000 * ValueLE(s[2..])
  {
    assert s[..n + 1][..n] == s[..n] && s[..n + 1][n] == s[n];
    assert ValueBE(s[..n + 1]) == 0x100 * ValueBE(s[..n]) + s[n];
    assert s[1..][1..] == s[2..] && s[1..][0] == s[1];
    assert ValueLE(s[1..]) == s[1] + 0x100 * ValueLE(s[2..]);
  }

  lemma Values4(s: seq<u1>)
    requires |s| == 4
    ensures ValueBE(s) == 0x100_0000 * s[0] + 0x1_0000 * s[1] + 0x100 * s[2] + s[3]
    ensures ValueLE(s) == s[0] + 0x100 * s[1] + 0x1_0000 * s[2] + 0x100_0000 * s[3]
  {
    TwoMore(s, 2);
    Values2(s[..2]);
    Values2(s[2..]);
  }

  lemma Values8(s: seq<u1>)
    requires |s| == 8
    ensures ValueBE(s) == 0x1_0000_0000 * (0x100_0000 * s[0] + 0x1_0000 * s[1] + 0x100 * s[2] + s[3])
                          + (0x100_0000 * s[4] + 0x1_0000 * s[5] + 0x100 * s[6] + s[7])
    ensures ValueLE(s) == (s[0] + 0x100 * s[1] + 0x1_0000 * s[2] + 0x100_0000 * s[3])
                          + 0x1_0000_0000 * (s[4] + 0x100 * s[5] + 0x1_0000 * s[6] + 0x100_0000 * s[7])
  {
    var front, back := s[..6], s[2..];
    TwoMore(s, 6);
    TwoMore(front, 4);
    TwoMore(back, 4);
    assert front[..4] == s[..4] && back[2..] == s[4..];
    Values4(s[..4]);
    Values4(s[4..]);
  }

  lemma RangeOf4()
    ensures Range(1) == 0x100 && Range(2) == 0x1_0000
    ensures Range(4) == 0x1_0000_0000
  {
    assert Range(2) == 0x100 * Range(1) && Range(1) == 0x100 * Range(0);
    assert Range(4) == 0x100 * Range(3) && Range(3) == 0x100 * Range(2);
  }

  // ----- Fields -----

  datatype Field =
    | Number(size: nat, big: bool, value: nat)
    | Utf8(str: seq<u1>)

  datatype Kind = NumberKind(size: nat, big: bool) | Utf8Kind

  function KindOf(f: Field): Kind {
    match f
    case Number(n, big, _) => NumberKind(n, big)
    case Utf8(_) => Utf8Kind
  }

  ghost predicate ValidField(f: Field) {
    match f
    case Number(n, _, v) => v < Range(n)
    case Utf8(str) => |str| < 0x1_0000_0000
  }

  /** What the set functions put into the buffer. */
  function Encode(f: Field): seq<u1> {
    match f
    case Number(n, big, v) => Bytes(v, n, big)
    case Utf8(str) => BytesBE(|str|, 4) + str
  }

  /** What a read function finds at the front of the bytes its cursor points to, and what
      it leaves: None when the field does not lie inside the buffer. */
  datatype Found = Found(field: Field, rest: seq<u1>) | None

  function Decode(input: seq<u1>, k: Kind): Found {
    match k
    case NumberKind(n, big) =>
      if n <= |input| then Found(Number(n, big, Value(input[..n], big)), input[n..]) else None
    case Utf8Kind =>
      if 4 <= |input| && ValueBE(input[..4]) <= |input[4..]| then
        var length := ValueBE(input[..4]);
        Found(Utf8(input[4..][..length]), input[4..][length..])
      else None
  }

  function Kinds(fs: seq<Field>): seq<Kind> {
    if fs == [] then [] else [KindOf(fs[0])] + Kinds(fs[1..])
  }

  function EncodeAll(fs: seq<Field>): seq<u1> {
    if fs == [] then [] else Encode(fs[0]) + EncodeAll(fs[1..])
  }

  /** Reading a list of fields with one moving cursor. */
  datatype FoundAll = FoundAll(fields: seq<Field>, rest: seq<u1>) | NoneOfThem

  function DecodeAll(input: seq<u1>, ks: seq<Kind>): FoundAll
    decreases |ks|
  {
    if ks == [] then FoundAll([], input)
    else
      match Decode(input, ks[0])
      case None => NoneOfThem
      case Found(f, rest) =>
        match DecodeAll(rest, ks[1..])
        case NoneOfThem => NoneOfThem
        case FoundAll(fs, end) => FoundAll([f] + fs, end)
  }

  lemma DecodeEncode(f: Field, rest: seq<u1>)
    requires ValidField(f)
    ensures Decode(Encode(f) + rest, KindOf(f)) == Found(f, rest)
  {
    match f
    case Number(n, big, v) =>
      BytesThenValue(v, n, big);
      TakeDrop(Bytes(v, n, big), rest);
    case Utf8(str) =>
      DecodeEncodeString(str, rest);
  }

  lemma TakeDrop(s: seq<u1>, t: seq<u1>)
    ensures (s + t)[..|s|] == s && (s + t)[|s|..] == t
  {
  }

  lemma DecodeEncodeString(str: seq<u1>, rest: seq<u1>)
    requires |str| < 0x1_0000_0000
    ensures Decode(BytesBE(|str|, 4) + str + rest, Utf8Kind) == Found(Utf8(str), rest)
  {
    var prefix := BytesBE(|str|, 4);
    assert prefix + str + rest == prefix + (str + rest);
    TakeDrop(prefix, str + rest);
    TakeDrop(str, rest);
    RangeOf4();
    BytesThenValue(|str|, 4, true);
  }

  lemma DecodeAllCons(input: seq<u1>, k: Kind, f: Field, mid: seq<u1>, ks: seq<Kind>, fs: seq<Field>, rest: seq<u1>)
    requires Decode(input, k) == Found(f, mid)
    requires DecodeAll(mid, ks) == FoundAll(fs, rest)
    ensures DecodeAll(input, [k] + ks) == FoundAll([f] + fs, rest)
  {
    assert ([k] + ks)[1..] == ks;
  }

  ghost predicate ValidFields(fs: seq<Field>) {
    forall f | f in fs :: ValidField(f)
  }

  /** Whatever list of fields is written in sequence, and whatever follows: reading with
      the moving cursor returns the same list and stops right behind it. */
  lemma {:induction false} DecodeAllEncodeAll(fs: seq<Field>, rest: seq<u1>)
    requires ValidFields(fs)
    ensures DecodeAll(EncodeAll(fs) + rest, Kinds(fs)) == FoundAll(fs, rest)
    decreases |fs|
  {
    if fs == [] {
      assert EncodeAll(fs) + rest == rest;
    } else {
      var f, tail := fs[0], EncodeAll(fs[1..]) + rest;
      assert ValidField(f) && ValidFields(fs[1..]);
      EncodeAllCons(fs, rest);
      DecodeEncode(f, tail);
      DecodeAllEncodeAll(fs[1..], rest);
      DecodeAllCons(Encode(f) + tail, KindOf(f), f, tail, Kinds(fs[1..]), fs[1..], rest);
      assert fs == [f] + fs[1..];
    }
  }

  lemma EncodeAllCons(fs: seq<Field>, rest: seq<u1>)
    requires fs != []
    ensures EncodeAll(fs) + rest == Encode(fs[0]) + (EncodeAll(fs[1..]) + rest)
  {
  }

  /** The other way round: bytes that decode are the encoding of what they decode to. */
  lemma EncodeDecode(input: seq<u1>, k: Kind)
    requires IsBytes(input) && Decode(input, k).Found?
    ensures var r := Decode(input, k);
            && KindOf(r.field) == k && Encode(r.field) + r.rest == input
            && IsBytes(r.rest)
  {
    match k
    case NumberKind(n, big) =>
      ValueThenBytes(input[..n], big);
    case Utf8Kind =>
      ValueThenBytes(input[..4], true);
      var length := ValueBE(input[..4]);
      assert input == input[..4] + (input[4..][..length] + input[4..][length..]);
  }

  lemma DecodeAllFirst(input: seq<u1>, ks: seq<Kind>)
    requires ks != [] && DecodeAll(input, ks).FoundAll?
    ensures var d := Decode(input, ks[0]);
            && d.Found?
            && var all, rest := DecodeAll(input, ks), DecodeAll(d.rest, ks[1..]);
            rest.FoundAll? && all == FoundAll([d.field] + rest.fields, rest.rest)
  {
  }

  lemma EncodeAllPrepend(f: Field, fs: seq<Field>, rest: seq<u1>)
    ensures EncodeAll([f] + fs) + rest == Encode(f) + (EncodeAll(fs) + rest)
    ensures Kinds([f] + fs) == [KindOf(f)] + Kinds(fs)
  {
    assert ([f] + fs)[1..] == fs;
  }

  lemma {:induction false} EncodeAllDecodeAll(input: seq<u1>, ks: seq<Kind>)
    requires IsBytes(input) && DecodeAll(input, ks).FoundAll?
    ensures var r := DecodeAll(input, ks);
            Kinds(r.fields) == ks && EncodeAll(r.fields) + r.rest == input
    decreases |ks|
  {
    if ks == [] {
      assert EncodeAll([]) + input == input;
    } else {
      DecodeAllFirst(input, ks);
      EncodeDecode(input, ks[0]);
      var d := Decode(input, ks[0]);
      EncodeAllDecodeAll(d.rest, ks[1..]);
      var all := DecodeAll(d.rest, ks[1..]);
      EncodeAllPrepend(d.field, all.fields, all.rest);
      assert ks == [ks[0]] + ks[1..];
    }
  }

  // ----- As the program: the get functions -----

  method Get1(src: seq<u1>, at: nat) returns (r: nat)
    requires at + 1 <= |src|
    ensures r == ValueBE(src[at..at + 1]) == ValueLE(src[at..at + 1])
  {
    r := src[at];
  }

  method Get2BE(src: seq<u1>, at: nat) returns (r: nat)
    requires at + 2 <= |src|
    ensures r == ValueBE(src[at..at + 2])
  {
    r := src[at] * 0x100 + src[at + 1];
    Values2(src[at..at + 2]);
  }

  method Get4BE(src: seq<u1>, at: nat) returns (r: nat)
    requires at + 4 <= |src|
    ensures r == ValueBE(src[at..at + 4])
  {
    r := src[at] * 0x100_0000 + src[at + 1] * 0x1_0000 + src[at + 2] * 0x100 + src[at + 3];
    Values4(src[at..at + 4]);
  }

  method Get8BE(src: seq<u1>, at: nat) returns (r: nat)
    requires at + 8 <= |src|
    ensures r == ValueBE(src[at..at + 8])
  {
    var high := src[at];
    high := high * 0x100 + src[at + 1];
    high := high * 0x100 + src[at + 2];
    high := high * 0x100 + src[at + 3];
    var low := src[at + 4];
    low := low * 0x100 + src[at + 5];
    low := low * 0x100 + src[at + 6];
    low := low * 0x100 + src[at + 7];
    r := high * 0x1_0000_0000 + low;
    Values8(src[at..at + 8]);
  }

  method Get2LE(src: seq<u1>, at: nat) returns (r: nat)
    requires at + 2 <= |src|
    ensures r == ValueLE(src[at..at + 2])
  {
    r := src[at] + src[at + 1] * 0x100;
    Values2(src[at..at + 2]);
  }

  method Get4LE(src: seq<u1>, at: nat) returns (r: nat)
    requires at + 4 <= |src|
    ensures r == ValueLE(src[at..at + 4])
  {
    r := src[at];
    r := r + src[at + 1] * 0x100;
    r := r + src[at + 2] * 0x1_0000;
    r := r + src[at + 3] * 0x100_0000;
    Values4(src[at..at + 4]);
  }

  method Get8LE(src: seq<u1>, at: nat) returns (r: nat)
    requires at + 8 <= |src|
    ensures r == ValueLE(src[at..at + 8])
  {
    var low := src[at];
    low := low + src[at + 1] * 0x100;
    low := low + src[at + 2] * 0x1_0000;
    low := low + src[at + 3] * 0x100_0000;
    var high := src[at + 4];
    high := high + src[at + 5] * 0x100;
    high := high + src[at + 6] * 0x1_0000;
    high := high + src[at + 7] * 0x100_0000;
    r := high * 0x1_0000_0000 + low;
    Values8(src[at..at + 8]);
  }

  // ----- As the program: the set functions -----

  /** The buffer after "bytes" were put at "at": nothing else changed. */
  function Put(was: seq<u1>, at: nat, bytes: seq<u1>): (now: seq<u1>)
    requires at + |bytes| <= |was|
    ensures |now| == |was|
    ensures now[..at] == was[..at] && now[at..] == bytes + was[at + |bytes|..]
  {
    was[..at] + bytes + was[at + |bytes|..]
  }

  lemma LowBytes2(v: nat)
    ensures BytesBE(v, 2) == [v / 0x100 % 0x100, v % 0x100]
    ensures BytesLE(v, 2) == [v % 0x100, v / 0x100 % 0x100]
  {
    assert BytesBE(v / 0x100, 1) == BytesBE(v / 0x100 / 0x100, 0) + [v / 0x100 % 0x100];
    assert BytesLE(v / 0x100, 1) == [v / 0x100 % 0x100] + BytesLE(v / 0x100 / 0x100, 0);
  }

  lemma LowBytes4(v: nat)
    ensures BytesBE(v, 4) == [v / 0x100_0000 % 0x100, v / 0x1_0000 % 0x100, v / 0x100 % 0x100, v % 0x100]
    ensures BytesLE(v, 4) == [v % 0x100, v / 0x100 % 0x100, v / 0x1_0000 % 0x100, v / 0x100_0000 % 0x100]
  {
    var h := v / 0x1_0000;
    assert v / 0x100 / 0x100 == h && h / 0x100 == v / 0x100_0000;
    LowBytes2(h);
    BytesUnfold(v, 4);
    BytesUnfold(v / 0x100, 3);
  }

  lemma BytesUnfold(v: nat, n: nat)
    requires n > 0
    ensures BytesBE(v, n) == BytesBE(v / 0x100, n - 1) + [v % 0x100]
    ensures BytesLE(v, n) == [v % 0x100] + BytesLE(v / 0x100, n - 1)
  {
  }

  /** The high half of a long is written like the low half. */
  lemma LowBytes8(v: nat)
    ensures var h := v / 0x1_0000_0000;
            && BytesBE(v, 8) == BytesBE(h, 4) + BytesBE(v, 4)
            && BytesLE(v, 8) == BytesLE(v, 4) + BytesLE(h, 4)
  {
    var h := v / 0x1_0000_0000;
    var a := v / 0x100;
    var b := a / 0x100;
    var c := b / 0x100;
    assert c / 0x100 == h;
    BytesUnfold(v, 8);
    BytesUnfold(a, 7);
    BytesUnfold(b, 6);
    BytesUnfold(c, 5);
    BytesUnfold(v, 4);
    BytesUnfold(a, 3);
    BytesUnfold(b, 2);
    BytesUnfold(c, 1);
  }

  lemma HighShifts(v: nat)
    ensures var h := v / 0x1_0000_0000;
            && v / 0x100_0000_0000 == h / 0x100
            && v / 0x1_0000_0000_0000 == h / 0x1_0000
            && v / 0x100_0000_0000_0000 == h / 0x100_0000
  {
  }

  lemma Shifted8(v: nat, b: seq<u1>)
    requires |b| == 8
    requires b[0] == v / 0x100_0000_0000_0000 % 0x100 && b[1] == v / 0x1_0000_0000_0000 % 0x100
    requires b[2] == v / 0x100_0000_0000 % 0x100 && b[3] == v / 0x1_0000_0000 % 0x100
    requires b[4] == v / 0x100_0000 % 0x100 && b[5] == v / 0x1_0000 % 0x100
    requires b[6] == v / 0x100 % 0x100 && b[7] == v % 0x100
    ensures b == BytesBE(v, 8)
    ensures [b[7], b[6], b[5], b[4], b[3], b[2], b[1], b[0]] == BytesLE(v, 8)
  {
    HighShifts(v);
    LowBytes8(v);
    LowBytes4(v / 0x1_0000_0000);
    LowBytes4(v);
    assert b == [b[0], b[1], b[2], b[3]] + [b[4], b[5], b[6], b[7]];
  }

  function Shifts8(v: nat): seq<u1> {
    [v / 0x100_0000_0000_0000 % 0x100, v / 0x1_0000_0000_0000 % 0x100,
     v / 0x100_0000_0000 % 0x100, v / 0x1_0000_0000 % 0x100,
     v / 0x100_0000 % 0x100, v / 0x1_0000 % 0x100, v / 0x100 % 0x100, v % 0x100]
  }

  /** A string in the buffer: its length in four bytes, high byte first, and its bytes. */
  lemma StringBytes(s: seq<u1>)
    ensures var n := |s|;
            Encode(Utf8(s))
            == [n / 0x100_0000 % 0x100, n / 0x1_0000 % 0x100, n / 0x100 % 0x100, n % 0x100] + s
  {
    LowBytes4(|s|);
  }

  method Set1(buf: array<u1>, at: nat, val: nat)
    requires at + 1 <= buf.Length
    modifies buf
    ensures buf[..] == Put(old(buf[..]), at, BytesBE(val, 1))
    ensures BytesBE(val, 1) == BytesLE(val, 1)
  {
    buf[at] := val % 0x100;
  }

  method Set2BE(buf: array<u1>, at: nat, val: nat)
    requires at + 2 <= buf.Length
    modifies buf
    ensures buf[..] == Put(old(buf[..]), at, BytesBE(val, 2))
  {
    LowBytes2(val);
    buf[at] := val / 0x100 % 0x100;
    buf[at + 1] := val % 0x100;
  }

  method Set4BE(buf: array<u1>, at: nat, val: nat)
    requires at + 4 <= buf.Length
    modifies buf
    ensures buf[..] == Put(old(buf[..]), at, BytesBE(val, 4))
  {
    LowBytes4(val);
    buf[at] := val / 0x100_0000 % 0x100;
    buf[at + 1] := val / 0x1_0000 % 0x100;
    buf[at + 2] := val / 0x100 % 0x100;
    buf[at + 3] := val % 0x100;
  }

  method Set8BE(buf: array<u1>, at: nat, val: nat)
    requires at + 8 <= buf.Length
    modifies buf
    ensures buf[..] == Put(old(buf[..]), at, BytesBE(val, 8))
  {
    Shifted8(val, Shifts8(val));
    buf[at] := val / 0x100_0000_0000_0000 % 0x100;
    buf[at + 1] := val / 0x1_0000_0000_0000 % 0x100;
    buf[at + 2] := val / 0x100_0000_0000 % 0x100;
    buf[at + 3] := val / 0x1_0000_0000 % 0x100;
    buf[at + 4] := val / 0x100_0000 % 0x100;
    buf[at + 5] := val / 0x1_0000 % 0x100;
    buf[at + 6] := val / 0x100 % 0x100;
    buf[at + 7] := val % 0x100;
  }

  method Set2LE(buf: array<u1>, at: nat, val: nat)
    requires at + 2 <= buf.Length
    modifies buf
    ensures buf[..] == Put(old(buf[..]), at, BytesLE(val, 2))
  {
    LowBytes2(val);
    buf[at] := val % 0x100;
    buf[at + 1] := val / 0x100 % 0x100;
  }

  method Set4LE(buf: array<u1>, at: nat, val: nat)
    requires at + 4 <= buf.Length
    modifies buf
    ensures buf[..] == Put(old(buf[..]), at, BytesLE(val, 4))
  {
    LowBytes4(val);
    buf[at] := val % 0x100;
    buf[at + 1] := val / 0x100 % 0x100;
    buf[at + 2] := val / 0x1_0000 % 0x100;
    buf[at + 3] := val / 0x100_0000 % 0x100;
  }

  method Set8LE(buf: array<u1>, at: nat, val: nat)
    requires at + 8 <= buf.Length
    modifies buf
    ensures buf[..] == Put(old(buf[..]), at, BytesLE(val, 8))
  {
    Shifted8(val, Shifts8(val));
    buf[at] := val % 0x100;
    buf[at + 1] := val / 0x100 % 0x100;
    buf[at + 2] := val / 0x1_0000 % 0x100;
    buf[at + 3] := val / 0x100_0000 % 0x100;
    buf[at + 4] := val / 0x1_0000_0000 % 0x100;
    buf[at + 5] := val / 0x100_0000_0000 % 0x100;
    buf[at + 6] := val / 0x1_0000_0000_0000 % 0x100;
    buf[at + 7] := val / 0x100_0000_0000_0000 % 0x100;
  }

  // ----- Strings -----

  /** The bytes of a C string before its NUL. */
  function CString(s: seq<u1>): (r: seq<u1>)
    requires 0 in s
    ensures |r| < |s| && r == s[..|r|] && s[|r|] == 0 && 0 !in r
  {
    if s[0] == 0 then [] else [s[0]] + CString(s[1..])
  }

  lemma {:induction false} CStringOf(s: seq<u1>, rest: seq<u1>)
    requires 0 !in s
    ensures CString(s + [0] + rest) == s
    decreases |s|
  {
    var all := s + [0] + rest;
    if s != [] {
      assert all[0] == s[0] && all[1..] == s[1..] + [0] + rest;
      CStringOf(s[1..], rest);
    }
  }

  method Strlen(s: seq<u1>) returns (n: nat)
    requires 0 in s
    ensures n == |CString(s)|
  {
    n := 0;
    while s[n] != 0
      invariant n < |s| && 0 !in s[..n] && 0 in s[n..]
      decreases |s| - n
    {
      assert s[n..] == [s[n]] + s[n + 1..];
      n := n + 1;
    }
    assert s == s[..n] + [0] + s[n + 1..];
    CStringOf(s[..n], s[n + 1..]);
  }

  /** memcpy into a buffer. */
  method CopyInto(buf: array<u1>, at: nat, src: seq<u1>)
    requires at + |src| <= buf.Length
    modifies buf
    ensures buf[..] == Put(old(buf[..]), at, src)
  {
    for i := 0 to |src|
      invariant forall j | 0 <= j < buf.Length ::
                  buf[j] == if at <= j < at + i then src[j - at] else old(buf[..])[j]
    {
      buf[at + i] := src[i];
    }
  }

  lemma PutPut(was: seq<u1>, at: nat, s: seq<u1>, t: seq<u1>)
    requires at + |s| + |t| <= |was|
    ensures Put(Put(was, at, s), at + |s|, t) == Put(was, at, s + t)
  {
  }

  lemma PutTerminated(was: seq<u1>, str: seq<u1>, n: nat)
    requires n <= |str| && n < |was|
    ensures Put(was, 0, str[..n])[n := 0] == Put(was, 0, str[..n] + [0])
  {
  }

  /** setUtf8String: what lands in the buffer is the encoding of the C string. */
  method SetUtf8String(buf: array<u1>, at: nat, str: seq<u1>)
    requires 0 in str && at + 4 + |CString(str)| <= buf.Length
    modifies buf
    ensures buf[..] == Put(old(buf[..]), at, Encode(Utf8(CString(str))))
  {
    var strLen := Strlen(str);
    Set4BE(buf, at, strLen);
    CopyInto(buf, at + 4, str[..strLen]);
    PutPut(old(buf[..]), at, BytesBE(strLen, 4), str[..strLen]);
  }

  // ----- The moving cursor -----

  lemma Window(src: seq<u1>, pos: nat, n: nat)
    requires pos + n <= |src|
    ensures src[pos..][..n] == src[pos..pos + n] && src[pos..][n..] == src[pos + n..]
  {
  }

  /** The read functions share a pointer into a buffer, which they advance. */
  class Reader {
    const src: seq<u1>
    var pos: nat

    constructor (src: seq<u1>, pos: nat)
      ensures this.src == src && this.pos == pos
    {
      this.src := src;
      this.pos := pos;
    }

    /** What is left to read. */
    function Rest(): seq<u1>
      requires pos <= |src|
      reads this
    {
      src[pos..]
    }

    method Read1() returns (r: nat)
      requires pos + 1 <= |src|
      modifies this
      ensures pos == old(pos) + 1 && Decode(old(Rest()), NumberKind(1, true)) == Found(Number(1, true, r), Rest())
    {
      Window(src, pos, 1);
      r := Get1(src, pos);
      pos := pos + 1;
    }

    method Read2BE() returns (r: nat)
      requires pos + 2 <= |src|
      modifies this
      ensures pos == old(pos) + 2 && Decode(old(Rest()), NumberKind(2, true)) == Found(Number(2, true, r), Rest())
    {
      Window(src, pos, 2);
      var pSrc := pos;
      pos := pSrc + 2;
      r := Get2BE(src, pSrc);
    }

    method Read4BE() returns (r: nat)
      requires pos + 4 <= |src|
      modifies this
      ensures pos == old(pos) + 4 && Decode(old(Rest()), NumberKind(4, true)) == Found(Number(4, true, r), Rest())
    {
      Window(src, pos, 4);
      r := Get4BE(src, pos);
      pos := pos + 4;
    }

    method Read8BE() returns (r: nat)
      requires pos + 8 <= |src|
      modifies this
      ensures pos == old(pos) + 8 && Decode(old(Rest()), NumberKind(8, true)) == Found(Number(8, true, r), Rest())
    {
      Window(src, pos, 8);
      r := Get8BE(src, pos);
      pos := pos + 8;
    }

    method Read2LE() returns (r: nat)
      requires pos + 2 <= |src|
      modifies this
      ensures pos == old(pos) + 2 && Decode(old(Rest()), NumberKind(2, false)) == Found(Number(2, false, r), Rest())
    {
      Window(src, pos, 2);
      var pSrc := pos;
      pos := pSrc + 2;
      r := Get2LE(src, pSrc);
    }

    method Read4LE() returns (r: nat)
      requires pos + 4 <= |src|
      modifies this
      ensures pos == old(pos) + 4 && Decode(old(Rest()), NumberKind(4, false)) == Found(Number(4, false, r), Rest())
    {
      Window(src, pos, 4);
      r := Get4LE(src, pos);
      pos := pos + 4;
    }

    method Read8LE() returns (r: nat)
      requires pos + 8 <= |src|
      modifies this
      ensures pos == old(pos) + 8 && Decode(old(Rest()), NumberKind(8, false)) == Found(Number(8, false, r), Rest())
    {
      Window(src, pos, 8);
      r := Get8LE(src, pos);
      pos := pos + 8;
    }

    /** The length in front of a string; the string is what lies behind the cursor then. */
    method ReadLength() returns (length: nat)
      requires pos <= |src| && Decode(Rest(), Utf8Kind).Found?
      modifies this
      ensures pos + length <= |src|
      ensures Decode(old(Rest()), Utf8Kind) == Found(Utf8(src[pos..pos + length]), src[pos + length..])
    {
      Window(src, pos, 4);
      length := Read4BE();
      Window(src, pos, length);
    }

    /** skipUtf8String. */
    method SkipUtf8String()
      requires pos <= |src| && Decode(Rest(), Utf8Kind).Found?
      modifies this
      ensures pos <= |src| && Rest() == Decode(old(Rest()), Utf8Kind).rest
    {
      var length := ReadLength();
      pos := pos + length;
    }

    /** readUtf8String: as much as fits in front of the NUL, and the length of the
        original string (as the C int it is returned as). A buffer of no bytes is the
        one case the C code does not handle. */
    method ReadUtf8String(buf: array<u1>) returns (result: int)
      requires pos <= |src| && Decode(Rest(), Utf8Kind).Found? && buf.Length >= 1
      modifies this, buf
      ensures var d := Decode(old(Rest()), Utf8Kind);
              && pos <= |src| && Rest() == d.rest
              && result == ToInt32(|d.field.str|)
              && buf[..] == Put(old(buf[..]), 0, Bounded(d.field.str, buf.Length))
    {
      var length := ReadLength();
      CopyBounded(buf, src[pos..pos + length]);
      pos := pos + length;
      result := ToInt32(length);
    }

    /** readNewUtf8String: the whole string with a NUL behind it. */
    method ReadNewUtf8String() returns (buf: array<u1>, length: nat)
      requires pos <= |src| && Decode(Rest(), Utf8Kind).Found?
      modifies this
      ensures var d := Decode(old(Rest()), Utf8Kind);
              && pos <= |src| && Rest() == d.rest
              && length == |d.field.str|
              && fresh(buf) && buf[..] == d.field.str + [0]
    {
      length := ReadLength();
      buf := new u1[length + 1];
      CopyInto(buf, 0, src[pos..pos + length]);
      buf[length] := 0;
      pos := pos + length;
    }
  }

  method CopyBounded(buf: array<u1>, str: seq<u1>)
    requires buf.Length >= 1
    modifies buf
    ensures buf[..] == Put(old(buf[..]), 0, Bounded(str, buf.Length))
  {
    var bufLen := buf.Length;
    var copyLen := CopyLen(|str|, bufLen);
    CopyInto(buf, 0, str[..copyLen]);
    buf[copyLen] := 0;
    PutTerminated(old(buf[..]), str, copyLen);
  }

  /** How much the bounded read copies; below zero, size_t wraps around. */
  function CopyLen(length: nat, bufLen: nat): nat {
    if length < bufLen then length else if bufLen > 0 then bufLen - 1 else 0xFFFF_FFFF
  }

  /** The copy and its NUL fit exactly into buffers that have room for a NUL at all. */
  lemma BoundedReadFits(length: nat, bufLen: nat)
    ensures CopyLen(length, bufLen) + 1 <= bufLen <==> bufLen >= 1
  {
  }

  /** A u4 returned as an int. */
  function ToInt32(u: nat): int {
    if u % 0x1_0000_0000 < 0x8000_0000 then u % 0x1_0000_0000 else u % 0x1_0000_0000 - 0x1_0000_0000
  }

  /** What the bounded read leaves at the front of its buffer. */
  function Bounded(str: seq<u1>, bufLen: nat): (r: seq<u1>)
    requires bufLen >= 1
    ensures |r| <= bufLen
  {
    str[..if |str| < bufLen then |str| else bufLen - 1] + [0]
  }

  /** The bounded read yields the longest prefix that leaves room for the NUL, as a C
      string whenever the string itself has none inside; it is the whole string exactly
      when the buffer is larger than the string. */
  lemma BoundedIsPrefix(str: seq<u1>, bufLen: nat)
    requires bufLen >= 1 && 0 !in str
    ensures var s := CString(Bounded(str, bufLen));
            && s <= str
            && |s| == (if |str| <= bufLen - 1 then |str| else bufLen - 1)
            && (s == str <==> |str| < bufLen)
  {
    var n := if |str| < bufLen then |str| else bufLen - 1;
    CStringOf(str[..n], []);
    assert str[..n] + [0] + [] == Bounded(str, bufLen);
  }

  /** The returned length is the original length exactly below 2^31, and else 2^32 less. */
  lemma LengthSurvives(n: nat)
    requires n < 0x1_0000_0000
    ensures ToInt32(n) == n <==> n < 0x8000_0000
    ensures n >= 0x8000_0000 ==> ToInt32(n) == n - 0x1_0000_0000
  {
  }

  lemma PutThenRest(was: seq<u1>, at: nat, bytes: seq<u1>)
    requires at + |bytes| <= |was|
    ensures Put(was, at, bytes)[at..] == bytes + was[at + |bytes|..]
  {
  }

  /** A string written with setUtf8String decodes to itself, and what lies behind it in
      the buffer is what every reader is left with. */
  lemma StringRoundTrip(was: seq<u1>, at: nat, s: seq<u1>)
    requires |s| < 0x1_0000_0000 && at + 4 + |s| <= |was|
    ensures Decode(Put(was, at, Encode(Utf8(s)))[at..], Utf8Kind) == Found(Utf8(s), was[at + 4 + |s|..])
  {
    var e := Encode(Utf8(s));
    PutThenRest(was, at, e);
    DecodeEncode(Utf8(s), was[at + |e|..]);
  }

  /** The buffer readNewUtf8String allocates holds the string as a C string. */
  lemma TerminatedIsItself(s: seq<u1>)
    requires 0 !in s
    ensures CString(s + [0]) == s
  {
    CStringOf(s, []);
    assert s + [0] + [] == s + [0];
  }
}
