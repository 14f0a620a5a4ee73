/** Base-128 varints and ZigZag (protobuf-c.c, server.c).
    Shifts and masks on unsigned words are written as division and remainder. */
module Varint {
  import opened Bytes

  // ---------------------------------------------------------------- reference

  /** Base 128, least significant group first, high bit set on all but the last octet. */
  function Encode(v: nat): (r: seq<byte>)
    ensures |r| >= 1
  {
    if v < 128 then [v] else [v % 128 + 128] + Encode(v / 128)
  }

  /** The number a run of 7-bit groups stands for. */
  function Value(s: seq<byte>): nat {
    if s == [] then 0 else Low7(s[0]) + 128 * Value(s[1..])
  }

  /** The payload bits of an octet. */
  function Low7(b: byte): nat { b % 128 }

  lemma ValueStep(s: seq<byte>, i: nat)
    requires i <= |s|
    ensures i < |s| ==> Value(s[i..]) == Low7(s[i]) + 128 * Value(s[i + 1..])
    ensures Value(s[|s|..]) == 0
  {
    assert i < |s| ==> s[i..][1..] == s[i + 1..];
  }

  /** A complete varint: the last octet, and only the last, has its high bit clear. */
  predicate Terminated(s: seq<byte>) {
    && s != []
    && s[|s| - 1] < 128
    && forall i :: 0 <= i < |s| - 1 ==> s[i] >= 128
  }

  lemma {:induction false} ValueEncode(v: nat)
    ensures Value(Encode(v)) == v
    ensures Terminated(Encode(v))
    decreases v
  {
    hide Terminated;
    if v >= 128 {
      ValueEncode(v / 128);
      var rest := Encode(v / 128);
      TerminatedCons(v % 128 + 128, rest);
      assert Encode(v) == [v % 128 + 128] + rest;
      assert Encode(v)[1..] == rest;
    } else {
      TerminatedAlone(v);
    }
  }

  lemma TerminatedAlone(b: byte)
    requires b < 128
    ensures Terminated([b])
  {
  }

  lemma TerminatedCons(b: byte, rest: seq<byte>)
    requires b >= 128 && Terminated(rest)
    ensures Terminated([b] + rest)
  {
    var e := [b] + rest;
    assert forall i :: 1 <= i < |e| ==> e[i] == rest[i - 1];
  }

  // -------------------------------------------------------------------- sizes

  function Size32(v: nat): (r: nat)
    requires v < POW32
    ensures 1 <= r <= 5
  {
    if v < 0x80 then 1
    else if v < 0x4000 then 2
    else if v < 0x20_0000 then 3
    else if v < 0x1000_0000 then 4
    else 5
  }

  function Size64(v: nat): (r: nat)
    requires v < POW64
    ensures 1 <= r <= 10
  {
    var upper := v / POW32;
    if upper == 0 then Size32(v % POW32)
    else if upper < 0x8 then 5
    else if upper < 0x400 then 6
    else if upper < 0x2_0000 then 7
    else if upper < 0x100_0000 then 8
    else if upper < 0x8000_0000 then 9
    else 10
  }

  function SizeInt32(v: int): (r: nat)
    requires -0x8000_0000 <= v < 0x8000_0000
  {
    if v < 0 then 10
    else if v < 0x80 then 1
    else if v < 0x4000 then 2
    else if v < 0x20_0000 then 3
    else if v < 0x1000_0000 then 4
    else 5
  }

  /** `get_tag_size`, for a field number. */
  function TagSize(number: nat): (r: nat)
    requires number < POW32
  {
    if number < 0x10 then 1
    else if number < 0x800 then 2
    else if number < 0x4_0000 then 3
    else if number < 0x200_0000 then 4
    else 5
  }

  lemma EncodeUnroll(v: nat)
    ensures v < 128 ==> Encode(v) == [v]
    ensures v >= 128 ==> Encode(v) == [v % 128 + 128] + Encode(v / 128)
    ensures |Encode(v)| == if v < 128 then 1 else 1 + |Encode(v / 128)|
  {
  }

  lemma Size32Correct(v: nat)
    requires v < POW32
    ensures Size32(v) == |Encode(v)|
  {
    EncodeUnroll(v);
    EncodeUnroll(v / 128);
    EncodeUnroll(v / 128 / 128);
    EncodeUnroll(v / 128 / 128 / 128);
    EncodeUnroll(v / 128 / 128 / 128 / 128);
  }

  /** Lengths of two numbers 35 bits apart differ by five octets. */
  lemma EncodeLengthShift5(v: nat)
    requires v >= 0x8_0000_0000
    ensures |Encode(v)| == 5 + |Encode(v / 0x8_0000_0000)|
  {
    EncodeUnroll(v);
    EncodeUnroll(v / 128);
    EncodeUnroll(v / 128 / 128);
    EncodeUnroll(v / 128 / 128 / 128);
    EncodeUnroll(v / 128 / 128 / 128 / 128);
    assert v / 128 / 128 / 128 / 128 / 128 == v / 0x8_0000_0000;
  }

  lemma Size64Correct(v: nat)
    requires v < POW64
    ensures Size64(v) == |Encode(v)|
  {
    if v < 0x8_0000_0000 {
      EncodeUnroll(v);
      EncodeUnroll(v / 128);
      EncodeUnroll(v / 128 / 128);
      EncodeUnroll(v / 128 / 128 / 128);
      EncodeUnroll(v / 128 / 128 / 128 / 128);
    } else {
      EncodeLengthShift5(v);
      var w := v / 0x8_0000_0000;
      Size32Correct(w);
      assert w == v / POW32 / 8;
    }
  }

  // ----------------------------------------------------------------- encoders

  /** `encode_varint`: the plain loop. */
  method EncodeVarint(buffer: array<byte>, value: nat) returns (encoded: nat)
    requires value < POW64 && buffer.Length >= 10
    modifies buffer
    ensures encoded == |Encode(value)| <= 10
    ensures buffer[..] == Patch(old(buffer[..]), 0, Encode(value))
  {
    hide Patch, Encode;
    ghost var before := buffer[..];
    ghost var done: seq<byte> := [];
    Size64Correct(value);
    PatchRead(before, 0, []);
    encoded := 0;
    var v := value;
    var more := true;
    while more
      invariant encoded == |done| <= 10
      invariant more ==> done + Encode(v) == Encode(value)
      invariant !more ==> done == Encode(value)
      invariant buffer[..] == Patch(before, 0, done)
      decreases v, more
    {
      EncodeUnroll(v);
      var next := v % 128;
      v := v / 128;
      if v != 0 { next := next + 128; }
      assert v != 0 ==> done + Encode(128 * v + next - 128) == done + [next] + Encode(v);
      WriteOne(buffer, 0, before, done, next, encoded);
      encoded := encoded + 1;
      done := done + [next];
      more := v != 0;
    }
  }

  /** `uint32_pack`: the loop unrolled to nested tests. */
  method Pack32(value: nat, out: array<byte>, at: nat) returns (rv: nat)
    requires value < POW32
    requires at + |Encode(value)| <= out.Length
    modifies out
    ensures rv == |Encode(value)| <= 5
    ensures out[..] == Patch(old(out[..]), at, Encode(value))
  {
    ghost var before := out[..];
    Size32Correct(value);
    EncodeUnroll(value);
    rv := 0;
    var v := value;
    if v >= 0x80 {
      out[at + rv] := v % 128 + 128;
      rv, v := rv + 1, v / 128;
      EncodeUnroll(v);
      if v >= 0x80 {
        out[at + rv] := v % 128 + 128;
        rv, v := rv + 1, v / 128;
        EncodeUnroll(v);
        if v >= 0x80 {
          out[at + rv] := v % 128 + 128;
          rv, v := rv + 1, v / 128;
          EncodeUnroll(v);
          if v >= 0x80 {
            out[at + rv] := v % 128 + 128;
            rv, v := rv + 1, v / 128;
            EncodeUnroll(v);
          }
        }
      }
    }
    out[at + rv] := v;
    rv := rv + 1;
  }

  /** A signed 32-bit word as the unsigned 64-bit word it is sign-extended to. */
  function SignExtend(v: int): nat
    requires -0x8000_0000 <= v < 0x8000_0000
  {
    if v < 0 then v + POW64 else v
  }

  /** The octets `int32_pack` writes for a negative number: five from its bits (`>>` is an arithmetic
      shift), five constant. */
  function NegativeLow(v: int): (r: seq<byte>)
    ensures |r| == 5
  {
    [v % 128 + 128, v / 0x80 % 128 + 128, v / 0x4000 % 128 + 128,
     v / 0x20_0000 % 128 + 128, v / 0x1000_0000 % 128 + 128]
  }

  const NEGATIVE_HIGH: seq<byte> := [0xff, 0xff, 0xff, 0xff, 0x01]

  function NegativeOctets(v: int): (r: seq<byte>)
    ensures |r| == 10
  {
    NegativeLow(v) + NEGATIVE_HIGH
  }

  /** The first four groups of a number of at least 29 bits. */
  lemma {:induction false} EncodeUnroll4(w: nat)
    requires w >= 0x1000_0000
    ensures Encode(w) == [w % 128 + 128, w / 0x80 % 128 + 128, w / 0x4000 % 128 + 128, w / 0x20_0000 % 128 + 128]
                         + Encode(w / 0x1000_0000)
  {
    EncodeUnroll(w);
    var w1 := w / 0x80;
    EncodeUnroll(w1);
    var w2 := w1 / 0x80;
    EncodeUnroll(w2);
    var w3 := w2 / 0x80;
    EncodeUnroll(w3);
    assert w2 == w / 0x4000 && w3 == w / 0x20_0000 && w3 / 0x80 == w / 0x1000_0000;
  }

  lemma MulStep(d: nat, q: int, q': int)
    requires d > 0 && q < q'
    ensures d * q + d <= d * q'
  {
    var e: nat := q' - q - 1;
    assert d * q' == d * (q + 1 + e) == d * q + d + d * e;
  }

  lemma DivUnique(x: int, d: nat, q: int, r: int)
    requires d > 0 && x == d * q + r && 0 <= r < d
    ensures x / d == q
  {
    var q0 := x / d;
    assert x == d * q0 + x % d;
    if q < q0 { MulStep(d, q, q0); }
    if q0 < q { MulStep(d, q0, q); }
  }

  /** Division drops a whole multiple of the divisor. */
  lemma DivAdd(x: int, k: int, d: nat)
    requires d > 0
    ensures (x + k * d) / d == x / d + k
  {
    assert x == d * (x / d) + x % d;
    assert d * (x / d + k) == d * (x / d) + k * d;
    DivUnique(x + k * d, d, x / d + k, x % d);
  }

  /** Adding a multiple of `128 * d` leaves the group above `d` unchanged. */
  lemma GroupAdd(x: int, k: int, d: nat)
    requires d > 0
    ensures (x + 128 * k * d) / d % 128 == x / d % 128
  {
    DivAdd(x, 128 * k, d);
    DivAdd(x / d, k, 128);
  }

  /** The groups of a number do not see what is added a whole number of groups further up. */
  lemma LowGroups(x: int, k: int, w: int)
    requires w == x + k * 0x1000_0000
    ensures w % 128 == x % 128 && w / 0x80 % 128 == x / 0x80 % 128
    ensures w / 0x4000 % 128 == x / 0x4000 % 128 && w / 0x20_0000 % 128 == x / 0x20_0000 % 128
    ensures w / 0x1000_0000 == x / 0x1000_0000 + k
  {
    GroupAdd(x, k * 0x20_0000, 1);
    GroupAdd(x, k * 0x4000, 0x80);
    GroupAdd(x, k * 0x80, 0x4000);
    GroupAdd(x, k, 0x20_0000);
    DivAdd(x, k, 0x1000_0000);
  }

  lemma {:induction false} NegativeIsSignExtended(v: int)
    requires -0x8000_0000 <= v < 0
    ensures NegativeOctets(v) == Encode(SignExtend(v))
  {
    var w := SignExtend(v);
    LowGroups(v, 0x10_0000_0000, w);
    EncodeUnroll4(w);
    var u := w / 0x1000_0000;
    EncodeUnroll(u);
    assert u / 128 == 0x1fff_ffff && u % 128 == v / 0x1000_0000 % 128;
    EncodeUnroll4(0x1fff_ffff);
    EncodeUnroll(1);
  }

  lemma SizeInt32Correct(v: int)
    requires -0x8000_0000 <= v < 0x8000_0000
    ensures SizeInt32(v) == |Encode(SignExtend(v))|
  {
    if v < 0 {
      NegativeIsSignExtended(v);
    } else {
      Size32Correct(v);
    }
  }

  /** `int32_pack`. */
  method PackInt32(value: int, out: array<byte>, at: nat) returns (rv: nat)
    requires -0x8000_0000 <= value < 0x8000_0000
    requires at + |Encode(SignExtend(value))| <= out.Length
    modifies out
    ensures rv == |Encode(SignExtend(value))| <= 10
    ensures out[..] == Patch(old(out[..]), at, Encode(SignExtend(value)))
  {
    hide Patch, Encode, NegativeOctets;
    if value < 0 {
      NegativeIsSignExtended(value);
      PackNegative(value, out, at);
      rv := 10;
    } else {
      rv := Pack32(value, out, at);
    }
  }

  method PackNegative(value: int, out: array<byte>, at: nat)
    requires -0x8000_0000 <= value < 0 && at + 10 <= out.Length
    modifies out
    ensures out[..] == Patch(old(out[..]), at, NegativeOctets(value))
  {
    hide Patch;
    ghost var before := out[..];
    WriteFive(out, at, value % 128 + 128, value / 0x80 % 128 + 128, value / 0x4000 % 128 + 128,
              value / 0x20_0000 % 128 + 128, value / 0x1000_0000 % 128 + 128);
    assert out[..] == Patch(before, at, NegativeLow(value));
    WriteFive(out, at + 5, 0xff, 0xff, 0xff, 0xff, 0x01);
    PatchPatch(before, at, NegativeLow(value), NEGATIVE_HIGH);
  }

  method WriteFive(out: array<byte>, at: nat, b0: byte, b1: byte, b2: byte, b3: byte, b4: byte)
    requires at + 5 <= out.Length
    modifies out
    ensures out[..] == Patch(old(out[..]), at, [b0, b1, b2, b3, b4])
  {
    out[at] := b0;
    out[at + 1] := b1;
    out[at + 2] := b2;
    out[at + 3] := b3;
    out[at + 4] := b4;
  }

  /** The first five octets `uint64_pack` writes, from the two 32-bit halves. */
  function LowOctets(lo: nat, hi: nat): (r: seq<byte>)
    requires lo < POW32
    ensures |r| == 5
  {
    [lo % 128 + 128, lo / 0x80 % 128 + 128, lo / 0x4000 % 128 + 128, lo / 0x20_0000 % 128 + 128,
     (hi % 8) * 16 + lo / 0x1000_0000 + (if hi < 8 then 0 else 128)]
  }

  /** Splitting a wide number at 32 bits does not disturb its 7-bit groups. */
  lemma {:induction false} SplitEncode(value: nat, lo: nat, hi: nat)
    requires value < POW64
    requires lo == value % POW32 && hi == value / POW32 && hi > 0
    ensures Encode(value) == LowOctets(lo, hi) + (if hi < 8 then [] else Encode(hi / 8))
  {
    var g := value / 0x1000_0000;
    assert value == lo + hi * 16 * 0x1000_0000;
    LowGroups(lo, hi * 16, value);
    Seam(lo, hi, g);
    EncodeUnroll4(value);
    EncodeUnroll(g);
  }

  /** The octet that joins the halves: four low bits from one, three from the other. */
  lemma Seam(lo: nat, hi: nat, g: nat)
    requires lo < 0x1_0000_0000 && g == lo / 0x1000_0000 + hi * 16
    ensures g / 128 == hi / 8 && g % 128 == (hi % 8) * 16 + lo / 0x1000_0000
    ensures hi < 8 ==> g < 128
  {
  }

  /** `uint64_pack`: 32-bit halves, four fixed octets, a seam octet, then a loop. */
  method Pack64(value: nat, out: array<byte>, at: nat) returns (rv: nat)
    requires value < POW64
    requires at + |Encode(value)| <= out.Length
    modifies out
    ensures rv == |Encode(value)| <= 10
    ensures out[..] == Patch(old(out[..]), at, Encode(value))
  {
    ghost var before := out[..];
    var hi := value / POW32;
    var lo := value % POW32;
    Size64Correct(value);
    if hi == 0 {
      rv := Pack32(lo, out, at);
      return;
    }
    hide Patch, Encode, LowOctets;
    SplitEncode(value, lo, hi);
    PackLow(lo, hi, out, at);
    rv := 5;
    if hi >= 8 {
      rv := PackTail(hi / 8, out, at, rv);
      PatchPatch(before, at, LowOctets(lo, hi), Encode(hi / 8));
    } else {
      assert LowOctets(lo, hi) + [] == LowOctets(lo, hi);
    }
  }

  /** The five octets `uint64_pack` writes from the halves. */
  method PackLow(lo: nat, hi: nat, out: array<byte>, at: nat)
    requires lo < POW32 && at + 5 <= out.Length
    modifies out
    ensures out[..] == Patch(old(out[..]), at, LowOctets(lo, hi))
  {
    Seam(lo, hi, lo / 0x1000_0000 + hi * 16);
    var seam := if hi < 8 then hi * 16 + lo / 0x1000_0000 else (hi % 8) * 16 + lo / 0x1000_0000 + 128;
    WriteFive(out, at, lo % 128 + 128, lo / 0x80 % 128 + 128, lo / 0x4000 % 128 + 128, lo / 0x20_0000 % 128 + 128,
              seam);
  }

  /** The closing loop of `uint64_pack`, from octet `start` on. */
  method PackTail(value: nat, out: array<byte>, at: nat, start: nat) returns (rv: nat)
    requires at + start + |Encode(value)| <= out.Length
    modifies out
    ensures rv == start + |Encode(value)|
    ensures out[..] == Patch(old(out[..]), at + start, Encode(value))
  {
    hide Patch, Encode;
    ghost var before := out[..];
    ghost var done: seq<byte> := [];
    rv := start;
    var hi := value;
    PatchRead(before, at + start, []);
    while hi >= 128
      invariant rv == start + |done|
      invariant done + Encode(hi) == Encode(value)
      invariant out[..] == Patch(before, at + start, done)
    {
      EncodeUnroll(hi);
      var b := hi % 128 + 128;
      WriteOne(out, at + start, before, done, b, at + rv);
      assert done + Encode(hi) == (done + [b]) + Encode(hi / 128);
      done := done + [b];
      rv, hi := rv + 1, hi / 128;
    }
    EncodeUnroll(hi);
    WriteOne(out, at + start, before, done, hi, at + rv);
    rv := rv + 1;
  }

  // ----------------------------------------------------------------- decoders

  /** The length of the varint `s` starts with, or 0 when none ends within `limit` octets. */
  function ScanWithin(s: seq<byte>, limit: nat): (r: nat)
    ensures r <= |s| && r <= limit
    ensures r > 0 ==> Terminated(s[..r])
    ensures r == 0 ==> forall k :: 0 <= k < |s| && k < limit ==> s[k] >= 128
  {
    ScanFrom(s, limit, 0)
  }

  function ScanFrom(s: seq<byte>, limit: nat, i: nat): (r: nat)
    requires i <= |s| && i <= limit
    requires forall j :: 0 <= j < i ==> s[j] >= 128
    ensures r == 0 || i < r
    ensures r <= |s| && r <= limit
    ensures r > 0 ==> Terminated(s[..r])
    ensures r == 0 ==> forall k :: 0 <= k < |s| && k < limit ==> s[k] >= 128
    decreases limit - i
  {
    if i == |s| || i == limit then 0
    else if s[i] < 128 then i + 1
    else ScanFrom(s, limit, i + 1)
  }

  /** `scan_varint` */
  function Scan(s: seq<byte>): (r: nat)
    ensures r <= |s| && r <= 10
    ensures r > 0 ==> Terminated(s[..r])
  {
    ScanWithin(s, 10)
  }

  /** A varint followed by anything scans as that varint. */
  lemma ScanPrefix(v: seq<byte>, rest: seq<byte>, limit: nat)
    requires Terminated(v) && |v| <= limit
    ensures ScanWithin(v + rest, limit) == |v|
  {
    var s := v + rest;
    assert s[|v| - 1] == v[|v| - 1];
    var r := ScanWithin(s, limit);
    assert r > 0;
    assert s[..r][r - 1] == s[r - 1];
    assert forall i :: 0 <= i < r ==> s[..r][i] == s[i];
    assert forall i :: 0 <= i < |v| ==> s[i] == v[i];
  }

  /** Finding the end of a varint does not depend on what is behind it. */
  lemma ScanStable(s: seq<byte>, rest: seq<byte>, limit: nat)
    requires ScanWithin(s, limit) > 0
    ensures ScanWithin(s + rest, limit) == ScanWithin(s, limit)
  {
    var n := ScanWithin(s, limit);
    assert s + rest == s[..n] + (s[n..] + rest);
    ScanPrefix(s[..n], s[n..] + rest, limit);
  }

  method ScanVarint(len: nat, data: seq<byte>) returns (rv: nat)
    requires len == |data|
    ensures rv == Scan(data)
  {
    var max := if len > 10 then 10 else len;
    var i := 0;
    while i < max
      invariant 0 <= i <= max
      invariant forall j :: 0 <= j < i ==> data[j] >= 128
      invariant Scan(data) == ScanFrom(data, 10, i)
    {
      if data[i] < 128 { break; }
      i := i + 1;
    }
    if i == max { return 0; }
    return i + 1;
  }

  /** The weight of the 7-bit group number `i`. */
  function Weight(i: nat): (w: nat)
    ensures w >= 1
  {
    if i == 0 then 1 else 128 * Weight(i - 1)
  }

  /** Octet `k` of an encoding is the 7-bit group number `k`, with the high bit set except on the last one; there are
      as many groups as the number needs, and one for 0. */
  lemma {:induction false} EncodeAt(v: nat, k: nat)
    requires k < |Encode(v)|
    ensures Encode(v)[k] == v / Weight(k) % 128 + (if k + 1 < |Encode(v)| then 128 else 0)
    ensures k > 0 ==> v >= Weight(k)
    ensures k + 1 == |Encode(v)| ==> v < Weight(k + 1)
  {
    if k > 0 {
      EncodeAt(v / 128, k - 1);
      DivideTwice(v, 128, Weight(k - 1));
    }
  }

  lemma {:induction false} ValueAppend(s: seq<byte>, b: byte)
    ensures Value(s + [b]) == Value(s) + Low7(b) * Weight(|s|)
    ensures Value(s) < Weight(|s|)
  {
    if s == [] {
      assert ([] + [b])[1..] == [];
    } else {
      assert (s + [b])[1..] == s[1..] + [b];
      ValueAppend(s[1..], b);
      assert 128 * (Low7(b) * Weight(|s| - 1)) == Low7(b) * Weight(|s|);
    }
  }

  lemma ModUnique(r: nat, q: nat, x: nat)
    requires r < 0x1_0000_0000 && x == r + 0x1_0000_0000 * q
    ensures x % 0x1_0000_0000 == r
  {
  }

  /** What is left of a fifth group in a 32-bit word. */
  lemma TopGroup(low: nat, b: byte, above: nat)
    requires low < 0x1000_0000
    ensures (low + 0x1000_0000 * (Low7(b) + 128 * above)) % 0x1_0000_0000
         == low + 0x1000_0000 * (b as int) % 0x1_0000_0000
  {
    var t := b % 16;
    var k := Low7(b) / 16 + 8 * above;
    assert Low7(b) + 128 * above == t + 16 * k;
    ModUnique(low + 0x1000_0000 * t, k, low + 0x1000_0000 * (Low7(b) + 128 * above));
    ModUnique(0x1000_0000 * t, b / 16, 0x1000_0000 * (b as int));
  }

  /** `parse_uint32`: nested tests on the length; the fifth octet is shifted unmasked and loses its high bits. */
  method ParseUint32(len: nat, data: seq<byte>) returns (rv: nat)
    requires len == |data| >= 1
    ensures rv == Value(data) % POW32
  {
    hide Value, Low7;
    GroupSum(data);
    rv := Low7(data[0]);
    if len > 1 {
      rv := rv + 0x80 * Low7(data[1]);
      if len > 2 {
        rv := rv + 0x4000 * Low7(data[2]);
        if len > 3 {
          rv := rv + 0x20_0000 * Low7(data[3]);
          if len > 4 {
            TopGroup(rv, data[4], Value(data[5..]));
            rv := rv + 0x1000_0000 * (data[4] as int) % 0x1_0000_0000;
          }
        }
      }
    }
  }

  /** The number as the sum of its groups, the fifth and those above it together. */
  lemma GroupSum(s: seq<byte>)
    requires s != []
    ensures Low7(s[0]) < 128 && (|s| == 1 ==> Value(s) == Low7(s[0]))
    ensures |s| > 1 ==> Low7(s[1]) < 128 && (|s| == 2 ==> Value(s) == Low7(s[0]) + 0x80 * Low7(s[1]))
    ensures |s| > 2 ==> Low7(s[2]) < 128
                        && (|s| == 3 ==> Value(s) == Low7(s[0]) + 0x80 * Low7(s[1]) + 0x4000 * Low7(s[2]))
    ensures |s| > 3 ==> Low7(s[3]) < 128
    ensures |s| > 3 ==> var low := Low7(s[0]) + 0x80 * Low7(s[1]) + 0x4000 * Low7(s[2]) + 0x20_0000 * Low7(s[3]);
                        Value(s) == if |s| == 4 then low
                                    else low + 0x1000_0000 * (Low7(s[4]) + 128 * Value(s[5..]))
  {
    hide Value;
    ValueUnroll(s);
    assert s[|s|..] == [];
  }

  lemma ValueUnroll(s: seq<byte>)
    requires s != []
    ensures Value(s) == Low7(s[0]) + 128 * Value(s[1..])
    ensures |s| > 1 ==> Value(s[1..]) == Low7(s[1]) + 128 * Value(s[2..])
    ensures |s| > 2 ==> Value(s[2..]) == Low7(s[2]) + 128 * Value(s[3..])
    ensures |s| > 3 ==> Value(s[3..]) == Low7(s[3]) + 128 * Value(s[4..])
    ensures |s| > 4 ==> Value(s[4..]) == Low7(s[4]) + 128 * Value(s[5..])
    ensures Value(s[|s|..]) == 0
  {
    ValueStep(s, 1);
    if |s| > 1 { ValueStep(s, 2); }
    if |s| > 2 { ValueStep(s, 3); }
    if |s| > 3 { ValueStep(s, 4); }
  }

  lemma WeightValues()
    ensures Weight(4) == 0x1000_0000 && Weight(5) == 0x8_0000_0000 && Weight(6) == 0x400_0000_0000
    ensures Weight(7) == 0x2_0000_0000_0000 && Weight(8) == 0x100_0000_0000_0000 && Weight(9) == 0x8000_0000_0000_0000
  {
    assert Weight(1) == 128 && Weight(2) == 0x4000 && Weight(3) == 0x20_0000;
    assert Weight(4) == 0x1000_0000 && Weight(5) == 0x8_0000_0000;
    assert Weight(6) == 0x400_0000_0000 && Weight(7) == 0x2_0000_0000_0000;
    assert Weight(8) == 0x100_0000_0000_0000;
  }

  /** One turn of the loop of `parse_uint64`: the new group lands above all bits set so far. */
  lemma {:induction false} ParseStep(data: seq<byte>, i: nat, rv: nat)
    requires 4 <= i < |data| <= 10
    requires rv == Value(data[..i]) % POW64
    ensures rv < Weight(i)
    ensures rv + (Low7(data[i]) * Weight(i)) % POW64 == Value(data[..i + 1]) % POW64
  {
    ValueAppend(data[..i], data[i]);
    assert data[..i + 1] == data[..i] + [data[i]];
    WeightValues();
    ShiftIn(Value(data[..i]), Low7(data[i]), Weight(i));
  }

  lemma ShiftIn(low: nat, g: nat, w: nat)
    requires g < 128 && low < w
    requires w in {0x1000_0000, 0x8_0000_0000, 0x400_0000_0000, 0x2_0000_0000_0000,
                   0x100_0000_0000_0000, 0x8000_0000_0000_0000}
    ensures low % 0x1_0000_0000_0000_0000 == low
    ensures low + (g * w) % 0x1_0000_0000_0000_0000 == (low + g * w) % 0x1_0000_0000_0000_0000
  {
    if w == 0x8000_0000_0000_0000 {
      assert g * w == 0x8000_0000_0000_0000 * g;
      assert g == 2 * (g / 2) + g % 2;
    }
  }

  /** `parse_uint64`. The bits or-ed in are disjoint, so the model adds them. */
  method ParseUint64(len: nat, data: seq<byte>) returns (rv: nat)
    requires 1 <= len == |data| <= 10
    ensures rv == Value(data) % POW64
  {
    if len < 5 {
      rv := ParseUint32(len, data);
      SmallValue(data);
      return;
    }
    rv := Low7(data[0]) + 0x80 * Low7(data[1]) + 0x4000 * Low7(data[2]) + 0x20_0000 * Low7(data[3]);
    ValueOf4(data[..4]);
    var shifted := 0x1000_0000;
    WeightValues();
    for i := 4 to len
      invariant shifted == Weight(i)
      invariant rv == Value(data[..i]) % POW64
    {
      ParseStep(data, i, rv);
      rv := rv + (Low7(data[i]) * shifted) % POW64;
      shifted := 128 * shifted;
    }
    assert data[..len] == data;
  }

  lemma ValueOf4(s: seq<byte>)
    requires |s| == 4
    ensures Value(s) == Low7(s[0]) + 0x80 * Low7(s[1]) + 0x4000 * Low7(s[2]) + 0x20_0000 * Low7(s[3])
  {
    ValueUnroll(s);
  }

  lemma SmallValue(data: seq<byte>)
    requires |data| <= 4
    ensures Value(data) < POW32
  {
    ValueAppend(data, 0);
    WeightValues();
    assert Weight(0) <= Weight(1) <= Weight(2) <= Weight(3) <= Weight(4);
  }

  /** Packing and then scanning and parsing, with anything behind, gives the number back. */
  lemma RoundTrip(v: nat, rest: seq<byte>)
    requires v < POW64
    ensures var s := Encode(v) + rest;
            && Scan(s) == |Encode(v)|
            && Value(s[..Scan(s)]) % POW64 == v
            && (v < POW32 ==> Value(s[..Scan(s)]) % POW32 == v)
  {
    hide Encode, Value, ScanWithin;
    ValueEncode(v);
    Size64Correct(v);
    ScanPrefix(Encode(v), rest, 10);
    assert (Encode(v) + rest)[..|Encode(v)|] == Encode(v);
  }

  // ------------------------------------------------------------------- zigzag

  /** An unsigned 32-bit word read as two's complement. */
  function Signed32(u: int): int {
    if u < 0x8000_0000 then u else u - 0x1_0000_0000
  }

  function Signed64(u: int): int {
    if u < 0x8000_0000_0000_0000 then u else u - 0x1_0000_0000_0000_0000
  }

  /** `zigzag32`, in unsigned 32-bit arithmetic. */
  function ZigZag32(v: int): nat {
    if v < 0 then ((-v) % 0x1_0000_0000 * 2 - 1) % 0x1_0000_0000 else v * 2 % 0x1_0000_0000
  }

  /** `unzigzag32`: the negation happens on the unsigned word. */
  function UnZigZag32(u: nat): int {
    if u % 2 == 1 then Signed32((-(u / 2) - 1) % 0x1_0000_0000) else Signed32(u / 2)
  }

  function ZigZag64(v: int): nat {
    if v < 0 then ((-v) % 0x1_0000_0000_0000_0000 * 2 - 1) % 0x1_0000_0000_0000_0000
    else v * 2 % 0x1_0000_0000_0000_0000
  }

  function UnZigZag64(u: nat): int {
    if u % 2 == 1 then Signed64((-(u / 2) - 1) % 0x1_0000_0000_0000_0000) else Signed64(u / 2)
  }

  /** Both directions of the 32-bit bijection. */
  lemma ZigZag32Bijection(v: int, u: nat)
    requires -0x8000_0000 <= v < 0x8000_0000 && u < 0x1_0000_0000
    ensures ZigZag32(v) < 0x1_0000_0000 && UnZigZag32(ZigZag32(v)) == v
    ensures -0x8000_0000 <= UnZigZag32(u) < 0x8000_0000 && ZigZag32(UnZigZag32(u)) == u
    ensures ZigZag32(v) == if v < 0 then -2 * v - 1 else 2 * v
  {
    ZigZag32Plain(v);
    UnZigZag32Plain(u);
    ZigZag32Plain(UnZigZag32(u));
    UnZigZag32Plain(ZigZag32(v));
  }

  lemma ZigZag32Plain(v: int)
    requires -0x8000_0000 <= v < 0x8000_0000
    ensures ZigZag32(v) == if v < 0 then -2 * v - 1 else 2 * v
  {
  }

  lemma UnZigZag32Plain(u: nat)
    requires u < 0x1_0000_0000
    ensures UnZigZag32(u) == if u % 2 == 1 then -(u / 2) - 1 else u / 2
  {
  }

  lemma ZigZag64Bijection(v: int, u: nat)
    requires -0x8000_0000_0000_0000 <= v < 0x8000_0000_0000_0000 && u < 0x1_0000_0000_0000_0000
    ensures ZigZag64(v) < 0x1_0000_0000_0000_0000 && UnZigZag64(ZigZag64(v)) == v
    ensures -0x8000_0000_0000_0000 <= UnZigZag64(u) < 0x8000_0000_0000_0000 && ZigZag64(UnZigZag64(u)) == u
    ensures ZigZag64(v) == if v < 0 then -2 * v - 1 else 2 * v
  {
    ZigZag64Plain(v);
    UnZigZag64Plain(u);
    ZigZag64Plain(UnZigZag64(u));
    UnZigZag64Plain(ZigZag64(v));
  }

  lemma ZigZag64Plain(v: int)
    requires -0x8000_0000_0000_0000 <= v < 0x8000_0000_0000_0000
    ensures ZigZag64(v) == if v < 0 then -2 * v - 1 else 2 * v
  {
  }

  lemma UnZigZag64Plain(u: nat)
    requires u < 0x1_0000_0000_0000_0000
    ensures UnZigZag64(u) == if u % 2 == 1 then -(u / 2) - 1 else u / 2
  {
  }
}
