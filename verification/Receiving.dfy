/** Reading a length from a socket (server.c): the bytes that can be received are a sequence. */
module Receiving {
  import opened Bytes
  import opened Options
  import opened Varint

  /** Group number `k` shifted up 7k bits as an `int`; none where C leaves the shift undefined. */
  function ShiftInt(group: nat, k: nat): (r: Option<nat>)
    requires group < 128
  {
    if 7 * k < 32 && group * Weight(k) < 0x8000_0000 then Some(group * Weight(k)) else None
  }

  /** What the loop makes of the bytes from number `k` on: it ends with them, or with a byte below 128. */
  function Received(s: seq<byte>, k: nat, value: nat): (r: Option<nat>)
    requires k <= |s|
    decreases |s| - k
  {
    if k == |s| then Some(value)
    else
      match ShiftInt(Low7(s[k]), k)
      case None => None
      case Some(part) => if s[k] < 128 then Some(value + part) else Received(s, k + 1, value + part)
  }

  /** `decode_varint`. The bits or-ed in are disjoint, so the model adds them. */
  method DecodeVarint(s: seq<byte>) returns (r: Option<nat>)
    ensures r == Received(s, 0, 0)
  {
    hide ShiftInt;
    var value, shifter, k := 0, 0, 0;
    var more := true;
    while more
      invariant k <= |s| && shifter == 7 * k
      invariant Received(s, 0, 0) == if more then Received(s, k, value) else Some(value)
      decreases |s| - k, more
    {
      if k == |s| {
        return Some(value);
      }
      var part := ShiftInt(Low7(s[k]), shifter / 7);
      if part.None? {
        return None;
      }
      value := value + part.value;
      shifter := shifter + 7;
      more := s[k] >= 128;
      k := k + 1;
    }
    return Some(value);
  }

  lemma Weights()
    ensures Weight(0) == 1 && Weight(1) == 0x80 && Weight(2) == 0x4000 && Weight(3) == 0x20_0000
    ensures Weight(4) == 0x1000_0000 && Weight(5) == 0x8_0000_0000
  {
    WeightValues();
    assert Weight(0) == 1 && Weight(1) == 128 && Weight(2) == 0x4000 && Weight(3) == 0x20_0000;
  }

  /** A number fits below group `k` exactly when its lowest group and the rest of it do. */
  lemma GroupFits(low: nat, high: nat, k: nat)
    requires k < 5 && low < 128
    ensures (low + 128 * high) * Weight(k) == low * Weight(k) + high * Weight(k + 1)
    ensures (low + 128 * high) * Weight(k) < 0x8000_0000
       <==> low * Weight(k) < 0x8000_0000 && high * Weight(k + 1) < 0x8000_0000
  {
    Weights();
    assert k == 0 || k == 1 || k == 2 || k == 3 || k == 4;
  }

  /** The bytes that the loop looks at: up to the first one below 128, or all. */
  predicate LooksAt(s: seq<byte>, n: nat) {
    && n <= |s|
    && (forall i :: 0 <= i < n - 1 ==> s[i] >= 128)
    && (n < |s| ==> n > 0 && s[n - 1] < 128)
  }

  /** The same from group `k` on. */
  lemma {:induction false} RestReceived(s: seq<byte>, n: nat, k: nat, value: nat)
    requires LooksAt(s, n) && k <= n && k <= 5 && (k < n || n == |s|)
    ensures var w := Value(s[k..n]) * Weight(k);
            Received(s, k, value) == if n <= 5 && w < 0x8000_0000 then Some(value + w) else None
    decreases 5 - k
  {
    hide Value, Low7, Weight;
    Weights();
    if k == n {
      ValueStep(s[..n], n);
      assert s[k..n] == s[..n][n..];
    } else if k < 5 {
      ValueStep(s[..n], k);
      assert s[k..n] == s[..n][k..] && s[k + 1..n] == s[..n][k + 1..];
      LowGroup(s[k]);
      GroupFits(Low7(s[k]), Value(s[k + 1..n]), k);
      if s[k] < 128 {
        ValueStep(s[..n], n);
        assert n == k + 1;
      } else {
        RestReceived(s, n, k + 1, value + Low7(s[k]) * Weight(k));
      }
    }
  }

  lemma LowGroup(b: byte)
    ensures Low7(b) < 128
  {
  }

  /** Whatever bytes can be received: five or fewer that stand for a number below 2^31 give that number, whether or
      not the input ends with them; anything else shifts a group out of an `int`. */
  lemma ReceivesAny(s: seq<byte>, n: nat)
    requires LooksAt(s, n)
    ensures Received(s, 0, 0) == if n <= 5 && Value(s[..n]) < 0x8000_0000 then Some(Value(s[..n])) else None
  {
    Weights();
    assert s[0..n] == s[..n];
    if n == 0 { assert s == []; }
    RestReceived(s, n, 0, 0);
  }

  /** A number sent as a varint is received exactly when it is below 2^31; above that a shift is undefined. */
  lemma DecodesExactlyBelow31Bits(v: nat, rest: seq<byte>)
    ensures Received(Encode(v) + rest, 0, 0) == if v < 0x8000_0000 then Some(v) else None
  {
    hide Received, Value;
    var s, n := Encode(v) + rest, |Encode(v)|;
    ValueEncode(v);
    assert s[..n] == Encode(v);
    assert LooksAt(s, n);
    ReceivesAny(s, n);
    if v < 0x8000_0000 { Size32Correct(v); }
  }
}
