/** Octets, and writing a run of octets into the middle of an existing buffer. */
module Bytes {

  type byte = b: int | 0 <= b < 256

  const POW32: nat := 0x1_0000_0000
  const POW64: nat := 0x1_0000_0000_0000_0000

  /** Encodings are shorter than this. */
  const MAX_LENGTH: nat := 0x8000_0000

  /** `a` with the octets from `at` on overwritten by `w`. */
  function Patch(a: seq<byte>, at: nat, w: seq<byte>): (r: seq<byte>)
    requires at + |w| <= |a|
    ensures |r| == |a|
  {
    a[..at] + w + a[at + |w|..]
  }

  /** Two adjacent writes are one write of the concatenation. */
  lemma PatchPatch(a: seq<byte>, at: nat, w1: seq<byte>, w2: seq<byte>)
    requires at + |w1| + |w2| <= |a|
    ensures Patch(Patch(a, at, w1), at + |w1|, w2) == Patch(a, at, w1 + w2)
  {
  }

  /** The same, with the later write in front of the earlier one. */
  lemma PatchFront(a: seq<byte>, at: nat, w1: seq<byte>, w2: seq<byte>)
    requires at + |w1| + |w2| <= |a|
    ensures Patch(Patch(a, at + |w1|, w2), at, w1) == Patch(a, at, w1 + w2)
  {
  }

  /** A write is forgotten once a wider one covers it. */
  lemma PatchCover(a: seq<byte>, i: nat, inner: seq<byte>, at: nat, w: seq<byte>)
    requires at <= i && i + |inner| <= at + |w| <= |a|
    ensures Patch(Patch(a, i, inner), at, w) == Patch(a, at, w)
  {
    var p := Patch(a, i, inner);
    assert p[..at] == a[..at];
    assert p[at + |w|..] == a[at + |w|..];
  }

  /** What is read back where something was written. */
  lemma PatchRead(a: seq<byte>, at: nat, w: seq<byte>)
    requires at + |w| <= |a|
    ensures Patch(a, at, w)[at..at + |w|] == w
    ensures Patch(a, at, []) == a
    ensures Patch(a, at, a[at..at + |w|]) == a
    ensures |w| > 0 ==> Patch(a, at, w)[at] == w[0]
  {
  }

  /** Replacing the first octet of what was written. */
  lemma PatchFirst(a: seq<byte>, at: nat, w: seq<byte>, b: byte)
    requires |w| > 0 && at + |w| <= |a|
    ensures Patch(a, at, w)[at := b] == Patch(a, at, w[0 := b])
  {
  }

  /** Extends a write by one octet. */
  method WriteOne(out: array<byte>, at: nat, ghost before: seq<byte>, ghost done: seq<byte>, b: byte, next: nat)
    requires at + |done| < out.Length == |before|
    requires next == at + |done|
    requires out[..] == Patch(before, at, done)
    modifies out
    ensures out[..] == Patch(before, at, done + [b])
  {
    out[next] := b;
  }

  // --- Division ---------------------------------------------------------------

  lemma DivideTwice(n: nat, a: nat, b: nat)
    requires a > 0 && b > 0
    ensures a * b > 0 && n / a / b == n / (a * b)
  {
    var h := n / a;
    var q := h / b;
    TwoRemainders(n, a, b, h, n % a, q, h % b);
    Quotient(n, a * b, q, a * (h % b) + n % a);
  }

  lemma TwoRemainders(n: nat, a: nat, b: nat, h: nat, s: nat, q: nat, r: nat)
    requires n == a * h + s && s < a && h == b * q + r && r < b
    ensures a * b > 0 && n == a * b * q + (a * r + s) && a * r + s < a * b
  {
    Spread(a, b * q, r);
    Regroup(a, b, q);
    Spread(a, b - r, r);
    Large(a, b - r);
    Large(a, r);
  }

  lemma Spread(a: int, x: int, y: int)
    ensures a * (x + y) == a * x + a * y
  {
  }

  lemma Regroup(a: int, b: int, q: int)
    ensures a * (b * q) == a * b * q
  {
  }

  lemma Quotient(n: nat, d: nat, q: nat, r: nat)
    requires d > 0 && n == d * q + r && r < d
    ensures n / d == q
  {
    var p := n / d;
    assert n == d * p + n % d;
    Spread(d, p - q, q);
    Large(d, p - q);
  }

  lemma Large(d: nat, k: int)
    ensures k >= 0 ==> d * k >= 0
    ensures k >= 1 ==> d * k >= d
    ensures k <= -1 ==> d * k + d <= 0
  {
  }
}
