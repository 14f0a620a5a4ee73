/** Internet addresses as dotted text, and text read back as addresses. */
module IpText {
  import opened Bytes
  import opened Options

  // --- Writing ---------------------------------------------------------------

  function DigitChar(d: nat): (c: char)
    requires d < 10
    ensures c as int == '0' as int + d
  {
    ['0', '1', '2', '3', '4', '5', '6', '7', '8', '9'][d]
  }

  /** An octet in decimal, without leading zeros. */
  function Decimal(b: nat): (r: string)
    requires b < 256
    ensures 1 <= |r| <= 3
  {
    if b < 10 then [DigitChar(b)]
    else if b < 100 then [DigitChar(b / 10), DigitChar(b % 10)]
    else [DigitChar(b / 100), DigitChar(b / 10 % 10), DigitChar(b % 10)]
  }

  /** The four octets of an address, highest first. */
  function IpNtos(n: nat): string
    requires n < POW32
  {
    Decimal(n / 0x100_0000 % 0x100) + "." + Decimal(n / 0x1_0000 % 0x100) + "."
    + Decimal(n / 0x100 % 0x100) + "." + Decimal(n % 0x100)
  }

  // --- Reading ---------------------------------------------------------------

  /** The character at a position; behind the end there is the terminating zero. */
  function At(s: string, i: nat): char {
    if i < |s| then s[i] else '\0'
  }

  predicate IsDigit(c: char) { '0' <= c <= '9' }

  predicate IsHexLetter(c: char) { 'a' <= c <= 'f' || 'A' <= c <= 'F' }

  predicate IsSpace(c: char) { c == ' ' || '\t' <= c <= '\r' }

  function DigitValue(c: char): nat
    requires IsDigit(c)
  {
    c as int - '0' as int
  }

  function HexValue(c: char): nat
    requires IsHexLetter(c)
  {
    if 'a' <= c <= 'f' then c as int + 10 - 'a' as int else c as int + 10 - 'A' as int
  }

  /** Collects digits into a 32-bit word: its value, and where they end. An octal number may hold the digits 8 and 9. */
  function Digits(s: string, i: nat, base: nat, val: nat): (nat, nat)
    decreases |s| - i
  {
    if IsDigit(At(s, i)) then Digits(s, i + 1, base, (val * base + DigitValue(At(s, i))) % POW32)
    else if base == 16 && IsHexLetter(At(s, i)) then Digits(s, i + 1, base, val * 16 % POW32 + HexValue(At(s, i)))
    else (val, i)
  }

  /** A number as C writes it: hexadecimal behind 0x, octal behind 0, else decimal. */
  function Number(s: string, i: nat): (nat, nat)
    requires IsDigit(At(s, i))
  {
    if At(s, i) == '0' then
      if At(s, i + 1) == 'x' || At(s, i + 1) == 'X' then Digits(s, i + 2, 16, 0) else Digits(s, i + 1, 8, 0)
    else Digits(s, i, 10, 0)
  }

  /** Reads numbers up to the last one: those before it, its value, and where it ends. */
  function Parts(s: string, i: nat, parts: seq<nat>): Option<(seq<nat>, nat, nat)>
    decreases 4 - |parts|
  {
    if !IsDigit(At(s, i)) then None
    else
      var (val, j) := Number(s, i);
      if At(s, j) != '.' then Some((parts, val, j))
      else if |parts| >= 3 then None
      else Parts(s, j + 1, parts + [val])
  }

  /** Puts an address together from one to four parts; zero when one of them is too large. */
  function Concoct(parts: seq<nat>, val: nat): nat {
    if |parts| == 0 then val
    else if |parts| == 1 then
      if val > 0xff_ffff || parts[0] > 0xff then 0 else val + parts[0] * 0x100_0000
    else if |parts| == 2 then
      if val > 0xffff || parts[0] > 0xff || parts[1] > 0xff then 0
      else val + parts[0] * 0x100_0000 + parts[1] * 0x1_0000
    else if |parts| == 3 then
      if val > 0xff || parts[0] > 0xff || parts[1] > 0xff || parts[2] > 0xff then 0
      else val + parts[0] * 0x100_0000 + parts[1] * 0x1_0000 + parts[2] * 0x100
    else val
  }

  function Ston(s: string): nat {
    match Parts(s, 0, [])
    case None => 0
    case Some((parts, val, end)) =>
      if At(s, end) != '\0' && !IsSpace(At(s, end)) then 0 else Concoct(parts, val)
  }

  /** Reads an address, part by part, from a moving position. */
  method IpSton(s: string) returns (r: nat)
    ensures r == Ston(s)
  {
    var i := 0;
    var c := At(s, i);
    var parts: seq<nat> := [];
    var val: nat := 0;
    while true
      invariant |parts| <= 3 && c == At(s, i)
      invariant Parts(s, 0, []) == Parts(s, i, parts)
      decreases 4 - |parts|
    {
      if !IsDigit(c) {
        return 0;
      }
      ghost var (whole, end) := Number(s, i);
      val := 0;
      var base: nat := 10;
      if c == '0' {
        i := i + 1;
        c := At(s, i);
        if c == 'x' || c == 'X' {
          base := 16;
          i := i + 1;
          c := At(s, i);
        } else {
          base := 8;
        }
      }
      while true
        invariant c == At(s, i) && Digits(s, i, base, val) == (whole, end)
        decreases |s| - i
      {
        if IsDigit(c) {
          val := (val * base + DigitValue(c)) % POW32;
          i := i + 1;
          c := At(s, i);
        } else if base == 16 && IsHexLetter(c) {
          val := val * 16 % POW32 + HexValue(c);
          i := i + 1;
          c := At(s, i);
        } else {
          break;
        }
      }
      if c == '.' {
        if |parts| >= 3 {
          return 0;
        }
        parts := parts + [val];
        i := i + 1;
        c := At(s, i);
      } else {
        break;
      }
    }
    if c != '\0' && !IsSpace(c) {
      return 0;
    }
    return Concoct(parts, val);
  }

  /** The word `w` stands at position `i`. */
  predicate Stands(s: string, i: nat, w: string) {
    i + |w| <= |s| && s[i..i + |w|] == w
  }

  // --- There and back -----------------------------------------------------------

  /** A decimal octet with no digit behind it is read back, zero by way of the octal branch. */
  lemma NumberOfDecimal(s: string, i: nat, b: nat)
    requires b < 256 && Stands(s, i, Decimal(b))
    requires var c := At(s, i + |Decimal(b)|); !IsDigit(c) && c != 'x' && c != 'X'
    ensures IsDigit(At(s, i)) && Number(s, i) == (b, i + |Decimal(b)|)
  {
    hide Digits, DigitChar, IsDigit, DigitValue;
    DecimalAt(s, i, b);
    DigitBack(b % 10);
    DigitBack(b / 10 % 10);
    DigitsStop(s, i + |Decimal(b)|, 10, b);
    DigitsStop(s, i + |Decimal(b)|, 8, 0);
    if b < 10 {
      OneDigit(s, i, b, 0);
    } else {
      ThreeDigits(b);
      if b < 100 {
        OneDigit(s, i, b / 10, 0);
        OneDigit(s, i + 1, b % 10, b / 10);
      } else {
        DigitBack(b / 100);
        OneDigit(s, i, b / 100, 0);
        OneDigit(s, i + 1, b / 10 % 10, b / 100);
        OneDigit(s, i + 2, b % 10, b / 100 * 10 + b / 10 % 10);
      }
    }
  }

  /** The digits of an octet, highest first and none in vain. */
  lemma DecimalIs(b: nat)
    requires b < 256
    ensures var d := Decimal(b);
            && (forall i :: 0 <= i < |d| ==> '0' <= d[i] <= '9')
            && (|d| > 1 ==> d[0] != '0')
            && (|d| == 1 ==> b == DigitValue(d[0]))
            && (|d| == 2 ==> b == 10 * DigitValue(d[0]) + DigitValue(d[1]))
            && (|d| == 3 ==> b == 100 * DigitValue(d[0]) + 10 * DigitValue(d[1]) + DigitValue(d[2]))
  {
    ThreeDigits(b);
  }

  /** An address is written as its four octets, the highest first. */
  lemma NtosIs(a: nat, b: nat, c: nat, d: nat)
    requires a < 256 && b < 256 && c < 256 && d < 256
    ensures var n := a * 0x100_0000 + b * 0x1_0000 + c * 0x100 + d;
            n < POW32 && IpNtos(n) == Decimal(a) + "." + Decimal(b) + "." + Decimal(c) + "." + Decimal(d)
  {
    hide Decimal;
    var n := a * 0x100_0000 + b * 0x1_0000 + c * 0x100 + d;
    assert n / 0x100 == a * 0x1_0000 + b * 0x100 + c && n / 0x1_0000 == a * 0x100 + b && n / 0x100_0000 == a;
  }

  lemma DecimalAt(s: string, i: nat, b: nat)
    requires b < 256 && Stands(s, i, Decimal(b))
    ensures At(s, i) == if b < 10 then DigitChar(b) else if b < 100 then DigitChar(b / 10) else DigitChar(b / 100)
    ensures b >= 10 ==> At(s, i + 1) == if b < 100 then DigitChar(b % 10) else DigitChar(b / 10 % 10)
    ensures b >= 100 ==> At(s, i + 2) == DigitChar(b % 10)
    ensures |Decimal(b)| == if b < 10 then 1 else if b < 100 then 2 else 3
  {
    hide DigitChar;
    var d := Decimal(b);
    assert s[i] == d[0];
    assert b >= 10 ==> s[i + 1] == d[1];
    assert b >= 100 ==> s[i + 2] == d[2];
  }

  lemma ThreeDigits(b: nat)
    requires b < 256
    ensures b == b / 10 * 10 + b % 10 && b / 10 == b / 100 * 10 + b / 10 % 10
    ensures b < 100 ==> b / 10 < 10
    ensures b / 100 < 10
  {
  }

  lemma DigitsStop(s: string, i: nat, base: nat, val: nat)
    requires !IsDigit(At(s, i)) && base != 16
    ensures Digits(s, i, base, val) == (val, i)
  {
  }

  lemma DigitBack(d: nat)
    requires d < 10
    ensures IsDigit(DigitChar(d)) && DigitValue(DigitChar(d)) == d && (DigitChar(d) == '0' <==> d == 0)
  {
  }

  lemma OneDigit(s: string, i: nat, d: nat, val: nat)
    requires d < 10 && At(s, i) == DigitChar(d) && val < 256
    ensures Digits(s, i, 10, val) == Digits(s, i + 1, 10, val * 10 + d)
  {
    DigitBack(d);
  }

  /** The characters of the digits up to 15. */
  const DIGITS := "0123456789abcdef"

  /** A numeral to some base, after what was read before, in 32 bits. */
  function Numeral(ds: seq<nat>, base: nat, val: nat): nat {
    if ds == [] then val else (Numeral(ds[..|ds| - 1], base, val) * base + ds[|ds| - 1]) % POW32
  }

  predicate Spells(s: string, i: nat, ds: seq<nat>, base: nat) {
    forall k :: 0 <= k < |ds| ==> ds[k] < base <= 16 && At(s, i + k) == DIGITS[ds[k]]
  }

  lemma DigitIs(d: nat)
    requires d < 16
    ensures IsDigit(DIGITS[d]) <==> d < 10
    ensures d < 10 ==> DigitValue(DIGITS[d]) == d
    ensures d >= 10 ==> IsHexLetter(DIGITS[d]) && HexValue(DIGITS[d]) == d
  {
  }

  lemma {:induction false} NumeralMore(ds: seq<nat>, base: nat, val: nat)
    requires ds != []
    ensures Numeral(ds, base, val) == Numeral(ds[1..], base, (val * base + ds[0]) % POW32)
  {
    hide POW32;
    if |ds| > 1 {
      NumeralMore(ds[..|ds| - 1], base, val);
      assert ds[..|ds| - 1][1..] == ds[1..][..|ds| - 2];
    }
  }

  /** The digits of a numeral are read as its value, up to the first character that is no digit. */
  lemma {:induction false} DigitsAre(s: string, i: nat, ds: seq<nat>, base: nat, val: nat)
    requires base in {8, 10, 16} && val < POW32 && Spells(s, i, ds, base)
    requires var c := At(s, i + |ds|); !IsDigit(c) && (base == 16 ==> !IsHexLetter(c))
    ensures Digits(s, i, base, val) == (Numeral(ds, base, val), i + |ds|)
    decreases |ds|
  {
    hide IsDigit, IsHexLetter, DigitValue, HexValue, At, Numeral;
    if ds == [] {
      assert Numeral(ds, base, val) == val by { NumeralNone(base, val); }
    } else {
      DigitIs(ds[0]);
      assert At(s, i + 0) == DIGITS[ds[0]];
      HexStep(val, ds[0]);
      NumeralMore(ds, base, val);
      forall k | 0 <= k < |ds[1..]| ensures ds[1..][k] < base <= 16 && At(s, i + 1 + k) == DIGITS[ds[1..][k]] {
        assert ds[1..][k] == ds[k + 1] && At(s, i + (k + 1)) == DIGITS[ds[k + 1]];
      }
      DigitsAre(s, i + 1, ds[1..], base, (val * base + ds[0]) % POW32);
    }
  }

  lemma NumeralNone(base: nat, val: nat)
    ensures Numeral([], base, val) == val
  {
  }

  lemma HexStep(val: nat, d: nat)
    requires d < 16
    ensures val * 16 % POW32 + d == (val * 16 + d) % POW32
  {
  }

  /** A number is hexadecimal behind 0x, octal behind 0 and decimal otherwise. */
  lemma NumberIs(s: string, i: nat, ds: seq<nat>, base: nat)
    requires base in {8, 10, 16}
    requires var at := if base == 16 then i + 2 else if base == 8 then i + 1 else i;
             var c := At(s, at + |ds|);
             Spells(s, at, ds, base) && !IsDigit(c) && (base == 16 ==> !IsHexLetter(c))
    requires base == 16 ==> At(s, i) == '0' && (At(s, i + 1) == 'x' || At(s, i + 1) == 'X')
    requires base == 8 ==> At(s, i) == '0' && At(s, i + 1) != 'x' && At(s, i + 1) != 'X'
    requires base == 10 ==> ds != [] && ds[0] != 0
    ensures IsDigit(At(s, i))
    ensures Number(s, i)
            == (Numeral(ds, base, 0), (if base == 16 then i + 2 else if base == 8 then i + 1 else i) + |ds|)
  {
    hide Digits, Numeral;
    var at := if base == 16 then i + 2 else if base == 8 then i + 1 else i;
    if base == 10 {
      assert At(s, i + 0) == DIGITS[ds[0]];
      DigitIs(ds[0]);
    }
    DigitsAre(s, at, ds, base, 0);
  }

  lemma DottedParts(s: string, a: nat, b: nat, c: nat, d: nat, p1: nat, p2: nat, p3: nat)
    requires a < 256 && b < 256 && c < 256 && d < 256
    requires p1 == |Decimal(a)| + 1 && p2 == p1 + |Decimal(b)| + 1 && p3 == p2 + |Decimal(c)| + 1
    requires |s| == p3 + |Decimal(d)|
    requires Stands(s, 0, Decimal(a)) && Stands(s, p1, Decimal(b))
    requires Stands(s, p2, Decimal(c)) && Stands(s, p3, Decimal(d))
    requires At(s, p1 - 1) == '.' && At(s, p2 - 1) == '.' && At(s, p3 - 1) == '.' && At(s, |s|) == '\0'
    ensures Parts(s, 0, []) == Some(([a, b, c], d, |s|))
  {
    hide Decimal, Parts, At, Stands;
    PartOfDecimal(s, 0, a, [], [a]);
    PartOfDecimal(s, p1, b, [a], [a, b]);
    PartOfDecimal(s, p2, c, [a, b], [a, b, c]);
    PartOfDecimal(s, p3, d, [a, b, c], []);
  }

  /** Four dotted octets are read as the address they make up. */
  lemma DottedRoundTrip(a: nat, b: nat, c: nat, d: nat)
    requires a < 256 && b < 256 && c < 256 && d < 256
    ensures Ston(Decimal(a) + "." + Decimal(b) + "." + Decimal(c) + "." + Decimal(d))
         == d + a * 0x100_0000 + b * 0x1_0000 + c * 0x100
  {
    hide Decimal, Parts, At, Stands;
    var s := Decimal(a) + "." + Decimal(b) + "." + Decimal(c) + "." + Decimal(d);
    var p1 := |Decimal(a)| + 1;
    var p2 := p1 + |Decimal(b)| + 1;
    Dotted(Decimal(a), Decimal(b), Decimal(c), Decimal(d));
    DottedParts(s, a, b, c, d, p1, p2, p2 + |Decimal(c)| + 1);
  }

  /** Reading what was written gives the address back, for every 32-bit address. */
  lemma RoundTrip(n: nat)
    requires n < POW32
    ensures Ston(IpNtos(n)) == n
  {
    hide Ston, Decimal;
    DottedRoundTrip(n / 0x100_0000 % 0x100, n / 0x1_0000 % 0x100, n / 0x100 % 0x100, n % 0x100);
    Octets(n);
  }

  lemma Dotted(da: string, db: string, dc: string, dd: string)
    ensures var s := da + "." + db + "." + dc + "." + dd;
            var p1 := |da| + 1;
            var p2 := p1 + |db| + 1;
            var p3 := p2 + |dc| + 1;
            && |s| == p3 + |dd|
            && Stands(s, 0, da) && Stands(s, p1, db) && Stands(s, p2, dc) && Stands(s, p3, dd)
            && At(s, |da|) == '.' && At(s, p1 + |db|) == '.' && At(s, p2 + |dc|) == '.' && At(s, p3 + |dd|) == '\0'
  {
  }

  /** One decimal octet of a dotted address is taken as one part. */
  lemma PartOfDecimal(s: string, i: nat, b: nat, parts: seq<nat>, more: seq<nat>)
    requires |parts| < 3 ==> more == parts + [b]
    requires b < 256 && Stands(s, i, Decimal(b)) && |parts| <= 3
    requires At(s, i + |Decimal(b)|) == if |parts| < 3 then '.' else '\0'
    ensures Parts(s, i, parts)
         == if |parts| < 3 then Parts(s, i + |Decimal(b)| + 1, more) else Some((parts, b, i + |Decimal(b)|))
  {
    hide Decimal, At, Number;
    NumberOfDecimal(s, i, b);
  }

  lemma Octets(n: nat)
    requires n < POW32
    ensures n == n % 0x100 + n / 0x100_0000 % 0x100 * 0x100_0000
                 + n / 0x1_0000 % 0x100 * 0x1_0000 + n / 0x100 % 0x100 * 0x100
  {
    var h := n / 0x100;
    var k := h / 0x100;
    assert k == n / 0x1_0000;
    assert k / 0x100 == n / 0x100_0000;
    assert n == h * 0x100 + n % 0x100;
    assert h == k * 0x100 + h % 0x100;
    assert k == k / 0x100 * 0x100 + k % 0x100;
  }

  /** Different addresses are written differently. */
  lemma NtosInjective(m: nat, n: nat)
    requires m < POW32 && n < POW32 && IpNtos(m) == IpNtos(n)
    ensures m == n
  {
    RoundTrip(m);
    RoundTrip(n);
  }
}
