/** Byte strings: lexicographic order, little-endian integers and UTF-8. */
module Bytes {

  type byte = x: int | 0 <= x < 256

  type bytes = seq<byte>

  // ----- Order ------------------------------------------------------------------------------

  predicate LexLess(a: bytes, b: bytes)
    decreases |a|
  {
    b != [] && (a == [] || a[0] < b[0] || (a[0] == b[0] && LexLess(a[1..], b[1..])))
  }

  /** Two byte strings agree up to here; then the first is over, or has the smaller byte. */
  predicate StepsDown(a: bytes, b: bytes, k: nat) {
    && k <= |a| && k < |b| && a[..k] == b[..k]
    && (k == |a| || a[k] < b[k])
  }

  /** The order, by the first place at which two byte strings differ. */
  lemma {:induction false} LexLessIff(a: bytes, b: bytes)
    ensures LexLess(a, b) <==> exists k :: 0 <= k <= |a| && StepsDown(a, b, k)
    decreases |a|
  {
    if a != [] && b != [] && a[0] == b[0] {
      LexLessIff(a[1..], b[1..]);
      if k :| 0 <= k <= |a[1..]| && StepsDown(a[1..], b[1..], k) {
        assert a[..k + 1] == [a[0]] + a[1..][..k] && b[..k + 1] == [b[0]] + b[1..][..k];
        assert StepsDown(a, b, k + 1);
      }
      if k :| 0 <= k <= |a| && StepsDown(a, b, k) {
        assert a[1..][..k - 1] == a[..k][1..] && b[1..][..k - 1] == b[..k][1..];
        assert StepsDown(a[1..], b[1..], k - 1);
      }
    } else {
      StepsAtFront(a, b);
    }
  }

  lemma StepsAtFront(a: bytes, b: bytes)
    requires a == [] || b == [] || a[0] != b[0]
    ensures (exists k :: 0 <= k <= |a| && StepsDown(a, b, k)) <==> StepsDown(a, b, 0)
  {
    forall k: nat | 0 < k <= |a| && k < |b| ensures a[..k] != b[..k] {
      assert a[..k][0] == a[0] && b[..k][0] == b[0];
    }
  }

  lemma {:induction false} LexTotal(a: bytes, b: bytes)
    ensures LexLess(a, b) || a == b || LexLess(b, a)
    decreases |a|
  {
    if a != [] && b != [] && a[0] == b[0] {
      LexTotal(a[1..], b[1..]);
      if a[1..] == b[1..] {
        assert a == [a[0]] + a[1..] && b == [b[0]] + b[1..];
      }
    }
  }

  lemma {:induction false} LexAsymmetric(a: bytes, b: bytes)
    requires LexLess(a, b)
    ensures !LexLess(b, a)
    decreases |a|
  {
    if a != [] && a[0] == b[0] {
      LexAsymmetric(a[1..], b[1..]);
    }
  }

  lemma {:induction false} LexTransitive(a: bytes, b: bytes, c: bytes)
    requires LexLess(a, b) && LexLess(b, c)
    ensures LexLess(a, c)
    decreases |a|
  {
    if a != [] && a[0] == b[0] == c[0] {
      LexTransitive(a[1..], b[1..], c[1..]);
    }
  }

  /** Comparison skips a common prefix. */
  lemma {:induction false} LexCommonPrefix(p: bytes, a: bytes, b: bytes)
    ensures LexLess(p + a, p + b) <==> LexLess(a, b)
    decreases |p|
  {
    if p == [] {
      assert p + a == a && p + b == b;
    } else {
      assert (p + a)[1..] == p[1..] + a && (p + b)[1..] == p[1..] + b;
      LexCommonPrefix(p[1..], a, b);
    }
  }

  // ----- Little-endian integers -------------------------------------------------------------

  function Pow256(n: nat): (p: nat)
    ensures p > 0
  {
    if n == 0 then 1 else 256 * Pow256(n - 1)
  }

  /** `x.to_le_bytes()` on an `n`-byte unsigned integer. */
  function LittleEndian(x: nat, n: nat): (b: bytes)
    ensures |b| == n
  {
    if n == 0 then [] else [x % 256] + LittleEndian(x / 256, n - 1)
  }

  function FromLittleEndian(b: bytes): nat {
    if b == [] then 0 else b[0] + 256 * FromLittleEndian(b[1..])
  }

  /** The `k`-th byte counts the 256^k. */
  lemma {:induction false} LittleEndianAt(x: nat, n: nat, k: nat)
    requires k < n
    ensures LittleEndian(x, n)[k] == x / Pow256(k) % 256
    decreases n
  {
    if k == 0 {
      assert x / Pow256(0) == x;
    } else {
      LittleEndianAt(x / 256, n - 1, k - 1);
      DivideTwice(x, 256, Pow256(k - 1));
    }
  }

  lemma DivideTwice(x: nat, a: nat, b: nat)
    requires a > 0 && b > 0
    ensures a * b > 0 && x / a / b == x / (a * b)
  {
    var q, r := x / a / b, x / a % b;
    assert x == a * (x / a) + x % a;
    assert x / a == b * q + r;
    assert x == a * (b * q + r) + x % a == a * b * q + (a * r + x % a) by {
      Distribute(a, b, q, r);
    }
    assert a * r + x % a < a * b by {
      assert a * r <= a * (b - 1) by {
        MultiplyLess(a, r, b - 1);
      }
      assert a * (b - 1) == a * b - a;
    }
    QuotientIs(x, a * b, q, a * r + x % a);
  }

  lemma Distribute(a: int, b: int, q: int, r: int)
    ensures a * (b * q + r) == a * b * q + a * r
  {
  }

  lemma MultiplyLess(a: nat, r: int, s: int)
    requires r <= s
    ensures a * r <= a * s
  {
  }

  lemma QuotientIs(x: nat, d: nat, q: int, r: int)
    requires d > 0 && x == d * q + r && 0 <= r < d
    ensures x / d == q
  {
    var p := x / d;
    assert x == d * p + x % d;
    assert d * (q - p) == x % d - r;
    if q < p {
      MultiplyLess(d, q - p, -1);
    } else if q > p {
      MultiplyLess(d, 1, q - p);
    }
  }

  lemma {:induction false} LittleEndianRoundTrip(x: nat, n: nat)
    requires x < Pow256(n)
    ensures FromLittleEndian(LittleEndian(x, n)) == x
    decreases n
  {
    if n == 0 {
    } else {
      assert LittleEndian(x, n)[1..] == LittleEndian(x / 256, n - 1);
      LittleEndianRoundTrip(x / 256, n - 1);
    }
  }

  lemma {:induction false} FromLittleEndianInverse(b: bytes)
    ensures FromLittleEndian(b) < Pow256(|b|) && LittleEndian(FromLittleEndian(b), |b|) == b
  {
    if b == [] {
      assert LittleEndian(0, 0) == [];
    } else {
      FromLittleEndianInverse(b[1..]);
      var low: int, rest: nat := b[0], FromLittleEndian(b[1..]);
      assert (low + 256 * rest) % 256 == low && (low + 256 * rest) / 256 == rest;
      assert b == [b[0]] + b[1..];
    }
  }

  /** The high bytes of a small number are zero. */
  lemma {:induction false} HighBytesZero(b: bytes, k: nat)
    requires FromLittleEndian(b) < Pow256(k)
    ensures forall i :: k <= i < |b| ==> b[i] == 0
  {
    if b == [] {
      assert |b| == 0;
    } else {
      var rest: nat := FromLittleEndian(b[1..]);
      HighBytesZero(b[1..], if k == 0 then 0 else k - 1);
      assert forall i :: 1 <= i < |b| ==> b[i] == b[1..][i - 1];
    }
  }

  lemma {:induction false} ZeroBytes(b: bytes)
    requires forall i :: 0 <= i < |b| ==> b[i] == 0
    ensures FromLittleEndian(b) == 0
  {
    if b == [] {
      assert FromLittleEndian(b) == 0;
    } else {
      ZeroBytes(b[1..]);
    }
  }

  // ----- UTF-8 ------------------------------------------------------------------------------

  function Tail(x: nat): byte {
    0x80 + x % 0x40
  }

  function Utf8Char(c: char): (b: bytes)
    ensures 1 <= |b| <= 4
  {
    var x := c as int;
    if x < 0x80 then [x]
    else if x < 0x800 then [0xC0 + x / 0x40, Tail(x)]
    else if x < 0x1_0000 then [0xE0 + x / 0x40 / 0x40, Tail(x / 0x40), Tail(x)]
    else [0xF0 + x / 0x40 / 0x40 / 0x40, Tail(x / 0x40 / 0x40), Tail(x / 0x40), Tail(x)]
  }

  function Utf8(s: string): bytes {
    if s == "" then [] else Utf8Char(s[0]) + Utf8(s[1..])
  }

  /** The code point an encoding stands for. */
  function CodePoint(b: bytes): int
    requires 1 <= |b| <= 4
  {
    var lead: int := b[0];
    if |b| == 1 then lead
    else if |b| == 2 then Join(lead - 0xC0, b[1])
    else if |b| == 3 then Join(Join(lead - 0xE0, b[1]), b[2])
    else Join(Join(Join(lead - 0xF0, b[1]), b[2]), b[3])
  }

  function Join(high: int, tail: int): int {
    high * 0x40 + (tail - 0x80)
  }

  lemma JoinTail(x: nat)
    ensures Join(x / 0x40, Tail(x)) == x
  {
  }

  lemma Utf8CharRoundTrip(c: char)
    ensures CodePoint(Utf8Char(c)) == c as int
  {
    var x := c as int;
    JoinTail(x);
    JoinTail(x / 0x40);
    JoinTail(x / 0x40 / 0x40);
  }

  /** The first byte gives the length away. */
  lemma Utf8CharLength(c: char)
    ensures var b := Utf8Char(c);
            |b| == if b[0] < 0x80 then 1 else if b[0] < 0xE0 then 2 else if b[0] < 0xF0 then 3 else 4
  {
  }

  /** The encoding of a character is no proper prefix of another's. */
  lemma Utf8CharPrefixFree(c: char, d: char, s: bytes, t: bytes)
    requires Utf8Char(c) + s == Utf8Char(d) + t
    ensures c == d && s == t
  {
    var u, v := Utf8Char(c), Utf8Char(d);
    assert (u + s)[0] == u[0] && (v + t)[0] == v[0];
    Utf8CharLength(c);
    Utf8CharLength(d);
    assert u == (u + s)[..|u|] == (v + t)[..|v|] == v;
    Utf8CharRoundTrip(c);
    Utf8CharRoundTrip(d);
    assert s == (u + s)[|u|..] == (v + t)[|v|..] == t;
  }

  lemma {:induction false} Utf8Append(s: string, t: string)
    ensures Utf8(s + t) == Utf8(s) + Utf8(t)
    decreases |s|
  {
    if s == "" {
      assert s + t == t;
    } else {
      assert (s + t)[1..] == s[1..] + t;
      Utf8Append(s[1..], t);
    }
  }

  /** Encoding keeps "is a prefix of", both ways. */
  lemma Utf8Prefix(p: string, s: string)
    ensures Utf8(p) <= Utf8(s) <==> p <= s
  {
    if p <= s {
      Utf8Append(p, s[|p|..]);
      assert s == p + s[|p|..];
    }
    if Utf8(p) <= Utf8(s) {
      Utf8PrefixBack(p, s, Utf8(s)[|Utf8(p)|..]);
    }
  }

  lemma {:induction false} Utf8PrefixBack(p: string, s: string, rest: bytes)
    requires Utf8(s) == Utf8(p) + rest
    ensures p <= s
    decreases |p|
  {
    if p == "" {
      assert p <= s;
    } else {
      assert Utf8(p) + rest == Utf8Char(p[0]) + (Utf8(p[1..]) + rest);
      assert s != "";
      Utf8CharPrefixFree(p[0], s[0], Utf8(p[1..]) + rest, Utf8(s[1..]));
      Utf8PrefixBack(p[1..], s[1..], rest);
      assert p == [p[0]] + p[1..] && s == [s[0]] + s[1..];
    }
  }

  lemma Utf8Injective(s: string, t: string)
    requires Utf8(s) == Utf8(t)
    ensures s == t
  {
    Utf8Prefix(s, t);
    Utf8Prefix(t, s);
  }

  // ----- Text order -------------------------------------------------------------------------

  /** Strings compare by their bytes. */
  predicate TextLess(s: string, t: string) {
    LexLess(Utf8(s), Utf8(t))
  }

  lemma TextTotal(s: string, t: string)
    ensures TextLess(s, t) || s == t || TextLess(t, s)
    ensures !(TextLess(s, t) && TextLess(t, s))
    ensures TextLess(s, t) ==> s != t
  {
    LexTotal(Utf8(s), Utf8(t));
    if Utf8(s) == Utf8(t) {
      Utf8Injective(s, t);
    }
    if TextLess(s, t) {
      LexAsymmetric(Utf8(s), Utf8(t));
    }
  }

  lemma TextTransitive(s: string, t: string, u: string)
    requires TextLess(s, t) && TextLess(t, u)
    ensures TextLess(s, u)
  {
    LexTransitive(Utf8(s), Utf8(t), Utf8(u));
  }

  lemma NotTextLess(s: string, t: string, u: string)
    requires !TextLess(t, s) && !TextLess(u, t)
    ensures !TextLess(u, s)
  {
    TextTotal(s, t);
    TextTotal(t, u);
    if s != t && t != u {
      TextTransitive(s, t, u);
      TextTotal(s, u);
    }
  }

  /** The smaller character has the smaller encoding. */
  lemma CharOrder(c: char, d: char, u: bytes, v: bytes)
    requires c < d
    ensures LexLess(Utf8Char(c) + u, Utf8Char(d) + v)
  {
    var a, b := Utf8Char(c), Utf8Char(d);
    var k := FirstDifference(c, d);
    var x, y := a + u, b + v;
    assert x[..k] == a[..k] && y[..k] == b[..k] && x[k] == a[k] && y[k] == b[k];
    assert StepsDown(x, y, k);
    LexLessIff(x, y);
  }

  lemma DigitsOrder(x: nat, y: nat)
    requires x < y
    ensures x / 0x40 < y / 0x40 || (x / 0x40 == y / 0x40 && x % 0x40 < y % 0x40)
  {
  }

  lemma LongerIsGreater(c: char, d: char)
    requires c < d && |Utf8Char(c)| != |Utf8Char(d)|
    ensures Utf8Char(c)[0] < Utf8Char(d)[0]
  {
  }

  lemma FirstDifference(c: char, d: char) returns (k: nat)
    requires c < d
    ensures k < |Utf8Char(c)| && k < |Utf8Char(d)|
    ensures Utf8Char(c)[..k] == Utf8Char(d)[..k] && Utf8Char(c)[k] < Utf8Char(d)[k]
  {
    if |Utf8Char(c)| != |Utf8Char(d)| {
      LongerIsGreater(c, d);
      k := 0;
    } else if |Utf8Char(c)| == 1 {
      k := 0;
    } else {
      k := TailDifference(c, d);
    }
  }

  /** Between encodings of one length, the first difference is that of the code points, read in base 64. */
  lemma TailDifference(c: char, d: char) returns (k: nat)
    requires c < d && |Utf8Char(c)| == |Utf8Char(d)| > 1
    ensures k < |Utf8Char(c)| && Utf8Char(c)[..k] == Utf8Char(d)[..k] && Utf8Char(c)[k] < Utf8Char(d)[k]
  {
    var n, x, y := |Utf8Char(c)|, c as int, d as int;
    DigitsOrder(x, y);
    if x / 0x40 == y / 0x40 {
      k := n - 1;
    } else {
      DigitsOrder(x / 0x40, y / 0x40);
      if x / 0x40 / 0x40 == y / 0x40 / 0x40 {
        k := n - 2;
      } else {
        DigitsOrder(x / 0x40 / 0x40, y / 0x40 / 0x40);
        k := if n == 4 && x / 0x40 / 0x40 / 0x40 == y / 0x40 / 0x40 / 0x40 then 1 else 0;
      }
    }
  }

  /** Two texts agree up to here; then the first is over, or has the smaller character. */
  predicate TextStepsDown(s: string, t: string, k: nat) {
    && k <= |s| && k < |t| && s[..k] == t[..k]
    && (k == |s| || s[k] < t[k])
  }

  /** The order of the encodings is that of the characters. */
  lemma {:induction false} TextLessIff(s: string, t: string)
    ensures TextLess(s, t) <==> exists k :: 0 <= k <= |s| && TextStepsDown(s, t, k)
    decreases |s|
  {
    if s != "" && t != "" && s[0] == t[0] {
      TextLessIff(s[1..], t[1..]);
      LexCommonPrefix(Utf8Char(s[0]), Utf8(s[1..]), Utf8(t[1..]));
      if k :| 0 <= k <= |s[1..]| && TextStepsDown(s[1..], t[1..], k) {
        assert s[..k + 1] == [s[0]] + s[1..][..k] && t[..k + 1] == [t[0]] + t[1..][..k];
        assert TextStepsDown(s, t, k + 1);
      }
      if k :| 0 <= k <= |s| && TextStepsDown(s, t, k) {
        assert s[1..][..k - 1] == s[..k][1..] && t[1..][..k - 1] == t[..k][1..];
        assert TextStepsDown(s[1..], t[1..], k - 1);
      }
    } else {
      TextAtFront(s, t);
      if s != "" && t != "" && s[0] < t[0] {
        CharOrder(s[0], t[0], Utf8(s[1..]), Utf8(t[1..]));
      } else if s != "" && t != "" {
        CharOrder(t[0], s[0], Utf8(t[1..]), Utf8(s[1..]));
        LexAsymmetric(Utf8(t), Utf8(s));
      }
    }
  }

  lemma TextAtFront(s: string, t: string)
    requires s == "" || t == "" || s[0] != t[0]
    ensures (exists k :: 0 <= k <= |s| && TextStepsDown(s, t, k)) <==> TextStepsDown(s, t, 0)
  {
    forall k: nat | 0 < k <= |s| && k < |t| ensures s[..k] != t[..k] {
      assert s[..k][0] == s[0] && t[..k][0] == t[0];
    }
  }
}
