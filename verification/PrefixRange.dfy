/** The key range that answers `LIKE 'prefix%'`, and exactly when it holds nothing else. */
module PrefixRange {
  import opened Wrappers
  import opened Bytes
  import opened JsonText

  /** The prefix up to its last byte that is not 0xFF, with that byte incremented. */
  function Bumped(p: bytes): Option<bytes> {
    if p == [] then None
    else
      var n := |p| - 1;
      if p[n] == 0xFF then Bumped(p[..n]) else Some(p[..n] + [p[n] + 1])
  }

  /** `fromUtf8` stands for `String::from_utf8(..).ok()`. */
  method PrefixUpperBound(prefix: bytes, fromUtf8: bytes -> Option<string>) returns (hi: Option<string>)
    ensures hi == match Bumped(prefix) case None => None case Some(b) => fromUtf8(b)
  {
    var i := |prefix|;
    assert prefix[..i] == prefix;
    while i > 0
      invariant 0 <= i <= |prefix| && Bumped(prefix) == Bumped(prefix[..i])
    {
      assert prefix[..i][..i - 1] == prefix[..i - 1];
      i := i - 1;
      if prefix[i] != 0xFF {
        return fromUtf8(prefix[..i] + [prefix[i] + 1]);
      }
    }
    return None;
  }

  // ----- The range over byte strings --------------------------------------------------------

  ghost predicate InRange(k: bytes, lo: bytes, hi: Option<bytes>) {
    !LexLess(k, lo) && (hi.Some? ==> LexLess(k, hi.value))
  }

  /** The bound seen from the front of the prefix. */
  lemma {:induction false} BumpedFront(p: bytes)
    requires p != []
    ensures Bumped(p) ==
            match Bumped(p[1..])
            case Some(b) => Some([p[0]] + b)
            case None => if p[0] == 0xFF then None else Some([p[0] + 1])
  {
    var n := |p| - 1;
    if n == 0 {
      assert p[..0] + [p[0] + if p[0] < 0xFF then 1 else 0] == [p[0] + if p[0] < 0xFF then 1 else 0];
    } else {
      assert p[1..][..n - 1] == p[..n][1..];
      if p[n] == 0xFF {
        BumpedFront(p[..n]);
      } else {
        assert p[..n] + [p[n] + 1] == [p[0]] + (p[1..][..n - 1] + [p[n] + 1]);
      }
    }
  }

  /** Without a bound the range is everything from the prefix up; with one it is the prefix's own strings. */
  lemma {:induction false} BumpedRange(p: bytes, k: bytes)
    ensures p <= k ==> !LexLess(k, p)
    ensures Bumped(p).None? ==> (!LexLess(k, p) <==> p <= k)
    ensures Bumped(p).Some? ==> (InRange(k, p, Bumped(p)) <==> p <= k)
    decreases |p|
  {
    if p == [] {
    } else {
      BumpedFront(p);
      if k != [] {
        BumpedRange(p[1..], k[1..]);
        assert p <= k <==> p[0] == k[0] && p[1..] <= k[1..] by {
          assert p == [p[0]] + p[1..] && k == [k[0]] + k[1..];
        }
        if Bumped(p[1..]).Some? {
          assert ([p[0]] + Bumped(p[1..]).value)[1..] == Bumped(p[1..]).value;
        } else if p[0] < 0xFF {
          var hi: bytes := [p[0] + 1];
          assert Bumped(p) == Some(hi) && hi[1..] == [];
          assert !LexLess(k[1..], hi[1..]);
          assert LexLess(k, hi) <==> k[0] <= p[0];
        }
      }
    }
  }

  // ----- The range over strings -------------------------------------------------------------

  ghost predicate IsUtf8(b: bytes) {
    exists s :: Utf8(s) == b
  }

  /** `fromUtf8` does what the standard library promises. */
  ghost predicate Decodes(fromUtf8: bytes -> Option<string>) {
    forall b, s :: fromUtf8(b) == Some(s) <==> Utf8(s) == b
  }

  /** The upper end of the key range of a prefix, or none when the incremented bytes are not UTF-8. */
  ghost function UpperBound(lo: bytes): Option<bytes> {
    var b := Bumped(lo);
    if b.Some? && IsUtf8(b.value) then b else None
  }

  /** The bytes the method's answer stands for are this bound. */
  lemma UpperBoundIsMethods(lo: bytes, fromUtf8: bytes -> Option<string>, hi: Option<string>)
    requires Decodes(fromUtf8)
    requires hi == match Bumped(lo) case None => None case Some(b) => fromUtf8(b)
    ensures UpperBound(lo) == if hi.Some? then Some(Utf8(hi.value)) else None
  {
    if Bumped(lo).Some? {
      var b := Bumped(lo).value;
      if IsUtf8(b) {
        var s :| Utf8(s) == b;
        assert fromUtf8(b) == Some(s);
      }
    }
  }

  /** Lowest and highest byte that may follow a lead byte. */
  predicate Continuation(x: byte) {
    0x80 <= x < 0xC0
  }

  lemma Utf8CharBytes(c: char)
    ensures var b := Utf8Char(c);
            !Continuation(b[0]) && b[0] < 0xF8 && forall i :: 1 <= i < |b| ==> Continuation(b[i])
  {
  }

  /** The next encoding after a character's, when its last byte can grow. */
  lemma NextChar(c: char) returns (d: char)
    requires var b := Utf8Char(c); b[|b| - 1] != 0x7F && b[|b| - 1] != 0xBF
    ensures Utf8Char(d) == LastGrown(Utf8Char(c))
  {
    var x := c as int;
    if x < 0x80 {
      d := (x + 1) as char;
    } else {
      assert x % 0x40 < 0x3F;
      d := (x + 1) as char;
      assert (x + 1) / 0x40 == x / 0x40;
    }
  }

  function LastGrown(u: bytes): bytes
    requires u != [] && u[|u| - 1] < 0xFF
  {
    u[..|u| - 1] + [u[|u| - 1] + 1]
  }

  lemma BumpedAppend(a: bytes, u: bytes)
    requires u != [] && u[|u| - 1] < 0xFF
    ensures Bumped(a + u) == Some(a + LastGrown(u))
  {
    var whole := a + u;
    assert whole[|whole| - 1] == u[|u| - 1];
    assert whole[..|whole| - 1] + [u[|u| - 1] + 1] == a + LastGrown(u);
  }

  lemma Utf8Last(init: string, c: char)
    ensures Utf8(init + [c]) == Utf8(init) + Utf8Char(c)
  {
    assert Utf8([c]) == Utf8Char(c) + Utf8([c][1..]) == Utf8Char(c);
    Utf8Append(init, [c]);
  }

  /** A bound exists iff the last byte of the prefix can be incremented within UTF-8. */
  lemma BoundExistsIff(p: string)
    requires p != ""
    ensures var b := Utf8(p);
            b != [] && (UpperBound(b).Some? <==> b[|b| - 1] != 0x7F && b[|b| - 1] != 0xBF)
  {
    var m := |p| - 1;
    var c, init := p[m], p[..m];
    assert p == init + [c];
    var u := Utf8Char(c);
    Utf8Last(init, c);
    Utf8CharBytes(c);
    BumpedAppend(Utf8(init), u);
    if u[|u| - 1] != 0x7F && u[|u| - 1] != 0xBF {
      var d := NextChar(c);
      Utf8Last(init, d);
      assert IsUtf8(Utf8(init) + LastGrown(u));
    } else {
      NotUtf8(init, c);
    }
  }

  lemma NotUtf8(init: string, c: char)
    requires var u := Utf8Char(c); u[|u| - 1] == 0x7F || u[|u| - 1] == 0xBF
    ensures !IsUtf8(Utf8(init) + LastGrown(Utf8Char(c)))
  {
    if s :| Utf8(s) == Utf8(init) + LastGrown(Utf8Char(c)) {
      Utf8Prefix(init, s);
      var t := s[|init|..];
      assert s == init + t;
      Utf8Append(init, t);
      assert Utf8(t) == (Utf8(init) + Utf8(t))[|Utf8(init)|..];
      NotACharacter(c, t);
    }
  }

  lemma NotACharacter(c: char, t: string)
    requires var u := Utf8Char(c); u[|u| - 1] == 0x7F || u[|u| - 1] == 0xBF
    ensures Utf8(t) != LastGrown(Utf8Char(c))
  {
    var u := Utf8Char(c);
    Utf8CharBytes(c);
    Utf8CharLength(c);
    if t != "" {
      var v := Utf8Char(t[0]);
      Utf8CharBytes(t[0]);
      Utf8CharLength(t[0]);
      assert Utf8(t)[0] == v[0];
      if |u| > 1 && v[0] == u[0] {
        assert Utf8(t)[|u| - 1] == v[|u| - 1];
      }
    }
  }

  // ----- The range over index keys ----------------------------------------------------------

  ghost predicate KeyInRange(v: string, p: string) {
    var lo := Utf8(PrefixKey(p));
    InRange(Utf8(ValueKey(v)), lo, UpperBound(lo))
  }

  /** The scanned key range never misses a value with the prefix; with a bound it holds no other. */
  lemma KeyRangeHoldsPrefix(p: string, v: string)
    ensures p <= v ==> KeyInRange(v, p)
    ensures UpperBound(Utf8(PrefixKey(p))).Some? ==> (KeyInRange(v, p) <==> p <= v)
  {
    PrefixKeyExact(p, v);
    Utf8Prefix(PrefixKey(p), ValueKey(v));
    BumpedRange(Utf8(PrefixKey(p)), Utf8(ValueKey(v)));
  }

  const MAX_CHAR := '\U{10FFFF}'

  lemma MaxCharLast(c: char, rest: bytes, more: bytes)
    requires c != MAX_CHAR
    ensures LexLess(Utf8Char(c) + rest, Utf8Char(MAX_CHAR) + more)
  {
    var u, m := Utf8Char(c), Utf8Char(MAX_CHAR);
    var a, b := u + rest, m + more;
    assert m == [0xF4, 0x8F, 0xBF, 0xBF];
    assert forall i :: 0 <= i < |u| ==> a[i] == u[i];
    assert forall i :: 0 <= i < 4 ==> b[i] == m[i];
    Utf8CharLength(c);
    LexByBytes(a, b);
  }

  /** The order of two strings that differ within their first four bytes. */
  lemma LexByBytes(a: bytes, b: bytes)
    requires |a| >= 1 && |b| >= 4
    ensures a[0] < b[0] ==> LexLess(a, b)
    ensures |a| >= 4 && a[0] == b[0] && a[1] < b[1] ==> LexLess(a, b)
    ensures |a| >= 4 && a[0] == b[0] && a[1] == b[1] && a[2] < b[2] ==> LexLess(a, b)
    ensures |a| >= 4 && a[0] == b[0] && a[1] == b[1] && a[2] == b[2] && a[3] < b[3] ==> LexLess(a, b)
  {
    if |a| >= 4 {
      assert LexLess(a[3..], b[3..]) <==> a[3] < b[3] || (a[3] == b[3] && LexLess(a[3..][1..], b[3..][1..]));
      assert a[2..][1..] == a[3..] && b[2..][1..] == b[3..];
      assert LexLess(a[2..], b[2..]) <==> a[2] < b[2] || (a[2] == b[2] && LexLess(a[3..], b[3..]));
      assert a[1..][1..] == a[2..] && b[1..][1..] == b[2..];
    }
  }

  lemma Utf8Head(s: string)
    requires s != ""
    ensures Utf8(s) == Utf8Char(s[0]) + Utf8(s[1..])
  {
  }

  /** A string whose first character is not the last one sorts before any that starts with the last one. */
  lemma BelowMax(s: string, t: string)
    requires s != "" && s[0] != MAX_CHAR && t != "" && t[0] == MAX_CHAR
    ensures LexLess(Utf8(s), Utf8(t))
  {
    Utf8Head(s);
    Utf8Head(t);
    MaxCharLast(s[0], Utf8(s[1..]), Utf8(t[1..]));
  }

  lemma {:induction false} OnlyMaxIsAboveMax(p: string, v: string)
    requires forall i :: 0 <= i < |p| ==> p[i] == MAX_CHAR
    requires !(p <= v)
    ensures LexLess(Utf8(Escape(v) + "\""), Utf8(Escape(p)))
    decreases |p|
  {
    var s, t := Escape(v) + "\"", Escape(p);
    assert EscapeChar(p[0]) == [MAX_CHAR];
    if v != "" {
      EscapeHead(v, "\"");
    }
    if v != "" && v[0] == MAX_CHAR {
      assert p[1..] <= v[1..] ==> p <= v by {
        assert p == [p[0]] + p[1..] && v == [v[0]] + v[1..];
      }
      OnlyMaxIsAboveMax(p[1..], v[1..]);
      assert s == [MAX_CHAR] + (Escape(v[1..]) + "\"") && t == [MAX_CHAR] + Escape(p[1..]);
      Utf8Append([MAX_CHAR], Escape(v[1..]) + "\"");
      Utf8Append([MAX_CHAR], Escape(p[1..]));
      LexCommonPrefix(Utf8([MAX_CHAR]), Utf8(Escape(v[1..]) + "\""), Utf8(Escape(p[1..])));
    } else {
      BelowMax(s, t);
    }
  }

  /** A value that leaves the prefix upwards, from a place where the prefix can still be exceeded. */
  lemma StrayValue(p: string, i: nat)
    requires i < |p| && p[i] != MAX_CHAR
    ensures !(p <= p[..i] + [MAX_CHAR])
    ensures LexLess(Utf8(PrefixKey(p)), Utf8(ValueKey(p[..i] + [MAX_CHAR])))
  {
    var q, r := p[..i], p[i..];
    var v := q + [MAX_CHAR];
    assert v[i] != p[i];
    assert p == q + r;
    KeyParts(q, r);
    KeyParts(q, [MAX_CHAR]);
    EscapeMax();
    NotMaxFirst(r);
    Diverge("\"" + Escape(q), Escape(r), [MAX_CHAR] + "\"");
  }

  lemma KeyParts(q: string, r: string)
    ensures PrefixKey(q + r) == ("\"" + Escape(q)) + Escape(r)
    ensures ValueKey(q + r) == ("\"" + Escape(q)) + (Escape(r) + "\"")
  {
    EscapeAppend(q, r);
    Regroup("\"", Escape(q), Escape(r));
    QuotedParts("\"", Escape(q), Escape(r), "\"");
  }

  lemma QuotedParts(open_: string, a: string, b: string, close: string)
    ensures open_ + (a + b) + close == (open_ + a) + (b + close)
  {
  }

  lemma EscapeMax()
    ensures Escape([MAX_CHAR]) == [MAX_CHAR]
  {
  }

  lemma NotMaxFirst(s: string)
    requires s != "" && s[0] != MAX_CHAR
    ensures Escape(s) != "" && Escape(s)[0] != MAX_CHAR
  {
    var head := EscapeChar(s[0]);
    assert Escape(s)[0] == head[0];
  }

  lemma Diverge(common: string, s: string, t: string)
    requires s != "" && s[0] != MAX_CHAR && t != "" && t[0] == MAX_CHAR
    ensures LexLess(Utf8(common + s), Utf8(common + t))
  {
    Utf8Append(common, s);
    Utf8Append(common, t);
    BelowMax(s, t);
    LexCommonPrefix(Utf8(common), Utf8(s), Utf8(t));
  }

  /**
   The scanned range holds only keys with the prefix iff it has an upper bound, or nothing sorts
   above the prefix at all.
   */
  lemma KeyRangeExactIff(p: string)
    ensures (forall v :: KeyInRange(v, p) ==> p <= v)
        <==> UpperBound(Utf8(PrefixKey(p))).Some? || forall i :: 0 <= i < |p| ==> p[i] == MAX_CHAR
  {
    var lo := Utf8(PrefixKey(p));
    if UpperBound(lo).Some? {
      forall v | KeyInRange(v, p) ensures p <= v {
        KeyRangeHoldsPrefix(p, v);
      }
    } else if i :| 0 <= i < |p| && p[i] != MAX_CHAR {
      StrayValue(p, i);
      LexAsymmetric(lo, Utf8(ValueKey(p[..i] + [MAX_CHAR])));
      assert KeyInRange(p[..i] + [MAX_CHAR], p);
    } else {
      forall v | KeyInRange(v, p) ensures p <= v {
        if !(p <= v) {
          assert ValueKey(v) == "\"" + (Escape(v) + "\"");
          Utf8Append("\"", Escape(p));
          Utf8Append("\"", Escape(v) + "\"");
          OnlyMaxIsAboveMax(p, v);
          LexCommonPrefix(Utf8("\""), Utf8(Escape(v) + "\""), Utf8(Escape(p)));
        }
      }
    }
  }
}
