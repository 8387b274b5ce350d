/** How strings become index keys: JSON-escaped when they come from a record, raw when from a query. */
module JsonText {
  import opened Wrappers

  const HEX := "0123456789abcdef"

  /** `serde_json`'s escape for one character of a string. */
  function EscapeChar(c: char): (e: string)
    ensures 1 <= |e| <= 6
  {
    if c == '"' then "\\\""
    else if c == '\\' then "\\\\"
    else if c == 8 as char then "\\b"
    else if c == 9 as char then "\\t"
    else if c == 10 as char then "\\n"
    else if c == 12 as char then "\\f"
    else if c == 13 as char then "\\r"
    else if c < ' ' then "\\u00" + [HEX[c as int / 16], HEX[c as int % 16]]
    else [c]
  }

  predicate Clean(c: char) {
    ' ' <= c && c != '"' && c != '\\'
  }

  function Escape(s: string): string {
    if s == "" then "" else EscapeChar(s[0]) + Escape(s[1..])
  }

  /** `canonical_value_key` of a string value. */
  function ValueKey(s: string): string {
    "\"" + Escape(s) + "\""
  }

  /** `canonical_literal_key` of a string literal: quoted, but not escaped. */
  function LiteralKey(s: string): string {
    "\"" + s + "\""
  }

  /** `canonical_string_prefix_key`: the value key without its closing quote. */
  function PrefixKey(s: string): string {
    "\"" + Escape(s)
  }

  // ----- Read back ---------------------------------------------------------------------------

  function HexDigit(c: char): Option<nat> {
    if '0' <= c <= '9' then Some(c as int - '0' as int)
    else if 'a' <= c <= 'f' then Some(c as int - 'a' as int + 10)
    else if 'A' <= c <= 'F' then Some(c as int - 'A' as int + 10)
    else None
  }

  /** The character that a two-character escape stands for, by section 7 of RFC 8259. */
  function ShortEscape(c: char): Option<char> {
    match c
    case '"' => Some('"')
    case '\\' => Some('\\')
    case '/' => Some('/')
    case 'b' => Some(0x08 as char)
    case 'f' => Some(0x0C as char)
    case 'n' => Some(0x0A as char)
    case 'r' => Some(0x0D as char)
    case 't' => Some(0x09 as char)
    case _ => None
  }

  /** The code unit of the four digits after `\u`, unless it is half of a surrogate pair. */
  function UnicodeEscape(e: string): Option<char>
    requires |e| == 4
  {
    var a, b, c, d := HexDigit(e[0]), HexDigit(e[1]), HexDigit(e[2]), HexDigit(e[3]);
    if a.None? || b.None? || c.None? || d.None? then None
    else
      var unit := 4096 * a.value + 256 * b.value + 16 * c.value + d.value;
      if unit < 0xD800 then Some(unit as char) else None
  }

  /** What a JSON reader makes of the characters between the quotes. */
  function Unescape(e: string): Option<string>
    decreases |e|
  {
    if e == "" then Some("")
    else if e[0] == '\\' then
      if |e| < 2 then None
      else if e[1] == 'u' then
        if |e| < 6 then None else Before(UnicodeEscape(e[2..6]), Unescape(e[6..]))
      else Before(ShortEscape(e[1]), Unescape(e[2..]))
    else if e[0] < ' ' || e[0] == '"' then None
    else Before(Some(e[0]), Unescape(e[1..]))
  }

  function Before(c: Option<char>, rest: Option<string>): Option<string> {
    if c.Some? && rest.Some? then Some([c.value] + rest.value) else None
  }

  lemma CharReadBack(c: char, rest: string)
    ensures Unescape(EscapeChar(c) + rest) == Before(Some(c), Unescape(rest))
  {
    var e := EscapeChar(c);
    var whole := e + rest;
    assert whole[..|e|] == e && whole[|e|..] == rest;
    if c < ' ' && e[1] == 'u' {
      assert whole[2..6] == e[2..6] == ['0', '0', HEX[c as int / 16], HEX[c as int % 16]];
      HexRead(c as int / 16);
      HexRead(c as int % 16);
    }
  }

  lemma HexRead(d: nat)
    requires d < 16
    ensures HexDigit(HEX[d]) == Some(d)
  {
  }

  /** A JSON reader gets every string back from its escaped form. */
  lemma {:induction false} EscapeReadBack(s: string)
    ensures Unescape(Escape(s)) == Some(s)
  {
    if s == "" {
    } else {
      CharReadBack(s[0], Escape(s[1..]));
      EscapeReadBack(s[1..]);
      assert s == [s[0]] + s[1..];
    }
  }

  lemma EscapeCharPrefixFree(c: char, d: char, s: string, t: string)
    requires EscapeChar(c) + s == EscapeChar(d) + t
    ensures c == d && s == t
  {
    var u, v := EscapeChar(c), EscapeChar(d);
    var whole := u + s;
    assert whole[0] == u[0] == v[0];
    if u[0] == '\\' {
      assert whole[1] == u[1] == v[1];
      if u[1] == 'u' {
        assert whole[4] == u[4] == v[4];
        assert whole[5] == u[5] == v[5];
        HexDistinct(c as int / 16, d as int / 16);
        HexDistinct(c as int % 16, d as int % 16);
      }
    }
    assert |u| == |v|;
    assert s == whole[|u|..] && t == whole[|v|..];
  }

  lemma HexDistinct(i: nat, j: nat)
    requires i < 16 && j < 16 && HEX[i] == HEX[j]
    ensures i == j
  {
  }

  lemma {:induction false} EscapeKeepsPrefix(p: string, s: string)
    requires p <= s
    ensures Escape(p) <= Escape(s)
    decreases |p|
  {
    if p == "" {
    } else {
      assert p[0] == s[0] && p[1..] <= s[1..];
      EscapeKeepsPrefix(p[1..], s[1..]);
    }
  }

  lemma EscapeHead(s: string, rest: string)
    requires s != ""
    ensures Escape(s) + rest == EscapeChar(s[0]) + (Escape(s[1..]) + rest)
  {
    var head, tail := EscapeChar(s[0]), Escape(s[1..]);
    assert Escape(s) == head + tail;
    Regroup(head, tail, rest);
  }

  lemma {:induction false} EscapeAppend(s: string, t: string)
    ensures Escape(s + t) == Escape(s) + Escape(t)
    decreases |s|
  {
    if s == "" {
      assert s + t == t;
    } else {
      assert (s + t)[1..] == s[1..] + t;
      EscapeAppend(s[1..], t);
    }
  }

  lemma NoQuoteFirst(s: string, rest: string)
    requires s != ""
    ensures (Escape(s) + rest)[0] != '"'
  {
    EscapeHead(s, rest);
  }

  lemma {:induction false} EscapeReflectsPrefix(p: string, s: string, rest: string)
    requires Escape(p) + rest == Escape(s) + "\""
    ensures p <= s
    decreases |p|
  {
    if p == "" {
    } else {
      NoQuoteFirst(p, rest);
      assert s != "";
      EscapeHead(p, rest);
      EscapeHead(s, "\"");
      EscapeCharPrefixFree(p[0], s[0], Escape(p[1..]) + rest, Escape(s[1..]) + "\"");
      EscapeReflectsPrefix(p[1..], s[1..], rest);
      assert p == [p[0]] + p[1..] && s == [s[0]] + s[1..];
    }
  }

  /** A value's key starts with a prefix's key iff the value starts with the prefix. */
  lemma PrefixKeyExact(p: string, s: string)
    ensures PrefixKey(p) <= ValueKey(s) <==> p <= s
  {
    if p <= s {
      EscapeKeepsPrefix(p, s);
    }
    if Escape(p) <= Escape(s) + "\"" {
      EscapeReflectsPrefix(p, s, (Escape(s) + "\"")[|Escape(p)|..]);
    }
    Regroup("\"", Escape(s), "\"");
    SamePrefix('"', Escape(p), Escape(s) + "\"");
  }

  lemma SamePrefix(c: char, p: string, s: string)
    ensures [c] + p <= [c] + s <==> p <= s
  {
    assert ([c] + p)[1..] == p && ([c] + s)[1..] == s;
  }

  /** Different strings have different value keys. */
  lemma ValueKeyInjective(s: string, t: string)
    requires ValueKey(s) == ValueKey(t)
    ensures s == t
  {
    PrefixKeyExact(s, s);
    PrefixKeyExact(t, t);
    assert PrefixKey(s) == ValueKey(s)[..|ValueKey(s)| - 1] == PrefixKey(t);
    PrefixKeyExact(s, t);
    PrefixKeyExact(t, s);
  }

  lemma {:induction false} EscapeGrows(s: string)
    ensures |Escape(s)| >= |s|
    ensures |Escape(s)| == |s| ==> forall i :: 0 <= i < |s| ==> Clean(s[i])
    ensures (forall i :: 0 <= i < |s| ==> Clean(s[i])) ==> Escape(s) == s
    decreases |s|
  {
    if s == "" {
    } else {
      EscapeGrows(s[1..]);
      assert s == [s[0]] + s[1..];
    }
  }

  /** The key looked up for a literal is the key filed for the equal value iff nothing needs escaping. */
  lemma KeysAgreeIffClean(s: string)
    ensures LiteralKey(s) == ValueKey(s) <==> forall i :: 0 <= i < |s| ==> Clean(s[i])
  {
    EscapeGrows(s);
    assert |LiteralKey(s)| == |s| + 2 && |ValueKey(s)| == |Escape(s)| + 2;
  }

  /** A literal that needs escaping can only meet the key of a value it is not equal to. */
  lemma UncleanMeetsOnlyOthers(q: string, v: string)
    requires LiteralKey(q) == ValueKey(v)
    ensures q == v <==> forall i :: 0 <= i < |q| ==> Clean(q[i])
  {
    KeysAgreeIffClean(q);
    if LiteralKey(q) == ValueKey(q) {
      ValueKeyInjective(q, v);
    }
  }
}
