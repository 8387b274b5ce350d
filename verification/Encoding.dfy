/** The base-4 codon codec: four symbols to a byte, three symbols to a codon. */
module Encoding {
  import opened Wrappers
  import opened Bytes

  datatype Codon = Codon(a: byte, b: byte, c: byte) {
    function Values(): (v: seq<byte>)
      ensures |v| == 3
    {
      [a, b, c]
    }
  }

  datatype EncodedPayload = EncodedPayload(codons: seq<Codon>, originalLen: nat)

  datatype EncodingError = InvalidSymbol(symbol: byte) | InsufficientSymbols

  // ----- What the codec computes ------------------------------------------------------------

  /** The base-4 digits of a byte, most significant first: two bits each, shifted down and masked. */
  function Quad(b: byte): (q: seq<byte>)
    ensures |q| == 4 && AllDigits(q)
  {
    [b / 64, b / 16 % 4, b / 4 % 4, b % 4]
  }

  predicate AllDigits(s: seq<byte>) {
    forall i | 0 <= i < |s| :: s[i] < 4
  }

  /** The bit-wise union of four two-bit fields; shifting keeps the low eight bits. */
  function Join(s: seq<byte>): byte
    requires |s| >= 4
  {
    var word: int := 64 * (s[0] as int) + 16 * (s[1] as int) + 4 * (s[2] as int) + s[3];
    word % 256
  }

  function Symbols(data: bytes): (s: seq<byte>)
    ensures |s| == 4 * |data| && AllDigits(s)
  {
    if data == [] then [] else Quad(data[0]) + Symbols(data[1..])
  }

  /** Three symbols to a codon, the last one filled up with zeros. */
  function Packed(s: seq<byte>): (cs: seq<Codon>)
    ensures |cs| == (|s| + 2) / 3
  {
    if s == [] then []
    else if |s| == 1 then [Codon(s[0], 0, 0)]
    else if |s| == 2 then [Codon(s[0], s[1], 0)]
    else [Codon(s[0], s[1], s[2])] + Packed(s[3..])
  }

  function Unpacked(cs: seq<Codon>): (s: seq<byte>)
    ensures |s| == 3 * |cs|
  {
    if cs == [] then [] else cs[0].Values() + Unpacked(cs[1..])
  }

  function Grouped(s: seq<byte>): (data: bytes)
    ensures |data| == |s| / 4
  {
    if |s| < 4 then [] else [Join(s)] + Grouped(s[4..])
  }

  function Encoded(data: bytes): EncodedPayload {
    EncodedPayload(Packed(Symbols(data)), |data|)
  }

  /** The first symbol that is not a base-4 digit. */
  function FirstInvalid(s: seq<byte>): (r: Option<byte>)
    ensures r.None? <==> AllDigits(s)
  {
    if s == [] then None
    else if s[0] >= 4 then Some(s[0])
    else
      assert AllDigits(s[1..]) ==> AllDigits(s) by {
        assert s == [s[0]] + s[1..];
      }
      FirstInvalid(s[1..])
  }

  function Decoded(p: EncodedPayload): Result<bytes, EncodingError> {
    var symbols := Unpacked(p.codons);
    match FirstInvalid(symbols)
    case Some(v) => Err(InvalidSymbol(v))
    case None =>
      if |symbols| < 4 * p.originalLen then Err(InsufficientSymbols)
      else Ok(Grouped(symbols[..4 * p.originalLen]))
  }

  // ----- What a codon spells ------------------------------------------------------------------

  /** The digits of a byte, by their weights. */
  lemma QuadWeighs(b: byte)
    ensures var q := Quad(b); b == 64 * q[0] as int + 16 * q[1] as int + 4 * q[2] as int + q[3] as int
  {
    JoinQuad(b);
  }

  /** The `k`-th symbol of some bytes is a digit of the byte it falls in. */
  lemma {:induction false} SymbolAt(data: bytes, k: nat)
    requires k < 4 * |data|
    ensures Symbols(data)[k] == Quad(data[k / 4])[k % 4]
    decreases |data|
  {
    if k >= 4 {
      SymbolAt(data[1..], k - 4);
      assert (k - 4) / 4 == k / 4 - 1 && (k - 4) % 4 == k % 4;
    }
  }

  /** The letters of the `i`-th codon are three symbols in a row, with zeros after the last. */
  lemma {:induction false} CodonAt(s: seq<byte>, i: nat)
    requires 3 * i < |s|
    ensures var c := Packed(s)[i];
            && c.a == s[3 * i]
            && c.b == (if 3 * i + 1 < |s| then s[3 * i + 1] else 0)
            && c.c == (if 3 * i + 2 < |s| then s[3 * i + 2] else 0)
    decreases |s|
  {
    if i > 0 {
      CodonAt(s[3..], i - 1);
    }
  }

  /** Letter `k` of an encoding: letter `k % 3` of codon `k / 3`. */
  function Letter(p: EncodedPayload, k: nat): byte
    requires k < 3 * |p.codons|
  {
    p.codons[k / 3].Values()[k % 3]
  }

  function FourLetters(p: EncodedPayload, i: nat): (q: seq<byte>)
    requires 4 * i + 3 < 3 * |p.codons|
    ensures |q| == 4
  {
    [Letter(p, 4 * i), Letter(p, 4 * i + 1), Letter(p, 4 * i + 2), Letter(p, 4 * i + 3)]
  }

  /** Four letters of an encoding are the base-4 digits of a byte, from the most significant down. */
  lemma LettersSpell(data: bytes, i: nat)
    requires i < |data|
    ensures 4 * i + 3 < 3 * |Encoded(data).codons|
    ensures var q := FourLetters(Encoded(data), i);
            AllDigits(q) && data[i] == 64 * q[0] as int + 16 * q[1] as int + 4 * q[2] as int + q[3] as int
  {
    FourAreQuad(data, i);
    QuadWeighs(data[i]);
  }

  lemma FourAreQuad(data: bytes, i: nat)
    requires i < |data|
    ensures 4 * i + 3 < 3 * |Encoded(data).codons| && FourLetters(Encoded(data), i) == Quad(data[i])
  {
    LetterIs(data, i, 0);
    LetterIs(data, i, 1);
    LetterIs(data, i, 2);
    LetterIs(data, i, 3);
  }

  lemma LetterIs(data: bytes, i: nat, d: nat)
    requires i < |data| && d < 4
    ensures 4 * i + d < 3 * |Encoded(data).codons| && Letter(Encoded(data), 4 * i + d) == Quad(data[i])[d]
  {
    var k := 4 * i + d;
    assert k / 4 == i && k % 4 == d;
    SymbolAt(data, k);
    LetterOf(Symbols(data), k);
  }

  lemma LetterOf(s: seq<byte>, k: nat)
    requires k < |s|
    ensures k / 3 < |Packed(s)| && Packed(s)[k / 3].Values()[k % 3] == s[k]
  {
    var i := k / 3;
    CodonAt(s, i);
    assert k == 3 * i + k % 3;
  }

  // ----- When decoding is refused -------------------------------------------------------------

  /** The first symbol that is no digit. */
  lemma {:induction false} FirstInvalidIs(s: seq<byte>, v: byte)
    ensures FirstInvalid(s) == Some(v) <==> exists k :: 0 <= k < |s| && AllDigits(s[..k]) && s[k] == v && v >= 4
  {
    if s == [] {
    } else {
      FirstInvalidIs(s[1..], v);
      if k :| 0 <= k < |s[1..]| && AllDigits(s[1..][..k]) && s[1..][k] == v && v >= 4 && s[0] < 4 {
        assert s[..k + 1] == [s[0]] + s[1..][..k];
        assert s[k + 1] == v && AllDigits(s[..k + 1]);
      }
      if k :| 0 <= k < |s| && AllDigits(s[..k]) && s[k] == v && v >= 4 {
        if k > 0 {
          assert s[..k][0] == s[0] && s[1..][..k - 1] == s[..k][1..];
          assert s[1..][k - 1] == v;
        } else {
          assert s[..0] == [];
        }
      }
      if s[0] >= 4 {
        assert AllDigits(s[..0]);
      }
    }
  }

  // ----- Round trips ------------------------------------------------------------------------

  lemma JoinQuad(b: byte)
    ensures Join(Quad(b)) == b
  {
    var q := b / 4;
    assert b / 16 == q / 4 && b / 64 == q / 4 / 4;
  }

  lemma QuadJoin(s: seq<byte>)
    requires |s| >= 4 && AllDigits(s)
    ensures Quad(Join(s)) == s[..4]
  {
    var b: int, q: int := Join(s), 16 * (s[0] as int) + 4 * (s[1] as int) + s[2];
    assert b == 4 * q + s[3];
    assert b / 4 == q && b % 4 == s[3];
    assert b / 16 == q / 4 == 4 * s[0] + s[1];
    assert b / 64 == b / 16 / 4;
  }

  lemma {:induction false} GroupSymbols(data: bytes)
    ensures Grouped(Symbols(data)) == data
  {
    if data == [] {
    } else {
      JoinQuad(data[0]);
      var s := Symbols(data);
      assert s[..4] == Quad(data[0]) && s[4..] == Symbols(data[1..]);
      JoinOfFront(s);
      GroupSymbols(data[1..]);
    }
  }

  lemma JoinOfFront(s: seq<byte>)
    requires |s| >= 4
    ensures Join(s) == Join(s[..4])
  {
  }

  lemma {:induction false} SymbolsGrouped(s: seq<byte>)
    requires |s| % 4 == 0 && AllDigits(s)
    ensures Symbols(Grouped(s)) == s
  {
    if s == [] {
    } else {
      QuadJoin(s);
      SymbolsGrouped(s[4..]);
      assert s == s[..4] + s[4..];
      assert Grouped(s)[1..] == Grouped(s[4..]);
    }
  }

  lemma {:induction false} SymbolsAppend(a: bytes, b: bytes)
    ensures Symbols(a + b) == Symbols(a) + Symbols(b)
  {
    if a == [] {
      assert a + b == b;
    } else {
      assert (a + b)[1..] == a[1..] + b;
      SymbolsAppend(a[1..], b);
    }
  }

  lemma SymbolsPrefix(data: bytes, n: nat)
    requires n <= |data|
    ensures Symbols(data)[..4 * n] == Symbols(data[..n])
  {
    assert data == data[..n] + data[n..];
    SymbolsAppend(data[..n], data[n..]);
  }

  /** The zeros that fill up the last codon of `n` symbols. */
  function Padding(n: nat): (z: seq<byte>)
    ensures |z| < 3 && AllDigits(z)
  {
    if n % 3 == 0 then [] else if n % 3 == 1 then [0, 0] else [0]
  }

  lemma PaddingRepeats(n: nat)
    ensures Padding(n + 3) == Padding(n)
  {
  }

  lemma {:induction false} UnpackPacked(s: seq<byte>)
    ensures Unpacked(Packed(s)) == s + Padding(|s|)
  {
    if |s| >= 3 {
      UnpackPacked(s[3..]);
      PaddingRepeats(|s| - 3);
      assert Packed(s)[1..] == Packed(s[3..]);
      assert s == [s[0], s[1], s[2]] + s[3..];
      assert [s[0], s[1], s[2]] + (s[3..] + Padding(|s|)) == s + Padding(|s|);
    } else if s != [] {
      assert Unpacked(Packed(s)[1..]) == [];
    }
  }

  lemma {:induction false} UnpackPrefix(cs: seq<Codon>, k: nat)
    requires k <= |cs|
    ensures Unpacked(cs[..k]) == Unpacked(cs)[..3 * k]
    decreases k
  {
    if k == 0 {
    } else {
      assert cs[..k][1..] == cs[1..][..k - 1];
      UnpackPrefix(cs[1..], k - 1);
    }
  }

  /** How many whole bytes `k` codons hold. */
  function BytesIn(k: nat): nat {
    3 * k / 4
  }

  /** The first `k` codons of an encoding decode to as many bytes of the original as they hold. */
  lemma DecodePrefix(data: bytes, k: nat)
    requires k <= |Encoded(data).codons|
    ensures BytesIn(k) <= |data|
    ensures Decoded(EncodedPayload(Encoded(data).codons[..k], BytesIn(k))) == Ok(data[..BytesIn(k)])
  {
    var s, n := Symbols(data), BytesIn(k);
    var all := s + Padding(|s|);
    UnpackPacked(s);
    UnpackPrefix(Packed(s), k);
    assert AllDigits(all[..3 * k]);
    assert all[..3 * k][..4 * n] == s[..4 * n];
    SymbolsPrefix(data, n);
    GroupSymbols(data[..n]);
  }

  /** The codon count of a whole encoding gives back its length, so nothing else need be stored. */
  lemma LengthFromCodons(data: bytes)
    ensures BytesIn(|Encoded(data).codons|) == |data|
  {
  }

  /** Decoding inverts encoding, for every byte string. */
  lemma RoundTrip(data: bytes)
    ensures Decoded(Encoded(data)) == Ok(data)
  {
    LengthFromCodons(data);
    var cs := Encoded(data).codons;
    assert cs[..|cs|] == cs && data[..|data|] == data;
    DecodePrefix(data, |cs|);
  }

  /** What decodes at all encodes back to the symbols it was read from. */
  lemma DecodedEncodesBack(p: EncodedPayload)
    requires Decoded(p).Ok?
    ensures |Decoded(p).value| == p.originalLen
    ensures Symbols(Decoded(p).value) == Unpacked(p.codons)[..4 * p.originalLen]
  {
    var s := Unpacked(p.codons)[..4 * p.originalLen];
    assert AllDigits(s);
    SymbolsGrouped(s);
  }

  /** Two byte strings never share an encoding. */
  lemma EncodedInjective(a: bytes, b: bytes)
    requires Encoded(a).codons == Encoded(b).codons
    ensures a == b
  {
    LengthFromCodons(a);
    LengthFromCodons(b);
    RoundTrip(a);
    RoundTrip(b);
  }

  // ----- As the engine runs it --------------------------------------------------------------

  /** The four pushes of one byte. */
  method PushQuad(symbols: seq<byte>, b: byte) returns (out: seq<byte>)
    ensures out == symbols + Quad(b)
  {
    out := symbols;
    out := out + [b / 64 % 4];
    out := out + [b / 16 % 4];
    out := out + [b / 4 % 4];
    out := out + [b % 4];
  }

  method ExpandBytesToSymbolsScalar(data: bytes, symbols: seq<byte>) returns (out: seq<byte>)
    ensures out == symbols + Symbols(data)
  {
    out := symbols;
    for i := 0 to |data|
      invariant out + Symbols(data[i..]) == symbols + Symbols(data)
    {
      ghost var was, rest := out, Symbols(data[i + 1..]);
      assert data[i..][1..] == data[i + 1..];
      out := PushQuad(out, data[i]);
      Regroup(was, Quad(data[i]), rest);
    }
  }

  const LANES: nat := 16

  /** One vector register, stored: every lane shifted down and masked. */
  method StoreLanes(block: bytes, k: nat) returns (lanes: array<byte>)
    requires |block| == LANES && k < 4
    ensures fresh(lanes) && lanes.Length == LANES
    ensures forall i :: 0 <= i < LANES ==> lanes[i] == Quad(block[i])[k]
  {
    lanes := new byte[LANES](i requires 0 <= i < LANES => Quad(block[i])[k]);
  }

  /** The stores of one block, interleaved. */
  method EmitBlock(block: bytes, symbols: seq<byte>) returns (out: seq<byte>)
    requires |block| == LANES
    ensures out == symbols + Symbols(block)
  {
    var a := StoreLanes(block, 0);
    var b := StoreLanes(block, 1);
    var c := StoreLanes(block, 2);
    var d := StoreLanes(block, 3);
    out := symbols;
    for idx := 0 to LANES
      invariant out + Symbols(block[idx..]) == symbols + Symbols(block)
    {
      ghost var was, rest := out, Symbols(block[idx + 1..]);
      out := out + [a[idx]];
      out := out + [b[idx]];
      out := out + [c[idx]];
      out := out + [d[idx]];
      assert block[idx..][1..] == block[idx + 1..];
      assert out == was + Quad(block[idx]);
      assert out + rest == was + (Quad(block[idx]) + rest);
    }
  }

  /** Sixteen bytes at a time, then the scalar loop on what is left over. */
  method ExpandBytesToSymbolsAvx2(data: bytes, symbols: seq<byte>) returns (out: seq<byte>)
    ensures out == symbols + Symbols(data)
  {
    out := symbols;
    var i := 0;
    while i + LANES <= |data|
      invariant 0 <= i <= |data|
      invariant out == symbols + Symbols(data[..i])
    {
      out := EmitBlock(data[i..i + LANES], out);
      SymbolsAppend(data[..i], data[i..i + LANES]);
      Regroup(symbols, Symbols(data[..i]), Symbols(data[i..i + LANES]));
      assert data[..i] + data[i..i + LANES] == data[..i + LANES];
      i := i + LANES;
    }
    out := ExpandBytesToSymbolsScalar(data[i..], out);
    SymbolsAppend(data[..i], data[i..]);
    Regroup(symbols, Symbols(data[..i]), Symbols(data[i..]));
    assert data[..i] + data[i..] == data;
  }

  lemma PackedStep(symbols: seq<byte>, pos: nat)
    requires pos < |symbols|
    ensures var next := Min(pos + 3, |symbols|);
            var b := if pos + 1 < |symbols| then symbols[pos + 1] else 0;
            var c := if pos + 2 < |symbols| then symbols[pos + 2] else 0;
            Packed(symbols[pos..]) == [Codon(symbols[pos], b, c)] + Packed(symbols[next..])
  {
    var rest := symbols[pos..];
    if |rest| >= 3 {
      assert rest[3..] == symbols[pos + 3..];
    }
  }

  method SymbolsToCodons(symbols: seq<byte>) returns (codons: seq<Codon>)
    ensures codons == Packed(symbols)
  {
    codons := [];
    var pos := 0;
    while pos < |symbols|
      invariant 0 <= pos <= |symbols|
      invariant codons + Packed(symbols[pos..]) == Packed(symbols)
    {
      var next := Min(pos + 3, |symbols|);
      ghost var rest := Packed(symbols[next..]);
      var chunk := symbols[pos..next];
      var a := chunk[0];
      var b := if |chunk| > 1 then chunk[1] else 0;
      var c := if |chunk| > 2 then chunk[2] else 0;
      PackedStep(symbols, pos);
      Regroup(codons, [Codon(a, b, c)], rest);
      codons := codons + [Codon(a, b, c)];
      pos := next;
    }
  }

  const SIMD_ENCODE_THRESHOLD: nat := 64

  /** Whichever path runs, the encoding is the same. */
  method EncodeBytesToCodons(data: bytes, avx2: bool) returns (p: EncodedPayload)
    ensures p == Encoded(data)
    ensures Decoded(p) == Ok(data)
  {
    var symbols;
    if |data| >= SIMD_ENCODE_THRESHOLD && avx2 {
      symbols := ExpandBytesToSymbolsAvx2(data, []);
    } else {
      symbols := ExpandBytesToSymbolsScalar(data, []);
    }
    assert symbols == Symbols(data);
    var codons := SymbolsToCodons(symbols);
    RoundTrip(data);
    return EncodedPayload(codons, |data|);
  }

  lemma {:induction false} FirstInvalidAfter(good: seq<byte>, rest: seq<byte>)
    requires AllDigits(good)
    ensures FirstInvalid(good + rest) == FirstInvalid(rest)
  {
    if good == [] {
      assert good + rest == rest;
    } else {
      assert (good + rest)[1..] == good[1..] + rest;
      FirstInvalidAfter(good[1..], rest);
    }
  }

  /** The inner loop: the three values of one codon, up to one that is no digit. */
  method PushValues(values: seq<byte>, symbols: seq<byte>) returns (r: Result<seq<byte>, EncodingError>)
    requires |values| == 3
    ensures r == match FirstInvalid(values)
                 case Some(v) => Err(InvalidSymbol(v))
                 case None => Ok(symbols + values)
  {
    var out := symbols;
    for k := 0 to 3
      invariant FirstInvalid(values) == FirstInvalid(values[k..]) && out == symbols + values[..k]
    {
      if values[k] >= 4 {
        return Err(InvalidSymbol(values[k]));
      }
      assert values[k..][1..] == values[k + 1..];
      out := out + [values[k]];
    }
    assert values[3..] == [] && values[..3] == values;
    return Ok(out);
  }

  lemma {:induction false} FirstInvalidIn(bad: seq<byte>, rest: seq<byte>)
    requires FirstInvalid(bad).Some?
    ensures FirstInvalid(bad + rest) == FirstInvalid(bad)
  {
    assert (bad + rest)[1..] == bad[1..] + rest;
    if bad[0] < 4 {
      FirstInvalidIn(bad[1..], rest);
    }
  }

  lemma BadValues(good: seq<byte>, values: seq<byte>, rest: seq<byte>)
    requires AllDigits(good) && FirstInvalid(values).Some?
    ensures FirstInvalid(good + values + rest) == FirstInvalid(values)
  {
    Regroup(good, values, rest);
    FirstInvalidAfter(good, values + rest);
    FirstInvalidIn(values, rest);
  }

  lemma UnpackNext(codons: seq<Codon>, i: nat, symbols: seq<byte>)
    requires i < |codons|
    ensures symbols + Unpacked(codons[i..]) == symbols + codons[i].Values() + Unpacked(codons[i + 1..])
  {
    assert codons[i..][1..] == codons[i + 1..];
  }

  /** The loop that lays the symbols out and stops at one that is no digit. */
  method CollectSymbols(codons: seq<Codon>) returns (r: Result<seq<byte>, EncodingError>)
    ensures r == match FirstInvalid(Unpacked(codons))
                 case Some(v) => Err(InvalidSymbol(v))
                 case None => Ok(Unpacked(codons))
  {
    var symbols: seq<byte> := [];
    for i := 0 to |codons|
      invariant AllDigits(symbols) && Unpacked(codons) == symbols + Unpacked(codons[i..])
    {
      UnpackNext(codons, i, symbols);
      var values := codons[i].Values();
      var pushed := PushValues(values, symbols);
      if pushed.Err? {
        BadValues(symbols, values, Unpacked(codons[i + 1..]));
        return pushed;
      }
      symbols := pushed.value;
    }
    assert symbols + [] == symbols;
    return Ok(symbols);
  }

  method DecodeCodonsToBytes(p: EncodedPayload) returns (r: Result<bytes, EncodingError>)
    ensures r == Decoded(p)
  {
    var required := 4 * p.originalLen;
    var collected := CollectSymbols(p.codons);
    if collected.Err? {
      return Err(collected.error);
    }
    if |collected.value| < required {
      return Err(InsufficientSymbols);
    }
    var symbols := collected.value[..required];
    var data: bytes := [];
    for i := 0 to p.originalLen
      invariant data + Grouped(symbols[4 * i..]) == Grouped(symbols)
    {
      var group := symbols[4 * i..4 * i + 4];
      ghost var rest := symbols[4 * i..];
      assert rest[4..] == symbols[4 * (i + 1)..] && rest[..4] == group;
      JoinOfFront(rest);
      Regroup(data, [Join(group)], Grouped(rest[4..]));
      data := data + [Join(group)];
    }
    assert symbols[4 * p.originalLen..] == [] && data + [] == data;
    return Ok(data);
  }
}
