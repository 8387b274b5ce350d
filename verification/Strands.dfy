/** Strands: how a logged payload is laid out, read back, prefiltered and verified. */
module Strands {
  import opened Wrappers
  import opened Bytes
  import opened Encoding
  import Like

  datatype Intron = Intron(fieldName: string, codonOffset: nat, codonLength: nat, valueHash: nat)

  datatype Strand = Strand(signature: bytes, collectionId: nat, codons: seq<Codon>, introns: seq<Intron>, version: nat)

  /**
   The functions the engine takes from elsewhere: the 64-bit FNV hash, the seeded Bloom hash, the
   numeric reading of a value, and lossy UTF-8 decoding.
   */
  datatype Env = Env(fnv: bytes -> nat, seeded: (bytes, nat) -> nat, numeric: bytes -> Option<u64>,
                     lossy: bytes -> string)

  // ----- Laying out a payload ---------------------------------------------------------------

  const U16_MAX: nat := 65535

  function StrandFromWalPayload(collectionId: nat, sequence: nat, raw: bytes, env: Env): Strand {
    var codons := Encoded(raw).codons;
    Strand(LittleEndian(sequence, 8), collectionId, codons,
           [Intron("_payload", 0, Min(|codons|, U16_MAX), env.fnv(raw))], sequence)
  }

  /** The bytes an intron spans; how many follows from its codon count. */
  function IntronPayloadBytes(s: Strand, i: Intron): Option<bytes> {
    var end := i.codonOffset + i.codonLength;
    if end > |s.codons| then None
    else
      match Decoded(EncodedPayload(s.codons[i.codonOffset..end], BytesIn(i.codonLength)))
      case Ok(data) => Some(data)
      case Err(_) => None
  }

  /** An intron over the codons of a value gives back that value, wherever in the strand they stand. */
  lemma SpanGivesBack(s: Strand, i: Intron, value: bytes, before: seq<Codon>, rest: seq<Codon>)
    requires s.codons == before + Encoded(value).codons + rest
    requires i.codonOffset == |before| && i.codonLength == |Encoded(value).codons|
    ensures IntronPayloadBytes(s, i) == Some(value)
  {
    var codons := Encoded(value).codons;
    assert s.codons[|before|..|before| + |codons|] == codons;
    LengthFromCodons(value);
    RoundTrip(value);
  }

  /** What a codon count of at most `u16::MAX` can span. */
  const RECOVERABLE: nat := 49151

  /** A logged payload comes back whole up to 49151 bytes, and cut to that length beyond. */
  lemma PayloadRecovered(collectionId: nat, sequence: nat, raw: bytes, env: Env)
    ensures var s := StrandFromWalPayload(collectionId, sequence, raw, env);
            IntronPayloadBytes(s, s.introns[0]) == Some(raw[..Min(|raw|, RECOVERABLE)])
  {
    var codons := Encoded(raw).codons;
    var k := Min(|codons|, U16_MAX);
    DecodePrefix(raw, k);
    LengthFromCodons(raw);
    assert codons[0..k] == codons[..k];
    assert BytesIn(U16_MAX) == RECOVERABLE;
    assert k < |codons| ==> |raw| > RECOVERABLE;
  }

  lemma PayloadWholeIff(collectionId: nat, sequence: nat, raw: bytes, env: Env)
    ensures var s := StrandFromWalPayload(collectionId, sequence, raw, env);
            IntronPayloadBytes(s, s.introns[0]) == Some(raw) <==> |raw| <= RECOVERABLE
  {
    PayloadRecovered(collectionId, sequence, raw, env);
    assert raw[..|raw|] == raw;
  }

  // ----- Clauses ----------------------------------------------------------------------------

  datatype RangeOp = GreaterThan | GreaterOrEqual | LessThan | LessOrEqual | NotEqual

  datatype Clause =
    | ExactMatch(field: string, wire: bytes, operandCodons: seq<Codon>)
    | RangeMatch(field: string, op: RangeOp, wire: bytes)
    | LikePattern(field: string, pattern: string)

  const SIGNATURE := "_signature"
  const PAYLOAD := "_payload"

  predicate RangeEval(value: bytes, op: RangeOp, wire: bytes) {
    match op
    case GreaterThan => LexLess(wire, value)
    case GreaterOrEqual => !LexLess(value, wire)
    case LessThan => LexLess(value, wire)
    case LessOrEqual => !LexLess(wire, value)
    case NotEqual => value != wire
  }

  /** The two differ, and at the first difference the value has the greater byte, or more of them. */
  ghost predicate Above(value: bytes, wire: bytes) {
    exists k :: 0 <= k <= |wire| && StepsDown(wire, value, k)
  }

  /** What the range operators mean. */
  lemma RangeMeans(value: bytes, wire: bytes)
    ensures RangeEval(value, GreaterThan, wire) <==> Above(value, wire)
    ensures RangeEval(value, LessThan, wire) <==> Above(wire, value)
    ensures RangeEval(value, GreaterOrEqual, wire) <==> Above(value, wire) || value == wire
    ensures RangeEval(value, LessOrEqual, wire) <==> Above(wire, value) || value == wire
    ensures RangeEval(value, NotEqual, wire) <==> Above(value, wire) || Above(wire, value)
    ensures !(Above(value, wire) && Above(wire, value))
  {
    LexLessIff(wire, value);
    LexLessIff(value, wire);
    LexTotal(value, wire);
    if LexLess(value, wire) {
      LexAsymmetric(value, wire);
    }
    if value == wire && LexLess(value, value) {
      LexAsymmetric(value, value);
    }
  }

  /** What a clause asks of one value. */
  predicate ValueMatches(value: bytes, c: Clause, env: Env) {
    match c
    case ExactMatch(_, wire, _) => value == wire
    case RangeMatch(_, op, wire) => RangeEval(value, op, wire)
    case LikePattern(_, pattern) => Like.Means(env.lossy(value), pattern)
  }

  /** What a clause asks of a value; a pattern of a literal and `%` asks that the value's text start with it. */
  lemma ClauseMeans(value: bytes, field: string, wire: bytes, codons: seq<Codon>, prefix: string, env: Env)
    requires Like.Literal(prefix)
    ensures ValueMatches(value, ExactMatch(field, wire, codons), env) <==> value == wire
    ensures ValueMatches(value, LikePattern(field, prefix + "%"), env) <==> prefix <= env.lossy(value)
  {
    Like.LiteralPercent(env.lossy(value), prefix);
  }

  predicate SpansField(i: Intron, field: string) {
    i.fieldName == field
  }

  function RequiredFields(clauses: seq<Clause>): set<string> {
    set k | 0 <= k < |clauses| && clauses[k].field != SIGNATURE :: clauses[k].field
  }

  /** Values of the required fields, decoded in intron order. */
  function DecodeFields(s: Strand, introns: seq<Intron>, required: set<string>): map<string, seq<bytes>> {
    if introns == [] then map[]
    else
      var before := DecodeFields(s, introns[..|introns| - 1], required);
      var i := introns[|introns| - 1];
      var value := IntronPayloadBytes(s, i);
      if i.fieldName !in required || value.None? then before
      else before[i.fieldName := (if i.fieldName in before then before[i.fieldName] else []) + [value.value]]
  }

  predicate ExactSlice(s: Strand, i: Intron, wire: bytes, operandCodons: seq<Codon>) {
    if i.fieldName == PAYLOAD then IntronPayloadBytes(s, i) == Some(wire)
    else
      var end := i.codonOffset + i.codonLength;
      end <= |s.codons| && s.codons[i.codonOffset..end] == operandCodons
  }

  predicate SpanMatches(s: Strand, i: Intron, c: Clause, env: Env) {
    var v := IntronPayloadBytes(s, i);
    v.Some? && ValueMatches(v.value, c, env)
  }

  /** One clause against one strand, on decoded values when the query decoded any. */
  predicate ClauseMatchesStrand(s: Strand, c: Clause, decoded: Option<map<string, seq<bytes>>>, env: Env) {
    if c.ExactMatch? && c.field == SIGNATURE then s.signature == c.wire
    else if decoded.Some? then
      c.field in decoded.value && exists v :: v in decoded.value[c.field] && ValueMatches(v, c, env)
    else if c.ExactMatch? then
      exists k | 0 <= k < |s.introns| ::
        SpansField(s.introns[k], c.field) && ExactSlice(s, s.introns[k], c.wire, c.operandCodons)
    else
      exists k | 0 <= k < |s.introns| :: SpansField(s.introns[k], c.field) && SpanMatches(s, s.introns[k], c, env)
  }

  predicate Verifies(s: Strand, clauses: seq<Clause>, env: Env) {
    var required := RequiredFields(clauses);
    var decoded := if required == {} then None else Some(DecodeFields(s, s.introns, required));
    forall k | 0 <= k < |clauses| :: ClauseMatchesStrand(s, clauses[k], decoded, env)
  }

  /** The decoding loop. */
  method DecodeRequiredFieldValues(s: Strand, required: set<string>) returns (out: map<string, seq<bytes>>)
    ensures out == DecodeFields(s, s.introns, required)
  {
    out := map[];
    for i := 0 to |s.introns|
      invariant out == DecodeFields(s, s.introns[..i], required)
    {
      var intron := s.introns[i];
      assert s.introns[..i + 1][..i] == s.introns[..i];
      if intron.fieldName !in required {
        continue;
      }
      var v := IntronPayloadBytes(s, intron);
      if v.Some? {
        out := out[intron.fieldName := (if intron.fieldName in out then out[intron.fieldName] else []) + [v.value]];
      }
    }
    assert s.introns[..|s.introns|] == s.introns;
  }

  predicate SpansValue(s: Strand, i: Intron, field: string, value: bytes) {
    SpansField(i, field) && IntronPayloadBytes(s, i) == Some(value)
  }

  /** Some intron of the field spans the value. */
  ghost predicate Carries(s: Strand, introns: seq<Intron>, field: string, value: bytes) {
    exists k :: 0 <= k < |introns| && SpansValue(s, introns[k], field, value)
  }

  lemma CarriesSnoc(s: Strand, introns: seq<Intron>, field: string, value: bytes)
    requires introns != []
    ensures Carries(s, introns, field, value) <==>
              || Carries(s, introns[..|introns| - 1], field, value)
              || SpansValue(s, introns[|introns| - 1], field, value)
  {
    var front, last := introns[..|introns| - 1], introns[|introns| - 1];
    SomeSnoc(introns, front, last, i => SpansValue(s, i, field, value));
  }

  lemma SomeSnoc<T>(q: seq<T>, front: seq<T>, last: T, p: T -> bool)
    requires q == front + [last]
    ensures (exists k :: 0 <= k < |q| && p(q[k])) <==> (exists k :: 0 <= k < |front| && p(front[k])) || p(last)
  {
    if k :| 0 <= k < |front| && p(front[k]) {
      assert p(q[k]);
    }
    assert q[|front|] == last;
  }

  lemma {:induction false} DecodeFieldsHolds(s: Strand, introns: seq<Intron>, required: set<string>, field: string,
                                             value: bytes)
    ensures var m := DecodeFields(s, introns, required);
            field in m && value in m[field] <==> field in required && Carries(s, introns, field, value)
  {
    if introns == [] {
    } else {
      DecodeFieldsHolds(s, introns[..|introns| - 1], required, field, value);
      CarriesSnoc(s, introns, field, value);
    }
  }

  /** An accepted clause rests on a value of its field, except an exact one on the signature. */
  lemma AcceptedCarries(s: Strand, clauses: seq<Clause>, k: nat, env: Env)
    requires Verifies(s, clauses, env) && k < |clauses|
    requires !(clauses[k].ExactMatch? && clauses[k].field == SIGNATURE)
    ensures exists v :: Carries(s, s.introns, clauses[k].field, v) && ValueMatches(v, clauses[k], env)
  {
    var c, required := clauses[k], RequiredFields(clauses);
    assert ClauseMatchesStrand(s, c, if required == {} then None else Some(DecodeFields(s, s.introns, required)), env);
    if required == {} {
      assert c.field !in required;
      var j :| 0 <= j < |s.introns| && SpansField(s.introns[j], c.field) && SpanMatches(s, s.introns[j], c, env);
      assert SpansValue(s, s.introns[j], c.field, IntronPayloadBytes(s, s.introns[j]).value);
    } else {
      var m := DecodeFields(s, s.introns, required);
      var v :| v in m[c.field] && ValueMatches(v, c, env);
      DecodeFieldsHolds(s, s.introns, required, c.field, v);
    }
  }

  /**
   The clause holds of the strand: of its signature, or of some value of its field. (On the signature
   field, one that is no exact match looks for values only where all clauses are on that field.)
   */
  ghost predicate Stands(s: Strand, clauses: seq<Clause>, c: Clause, env: Env) {
    if c.ExactMatch? && c.field == SIGNATURE then s.signature == c.wire
    else
      && (c.field == SIGNATURE ==> forall d :: d in clauses ==> d.field == SIGNATURE)
      && exists v :: Carries(s, s.introns, c.field, v) && ValueMatches(v, c, env)
  }

  /** Verification accepts a strand iff every clause holds of it. */
  lemma VerifiesIff(s: Strand, clauses: seq<Clause>, env: Env)
    ensures Verifies(s, clauses, env) <==> forall k :: 0 <= k < |clauses| ==> Stands(s, clauses, clauses[k], env)
  {
    var required := RequiredFields(clauses);
    var decoded := if required == {} then None else Some(DecodeFields(s, s.introns, required));
    forall k | 0 <= k < |clauses|
      ensures ClauseMatchesStrand(s, clauses[k], decoded, env) <==> Stands(s, clauses, clauses[k], env)
    {
      if !(clauses[k].ExactMatch? && clauses[k].field == SIGNATURE) {
        if required == {} {
          assert forall j :: 0 <= j < |clauses| && clauses[j].field != SIGNATURE ==> clauses[j].field in required;
          assert forall d :: d in clauses ==> d.field == SIGNATURE;
          ByIntrons(s, clauses[k], env);
        } else {
          ByDecoded(s, clauses, k, env);
        }
      }
    }
  }

  lemma ByIntrons(s: Strand, c: Clause, env: Env)
    requires !c.ExactMatch?
    ensures ClauseMatchesStrand(s, c, None, env)
            <==> exists v :: Carries(s, s.introns, c.field, v) && ValueMatches(v, c, env)
  {
    if j :| 0 <= j < |s.introns| && SpansField(s.introns[j], c.field) && SpanMatches(s, s.introns[j], c, env) {
      assert SpansValue(s, s.introns[j], c.field, IntronPayloadBytes(s, s.introns[j]).value);
    }
    if v :| Carries(s, s.introns, c.field, v) && ValueMatches(v, c, env) {
      var j :| 0 <= j < |s.introns| && SpansValue(s, s.introns[j], c.field, v);
      assert SpansField(s.introns[j], c.field) && SpanMatches(s, s.introns[j], c, env);
    }
  }

  lemma ByDecoded(s: Strand, clauses: seq<Clause>, k: nat, env: Env)
    requires k < |clauses| && RequiredFields(clauses) != {}
    requires !(clauses[k].ExactMatch? && clauses[k].field == SIGNATURE)
    ensures ClauseMatchesStrand(s, clauses[k], Some(DecodeFields(s, s.introns, RequiredFields(clauses))), env)
            <==> Stands(s, clauses, clauses[k], env)
  {
    var c, required := clauses[k], RequiredFields(clauses);
    forall v ensures var m := DecodeFields(s, s.introns, required);
                     c.field in m && v in m[c.field] <==> c.field in required && Carries(s, s.introns, c.field, v)
    {
      DecodeFieldsHolds(s, s.introns, required, c.field, v);
    }
    assert exists j :: 0 <= j < |clauses| && clauses[j].field != SIGNATURE && clauses[j] in clauses;
    assert c.field in required <==> c.field != SIGNATURE;
  }

  // ----- The hash prefilter -----------------------------------------------------------------

  predicate ClauseFastMatch(c: Clause, introns: seq<Intron>, env: Env) {
    exists k | 0 <= k < |introns| ::
      SpansField(introns[k], c.field) && (c.ExactMatch? ==> introns[k].valueHash == env.fnv(c.wire))
  }

  predicate GuideFastMatch(clauses: seq<Clause>, introns: seq<Intron>, env: Env) {
    forall k | 0 <= k < |clauses| :: ClauseFastMatch(clauses[k], introns, env)
  }

  /** The stored hash of every intron is that of the bytes it gives back. */
  ghost predicate WellHashed(s: Strand, env: Env) {
    forall k :: 0 <= k < |s.introns| && IntronPayloadBytes(s, s.introns[k]).Some? ==>
      s.introns[k].valueHash == env.fnv(IntronPayloadBytes(s, s.introns[k]).value)
  }

  /** No clause compares the signature. */
  predicate OnValues(clauses: seq<Clause>) {
    forall k | 0 <= k < |clauses| :: !(clauses[k].ExactMatch? && clauses[k].field == SIGNATURE)
  }

  /** The prefilter never drops a strand that verification accepts. */
  lemma PrefilterIsSound(s: Strand, clauses: seq<Clause>, env: Env)
    requires WellHashed(s, env) && OnValues(clauses) && Verifies(s, clauses, env)
    ensures GuideFastMatch(clauses, s.introns, env)
  {
    forall k | 0 <= k < |clauses| ensures ClauseFastMatch(clauses[k], s.introns, env) {
      AcceptedCarries(s, clauses, k, env);
      var v :| Carries(s, s.introns, clauses[k].field, v) && ValueMatches(v, clauses[k], env);
      var j :| 0 <= j < |s.introns| && SpansValue(s, s.introns[j], clauses[k].field, v);
    }
  }

  /** A logged strand is well hashed iff the hash of its payload is that of what comes back. */
  lemma WalStrandWellHashedIff(collectionId: nat, sequence: nat, raw: bytes, env: Env)
    ensures WellHashed(StrandFromWalPayload(collectionId, sequence, raw, env), env)
            <==> |raw| <= RECOVERABLE || env.fnv(raw) == env.fnv(raw[..RECOVERABLE])
  {
    PayloadRecovered(collectionId, sequence, raw, env);
    assert raw[..|raw|] == raw;
  }

  /** A clause on the signature accepts its strand in verification, and never in the prefilter. */
  lemma SignatureIsPrefilteredAway(collectionId: nat, sequence: nat, raw: bytes, env: Env)
    ensures var s := StrandFromWalPayload(collectionId, sequence, raw, env);
            var clauses := [ExactMatch(SIGNATURE, s.signature, Encoded(s.signature).codons)];
            Verifies(s, clauses, env) && !GuideFastMatch(clauses, s.introns, env)
  {
    var s := StrandFromWalPayload(collectionId, sequence, raw, env);
    var clauses := [ExactMatch(SIGNATURE, s.signature, Encoded(s.signature).codons)];
    assert !ClauseFastMatch(clauses[0], s.introns, env);
  }

  // ----- Which logged strands are found ------------------------------------------------------

  /** What comes back of a payload. */
  function Recovered(raw: bytes): bytes {
    raw[..Min(|raw|, RECOVERABLE)]
  }

  /** A logged strand verifies against one clause on its payload iff what comes back matches. */
  lemma PayloadVerifiesIff(collectionId: nat, sequence: nat, raw: bytes, c: Clause, env: Env)
    requires c.field == PAYLOAD
    ensures Verifies(StrandFromWalPayload(collectionId, sequence, raw, env), [c], env)
       <==> ValueMatches(Recovered(raw), c, env)
  {
    var s := StrandFromWalPayload(collectionId, sequence, raw, env);
    PayloadRecovered(collectionId, sequence, raw, env);
    OneValueVerifiesIff(s, Recovered(raw), c, env);
  }

  lemma OneValueVerifiesIff(s: Strand, value: bytes, c: Clause, env: Env)
    requires |s.introns| == 1 && s.introns[0].fieldName == PAYLOAD == c.field
    requires IntronPayloadBytes(s, s.introns[0]) == Some(value)
    ensures Verifies(s, [c], env) <==> ValueMatches(value, c, env)
  {
    assert c.field in RequiredFields([c]) by {
      assert [c][0].field == PAYLOAD;
    }
    var decoded := DecodeFields(s, s.introns, RequiredFields([c]));
    assert SpansField(s.introns[0], PAYLOAD);
    forall v ensures PAYLOAD in decoded && v in decoded[PAYLOAD] <==> v == value {
      DecodeFieldsHolds(s, s.introns, RequiredFields([c]), PAYLOAD, v);
    }
    assert Verifies(s, [c], env) <==> ClauseMatchesStrand(s, [c][0], Some(decoded), env);
  }

  /**
   A logged payload is found by its own bytes, through the prefilter and verification, iff it is no
   longer than what comes back of it.
   */
  lemma FoundByItsBytesIff(collectionId: nat, sequence: nat, raw: bytes, operandCodons: seq<Codon>, env: Env)
    ensures var s := StrandFromWalPayload(collectionId, sequence, raw, env);
            var clauses := [ExactMatch(PAYLOAD, raw, operandCodons)];
            GuideFastMatch(clauses, s.introns, env) && Verifies(s, clauses, env) <==> |raw| <= RECOVERABLE
  {
    var c := ExactMatch(PAYLOAD, raw, operandCodons);
    var introns := StrandFromWalPayload(collectionId, sequence, raw, env).introns;
    PayloadVerifiesIff(collectionId, sequence, raw, c, env);
    assert SpansField(introns[0], PAYLOAD) && introns[0].valueHash == env.fnv(raw);
    assert ClauseFastMatch([c][0], introns, env);
    assert |raw| <= RECOVERABLE ==> Recovered(raw) == raw;
  }

  /** Of the accepted logged strands that come back whole, the prefilter keeps those asked for by value alone. */
  lemma PrefilterKeepsIff(collectionId: nat, sequence: nat, raw: bytes, clauses: seq<Clause>, env: Env)
    requires |raw| <= RECOVERABLE && Verifies(StrandFromWalPayload(collectionId, sequence, raw, env), clauses, env)
    ensures GuideFastMatch(clauses, StrandFromWalPayload(collectionId, sequence, raw, env).introns, env)
       <==> OnValues(clauses)
  {
    var s := StrandFromWalPayload(collectionId, sequence, raw, env);
    if OnValues(clauses) {
      WalStrandWellHashedIff(collectionId, sequence, raw, env);
      PrefilterIsSound(s, clauses, env);
    } else {
      var k :| 0 <= k < |clauses| && clauses[k].ExactMatch? && clauses[k].field == SIGNATURE;
      assert !ClauseFastMatch(clauses[k], s.introns, env);
    }
  }

  /**
   The prefilter keeps a logged strand iff every clause is on its payload, and every exact one on a value
   of the payload's hash.
   */
  lemma PrefiltersIff(collectionId: nat, sequence: nat, raw: bytes, clauses: seq<Clause>, env: Env)
    ensures GuideFastMatch(clauses, StrandFromWalPayload(collectionId, sequence, raw, env).introns, env)
       <==> forall c :: c in clauses ==> c.field == PAYLOAD && (c.ExactMatch? ==> env.fnv(c.wire) == env.fnv(raw))
  {
    var introns := StrandFromWalPayload(collectionId, sequence, raw, env).introns;
    forall k | 0 <= k < |clauses|
      ensures ClauseFastMatch(clauses[k], introns, env)
         <==> clauses[k].field == PAYLOAD && (clauses[k].ExactMatch? ==> env.fnv(clauses[k].wire) == env.fnv(raw))
    {
      assert SpansField(introns[0], clauses[k].field) <==> clauses[k].field == PAYLOAD;
    }
  }
}
