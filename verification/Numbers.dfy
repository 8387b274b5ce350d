/** Comparison of a stored number with a literal, which the engine does in `f64`: where it agrees with the integers. */
module Numbers {
  import opened Wrappers
  import opened Json
  import opened Query

  /** An `f64`, by the number it stands for. */
  datatype F64 = NaN | Below | Finite(r: real) | Above

  /** The conversions: an integer to the float nearest to it, and a float from its bits. */
  datatype Floats = Floats(ofInt: int -> F64, ofBits: nat -> F64)

  predicate FloatLess(a: F64, b: F64) {
    match (a, b)
    case (Finite(x), Finite(y)) => x < y
    case (Below, Finite(_)) => true
    case (Below, Above) => true
    case (Finite(_), Above) => true
    case _ => false
  }

  /** `cmp_ord`: nothing but "differs" holds of a `NaN`. */
  predicate Compared(left: F64, op: WhereOp, right: F64) {
    match op
    case Eq => left == right && !left.NaN?
    case Ne => left != right || left.NaN?
    case Gt => FloatLess(right, left)
    case Gte => FloatLess(right, left) || (left == right && !left.NaN?)
    case Lt => FloatLess(left, right)
    case Lte => FloatLess(left, right) || (left == right && !left.NaN?)
    case LikeOp => false
  }

  function AsU64(n: Num): Option<int> {
    if n.PosInt? then Some(n.u) else None
  }

  function AsI64(n: Num): Option<int> {
    match n
    case PosInt(u) => if u <= I64_MAX then Some(u) else None
    case NegInt(i) => Some(i)
    case Float(_) => None
  }

  function AsF64(n: Num, floats: Floats): F64 {
    match n
    case PosInt(u) => floats.ofInt(u)
    case NegInt(i) => floats.ofInt(i)
    case Float(bits) => floats.ofBits(bits)
  }

  predicate NumberMatches(n: Num, op: WhereOp, lit: Literal, floats: Floats) {
    match lit
    case U64(q) => AsU64(n).Some? && Compared(floats.ofInt(AsU64(n).value), op, floats.ofInt(q))
    case I64(q) => AsI64(n).Some? && Compared(floats.ofInt(AsI64(n).value), op, floats.ofInt(q))
    case F64(bits) => Compared(AsF64(n, floats), op, floats.ofBits(bits))
    case _ => false
  }

  /** The engine's number test. */
  function EngineTest(floats: Floats): NumberTest {
    (n: Num, op: WhereOp, lit: Literal) => NumberMatches(n, op, lit, floats)
  }

  /** Conversion keeps the order, at least weakly, and gives a number. */
  ghost predicate Rounds(floats: Floats) {
    && (forall n :: floats.ofInt(n).Finite?)
    && (forall m, n :: m <= n ==> floats.ofInt(m).r <= floats.ofInt(n).r)
  }

  predicate IntegersCompare(m: int, op: WhereOp, q: int) {
    match op
    case Eq => m == q
    case Ne => m != q
    case Gt => m > q
    case Gte => m >= q
    case Lt => m < q
    case Lte => m <= q
    case LikeOp => false
  }

  /** Which integers a literal is compared with: a `u64` with none below zero, an `i64` with none past its range. */
  predicate Comparable(m: int, lit: Literal) {
    (lit.U64? && m >= 0) || (lit.I64? && m <= I64_MAX)
  }

  function LiteralInteger(lit: Literal): int
    requires lit.U64? || lit.I64?
  {
    if lit.U64? then lit.u else lit.i
  }

  /** An integer that the literal is not compared with satisfies no operator, not even "differs". */
  lemma OutOfKindNeverMatches(floats: Floats, n: Num, m: int, op: WhereOp, lit: Literal)
    requires HoldsInteger(Number(n), m) && (lit.U64? || lit.I64?) && !Comparable(m, lit)
    ensures !EngineTest(floats)(n, op, lit)
  {
  }

  /**
   A stored integer and an integer literal are compared as integers, by every operator, iff they are
   equal or do not round to the same float.
   */
  lemma ComparisonExactIff(floats: Floats, n: Num, m: int, lit: Literal)
    requires Rounds(floats) && HoldsInteger(Number(n), m) && (lit.U64? || lit.I64?) && Comparable(m, lit)
    ensures (forall op :: EngineTest(floats)(n, op, lit) <==> IntegersCompare(m, op, LiteralInteger(lit)))
            <==> m == LiteralInteger(lit) || floats.ofInt(m) != floats.ofInt(LiteralInteger(lit))
  {
    var q := LiteralInteger(lit);
    forall op ensures EngineTest(floats)(n, op, lit) <==> Compared(floats.ofInt(m), op, floats.ofInt(q)) {
    }
    if m == q || floats.ofInt(m) != floats.ofInt(q) {
      forall op ensures Compared(floats.ofInt(m), op, floats.ofInt(q)) <==> IntegersCompare(m, op, q) {
        assert if m <= q then floats.ofInt(m).r <= floats.ofInt(q).r else floats.ofInt(q).r <= floats.ofInt(m).r;
      }
    } else {
      assert EngineTest(floats)(n, Eq, lit) && !IntegersCompare(m, Eq, q);
    }
  }

  /** A float that is no number satisfies "differs" with every number, and nothing else. */
  lemma NaNMatches(floats: Floats, n: Num, op: WhereOp, bits: nat)
    requires floats.ofBits(bits).NaN?
    ensures EngineTest(floats)(n, op, F64(bits)) <==> op == Ne
  {
  }

  /**
   Which records one comparison with an integer selects, where that is exact: those whose field holds an
   integer of the literal's kind that compares so.
   */
  lemma IntegerClauseSelects(view: map<nat, Record>, ast: Ast, floats: Floats, id: nat, m: int)
    requires Rounds(floats) && |ast.wheres| == 1 && (ast.wheres[0].value.U64? || ast.wheres[0].value.I64?)
    requires id in view && ast.wheres[0].field in view[id] && HoldsInteger(view[id][ast.wheres[0].field], m)
    requires var q := LiteralInteger(ast.wheres[0].value); m == q || floats.ofInt(m) != floats.ofInt(q)
    ensures id in MatchingIds(view, ast, EngineTest(floats))
            <==> Comparable(m, ast.wheres[0].value)
                 && IntegersCompare(m, ast.wheres[0].op, LiteralInteger(ast.wheres[0].value))
  {
    var w, num := ast.wheres[0], EngineTest(floats);
    var v := view[id][w.field];
    assert MatchesRecord(view[id], ast.wheres, num) <==> LiteralMatches(v, w.op, w.value, num);
    if Comparable(m, w.value) {
      ComparisonExactIff(floats, v.n, m, w.value);
    } else {
      OutOfKindNeverMatches(floats, v.n, m, w.op, w.value);
    }
  }
}
