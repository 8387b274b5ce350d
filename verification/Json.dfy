/** The JSON documents the engine stores (`serde_json::Value`). */
module Json {
  import opened Wrappers

  const I64_MAX: nat := 0x7FFF_FFFF_FFFF_FFFF

  const I64_MIN: int := -0x8000_0000_0000_0000

  type negative = i: int | I64_MIN <= i < 0 witness -1

  /** `serde_json::Number`: a `u64`, a negative `i64`, or an `f64` known only by its bits. */
  datatype Num =
    | PosInt(u: nat)
    | NegInt(i: negative)
    | Float(bits: nat)

  datatype Value =
    | Null
    | Bool(b: bool)
    | Number(n: Num)
    | String(s: string)
    | Array(items: seq<Value>)
    | Object(members: map<string, Value>)

  type Record = map<string, Value>

  /** The key under which a value is sorted: an integer that fits an `i64`, and nothing else. */
  function SortKey(v: Value): Option<int> {
    match v
    case Number(PosInt(u)) => if u <= I64_MAX then Some(u) else None
    case Number(NegInt(i)) => Some(i)
    case _ => None
  }

  /** `record.get(field).and_then(value_to_sort_key)`. */
  function FieldSortKey(r: Record, field: string): Option<int> {
    if field in r then SortKey(r[field]) else None
  }

  /** The value is this integer. */
  predicate HoldsInteger(v: Value, n: int) {
    v.Number? && ((v.n.PosInt? && v.n.u == n) || (v.n.NegInt? && v.n.i == n))
  }

  /** A value is sorted under the integer it holds, if that is in the range of an `i64`, and under nothing else. */
  lemma SortKeyIff(v: Value, n: int)
    ensures SortKey(v) == Some(n) <==> HoldsInteger(v, n) && I64_MIN <= n <= I64_MAX
  {
  }
}
