/** Failure-carrying datatypes and the fixed-width integer limits of the engine. */
module Wrappers {

  datatype Option<+T> = None | Some(value: T)

  datatype Result<+T, +E> = Ok(value: T) | Err(error: E)

  const U64_MAX: nat := 0xFFFF_FFFF_FFFF_FFFF

  type u64 = x: int | 0 <= x <= U64_MAX

  /** `x.saturating_add(1)` on a `u64`. */
  function SaturatingSucc(x: nat): nat {
    if x < U64_MAX then x + 1 else U64_MAX
  }

  function Min(a: int, b: int): int {
    if a < b then a else b
  }

  function Max(a: int, b: int): int {
    if a < b then b else a
  }

  function Take<T>(q: seq<T>, n: nat): seq<T> {
    if n <= |q| then q[..n] else q
  }

  /** `truncate` under an optional limit. */
  function AtMost<T>(q: seq<T>, limit: Option<nat>): seq<T> {
    if limit.Some? then Take(q, limit.value) else q
  }

  lemma Regroup<T>(a: seq<T>, b: seq<T>, c: seq<T>)
    ensures a + b + c == a + (b + c)
  {
  }
}
