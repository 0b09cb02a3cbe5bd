/** Optional values and results, as Rust's `Option` and `Result`. */
module Wrappers {

  datatype Option<+T> = None | Some(value: T) {

    /** The value, or `default` when there is none (Rust's `unwrap_or`). */
    function GetOr(default: T): T {
      if Some? then value else default
    }
  }

  datatype Result<+T, +E> = Ok(value: T) | Err(error: E)

  function Max(a: int, b: int): int {
    if a >= b then a else b
  }

  /** Concatenation is associative; stated once so that proofs need not rediscover it element by element. */
  lemma AppendAssoc<T>(a: seq<T>, b: seq<T>, c: seq<T>)
    ensures (a + b) + c == a + (b + c)
  {
  }
}

/** Facts about products of reals that the solver does not find unaided. */
module RealArith {

  lemma MulNonneg(x: real, y: real)
    requires x >= 0.0 && y >= 0.0
    ensures x * y >= 0.0
  {
  }

  /** Multiplying by a non-negative factor keeps an inequality. */
  lemma MulMono(a: real, b: real, c: real)
    requires a <= b && c >= 0.0
    ensures a * c <= b * c
  {
    MulNonneg(b - a, c);
  }

  /** The same, with the factor on the left. */
  lemma ScaleMono(c: real, a: real, b: real)
    requires a <= b && c >= 0.0
    ensures c * a <= c * b
  {
    MulNonneg(c, b - a);
  }

  /** A coordinate `base + c * t` never decreases as `t` grows, for a non-negative length `c`. */
  lemma OffsetMono(base: real, c: real, a: real, b: real)
    requires a <= b && c >= 0.0
    ensures base + c * a <= base + c * b
  {
    ScaleMono(c, a, b);
  }

  /** Multiplication distributes over a sum. */
  lemma MulAdd(c: real, a: real, b: real, s: real)
    requires s == a + b
    ensures c * a + c * b == c * s
  {
  }

  /** A fraction in [0, 1] of `x` lies between 0 and `x`. */
  lemma ScaleBetween(x: real, t: real)
    requires 0.0 <= t <= 1.0
    ensures x >= 0.0 ==> 0.0 <= x * t <= x
    ensures x <= 0.0 ==> x <= x * t <= 0.0
  {
    if x >= 0.0 {
      MulNonneg(x, t);
      MulMono(t, 1.0, x);
    } else {
      MulNonneg(-x, t);
      MulMono(t, 1.0, -x);
    }
  }
}
