/** Small shared vocabulary: optional values and Rust's saturating `i64` arithmetic. */
module Prelude {
  datatype Option<+T> = None | Some(value: T) {
    function UnwrapOr(default: T): T {
      match this
      case Some(v) => v
      case None => default
    }
  }

  datatype Result<+T, +E> = Ok(value: T) | Err(error: E)

  const DAY_MS: int := 86_400_000

  const I64_MIN: int := -0x8000_0000_0000_0000
  const I64_MAX: int := 0x7FFF_FFFF_FFFF_FFFF

  /** Saturation to the range of `i64`. */
  function Clamp(n: int): int {
    if n < I64_MIN then I64_MIN else if n > I64_MAX then I64_MAX else n
  }

  function SatAdd(a: int, b: int): int { Clamp(a + b) }

  function SatSub(a: int, b: int): int { Clamp(a - b) }

  function SatMul(a: int, b: int): int { Clamp(a * b) }

  function Min(a: int, b: int): int { if a <= b then a else b }

  function Max(a: int, b: int): int { if a >= b then a else b }

  /** Saturation gives the `i64` nearest to a number. */
  lemma ClampIsNearest(n: int, other: int)
    requires -9_223_372_036_854_775_808 <= other <= 9_223_372_036_854_775_807
    ensures -9_223_372_036_854_775_808 <= Clamp(n) <= 9_223_372_036_854_775_807
    ensures if other <= n then other <= Clamp(n) <= n else n <= Clamp(n) <= other
  {
  }

  lemma MinAndMax(a: int, b: int)
    ensures Min(a, b) <= a <= Max(a, b) && Min(a, b) <= b <= Max(a, b)
    ensures (Min(a, b) == a && Max(a, b) == b) || (Min(a, b) == b && Max(a, b) == a)
  {
  }

  /** Some member of a nonempty set. */
  lemma Pick<T>(s: set<T>) returns (x: T)
    requires s != {}
    ensures x in s
  {
    x :| x in s;
  }

  lemma {:induction false} LeastExists(s: set<int>)
    requires s != {}
    ensures exists x :: x in s && forall y :: y in s ==> x <= y
  {
    var x := Pick(s);
    if s == {x} {
      assert x in s && forall y :: y in s ==> x <= y;
    } else {
      LeastExists(s - {x});
      var z :| z in s - {x} && forall y :: y in s - {x} ==> z <= y;
      var least := Min(x, z);
      assert forall y :: y in s ==> y == x || y in s - {x};
      assert least in s && forall y :: y in s ==> least <= y;
    }
  }

  function Least(s: set<int>): (least: int)
    requires s != {}
    ensures least in s && forall y :: y in s ==> least <= y
  {
    LeastExists(s);
    var x :| x in s && forall y :: y in s ==> x <= y;
    x
  }
}
