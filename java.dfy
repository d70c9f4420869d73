/** Java-level vocabulary shared by the whole model: 32-bit `int` with its
    wrap-around, the nullable value that plays "empty", and exceptions as an
    error result. */
module Java {

  const MIN_INT: int := -0x8000_0000
  const MAX_INT: int := 0x7fff_ffff

  /** A Java `int`. */
  newtype int32 = x: int | -0x8000_0000 <= x < 0x8000_0000

  /** True when `x` fits in a Java `int`. */
  predicate IsInt(x: int) {
    MIN_INT <= x <= MAX_INT
  }

  /** Two's-complement truncation of a mathematical integer to a Java `int`,
      which is what `+`, `-` and `*` on `int` do. */
  function Wrap(x: int): (r: int32)
    ensures IsInt(x) ==> r as int == x
  {
    ((x + 0x8000_0000) % 0x1_0000_0000 - 0x8000_0000) as int32
  }

  /** Wrapping changes a value by a multiple of 2^32. */
  lemma WrapCongruent(x: int)
    ensures (Wrap(x) as int - x) % 0x1_0000_0000 == 0
  {
    var a := x + 0x8000_0000;
    assert Wrap(x) as int - x == a % 0x1_0000_0000 - a;
    assert (a % 0x1_0000_0000 - a) == -(a / 0x1_0000_0000) * 0x1_0000_0000;
  }

  lemma ModShift(a: int, q: int)
    ensures (a + q * 0x1_0000_0000) % 0x1_0000_0000 == a % 0x1_0000_0000
  {
  }

  /** Wrapping an intermediate result changes nothing once the final result
      is wrapped: `int` arithmetic is arithmetic modulo 2^32. */
  lemma WrapShift(x: int, y: int)
    ensures Wrap(Wrap(x) as int + y) == Wrap(x + y)
  {
    var a := x + 0x8000_0000;
    var q := a / 0x1_0000_0000;
    assert a == q * 0x1_0000_0000 + a % 0x1_0000_0000;
    ModShift(a % 0x1_0000_0000 + y, q);
  }

  /** `Math.abs` on an `int`: the negation wraps, so `Math.abs(MIN_VALUE)`
      is `MIN_VALUE`. */
  function Abs32(x: int32): (r: int32)
    ensures x as int != MIN_INT ==> r as int == if x < 0 then -x as int else x as int
    ensures x as int == MIN_INT ==> r as int == MIN_INT
  {
    if x < 0 then Wrap(-(x as int)) else x
  }

  /** Java's `/` on `int`: the quotient rounded toward zero. */
  function JavaDiv(a: int, b: int): (q: int)
    requires b != 0
    ensures 0 <= a && 0 < b ==> q == a / b
    ensures 0 <= a && b < 0 ==> q == -(a / -b)
  {
    var n := (if a < 0 then -a else a) / (if b < 0 then -b else b);
    if (a < 0) == (b < 0) then n else -n
  }

  /** Java's `%` on `int`: the remainder takes the sign of the dividend. */
  function JavaRem(a: int, b: int): (r: int)
    requires b != 0
    ensures 0 <= a ==> r == a % (if b < 0 then -b else b)
  {
    var m := (if a < 0 then -a else a) % (if b < 0 then -b else b);
    if a < 0 then -m else m
  }

  /** Java's quotient and remainder put the dividend back together, and the
      remainder is smaller than the divisor and never of the other sign. */
  lemma JavaDivRem(a: int, b: int)
    requires b != 0
    ensures b * JavaDiv(a, b) + JavaRem(a, b) == a
    ensures (if b < 0 then b < JavaRem(a, b) < -b else -b < JavaRem(a, b) < b)
    ensures a >= 0 ==> JavaRem(a, b) >= 0
    ensures a < 0 ==> JavaRem(a, b) <= 0
  {
    var ua, ub := if a < 0 then -a else a, if b < 0 then -b else b;
    assert ua == ub * (ua / ub) + ua % ub;
    if a < 0 && b < 0 {
      assert b * (ua / ub) == -(ub * (ua / ub));
    } else if a < 0 {
      assert b * -(ua / ub) == -(ub * (ua / ub));
    } else if b < 0 {
      assert b * -(ua / ub) == ub * (ua / ub);
    }
  }

  /** `Math.min` and `Math.max`. */
  function Min(a: int, b: int): (r: int)
    ensures r <= a && r <= b && (r == a || r == b)
  {
    if a <= b then a else b
  }

  function Max(a: int, b: int): (r: int)
    ensures a <= r && b <= r && (r == a || r == b)
  {
    if a >= b then a else b
  }

  /** A Java reference that may be `null`; `None` is `null`. */
  datatype Option<+T> = None | Some(value: T)

  /** The exceptions the modelled code can throw. */
  datatype Error =
    | NullPointer
    | IndexOutOfBounds
    | IllegalArgument
    | NegativeArraySize
    | NoSuchElement

  /** The outcome of a call that either returns normally or throws. */
  datatype Result<+T> = Ok(value: T) | Err(error: Error)
}
