/** `util.math.IntVectorN`: an immutable vector of Java `int`s. Each
    operation that builds a vector allocates a fresh array and fills it in a
    loop; the receiver is never changed, so a vector is a value here, and
    each operation is a method whose result is tied to a specification
    function on the components. */
module IntVectors {
  import opened Java

  /** A vector; `dim` is the number of its components. */
  datatype IntVector = IntVector(vec: seq<int32>)
  {
    function Dim(): nat {
      |vec|
    }
  }

  // ---------------------------------------------------------------------
  // Construction.

  /** `of(int... vec)`: a copy of the given components. */
  function Of(components: seq<int32>): (v: IntVector)
    ensures v.Dim() == |components| && forall i :: 0 <= i < |components| ==> v.vec[i] == components[i]
  {
    IntVector(components)
  }

  /** A fresh `int[dim]` holding `c` everywhere; a negative size throws. */
  function Filled(dim: int32, c: int32): (r: Result<IntVector>)
    ensures r.Err? <==> dim < 0
    ensures r.Err? ==> r.error == NegativeArraySize
    ensures r.Ok? ==> r.value.Dim() == dim as int && forall i :: 0 <= i < dim as int ==> r.value.vec[i] == c
  {
    if dim < 0 then Err(NegativeArraySize) else Ok(IntVector(seq(dim as int, _ => c)))
  }

  /** `zeros(dim)`: the new array is already all zeros. */
  function Zeros(dim: int32): (r: Result<IntVector>)
    ensures r.Err? <==> dim < 0
    ensures r.Ok? ==> r.value.Dim() == dim as int && forall i :: 0 <= i < dim as int ==> r.value.vec[i] == 0
  {
    Filled(dim, 0)
  }

  /** `ones(dim)`: a loop writes 1 into every component. */
  method Ones(dim: int32) returns (r: Result<IntVector>)
    ensures r == Filled(dim, 1)
  {
    if dim < 0 {
      return Err(NegativeArraySize);
    }
    var nv := new int32[dim as int];
    for i := 0 to dim as int
      invariant forall k :: 0 <= k < i ==> nv[k] == 1
    {
      nv[i] := 1;
    }
    assert nv[..] == Filled(dim, 1).value.vec;
    return Ok(IntVector(nv[..]));
  }

  /** The vector `basisVector(dim, index)` returns. */
  function Basis(dim: int32, index: int32): (r: Result<IntVector>)
    ensures r.Err? <==> !(0 <= index < dim)
    ensures r.Err? ==> r.error == IllegalArgument
    ensures r.Ok? ==> r.value.Dim() == dim as int
    ensures r.Ok? ==> r.value.vec[index] == 1
    ensures r.Ok? ==> forall i :: 0 <= i < dim as int && i != index as int ==> r.value.vec[i] == 0
  {
    if index < 0 || index >= dim then Err(IllegalArgument)
    else Ok(IntVector(seq(dim as int, i => if i == index as int then 1 else 0)))
  }

  /** `basisVector(dim, index)`: rejects an index outside `[0, dim)`, which
      also rejects every negative `dim`; then a zero array with a 1 at
      `index`. */
  method BasisVector(dim: int32, index: int32) returns (r: Result<IntVector>)
    ensures r == Basis(dim, index)
  {
    if index < 0 || index >= dim {
      return Err(IllegalArgument);
    }
    var nv := new int32[dim as int](_ => 0);
    nv[index] := 1;
    assert nv[..] == seq(dim as int, i => if i == index as int then 1 else 0);
    return Ok(IntVector(nv[..]));
  }

  // ---------------------------------------------------------------------
  // Dimension checks and component access.

  /** `assertDimEquals(dim)`: a negative `dim` and a different one both throw. */
  function AssertDimEquals(u: IntVector, dim: int32): (r: Result<()>)
    ensures r.Ok? <==> u.Dim() == dim as int
    ensures r.Err? ==> r.error == IllegalArgument
  {
    if dim < 0 then Err(IllegalArgument)
    else if u.Dim() != dim as int then Err(IllegalArgument)
    else Ok(())
  }

  /** `assertDimMatches(v)`. */
  function AssertDimMatches(u: IntVector, v: IntVector): (r: Result<()>)
    ensures r.Ok? <==> u.Dim() == v.Dim()
    ensures r.Err? ==> r.error == IllegalArgument
  {
    if u.Dim() != v.Dim() then Err(IllegalArgument) else Ok(())
  }

  /** `get(index)`: the component at `index`; an index outside `[0, dim)`
      throws. */
  function Get(u: IntVector, index: int32): (r: Result<int32>)
    ensures r.Ok? <==> 0 <= index as int < u.Dim()
    ensures r.Err? ==> r.error == IllegalArgument
    ensures r.Ok? ==> r.value == u.vec[index]
  {
    if index < 0 || index as int >= u.Dim() then Err(IllegalArgument) else Ok(u.vec[index])
  }

  /** The vector `set(index, value)` returns. */
  function Updated(u: IntVector, index: int32, value: int32): Result<IntVector> {
    if index < 0 || index as int >= u.Dim() then Err(IllegalArgument)
    else Ok(IntVector(u.vec[index as int := value]))
  }

  /** `set(index, value)`: a new vector copied component by component, with
      `value` at `index`. */
  method Set(u: IntVector, index: int32, value: int32) returns (r: Result<IntVector>)
    ensures r == Updated(u, index, value)
  {
    if index < 0 || index as int >= u.Dim() {
      return Err(IllegalArgument);
    }
    var nv := new int32[u.Dim()];
    for i := 0 to u.Dim()
      invariant forall k :: 0 <= k < i ==> nv[k] == if k == index as int then value else u.vec[k]
    {
      nv[i] := if i == index as int then value else u.vec[i];
    }
    assert nv[..] == u.vec[index as int := value];
    return Ok(IntVector(nv[..]));
  }

  /** `set` then `get` at the same index gives the value written; `get`
      elsewhere sees the old vector; and an index outside the vector is
      rejected by both. */
  lemma GetUpdated(u: IntVector, index: int32, value: int32, j: int32)
    ensures Updated(u, index, value).Err? <==> Get(u, index).Err?
    ensures Updated(u, index, value).Ok? ==>
              Get(Updated(u, index, value).value, j) == if j == index then Ok(value) else Get(u, j)
  {
  }

  // ---------------------------------------------------------------------
  // Arithmetic, with Java's 32-bit wrap-around.

  /** The vector `add(v)` returns. */
  function Sum(u: IntVector, v: IntVector): Result<IntVector> {
    if u.Dim() != v.Dim() then Err(IllegalArgument)
    else Ok(IntVector(seq(u.Dim(), i requires 0 <= i < u.Dim() => Wrap(u.vec[i] as int + v.vec[i] as int))))
  }

  /** The vector `sub(v)` returns. */
  function Difference(u: IntVector, v: IntVector): Result<IntVector> {
    if u.Dim() != v.Dim() then Err(IllegalArgument)
    else Ok(IntVector(seq(u.Dim(), i requires 0 <= i < u.Dim() => Wrap(u.vec[i] as int - v.vec[i] as int))))
  }

  /** The vector `mult(scalar)` returns. */
  function Scaled(u: IntVector, scalar: int32): IntVector {
    IntVector(seq(u.Dim(), i requires 0 <= i < u.Dim() => Wrap(u.vec[i] as int * scalar as int)))
  }

  /** `add(v)`. */
  method Add(u: IntVector, v: IntVector) returns (r: Result<IntVector>)
    ensures r == Sum(u, v)
  {
    var check := AssertDimMatches(u, v);
    if check.Err? {
      return Err(check.error);
    }
    var nv := new int32[u.Dim()];
    for i := 0 to u.Dim()
      invariant forall k :: 0 <= k < i ==> nv[k] == Wrap(u.vec[k] as int + v.vec[k] as int)
    {
      nv[i] := Wrap(u.vec[i] as int + v.vec[i] as int);
    }
    assert nv[..] == Sum(u, v).value.vec;
    return Ok(IntVector(nv[..]));
  }

  /** `sub(v)`. */
  method Sub(u: IntVector, v: IntVector) returns (r: Result<IntVector>)
    ensures r == Difference(u, v)
  {
    var check := AssertDimMatches(u, v);
    if check.Err? {
      return Err(check.error);
    }
    var nv := new int32[u.Dim()];
    for i := 0 to u.Dim()
      invariant forall k :: 0 <= k < i ==> nv[k] == Wrap(u.vec[k] as int - v.vec[k] as int)
    {
      nv[i] := Wrap(u.vec[i] as int - v.vec[i] as int);
    }
    assert nv[..] == Difference(u, v).value.vec;
    return Ok(IntVector(nv[..]));
  }

  /** `mult(int scalar)`. */
  method Mult(u: IntVector, scalar: int32) returns (r: IntVector)
    ensures r == Scaled(u, scalar)
  {
    var nv := new int32[u.Dim()];
    for i := 0 to u.Dim()
      invariant forall k :: 0 <= k < i ==> nv[k] == Wrap(u.vec[k] as int * scalar as int)
    {
      nv[i] := Wrap(u.vec[i] as int * scalar as int);
    }
    return IntVector(nv[..]);
  }

  /** `sub` undoes `add`, even where the sum wrapped around. */
  lemma SubUndoesAdd(u: IntVector, v: IntVector)
    requires u.Dim() == v.Dim()
    ensures Sum(u, v).Ok? && Difference(Sum(u, v).value, v) == Ok(u)
  {
    var s := Sum(u, v).value;
    forall i | 0 <= i < u.Dim()
      ensures Wrap(s.vec[i] as int - v.vec[i] as int) == u.vec[i]
    {
      WrapShift(u.vec[i] as int + v.vec[i] as int, -(v.vec[i] as int));
    }
    assert Difference(s, v).value.vec == u.vec;
  }

  /** `add` undoes `sub`. */
  lemma AddUndoesSub(u: IntVector, v: IntVector)
    requires u.Dim() == v.Dim()
    ensures Difference(u, v).Ok? && Sum(Difference(u, v).value, v) == Ok(u)
  {
    var d := Difference(u, v).value;
    forall i | 0 <= i < u.Dim()
      ensures Wrap(d.vec[i] as int + v.vec[i] as int) == u.vec[i]
    {
      WrapShift(u.vec[i] as int - v.vec[i] as int, v.vec[i] as int);
    }
    assert Sum(d, v).value.vec == u.vec;
  }

  /** The zero vector is the identity of `add`, and `sub` of a vector from
      itself gives it. */
  lemma ZeroLaws(u: IntVector)
    requires u.Dim() <= MAX_INT
    ensures Zeros(u.Dim() as int32).Ok?
    ensures Sum(u, Zeros(u.Dim() as int32).value) == Ok(u)
    ensures Difference(u, u) == Zeros(u.Dim() as int32)
  {
    var z := Zeros(u.Dim() as int32).value;
    assert Sum(u, z).value.vec == u.vec;
    assert Difference(u, u).value.vec == z.vec;
  }

  /** `mult(-1)` is the additive inverse: adding it gives the zero vector. */
  lemma MultMinusOneNegates(u: IntVector)
    requires u.Dim() <= MAX_INT
    ensures Sum(u, Scaled(u, -1)) == Zeros(u.Dim() as int32)
  {
    var n := Scaled(u, -1);
    forall i | 0 <= i < u.Dim()
      ensures Wrap(u.vec[i] as int + n.vec[i] as int) == 0
    {
      WrapShift(-(u.vec[i] as int), u.vec[i] as int);
    }
    assert Sum(u, n).value.vec == Zeros(u.Dim() as int32).value.vec;
  }

  /** `mult` of `ones` is the constant vector. */
  lemma ScaledOnes(dim: int32, scalar: int32)
    requires dim >= 0
    ensures Scaled(Filled(dim, 1).value, scalar) == Filled(dim, scalar).value
  {
    assert Scaled(Filled(dim, 1).value, scalar).vec == Filled(dim, scalar).value.vec;
  }

  // ---------------------------------------------------------------------
  // Dot product.

  /** The mathematical sum of the first `n` products of components. */
  function Products(u: seq<int32>, v: seq<int32>, n: nat): int
    requires n <= |u| && n <= |v|
  {
    if n == 0 then 0 else Products(u, v, n - 1) + u[n - 1] as int * v[n - 1] as int
  }

  /** The value `dot(v)` returns: the sum of products, wrapped once, since
      wrapping at every step gives the same `int`. */
  function DotProduct(u: IntVector, v: IntVector): Result<int32> {
    if u.Dim() != v.Dim() then Err(IllegalArgument) else Ok(Wrap(Products(u.vec, v.vec, u.Dim())))
  }

  /** `dot(v)`: the loop `sum += vec[i] * v.vec[i]`, wrapping the product
      and the sum at every step. */
  method Dot(u: IntVector, v: IntVector) returns (r: Result<int32>)
    ensures r == DotProduct(u, v)
  {
    var check := AssertDimMatches(u, v);
    if check.Err? {
      return Err(check.error);
    }
    var sum: int32 := 0;
    for i := 0 to u.Dim()
      invariant sum == Wrap(Products(u.vec, v.vec, i))
    {
      var p := u.vec[i] as int * v.vec[i] as int;
      WrapShift(Products(u.vec, v.vec, i), Wrap(p) as int);
      WrapShift(p, Products(u.vec, v.vec, i));
      sum := Wrap(sum as int + Wrap(p) as int);
    }
    return Ok(sum);
  }

  lemma {:induction false} ProductsCommute(u: seq<int32>, v: seq<int32>, n: nat)
    requires n <= |u| && n <= |v|
    ensures Products(u, v, n) == Products(v, u, n)
  {
    if n > 0 {
      ProductsCommute(u, v, n - 1);
    }
  }

  /** `u.dot(v) == v.dot(u)`. */
  lemma DotCommutes(u: IntVector, v: IntVector)
    ensures DotProduct(u, v) == DotProduct(v, u)
  {
    if u.Dim() == v.Dim() {
      ProductsCommute(u.vec, v.vec, u.Dim());
    }
  }

  lemma {:induction false} ProductsBasis(dim: int32, index: int32, v: seq<int32>, n: nat)
    requires 0 <= index < dim && n <= |v| == dim as int
    ensures Products(Basis(dim, index).value.vec, v, n) == if index as int < n then v[index] as int else 0
  {
    if n > 0 {
      ProductsBasis(dim, index, v, n - 1);
    }
  }

  /** The dot product with `basisVector(dim, index)` picks component
      `index`. */
  lemma DotBasis(dim: int32, index: int32, v: IntVector)
    requires 0 <= index < dim && v.Dim() == dim as int
    ensures DotProduct(Basis(dim, index).value, v) == Ok(v.vec[index])
  {
    ProductsBasis(dim, index, v.vec, dim as int);
  }

  // ---------------------------------------------------------------------
  // `contains`.

  /** `bimap((d, t) -> d > 0 ? t : -t, v)`: `v` reflected into the sector
      of `u`; the negation wraps. */
  function Adjusted(u: IntVector, v: IntVector): (r: seq<int32>)
    requires u.Dim() == v.Dim()
    ensures |r| == u.Dim()
  {
    seq(u.Dim(), i requires 0 <= i < u.Dim() => if u.vec[i] > 0 then v.vec[i] else Wrap(-(v.vec[i] as int)))
  }

  /** `map(t -> Math.abs(t))`. */
  function Magnitudes(u: IntVector): (r: seq<int32>)
    ensures |r| == u.Dim()
  {
    seq(u.Dim(), i requires 0 <= i < u.Dim() => Abs32(u.vec[i]))
  }

  /** The value `contains(v)` returns, as the code computes it. */
  function Contained(u: IntVector, v: IntVector): Result<bool> {
    if u.Dim() != v.Dim() then Err(IllegalArgument)
    else
      var adjusted, positive := Adjusted(u, v), Magnitudes(u);
      Ok(forall i :: 0 <= i < u.Dim() ==> !(adjusted[i] < 0 || positive[i] < adjusted[i]))
  }

  /** `contains(v)`: the final loop returns `false` at the first component
      out of range. */
  method Contains(u: IntVector, v: IntVector) returns (r: Result<bool>)
    ensures r == Contained(u, v)
  {
    var check := AssertDimMatches(u, v);
    if check.Err? {
      return Err(check.error);
    }
    var adjusted := Adjusted(u, v);
    var positive := Magnitudes(u);
    for i := 0 to u.Dim()
      invariant forall k :: 0 <= k < i ==> !(adjusted[k] < 0 || positive[k] < adjusted[k])
    {
      if adjusted[i] < 0 || positive[i] < adjusted[i] {
        return Ok(false);
      }
    }
    return Ok(true);
  }

  /** Component `t` lies in the closed interval between 0 and `d`. */
  predicate Between(t: int, d: int) {
    if d >= 0 then 0 <= t <= d else d <= t <= 0
  }

  /** `contains` as its documentation describes it: every component of `v`
      between 0 and the matching component of `u`. */
  function ContainedInSector(u: IntVector, v: IntVector): Result<bool> {
    if u.Dim() != v.Dim() then Err(IllegalArgument)
    else Ok(forall i :: 0 <= i < u.Dim() ==> Between(v.vec[i] as int, u.vec[i] as int))
  }

  /** Away from `Integer.MIN_VALUE` in `u`, the code does what the
      documentation says. */
  lemma ContainedInRange(u: IntVector, v: IntVector)
    requires forall i :: 0 <= i < u.Dim() ==> u.vec[i] as int != MIN_INT
    ensures Contained(u, v) == ContainedInSector(u, v)
  {
    if u.Dim() == v.Dim() {
      var adjusted, positive := Adjusted(u, v), Magnitudes(u);
      forall i | 0 <= i < u.Dim()
        ensures !(adjusted[i] < 0 || positive[i] < adjusted[i]) <==> Between(v.vec[i] as int, u.vec[i] as int)
      {
        if u.vec[i] <= 0 && v.vec[i] as int == MIN_INT {
          assert adjusted[i] as int == MIN_INT;
        }
      }
    }
  }

  /** A component of `u` at `Integer.MIN_VALUE` has `Math.abs` of
      `MIN_VALUE` itself, so no `v` is contained, not even 0. */
  lemma ContainsMinValue()
    ensures ContainedInSector(IntVector([MIN_INT as int32]), IntVector([0])) == Ok(true)
    ensures Contained(IntVector([MIN_INT as int32]), IntVector([0])) == Ok(false)
  {
    var u, v := IntVector([MIN_INT as int32]), IntVector([0]);
    assert Adjusted(u, v)[0] == 0;
    assert Magnitudes(u)[0] as int == MIN_INT;
  }

  /** `contains` with the test compared in mathematical integers, which
      meets its documentation everywhere. */
  method ContainsInSector(u: IntVector, v: IntVector) returns (r: Result<bool>)
    ensures r == ContainedInSector(u, v)
  {
    var check := AssertDimMatches(u, v);
    if check.Err? {
      return Err(check.error);
    }
    for i := 0 to u.Dim()
      invariant forall k :: 0 <= k < i ==> Between(v.vec[k] as int, u.vec[k] as int)
    {
      var d, t := u.vec[i] as int, v.vec[i] as int;
      var adjusted := if d > 0 then t else -t;
      var positive := if d < 0 then -d else d;
      if adjusted < 0 || positive < adjusted {
        return Ok(false);
      }
    }
    return Ok(true);
  }

  // ---------------------------------------------------------------------
  // `equals`.

  /** The value `equals(v)` returns: `null` is unequal; otherwise the
      dimensions must match and every difference pass `Math.abs(d) > 0`
      as false. */
  function EqualAsWritten(u: IntVector, other: Option<IntVector>): bool {
    && other.Some?
    && u.Dim() == other.value.Dim()
    && forall i :: 0 <= i < u.Dim() ==> !(Abs32(Wrap(u.vec[i] as int - other.value.vec[i] as int)) > 0)
  }

  /** `equals(Object v)`; an object of another class is not modelled. */
  method Equals(u: IntVector, other: Option<IntVector>) returns (r: bool)
    ensures r == EqualAsWritten(u, other)
  {
    if other.None? {
      return false;
    }
    var w := other.value;
    if u.Dim() != w.Dim() {
      return false;
    }
    for i := 0 to u.Dim()
      invariant forall k :: 0 <= k < i ==> !(Abs32(Wrap(u.vec[k] as int - w.vec[k] as int)) > 0)
    {
      if Abs32(Wrap(u.vec[i] as int - w.vec[i] as int)) > 0 {
        return false;
      }
    }
    return true;
  }

  /** Two vectors are reported equal exactly when every difference is 0
      or wraps to `Integer.MIN_VALUE`. */
  lemma EqualAsWrittenMeans(u: IntVector, w: IntVector)
    ensures EqualAsWritten(u, Some(w)) <==>
            u.Dim() == w.Dim()
            && forall i :: 0 <= i < u.Dim() ==>
                 u.vec[i] == w.vec[i] || u.vec[i] as int - w.vec[i] as int == -MIN_INT
                 || u.vec[i] as int - w.vec[i] as int == MIN_INT
  {
    if u.Dim() == w.Dim() {
      forall i | 0 <= i < u.Dim()
        ensures !(Abs32(Wrap(u.vec[i] as int - w.vec[i] as int)) > 0) <==>
                u.vec[i] == w.vec[i] || u.vec[i] as int - w.vec[i] as int == -MIN_INT
                || u.vec[i] as int - w.vec[i] as int == MIN_INT
      {
        var d := u.vec[i] as int - w.vec[i] as int;
        if d > MAX_INT {
          assert Wrap(d) as int == d - 0x1_0000_0000;
        } else if d < MIN_INT {
          assert Wrap(d) as int == d + 0x1_0000_0000;
        }
      }
    }
  }

  /** `[0]` equals `[Integer.MIN_VALUE]`: their difference wraps to
      `MIN_VALUE`, whose `Math.abs` is not positive. */
  lemma EqualsMinValue()
    ensures IntVector([0]) != IntVector([MIN_INT as int32])
    ensures EqualAsWritten(IntVector([0]), Some(IntVector([MIN_INT as int32])))
  {
    assert Wrap(0 - MIN_INT) as int == MIN_INT;
  }

  /** `equals` comparing components directly: equal exactly when the other
      vector is the same vector. */
  method EqualsExact(u: IntVector, other: Option<IntVector>) returns (r: bool)
    ensures r <==> other == Some(u)
  {
    if other.None? {
      return false;
    }
    var w := other.value;
    if u.Dim() != w.Dim() {
      return false;
    }
    for i := 0 to u.Dim()
      invariant forall k :: 0 <= k < i ==> u.vec[k] == w.vec[k]
    {
      if u.vec[i] != w.vec[i] {
        return false;
      }
    }
    assert u.vec == w.vec;
    return true;
  }

  // ---------------------------------------------------------------------
  // `toString`.

  function DigitChar(d: nat): char
    requires d < 10
  {
    ('0' as int + d) as char
  }

  /** `Integer.toString` of a non-negative number: its decimal digits,
      without leading zeros. */
  function NatString(n: nat): (s: string)
    ensures s != [] && forall i :: 0 <= i < |s| ==> '0' <= s[i] <= '9'
  {
    if n < 10 then [DigitChar(n)] else NatString(n / 10) + [DigitChar(n % 10)]
  }

  /** `Integer.toString`: a minus sign before the digits of a negative
      number. */
  function IntString(x: int): (s: string)
    ensures s != [] && forall i :: 0 <= i < |s| ==> s[i] != ',' && s[i] != ' '
  {
    if x < 0 then "-" + NatString(-x) else NatString(x)
  }

  /** The components joined by `", "`, as the loop of `toString` builds
      them. */
  function Joined(v: seq<int32>): string {
    if v == [] then ""
    else Joined(v[..|v| - 1]) + (if |v| > 1 then ", " else "") + IntString(v[|v| - 1] as int)
  }

  /** The string `toString` returns. */
  function Shown(u: IntVector): string {
    "[" + Joined(u.vec) + "]"
  }

  /** `toString()`. */
  method ToString(u: IntVector) returns (r: string)
    ensures r == Shown(u)
  {
    r := "[";
    for i := 0 to u.Dim()
      invariant r == "[" + Joined(u.vec[..i])
    {
      assert u.vec[..i + 1][..i] == u.vec[..i];
      if i > 0 {
        r := r + ", ";
      }
      r := r + IntString(u.vec[i] as int);
    }
    assert u.vec[..u.Dim()] == u.vec;
    return r + "]";
  }

  /** Reading decimal digits back. */
  function ParseNat(s: string): int {
    if s == [] then 0 else ParseNat(s[..|s| - 1]) * 10 + (s[|s| - 1] as int - '0' as int)
  }

  function ParseInt(s: string): int {
    if s != [] && s[0] == '-' then -ParseNat(s[1..]) else ParseNat(s)
  }

  /** The position of the last comma in `s`, or -1. */
  function LastComma(s: string): (k: int)
    ensures -1 <= k < |s|
    ensures k >= 0 ==> s[k] == ','
    ensures forall j :: k < j < |s| ==> s[j] != ','
  {
    if s == [] then -1 else if s[|s| - 1] == ',' then |s| - 1 else LastComma(s[..|s| - 1])
  }

  /** Reading a non-empty comma list back, last item first. */
  function ParseItems(s: string): seq<int>
    decreases |s|
  {
    var k := LastComma(s);
    if k < 0 then [ParseInt(s)]
    else if k + 2 <= |s| then ParseItems(s[..k]) + [ParseInt(s[k + 2..])]
    else ParseItems(s[..k]) + [ParseInt(s[k + 1..])]
  }

  /** Reading a `toString` result back into its components. */
  function ParseShown(s: string): seq<int> {
    if |s| < 2 then []
    else if s[1..|s| - 1] == "" then []
    else ParseItems(s[1..|s| - 1])
  }

  lemma {:induction false} NatStringRoundTrip(n: nat)
    ensures ParseNat(NatString(n)) == n
  {
    if n >= 10 {
      NatStringRoundTrip(n / 10);
      var s := NatString(n);
      assert s[..|s| - 1] == NatString(n / 10);
    }
  }

  /** Reading back `Integer.toString(x)` gives `x`. */
  lemma IntStringRoundTrip(x: int)
    ensures ParseInt(IntString(x)) == x
  {
    if x < 0 {
      NatStringRoundTrip(-x);
      assert IntString(x)[1..] == NatString(-x);
    } else {
      NatStringRoundTrip(x);
    }
  }

  /** The separator before an item without commas is the last comma. */
  lemma LastCommaBefore(front: string, last: string)
    requires forall i :: 0 <= i < |last| ==> last[i] != ','
    ensures LastComma(front + ", " + last) == |front|
  {
    var s := front + ", " + last;
    NoCommaAfter(front, last);
    assert s[|front|] == ',';
  }

  lemma NoCommaAfter(front: string, last: string)
    requires forall i :: 0 <= i < |last| ==> last[i] != ','
    ensures forall j :: |front| < j < |front + ", " + last| ==> (front + ", " + last)[j] != ','
  {
    var t := ", " + last;
    assert forall j :: 0 < j < |t| ==> t[j] != ',' by {
      forall j | 0 < j < |t|
        ensures t[j] != ','
      {
        if j > 1 {
          assert t[j] == last[j - 2];
        }
      }
    }
    assert front + t == front + ", " + last;
  }

  /** The components as mathematical integers. */
  function Ints(v: seq<int32>): (r: seq<int>)
    ensures |r| == |v| && forall i :: 0 <= i < |v| ==> r[i] == v[i] as int
  {
    if v == [] then [] else Ints(v[..|v| - 1]) + [v[|v| - 1] as int]
  }

  lemma {:induction false} JoinedRoundTrip(v: seq<int32>)
    requires v != []
    ensures ParseItems(Joined(v)) == Ints(v)
  {
    var last := IntString(v[|v| - 1] as int);
    IntStringRoundTrip(v[|v| - 1] as int);
    if |v| == 1 {
      assert Joined(v) == last;
      assert LastComma(last) < 0;
      assert Ints(v) == [v[0] as int];
    } else {
      var front := Joined(v[..|v| - 1]);
      var s := Joined(v);
      assert s == front + ", " + last;
      LastCommaBefore(front, last);
      assert s[..|front|] == front && s[|front| + 2..] == last;
      JoinedRoundTrip(v[..|v| - 1]);
      assert ParseItems(s) == ParseItems(front) + [ParseInt(last)];
      assert Ints(v) == Ints(v[..|v| - 1]) + [v[|v| - 1] as int];
    }
  }

  /** Reading back what `toString` writes gives the components. */
  lemma ToStringRoundTrip(u: IntVector)
    ensures ParseShown(Shown(u)) == Ints(u.vec)
  {
    var s := Shown(u);
    assert s[1..|s| - 1] == Joined(u.vec);
    if u.vec != [] {
      JoinedRoundTrip(u.vec);
      assert Joined(u.vec) != "";
    }
  }
}
