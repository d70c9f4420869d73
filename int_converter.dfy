/** The value codecs of `IntConverter`: bit-field `pack` and `unpack`, the
    integer codec that reserves 0 for "empty", and the integer layouts and
    sentinels of the two vector codecs.

    An `int` is handled through its 32-bit pattern `Unsigned(i)` in
    `[0, 2^32)`. On that pattern `i & ((1 << size) - 1)` keeps the low
    `size` bits (`LowBits`), `i << pos` doubles `pos` times (`Shl`) and
    wraps, and `i >>> pos` halves `pos` times (`Shr`). Java takes a shift
    distance modulo 32, and so does the model. */
module IntConverter {
  import opened Java

  const TWO32: int := 0x1_0000_0000

  function Pow2(n: nat): (p: nat)
    ensures p > 0
  {
    if n == 0 then 1 else 2 * Pow2(n - 1)
  }

  /** The powers the codecs use. */
  lemma Pow2Values()
    ensures Pow2(10) == 1024 && Pow2(16) == 65536 && Pow2(20) == 1048576
    ensures Pow2(30) == 0x4000_0000 && Pow2(31) == 0x8000_0000 && Pow2(32) == TWO32
  {
  }

  lemma {:induction false} Pow2Add(a: nat, b: nat)
    ensures Pow2(a + b) == Pow2(a) * Pow2(b)
  {
    if b > 0 {
      Pow2Add(a, b - 1);
      assert Pow2(a + b) == 2 * Pow2(a + b - 1);
    }
  }

  lemma {:induction false} Pow2Monotone(a: nat, b: nat)
    requires a <= b
    ensures 0 < Pow2(a) <= Pow2(b)
  {
    if a < b {
      Pow2Monotone(a, b - 1);
    }
  }

  /** `u << n` before wrapping: `u * 2^n`. */
  function Shl(u: nat, n: nat): nat {
    u * Pow2(n)
  }

  /** `u >>> n` on a pattern: `u / 2^n`. */
  function Shr(u: nat, n: nat): nat {
    DivNonNegative(u, Pow2(n));
    u / Pow2(n)
  }

  lemma DivNonNegative(a: nat, d: nat)
    requires d > 0
    ensures a / d >= 0
  {
  }

  /** `u & ((1 << n) - 1)`: the low `n` bits, `u % 2^n`. */
  function LowBits(u: nat, n: nat): nat {
    u % Pow2(n)
  }

  /** The 32-bit pattern of an `int`, read as an unsigned number. */
  function Unsigned(i: int32): (u: nat)
    ensures u < TWO32
    ensures u == i as int || u == i as int + TWO32
    ensures i >= 0 ==> u == i as int
  {
    if i < 0 then i as int + TWO32 else i as int
  }

  lemma UnsignedWrap(x: int)
    ensures Unsigned(Wrap(x)) == x % TWO32
  {
  }

  /** A number that fits the pattern is its own pattern. */
  lemma UnsignedSmall(x: int)
    requires 0 <= x < TWO32
    ensures Unsigned(Wrap(x)) == x
  {
    UnsignedWrap(x);
  }

  // ----- Facts about the bit operations -----

  /** Euclidean division is determined by its quotient and remainder. */
  lemma DivModUnique(a: int, d: int, q: int, r: int)
    requires d > 0 && a == q * d + r && 0 <= r < d
    ensures a / d == q && a % d == r
  {
    var q0, r0 := a / d, a % d;
    assert (q0 - q) * d == r - r0;
    if q0 > q {
      MulAtLeast(q0 - q, d);
    } else if q0 < q {
      assert (q - q0) * d == r0 - r;
      MulAtLeast(q - q0, d);
    }
  }

  lemma MulAtLeast(k: int, d: int)
    requires k >= 1 && d > 0
    ensures k * d >= d
  {
    assert k * d == (k - 1) * d + d;
  }

  lemma LowBitsBound(u: nat, n: nat)
    ensures LowBits(u, n) < Pow2(n)
  {
  }

  /** Masking a number that already fits changes nothing. */
  lemma LowBitsSmall(u: nat, n: nat)
    requires u < Pow2(n)
    ensures LowBits(u, n) == u
  {
    DivModUnique(u, Pow2(n), 0, u);
  }

  /** The low `n` bits ignore whatever is added at bit `n` and above. */
  lemma LowBitsAbove(u: nat, r: nat, n: nat)
    ensures LowBits(u + Shl(r, n), n) == LowBits(u, n)
  {
    var p := Pow2(n);
    assert u + Shl(r, n) == (u / p + r) * p + u % p;
    DivModUnique(u + Shl(r, n), p, u / p + r, u % p);
  }

  lemma ShlBound(m: nat, s: nat, p: nat)
    requires m < Pow2(s)
    ensures Shl(m, p) < Pow2(s + p)
  {
    Pow2Add(s, p);
    MulLess(m, Pow2(s), Pow2(p));
  }

  lemma MulLess(m: nat, n: nat, k: nat)
    requires m < n && k > 0
    ensures m * k < n * k
  {
    assert n * k == m * k + (n - m) * k;
    MulAtLeast(n - m, k);
  }

  lemma ShlAdd(a: nat, b: nat, p: nat)
    ensures Shl(a + b, p) == Shl(a, p) + Shl(b, p)
  {
    assert (a + b) * Pow2(p) == a * Pow2(p) + b * Pow2(p);
  }

  lemma ShlShl(m: nat, a: nat, b: nat)
    ensures Shl(Shl(m, a), b) == Shl(m, a + b)
  {
    var p, q := Pow2(a), Pow2(b);
    assert (m * p) * q == m * (p * q);
    Pow2Add(a, b);
  }

  /** Shifting right by `p` drops exactly what sits below bit `p`. */
  lemma ShrAbove(low: nat, m: nat, p: nat)
    requires low < Pow2(p)
    ensures Shr(low + Shl(m, p), p) == m
  {
    DivModUnique(low + Shl(m, p), Pow2(p), m, low);
  }

  // ----- pack and unpack -----

  /** `pack(value, pos, size)`: `(value & ((1 << size) - 1)) << pos`. */
  function Pack(value: int32, pos: int, size: int): (r: int32)
    ensures 0 < size % 32 && pos % 32 + size % 32 <= 32 ==>
              Unsigned(r) == Shl(LowBits(Unsigned(value), size % 32), pos % 32)
              && LowBits(Unsigned(r), pos % 32) == 0
              && Unsigned(r) < Pow2(pos % 32 + size % 32)
  {
    var m := LowBits(Unsigned(value), size % 32);
    if 0 < size % 32 && pos % 32 + size % 32 <= 32 then
      LowBitsBound(Unsigned(value), size % 32);
      PlacedField(m, pos % 32, size % 32);
      Wrap(Shl(m, pos % 32))
    else
      Wrap(Shl(m, pos % 32))
  }

  /** A pattern `m` of `size` bits moved up by `pos` fits an `int`'s 32 bits,
      has nothing set below `pos` and nothing at or above `pos + size`. */
  lemma PlacedField(m: nat, pos: nat, size: nat)
    requires 0 < size <= 31 && pos + size <= 32 && m < Pow2(size)
    ensures Unsigned(Wrap(Shl(m, pos))) == Shl(m, pos)
    ensures LowBits(Shl(m, pos), pos) == 0
    ensures Shl(m, pos) < Pow2(pos + size)
  {
    ShlBound(m, size, pos);
    Pow2Monotone(size + pos, 32);
    Pow2Values();
    UnsignedSmall(Shl(m, pos));
    LowBitsAbove(0, m, pos);
    LowBitsSmall(0, pos);
  }

  /** `unpack(value, pos, size)`: `(value >>> pos) & ((1 << size) - 1)`. */
  function Unpack(value: int32, pos: int, size: int): (r: int32)
    ensures 0 <= r as int < Pow2(size % 32)
  {
    LowBitsBound(Shr(Unsigned(value), pos % 32), size % 32);
    Pow2Monotone(size % 32, 31);
    Pow2Values();
    LowBits(Shr(Unsigned(value), pos % 32), size % 32) as int32
  }

  /** A packed field occupies exactly the bits `[pos, pos + size)`: its
      pattern is the low `size` bits of the value moved up by `pos`, nothing
      is set below `pos` and nothing at or above `pos + size`. */
  lemma {:induction false} PackLayout(v: int32, pos: int, size: int)
    requires 0 < size <= 31 && 0 <= pos && pos + size <= 32
    ensures Unsigned(Pack(v, pos, size)) == Shl(LowBits(Unsigned(v), size), pos)
    ensures LowBits(Unsigned(Pack(v, pos, size)), pos) == 0
    ensures Unsigned(Pack(v, pos, size)) < Pow2(pos + size)
  {
    Mod32(size);
    Mod32(pos);
  }

  /** A shift distance below 32 is taken as it is. */
  lemma Mod32(n: int)
    requires 0 <= n < 32
    ensures n % 32 == n
  {
  }

  /** Unpacking a packed field gives back the low `size` bits of the value. */
  lemma {:induction false} UnpackPack(v: int32, pos: int, size: int)
    requires 0 < size <= 31 && 0 <= pos && pos + size <= 32
    ensures Unpack(Pack(v, pos, size), pos, size) as int == LowBits(Unsigned(v), size)
  {
    PackLayout(v, pos, size);
    LowBitsBound(Unsigned(v), size);
    UnpackShifted(Pack(v, pos, size), LowBits(Unsigned(v), size), pos, size);
  }

  /** Unpacking a pattern that is exactly `m` moved up by `pos` gives `m`. */
  lemma UnpackShifted(p: int32, m: nat, pos: nat, size: nat)
    requires 0 < size <= 31 && pos + size <= 32
    requires m < Pow2(size) && Unsigned(p) == Shl(m, pos)
    ensures Unpack(p, pos, size) as int == m
  {
    ShrAbove(0, m, pos);
    assert Shr(Unsigned(p), pos) == m;
    Mod32(size);
    Mod32(pos);
    LowBitsSmall(m, size);
    assert Unpack(p, pos, size) as int == LowBits(Shr(Unsigned(p), pos), size);
  }

  /** Unpacking at `pos` a pattern whose part below `pos` is `low` reads
      the low `size` bits of what lies above. */
  lemma {:induction false} UnpackAt(low: nat, m: nat, pos: nat, size: nat)
    requires 0 < size <= 31 && pos <= 31
    requires low < Pow2(pos) && low + Shl(m, pos) < TWO32
    ensures Unpack(Wrap(low + Shl(m, pos)), pos, size) as int == LowBits(m, size)
  {
    UnsignedSmall(low + Shl(m, pos));
    Mod32(size);
    Mod32(pos);
    ShrAbove(low, m, pos);
  }

  /** A field placed at `pos` above a lower part reads back unchanged from
      their sum, as long as the sum fits the pattern. */
  lemma {:induction false} UnpackField(low: nat, m: nat, pos: nat, size: nat)
    requires 0 < size <= 31 && pos + size <= 32
    requires low < Pow2(pos) && m < Pow2(size)
    ensures low + Shl(m, pos) < TWO32
    ensures Unpack(Wrap(low + Shl(m, pos)), pos, size) as int == m
  {
    FieldsFit(low, m, pos, size);
    Pow2Monotone(pos + size, 32);
    Pow2Values();
    UnpackAt(low, m, pos, size);
    LowBitsSmall(m, size);
  }

  /** A field of `size` bits placed at `pos` above a lower part needs no
      more than `pos + size` bits. */
  lemma FieldsFit(low: nat, m: nat, pos: nat, size: nat)
    requires low < Pow2(pos) && m < Pow2(size)
    ensures low + Shl(m, pos) < Pow2(pos + size)
  {
    Pow2Add(pos, size);
    MulLess(m, Pow2(size), Pow2(pos));
    assert Pow2(size) * Pow2(pos) == (Pow2(size) - 1) * Pow2(pos) + Pow2(pos);
    assert (m + 1) * Pow2(pos) <= Pow2(size) * Pow2(pos) by {
      if m + 1 < Pow2(size) {
        MulLess(m + 1, Pow2(size), Pow2(pos));
      }
    }
    assert (m + 1) * Pow2(pos) == Shl(m, pos) + Pow2(pos);
  }

  // ----- IntegerConverter -----

  /** `IntegerConverter.toInt`: `null` is 0, any other value is shifted up by one. */
  function IntToInt(t: Option<int32>): (r: int32)
    ensures r == 0 <==> t == None || t == Some(-1)
    ensures t.Some? && t.value != -1 ==> r as int == (if t.value == MAX_INT as int32 then MIN_INT else t.value as int + 1)
  {
    match t
    case None => 0
    case Some(v) => Wrap(v as int + 1)
  }

  /** `IntegerConverter.fromInt`: 0 is `null`, any other code is shifted down by one. */
  function IntFromInt(i: int32): (r: Option<int32>)
    ensures r == None <==> i == 0
    ensures r.Some? ==> r.value as int == (if i == MIN_INT as int32 then MAX_INT else i as int - 1)
  {
    if i == 0 then None else Some(Wrap(i as int - 1))
  }

  /** Every code decodes and encodes back to itself. */
  lemma IntCodeRoundTrip(i: int32)
    ensures IntToInt(IntFromInt(i)) == i
  {
  }

  /** A value survives encoding exactly when it is not -1, whose code 0 is
      the one reserved for `null`. */
  lemma IntValueRoundTrip(t: Option<int32>)
    ensures IntFromInt(IntToInt(t)) == t <==> t != Some(-1)
  {
    if t.Some? && t.value != -1 {
      assert IntToInt(t) != 0;
    }
  }

  /** The integer -1 and `null` share the code 0. */
  lemma IntMinusOneIsEmpty()
    ensures IntToInt(Some(-1)) == IntToInt(None) == 0
    ensures IntFromInt(IntToInt(Some(-1))) == None
  {
  }

  // ----- Vec2dConverter and Vec3dConverter, after quantisation -----

  /** A quantised component `round(clamp(c, 0, 1) * C)`, in `[0, C]`. */
  predicate Quantised(q: int32, c: int) {
    0 <= q as int <= c
  }

  const C2: int := 65535
  const C3: int := 1023

  /** `Vec2dConverter.toInt` on quantised components `(x, y)`. */
  function Vec2dToInt(t: Option<(int32, int32)>): (r: int32)
    ensures t == None ==> r as int == C2
    ensures t.Some? && Quantised(t.value.0, C2) && Quantised(t.value.1, C2) ==>
              Unpack(r, 0, 16) == t.value.0 && Unpack(r, 16, 16) == t.value.1
  {
    match t
    case None => C2 as int32
    case Some((x, y)) =>
      var code := Wrap(Pack(x, 0, 16) as int + Pack(y, 16, 16) as int);
      if Quantised(x, C2) && Quantised(y, C2) then
        Vec2dSum(x, y, code);
        Vec2dFields(x as int, y as int, code);
        code
      else
        code
  }

  /** `Vec2dConverter.fromInt`, before the division by `C`. */
  function Vec2dFromInt(i: int32): (r: Option<(int32, int32)>)
    ensures r == None <==> i as int == C2
    ensures r.Some? ==> Quantised(r.value.0, C2) && Quantised(r.value.1, C2)
  {
    Pow2Values();
    if i as int == C2 then None else Some((Unpack(i, 0, 16), Unpack(i, 16, 16)))
  }

  /** A quantised component is its own pattern, and packing moves it up. */
  lemma {:induction false} PackQuantised(v: int32, pos: nat, size: nat)
    requires 0 < size <= 31 && pos + size <= 32
    requires 0 <= v as int < Pow2(size)
    ensures Pack(v, pos, size) == Wrap(Shl(v as int, pos))
  {
    Mod32(size);
    Mod32(pos);
    LowBitsSmall(v as int, size);
  }

  /** In range, the two 16-bit fields sit side by side: `x` below bit 16,
      `y` above it. */
  lemma Vec2dLayout(x: int32, y: int32)
    requires Quantised(x, C2) && Quantised(y, C2)
    ensures Vec2dToInt(Some((x, y))) == Wrap(x as int + Shl(y as int, 16))
    ensures x as int + Shl(y as int, 16) < TWO32
  {
    Vec2dCode(x, y);
    Vec2dFields(x as int, y as int, Vec2dToInt(Some((x, y))));
  }

  /** The 2-D code is the sum of the two fields, wrapped to an `int`. */
  lemma Vec2dCode(x: int32, y: int32)
    requires Quantised(x, C2) && Quantised(y, C2)
    ensures Vec2dToInt(Some((x, y))) == Wrap(x as int + Shl(y as int, 16))
  {
    Vec2dSum(x, y, Vec2dToInt(Some((x, y))));
  }

  /** Adding the two placed fields wraps their exact sum. */
  lemma Vec2dSum(x: int32, y: int32, code: int32)
    requires Quantised(x, C2) && Quantised(y, C2)
    requires code == Wrap(Pack(x, 0, 16) as int + Pack(y, 16, 16) as int)
    ensures code == Wrap(x as int + Shl(y as int, 16))
  {
    Pow2Values();
    PackQuantised(x, 0, 16);
    PackQuantised(y, 16, 16);
    WrapSum(x as int, Shl(y as int, 16), Pack(x, 0, 16), Pack(y, 16, 16));
  }

  /** Adding two wrapped `int`s wraps the exact sum. */
  lemma WrapSum(a: nat, b: int, pa: int32, pb: int32)
    requires IsInt(a) && pa == Wrap(Shl(a, 0)) && pb == Wrap(b)
    ensures Wrap(pa as int + pb as int) == Wrap(a + b)
  {
    WrapShift(b, a);
  }

  /** Both fields read back from the wrapped sum. */
  lemma Vec2dFields(xi: nat, yi: nat, code: int32)
    requires xi <= C2 && yi <= C2 && code == Wrap(xi + Shl(yi, 16))
    ensures xi + Shl(yi, 16) < TWO32
    ensures Unpack(code, 0, 16) as int == xi
    ensures Unpack(code, 16, 16) as int == yi
  {
    Pow2Values();
    UnpackField(xi, yi, 16, 16);
    assert code == Wrap(0 + Shl(xi + Shl(yi, 16), 0));
    UnpackAt(0, xi + Shl(yi, 16), 0, 16);
    LowBitsAbove(xi, yi, 16);
    LowBitsSmall(xi, 16);
  }

  /** A quantised vector survives the codec exactly when it is not
      `(C, 0)`, whose code equals the `null` sentinel `C`. */
  lemma Vec2dRoundTrip(x: int32, y: int32)
    requires Quantised(x, C2) && Quantised(y, C2)
    ensures Vec2dFromInt(Vec2dToInt(Some((x, y)))) == Some((x, y)) <==> (x, y) != (C2 as int32, 0)
  {
    Vec2dLayout(x, y);
    Vec2dDecode(x, y, Vec2dToInt(Some((x, y))));
  }

  /** Decoding a code whose fields read back as `x` and `y`. */
  lemma Vec2dDecode(x: int32, y: int32, code: int32)
    requires Quantised(x, C2) && Quantised(y, C2)
    requires code == Wrap(x as int + Shl(y as int, 16)) && x as int + Shl(y as int, 16) < TWO32
    requires Unpack(code, 0, 16) == x && Unpack(code, 16, 16) == y
    ensures Vec2dFromInt(code) == Some((x, y)) <==> (x, y) != (C2 as int32, 0)
  {
    if x as int == C2 && y == 0 {
        WrapSmall(x as int + Shl(y as int, 16));
    } else if code as int == C2 {
      SentinelFields();
      assert false;
    }
  }

  lemma WrapSmall(v: int)
    requires IsInt(v)
    ensures Wrap(v) as int == v
  {
  }

  /** The sentinel `C` read as a 2-D code: all ones below bit 16, zero above. */
  lemma SentinelFields()
    ensures Unpack(C2 as int32, 0, 16) as int == C2
    ensures Unpack(C2 as int32, 16, 16) == 0
  {
    Pow2Values();
    Vec2dFields(C2, 0, C2 as int32);
  }

  /** `null` survives the 2-D codec. */
  lemma Vec2dEmptyRoundTrip()
    ensures Vec2dFromInt(Vec2dToInt(None)) == None
  {
  }

  /** `Vec3dConverter.toInt` on quantised components `(x, y, z)`. */
  function Vec3dToInt(t: Option<(int32, int32, int32)>): (r: int32)
    ensures t == None ==> r == -1
    ensures t.Some? && Quantised(t.value.0, C3) && Quantised(t.value.1, C3) && Quantised(t.value.2, C3) ==>
              r as int == t.value.0 as int + Shl(t.value.1 as int, 10) + Shl(t.value.2 as int, 20)
              && 0 <= r as int < Pow2(30)
  {
    match t
    case None => -1
    case Some((x, y, z)) =>
      var code := Wrap(Wrap(Pack(x, 0, 10) as int + Pack(y, 10, 10) as int) as int + Pack(z, 20, 10) as int);
      if Quantised(x, C3) && Quantised(y, C3) && Quantised(z, C3) then
        Vec3dSum(x, y, z, code);
        code
      else
        code
  }

  /** `Vec3dConverter.fromInt`, before the division by `C`. */
  function Vec3dFromInt(i: int32): (r: Option<(int32, int32, int32)>)
    ensures r == None <==> i == -1
    ensures r.Some? ==> Quantised(r.value.0, C3) && Quantised(r.value.1, C3) && Quantised(r.value.2, C3)
  {
    Pow2Values();
    if i == -1 then None else Some((Unpack(i, 0, 10), Unpack(i, 10, 10), Unpack(i, 20, 10)))
  }

  /** The wrapped sums of the three placed fields add up exactly. */
  lemma Vec3dSum(x: int32, y: int32, z: int32, code: int32)
    requires Quantised(x, C3) && Quantised(y, C3) && Quantised(z, C3)
    requires code == Wrap(Wrap(Pack(x, 0, 10) as int + Pack(y, 10, 10) as int) as int + Pack(z, 20, 10) as int)
    ensures code as int == x as int + Shl(y as int, 10) + Shl(z as int, 20)
    ensures 0 <= code as int < Pow2(30)
  {
    Pow2Values();
    PackField(x, 0, 10);
    PackField(y, 10, 10);
    PackField(z, 20, 10);
    FieldsFit(x as int, y as int, 10, 10);
    FieldsFit(x as int + Shl(y as int, 10), z as int, 20, 10);
    WrapSmall(x as int + Shl(y as int, 10));
    WrapSmall(x as int + Shl(y as int, 10) + Shl(z as int, 20));
  }

  /** A field that fits below bit 31 is packed to its shifted value. */
  lemma PackField(v: int32, pos: nat, size: nat)
    requires 0 < size && pos + size <= 31
    requires 0 <= v as int < Pow2(size)
    ensures Pack(v, pos, size) as int == Shl(v as int, pos)
  {
    PackQuantised(v, pos, size);
    ShlBound(v as int, size, pos);
    Pow2Monotone(pos + size, 31);
    Pow2Values();
    WrapSmall(Shl(v as int, pos));
  }

  /** Every quantised vector survives the 3-D codec. */
  lemma Vec3dRoundTrip(x: int32, y: int32, z: int32)
    requires Quantised(x, C3) && Quantised(y, C3) && Quantised(z, C3)
    ensures Vec3dFromInt(Vec3dToInt(Some((x, y, z)))) == Some((x, y, z))
  {
    var i := Vec3dToInt(Some((x, y, z)));
    assert i != -1;
    Vec3dFieldX(x as int, y as int, z as int, i);
    Vec3dFieldY(x as int, y as int, z as int, i);
    Vec3dFieldZ(x as int, y as int, z as int, i);
  }

  /** The lowest 10 bits of a 3-D code hold `x`. */
  lemma Vec3dFieldX(xi: nat, yi: nat, zi: nat, i: int32)
    requires xi <= C3 && yi <= C3 && zi <= C3
    requires i as int == xi + Shl(yi, 10) + Shl(zi, 20)
    ensures Unpack(i, 0, 10) as int == xi
  {
    Vec3dRest(yi, zi);
    LowField(xi, yi + Shl(zi, 10), i);
  }

  /** The two upper fields of a 3-D code, seen as one field above bit 10. */
  lemma Vec3dRest(yi: nat, zi: nat)
    ensures Shl(yi, 10) + Shl(zi, 20) == Shl(yi + Shl(zi, 10), 10)
  {
    ShlShl(zi, 10, 10);
    ShlAdd(yi, Shl(zi, 10), 10);
  }

  /** The low 10 bits of `lo + (rest << 10)` hold `lo`. */
  lemma LowField(lo: nat, rest: nat, i: int32)
    requires lo <= C3 && i as int == lo + Shl(rest, 10)
    ensures Unpack(i, 0, 10) as int == lo
  {
    Pow2Values();
    assert i == Wrap(0 + Shl(i as int, 0));
    UnpackAt(0, i as int, 0, 10);
    LowBitsAbove(lo, rest, 10);
    LowBitsSmall(lo, 10);
  }

  /** Bits 10 to 19 of a 3-D code hold `y`. */
  lemma Vec3dFieldY(xi: nat, yi: nat, zi: nat, i: int32)
    requires xi <= C3 && yi <= C3 && zi <= C3
    requires i as int == xi + Shl(yi, 10) + Shl(zi, 20)
    ensures Unpack(i, 10, 10) as int == yi
  {
    Pow2Values();
    var rest := yi + Shl(zi, 10);
    Vec3dRest(yi, zi);
    assert i == Wrap(xi + Shl(rest, 10));
    UnpackAt(xi, rest, 10, 10);
    LowBitsAbove(yi, zi, 10);
    LowBitsSmall(yi, 10);
  }

  /** Bits 20 to 29 of a 3-D code hold `z`. */
  lemma Vec3dFieldZ(xi: nat, yi: nat, zi: nat, i: int32)
    requires xi <= C3 && yi <= C3 && zi <= C3
    requires i as int == xi + Shl(yi, 10) + Shl(zi, 20)
    ensures Unpack(i, 20, 10) as int == zi
  {
    Pow2Values();
    FieldsFit(xi, yi, 10, 10);
    assert i == Wrap(xi + Shl(yi, 10) + Shl(zi, 20));
    UnpackField(xi + Shl(yi, 10), zi, 20, 10);
  }

  /** `null` survives the 3-D codec. */
  lemma Vec3dEmptyRoundTrip()
    ensures Vec3dFromInt(Vec3dToInt(None)) == None
  {
  }
}
