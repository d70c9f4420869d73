/** The packing of one column entry into a Java `long`, in
    `RLEColumn.makeData`, `position` and `blockType`: the position in the low
    32 bits and the value's code in the high 32 bits.

    A `long` is represented here by its 64-bit pattern read as an unsigned
    number in `[0, 2^64)`; Java's `long` addition is addition modulo `2^64`
    on that pattern, `>>> 32` is division by `2^32`, and the cast to `int`
    keeps the low 32 bits (`Wrap`). */
module ColumnWord {
  import opened Java

  const TWO32: int := 0x1_0000_0000
  const TWO64: int := 0x1_0000_0000_0000_0000

  /** A 64-bit pattern. */
  predicate IsWord(d: int) {
    0 <= d < TWO64
  }

  /** `makeData(pos, t)` as written: `pos + ((long) code << 32)`. The `int`
      `pos` is widened with its sign before the addition, so a negative
      position borrows one from the high half. */
  function MakeData(pos: int32, code: int32): (d: int)
    ensures IsWord(d)
  {
    (pos as int + code as int * TWO32) % TWO64
  }

  /** `position(d)`: `(int) (d & 0xFFFFFFFF)`. The mask is the `int` literal
      `-1`, widened to all 64 bits, so only the cast to `int` takes effect. */
  function Position(d: int): (r: int32)
    ensures (r as int - d) % TWO32 == 0
    ensures IsWord(d) && d % TWO32 < 0x8000_0000 ==> r as int == d % TWO32
  {
    WrapCongruent(d);
    Wrap(d)
  }

  /** `blockType(d)` before decoding: `(int) (d >>> 32)`, the high 32 bits. */
  function BlockCode(d: int): (r: int32)
    requires IsWord(d)
    ensures (r as int - d / TWO32) % TWO32 == 0
    ensures d / TWO32 < 0x8000_0000 ==> r as int == d / TWO32
  {
    WrapCongruent(d / TWO32);
    Wrap(d / TWO32)
  }

  /** The position always survives the packing, and the code survives only
      when the position is not negative: for a negative position the code
      reads back one less. */
  lemma {:induction false} MakeDataHalves(pos: int32, code: int32)
    ensures Position(MakeData(pos, code)) == pos
    ensures BlockCode(MakeData(pos, code)) == if pos >= 0 then code else Wrap(code as int - 1)
  {
    var c := code as int;
    if pos >= 0 {
      var q := c % TWO32;
      var w := pos as int + q * TWO32;
      assert pos as int + c * TWO32 == w + (c / TWO32) * TWO64;
      ModMultiple(w, c / TWO32);
      WrapMultiple(pos, q);
      DivWord(pos as int, q);
      WrapMod(c);
    } else {
      var q := (c - 1) % TWO32;
      var w := (pos as int + TWO32) + q * TWO32;
      assert pos as int + c * TWO32 == w + ((c - 1) / TWO32) * TWO64;
      ModMultiple(w, (c - 1) / TWO32);
      assert w == pos as int + (q + 1) * TWO32;
      WrapMultiple(pos, q + 1);
      DivWord(pos as int + TWO32, q);
      WrapMod(c - 1);
    }
  }

  /** An `int` cast from a `long` ignores whole multiples of `2^32`. */
  lemma WrapMultiple(v: int32, k: int)
    ensures Wrap(v as int + k * TWO32) == v
  {
  }

  /** The high half of a word whose low half is `low`. */
  lemma DivWord(low: int, q: int)
    requires 0 <= low < TWO32
    ensures (low + q * TWO32) / TWO32 == q
  {
  }

  /** Reducing modulo `2^32` first does not change the cast to `int`. */
  lemma WrapMod(c: int)
    ensures Wrap(c % TWO32) == Wrap(c)
  {
  }

  /** Storing the integer value 0 (code 1 under the integer codec) at
      position -1 reads back as code 0, the empty sentinel. */
  lemma NegativePositionLosesValue()
    ensures BlockCode(MakeData(-1, 1)) == 0
  {
    MakeDataHalves(-1, 1);
  }

  /** The intended packing: the position zero-extended into the low half,
      `(pos & 0xFFFFFFFFL) | ((long) code << 32)`. */
  function MakeWord(pos: int32, code: int32): (d: int)
    ensures IsWord(d)
  {
    pos as int % TWO32 + (code as int % TWO32) * TWO32
  }

  /** With the intended packing both halves survive for every position. */
  lemma {:induction false} MakeWordRoundTrip(pos: int32, code: int32)
    ensures Position(MakeWord(pos, code)) == pos
    ensures BlockCode(MakeWord(pos, code)) == code
  {
    var d := MakeWord(pos, code);
    var q := code as int % TWO32;
    assert d / TWO32 == q;
  }

  /** The intended packing agrees with the written one exactly on the
      positions that are not negative. */
  lemma MakeWordAgrees(pos: int32, code: int32)
    ensures MakeData(pos, code) == MakeWord(pos, code) <==> pos >= 0
  {
    if pos >= 0 {
      var c := code as int;
      var w := MakeWord(pos, code);
      assert pos as int + c * TWO32 == w + (c / TWO32) * TWO64;
      ModMultiple(w, c / TWO32);
    } else {
      MakeDataHalves(pos, code);
      MakeWordRoundTrip(pos, code);
      PredecessorDiffers(code);
    }
  }

  /** Adding whole multiples of `2^64` leaves a 64-bit pattern unchanged. */
  lemma ModMultiple(w: int, k: int)
    requires IsWord(w)
    ensures (w + k * TWO64) % TWO64 == w
  {
  }

  /** No `int` is its own predecessor, even with wrap-around. */
  lemma PredecessorDiffers(c: int32)
    ensures Wrap(c as int - 1) != c
  {
  }
}
