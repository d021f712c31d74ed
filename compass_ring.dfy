/*
  One ring of the navigation compass (`navigation_compass_solver/src/ring.rs`).

  A ring shows one of six positions. Rotating it moves `current` by
  `direction * num` positions and brings the result back into 0..=5.
  The fields have Rust's fixed widths (`current: i8`, `num: u8`,
  `direction: i8`) and the arithmetic is written out the way a release
  build performs it: `num as i8` reinterprets the byte, `*` and `+=`
  wrap around modulo 2^8, and `%` truncates toward zero.
*/
module CompassRing {

  type I8 = x: int | -128 <= x < 128
  type U8 = x: int | 0 <= x < 256

  /** Wrap-around into the `i8` range, as a release build does on overflow. */
  function WrapI8(x: int): (r: I8)
    ensures (r - x) % 256 == 0
    ensures -128 <= x < 128 ==> r == x
  {
    (x + 128) % 256 - 128
  }

  /** `n as i8` for a `u8`: the same byte read as a signed number. */
  function AsI8(n: U8): (r: I8)
    ensures n < 128 ==> r == n
    ensures n >= 128 ==> r == n - 256
  {
    WrapI8(n)
  }

  /** Rust's `% 6` on integers: the remainder takes the sign of the dividend. */
  function Rem6(a: int): (r: int)
    ensures -6 < r < 6
    ensures a >= 0 ==> r == a % 6
    ensures a < 0 ==> r <= 0 && (r - a) % 6 == 0
  {
    if a >= 0 then a % 6 else -((-a) % 6)
  }

  /** The `+ 6` fix-up turns Rust's remainder into the never-negative one. */
  lemma FixedUpRemainder(a: int)
    ensures (if Rem6(a) < 0 then Rem6(a) + 6 else Rem6(a)) == a % 6
  {
    var rem := Rem6(a);
    if a < 0 {
      if rem < 0 {
        assert (rem + 6 - a) % 6 == 0;
      } else {
        assert rem == 0;
      }
    }
  }

  /** The contents of a ring, as a value. */
  datatype RingValue = RingValue(current: I8, num: U8, direction: I8)
  {
    /** The amount one rotation adds: `direction * num as i8`, wrapped. */
    function Step(): I8
    {
      WrapI8(direction * AsI8(num))
    }

    /** The ring after one `rotate`. */
    function Rotated(): (r: RingValue)
      ensures 0 <= r.current < 6
      ensures r.num == num && r.direction == direction
    {
      var moved := WrapI8(current + Step());
      var rem := Rem6(moved);
      RingValue(if rem < 0 then rem + 6 else rem, num, direction)
    }

    /** `k` rotations in a row. */
    function Iterate(k: nat): (r: RingValue)
      ensures r.num == num && r.direction == direction
    {
      if k == 0 then this else Iterate(k - 1).Rotated()
    }

    /** No fixed-width operation of `rotate` overflows while `current` stays in 0..=5. */
    predicate Safe()
    {
      num < 128 && -128 <= direction * num && direction * num + 5 < 128
    }
  }

  /**
    Without overflow, one rotation is `current + direction * num` taken
    modulo 6 the mathematical way (never negative): the `+ 6` fix-up turns
    Rust's truncating remainder into that.
   */
  lemma RotatedIsEuclidean(v: RingValue)
    requires v.num < 128 && -128 <= v.direction * v.num < 128
    requires -128 <= v.current + v.direction * v.num < 128
    ensures v.Rotated().current == (v.current + v.direction * v.num) % 6
  {
    var d := v.direction * v.num;
    assert v.Step() == d;
    FixedUpRemainder(v.current + d);
  }

  /**
    Starting in 0..=5 and without overflow, `k` rotations move the ring by
    `k * direction * num` positions modulo 6.
   */
  lemma {:induction false} IterateMovesBy(v: RingValue, k: nat)
    requires v.Safe() && 0 <= v.current < 6
    ensures v.Iterate(k).current == (v.current + k * (v.direction * v.num)) % 6
  {
    if k == 0 {
      assert v.Iterate(k) == v;
      MultipleOfSix(v.current, 0);
    } else {
      IterateMovesBy(v, k - 1);
      IterateStep(v, k);
    }
  }

  /** The induction step: if `k - 1` rotations moved the ring by `(k - 1) * direction * num`, `k` move it by `k * direction * num`. */
  lemma IterateStep(v: RingValue, k: nat)
    requires v.Safe() && 0 <= v.current < 6 && k > 0
    requires v.Iterate(k - 1).current == (v.current + (k - 1) * (v.direction * v.num)) % 6
    ensures v.Iterate(k).current == (v.current + k * (v.direction * v.num)) % 6
  {
    var d := v.direction * v.num;
    var w := v.Iterate(k - 1);
    assert w.Safe() && 0 <= w.current < 6;
    RotatedInRange(w);
    assert v.Iterate(k).current == (w.current + d) % 6;
    OneMoreStep(v.current, k, d);
  }

  /** From a position in 0..=5 and without overflow, one rotation moves by `direction * num` modulo 6. */
  lemma RotatedInRange(w: RingValue)
    requires w.Safe() && 0 <= w.current < 6
    ensures w.Rotated().current == (w.current + w.direction * w.num) % 6
  {
    RotatedIsEuclidean(w);
  }

  /** One more step of `d` after `k - 1` of them, modulo 6. */
  lemma OneMoreStep(c: int, k: nat, d: int)
    requires k > 0
    ensures ((c + (k - 1) * d) % 6 + d) % 6 == (c + k * d) % 6
  {
    ModAddLeft(c + (k - 1) * d, d);
    assert (k - 1) * d + d == k * d;
  }

  /** Adding after reducing modulo 6 is the same as adding first. */
  lemma ModAddLeft(a: int, d: int)
    ensures (a % 6 + d) % 6 == (a + d) % 6
  {
    var q := a / 6;
    assert a == 6 * q + a % 6;
    assert a + d == (a % 6 + d) + 6 * q;
  }

  /** Six rotations bring a ring in 0..=5 back to where it was. */
  lemma SixRotationsReturn(v: RingValue)
    requires v.Safe() && 0 <= v.current < 6
    ensures v.Iterate(6) == v
  {
    IterateMovesBy(v, 6);
    MultipleOfSix(v.current, v.direction * v.num);
  }

  /** Adding a multiple of 6 to a position in 0..=5 lands on the same position. */
  lemma MultipleOfSix(c: int, d: int)
    requires 0 <= c < 6
    ensures (c + 6 * d) % 6 == c
  {
  }

  /** `struct Ring`: a ring whose `rotate` updates `current` in place. */
  class Ring {
    var current: I8
    var num: U8
    var direction: I8

    /** The ring's fields, as a value. */
    function Value(): RingValue
      reads this
    {
      RingValue(current, num, direction)
    }

    /** `Ring::new`. */
    constructor (current: I8, num: U8, direction: I8)
      ensures Value() == RingValue(current, num, direction)
    {
      this.current := current;
      this.num := num;
      this.direction := direction;
    }

    /** `rotate`: add the step with wrap-around, take Rust's `%`, then fix up a negative remainder. */
    method Rotate()
      modifies this
      ensures Value() == old(Value()).Rotated()
    {
      current := WrapI8(current + WrapI8(direction * AsI8(num)));
      current := Rem6(current);
      if current < 0 {
        current := current + 6;
      }
    }

    /** `#[derive(Clone)]`: a new ring with the same fields. */
    method Clone() returns (r: Ring)
      ensures fresh(r) && r.Value() == Value()
    {
      r := new Ring(current, num, direction);
    }
  }
}
