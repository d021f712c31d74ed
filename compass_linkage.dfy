/*
  Which rings an action turns (`navigation_compass_solver/src/linkage.rs`):
  three flags packed into the low three bits of a byte, bit 2 for the
  inner ring, bit 1 for the middle ring and bit 0 for the outer ring.
*/
module CompassLinkage {

  /** A `u8`. */
  type Byte = bv8

  /** The three rings of the compass. */
  datatype Part = Inner | Middle | Outer

  datatype Linkage = Linkage(inner: bool, middle: bool, outer: bool)
  {
    /** Whether this linkage turns ring `p`. */
    predicate Turns(p: Part)
    {
      match p
      case Inner => inner
      case Middle => middle
      case Outer => outer
    }

    /** `to_u8`: the flags as a mask. */
    function ToU8(): (m: Byte)
      ensures m <= 7
    {
      (AsU8(inner) << 2) | (AsU8(middle) << 1) | AsU8(outer)
    }

    /** The `{:03b}` rendering used by `Debug`: the mask in binary, padded with zeros to three digits. */
    function Debug(): string
    {
      PadZeros(Binary(ToU8() as nat), 3)
    }
  }

  /** `b as u8`. */
  function AsU8(b: bool): Byte
  {
    if b then 1 else 0
  }

  /** `Linkage::new`: read the flags off the low three bits, ignoring the rest. */
  function New(mask: Byte): Linkage
  {
    Linkage(mask & 4 != 0, mask & 2 != 0, mask & 1 != 0)
  }

  /** The bit a ring has in the mask. */
  function Bit(p: Part): Byte
  {
    match p
    case Inner => 4
    case Middle => 2
    case Outer => 1
  }

  /** `new` gives each ring the flag of its bit. */
  lemma NewReadsBits(mask: Byte, p: Part)
    ensures New(mask).Turns(p) <==> mask & Bit(p) != 0
  {
  }

  /** Going through `new` keeps the three low bits and drops the others. */
  lemma ToU8OfNew(mask: Byte)
    ensures New(mask).ToU8() == mask & 7
  {
    var b2, b1, b0 := mask & 4, mask & 2, mask & 1;
    assert mask & 7 == b2 | b1 | b0;
  }

  /** A linkage survives the trip through its mask. */
  lemma NewOfToU8(l: Linkage)
    ensures New(l.ToU8()) == l
  {
  }

  /** Each ring's flag is set in the mask exactly when the linkage turns that ring. */
  lemma ToU8SetsBits(l: Linkage, p: Part)
    ensures l.ToU8() & Bit(p) != 0 <==> l.Turns(p)
  {
  }

  /** A binary digit. */
  function Digit(b: nat): (c: char)
    requires b < 2
    ensures c == '0' || c == '1'
  {
    if b == 0 then '0' else '1'
  }

  /** `n` in binary, most significant digit first, without leading zeros (zero is "0"). */
  function Binary(n: nat): (s: string)
    ensures |s| >= 1
  {
    if n < 2 then [Digit(n)] else Binary(n / 2) + [Digit(n % 2)]
  }

  /** Left-pad `s` with zeros to at least `width` characters, as the `0` flag of a format does. */
  function PadZeros(s: string, width: nat): (r: string)
    ensures |r| == if |s| >= width then |s| else width
  {
    if |s| >= width then s else seq(width - |s|, _ => '0') + s
  }

  /**
    The rendering has exactly three characters, each '0' or '1'; the first
    stands for the inner ring, the second for the middle ring and the third
    for the outer ring.
   */
  lemma DebugShape(l: Linkage)
    ensures |l.Debug()| == 3
    ensures forall i :: 0 <= i < 3 ==> l.Debug()[i] == '0' || l.Debug()[i] == '1'
    ensures l.Debug()[0] == '1' <==> l.inner
    ensures l.Debug()[1] == '1' <==> l.middle
    ensures l.Debug()[2] == '1' <==> l.outer
  {
    var n := l.ToU8() as nat;
    BitsAsNumber(l);
    var d := [Digit(n / 4), Digit(n / 2 % 2), Digit(n % 2)];
    assert l.Debug() == d by {
      ThreeDigits(n);
    }
    FlagDigits(n, l.inner, l.middle, l.outer);
  }

  /** The three binary digits of a mask built from three flags are those flags. */
  lemma FlagDigits(n: nat, a: bool, b: bool, c: bool)
    requires n == (if a then 4 else 0) + (if b then 2 else 0) + (if c then 1 else 0)
    ensures n / 4 < 2 && (Digit(n / 4) == '1' <==> a)
    ensures Digit(n / 2 % 2) == '1' <==> b
    ensures Digit(n % 2) == '1' <==> c
  {
  }

  /** A number below 8 renders as its three binary digits. */
  lemma ThreeDigits(n: nat)
    requires n < 8
    ensures PadZeros(Binary(n), 3) == [Digit(n / 4), Digit(n / 2 % 2), Digit(n % 2)]
  {
    if n < 2 {
      assert Binary(n) == [Digit(n)];
      assert seq(2, _ => '0') == ['0', '0'];
    } else if n < 4 {
      assert Binary(n / 2) == [Digit(1)];
      assert Binary(n) == [Digit(1), Digit(n % 2)];
      assert seq(1, _ => '0') == ['0'];
    } else {
      assert Binary(n / 4) == [Digit(1)];
      assert Binary(n / 2) == [Digit(1), Digit(n / 2 % 2)];
    }
  }

  /** The mask read as a number. */
  lemma BitsAsNumber(l: Linkage)
    ensures l.ToU8() as nat == (if l.inner then 4 else 0) + (if l.middle then 2 else 0) + (if l.outer then 1 else 0)
  {
    var m := l.ToU8();
    match l
    case Linkage(false, false, false) => assert m == 0;
    case Linkage(false, false, true) => assert m == 1;
    case Linkage(false, true, false) => assert m == 2;
    case Linkage(false, true, true) => assert m == 3;
    case Linkage(true, false, false) => assert m == 4;
    case Linkage(true, false, true) => assert m == 5;
    case Linkage(true, true, false) => assert m == 6;
    case Linkage(true, true, true) => assert m == 7;
  }
}
