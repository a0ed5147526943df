/** The field GF(2^8) of section 4.2 of FIPS 197, as the loops of the Shamir code compute it. */
module Gf256 {

  type Byte = bv8

  function Add(a: Byte, b: Byte): Byte {
    a ^ b
  }

  function Xtime(a: Byte): Byte {
    if a & 0x80 != 0 then (a << 1) ^ 0x1b else a << 1
  }

  predicate Odd(b: Byte) {
    b & 1 != 0
  }

  function Half(b: Byte): Byte {
    b >> 1
  }

  /** What `n` rounds of the multiplication loop accumulate from the registers `a` and `b`. */
  function Rounds(a: Byte, b: Byte, n: nat): Byte
    decreases n
  {
    if n == 0 then 0
    else if Odd(b) then Add(a, Rounds(Xtime(a), Half(b), n - 1))
    else Rounds(Xtime(a), Half(b), n - 1)
  }

  /** The bit positions of a byte; the loop makes one round for each. */
  const POSITIONS: seq<nat> := [0, 1, 2, 3, 4, 5, 6, 7]

  function Mul(a: Byte, b: Byte): Byte {
    Rounds(a, b, |POSITIONS|)
  }

  function Pow(a: Byte, e: nat): Byte {
    if e == 0 then 1 else Mul(a, Pow(a, e - 1))
  }

  function Inv(a: Byte): Byte {
    Pow(a, 254)
  }

  /** The byte with numeric value `x`. */
  function ByteOf(x: int): (b: Byte)
    requires 0 <= x < 256
    ensures b as int == x
    decreases x
  {
    if x == 0 then 0 else ByteOf(x - 1) + 1
  }

  // ---- addition ----

  lemma AddComm(a: Byte, b: Byte)
    ensures Add(a, b) == Add(b, a)
  {}

  lemma AddAssoc(a: Byte, b: Byte, c: Byte)
    ensures Add(Add(a, b), c) == Add(a, Add(b, c))
  {}

  lemma AddZero(a: Byte)
    ensures Add(a, 0) == a && Add(0, a) == a && Add(a, a) == 0
  {}

  lemma AddExchange(a: Byte, b: Byte, c: Byte, d: Byte)
    ensures Add(Add(a, b), Add(c, d)) == Add(Add(a, c), Add(b, d))
  {
    hide Add;
    AddAssoc(a, b, Add(c, d)); AddAssoc(b, c, d); AddComm(b, c);
    AddAssoc(c, b, d); AddAssoc(a, c, Add(b, d));
  }

  lemma AddCancel(a: Byte, b: Byte)
    ensures Add(a, Add(a, b)) == b
    ensures Add(a, b) == 0 ==> a == b
  {
    hide Add;
    AddAssoc(a, a, b); AddZero(a); AddZero(b);
    if Add(a, b) == 0 { assert a == Add(a, Add(a, b)); }
  }

  // ---- one step of the loop ----

  /** Xtime without its branch: the bit `c` that leaves at the top comes back at positions 0, 1, 3 and 4. */
  function XtimeForm(a: Byte): Byte {
    (a << 1) ^ (a >> 7) ^ ((a >> 7) << 1) ^ ((a >> 7) << 3) ^ ((a >> 7) << 4)
  }

  lemma TopBit(a: Byte)
    ensures a & 0x80 == 0 ==> a >> 7 == 0
    ensures a & 0x80 != 0 ==> a >> 7 == 1
  {}

  lemma XtimeIsForm(a: Byte)
    ensures Xtime(a) == XtimeForm(a)
  {
    TopBit(a);
  }

  lemma XtimeFormAdd(a: Byte, b: Byte)
    ensures XtimeForm(a ^ b) == XtimeForm(a) ^ XtimeForm(b)
  {}

  lemma XtimeAdd(a: Byte, b: Byte)
    ensures Xtime(Add(a, b)) == Add(Xtime(a), Xtime(b))
  {
    hide XtimeForm, Xtime;
    XtimeIsForm(a); XtimeIsForm(b); XtimeIsForm(a ^ b); XtimeFormAdd(a, b);
  }

  lemma HalfAdd(a: Byte, b: Byte)
    ensures Half(Add(a, b)) == Add(Half(a), Half(b))
    ensures Odd(Add(a, b)) <==> Odd(a) != Odd(b)
  {}

  // ---- multiplication ----

  lemma {:induction false} RoundsAddLeft(a: Byte, a': Byte, b: Byte, n: nat)
    ensures Rounds(Add(a, a'), b, n) == Add(Rounds(a, b, n), Rounds(a', b, n))
    decreases n
  {
    hide Add, Xtime, Odd, Half;
    if n == 0 {
      AddZero(0);
    } else {
      XtimeAdd(a, a');
      RoundsAddLeft(Xtime(a), Xtime(a'), Half(b), n - 1);
      AddExchange(a, a', Rounds(Xtime(a), Half(b), n - 1), Rounds(Xtime(a'), Half(b), n - 1));
    }
  }

  lemma {:induction false} RoundsAddRight(a: Byte, b: Byte, b': Byte, n: nat)
    ensures Rounds(a, Add(b, b'), n) == Add(Rounds(a, b, n), Rounds(a, b', n))
    decreases n
  {
    hide Add, Xtime, Odd, Half;
    if n == 0 {
      AddZero(0);
    } else {
      HalfAdd(b, b');
      RoundsAddRight(Xtime(a), Half(b), Half(b'), n - 1);
      var r, r' := Rounds(Xtime(a), Half(b), n - 1), Rounds(Xtime(a), Half(b'), n - 1);
      AddZero(a);
      AddExchange(a, r, a, r'); AddZero(Add(r, r'));
      AddAssoc(a, r, r');
      AddAssoc(r, a, r'); AddComm(r, a);
    }
  }

  lemma {:induction false} RoundsXtime(a: Byte, b: Byte, n: nat)
    ensures Rounds(Xtime(a), b, n) == Xtime(Rounds(a, b, n))
    decreases n
  {
    hide Add, Xtime, Odd, Half;
    if n == 0 {
      XtimeZero();
    } else {
      RoundsXtime(Xtime(a), Half(b), n - 1);
      XtimeAdd(a, Rounds(Xtime(a), Half(b), n - 1));
    }
  }

  lemma XtimeZero()
    ensures Xtime(0) == 0
  {}

  lemma {:induction false} RoundsOfZero(a: Byte, n: nat)
    ensures Rounds(a, 0, n) == 0
    decreases n
  {
    if n > 0 {
      assert Half(0) == 0 && !Odd(0);
      RoundsOfZero(Xtime(a), n - 1);
    }
  }

  /** Halving `b` `n` times leaves nothing: `b` has its bits below position `n`. */
  predicate Below(b: Byte, n: nat)
    decreases n
  {
    if n == 0 then b == 0 else Below(Half(b), n - 1)
  }

  lemma ByteBelow(b: Byte)
    ensures Below(b, 8)
  {
    EightHalves(b);
    var h := Half(Half(Half(Half(b))));
    assert Below(h, 4) by { assert Below(Half(Half(h)), 2); }
    assert Below(Half(Half(b)), 6);
  }

  lemma EightHalves(b: Byte)
    ensures Half(Half(Half(Half(Half(Half(Half(Half(b)))))))) == 0
  {}

  lemma Split(b: Byte)
    ensures b == Add(if Odd(b) then 1 else 0, Xtime(Half(b)))
  {
    assert Half(b) & 0x80 == 0;
  }

  lemma {:induction false} RoundsEnough(a: Byte, b: Byte, n: nat)
    requires Below(b, n)
    ensures Rounds(a, b, n + 1) == Rounds(a, b, n)
    decreases n
  {
    hide Add, Xtime, Odd, Half;
    if n > 0 {
      RoundsEnough(Xtime(a), Half(b), n - 1);
    } else {
      RoundsOfZero(a, 1);
    }
  }

  lemma MulZeroOne(a: Byte)
    ensures Mul(a, 0) == 0
    ensures Mul(a, 1) == a
  {
    hide Xtime;
    RoundsOfZero(a, 8); RoundsOfZero(Xtime(a), 7); AddZero(a);
    assert Odd(1) && Half(1) == 0;
  }

  lemma MulXtimeLeft(a: Byte, b: Byte)
    ensures Mul(Xtime(a), b) == Xtime(Mul(a, b))
  {
    RoundsXtime(a, b, 8);
  }

  lemma MulAddLeft(a: Byte, a': Byte, b: Byte)
    ensures Mul(Add(a, a'), b) == Add(Mul(a, b), Mul(a', b))
  {
    RoundsAddLeft(a, a', b, 8);
  }

  lemma MulAddRight(a: Byte, b: Byte, b': Byte)
    ensures Mul(a, Add(b, b')) == Add(Mul(a, b), Mul(a, b'))
  {
    RoundsAddRight(a, b, b', 8);
  }

  lemma MulShiftRight(a: Byte, b: Byte)
    requires Below(b, 7)
    ensures Mul(a, b << 1) == Xtime(Mul(a, b))
  {
    assert !Odd(b << 1);
    SevenHalves(b);
    assert Half(b << 1) == b;
    hide Odd, Half, Xtime;
    RoundsEnough(Xtime(a), b, 7);
    RoundsXtime(a, b, 8);
  }

  lemma SevenHalves(b: Byte)
    requires Below(b, 7)
    ensures b & 0x80 == 0
  {}

  lemma EightShifts(a: Byte)
    ensures
      var a1 := Xtime(a); var a2 := Xtime(a1); var a3 := Xtime(a2); var a4 := Xtime(a3);
      Xtime(Xtime(Xtime(Xtime(a4)))) == Add(a, Add(a1, Add(a3, a4)))
  {}

  lemma MulTop(a: Byte)
    ensures Mul(a, 0x80) == Xtime(Xtime(Xtime(Xtime(Xtime(Xtime(Xtime(a)))))))
  {
    var a2 := Xtime(Xtime(a)); var a4 := Xtime(Xtime(a2)); var a6 := Xtime(Xtime(a4));
    Bits();
    hide Odd, Half, Xtime, Add;
    RoundsOfZero(Xtime(Xtime(a6)), 0); AddZero(Xtime(a6));
    assert Rounds(a6, 2, 2) == Xtime(a6);
    assert Rounds(a4, 8, 4) == Xtime(a6);
    assert Rounds(a2, 0x20, 6) == Xtime(a6);
    assert Rounds(a, 0x80, 8) == Rounds(Xtime(a), 0x40, 7) == Rounds(a2, 0x20, 6);
  }

  lemma MulTail(a: Byte)
    ensures Mul(a, 0x1b) == Add(a, Add(Xtime(a), Add(Xtime(Xtime(Xtime(a))), Xtime(Xtime(Xtime(Xtime(a)))))))
  {
    var a1 := Xtime(a); var a2 := Xtime(a1); var a3 := Xtime(a2); var a4 := Xtime(a3);
    Bits();
    hide Odd, Half, Xtime, Add;
    RoundsOfZero(Xtime(a4), 3); AddZero(a4);
    assert Rounds(a3, 3, 5) == Add(a3, a4);
    assert Rounds(a1, 0x0d, 7) == Add(a1, Rounds(a2, 6, 6));
  }

  /** The reduction polynomial: x^8 is x^4 + x^3 + x + 1, whatever it multiplies. */
  lemma MulReduction(a: Byte)
    ensures Mul(a, 0x1b) == Xtime(Mul(a, 0x80))
  {
    EightShifts(a);
    hide Mul, Xtime, Add;
    MulTop(a); MulTail(a);
  }

  lemma Bits()
    ensures Half(0x80) == 0x40 && Half(0x40) == 0x20 && Half(0x20) == 0x10 && Half(0x10) == 8
    ensures Half(8) == 4 && Half(4) == 2 && Half(2) == 1 && Half(1) == 0
    ensures !Odd(0x80) && !Odd(0x40) && !Odd(0x20) && !Odd(0x10) && !Odd(8) && !Odd(4) && !Odd(2) && Odd(1)
    ensures Half(0x1b) == 0x0d && Half(0x0d) == 6 && Half(6) == 3 && Half(3) == 1
    ensures Odd(0x1b) && Odd(0x0d) && !Odd(6) && Odd(3)
  {}

  lemma ClearTop(b: Byte)
    ensures Below(b & 0x7f, 7)
    ensures b & 0x80 == 0 ==> b == b & 0x7f && Xtime(b) == b << 1
    ensures b & 0x80 != 0 ==> b == Add(b & 0x7f, 0x80) && Xtime(b) == Add((b & 0x7f) << 1, 0x1b)
  {
    var c := b & 0x7f;
    assert Half(Half(Half(Half(Half(Half(Half(c))))))) == 0;
    assert Below(Half(Half(Half(Half(c)))), 3);
    assert Below(Half(Half(c)), 5);
  }

  lemma MulXtimeRight(a: Byte, b: Byte)
    ensures Mul(a, Xtime(b)) == Xtime(Mul(a, b))
  {
    var c := b & 0x7f;
    ClearTop(b);
    hide Xtime, Add, Mul;
    MulShiftRight(a, c);
    if b & 0x80 != 0 {
      MulReduction(a);
      MulAddRight(a, c, 0x80);
      MulAddRight(a, c << 1, 0x1b);
      XtimeAdd(Mul(a, c), Mul(a, 0x80));
    }
  }

  lemma {:induction false} MulCommBelow(a: Byte, b: Byte, n: nat)
    requires Below(a, n)
    ensures Mul(a, b) == Mul(b, a)
    decreases n
  {
    hide Mul, Add, Xtime, Half;
    MulZeroOne(b);
    ZeroOneMul(b);
    if n > 0 {
      var o: Byte := if Odd(a) then 1 else 0;
      Split(a);
      MulCommBelow(Half(a), b, n - 1);
      MulAddLeft(o, Xtime(Half(a)), b);
      MulAddRight(b, o, Xtime(Half(a)));
      MulXtimeLeft(Half(a), b);
      MulXtimeRight(b, Half(a));
    }
  }

  lemma ZeroOneMul(b: Byte)
    ensures Mul(0, b) == 0
    ensures Mul(1, b) == b
  {
    ByteBelow(b);
    ZeroOneMulBelow(b, 8);
  }

  lemma {:induction false} ZeroOneMulBelow(b: Byte, n: nat)
    requires Below(b, n)
    ensures Mul(0, b) == 0
    ensures Mul(1, b) == b
    decreases n
  {
    hide Mul, Add, Xtime, Half;
    if n == 0 {
      MulZeroOne(0); MulZeroOne(1);
    } else {
      var o: Byte := if Odd(b) then 1 else 0;
      Split(b);
      ZeroOneMulBelow(Half(b), n - 1);
      MulAddRight(0, o, Xtime(Half(b))); MulAddRight(1, o, Xtime(Half(b)));
      MulXtimeRight(0, Half(b)); MulXtimeRight(1, Half(b));
      MulZeroOne(0); MulZeroOne(1); XtimeZero(); AddZero(0);
    }
  }

  lemma MulComm(a: Byte, b: Byte)
    ensures Mul(a, b) == Mul(b, a)
  {
    ByteBelow(a);
    MulCommBelow(a, b, 8);
  }

  lemma {:induction false} MulAssocBelow(a: Byte, b: Byte, c: Byte, n: nat)
    requires Below(c, n)
    ensures Mul(Mul(a, b), c) == Mul(a, Mul(b, c))
    decreases n
  {
    hide Mul, Add, Xtime, Half;
    MulZeroOne(a); MulZeroOne(b); MulZeroOne(Mul(a, b));
    if n > 0 {
      var o: Byte := if Odd(c) then 1 else 0;
      var h := Half(c);
      Split(c);
      MulAssocBelow(a, b, h, n - 1);
      MulAddRight(Mul(a, b), o, Xtime(h)); MulXtimeRight(Mul(a, b), h);
      MulAddRight(b, o, Xtime(h)); MulXtimeRight(b, h);
      MulAddRight(a, Mul(b, o), Xtime(Mul(b, h))); MulXtimeRight(a, Mul(b, h));
    }
  }

  lemma MulAssoc(a: Byte, b: Byte, c: Byte)
    ensures Mul(Mul(a, b), c) == Mul(a, Mul(b, c))
  {
    ByteBelow(c);
    MulAssocBelow(a, b, c, 8);
  }

  // ---- powers and inverses ----

  function Bit(b: Byte): Byte {
    if Odd(b) then 1 else 0
  }

  lemma SquareAdd(a: Byte, b: Byte)
    ensures Mul(Add(a, b), Add(a, b)) == Add(Mul(a, a), Mul(b, b))
  {
    hide Mul, Add;
    MulAddLeft(a, b, Add(a, b)); MulAddRight(a, a, b); MulAddRight(b, a, b);
    MulComm(a, b);
    AddAssoc(Mul(a, a), Mul(a, b), Add(Mul(a, b), Mul(b, b)));
    AddCancel(Mul(a, b), Mul(b, b));
  }

  lemma SquareMul(a: Byte, b: Byte)
    ensures Mul(Mul(a, b), Mul(a, b)) == Mul(Mul(a, a), Mul(b, b))
  {
    hide Mul;
    MulAssoc(a, b, Mul(a, b)); MulComm(a, b); MulAssoc(b, b, a); MulComm(Mul(b, b), a);
    MulAssoc(a, a, Mul(b, b)); MulAssoc(b, a, b); MulComm(b, Mul(a, b)); MulAssoc(a, b, b); MulAssoc(b, b, a);
  }

  /** Squaring moves each bit to twice its position. */
  lemma SquareSplit(e: Byte)
    ensures Mul(e, e) == Add(Bit(e), Xtime(Xtime(Mul(Half(e), Half(e)))))
  {
    hide Mul, Add, Xtime, Half;
    Split(e);
    SquareAdd(Bit(e), Xtime(Half(e)));
    MulXtimeLeft(Half(e), Xtime(Half(e)));
    MulXtimeRight(Half(e), Half(e));
    MulZeroOne(Bit(e));
  }

  lemma SpreadFixed(e: Byte)
    requires
      var e1 := Half(e); var e2 := Half(e1); var e3 := Half(e2); var e4 := Half(e3);
      var e5 := Half(e4); var e6 := Half(e5); var e7 := Half(e6);
      e == Add(Bit(e), Xtime(Xtime(Add(Bit(e1), Xtime(Xtime(Add(Bit(e2), Xtime(Xtime(Add(Bit(e3), Xtime(Xtime(
          Add(Bit(e4), Xtime(Xtime(Add(Bit(e5), Xtime(Xtime(Add(Bit(e6), Xtime(Xtime(Bit(e7))))))))))))))))))))))
    ensures e == 0 || e == 1
  {}

  /** The only bytes that equal their own square are 0 and 1. */
  lemma Idempotent(e: Byte)
    requires Mul(e, e) == e
    ensures e == 0 || e == 1
  {
    var e1 := Half(e); var e2 := Half(e1); var e3 := Half(e2); var e4 := Half(e3);
    var e5 := Half(e4); var e6 := Half(e5); var e7 := Half(e6);
    assert Half(e7) == 0 by { EightHalves(e); }
    assert Bit(e) == if Odd(e) then 1 else 0;
    hide Mul, Add, Xtime, Half, Bit;
    SquareSplit(e); SquareSplit(e1); SquareSplit(e2); SquareSplit(e3);
    SquareSplit(e4); SquareSplit(e5); SquareSplit(e6); SquareSplit(e7);
    MulZeroOne(0); XtimeZero(); AddZero(Bit(e7));
    SpreadFixed(e);
  }

  /** `a` squared `n` times. */
  function Squares(a: Byte, n: nat): Byte
    decreases n
  {
    if n == 0 then a else Squares(Mul(a, a), n - 1)
  }

  lemma {:induction false} SquaresAdd(a: Byte, b: Byte, n: nat)
    ensures Squares(Add(a, b), n) == Add(Squares(a, n), Squares(b, n))
    decreases n
  {
    hide Mul, Add;
    if n > 0 {
      SquareAdd(a, b);
      SquaresAdd(Mul(a, a), Mul(b, b), n - 1);
    }
  }

  lemma {:induction false} SquaresMul(a: Byte, b: Byte, n: nat)
    ensures Squares(Mul(a, b), n) == Mul(Squares(a, n), Squares(b, n))
    decreases n
  {
    hide Mul;
    if n > 0 {
      SquareMul(a, b);
      SquaresMul(Mul(a, a), Mul(b, b), n - 1);
    }
  }

  lemma MulTwo(a: Byte)
    ensures Mul(a, 2) == Xtime(a)
  {
    MulXtimeRight(a, 1);
    assert Xtime(1) == 2;
    hide Mul, Xtime;
    MulZeroOne(a);
  }

  lemma SquaresOfTwo()
    ensures Squares(2, 8) == 2
  {
    SquareChain();
    hide Mul;
    assert Squares(0x4d, 2) == 2;
    assert Squares(0x5e, 4) == 2;
    assert Squares(0x10, 6) == 2;
  }

  lemma SquareChain()
    ensures Mul(2, 2) == 4 && Mul(4, 4) == 0x10 && Mul(0x10, 0x10) == 0x1b && Mul(0x1b, 0x1b) == 0x5e
    ensures Mul(0x5e, 0x5e) == 0xe4 && Mul(0xe4, 0xe4) == 0x4d && Mul(0x4d, 0x4d) == 0xfa && Mul(0xfa, 0xfa) == 2
  {
    hide Mul;
    MulZeroOne(0);
    SquareSplit(1); SquareSplit(2); SquareSplit(4); SquareSplit(8); SquareSplit(0x10);
    SquareSplit(3); SquareSplit(6); SquareSplit(0x0d); SquareSplit(0x1b);
    SquareSplit(5); SquareSplit(0x0b); SquareSplit(0x17); SquareSplit(0x2f); SquareSplit(0x5e);
    SquareSplit(7); SquareSplit(0x0e); SquareSplit(0x1c); SquareSplit(0x39); SquareSplit(0x72); SquareSplit(0xe4);
    SquareSplit(9); SquareSplit(0x13); SquareSplit(0x26); SquareSplit(0x4d);
    SquareSplit(0x0f); SquareSplit(0x1f); SquareSplit(0x3e); SquareSplit(0x7d); SquareSplit(0xfa);
  }

  /** Squaring eight times is the identity: a^256 == a. */
  lemma {:induction false} SquaresEight(a: Byte, n: nat)
    requires Below(a, n)
    ensures Squares(a, 8) == a
    decreases n
  {
    hide Mul, Add, Xtime, Half;
    MulZeroOne(0); MulZeroOne(1);
    assert Squares(0, 6) == 0 && Squares(1, 6) == 1 by {
      assert Squares(0, 2) == 0 && Squares(1, 2) == 1;
      assert Squares(0, 4) == 0 && Squares(1, 4) == 1;
    }
    if n > 0 {
      var h := Half(a);
      SquaresEight(h, n - 1);
      Split(a);
      SquaresAdd(Bit(a), Xtime(h), 8);
      MulTwo(h);
      SquaresMul(h, 2, 8);
      SquaresOfTwo();
    }
  }

  lemma {:induction false} PowAdd(a: Byte, m: nat, n: nat)
    ensures Pow(a, m + n) == Mul(Pow(a, m), Pow(a, n))
    decreases m
  {
    hide Mul;
    if m == 0 {
      ZeroOneMul(Pow(a, n));
    } else {
      PowAdd(a, m - 1, n);
      MulAssoc(a, Pow(a, m - 1), Pow(a, n));
    }
  }

  lemma {:induction false} PowSquare(a: Byte, n: nat)
    ensures Pow(Mul(a, a), n) == Pow(a, 2 * n)
  {
    hide Mul;
    if n > 0 {
      PowSquare(a, n - 1);
      PowAdd(a, 2, 2 * n - 2);
      MulZeroOne(a);
      assert Pow(a, 1) == a && Pow(a, 2) == Mul(a, a);
    }
  }

  lemma PowOne(a: Byte)
    ensures Pow(a, 1) == a
  {
    hide Mul;
    MulZeroOne(a);
    assert Pow(a, 0) == 1;
  }

  lemma Pow256(a: Byte)
    ensures Pow(a, 256) == a
  {
    hide Mul;
    ByteBelow(a);
    SquaresEight(a, 8);
    PowIsSquares(a, 8);
    assert Two(8) == 256;
  }

  function Two(n: nat): nat {
    if n == 0 then 1 else 2 * Two(n - 1)
  }

  lemma {:induction false} PowIsSquares(a: Byte, n: nat)
    ensures Pow(a, Two(n)) == Squares(a, n)
    decreases n
  {
    hide Mul;
    if n == 0 {
      PowOne(a);
    } else {
      PowIsSquares(Mul(a, a), n - 1);
      PowSquare(a, Two(n - 1));
    }
  }

  /** ginv: the 254th power of a non-zero byte is its multiplicative inverse. */
  lemma InvMul(a: Byte)
    requires a != 0
    ensures Mul(a, Inv(a)) == 1
  {
    hide Mul;
    var e := Pow(a, 255);
    PowAdd(a, 255, 255); PowAdd(a, 256, 254);
    Pow256(a);
    assert Pow(a, 510) == Mul(a, Pow(a, 254)) == e;
    Idempotent(e);
    if e == 0 {
      assert Pow(a, 256) == Mul(a, e);
      MulZeroOne(a);
    }
  }

  // ---- the reference: carry-less multiplication modulo 0x11b ----

  function Plus(p: bv16, q: bv16): bv16 {
    p ^ q
  }

  function TimesX(p: bv16): bv16 {
    p << 1
  }

  function Wide(a: Byte): bv16 {
    a as bv16
  }

  /** The product of the polynomials `a` and (the low `n` bits of) `b` over GF(2), nothing reduced. */
  function Carryless(a: Byte, b: Byte, n: nat): bv16
    decreases n
  {
    if n == 0 then 0
    else if Odd(b) then Plus(Wide(a), TimesX(Carryless(a, Half(b), n - 1)))
    else TimesX(Carryless(a, Half(b), n - 1))
  }

  /** The carry-less product of `q` with 0x11b = x^8 + x^4 + x^3 + x + 1; exact while `q` is below 0x100. */
  function Multiple(q: bv16): bv16 {
    Plus(q, TimesX(Plus(q, TimesX(TimesX(Plus(q, TimesX(Plus(q, TimesX(TimesX(TimesX(TimesX(q))))))))))))
  }

  function Top(m: Byte): bv16 {
    if m & 0x80 != 0 then 1 else 0
  }

  lemma TimesXPlus(p: bv16, q: bv16)
    ensures TimesX(Plus(p, q)) == Plus(TimesX(p), TimesX(q))
  {}

  lemma WideXtime(m: Byte)
    ensures TimesX(Wide(m)) == Plus(Multiple(Top(m)), Wide(Xtime(m)))
  {}

  lemma WideAdd(a: Byte, b: Byte)
    ensures Wide(Add(a, b)) == Plus(Wide(a), Wide(b))
  {}

  lemma PlusAssoc(a: bv16, b: bv16, c: bv16)
    ensures Plus(a, Plus(b, c)) == Plus(Plus(a, b), c)
  {}

  lemma PlusComm(a: bv16, b: bv16)
    ensures Plus(a, b) == Plus(b, a)
  {}

  lemma PlusExchange(a: bv16, b: bv16, c: bv16, d: bv16)
    ensures Plus(Plus(a, b), Plus(c, d)) == Plus(Plus(a, c), Plus(b, d))
  {
    hide Plus;
    PlusAssoc(a, b, Plus(c, d)); PlusAssoc(b, c, d); PlusComm(b, c);
    PlusAssoc(c, b, d); PlusAssoc(a, c, Plus(b, d));
  }

  lemma MultiplePlus(p: bv16, q: bv16)
    ensures Multiple(Plus(p, q)) == Plus(Multiple(p), Multiple(q))
  {
    hide Plus, TimesX;
    var (p1, q1) := (TimesX(TimesX(TimesX(TimesX(p)))), TimesX(TimesX(TimesX(TimesX(q)))));
    assert TimesX(TimesX(TimesX(TimesX(Plus(p, q))))) == Plus(p1, q1) by {
      TimesXPlus(p, q); TimesXPlus(TimesX(p), TimesX(q));
      TimesXPlus(TimesX(TimesX(p)), TimesX(TimesX(q)));
      TimesXPlus(TimesX(TimesX(TimesX(p))), TimesX(TimesX(TimesX(q))));
    }
    var (p2, q2) := (Plus(p, p1), Plus(q, q1));
    PlusExchange(p, q, p1, q1); TimesXPlus(p2, q2);
    var (p3, q3) := (Plus(p, TimesX(p2)), Plus(q, TimesX(q2)));
    PlusExchange(p, q, TimesX(p2), TimesX(q2)); TimesXPlus(p3, q3); TimesXPlus(TimesX(p3), TimesX(q3));
    var (p4, q4) := (Plus(p, TimesX(TimesX(p3))), Plus(q, TimesX(TimesX(q3))));
    PlusExchange(p, q, TimesX(TimesX(p3)), TimesX(TimesX(q3))); TimesXPlus(p4, q4);
    PlusExchange(p, q, TimesX(p4), TimesX(q4));
  }

  lemma MultipleTimesX(q: bv16)
    ensures Multiple(TimesX(q)) == TimesX(Multiple(q))
  {
    hide Plus, TimesX;
    var q2 := Plus(q, TimesX(TimesX(TimesX(TimesX(q)))));
    var q3 := Plus(q, TimesX(q2));
    var q4 := Plus(q, TimesX(TimesX(q3)));
    TimesXPlus(q, TimesX(TimesX(TimesX(TimesX(q))))); TimesXPlus(q, TimesX(q2));
    TimesXPlus(q, TimesX(TimesX(q3))); TimesXPlus(q, TimesX(q4));
  }

  /** `q` has its bits below position `n`. */
  predicate Fits(q: bv16, n: nat)
    decreases n
  {
    if n == 0 then q == 0 else Fits(q >> 1, n - 1)
  }

  lemma {:induction false} FitsMore(q: bv16, m: nat, n: nat)
    requires m <= n && Fits(q, m)
    ensures Fits(q, n)
    decreases n
  {
    if n > 0 {
      if m == 0 { assert q >> 1 == 0; FitsMore(q >> 1, 0, n - 1); } else { FitsMore(q >> 1, m - 1, n - 1); }
    }
  }

  lemma FitsEight(q: bv16)
    requires Fits(q, 8)
    ensures q < 0x100
  {
    assert Fits(q >> 1 >> 1, 6);
    assert Fits(q >> 1 >> 1 >> 1 >> 1, 4);
    assert Fits(q >> 1 >> 1 >> 1 >> 1 >> 1 >> 1, 2);
  }

  lemma FitsStep(q: bv16, m: Byte, n: nat)
    requires n < 8 && Fits(q, n)
    ensures Fits(Plus(TimesX(q), Top(m)), n + 1)
  {
    FitsMore(q, n, 8);
    FitsEight(q);
    ShiftBack(q, m);
  }

  lemma ShiftBack(q: bv16, m: Byte)
    requires q < 0x100
    ensures Plus(TimesX(q), Top(m)) >> 1 == q
  {}

  lemma {:induction false} RoundsAreCarryless(a: Byte, b: Byte, n: nat) returns (q: bv16)
    requires n <= 8
    ensures Fits(q, n)
    ensures Carryless(a, b, n) == Plus(Multiple(q), Wide(Rounds(a, b, n)))
    decreases n
  {
    hide Add, Xtime, Half, Odd, Multiple, Top, Plus, TimesX, Wide, Fits;
    if n == 0 {
      q := 0;
      FitsZero();
    } else {
      var h := Half(b);
      var m := Rounds(a, h, n - 1);
      var q' := RoundsAreCarryless(a, h, n - 1);
      q := Plus(TimesX(q'), Top(m));
      FitsStep(q', m, n - 1);
      TimesXPlus(Multiple(q'), Wide(m));
      WideXtime(m);
      MultipleTimesX(q');
      MultiplePlus(TimesX(q'), Top(m));
      PlusAssoc(Multiple(TimesX(q')), Multiple(Top(m)), Wide(Xtime(m)));
      RoundsXtime(a, h, n - 1);
      WideAdd(a, Xtime(m));
      PlusAssoc(Wide(a), Multiple(q), Wide(Xtime(m)));
      PlusComm(Wide(a), Multiple(q));
      PlusAssoc(Multiple(q), Wide(a), Wide(Xtime(m)));
    }
  }

  lemma FitsZero()
    ensures Fits(0, 0)
    ensures Plus(Multiple(0), Wide(0)) == 0
  {}

  /** `r` is the remainder of `p` by 0x11b: they differ by a multiple of it. */
  ghost predicate IsRemainder(p: bv16, r: Byte) {
    exists q: bv16 :: q < 0x100 && p == Plus(Multiple(q), Wide(r))
  }

  lemma SmallMultiple(q: bv16, r: Byte)
    requires q < 0x100 && Multiple(q) == Wide(r)
    ensures r == 0
  {}

  lemma RemainderUnique(p: bv16, q: bv16, r: Byte, q': bv16, r': Byte)
    requires q < 0x100 && q' < 0x100
    requires p == Plus(Multiple(q), Wide(r)) == Plus(Multiple(q'), Wide(r'))
    ensures r == r'
  {
    assert Plus(q, q') < 0x100;
    assert Plus(Plus(Multiple(q), Wide(r)), Plus(Multiple(q'), Wide(r'))) == 0;
    hide Plus, Multiple, Wide, Add;
    PlusExchange(Multiple(q), Wide(r), Multiple(q'), Wide(r'));
    MultiplePlus(q, q');
    WideAdd(r, r');
    PlusCancel(Multiple(Plus(q, q')), Wide(Add(r, r')));
    SmallMultiple(Plus(q, q'), Add(r, r'));
    AddCancel(r, r');
  }

  lemma PlusCancel(a: bv16, b: bv16)
    requires Plus(a, b) == 0
    ensures a == b
  {}

  lemma RemainderIs(p: bv16, q: bv16, m: Byte, r: Byte)
    requires q < 0x100 && p == Plus(Multiple(q), Wide(m))
    ensures IsRemainder(p, r) <==> r == m
  {
    hide Multiple, Plus, Wide;
    if IsRemainder(p, r) {
      var q' :| q' < 0x100 && p == Plus(Multiple(q'), Wide(r));
      RemainderUnique(p, q', r, q, m);
    }
  }

  /** gmul is carry-less multiplication modulo 0x11b: its result is the remainder of the plain product, and only it. */
  lemma MulIsCarrylessModulo(a: Byte, b: Byte, r: Byte)
    ensures IsRemainder(Carryless(a, b, 8), r) <==> r == Mul(a, b)
  {
    hide Multiple, Plus, Wide, Carryless, Rounds, IsRemainder, Fits;
    var q := RoundsAreCarryless(a, b, 8);
    FitsEight(q);
    RemainderIs(Carryless(a, b, 8), q, Mul(a, b), r);
  }
}
