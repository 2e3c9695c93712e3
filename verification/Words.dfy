/** Unsigned machine integers as naturals: a byte is below 2^8 and a word below 2^32, wrap-around is
    written out with `%`, shifts are divisions, and exclusive or is defined bit by bit. */
module Words {
  const WORDS := 0x1_0000_0000

  type Byte = x: int | 0 <= x < 256
  type Word = x: int | 0 <= x < WORDS

  function Xor(a: nat, b: nat): nat
    decreases a + b
  {
    if a == 0 && b == 0 then 0 else 2 * Xor(a / 2, b / 2) + (a + b) % 2
  }

  lemma {:induction false} XorZero(a: nat)
    ensures Xor(a, 0) == a == Xor(0, a)
  {
    if a > 0 { XorZero(a / 2); }
  }

  lemma {:induction false} XorSelf(a: nat)
    ensures Xor(a, a) == 0
  {
    if a > 0 { XorSelf(a / 2); }
  }

  lemma {:induction false} XorCommutes(a: nat, b: nat)
    ensures Xor(a, b) == Xor(b, a)
    decreases a + b
  {
    if a + b > 0 { XorCommutes(a / 2, b / 2); }
  }

  lemma XorHalves(a: nat, b: nat)
    ensures Xor(a, b) / 2 == Xor(a / 2, b / 2)
    ensures Xor(a, b) % 2 == (a + b) % 2
  {}

  lemma EqualByHalves(a: nat, b: nat)
    requires a / 2 == b / 2 && a % 2 == b % 2
    ensures a == b
  {}

  lemma {:induction false} XorAssociates(a: nat, b: nat, c: nat)
    ensures Xor(Xor(a, b), c) == Xor(a, Xor(b, c))
    decreases a + b + c
  {
    hide Xor;
    if a + b + c == 0 {
      XorZero(0);
    } else {
      XorAssociates(a / 2, b / 2, c / 2);
      XorHalves(a, b);
      XorHalves(b, c);
      XorHalves(Xor(a, b), c);
      XorHalves(a, Xor(b, c));
      EqualByHalves(Xor(Xor(a, b), c), Xor(a, Xor(b, c)));
    }
  }

  lemma XorCancels(a: nat, b: nat, c: nat)
    requires Xor(a, c) == Xor(b, c) || Xor(c, a) == Xor(c, b)
    ensures a == b
  {
    XorCommutes(a, c);
    XorCommutes(b, c);
    XorAssociates(a, c, c);
    XorAssociates(b, c, c);
    XorSelf(c);
    XorZero(a);
    XorZero(b);
  }

  /** (a ^ b) ^ (c ^ d) == (a ^ c) ^ (b ^ d) */
  lemma XorInterchange(a: nat, b: nat, c: nat, d: nat)
    ensures Xor(Xor(a, b), Xor(c, d)) == Xor(Xor(a, c), Xor(b, d))
  {
    XorAssociates(a, b, Xor(c, d));
    XorAssociates(b, c, d);
    XorCommutes(b, c);
    XorAssociates(c, b, d);
    XorAssociates(a, c, Xor(b, d));
  }

  lemma XorEven(half: nat, b: nat)
    ensures Xor(2 * half, b) == 2 * Xor(half, b / 2) + b % 2
  {
    hide Xor;
    XorHalves(2 * half, b);
    assert 2 * half / 2 == half;
    assert (2 * half + b) % 2 == b % 2;
  }

  /** A word whose low byte is zero, with a byte put in: exclusive or is the sum. */
  lemma XorLowByte(high: nat, low: Byte)
    ensures Xor(256 * high, low) == 256 * high + low
  {
    hide Xor;
    XorEven(128 * high, low);
    XorEven(64 * high, low / 2);
    XorEven(32 * high, low / 4);
    XorEven(16 * high, low / 8);
    XorEven(8 * high, low / 16);
    XorEven(4 * high, low / 32);
    XorEven(2 * high, low / 64);
    XorEven(high, low / 128);
    XorZero(high);
    ByteDigits(low);
  }

  lemma XorScale(a: nat, b: nat)
    ensures Xor(256 * a, 256 * b) == 256 * Xor(a, b)
  {
    hide Xor;
    XorEven(128 * a, 256 * b);
    XorEven(64 * a, 128 * b);
    XorEven(32 * a, 64 * b);
    XorEven(16 * a, 32 * b);
    XorEven(8 * a, 16 * b);
    XorEven(4 * a, 8 * b);
    XorEven(2 * a, 4 * b);
    XorEven(a, 2 * b);
  }

  lemma ByteDigits(low: Byte)
    ensures low / 2 / 2 == low / 4 && low / 4 / 2 == low / 8 && low / 8 / 2 == low / 16
    ensures low / 16 / 2 == low / 32 && low / 32 / 2 == low / 64 && low / 64 / 2 == low / 128 && low / 128 / 2 == 0
  {}

  // ----- Shifts to the right -----

  function Right(a: nat, n: nat): nat
    decreases n
  {
    if n == 0 then a else Right(a / 2, n - 1)
  }

  lemma {:induction false} RightXor(a: nat, b: nat, n: nat)
    ensures Right(Xor(a, b), n) == Xor(Right(a, n), Right(b, n))
    decreases n
  {
    if n > 0 {
      XorHalves(a, b);
      RightXor(a / 2, b / 2, n - 1);
    }
  }

  lemma {:induction false} RightRight(a: nat, m: nat, n: nat)
    ensures Right(Right(a, m), n) == Right(a, m + n)
    decreases m
  {
    if m > 0 { RightRight(a / 2, m - 1, n); }
  }

  lemma Right4(a: nat)
    ensures Right(a, 4) == a / 16
  {
    assert Right(a, 4) == Right(a / 2 / 2, 2) == a / 2 / 2 / 2 / 2;
  }

  lemma Right8(a: nat)
    ensures Right(a, 8) == a / 0x100
  {
    hide Right;
    Right4(a);
    Right4(a / 0x10);
    RightRight(a, 4, 4);
  }

  lemma Right13(a: nat)
    ensures Right(a, 13) == a / 0x2000
  {
    Right8(a);
    Right4(a / 0x100);
    RightRight(a, 8, 4);
    RightRight(a, 12, 1);
    assert Right(a, 12) == a / 0x1000 && Right(a / 0x1000, 1) == a / 0x1000 / 2;
    hide Right;
  }

  lemma Right16(a: nat)
    ensures Right(a, 16) == a / 0x1_0000
  {
    hide Right;
    Right8(a);
    Right8(a / 0x100);
    RightRight(a, 8, 8);
  }

  lemma Right2(a: nat)
    ensures Right(a, 2) == a / 4
  {}

  lemma Right31(a: nat)
    ensures Right(a, 31) == a / 0x8000_0000
    ensures Right(a, 32) == a / WORDS
  {
    hide Right;
    Right16(a);
    var b := a / 0x1_0000;
    Right13(b);
    RightRight(a, 16, 13);
    RightRight(a, 29, 2);
    Right16(b);
    RightRight(a, 16, 16);
    Right2(b / 0x2000);
  }

  /** Exclusive or of words is a word, and acts on the top bits separately. */
  lemma XorWord(a: Word, b: Word)
    ensures Xor(a, b) < WORDS
  {
    hide Xor, Right;
    RightXor(a, b, 32);
    Right31(a);
    Right31(b);
    Right31(Xor(a, b));
    XorZero(0);
  }

  lemma XorTopBits(a: nat, b: nat)
    ensures Xor(a, b) / 0x100 == Xor(a / 0x100, b / 0x100)
    ensures Xor(a, b) / 0x2000 == Xor(a / 0x2000, b / 0x2000)
    ensures Xor(a, b) / 0x1_0000 == Xor(a / 0x1_0000, b / 0x1_0000)
    ensures Xor(a, b) / 0x8000_0000 == Xor(a / 0x8000_0000, b / 0x8000_0000)
  {
    hide Xor, Right;
    RightXor(a, b, 8);
    RightXor(a, b, 13);
    RightXor(a, b, 16);
    RightXor(a, b, 31);
    Right8(a);
    Right8(b);
    Right8(Xor(a, b));
    Right13(a);
    Right13(b);
    Right13(Xor(a, b));
    Right16(a);
    Right16(b);
    Right16(Xor(a, b));
    Right31(a);
    Right31(b);
    Right31(Xor(a, b));
  }

  // ----- Values -----

  lemma XorBit(a: nat, b: nat, p: nat, q: nat)
    requires p < 2 && q < 2
    ensures Xor(2 * a + p, 2 * b + q) == 2 * Xor(a, b) + (p + q) % 2
  {
    assert (2 * a + p) / 2 == a && (2 * b + q) / 2 == b;
  }

  /** Exclusive or of two numbers below 16. */
  function XorDigit(p: nat, q: nat): nat {
    8 * ((p / 8 + q / 8) % 2) + 4 * ((p / 4 % 2 + q / 4 % 2) % 2) + 2 * ((p / 2 % 2 + q / 2 % 2) % 2) +
    (p % 2 + q % 2) % 2
  }

  lemma XorOneMore(a: nat, b: nat, p: nat, q: nat)
    requires p < 16 && q < 16
    ensures Xor(16 * a + p, 16 * b + q) == 16 * Xor(a, b) + XorDigit(p, q)
  {
    hide Xor, XorDigit;
    var p3, p2, p1, p0 := BitsOf(p);
    var q3, q2, q1, q0 := BitsOf(q);
    XorFour(a, b, p3, p2, p1, p0, q3, q2, q1, q0);
    DigitIs(p, q, p3, p2, p1, p0, q3, q2, q1, q0);
  }

  lemma BitsOf(p: nat) returns (p3: nat, p2: nat, p1: nat, p0: nat)
    requires p < 16
    ensures p3 == p / 8 < 2 && p2 == p / 4 % 2 && p1 == p / 2 % 2 && p0 == p % 2
    ensures p == 8 * p3 + 4 * p2 + 2 * p1 + p0
  {
    p3, p2, p1, p0 := p / 8, p / 4 % 2, p / 2 % 2, p % 2;
  }

  lemma DigitIs(p: nat, q: nat, p3: nat, p2: nat, p1: nat, p0: nat, q3: nat, q2: nat, q1: nat, q0: nat)
    requires p3 == p / 8 && p2 == p / 4 % 2 && p1 == p / 2 % 2 && p0 == p % 2
    requires q3 == q / 8 && q2 == q / 4 % 2 && q1 == q / 2 % 2 && q0 == q % 2
    ensures XorDigit(p, q) == 8 * ((p3 + q3) % 2) + 4 * ((p2 + q2) % 2) + 2 * ((p1 + q1) % 2) + (p0 + q0) % 2
  {}

  lemma XorFour(a: nat, b: nat, p3: nat, p2: nat, p1: nat, p0: nat, q3: nat, q2: nat, q1: nat, q0: nat)
    requires p3 < 2 && p2 < 2 && p1 < 2 && p0 < 2 && q3 < 2 && q2 < 2 && q1 < 2 && q0 < 2
    ensures Xor(16 * a + (8 * p3 + 4 * p2 + 2 * p1 + p0), 16 * b + (8 * q3 + 4 * q2 + 2 * q1 + q0)) ==
      16 * Xor(a, b) + (8 * ((p3 + q3) % 2) + 4 * ((p2 + q2) % 2) + 2 * ((p1 + q1) % 2) + (p0 + q0) % 2)
  {
    hide Xor;
    var a1, b1 := 2 * a + p3, 2 * b + q3;
    var a2, b2 := 2 * a1 + p2, 2 * b1 + q2;
    var a3, b3 := 2 * a2 + p1, 2 * b2 + q1;
    XorBit(a, b, p3, q3);
    XorBit(a1, b1, p2, q2);
    XorBit(a2, b2, p1, q1);
    XorBit(a3, b3, p0, q0);
  }
}
