/** CRC-32 of src/utils/hash_utils.cpp: the lazily filled 256-entry table and the byte loop over it,
    against the bit-serial division of section 8 of RFC 1952. */
module Crc32 {
  import opened Words

  const POLYNOMIAL: Word := 0xEDB88320
  const ALL_ONES: Word := 0xFFFFFFFF

  // ----- Reference: division of the message, one bit at a time, least significant bit first -----

  function BitOf(bit: bool): nat {
    if bit then 1 else 0
  }

  /** One step of the reflected shift register: the message bit meets the bit shifted out. */
  function DivideBit(register: Word, bit: bool): Word {
    if (register % 2 == 1) != bit
    then XorWord(register / 2, POLYNOMIAL); Xor(register / 2, POLYNOMIAL)
    else register / 2
  }

  function Divide(register: Word, bits: seq<bool>): Word
    decreases bits
  {
    if bits == [] then register else Divide(DivideBit(register, bits[0]), bits[1..])
  }

  /** The lowest n bits of a number, least significant first. */
  function LowBits(b: nat, n: nat): (bits: seq<bool>)
    ensures |bits| == n
    decreases n
  {
    if n == 0 then [] else [b % 2 == 1] + LowBits(b / 2, n - 1)
  }

  function MessageBits(message: seq<Byte>): (bits: seq<bool>)
    ensures |bits| == 8 * |message|
  {
    if message == [] then [] else LowBits(message[0], 8) + MessageBits(message[1..])
  }

  function Checksum(bits: seq<bool>): Word {
    XorWord(Divide(ALL_ONES, bits), ALL_ONES);
    Xor(Divide(ALL_ONES, bits), ALL_ONES)
  }

  // ----- The table and the loop that uses it -----

  /** The loop body of the table construction. */
  function Shift(x: Word): Word {
    DivideBit(x, false)
  }

  function Shifts(x: Word, n: nat): Word
    decreases n
  {
    if n == 0 then x else Shifts(Shift(x), n - 1)
  }

  lemma ShiftsNext(x: Word, n: nat)
    ensures Shifts(x, n) == if n == 0 then x else Shifts(Shift(x), n - 1)
  {}

  class Table {
    const entries: array<Word>
    var initialized: bool

    ghost predicate Valid()
      reads this, entries
    {
      && entries.Length == 256
      && (initialized ==> forall i :: 0 <= i < 256 ==> entries[i] == Shifts(i, 8))
    }

    constructor ()
      ensures Valid() && !initialized && fresh(entries)
    {
      entries := new Word[256];
      initialized := false;
    }

    method Init()
      requires Valid()
      modifies this, entries
      ensures Valid() && initialized
    {
      hide Shifts, Xor;
      if initialized { return; }
      for i := 0 to 256
        invariant !initialized
        invariant forall k :: 0 <= k < i ==> entries[k] == Shifts(k, 8)
      {
        var crc: Word := i;
        for j := 0 to 8
          invariant !initialized
          invariant forall k :: 0 <= k < i ==> entries[k] == Shifts(k, 8)
          invariant Shifts(crc, 8 - j) == Shifts(i, 8)
        {
          ShiftsNext(crc, 8 - j);
          if crc % 2 == 1 {
            XorWord(crc / 2, POLYNOMIAL);
            crc := Xor(crc / 2, POLYNOMIAL);
          } else {
            crc := crc / 2;
          }
        }
        ShiftsNext(crc, 0);
        entries[i] := crc;
      }
      initialized := true;
    }

    /** The table-driven loop computes the bit-serial checksum of the message. */
    method Hash(message: seq<Byte>) returns (hash: Word)
      requires Valid()
      modifies this, entries
      ensures Valid() && initialized
      ensures hash == Checksum(MessageBits(message))
    {
      hide Shifts, Xor;
      Init();
      var crc: Word := ALL_ONES;
      for i := 0 to |message|
        invariant Valid() && initialized
        invariant Divide(crc, MessageBits(message[i..])) == Divide(ALL_ONES, MessageBits(message))
      {
        DivideFirstByte(crc, message, i);
        var entry := entries[Xor(crc, message[i]) % 256];
        XorWord(crc / 256, entry);
        crc := Xor(crc / 256, entry);
      }
      XorWord(crc, ALL_ONES);
      return Xor(crc, ALL_ONES);
    }
  }

  // ----- The register as a linear, reversible map -----

  lemma DivideBitIsShift(register: Word, bit: bool)
    ensures Xor(register, BitOf(bit)) < WORDS
    ensures DivideBit(register, bit) == Shift(Xor(register, BitOf(bit)))
  {
    hide Xor;
    XorWord(register, BitOf(bit));
    XorHalves(register, BitOf(bit));
    XorZero(register);
    XorZero(register / 2);
  }

  /** Shifting an exclusive-or shifts its parts. */
  lemma ShiftXor(x: Word, y: Word)
    ensures Xor(x, y) < WORDS
    ensures Shift(Xor(x, y)) == Xor(Shift(x), Shift(y))
  {
    hide Xor;
    XorWord(x, y);
    XorHalves(x, y);
    var a, b := x / 2, y / 2;
    XorInterchange(a, POLYNOMIAL, b, POLYNOMIAL);
    XorSelf(POLYNOMIAL);
    XorZero(Xor(a, b));
    XorAssociates(a, b, POLYNOMIAL);
    XorAssociates(a, POLYNOMIAL, b);
    XorCommutes(b, POLYNOMIAL);
  }

  /** The polynomial has its top bit set, so the bit shifted out can be read back from the top. */
  lemma ShiftKeepsLowBit(x: Word)
    ensures Shift(x) >= 0x8000_0000 <==> x % 2 == 1
  {
    hide Xor;
    XorTopBits(x / 2, POLYNOMIAL);
    assert x / 2 / 0x8000_0000 == 0 && POLYNOMIAL / 0x8000_0000 == 1;
    XorZero(1);
  }

  lemma ShiftInjective(x: Word, y: Word)
    requires Shift(x) == Shift(y)
    ensures x == y
  {
    hide Xor;
    ShiftKeepsLowBit(x);
    ShiftKeepsLowBit(y);
    if x % 2 == 1 {
      XorCancels(x / 2, y / 2, POLYNOMIAL);
    }
  }

  lemma {:induction false} ShiftsXor(x: Word, y: Word, n: nat)
    ensures Xor(x, y) < WORDS
    ensures Shifts(Xor(x, y), n) == Xor(Shifts(x, n), Shifts(y, n))
    decreases n
  {
    hide Xor, Shift;
    ShiftXor(x, y);
    if n > 0 {
      ShiftsXor(Shift(x), Shift(y), n - 1);
    }
  }

  lemma {:induction false} ShiftsInjective(x: Word, y: Word, n: nat)
    requires Shifts(x, n) == Shifts(y, n)
    ensures x == y
    decreases n
  {
    hide Xor, Shift;
    if n > 0 {
      ShiftsInjective(Shift(x), Shift(y), n - 1);
      ShiftInjective(x, y);
    }
  }

  lemma {:induction false} DivideConcat(register: Word, a: seq<bool>, b: seq<bool>)
    ensures Divide(register, a + b) == Divide(Divide(register, a), b)
    decreases a
  {
    hide DivideBit;
    if a == [] {
      assert a + b == b;
    } else {
      assert (a + b)[1..] == a[1..] + b;
      DivideConcat(DivideBit(register, a[0]), a[1..], b);
    }
  }

  lemma {:induction false} DivideInjective(r: Word, s: Word, bits: seq<bool>)
    requires Divide(r, bits) == Divide(s, bits)
    ensures r == s
    decreases bits
  {
    hide DivideBit, Shift, Xor;
    if bits != [] {
      DivideInjective(DivideBit(r, bits[0]), DivideBit(s, bits[0]), bits[1..]);
      DivideBitIsShift(r, bits[0]);
      DivideBitIsShift(s, bits[0]);
      ShiftInjective(Xor(r, BitOf(bits[0])), Xor(s, BitOf(bits[0])));
      XorCancels(r, s, BitOf(bits[0]));
    }
  }

  // ----- Up to 32 message bits at once -----

  function Power(n: nat): (p: nat)
    ensures p > 0
  {
    if n == 0 then 1 else 2 * Power(n - 1)
  }

  lemma {:induction false} PowerGrows(n: nat, m: nat)
    requires n <= m
    ensures Power(n) <= Power(m)
    decreases m
  {
    if n < m { PowerGrows(n, m - 1); }
  }

  lemma Power31()
    ensures Power(8) == 256 && Power(31) == 0x8000_0000 && Power(32) == WORDS
  {
    assert Power(4) == 16;
    assert Power(8) == 256;
    assert Power(12) == 0x1000;
    assert Power(16) == 0x1_0000;
    assert Power(20) == 0x10_0000;
    assert Power(24) == 0x100_0000;
    assert Power(28) == 0x1000_0000;
    assert Power(31) == 0x8000_0000;
  }

  /** The bits as a number, the first bit least significant. */
  function Pack(bits: seq<bool>): (number: nat)
    ensures number < Power(|bits|)
  {
    if bits == [] then 0 else BitOf(bits[0]) + 2 * Pack(bits[1..])
  }

  lemma PackWord(bits: seq<bool>)
    requires |bits| <= 32
    ensures Pack(bits) < WORDS
    ensures |bits| <= 31 ==> Pack(bits) < 0x8000_0000
  {
    hide Pack, Power;
    Power31();
    PowerGrows(|bits|, 32);
    if |bits| <= 31 { PowerGrows(|bits|, 31); }
  }

  lemma {:induction false} PackInjective(a: seq<bool>, b: seq<bool>)
    requires |a| == |b|
    requires Pack(a) == Pack(b)
    ensures a == b
  {
    if a != [] {
      assert Pack(a) % 2 == BitOf(a[0]) && Pack(b) % 2 == BitOf(b[0]);
      PackInjective(a[1..], b[1..]);
      assert a == [a[0]] + a[1..] && b == [b[0]] + b[1..];
    }
  }

  lemma {:induction false} PackLowBits(b: nat, n: nat)
    requires b < Power(n)
    ensures Pack(LowBits(b, n)) == b
    decreases n
  {
    if n > 0 {
      PackLowBits(b / 2, n - 1);
      assert LowBits(b, n)[1..] == LowBits(b / 2, n - 1);
    }
  }

  /** Dividing up to 32 bits is shifting their word in, all at once. */
  lemma {:induction false} DivideIsShifts(register: Word, bits: seq<bool>)
    requires |bits| <= 32
    ensures Xor(register, Pack(bits)) < WORDS
    ensures Divide(register, bits) == Shifts(Xor(register, Pack(bits)), |bits|)
    decreases bits
  {
    hide Xor, DivideBit, Shift;
    PackWord(bits);
    XorWord(register, Pack(bits));
    if bits == [] {
      XorZero(register);
    } else {
      var bit, rest := BitOf(bits[0]), Pack(bits[1..]);
      PackWord(bits[1..]);
      DivideBitIsShift(register, bits[0]);
      DivideIsShifts(Shift(Xor(register, bit)), bits[1..]);
      ShiftDropsZero(rest);
      ShiftXor(Xor(register, bit), 2 * rest);
      XorAssociates(register, bit, 2 * rest);
      XorLowBit(rest, bit);
    }
  }

  lemma XorLowBit(half: nat, bit: nat)
    requires bit < 2
    ensures Xor(bit, 2 * half) == bit + 2 * half
  {
    hide Xor;
    XorCommutes(bit, 2 * half);
    XorEven(half, bit);
    XorZero(half);
  }

  lemma ShiftDropsZero(half: nat)
    requires half < 0x8000_0000
    ensures Shift(2 * half) == half
  {}

  // ----- The table step -----

  lemma ShiftsDropZeroByte(x: nat)
    requires x < 0x100_0000
    ensures Shifts(256 * x, 8) == x
  {
    hide Shift;
    ShiftDropsZero(128 * x);
    ShiftDropsZero(64 * x);
    ShiftDropsZero(32 * x);
    ShiftDropsZero(16 * x);
    assert Shifts(256 * x, 8) == Shifts(16 * x, 4);
    ShiftDropsZero(8 * x);
    ShiftDropsZero(4 * x);
    ShiftDropsZero(2 * x);
    ShiftDropsZero(x);
    assert Shifts(16 * x, 4) == x;
  }

  /** One table lookup stands for the eight divisions of a byte's bits. */
  lemma LookupIsEightDivisions(crc: Word, c: Byte)
    ensures Xor(crc / 256, Shifts(Xor(crc, c) % 256, 8)) == Divide(crc, LowBits(c, 8))
  {
    hide Xor, Shift, Shifts, Divide, LowBits, Pack, Power;
    var x := Xor(crc, c);
    XorWord(crc, c);
    XorTopBits(crc, c);
    XorZero(crc / 256);
    assert x / 256 == crc / 256;
    XorLowByte(crc / 256, x % 256);
    ShiftsXor(256 * (crc / 256), x % 256, 8);
    ShiftsDropZeroByte(crc / 256);
    Power31();
    PackLowBits(c, 8);
    DivideIsShifts(crc, LowBits(c, 8));
  }

  lemma DivideFirstByte(crc: Word, message: seq<Byte>, i: nat)
    requires i < |message|
    ensures Xor(crc / 256, Shifts(Xor(crc, message[i]) % 256, 8)) < WORDS
    ensures Divide(crc, MessageBits(message[i..]))
         == Divide(Xor(crc / 256, Shifts(Xor(crc, message[i]) % 256, 8)), MessageBits(message[i + 1..]))
  {
    hide Xor, Shifts, Divide, LowBits;
    var c, rest := message[i], message[i..];
    assert rest[0] == c && rest[1..] == message[i + 1..];
    LookupIsEightDivisions(crc, c);
    DivideConcat(crc, LowBits(c, 8), MessageBits(message[i + 1..]));
  }

  // ----- Error detection -----

  lemma ChecksumInjective(a: seq<bool>, b: seq<bool>)
    requires Checksum(a) == Checksum(b)
    ensures Divide(ALL_ONES, a) == Divide(ALL_ONES, b)
  {
    hide Divide, Xor;
    XorCancels(Divide(ALL_ONES, a), Divide(ALL_ONES, b), ALL_ONES);
  }

  /** Every burst of at most 32 wrong bits changes the checksum, wherever it falls. */
  lemma BurstDetected(prefix: seq<bool>, a: seq<bool>, b: seq<bool>, suffix: seq<bool>)
    requires |a| == |b| <= 32
    requires a != b
    ensures Checksum(prefix + a + suffix) != Checksum(prefix + b + suffix)
  {
    hide Checksum, Divide, Shifts, Pack, Xor;
    if Checksum(prefix + a + suffix) == Checksum(prefix + b + suffix) {
      ChecksumInjective(prefix + a + suffix, prefix + b + suffix);
      var start := Divide(ALL_ONES, prefix);
      DivideConcat(ALL_ONES, prefix + a, suffix);
      DivideConcat(ALL_ONES, prefix + b, suffix);
      DivideConcat(ALL_ONES, prefix, a);
      DivideConcat(ALL_ONES, prefix, b);
      DivideInjective(Divide(start, a), Divide(start, b), suffix);
      DivideIsShifts(start, a);
      DivideIsShifts(start, b);
      ShiftsInjective(Xor(start, Pack(a)), Xor(start, Pack(b)), |a|);
      XorCancels(Pack(a), Pack(b), start);
      PackInjective(a, b);
    }
  }

  lemma {:induction false} MessageBitsConcat(a: seq<Byte>, b: seq<Byte>)
    ensures MessageBits(a + b) == MessageBits(a) + MessageBits(b)
  {
    hide LowBits;
    if a == [] {
      assert a + b == b;
    } else {
      assert (a + b)[1..] == a[1..] + b;
      MessageBitsConcat(a[1..], b);
    }
  }

  lemma {:induction false} MessageBitsInjective(a: seq<Byte>, b: seq<Byte>)
    requires |a| == |b|
    requires MessageBits(a) == MessageBits(b)
    ensures a == b
  {
    hide LowBits, Pack, Power;
    if a != [] {
      var x, y := LowBits(a[0], 8), LowBits(b[0], 8);
      assert MessageBits(a)[..8] == x && MessageBits(b)[..8] == y;
      assert MessageBits(a)[8..] == MessageBits(a[1..]) && MessageBits(b)[8..] == MessageBits(b[1..]);
      Power31();
      PackLowBits(a[0], 8);
      PackLowBits(b[0], 8);
      MessageBitsInjective(a[1..], b[1..]);
      assert a == [a[0]] + a[1..] && b == [b[0]] + b[1..];
    }
  }

  lemma BitsOfThree(before: seq<Byte>, window: seq<Byte>, after: seq<Byte>)
    ensures MessageBits(before + window + after) == MessageBits(before) + MessageBits(window) + MessageBits(after)
  {
    hide MessageBits;
    MessageBitsConcat(before + window, after);
    MessageBitsConcat(before, window);
  }

  lemma WindowBits(message: seq<Byte>, at: nat, end: nat)
    requires at <= end <= |message|
    ensures MessageBits(message) ==
      MessageBits(message[..at]) + MessageBits(message[at..end]) + MessageBits(message[end..])
  {
    hide *;
    assert message == message[..at] + message[at..end] + message[end..];
    BitsOfThree(message[..at], message[at..end], message[end..]);
  }

  /** Two equal-length messages that differ only inside a window of four bytes never share a checksum. */
  lemma WindowDetected(x: seq<Byte>, y: seq<Byte>, at: nat)
    requires |x| == |y| && at <= |x|
    requires forall i :: 0 <= i < |x| && !(at <= i < at + 4) ==> x[i] == y[i]
    requires x != y
    ensures Checksum(MessageBits(x)) != Checksum(MessageBits(y))
  {
    hide Checksum, MessageBits;
    var end := if at + 4 <= |x| then at + 4 else |x|;
    var a, b, suffix := x[at..end], y[at..end], x[end..];
    WindowBits(x, at, end);
    WindowBits(y, at, end);
    assert x[..at] == y[..at] && suffix == y[end..];
    assert a != b by {
      var i :| 0 <= i < |x| && x[i] != y[i];
      assert a[i - at] != b[i - at];
    }
    if MessageBits(a) == MessageBits(b) {
      MessageBitsInjective(a, b);
    }
    BurstDetected(MessageBits(x[..at]), MessageBits(a), MessageBits(b), MessageBits(suffix));
  }

  // ----- A known value -----

  lemma FirstXorStart()
    ensures Xor(0xfff, 0xedb88) == 0xed477
  {
    hide Xor;
    XorZero(0xed);
    assert Xor(0xf, 0xedb) == 0xed4 by { XorOneMore(0x0, 0xed, 0xf, 0xb); }
    assert Xor(0xff, 0xedb8) == 0xed47 by { XorOneMore(0xf, 0xedb, 0xf, 0x8); }
    assert Xor(0xfff, 0xedb88) == 0xed477 by { XorOneMore(0xff, 0xedb8, 0xf, 0x8); }
  }

  lemma FirstXor()
    ensures Xor(0xffffff, 0xedb88320) == 0xed477cdf
  {
    hide Xor;
    FirstXorStart();
    assert Xor(0xffff, 0xedb883) == 0xed477c by { XorOneMore(0xfff, 0xedb88, 0xf, 0x3); }
    assert Xor(0xfffff, 0xedb8832) == 0xed477cd by { XorOneMore(0xffff, 0xedb883, 0xf, 0x2); }
    assert Xor(0xffffff, 0xedb88320) == 0xed477cdf by { XorOneMore(0xfffff, 0xedb8832, 0xf, 0x0); }
  }

  lemma LastXorStart()
    ensures Xor(0xed47, 0xffff) == 0x12b8
  {
    hide Xor;
    XorZero(0);
    assert Xor(0xe, 0xf) == 0x1 by { XorOneMore(0x0, 0x0, 0xe, 0xf); }
    assert Xor(0xed, 0xff) == 0x12 by { XorOneMore(0xe, 0xf, 0xd, 0xf); }
    assert Xor(0xed4, 0xfff) == 0x12b by { XorOneMore(0xed, 0xff, 0x4, 0xf); }
    assert Xor(0xed47, 0xffff) == 0x12b8 by { XorOneMore(0xed4, 0xfff, 0x7, 0xf); }
  }

  lemma LastXor()
    ensures Xor(0xed477cdf, ALL_ONES) == 0x12b88320
  {
    hide Xor;
    LastXorStart();
    assert Xor(0xed477, 0xfffff) == 0x12b88 by { XorOneMore(0xed47, 0xffff, 0x7, 0xf); }
    assert Xor(0xed477c, 0xffffff) == 0x12b883 by { XorOneMore(0xed477, 0xfffff, 0xc, 0xf); }
    assert Xor(0xed477cd, 0xfffffff) == 0x12b8832 by { XorOneMore(0xed477c, 0xffffff, 0xd, 0xf); }
    assert Xor(0xed477cdf, 0xffffffff) == 0x12b88320 by { XorOneMore(0xed477cd, 0xfffffff, 0xf, 0xf); }
  }

  lemma LowXor()
    ensures Xor(ALL_ONES, 0x7f) == 0xffffff80
  {
    hide Xor;
    XorZero(0xffffff);
    assert Xor(0xfffffff, 0x7) == 0xffffff8 by { XorOneMore(0xffffff, 0x0, 0xf, 0x7); }
    assert Xor(0xffffffff, 0x7f) == 0xffffff80 by { XorOneMore(0xfffffff, 0x7, 0xf, 0xf); }
  }

  lemma SevenShifts()
    ensures Shifts(0x80, 8) == 0xedb88320
  {
    hide Xor;
    assert Shifts(0x80, 8) == Shifts(0x20, 6) == Shifts(8, 4) == Shifts(2, 2) == Shifts(1, 1);
    XorZero(POLYNOMIAL);
  }

  /** The published checksum of the message that is the one byte 0x7F. */
  lemma ByteChecksum()
    ensures Checksum(MessageBits([0x7f])) == 0x12b88320
  {
    hide Xor, Shifts, Divide, LowBits;
    assert [0x7f][1..] == [] && MessageBits([]) == [];
    LowXor();
    SevenShifts();
    LookupIsEightDivisions(ALL_ONES, 0x7f);
    FirstXor();
    LastXor();
    assert LowBits(0x7f, 8) + [] == LowBits(0x7f, 8) == MessageBits([0x7f]);
  }
}
