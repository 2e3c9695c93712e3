/** The 32-bit MurmurHash3 of src/utils/hash_utils.cpp, on a little-endian machine. */
module Murmur {
  import opened Words

  const C1: Word := 0xcc9e2d51
  const C2: Word := 0x1b873593
  const F1: Word := 0x85ebca6b
  const F2: Word := 0xc2b2ae35

  // ----- The steps, on 32-bit words -----

  function Times(a: Word, b: Word): Word {
    (a * b) % WORDS
  }

  /** (x << 15) | (x >> 17): the two halves share no bit, so joining them is adding them. */
  function Rotate15(x: Word): Word {
    (x * 0x8000) % WORDS + x / 0x2_0000
  }

  /** (x << 13) | (x >> 19) */
  function Rotate13(x: Word): Word {
    (x * 0x2000) % WORDS + x / 0x8_0000
  }

  function Scramble(k: Word): Word {
    Times(Rotate15(Times(k, C1)), C2)
  }

  function XorOf(a: Word, b: Word): Word {
    XorWord(a, b); Xor(a, b)
  }

  function MixBlock(h: Word, k: Word): Word {
    (Rotate13(XorOf(h, Scramble(k))) * 5 + 0xe6546b64) % WORDS
  }

  function Finish(h: Word): Word {
    var h := XorOf(h, h / 0x1_0000);
    var h := Times(h, F1);
    var h := XorOf(h, h / 0x2000);
    var h := Times(h, F2);
    XorOf(h, h / 0x1_0000)
  }

  // ----- The hash as a fold over blocks -----

  function Block(key: seq<Byte>, i: nat): Word
    requires 4 * i + 4 <= |key|
  {
    0x100_0000 * (key[4 * i + 3] as int) + 0x1_0000 * (key[4 * i + 2] as int) +
    0x100 * (key[4 * i + 1] as int) + key[4 * i]
  }

  /** The hash state after the first n blocks. */
  function Mixed(key: seq<Byte>, seed: Word, n: nat): Word
    requires 4 * n <= |key|
  {
    if n == 0 then seed else MixBlock(Mixed(key, seed, n - 1), Block(key, n - 1))
  }

  /** The word made of the one to three bytes after the last whole block; 0 when there are none. */
  function TailWord(tail: seq<Byte>): (k: Word)
    requires |tail| < 4
    ensures k < [1, 0x100, 0x1_0000, 0x100_0000][|tail|]
  {
    if tail == [] then 0 else tail[0] + 0x100 * TailWord(tail[1..])
  }

  function MixTail(h: Word, tail: seq<Byte>): Word
    requires |tail| < 4
  {
    if tail == [] then h else XorOf(h, Scramble(TailWord(tail)))
  }

  function Hash(key: seq<Byte>, seed: Word): Word
    requires |key| < 0x8000_0000
  {
    var n := |key| / 4;
    Finish(XorOf(MixTail(Mixed(key, seed, n), key[4 * n..]), |key|))
  }

  /** The length goes through an int: it is reduced modulo 2^32, and the loops are defined when that is not negative. */
  predicate LengthFits(key: seq<Byte>) {
    |key| % WORDS < 0x8000_0000
  }

  /** The bytes the loops reach: all of a key shorter than 2^31. */
  function Reached(key: seq<Byte>): (data: seq<Byte>)
    requires LengthFits(key)
    ensures |data| < 0x8000_0000
    ensures |key| < 0x8000_0000 ==> data == key
  {
    key[..|key| % WORDS]
  }

  method MurmurHash3(key: seq<Byte>, seed: Word) returns (h1: Word)
    requires LengthFits(key)
    ensures h1 == Hash(Reached(key), seed)
  {
    hide Xor, Times, Rotate15, Rotate13, Block;
    var len := |key| % WORDS;
    var data := Reached(key);
    var nblocks := len / 4;
    h1 := seed;
    var i := -nblocks;
    while i != 0
      invariant -nblocks <= i <= 0
      invariant h1 == Mixed(data, seed, nblocks + i)
      decreases -i
    {
      var k1 := Block(data, nblocks + i);
      k1 := Times(k1, C1);
      k1 := Rotate15(k1);
      k1 := Times(k1, C2);
      h1 := XorOf(h1, k1);
      h1 := Rotate13(h1);
      h1 := (h1 * 5 + 0xe6546b64) % WORDS;
      i := i + 1;
    }
    var tail := data[4 * nblocks..];
    var k1: Word := 0;
    if len % 4 >= 3 { k1 := XorOf(k1, 0x1_0000 * (tail[2] as int)); }
    if len % 4 >= 2 { k1 := XorOf(k1, 0x100 * (tail[1] as int)); }
    if len % 4 >= 1 {
      k1 := XorOf(k1, tail[0]);
      TailWordIsXor(tail);
      k1 := Times(k1, C1);
      k1 := Rotate15(k1);
      k1 := Times(k1, C2);
      h1 := XorOf(h1, k1);
    }
    h1 := XorOf(h1, len);
    h1 := XorOf(h1, h1 / 0x1_0000);
    h1 := Times(h1, F1);
    h1 := XorOf(h1, h1 / 0x2000);
    h1 := Times(h1, F2);
    h1 := XorOf(h1, h1 / 0x1_0000);
  }

  lemma TailWordIsXor(tail: seq<Byte>)
    requires 1 <= |tail| < 4
    ensures |tail| == 1 ==> TailWord(tail) == Xor(0, tail[0])
    ensures |tail| == 2 ==> TailWord(tail) == Xor(Xor(0, 0x100 * (tail[1] as int)), tail[0])
    ensures |tail| == 3 ==>
      TailWord(tail) == Xor(Xor(Xor(0, 0x1_0000 * (tail[2] as int)), 0x100 * (tail[1] as int)), tail[0])
  {
    hide Xor;
    XorZero(tail[0]);
    if |tail| >= 2 {
      XorZero(0x100 * (tail[1] as int));
      XorLowByte(tail[1], tail[0]);
      assert TailWord(tail[1..]) == tail[1] + 0x100 * TailWord(tail[1..][1..]);
    }
    if |tail| == 3 {
      XorZero(0x1_0000 * (tail[2] as int));
      var high: nat, middle: nat := tail[2], tail[1];
      XorScale(256 * high, middle);
      XorLowByte(high, middle);
      XorLowByte(256 * high + middle, tail[0]);
      assert TailWord(tail[1..][1..]) == tail[2];
    }
  }

  // ----- Every step is one to one -----

  /** Multiplying by an odd constant is undone by multiplying by its inverse modulo 2^32. */
  lemma TimesInjective(a: Word, b: Word, c: Word, inverse: Word, wraps: nat)
    requires c * inverse == 1 + wraps * WORDS
    requires Times(a, c) == Times(b, c)
    ensures a == b
  {
    var q := (a * c) / WORDS - (b * c) / WORDS;
    assert (a - b) * c == q * WORDS;
    calc {
      q * WORDS * inverse;
      (a - b) * c * inverse;
      (a - b) * (c * inverse);
      (a - b) * (1 + wraps * WORDS);
      (a - b) + (a - b) * wraps * WORDS;
    }
    MultipleOfWords(a - b, q * inverse - (a - b) * wraps);
  }

  lemma MultipleOfWords(difference: int, m: int)
    requires -WORDS < difference < WORDS
    requires difference == m * WORDS
    ensures difference == 0
  {}

  lemma RotateInjective(a: Word, b: Word)
    ensures Rotate15(a) == Rotate15(b) ==> a == b
    ensures Rotate13(a) == Rotate13(b) ==> a == b
  {
    hide Rotate15, Rotate13;
    RotateParts(a);
    RotateParts(b);
  }

  lemma RotateParts(a: Word)
    ensures Rotate15(a) / 0x8000 == a % 0x2_0000 && Rotate15(a) % 0x8000 == a / 0x2_0000
    ensures Rotate13(a) / 0x2000 == a % 0x8_0000 && Rotate13(a) % 0x2000 == a / 0x8_0000
  {
    DropTop(a * 0x8000, a / 0x2_0000, (a % 0x2_0000) * 0x8000);
    DropTop(a * 0x2000, a / 0x8_0000, (a % 0x8_0000) * 0x2000);
  }

  lemma DropTop(x: nat, top: nat, low: Word)
    requires x == top * WORDS + low
    ensures x % WORDS == low
  {}

  lemma ScrambleInjective(a: Word, b: Word)
    requires Scramble(a) == Scramble(b)
    ensures a == b
  {
    hide Times, Rotate15;
    TimesInjective(Rotate15(Times(a, C1)), Rotate15(Times(b, C1)), C2, 0x56ed309b, 0x958ed66);
    RotateInjective(Times(a, C1), Times(b, C1));
    TimesInjective(a, b, C1, 0xdee13bb1, 0xb2253208);
  }

  lemma AffineInjective(a: Word, b: Word)
    requires (a * 5 + 0xe6546b64) % WORDS == (b * 5 + 0xe6546b64) % WORDS
    ensures a == b
  {
    var q := (a * 5 + 0xe6546b64) / WORDS - (b * 5 + 0xe6546b64) / WORDS;
    assert (a - b) * 5 == q * WORDS;
  }

  /** With the block fixed the state is recovered from the new state, and with the state fixed the block is. */
  lemma MixBlockInjective(g: Word, h: Word, j: Word, k: Word)
    requires g == h || j == k
    ensures MixBlock(g, j) == MixBlock(h, k) ==> g == h && j == k
  {
    hide Scramble, Rotate13, Xor;
    if MixBlock(g, j) == MixBlock(h, k) {
      AffineInjective(Rotate13(XorOf(g, Scramble(j))), Rotate13(XorOf(h, Scramble(k))));
      RotateInjective(XorOf(g, Scramble(j)), XorOf(h, Scramble(k)));
      if j == k {
        XorCancels(g, h, Scramble(j));
      } else {
        XorCancels(Scramble(j), Scramble(k), g);
        ScrambleInjective(j, k);
      }
    }
  }

  /** h ^ (h >> 16) keeps its top half, which then gives back the bottom half. */
  lemma XorShift16Injective(a: Word, b: Word)
    requires XorOf(a, a / 0x1_0000) == XorOf(b, b / 0x1_0000)
    ensures a == b
  {
    hide Xor;
    XorTopBits(a, a / 0x1_0000);
    XorTopBits(b, b / 0x1_0000);
    XorZero(a / 0x1_0000);
    XorZero(b / 0x1_0000);
    assert a / 0x1_0000 / 0x1_0000 == 0 && b / 0x1_0000 / 0x1_0000 == 0;
    XorCancels(a, b, a / 0x1_0000);
  }

  /** h ^ (h >> 13): the top 13 bits give the next 13, and those the last 6. */
  lemma XorShift13Injective(a: Word, b: Word)
    requires XorOf(a, a / 0x2000) == XorOf(b, b / 0x2000)
    ensures a == b
  {
    hide Xor;
    var a1, b1, a2, b2 := a / 0x2000, b / 0x2000, a / 0x2000 / 0x2000, b / 0x2000 / 0x2000;
    XorTopBits(a, a1);
    XorTopBits(b, b1);
    XorTopBits(a1, a2);
    XorTopBits(b1, b2);
    XorZero(a2);
    XorZero(b2);
    assert a2 / 0x2000 == 0 && b2 / 0x2000 == 0;
    XorCancels(a1, b1, a2);
    XorCancels(a, b, a1);
  }

  lemma FinishInjective(a: Word, b: Word)
    ensures Finish(a) == Finish(b) ==> a == b
  {
    hide XorOf, Times;
    if Finish(a) == Finish(b) {
      var a1, b1 := XorOf(a, a / 0x1_0000), XorOf(b, b / 0x1_0000);
      var a2, b2 := Times(a1, F1), Times(b1, F1);
      var a3, b3 := XorOf(a2, a2 / 0x2000), XorOf(b2, b2 / 0x2000);
      var a4, b4 := Times(a3, F2), Times(b3, F2);
      XorShift16Injective(a4, b4);
      TimesInjective(a3, b3, F2, 0x7ed1b41d, 0x60736e9a);
      XorShift13Injective(a2, b2);
      TimesInjective(a1, b1, F1, 0xa5cb9243, 0x56bb77f4);
      XorShift16Injective(a, b);
    }
  }

  // ----- No collisions -----

  lemma MixTailInjective(g: Word, h: Word, s: seq<Byte>, t: seq<Byte>)
    requires |s| == |t| < 4
    requires g == h || s == t
    ensures MixTail(g, s) == MixTail(h, t) ==> g == h && s == t
  {
    hide Scramble, Xor;
    if MixTail(g, s) == MixTail(h, t) {
      if s == t && s != [] {
        XorCancels(g, h, Scramble(TailWord(s)));
      } else if s != t {
        XorCancels(Scramble(TailWord(s)), Scramble(TailWord(t)), g);
        ScrambleInjective(TailWord(s), TailWord(t));
        TailWordInjective(s, t);
      }
    }
  }

  lemma {:induction false} TailWordInjective(s: seq<Byte>, t: seq<Byte>)
    requires |s| == |t| < 4
    requires TailWord(s) == TailWord(t)
    ensures s == t
  {
    if s != [] {
      assert TailWord(s) % 0x100 == s[0] && TailWord(t) % 0x100 == t[0];
      TailWordInjective(s[1..], t[1..]);
      assert s == [s[0]] + s[1..] && t == [t[0]] + t[1..];
    }
  }

  /** Equal states after n blocks, of keys whose blocks differ at most at `odd`: nothing differed. */
  lemma {:induction false} MixedInjective(x: seq<Byte>, y: seq<Byte>, r: Word, s: Word, n: nat, odd: nat)
    requires |x| == |y| && 4 * n <= |x|
    requires forall i :: 0 <= i < n && i != odd ==> Block(x, i) == Block(y, i)
    requires r == s || (odd < n ==> Block(x, odd) == Block(y, odd))
    ensures Mixed(x, r, n) == Mixed(y, s, n) ==> r == s && (odd < n ==> Block(x, odd) == Block(y, odd))
    decreases n
  {
    hide MixBlock, Block;
    if n > 0 && Mixed(x, r, n) == Mixed(y, s, n) {
      var g, h := Mixed(x, r, n - 1), Mixed(y, s, n - 1);
      if n - 1 == odd && r == s {
        MixedAgrees(x, y, r, n - 1);
        MixBlockInjective(g, h, Block(x, n - 1), Block(y, n - 1));
      } else {
        MixBlockInjective(g, h, Block(x, n - 1), Block(y, n - 1));
        MixedInjective(x, y, r, s, n - 1, odd);
      }
    }
  }

  lemma {:induction false} MixedAgrees(x: seq<Byte>, y: seq<Byte>, seed: Word, n: nat)
    requires |x| == |y| && 4 * n <= |x|
    requires forall i :: 0 <= i < n ==> Block(x, i) == Block(y, i)
    ensures Mixed(x, seed, n) == Mixed(y, seed, n)
  {
    hide MixBlock, Block;
    if n > 0 { MixedAgrees(x, y, seed, n - 1); }
  }

  lemma HashOfParts(x: seq<Byte>, y: seq<Byte>, r: Word, s: Word)
    requires |x| == |y| < 0x8000_0000
    ensures var n := |x| / 4;
      Hash(x, r) == Hash(y, s) ==> MixTail(Mixed(x, r, n), x[4 * n..]) == MixTail(Mixed(y, s, n), y[4 * n..])
  {
    hide Finish, MixTail, Mixed, Xor;
    var n := |x| / 4;
    var g, h := MixTail(Mixed(x, r, n), x[4 * n..]), MixTail(Mixed(y, s, n), y[4 * n..]);
    if Hash(x, r) == Hash(y, s) {
      FinishInjective(XorOf(g, |x|), XorOf(h, |x|));
      XorCancels(g, h, |x|);
    }
  }

  /** Two keys that differ only in one aligned four-byte block never collide. */
  lemma BlockNeverCollides(x: seq<Byte>, y: seq<Byte>, seed: Word, odd: nat)
    requires |x| == |y| < 0x8000_0000 && 4 * odd + 4 <= |x|
    requires forall i :: 0 <= i < |x| && !(4 * odd <= i < 4 * odd + 4) ==> x[i] == y[i]
    ensures Hash(x, seed) == Hash(y, seed) ==> x == y
  {
    hide Hash, MixTail, Mixed;
    var n := |x| / 4;
    assert x[4 * n..] == y[4 * n..];
    HashOfParts(x, y, seed, seed);
    MixTailInjective(Mixed(x, seed, n), Mixed(y, seed, n), x[4 * n..], y[4 * n..]);
    MixedInjective(x, y, seed, seed, n, odd);
    if Hash(x, seed) == Hash(y, seed) { BlockInjective(x, y, odd); }
  }

  lemma BytesOf(a: Byte, b: Byte, c: Byte, d: Byte, word: Word)
    requires word == 0x100_0000 * (d as int) + 0x1_0000 * (c as int) + 0x100 * (b as int) + a
    ensures word % 0x100 == a && word / 0x100 % 0x100 == b && word / 0x1_0000 % 0x100 == c && word / 0x100_0000 == d
  {
    var three, two := word / 0x100, word / 0x1_0000;
    assert three == 0x1_0000 * (d as int) + 0x100 * (c as int) + b;
    assert two == 0x100 * (d as int) + c;
  }

  lemma BlockInjective(x: seq<Byte>, y: seq<Byte>, i: nat)
    requires 4 * i + 4 <= |x| && 4 * i + 4 <= |y|
    requires Block(x, i) == Block(y, i)
    ensures x[4 * i] == y[4 * i] && x[4 * i + 1] == y[4 * i + 1]
    ensures x[4 * i + 2] == y[4 * i + 2] && x[4 * i + 3] == y[4 * i + 3]
  {
    BytesOf(x[4 * i], x[4 * i + 1], x[4 * i + 2], x[4 * i + 3], Block(x, i));
    BytesOf(y[4 * i], y[4 * i + 1], y[4 * i + 2], y[4 * i + 3], Block(y, i));
  }

  /** Two keys that differ only in the one to three bytes after the last whole block never collide. */
  lemma TailNeverCollides(x: seq<Byte>, y: seq<Byte>, seed: Word)
    requires |x| == |y| < 0x8000_0000
    requires x[..4 * (|x| / 4)] == y[..4 * (|x| / 4)]
    ensures Hash(x, seed) == Hash(y, seed) ==> x == y
  {
    hide Hash, MixTail, Mixed;
    var n := |x| / 4;
    var head, other := x[..4 * n], y[..4 * n];
    assert forall i :: 0 <= i < 4 * n ==> x[i] == head[i] == other[i] == y[i];
    HashOfParts(x, y, seed, seed);
    MixedAgrees(x, y, seed, n);
    MixTailInjective(Mixed(x, seed, n), Mixed(y, seed, n), x[4 * n..], y[4 * n..]);
    assert x == x[..4 * n] + x[4 * n..] && y == y[..4 * n] + y[4 * n..];
  }

  /** One key under two seeds never collides. */
  lemma SeedNeverCollides(x: seq<Byte>, r: Word, s: Word)
    requires |x| < 0x8000_0000
    ensures Hash(x, r) == Hash(x, s) ==> r == s
  {
    hide Hash, MixTail, Mixed;
    var n := |x| / 4;
    HashOfParts(x, x, r, s);
    MixTailInjective(Mixed(x, r, n), Mixed(x, s, n), x[4 * n..], x[4 * n..]);
    MixedInjective(x, x, r, s, n, n);
  }

  // ----- Known values -----

  lemma HellScrambled()
    ensures Scramble(0x6c6c6568) == 0xa0ae7465
  {
    assert Times(0x6c6c6568, C1) == 0xd24f5de8;
    assert Rotate15(0xd24f5de8) == 0xaef46927;
    assert Times(0xaef46927, C2) == 0xa0ae7465;
  }

  lemma HellMixed()
    ensures MixBlock(0, 0x6c6c6568) == 0xef13efcd
  {
    HellScrambled();
    hide Scramble, Xor;
    XorZero(0xa0ae7465);
    assert Rotate13(0xa0ae7465) == 0xce8cb415;
  }

  /** What the block "hell" makes of the state 0. */
  lemma HellBlock()
    ensures Mixed([0x68, 0x65, 0x6c, 0x6c], 0, 1) == 0xef13efcd
  {
    HellMixed();
    hide MixBlock;
    assert Block([0x68, 0x65, 0x6c, 0x6c], 0) == 0x6c6c6568;
    assert Mixed([0x68, 0x65, 0x6c, 0x6c], 0, 0) == 0;
  }

  lemma SmallXorStart()
    ensures Xor(0x85ebc, 0x42) == 0x85efe
  {
    hide Xor;
    XorZero(0x85e);
    assert Xor(0x85eb, 0x4) == 0x85ef by { XorOneMore(0x85e, 0x0, 0xb, 0x4); }
    assert Xor(0x85ebc, 0x42) == 0x85efe by { XorOneMore(0x85eb, 0x4, 0xc, 0x2); }
  }

  lemma SmallXor()
    ensures Xor(0x85ebca6b, 0x42f5e) == 0x85efe535
  {
    hide Xor;
    SmallXorStart();
    assert Xor(0x85ebca, 0x42f) == 0x85efe5 by { XorOneMore(0x85ebc, 0x42, 0xa, 0xf); }
    assert Xor(0x85ebca6, 0x42f5) == 0x85efe53 by { XorOneMore(0x85ebca, 0x42f, 0x6, 0x5); }
    assert Xor(0x85ebca6b, 0x42f5e) == 0x85efe535 by { XorOneMore(0x85ebca6, 0x42f5, 0xb, 0xe); }
  }

  lemma LargeXorStart()
    ensures Xor(0x514e79, 0x51) == 0x514e28
  {
    hide Xor;
    XorZero(0x514e);
    assert Xor(0x514e7, 0x5) == 0x514e2 by { XorOneMore(0x514e, 0x0, 0x7, 0x5); }
    assert Xor(0x514e79, 0x51) == 0x514e28 by { XorOneMore(0x514e7, 0x5, 0x9, 0x1); }
  }

  lemma LargeXor()
    ensures Xor(0x514e79f9, 0x514e) == 0x514e28b7
  {
    hide Xor;
    LargeXorStart();
    assert Xor(0x514e79f, 0x514) == 0x514e28b by { XorOneMore(0x514e79, 0x51, 0xf, 0x4); }
    assert Xor(0x514e79f9, 0x514e) == 0x514e28b7 by { XorOneMore(0x514e79f, 0x514, 0x9, 0xe); }
  }

  /** The published value of the empty key with the seed 1. */
  lemma EmptyHash()
    ensures Hash([], 1) == 0x514e28b7
  {
    hide Xor;
    XorZero(1);
    SmallXor();
    LargeXor();
    assert Times(1, F1) == 0x85ebca6b && Times(0x85efe535, F2) == 0x514e79f9;
    assert MixTail(Mixed([], 1, 0), []) == 1;
  }

  /** A zero byte with the seed 1: the length takes part. */
  lemma ZeroHash()
    ensures Hash([0], 1) == 0
  {
    hide Xor;
    XorZero(1);
    XorSelf(1);
    XorZero(0);
    assert [0][0..] == [0] && TailWord([0][1..]) == 0 && TailWord([0]) == 0 && Scramble(0) == 0;
    assert Mixed([0], 1, 0) == 1;
  }
}
