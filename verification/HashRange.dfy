/** HashToRange and ConsistentHash of src/utils/hash_utils.cpp. */
module HashRange {
  import opened Words
  import Murmur

  /** The product fits 64 bits, so the source's shift by 32 is a division by 2^32. */
  function HashToRange(hash: Word, range: Word): (bucket: nat)
    ensures range > 0 ==> bucket < range
    ensures range == 0 ==> bucket == 0
  {
    ProductBound(hash, range);
    hash * range / WORDS
  }

  lemma ProductBound(hash: Word, range: Word)
    ensures range > 0 ==> hash * range / WORDS < range
    ensures 0 <= hash * range / WORDS
  {
    if range > 0 { ScaleLess(hash, WORDS, range); }
  }

  lemma {:induction false} ScaleLess(a: nat, b: nat, c: nat)
    requires a < b && c > 0
    ensures 0 <= a * c < b * c
  {
    if c > 1 {
      ScaleLess(a, b, c - 1);
      assert a * c == a * (c - 1) + a && b * c == b * (c - 1) + b;
    }
  }

  // ----- Balance -----

  function CeilingOf(x: nat, r: nat): nat
    requires r > 0
  {
    (x + r - 1) / r
  }

  lemma CeilingIsLeast(h: nat, x: nat, r: nat)
    requires r > 0
    ensures h * r >= x <==> h >= CeilingOf(x, r)
  {
    var c := CeilingOf(x, r);
    assert c * r >= x && (c - 1) * r < x;
    if h >= c {
      assert h * r >= c * r;
    } else {
      assert h * r <= (c - 1) * r;
    }
  }

  /** The hashes of a bucket form an interval. */
  lemma BucketIsInterval(hash: Word, range: Word, bucket: nat)
    requires range > 0
    ensures HashToRange(hash, range) == bucket
       <==> CeilingOf(bucket * WORDS, range) <= hash < CeilingOf((bucket + 1) * WORDS, range)
  {
    CeilingIsLeast(hash, bucket * WORDS, range);
    CeilingIsLeast(hash, (bucket + 1) * WORDS, range);
    assert hash * range >= 0;
  }

  ghost function Interval(lo: int, hi: int): (members: set<int>)
    requires lo <= hi
    ensures |members| == hi - lo
    ensures forall h :: h in members <==> lo <= h < hi
    decreases hi - lo
  {
    if lo == hi then {} else Interval(lo, hi - 1) + {hi - 1}
  }

  lemma CeilingStep(x: nat, r: nat)
    requires r > 0
    ensures WORDS / r <= CeilingOf(x + WORDS, r) - CeilingOf(x, r) <= CeilingOf(WORDS, r)
  {
    var c, d, e := CeilingOf(x, r), CeilingOf(x + WORDS, r), CeilingOf(WORDS, r);
    hide CeilingOf;
    CeilingIsLeast(c, x, r);
    CeilingIsLeast(d, x + WORDS, r);
    CeilingIsLeast(e, WORDS, r);
    assert (c + e) * r == c * r + e * r;
    CeilingIsLeast(c + e, x + WORDS, r);
    FloorStep(d, x, r);
    CeilingIsLeast(d - WORDS / r, x, r);
  }

  lemma FloorStep(d: nat, x: nat, r: nat)
    requires r > 0 && d * r >= x + WORDS
    ensures d >= WORDS / r && (d - WORDS / r) * r >= x
  {
    var q := WORDS / r;
    assert q * r <= WORDS;
    assert (d - q) * r == d * r - q * r;
    assert (q - d) * r == q * r - d * r;
    SignOfProduct(q - d, r);
  }

  lemma SignOfProduct(a: int, b: int)
    requires b > 0 && a * b <= 0
    ensures a <= 0
  {}

  ghost function Bucket(range: Word, bucket: nat): set<Word> {
    set h: Word | HashToRange(h, range) == bucket
  }

  /** Every bucket receives the floor or the ceiling of 2^32 / range hash values. */
  lemma Balanced(range: Word, bucket: nat)
    requires bucket < range
    ensures WORDS / range <= |Bucket(range, bucket)| <= CeilingOf(WORDS, range)
  {
    var lo, hi := CeilingOf(bucket * WORDS, range), CeilingOf((bucket + 1) * WORDS, range);
    CeilingStep(bucket * WORDS, range);
    LastCeiling(range, bucket);
    hide HashToRange, CeilingOf;
    forall h: Word
      ensures h in Bucket(range, bucket) <==> h in Interval(lo, hi)
    {
      BucketIsInterval(h, range, bucket);
    }
    assert Bucket(range, bucket) == Interval(lo, hi);
  }

  lemma LastCeiling(range: Word, bucket: nat)
    requires bucket < range
    ensures CeilingOf((bucket + 1) * WORDS, range) <= WORDS
  {
    assert WORDS * range - (bucket + 1) * WORDS == WORDS * (range - bucket - 1) >= 0;
    CeilingIsLeast(WORDS, (bucket + 1) * WORDS, range);
  }

  // ----- Growing the range -----

  /** One more bucket moves a hash by at most one bucket, and never back. */
  lemma GrowByOne(hash: Word, range: Word)
    requires range + 1 < WORDS
    ensures HashToRange(hash, range) <= HashToRange(hash, range + 1) <= HashToRange(hash, range) + 1
  {
    assert hash * (range + 1) == hash * range + hash;
  }

  lemma MonotoneInHash(g: Word, h: Word, range: Word)
    requires g <= h
    ensures HashToRange(g, range) <= HashToRange(h, range)
  {
    assert (h - g) * range >= 0;
    DivideMonotone(g * range, h * range);
  }

  lemma DivideMonotone(a: nat, b: nat)
    requires a <= b
    ensures a / WORDS <= b / WORDS
  {}

  // ----- Consistent hashing -----

  function Digits(n: nat): (text: seq<Byte>)
    ensures 0 < |text| <= n + 1
  {
    if n < 10 then [48 + n] else Digits(n / 10) + [48 + n % 10]
  }

  /** key + "#" + std::to_string(i) */
  function VirtualKey(key: seq<Byte>, i: nat): seq<Byte> {
    key + [35] + Digits(i)
  }

  /** The number a text of decimal digits stands for. */
  function NumberOf(text: seq<Byte>): int {
    if text == [] then 0 else 10 * NumberOf(text[..|text| - 1]) + (text[|text| - 1] as int - 0x30)
  }

  /** Decimal digits without a leading zero. */
  ghost predicate IsDecimal(text: seq<Byte>) {
    text != [] && (forall i :: 0 <= i < |text| ==> 0x30 <= text[i] <= 0x39) && (|text| > 1 ==> text[0] != 0x30)
  }

  lemma {:induction false} DigitsAre(text: seq<Byte>)
    requires IsDecimal(text)
    ensures NumberOf(text) >= 0 && Digits(NumberOf(text)) == text && (text != [0x30] ==> NumberOf(text) > 0)
  {
    var front, last := text[..|text| - 1], text[|text| - 1] as int - 0x30;
    assert text == front + [48 + last];
    if front == [] {
      assert NumberOf(front) == 0;
    } else {
      DigitsAre(front);
      assert front != [0x30];
    }
  }

  /** The hash of a virtual node is that of the key, a # and the node's number in decimal, with the seed 0. */
  lemma VirtualHashIs(key: seq<Byte>, text: seq<Byte>)
    requires IsDecimal(text) && Murmur.LengthFits(key + [0x23] + text)
    ensures NumberOf(text) >= 0 && Murmur.LengthFits(VirtualKey(key, NumberOf(text)))
    ensures VirtualHash(key, NumberOf(text)) == Murmur.Hash(Murmur.Reached(key + [0x23] + text), 0)
  {
    DigitsAre(text);
  }

  function VirtualHash(key: seq<Byte>, i: nat): Word
    requires Murmur.LengthFits(VirtualKey(key, i))
  {
    Murmur.Hash(Murmur.Reached(VirtualKey(key, i)), 0)
  }

  ghost predicate KeysFit(key: seq<Byte>, count: int) {
    forall i: nat :: i < count ==> Murmur.LengthFits(VirtualKey(key, i))
  }

  /** The largest hash among the first virtual keys; 0 when there are none. */
  ghost function LargestHash(key: seq<Byte>, count: int): Word
    requires KeysFit(key, count)
  {
    if count <= 0 then 0
    else
      var best, last := LargestHash(key, count - 1), VirtualHash(key, count - 1);
      if last > best then last else best
  }

  lemma {:induction false} LargestHashIsMaximum(key: seq<Byte>, count: int)
    requires KeysFit(key, count)
    ensures forall i: nat :: i < count ==> VirtualHash(key, i) <= LargestHash(key, count)
    ensures LargestHash(key, count) != 0 ==>
      exists i: nat :: i < count && VirtualHash(key, i) == LargestHash(key, count)
  {
    hide VirtualHash;
    if count > 0 { LargestHashIsMaximum(key, count - 1); }
  }

  method ConsistentHash(key: seq<Byte>, virtualNodeCount: int, range: Word) returns (bucket: nat)
    requires KeysFit(key, virtualNodeCount)
    ensures bucket == HashToRange(LargestHash(key, virtualNodeCount), range)
  {
    hide Murmur.Hash, Murmur.Reached, Murmur.LengthFits, HashToRange, VirtualKey;
    var finalHash: Word := 0;
    var i := 0;
    while i < virtualNodeCount
      invariant 0 <= i && (i <= virtualNodeCount || i == 0)
      invariant finalHash == LargestHash(key, i)
    {
      var hash := Murmur.MurmurHash3(VirtualKey(key, i), 0);
      if hash > finalHash {
        finalHash := hash;
      }
      i := i + 1;
    }
    bucket := HashToRange(finalHash, range);
  }

  /** More virtual nodes never lower the bucket, and one more bucket moves the key by at most one. */
  lemma ConsistentHashMoves(key: seq<Byte>, few: int, many: int, range: Word)
    requires few <= many && KeysFit(key, many)
    ensures HashToRange(LargestHash(key, few), range) <= HashToRange(LargestHash(key, many), range)
    ensures range + 1 < WORDS ==>
      var best := LargestHash(key, many);
      HashToRange(best, range) <= HashToRange(best, range + 1) <= HashToRange(best, range) + 1
  {
    hide HashToRange, VirtualHash, LargestHash;
    LargestHashIsMaximum(key, few);
    LargestHashIsMaximum(key, many);
    MonotoneInHash(LargestHash(key, few), LargestHash(key, many), range);
    if range + 1 < WORDS { GrowByOne(LargestHash(key, many), range); }
  }
}
