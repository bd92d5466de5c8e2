/**
 The identity and distance layer of the DHT (src/dht/common.go): 64-bit node and
 user identifiers, their derivation from a SHA-1 digest, the XOR metric of
 Kademlia (section 2.1 of Maymounkov and Mazieres, 2002) and the k-bucket index
 rule (section 2.2 of the same paper).
 */
module Identity {

  /** An identifier: Go's `type ID uint64`. */
  type ID = bv64

  /** Go's `uint`, the type of a bucket index (64 bits wide). */
  type Uint = bv64

  /** Number of bits of an identifier, and so the number of k-buckets. */
  const IDLen: Uint := 64
  /** Bucket capacity and lookup result size. */
  const K: nat := 20
  /** Number of concurrent requests of a lookup. */
  const Alpha: nat := 3

  // ---------------------------------------------------------------------------
  // Go's shift on uint64
  // ---------------------------------------------------------------------------

  /** One-bit left shift of a uint64. */
  function ShlOne(y: ID): ID
  {
    y << 1
  }

  /** One-byte left shift of a uint64. */
  function ShlByte(y: ID): ID
  {
    y << 8
  }

  /** Bitwise OR of two uint64 values. */
  function Or(x: ID, y: ID): ID
  {
    x | y
  }

  /** Go's `x << c` on a uint64 for a non-negative count `c`. The Go
      specification defines it as `c` one-bit shifts, with no upper limit on
      `c`, so that every count of 64 or more yields 0 (see GoShlWide). */
  function GoShl(x: ID, c: nat): ID
  {
    if c == 0 then x else ShlOne(GoShl(x, c - 1))
  }

  lemma {:induction false} GoShlBit(x: ID, c: nat)
    ensures GoShl(x, c + 1) == ShlOne(GoShl(x, c))
  {
  }

  lemma {:induction false} EightBits(y: ID)
    ensures ShlOne(ShlOne(ShlOne(ShlOne(ShlOne(ShlOne(ShlOne(ShlOne(y)))))))) == ShlByte(y)
  {
  }

  /** Eight more bits of shift push the value up by one byte. */
  lemma {:induction false} GoShlByteStep(x: ID, c: nat)
    ensures GoShl(x, c + 8) == ShlByte(GoShl(x, c))
  {
    GoShlBit(x, c);
    GoShlBit(x, c + 1);
    GoShlBit(x, c + 2);
    GoShlBit(x, c + 3);
    GoShlBit(x, c + 4);
    GoShlBit(x, c + 5);
    GoShlBit(x, c + 6);
    GoShlBit(x, c + 7);
    EightBits(GoShl(x, c));
  }

  /** Shifting by `c + 8` is shifting by one byte first and then by `c`. */
  lemma {:induction false} GoShlByteFirst(x: ID, c: nat)
    ensures GoShl(x, c + 8) == GoShl(ShlByte(x), c)
  {
    if c == 0 {
      GoShlByteStep(x, c);
    } else {
      GoShlByteFirst(x, c - 1);
      GoShlBit(x, c + 7);
      GoShlBit(ShlByte(x), c - 1);
    }
  }

  lemma {:induction false} ShlOneOr(x: ID, y: ID)
    ensures ShlOne(Or(x, y)) == Or(ShlOne(x), ShlOne(y))
  {
  }

  lemma {:induction false} GoShlOr(x: ID, y: ID, c: nat)
    ensures GoShl(Or(x, y), c) == Or(GoShl(x, c), GoShl(y, c))
  {
    if c > 0 {
      GoShlOr(x, y, c - 1);
      ShlOneOr(GoShl(x, c - 1), GoShl(y, c - 1));
    }
  }

  lemma {:induction false} GoShlZero(c: nat)
    ensures GoShl(0, c) == 0
  {
    if c > 0 {
      GoShlZero(c - 1);
    }
  }

  lemma {:induction false} EightBytes(y: ID)
    ensures ShlByte(ShlByte(ShlByte(ShlByte(ShlByte(ShlByte(ShlByte(ShlByte(y)))))))) == 0
  {
  }

  /** A shift by 64 bits or more leaves nothing of a uint64. */
  lemma {:induction false} GoShlWide(x: ID, c: nat)
    requires c >= 64
    ensures GoShl(x, c) == 0
  {
    var n := c - 64;
    GoShlByteStep(x, n);
    GoShlByteStep(x, n + 8);
    GoShlByteStep(x, n + 16);
    GoShlByteStep(x, n + 24);
    GoShlByteStep(x, n + 32);
    GoShlByteStep(x, n + 40);
    GoShlByteStep(x, n + 48);
    GoShlByteStep(x, n + 56);
    EightBytes(GoShl(x, n));
  }

  // ---------------------------------------------------------------------------
  // ID derivation
  // ---------------------------------------------------------------------------

  /** Shifts the accumulator up by one byte and puts `b` in the freed byte. */
  function PushByte(acc: ID, b: bv8): ID
  {
    Or(ShlByte(acc), b as ID)
  }

  /** The big-endian reading of a byte sequence in 64-bit arithmetic: every new
      byte enters at the bottom and pushes the earlier ones up by one byte. */
  function Pack(bs: seq<bv8>): ID
  {
    if bs == [] then 0 else PushByte(Pack(bs[..|bs| - 1]), bs[|bs| - 1])
  }

  /** The big-endian value of a byte sequence as an unbounded number. */
  function BigEndianValue(bs: seq<bv8>): nat
  {
    if bs == [] then 0 else BigEndianValue(bs[..|bs| - 1]) * 256 + bs[|bs| - 1] as nat
  }

  /** The last `min(|bs|, 8)` bytes of `bs`. */
  function LastBytes(bs: seq<bv8>): (t: seq<bv8>)
    ensures |t| <= 8 && (|bs| <= 8 ==> t == bs)
    ensures |bs| >= 8 ==> |t| == 8
    ensures forall j :: 0 <= j < |t| ==> t[j] == bs[|bs| - |t| + j]
  {
    if |bs| <= 8 then bs else bs[|bs| - 8..]
  }

  lemma {:induction false} PushByteOr(u: ID, v: ID, b: bv8)
    ensures PushByte(Or(u, v), b) == Or(ShlByte(u), PushByte(v, b))
  {
  }

  /** Packing `prefix + s` puts the prefix `|s|` bytes above `s`. */
  lemma {:induction false} PackAppend(prefix: seq<bv8>, s: seq<bv8>)
    ensures Pack(prefix + s) == Or(GoShl(Pack(prefix), 8 * |s|), Pack(s))
  {
    if s == [] {
      assert prefix + s == prefix;
    } else {
      var init := s[..|s| - 1];
      assert (prefix + s)[..|prefix + s| - 1] == prefix + init;
      PackAppend(prefix, init);
      PushByteOr(GoShl(Pack(prefix), 8 * |init|), Pack(init), s[|s| - 1]);
      GoShlByteStep(Pack(prefix), 8 * |init|);
    }
  }

  /** A prefix in front of at least eight bytes is shifted out of the 64-bit
      word and never changes the packed value. */
  lemma {:induction false} PackIgnoresLeadingBytes(prefix: seq<bv8>, s: seq<bv8>)
    requires |s| >= 8
    ensures Pack(prefix + s) == Pack(s)
  {
    PackAppend(prefix, s);
    GoShlWide(Pack(prefix), 8 * |s|);
  }

  function Pow256(n: nat): nat
  {
    if n == 0 then 1 else 256 * Pow256(n - 1)
  }

  lemma {:induction false} BigEndianBound(bs: seq<bv8>)
    ensures BigEndianValue(bs) < Pow256(|bs|)
  {
    if bs != [] {
      BigEndianBound(bs[..|bs| - 1]);
    }
  }

  lemma {:induction false} Pow256Monotone(m: nat, n: nat)
    requires m <= n
    ensures Pow256(m) <= Pow256(n)
    decreases n
  {
    if m < n {
      Pow256Monotone(m, n - 1);
    }
  }

  lemma {:induction false} PushByteValue(x: ID, b: bv8)
    requires x as int < 0x100_0000_0000_0000
    ensures PushByte(x, b) as int == x as int * 256 + b as int
  {
    ShiftInByte(x, b);
  }

  lemma {:induction false} ShiftInByte(x: ID, b: bv8)
    requires x as int < 0x100_0000_0000_0000
    ensures ((x << 8) | b as ID) as int == x as int * 256 + b as int
  {
  }

  /** The packed value of at most eight bytes is their big-endian value. */
  lemma {:induction false} PackValue(bs: seq<bv8>)
    requires |bs| <= 8
    ensures Pack(bs) as int == BigEndianValue(bs)
  {
    if bs != [] {
      var init := bs[..|bs| - 1];
      PackValue(init);
      BigEndianBound(init);
      Pow256Monotone(|init|, 7);
      assert Pow256(7) == 0x100_0000_0000_0000;
      PushByteValue(Pack(init), bs[|bs| - 1]);
    }
  }

  /** The packed value of any byte sequence is the big-endian value of its last
      eight bytes. */
  lemma {:induction false} PackIsLastBytesValue(bs: seq<bv8>)
    ensures Pack(bs) as int == BigEndianValue(LastBytes(bs))
  {
    var t := LastBytes(bs);
    if |bs| > 8 {
      assert bs == bs[..|bs| - 8] + t;
      PackIgnoresLeadingBytes(bs[..|bs| - 8], t);
    }
    PackValue(t);
  }

  /** One round of the fold: OR-ing byte `b`, shifted by `c`, into the
      accumulator that holds the earlier bytes shifted by `c + 8`. */
  lemma {:induction false} FoldStep(prefix: seq<bv8>, b: bv8, c: nat)
    ensures Or(GoShl(Pack(prefix), c + 8), GoShl(b as ID, c)) == GoShl(Pack(prefix + [b]), c)
  {
    assert (prefix + [b])[..|prefix|] == prefix;
    GoShlByteFirst(Pack(prefix), c);
    GoShlOr(ShlByte(Pack(prefix)), b as ID, c);
  }

  /** Go's `Sha1` after the digest is computed: every byte `bs[i]` is shifted
      left by `(len(bs) - i - 1) * 8` bits and OR'd into a 64-bit accumulator.
      The SHA-1 digest itself is a parameter. The result is the big-endian value
      of the last eight digest bytes (of all of them when there are fewer), so
      an identifier carries 64 bits of the digest, not 160. */
  method Sha1Fold(bs: seq<bv8>) returns (a: ID)
    ensures a as int == BigEndianValue(LastBytes(bs))
  {
    var l := |bs|;
    a := 0;
    GoShlZero(l * 8);
    assert Pack(bs[..0]) == 0;
    for i := 0 to l
      invariant a == GoShl(Pack(bs[..i]), (l - i) * 8)
    {
      var shift := (l - i - 1) * 8;
      assert (l - i) * 8 == shift + 8;
      FoldStep(bs[..i], bs[i], shift);
      assert bs[..i] + [bs[i]] == bs[..i + 1];
      a := Or(a, GoShl(bs[i] as ID, shift));
    }
    assert bs[..l] == bs;
    PackIsLastBytesValue(bs);
  }

  // ---------------------------------------------------------------------------
  // XOR metric
  // ---------------------------------------------------------------------------

  /** The Kademlia distance between two identifiers: 0 exactly when they are
      equal. */
  function Xor(a: ID, b: ID): (d: ID)
    ensures d == 0 <==> a == b
  {
    a ^ b
  }

  /** The distance from `a` determines the other end: XOR-ing it onto `a`
      recovers `b`. */
  lemma {:induction false} XorRecovers(a: ID, b: ID)
    ensures Xor(a, b) ^ a == b
  {
  }

  /** The metric is symmetric. */
  lemma {:induction false} XorSymmetric(a: ID, b: ID)
    ensures Xor(a, b) == Xor(b, a)
  {
  }

  /** Every identifier is at distance 0 from itself. */
  lemma {:induction false} XorSelf(a: ID)
    ensures Xor(a, a) == 0
  {
  }

  // ---------------------------------------------------------------------------
  // Bucket index
  // ---------------------------------------------------------------------------

  /** Bit `k` of `x` is set, bit 0 being the least significant. */
  predicate BitSet(x: ID, k: Uint)
    requires k < IDLen
  {
    (1 << k) & x != 0
  }

  /** Bit `k` is the most significant set bit of `x`: shifting `x` down by `k`
      leaves exactly 1 (HighestBitIsBitwise states it bit by bit). */
  predicate HighestBitIs(x: ID, k: Uint)
    requires k < IDLen
  {
    x >> k == 1
  }

  /** The bit that iteration `i` of Go's `find_n` loop tests: the scan runs
      from the most significant bit down. */
  function TestedBit(i: Uint): (k: Uint)
    requires i < IDLen
    ensures k < IDLen
  {
    IDLen - 1 - i
  }

  /** The loop of Go's `find_n` from index `i` on. The result is the first
      index whose tested bit of `diff` is set, or `IDLen` when the loop runs to
      its end. */
  function ScanFrom(diff: ID, i: Uint): (n: Uint)
    requires i <= IDLen
    ensures i <= n <= IDLen
    decreases IDLen - i
  {
    if i == IDLen then IDLen
    else if BitSet(diff, TestedBit(i)) then i
    else ScanFrom(diff, i + 1)
  }

  /** The scan stops only at a set bit. */
  lemma {:induction false} ScanFromFindsSetBit(diff: ID, i: Uint)
    requires i <= IDLen
    ensures ScanFrom(diff, i) < IDLen ==> BitSet(diff, TestedBit(ScanFrom(diff, i)))
    decreases IDLen - i
  {
    if i < IDLen && !BitSet(diff, TestedBit(i)) {
      ScanFromFindsSetBit(diff, i + 1);
    }
  }

  /** Every bit of `x` at position `s` or above is clear. */
  predicate ClearFrom(x: ID, s: Uint)
    requires s <= IDLen
  {
    x >> s == 0
  }

  /** The bits that iterations `0 .. i - 1` of the loop test are all clear. */
  predicate ClearBefore(x: ID, i: Uint)
    requires i <= IDLen
  {
    ClearFrom(x, IDLen - i)
  }

  lemma {:induction false} ClearOneMore(x: ID, i: Uint)
    requires i < IDLen
    requires ClearBefore(x, i)
    requires !BitSet(x, TestedBit(i))
    ensures ClearBefore(x, i + 1)
  {
  }

  /** Every bit the scan passes over is clear. */
  lemma {:induction false} ScanFromSkipsClearBits(diff: ID, i: Uint)
    requires i <= IDLen
    requires ClearBefore(diff, i)
    ensures ClearBefore(diff, ScanFrom(diff, i))
    decreases IDLen - i
  {
    if i < IDLen && !BitSet(diff, TestedBit(i)) {
      ClearOneMore(diff, i);
      ScanFromSkipsClearBits(diff, i + 1);
    }
  }

  lemma {:induction false} StopBitIsHighest(x: ID, n: Uint)
    requires n < IDLen
    requires ClearBefore(x, n)
    requires BitSet(x, TestedBit(n))
    ensures HighestBitIs(x, TestedBit(n))
  {
  }

  lemma {:induction false} NothingLeftIsZero(x: ID)
    requires ClearBefore(x, IDLen)
    ensures x == 0
  {
  }

  lemma {:induction false} NothingBeforeStart(x: ID)
    ensures ClearBefore(x, 0)
  {
  }

  /** Go's `find_n`: the k-bucket index of `b` as seen from `a`, counted from
      the most significant bit. For distinct identifiers it is `IDLen - 1 - k`
      where `k` is the most significant bit in which they differ; equal
      identifiers land in the last bucket, `IDLen - 1`. */
  function FindN(a: ID, b: ID): (n: Uint)
    ensures n < IDLen
    ensures a == b ==> n == IDLen - 1
    ensures a != b ==> HighestBitIs(Xor(a, b), TestedBit(n))
  {
    var diff := a ^ b;
    var i := ScanFrom(diff, 0);
    NothingBeforeStart(diff);
    ScanFromFindsSetBit(diff, 0);
    ScanFromSkipsClearBits(diff, 0);
    if i < IDLen then
      StopBitIsHighest(diff, i);
      i
    else
      NothingLeftIsZero(diff);
      IDLen - 1
  }

  // ---------------------------------------------------------------------------
  // Properties of the bucket index
  // ---------------------------------------------------------------------------

  /** `2^k` as a word. */
  function Pow2(k: Uint): ID
    requires k < IDLen
  {
    1 << k
  }

  lemma {:induction false} HighBitOfOne(x: ID)
    requires x == 1
    ensures HighestBitIs(x, 0)
  {
  }

  /** A word has at most one most significant set bit. */
  lemma {:induction false} HighestBitUnique(x: ID, k1: Uint, k2: Uint)
    requires k1 < IDLen && k2 < IDLen
    requires HighestBitIs(x, k1) && HighestBitIs(x, k2)
    ensures k1 == k2
  {
  }

  lemma {:induction false} HighestBitBitSet(x: ID, k: Uint)
    requires k < IDLen && HighestBitIs(x, k)
    ensures BitSet(x, k)
  {
  }

  lemma {:induction false} HighestBitClearAbove(x: ID, k: Uint)
    requires k < IDLen - 1 && HighestBitIs(x, k)
    ensures ClearFrom(x, k + 1)
  {
  }

  lemma {:induction false} ClearFromMonotone(x: ID, s: Uint, j: Uint)
    requires s <= j <= IDLen && ClearFrom(x, s)
    ensures ClearFrom(x, j)
  {
  }

  lemma {:induction false} ClearFromNotSet(x: ID, j: Uint)
    requires j < IDLen && ClearFrom(x, j)
    ensures !BitSet(x, j)
  {
  }

  lemma {:induction false} HighestBitAboveClear(x: ID, k: Uint, j: Uint)
    requires k < j < IDLen && HighestBitIs(x, k)
    ensures ClearFrom(x, j)
  {
    HighestBitClearAbove(x, k);
    ClearFromMonotone(x, k + 1, j);
  }

  lemma {:induction false} ClearFromStep(x: ID, s: Uint)
    requires s < IDLen
    requires ClearFrom(x, s + 1)
    requires !BitSet(x, s)
    ensures ClearFrom(x, s)
  {
  }

  /** Clear bits, one at a time from the top, make a clear high part. */
  lemma {:induction false} ClearBitsFrom(x: ID, s: Uint)
    requires s <= IDLen
    requires forall j: Uint :: s <= j < IDLen ==> !BitSet(x, j)
    ensures ClearFrom(x, s)
    decreases IDLen - s
  {
    if s < IDLen {
      ClearBitsFrom(x, s + 1);
      ClearFromStep(x, s);
    }
  }

  lemma {:induction false} SetBitBelowClear(x: ID, k: Uint)
    requires k < IDLen
    requires ClearFrom(x, k + 1)
    requires BitSet(x, k)
    ensures HighestBitIs(x, k)
  {
  }

  /** `HighestBitIs` bit by bit: bit `k` is set and every more significant bit
      is clear. */
  lemma {:induction false} HighestBitIsBitwise(x: ID, k: Uint)
    requires k < IDLen
    ensures HighestBitIs(x, k) <==>
      BitSet(x, k) && forall j: Uint :: k < j < IDLen ==> !BitSet(x, j)
  {
    if HighestBitIs(x, k) {
      HighestBitBitSet(x, k);
      forall j: Uint | k < j < IDLen
        ensures !BitSet(x, j)
      {
        HighestBitAboveClear(x, k, j);
        ClearFromNotSet(x, j);
      }
    } else if BitSet(x, k) && forall j: Uint :: k < j < IDLen ==> !BitSet(x, j) {
      ClearBitsFrom(x, k + 1);
      SetBitBelowClear(x, k);
    }
  }

  lemma {:induction false} ClearFromBelowPow2(x: ID, s: Uint)
    requires s < IDLen && ClearFrom(x, s)
    ensures x < Pow2(s)
  {
  }

  lemma {:induction false} HighestBitAtLeast(x: ID, k: Uint)
    requires k < IDLen && HighestBitIs(x, k)
    ensures Pow2(k) <= x
  {
  }

  lemma {:induction false} HighestBitBelow(x: ID, k: Uint)
    requires k < IDLen - 1 && HighestBitIs(x, k)
    ensures x < Pow2(k + 1)
  {
    HighestBitClearAbove(x, k);
    ClearFromBelowPow2(x, k + 1);
  }

  lemma {:induction false} InRangeHighestBit(x: ID, k: Uint)
    requires k < IDLen - 1 && Pow2(k) <= x && x < Pow2(k + 1)
    ensures HighestBitIs(x, k)
  {
  }

  lemma {:induction false} TopRangeHighestBit(x: ID)
    requires Pow2(IDLen - 1) <= x
    ensures HighestBitIs(x, IDLen - 1)
  {
  }

  /** `HighestBitIs` as a range: `2^k <= x < 2^(k + 1)`, the upper bound
      being vacuous for the top bit. */
  lemma {:induction false} HighestBitRange(x: ID, k: Uint)
    requires k < IDLen
    ensures HighestBitIs(x, k) <==> Pow2(k) <= x && (k == IDLen - 1 || x < Pow2(k + 1))
  {
    if HighestBitIs(x, k) {
      HighestBitAtLeast(x, k);
      if k < IDLen - 1 {
        HighestBitBelow(x, k);
      }
    } else if k < IDLen - 1 {
      if Pow2(k) <= x && x < Pow2(k + 1) {
        InRangeHighestBit(x, k);
      }
    } else if Pow2(k) <= x {
      TopRangeHighestBit(x);
    }
  }

  lemma {:induction false} ClearBelowSetIsSmaller(x: ID, y: ID, s: Uint)
    requires s < IDLen && ClearFrom(y, s) && !ClearFrom(x, s)
    ensures y < x
  {
  }

  /** Of two words, the one with the higher top bit is the larger. */
  lemma {:induction false} HigherTopBitIsLarger(x: ID, kx: Uint, y: ID, ky: Uint)
    requires ky < kx < IDLen
    requires HighestBitIs(x, kx) && HighestBitIs(y, ky)
    ensures y < x
  {
    HighestBitAboveClear(y, ky, kx);
    ClearBelowSetIsSmaller(x, y, kx);
  }

  lemma {:induction false} TestedBitInjective(i: Uint, j: Uint)
    requires i < IDLen && j < IDLen
    ensures TestedBit(i) == TestedBit(j) <==> i == j
    ensures TestedBit(i) < TestedBit(j) <==> j < i
  {
  }

  /** For distinct identifiers, `FindN` is the one index whose tested bit is the
      most significant bit of the distance. */
  lemma {:induction false} FindNCharacterized(a: ID, b: ID, n: Uint)
    requires a != b
    ensures FindN(a, b) == n <==> n < IDLen && HighestBitIs(Xor(a, b), TestedBit(n))
  {
    var m := FindN(a, b);
    if n < IDLen && HighestBitIs(Xor(a, b), TestedBit(n)) {
      HighestBitUnique(Xor(a, b), TestedBit(n), TestedBit(m));
      TestedBitInjective(n, m);
    }
  }

  /** For distinct identifiers, the distance lies in `[2^(63 - n), 2^(64 - n))`
      where `n` is the bucket index. */
  lemma {:induction false} FindNRange(a: ID, b: ID)
    requires a != b
    ensures InBucketRange(Xor(a, b), FindN(a, b))
  {
    BucketRange(Xor(a, b), FindN(a, b));
  }

  predicate InBucketRange(d: ID, n: Uint)
    requires n < IDLen
  {
    Pow2(TestedBit(n)) <= d && (n == 0 || d < Pow2(TestedBit(n) + 1))
  }

  lemma {:induction false} BucketRange(d: ID, n: Uint)
    requires n < IDLen && HighestBitIs(d, TestedBit(n))
    ensures InBucketRange(d, n)
  {
    HighestBitAtLeast(d, TestedBit(n));
    if n != 0 {
      HighestBitBelow(d, TestedBit(n));
    }
  }

  /** The bucket index depends on the two identifiers only through their
      distance. */
  lemma {:induction false} FindNDependsOnlyOnDistance(a: ID, b: ID, c: ID, d: ID)
    requires Xor(a, b) == Xor(c, d)
    ensures FindN(a, b) == FindN(c, d)
  {
    if a != b {
      FindNCharacterized(c, d, FindN(a, b));
    }
  }

  /** Both ends of a contact compute the same bucket index. */
  lemma {:induction false} FindNSymmetric(a: ID, b: ID)
    ensures FindN(a, b) == FindN(b, a)
  {
    XorSymmetric(a, b);
    FindNDependsOnlyOnDistance(a, b, b, a);
  }

  /** An identifier sits in the last bucket with respect to itself, the same
      bucket as a neighbour that differs in the lowest bit only. */
  lemma {:induction false} FindNSelf(a: ID)
    ensures FindN(a, a) == IDLen - 1
    ensures FindN(a, a ^ 1) == IDLen - 1
  {
    var n := FindN(a, a ^ 1);
    XorRecovers(a, a ^ 1);
    assert Xor(a, a ^ 1) == 1;
    HighBitOfOne(Xor(a, a ^ 1));
    HighestBitUnique(Xor(a, a ^ 1), TestedBit(n), 0);
  }

  /** `b` is strictly closer to `a` than `c` is, in the XOR metric. */
  predicate Closer(a: ID, b: ID, c: ID)
  {
    Xor(a, b) < Xor(a, c)
  }

  lemma {:induction false} DistanceOrderOfBuckets(db: ID, nb: Uint, dc: ID, nc: Uint)
    requires nb < nc < IDLen
    requires HighestBitIs(db, TestedBit(nb))
    requires dc == 0 || HighestBitIs(dc, TestedBit(nc))
    ensures dc < db
  {
    TestedBitInjective(nb, nc);
    if dc != 0 {
      HigherTopBitIsLarger(db, TestedBit(nb), dc, TestedBit(nc));
    }
  }

  /** Only distinct identifiers can sit below the last bucket. */
  lemma {:induction false} BelowLastBucketDistinct(a: ID, b: ID)
    requires FindN(a, b) < IDLen - 1
    ensures a != b
  {
  }

  lemma {:induction false} BucketOrderToSelf(a: ID, b: ID)
    requires a != b
    ensures Closer(a, a, b)
  {
    XorSelf(a);
  }

  lemma {:induction false} BucketOrderDistinct(a: ID, b: ID, c: ID)
    requires FindN(a, b) < FindN(a, c)
    requires a != b && a != c
    ensures Closer(a, c, b)
  {
    DistanceOrderOfBuckets(Xor(a, b), FindN(a, b), Xor(a, c), FindN(a, c));
  }

  /** Bucket order is distance order: a contact in a lower-numbered bucket is
      strictly farther away than one in a higher-numbered bucket. */
  lemma {:induction false} BucketOrderIsDistanceOrder(a: ID, b: ID, c: ID)
    requires FindN(a, b) < FindN(a, c)
    ensures Closer(a, c, b)
  {
    BelowLastBucketDistinct(a, b);
    if a == c {
      BucketOrderToSelf(a, b);
    } else {
      BucketOrderDistinct(a, b, c);
    }
  }
}
