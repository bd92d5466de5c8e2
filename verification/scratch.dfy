/**
 * The experimental copy of the bucket-index rule kept in `play.go`.
 *
 * It runs the same scan as `find_n` in `src/dht/common.go` but breaks out of
 * the loop instead of returning, and returns the loop counter afterwards:
 * for equal identifiers the counter has run to `IDLen`, so this variant
 * answers 64 where the library answers 63.
 */
module Scratch {
  import opened Identity

  /** An all-zero distance has no set bit, so the scan runs to the end. */
  lemma {:induction false} ScanOfZero(i: Uint)
    requires i <= IDLen
    ensures ScanFrom(0, i) == IDLen
    decreases IDLen - i
  {
    if i < IDLen {
      ZeroHasNoBits(TestedBit(i));
      ScanOfZero(i + 1);
    }
  }

  lemma {:induction false} ZeroHasNoBits(k: Uint)
    requires k < IDLen
    ensures !BitSet(0, k)
  {
  }

  /** `find_n` of `play.go`: the loop counter at which the scan stopped. */
  function FindN(a: ID, b: ID): (n: Uint)
    ensures n <= IDLen
  {
    ScanFrom(a ^ b, 0)
  }

  /** The scratch variant runs off the end of the loop exactly for equal
      identifiers. */
  lemma {:induction false} FindNEndIffEqual(a: ID, b: ID)
    ensures FindN(a, b) == IDLen <==> a == b
  {
    var diff := a ^ b;
    if a == b {
      XorSelf(a);
      ScanOfZero(0);
    } else {
      NothingBeforeStart(diff);
      ScanFromSkipsClearBits(diff, 0);
      if ScanFrom(diff, 0) == IDLen {
        NothingLeftIsZero(diff);
      }
    }
  }

  /** For distinct identifiers the scratch variant and the library `find_n`
      agree, so it also names the most significant differing bit. */
  lemma {:induction false} FindNAgreesWhenDistinct(a: ID, b: ID)
    requires a != b
    ensures FindN(a, b) == Identity.FindN(a, b)
    ensures HighestBitIs(Xor(a, b), TestedBit(FindN(a, b)))
  {
    FindNEndIffEqual(a, b);
  }

  /** For equal identifiers the two conventions part: the scratch variant
      answers `IDLen`, one past the last bucket, the library `IDLen - 1`. */
  lemma {:induction false} FindNOnEqual(a: ID)
    ensures FindN(a, a) == IDLen
    ensures Identity.FindN(a, a) == IDLen - 1
  {
    FindNEndIffEqual(a, a);
  }

  /** The scratch variant looks at its arguments only through their XOR, so it
      is symmetric. */
  lemma {:induction false} FindNSymmetric(a: ID, b: ID)
    ensures FindN(a, b) == FindN(b, a)
  {
    XorSymmetric(a, b);
  }
}
