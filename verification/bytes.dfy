/** Byte-level vocabulary shared by the whole engine: the unsigned 8-bit
    integer every field of a cell is stored in, fixed-length filled arrays,
    and the two ways of measuring a candidate-flag array. */
module Bytes {

  /** The Rust `u8`. */
  newtype uint8 = x: int | 0 <= x < 256

  /** True if every slot of `s` holds `v`. */
  predicate AllAre(s: seq<uint8>, v: uint8)
  {
    forall k :: 0 <= k < |s| ==> s[k] == v
  }

  /** A fresh array of `n` slots, all holding `v` (`[v; n]` in Rust). */
  function Filled(n: nat, v: uint8): (s: seq<uint8>)
    ensures |s| == n && AllAre(s, v)
  {
    seq(n, _ => v)
  }

  /** A fresh array of `n` zero slots. */
  function Zeros(n: nat): (s: seq<uint8>)
    ensures |s| == n && AllAre(s, 0)
  {
    Filled(n, 0)
  }

  /** The arithmetic sum of the slots, as an unbounded number. */
  function Sum(s: seq<uint8>): nat
  {
    if |s| == 0 then 0 else s[0] as nat + Sum(s[1..])
  }

  /** The number of slots holding a nonzero value. */
  function CountNonzero(s: seq<uint8>): nat
  {
    if |s| == 0 then 0 else (if s[0] != 0 then 1 else 0) + CountNonzero(s[1..])
  }

  /** True if every slot is a 0/1 flag. */
  predicate IsFlagArray(s: seq<uint8>)
  {
    forall k :: 0 <= k < |s| ==> s[k] <= 1
  }

  /** On an array of 0/1 flags the sum of the slots is the number of set
      flags, so it never exceeds the array length (and cannot overflow a
      `u8` when the array has at most 255 slots). */
  lemma {:induction false} SumOfFlagsCountsSetFlags(s: seq<uint8>)
    requires IsFlagArray(s)
    ensures Sum(s) == CountNonzero(s) <= |s|
  {
    if |s| > 0 {
      assert IsFlagArray(s[1..]) by {
        forall k | 0 <= k < |s[1..]| ensures s[1..][k] <= 1 {
          assert s[1..][k] == s[k + 1];
        }
      }
      SumOfFlagsCountsSetFlags(s[1..]);
    }
  }

  /** The sum is zero exactly when every slot is zero. */
  lemma {:induction false} SumZeroIffAllZero(s: seq<uint8>)
    ensures Sum(s) == 0 <==> AllAre(s, 0)
  {
    if |s| > 0 {
      SumZeroIffAllZero(s[1..]);
      assert AllAre(s, 0) <==> s[0] == 0 && AllAre(s[1..], 0) by {
        if s[0] == 0 && AllAre(s[1..], 0) {
          forall k | 0 <= k < |s| ensures s[k] == 0 {
            if k > 0 { assert s[k] == s[1..][k - 1]; }
          }
        }
      }
    }
  }
}
