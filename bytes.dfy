/** Machine-level types of the codec: C's uint8_t and the range of uint32_t. */
module Bytes {

  /** An unsigned 8-bit value: one payload byte or one colour-channel sample. */
  type byte = bv8

  /** One past the largest value of a 32-bit unsigned integer (the source's `uint`). */
  const UINT_LIMIT: nat := 0x1_0000_0000

  /** The number a byte stands for, as when the source widens it to `uint`. */
  function Value(b: byte): (v: nat)
    ensures v < 256
  {
    b as nat
  }

  /**
   * The byte holding a number below 256, as when the source narrows it to
   * `byte`. It is built bit by bit, least significant bit last, so that the
   * proofs about it stay within bit-vector reasoning.
   */
  function ToByte(x: nat): byte
    requires x < 256
  {
    if x == 0 then 0 else (ToByte(x / 2) << 1) | (if x % 2 == 0 then 0 else 1)
  }

  /** Shifting in one more low bit doubles the value and adds the bit. */
  lemma ValueShiftIn(t: byte, c: byte)
    requires Value(t) < 128 && c <= 1
    ensures Value((t << 1) | c) == 2 * Value(t) + Value(c)
  {
  }

  /** Halving a byte by a shift halves its value. */
  lemma ValueHalf(b: byte)
    ensures Value(b >> 1) == Value(b) / 2
  {
  }

  /** The low bit of a byte is its value's parity. */
  lemma ValueLowBit(b: byte)
    ensures Value(b & 1) == Value(b) % 2
  {
  }

  /** Widening a narrowed number below 256 gives the number back. */
  lemma {:induction false} ValueOfToByte(x: nat)
    requires x < 256
    ensures Value(ToByte(x)) == x
  {
    if x > 0 {
      var low: byte := if x % 2 == 0 then 0 else 1;
      assert Value(low) == x % 2 by {
        if x % 2 == 0 { assert low == 0; } else { assert low == 1; }
      }
      ValueOfToByte(x / 2);
      ValueShiftIn(ToByte(x / 2), low);
      assert ToByte(x) == (ToByte(x / 2) << 1) | low;
    }
  }

  /** Narrowing the value of a byte gives the byte back. */
  lemma {:induction false} ToByteOfValue(b: byte)
    ensures ToByte(Value(b)) == b
    decreases Value(b)
  {
    if b != 0 {
      ValueHalf(b);
      ValueLowBit(b);
      assert b == ((b >> 1) << 1) | (b & 1);
      ToByteOfValue(b >> 1);
      assert (if Value(b) % 2 == 0 then 0 else 1) == b & 1;
    }
  }

  /** The byte with only bit `k` set (bit 0 is the least significant). */
  function Mask(k: nat): (m: byte)
    requires k < 8
  {
    if k == 0 then 1 else if k == 1 then 2 else if k == 2 then 4 else if k == 3 then 8
    else if k == 4 then 16 else if k == 5 then 32 else if k == 6 then 64 else 128
  }

  /** Bit `k` of `b` is set. */
  predicate BitSet(b: byte, k: nat)
    requires k < 8
  {
    b & Mask(k) != 0
  }

  /** Or-ing in the mask of bit `j` sets bit `j` and leaves the other bits alone. */
  lemma BitOfOr(a: byte, j: nat, k: nat)
    requires j < 8 && k < 8
    ensures BitSet(a | Mask(j), k) <==> BitSet(a, k) || k == j
  {
  }

  /** The top bit of `b` moved to position `k` is the mask of bit `k` exactly for the bytes from 128 up. */
  lemma TopBitShifted(b: byte, k: nat)
    requires k < 8
    ensures (b >> 7) << k == if b >= 128 then Mask(k) else 0
  {
    if k == 0 {
    } else if k == 1 {
    } else if k == 2 {
    } else if k == 3 {
    } else if k == 4 {
    } else if k == 5 {
    } else if k == 6 {
    } else {
    }
  }

  /** The low bit of `b` shifted down by `k` is 1 exactly when bit `k` is set. */
  lemma ShiftedParity(b: byte, k: nat)
    requires k < 8
    ensures (b >> k) % 2 == if BitSet(b, k) then 1 else 0
  {
    if k == 0 {
    } else if k == 1 {
    } else if k == 2 {
    } else if k == 3 {
    } else if k == 4 {
    } else if k == 5 {
    } else if k == 6 {
    } else {
    }
  }

  /** No bit of zero is set. */
  lemma NoBitsOfZero()
    ensures forall k :: 0 <= k < 8 ==> !BitSet(0, k)
  {
  }

  /** A byte is determined by its eight bits. */
  lemma BitsDetermineByte(a: byte, b: byte)
    requires forall k :: 0 <= k < 8 ==> (BitSet(a, k) <==> BitSet(b, k))
    ensures a == b
  {
    assert BitSet(a, 0) == BitSet(b, 0) && BitSet(a, 1) == BitSet(b, 1);
    assert BitSet(a, 2) == BitSet(b, 2) && BitSet(a, 3) == BitSet(b, 3);
    assert BitSet(a, 4) == BitSet(b, 4) && BitSet(a, 5) == BitSet(b, 5);
    assert BitSet(a, 6) == BitSet(b, 6) && BitSet(a, 7) == BitSet(b, 7);
  }
}
