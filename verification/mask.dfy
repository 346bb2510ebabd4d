/**
 * Netmasks: `net.IPMask.Size`, which reports the prefix length of a mask made of leading
 * 1-bits followed only by 0-bits, and `(0, 0)` for any other mask (RFC 4632, section 3.1).
 */
module Mask {

  import opened Wrappers

  /** The weight of bit `t` of a byte, counting from the most significant bit. */
  function Weight(t: nat): bv8
    requires t < 8
  {
    if t == 0 then 0x80 else if t == 1 then 0x40 else if t == 2 then 0x20 else if t == 3 then 0x10
    else if t == 4 then 0x08 else if t == 5 then 0x04 else if t == 6 then 0x02 else 0x01
  }

  /** The eight bits of a byte, most significant first. */
  function ByteBits(v: bv8): (bits: seq<bool>)
    ensures |bits| == 8
  {
    seq(8, t requires 0 <= t < 8 => v & Weight(t) != 0)
  }

  /** The bits of a byte string, most significant bit of the first byte first. */
  function Bits(m: seq<bv8>): (bits: seq<bool>)
    ensures |bits| == 8 * |m|
  {
    if m == [] then [] else ByteBits(m[0]) + Bits(m[1..])
  }

  /** `n` ones followed by zeros, `width` bits in all: the bit pattern of a contiguous mask. */
  function PrefixBits(n: nat, width: nat): (bits: seq<bool>)
    ensures |bits| == width
  {
    seq(width, j requires 0 <= j < width => j < n)
  }

  predicate AllZero(m: seq<bv8>) {
    forall i :: 0 <= i < |m| ==> m[i] == 0
  }

  /**
   * The inner loop of Go's `simpleMaskLength` on the first byte that is not 0xff: while the
   * top bit is set, count it and shift the byte left by one. Answers the count and what is
   * left of the byte.
   */
  function ShiftOutOnes(v: bv8): (r: (nat, bv8))
    decreases v as int
  {
    if v & 0x80 != 0 then
      var (n, rest) := ShiftOutOnes(v << 1);
      (n + 1, rest)
    else
      (0, v)
  }

  /**
   * Go's `simpleMaskLength`: whole 0xff bytes add eight ones each; in the first other byte the
   * leading ones are counted, and the rest of that byte and every later byte must be zero.
   * `None` stands for Go's -1.
   */
  function SimpleMaskLength(m: seq<bv8>): Option<nat>
  {
    if m == [] then Some(0)
    else if m[0] == 0xff then
      match SimpleMaskLength(m[1..])
      case None => None
      case Some(n) => Some(n + 8)
    else
      var (ones, rest) := ShiftOutOnes(m[0]);
      if rest != 0 then None
      else if !AllZero(m[1..]) then None
      else Some(ones)
  }

  /** `net.IPMask.Size`: `(ones, bits)`, or `(0, 0)` when the mask is not in canonical form. */
  function Size(m: seq<bv8>): (int, int)
  {
    match SimpleMaskLength(m)
    case None => (0, 0)
    case Some(ones) => (ones, 8 * |m|)
  }

  /** The byte with `k` leading ones. */
  function OnesByte(k: nat): bv8
    requires k <= 8
  {
    if k == 0 then 0 else 0x80 | (OnesByte(k - 1) >> 1)
  }

  /** The `count`-byte mask with `n` leading ones. */
  function PrefixMaskBytes(n: nat, count: nat): (m: seq<bv8>)
    ensures |m| == count
  {
    if count == 0 then []
    else
      var k := if n < 8 then n else 8;
      [OnesByte(k)] + PrefixMaskBytes(n - k, count - 1)
  }

  /** The IPv4 netmask of prefix length `n`. */
  function PrefixMask(n: nat): (m: seq<bv8>)
    requires n <= 32
    ensures |m| == 4
  {
    PrefixMaskBytes(n, 4)
  }

  // ---------------------------------------------------------------------------------------
  // Bit-level facts

  /** Splitting a contiguous pattern after `a` bits gives two contiguous patterns. */
  lemma PrefixBitsSplit(n: nat, a: nat, b: nat)
    ensures PrefixBits(n, a + b) == PrefixBits(if n < a then n else a, a) + PrefixBits(if n < a then 0 else n - a, b)
  {
  }

  /** Concatenations with equally long front parts are equal exactly when both parts are. */
  lemma ConcatEqual<T>(a: seq<T>, b: seq<T>, c: seq<T>, d: seq<T>)
    requires |a| == |c|
    ensures a + b == c + d <==> a == c && b == d
  {
    if a + b == c + d {
      assert a == (a + b)[..|a|] && c == (c + d)[..|a|];
      assert b == (a + b)[|a|..] && d == (c + d)[|a|..];
    }
  }

  /** Two bytes with equal bits are equal. */
  lemma ByteBitsInjective(v: bv8, w: bv8)
    ensures ByteBits(v) == ByteBits(w) <==> v == w
  {
    if ByteBits(v) == ByteBits(w) {
    assert ByteBits(v)[0] == ByteBits(w)[0] && ByteBits(v)[1] == ByteBits(w)[1];
    assert ByteBits(v)[2] == ByteBits(w)[2] && ByteBits(v)[3] == ByteBits(w)[3];
    assert ByteBits(v)[4] == ByteBits(w)[4] && ByteBits(v)[5] == ByteBits(w)[5];
    assert ByteBits(v)[6] == ByteBits(w)[6] && ByteBits(v)[7] == ByteBits(w)[7];
    }
  }

  /** Shifting left by one drops the top bit and brings in a zero at the bottom. */
  lemma ShiftLeftBits(v: bv8)
    ensures ByteBits(v << 1) == ByteBits(v)[1..] + [false]
  {
  }

  /** Shifting right by one and setting the top bit puts a one in front of the top seven bits. */
  lemma ShiftInOneBits(v: bv8)
    ensures ByteBits(0x80 | (v >> 1)) == [true] + ByteBits(v)[..7]
  {
  }

  /** The bits of `x & y` are the pairwise conjunctions of the bits of `x` and `y`. */
  lemma ByteBitsAnd(x: bv8, y: bv8)
    ensures forall t :: 0 <= t < 8 ==> ByteBits(x & y)[t] == (ByteBits(x)[t] && ByteBits(y)[t])
  {
  }

  /** Bit `j` of a byte string is bit `j % 8` of byte `j / 8`. */
  lemma {:induction false} BitsAt(m: seq<bv8>, j: nat)
    requires j < 8 * |m|
    ensures Bits(m)[j] == ByteBits(m[j / 8])[j % 8]
  {
    if j >= 8 {
      BitsAt(m[1..], j - 8);
      assert Bits(m)[j] == Bits(m[1..])[j - 8];
    }
  }

  /** `OnesByte(k)` has exactly `k` leading ones. */
  lemma {:induction false} OnesByteBits(k: nat)
    requires k <= 8
    ensures ByteBits(OnesByte(k)) == PrefixBits(k, 8)
  {
    if k > 0 {
      OnesByteBits(k - 1);
      ShiftInOneBits(OnesByte(k - 1));
      assert PrefixBits(k, 8) == [true] + PrefixBits(k - 1, 8)[..7];
    }
  }

  /** When the shifting loop leaves nothing behind, the byte is its count of ones followed by zeros. */
  lemma {:induction false} ShiftOutOnesContiguous(v: bv8)
    requires ShiftOutOnes(v).1 == 0
    ensures ShiftOutOnes(v).0 <= 8
    ensures ByteBits(v) == PrefixBits(ShiftOutOnes(v).0, 8)
    decreases v as int
  {
    if v & 0x80 != 0 {
      var n := ShiftOutOnes(v << 1).0;
      ShiftOutOnesContiguous(v << 1);
      ShiftLeftBits(v);
      assert ByteBits(v << 1)[7] == false;
      forall i | 1 <= i < 8 ensures ByteBits(v)[i] == (i < n + 1) {
        assert ByteBits(v)[i] == ByteBits(v << 1)[i - 1];
      }
      assert ByteBits(v) == PrefixBits(n + 1, 8);
    } else {
      assert ByteBits(v) == ByteBits(0);
    }
  }

  /** A byte of `j` ones followed by zeros makes the shifting loop count `j` and leave zero. */
  lemma {:induction false} ContiguousShiftOutOnes(v: bv8, j: nat)
    requires j <= 8 && ByteBits(v) == PrefixBits(j, 8)
    ensures ShiftOutOnes(v) == (j, 0)
    decreases v as int
  {
    if j == 0 {
      assert ByteBits(0) == PrefixBits(0, 8);
      ByteBitsInjective(v, 0);
    } else {
      assert ByteBits(v)[0];
      ShiftLeftBits(v);
      assert ByteBits(v << 1) == PrefixBits(j - 1, 8);
      ContiguousShiftOutOnes(v << 1, j - 1);
    }
  }

  /** A byte string is all zero exactly when all its bits are zero. */
  lemma {:induction false} AllZeroBits(m: seq<bv8>)
    ensures AllZero(m) <==> Bits(m) == PrefixBits(0, 8 * |m|)
  {
    if m != [] {
      AllZeroBits(m[1..]);
      PrefixBitsSplit(0, 8, 8 * |m| - 8);
      ConcatEqual(ByteBits(m[0]), Bits(m[1..]), PrefixBits(0, 8), PrefixBits(0, 8 * |m| - 8));
      assert ByteBits(0) == PrefixBits(0, 8);
      ByteBitsInjective(m[0], 0);
      assert AllZero(m) <==> m[0] == 0 && AllZero(m[1..]) by {
        if m[0] == 0 && AllZero(m[1..]) {
          forall i | 0 <= i < |m| ensures m[i] == 0 {
            if i > 0 { assert m[i] == m[1..][i - 1]; }
          }
        }
      }
    }
  }

  // ---------------------------------------------------------------------------------------
  // What the mask length means

  /** A byte string has `n` leading ones exactly when its first byte and its remainder do. */
  lemma BitsPrefixSplit(m: seq<bv8>, n: nat)
    requires m != []
    ensures Bits(m) == PrefixBits(n, 8 * |m|) <==>
      ByteBits(m[0]) == PrefixBits(if n < 8 then n else 8, 8) &&
      Bits(m[1..]) == PrefixBits(if n < 8 then 0 else n - 8, 8 * |m| - 8)
  {
    PrefixBitsSplit(n, 8, 8 * |m| - 8);
    ConcatEqual(ByteBits(m[0]), Bits(m[1..]),
      PrefixBits(if n < 8 then n else 8, 8), PrefixBits(if n < 8 then 0 else n - 8, 8 * |m| - 8));
  }

  /** The first byte that is not 0xff decides the length: its own ones, then zeros only. */
  lemma PartialByteContiguous(m: seq<bv8>, n: nat)
    requires m != [] && m[0] != 0xff
    ensures SimpleMaskLength(m) == Some(n) <==> n <= 8 * |m| && Bits(m) == PrefixBits(n, 8 * |m|)
  {
    var (ones, rest) := ShiftOutOnes(m[0]);
    BitsPrefixSplit(m, n);
    AllZeroBits(m[1..]);
    OnesByteBits(8);
    ByteBitsInjective(m[0], 0xff);
    if rest == 0 {
      ShiftOutOnesContiguous(m[0]);
    }
    if n <= 8 * |m| && Bits(m) == PrefixBits(n, 8 * |m|) {
      ContiguousShiftOutOnes(m[0], n);
    }
  }

  /**
   * Go's mask-length routine answers `n` exactly when the mask is `n` ones followed only by
   * zeros: it accepts every contiguous mask with its prefix length and rejects every other.
   */
  lemma {:induction false} SimpleMaskLengthContiguous(m: seq<bv8>, n: nat)
    ensures SimpleMaskLength(m) == Some(n) <==> n <= 8 * |m| && Bits(m) == PrefixBits(n, 8 * |m|)
  {
    if m != [] {
      if m[0] == 0xff {
        BitsPrefixSplit(m, n);
        OnesByteBits(8);
        if n < 8 {
          assert ByteBits(m[0])[n] != PrefixBits(n, 8)[n];
          assert SimpleMaskLength(m) != Some(n) by {
            if SimpleMaskLength(m[1..]).Some? {
              assert SimpleMaskLength(m).value >= 8;
            }
          }
        } else {
          SimpleMaskLengthContiguous(m[1..], n - 8);
        }
      } else {
        PartialByteContiguous(m, n);
      }
    }
  }

  /** For an IPv4 mask, Size reports 32 bits exactly for a contiguous mask, with its prefix length. */
  lemma SizeOfContiguous(m: seq<bv8>, n: nat)
    requires |m| == 4 && n <= 32
    ensures Size(m) == (n, 32) <==> Bits(m) == PrefixBits(n, 32)
  {
    SimpleMaskLengthContiguous(m, n);
  }

  /** Whenever Size reports 32 bits, the mask is contiguous with `ones` leading ones, 0 <= ones <= 32. */
  lemma SizeAccepted(m: seq<bv8>)
    requires |m| == 4 && Size(m).1 == 32
    ensures 0 <= Size(m).0 <= 32
    ensures Bits(m) == PrefixBits(Size(m).0, 32)
  {
    SimpleMaskLengthContiguous(m, SimpleMaskLength(m).value);
  }

  /** Whenever Size does not report 32 bits, no prefix length describes the mask. */
  lemma SizeRejected(m: seq<bv8>, n: nat)
    requires |m| == 4 && Size(m).1 != 32
    ensures Bits(m) != PrefixBits(n, 32)
  {
    if n <= 32 {
      SimpleMaskLengthContiguous(m, n);
    } else {
      assert PrefixBits(n, 32) == PrefixBits(32, 32);
      SimpleMaskLengthContiguous(m, 32);
    }
  }

  /** The mask with `n` leading ones has the bit pattern of prefix length `n`. */
  lemma {:induction false} PrefixMaskBytesBits(n: nat, count: nat)
    requires n <= 8 * count
    ensures Bits(PrefixMaskBytes(n, count)) == PrefixBits(n, 8 * count)
  {
    if count > 0 {
      var k := if n < 8 then n else 8;
      PrefixMaskBytesBits(n - k, count - 1);
      OnesByteBits(k);
      PrefixBitsSplit(n, 8, 8 * count - 8);
      assert PrefixMaskBytes(n, count)[1..] == PrefixMaskBytes(n - k, count - 1);
    }
  }

  /** Each of the 33 IPv4 netmasks /0 .. /32 is accepted with its own prefix length. */
  lemma PrefixMaskSize(n: nat)
    requires n <= 32
    ensures Bits(PrefixMask(n)) == PrefixBits(n, 32)
    ensures Size(PrefixMask(n)) == (n, 32)
  {
    PrefixMaskBytesBits(n, 4);
    SizeOfContiguous(PrefixMask(n), n);
  }
}
