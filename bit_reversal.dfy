// The 256-entry byte-reversal table, the 64-bit bit_reverse built from it,
// and the m-bit reversal `bit_reverse(a) >> (64 - m)` that the FFT's
// reordering pass uses as an index. Values are unbounded naturals; a machine
// byte or word is a natural below 2^8 or 2^64.
module BitReversal {
  import opened Binary

  /**
   * The reference meaning of "reverse the low w bits of a": the least
   * significant bit of a becomes bit w-1 of the result, and so on.
   */
  function RevBits(a: nat, w: nat): (r: nat)
    ensures r < Pow2(w)
  {
    if w == 0 then 0 else (if a % 2 == 0 then 0 else Pow2(w - 1)) + RevBits(a / 2, w - 1)
  }

  /** The unfolding of RevBits with the moved bit as a factor. */
  lemma RevBitsUnfold(a: nat, w: nat)
    requires w > 0
    ensures RevBits(a, w) == (a % 2) * Pow2(w - 1) + RevBits(a / 2, w - 1)
  {
    if a % 2 == 0 {
    } else {
    }
  }

  lemma RegroupSplit(total: int, bit: int, p: int, q: int, r1: int, r2: int, x: int)
    requires total == bit * (p * q) + (r1 * q + r2)
    requires x == bit * p + r1
    ensures total == x * q + r2
  {
  }

  /**
   * Reversing w1 + w2 bits reverses the low w1 bits into the high positions
   * and the next w2 bits into the low positions.
   */
  lemma {:induction false} RevBitsSplit(a: nat, w1: nat, w2: nat)
    ensures RevBits(a, w1 + w2) == RevBits(Low(a, w1), w1) * Pow2(w2) + RevBits(High(a, w1), w2)
  {
    if w1 > 0 {
      var p: int := Pow2(w1 - 1);
      var q: int := Pow2(w2);
      var bit: int := a % 2;
      var r1: int := RevBits(Low(a / 2, w1 - 1), w1 - 1);
      var r2: int := RevBits(High(a, w1), w2);
      var total: int := RevBits(a, w1 + w2);
      var x: int := RevBits(Low(a, w1), w1);
      var rest: int := RevBits(a / 2, w1 + w2 - 1);
      RevBitsUnfoldAs(a, w1 + w2, bit, rest, total);
      assert Pow2(w1 + w2 - 1) == p * q by {
        Pow2Add(w1 - 1, w2);
      }
      assert rest == r1 * q + r2 by {
        assert w1 + w2 - 1 == (w1 - 1) + w2;
        RevBitsSplit(a / 2, w1 - 1, w2);
      }
      LowHalves(a, w1);
      RevBitsUnfoldAs(Low(a, w1), w1, bit, r1, x);
      RegroupSplit(total, bit, p, q, r1, r2, x);
    }
  }

  /** RevBitsUnfold with the parts given names. */
  lemma RevBitsUnfoldAs(a: nat, w: nat, bit: int, rest: int, total: int)
    requires w > 0 && bit == a % 2 && rest == RevBits(a / 2, w - 1) && total == RevBits(a, w)
    ensures total == bit * Pow2(w - 1) + rest
  {
    RevBitsUnfold(a, w);
  }

  lemma RevBitsOfBit(bit: nat)
    requires bit < 2
    ensures RevBits(bit, 1) == bit
  {
  }

  /** Splitting off the top bit of a w-bit value. */
  lemma RevBitsSplitLast(x: nat, w: nat, top: nat, rest: nat)
    requires w > 0 && High(x, w - 1) == top && Low(x, w - 1) == rest
    ensures RevBits(x, w) == RevBits(rest, w - 1) * 2 + RevBits(top, 1)
  {
    RevBitsSplit(x, w - 1, 1);
    assert w - 1 + 1 == w;
    assert Pow2(1) == 2;
  }

  /** Reversing twice gives back the low w bits. */
  lemma {:induction false} RevBitsInvolution(a: nat, w: nat)
    ensures RevBits(RevBits(a, w), w) == Low(a, w)
  {
    if w > 0 {
      var bit: nat := a % 2;
      var y := RevBits(a / 2, w - 1);
      var x := RevBits(a, w);
      assert x == bit * Pow2(w - 1) + y by {
        RevBitsUnfold(a, w);
      }
      HighLowUnique(x, w - 1, bit, y);
      RevBitsSplitLast(x, w, bit, y);
      RevBitsInvolution(a / 2, w - 1);
      RevBitsOfBit(bit);
    }
  }

  /** Bit j of the w-bit reversal is bit w-1-j of the input. */
  lemma {:induction false} RevBitsBit(a: nat, w: nat, j: nat)
    requires j < w
    ensures Bit(RevBits(a, w), j) == Bit(a, w - 1 - j)
  {
    var bit: nat := a % 2;
    var rest := RevBits(a / 2, w - 1);
    var x := RevBits(a, w);
    assert x == bit * Pow2(w - 1) + rest by {
      RevBitsUnfold(a, w);
    }
    if j == w - 1 {
      BitAtMultiple(bit, w - 1, rest);
      assert Bit(a, 0) == bit;
      assert w - 1 - j == 0;
      assert Bit(x, j) == Bit(a, w - 1 - j);
    } else {
      BitBelowMultiple(bit, w - 1, rest, j);
      RevBitsBit(a / 2, w - 1, j);
      var k := w - 1 - j;
      assert Bit(a, k) == Bit(a / 2, k - 1);
      assert k - 1 == w - 2 - j;
      assert Bit(x, j) == Bit(a, w - 1 - j);
    }
  }

  // BitReverseTable256 as printed, one constant per row of sixteen entries:
  // row r holds the entries for the bytes 16*r .. 16*r+15.
  const Row0: seq<uint8> := [0x00, 0x80, 0x40, 0xC0, 0x20, 0xA0, 0x60, 0xE0, 0x10, 0x90, 0x50, 0xD0, 0x30, 0xB0, 0x70, 0xF0]
  const Row1: seq<uint8> := [0x08, 0x88, 0x48, 0xC8, 0x28, 0xA8, 0x68, 0xE8, 0x18, 0x98, 0x58, 0xD8, 0x38, 0xB8, 0x78, 0xF8]
  const Row2: seq<uint8> := [0x04, 0x84, 0x44, 0xC4, 0x24, 0xA4, 0x64, 0xE4, 0x14, 0x94, 0x54, 0xD4, 0x34, 0xB4, 0x74, 0xF4]
  const Row3: seq<uint8> := [0x0C, 0x8C, 0x4C, 0xCC, 0x2C, 0xAC, 0x6C, 0xEC, 0x1C, 0x9C, 0x5C, 0xDC, 0x3C, 0xBC, 0x7C, 0xFC]
  const Row4: seq<uint8> := [0x02, 0x82, 0x42, 0xC2, 0x22, 0xA2, 0x62, 0xE2, 0x12, 0x92, 0x52, 0xD2, 0x32, 0xB2, 0x72, 0xF2]
  const Row5: seq<uint8> := [0x0A, 0x8A, 0x4A, 0xCA, 0x2A, 0xAA, 0x6A, 0xEA, 0x1A, 0x9A, 0x5A, 0xDA, 0x3A, 0xBA, 0x7A, 0xFA]
  const Row6: seq<uint8> := [0x06, 0x86, 0x46, 0xC6, 0x26, 0xA6, 0x66, 0xE6, 0x16, 0x96, 0x56, 0xD6, 0x36, 0xB6, 0x76, 0xF6]
  const Row7: seq<uint8> := [0x0E, 0x8E, 0x4E, 0xCE, 0x2E, 0xAE, 0x6E, 0xEE, 0x1E, 0x9E, 0x5E, 0xDE, 0x3E, 0xBE, 0x7E, 0xFE]
  const Row8: seq<uint8> := [0x01, 0x81, 0x41, 0xC1, 0x21, 0xA1, 0x61, 0xE1, 0x11, 0x91, 0x51, 0xD1, 0x31, 0xB1, 0x71, 0xF1]
  const Row9: seq<uint8> := [0x09, 0x89, 0x49, 0xC9, 0x29, 0xA9, 0x69, 0xE9, 0x19, 0x99, 0x59, 0xD9, 0x39, 0xB9, 0x79, 0xF9]
  const RowA: seq<uint8> := [0x05, 0x85, 0x45, 0xC5, 0x25, 0xA5, 0x65, 0xE5, 0x15, 0x95, 0x55, 0xD5, 0x35, 0xB5, 0x75, 0xF5]
  const RowB: seq<uint8> := [0x0D, 0x8D, 0x4D, 0xCD, 0x2D, 0xAD, 0x6D, 0xED, 0x1D, 0x9D, 0x5D, 0xDD, 0x3D, 0xBD, 0x7D, 0xFD]
  const RowC: seq<uint8> := [0x03, 0x83, 0x43, 0xC3, 0x23, 0xA3, 0x63, 0xE3, 0x13, 0x93, 0x53, 0xD3, 0x33, 0xB3, 0x73, 0xF3]
  const RowD: seq<uint8> := [0x0B, 0x8B, 0x4B, 0xCB, 0x2B, 0xAB, 0x6B, 0xEB, 0x1B, 0x9B, 0x5B, 0xDB, 0x3B, 0xBB, 0x7B, 0xFB]
  const RowE: seq<uint8> := [0x07, 0x87, 0x47, 0xC7, 0x27, 0xA7, 0x67, 0xE7, 0x17, 0x97, 0x57, 0xD7, 0x37, 0xB7, 0x77, 0xF7]
  const RowF: seq<uint8> := [0x0F, 0x8F, 0x4F, 0xCF, 0x2F, 0xAF, 0x6F, 0xEF, 0x1F, 0x9F, 0x5F, 0xDF, 0x3F, 0xBF, 0x7F, 0xFF]

  /** Row r of the printed table. */
  function TableRow(r: nat): (row: seq<uint8>)
    requires r < 16
    ensures |row| == 16
  {
    match r
    case 0 => Row0 case 1 => Row1 case 2 => Row2 case 3 => Row3
    case 4 => Row4 case 5 => Row5 case 6 => Row6 case 7 => Row7
    case 8 => Row8 case 9 => Row9 case 10 => RowA case 11 => RowB
    case 12 => RowC case 13 => RowD case 14 => RowE case _ => RowF
  }

  /** BitReverseTable256: the 256 entries in the order they are written. */
  const BitReverseTable256: seq<uint8> := seq(256, b requires 0 <= b < 256 => TableRow(b / 16)[b % 16])

  /** The 4-bit reversals of 0, ..., 15. */
  const NibbleReversal: seq<nat> := [0x0, 0x8, 0x4, 0xC, 0x2, 0xA, 0x6, 0xE, 0x1, 0x9, 0x5, 0xD, 0x3, 0xB, 0x7, 0xF]

  /** The 4-bit reversal written out bit by bit (bit i of c moves to bit 3-i). */
  function NibbleBits(c: nat): nat
  {
    (if c % 2 == 0 then 0 else 8) + (if c / 2 % 2 == 0 then 0 else 4) +
    (if c / 2 / 2 % 2 == 0 then 0 else 2) + (if c / 2 / 2 / 2 % 2 == 0 then 0 else 1)
  }

  lemma NibbleReversalIsNibbleBits(c: nat)
    requires c < 16
    ensures NibbleReversal[c] == NibbleBits(c)
  {
    if c == 0 {
    } else if c == 1 {
    } else if c == 2 {
    } else if c == 3 {
    } else if c == 4 {
    } else if c == 5 {
    } else if c == 6 {
    } else if c == 7 {
    } else if c == 8 {
    } else if c == 9 {
    } else if c == 10 {
    } else if c == 11 {
    } else if c == 12 {
    } else if c == 13 {
    } else if c == 14 {
    } else if c == 15 {
    }
  }

  lemma NibbleBitsIsRevBits(c: nat)
    ensures NibbleBits(c) == RevBits(c, 4)
  {
    var c1 := c / 2;
    var c2 := c1 / 2;
    var c3 := c2 / 2;
    assert RevBits(c3, 1) == (if c3 % 2 == 0 then 0 else 1);
    assert RevBits(c2, 2) == (if c2 % 2 == 0 then 0 else 2) + (if c3 % 2 == 0 then 0 else 1);
    assert RevBits(c1, 3) ==
      (if c1 % 2 == 0 then 0 else 4) + (if c2 % 2 == 0 then 0 else 2) + (if c3 % 2 == 0 then 0 else 1);
  }

  lemma NibbleReversalIsRevBits(c: nat)
    requires c < 16
    ensures NibbleReversal[c] == RevBits(c, 4)
  {
    NibbleReversalIsNibbleBits(c);
    NibbleBitsIsRevBits(c);
  }

  lemma Row0Entries(c: nat)
    requires c < 16
    ensures Row0[c] == NibbleReversal[c] * 16 + 0x0
  {
  }

  lemma Row1Entries(c: nat)
    requires c < 16
    ensures Row1[c] == NibbleReversal[c] * 16 + 0x8
  {
  }

  lemma Row2Entries(c: nat)
    requires c < 16
    ensures Row2[c] == NibbleReversal[c] * 16 + 0x4
  {
  }

  lemma Row3Entries(c: nat)
    requires c < 16
    ensures Row3[c] == NibbleReversal[c] * 16 + 0xC
  {
  }

  lemma Row4Entries(c: nat)
    requires c < 16
    ensures Row4[c] == NibbleReversal[c] * 16 + 0x2
  {
  }

  lemma Row5Entries(c: nat)
    requires c < 16
    ensures Row5[c] == NibbleReversal[c] * 16 + 0xA
  {
  }

  lemma Row6Entries(c: nat)
    requires c < 16
    ensures Row6[c] == NibbleReversal[c] * 16 + 0x6
  {
  }

  lemma Row7Entries(c: nat)
    requires c < 16
    ensures Row7[c] == NibbleReversal[c] * 16 + 0xE
  {
  }

  lemma Row8Entries(c: nat)
    requires c < 16
    ensures Row8[c] == NibbleReversal[c] * 16 + 0x1
  {
  }

  lemma Row9Entries(c: nat)
    requires c < 16
    ensures Row9[c] == NibbleReversal[c] * 16 + 0x9
  {
  }

  lemma RowAEntries(c: nat)
    requires c < 16
    ensures RowA[c] == NibbleReversal[c] * 16 + 0x5
  {
  }

  lemma RowBEntries(c: nat)
    requires c < 16
    ensures RowB[c] == NibbleReversal[c] * 16 + 0xD
  {
  }

  lemma RowCEntries(c: nat)
    requires c < 16
    ensures RowC[c] == NibbleReversal[c] * 16 + 0x3
  {
  }

  lemma RowDEntries(c: nat)
    requires c < 16
    ensures RowD[c] == NibbleReversal[c] * 16 + 0xB
  {
  }

  lemma RowEEntries(c: nat)
    requires c < 16
    ensures RowE[c] == NibbleReversal[c] * 16 + 0x7
  {
  }

  lemma RowFEntries(c: nat)
    requires c < 16
    ensures RowF[c] == NibbleReversal[c] * 16 + 0xF
  {
  }

  /**
   * Row r, column c of the table puts the reversal of c in the high nibble
   * and the reversal of r in the low nibble.
   */
  lemma TableRowEntries(r: nat, c: nat)
    requires r < 16 && c < 16
    ensures TableRow(r)[c] == NibbleReversal[c] * 16 + NibbleReversal[r]
  {
    match r
    case 0 => Row0Entries(c);
    case 1 => Row1Entries(c);
    case 2 => Row2Entries(c);
    case 3 => Row3Entries(c);
    case 4 => Row4Entries(c);
    case 5 => Row5Entries(c);
    case 6 => Row6Entries(c);
    case 7 => Row7Entries(c);
    case 8 => Row8Entries(c);
    case 9 => Row9Entries(c);
    case 10 => RowAEntries(c);
    case 11 => RowBEntries(c);
    case 12 => RowCEntries(c);
    case 13 => RowDEntries(c);
    case 14 => RowEEntries(c);
    case _ => RowFEntries(c);
  }

  /** Every entry of BitReverseTable256 is the 8-bit reversal of its index. */
  lemma TableIsReversal(b: nat)
    requires b < 256
    ensures BitReverseTable256[b] == RevBits(b, 8)
  {
    var r: nat, c: nat := b / 16, b % 16;
    assert Pow2(4) == 16;
    HighLowUnique(b, 4, r, c);
    TableRowEntries(r, c);
    NibbleReversalIsRevBits(r);
    NibbleReversalIsRevBits(c);
    RevBitsSplit(b, 4, 4);
  }

  /** Byte k of v in little-endian order: in[k] for the bytes of a word. */
  function Byte(v: nat, k: nat): uint8
  {
    High(v, 8 * k) % 256
  }

  /** The low byte and the rest of v. */
  lemma LowByte(v: nat)
    ensures Low(v, 8) == v % 256 && High(v, 8) == v / 256
  {
    Pow2Of8();
    HighLowUnique(v, 8, v / 256, v % 256);
  }

  lemma ByteOfShifted(v: nat, k: nat)
    ensures Byte(v / 256, k) == Byte(v, k + 1)
  {
    LowByte(v);
    HighHigh(v, 8, 8 * k);
  }

  /** The value of a little-endian byte string: byte i weighs 2^(8*i). */
  function LittleEndian(bytes: seq<uint8>): nat
  {
    if |bytes| == 0 then 0
    else LittleEndian(bytes[..|bytes| - 1]) + bytes[|bytes| - 1] * Pow2(8 * (|bytes| - 1))
  }

  /** The n output bytes of bit_reverse for an n-byte word: out[i] is the table entry of in[n-1-i]. */
  function ReversedBytes(v: nat, n: nat): seq<uint8>
  {
    seq(n, i requires 0 <= i < n => BitReverseTable256[Byte(v, n - 1 - i)])
  }

  /** Dropping the last output byte leaves the output for the upper n-1 input bytes. */
  lemma ReversedBytesPrefix(v: nat, n: nat)
    requires n > 0
    ensures ReversedBytes(v, n)[..n - 1] == ReversedBytes(v / 256, n - 1)
    ensures ReversedBytes(v, n)[n - 1] == RevBits(v % 256, 8)
  {
    var out := ReversedBytes(v, n);
    var rest := ReversedBytes(v / 256, n - 1);
    forall i | 0 <= i < n - 1
      ensures out[..n - 1][i] == rest[i]
    {
      ByteOfShifted(v, n - 2 - i);
    }
    assert Byte(v, 0) == v % 256;
    TableIsReversal(v % 256);
  }

  /** Reversing the byte order and each byte reverses all 8*n bits. */
  lemma {:induction false} ReversedBytesValue(v: nat, n: nat)
    ensures LittleEndian(ReversedBytes(v, n)) == RevBits(v, 8 * n)
  {
    if n > 0 {
      var out := ReversedBytes(v, n);
      var low := RevBits(v / 256, 8 * (n - 1));
      var high := RevBits(v % 256, 8);
      assert LittleEndian(out) == low + high * Pow2(8 * (n - 1)) by {
        ReversedBytesPrefix(v, n);
        ReversedBytesValue(v / 256, n - 1);
      }
      assert RevBits(v, 8 * n) == high * Pow2(8 * (n - 1)) + low by {
        LowByte(v);
        RevBitsSplit(v, 8, 8 * (n - 1));
        assert 8 + 8 * (n - 1) == 8 * n;
      }
    }
  }

  /**
   * bit_reverse: output byte i is the table entry of input byte 7-i. The
   * byte order of the host does not matter, since both the input and the
   * output are read in the same order and the mapping is symmetric.
   */
  function BitReverse(v: uint64): (r: uint64)
    ensures r == RevBits(v, 64)
  {
    ReversedBytesValue(v, 8);
    Pow2Of64();
    LittleEndian(ReversedBytes(v, 8))
  }

  /** Bit j of bit_reverse(v) is bit 63-j of v. */
  lemma BitReverseBit(v: uint64, j: nat)
    requires j < 64
    ensures Bit(BitReverse(v), j) == Bit(v, 63 - j)
  {
    RevBitsBit(v, 64, j);
  }

  /** bit_reverse is an involution on 64-bit words. */
  lemma BitReverseInvolution(v: uint64)
    ensures BitReverse(BitReverse(v)) == v
  {
    RevBitsInvolution(v, 64);
    Pow2Of64();
    LowOfSmall(v, 64);
  }

  /** An index below 2^m, m <= 64, fits in a 64-bit word. */
  lemma IndexFits(a: nat, m: nat)
    requires m <= 64 && a < Pow2(m)
    ensures a < 0x1_0000_0000_0000_0000
  {
    Pow2Monotone(m, 64);
    Pow2Of64();
  }

  /**
   * The reordering index `bit_reverse(a) >> (64 - m)` of the FFT: the m-bit
   * reversal of the low m bits of a. For m = 0 the C++ shift by 64 is
   * undefined, but then the only index is 0 and bit_reverse(0) is 0, so every
   * reading of the shift gives 0; the model shifts out all 64 bits.
   */
  function ReverseIndex(a: uint64, m: nat): (b: uint64)
    requires m <= 64
    ensures b == RevBits(Low(a, m), m)
  {
    ShiftedReversal(a, m, 64);
    IndexFits(RevBits(Low(a, m), m), m);
    High(BitReverse(a), 64 - m)
  }

  /** The top m of w reversed bits are the reversal of the low m bits. */
  lemma ShiftedReversal(a: nat, m: nat, w: nat)
    requires m <= w
    ensures High(RevBits(a, w), w - m) == RevBits(Low(a, m), m)
  {
    var w2 := w - m;
    var q := RevBits(Low(a, m), m);
    var r := RevBits(High(a, m), w2);
    assert RevBits(a, w) == q * Pow2(w2) + r by {
      RevBitsSplit(a, m, w2);
      assert m + w2 == w;
    }
    HighLowUnique(RevBits(a, w), w2, q, r);
  }

  /** For a < 2^m the reordering index is below 2^m and undoes itself. */
  lemma ReverseIndexInvolution(a: uint64, m: nat)
    requires m <= 64 && a < Pow2(m)
    ensures ReverseIndex(a, m) < Pow2(m)
    ensures ReverseIndex(ReverseIndex(a, m), m) == a
  {
    var b := ReverseIndex(a, m);
    LowOfSmall(a, m);
    LowOfSmall(b, m);
    RevBitsInvolution(a, m);
  }
}
