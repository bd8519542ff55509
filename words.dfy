/** 32-bit words, bytes and the two rotation primitives of RC6-32 (w = 32, lg w = 5). */
module Words {

  /** A `uint32_t`: every `+`, `-` and `*` on it wraps modulo 2^32. */
  type Word = bv32

  /** A `uint8_t`. */
  type Byte = bv8

  /** lg w for w = 32: the constant `log2(32)` of the source, folded. */
  const LgW: Word := 5

  /** `0xFFFFFFFF >> (32 - lsb)`: keeps the least significant lg w bits of an offset. */
  const OffsetMask: Word := 0xFFFF_FFFF >> (32 - LgW)

  /** The 64-bit word whose two halves are both `x`. Reading 32 bits out of it at
      bit position `32 - n` (or `n`) is a circular rotation of `x`, independent of
      how the rotations below are computed. */
  function Doubled(x: Word): bv64
  {
    ((x as bv64) << 32) | (x as bv64)
  }

  /** The low half of a 64-bit word. */
  function Low32(x: bv64): Word
  {
    (x & 0xFFFF_FFFF) as Word
  }

  /** `x + y` on `uint32_t`: addition modulo 2^32. */
  function Add(x: Word, y: Word): Word
  {
    x + y
  }

  /** `x - y` on `uint32_t`: subtraction modulo 2^32. */
  function Sub(x: Word, y: Word): Word
  {
    x - y
  }

  /** `x ^ y` on `uint32_t`. */
  function Xor(x: Word, y: Word): Word
  {
    x ^ y
  }

  /** Xoring the same mask twice changes nothing. */
  lemma XorXor(x: Word, m: Word)
    ensures Xor(Xor(x, m), m) == x
  {
    assert Xor(x ^ m, m) == x;
  }

  /** Subtracting a word undoes adding it, whatever the wrap-around. */
  lemma SubAdd(x: Word, k: Word)
    ensures Sub(Add(x, k), k) == x
  {
    assert Sub(x + k, k) == x;
  }

  /** Adding a word undoes subtracting it. */
  lemma AddSub(x: Word, k: Word)
    ensures Add(Sub(x, k), k) == x
  {
    assert Add(x - k, k) == x;
  }

  /** `rotate_left`: rotates `val` left by the low five bits of `offset`. */
  function RotateLeft(val: Word, offset: Word): Word
  {
    ShiftLeftCircular(val, offset & OffsetMask)
  }

  /** `(val << n) | (val >> (32 - n))` for an already masked `n`. For n = 0 the
      source shifts a `uint32_t` by 32, which C++ leaves undefined; that case is
      the identity here. */
  function ShiftLeftCircular(val: Word, n: Word): Word
    requires n < 32
  {
    if n == 0 then val else (val << n) | (val >> (32 - n))
  }

  /** `rotate_right`: rotates `val` right by the low five bits of `offset`. */
  function RotateRight(val: Word, offset: Word): Word
  {
    ShiftRightCircular(val, offset & OffsetMask)
  }

  /** `(val >> n) | (val << (32 - n))` for an already masked `n`, with n = 0 the
      identity. */
  function ShiftRightCircular(val: Word, n: Word): Word
    requires n < 32
  {
    if n == 0 then val else (val >> n) | (val << (32 - n))
  }

  lemma OffsetMaskIsLowFiveBits()
    ensures OffsetMask == 0x1F
  {
  }

  /** `RotateLeft` is the circular rotation: bits shifted out at the top come
      back in at the bottom. */
  lemma RotateLeftIsRotation(x: Word, n: Word)
    ensures RotateLeft(x, n) == Low32((Doubled(x) << (n & 0x1F)) >> 32)
  {
    OffsetMaskIsLowFiveBits();
    var k := n & 0x1F;
    if k < 16 {
      if k < 8 {} else {}
    } else {
      if k < 24 {} else {}
    }
  }

  /** `RotateRight` is the circular rotation in the other direction. */
  lemma RotateRightIsRotation(x: Word, n: Word)
    ensures RotateRight(x, n) == Low32(Doubled(x) >> (n & 0x1F))
  {
    OffsetMaskIsLowFiveBits();
    var k := n & 0x1F;
    if k < 16 {
      if k < 8 {} else {}
    } else {
      if k < 24 {} else {}
    }
  }

  /** The right shift expression undoes the left one for every masked offset. */
  lemma ShiftRightLeftCircular(x: Word, k: Word)
    requires k < 32
    ensures ShiftRightCircular(ShiftLeftCircular(x, k), k) == x
  {
    if k < 16 {
      if k < 8 {} else {}
    } else {
      if k < 24 {} else {}
    }
  }

  /** The left shift expression undoes the right one for every masked offset. */
  lemma ShiftLeftRightCircular(x: Word, k: Word)
    requires k < 32
    ensures ShiftLeftCircular(ShiftRightCircular(x, k), k) == x
  {
    if k < 16 {
      if k < 8 {} else {}
    } else {
      if k < 24 {} else {}
    }
  }

  /** Rotating right undoes rotating left by the same offset, for every offset,
      including those whose low five bits are 0. */
  lemma RotateRightLeft(x: Word, n: Word)
    ensures RotateRight(RotateLeft(x, n), n) == x
  {
    OffsetMaskIsLowFiveBits();
    ShiftRightLeftCircular(x, n & OffsetMask);
  }

  /** Rotating left undoes rotating right by the same offset. */
  lemma RotateLeftRight(x: Word, n: Word)
    ensures RotateLeft(RotateRight(x, n), n) == x
  {
    OffsetMaskIsLowFiveBits();
    ShiftLeftRightCircular(x, n & OffsetMask);
  }

  /** Only the low five bits of the offset matter. */
  lemma RotateLowBitsOnly(x: Word, n: Word)
    ensures RotateLeft(x, n) == RotateLeft(x, n % 32)
    ensures RotateRight(x, n) == RotateRight(x, n % 32)
  {
    OffsetMaskIsLowFiveBits();
    assert (n % 32) & OffsetMask == n & OffsetMask;
  }

  /** Byte `m` (0 = least significant) of `w`: the expression `(w >> 8m) & 0xFF`
      with which the output writer serialises a register. */
  function ByteOf(w: Word, m: nat): Byte
    requires m < 4
  {
    match m
    case 0 => (w & 0xFF) as Byte
    case 1 => ((w >> 8) & 0xFF) as Byte
    case 2 => ((w >> 16) & 0xFF) as Byte
    case 3 => ((w >> 24) & 0xFF) as Byte
  }

  /** `byte << (8*m)` on a `uint32_t` holding one byte: the byte placed in lane `m`. */
  function Lane(byte: Byte, m: nat): Word
    requires m < 4
  {
    match m
    case 0 => byte as Word
    case 1 => (byte as Word) << 8
    case 2 => (byte as Word) << 16
    case 3 => (byte as Word) << 24
  }

  /** ORing a byte into lane `j` changes byte `j` of the word by ORing and leaves
      the other three bytes as they were. */
  lemma ByteOfOrLane(w: Word, byte: Byte, j: nat, m: nat)
    requires j < 4 && m < 4
    ensures ByteOf(OrLane(w, byte, j), m) == ByteOf(w, m) | (if m == j then byte else 0)
  {
    ByteOfOr(w, Lane(byte, j), m);
    ByteOfLane(byte, j, m);
  }

  lemma ByteOfOr(x: Word, y: Word, m: nat)
    requires m < 4
    ensures ByteOf(x | y, m) == ByteOf(x, m) | ByteOf(y, m)
  {
    match m
    case 0 =>
    case 1 =>
    case 2 =>
    case 3 =>
  }

  lemma ByteOfLane(byte: Byte, j: nat, m: nat)
    requires j < 4 && m < 4
    ensures ByteOf(Lane(byte, j), m) == if m == j then byte else 0
  {
    match j
    case 0 =>
    case 1 =>
    case 2 =>
    case 3 =>
  }

  /** `key | (byte << (8*m))`: the step of the packing loops that ORs a byte into
      lane `m` of a word. */
  function OrLane(key: Word, byte: Byte, m: nat): Word
    requires m < 4
  {
    key | Lane(byte, m)
  }

  /** A word is determined by its four bytes. */
  lemma WordFromBytes(x: Word, y: Word)
    requires ByteOf(x, 0) == ByteOf(y, 0) && ByteOf(x, 1) == ByteOf(y, 1)
    requires ByteOf(x, 2) == ByteOf(y, 2) && ByteOf(x, 3) == ByteOf(y, 3)
    ensures x == y
  {
  }
}
