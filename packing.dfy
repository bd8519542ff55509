/** Little-endian packing of bytes into 32-bit words: the key-word loop of `main`
    and `load_registers`. Both OR byte `i` of their input into lane `i % 4` of
    word `i / 4`; neither clears the words first. */
module Packing {
  import opened Words

  /** `n` zero words: an array allocated with `new uint32_t[n]()`. */
  function Zeros(n: nat): (z: seq<Word>)
    ensures |z| == n && forall k :: 0 <= k < n ==> z[k] == 0
  {
    seq(n, _ => 0)
  }

  /** One step of either packing loop: byte number `i` ORed into its lane. */
  function OrByte(words: seq<Word>, i: nat, byte: Byte): (r: seq<Word>)
    requires i < 4 * |words|
    ensures |r| == |words|
  {
    words[i / 4 := OrLane(words[i / 4], byte, i % 4)]
  }

  /** The words after ORing the first `n` bytes of `bytes`, in order, into `words`. */
  function Packed(words: seq<Word>, bytes: seq<Byte>, n: nat): (r: seq<Word>)
    requires n <= |bytes| && n <= 4 * |words|
    ensures |r| == |words|
  {
    if n == 0 then words
    else OrByte(Packed(words, bytes, n - 1), n - 1, bytes[n - 1])
  }

  /** The words after ORing all of `bytes` into `words`. */
  function PackInto(words: seq<Word>, bytes: seq<Byte>): (r: seq<Word>)
    requires |bytes| <= 4 * |words|
    ensures |r| == |words|
  {
    Packed(words, bytes, |bytes|)
  }

  /** Division by 4 of `4q + r` with `r < 4`. */
  lemma DivMod4(n: nat, q: nat, r: nat)
    requires r < 4 && n == 4 * q + r
    ensures n / 4 == q && n % 4 == r
  {
  }

  /** `byte << (8*j)` on a `uint32_t` holding one byte is that byte in lane `j`;
      the packing loops below write the shift as `Lane`. */
  lemma ShiftIsLane(byte: Byte, j: nat)
    requires j < 4
    ensures (byte as Word) << (8 * j) == Lane(byte, j)
  {
    match j
    case 0 =>
    case 1 =>
    case 2 =>
    case 3 =>
  }

  /** One packing step changes only byte `i % 4` of word `i / 4`, by ORing. */
  lemma OrByteByte(words: seq<Word>, i: nat, byte: Byte, k: nat, m: nat)
    requires i < 4 * |words| && k < |words| && m < 4
    ensures ByteOf(OrByte(words, i, byte)[k], m)
         == ByteOf(words[k], m) | (if 4 * k + m == i then byte else 0)
  {
    var q, r := i / 4, i % 4;
    DivMod4(i, q, r);
    if q == k {
      ByteOfOrLane(words[k], byte, r, m);
    } else {
      assert OrByte(words, i, byte)[k] == words[k];
    }
  }

  /** Byte `4k+m` of the input lands in bits `8m..8m+7` of word `k`, ORed with
      what that byte of the word held before; lanes past the first `n` bytes keep
      their previous value. */
  lemma {:induction false} PackedByte(words: seq<Word>, bytes: seq<Byte>, n: nat, k: nat, m: nat)
    requires n <= |bytes| && n <= 4 * |words| && k < |words| && m < 4
    ensures ByteOf(Packed(words, bytes, n)[k], m)
         == ByteOf(words[k], m) | (if 4 * k + m < n then bytes[4 * k + m] else 0)
  {
    if n > 0 {
      PackedByte(words, bytes, n - 1, k, m);
      OrByteByte(Packed(words, bytes, n - 1), n - 1, bytes[n - 1], k, m);
    }
  }

  /** Packing starting from zero words: byte `4k+m` is exactly byte `m` of word `k`,
      and the lanes no input byte reaches stay 0. */
  lemma PackZerosByte(n: nat, bytes: seq<Byte>, k: nat, m: nat)
    requires |bytes| <= 4 * n && k < n && m < 4
    ensures ByteOf(PackInto(Zeros(n), bytes)[k], m)
         == if 4 * k + m < |bytes| then bytes[4 * k + m] else 0
  {
    PackedByte(Zeros(n), bytes, |bytes|, k, m);
    assert ByteOf(0, m) == 0;
  }

  /** The `j > 3` reset at the head of both packing loops: with
      `i == 4 * index + j` and `j <= 4`, the index and lane it leaves are
      `i / 4` and `i % 4`. */
  lemma ResetIndex(i: nat, index: nat, j: nat)
    requires j <= 4 && i == 4 * index + j
    ensures (if j > 3 then index + 1 else index) == i / 4
    ensures (if j > 3 then 0 else j) == i % 4
  {
    if j > 3 {
      DivMod4(i, index + 1, 0);
    } else {
      DivMod4(i, index, j);
    }
  }

  /** The step both packing loops take: with the first `i` bytes packed,
      ORing byte `i` into lane `j` of word `q` (where `i == 4q + j`) packs `i + 1`. */
  lemma PackStep(words: seq<Word>, bytes: seq<Byte>, i: nat, q: nat, j: nat)
    requires i < |bytes| && i < 4 * |words| && j < 4 && i == 4 * q + j
    ensures q < |words|
    ensures var before := Packed(words, bytes, i);
            before[q := OrLane(before[q], bytes[i], j)] == Packed(words, bytes, i + 1)
  {
    DivMod4(i, q, j);
  }

  /** The loop shared by `main`'s key packing and `load_registers`: byte `i`
      of `bytes` is shifted to bit `8 * (i % 4)` and ORed into `words[i / 4]`,
      with the word index advancing every fourth byte. */
  method PackBytes(words: array<Word>, bytes: seq<Byte>)
    requires |bytes| <= 4 * words.Length
    modifies words
    ensures words[..] == PackInto(old(words[..]), bytes)
  {
    ghost var w0 := words[..];
    var wordIndex := 0;
    var i, j := 0, 0;
    while i < |bytes|
      invariant 0 <= i <= |bytes|
      invariant 0 <= j <= 4 && i == 4 * wordIndex + j
      invariant words[..] == Packed(w0, bytes, i)
    {
      ResetIndex(i, wordIndex, j);
      if j > 3 {
        j := 0;
        wordIndex := wordIndex + 1;
      }
      PackStep(w0, bytes, i, wordIndex, j);
      var key := words[wordIndex];
      key := OrLane(key, bytes[i], j);
      words[wordIndex] := key;
      i, j := i + 1, j + 1;
    }
  }

  /** The key-word packing of `main`: `L_len = b / 4` zero words, then the
      key bytes packed into them. The source writes past the end of `L`
      unless `b` is a multiple of 4. */
  method PackKey(userkey: seq<Byte>) returns (L: array<Word>)
    requires |userkey| % 4 == 0
    ensures fresh(L)
    ensures L.Length == |userkey| / 4
    ensures L[..] == PackInto(Zeros(|userkey| / 4), userkey)
  {
    var lLen := |userkey| / 4;
    L := new Word[lLen](_ => 0);
    assert L[..] == Zeros(lLen);
    PackBytes(L, userkey);
  }

  /** `load_registers`: the registers start from their incoming values
      (`reg[4] = {A, B, C, D}`) and the text bytes are packed into them.
      More than 16 bytes would index past `reg[4]`. */
  method LoadRegisters(a0: Word, b0: Word, c0: Word, d0: Word, text: seq<Byte>)
    returns (a: Word, b: Word, c: Word, d: Word)
    requires |text| <= 16
    ensures [a, b, c, d] == PackInto([a0, b0, c0, d0], text)
  {
    var reg := new Word[4];
    reg[0], reg[1], reg[2], reg[3] := a0, b0, c0, d0;
    assert reg[..] == [a0, b0, c0, d0];
    PackBytes(reg, text);
    a, b, c, d := reg[0], reg[1], reg[2], reg[3];
    assert [a, b, c, d] == reg[..];
  }
}
