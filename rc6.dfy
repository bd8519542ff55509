/** The RC6-32/20/b pipeline of `main`: pack the key bytes into words, expand
    them into the subkey table, load the text into the registers, encrypt or
    decrypt, and serialise the registers as 16 bytes. Reading the input file
    and writing the output file are left to the caller. */
module Rc6 {
  import opened Words
  import opened Packing
  import opened BlockCipher
  import opened KeySchedule

  /** The number of rounds r, fixed at 20. */
  const Rounds: nat := 20

  /** A key the pipeline can use: a whole number of words, at least one. */
  predicate ValidKey(key: seq<Byte>)
  {
    |key| % 4 == 0 && |key| >= 4
  }

  /** The subkey table S[0 .. 2r+3] derived from the key bytes. */
  function ExpandKey(key: seq<Byte>): (s: seq<Word>)
    requires ValidKey(key)
    ensures |s| == SubkeyCount(Rounds) == 44
  {
    Schedule(PackInto(Zeros(|key| / 4), key), SubkeyCount(Rounds)).s
  }

  /** The registers after `load_registers` from all-zero registers: byte 4k+m
      of the text is byte m of register k, missing bytes are 0. */
  function LoadBlock(text: seq<Byte>): Block
    requires |text| <= 16
  {
    var w := PackInto(Zeros(4), text);
    Block(w[0], w[1], w[2], w[3])
  }

  /** Register `k` of a block (k = 0 .. 3 for A .. D). */
  function Register(x: Block, k: nat): Word
    requires k < 4
  {
    match k
    case 0 => x.a
    case 1 => x.b
    case 2 => x.c
    case 3 => x.d
  }

  /** The four bytes of a register in the order `write_output` prints them:
      `X & 0xFF`, `(X >> 8) & 0xFF`, `(X >> 16) & 0xFF`, `(X >> 24) & 0xFF`. */
  function WordBytes(w: Word): (out: seq<Byte>)
    ensures |out| == 4
  {
    [ByteOf(w, 0), ByteOf(w, 1), ByteOf(w, 2), ByteOf(w, 3)]
  }

  /** The 16 bytes `write_output` prints: those of A, then B, C and D. */
  function BlockBytes(x: Block): (out: seq<Byte>)
    ensures |out| == 16
  {
    WordBytes(x.a) + WordBytes(x.b) + WordBytes(x.c) + WordBytes(x.d)
  }

  /** Output byte 4k+m is byte m of register k: the serialisation is
      little-endian within each register. */
  lemma BlockBytesByte(x: Block, k: nat, m: nat)
    requires k < 4 && m < 4
    ensures BlockBytes(x)[4 * k + m] == ByteOf(Register(x, k), m)
  {
    var ab := WordBytes(x.a) + WordBytes(x.b);
    var cd := WordBytes(x.c) + WordBytes(x.d);
    assert BlockBytes(x) == ab + cd;
    if k < 2 {
      assert BlockBytes(x)[4 * k + m] == ab[4 * k + m];
      if k == 0 {
        assert ab[m] == WordBytes(x.a)[m];
      } else {
        assert ab[4 + m] == WordBytes(x.b)[m];
      }
    } else {
      assert BlockBytes(x)[4 * k + m] == cd[4 * (k - 2) + m];
      if k == 2 {
        assert cd[m] == WordBytes(x.c)[m];
      } else {
        assert cd[4 + m] == WordBytes(x.d)[m];
      }
    }
  }

  /** What the program writes for a key, a text of at most 16 bytes and the
      direction read from the first input line. */
  function Output(key: seq<Byte>, text: seq<Byte>, encrypt: bool): (out: seq<Byte>)
    requires ValidKey(key) && |text| <= 16
    ensures |out| == 16
  {
    var x := LoadBlock(text);
    var s := ExpandKey(key);
    BlockBytes(if encrypt then Encrypt(x, s, Rounds) else Decrypt(x, s, Rounds))
  }

  /** `text` followed by zero bytes up to 16 bytes. */
  function Padded(text: seq<Byte>): (p: seq<Byte>)
    requires |text| <= 16
    ensures |p| == 16
  {
    text + seq(16 - |text|, _ => 0)
  }

  lemma LoadBlockRegister(text: seq<Byte>, k: nat)
    requires |text| <= 16 && k < 4
    ensures Register(LoadBlock(text), k) == PackInto(Zeros(4), text)[k]
  {
  }

  /** Serialising the loaded registers gives back the text, padded with
      zeros to 16 bytes. */
  lemma BlockBytesLoadBlock(text: seq<Byte>)
    requires |text| <= 16
    ensures BlockBytes(LoadBlock(text)) == Padded(text)
  {
    var x := LoadBlock(text);
    forall n | 0 <= n < 16
      ensures BlockBytes(x)[n] == Padded(text)[n]
    {
      var k, m := n / 4, n % 4;
      BlockBytesByte(x, k, m);
      LoadBlockRegister(text, k);
      PackZerosByte(4, text, k, m);
    }
  }

  /** Register k of the block loaded from a block's bytes is register k of
      that block. */
  lemma LoadBlockBytesRegister(x: Block, k: nat)
    requires k < 4
    ensures Register(LoadBlock(BlockBytes(x)), k) == Register(x, k)
  {
    var bytes := BlockBytes(x);
    LoadBlockRegister(bytes, k);
    PackZerosByte(4, bytes, k, 0);
    PackZerosByte(4, bytes, k, 1);
    PackZerosByte(4, bytes, k, 2);
    PackZerosByte(4, bytes, k, 3);
    BlockBytesByte(x, k, 0);
    BlockBytesByte(x, k, 1);
    BlockBytesByte(x, k, 2);
    BlockBytesByte(x, k, 3);
    WordFromBytes(Register(LoadBlock(bytes), k), Register(x, k));
  }

  /** Loading the serialised bytes of a block gives back the block. */
  lemma LoadBlockBytes(x: Block)
    ensures LoadBlock(BlockBytes(x)) == x
  {
    LoadBlockBytesRegister(x, 0);
    LoadBlockBytesRegister(x, 1);
    LoadBlockBytesRegister(x, 2);
    LoadBlockBytesRegister(x, 3);
  }

  /** Feeding the program's ciphertext back with the same key, in decryption
      mode, yields the plaintext (padded to 16 bytes). */
  lemma DecryptOutputEncryptOutput(key: seq<Byte>, text: seq<Byte>)
    requires ValidKey(key) && |text| <= 16
    ensures Output(key, Output(key, text, true), false) == Padded(text)
  {
    var s := ExpandKey(key);
    var x := LoadBlock(text);
    var e := Encrypt(x, s, Rounds);
    LoadBlockBytes(e);
    DecryptEncrypt(x, s, Rounds);
    BlockBytesLoadBlock(text);
  }

  /** And the other way round: encrypting the program's plaintext output
      yields the ciphertext it was given. */
  lemma EncryptOutputDecryptOutput(key: seq<Byte>, text: seq<Byte>)
    requires ValidKey(key) && |text| <= 16
    ensures Output(key, Output(key, text, false), true) == Padded(text)
  {
    var s := ExpandKey(key);
    var x := LoadBlock(text);
    var d := Decrypt(x, s, Rounds);
    LoadBlockBytes(d);
    EncryptDecrypt(x, s, Rounds);
    BlockBytesLoadBlock(text);
  }

  /** The first half of `main`'s body: the key bytes packed into
      `L_len = b / 4` words, an `S_len = 2r + 4` word table allocated, and
      `key_schedule` run on both. */
  method SubkeyTable(userkey: seq<Byte>) returns (S: array<Word>)
    requires ValidKey(userkey)
    ensures fresh(S)
    ensures S[..] == ExpandKey(userkey)
  {
    var r := Rounds;
    var L := PackKey(userkey);
    var lLen := |userkey| / 4;
    var sLen := SubkeyCount(r);
    S := new Word[sLen](_ => 0);
    assert L[..lLen] == L[..];
    ghost var l0 := L[..];
    KeySchedule.KeySchedule(L, S, lLen, sLen);
    ScheduleIsMixes(l0, sLen, 3 * Max(lLen, sLen));
    assert S[..] == S[..sLen];
  }

  /** The body of `main` after the input has been parsed (the direction, the
      text bytes and the key bytes), up to the bytes `write_output` prints. */
  method Run(userkey: seq<Byte>, text: seq<Byte>, encrypt: bool) returns (output: seq<Byte>)
    requires ValidKey(userkey) && |text| <= 16
    ensures output == Output(userkey, text, encrypt)
  {
    var r := Rounds;
    var S := SubkeyTable(userkey);
    var a, b, c, d := LoadRegisters(0, 0, 0, 0, text);
    assert [0, 0, 0, 0] == Zeros(4);
    ghost var x := LoadBlock(text);
    assert Block(a, b, c, d) == x;
    if encrypt {
      a, b, c, d := EncryptVec(a, b, c, d, r, S);
    } else {
      a, b, c, d := DecryptVec(a, b, c, d, r, S);
    }
    output := BlockBytes(Block(a, b, c, d));
  }
}
