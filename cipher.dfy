/** The RC6-32/r/b block transform: `encrypt_vec` and `decrypt_vec` on the four
    registers A, B, C, D, with the subkey table S. */
module BlockCipher {
  import opened Words

  /** The register quadruple (A, B, C, D): one 128-bit block. */
  datatype Block = Block(a: Word, b: Word, c: Word, d: Word)

  /** Number of subkeys the transform reads for `r` rounds: S[0] .. S[2r+3]. */
  function SubkeyCount(r: nat): nat
  {
    2 * r + 4
  }

  /** `x * (2x + 1)` on `uint32_t`, that is modulo 2^32. */
  function Quadratic(x: Word): Word
  {
    x * (2 * x + 1)
  }

  /** `x * (2x + 1)` rotated left by lg w = 5: the values t and u of a round. */
  function Mix(x: Word): Word
  {
    RotateLeft(Quadratic(x), LgW)
  }

  /** Body of encrypt's loop for round `i`: update A and C, then rotate the
      registers (A, B, C, D) := (B, C, D, A). */
  function EncryptRound(x: Block, s: seq<Word>, i: nat): Block
    requires 2 * i + 1 < |s|
  {
    var t := Mix(x.b);
    var u := Mix(x.d);
    var a := Add(RotateLeft(Xor(x.a, t), u), s[2 * i]);
    var c := Add(RotateLeft(Xor(x.c, u), t), s[2 * i + 1]);
    Block(x.b, c, x.d, a)
  }

  /** Body of decrypt's loop for round `i`: rotate the registers back
      (A, B, C, D) := (D, A, B, C), then recover C and A. */
  function DecryptRound(y: Block, s: seq<Word>, i: nat): Block
    requires 2 * i + 1 < |s|
  {
    var z := Block(y.d, y.a, y.b, y.c);
    var u := Mix(z.d);
    var t := Mix(z.b);
    var c := Xor(RotateRight(Sub(z.c, s[2 * i + 1]), t), u);
    var a := Xor(RotateRight(Sub(z.a, s[2 * i]), u), t);
    Block(a, z.b, c, z.d)
  }

  /** Rounds 1 .. k of encryption, in ascending order. */
  function EncryptRounds(x: Block, s: seq<Word>, k: nat): Block
    requires 2 * k + 1 < |s|
  {
    if k == 0 then x else EncryptRound(EncryptRounds(x, s, k - 1), s, k)
  }

  /** Rounds k .. 1 of decryption, in descending order. */
  function DecryptRounds(y: Block, s: seq<Word>, k: nat): Block
    requires 2 * k + 1 < |s|
    decreases k
  {
    if k == 0 then y else DecryptRounds(DecryptRound(y, s, k), s, k - 1)
  }

  /** `encrypt_vec` as a function: pre-whitening of B and D, r rounds,
      post-whitening of A and C. */
  function Encrypt(x: Block, s: seq<Word>, r: nat): Block
    requires |s| >= SubkeyCount(r)
  {
    var w := Block(x.a, Add(x.b, s[0]), x.c, Add(x.d, s[1]));
    var y := EncryptRounds(w, s, r);
    Block(Add(y.a, s[2 * r + 2]), y.b, Add(y.c, s[2 * r + 3]), y.d)
  }

  /** `decrypt_vec` as a function: undo the post-whitening, r inverse rounds
      in descending order, undo the pre-whitening. */
  function Decrypt(y: Block, s: seq<Word>, r: nat): Block
    requires |s| >= SubkeyCount(r)
  {
    var w := Block(Sub(y.a, s[2 * r + 2]), y.b, Sub(y.c, s[2 * r + 3]), y.d);
    var z := DecryptRounds(w, s, r);
    Block(z.a, Sub(z.b, s[0]), z.c, Sub(z.d, s[1]))
  }

  /** Undoing one register update of a round: subtracting the subkey, rotating
      right by the same amount and xoring the same mask give the register back. */
  lemma UndoUpdate(v: Word, mask: Word, amount: Word, key: Word)
    ensures Xor(RotateRight(Sub(Add(RotateLeft(Xor(v, mask), amount), key), key), amount), mask) == v
  {
    SubAdd(RotateLeft(Xor(v, mask), amount), key);
    RotateRightLeft(Xor(v, mask), amount);
    XorXor(v, mask);
  }

  /** Redoing one register update after undoing it. */
  lemma RedoUpdate(v: Word, mask: Word, amount: Word, key: Word)
    ensures Add(RotateLeft(Xor(Xor(RotateRight(Sub(v, key), amount), mask), mask), amount), key) == v
  {
    XorXor(RotateRight(Sub(v, key), amount), mask);
    RotateLeftRight(Sub(v, key), amount);
    AddSub(v, key);
  }

  /** Decrypt's loop body at index `i` undoes encrypt's loop body at index `i`. */
  lemma DecryptRoundInverse(x: Block, s: seq<Word>, i: nat)
    requires 2 * i + 1 < |s|
    ensures DecryptRound(EncryptRound(x, s, i), s, i) == x
  {
    UndoUpdate(x.a, Mix(x.b), Mix(x.d), s[2 * i]);
    UndoUpdate(x.c, Mix(x.d), Mix(x.b), s[2 * i + 1]);
  }

  /** Encrypt's loop body at index `i` undoes decrypt's loop body at index `i`. */
  lemma EncryptRoundInverse(y: Block, s: seq<Word>, i: nat)
    requires 2 * i + 1 < |s|
    ensures EncryptRound(DecryptRound(y, s, i), s, i) == y
  {
    RedoUpdate(y.d, Mix(y.a), Mix(y.c), s[2 * i]);
    RedoUpdate(y.b, Mix(y.c), Mix(y.a), s[2 * i + 1]);
  }

  /** Descending decryption rounds undo ascending encryption rounds. */
  lemma {:induction false} DecryptEncryptRounds(x: Block, s: seq<Word>, k: nat)
    requires 2 * k + 1 < |s|
    ensures DecryptRounds(EncryptRounds(x, s, k), s, k) == x
  {
    if k > 0 {
      DecryptRoundInverse(EncryptRounds(x, s, k - 1), s, k);
      DecryptEncryptRounds(x, s, k - 1);
    }
  }

  /** Ascending encryption rounds undo descending decryption rounds. */
  lemma {:induction false} EncryptDecryptRounds(y: Block, s: seq<Word>, k: nat)
    requires 2 * k + 1 < |s|
    decreases k
    ensures EncryptRounds(DecryptRounds(y, s, k), s, k) == y
  {
    if k > 0 {
      var z := DecryptRound(y, s, k);
      EncryptDecryptRounds(z, s, k - 1);
      EncryptRoundInverse(y, s, k);
    }
  }

  /** The round trip: decryption recovers every block encrypted under the same
      subkeys, for every round count and every table of at least 2r+4 subkeys. */
  lemma DecryptEncrypt(x: Block, s: seq<Word>, r: nat)
    requires |s| >= SubkeyCount(r)
    ensures Decrypt(Encrypt(x, s, r), s, r) == x
  {
    var w := Block(x.a, Add(x.b, s[0]), x.c, Add(x.d, s[1]));
    var y := EncryptRounds(w, s, r);
    SubAdd(y.a, s[2 * r + 2]);
    SubAdd(y.c, s[2 * r + 3]);
    DecryptEncryptRounds(w, s, r);
    SubAdd(x.b, s[0]);
    SubAdd(x.d, s[1]);
  }

  /** And the other way: encryption is a bijection on blocks. */
  lemma EncryptDecrypt(y: Block, s: seq<Word>, r: nat)
    requires |s| >= SubkeyCount(r)
    ensures Encrypt(Decrypt(y, s, r), s, r) == y
  {
    var w := Block(Sub(y.a, s[2 * r + 2]), y.b, Sub(y.c, s[2 * r + 3]), y.d);
    var z := DecryptRounds(w, s, r);
    AddSub(z.b, s[0]);
    AddSub(z.d, s[1]);
    EncryptDecryptRounds(w, s, r);
    AddSub(y.a, s[2 * r + 2]);
    AddSub(y.c, s[2 * r + 3]);
  }

  /** The subkeys past S[2r+3] play no part in encryption rounds 1 .. k. */
  lemma {:induction false} EncryptRoundsPrefix(x: Block, s: seq<Word>, k: nat, n: nat)
    requires 2 * k + 1 < n <= |s|
    ensures EncryptRounds(x, s, k) == EncryptRounds(x, s[..n], k)
  {
    if k > 0 {
      EncryptRoundsPrefix(x, s, k - 1, n);
    }
  }

  /** The subkeys past S[2r+3] play no part in decryption rounds k .. 1. */
  lemma {:induction false} DecryptRoundsPrefix(y: Block, s: seq<Word>, k: nat, n: nat)
    requires 2 * k + 1 < n <= |s|
    decreases k
    ensures DecryptRounds(y, s, k) == DecryptRounds(y, s[..n], k)
  {
    if k > 0 {
      DecryptRoundsPrefix(DecryptRound(y, s, k), s, k - 1, n);
    }
  }

  /** Encryption with r rounds reads only S[0] .. S[2r+3]. */
  lemma EncryptReadsPrefix(x: Block, s: seq<Word>, r: nat)
    requires |s| >= SubkeyCount(r)
    ensures Encrypt(x, s, r) == Encrypt(x, s[..SubkeyCount(r)], r)
  {
    EncryptRoundsPrefix(Block(x.a, Add(x.b, s[0]), x.c, Add(x.d, s[1])), s, r, SubkeyCount(r));
  }

  /** Decryption with r rounds reads only S[0] .. S[2r+3]. */
  lemma DecryptReadsPrefix(y: Block, s: seq<Word>, r: nat)
    requires |s| >= SubkeyCount(r)
    ensures Decrypt(y, s, r) == Decrypt(y, s[..SubkeyCount(r)], r)
  {
    DecryptRoundsPrefix(Block(Sub(y.a, s[2 * r + 2]), y.b, Sub(y.c, s[2 * r + 3]), y.d), s, r, SubkeyCount(r));
  }

  /** `encrypt_vec`: the registers are updated in place, round by round, and
      end up holding the encryption of the block they started with. S is only
      read. */
  method EncryptVec(a0: Word, b0: Word, c0: Word, d0: Word, r: nat, S: array<Word>)
    returns (a: Word, b: Word, c: Word, d: Word)
    requires S.Length >= SubkeyCount(r)
    ensures Block(a, b, c, d) == Encrypt(Block(a0, b0, c0, d0), S[..], r)
  {
    a, b, c, d := a0, b0, c0, d0;
    b := Add(b, S[0]);
    d := Add(d, S[1]);
    ghost var w := Block(a, b, c, d);
    var i := 1;
    while i <= r
      invariant 1 <= i <= r + 1
      invariant Block(a, b, c, d) == EncryptRounds(w, S[..], i - 1)
    {
      var temp1 := Quadratic(b);
      var temp2 := Quadratic(d);
      var offset := LgW;
      var t := RotateLeft(temp1, offset);
      var u := RotateLeft(temp2, offset);
      var temp3 := Xor(a, t);
      var temp4 := Xor(c, u);
      a := Add(RotateLeft(temp3, u), S[2 * i]);
      c := Add(RotateLeft(temp4, t), S[2 * i + 1]);
      var temp := a;
      a := b;
      b := c;
      c := d;
      d := temp;
      i := i + 1;
    }
    a := Add(a, S[2 * r + 2]);
    c := Add(c, S[2 * r + 3]);
  }

  /** `decrypt_vec`: the registers are updated in place, from round r down to
      round 1, and end up holding the decryption of the block they started
      with. S is only read. */
  method DecryptVec(a0: Word, b0: Word, c0: Word, d0: Word, r: nat, S: array<Word>)
    returns (a: Word, b: Word, c: Word, d: Word)
    requires S.Length >= SubkeyCount(r)
    ensures Block(a, b, c, d) == Decrypt(Block(a0, b0, c0, d0), S[..], r)
  {
    a, b, c, d := a0, b0, c0, d0;
    c := Sub(c, S[2 * r + 3]);
    a := Sub(a, S[2 * r + 2]);
    ghost var w := Block(a, b, c, d);
    var i := r;
    while i >= 1
      invariant 0 <= i <= r
      invariant DecryptRounds(Block(a, b, c, d), S[..], i) == DecryptRounds(w, S[..], r)
    {
      var tempA, tempB, tempC, tempD := a, b, c, d;
      a := tempD;
      b := tempA;
      c := tempB;
      d := tempC;
      var temp1 := Quadratic(d);
      var temp2 := Quadratic(b);
      var offset := LgW;
      var u := RotateLeft(temp1, offset);
      var t := RotateLeft(temp2, offset);
      var temp3 := Sub(c, S[2 * i + 1]);
      var temp4 := Sub(a, S[2 * i]);
      c := Xor(RotateRight(temp3, t), u);
      a := Xor(RotateRight(temp4, u), t);
      i := i - 1;
    }
    d := Sub(d, S[1]);
    b := Sub(b, S[0]);
  }
}
