/** `key_schedule`: the subkey table S is filled with the magic-constant
    progression, then mixed with the key words L in 3 * max(|L|, |S|) steps. */
module KeySchedule {
  import opened Words

  /** P_w for w = 32: Odd((e - 2) * 2^32). */
  const P32: Word := 0xB7E1_5163

  /** Q_w for w = 32: Odd((phi - 1) * 2^32). */
  const Q32: Word := 0x9E37_79B9

  function Max(x: nat, y: nat): nat
  {
    if x < y then y else x
  }

  /** The first `n` entries of S before mixing: S[0] = P32 and each further
      entry is its predecessor plus Q32, modulo 2^32. */
  function MagicTable(n: nat): (t: seq<Word>)
    ensures |t| == n
    ensures n > 0 ==> t[0] == P32
    ensures forall i :: 1 <= i < n ==> t[i] == Add(t[i - 1], Q32)
  {
    if n == 0 then []
    else if n == 1 then [P32]
    else
      var p := MagicTable(n - 1);
      p + [Add(p[n - 2], Q32)]
  }

  /** Q32 added to 0 `k` times, with wrap-around. */
  function Multiple(k: nat): Word
  {
    if k == 0 then 0 else Add(Multiple(k - 1), Q32)
  }

  /** Closed form of the progression: entry `i` is P32 plus `i` additions of
      Q32, whatever the table length. */
  lemma {:induction false} MagicTableClosedForm(n: nat, i: nat)
    requires i < n
    ensures MagicTable(n)[i] == Add(P32, Multiple(i))
  {
    if i == 0 {
      assert Add(P32, 0) == P32;
    } else {
      MagicTableClosedForm(n, i - 1);
      AddAssoc(P32, Multiple(i - 1), Q32);
    }
  }

  lemma AddAssoc(x: Word, y: Word, z: Word)
    ensures Add(Add(x, y), z) == Add(x, Add(y, z))
  {
    assert Add(x + y, z) == Add(x, y + z);
  }

  /** The variables of the mixing loop: the tables S and L, the registers A
      and B, and the indices i into S and j into L. */
  datatype MixState = MixState(s: seq<Word>, l: seq<Word>, a: Word, b: Word, i: nat, j: nat)

  /** Both tables are non-empty and both indices are in bounds. */
  predicate Valid(st: MixState)
  {
    st.i < |st.s| && st.j < |st.l|
  }

  /** One step of the mixing loop: A = S[i] = (S[i] + A + B) <<< 3, then
      B = L[j] = (L[j] + A + B) <<< (A + B), then both indices advance
      cyclically. */
  function Step(st: MixState): (r: MixState)
    requires Valid(st)
    ensures Valid(r) && |r.s| == |st.s| && |r.l| == |st.l|
    ensures r.i == (st.i + 1) % |st.s| && r.j == (st.j + 1) % |st.l|
  {
    var a := RotateLeft(Add(Add(st.s[st.i], st.a), st.b), 3);
    var b := RotateLeft(Add(Add(st.l[st.j], a), st.b), Add(a, st.b));
    MixState(st.s[st.i := a], st.l[st.j := b], a, b, (st.i + 1) % |st.s|, (st.j + 1) % |st.l|)
  }

  /** `k` steps of the mixing loop. The indices stay in bounds throughout and
      each has advanced by `k`, cyclically. */
  function Mixes(st: MixState, k: nat): (r: MixState)
    requires Valid(st)
    ensures Valid(r) && |r.s| == |st.s| && |r.l| == |st.l|
    ensures r.i == (st.i + k) % |st.s| && r.j == (st.j + k) % |st.l|
  {
    if k == 0 then st
    else
      ModSucc(st.i + k - 1, |st.s|);
      ModSucc(st.j + k - 1, |st.l|);
      Step(Mixes(st, k - 1))
  }

  lemma MulAtLeast(d: int, n: int)
    requires d >= 1 && n > 0
    ensures d * n >= n
  {
    assert d * n == (d - 1) * n + n;
  }

  /** A remainder is determined by any quotient-remainder decomposition. */
  lemma ModUnique(x: nat, q: nat, r: nat, n: nat)
    requires n > 0 && r < n && x == q * n + r
    ensures x % n == r
  {
    var q', r' := x / n, x % n;
    assert (q - q') * n == r' - r;
    if q > q' {
      MulAtLeast(q - q', n);
      assert false;
    } else if q < q' {
      MulAtLeast(q' - q, n);
      assert false;
    }
  }

  /** Advancing a cyclic index by one: `(x % n + 1) % n == (x + 1) % n`. */
  lemma ModSucc(x: nat, n: nat)
    requires n > 0
    ensures (x % n + 1) % n == (x + 1) % n
  {
    var q, r := x / n, x % n;
    if r + 1 < n {
      ModUnique(x + 1, q, r + 1, n);
      ModUnique(r + 1, 0, r + 1, n);
    } else {
      ModUnique(x + 1, q + 1, 0, n);
      ModUnique(n, 1, 0, n);
    }
  }

  /** After every step A holds the S entry just written and B the L entry
      just written. */
  lemma StepKeepsRegisters(st: MixState)
    requires Valid(st)
    ensures Step(st).a == Step(st).s[st.i] && Step(st).b == Step(st).l[st.j]
  {
  }

  /** After the first `k + 1` steps, A is the entry of S at position
      (i0 + k) mod |S| and B the entry of L at position (j0 + k) mod |L|, the
      positions step `k + 1` wrote. */
  lemma MixesRegisters(st: MixState, k: nat)
    requires Valid(st)
    ensures Mixes(st, k + 1).a == Mixes(st, k + 1).s[(st.i + k) % |st.s|]
    ensures Mixes(st, k + 1).b == Mixes(st, k + 1).l[(st.j + k) % |st.l|]
  {
    StepKeepsRegisters(Mixes(st, k));
  }

  /** A step writes exactly one entry of S and one of L. */
  lemma StepWritesOneEntry(st: MixState, m: nat, n: nat)
    requires Valid(st) && m < |st.s| && n < |st.l|
    ensures m != st.i ==> Step(st).s[m] == st.s[m]
    ensures n != st.j ==> Step(st).l[n] == st.l[n]
  {
  }

  /** The state the mixing loop starts from. */
  function Initial(l: seq<Word>, sLen: nat): (st: MixState)
    requires |l| >= 1 && sLen >= 1
    ensures Valid(st)
  {
    MixState(MagicTable(sLen), l, 0, 0, 0, 0)
  }

  /** Number of mixing steps: v = 3 * max(L_Len, S_Len). */
  function StepCount(lLen: nat, sLen: nat): nat
  {
    3 * Max(lLen, sLen)
  }

  /** The tables (and registers) after the whole key schedule. */
  function Schedule(l: seq<Word>, sLen: nat): (st: MixState)
    requires |l| >= 1 && sLen >= 1
    ensures |st.s| == sLen && |st.l| == |l|
  {
    Mixes(Initial(l, sLen), StepCount(|l|, sLen))
  }

  /** A mixing step, given the two values it writes. */
  lemma StepWith(st: MixState, a: Word, b: Word)
    requires Valid(st)
    requires a == RotateLeft(Add(Add(st.s[st.i], st.a), st.b), 3)
    requires b == RotateLeft(Add(Add(st.l[st.j], a), st.b), Add(a, st.b))
    ensures Step(st) == MixState(st.s[st.i := a], st.l[st.j := b], a, b, (st.i + 1) % |st.s|, (st.j + 1) % |st.l|)
  {
  }

  /** `Schedule` is `v = 3 * max(L_Len, S_Len)` mixing steps from the
      initial state. */
  lemma ScheduleIsMixes(l: seq<Word>, sLen: nat, v: nat)
    requires |l| >= 1 && sLen >= 1 && v == 3 * Max(|l|, sLen)
    ensures Schedule(l, sLen) == Mixes(Initial(l, sLen), v)
  {
  }

  /** The first loop of `key_schedule`: S[0 .. sLen) receives the
      magic-constant progression; nothing else changes. */
  method FillMagicTable(S: array<Word>, sLen: nat)
    requires 1 <= sLen <= S.Length
    modifies S
    ensures S[..sLen] == MagicTable(sLen)
    ensures S[sLen..] == old(S[sLen..])
  {
    S[0] := P32;
    var k := 1;
    while k < sLen
      invariant 1 <= k <= sLen
      invariant S[..k] == MagicTable(k)
      invariant S[sLen..] == old(S[sLen..])
    {
      S[k] := Add(S[k - 1], Q32);
      assert S[..k + 1] == S[..k] + [S[k]];
      k := k + 1;
    }
  }

  /** The body of the mixing loop of `key_schedule`: one step on the arrays,
      writing S[i] and L[j] and nothing else. */
  method MixStep(L: array<Word>, S: array<Word>, lLen: nat, sLen: nat,
                 a0: Word, b0: Word, i0: nat, j0: nat)
    returns (a: Word, b: Word, i: nat, j: nat)
    requires L != S
    requires 1 <= lLen <= L.Length && 1 <= sLen <= S.Length && i0 < sLen && j0 < lLen
    modifies L, S
    ensures MixState(S[..sLen], L[..lLen], a, b, i, j)
         == Step(MixState(old(S[..sLen]), old(L[..lLen]), a0, b0, i0, j0))
    ensures S[sLen..] == old(S[sLen..]) && L[lLen..] == old(L[lLen..])
  {
    ghost var before := MixState(S[..sLen], L[..lLen], a0, b0, i0, j0);
    a, b, i, j := a0, b0, i0, j0;
    var temp1 := Add(Add(S[i], a), b);
    S[i] := RotateLeft(temp1, 3);
    a := S[i];
    assert S[..sLen] == before.s[i := a];
    var temp2 := Add(Add(L[j], a), b);
    L[j] := RotateLeft(temp2, Add(a, b));
    b := L[j];
    assert L[..lLen] == before.l[j := b];
    i := (i + 1) % sLen;
    j := (j + 1) % lLen;
    StepWith(before, a, b);
  }

  /** `key_schedule` on the arrays: S[0 .. sLen) receives the subkeys and
      L[0 .. lLen) is overwritten by the mixing; no other entry of either
      array changes. */
  method KeySchedule(L: array<Word>, S: array<Word>, lLen: nat, sLen: nat)
    requires L != S
    requires 1 <= lLen <= L.Length && 1 <= sLen <= S.Length
    modifies L, S
    ensures S[..sLen] == Mixes(Initial(old(L[..lLen]), sLen), 3 * Max(lLen, sLen)).s
    ensures L[..lLen] == Mixes(Initial(old(L[..lLen]), sLen), 3 * Max(lLen, sLen)).l
    ensures S[sLen..] == old(S[sLen..]) && L[lLen..] == old(L[lLen..])
  {
    FillMagicTable(S, sLen);
    ghost var st0 := Initial(old(L[..lLen]), sLen);
    var a: Word, b: Word := 0, 0;
    var i: nat, j: nat := 0, 0;
    var v := 3 * Max(lLen, sLen);
    var s := 1;
    while s <= v
      invariant 1 <= s <= v + 1
      invariant Mixes(st0, s - 1) == MixState(S[..sLen], L[..lLen], a, b, i, j)
      invariant S[sLen..] == old(S[sLen..]) && L[lLen..] == old(L[lLen..])
    {
      a, b, i, j := MixStep(L, S, lLen, sLen, a, b, i, j);
      s := s + 1;
    }
    assert s - 1 == v;
  }
}
