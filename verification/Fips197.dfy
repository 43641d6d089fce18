/** The cipher, inverse cipher, key expansion and equivalent inverse cipher of FIPS 197, on a state of
    four column words, and the proof that deciphering undoes enciphering. */
module Fips197 {
  import opened Bytes
  import opened AesField

  datatype State = State(c0: word, c1: word, c2: word, c3: word)

  function SubWord(w: word): word { Word(SBox(B0(w)), SBox(B1(w)), SBox(B2(w)), SBox(B3(w))) }

  function InvSubWord(w: word): word { Word(InvSBox(B0(w)), InvSBox(B1(w)), InvSBox(B2(w)), InvSBox(B3(w))) }

  function MixWord(w: word): word {
    var a, b, c, d := B0(w), B1(w), B2(w), B3(w);
    Word(MixRow(a, b, c, d), MixRow(b, c, d, a), MixRow(c, d, a, b), MixRow(d, a, b, c))
  }

  function InvMixWord(w: word): word {
    var a, b, c, d := B0(w), B1(w), B2(w), B3(w);
    Word(InvMixRow(a, b, c, d), InvMixRow(b, c, d, a), InvMixRow(c, d, a, b), InvMixRow(d, a, b, c))
  }

  function SubBytes(s: State): State { State(SubWord(s.c0), SubWord(s.c1), SubWord(s.c2), SubWord(s.c3)) }

  function InvSubBytes(s: State): State {
    State(InvSubWord(s.c0), InvSubWord(s.c1), InvSubWord(s.c2), InvSubWord(s.c3))
  }

  /** Row r of the state is rotated left by r columns. */
  function ShiftRows(s: State): State {
    State(Word(B0(s.c0), B1(s.c1), B2(s.c2), B3(s.c3)), Word(B0(s.c1), B1(s.c2), B2(s.c3), B3(s.c0)),
          Word(B0(s.c2), B1(s.c3), B2(s.c0), B3(s.c1)), Word(B0(s.c3), B1(s.c0), B2(s.c1), B3(s.c2)))
  }

  function InvShiftRows(s: State): State {
    State(Word(B0(s.c0), B1(s.c3), B2(s.c2), B3(s.c1)), Word(B0(s.c1), B1(s.c0), B2(s.c3), B3(s.c2)),
          Word(B0(s.c2), B1(s.c1), B2(s.c0), B3(s.c3)), Word(B0(s.c3), B1(s.c2), B2(s.c1), B3(s.c0)))
  }

  function MixColumns(s: State): State { State(MixWord(s.c0), MixWord(s.c1), MixWord(s.c2), MixWord(s.c3)) }

  function InvMixColumns(s: State): State {
    State(InvMixWord(s.c0), InvMixWord(s.c1), InvMixWord(s.c2), InvMixWord(s.c3))
  }

  function AddRoundKey(s: State, k: State): State {
    State(WXor(s.c0, k.c0), WXor(s.c1, k.c1), WXor(s.c2, k.c2), WXor(s.c3, k.c3))
  }

  // ----- Section 5.2: key expansion

  function RotWord(w: word): word { Word(B1(w), B2(w), B3(w), B0(w)) }

  /** x^n in the field. */
  function XPower(n: nat): byte { if n == 0 then 1 else XTime(XPower(n - 1)) }

  function Rcon(j: nat): word requires 0 < j { Word(XPower(j - 1), 0, 0, 0) }

  predicate KeyLength(nk: nat) { nk == 4 || nk == 6 || nk == 8 }

  function KeyTemp(nk: nat, i: nat, previous: word): word
    requires KeyLength(nk) && nk <= i
  {
    if i % nk == 0 then WXor(SubWord(RotWord(previous)), Rcon(i / nk))
    else if 6 < nk && i % nk == 4 then SubWord(previous)
    else previous
  }

  /** Word i of the expanded key. */
  function ExpandedWord(key: seq<word>, i: nat): word
    requires KeyLength(|key|)
  {
    if i < |key| then key[i]
    else WXor(ExpandedWord(key, i - |key|), KeyTemp(|key|, i, ExpandedWord(key, i - 1)))
  }

  function NumRounds(nk: nat): nat { nk + 6 }

  function KeyExpansion(key: seq<word>): (w: seq<word>)
    requires KeyLength(|key|)
    ensures |w| == 4 * (NumRounds(|key|) + 1)
  {
    seq(4 * (NumRounds(|key|) + 1), i requires 0 <= i => ExpandedWord(key, i))
  }

  // ----- Sections 5.1, 5.3 and 5.3.5: the ciphers, over a schedule of nr + 1 round keys

  predicate Schedule(w: seq<word>, nr: nat) { 0 < nr && |w| == 4 * (nr + 1) }

  function RoundKey(w: seq<word>, r: nat): State
    requires 4 * r + 4 <= |w|
  {
    State(w[4 * r], w[4 * r + 1], w[4 * r + 2], w[4 * r + 3])
  }

  function Round(s: State, k: State): State { AddRoundKey(MixColumns(ShiftRows(SubBytes(s))), k) }

  function FinalRound(s: State, k: State): State { AddRoundKey(ShiftRows(SubBytes(s)), k) }

  /** The state after the initial key addition and r full rounds. */
  function Rounds(w: seq<word>, s: State, r: nat): State
    requires 4 * r + 4 <= |w|
  {
    if r == 0 then AddRoundKey(s, RoundKey(w, 0)) else Round(Rounds(w, s, r - 1), RoundKey(w, r))
  }

  function Cipher(w: seq<word>, nr: nat, s: State): State
    requires Schedule(w, nr)
  {
    FinalRound(Rounds(w, s, nr - 1), RoundKey(w, nr))
  }

  function InvRound(s: State, k: State): State { InvMixColumns(AddRoundKey(InvSubBytes(InvShiftRows(s)), k)) }

  /** The state after r of the inverse rounds, which use the round keys from the last one down. */
  function InvRounds(w: seq<word>, nr: nat, s: State, r: nat): State
    requires Schedule(w, nr) && r < nr
  {
    if r == 0 then AddRoundKey(s, RoundKey(w, nr)) else InvRound(InvRounds(w, nr, s, r - 1), RoundKey(w, nr - r))
  }

  function InvCipher(w: seq<word>, nr: nat, s: State): State
    requires Schedule(w, nr)
  {
    AddRoundKey(InvSubBytes(InvShiftRows(InvRounds(w, nr, s, nr - 1))), RoundKey(w, 0))
  }

  function EqInvRound(s: State, k: State): State { AddRoundKey(InvMixColumns(InvShiftRows(InvSubBytes(s))), k) }

  function EqInvFinalRound(s: State, k: State): State { AddRoundKey(InvShiftRows(InvSubBytes(s)), k) }

  function EqInvRounds(dw: seq<word>, s: State, r: nat): State
    requires 4 * r + 4 <= |dw|
  {
    if r == 0 then AddRoundKey(s, RoundKey(dw, 0)) else EqInvRound(EqInvRounds(dw, s, r - 1), RoundKey(dw, r))
  }

  function EqInvCipher(dw: seq<word>, nr: nat, s: State): State
    requires Schedule(dw, nr)
  {
    EqInvFinalRound(EqInvRounds(dw, s, nr - 1), RoundKey(dw, nr))
  }

  /** The schedule of the equivalent inverse cipher: round keys in reverse order, InvMixColumns applied
      to all but the first and the last. */
  function InverseSchedule(w: seq<word>, nr: nat): (dw: seq<word>)
    requires Schedule(w, nr)
    ensures Schedule(dw, nr)
  {
    seq(|w|, i requires 0 <= i < |w| =>
      var v := w[4 * (nr - i / 4) + i % 4];
      if 0 < i / 4 < nr then InvMixWord(v) else v)
  }

  // ----- Inverses of the layers

  lemma InvSubWordOfSubWord(w: word)
    ensures InvSubWord(SubWord(w)) == w
  {
    hide SBox, InvSBox, Word, B0, B1, B2, B3;
    BytesOfWord(SBox(B0(w)), SBox(B1(w)), SBox(B2(w)), SBox(B3(w)));
    SBoxInverse(B0(w));
    SBoxInverse(B1(w));
    SBoxInverse(B2(w));
    SBoxInverse(B3(w));
    WordOfBytes(w);
  }

  lemma InvMixWordOfMixWord(w: word)
    ensures InvMixWord(MixWord(w)) == w
  {
    hide MixRow, InvMixRow, Word, B0, B1, B2, B3;
    var a, b, c, d := B0(w), B1(w), B2(w), B3(w);
    BytesOfWord(MixRow(a, b, c, d), MixRow(b, c, d, a), MixRow(c, d, a, b), MixRow(d, a, b, c));
    InvMixRowOfMixRows(a, b, c, d);
    InvMixRowOfMixRows(b, c, d, a);
    InvMixRowOfMixRows(c, d, a, b);
    InvMixRowOfMixRows(d, a, b, c);
    WordOfBytes(w);
  }

  lemma InvMixWordXor(v: word, w: word)
    ensures InvMixWord(WXor(v, w)) == WXor(InvMixWord(v), InvMixWord(w))
  {
    hide InvMixRow, Word, B0, B1, B2, B3, Xor, WXor;
    BytesXor(v, w);
    var a, b, c, d := B0(v), B1(v), B2(v), B3(v);
    var e, f, g, h := B0(w), B1(w), B2(w), B3(w);
    InvMixRowXor(a, b, c, d, e, f, g, h);
    InvMixRowXor(b, c, d, a, f, g, h, e);
    InvMixRowXor(c, d, a, b, g, h, e, f);
    InvMixRowXor(d, a, b, c, h, e, f, g);
    WordXor(InvMixRow(a, b, c, d), InvMixRow(b, c, d, a), InvMixRow(c, d, a, b), InvMixRow(d, a, b, c),
            InvMixRow(e, f, g, h), InvMixRow(f, g, h, e), InvMixRow(g, h, e, f), InvMixRow(h, e, f, g));
  }

  /** Shifting and substituting commute, and both are undone in either order. */
  lemma InvShiftSubOfShiftSub(s: State)
    ensures InvSubBytes(InvShiftRows(ShiftRows(SubBytes(s)))) == s
    ensures InvShiftRows(ShiftRows(s)) == s
  {
    hide SubWord, InvSubWord, Word, B0, B1, B2, B3;
    ShiftRowsUndone(s);
    ShiftRowsUndone(SubBytes(s));
    InvSubWordOfSubWord(s.c0);
    InvSubWordOfSubWord(s.c1);
    InvSubWordOfSubWord(s.c2);
    InvSubWordOfSubWord(s.c3);
  }

  lemma ShiftRowsUndone(s: State)
    ensures InvShiftRows(ShiftRows(s)) == s
  {
    hide Word, B0, B1, B2, B3;
    BytesOfWord(B0(s.c0), B1(s.c1), B2(s.c2), B3(s.c3));
    BytesOfWord(B0(s.c1), B1(s.c2), B2(s.c3), B3(s.c0));
    BytesOfWord(B0(s.c2), B1(s.c3), B2(s.c0), B3(s.c1));
    BytesOfWord(B0(s.c3), B1(s.c0), B2(s.c1), B3(s.c2));
    WordOfBytes(s.c0);
    WordOfBytes(s.c1);
    WordOfBytes(s.c2);
    WordOfBytes(s.c3);
  }

  lemma InvSubOfColumn(a: byte, b: byte, c: byte, d: byte)
    ensures InvSubWord(Word(a, b, c, d)) == Word(InvSBox(a), InvSBox(b), InvSBox(c), InvSBox(d))
  {
    hide InvSBox, Word, B0, B1, B2, B3;
    BytesOfWord(a, b, c, d);
  }

  lemma BytesOfInvSub(w: word)
    ensures B0(InvSubWord(w)) == InvSBox(B0(w)) && B1(InvSubWord(w)) == InvSBox(B1(w))
    ensures B2(InvSubWord(w)) == InvSBox(B2(w)) && B3(InvSubWord(w)) == InvSBox(B3(w))
  {
    hide InvSBox, Word, B0, B1, B2, B3;
    BytesOfWord(InvSBox(B0(w)), InvSBox(B1(w)), InvSBox(B2(w)), InvSBox(B3(w)));
  }

  lemma InvSubShiftCommute(s: State)
    ensures InvSubBytes(InvShiftRows(s)) == InvShiftRows(InvSubBytes(s))
  {
    hide InvSBox, InvSubWord, Word, B0, B1, B2, B3;
    BytesOfInvSub(s.c0);
    BytesOfInvSub(s.c1);
    BytesOfInvSub(s.c2);
    BytesOfInvSub(s.c3);
    InvSubOfColumn(B0(s.c0), B1(s.c3), B2(s.c2), B3(s.c1));
    InvSubOfColumn(B0(s.c1), B1(s.c0), B2(s.c3), B3(s.c2));
    InvSubOfColumn(B0(s.c2), B1(s.c1), B2(s.c0), B3(s.c3));
    InvSubOfColumn(B0(s.c3), B1(s.c2), B2(s.c1), B3(s.c0));
  }

  lemma InvMixColumnsOfMixColumns(s: State)
    ensures InvMixColumns(MixColumns(s)) == s
  {
    hide MixWord, InvMixWord;
    InvMixWordOfMixWord(s.c0);
    InvMixWordOfMixWord(s.c1);
    InvMixWordOfMixWord(s.c2);
    InvMixWordOfMixWord(s.c3);
  }

  lemma InvMixColumnsXor(s: State, k: State)
    ensures InvMixColumns(AddRoundKey(s, k)) == AddRoundKey(InvMixColumns(s), InvMixColumns(k))
  {
    hide InvMixWord, WXor;
    InvMixWordXor(s.c0, k.c0);
    InvMixWordXor(s.c1, k.c1);
    InvMixWordXor(s.c2, k.c2);
    InvMixWordXor(s.c3, k.c3);
  }

  lemma AddRoundKeyTwice(s: State, k: State)
    ensures AddRoundKey(AddRoundKey(s, k), k) == s
  {
    hide WXor;
    WXorCancels(s.c0, k.c0);
    WXorCancels(s.c1, k.c1);
    WXorCancels(s.c2, k.c2);
    WXorCancels(s.c3, k.c3);
  }

  // ----- Deciphering undoes enciphering

  /** After r inverse rounds the state is the one that entered the last r + 1 rounds, shifted and
      substituted. */
  lemma {:induction false} InvRoundsUndoRounds(w: seq<word>, nr: nat, s: State, r: nat)
    requires Schedule(w, nr) && r < nr
    ensures InvRounds(w, nr, Cipher(w, nr, s), r) == ShiftRows(SubBytes(Rounds(w, s, nr - 1 - r)))
  {
    hide SubBytes, ShiftRows, MixColumns, InvSubBytes, InvShiftRows, InvMixColumns, AddRoundKey, RoundKey;
    var x := Rounds(w, s, nr - 1 - r);
    if r == 0 {
      AddRoundKeyTwice(ShiftRows(SubBytes(x)), RoundKey(w, nr));
    } else {
      InvRoundsUndoRounds(w, nr, s, r - 1);
      var y := Rounds(w, s, nr - r);
      InvShiftSubOfShiftSub(y);
      AddRoundKeyTwice(MixColumns(ShiftRows(SubBytes(x))), RoundKey(w, nr - r));
      InvMixColumnsOfMixColumns(ShiftRows(SubBytes(x)));
    }
  }

  lemma InvCipherOfCipher(w: seq<word>, nr: nat, s: State)
    requires Schedule(w, nr)
    ensures InvCipher(w, nr, Cipher(w, nr, s)) == s
  {
    hide SubBytes, ShiftRows, InvSubBytes, InvShiftRows, AddRoundKey, RoundKey, Cipher;
    InvRoundsUndoRounds(w, nr, s, nr - 1);
    InvShiftSubOfShiftSub(Rounds(w, s, 0));
    AddRoundKeyTwice(s, RoundKey(w, 0));
  }

  lemma InverseRoundKey(w: seq<word>, nr: nat, r: nat)
    requires Schedule(w, nr) && r <= nr
    ensures RoundKey(InverseSchedule(w, nr), r)
         == if 0 < r < nr then InvMixColumns(RoundKey(w, nr - r)) else RoundKey(w, nr - r)
  {
    hide InvMixWord, InverseSchedule;
    InverseWord(w, nr, r, 0);
    InverseWord(w, nr, r, 1);
    InverseWord(w, nr, r, 2);
    InverseWord(w, nr, r, 3);
  }

  lemma InverseWord(w: seq<word>, nr: nat, r: nat, c: nat)
    requires Schedule(w, nr) && r <= nr && c < 4
    ensures var v := w[4 * (nr - r) + c];
            InverseSchedule(w, nr)[4 * r + c] == if 0 < r < nr then InvMixWord(v) else v
  {
    hide InvMixWord;
    assert (4 * r + c) / 4 == r && (4 * r + c) % 4 == c;
  }

  lemma {:induction false} EqInvRoundsAreInvRounds(w: seq<word>, nr: nat, s: State, r: nat)
    requires Schedule(w, nr) && r < nr
    ensures EqInvRounds(InverseSchedule(w, nr), s, r) == InvRounds(w, nr, s, r)
  {
    hide InvSubBytes, InvShiftRows, InvMixColumns, AddRoundKey, RoundKey, InverseSchedule;
    InverseRoundKey(w, nr, r);
    if r != 0 {
      EqInvRoundsAreInvRounds(w, nr, s, r - 1);
      var x := InvRounds(w, nr, s, r - 1);
      InvSubShiftCommute(x);
      InvMixColumnsXor(InvSubBytes(InvShiftRows(x)), RoundKey(w, nr - r));
    }
  }

  /** Section 5.3.5 of FIPS 197: the equivalent inverse cipher is the inverse cipher. */
  lemma EqInvCipherIsInvCipher(w: seq<word>, nr: nat, s: State)
    requires Schedule(w, nr)
    ensures EqInvCipher(InverseSchedule(w, nr), nr, s) == InvCipher(w, nr, s)
  {
    hide InvSubBytes, InvShiftRows, InvMixColumns, AddRoundKey, RoundKey, InverseSchedule;
    EqInvRoundsAreInvRounds(w, nr, s, nr - 1);
    InvSubShiftCommute(InvRounds(w, nr, s, nr - 1));
    InverseRoundKey(w, nr, nr);
  }

  // ----- The same on byte blocks and byte keys (section 3.4: bytes fill the state column by column)

  predicate Block(b: seq<byte>) { |b| == 16 }

  predicate UserKey(k: seq<byte>) { |k| == 16 || |k| == 24 || |k| == 32 }

  function BlockState(b: seq<byte>): State
    requires Block(b)
  {
    State(WordAt(b, 0), WordAt(b, 4), WordAt(b, 8), WordAt(b, 12))
  }

  function StateBlock(s: State): (b: seq<byte>)
    ensures Block(b)
  {
    WordBytes(s.c0) + WordBytes(s.c1) + WordBytes(s.c2) + WordBytes(s.c3)
  }

  function KeyWords(k: seq<byte>): (w: seq<word>)
    requires UserKey(k)
    ensures KeyLength(|w|) && |w| == |k| / 4
  {
    seq(|k| / 4, i requires 0 <= i < |k| / 4 => WordAt(k, 4 * i))
  }

  function CipherBlock(w: seq<word>, nr: nat, b: seq<byte>): (c: seq<byte>)
    requires Schedule(w, nr) && Block(b)
    ensures Block(c)
  {
    StateBlock(Cipher(w, nr, BlockState(b)))
  }

  function EqInvCipherBlock(dw: seq<word>, nr: nat, b: seq<byte>): (c: seq<byte>)
    requires Schedule(dw, nr) && Block(b)
    ensures Block(c)
  {
    StateBlock(EqInvCipher(dw, nr, BlockState(b)))
  }

  /** AES encryption of one block. */
  function Encrypt(k: seq<byte>, b: seq<byte>): (c: seq<byte>)
    requires UserKey(k) && Block(b)
    ensures Block(c)
  {
    CipherBlock(KeyExpansion(KeyWords(k)), NumRounds(|k| / 4), b)
  }

  /** AES decryption of one block, by the straightforward inverse cipher. */
  function Decrypt(k: seq<byte>, b: seq<byte>): (c: seq<byte>)
    requires UserKey(k) && Block(b)
    ensures Block(c)
  {
    StateBlock(InvCipher(KeyExpansion(KeyWords(k)), NumRounds(|k| / 4), BlockState(b)))
  }

  lemma StateOfBlock(s: State)
    ensures BlockState(StateBlock(s)) == s
  {
    hide Word, B0, B1, B2, B3;
    WordOfBytes(s.c0);
    WordOfBytes(s.c1);
    WordOfBytes(s.c2);
    WordOfBytes(s.c3);
  }

  lemma BlockOfState(b: seq<byte>)
    requires Block(b)
    ensures StateBlock(BlockState(b)) == b
  {
    hide Word, B0, B1, B2, B3;
    BytesOfWord(b[0], b[1], b[2], b[3]);
    BytesOfWord(b[4], b[5], b[6], b[7]);
    BytesOfWord(b[8], b[9], b[10], b[11]);
    BytesOfWord(b[12], b[13], b[14], b[15]);
  }

  /** For every key size and every block, decryption undoes encryption. */
  lemma DecryptOfEncrypt(k: seq<byte>, b: seq<byte>)
    requires UserKey(k) && Block(b)
    ensures Decrypt(k, Encrypt(k, b)) == b
  {
    hide BlockState, StateBlock, KeyExpansion, KeyWords, Cipher, InvCipher;
    var w, nr := KeyExpansion(KeyWords(k)), NumRounds(|k| / 4);
    StateOfBlock(Cipher(w, nr, BlockState(b)));
    InvCipherOfCipher(w, nr, BlockState(b));
    BlockOfState(b);
  }
}
