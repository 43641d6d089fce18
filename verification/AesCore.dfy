/** The table-driven AES of modules/idsregeneration/aes_core.c, in its loop form. The 256-entry tables are
    the functions given by the formulas in the comment above them. A pointer into a byte buffer is an
    array and an index. */
module AesCore {
  import opened Bytes
  import opened AesField
  import opened Fips197

  // ----- The tables

  function Te0(x: byte): word { var s := SBox(x); Word(M2(s), s, s, M3(s)) }
  function Te1(x: byte): word { var s := SBox(x); Word(M3(s), M2(s), s, s) }
  function Te2(x: byte): word { var s := SBox(x); Word(s, M3(s), M2(s), s) }
  function Te3(x: byte): word { var s := SBox(x); Word(s, s, M3(s), M2(s)) }
  function Te4(x: byte): word { var s := SBox(x); Word(s, s, s, s) }

  function Td0(x: byte): word { var s := InvSBox(x); Word(M14(s), M9(s), M13(s), M11(s)) }
  function Td1(x: byte): word { var s := InvSBox(x); Word(M11(s), M14(s), M9(s), M13(s)) }
  function Td2(x: byte): word { var s := InvSBox(x); Word(M13(s), M11(s), M14(s), M9(s)) }
  function Td3(x: byte): word { var s := InvSBox(x); Word(M9(s), M13(s), M11(s), M14(s)) }
  function Td4(x: byte): word { var s := InvSBox(x); Word(s, s, s, s) }

  const RCON: seq<word> :=
    [0x01000000, 0x02000000, 0x04000000, 0x08000000, 0x10000000, 0x20000000, 0x40000000, 0x80000000,
     0x1B000000, 0x36000000]

  // ----- The expressions the loops are made of

  function WSum4(a: word, b: word, c: word, d: word): word { WXor(WXor(WXor(a, b), c), d) }

  /** One column of a full encryption round, from one byte of each of four words. */
  function EncColumn(s0: word, s1: word, s2: word, s3: word, k: word): word {
    WXor(WSum4(Te0(B0(s0)), Te1(B1(s1)), Te2(B2(s2)), Te3(B3(s3))), k)
  }

  function DecColumn(s0: word, s1: word, s2: word, s3: word, k: word): word {
    WXor(WSum4(Td0(B0(s0)), Td1(B1(s1)), Td2(B2(s2)), Td3(B3(s3))), k)
  }

  /** One byte of each of four words through Te4, masked into place; Td4 likewise. */
  function SubColumn(s0: word, s1: word, s2: word, s3: word): word {
    WSum4(Te4(B0(s0)) & 0xff000000, Te4(B1(s1)) & 0x00ff0000, Te4(B2(s2)) & 0x0000ff00, Te4(B3(s3)) & 0x000000ff)
  }

  function InvSubColumn(s0: word, s1: word, s2: word, s3: word): word {
    WSum4(Td4(B0(s0)) & 0xff000000, Td4(B1(s1)) & 0x00ff0000, Td4(B2(s2)) & 0x0000ff00, Td4(B3(s3)) & 0x000000ff)
  }

  /** The key schedule's rotated substitution: Te4 of bytes 1, 2, 3, 0, each masked into place. */
  function SubRotated(temp: word): word {
    WSum4(Te4(B1(temp)) & 0xff000000, Te4(B2(temp)) & 0x00ff0000, Te4(B3(temp)) & 0x0000ff00,
          Te4(B0(temp)) & 0x000000ff)
  }

  /** The inverse column transform as AES_set_decrypt_key spells it: Td of Te4 of each byte. */
  function InvMixByTables(w: word): word {
    WSum4(Td0(B3(Te4(B0(w)))), Td1(B3(Te4(B1(w)))), Td2(B3(Te4(B2(w)))), Td3(B3(Te4(B3(w)))))
  }

  // ----- What those expressions compute

  lemma MaskedBytes(a: byte, b: byte, c: byte, d: byte)
    ensures WSum4(Word(a, a, a, a) & 0xff000000, Word(b, b, b, b) & 0x00ff0000,
                  Word(c, c, c, c) & 0x0000ff00, Word(d, d, d, d) & 0x000000ff) == Word(a, b, c, d)
  {
  }

  lemma SubColumnIs(s0: word, s1: word, s2: word, s3: word)
    ensures SubColumn(s0, s1, s2, s3) == SubWord(Word(B0(s0), B1(s1), B2(s2), B3(s3)))
  {
    hide WSum4, SBox, Word, B0, B1, B2, B3;
    BytesOfWord(B0(s0), B1(s1), B2(s2), B3(s3));
    MaskedBytes(SBox(B0(s0)), SBox(B1(s1)), SBox(B2(s2)), SBox(B3(s3)));
  }

  lemma InvSubColumnIs(s0: word, s1: word, s2: word, s3: word)
    ensures InvSubColumn(s0, s1, s2, s3) == InvSubWord(Word(B0(s0), B1(s1), B2(s2), B3(s3)))
  {
    hide WSum4, InvSBox, Word, B0, B1, B2, B3;
    BytesOfWord(B0(s0), B1(s1), B2(s2), B3(s3));
    MaskedBytes(InvSBox(B0(s0)), InvSBox(B1(s1)), InvSBox(B2(s2)), InvSBox(B3(s3)));
  }

  lemma SubRotatedIs(temp: word)
    ensures SubRotated(temp) == SubWord(RotWord(temp))
  {
    hide WSum4, SBox, Word, B0, B1, B2, B3;
    BytesOfWord(B1(temp), B2(temp), B3(temp), B0(temp));
    MaskedBytes(SBox(B1(temp)), SBox(B2(temp)), SBox(B3(temp)), SBox(B0(temp)));
  }

  /** Adding four words adds their bytes place by place. */
  lemma WSum4OfWords(a0: byte, a1: byte, a2: byte, a3: byte, b0: byte, b1: byte, b2: byte, b3: byte,
                     c0: byte, c1: byte, c2: byte, c3: byte, d0: byte, d1: byte, d2: byte, d3: byte)
    ensures WSum4(Word(a0, a1, a2, a3), Word(b0, b1, b2, b3), Word(c0, c1, c2, c3), Word(d0, d1, d2, d3))
         == Word(Sum4(a0, b0, c0, d0), Sum4(a1, b1, c1, d1), Sum4(a2, b2, c2, d2), Sum4(a3, b3, c3, d3))
  {
    hide Word, Xor, WXor;
    var a, b, c, d := Word(a0, a1, a2, a3), Word(b0, b1, b2, b3), Word(c0, c1, c2, c3), Word(d0, d1, d2, d3);
    WXorAssociates(WXor(a, b), c, d);
    WordXor(a0, a1, a2, a3, b0, b1, b2, b3);
    WordXor(c0, c1, c2, c3, d0, d1, d2, d3);
    WordXor(Xor(a0, b0), Xor(a1, b1), Xor(a2, b2), Xor(a3, b3), Xor(c0, d0), Xor(c1, d1), Xor(c2, d2), Xor(c3, d3));
  }

  lemma EncTablesMix(p: byte, q: byte, r: byte, s: byte)
    ensures WSum4(Te0(p), Te1(q), Te2(r), Te3(s)) == MixWord(Word(SBox(p), SBox(q), SBox(r), SBox(s)))
  {
    hide SBox, M2, M3, Word, WSum4, Sum4, B0, B1, B2, B3;
    var a, b, c, d := SBox(p), SBox(q), SBox(r), SBox(s);
    WSum4OfWords(M2(a), a, a, M3(a), M3(b), M2(b), b, b, c, M3(c), M2(c), c, d, d, M3(d), M2(d));
    BytesOfWord(a, b, c, d);
    Sum4Turns(a, M2(b), M3(c), d);
    Sum4Turns(a, b, M2(c), M3(d));
    Sum4Turns(b, M2(c), M3(d), a);
    Sum4Turns(M3(a), b, c, M2(d));
    Sum4Turns(b, c, M2(d), M3(a));
    Sum4Turns(c, M2(d), M3(a), b);
  }

  lemma DecTablesMix(p: byte, q: byte, r: byte, s: byte)
    ensures WSum4(Td0(p), Td1(q), Td2(r), Td3(s)) == InvMixWord(Word(InvSBox(p), InvSBox(q), InvSBox(r), InvSBox(s)))
  {
    hide InvSBox, M9, M11, M13, M14, Word, WSum4, Sum4, B0, B1, B2, B3;
    var a, b, c, d := InvSBox(p), InvSBox(q), InvSBox(r), InvSBox(s);
    WSum4OfWords(M14(a), M9(a), M13(a), M11(a), M11(b), M14(b), M9(b), M13(b),
                 M13(c), M11(c), M14(c), M9(c), M9(d), M13(d), M11(d), M14(d));
    BytesOfWord(a, b, c, d);
    Sum4Turns(M9(a), M14(b), M11(c), M13(d));
    Sum4Turns(M13(a), M9(b), M14(c), M11(d));
    Sum4Turns(M9(b), M14(c), M11(d), M13(a));
    Sum4Turns(M11(a), M13(b), M9(c), M14(d));
    Sum4Turns(M13(b), M9(c), M14(d), M11(a));
    Sum4Turns(M9(c), M14(d), M11(a), M13(b));
  }

  lemma EncColumnIs(s0: word, s1: word, s2: word, s3: word, k: word)
    ensures EncColumn(s0, s1, s2, s3, k) == WXor(MixWord(SubWord(Word(B0(s0), B1(s1), B2(s2), B3(s3)))), k)
  {
    hide Te0, Te1, Te2, Te3, WSum4, SBox, Word, B0, B1, B2, B3, WXor, MixWord;
    BytesOfWord(B0(s0), B1(s1), B2(s2), B3(s3));
    EncTablesMix(B0(s0), B1(s1), B2(s2), B3(s3));
  }

  lemma DecColumnIs(s0: word, s1: word, s2: word, s3: word, k: word)
    ensures DecColumn(s0, s1, s2, s3, k) == WXor(InvMixWord(InvSubWord(Word(B0(s0), B1(s1), B2(s2), B3(s3)))), k)
  {
    hide Td0, Td1, Td2, Td3, WSum4, InvSBox, Word, B0, B1, B2, B3, WXor, InvMixWord;
    BytesOfWord(B0(s0), B1(s1), B2(s2), B3(s3));
    DecTablesMix(B0(s0), B1(s1), B2(s2), B3(s3));
  }

  lemma InvMixByTablesIs(w: word)
    ensures InvMixByTables(w) == InvMixWord(w)
  {
    hide Td0, Td1, Td2, Td3, WSum4, SBox, InvSBox, Word, B0, B1, B2, B3, InvMixWord;
    var a, b, c, d := SBox(B0(w)), SBox(B1(w)), SBox(B2(w)), SBox(B3(w));
    BytesOfWord(a, a, a, a);
    BytesOfWord(b, b, b, b);
    BytesOfWord(c, c, c, c);
    BytesOfWord(d, d, d, d);
    DecTablesMix(a, b, c, d);
    SBoxInverse(B0(w));
    SBoxInverse(B1(w));
    SBoxInverse(B2(w));
    SBoxInverse(B3(w));
    WordOfBytes(w);
  }

  // ----- The key schedules

  /** AES_KEY: room for 15 round keys, and the number of rounds. */
  class AesKey {
    const rd_key: array<word>
    var rounds: int

    constructor ()
      ensures rd_key.Length == 60 && fresh(rd_key)
    {
      rd_key := new word[60];
      rounds := 0;
    }

    ghost predicate Ready()
      reads this
    {
      rd_key.Length == 60 && (rounds == 10 || rounds == 12 || rounds == 14)
    }

    ghost function Words(): (w: seq<word>)
      reads this, rd_key
      requires Ready()
      ensures Schedule(w, rounds)
    {
      rd_key[..4 * (rounds + 1)]
    }

    /** The schedule of k for enciphering. */
    ghost predicate EncryptsUnder(k: seq<byte>)
      reads this, rd_key
    {
      UserKey(k) && Ready() && rounds == NumRounds(|k| / 4) && Words() == KeyExpansion(KeyWords(k))
    }

    /** The schedule of k for the equivalent inverse cipher. */
    ghost predicate DecryptsUnder(k: seq<byte>)
      reads this, rd_key
    {
      UserKey(k) && Ready() && rounds == NumRounds(|k| / 4)
      && Words() == InverseSchedule(KeyExpansion(KeyWords(k)), rounds)
    }
  }

  lemma RconTable(i: nat)
    requires i < 10
    ensures RCON[i] == Rcon(i + 1)
  {
    assert XPower(1) == 2 && XPower(2) == 4 && XPower(3) == 8 && XPower(4) == 0x10;
    assert XPower(5) == 0x20 && XPower(6) == 0x40 && XPower(7) == 0x80 && XPower(8) == 0x1b;
  }

  /** The first word of a new key: the word one key length back, the substituted rotation, the constant. */
  function CoreWord(back: word, temp: word, rcon: word): word { WXor(WXor(back, SubRotated(temp)), rcon) }

  lemma NextMultiple(p: nat, nk: nat)
    requires KeyLength(nk) && p % nk == 0
    ensures (p + nk) % nk == 0 && (p + nk) / nk == p / nk + 1
  {
    if nk == 4 {
      assert (p + 4) % 4 == 0 && (p + 4) / 4 == p / 4 + 1;
    } else if nk == 6 {
      assert (p + 6) % 6 == 0 && (p + 6) / 6 == p / 6 + 1;
    } else {
      assert (p + 8) % 8 == 0 && (p + 8) / 8 == p / 8 + 1;
    }
  }

  lemma CoreWordIs(kw: seq<word>, p: nat)
    requires KeyLength(|kw|) && p % |kw| == 0 && p / |kw| < 10
    ensures CoreWord(ExpandedWord(kw, p), ExpandedWord(kw, p + |kw| - 1), RCON[p / |kw|])
         == ExpandedWord(kw, p + |kw|)
  {
    hide SubRotated, SubWord, RotWord, Rcon, WXor;
    var temp := ExpandedWord(kw, p + |kw| - 1);
    SubRotatedIs(temp);
    RconTable(p / |kw|);
    NextMultiple(p, |kw|);
    WXorAssociates(ExpandedWord(kw, p), SubWord(RotWord(temp)), Rcon(p / |kw| + 1));
  }

  ghost predicate Expanded(rk: array<word>, kw: seq<word>, n: nat)
    reads rk
    requires KeyLength(|kw|)
  {
    n <= rk.Length && forall k | 0 <= k < n :: rk[k] == ExpandedWord(kw, k)
  }

  /** Writes the first word of the next group: i counts the groups. */
  method NextCore(rk: array<word>, nk: nat, p: nat, i: nat, ghost kw: seq<word>)
    requires |kw| == nk && KeyLength(nk) && p == nk * i && i < 10
    requires p + nk < rk.Length && Expanded(rk, kw, p + nk)
    modifies rk
    ensures Expanded(rk, kw, p + nk + 1)
  {
    hide CoreWord, ExpandedWord;
    assert p / nk == i && p % nk == 0;
    CoreWordIs(kw, p);
    var temp := rk[p + nk - 1];
    rk[p + nk] := CoreWord(rk[p], temp, RCON[i]);
  }

  /** Writes a word that is the one a key length back plus the one before. */
  method NextPlain(rk: array<word>, nk: nat, q: nat, ghost kw: seq<word>)
    requires |kw| == nk && KeyLength(nk) && nk <= q < rk.Length && Expanded(rk, kw, q)
    requires q % nk != 0 && (nk == 8 ==> q % nk != 4)
    modifies rk
    ensures Expanded(rk, kw, q + 1)
  {
    hide WXor, SubWord, RotWord, Rcon;
    rk[q] := WXor(rk[q - nk], rk[q - 1]);
  }

  lemma MiddleWordIs(kw: seq<word>, q: nat)
    requires |kw| == 8 && 8 <= q && q % 8 == 4
    ensures var t := ExpandedWord(kw, q - 1);
            ExpandedWord(kw, q) == WXor(ExpandedWord(kw, q - 8), SubColumn(t, t, t, t))
  {
    hide WXor, SubColumn, SubWord, RotWord, Rcon, Word, B0, B1, B2, B3;
    var t := ExpandedWord(kw, q - 1);
    SubColumnIs(t, t, t, t);
    WordOfBytes(t);
  }

  /** With 256-bit keys, every fourth word in between is substituted without rotation. */
  method NextMiddle(rk: array<word>, q: nat, ghost kw: seq<word>)
    requires |kw| == 8 && 8 <= q < rk.Length && q % 8 == 4 && Expanded(rk, kw, q)
    modifies rk
    ensures Expanded(rk, kw, q + 1)
  {
    hide WXor, SubColumn, ExpandedWord;
    MiddleWordIs(kw, q);
    var temp := rk[q - 1];
    rk[q] := WXor(rk[q - 8], SubColumn(temp, temp, temp, temp));
  }

  /** A new key's first word and the three behind it. */
  method NextGroup(rk: array<word>, nk: nat, p: nat, i: nat, ghost kw: seq<word>)
    requires |kw| == nk && KeyLength(nk) && p == nk * i && i < 10
    requires (p + nk + 1) % nk == 1 && (p + nk + 2) % nk == 2 && (p + nk + 3) % nk == 3
    requires p + nk + 3 < rk.Length && Expanded(rk, kw, p + nk)
    modifies rk
    ensures Expanded(rk, kw, p + nk + 4)
  {
    hide ExpandedWord, Expanded;
    NextCore(rk, nk, p, i, kw);
    NextPlain(rk, nk, p + nk + 1, kw);
    NextPlain(rk, nk, p + nk + 2, kw);
    NextPlain(rk, nk, p + nk + 3, kw);
  }

  method Expand128(rk: array<word>, ghost kw: seq<word>)
    requires rk.Length == 60 && |kw| == 4 && Expanded(rk, kw, 4)
    modifies rk
    ensures Expanded(rk, kw, 44)
  {
    var i, p := 0, 0;
    while true
      invariant 0 <= i < 10 && p == 4 * i
      invariant Expanded(rk, kw, p + 4)
      decreases 10 - i
    {
      hide ExpandedWord, Expanded;
      NextGroup(rk, 4, p, i, kw);
      i := i + 1;
      if i == 10 {
        return;
      }
      p := p + 4;
    }
  }

  method Expand192(rk: array<word>, ghost kw: seq<word>)
    requires rk.Length == 60 && |kw| == 6 && Expanded(rk, kw, 6)
    modifies rk
    ensures Expanded(rk, kw, 52)
  {
    var i, p := 0, 0;
    while true
      invariant 0 <= i < 8 && p == 6 * i
      invariant Expanded(rk, kw, p + 6)
      decreases 8 - i
    {
      hide ExpandedWord, Expanded;
      NextGroup(rk, 6, p, i, kw);
      i := i + 1;
      if i == 8 {
        return;
      }
      NextPlain(rk, 6, p + 10, kw);
      NextPlain(rk, 6, p + 11, kw);
      p := p + 6;
    }
  }

  method Expand256(rk: array<word>, ghost kw: seq<word>)
    requires rk.Length == 60 && |kw| == 8 && Expanded(rk, kw, 8)
    modifies rk
    ensures Expanded(rk, kw, 60)
  {
    var i, p := 0, 0;
    while true
      invariant 0 <= i < 7 && p == 8 * i
      invariant Expanded(rk, kw, p + 8)
      decreases 7 - i
    {
      hide ExpandedWord, Expanded;
      NextGroup(rk, 8, p, i, kw);
      i := i + 1;
      if i == 7 {
        return;
      }
      NextMiddle(rk, p + 12, kw);
      NextPlain(rk, 8, p + 13, kw);
      NextPlain(rk, 8, p + 14, kw);
      NextPlain(rk, 8, p + 15, kw);
      p := p + 8;
    }
  }

  /** AES_set_encrypt_key: -1 for a null pointer, -2 for a bad key size, else the schedule of the key. */
  method AES_set_encrypt_key(userKey: array?<byte>, at: nat, bits: int, key: AesKey?) returns (status: int)
    requires userKey != null && (bits == 128 || bits == 192 || bits == 256) ==> at + bits / 8 <= userKey.Length
    requires key != null ==> key.rd_key.Length == 60
    modifies key, if key == null then {} else {key.rd_key}
    ensures status == if userKey == null || key == null then -1
                      else if bits != 128 && bits != 192 && bits != 256 then -2 else 0
    ensures status != 0 && key != null ==> unchanged(key) && unchanged(key.rd_key)
    ensures status == 0 ==> key.EncryptsUnder(userKey[at..at + bits / 8])
  {
    hide WordAt, ExpandedWord;
    if userKey == null || key == null {
      return -1;
    }
    if bits != 128 && bits != 192 && bits != 256 {
      return -2;
    }
    ghost var k := userKey[at..at + bits / 8];
    ghost var kw := KeyWords(k);
    key.rounds := if bits == 128 then 10 else if bits == 192 then 12 else 14;
    LoadKey(userKey, at, bits / 32, key.rd_key);
    assert Expanded(key.rd_key, kw, bits / 32);
    if bits == 128 {
      Expand128(key.rd_key, kw);
    } else if bits == 192 {
      Expand192(key.rd_key, kw);
    } else {
      Expand256(key.rd_key, kw);
    }
    assert key.Words() == KeyExpansion(kw);
    return 0;
  }

  lemma LoadedWord(k: seq<byte>, i: nat)
    requires UserKey(k) && 4 * i < |k|
    ensures ExpandedWord(KeyWords(k), i) == Word(k[4 * i], k[4 * i + 1], k[4 * i + 2], k[4 * i + 3])
  {
    hide Word;
    assert ExpandedWord(KeyWords(k), i) == KeyWords(k)[i];
  }

  /** GETU32 of each word of the key. */
  method LoadKey(userKey: array<byte>, at: nat, nk: nat, rk: array<word>)
    requires KeyLength(nk) && at + 4 * nk <= userKey.Length && rk.Length == 60
    modifies rk
    ensures Expanded(rk, KeyWords(userKey[at..at + 4 * nk]), nk)
  {
    hide Word, ExpandedWord, KeyWords;
    ghost var k := userKey[at..at + 4 * nk];
    ghost var kw := KeyWords(k);
    for i := 0 to nk
      invariant Expanded(rk, kw, i)
    {
      LoadedWord(k, i);
      rk[i] := Word(userKey[at + 4 * i], userKey[at + 4 * i + 1], userKey[at + 4 * i + 2], userKey[at + 4 * i + 3]);
    }
  }

  // ----- The decryption schedule, made in place

  /** Where a word comes from when the round keys at i and j are exchanged. */
  function Exchanged(i: nat, j: nat, k: nat): int {
    if i <= k < i + 4 then k - i + j else if j <= k < j + 4 then k - j + i else k
  }

  function WordsSwapped(w: seq<word>, i: nat, j: nat): (r: seq<word>)
    requires i < j < |w|
    ensures |r| == |w|
  {
    w[i := w[j]][j := w[i]]
  }

  method SwapWords(rk: array<word>, i: nat, j: nat)
    requires i < j < rk.Length
    modifies rk
    ensures rk[..] == WordsSwapped(old(rk[..]), i, j)
  {
    var temp := rk[i];
    rk[i] := rk[j];
    rk[j] := temp;
  }

  method SwapRoundKeys(rk: array<word>, i: nat, j: nat)
    requires i + 4 <= j && j + 4 <= rk.Length
    modifies rk
    ensures forall k | 0 <= k < rk.Length :: rk[..][k] == old(rk[..])[Exchanged(i, j, k)]
  {
    hide Exchanged, WordsSwapped;
    FourSwaps(rk[..], i, j);
    SwapWords(rk, i, j);
    SwapWords(rk, i + 1, j + 1);
    SwapWords(rk, i + 2, j + 2);
    SwapWords(rk, i + 3, j + 3);
  }

  lemma FourSwaps(w: seq<word>, i: nat, j: nat)
    requires i + 4 <= j && j + 4 <= |w|
    ensures var two := WordsSwapped(WordsSwapped(w, i, j), i + 1, j + 1);
            var r := WordsSwapped(WordsSwapped(two, i + 2, j + 2), i + 3, j + 3);
            forall k | 0 <= k < |w| :: r[k] == w[Exchanged(i, j, k)]
  {
  }

  /** Every round key is at its mirror place, except those strictly between the exchanged ends. */
  ghost predicate PartlyReversed(v: seq<word>, w: seq<word>, rounds: nat, a: nat)
    requires |v| == |w| == 60 && rounds <= 14
  {
    forall r: nat | r <= rounds :: RoundKey(v, r) == RoundKey(w, if a <= r <= rounds - a then r else rounds - r)
  }

  lemma NotReversed(w: seq<word>, rounds: nat)
    requires |w| == 60 && rounds <= 14
    ensures PartlyReversed(w, w, rounds, 0)
  {
    hide RoundKey;
  }

  lemma ReversalStep(v: seq<word>, v': seq<word>, w: seq<word>, rounds: nat, a: nat)
    requires |v| == |v'| == |w| == 60 && rounds <= 14 && 2 * a < rounds
    requires PartlyReversed(v, w, rounds, a)
    requires forall k | 0 <= k < 60 :: v'[k] == v[Exchanged(4 * a, 4 * (rounds - a), k)]
    ensures PartlyReversed(v', w, rounds, a + 1)
  {
    hide RoundKey, Exchanged;
    forall r: nat | r <= rounds
      ensures RoundKey(v', r) == RoundKey(w, if a + 1 <= r <= rounds - (a + 1) then r else rounds - r)
    {
      RoundKeyMoves(v, v', a, rounds - a, r);
    }
  }

  lemma RoundKeyMoves(v: seq<word>, v': seq<word>, a: nat, b: nat, r: nat)
    requires |v| == |v'| == 60 && a < b <= 14 && r <= 14
    requires forall k | 0 <= k < 60 :: v'[k] == v[Exchanged(4 * a, 4 * b, k)]
    ensures RoundKey(v', r) == RoundKey(v, if r == a then b else if r == b then a else r)
  {
    var s := if r == a then b else if r == b then a else r;
    WordMoves(a, b, r, 0);
    WordMoves(a, b, r, 1);
    WordMoves(a, b, r, 2);
    WordMoves(a, b, r, 3);
    hide Exchanged;
    assert v'[4 * r] == v[4 * s] && v'[4 * r + 1] == v[4 * s + 1];
    assert v'[4 * r + 2] == v[4 * s + 2] && v'[4 * r + 3] == v[4 * s + 3];
  }

  lemma WordMoves(a: nat, b: nat, r: nat, c: nat)
    requires a < b && c < 4
    ensures Exchanged(4 * a, 4 * b, 4 * r + c) == 4 * (if r == a then b else if r == b then a else r) + c
  {
  }

  lemma FullyReversed(v: seq<word>, w: seq<word>, rounds: nat, a: nat)
    requires |v| == |w| == 60 && rounds <= 14 && rounds <= 2 * a
    requires PartlyReversed(v, w, rounds, a)
    ensures forall r: nat | r <= rounds :: RoundKey(v, r) == RoundKey(w, rounds - r)
  {
    hide RoundKey;
  }

  method ReverseRoundKeys(rk: array<word>, rounds: nat)
    requires rk.Length == 60 && rounds <= 14
    modifies rk
    ensures forall r: nat | r <= rounds :: RoundKey(rk[..], r) == RoundKey(old(rk[..]), rounds - r)
  {
    hide RoundKey, PartlyReversed;
    ghost var w := rk[..];
    ghost var a := 0;
    var i, j := 0, 4 * rounds;
    NotReversed(w, rounds);
    while i < j
      invariant i == 4 * a && j == 4 * (rounds - a) && 2 * a <= rounds + 1
      invariant PartlyReversed(rk[..], w, rounds, a)
    {
      ghost var v := rk[..];
      SwapRoundKeys(rk, i, j);
      ReversalStep(v, rk[..], w, rounds, a);
      i, j, a := i + 4, j - 4, a + 1;
    }
    FullyReversed(rk[..], w, rounds, a);
  }

  method InvMixRoundKey(rk: array<word>, r: nat)
    requires rk.Length == 60 && r < 15
    modifies rk
    ensures RoundKey(rk[..], r) == InvMixColumns(RoundKey(old(rk[..]), r))
    ensures forall q: nat | q < 15 && q != r :: RoundKey(rk[..], q) == RoundKey(old(rk[..]), q)
  {
    hide InvMixByTables, InvMixWord, RoundKey;
    ghost var w := rk[..];
    InvMixByTablesIs(rk[4 * r]);
    InvMixByTablesIs(rk[4 * r + 1]);
    InvMixByTablesIs(rk[4 * r + 2]);
    InvMixByTablesIs(rk[4 * r + 3]);
    rk[4 * r] := InvMixByTables(rk[4 * r]);
    rk[4 * r + 1] := InvMixByTables(rk[4 * r + 1]);
    rk[4 * r + 2] := InvMixByTables(rk[4 * r + 2]);
    rk[4 * r + 3] := InvMixByTables(rk[4 * r + 3]);
    RoundKeyReplaced(w, rk[..], r);
  }

  lemma RoundKeyReplaced(w: seq<word>, v: seq<word>, r: nat)
    requires |w| == |v| == 60 && r < 15
    requires v[4 * r] == InvMixWord(w[4 * r]) && v[4 * r + 1] == InvMixWord(w[4 * r + 1])
    requires v[4 * r + 2] == InvMixWord(w[4 * r + 2]) && v[4 * r + 3] == InvMixWord(w[4 * r + 3])
    requires forall k | 0 <= k < 60 && !(4 * r <= k < 4 * r + 4) :: v[k] == w[k]
    ensures RoundKey(v, r) == InvMixColumns(RoundKey(w, r))
    ensures forall q: nat | q < 15 && q != r :: RoundKey(v, q) == RoundKey(w, q)
  {
    hide InvMixWord;
  }

  method InvMixInnerKeys(rk: array<word>, rounds: nat)
    requires rk.Length == 60 && rounds <= 14
    modifies rk
    ensures forall r: nat | r <= rounds :: RoundKey(rk[..], r)
              == if 0 < r < rounds then InvMixColumns(RoundKey(old(rk[..]), r)) else RoundKey(old(rk[..]), r)
  {
    ghost var w := rk[..];
    var i := 1;
    while i < rounds
      invariant 1 <= i && (i <= rounds || i == 1)
      invariant forall r: nat | r < 15 :: RoundKey(rk[..], r)
                  == if 0 < r < i then InvMixColumns(RoundKey(w, r)) else RoundKey(w, r)
    {
      hide RoundKey, InvMixColumns;
      InvMixRoundKey(rk, i);
      i := i + 1;
    }
  }

  lemma SameRoundKeys(v: seq<word>, w: seq<word>, nr: nat)
    requires Schedule(v, nr) && Schedule(w, nr)
    requires forall r: nat | r <= nr :: RoundKey(v, r) == RoundKey(w, r)
    ensures v == w
  {
    forall k: nat | k < |v|
      ensures v[k] == w[k]
    {
      assert RoundKey(v, k / 4) == RoundKey(w, k / 4);
    }
  }

  lemma RoundKeyOfPrefix(v: seq<word>, n: nat, r: nat)
    requires 4 * r + 4 <= n <= |v|
    ensures RoundKey(v[..n], r) == RoundKey(v, r)
  {
  }

  /** AES_set_decrypt_key: the encryption schedule, turned round and inverse-mixed in place. */
  method AES_set_decrypt_key(userKey: array?<byte>, at: nat, bits: int, key: AesKey?) returns (status: int)
    requires userKey != null && (bits == 128 || bits == 192 || bits == 256) ==> at + bits / 8 <= userKey.Length
    requires key != null ==> key.rd_key.Length == 60
    modifies key, if key == null then {} else {key.rd_key}
    ensures status == if userKey == null || key == null then -1
                      else if bits != 128 && bits != 192 && bits != 256 then -2 else 0
    ensures status != 0 && key != null ==> unchanged(key) && unchanged(key.rd_key)
    ensures status == 0 ==> key.DecryptsUnder(userKey[at..at + bits / 8])
  {
    hide InverseSchedule, InvMixColumns, RoundKey, KeyExpansion, KeyWords;
    status := AES_set_encrypt_key(userKey, at, bits, key);
    if status < 0 {
      return status;
    }
    ghost var nr, full := key.rounds, key.rd_key[..];
    ReverseRoundKeys(key.rd_key, key.rounds);
    ghost var turned := key.rd_key[..];
    InvMixInnerKeys(key.rd_key, key.rounds);
    ScheduleIsInverse(full, turned, key.rd_key[..], nr);
    return 0;
  }

  lemma ScheduleIsInverse(full: seq<word>, turned: seq<word>, mixed: seq<word>, nr: nat)
    requires |full| == |turned| == |mixed| == 60 && 0 < nr <= 14
    requires forall r: nat | r <= nr :: RoundKey(turned, r) == RoundKey(full, nr - r)
    requires forall r: nat | r <= nr :: RoundKey(mixed, r)
               == if 0 < r < nr then InvMixColumns(RoundKey(turned, r)) else RoundKey(turned, r)
    ensures mixed[..4 * (nr + 1)] == InverseSchedule(full[..4 * (nr + 1)], nr)
  {
    hide RoundKey, InvMixColumns, InverseSchedule;
    var w, dw := full[..4 * (nr + 1)], mixed[..4 * (nr + 1)];
    forall r: nat | r <= nr
      ensures RoundKey(dw, r) == RoundKey(InverseSchedule(w, nr), r)
    {
      InverseRoundKey(w, nr, r);
      RoundKeyOfPrefix(mixed, 4 * (nr + 1), r);
      RoundKeyOfPrefix(full, 4 * (nr + 1), nr - r);
    }
    SameRoundKeys(dw, InverseSchedule(w, nr), nr);
  }

  // ----- Enciphering and deciphering a block

  lemma SubWordOfMixedBytes(s0: word, s1: word, s2: word, s3: word)
    ensures SubWord(Word(B0(s0), B1(s1), B2(s2), B3(s3)))
         == Word(B0(SubWord(s0)), B1(SubWord(s1)), B2(SubWord(s2)), B3(SubWord(s3)))
  {
    hide SBox, Word, B0, B1, B2, B3;
    BytesOfWord(B0(s0), B1(s1), B2(s2), B3(s3));
    BytesOfWord(SBox(B0(s0)), SBox(B1(s0)), SBox(B2(s0)), SBox(B3(s0)));
    BytesOfWord(SBox(B0(s1)), SBox(B1(s1)), SBox(B2(s1)), SBox(B3(s1)));
    BytesOfWord(SBox(B0(s2)), SBox(B1(s2)), SBox(B2(s2)), SBox(B3(s2)));
    BytesOfWord(SBox(B0(s3)), SBox(B1(s3)), SBox(B2(s3)), SBox(B3(s3)));
  }

  lemma InvSubWordOfMixedBytes(s0: word, s1: word, s2: word, s3: word)
    ensures InvSubWord(Word(B0(s0), B1(s1), B2(s2), B3(s3)))
         == Word(B0(InvSubWord(s0)), B1(InvSubWord(s1)), B2(InvSubWord(s2)), B3(InvSubWord(s3)))
  {
    hide InvSBox, InvSubWord, Word, B0, B1, B2, B3;
    InvSubOfColumn(B0(s0), B1(s1), B2(s2), B3(s3));
    BytesOfInvSub(s0);
    BytesOfInvSub(s1);
    BytesOfInvSub(s2);
    BytesOfInvSub(s3);
  }

  lemma RoundByTables(s: State, k: State)
    ensures Round(s, k) == State(EncColumn(s.c0, s.c1, s.c2, s.c3, k.c0), EncColumn(s.c1, s.c2, s.c3, s.c0, k.c1),
                                 EncColumn(s.c2, s.c3, s.c0, s.c1, k.c2), EncColumn(s.c3, s.c0, s.c1, s.c2, k.c3))
  {
    hide EncColumn, SubWord, MixWord, WXor, Word, B0, B1, B2, B3;
    SubWordOfMixedBytes(s.c0, s.c1, s.c2, s.c3);
    SubWordOfMixedBytes(s.c1, s.c2, s.c3, s.c0);
    SubWordOfMixedBytes(s.c2, s.c3, s.c0, s.c1);
    SubWordOfMixedBytes(s.c3, s.c0, s.c1, s.c2);
    EncColumnIs(s.c0, s.c1, s.c2, s.c3, k.c0);
    EncColumnIs(s.c1, s.c2, s.c3, s.c0, k.c1);
    EncColumnIs(s.c2, s.c3, s.c0, s.c1, k.c2);
    EncColumnIs(s.c3, s.c0, s.c1, s.c2, k.c3);
  }

  lemma FinalRoundByTables(s: State, k: State)
    ensures FinalRound(s, k) == State(WXor(SubColumn(s.c0, s.c1, s.c2, s.c3), k.c0),
                                      WXor(SubColumn(s.c1, s.c2, s.c3, s.c0), k.c1),
                                      WXor(SubColumn(s.c2, s.c3, s.c0, s.c1), k.c2),
                                      WXor(SubColumn(s.c3, s.c0, s.c1, s.c2), k.c3))
  {
    hide SubColumn, SubWord, WXor, Word, B0, B1, B2, B3;
    SubWordOfMixedBytes(s.c0, s.c1, s.c2, s.c3);
    SubWordOfMixedBytes(s.c1, s.c2, s.c3, s.c0);
    SubWordOfMixedBytes(s.c2, s.c3, s.c0, s.c1);
    SubWordOfMixedBytes(s.c3, s.c0, s.c1, s.c2);
    SubColumnIs(s.c0, s.c1, s.c2, s.c3);
    SubColumnIs(s.c1, s.c2, s.c3, s.c0);
    SubColumnIs(s.c2, s.c3, s.c0, s.c1);
    SubColumnIs(s.c3, s.c0, s.c1, s.c2);
  }

  lemma EqInvRoundByTables(s: State, k: State)
    ensures EqInvRound(s, k) == State(DecColumn(s.c0, s.c3, s.c2, s.c1, k.c0), DecColumn(s.c1, s.c0, s.c3, s.c2, k.c1),
                                      DecColumn(s.c2, s.c1, s.c0, s.c3, k.c2), DecColumn(s.c3, s.c2, s.c1, s.c0, k.c3))
  {
    hide DecColumn, InvSubWord, InvMixWord, WXor, Word, B0, B1, B2, B3;
    InvSubWordOfMixedBytes(s.c0, s.c3, s.c2, s.c1);
    InvSubWordOfMixedBytes(s.c1, s.c0, s.c3, s.c2);
    InvSubWordOfMixedBytes(s.c2, s.c1, s.c0, s.c3);
    InvSubWordOfMixedBytes(s.c3, s.c2, s.c1, s.c0);
    DecColumnIs(s.c0, s.c3, s.c2, s.c1, k.c0);
    DecColumnIs(s.c1, s.c0, s.c3, s.c2, k.c1);
    DecColumnIs(s.c2, s.c1, s.c0, s.c3, k.c2);
    DecColumnIs(s.c3, s.c2, s.c1, s.c0, k.c3);
  }

  lemma EqInvFinalRoundByTables(s: State, k: State)
    ensures EqInvFinalRound(s, k) == State(WXor(InvSubColumn(s.c0, s.c3, s.c2, s.c1), k.c0),
                                           WXor(InvSubColumn(s.c1, s.c0, s.c3, s.c2), k.c1),
                                           WXor(InvSubColumn(s.c2, s.c1, s.c0, s.c3), k.c2),
                                           WXor(InvSubColumn(s.c3, s.c2, s.c1, s.c0), k.c3))
  {
    hide InvSubColumn, InvSubWord, WXor, Word, B0, B1, B2, B3;
    InvSubWordOfMixedBytes(s.c0, s.c3, s.c2, s.c1);
    InvSubWordOfMixedBytes(s.c1, s.c0, s.c3, s.c2);
    InvSubWordOfMixedBytes(s.c2, s.c1, s.c0, s.c3);
    InvSubWordOfMixedBytes(s.c3, s.c2, s.c1, s.c0);
    InvSubColumnIs(s.c0, s.c3, s.c2, s.c1);
    InvSubColumnIs(s.c1, s.c0, s.c3, s.c2);
    InvSubColumnIs(s.c2, s.c1, s.c0, s.c3);
    InvSubColumnIs(s.c3, s.c2, s.c1, s.c0);
  }

  /** GETU32 of the block, with the first round key added. */
  method LoadBlock(input: array<byte>, i: nat, rk: array<word>) returns (s0: word, s1: word, s2: word, s3: word)
    requires i + 16 <= input.Length && rk.Length == 60
    ensures State(s0, s1, s2, s3) == AddRoundKey(BlockState(input[i..i + 16]), RoundKey(rk[..], 0))
  {
    hide Word, WXor;
    s0 := WXor(Word(input[i], input[i + 1], input[i + 2], input[i + 3]), rk[0]);
    s1 := WXor(Word(input[i + 4], input[i + 5], input[i + 6], input[i + 7]), rk[1]);
    s2 := WXor(Word(input[i + 8], input[i + 9], input[i + 10], input[i + 11]), rk[2]);
    s3 := WXor(Word(input[i + 12], input[i + 13], input[i + 14], input[i + 15]), rk[3]);
  }

  /** PUTU32 of the four words of the result. */
  method StoreBlock(out: array<byte>, o: nat, s0: word, s1: word, s2: word, s3: word)
    requires o + 16 <= out.Length
    modifies out
    ensures out[..] == Splice(old(out[..]), o, StateBlock(State(s0, s1, s2, s3)))
  {
    hide B0, B1, B2, B3, WordBytes, Splice;
    ghost var was := out[..];
    ghost var b0, b1, b2, b3 := WordBytes(s0), WordBytes(s1), WordBytes(s2), WordBytes(s3);
    PutU32(out, o, s0);
    PutU32(out, o + 4, s1);
    SpliceTwice(was, o, b0, b1);
    PutU32(out, o + 8, s2);
    SpliceTwice(was, o, b0 + b1, b2);
    PutU32(out, o + 12, s3);
    SpliceTwice(was, o, b0 + b1 + b2, b3);
  }

  /** One full round through the tables, with the round key at p. */
  method EncryptRound(rk: array<word>, p: nat, s0: word, s1: word, s2: word, s3: word)
    returns (t0: word, t1: word, t2: word, t3: word)
    requires p + 4 <= rk.Length && p % 4 == 0
    ensures State(t0, t1, t2, t3) == Round(State(s0, s1, s2, s3), RoundKey(rk[..], p / 4))
  {
    hide EncColumn, Round;
    RoundByTables(State(s0, s1, s2, s3), RoundKey(rk[..], p / 4));
    t0 := EncColumn(s0, s1, s2, s3, rk[p]);
    t1 := EncColumn(s1, s2, s3, s0, rk[p + 1]);
    t2 := EncColumn(s2, s3, s0, s1, rk[p + 2]);
    t3 := EncColumn(s3, s0, s1, s2, rk[p + 3]);
  }

  method DecryptRound(rk: array<word>, p: nat, s0: word, s1: word, s2: word, s3: word)
    returns (t0: word, t1: word, t2: word, t3: word)
    requires p + 4 <= rk.Length && p % 4 == 0
    ensures State(t0, t1, t2, t3) == EqInvRound(State(s0, s1, s2, s3), RoundKey(rk[..], p / 4))
  {
    hide DecColumn, EqInvRound;
    EqInvRoundByTables(State(s0, s1, s2, s3), RoundKey(rk[..], p / 4));
    t0 := DecColumn(s0, s3, s2, s1, rk[p]);
    t1 := DecColumn(s1, s0, s3, s2, rk[p + 1]);
    t2 := DecColumn(s2, s1, s0, s3, rk[p + 2]);
    t3 := DecColumn(s3, s2, s1, s0, rk[p + 3]);
  }

  lemma RoundsOfPrefix(rk: seq<word>, n: nat, s: State, r: nat)
    requires 4 * r + 4 <= n <= |rk|
    ensures Rounds(rk[..n], s, r) == Rounds(rk, s, r)
    ensures EqInvRounds(rk[..n], s, r) == EqInvRounds(rk, s, r)
  {
    hide RoundKey, AddRoundKey, Round, EqInvRound;
    RoundKeyOfPrefix(rk, n, r);
  }

  /** The Nr - 1 full rounds, two to an iteration; p ends at the last round key. */
  method EncryptRounds(rk: array<word>, rounds: nat, u0: word, u1: word, u2: word, u3: word, ghost b: State)
    returns (t0: word, t1: word, t2: word, t3: word, p: nat)
    requires rk.Length == 60 && rounds % 2 == 0 && 2 <= rounds <= 14
    requires State(u0, u1, u2, u3) == AddRoundKey(b, RoundKey(rk[..], 0))
    ensures p == 4 * rounds && State(t0, t1, t2, t3) == Rounds(rk[..], b, rounds - 1)
  {
    hide Round, RoundKey, AddRoundKey;
    var s0, s1, s2, s3 := u0, u1, u2, u3;
    var r := rounds / 2;
    p := 0;
    while true
      invariant 1 <= r && p == 8 * (rounds / 2 - r) && State(s0, s1, s2, s3) == Rounds(rk[..], b, p / 4)
      decreases r
    {
      t0, t1, t2, t3 := EncryptRound(rk, p + 4, s0, s1, s2, s3);
      p := p + 8;
      r := r - 1;
      if r == 0 {
        break;
      }
      s0, s1, s2, s3 := EncryptRound(rk, p, t0, t1, t2, t3);
    }
  }

  lemma EncryptPrefix(rk: seq<word>, nr: nat, b: State)
    requires 0 < nr && 4 * nr + 4 <= |rk|
    ensures FinalRound(Rounds(rk, b, nr - 1), RoundKey(rk, nr)) == Cipher(rk[..4 * nr + 4], nr, b)
  {
    hide FinalRound, Rounds, EqInvRounds, Round, EqInvRound, AddRoundKey, RoundKey;
    assert |rk[..4 * nr + 4]| == 4 * nr + 4;
    RoundsOfPrefix(rk, 4 * nr + 4, b, nr - 1);
    RoundKeyOfPrefix(rk, 4 * nr + 4, nr);
  }

  /** AES_encrypt: the block at input[i..] enciphered into out[o..]; the two may overlap. */
  method AES_encrypt(input: array<byte>, i: nat, out: array<byte>, o: nat, key: AesKey)
    requires i + 16 <= input.Length && o + 16 <= out.Length && key.Ready()
    modifies out
    ensures out[..] == Splice(old(out[..]), o, CipherBlock(key.Words(), key.rounds, old(input[i..i + 16])))
  {
    hide FinalRound, Rounds, Cipher, RoundKey, AddRoundKey, BlockState, StateBlock, Splice;
    ghost var b := BlockState(input[i..i + 16]);
    var s0, s1, s2, s3 := LoadBlock(input, i, key.rd_key);
    var t0, t1, t2, t3, p := EncryptRounds(key.rd_key, key.rounds, s0, s1, s2, s3, b);
    s0, s1, s2, s3 := EncryptLast(key.rd_key, p, t0, t1, t2, t3);
    EncryptPrefix(key.rd_key[..], key.rounds, b);
    StoreBlock(out, o, s0, s1, s2, s3);
  }

  method EncryptLast(rk: array<word>, p: nat, t0: word, t1: word, t2: word, t3: word)
    returns (s0: word, s1: word, s2: word, s3: word)
    requires p + 4 <= rk.Length && p % 4 == 0
    ensures State(s0, s1, s2, s3) == FinalRound(State(t0, t1, t2, t3), RoundKey(rk[..], p / 4))
  {
    hide SubColumn, FinalRound, WXor;
    FinalRoundByTables(State(t0, t1, t2, t3), RoundKey(rk[..], p / 4));
    s0 := WXor(SubColumn(t0, t1, t2, t3), rk[p]);
    s1 := WXor(SubColumn(t1, t2, t3, t0), rk[p + 1]);
    s2 := WXor(SubColumn(t2, t3, t0, t1), rk[p + 2]);
    s3 := WXor(SubColumn(t3, t0, t1, t2), rk[p + 3]);
  }

  method DecryptLast(rk: array<word>, p: nat, t0: word, t1: word, t2: word, t3: word)
    returns (s0: word, s1: word, s2: word, s3: word)
    requires p + 4 <= rk.Length && p % 4 == 0
    ensures State(s0, s1, s2, s3) == EqInvFinalRound(State(t0, t1, t2, t3), RoundKey(rk[..], p / 4))
  {
    hide InvSubColumn, EqInvFinalRound, WXor;
    EqInvFinalRoundByTables(State(t0, t1, t2, t3), RoundKey(rk[..], p / 4));
    s0 := WXor(InvSubColumn(t0, t3, t2, t1), rk[p]);
    s1 := WXor(InvSubColumn(t1, t0, t3, t2), rk[p + 1]);
    s2 := WXor(InvSubColumn(t2, t1, t0, t3), rk[p + 2]);
    s3 := WXor(InvSubColumn(t3, t2, t1, t0), rk[p + 3]);
  }

  /** The Nr - 1 full rounds, two to an iteration; p ends at the last round key. */
  method DecryptRounds(rk: array<word>, rounds: nat, u0: word, u1: word, u2: word, u3: word, ghost b: State)
    returns (t0: word, t1: word, t2: word, t3: word, p: nat)
    requires rk.Length == 60 && rounds % 2 == 0 && 2 <= rounds <= 14
    requires State(u0, u1, u2, u3) == AddRoundKey(b, RoundKey(rk[..], 0))
    ensures p == 4 * rounds && State(t0, t1, t2, t3) == EqInvRounds(rk[..], b, rounds - 1)
  {
    hide EqInvRound, RoundKey, AddRoundKey;
    var s0, s1, s2, s3 := u0, u1, u2, u3;
    var r := rounds / 2;
    p := 0;
    while true
      invariant 1 <= r && p == 8 * (rounds / 2 - r) && State(s0, s1, s2, s3) == EqInvRounds(rk[..], b, p / 4)
      decreases r
    {
      t0, t1, t2, t3 := DecryptRound(rk, p + 4, s0, s1, s2, s3);
      p := p + 8;
      r := r - 1;
      if r == 0 {
        break;
      }
      s0, s1, s2, s3 := DecryptRound(rk, p, t0, t1, t2, t3);
    }
  }

  lemma DecryptPrefix(rk: seq<word>, nr: nat, b: State)
    requires 0 < nr && 4 * nr + 4 <= |rk|
    ensures EqInvFinalRound(EqInvRounds(rk, b, nr - 1), RoundKey(rk, nr)) == EqInvCipher(rk[..4 * nr + 4], nr, b)
  {
    hide EqInvFinalRound, Rounds, EqInvRounds, Round, EqInvRound, AddRoundKey, RoundKey;
    assert |rk[..4 * nr + 4]| == 4 * nr + 4;
    RoundsOfPrefix(rk, 4 * nr + 4, b, nr - 1);
    RoundKeyOfPrefix(rk, 4 * nr + 4, nr);
  }

  /** AES_decrypt: the block at input[i..] deciphered into out[o..]; the two may overlap. */
  method AES_decrypt(input: array<byte>, i: nat, out: array<byte>, o: nat, key: AesKey)
    requires i + 16 <= input.Length && o + 16 <= out.Length && key.Ready()
    modifies out
    ensures out[..] == Splice(old(out[..]), o, EqInvCipherBlock(key.Words(), key.rounds, old(input[i..i + 16])))
  {
    hide EqInvFinalRound, EqInvRounds, EqInvCipher, RoundKey, AddRoundKey, BlockState, StateBlock, Splice;
    ghost var b := BlockState(input[i..i + 16]);
    var s0, s1, s2, s3 := LoadBlock(input, i, key.rd_key);
    var t0, t1, t2, t3, p := DecryptRounds(key.rd_key, key.rounds, s0, s1, s2, s3, b);
    s0, s1, s2, s3 := DecryptLast(key.rd_key, p, t0, t1, t2, t3);
    DecryptPrefix(key.rd_key[..], key.rounds, b);
    StoreBlock(out, o, s0, s1, s2, s3);
  }

  lemma EncipheredIsEncrypt(key: AesKey, k: seq<byte>, b: seq<byte>)
    requires key.EncryptsUnder(k) && Block(b)
    ensures CipherBlock(key.Words(), key.rounds, b) == Encrypt(k, b)
  {
    hide KeyExpansion, KeyWords, Cipher, BlockState, StateBlock;
  }

  lemma DecipheredIsDecrypt(key: AesKey, k: seq<byte>, b: seq<byte>)
    requires key.DecryptsUnder(k) && Block(b)
    ensures EqInvCipherBlock(key.Words(), key.rounds, b) == Decrypt(k, b)
  {
    hide KeyExpansion, KeyWords, EqInvCipher, InvCipher, InverseSchedule, BlockState, StateBlock;
    EqInvCipherIsInvCipher(KeyExpansion(KeyWords(k)), key.rounds, BlockState(b));
  }

  /** AES_encrypt under a key set up by AES_set_encrypt_key. */
  method EncryptUnder(input: array<byte>, i: nat, out: array<byte>, o: nat, key: AesKey, ghost k: seq<byte>)
    requires i + 16 <= input.Length && o + 16 <= out.Length && key.EncryptsUnder(k)
    modifies out
    ensures out[..] == Splice(old(out[..]), o, Encrypt(k, old(input[i..i + 16])))
  {
    hide KeyExpansion, KeyWords, CipherBlock, Encrypt, Splice;
    EncipheredIsEncrypt(key, k, input[i..i + 16]);
    AES_encrypt(input, i, out, o, key);
  }

  /** AES_decrypt under a key set up by AES_set_decrypt_key. */
  method DecryptUnder(input: array<byte>, i: nat, out: array<byte>, o: nat, key: AesKey, ghost k: seq<byte>)
    requires i + 16 <= input.Length && o + 16 <= out.Length && key.DecryptsUnder(k)
    modifies out
    ensures out[..] == Splice(old(out[..]), o, Decrypt(k, old(input[i..i + 16])))
  {
    hide KeyExpansion, KeyWords, EqInvCipherBlock, Decrypt, InverseSchedule, Splice;
    DecipheredIsDecrypt(key, k, input[i..i + 16]);
    AES_decrypt(input, i, out, o, key);
  }

  /** Setting up both schedules from one key, of any of the three sizes, and enciphering and then
      deciphering a block in place gives the block back. */
  method EncryptThenDecrypt(userKey: array<byte>, bits: int, buf: array<byte>)
    requires (bits == 128 || bits == 192 || bits == 256) && bits / 8 <= userKey.Length && 16 <= buf.Length
    requires buf != userKey
    modifies buf
    ensures buf[..] == old(buf[..])
  {
    hide AesKey.EncryptsUnder, AesKey.DecryptsUnder, Encrypt, Decrypt, Splice;
    ghost var k, b, was := userKey[0..bits / 8], buf[0..16], buf[..];
    var enc := new AesKey();
    var dec := new AesKey();
    var status := AES_set_encrypt_key(userKey, 0, bits, enc);
    status := AES_set_decrypt_key(userKey, 0, bits, dec);
    EncryptUnder(buf, 0, buf, 0, enc, k);
    SpliceRead(was, 0, Encrypt(k, b));
    assert buf[0..16] == buf[..][0..16];
    DecryptUnder(buf, 0, buf, 0, dec, k);
    DecryptOfEncrypt(k, b);
  }
}
