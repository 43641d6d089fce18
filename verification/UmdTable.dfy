/** The disc-key table that UM2 of modules/idsregeneration/main.c builds, enciphers and authenticates. */
module UmdTable {
  import opened Bytes
  import opened Fips197
  import opened AesCore
  import opened Cmac
  import opened Signcheck
  import opened KeyLookup
  import opened Words

  const TABLE_KEY: seq<byte> :=
    [0x9F, 0x46, 0xF9, 0xFC, 0xFA, 0xB2, 0xAD, 0x05, 0x69, 0xF6, 0x88, 0xD8, 0x79, 0x4B, 0x92, 0xBA]

  // ----- What the table is

  /** Slots come in groups of 20; slot 0 is a sentinel. */
  function Slots(n: nat): (r: nat)
    ensures n < r && r % 20 == 0 && r <= n + 20
  {
    (n + 20) / 20 * 20
  }

  const SENTINEL: UmdId := UmdId(0xFFFFFFFF, 0x80000001)

  /** The id in slot j: the sentinel, then the ids in order, then the first id again. */
  function SlotId(ids: seq<UmdId>, n: nat, j: nat): UmdId
    requires 0 < |ids| && n <= |ids|
  {
    if j == 0 then SENTINEL else if j <= n then ids[j - 1] else ids[0]
  }

  function Digit(x: u32, d: nat): byte requires 0 < d { (x as int / d % 256) as byte }

  function LittleEndian(x: u32): (r: seq<byte>)
    ensures |r| == 4
  {
    [Digit(x, 1), Digit(x, 0x100), Digit(x, 0x10000), Digit(x, 0x1000000)]
  }

  function IdBytes(id: UmdId): (r: seq<byte>)
    ensures |r| == 8
  {
    LittleEndian(id.t) + LittleEndian(id.m)
  }

  function IndexSlots(ids: seq<UmdId>, n: nat, j: nat): (r: seq<byte>)
    requires 0 < |ids| && n <= |ids|
    ensures |r| == 8 * j
  {
    if j == 0 then [] else IndexSlots(ids, n, j - 1) + IdBytes(SlotId(ids, n, j - 1))
  }

  /** The key data, and that every slot from 1 to j - 1 has a key in it. */
  datatype Lookup = Lookup(known: seq<seq<byte>>, table: seq<UmdKey>) {
    predicate Valid() { KeyData(known, table) }

    function Find(id: UmdId): (r: Option<seq<byte>>)
      requires Valid()
      ensures r.Some? ==> Block(r.value)
    {
      TreeThenTable(known, table, id.t, id.m);
      FoundKeyIsWhole(table, id);
      FindKey(known, table, id)
    }
  }

  ghost predicate AllFound(keys: Lookup, ids: seq<UmdId>, n: nat, j: nat)
    requires keys.Valid() && 0 < |ids| && n <= |ids|
  {
    forall i | 1 <= i < j :: keys.Find(SlotId(ids, n, i)).Some?
  }

  /** The key slots before encipherment: slot 0 is zero. */
  function RawKeys(keys: Lookup, ids: seq<UmdId>, n: nat, j: nat): (r: seq<byte>)
    requires keys.Valid() && 0 < |ids| && n <= |ids| && AllFound(keys, ids, n, j)
    ensures |r| == 16 * j
  {
    if j == 0 then [] else
      RawKeys(keys, ids, n, j - 1) + if j == 1 then Zeros(16) else keys.Find(SlotId(ids, n, j - 1)).value
  }

  /** The key slots with all but slot 0 enciphered under k. */
  function KeySlots(k: seq<byte>, raw: seq<byte>, j: nat): (r: seq<byte>)
    requires Block(k) && 16 * j <= |raw|
    ensures |r| == 16 * j
  {
    if j == 0 then [] else
      var b := raw[16 * j - 16..16 * j];
      KeySlots(k, raw, j - 1) + if j == 1 then b else Encrypt(k, b)
  }

  function Table(k: seq<byte>, keys: Lookup, ids: seq<UmdId>, n: nat): (r: seq<byte>)
    requires Block(k) && keys.Valid() && 0 < |ids| && n <= |ids| && AllFound(keys, ids, n, Slots(n))
    ensures |r| == 24 * Slots(n)
  {
    var cnt := Slots(n);
    IndexSlots(ids, n, cnt) + KeySlots(k, RawKeys(keys, ids, n, cnt), cnt)
  }

  // ----- What a reader of the table finds

  lemma {:induction false} IndexSlotAt(ids: seq<UmdId>, n: nat, cnt: nat, j: nat)
    requires 0 < |ids| && n <= |ids| && j < cnt
    ensures IndexSlots(ids, n, cnt)[8 * j..8 * j + 8] == IdBytes(SlotId(ids, n, j))
  {
    hide IdBytes;
    if j < cnt - 1 {
      IndexSlotAt(ids, n, cnt - 1, j);
      SliceOfPrefix(IndexSlots(ids, n, cnt - 1), IdBytes(SlotId(ids, n, cnt - 1)), 8 * j, 8);
    }
  }

  lemma {:induction false} RawKeyAt(keys: Lookup, ids: seq<UmdId>, n: nat, cnt: nat, j: nat)
    requires keys.Valid() && 0 < |ids| && n <= |ids| && AllFound(keys, ids, n, cnt) && j < cnt
    ensures RawKeys(keys, ids, n, cnt)[16 * j..16 * j + 16]
         == if j == 0 then Zeros(16) else keys.Find(SlotId(ids, n, j)).value
  {
    hide Lookup.Find;
    if j < cnt - 1 {
      RawKeyAt(keys, ids, n, cnt - 1, j);
      var last := keys.Find(SlotId(ids, n, cnt - 1)).value;
      SliceOfPrefix(RawKeys(keys, ids, n, cnt - 1), last, 16 * j, 16);
    }
  }

  lemma {:induction false} KeySlotAt(k: seq<byte>, raw: seq<byte>, cnt: nat, j: nat)
    requires Block(k) && 16 * cnt <= |raw| && j < cnt
    ensures KeySlots(k, raw, cnt)[16 * j..16 * j + 16]
         == if j == 0 then raw[..16] else Encrypt(k, raw[16 * j..16 * j + 16])
  {
    hide Encrypt;
    if j < cnt - 1 {
      KeySlotAt(k, raw, cnt - 1, j);
      var b := raw[16 * cnt - 16..16 * cnt];
      SliceOfPrefix(KeySlots(k, raw, cnt - 1), Encrypt(k, b), 16 * j, 16);
    }
  }

  /** Every slot of the finished table: the id in place, and behind the ids the key found for it,
      enciphered; deciphering gives the key back. */
  lemma TableSlot(k: seq<byte>, keys: Lookup, ids: seq<UmdId>, n: nat, j: nat)
    requires Block(k) && keys.Valid() && 0 < |ids| && n <= |ids| && AllFound(keys, ids, n, Slots(n)) && j < Slots(n)
    ensures var t, e := Table(k, keys, ids, n), 8 * Slots(n) + 16 * j;
            t[8 * j..8 * j + 8] == IdBytes(SlotId(ids, n, j))
            && (j == 0 ==> t[e..e + 16] == Zeros(16))
            && (j != 0 ==> t[e..e + 16] == Encrypt(k, keys.Find(SlotId(ids, n, j)).value)
                           && Decrypt(k, t[e..e + 16]) == keys.Find(SlotId(ids, n, j)).value)
  {
    hide IndexSlots, RawKeys, KeySlots, IdBytes, Encrypt, Decrypt, Lookup.Find, Slots;
    var cnt := Slots(n);
    var index, raw := IndexSlots(ids, n, cnt), RawKeys(keys, ids, n, cnt);
    var slots := KeySlots(k, raw, cnt);
    IndexSlotAt(ids, n, cnt, j);
    SliceOfPrefix(index, slots, 8 * j, 8);
    KeySlotAt(k, raw, cnt, j);
    RawKeyAt(keys, ids, n, cnt, j);
    SliceOfSuffix(index, slots, 16 * j, 16);
    if j != 0 {
      DecryptOfEncrypt(k, keys.Find(SlotId(ids, n, j)).value);
    }
  }

  // ----- UM2

  /** One slot: the id into the index, its key behind it. Slot j of cnt. */
  method FillSlot(keys: Lookup, id: UmdId, out: array<byte>, t: nat, cnt: nat, j: nat) returns (ret: int)
    requires keys.Valid() && j < cnt && t + 24 * cnt <= out.Length
    modifies out
    ensures ret == if keys.Find(id).Some? then 0 else -1
    ensures var s := Splice(old(out[..]), t + 8 * j, IdBytes(id));
            out[..] == if keys.Find(id).None? then s else Splice(s, t + 8 * cnt + 16 * j, keys.Find(id).value)
  {
    hide Splice, LittleEndian;
    ghost var was := out[..];
    PutBytes(out, t + 8 * j, LittleEndian(id.t));
    PutBytes(out, t + 8 * j + 4, LittleEndian(id.m));
    SpliceTwice(was, t + 8 * j, LittleEndian(id.t), LittleEndian(id.m));
    ret := GetUmdKey(keys.known, keys.table, id.t, id.m, out, t + 8 * cnt + 16 * j);
  }

  /** Both halves of the table filled up to slot j. */
  function Filled(was: seq<byte>, keys: Lookup, ids: seq<UmdId>, n: nat, t: nat, cnt: nat, j: nat): (r: seq<byte>)
    requires keys.Valid() && 0 < |ids| && n <= |ids| && AllFound(keys, ids, n, j) && j <= cnt
    requires t + 24 * cnt <= |was|
    ensures |r| == |was|
  {
    Splice(Splice(was, t, IndexSlots(ids, n, j)), t + 8 * cnt, RawKeys(keys, ids, n, j))
  }

  lemma FilledGrows(was: seq<byte>, keys: Lookup, ids: seq<UmdId>, n: nat, t: nat, cnt: nat, j: nat)
    requires keys.Valid() && 0 < |ids| && n <= |ids| && 1 <= j < cnt && AllFound(keys, ids, n, j + 1)
    requires t + 24 * cnt <= |was|
    ensures Filled(was, keys, ids, n, t, cnt, j + 1)
         == Splice(Splice(Filled(was, keys, ids, n, t, cnt, j), t + 8 * j, IdBytes(SlotId(ids, n, j))),
                   t + 8 * cnt + 16 * j, keys.Find(SlotId(ids, n, j)).value)
  {
    hide Splice, Lookup.Find, IdBytes;
    var index, raw, id := IndexSlots(ids, n, j), RawKeys(keys, ids, n, j), SlotId(ids, n, j);
    SpliceTwice(was, t, index, IdBytes(id));
    var s := Splice(was, t, index);
    SpliceSwap(s, t + 8 * j, IdBytes(id), t + 8 * cnt, raw);
    SpliceTwice(Splice(was, t, index + IdBytes(id)), t + 8 * cnt, raw, keys.Find(id).value);
  }

  /** The sentinel, and its zero key slot. */
  method FillSentinel(out: array<byte>, t: nat, cnt: nat, ghost keys: Lookup, ghost ids: seq<UmdId>, ghost n: nat)
    requires 1 <= cnt && t + 24 * cnt <= out.Length && keys.Valid() && 0 < |ids| && n <= |ids|
    modifies out
    ensures out[..] == Filled(old(out[..]), keys, ids, n, t, cnt, 1)
    ensures out[..t] == old(out[..t])
  {
    hide LittleEndian, Splice, IndexSlots, RawKeys, Lookup.Find;
    ghost var was := out[..];
    PutBytes(out, t, LittleEndian(SENTINEL.t));
    PutBytes(out, t + 4, LittleEndian(SENTINEL.m));
    SpliceTwice(was, t, LittleEndian(SENTINEL.t), LittleEndian(SENTINEL.m));
    KeptBefore(was, out[..], t, IdBytes(SENTINEL));
    ghost var s := out[..];
    Fill(out, t + 8 * cnt, 16, 0);
    KeptBefore(s, out[..], t + 8 * cnt, Zeros(16));
    assert out[..t] == out[..t + 8 * cnt][..t] == s[..t + 8 * cnt][..t];
    FirstSlots(keys, ids, n);
  }

  lemma FirstSlots(keys: Lookup, ids: seq<UmdId>, n: nat)
    requires keys.Valid() && 0 < |ids| && n <= |ids|
    ensures IndexSlots(ids, n, 1) == IdBytes(SENTINEL) && RawKeys(keys, ids, n, 1) == Zeros(16)
  {
    hide Lookup.Find, IdBytes;
    assert IndexSlots(ids, n, 0) == [] && RawKeys(keys, ids, n, 0) == [];
    assert [] + IdBytes(SENTINEL) == IdBytes(SENTINEL) && [] + Zeros(16) == Zeros(16);
  }

  /** Slot j with its id, on top of the slots before it. */
  method NextSlot(keys: Lookup, id: UmdId, out: array<byte>, t: nat, cnt: nat, j: nat,
                  ghost was: seq<byte>, ghost ids: seq<UmdId>, ghost n: nat) returns (ret: int)
    requires keys.Valid() && 0 < |ids| && n <= |ids| && 1 <= j < cnt && t + 24 * cnt <= |was| == out.Length
    requires AllFound(keys, ids, n, j) && out[..] == Filled(was, keys, ids, n, t, cnt, j) && id == SlotId(ids, n, j)
    modifies out
    ensures ret == if keys.Find(id).Some? then 0 else -1
    ensures ret == 0 <==> AllFound(keys, ids, n, j + 1)
    ensures ret == 0 ==> out[..] == Filled(was, keys, ids, n, t, cnt, j + 1)
    ensures out[..t] == old(out[..t])
  {
    hide Filled, Lookup.Find, IdBytes;
    ret := FillSlot(keys, id, out, t, cnt, j);
    if ret == 0 {
      FilledGrows(was, keys, ids, n, t, cnt, j);
    }
  }

  lemma FoundUpTo(keys: Lookup, ids: seq<UmdId>, n: nat, i: nat, j: nat)
    requires keys.Valid() && 0 < |ids| && n <= |ids| && i <= j && AllFound(keys, ids, n, j)
    ensures AllFound(keys, ids, n, i)
  {
    hide Lookup.Find, SlotId;
  }

  lemma NoneYet(keys: Lookup, ids: seq<UmdId>, n: nat)
    requires keys.Valid() && 0 < |ids| && n <= |ids|
    ensures AllFound(keys, ids, n, 1)
  {
  }

  /** A repeated first id is missing only when there was no first id among the n. */
  lemma FirstIdRepeats(keys: Lookup, ids: seq<UmdId>, n: nat, j: nat)
    requires keys.Valid() && 0 < |ids| && n <= |ids| && 1 <= n < j && AllFound(keys, ids, n, n + 1)
    ensures keys.Find(SlotId(ids, n, j)).Some?
  {
    hide Lookup.Find;
    assert SlotId(ids, n, 1) == SlotId(ids, n, j);
  }

  /** The two filling loops of UM2. They stop at the first id without a key: -2 if it is one of the n ids,
      -3 if it is the repeated first id, which only happens when n is 0. */
  method FillTable(keys: Lookup, ids: seq<UmdId>, n: nat, out: array<byte>, t: nat, cnt: nat) returns (ret: int)
    requires keys.Valid() && 0 < |ids| && n <= |ids| && n < cnt && t + 24 * cnt <= out.Length
    modifies out
    ensures ret == if !AllFound(keys, ids, n, n + 1) then -2 else if !AllFound(keys, ids, n, cnt) then -3 else 0
    ensures ret == -3 ==> n == 0
    ensures ret == 0 ==> out[..] == Filled(old(out[..]), keys, ids, n, t, cnt, cnt)
    ensures out[..t] == old(out[..t])
  {
    hide Filled, Lookup.Find, AllFound;
    ghost var was := out[..];
    FillSentinel(out, t, cnt, keys, ids, n);
    NoneYet(keys, ids, n);
    var i := 0;
    while i < n
      invariant 0 <= i <= n && AllFound(keys, ids, n, i + 1) && out[..t] == was[..t]
      invariant out[..] == Filled(was, keys, ids, n, t, cnt, i + 1)
    {
      ret := NextSlot(keys, ids[i], out, t, cnt, i + 1, was, ids, n);
      if ret < 0 {
        if AllFound(keys, ids, n, n + 1) {
          FoundUpTo(keys, ids, n, i + 2, n + 1);
        }
        return -2;
      }
      i := i + 1;
    }
    i := i + 1;
    ret := RepeatFirst(keys, ids, n, out, t, cnt, i, was);
  }

  method RepeatFirst(keys: Lookup, ids: seq<UmdId>, n: nat, out: array<byte>, t: nat, cnt: nat, i: nat,
                     ghost was: seq<byte>) returns (ret: int)
    requires keys.Valid() && 0 < |ids| && n <= |ids| && i == n + 1 <= cnt && t + 24 * cnt <= |was| == out.Length
    requires AllFound(keys, ids, n, i) && out[..] == Filled(was, keys, ids, n, t, cnt, i)
    modifies out
    ensures ret == if !AllFound(keys, ids, n, cnt) then -3 else 0
    ensures ret == -3 ==> n == 0
    ensures ret == 0 ==> out[..] == Filled(was, keys, ids, n, t, cnt, cnt)
    ensures out[..t] == old(out[..t])
  {
    hide Filled, Lookup.Find, AllFound;
    ghost var kept := out[..t];
    var j := i;
    while j < cnt
      invariant i <= j <= cnt && AllFound(keys, ids, n, j) && out[..t] == kept
      invariant out[..] == Filled(was, keys, ids, n, t, cnt, j)
    {
      if n != 0 {
        FirstIdRepeats(keys, ids, n, j);
      }
      ret := NextSlot(keys, ids[0], out, t, cnt, j, was, ids, n);
      if ret < 0 {
        if AllFound(keys, ids, n, cnt) {
          FoundUpTo(keys, ids, n, j + 1, cnt);
        }
        return -3;
      }
      j := j + 1;
    }
    ret := 0;
  }

  /** The key slots when the first i of them are done. */
  function PartlyEncrypted(k: seq<byte>, raw: seq<byte>, i: nat): (r: seq<byte>)
    requires Block(k) && 16 * i <= |raw|
    ensures |r| == |raw|
  {
    KeySlots(k, raw, i) + raw[16 * i..]
  }

  method EncryptSlot(out: array<byte>, e: nat, i: nat, ctx: AesKey, ghost k: seq<byte>, ghost raw: seq<byte>,
                     ghost was: seq<byte>)
    requires e + |raw| <= |was| == out.Length && Block(k) && ctx.EncryptsUnder(k) && 1 <= i && 16 * i + 16 <= |raw|
    requires out[..] == Splice(was, e, PartlyEncrypted(k, raw, i))
    modifies out
    ensures out[..] == Splice(was, e, PartlyEncrypted(k, raw, i + 1))
  {
    hide AesKey.EncryptsUnder, Splice, Encrypt, KeySlots;
    ghost var done, b := PartlyEncrypted(k, raw, i), raw[16 * i..16 * i + 16];
    SpliceRead(was, e, done);
    SliceOfSlice(out[..], e, |raw|, 16 * i, 16);
    assert done[16 * i..16 * i + 16] == b;
    assert out[e + 16 * i..e + 16 * i + 16] == out[..][e + 16 * i..e + 16 * i + 16];
    EncryptUnder(out, e + 16 * i, out, e + 16 * i, ctx, k);
    SpliceInside(was, e, done, 16 * i, Encrypt(k, b));
    NextKeySlot(k, raw, i);
  }

  lemma PartlyEncryptedEnds(k: seq<byte>, raw: seq<byte>)
    requires Block(k) && 16 <= |raw| && |raw| % 16 == 0
    ensures PartlyEncrypted(k, raw, 1) == raw
    ensures PartlyEncrypted(k, raw, |raw| / 16) == KeySlots(k, raw, |raw| / 16)
  {
    hide Encrypt;
    assert KeySlots(k, raw, 0) == [];
    assert KeySlots(k, raw, 1) == raw[0..16];
  }

  /** The encipherment of every key slot but the first, in place. */
  method EncryptSlots(out: array<byte>, e: nat, cnt: nat, ctx: AesKey, ghost k: seq<byte>, ghost raw: seq<byte>)
    requires 1 <= cnt && e + 16 * cnt <= out.Length && Block(k) && ctx.EncryptsUnder(k)
    requires |raw| == 16 * cnt && out[e..e + 16 * cnt] == raw
    modifies out
    ensures out[..] == Splice(old(out[..]), e, KeySlots(k, raw, cnt))
  {
    hide AesKey.EncryptsUnder, Splice, Encrypt, PartlyEncrypted, KeySlots;
    ghost var was := out[..];
    SpliceSame(was, e, raw);
    PartlyEncryptedEnds(k, raw);
    assert |raw| / 16 == cnt;
    for i := 1 to cnt
      invariant out[..] == Splice(was, e, PartlyEncrypted(k, raw, i))
    {
      EncryptSlot(out, e, i, ctx, k, raw, was);
    }
  }

  lemma NextKeySlot(k: seq<byte>, raw: seq<byte>, i: nat)
    requires Block(k) && 1 <= i && 16 * i + 16 <= |raw|
    ensures Splice(KeySlots(k, raw, i) + raw[16 * i..], 16 * i, Encrypt(k, raw[16 * i..16 * i + 16]))
         == KeySlots(k, raw, i + 1) + raw[16 * (i + 1)..]
  {
    hide Encrypt;
    assert 16 * (i + 1) - 16 == 16 * i && 16 * (i + 1) == 16 * i + 16;
    var x := Encrypt(k, raw[16 * i..16 * i + 16]);
    assert KeySlots(k, raw, i + 1) == KeySlots(k, raw, i) + x;
  }

  /** The filled index and key slots, as one piece. */
  lemma FilledIsOnePiece(was: seq<byte>, keys: Lookup, ids: seq<UmdId>, n: nat, t: nat, cnt: nat)
    requires keys.Valid() && 0 < |ids| && n <= |ids| && AllFound(keys, ids, n, cnt) && t + 24 * cnt <= |was|
    ensures Filled(was, keys, ids, n, t, cnt, cnt)
         == Splice(was, t, IndexSlots(ids, n, cnt) + RawKeys(keys, ids, n, cnt))
  {
    hide Splice, IndexSlots, RawKeys;
    SpliceTwice(was, t, IndexSlots(ids, n, cnt), RawKeys(keys, ids, n, cnt));
  }

  /** The filled table at t, its key slots enciphered under the key at kp of the same buffer. */
  method EncryptTable(out: array<byte>, kp: nat, t: nat, cnt: nat, ghost k: seq<byte>,
                      ghost index: seq<byte>, ghost raw: seq<byte>)
    requires 1 <= cnt && |index| == 8 * cnt && |raw| == 16 * cnt && t + 24 * cnt <= out.Length
    requires kp + 16 <= t && Block(k) && out[kp..kp + 16] == k && out[t..t + 24 * cnt] == index + raw
    modifies out
    ensures out[..] == Splice(old(out[..]), t, index + KeySlots(k, raw, cnt))
  {
    hide Splice, KeySlots;
    ghost var was, slots := out[..], KeySlots(k, raw, cnt);
    var ctx := new AesKey();
    var status := AES_set_encrypt_key(out, kp, 128, ctx);
    SliceOfSlice(out[..], t, 24 * cnt, 8 * cnt, 16 * cnt);
    assert (index + raw)[8 * cnt..8 * cnt + 16 * cnt] == raw;
    assert out[t + 8 * cnt..t + 8 * cnt + 16 * cnt] == out[..][t + 8 * cnt..t + 8 * cnt + 16 * cnt];
    SpliceSame(was, t, index + raw);
    SpliceTwice(was, t, index, raw);
    EncryptSlots(out, t + 8 * cnt, cnt, ctx, k, raw);
    SpliceAgain(Splice(was, t, index), t + 8 * cnt, raw, slots);
    SpliceTwice(was, t, index, slots);
  }

  /** Filling, then enciphering under the key k at position kp of the same buffer. */
  method MakeTable(keys: Lookup, ids: seq<UmdId>, n: nat, out: array<byte>, kp: nat, t: nat, ghost k: seq<byte>)
    returns (ret: int)
    requires keys.Valid() && 0 < |ids| && n <= |ids| && t + 24 * Slots(n) <= out.Length
    requires kp + 16 <= t && Block(k) && out[kp..kp + 16] == k
    modifies out
    ensures ret == if !AllFound(keys, ids, n, n + 1) then -2 else if !AllFound(keys, ids, n, Slots(n)) then -3 else 0
    ensures ret == -3 ==> n == 0
    ensures ret == 0 ==> out[..] == Splice(old(out[..]), t, Table(k, keys, ids, n))
    ensures out[..t] == old(out[..t])
  {
    hide Splice, AllFound, IndexSlots, RawKeys, KeySlots, Slots, Filled, Lookup.Find;
    ghost var was := out[..];
    var cnt := Slots(n);
    ret := FillTable(keys, ids, n, out, t, cnt);
    if ret < 0 {
      return ret;
    }
    ghost var index, raw := IndexSlots(ids, n, cnt), RawKeys(keys, ids, n, cnt);
    FilledIsOnePiece(was, keys, ids, n, t, cnt);
    SpliceElsewhere(was, t, index + raw, kp, kp + 16);
    SpliceRead(was, t, index + raw);
    assert out[kp..kp + 16] == out[..][kp..kp + 16] && out[t..t + 24 * cnt] == out[..][t..t + 24 * cnt];
    EncryptTable(out, kp, t, cnt, k, index, raw);
    SpliceAgain(was, t, index + raw, index + KeySlots(k, raw, cnt));
    KeptBefore(was, out[..], t, index + KeySlots(k, raw, cnt));
  }

  lemma KeptBefore<T>(s: seq<T>, r: seq<T>, at: nat, p: seq<T>)
    requires at + |p| <= |s| && r == Splice(s, at, p)
    ensures r[..at] == s[..at]
  {
  }

  // ----- The header, and the whole image

  function Head(predata: seq<byte>): (h: seq<byte>)
    requires 12 <= |predata|
    ensures Block(h)
  {
    predata[..12] + Zeros(4)
  }

  /** The key the key slots are enciphered under, and the key of the MAC. */
  function SlotKey(predata: seq<byte>): (k: seq<byte>)
    requires 12 <= |predata|
    ensures Block(k)
  {
    EncryptTimes(TABLE_KEY, Head(predata), 11)
  }

  function MacKey(predata: seq<byte>): (k: seq<byte>)
    requires 12 <= |predata|
    ensures Block(k)
  {
    DecryptTimes(TABLE_KEY, Head(predata), 11)
  }

  /** Both working keys, as they stand in the header's place. */
  function Working(predata: seq<byte>): (w: seq<byte>)
    requires 12 <= |predata|
    ensures |w| == 32
  {
    hide SlotKey, MacKey;
    SlotKey(predata) + MacKey(predata)
  }

  /** The device's key for the header. */
  function HeaderKey(fuse: seq<byte>): (k: seq<byte>)
    requires |fuse| == 8
    ensures Block(k)
  {
    hide EncryptTimes, DeviceKey;
    EncryptTimes(DeviceKey(fuse, 2), DeviceKey(fuse, 1), 3)
  }

  /** The two header blocks: the two keys, CBC-enciphered under the device's key. */
  function Header(fuse: seq<byte>, predata: seq<byte>): (h: seq<byte>)
    requires |fuse| == 8 && 12 <= |predata|
    ensures |h| == 32
  {
    hide HeaderKey, SlotKey, MacKey, Encrypt;
    var k := HeaderKey(fuse);
    var b1 := Encrypt(k, SlotKey(predata));
    b1 + Encrypt(k, XorSeq(MacKey(predata), b1))
  }

  /** The count field: six for every five slots. */
  function CountField(cnt: nat): (x: u32)
    requires cnt < 0x2000000
  {
    ((cnt / 5 * 2 + cnt / 5) * 2) as u32
  }

  /** A table with its MAC behind it. */
  function Sealed(k: seq<byte>, table: seq<byte>): (r: seq<byte>)
    requires Block(k)
    ensures |r| == |table| + 16 && r[..|table|] == table
  {
    hide Mac;
    table + Mac(k, table)
  }

  /** Everything UM2 writes: a count, the header, the table, and the MAC of exactly the table. */
  function Image(fuse: seq<byte>, predata: seq<byte>, keys: Lookup, ids: seq<UmdId>, n: nat): (r: seq<byte>)
    requires |fuse| == 8 && 12 <= |predata| && keys.Valid() && 0 < |ids| && n <= |ids|
    requires n < 0x1000000 && AllFound(keys, ids, n, Slots(n))
    ensures |r| == 24 * Slots(n) + 0x34
  {
    hide Header, SlotKey, MacKey, Table, Sealed, CountField, Slots, AllFound, Lookup.Find, LittleEndian;
    LittleEndian(CountField(Slots(n))) + Header(fuse, predata)
    + Sealed(MacKey(predata), Table(SlotKey(predata), keys, ids, n))
  }

  /** The two working keys into the header's place: one block enciphered, one deciphered, eleven times. */
  method MakeWorkingKeys(predata: array<byte>, out: array<byte>, h: nat)
    requires 12 <= predata.Length && h + 32 <= out.Length && predata != out
    modifies out
    ensures out[..] == Splice(old(out[..]), h, Working(predata[..]))
  {
    hide AesKey.EncryptsUnder, AesKey.DecryptsUnder, Encrypt, Decrypt, EncryptTimes, DecryptTimes, Splice;
    ghost var was, p := out[..], predata[..];
    ghost var head := Head(p);
    var ctx1, ctx2 := Schedules(TABLE_KEY);
    Copy(predata, 0, out, h, 12);
    Fill(out, h + 12, 4, 0);
    assert predata[0..12] == p[..12];
    SpliceTwice(was, h, p[..12], Zeros(4));
    SpliceRead(was, h, head);
    assert out[h..h + 16] == out[..][h..h + 16] == head;
    PutBytes(out, h + 16, out[h..h + 16]);
    SpliceSwap(was, h, head, h + 16, head);
    SpliceRead(Splice(was, h + 16, head), h, head);
    assert out[h..h + 16] == out[..][h..h + 16] == head;
    EncryptMany(out, h, ctx1, TABLE_KEY, 11);
    SpliceAgain(Splice(was, h + 16, head), h, head, SlotKey(p));
    SpliceSwap(was, h, SlotKey(p), h + 16, head);
    SpliceRead(Splice(was, h, SlotKey(p)), h + 16, head);
    assert out[h + 16..h + 32] == out[..][h + 16..h + 32] == head;
    DecryptMany(out, h + 16, ctx2, TABLE_KEY, 11);
    SpliceAgain(Splice(was, h, SlotKey(p)), h + 16, head, MacKey(p));
    SpliceTwice(was, h, SlotKey(p), MacKey(p));
  }

  /** The second and third device keys, from a fresh signature check. */
  method MakeDeviceKeys(buf1: array<byte>) returns (tmp: array<byte>)
    requires buf1.Length == 8
    ensures fresh(tmp) && tmp.Length == 64
    ensures tmp[0x10..0x20] == DeviceKey(buf1[..], 1) && tmp[0x20..0x30] == DeviceKey(buf1[..], 2)
  {
    hide DeviceKey, DeviceKeys, SigncheckBytes, Splice;
    ghost var fuse := buf1[..];
    tmp := new byte[64];
    GenerateSigncheck(buf1, [0, 0, 0, 0], tmp);
    ghost var s := tmp[..];
    SigncheckParts(fuse, [0, 0, 0, 0], 1);
    SigncheckParts(fuse, [0, 0, 0, 0], 2);
    assert s[16..32] == DeviceKey(fuse, 1) && s[32..48] == DeviceKey(fuse, 2);
    assert tmp[0x10..0x20] == s[16..32] && tmp[0x20..0x30] == s[32..48];
  }

  /** The device's header key. */
  method MakeHeaderKey(buf1: array<byte>) returns (ctx: AesKey)
    requires buf1.Length == 8
    ensures fresh(ctx) && ctx.EncryptsUnder(HeaderKey(buf1[..]))
  {
    hide AesKey.EncryptsUnder, Encrypt, EncryptTimes, DecryptTimes, DeviceKey, DeviceKeys, Splice;
    ghost var fuse := buf1[..];
    var tmp := MakeDeviceKeys(buf1);
    ctx := new AesKey();
    assert tmp[0x20..0x20 + 16] == DeviceKey(fuse, 2);
    var status := AES_set_encrypt_key(tmp, 0x20, 128, ctx);
    ghost var was := tmp[..];
    assert was[0x10..0x10 + 16] == tmp[0x10..0x20];
    EncryptMany(tmp, 0x10, ctx, DeviceKey(fuse, 2), 3);
    SpliceRead(was, 0x10, HeaderKey(fuse));
    assert tmp[0x10..0x10 + 16] == tmp[..][16..32];
    status := AES_set_encrypt_key(tmp, 0x10, 128, ctx);
  }

  /** The header's last step: both working keys sealed under the header key, the second chained to the
      first. */
  method SealHeader(ctx: AesKey, ghost k: seq<byte>, ghost b1: seq<byte>, ghost b2: seq<byte>, out: array<byte>, h: nat)
    requires Block(k) && Block(b1) && Block(b2) && ctx.EncryptsUnder(k) && h + 32 <= out.Length
    requires out[h..h + 32] == b1 + b2
    modifies out
    ensures out[..] == Splice(old(out[..]), h, Encrypt(k, b1) + Encrypt(k, XorSeq(b2, Encrypt(k, b1))))
  {
    hide AesKey.EncryptsUnder, Encrypt, XorSeq, Splice;
    ghost var was, e1 := out[..], Encrypt(k, b1);
    SpliceSame(was, h, b1 + b2);
    SliceOfSlice(was, h, 32, 0, 16);
    assert out[h..h + 16] == was[h..h + 16] == b1;
    EncryptUnder(out, h, out, h, ctx, k);
    ghost var s := Splice(was, h, e1);
    SpliceElsewhere(was, h, e1, h + 16, h + 32);
    SpliceRead(was, h, e1);
    SliceOfSlice(was, h, 32, 16, 16);
    assert out[h + 16..h + 32] == out[..][h + 16..h + 32] == b2;
    assert out[h..h + 16] == out[..][h..h + 16] == e1;
    XorInto(out, h + 16, out, h);
    ghost var x := XorSeq(b2, e1);
    SpliceRead(s, h + 16, x);
    assert out[h + 16..h + 32] == out[..][h + 16..h + 32];
    EncryptUnder(out, h + 16, out, h + 16, ctx, k);
    SpliceAgain(s, h + 16, x, Encrypt(k, x));
    SpliceTwice(was, h, e1, Encrypt(k, x));
  }

  /** The MAC of what lies at t, under the key at mp, written directly behind it. */
  method AppendMac(out: array<byte>, mp: nat, t: nat, ghost k: seq<byte>, ghost table: seq<byte>, size: nat)
    requires mp + 16 <= t && t + size + 16 <= out.Length && |table| == size && Block(k)
    requires out[mp..mp + 16] == k && out[t..t + size] == table
    modifies out
    ensures out[..] == Splice(old(out[..]), t, Sealed(k, table))
  {
    hide Splice, Mac;
    ghost var was := out[..];
    var res := EncryptRegion(out, mp, out, t, size, out, t + size);
    SpliceSame(was, t, table);
    SpliceTwice(was, t, table, Mac(k, table));
  }

  /** From the working keys in place to the sealed table; the keys stay where they are. */
  method MakeSealedTable(keys: Lookup, ids: seq<UmdId>, n: nat, out: array<byte>, h: nat, t: nat,
                         ghost k: seq<byte>, ghost mk: seq<byte>) returns (ret: int)
    requires keys.Valid() && 0 < |ids| && n <= |ids| && t + 24 * Slots(n) + 16 <= out.Length
    requires h + 32 <= t && Block(k) && Block(mk) && out[h..h + 32] == k + mk
    modifies out
    ensures ret == if !AllFound(keys, ids, n, n + 1) then -2 else if !AllFound(keys, ids, n, Slots(n)) then -3 else 0
    ensures ret == -3 ==> n == 0
    ensures ret == 0 ==> out[..] == Splice(old(out[..]), t, Sealed(mk, Table(k, keys, ids, n)))
    ensures out[..t] == old(out[..t])
  {
    hide Splice, AllFound, Table, Sealed, Slots, Lookup.Find;
    ghost var was := out[..];
    SliceOfSlice(was, h, 32, 0, 16);
    SliceOfSlice(was, h, 32, 16, 16);
    assert out[h..h + 16] == was[h..h + 16] == k;
    assert was[h + 16..h + 32] == mk;
    ret := MakeTable(keys, ids, n, out, h, t, k);
    if ret < 0 {
      return ret;
    }
    ghost var table := Table(k, keys, ids, n);
    SpliceElsewhere(was, t, table, h + 16, h + 32);
    SpliceRead(was, t, table);
    assert out[h + 16..h + 16 + 16] == out[..][h + 16..h + 32] && out[t..t + |table|] == out[..][t..t + |table|];
    AppendMac(out, h + 16, t, mk, table, 24 * Slots(n));
    SpliceLonger(was, t, table, Sealed(mk, table));
    KeptBefore(was, out[..], t, Sealed(mk, table));
  }

  lemma SpliceLonger<T>(s: seq<T>, at: nat, p: seq<T>, q: seq<T>)
    requires |p| <= |q| && at + |q| <= |s|
    ensures Splice(Splice(s, at, p), at, q) == Splice(s, at, q)
  {
  }

  /** UM2: the image at position at of the output, and its size; or -2 or -3 when a key is missing. */
  method UM2(buf1: array<byte>, predata: array<byte>, out: array<byte>, at: nat, keys: Lookup,
             ids: seq<UmdId>, n: nat) returns (ret: int)
    requires buf1.Length == 8 && 12 <= predata.Length && predata != out && buf1 != out
    requires keys.Valid() && 0 < |ids| && n <= |ids| && n < 0x1000000
    requires at + 24 * Slots(n) + 0x34 <= out.Length
    modifies out
    ensures ret == if !AllFound(keys, ids, n, n + 1) then -2
                   else if !AllFound(keys, ids, n, Slots(n)) then -3 else 24 * Slots(n) + 0x34
    ensures ret == -3 ==> n == 0
    ensures 0 <= ret ==> out[..] == Splice(old(out[..]), at, Image(buf1[..], predata[..], keys, ids, n))
    ensures out[..at] == old(out[..at])
  {
    hide Splice, AllFound, Table, Sealed, Slots, Lookup.Find, SlotKey, MacKey, HeaderKey, Encrypt, XorSeq;
    hide AesKey.EncryptsUnder, LittleEndian, CountField, Image;
    ghost var was, fuse, p := out[..], buf1[..], predata[..];
    ghost var k, mk := SlotKey(p), MacKey(p);
    var cnt := Slots(n);
    StartImage(predata, out, at, cnt);
    ghost var s := out[..];
    ret := MakeSealedTable(keys, ids, n, out, at + 4, at + 36, k, mk);
    assert out[..at] == out[..at + 36][..at] == s[..at + 36][..at] == was[..at];
    if ret < 0 {
      return ret;
    }
    FinishImage(buf1, predata, out, at, was, keys, ids, n);
    ret := cnt * 24 + 0x34;
  }

  /** The working keys, then the slot count in front of them. */
  method StartImage(predata: array<byte>, out: array<byte>, at: nat, cnt: nat)
    requires 12 <= predata.Length && predata != out && at + 36 <= out.Length && cnt < 0x2000000
    modifies out
    ensures var count := LittleEndian(CountField(cnt));
            out[..] == Splice(Splice(old(out[..]), at, count), at + 4, Working(predata[..]))
    ensures out[at + 4..at + 4 + 32] == Working(predata[..]) && out[..at] == old(out[..at])
  {
    hide Splice, LittleEndian, CountField, SlotKey, MacKey;
    ghost var was, count, w := out[..], LittleEndian(CountField(cnt)), Working(predata[..]);
    MakeWorkingKeys(predata, out, at + 4);
    PutBytes(out, at, LittleEndian(CountField(cnt)));
    SpliceSwap(was, at, count, at + 4, w);
    SpliceRead(Splice(was, at, count), at + 4, w);
    KeptBefore(was, Splice(was, at, count), at, count);
    KeptBefore(Splice(was, at, count), out[..], at + 4, w);
    assert out[..at] == out[..][..at + 4][..at] == Splice(was, at, count)[..at + 4][..at];
    assert out[at + 4..at + 4 + 32] == out[..][at + 4..at + 4 + 32];
  }

  /** All but the header: the count and the working keys, with the sealed table behind them. */
  ghost predicate Headless(now: seq<byte>, was: seq<byte>, at: nat, predata: seq<byte>, keys: Lookup, ids: seq<UmdId>,
                           n: nat)
    requires 12 <= |predata| && keys.Valid() && 0 < |ids| && n <= |ids| && n < 0x1000000
  {
    hide Splice, AllFound, Table, Sealed, Slots, Lookup.Find, SlotKey, MacKey, Working, LittleEndian, CountField;
    AllFound(keys, ids, n, Slots(n)) &&
    var sealed := Sealed(MacKey(predata), Table(SlotKey(predata), keys, ids, n));
    at + 36 + |sealed| <= |was| &&
    var s := Splice(Splice(was, at, LittleEndian(CountField(Slots(n)))), at + 4, Working(predata));
    s[at + 4..at + 36] == Working(predata) && now == Splice(s, at + 36, sealed)
  }

  /** The header, once the table stands. */
  method FinishImage(buf1: array<byte>, predata: array<byte>, out: array<byte>, at: nat, ghost was: seq<byte>,
                     ghost keys: Lookup, ghost ids: seq<UmdId>, ghost n: nat)
    requires buf1.Length == 8 && 12 <= predata.Length && predata != out && buf1 != out
    requires keys.Valid() && 0 < |ids| && n <= |ids| && n < 0x1000000 && out.Length == |was|
    requires Headless(out[..], was, at, predata[..], keys, ids, n)
    modifies out
    ensures Headed(out[..], was, at, buf1[..], predata[..], keys, ids, n)
  {
    hide Splice, AllFound, Table, Sealed, Slots, Lookup.Find, SlotKey, MacKey, HeaderKey, Encrypt, XorSeq;
    hide AesKey.EncryptsUnder, LittleEndian, CountField;
    ghost var fuse, p := buf1[..], predata[..];
    ghost var count, sealed := LittleEndian(CountField(Slots(n))), Sealed(MacKey(p), Table(SlotKey(p), keys, ids, n));
    SpliceElsewhere(Splice(Splice(was, at, count), at + 4, Working(p)), at + 36, sealed, at + 4, at + 36);
    assert out[at + 4..at + 4 + 32] == out[..][at + 4..at + 36];
    var ctx := MakeHeaderKey(buf1);
    SealHeader(ctx, HeaderKey(fuse), SlotKey(p), MacKey(p), out, at + 4);
    PiecesInOrder(was, at, count, Working(p), Header(fuse, p), sealed);
    KeptBefore(was, out[..], at, Image(fuse, p, keys, ids, n));
  }

  /** The whole image, in place. */
  ghost predicate Headed(now: seq<byte>, was: seq<byte>, at: nat, fuse: seq<byte>, predata: seq<byte>, keys: Lookup,
                         ids: seq<UmdId>, n: nat)
    requires |fuse| == 8 && 12 <= |predata| && keys.Valid() && 0 < |ids| && n <= |ids| && n < 0x1000000
  {
    hide Splice, AllFound, Slots, Lookup.Find, Image;
    AllFound(keys, ids, n, Slots(n)) && at + 24 * Slots(n) + 0x34 <= |was| == |now|
    && now == Splice(was, at, Image(fuse, predata, keys, ids, n)) && now[..at] == was[..at]
  }

  /** The order in which UM2 writes the pieces does not matter: together they are one piece. */
  lemma PiecesInOrder(was: seq<byte>, at: nat, count: seq<byte>, w: seq<byte>, h: seq<byte>, sealed: seq<byte>)
    requires |w| == |h| && at + |count| + |h| + |sealed| <= |was|
    ensures Splice(Splice(Splice(Splice(was, at, count), at + |count|, w), at + |count| + |h|, sealed), at + |count|, h)
            == Splice(was, at, count + h + sealed)
  {
    hide Splice;
    var s, i, j := Splice(was, at, count), at + |count|, at + |count| + |h|;
    SpliceSwap(s, i, w, j, sealed);
    SpliceAgain(Splice(s, j, sealed), i, w, h);
    SpliceSwap(s, i, h, j, sealed);
    SpliceTwice(was, at, count, h);
    SpliceTwice(was, at, count + h, sealed);
  }
}
