/** Key material derived from the device's fuse id: GenerateSigncheck of modules/idsregeneration/main.c,
    and repeated encipherment in place. */
module Signcheck {
  import opened Bytes
  import opened Fips197
  import opened AesCore
  import RS = ReedSolomon

  function EncryptTimes(k: seq<byte>, b: seq<byte>, n: nat): (c: seq<byte>)
    requires UserKey(k) && Block(b)
    ensures Block(c)
  {
    if n == 0 then b else Encrypt(k, EncryptTimes(k, b, n - 1))
  }

  function DecryptTimes(k: seq<byte>, b: seq<byte>, n: nat): (c: seq<byte>)
    requires UserKey(k) && Block(b)
    ensures Block(c)
  {
    if n == 0 then b else Decrypt(k, DecryptTimes(k, b, n - 1))
  }

  lemma {:induction false} EncryptTimesAdd(k: seq<byte>, b: seq<byte>, m: nat, n: nat)
    requires UserKey(k) && Block(b)
    ensures EncryptTimes(k, EncryptTimes(k, b, m), n) == EncryptTimes(k, b, m + n)
  {
    hide Encrypt;
    if n != 0 {
      EncryptTimesAdd(k, b, m, n - 1);
    }
  }

  /** AES_encrypt(p, p, ctx), n times. */
  method EncryptMany(buf: array<byte>, at: nat, key: AesKey, ghost k: seq<byte>, n: nat)
    requires at + 16 <= buf.Length && UserKey(k) && key.EncryptsUnder(k)
    modifies buf
    ensures buf[..] == Splice(old(buf[..]), at, EncryptTimes(k, old(buf[at..at + 16]), n))
  {
    hide AesKey.EncryptsUnder, Encrypt, Splice;
    ghost var b, was := buf[at..at + 16], buf[..];
    SpliceSame(was, at, b);
    for i := 0 to n
      invariant buf[..] == Splice(was, at, EncryptTimes(k, b, i))
    {
      ghost var c := EncryptTimes(k, b, i);
      SpliceRead(was, at, c);
      assert buf[at..at + 16] == buf[..][at..at + 16];
      EncryptUnder(buf, at, buf, at, key, k);
      SpliceAgain(was, at, c, Encrypt(k, c));
    }
  }

  method DecryptMany(buf: array<byte>, at: nat, key: AesKey, ghost k: seq<byte>, n: nat)
    requires at + 16 <= buf.Length && UserKey(k) && key.DecryptsUnder(k)
    modifies buf
    ensures buf[..] == Splice(old(buf[..]), at, DecryptTimes(k, old(buf[at..at + 16]), n))
  {
    hide AesKey.DecryptsUnder, Decrypt, Splice;
    ghost var b, was := buf[at..at + 16], buf[..];
    SpliceSame(was, at, b);
    for i := 0 to n
      invariant buf[..] == Splice(was, at, DecryptTimes(k, b, i))
    {
      ghost var c := DecryptTimes(k, b, i);
      SpliceRead(was, at, c);
      assert buf[at..at + 16] == buf[..][at..at + 16];
      DecryptUnder(buf, at, buf, at, key, k);
      SpliceAgain(was, at, c, Decrypt(k, c));
    }
  }

  const IDS_KEY: seq<byte> :=
    [0x47, 0x5E, 0x09, 0xF4, 0xA2, 0x37, 0xDA, 0x9B, 0xEF, 0xFF, 0x3B, 0xC0, 0x77, 0x14, 0x3D, 0x8A]

  /** The three 16-byte keys of a device: a secret of the fuse id, enciphered three, six and nine times
      under another. */
  function DeviceKey(fuse: seq<byte>, i: nat): (k: seq<byte>)
    requires |fuse| == 8
    ensures Block(k)
  {
    hide EncryptTimes, DecryptTimes;
    EncryptTimes(EncryptTimes(IDS_KEY, fuse + fuse, 3), DecryptTimes(IDS_KEY, fuse + fuse, 3), 3 * (i + 1))
  }

  function DeviceKeys(fuse: seq<byte>, n: nat): (r: seq<byte>)
    requires |fuse| == 8
    ensures |r| == 16 * n
  {
    hide DeviceKey;
    if n == 0 then [] else DeviceKeys(fuse, n - 1) + DeviceKey(fuse, n - 1)
  }

  /** The 64 bytes of a signature check: three keys, the fuse id, four more bytes, and their parity. */
  function SigncheckBytes(fuse: seq<byte>, b: seq<byte>): (r: seq<byte>)
    requires |fuse| == 8 && |b| == 4
    ensures |r| == 64
  {
    hide DeviceKeys;
    RS.Encode(DeviceKeys(fuse, 3) + fuse + b)
  }

  /** A signature check holds its keys, the fuse id and the four bytes at their places, and is a codeword. */
  ghost predicate PartsInPlace(fuse: seq<byte>, b: seq<byte>, i: nat)
    requires |fuse| == 8 && |b| == 4 && i < 3
  {
    hide SigncheckBytes, DeviceKey, RS.Codeword;
    var r := SigncheckBytes(fuse, b);
    r[16 * i..16 * i + 16] == DeviceKey(fuse, i) && r[48..56] == fuse && r[56..60] == b && RS.Codeword(r)
  }

  /** Where the three keys and the fuse id are to be found. */
  lemma SigncheckParts(fuse: seq<byte>, b: seq<byte>, i: nat)
    requires |fuse| == 8 && |b| == 4 && i < 3
    ensures PartsInPlace(fuse, b, i)
  {
    hide RS.Parity, RS.Eval, RS.Codeword, DeviceKey;
    var d := DeviceKeys(fuse, 3) + fuse + b;
    assert DeviceKeys(fuse, 0) == [];
    assert DeviceKeys(fuse, 1) == DeviceKey(fuse, 0);
    assert DeviceKeys(fuse, 2) == DeviceKey(fuse, 0) + DeviceKey(fuse, 1);
    assert d == DeviceKey(fuse, 0) + DeviceKey(fuse, 1) + DeviceKey(fuse, 2) + fuse + b;
    RS.EncodeIsCodeword(d);
  }

  /** One encipherment of a whole 16-byte buffer, in place; and one decipherment. */
  method EncryptWhole(buf: array<byte>, key: AesKey, ghost k: seq<byte>)
    requires buf.Length == 16 && UserKey(k) && key.EncryptsUnder(k)
    modifies buf
    ensures buf[..] == Encrypt(k, old(buf[..]))
  {
    hide AesKey.EncryptsUnder, Encrypt, Splice;
    assert buf[0..16] == buf[..];
    SpliceWhole(buf[..], Encrypt(k, buf[..]));
    EncryptUnder(buf, 0, buf, 0, key, k);
  }

  method DecryptWhole(buf: array<byte>, key: AesKey, ghost k: seq<byte>)
    requires buf.Length == 16 && UserKey(k) && key.DecryptsUnder(k)
    modifies buf
    ensures buf[..] == Decrypt(k, old(buf[..]))
  {
    hide AesKey.DecryptsUnder, Decrypt, Splice;
    assert buf[0..16] == buf[..];
    SpliceWhole(buf[..], Decrypt(k, buf[..]));
    DecryptUnder(buf, 0, buf, 0, key, k);
  }

  /** Both schedules of a built-in 128-bit key. */
  method Schedules(k: seq<byte>) returns (ctx: AesKey, ctx2: AesKey)
    requires Block(k)
    ensures fresh(ctx) && fresh(ctx.rd_key) && fresh(ctx2) && fresh(ctx2.rd_key)
    ensures ctx.rd_key.Length == 60 && ctx.EncryptsUnder(k) && ctx2.DecryptsUnder(k)
  {
    hide AesKey.EncryptsUnder, AesKey.DecryptsUnder;
    var buf := new byte[16];
    PutBytes(buf, 0, k);
    SpliceWhole(buf[..], k);
    assert buf[0..16] == k;
    ctx := new AesKey();
    ctx2 := new AesKey();
    var status := AES_set_encrypt_key(buf, 0, 128, ctx);
    status := AES_set_decrypt_key(buf, 0, 128, ctx2);
  }

  /** The two 16-byte work buffers: both filled with the fuse id twice over, then one deciphered and the
      other enciphered three times. */
  method WorkKeys(buf1: array<byte>, ctx: AesKey, ctx2: AesKey) returns (k1: array<byte>, k2: array<byte>)
    requires buf1.Length == 8 && ctx.EncryptsUnder(IDS_KEY) && ctx2.DecryptsUnder(IDS_KEY)
    ensures fresh(k1) && fresh(k2) && k1 != k2 && k1.Length == k2.Length == 16
    ensures k1[..] == DecryptTimes(IDS_KEY, buf1[..] + buf1[..], 3)
    ensures k2[..] == EncryptTimes(IDS_KEY, buf1[..] + buf1[..], 3)
  {
    hide AesKey.EncryptsUnder, AesKey.DecryptsUnder, Encrypt, Decrypt, EncryptTimes, DecryptTimes;
    ghost var seed := buf1[..] + buf1[..];
    k1 := new byte[16];
    k2 := new byte[16];
    for i := 0 to 16
      invariant forall j | 0 <= j < i :: k1[j] == k2[j] == buf1[j % 8]
    {
      k1[i], k2[i] := buf1[i % 8], buf1[i % 8];
    }
    assert seed == k1[..] by { TwiceOver(buf1[..], k1[..]); }
    assert seed == k2[..] by { TwiceOver(buf1[..], k2[..]); }
    NoTimes(seed);
    for i := 0 to 3
      invariant k2[..] == EncryptTimes(IDS_KEY, seed, i) && k1[..] == DecryptTimes(IDS_KEY, seed, i)
    {
      OneMoreTime(seed, i);
      EncryptWhole(k2, ctx, IDS_KEY);
      DecryptWhole(k1, ctx2, IDS_KEY);
    }
  }

  lemma TwiceOver(fuse: seq<byte>, k: seq<byte>)
    requires |fuse| == 8 && |k| == 16 && forall j | 0 <= j < 16 :: k[j] == fuse[j % 8]
    ensures fuse + fuse == k
  {
    forall j | 0 <= j < 16
      ensures (fuse + fuse)[j] == k[j]
    {
      if j < 8 { assert j % 8 == j; } else { assert j % 8 == j - 8; }
    }
  }

  lemma NoTimes(seed: seq<byte>)
    requires Block(seed)
    ensures EncryptTimes(IDS_KEY, seed, 0) == seed == DecryptTimes(IDS_KEY, seed, 0)
  {
  }

  lemma OneMoreTime(seed: seq<byte>, i: nat)
    requires Block(seed)
    ensures EncryptTimes(IDS_KEY, seed, i + 1) == Encrypt(IDS_KEY, EncryptTimes(IDS_KEY, seed, i))
    ensures DecryptTimes(IDS_KEY, seed, i + 1) == Decrypt(IDS_KEY, DecryptTimes(IDS_KEY, seed, i))
  {
    hide Encrypt, Decrypt;
  }

  /** GenerateSigncheck. */
  method GenerateSigncheck(buf1: array<byte>, b: seq<byte>, out: array<byte>)
    requires buf1.Length == 8 && |b| == 4 && out.Length == 64 && out != buf1
    modifies out
    ensures out[..] == SigncheckBytes(buf1[..], b)
  {
    hide AesKey.EncryptsUnder, AesKey.DecryptsUnder, EncryptTimes, DecryptTimes, DeviceKey, RS.Encode, Splice;
    ghost var fuse := buf1[..];
    var ctx, ctx2 := Schedules(IDS_KEY);
    var k1, k2 := WorkKeys(buf1, ctx, ctx2);
    ghost var k := k2[..];
    assert k2[0..16] == k;
    var status := AES_set_encrypt_key(k2, 0, 128, ctx);
    StoreKeys(k1, ctx, k, fuse, out);
    ghost var keys, was := DeviceKeys(fuse, 3), out[..];
    StoreTail(buf1, b, out);
    assert out[..60] == keys + fuse + b;
    RS.P1(out);
    assert out[..] == RS.Encode(keys + fuse + b);
  }

  /** The fuse id and the four extra bytes behind the keys. */
  method StoreTail(buf1: array<byte>, b: seq<byte>, out: array<byte>)
    requires buf1.Length == 8 && |b| == 4 && out.Length == 64 && out != buf1
    modifies out
    ensures out[..60] == old(out[..48]) + buf1[..] + b
  {
    Copy(buf1, 0, out, 0x30, 8);
    PutBytes(out, 0x38, b);
  }

  /** The three keys: three more encipherments before each is stored. */
  method StoreKeys(k1: array<byte>, ctx: AesKey, ghost k: seq<byte>, ghost fuse: seq<byte>, out: array<byte>)
    requires k1.Length == 16 && out.Length == 64 && k1 != out && |fuse| == 8
    requires k == EncryptTimes(IDS_KEY, fuse + fuse, 3) && ctx.EncryptsUnder(k)
    requires k1[..] == DecryptTimes(IDS_KEY, fuse + fuse, 3)
    modifies k1, out
    ensures out[..48] == DeviceKeys(fuse, 3)
  {
    hide AesKey.EncryptsUnder, EncryptTimes, DecryptTimes, DeviceKeys;
    ghost var s := k1[..];
    NoKeys(k, s, fuse);
    assert out[..0] == [];
    for i := 0 to 3
      invariant k1[..] == EncryptTimes(k, s, 3 * i)
      invariant out[..16 * i] == DeviceKeys(fuse, i)
    {
      SpliceWhole(k1[..], EncryptTimes(k, k1[..], 3));
      assert k1[0..16] == k1[..];
      EncryptMany(k1, 0, ctx, k, 3);
      EncryptTimesAdd(k, s, 3 * i, 3);
      OneMoreKey(fuse, i);
      ghost var keys := out[..16 * i];
      Copy(k1, 0, out, 16 * i, 16);
      assert out[..16 * (i + 1)] == keys + k1[..];
    }
  }

  lemma NoKeys(k: seq<byte>, s: seq<byte>, fuse: seq<byte>)
    requires UserKey(k) && Block(s) && |fuse| == 8
    ensures EncryptTimes(k, s, 0) == s && DeviceKeys(fuse, 0) == []
  {
  }

  lemma OneMoreKey(fuse: seq<byte>, i: nat)
    requires |fuse| == 8
    ensures DeviceKeys(fuse, i + 1) == DeviceKeys(fuse, i)
              + EncryptTimes(EncryptTimes(IDS_KEY, fuse + fuse, 3), DecryptTimes(IDS_KEY, fuse + fuse, 3), 3 * i + 3)
  {
    hide EncryptTimes, DecryptTimes;
  }
}
