/** The six device certificates that GenKeys of modules/idsregeneration/main.c completes. */
module Certificates {
  import opened Bytes
  import opened Fips197
  import opened AesCore
  import opened Cmac
  import opened Signcheck
  import opened KeyLookup
  import opened UmdTable

  /** CBC encryption of n blocks (section 6.2 of NIST SP 800-38A). */
  function Cbc(k: seq<byte>, iv: seq<byte>, p: seq<byte>, n: nat): (c: seq<byte>)
    requires UserKey(k) && Block(iv) && |p| == 16 * n
    ensures |c| == |p|
    decreases n
  {
    hide Encrypt;
    if n == 0 then [] else
      var c := Encrypt(k, XorSeq(p[..16], iv));
      c + Cbc(k, c, p[16..], n - 1)
  }

  /** CBC decryption. */
  function CbcInverse(k: seq<byte>, iv: seq<byte>, c: seq<byte>, n: nat): (p: seq<byte>)
    requires UserKey(k) && Block(iv) && |c| == 16 * n
    ensures |p| == |c|
    decreases n
  {
    hide Decrypt;
    if n == 0 then [] else XorSeq(Decrypt(k, c[..16]), iv) + CbcInverse(k, c[..16], c[16..], n - 1)
  }

  lemma {:induction false} CbcRoundTrip(k: seq<byte>, iv: seq<byte>, p: seq<byte>, n: nat)
    requires UserKey(k) && Block(iv) && |p| == 16 * n
    ensures CbcInverse(k, iv, Cbc(k, iv, p, n), n) == p
    decreases n
  {
    hide Encrypt, Decrypt, XorSeq;
    if n != 0 {
      var x := XorSeq(p[..16], iv);
      var c := Encrypt(k, x);
      var rest := Cbc(k, c, p[16..], n - 1);
      CbcRoundTrip(k, c, p[16..], n - 1);
      DecryptOfEncrypt(k, x);
      XorSeqTwice(p[..16], iv);
      assert (c + rest)[..16] == c && (c + rest)[16..] == rest;
    }
  }

  lemma XorSeqTwice(a: seq<byte>, b: seq<byte>)
    requires |a| == |b|
    ensures XorSeq(XorSeq(a, b), b) == a
  {
    hide Xor;
    forall i | 0 <= i < |a|
      ensures Xor(Xor(a[i], b[i]), b[i]) == a[i]
    {
      XorLaws(a[i], b[i]);
    }
  }

  lemma XorSeqZero(a: seq<byte>)
    ensures XorSeq(a, Zeros(|a|)) == a
  {
    hide Xor;
    forall i | 0 <= i < |a|
      ensures Xor(a[i], 0) == a[i]
    {
      XorLaws(a[i], 0);
    }
  }

  /** "FlashROM PreCalc" */
  const TEMPLATE_KEY: seq<byte> :=
    [0x46, 0x6C, 0x61, 0x73, 0x68, 0x52, 0x4F, 0x4D, 0x20, 0x50, 0x72, 0x65, 0x43, 0x61, 0x6C, 0x63]

  function CertificateKey(fuse: seq<byte>): (k: seq<byte>)
    requires |fuse| == 8
    ensures Block(k)
  {
    hide EncryptTimes, DeviceKey;
    EncryptTimes(DeviceKey(fuse, 2), DeviceKey(fuse, 1), 2)
  }

  function CertificateMacKey(fuse: seq<byte>): (k: seq<byte>)
    requires |fuse| == 8
    ensures Block(k)
  {
    hide EncryptTimes, DeviceKey;
    EncryptTimes(DeviceKey(fuse, 2), DeviceKey(fuse, 0), 3)
  }

  /** The two private blocks of a template, in clear. */
  function PrivatePart(c: seq<byte>): (p: seq<byte>)
    requires 0xA8 <= |c|
    ensures |p| == 32
  {
    hide Decrypt;
    Decrypt(TEMPLATE_KEY, c[0x88..0x98]) + Decrypt(TEMPLATE_KEY, c[0x98..0xA8])
  }

  /** A certificate from the first 0xA8 bytes of its template: the private blocks re-enciphered, CBC from
      a zero block, under the device's key, and the MAC of all of that behind. */
  function Certificate(ck: seq<byte>, mk: seq<byte>, c: seq<byte>): (r: seq<byte>)
    requires Block(ck) && Block(mk) && |c| == 0xA8
    ensures |r| == 0xB8
  {
    hide Cbc, PrivatePart, Sealed;
    var r := Sealed(mk, c[..0x88] + Cbc(ck, Zeros(16), PrivatePart(c), 2));
    r
  }

  /** The first n certificates of a template. */
  function Completed(ck: seq<byte>, mk: seq<byte>, template: seq<byte>, n: nat): (r: seq<byte>)
    requires Block(ck) && Block(mk) && n <= 6 && |template| == 0x478
    ensures |r| == 0xB8 * n
  {
    hide Certificate;
    if n == 0 then [] else
      var at := 0x38 + 0xB8 * (n - 1);
      Completed(ck, mk, template, n - 1) + Certificate(ck, mk, template[at..at + 0xA8])
  }

  /** Two blocks by CBC from a zero block, the way GenKeys chains them. */
  lemma CbcTwoBlocks(k: seq<byte>, p: seq<byte>, q: seq<byte>)
    requires Block(k) && Block(p) && Block(q)
    ensures var c := Encrypt(k, p); Cbc(k, Zeros(16), p + q, 2) == c + Encrypt(k, XorSeq(q, c))
  {
    hide Encrypt, XorSeq;
    var c := Encrypt(k, p);
    XorSeqZero(p);
    assert (p + q)[..16] == p && (p + q)[16..] == q;
    assert q[..16] == q && q[16..] == [];
    var d := Encrypt(k, XorSeq(q, c));
    assert Cbc(k, d, [], 0) == [];
    assert Cbc(k, c, q, 1) == d;
  }

  /** A completed certificate r opens under the two keys to its template c: its first bytes are the
      template's, deciphering the private part gives what the template held in clear, and the MAC is that of
      all the rest. */
  ghost predicate Opens(ck: seq<byte>, mk: seq<byte>, c: seq<byte>, r: seq<byte>)
    requires Block(ck) && Block(mk) && |c| == 0xA8 && |r| == 0xB8
  {
    hide CbcInverse, PrivatePart, Mac;
    r[..0x88] == c[..0x88] && CbcInverse(ck, Zeros(16), r[0x88..0xA8], 2) == PrivatePart(c)
    && r[0xA8..] == Mac(mk, r[..0xA8])
  }

  lemma CertificateOpens(ck: seq<byte>, mk: seq<byte>, c: seq<byte>)
    requires Block(ck) && Block(mk) && |c| == 0xA8
    ensures Opens(ck, mk, c, Certificate(ck, mk, c))
  {
    hide Cbc, CbcInverse, PrivatePart, Mac;
    var p := Cbc(ck, Zeros(16), PrivatePart(c), 2);
    var body := c[..0x88] + p;
    CbcRoundTrip(ck, Zeros(16), PrivatePart(c), 2);
    assert Certificate(ck, mk, c) == body + Mac(mk, body);
    assert (body + Mac(mk, body))[0x88..0xA8] == p && (body + Mac(mk, body))[..0xA8] == body;
  }

  // ----- GenKeys

  /** Two private blocks, deciphered with the template's key and enciphered with the device's. */
  function Reenciphered(ck: seq<byte>, a: seq<byte>, b: seq<byte>): (r: seq<byte>)
    requires Block(ck) && Block(a) && Block(b)
    ensures |r| == 32
  {
    hide Cbc, Decrypt;
    Cbc(ck, Zeros(16), Decrypt(TEMPLATE_KEY, a) + Decrypt(TEMPLATE_KEY, b), 2)
  }

  /** The private blocks at v, in place. */
  method Reencrypt(out: array<byte>, v: nat, dec: AesKey, enc: AesKey, ghost ck: seq<byte>)
    requires v + 32 <= out.Length && Block(ck) && dec.DecryptsUnder(TEMPLATE_KEY) && enc.EncryptsUnder(ck)
    modifies out
    ensures out[..] == Splice(old(out[..]), v, Reenciphered(ck, old(out[v..v + 16]), old(out[v + 16..v + 32])))
  {
    hide AesKey.EncryptsUnder, AesKey.DecryptsUnder, Encrypt, Decrypt, Splice, XorSeq, Cbc;
    ghost var was := out[..];
    ghost var p, q := Decrypt(TEMPLATE_KEY, out[v..v + 16]), Decrypt(TEMPLATE_KEY, out[v + 16..v + 32]);
    ghost var c := Encrypt(ck, p);
    ghost var s := Splice(was, v, c);
    ReencryptFirst(out, v, dec, enc, ck);
    SpliceElsewhere(was, v, c, v + 16, v + 32);
    SpliceRead(was, v, c);
    assert out[v + 16..v + 32] == out[..][v + 16..v + 32] == was[v + 16..v + 32];
    DecryptUnder(out, v + 16, out, v + 16, dec, TEMPLATE_KEY);
    ReencryptSecond(out, v, enc, ck, s, p, q);
    CbcTwoBlocks(ck, p, q);
    SpliceTwice(was, v, c, Encrypt(ck, XorSeq(q, c)));
  }

  method ReencryptFirst(out: array<byte>, v: nat, dec: AesKey, enc: AesKey, ghost ck: seq<byte>)
    requires v + 32 <= out.Length && Block(ck) && dec.DecryptsUnder(TEMPLATE_KEY) && enc.EncryptsUnder(ck)
    modifies out
    ensures out[..] == Splice(old(out[..]), v, Encrypt(ck, Decrypt(TEMPLATE_KEY, old(out[v..v + 16]))))
  {
    hide AesKey.EncryptsUnder, AesKey.DecryptsUnder, Encrypt, Decrypt, Splice;
    ghost var was, p := out[..], Decrypt(TEMPLATE_KEY, out[v..v + 16]);
    DecryptUnder(out, v, out, v, dec, TEMPLATE_KEY);
    SpliceRead(was, v, p);
    assert out[v..v + 16] == out[..][v..v + 16];
    EncryptUnder(out, v, out, v, enc, ck);
    SpliceAgain(was, v, p, Encrypt(ck, p));
  }

  method ReencryptSecond(out: array<byte>, v: nat, enc: AesKey, ghost ck: seq<byte>, ghost s: seq<byte>,
                         ghost p: seq<byte>, ghost q: seq<byte>)
    requires v + 32 <= out.Length == |s| && Block(ck) && Block(p) && Block(q) && enc.EncryptsUnder(ck)
    requires out[..] == Splice(s, v + 16, q) && s[v..v + 16] == Encrypt(ck, p)
    modifies out
    ensures out[..] == Splice(s, v + 16, Encrypt(ck, XorSeq(q, Encrypt(ck, p))))
  {
    hide AesKey.EncryptsUnder, Encrypt, Splice, XorSeq;
    ghost var x := XorSeq(q, Encrypt(ck, p));
    SpliceRead(s, v + 16, q);
    SpliceElsewhere(s, v + 16, q, v, v + 16);
    assert out[v + 16..v + 32] == out[..][v + 16..v + 32] && out[v..v + 16] == out[..][v..v + 16];
    XorInto(out, v + 16, out, v);
    SpliceAgain(s, v + 16, q, x);
    SpliceRead(s, v + 16, x);
    assert out[v + 16..v + 32] == out[..][v + 16..v + 32];
    EncryptUnder(out, v + 16, out, v + 16, enc, ck);
    SpliceAgain(s, v + 16, x, Encrypt(ck, x));
  }

  lemma CertificateIs(ck: seq<byte>, mk: seq<byte>, t: seq<byte>)
    requires Block(ck) && Block(mk) && |t| == 0xA8
    ensures Certificate(ck, mk, t) == Sealed(mk, t[..0x88] + Reenciphered(ck, t[0x88..0x98], t[0x98..0xA8]))
  {
    hide Sealed, Cbc, Decrypt;
  }

  /** One pass of the loop of GenKeys: the certificate at position at. c holds the MAC key and the
      certificate key. */
  method CompleteOne(out: array<byte>, at: nat, c: array<byte>, ghost ck: seq<byte>, ghost mk: seq<byte>)
    requires at + 0xB8 <= out.Length && 32 <= c.Length && c != out
    requires Block(ck) && Block(mk) && c[..16] == mk && c[16..32] == ck
    modifies out
    ensures out[..] == Splice(old(out[..]), at, Certificate(ck, mk, old(out[at..at + 0xA8])))
  {
    hide AesKey.EncryptsUnder, AesKey.DecryptsUnder, Splice, Reenciphered, Sealed;
    ghost var was, t := out[..], out[at..at + 0xA8];
    var enc0, ctx2 := Schedules(TEMPLATE_KEY);
    var ctx := new AesKey();
    assert c[16..16 + 16] == ck;
    var status := AES_set_encrypt_key(c, 16, 128, ctx);
    SliceOfSlice(was, at, 0xA8, 0x88, 16);
    SliceOfSlice(was, at, 0xA8, 0x98, 16);
    assert out[at + 0x88..at + 0x98] == was[at + 0x88..at + 0x98];
    assert out[at + 0x98..at + 0xA8] == was[at + 0x98..at + 0xA8];
    Reencrypt(out, at + 0x88, ctx2, ctx, ck);
    ghost var p := Reenciphered(ck, t[0x88..0x98], t[0x98..0xA8]);
    SealCertificate(out, at, c, mk, was, t, p);
    CertificateIs(ck, mk, t);
  }

  /** The MAC behind a certificate whose private part has been replaced by p. */
  method SealCertificate(out: array<byte>, at: nat, c: array<byte>, ghost mk: seq<byte>, ghost was: seq<byte>,
                         ghost t: seq<byte>, ghost p: seq<byte>)
    requires at + 0xB8 <= out.Length == |was| && 16 <= c.Length && c[..16] == mk && c != out
    requires t == was[at..at + 0xA8] && |p| == 32 && out[..] == Splice(was, at + 0x88, p)
    modifies out
    ensures out[..] == Splice(was, at, Sealed(mk, t[..0x88] + p))
  {
    hide Splice, Mac;
    ghost var body := t[..0x88] + p;
    SpliceSame(was, at, t);
    SpliceInside(was, at, t, 0x88, p);
    SpliceTail(t, 0x88, p);
    SpliceRead(was, at, body);
    assert out[at..at + 0xA8] == out[..][at..at + 0xA8];
    assert c[0..16] == mk;
    var res := EncryptRegion(c, 0, out, at, 0xA8, out, at + 0xA8);
    SpliceTwice(was, at, body, Mac(mk, body));
  }

  lemma SpliceTail<T>(s: seq<T>, at: nat, p: seq<T>)
    requires at + |p| == |s|
    ensures Splice(s, at, p) == s[..at] + p
  {
  }

  ghost predicate HoldsKeys(c: seq<byte>, fuse: seq<byte>) {
    hide CertificateMacKey, CertificateKey;
    |c| == 64 && |fuse| == 8 && c[..16] == CertificateMacKey(fuse) && c[16..32] == CertificateKey(fuse)
  }

  /** The two keys of the certificates, from a signature check with a zero tail. */
  method MakeCertificateKeys(buf1: array<byte>) returns (c: array<byte>)
    requires buf1.Length == 8
    ensures fresh(c) && HoldsKeys(c[..], buf1[..])
  {
    hide AesKey.EncryptsUnder, Encrypt, EncryptTimes, DeviceKey, DeviceKeys, SigncheckBytes, Splice;
    ghost var fuse := buf1[..];
    var zero: seq<byte> := [0, 0, 0, 0];
    c := new byte[64];
    GenerateSigncheck(buf1, zero, c);
    ghost var s := c[..];
    SigncheckParts(fuse, zero, 0);
    SigncheckParts(fuse, zero, 1);
    SigncheckParts(fuse, zero, 2);
    assert s[0..16] == DeviceKey(fuse, 0) && s[16..32] == DeviceKey(fuse, 1) && s[32..48] == DeviceKey(fuse, 2);
    assert c[32..32 + 16] == s[32..48] && c[16..16 + 16] == s[16..32];
    var ctx := new AesKey();
    var status := AES_set_encrypt_key(c, 32, 128, ctx);
    EncryptMany(c, 16, ctx, DeviceKey(fuse, 2), 2);
    ghost var s2 := c[..];
    SpliceElsewhere(s, 16, CertificateKey(fuse), 0, 16);
    SpliceRead(s, 16, CertificateKey(fuse));
    assert c[0..0 + 16] == s2[0..16];
    EncryptMany(c, 0, ctx, DeviceKey(fuse, 2), 3);
    SpliceElsewhere(s2, 0, CertificateMacKey(fuse), 16, 32);
    SpliceRead(s2, 0, CertificateMacKey(fuse));
    assert c[..16] == c[..][0..16] && c[16..32] == c[..][16..32];
  }

  /** The six passes. */
  method CompleteAll(out: array<byte>, c: array<byte>, ghost ck: seq<byte>, ghost mk: seq<byte>, ghost t: seq<byte>)
    requires 0x488 <= out.Length && c.Length == 64 && c != out && |t| == 0x478 && out[..0x478] == t
    requires Block(ck) && Block(mk) && c[..16] == mk && c[16..32] == ck
    modifies out
    ensures out[..] == Splice(old(out[..]), 0x38, Completed(ck, mk, t, 6))
  {
    hide Splice, Certificate;
    ghost var was := out[..];
    SpliceSame(was, 0x38, []);
    for i := 0 to 6
      invariant out[..] == Splice(was, 0x38, Completed(ck, mk, t, i))
    {
      ghost var at := 0x38 + 0xB8 * i;
      SpliceElsewhere(was, 0x38, Completed(ck, mk, t, i), at, at + 0xA8);
      assert out[at..at + 0xA8] == out[..][at..at + 0xA8] == was[at..at + 0xA8] == t[at..at + 0xA8];
      CompleteOne(out, 0x38 + 0xB8 * i, c, ck, mk);
      SpliceTwice(was, 0x38, Completed(ck, mk, t, i), Certificate(ck, mk, t[at..at + 0xA8]));
    }
  }

  /** The output after the certificates: the template over the old content, its certificates completed. */
  function Certified(was: seq<byte>, fuse: seq<byte>, predata: seq<byte>): (r: seq<byte>)
    requires |fuse| == 8 && 0x488 <= |predata| && 0x488 <= |was|
    ensures |r| == |was|
  {
    hide Splice, CertificateKey, CertificateMacKey, Completed;
    var t := predata[0x10..0x488];
    Splice(Splice(was, 0, t), 0x38, Completed(CertificateKey(fuse), CertificateMacKey(fuse), t, 6))
  }

  /** Slice i of the completed certificates is the certificate of slice i of the template. */
  ghost predicate SliceCompleted(ck: seq<byte>, mk: seq<byte>, template: seq<byte>, n: nat, i: nat)
    requires Block(ck) && Block(mk) && i < n <= 6 && |template| == 0x478
  {
    hide Certificate, Completed;
    var at := 0x38 + 0xB8 * i;
    Completed(ck, mk, template, n)[0xB8 * i..0xB8 * i + 0xB8] == Certificate(ck, mk, template[at..at + 0xA8])
  }

  lemma {:induction false} CompletedAt(ck: seq<byte>, mk: seq<byte>, template: seq<byte>, n: nat, i: nat)
    requires Block(ck) && Block(mk) && i < n <= 6 && |template| == 0x478
    ensures SliceCompleted(ck, mk, template, n, i)
  {
    hide Certificate;
    var all, at := Completed(ck, mk, template, n), 0x38 + 0xB8 * (n - 1);
    assert all == Completed(ck, mk, template, n - 1) + Certificate(ck, mk, template[at..at + 0xA8]);
    if i < n - 1 {
      CompletedAt(ck, mk, template, n - 1, i);
      assert all[0xB8 * i..0xB8 * i + 0xB8] == Completed(ck, mk, template, n - 1)[0xB8 * i..0xB8 * i + 0xB8];
    } else {
      assert all[0xB8 * i..0xB8 * i + 0xB8] == Certificate(ck, mk, template[at..at + 0xA8]);
    }
  }

  /** Slot i of an output holds the certificate of slice i of the template, which opens under the device's keys. */
  ghost predicate HoldsCertificate(out: seq<byte>, fuse: seq<byte>, predata: seq<byte>, i: nat)
    requires |fuse| == 8 && 0x488 <= |predata| && 0x488 <= |out| && i < 6
  {
    hide Certificate, Opens, CertificateKey, CertificateMacKey;
    var ck, mk, at := CertificateKey(fuse), CertificateMacKey(fuse), 0x38 + 0xB8 * i;
    var template := predata[0x10 + at..0x10 + at + 0xA8];
    out[at..at + 0xB8] == Certificate(ck, mk, template) && Opens(ck, mk, template, out[at..at + 0xB8])
  }

  /** In front of the certificates is the template, behind them the old content. */
  ghost predicate FramesCertificates(r: seq<byte>, was: seq<byte>, predata: seq<byte>)
    requires 0x488 <= |predata| && 0x488 <= |was| == |r|
  {
    r[..0x38] == predata[0x10..0x48] && r[0x488..] == was[0x488..]
  }

  /** All six slots hold their certificates; in front of them is the template as it was, behind them the old output. */
  lemma CertifiedSlots(was: seq<byte>, fuse: seq<byte>, predata: seq<byte>, i: nat)
    requires |fuse| == 8 && 0x488 <= |predata| && 0x488 <= |was| && i < 6
    ensures HoldsCertificate(Certified(was, fuse, predata), fuse, predata, i)
    ensures FramesCertificates(Certified(was, fuse, predata), was, predata)
  {
    hide Certificate, Opens, CertificateKey, CertificateMacKey, Completed;
    var ck, mk, t, at := CertificateKey(fuse), CertificateMacKey(fuse), predata[0x10..0x488], 0x38 + 0xB8 * i;
    var all := Completed(ck, mk, t, 6);
    CertifiedIs(was, t, all);
    assert Certified(was, fuse, predata) == t[..0x38] + all + was[0x488..];
    CompletedAt(ck, mk, t, 6, i);
    SliceOfParts(t[..0x38], all, was[0x488..], 0xB8 * i);
    SliceOfSlice(predata, 0x10, 0x478, at, 0xA8);
    CertificateOpens(ck, mk, t[at..at + 0xA8]);
  }

  lemma CertifiedIs(was: seq<byte>, t: seq<byte>, all: seq<byte>)
    requires 0x488 <= |was| && |t| == 0x478 && |all| == 0x450
    ensures Splice(Splice(was, 0, t), 0x38, all) == t[..0x38] + all + was[0x488..]
  {
  }

  lemma SliceOfParts(a: seq<byte>, b: seq<byte>, c: seq<byte>, i: nat)
    requires i + 0xB8 <= |b|
    ensures (a + b + c)[|a| + i..|a| + i + 0xB8] == b[i..i + 0xB8]
    ensures (a + b + c)[..|a|] == a && (a + b + c)[|a| + |b|..] == c
  {
  }

  lemma SameSlot(now: seq<byte>, r: seq<byte>, fuse: seq<byte>, predata: seq<byte>, i: nat)
    requires |fuse| == 8 && 0x488 <= |predata| && i < 6 && 0x48C <= |now| && 0x48C <= |r| && now[..0x48C] == r[..0x48C]
    requires HoldsCertificate(r, fuse, predata, i)
    ensures HoldsCertificate(now, fuse, predata, i)
  {
    hide Certificate, Opens, CertificateKey, CertificateMacKey;
    var at := 0x38 + 0xB8 * i;
    assert now[at..at + 0xB8] == now[..0x48C][at..at + 0xB8] == r[at..at + 0xB8];
  }

  /** The disc-key table behind the certificates. */
  ghost predicate WithTable(certified: seq<byte>, now: seq<byte>, fuse: seq<byte>, predata: seq<byte>,
                            keys: Lookup, ids: seq<UmdId>, n: nat)
    requires |fuse| == 8 && 0x488 <= |predata| && keys.Valid() && 0 < |ids| && n <= |ids| && n < 0x1000000
  {
    hide Splice, Image, AllFound, Slots, Lookup.Find;
    AllFound(keys, ids, n, Slots(n)) &&
    var image := Image(fuse, predata, keys, ids, n);
    0x48C + |image| <= |certified| && now == Splice(certified, 0x48C, image)
  }

  /** The output now starts with the completed template; each of its six slots holds its certificate. */
  ghost predicate StartsCertified(now: seq<byte>, was: seq<byte>, fuse: seq<byte>, predata: seq<byte>)
    requires |fuse| == 8 && 0x488 <= |predata| && 0x48C <= |now| == |was|
  {
    hide Certified, HoldsCertificate;
    now[..0x48C] == Certified(was, fuse, predata)[..0x48C]
    && forall i: nat | i < 6 :: HoldsCertificate(now, fuse, predata, i)
  }

  /** GenKeys: the template with its six certificates completed, then the disc-key table. */
  method GenKeys(buf1: array<byte>, predata: array<byte>, out: array<byte>, keys: Lookup, ids: seq<UmdId>, n: nat)
    returns (ret: int)
    requires buf1.Length == 8 && 0x488 <= predata.Length && predata != out && buf1 != out
    requires keys.Valid() && 0 < |ids| && n <= |ids| && n < 0x1000000
    requires 0x48C + 24 * Slots(n) + 0x34 <= out.Length
    modifies out
    ensures ret == if !AllFound(keys, ids, n, n + 1) then -2
                   else if !AllFound(keys, ids, n, Slots(n)) then -3 else 24 * Slots(n) + 0x34
    ensures StartsCertified(out[..], old(out[..]), buf1[..], predata[..])
    ensures 0 <= ret ==>
              WithTable(Certified(old(out[..]), buf1[..], predata[..]), out[..], buf1[..], predata[..], keys, ids, n)
  {
    hide Splice, Completed, Slots, AllFound, Lookup.Find, CertificateKey, CertificateMacKey, Image, HoldsCertificate;
    ghost var was, fuse, t := out[..], buf1[..], predata[0x10..0x488];
    Copy(predata, 0x10, out, 0, 0x478);
    SpliceRead(was, 0, t);
    assert predata[0x10..0x10 + 0x478] == t && predata[..][0x10..0x488] == t;
    assert out[..0x478] == out[..][0..0x478];
    var c := MakeCertificateKeys(buf1);
    assert c[..16] == c[..][..16] && c[16..32] == c[..][16..32];
    CompleteAll(out, c, CertificateKey(fuse), CertificateMacKey(fuse), t);
    ret := UM2(buf1, predata, out, 0x48C, keys, ids, n);
    SlotsHold(out[..], was, fuse, predata[..]);
  }

  lemma SlotsHold(now: seq<byte>, was: seq<byte>, fuse: seq<byte>, predata: seq<byte>)
    requires |fuse| == 8 && 0x488 <= |predata| && 0x48C <= |now| == |was|
    requires now[..0x48C] == Certified(was, fuse, predata)[..0x48C]
    ensures StartsCertified(now, was, fuse, predata)
  {
    hide Certified, HoldsCertificate;
    forall i: nat | i < 6
      ensures HoldsCertificate(now, fuse, predata, i)
    {
      CertifiedSlots(was, fuse, predata, i);
      SameSlot(now, Certified(was, fuse, predata), fuse, predata, i);
    }
  }
}
