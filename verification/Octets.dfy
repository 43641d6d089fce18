/** Unsigned bytes as numbers, and little-endian words made of them. */
module Octets {
  newtype octet = x: int | 0 <= x < 256

  function Little16(b: seq<octet>): (n: nat)
    requires |b| == 2
    ensures n < 0x10000
  {
    b[0] as nat + 0x100 * (b[1] as nat)
  }

  function Little32(b: seq<octet>): (n: nat)
    requires |b| == 4
    ensures n < 0x1_0000_0000
  {
    b[0] as nat + 0x100 * (b[1] as nat) + 0x10000 * (b[2] as nat) + 0x1000000 * (b[3] as nat)
  }

  function Low(n: nat): octet { (n % 256) as octet }

  function Put16(n: nat): (b: seq<octet>)
    ensures |b| == 2
  {
    [Low(n), Low(n / 0x100)]
  }

  function Put32(n: nat): (b: seq<octet>)
    ensures |b| == 4
  {
    [Low(n), Low(n / 0x100), Low(n / 0x10000), Low(n / 0x1000000)]
  }

  /** Storing and loading a half-word or a word gives its value back. */
  lemma LoadStored16(n: nat)
    requires n < 0x10000
    ensures Little16(Put16(n)) == n
  {
  }

  lemma LoadStored32(n: nat)
    requires n < 0x1_0000_0000
    ensures Little32(Put32(n)) == n
  {
    var a, b, c := n / 0x100, n / 0x10000, n / 0x1000000;
    assert b == a / 0x100 && c == b / 0x100;
  }
}
