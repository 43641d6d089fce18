/** The disc-key lookup of modules/idsregeneration/main.c: a hand-written decision tree over twelve
    known ids in front of a table. */
module KeyLookup {
  import opened Bytes
  import opened Words

  newtype u32 = x: int | 0 <= x < 0x1_0000_0000

  datatype UmdId = UmdId(t: u32, m: u32)

  datatype UmdKey = UmdKey(id: UmdId, key: seq<byte>)

  // ----- The comparator

  /** sub_00003E38: the second words are compared first; 0 for less, 1 for equal, 2 for greater. */
  function Compare(a0: u32, a1: u32, a2: u32, a3: u32): int {
    if a1 < a3 then 0
    else if a3 < a1 then 2
    else if a0 < a2 then 0
    else if a2 >= a0 then 1
    else 2
  }

  /** It is the lexicographic order of the pairs, the second word being the more significant. */
  lemma CompareIsOrder(a0: u32, a1: u32, a2: u32, a3: u32)
    ensures Compare(a0, a1, a2, a3) == 1 <==> a0 == a2 && a1 == a3
    ensures Compare(a0, a1, a2, a3) == 0 <==> a1 < a3 || (a1 == a3 && a0 < a2)
    ensures Compare(a0, a1, a2, a3) == 2 <==> Compare(a2, a3, a0, a1) == 0
  {
  }

  // ----- The ids with a key of their own, in ascending order

  const KNOWN: seq<UmdId> :=
    [UmdId(1, 0x70000000), UmdId(0x1000000F, 0x80000000), UmdId(0x1000001F, 0x80000000),
     UmdId(0x1000002F, 0x80000000), UmdId(0x1000003F, 0x80000000), UmdId(0x1000004F, 0x80000000),
     UmdId(0x2000000F, 0x80000000), UmdId(0x3000000F, 0x80000000), UmdId(0x3000001F, 0x80000000),
     UmdId(0x3000002F, 0x80000000), UmdId(0x3000003F, 0x80000000), UmdId(0x3000004F, 0x80000000)]

  /** The decision tree: the position of an id among the known ones, or -1. */
  function TreeIndex(p1: u32, p2: u32): int {
    var root := Compare(p1, p2, 0x1000004F, 0x80000000);
    if root == 1 then 5
    else if root >= 2 then
      var x := Compare(p1, p2, 0x3000001F, 0x80000000);
      if x == 1 then 8
      else if x >= 2 then
        var y := Compare(p1, p2, 0x3000003F, 0x80000000);
        if y == 1 then 10
        else if y >= 2 then if Compare(p1, p2, 0x3000004F, 0x80000000) == 1 then 11 else -1
        else if Compare(p1, p2, 0x3000002F, 0x80000000) == 1 then 9
        else -1
      else if Compare(p1, p2, 0x2000000F, 0x80000000) == 1 then 6
      else if Compare(p1, p2, 0x3000000F, 0x80000000) == 1 then 7
      else -1
    else
      var x := Compare(p1, p2, 0x1000001F, 0x80000000);
      if x == 1 then 2
      else if x >= 2 then
        if Compare(p1, p2, 0x1000002F, 0x80000000) == 1 then 3
        else if Compare(p1, p2, 0x1000003F, 0x80000000) == 1 then 4
        else -1
      else if Compare(p1, p2, 1, 0x70000000) == 1 then 0
      else if Compare(p1, p2, 0x1000000F, 0x80000000) == 1 then 1
      else -1
  }

  lemma HitIsEqual(p1: u32, p2: u32)
    ensures -1 <= TreeIndex(p1, p2) < 12
    ensures 0 <= TreeIndex(p1, p2) ==> KNOWN[TreeIndex(p1, p2)] == UmdId(p1, p2)
  {
  }

  lemma KnownAreHit(i: nat)
    requires i < 12
    ensures TreeIndex(KNOWN[i].t, KNOWN[i].m) == i
  {
  }

  /** The tree finds exactly what a plain equality search finds. */
  lemma TreeIsSearch(p1: u32, p2: u32, i: nat)
    requires i < 12
    ensures TreeIndex(p1, p2) == i <==> KNOWN[i] == UmdId(p1, p2)
  {
    hide TreeIndex;
    HitIsEqual(p1, p2);
    KnownAreHit(i);
  }

  // ----- The lookup as plain search

  function Search(table: seq<UmdKey>, id: UmdId): Option<seq<byte>> {
    if table == [] then None
    else if table[0].id == id then Some(table[0].key)
    else Search(table[1..], id)
  }

  predicate KeyData(known: seq<seq<byte>>, table: seq<UmdKey>) {
    |known| == 12 && (forall k | k in known :: |k| == 16) && (forall e | e in table :: |e.key| == 16)
  }

  /** The twelve known ids with their keys, as one more table. */
  function KnownTable(known: seq<seq<byte>>): (r: seq<UmdKey>)
    requires |known| == 12
    ensures |r| == 12
  {
    seq(12, i requires 0 <= i < 12 => UmdKey(KNOWN[i], known[i]))
  }

  /** The key of an id: the known ids first, then the table. */
  function FindKey(known: seq<seq<byte>>, table: seq<UmdKey>, id: UmdId): Option<seq<byte>>
    requires |known| == 12
  {
    Search(KnownTable(known) + table, id)
  }

  lemma {:induction false} SearchHit(table: seq<UmdKey>, rest: seq<UmdKey>, i: nat)
    requires i < |table| && forall j: nat | j < i :: table[j].id != table[i].id
    ensures Search(table + rest, table[i].id) == Some(table[i].key)
  {
    if i != 0 {
      assert (table + rest)[1..] == table[1..] + rest;
      SearchHit(table[1..], rest, i - 1);
    }
  }

  lemma {:induction false} SearchMiss(table: seq<UmdKey>, rest: seq<UmdKey>, id: UmdId)
    requires forall j: nat | j < |table| :: table[j].id != id
    ensures Search(table + rest, id) == Search(rest, id)
  {
    if table == [] {
      assert table + rest == rest;
    } else {
      assert (table + rest)[1..] == table[1..] + rest;
      SearchMiss(table[1..], rest, id);
    }
  }

  lemma TreeThenTable(known: seq<seq<byte>>, table: seq<UmdKey>, p1: u32, p2: u32)
    requires |known| == 12
    ensures var i := TreeIndex(p1, p2);
            -1 <= i < 12 &&
            FindKey(known, table, UmdId(p1, p2)) == if 0 <= i then Some(known[i]) else Search(table, UmdId(p1, p2))
  {
    hide TreeIndex;
    var i, k := TreeIndex(p1, p2), KnownTable(known);
    HitIsEqual(p1, p2);
    forall j: nat | j < 12
      ensures k[j].id == UmdId(p1, p2) <==> i == j
    {
      TreeIsSearch(p1, p2, j);
    }
    if 0 <= i {
      SearchHit(k, table, i);
    } else {
      SearchMiss(k, table, UmdId(p1, p2));
    }
  }

  lemma {:induction false} FoundKeyIsWhole(table: seq<UmdKey>, id: UmdId)
    requires forall e | e in table :: |e.key| == 16
    ensures Search(table, id).Some? ==> |Search(table, id).value| == 16
  {
    if table != [] {
      FoundKeyIsWhole(table[1..], id);
    }
  }

  /** __sceFactoryGetUMDKey: 0 with the key copied out, or -1 with nothing written. */
  method GetUmdKey(known: seq<seq<byte>>, table: seq<UmdKey>, part1: u32, part2: u32, out: array<byte>, o: nat)
    returns (ret: int)
    requires KeyData(known, table) && o + 16 <= out.Length
    modifies out
    ensures var found := FindKey(known, table, UmdId(part1, part2));
            if found.Some? then ret == 0 && |found.value| == 16 && out[..] == Splice(old(out[..]), o, found.value)
            else ret == -1 && out[..] == old(out[..])
  {
    hide TreeIndex;
    ghost var id := UmdId(part1, part2);
    TreeThenTable(known, table, part1, part2);
    FoundKeyIsWhole(table, id);
    var key: Option<seq<byte>> := None;
    ret := 0;
    var x := TreeIndex(part1, part2);
    if 0 <= x {
      key := Some(known[x]);
    } else {
      ret := -1;
    }
    if key == None {
      var i := 0;
      while i < |table|
        invariant 0 <= i <= |table| && key == None && ret == -1
        invariant Search(table, id) == Search(table[i..], id)
      {
        if table[i].id.t == part1 && table[i].id.m == part2 {
          key := Some(table[i].key);
          ret := 0;
          break;
        }
        i := i + 1;
      }
    }
    if key == None {
      return ret;
    }
    PutBytes(out, o, key.value);
  }
}
