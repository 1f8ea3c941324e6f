/** The disk-backed map of spent inpoints (model/disk_parent_spends_map.go): one table per
    disk, keyed by the inpoint with its index folded into the two placement windows. A
    table is an exact set of keys. */
module SpendsMap {
  import opened Common
  import opened Inpoints

  const BUCKET_MIX: nat := 0x9e3779b97f4a7c15
  const SEGMENT_MIX: nat := 0xc2b2ae3d27d4eb4f
  const WORD_BITS: nat := 64
  const WORD: nat := 0x1_0000_0000_0000_0000

  /** The exclusive or of the low n bits. */
  function Xor(a: nat, b: nat, n: nat): nat {
    if n == 0 then 0 else 2 * Xor(a / 2, b / 2, n - 1) + (a % 2 + b % 2) % 2
  }

  lemma BitTwice(p: nat, q: nat)
    requires p < 2 && q < 2
    ensures ((p + q) % 2 + q) % 2 == p
  {
  }

  lemma XorParts(a: nat, b: nat, n: nat)
    requires n > 0
    ensures Xor(a, b, n) / 2 == Xor(a / 2, b / 2, n - 1) && Xor(a, b, n) % 2 == (a % 2 + b % 2) % 2
  {
  }

  lemma {:induction false} XorTwice(a: nat, b: nat, n: nat)
    requires a < Pow2(n)
    ensures Xor(Xor(a, b, n), b, n) == a
    decreases n
  {
    if n > 0 {
      XorParts(a, b, n);
      XorTwice(a / 2, b / 2, n - 1);
      BitTwice(a % 2, b % 2);
    }
  }

  /** The 36 key bytes: two 64-bit windows, the rest of the hash, the index. */
  datatype Key = Key(bucket: nat, segment: nat, tail: seq<nat>, index: nat)

  /** The index is folded into the two placement windows, multiplied by an odd constant each. */
  function InpointKey(i: Inpoint): Key {
    Key(Xor(i.parent.bucket, i.index * BUCKET_MIX % WORD, WORD_BITS),
        Xor(i.parent.segment, i.index * SEGMENT_MIX % WORD, WORD_BITS),
        i.parent.tail, i.index)
  }

  /** A 32-byte hash: two 64-bit windows and sixteen bytes. */
  ghost predicate Proper(i: Inpoint) {
    i.parent.bucket < Pow2(WORD_BITS) && i.parent.segment < Pow2(WORD_BITS) && |i.parent.tail| == 16
  }

  /** Folding the index into the windows loses nothing, because the index itself is kept: different
      inpoints have different keys. */
  lemma {:induction false} KeyIsInjective(i: Inpoint, j: Inpoint)
    requires Proper(i) && Proper(j) && InpointKey(i) == InpointKey(j)
    ensures i == j
  {
    var m, m' := i.index * BUCKET_MIX % WORD, i.index * SEGMENT_MIX % WORD;
    XorTwice(i.parent.bucket, m, WORD_BITS);
    XorTwice(j.parent.bucket, m, WORD_BITS);
    XorTwice(i.parent.segment, m', WORD_BITS);
    XorTwice(j.parent.segment, m', WORD_BITS);
  }

  /** The disk a key goes to: its bytes 16 and 17, little-endian, modulo the number of disks. */
  function Disk(k: Key, disks: nat): nat
    requires disks > 0 && |k.tail| == 16
  {
    (k.tail[0] + 256 * k.tail[1]) % disks
  }

  /** The tables hold the keys of exactly these inpoints, each on its disk. */
  ghost predicate TablesHold(tables: seq<set<Key>>, spent: set<Inpoint>) {
    && |tables| > 0
    && (forall i :: Proper(i) ==> (i in spent <==> InpointKey(i) in tables[Disk(InpointKey(i), |tables|)]))
    && (forall i :: i in spent ==> Proper(i))
  }

  datatype Outcome = Inserted | Existed | Failed

  class DiskParentSpendsMap {
    var tables: seq<set<Key>>
    ghost var spent: set<Inpoint>

    ghost predicate Valid()
      reads this
    {
      TablesHold(tables, spent)
    }

    constructor (disks: nat)
      requires disks > 0
      ensures Valid() && spent == {}
    {
      tables := seq(disks, _ => {});
      spent := {};
    }

    /** Exact set insertion: inserted exactly when the inpoint was not there, whatever shares its
        windows or its disk. `fails` is whether the table refuses, being full; that is an error, never a
        duplicate, and leaves the map as it was. */
    method SetIfNotExists(i: Inpoint, fails: bool) returns (r: Outcome)
      requires Valid() && Proper(i)
      modifies this
      ensures Valid()
      ensures r == if fails then Failed else if i in old(spent) then Existed else Inserted
      ensures spent == if fails then old(spent) else old(spent) + {i}
    {
      if fails {
        return Failed;
      }
      var key := InpointKey(i);
      var disk := Disk(key, |tables|);
      r := if key in tables[disk] then Existed else Inserted;
      if r.Inserted? {
        tables := tables[disk := tables[disk] + {key}];
        spent := spent + {i};
        forall j | Proper(j) ensures j in spent <==> InpointKey(j) in tables[Disk(InpointKey(j), |tables|)] {
          if InpointKey(j) == key {
            KeyIsInjective(i, j);
          }
        }
      }
    }
  }
}
