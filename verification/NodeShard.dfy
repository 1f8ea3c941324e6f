/** One shard of the hash-free transaction index (model/block_node_index.go): an
    open-addressing table of ten-slot buckets that stores a fingerprint and a node
    index per entry, and reads the key back through `hashAt`. Bucket b's slots are
    positions 10*b up to 10*b + 9 of `slots`. Both `hashAt` and `hash` are arbitrary
    functions, so hash and fingerprint collisions are covered. */
module NodeShard {
  import opened Inpoints

  type Hash = TxHash
  type Word = w: nat | w < 0x1_0000_0000_0000_0000

  const SLOTS: nat := 10

  /** hashAt gives the node hash at an index, hash the 64-bit hash of a node hash. */
  datatype Env = Env(hashAt: nat -> Hash, hash: Hash -> Word)

  datatype Slot = Free | Used(fp: nat, idx: nat)

  datatype Shard = Shard(slots: seq<Slot>, buckets: nat, n: nat)

  // ------------------------------------------------------------ where a key goes

  function Fingerprint(h: Word): (fp: nat)
    ensures 1 <= fp < 0x1_0000
  {
    if h % 0x1_0000 == 0 then 1 else h % 0x1_0000
  }

  /** The high word of the 128-bit product of the hash and the bucket count. */
  function Home(h: Word, buckets: nat): nat {
    h * buckets / 0x1_0000_0000_0000_0000
  }

  lemma {:induction false} HomeInRange(h: Word, buckets: nat)
    requires buckets > 0
    ensures Home(h, buckets) < buckets
  {
    var w := 0x1_0000_0000_0000_0000;
    ProductBelow(h, w, buckets);
    QuotientBelow(h * buckets, w, buckets);
  }

  lemma {:induction false} ProductBelow(h: nat, w: nat, buckets: nat)
    requires h < w && buckets > 0
    ensures h * buckets < w * buckets
  {
  }

  lemma {:induction false} QuotientBelow(x: nat, w: nat, b: nat)
    requires w > 0 && x < w * b
    ensures x / w < b
  {
    ProductAtLeast(x / w, b, w);
    assert x == w * (x / w) + x % w;
  }

  lemma {:induction false} ProductAtLeast(q: nat, b: nat, w: nat)
    ensures q >= b ==> w * q >= w * b
  {
  }

  /** The position `d` slots along the probe path from bucket `home`. */
  function Probe(home: nat, buckets: nat, d: nat): (k: nat)
    requires home < buckets && d < SLOTS * buckets
    ensures k < SLOTS * buckets
  {
    if SLOTS * home + d < SLOTS * buckets then SLOTS * home + d else SLOTS * home + d - SLOTS * buckets
  }

  /** How far along that path position `k` lies. */
  function Distance(home: nat, buckets: nat, k: nat): (d: nat)
    requires home < buckets && k < SLOTS * buckets
    ensures d < SLOTS * buckets && Probe(home, buckets, d) == k
  {
    if k >= SLOTS * home then k - SLOTS * home else k + SLOTS * buckets - SLOTS * home
  }

  // ------------------------------------------------------------ the invariant

  ghost predicate Shape(slots: seq<Slot>, buckets: nat) {
    buckets > 0 && |slots| == SLOTS * buckets
  }

  /** The first `d` slots of the probe path from `home` are all used. */
  ghost predicate HoleFree(slots: seq<Slot>, buckets: nat, home: nat, d: nat)
    requires Shape(slots, buckets) && home < buckets && d <= SLOTS * buckets
  {
    forall c: nat :: c < d ==> slots[Probe(home, buckets, c)].Used?
  }

  function KeyOf(env: Env, slot: Slot): Hash
    requires slot.Used?
  {
    env.hashAt(slot.idx)
  }

  /** The entry at `k` has its key's fingerprint and a probe path without holes up to it. */
  ghost predicate WellPlaced(env: Env, slots: seq<Slot>, buckets: nat, k: nat)
    requires Shape(slots, buckets) && k < |slots|
  {
    slots[k].Used? ==>
      var h := env.hash(KeyOf(env, slots[k]));
      HomeInRange(h, buckets);
      && slots[k].fp == Fingerprint(h)
      && HoleFree(slots, buckets, Home(h, buckets), Distance(Home(h, buckets), buckets, k))
  }

  ghost predicate AllPlaced(env: Env, slots: seq<Slot>, buckets: nat)
    requires Shape(slots, buckets)
  {
    forall k: nat :: k < |slots| ==> WellPlaced(env, slots, buckets, k)
  }

  ghost predicate DistinctKeys(env: Env, slots: seq<Slot>) {
    forall i: nat, j: nat :: i < |slots| && j < |slots| && slots[i].Used? && slots[j].Used? && i != j ==>
      KeyOf(env, slots[i]) != KeyOf(env, slots[j])
  }

  /** The table is the finite map m: it holds m's entries and no others. */
  ghost predicate Holds(env: Env, slots: seq<Slot>, m: map<Hash, nat>) {
    && (forall k: nat :: k < |slots| && slots[k].Used? ==>
      KeyOf(env, slots[k]) in m && m[KeyOf(env, slots[k])] == slots[k].idx)
    && (forall key :: key in m ==> Present(env, slots, key, m[key]))
  }

  ghost predicate Present(env: Env, slots: seq<Slot>, key: Hash, idx: nat) {
    exists k: nat :: k < |slots| && slots[k].Used? && slots[k].idx == idx && KeyOf(env, slots[k]) == key
  }

  function CountUsed(slots: seq<Slot>): nat {
    if slots == [] then 0 else CountUsed(slots[..|slots| - 1]) + (if slots[|slots| - 1].Used? then 1 else 0)
  }

  ghost predicate TableOk(env: Env, slots: seq<Slot>, buckets: nat, m: map<Hash, nat>) {
    Shape(slots, buckets) && AllPlaced(env, slots, buckets) && DistinctKeys(env, slots) && Holds(env, slots, m)
  }

  /** A shard between operations: consistent, and at most nine tenths full. */
  ghost predicate ShardOk(env: Env, s: Shard, m: map<Hash, nat>) {
    TableOk(env, s.slots, s.buckets, m) && s.n == CountUsed(s.slots) == |m| && s.n <= (SLOTS - 1) * s.buckets
  }

  // ------------------------------------------------------------ counting

  lemma {:induction false} CountAllUsed(slots: seq<Slot>)
    requires forall k :: 0 <= k < |slots| ==> slots[k].Used?
    ensures CountUsed(slots) == |slots|
  {
    if slots != [] {
      CountAllUsed(slots[..|slots| - 1]);
    }
  }

  lemma {:induction false} CountNone(slots: seq<Slot>)
    requires forall k :: 0 <= k < |slots| ==> slots[k].Free?
    ensures CountUsed(slots) == 0
  {
    if slots != [] {
      CountNone(slots[..|slots| - 1]);
    }
  }

  lemma {:induction false} CountFill(slots: seq<Slot>, k: nat, used: Slot)
    requires k < |slots| && slots[k].Free? && used.Used?
    ensures CountUsed(slots[k := used]) == CountUsed(slots) + 1
  {
    var last := |slots| - 1;
    if k == last {
      assert slots[k := used][..last] == slots[..last];
    } else {
      assert slots[k := used][..last] == slots[..last][k := used];
      CountFill(slots[..last], k, used);
    }
  }

  /** A probe path that never meets a free slot covers the whole table, so the table is full. */
  lemma {:induction false} NoFreeMeansFull(slots: seq<Slot>, buckets: nat, home: nat)
    requires Shape(slots, buckets) && home < buckets && HoleFree(slots, buckets, home, SLOTS * buckets)
    ensures CountUsed(slots) == SLOTS * buckets
  {
    forall k | 0 <= k < |slots| ensures slots[k].Used? {
      var d := Distance(home, buckets, k);
    }
    CountAllUsed(slots);
  }

  // ------------------------------------------------------------ finding a key

  /** No slot in the first `d` of the path is free or holds the key. */
  ghost predicate Passed(env: Env, slots: seq<Slot>, buckets: nat, home: nat, d: nat, key: Hash)
    requires Shape(slots, buckets) && home < buckets && d <= SLOTS * buckets
  {
    forall c: nat :: c < d ==>
      slots[Probe(home, buckets, c)].Used? && KeyOf(env, slots[Probe(home, buckets, c)]) != key
  }

  lemma {:induction false} PassedMeansHoleFree(env: Env, slots: seq<Slot>, buckets: nat, home: nat, d: nat, key: Hash)
    requires Shape(slots, buckets) && home < buckets && d <= SLOTS * buckets
      && Passed(env, slots, buckets, home, d, key)
    ensures HoleFree(slots, buckets, home, d)
  {
  }

  /** A path passed up to a free slot proves the key absent. */
  lemma {:induction false} FreeSlotMeansAbsent(env: Env, slots: seq<Slot>, buckets: nat, m: map<Hash, nat>, key: Hash,
        d: nat)
    requires TableOk(env, slots, buckets, m) && d < SLOTS * buckets
    requires Home(env.hash(key), buckets) < buckets
    requires Passed(env, slots, buckets, Home(env.hash(key), buckets), d, key)
    requires slots[Probe(Home(env.hash(key), buckets), buckets, d)].Free?
    ensures key !in m
  {
    var home := Home(env.hash(key), buckets);
    forall k: nat | k < |slots| && slots[k].Used? ensures KeyOf(env, slots[k]) != key {
      var at := Distance(home, buckets, k);
      assert at < d ==> KeyOf(env, slots[Probe(home, buckets, at)]) != key;
      assert WellPlaced(env, slots, buckets, k);
    }
    assert key in m ==> Present(env, slots, key, m[key]);
  }

  /** The bucket after `r` steps from the home bucket. */
  function BucketAt(home: nat, buckets: nat, r: nat): nat
    requires home < buckets && r < buckets
  {
    if home + r < buckets then home + r else home + r - buckets
  }

  lemma {:induction false} ProbeOfBucket(home: nat, buckets: nat, r: nat, slot: nat)
    requires home < buckets && r < buckets && slot < SLOTS
    ensures SLOTS * r + slot < SLOTS * buckets
    ensures Probe(home, buckets, SLOTS * r + slot) == SLOTS * BucketAt(home, buckets, r) + slot
  {
  }

  /** Where the probe of a key ends: on the key, or on the first free slot of its path. */
  ghost predicate FoundAt(env: Env, slots: seq<Slot>, buckets: nat, key: Hash, k: nat, found: bool)
    requires Shape(slots, buckets)
  {
    var home := Home(env.hash(key), buckets);
    && k < |slots|
    && home < buckets
    && (if found then slots[k].Used? && KeyOf(env, slots[k]) == key
        else slots[k].Free? && HoleFree(slots, buckets, home, Distance(home, buckets, k)))
  }

  /** Slot k is where the path of the key is after d slots without it. */
  ghost predicate ProbedTo(env: Env, slots: seq<Slot>, buckets: nat, key: Hash, d: nat, k: nat)
    requires Shape(slots, buckets)
  {
    var home := Home(env.hash(key), buckets);
    home < buckets && d < SLOTS * buckets && k == Probe(home, buckets, d) < |slots|
      && Passed(env, slots, buckets, home, d, key)
  }

  lemma {:induction false} EndsOnFree(env: Env, slots: seq<Slot>, buckets: nat, m: map<Hash, nat>, key: Hash, d: nat,
        k: nat)
    requires TableOk(env, slots, buckets, m) && ProbedTo(env, slots, buckets, key, d, k) && slots[k].Free?
    ensures key !in m && FoundAt(env, slots, buckets, key, k, false)
  {
    PassedMeansHoleFree(env, slots, buckets, Home(env.hash(key), buckets), d, key);
    FreeSlotMeansAbsent(env, slots, buckets, m, key, d);
  }

  lemma {:induction false} EndsOnKey(env: Env, slots: seq<Slot>, buckets: nat, m: map<Hash, nat>, key: Hash, d: nat,
        k: nat)
    requires TableOk(env, slots, buckets, m) && ProbedTo(env, slots, buckets, key, d, k)
    requires slots[k].Used? && KeyOf(env, slots[k]) == key
    ensures key in m && slots[k].idx == m[key] && FoundAt(env, slots, buckets, key, k, true)
  {
  }

  lemma {:induction false} PassesOn(env: Env, slots: seq<Slot>, buckets: nat, m: map<Hash, nat>, key: Hash, d: nat,
        k: nat, next: nat)
    requires TableOk(env, slots, buckets, m) && ProbedTo(env, slots, buckets, key, d, k) && next == d + 1
    requires slots[k].Used? && !(slots[k].fp == Fingerprint(env.hash(key)) && KeyOf(env, slots[k]) == key)
    ensures Passed(env, slots, buckets, Home(env.hash(key), buckets), next, key)
  {
    assert WellPlaced(env, slots, buckets, k);
  }

  /** find: scans bucket after bucket from the home bucket. The table is never full, so the scan
      always ends on the key or on a free slot, and the panic after the scan cannot be reached. */
  method Find(env: Env, slots: seq<Slot>, buckets: nat, ghost m: map<Hash, nat>, key: Hash, h: Word)
    returns (b: nat, slot: nat, found: bool)
    requires TableOk(env, slots, buckets, m) && h == env.hash(key) && CountUsed(slots) < SLOTS * buckets
    ensures b < buckets && slot < SLOTS && SLOTS * b + slot < |slots|
    ensures found <==> key in m
    ensures found ==> slots[SLOTS * b + slot].Used? && slots[SLOTS * b + slot].idx == m[key]
    ensures FoundAt(env, slots, buckets, key, SLOTS * b + slot, found)
  {
    HomeInRange(h, buckets);
    ghost var home := Home(h, buckets);
    var fp := Fingerprint(h);
    b := Home(h, buckets);
    for r := 0 to buckets
      invariant b == (if r < buckets then BucketAt(home, buckets, r) else home) && b < buckets
      invariant Passed(env, slots, buckets, home, SLOTS * r, key)
    {
      slot := 0;
      while slot < SLOTS
        invariant slot <= SLOTS
        invariant Passed(env, slots, buckets, home, SLOTS * r + slot, key)
      {
        ProbeOfBucket(home, buckets, r, slot);
        ghost var d := SLOTS * r + slot;
        var cell := slots[SLOTS * b + slot];
        if cell.Free? {
          EndsOnFree(env, slots, buckets, m, key, d, SLOTS * b + slot);
          return b, slot, false;
        }
        if cell.fp == fp && env.hashAt(cell.idx) == key {
          EndsOnKey(env, slots, buckets, m, key, d, SLOTS * b + slot);
          return b, slot, true;
        }
        slot := slot + 1;
        PassesOn(env, slots, buckets, m, key, d, SLOTS * b + slot - 1, SLOTS * r + slot);
      }
      b := b + 1;
      if b == buckets {
        b := 0;
      }
    }
    PassedMeansHoleFree(env, slots, buckets, home, SLOTS * buckets, key);
    NoFreeMeansFull(slots, buckets, home);
    assert false;
  }

  // ------------------------------------------------------------ adding an entry

  lemma {:induction false} HoleFreeGrows(slots: seq<Slot>, buckets: nat, k: nat, used: Slot, home: nat, d: nat)
    requires Shape(slots, buckets) && k < |slots| && used.Used? && home < buckets && d <= SLOTS * buckets
    requires HoleFree(slots, buckets, home, d)
    ensures HoleFree(slots[k := used], buckets, home, d)
  {
  }

  /** Filling the free slot a probe ended on keeps every path hole-free and adds one map entry. */
  lemma {:induction false} FillKeepsTable(env: Env, slots: seq<Slot>, buckets: nat, m: map<Hash, nat>, key: Hash,
        k: nat, idx: nat)
    requires TableOk(env, slots, buckets, m) && key !in m && env.hashAt(idx) == key
    requires FoundAt(env, slots, buckets, key, k, false)
    ensures TableOk(env, slots[k := Used(Fingerprint(env.hash(key)), idx)], buckets, m[key := idx])
  {
    var used := Used(Fingerprint(env.hash(key)), idx);
    var slots' := slots[k := used];
    forall j: nat | j < |slots'| ensures WellPlaced(env, slots', buckets, j) {
      assert WellPlaced(env, slots, buckets, j);
      if slots'[j].Used? {
        var h := env.hash(KeyOf(env, slots'[j]));
        HomeInRange(h, buckets);
        HoleFreeGrows(slots, buckets, k, used, Home(h, buckets), Distance(Home(h, buckets), buckets, j));
      }
    }
    FillKeepsMap(env, slots, m, key, k, used);
  }

  lemma {:induction false} FillKeepsMap(env: Env, slots: seq<Slot>, m: map<Hash, nat>, key: Hash, k: nat, used: Slot)
    requires Holds(env, slots, m) && DistinctKeys(env, slots) && key !in m
    requires k < |slots| && slots[k].Free? && used.Used? && KeyOf(env, used) == key
    ensures Holds(env, slots[k := used], m[key := used.idx]) && DistinctKeys(env, slots[k := used])
  {
    var slots', m' := slots[k := used], m[key := used.idx];
    forall x | x in m' ensures Present(env, slots', x, m'[x]) {
      if x == key {
        assert slots'[k].Used? && KeyOf(env, slots'[k]) == key;
      } else {
        assert Present(env, slots, x, m[x]);
        var j: nat :| j < |slots| && slots[j].Used? && slots[j].idx == m[x] && KeyOf(env, slots[j]) == x;
        assert slots'[j] == slots[j];
      }
    }
  }

  /** In every bucket the used slots come first. */
  lemma {:induction false} BucketPrefix(env: Env, slots: seq<Slot>, buckets: nat, b: nat, i: nat, j: nat)
    requires Shape(slots, buckets) && AllPlaced(env, slots, buckets)
    requires b < buckets && i <= j < SLOTS && slots[SLOTS * b + j].Used?
    ensures slots[SLOTS * b + i].Used?
  {
    var k := SLOTS * b + j;
    assert WellPlaced(env, slots, buckets, k);
    var home := Home(env.hash(KeyOf(env, slots[k])), buckets);
    HomeInRange(env.hash(KeyOf(env, slots[k])), buckets);
    var d := Distance(home, buckets, k);
    if i < j {
      var c := d - (j - i);
      assert Probe(home, buckets, c) == SLOTS * b + i;
    }
  }

  /** The search for a free slot in grow. */
  method FirstFree(env: Env, slots: seq<Slot>, buckets: nat, ghost m: map<Hash, nat>, ghost key: Hash, h: Word)
    returns (k: nat)
    requires TableOk(env, slots, buckets, m) && h == env.hash(key) && CountUsed(slots) < SLOTS * buckets
    ensures FoundAt(env, slots, buckets, key, k, false)
  {
    HomeInRange(h, buckets);
    ghost var home := Home(h, buckets);
    var b := Home(h, buckets);
    ghost var r := 0;
    while true
      invariant r < buckets && b == BucketAt(home, buckets, r)
      invariant HoleFree(slots, buckets, home, SLOTS * r)
      decreases buckets - r
    {
      var free := 0;
      while free < SLOTS && slots[SLOTS * b + free].Used?
        invariant free <= SLOTS
        invariant HoleFree(slots, buckets, home, SLOTS * r + free)
      {
        ProbeOfBucket(home, buckets, r, free);
        free := free + 1;
      }
      if free < SLOTS {
        ProbeOfBucket(home, buckets, r, free);
        return SLOTS * b + free;
      }
      if r + 1 == buckets {
        NoFreeMeansFull(slots, buckets, home);
        assert false;
      }
      r := r + 1;
      b := b + 1;
      if b == buckets {
        b := 0;
      }
    }
  }

  // ------------------------------------------------------------ growing

  lemma {:induction false} HoldsUnique(env: Env, slots: seq<Slot>, m: map<Hash, nat>, m': map<Hash, nat>)
    requires Holds(env, slots, m) && Holds(env, slots, m')
    ensures m == m'
  {
    forall key | key in m ensures key in m' && m'[key] == m[key] {
      assert Present(env, slots, key, m[key]);
    }
    forall key | key in m' ensures key in m {
      assert Present(env, slots, key, m'[key]);
    }
  }

  lemma {:induction false} HoldsNext(env: Env, slots: seq<Slot>, pos: nat, m: map<Hash, nat>)
    requires pos < |slots| && slots[pos].Used? && DistinctKeys(env, slots) && Holds(env, slots[..pos], m)
    ensures KeyOf(env, slots[pos]) !in m
    ensures Holds(env, slots[..pos + 1], m[KeyOf(env, slots[pos]) := slots[pos].idx])
    ensures CountUsed(slots[..pos + 1]) == CountUsed(slots[..pos]) + 1
  {
    var pre, next := slots[..pos], slots[..pos + 1];
    var key := KeyOf(env, slots[pos]);
    assert forall k :: 0 <= k < pos ==> pre[k] == slots[k];
    assert key in m ==> Present(env, pre, key, m[key]);
    var m' := m[key := slots[pos].idx];
    forall x | x in m' ensures Present(env, next, x, m'[x]) {
      if x == key {
        assert next[pos] == slots[pos];
      } else {
        assert Present(env, pre, x, m[x]);
        var k: nat :| k < |pre| && pre[k].Used? && pre[k].idx == m[x] && KeyOf(env, pre[k]) == x;
        assert next[k] == pre[k];
      }
    }
    forall k: nat | k < |next| && next[k].Used?
      ensures KeyOf(env, next[k]) in m' && m'[KeyOf(env, next[k])] == next[k].idx {
      if k < pos {
        assert pre[k] == next[k];
      }
    }
    assert next[..pos] == pre;
  }

  lemma {:induction false} HoldsSkip(env: Env, slots: seq<Slot>, pos: nat, end: nat, m: map<Hash, nat>)
    requires pos <= end <= |slots| && Holds(env, slots[..pos], m)
    requires forall k :: pos <= k < end ==> slots[k].Free?
    ensures Holds(env, slots[..end], m) && CountUsed(slots[..end]) == CountUsed(slots[..pos])
    decreases end - pos
  {
    if pos < end {
      var pre, next := slots[..pos], slots[..pos + 1];
      assert next[..pos] == pre;
      forall key | key in m ensures Present(env, next, key, m[key]) {
        assert Present(env, pre, key, m[key]);
        var k: nat :| k < |pre| && pre[k].Used? && pre[k].idx == m[key] && KeyOf(env, pre[k]) == key;
        assert next[k] == pre[k];
      }
      forall k: nat | k < |next| && next[k].Used?
        ensures KeyOf(env, next[k]) in m && m[KeyOf(env, next[k])] == next[k].idx {
        assert pre[k] == next[k];
      }
      HoldsSkip(env, slots, pos + 1, end, m);
    }
  }

  lemma {:induction false} EmptyTable(env: Env, buckets: nat)
    requires buckets > 0
    ensures
      var slots := seq(SLOTS * buckets, _ => Free);
      TableOk(env, slots, buckets, map[]) && CountUsed(slots) == 0
  {
    CountNone(seq(SLOTS * buckets, _ => Free));
  }

  /** What grow has moved once the old slots before `pos` are done. */
  ghost predicate Moved(env: Env, old_: seq<Slot>, pos: nat, slots: seq<Slot>, buckets: nat, m: map<Hash, nat>) {
    && pos <= |old_| && Holds(env, old_[..pos], m)
    && TableOk(env, slots, buckets, m)
    && CountUsed(slots) == CountUsed(old_[..pos]) <= pos
  }

  lemma {:induction false} MoveOne(env: Env, old_: seq<Slot>, pos: nat, slots: seq<Slot>, buckets: nat,
        m: map<Hash, nat>, k: nat, next: nat, slots': seq<Slot>, m': map<Hash, nat>)
    requires Moved(env, old_, pos, slots, buckets, m) && DistinctKeys(env, old_)
    requires pos < |old_| && old_[pos].Used? && next == pos + 1
    requires FoundAt(env, slots, buckets, KeyOf(env, old_[pos]), k, false)
    requires slots' == slots[k := Used(Fingerprint(env.hash(KeyOf(env, old_[pos]))), old_[pos].idx)]
    requires m' == m[KeyOf(env, old_[pos]) := old_[pos].idx]
    ensures Moved(env, old_, next, slots', buckets, m')
  {
    var key, idx := KeyOf(env, old_[pos]), old_[pos].idx;
    var used := Used(Fingerprint(env.hash(key)), idx);
    HoldsNext(env, old_, pos, m);
    FillKeepsTable(env, slots, buckets, m, key, k, idx);
    CountFill(slots, k, used);
  }

  lemma {:induction false} MoveSkip(env: Env, old_: seq<Slot>, oldBuckets: nat, b: nat, slot: nat, slots: seq<Slot>,
        buckets: nat, m: map<Hash, nat>)
    requires Shape(old_, oldBuckets) && AllPlaced(env, old_, oldBuckets) && b < oldBuckets && slot <= SLOTS
    requires Moved(env, old_, SLOTS * b + slot, slots, buckets, m)
    requires slot < SLOTS ==> old_[SLOTS * b + slot].Free?
    ensures Moved(env, old_, SLOTS * b + SLOTS, slots, buckets, m)
  {
    var pos, end := SLOTS * b + slot, SLOTS * b + SLOTS;
    forall k | pos <= k < end ensures old_[k].Free? {
      if old_[k].Used? {
        BucketPrefix(env, old_, oldBuckets, b, slot, k - SLOTS * b);
        assert false;
      }
    }
    HoldsSkip(env, old_, pos, end, m);
  }

  /** The part of grow that rehashes one bucket. Skipping the rest of the bucket at its first free
      slot loses nothing, because used slots come first. */
  method MoveBucket(env: Env, old_: seq<Slot>, ghost oldBuckets: nat, b: nat, slots: seq<Slot>, buckets: nat,
        ghost m: map<Hash, nat>)
    returns (slots': seq<Slot>, ghost m': map<Hash, nat>)
    requires Shape(old_, oldBuckets) && AllPlaced(env, old_, oldBuckets) && DistinctKeys(env, old_)
    requires b < oldBuckets && buckets == 2 * oldBuckets && Moved(env, old_, SLOTS * b, slots, buckets, m)
    ensures Moved(env, old_, SLOTS * b + SLOTS, slots', buckets, m')
  {
    slots', m' := slots, m;
    var slot := 0;
    while slot < SLOTS && old_[SLOTS * b + slot].Used?
      invariant slot <= SLOTS
      invariant Moved(env, old_, SLOTS * b + slot, slots', buckets, m')
    {
      var idx := old_[SLOTS * b + slot].idx;
      var h := env.hash(env.hashAt(idx));
      var k := FirstFree(env, slots', buckets, m', env.hashAt(idx), h);
      ghost var pos, was, wasMap := SLOTS * b + slot, slots', m';
      slots' := slots'[k := Used(Fingerprint(h), idx)];
      m' := m'[env.hashAt(idx) := idx];
      slot := slot + 1;
      MoveOne(env, old_, pos, was, buckets, wasMap, k, SLOTS * b + slot, slots', m');
    }
    MoveSkip(env, old_, oldBuckets, b, slot, slots', buckets, m');
  }

  /** grow doubles the table, rehashing every entry from its node hash. */
  method Grow(env: Env, s: Shard, ghost m: map<Hash, nat>) returns (s': Shard)
    requires TableOk(env, s.slots, s.buckets, m)
    ensures s'.buckets == 2 * s.buckets && s'.n == s.n
    ensures TableOk(env, s'.slots, s'.buckets, m) && CountUsed(s'.slots) == CountUsed(s.slots)
  {
    var buckets := 2 * s.buckets;
    var slots := seq(SLOTS * buckets, _ => Free);
    ghost var moved: map<Hash, nat> := map[];
    EmptyTable(env, buckets);
    assert s.slots[..0] == [];
    for b := 0 to s.buckets
      invariant Moved(env, s.slots, SLOTS * b, slots, buckets, moved)
    {
      slots, moved := MoveBucket(env, s.slots, s.buckets, b, slots, buckets, moved);
    }
    assert s.slots[..SLOTS * s.buckets] == s.slots;
    HoldsUnique(env, s.slots, m, moved);
    return Shard(slots, buckets, s.n);
  }

  /** Writes the entry into the free slot the probe ended on. */
  method Fill(env: Env, s: Shard, ghost m: map<Hash, nat>, ghost key: Hash, h: Word, b: nat, slot: nat, idx: nat)
    returns (s': Shard)
    requires ShardOk(env, s, m) && s.n + 1 <= (SLOTS - 1) * s.buckets
    requires key !in m && env.hashAt(idx) == key && h == env.hash(key)
    requires FoundAt(env, s.slots, s.buckets, key, SLOTS * b + slot, false)
    ensures ShardOk(env, s', m[key := idx])
    ensures s'.buckets == s.buckets
  {
    ghost var k := SLOTS * b + slot;
    FillKeepsTable(env, s.slots, s.buckets, m, key, k, idx);
    CountFill(s.slots, k, Used(Fingerprint(h), idx));
    s' := Shard(s.slots[SLOTS * b + slot := Used(Fingerprint(h), idx)], s.buckets, s.n + 1);
  }

  /** insert's growth check: afterwards one more entry keeps the table at most nine tenths full. */
  method MakeRoom(env: Env, s: Shard, ghost m: map<Hash, nat>) returns (s': Shard, grew: bool)
    requires ShardOk(env, s, m)
    ensures ShardOk(env, s', m) && s'.n + 1 <= (SLOTS - 1) * s'.buckets
    ensures if grew then s'.buckets == 2 * s.buckets else s' == s
    ensures grew <==> s.n + 1 > (SLOTS - 1) * s.buckets
  {
    s', grew := s, s.n + 1 > s.buckets * (SLOTS - 1);
    if grew {
      s' := Grow(env, s, m);
    }
  }

  /** insert: adds nothing and reports false exactly when the key is present. */
  method Insert(env: Env, s: Shard, ghost m: map<Hash, nat>, key: Hash, h: Word, idx: nat)
    returns (s': Shard, added: bool)
    requires ShardOk(env, s, m) && h == env.hash(key) && env.hashAt(idx) == key
    ensures added <==> key !in m
    ensures !added ==> s' == s
    ensures added ==> ShardOk(env, s', m[key := idx])
    ensures added ==> s'.buckets == if s.n + 1 > (SLOTS - 1) * s.buckets then 2 * s.buckets else s.buckets
  {
    var b, slot, found := Find(env, s.slots, s.buckets, m, key, h);
    if found {
      return s, false;
    }
    added := true;
    var room, grew := MakeRoom(env, s, m);
    if grew {
      b, slot, found := Find(env, room.slots, room.buckets, m, key, h);
      s' := Fill(env, room, m, key, h, b, slot, idx);
    } else {
      s' := Fill(env, s, m, key, h, b, slot, idx);
    }
  }
}
