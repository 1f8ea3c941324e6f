/** The sharded transaction index (model/block_node_index.go): Put, Get, and the bulk
    operations putRange and getBatch. The ghost map `contents` is what the index
    stands for; every operation is specified by it. */
module NodeIndex {
  import opened CountingSort
  import opened NodeShard

  const PUT_RANGE_CHUNK: nat := 0x4_0000
  const MAX_NODE_SHARDS: nat := 8192
  const ENTRIES_PER_SHARD: nat := 2048
  const INDEX_LIMIT: nat := 0x1_0000_0000

  datatype PutResult = Added | TxExists | FrozenError

  /** A node to insert, by its index, with the table hash already computed. */
  datatype NodePut = NodePut(h: Word, idx: nat)

  datatype Lookup = Lookup(hash: Hash, h: Word, idx: nat, found: bool)

  // ------------------------------------------------------------ putting one at a time, as maps

  /** Shard counts are powers of two, so masking the shifted hash is taking it modulo the count. */
  function ShardIndex(h: Word, numShards: nat): nat
    requires numShards > 0
  {
    h / 0x1_0000 % numShards
  }

  function ShardOf(env: Env, numShards: nat, key: Hash): nat
    requires numShards > 0
  {
    ShardIndex(env.hash(key), numShards)
  }

  /** The entries of m that belong to shard s. */
  ghost function Part(env: Env, numShards: nat, m: map<Hash, nat>, s: nat): map<Hash, nat>
    requires numShards > 0
  {
    map key | key in m && ShardOf(env, numShards, key) == s :: m[key]
  }

  /** The map after a Put of each entry in order; a Put of a key that is present adds nothing. */
  ghost function AddAll(env: Env, m: map<Hash, nat>, es: seq<NodePut>): map<Hash, nat> {
    if es == [] then m
    else
      var before, idx := AddAll(env, m, es[..|es| - 1]), es[|es| - 1].idx;
      if env.hashAt(idx) in before then before else before[env.hashAt(idx) := idx]
  }

  /** The Put of entry k fails: its key is in m or was put by an earlier entry. */
  ghost predicate Repeats(env: Env, m: map<Hash, nat>, es: seq<NodePut>, k: nat)
    requires k < |es|
  {
    env.hashAt(es[k].idx) in m || exists j :: 0 <= j < k && env.hashAt(es[j].idx) == env.hashAt(es[k].idx)
  }

  ghost predicate FirstRepeat(env: Env, m: map<Hash, nat>, es: seq<NodePut>, k: nat) {
    k < |es| && Repeats(env, m, es, k) && forall j: nat :: j < k ==> !Repeats(env, m, es, j)
  }

  ghost predicate NoRepeat(env: Env, m: map<Hash, nat>, es: seq<NodePut>) {
    forall k: nat :: k < |es| ==> !Repeats(env, m, es, k)
  }

  /** The entries of the index range [lo, lo + n). */
  ghost function Puts(env: Env, lo: nat, n: nat): (es: seq<NodePut>)
    ensures |es| == n && forall i :: 0 <= i < n ==> es[i] == NodePut(env.hash(env.hashAt(lo + i)), lo + i)
  {
    seq(n, i requires 0 <= i < n => NodePut(env.hash(env.hashAt(lo + i)), lo + i))
  }

  ghost predicate HashesRight(env: Env, es: seq<NodePut>) {
    forall k :: 0 <= k < |es| ==> es[k].h == env.hash(env.hashAt(es[k].idx))
  }

  /** The keys after adding: those of m and those of the entries. */
  lemma {:induction false} AddAllKeys(env: Env, m: map<Hash, nat>, es: seq<NodePut>, key: Hash)
    ensures key in AddAll(env, m, es) <==> key in m || exists j :: 0 <= j < |es| && env.hashAt(es[j].idx) == key
  {
    if es != [] {
      var pre, last := es[..|es| - 1], es[|es| - 1];
      AddAllKeys(env, m, pre, key);
      if env.hashAt(last.idx) == key {
        assert env.hashAt(es[|es| - 1].idx) == key;
      } else {
        assert forall j :: 0 <= j < |es| && env.hashAt(es[j].idx) == key ==> j < |pre| && pre[j] == es[j];
        assert forall j :: 0 <= j < |pre| ==> pre[j] == es[j];
      }
    }
  }

  /** Where an entry after adding comes from: m, or one of the entries put. */
  lemma {:induction false} AddAllOrigin(env: Env, m: map<Hash, nat>, es: seq<NodePut>, key: Hash)
    requires key in AddAll(env, m, es)
    ensures
      var idx := AddAll(env, m, es)[key];
      (key in m && idx == m[key]) || exists j :: 0 <= j < |es| && es[j].idx == idx && env.hashAt(idx) == key
  {
    if es != [] {
      var pre, last := es[..|es| - 1], es[|es| - 1];
      if key in AddAll(env, m, pre) {
        AddAllOrigin(env, m, pre, key);
        assert forall j :: 0 <= j < |pre| ==> pre[j] == es[j];
      } else {
        assert es[|es| - 1].idx == last.idx;
      }
    }
  }

  lemma {:induction false} AddAllNext(env: Env, m: map<Hash, nat>, es: seq<NodePut>, k: nat)
    requires k < |es|
    ensures
      var before, key := AddAll(env, m, es[..k]), env.hashAt(es[k].idx);
      && AddAll(env, m, es[..k + 1]) == (if key in before then before else before[key := es[k].idx])
      && (key in before <==> Repeats(env, m, es, k))
  {
    assert es[..k + 1][..k] == es[..k];
    AddAllKeys(env, m, es[..k], env.hashAt(es[k].idx));
    assert forall j :: 0 <= j < k ==> es[..k][j] == es[j];
  }

  lemma {:induction false} AddAllAppend(env: Env, m: map<Hash, nat>, a: seq<NodePut>, b: seq<NodePut>)
    ensures AddAll(env, m, a + b) == AddAll(env, AddAll(env, m, a), b)
  {
    if b == [] {
      assert a + b == a;
    } else {
      var b' := b[..|b| - 1];
      assert (a + b)[..|a + b| - 1] == a + b';
      AddAllAppend(env, m, a, b');
    }
  }

  lemma {:induction false} RepeatsAppend(env: Env, m: map<Hash, nat>, a: seq<NodePut>, b: seq<NodePut>, k: nat)
    requires k < |b|
    ensures Repeats(env, AddAll(env, m, a), b, k) <==> Repeats(env, m, a + b, |a| + k)
  {
    var ab, at := a + b, |a| + k;
    var key := env.hashAt(b[k].idx);
    assert ab[at] == b[k];
    AddAllKeys(env, m, a, key);
    if Repeats(env, AddAll(env, m, a), b, k) && key !in m {
      if j :| 0 <= j < |a| && env.hashAt(a[j].idx) == key {
        assert ab[j] == a[j];
      } else {
        var j :| 0 <= j < k && env.hashAt(b[j].idx) == key;
        assert ab[|a| + j] == b[j];
      }
    }
    if Repeats(env, m, ab, at) && key !in m {
      var j :| 0 <= j < at && env.hashAt(ab[j].idx) == key;
      if j < |a| {
        assert a[j] == ab[j];
      } else {
        assert b[j - |a|] == ab[j];
      }
    }
  }

  lemma {:induction false} RepeatsPrefix(env: Env, m: map<Hash, nat>, a: seq<NodePut>, b: seq<NodePut>, k: nat)
    requires k < |a|
    ensures Repeats(env, m, a, k) <==> Repeats(env, m, a + b, k)
  {
    assert forall j :: 0 <= j <= k ==> (a + b)[j] == a[j];
  }

  /** Adding works shard by shard: a shard's part of the result depends on its own entries only. */
  lemma {:induction false} PartOfAddAll(env: Env, numShards: nat, m: map<Hash, nat>, es: seq<NodePut>,
        f: NodePut -> nat, s: nat)
    requires numShards > 0 && HashesRight(env, es)
    requires forall e: NodePut :: f(e) == ShardIndex(e.h, numShards)
    ensures Part(env, numShards, AddAll(env, m, es), s) == AddAll(env, Part(env, numShards, m, s), Select(es, f, s))
  {
    if es != [] {
      var pre, last := es[..|es| - 1], es[|es| - 1];
      PartOfAddAll(env, numShards, m, pre, f, s);
      var before := AddAll(env, m, pre);
      var chosen := Select(pre, f, s);
      assert last.h == env.hash(env.hashAt(last.idx));
      if f(last) == s {
        assert (chosen + [last])[..|chosen|] == chosen;
      } else {
        assert chosen + [] == chosen;
      }
    }
  }

  lemma {:induction false} PartsAfterPut(env: Env, numShards: nat, m: map<Hash, nat>, key: Hash, idx: nat)
    requires numShards > 0
    ensures forall s: nat :: s < numShards ==>
      Part(env, numShards, m[key := idx], s) ==
        if s == ShardOf(env, numShards, key) then Part(env, numShards, m, s)[key := idx] else Part(env, numShards, m, s)
  {
  }

  lemma {:induction false} PartsDetermine(env: Env, numShards: nat, m: map<Hash, nat>, m': map<Hash, nat>)
    requires numShards > 0
    requires forall s: nat :: s < numShards ==> Part(env, numShards, m, s) == Part(env, numShards, m', s)
    ensures m == m'
  {
    forall key | key in m ensures key in m' && m'[key] == m[key] {
      var s := ShardOf(env, numShards, key);
      assert key in Part(env, numShards, m, s);
    }
    forall key | key in m' ensures key in m {
      var s := ShardOf(env, numShards, key);
      assert key in Part(env, numShards, m', s);
    }
  }

  // ------------------------------------------------------------ a chunk, shard by shard

  ghost predicate Increasing(es: seq<NodePut>) {
    forall i, j :: 0 <= i < j < |es| ==> es[i].idx < es[j].idx
  }

  lemma {:induction false} SelectKeeps(es: seq<NodePut>, f: NodePut -> nat, s: nat, env: Env)
    requires Increasing(es) && HashesRight(env, es)
    ensures Increasing(Select(es, f, s)) && HashesRight(env, Select(es, f, s))
    ensures forall k :: 0 <= k < |Select(es, f, s)| ==> f(Select(es, f, s)[k]) == s && Select(es, f, s)[k] in es
  {
    if es != [] {
      var pre, last := es[..|es| - 1], es[|es| - 1];
      SelectKeeps(pre, f, s, env);
      var chosen := Select(pre, f, s);
      forall k | 0 <= k < |chosen| ensures chosen[k].idx < last.idx {
        var i :| 0 <= i < |pre| && pre[i] == chosen[k];
      }
    }
  }

  /** An entry repeats within its shard's group exactly when it repeats in the whole list. */
  lemma {:induction false} RepeatsInGroup(env: Env, numShards: nat, m: map<Hash, nat>, m': map<Hash, nat>,
        es: seq<NodePut>, f: NodePut -> nat, s: nat, i: nat, k: nat)
    requires numShards > 0 && HashesRight(env, es) && Increasing(es)
    requires forall e: NodePut :: f(e) == ShardIndex(e.h, numShards)
    requires Part(env, numShards, m, s) == Part(env, numShards, m', s)
    requires i < |es| && f(es[i]) == s && k < |Select(es, f, s)| && Select(es, f, s)[k] == es[i]
    ensures Repeats(env, m', Select(es, f, s), k) <==> Repeats(env, m, es, i)
  {
    var group := Select(es, f, s);
    var key := env.hashAt(es[i].idx);
    assert ShardOf(env, numShards, key) == s;
    assert key in m <==> key in Part(env, numShards, m, s);
    assert key in m' <==> key in Part(env, numShards, m', s);
    if j :| 0 <= j < i && env.hashAt(es[j].idx) == key {
      assert es[j].h == es[i].h && f(es[j]) == s;
      var l := PositionInGroup(es, f, s, j);
      SelectKeeps(es, f, s, env);
      IndexOrder(group, l, k);
    }
    if l :| 0 <= l < k && env.hashAt(group[l].idx) == key {
      var j := PositionInList(es, f, s, l);
      SelectKeeps(es, f, s, env);
      IndexOrder(es, j, i);
    }
  }

  lemma {:induction false} IndexOrder(es: seq<NodePut>, i: nat, j: nat)
    requires Increasing(es) && i < |es| && j < |es| && es[i].idx < es[j].idx
    ensures i < j
  {
  }

  /** The first repeat of the entries whose shard is in `done`: an index, or none. */
  ghost predicate FirstRepeatIn(env: Env, m: map<Hash, nat>, es: seq<NodePut>, f: NodePut -> nat, done: set<nat>,
        found: bool, dup: nat) {
    && (found ==> exists i: nat :: i < |es| && es[i].idx == dup && f(es[i]) in done && Repeats(env, m, es, i))
    && (forall i: nat :: i < |es| && f(es[i]) in done && Repeats(env, m, es, i) ==> found && dup <= es[i].idx)
  }

  /** What putGroup reports for shard s says about the entries of shard s in the whole chunk. */
  lemma {:induction false} GroupVerdict(env: Env, numShards: nat, m: map<Hash, nat>, m': map<Hash, nat>,
        es: seq<NodePut>, f: NodePut -> nat, s: nat, ok: bool, d: nat)
    requires numShards > 0 && HashesRight(env, es) && Increasing(es)
    requires forall e: NodePut :: f(e) == ShardIndex(e.h, numShards)
    requires Part(env, numShards, m, s) == Part(env, numShards, m', s)
    requires ok ==> NoRepeat(env, m', Select(es, f, s))
    requires !ok ==> exists k: nat :: FirstRepeat(env, m', Select(es, f, s), k) && Select(es, f, s)[k].idx == d
    ensures FirstRepeatIn(env, m, es, f, {s}, !ok, d)
  {
    var group := Select(es, f, s);
    forall i: nat | i < |es| && f(es[i]) in {s} && Repeats(env, m, es, i) ensures !ok && d <= es[i].idx {
      var k := PositionInGroup(es, f, s, i);
      RepeatsInGroup(env, numShards, m, m', es, f, s, i, k);
      var first: nat :| FirstRepeat(env, m', group, first) && group[first].idx == d;
      assert first <= k;
      SelectKeeps(es, f, s, env);
    }
    if !ok {
      var first: nat :| FirstRepeat(env, m', group, first) && group[first].idx == d;
      var i := PositionInList(es, f, s, first);
      RepeatsInGroup(env, numShards, m, m', es, f, s, i, first);
    }
  }

  lemma {:induction false} PositionInGroup(es: seq<NodePut>, f: NodePut -> nat, s: nat, i: nat) returns (k: nat)
    requires i < |es| && f(es[i]) == s
    ensures k < |Select(es, f, s)| && Select(es, f, s)[k] == es[i]
  {
    SelectMembers(es, f, s);
    assert es[i] in Select(es, f, s);
    k :| 0 <= k < |Select(es, f, s)| && Select(es, f, s)[k] == es[i];
  }

  lemma {:induction false} PositionInList(es: seq<NodePut>, f: NodePut -> nat, s: nat, k: nat) returns (i: nat)
    requires k < |Select(es, f, s)|
    ensures i < |es| && Select(es, f, s)[k] == es[i] && f(es[i]) == s
  {
    SelectMembers(es, f, s);
    assert Select(es, f, s)[k] in es;
    i :| 0 <= i < |es| && es[i] == Select(es, f, s)[k];
  }

  lemma {:induction false} VerdictsCombine(env: Env, m: map<Hash, nat>, es: seq<NodePut>, f: NodePut -> nat,
        done: set<nat>, found: bool, dup: nat, s: nat, ok: bool, d: nat)
    requires FirstRepeatIn(env, m, es, f, done, found, dup) && FirstRepeatIn(env, m, es, f, {s}, !ok, d)
    ensures
      var better := !ok && (!found || d < dup);
      FirstRepeatIn(env, m, es, f, done + {s}, found || better, if better then d else dup)
  {
  }

  lemma {:induction false} EmptyGroup(env: Env, m: map<Hash, nat>, es: seq<NodePut>, f: NodePut -> nat, s: nat,
        dup: nat)
    requires Select(es, f, s) == []
    ensures FirstRepeatIn(env, m, es, f, {s}, false, dup)
  {
    SelectMembers(es, f, s);
    forall i: nat | i < |es| ensures f(es[i]) != s {
      assert es[i] in es;
    }
  }

  /** Once every shard is done the least repeat found is the first repeat of the chunk. */
  lemma {:induction false} AllShardsVerdict(env: Env, m: map<Hash, nat>, lo: nat, n: nat, f: NodePut -> nat,
        done: set<nat>, found: bool, dup: nat)
    requires FirstRepeatIn(env, m, Puts(env, lo, n), f, done, found, dup)
    requires forall i :: 0 <= i < n ==> f(Puts(env, lo, n)[i]) in done
    ensures found ==> lo <= dup < lo + n && FirstRepeat(env, m, Puts(env, lo, n), dup - lo)
    ensures !found ==> NoRepeat(env, m, Puts(env, lo, n))
  {
    var es := Puts(env, lo, n);
    if found {
      var i: nat :| i < |es| && es[i].idx == dup && f(es[i]) in done && Repeats(env, m, es, i);
      assert i == dup - lo;
    }
  }

  function Shards(numShards: nat): (f: NodePut -> nat)
    requires numShards > 0
    ensures forall e: NodePut :: f(e) == ShardIndex(e.h, numShards) < numShards
  {
    (e: NodePut) => ShardIndex(e.h, numShards)
  }

  /** The shards in `done` have their entries added, the others are as they were. */
  ghost predicate PartsDone(env: Env, numShards: nat, m: map<Hash, nat>, now: map<Hash, nat>, es: seq<NodePut>,
        done: set<nat>)
    requires numShards > 0
  {
    forall t: nat :: t < numShards ==>
      Part(env, numShards, now, t) == Part(env, numShards, if t in done then AddAll(env, m, es) else m, t)
  }

  lemma {:induction false} SelectAllOrNone(es: seq<NodePut>, f: NodePut -> nat, s: nat, t: nat)
    requires forall k :: 0 <= k < |es| ==> f(es[k]) == s
    ensures Select(es, f, t) == if t == s then es else []
  {
    if es != [] {
      SelectAllOrNone(es[..|es| - 1], f, s, t);
    }
  }

  lemma {:induction false} ShardDone(env: Env, numShards: nat, m: map<Hash, nat>, before: map<Hash, nat>,
        es: seq<NodePut>, done: set<nat>, s: nat)
    requires numShards > 0 && HashesRight(env, es) && Increasing(es)
    requires s < numShards && s !in done && PartsDone(env, numShards, m, before, es, done)
    ensures PartsDone(env, numShards, m, AddAll(env, before, Select(es, Shards(numShards), s)), es, done + {s})
  {
    var f := Shards(numShards);
    var group := Select(es, f, s);
    SelectKeeps(es, f, s, env);
    forall t: nat | t < numShards
      ensures Part(env, numShards, AddAll(env, before, group), t) ==
              Part(env, numShards, if t in done + {s} then AddAll(env, m, es) else m, t)
    {
      PartOfAddAll(env, numShards, before, group, f, t);
      SelectAllOrNone(group, f, s, t);
      if t == s {
        PartOfAddAll(env, numShards, m, es, f, s);
      }
    }
  }

  lemma {:induction false} EveryPartDone(env: Env, numShards: nat, m: map<Hash, nat>, now: map<Hash, nat>,
        es: seq<NodePut>, done: set<nat>)
    requires numShards > 0 && PartsDone(env, numShards, m, now, es, done)
    requires forall s: nat :: s < numShards ==> s in done
    ensures now == AddAll(env, m, es)
  {
    PartsDetermine(env, numShards, now, AddAll(env, m, es));
  }

  lemma {:induction false} GroupSlice(es: seq<NodePut>, f: NodePut -> nat, numShards: nat, out: seq<NodePut>, s: nat)
    requires Grouped(es, f, numShards, out) && s < numShards
    ensures
      var start := if s > 0 then Start(es, f, s - 1) + |Select(es, f, s - 1)| else 0;
      var end := Start(es, f, s) + |Select(es, f, s)|;
      start <= end <= |out| && out[start..end] == Select(es, f, s)
  {
    assert ClassAt(es, f, s, out);
  }

  /** When the walk over the shards that starts at `first` and wraps around gets to shard s. */
  function Turn(first: nat, s: nat, numShards: nat): nat
    requires first < numShards && s < numShards
  {
    if s >= first then s - first else s + numShards - first
  }

  /** The shards met in the first k turns of the walk. */
  ghost predicate Walked(first: nat, k: nat, numShards: nat, done: set<nat>)
    requires first < numShards
  {
    forall s: nat :: s < numShards ==> (s in done <==> Turn(first, s, numShards) < k)
  }

  /** The walk meets each shard once. */
  lemma {:induction false} WalkStep(first: nat, k: nat, numShards: nat, done: set<nat>)
    requires first < numShards && k < numShards && Walked(first, k, numShards, done)
    ensures (first + k) % numShards < numShards
    ensures (first + k) % numShards !in done
    ensures Walked(first, k + 1, numShards, done + {(first + k) % numShards})
  {
    Rotated(first, k, numShards);
    var s := (first + k) % numShards;
    assert Turn(first, s, numShards) == k;
  }

  lemma {:induction false} Rotated(first: nat, j: nat, numShards: nat)
    requires first < numShards && j < numShards
    ensures (first + j) % numShards == if first + j < numShards then first + j else first + j - numShards
  {
    var q := first + j;
    if q >= numShards {
      assert q == numShards + (q - numShards);
    }
  }

  lemma {:induction false} ChunkRepeats(env: Env, m: map<Hash, nat>, lo: nat, start: nat, at: nat, size: nat, n: nat,
        d: nat, was: map<Hash, nat>)
    requires start + size <= n && NoRepeat(env, m, Puts(env, lo, start))
    requires at == lo + start && at <= d < at + size && was == AddAll(env, m, Puts(env, lo, start))
    requires FirstRepeat(env, was, Puts(env, at, size), d - at)
    ensures FirstRepeat(env, m, Puts(env, lo, n), d - lo)
  {
    var a, b, all := Puts(env, lo, start), Puts(env, at, size), Puts(env, lo, n);
    var rest := Puts(env, at + size, n - start - size);
    assert all == a + b + rest;
    MiddleRepeats(env, m, a, b, rest, d - at, all);
    forall j: nat | j < d - lo ensures !Repeats(env, m, all, j) {
      if j < start {
        FrontRepeats(env, m, a, b, rest, j, all);
      } else {
        MiddleRepeats(env, m, a, b, rest, j - start, all);
      }
    }
  }

  lemma {:induction false} MiddleRepeats(env: Env, m: map<Hash, nat>, a: seq<NodePut>, b: seq<NodePut>,
        rest: seq<NodePut>, k: nat, all: seq<NodePut>)
    requires k < |b| && all == a + b + rest
    ensures Repeats(env, m, all, |a| + k) <==> Repeats(env, AddAll(env, m, a), b, k)
  {
    RepeatsAppend(env, m, a, b, k);
    RepeatsPrefix(env, m, a + b, rest, |a| + k);
  }

  lemma {:induction false} FrontRepeats(env: Env, m: map<Hash, nat>, a: seq<NodePut>, b: seq<NodePut>,
        rest: seq<NodePut>, j: nat, all: seq<NodePut>)
    requires j < |a| && all == a + b + rest
    ensures Repeats(env, m, all, j) <==> Repeats(env, m, a, j)
  {
    RepeatsPrefix(env, m, a, b, j);
    RepeatsPrefix(env, m, a + b, rest, j);
  }

  lemma {:induction false} ChunkContents(env: Env, m: map<Hash, nat>, lo: nat, start: nat, at: nat, size: nat,
        next: nat, was: map<Hash, nat>)
    requires next == start + size && at == lo + start && was == AddAll(env, m, Puts(env, lo, start))
    ensures AddAll(env, m, Puts(env, lo, next)) == AddAll(env, was, Puts(env, at, size))
  {
    var a, b := Puts(env, lo, start), Puts(env, at, size);
    assert a + b == Puts(env, lo, next);
    AddAllAppend(env, m, a, b);
  }

  lemma {:induction false} ChunkClean(env: Env, m: map<Hash, nat>, lo: nat, start: nat, at: nat, size: nat, next: nat,
        was: map<Hash, nat>)
    requires next == start + size && at == lo + start && NoRepeat(env, m, Puts(env, lo, start))
    requires was == AddAll(env, m, Puts(env, lo, start)) && NoRepeat(env, was, Puts(env, at, size))
    ensures NoRepeat(env, m, Puts(env, lo, next))
  {
    var a, b, all := Puts(env, lo, start), Puts(env, at, size), Puts(env, lo, next);
    assert all == a + b;
    forall j: nat | j < |all| ensures !Repeats(env, m, all, j) {
      if j < start {
        RepeatsPrefix(env, m, a, b, j);
      } else {
        RepeatsAppend(env, m, a, b, j - start);
      }
    }
  }

  // ------------------------------------------------------------ the index

  class Index {
    const env: Env
    const numShards: nat
    var shards: seq<Shard>
    var frozen: bool
    ghost var contents: map<Hash, nat>

    ghost predicate Valid()
      reads this
    {
      && 0 < numShards == |shards|
      && (forall s: nat :: s < numShards ==> ShardOk(env, shards[s], Part(env, numShards, contents, s)))
    }

    constructor (capacity: nat, bucketsPerShard: nat, env: Env)
      requires bucketsPerShard > 0
      ensures Valid() && this.env == env && contents == map[] && !frozen && fresh(this)
    {
      var count := 1;
      while count < MAX_NODE_SHARDS && count * ENTRIES_PER_SHARD < capacity
        invariant count > 0
      {
        count := count * 2;
      }
      this.env := env;
      numShards := count;
      var empty := Shard(seq(SLOTS * bucketsPerShard, _ => Free), bucketsPerShard, 0);
      shards := seq(count, _ => empty);
      frozen := false;
      contents := map[];
      EmptyTable(env, bucketsPerShard);
    }

    /** Insert into the shard a key belongs to, under its lock. */
    method InsertAt(s: nat, key: Hash, h: Word, idx: nat) returns (added: bool)
      requires Valid() && h == env.hash(key) && env.hashAt(idx) == key && s == ShardIndex(h, numShards)
      modifies this`shards, this`contents
      ensures Valid()
      ensures added <==> key !in old(contents)
      ensures contents == if added then old(contents)[key := idx] else old(contents)
    {
      ghost var m := Part(env, numShards, contents, s);
      var shard;
      shard, added := Insert(env, shards[s], m, key, h, idx);
      if added {
        PartsAfterPut(env, numShards, contents, key, idx);
        shards := shards[s := shard];
        contents := contents[key := idx];
      }
    }

    method Put(key: Hash, idx: nat) returns (r: PutResult)
      requires Valid() && env.hashAt(idx) == key
      modifies this`shards, this`contents
      ensures Valid()
      ensures r == if frozen then FrozenError else if key in old(contents) then TxExists else Added
      ensures contents == if r == Added then old(contents)[key := idx] else old(contents)
    {
      if frozen {
        return FrozenError;
      }
      var h := env.hash(key);
      var added := InsertAt(ShardIndex(h, numShards), key, h, idx);
      return if added then Added else TxExists;
    }

    method Get(key: Hash) returns (idx: nat, found: bool)
      requires Valid()
      ensures found <==> key in contents
      ensures idx == if found then contents[key] else 0
    {
      idx, found := GetHashed(key, env.hash(key));
    }

    /** The Put of entry i of es, after those before it. */
    method PutEntry(s: nat, e: NodePut, ghost m: map<Hash, nat>, ghost es: seq<NodePut>, ghost i: nat)
      returns (added: bool)
      requires Valid() && i < |es| && es[i] == e && e.h == env.hash(env.hashAt(e.idx))
        && s == ShardIndex(e.h, numShards)
      requires contents == AddAll(env, m, es[..i])
      modifies this`shards, this`contents
      ensures Valid() && contents == AddAll(env, m, es[..i + 1])
      ensures added <==> !Repeats(env, m, es, i)
      ensures !added ==> contents == old(contents)
    {
      AddAllNext(env, m, es, i);
      added := InsertAt(s, env.hashAt(e.idx), e.h, e.idx);
    }

    /** The small-range form: goes through the range one index at a time and gives up at the first repeat. */
    method PutEach(lo: nat, n: nat) returns (dup: nat, ok: bool)
      requires Valid() && lo + n <= INDEX_LIMIT
      modifies this`shards, this`contents
      ensures Valid()
      ensures ok ==>
        NoRepeat(env, old(contents), Puts(env, lo, n)) && contents == AddAll(env, old(contents), Puts(env, lo, n))
      ensures !ok ==> lo <= dup < lo + n && FirstRepeat(env, old(contents), Puts(env, lo, n), dup - lo)
      ensures !ok ==> contents == AddAll(env, old(contents), Puts(env, lo, n)[..dup - lo])
    {
      ghost var es := Puts(env, lo, n);
      for i := 0 to n
        invariant Valid() && frozen == old(frozen)
        invariant contents == AddAll(env, old(contents), es[..i])
        invariant forall k: nat :: k < i ==> !Repeats(env, old(contents), es, k)
      {
        var idx := lo + i;
        var h := env.hash(env.hashAt(idx));
        ok := PutEntry(ShardIndex(h, numShards), NodePut(h, idx), old(contents), es, i);
        if !ok {
          return idx, false;
        }
      }
      assert es[..n] == es;
      return 0, true;
    }

    /** All entries that fall into one shard; a repeat is remembered and the rest are still inserted. */
    method PutGroup(s: nat, group: seq<NodePut>) returns (dup: nat, ok: bool)
      requires Valid() && s < numShards && HashesRight(env, group)
      requires forall k :: 0 <= k < |group| ==> ShardIndex(group[k].h, numShards) == s
      modifies this`shards, this`contents
      ensures Valid()
      ensures contents == AddAll(env, old(contents), group)
      ensures ok ==> NoRepeat(env, old(contents), group)
      ensures !ok ==> exists k: nat :: FirstRepeat(env, old(contents), group, k) && group[k].idx == dup
    {
      dup, ok := 0, true;
      ghost var first: nat := 0;
      for i := 0 to |group|
        invariant Valid()
        invariant contents == AddAll(env, old(contents), group[..i])
        invariant ok ==> forall k: nat :: k < i ==> !Repeats(env, old(contents), group, k)
        invariant !ok ==> FirstRepeat(env, old(contents), group, first) && group[first].idx == dup
      {
        var added := PutEntry(s, group[i], old(contents), group, i);
        if !added && ok {
          dup, ok, first := group[i].idx, false, i;
        }
      }
      assert group[..|group|] == group;
    }

    /** The first pass of putChunk: hash every node of the range and count the entries per shard. */
    method HashAndCount(lo: nat, n: nat, ends: array<nat>) returns (es: seq<NodePut>)
      requires 0 < numShards == ends.Length && forall s :: 0 <= s < numShards ==> ends[s] == 0
      modifies ends
      ensures es == Puts(env, lo, n)
      ensures forall s {:trigger ends[s]} :: 0 <= s < numShards ==> ends[s] == |Select(es, Shards(numShards), s)|
    {
      es := [];
      ghost var f := Shards(numShards);
      for i := 0 to n
        invariant es == Puts(env, lo, i)
        invariant forall s {:trigger ends[s]} :: 0 <= s < numShards ==> ends[s] == |Select(es, f, s)|
      {
        var idx := lo + i;
        var h := env.hash(env.hashAt(idx));
        var s := ShardIndex(h, numShards);
        ghost var before := es;
        es := es + [NodePut(h, idx)];
        assert es == Puts(env, lo, i + 1);
        assert es[..i] == before;
        assert f(es[i]) == s;
        ends[s] := ends[s] + 1;
      }
    }

    /** The second pass: counts become where each shard's entries start. */
    method CountsToStarts(ghost es: seq<NodePut>, ghost f: NodePut -> nat, ends: array<nat>)
      requires forall s {:trigger ends[s]} :: 0 <= s < ends.Length ==> ends[s] == |Select(es, f, s)|
      modifies ends
      ensures forall s {:trigger ends[s]} :: 0 <= s < ends.Length ==> ends[s] == Start(es, f, s)
    {
      var pos := 0;
      for s := 0 to ends.Length
        invariant pos == Start(es, f, s)
        invariant forall t {:trigger ends[t]} :: 0 <= t < s ==> ends[t] == Start(es, f, t)
        invariant forall t {:trigger ends[t]} :: s <= t < ends.Length ==> ends[t] == old(ends[t])
      {
        ghost var next := s + 1;
        assert Start(es, f, next) == Start(es, f, s) + |Select(es, f, s)|;
        pos, ends[s] := pos + ends[s], pos;
      }
    }

    /** One turn of the walk over the shards: puts the shard's group, keeping the least repeat. */
    method PutShard(s: nat, group: seq<NodePut>, dup: nat, ok: bool, ghost m: map<Hash, nat>, ghost es: seq<NodePut>,
          ghost done: set<nat>)
      returns (dup': nat, ok': bool)
      requires Valid() && HashesRight(env, es) && Increasing(es)
      requires s < numShards && s !in done && group == Select(es, Shards(numShards), s)
      requires PartsDone(env, numShards, m, contents, es, done)
      requires FirstRepeatIn(env, m, es, Shards(numShards), done, !ok, dup)
      modifies this`shards, this`contents
      ensures Valid()
      ensures PartsDone(env, numShards, m, contents, es, done + {s})
      ensures FirstRepeatIn(env, m, es, Shards(numShards), done + {s}, !ok', dup')
    {
      dup', ok' := dup, ok;
      ghost var f := Shards(numShards);
      SelectKeeps(es, f, s, env);
      ShardDone(env, numShards, m, contents, es, done, s);
      if |group| > 0 {
        ghost var before := contents;
        var d, good := PutGroup(s, group);
        GroupVerdict(env, numShards, m, before, es, f, s, good, d);
        VerdictsCombine(env, m, es, f, done, !ok, dup, s, good, d);
        if !good && (ok || d < dup) {
          dup', ok' := d, false;
        }
      } else {
        EmptyGroup(env, m, es, f, s, dup);
        VerdictsCombine(env, m, es, f, done, !ok, dup, s, true, dup);
      }
    }

    /** The entries of shard s: from where the previous shard's end to where its own do. */
    method GroupOfShard(ghost es: seq<NodePut>, ends: seq<nat>, out: seq<NodePut>, s: nat) returns (group: seq<NodePut>)
      requires 0 < numShards == |ends| && Grouped(es, Shards(numShards), numShards, out) && s < numShards
      requires forall s {:trigger ends[s]} :: 0 <= s < numShards ==>
        ends[s] == Start(es, Shards(numShards), s) + |Select(es, Shards(numShards), s)|
      ensures group == Select(es, Shards(numShards), s)
    {
      GroupSlice(es, Shards(numShards), numShards, out, s);
      var start := if s > 0 then ends[s - 1] else 0;
      return out[start..ends[s]];
    }

    /** The walk over the shards, starting with the shard of the first entry. */
    method PutShards(es: seq<NodePut>, ends: seq<nat>, out: seq<NodePut>)
      returns (dup: nat, ok: bool, ghost done: set<nat>)
      requires Valid() && HashesRight(env, es) && Increasing(es) && |es| > 0
      requires |ends| == numShards && Grouped(es, Shards(numShards), numShards, out)
      requires forall s {:trigger ends[s]} :: 0 <= s < numShards ==>
        ends[s] == Start(es, Shards(numShards), s) + |Select(es, Shards(numShards), s)|
      modifies this`shards, this`contents
      ensures Valid()
      ensures contents == AddAll(env, old(contents), es)
      ensures FirstRepeatIn(env, old(contents), es, Shards(numShards), done, !ok, dup)
      ensures forall s: nat :: s < numShards ==> s in done
    {
      ghost var m, f := contents, Shards(numShards);
      var first := ShardIndex(es[0].h, numShards);
      dup, ok, done := 0, true, {};
      for k := 0 to numShards
        invariant Valid()
        invariant Walked(first, k, numShards, done)
        invariant PartsDone(env, numShards, m, contents, es, done)
        invariant FirstRepeatIn(env, m, es, f, done, !ok, dup)
      {
        WalkStep(first, k, numShards, done);
        var s: nat := (first + k) % numShards;
        var group := GroupOfShard(es, ends, out, s);
        dup, ok := PutShard(s, group, dup, ok, m, es, done);
        done := done + {s};
      }
      assert forall s: nat :: s < numShards ==> Turn(first, s, numShards) < numShards;
      EveryPartDone(env, numShards, m, contents, es, done);
    }

    /** putRange for one chunk: sorts the entries by shard and puts each shard's entries as a group. */
    method PutChunk(lo: nat, n: nat) returns (dup: nat, ok: bool)
      requires Valid() && 0 < n && lo + n <= INDEX_LIMIT
      modifies this`shards, this`contents
      ensures Valid()
      ensures contents == AddAll(env, old(contents), Puts(env, lo, n))
      ensures ok ==> NoRepeat(env, old(contents), Puts(env, lo, n))
      ensures !ok ==> lo <= dup < lo + n && FirstRepeat(env, old(contents), Puts(env, lo, n), dup - lo)
    {
      var f := Shards(numShards);
      var ends := new nat[numShards](_ => 0);
      var es := HashAndCount(lo, n, ends);
      CountsToStarts(es, f, ends);
      var out := new NodePut[n](_ => es[0]);
      Place(es, f, numShards, ends, out);
      ghost var done;
      dup, ok, done := PutShards(es, ends[..], out[..]);
      AllShardsVerdict(env, old(contents), lo, n, f, done, !ok, dup);
    }

    /** putRange: the first index of the range whose node repeats, and every node added when there is
        none, whether put one at a time or chunk by chunk. */
    method PutRange(lo: nat, n: nat) returns (dup: nat, r: PutResult, ghost reached: nat)
      requires Valid() && lo + n <= INDEX_LIMIT
      modifies this`shards, this`contents
      ensures Valid()
      ensures r == FrozenError <==> frozen
      ensures frozen ==> contents == old(contents)
      ensures r == Added ==>
        NoRepeat(env, old(contents), Puts(env, lo, n)) && contents == AddAll(env, old(contents), Puts(env, lo, n))
      ensures r == TxExists ==> lo <= dup < lo + n && FirstRepeat(env, old(contents), Puts(env, lo, n), dup - lo)
      ensures r == TxExists ==>
        dup - lo <= reached <= n && contents == AddAll(env, old(contents), Puts(env, lo, reached))
    {
      reached := 0;
      if frozen {
        return 0, FrozenError, 0;
      }
      if n == 0 {
        return 0, Added, 0;
      }
      if n < 2 * numShards {
        var d, each := PutEach(lo, n);
        if each {
          return d, Added, n;
        }
        assert Puts(env, lo, n)[..d - lo] == Puts(env, lo, d - lo);
        return d, TxExists, d - lo;
      }
      var d, good, upTo := PutChunks(lo, n);
      return d, if good then Added else TxExists, upTo;
    }

    method PutChunks(lo: nat, n: nat) returns (dup: nat, ok: bool, ghost reached: nat)
      requires Valid() && lo + n <= INDEX_LIMIT
      modifies this`shards, this`contents
      ensures Valid()
      ensures ok ==>
        NoRepeat(env, old(contents), Puts(env, lo, n)) && contents == AddAll(env, old(contents), Puts(env, lo, n))
      ensures !ok ==> lo <= dup < lo + n && FirstRepeat(env, old(contents), Puts(env, lo, n), dup - lo)
      ensures !ok ==> dup - lo <= reached <= n && contents == AddAll(env, old(contents), Puts(env, lo, reached))
    {
      var start := 0;
      while start < n
        invariant Valid() && start <= n
        invariant contents == AddAll(env, old(contents), Puts(env, lo, start))
        invariant NoRepeat(env, old(contents), Puts(env, lo, start))
      {
        var d, good, next := PutNextChunk(lo, n, start, old(contents));
        if !good {
          return d, false, next;
        }
        start := next;
      }
      return 0, true, n;
    }

    /** One round of the chunk loop: indexes lo + start up to lo + next. */
    method PutNextChunk(lo: nat, n: nat, start: nat, ghost m: map<Hash, nat>) returns (dup: nat, ok: bool, next: nat)
      requires Valid() && lo + n <= INDEX_LIMIT && start < n
      requires contents == AddAll(env, m, Puts(env, lo, start)) && NoRepeat(env, m, Puts(env, lo, start))
      modifies this`shards, this`contents
      ensures Valid() && start < next <= n && contents == AddAll(env, m, Puts(env, lo, next))
      ensures ok ==> NoRepeat(env, m, Puts(env, lo, next))
      ensures !ok ==> lo <= dup < lo + next && FirstRepeat(env, m, Puts(env, lo, n), dup - lo)
    {
      var size := if PUT_RANGE_CHUNK < n - start then PUT_RANGE_CHUNK else n - start;
      next := start + size;
      var at := lo + start;
      ghost var was := contents;
      ChunkContents(env, m, lo, start, at, size, next, was);
      dup, ok := PutChunk(at, size);
      if ok {
        ChunkClean(env, m, lo, start, at, size, next, was);
      } else {
        ChunkRepeats(env, m, lo, start, at, size, n, dup, was);
      }
    }

    /** getBatch: a Get of every lookup. */
    method GetBatch(ls: array<Lookup>)
      requires Valid()
      modifies ls
      ensures forall i :: 0 <= i < ls.Length ==> Answered(old(ls[i]), ls[i])
    {
      if frozen {
        GetBatchFrozen(ls);
        return;
      }
      for i := 0 to ls.Length
        invariant forall j :: i <= j < ls.Length ==> ls[j] == old(ls[j])
        invariant forall j :: 0 <= j < i ==> Answered(old(ls[j]), ls[j])
      {
        var idx, found := Get(ls[i].hash);
        ls[i] := ls[i].(idx := idx, found := found);
      }
    }

    /** A frozen index hashes every key before looking any of them up. */
    method GetBatchFrozen(ls: array<Lookup>)
      requires Valid()
      modifies ls
      ensures forall i :: 0 <= i < ls.Length ==> Answered(old(ls[i]), ls[i])
    {
      for i := 0 to ls.Length
        invariant forall j :: i <= j < ls.Length ==> ls[j] == old(ls[j])
        invariant forall j :: 0 <= j < i ==> ls[j].hash == old(ls[j]).hash && ls[j].h == env.hash(ls[j].hash)
      {
        ls[i] := ls[i].(h := env.hash(ls[i].hash));
      }
      for i := 0 to ls.Length
        invariant forall j :: i <= j < ls.Length ==> ls[j].hash == old(ls[j]).hash && ls[j].h == env.hash(ls[j].hash)
        invariant forall j :: 0 <= j < i ==> Answered(old(ls[j]), ls[j])
      {
        var idx, found := GetHashed(ls[i].hash, ls[i].h);
        ls[i] := ls[i].(idx := idx, found := found);
      }
    }

    /** Get for a key whose hash is known. */
    method GetHashed(key: Hash, h: Word) returns (idx: nat, found: bool)
      requires Valid() && h == env.hash(key)
      ensures found <==> key in contents
      ensures idx == if found then contents[key] else 0
    {
      var s := ShardIndex(h, numShards);
      var b, slot;
      b, slot, found := Find(env, shards[s].slots, shards[s].buckets, Part(env, numShards, contents, s), key, h);
      idx := if found then shards[s].slots[SLOTS * b + slot].idx else 0;
    }

    /** The lookup carries the answer a Get of its key gives. */
    ghost predicate Answered(asked: Lookup, l: Lookup)
      reads this
    {
      && l.hash == asked.hash
      && (l.found <==> l.hash in contents)
      && l.idx == (if l.found then contents[l.hash] else 0)
    }

    method Freeze()
      requires Valid()
      modifies this`frozen
      ensures Valid() && frozen
    {
      frozen := true;
    }
  }
}
