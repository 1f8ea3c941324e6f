/** The duplicate-input check end to end: from the recorded transactions through the
    finished runs, the merged and sorted partitions and the workers to the verdict. */
module DedupTheorem {
  import opened Common
  import opened CountingSort
  import opened Inpoints
  import opened InpointDedup
  import opened DedupGroups
  import opened DedupVerify
  import opened DedupDetect

  // ------------------------------------------------------------ preparing the partitions

  function InsertEntry(e: Entry, s: seq<Entry>): (r: seq<Entry>)
    ensures multiset(r) == multiset(s) + multiset{e}
  {
    if s == [] || Below(e, s[0]) then [e] + s
    else
      assert s == [s[0]] + s[1..];
      [s[0]] + InsertEntry(e, s[1..])
  }

  lemma {:induction false} InsertSorted(e: Entry, s: seq<Entry>)
    requires Sorted(s)
    ensures Sorted(InsertEntry(e, s))
  {
    var r := InsertEntry(e, s);
    if s == [] || Below(e, s[0]) {
    } else {
      var rest := InsertEntry(e, s[1..]);
      InsertSorted(e, s[1..]);
      forall j | 0 < j < |r| ensures Below(s[0], r[j]) {
        assert r[j] == rest[j - 1] && rest[j - 1] in multiset(rest);
        assert r[j] == e || r[j] in s[1..];
      }
    }
  }

  /** slices.SortFunc: some sorted permutation of the buffer. */
  method SortEntries(buf: seq<Entry>) returns (sorted: seq<Entry>)
    ensures SortOf(sorted, buf)
  {
    sorted := [];
    for i := 0 to |buf|
      invariant Sorted(sorted) && multiset(sorted) == multiset(buf[..i])
    {
      InsertSorted(buf[i], sorted);
      sorted := InsertEntry(buf[i], sorted);
      assert buf[..i + 1] == buf[..i] + [buf[i]];
    }
    assert buf[..|buf|] == buf;
  }

  /** The first merged partitions' buffers, sorted and cut into groups. */
  ghost predicate PreparedSoFar(parts: seq<seq<Group>>, all: seq<Entry>, pbits: nat, shift: nat,
        sorted: seq<seq<Entry>>)
    requires pbits <= 64
  {
    && |parts| == |sorted|
    && (forall p :: 0 <= p < |sorted| ==> PartitionBuffer(sorted[p], all, pbits, shift, p))
    && (forall p :: 0 <= p < |parts| ==> parts[p] == GroupsFrom(sorted[p], 0))
  }

  /** What the workers walk: every merged partition's buffer, sorted and cut into groups. */
  ghost predicate Prepared(parts: seq<seq<Group>>, all: seq<Entry>, pbits: nat, gbits: nat, shift: nat,
        sorted: seq<seq<Entry>>) {
    gbits + shift == pbits <= MAX_PARTITION_BITS && |parts| == Pow2(gbits)
      && PreparedSoFar(parts, all, pbits, shift, sorted)
  }

  lemma {:induction false} PreparedNext(parts: seq<seq<Group>>, all: seq<Entry>, pbits: nat, shift: nat,
        sorted: seq<seq<Entry>>, groups: seq<Group>, next: seq<Entry>)
    requires pbits <= 64 && PreparedSoFar(parts, all, pbits, shift, sorted)
    requires groups == GroupsFrom(next, 0) && PartitionBuffer(next, all, pbits, shift, |sorted|)
    ensures PreparedSoFar(parts + [groups], all, pbits, shift, sorted + [next])
  {
  }

  lemma {:induction false} SortKeepsGathered(sorted: seq<Entry>, buf: seq<Entry>, all: seq<Entry>, pbits: nat,
        lo: nat, hi: nat)
    requires pbits <= 64 && SortOf(sorted, buf) && Gathered(buf, all, pbits, lo, hi)
    ensures Sorted(sorted) && Gathered(sorted, all, pbits, lo, hi)
  {
  }

  /** The merging, gathering, sorting and cutting of detect, for all partitions. */
  method PrepareParts(d: Dedup, ghost recorded: seq<seq<Entry>>)
    returns (parts: seq<seq<Group>>, ghost gbits: nat, ghost sorted: seq<seq<Entry>>)
    requires d.Valid() && RunsHold(d.runs, recorded, d.pbits)
    ensures gbits <= d.pbits && Prepared(parts, All(recorded), d.pbits, gbits, d.pbits - gbits, sorted)
  {
    var bits := MergedBits(d);
    gbits := bits;
    var shift := d.pbits - bits;
    parts, sorted := [], [];
    ghost var all := All(recorded);
    var count := Pow2(bits);
    for p := 0 to count
      invariant |parts| == p && PreparedSoFar(parts, all, d.pbits, shift, sorted)
    {
      var groups, inOrder := PreparePart(d, recorded, bits, shift, p);
      PreparedNext(parts, all, d.pbits, shift, sorted, groups, inOrder);
      parts := parts + [groups];
      sorted := sorted + [inOrder];
    }
  }

  /** How many partition bits are left after merging to the real number of entries. */
  method MergedBits(d: Dedup) returns (bits: nat)
    ensures bits <= d.pbits
  {
    var total := 0;
    for r := 0 to |d.runs|
      invariant total >= 0
    {
      total := total + (if d.runs[r].Run? then |d.runs[r].entries| else 0);
    }
    bits := 0;
    while bits < d.pbits && Shr(total, bits) > ENTRIES_PER_PARTITION
      invariant bits <= d.pbits
    {
      bits := bits + 1;
    }
  }

  /** One merged partition: gathered from every run, sorted, cut into groups. */
  method PreparePart(d: Dedup, ghost recorded: seq<seq<Entry>>, gbits: nat, shift: nat, p: nat)
    returns (groups: seq<Group>, ghost sorted: seq<Entry>)
    requires d.Valid() && RunsHold(d.runs, recorded, d.pbits) && gbits + shift == d.pbits && p < Pow2(gbits)
    ensures groups == GroupsFrom(sorted, 0) && PartitionBuffer(sorted, All(recorded), d.pbits, shift, p)
  {
    var buf := Gather(d.runs, recorded, d.pbits, gbits, shift, p);
    var inOrder := SortEntries(buf);
    SortKeepsGathered(inOrder, buf, All(recorded), d.pbits, Shl(p, shift), Shl(p + 1, shift));
    sorted := inOrder;
    groups := CutIntoGroups(inOrder);
  }

  // ------------------------------------------------------------ from recorded transactions to entries

  function BlockOf(records: seq<TxRecord>): Block {
    if records == [] then map[]
    else
      var last := records[|records| - 1];
      BlockOf(records[..|records| - 1])[last.tx := last.inpoints]
  }

  /** Every transaction is recorded at most once, with an index the entries can hold. */
  ghost predicate Recordable(records: seq<TxRecord>, width: nat) {
    && (forall i, j :: 0 <= i < j < |records| ==> records[i].tx != records[j].tx)
    && (forall i :: 0 <= i < |records| ==> records[i].tx < width && records[i].tx < NONE)
  }

  function Flatten(layout: seq<seq<TxRecord>>): seq<TxRecord> {
    if layout == [] then [] else Flatten(layout[..|layout| - 1]) + layout[|layout| - 1]
  }

  function Recorded(hash: HashFunction, width: nat, layout: seq<seq<TxRecord>>): seq<seq<Entry>>
    requires width > 0
  {
    seq(|layout|, r requires 0 <= r < |layout| => RunEntries(hash, width, layout[r]))
  }

  lemma {:induction false} RunEntriesAppend(hash: HashFunction, width: nat, a: seq<TxRecord>, b: seq<TxRecord>)
    requires width > 0
    ensures RunEntries(hash, width, a + b) == RunEntries(hash, width, a) + RunEntries(hash, width, b)
  {
    if b == [] {
      assert a + b == a;
    } else {
      var b', last, ab := b[..|b| - 1], b[|b| - 1], a + b;
      assert ab[..|ab| - 1] == a + b' && ab[|ab| - 1] == last;
      RunEntriesAppend(hash, width, a, b');
      var es := TxEntries(hash, width, last.tx, last.inpoints);
      assert RunEntries(hash, width, ab) == RunEntries(hash, width, a + b') + es;
      assert RunEntries(hash, width, b) == RunEntries(hash, width, b') + es;
    }
  }

  /** Cutting the block's transactions into runs does not change what is recorded. */
  lemma {:induction false} AllIsFlat(hash: HashFunction, width: nat, layout: seq<seq<TxRecord>>)
    requires width > 0
    ensures All(Recorded(hash, width, layout)) == RunEntries(hash, width, Flatten(layout))
  {
    if layout != [] {
      var pre, last := layout[..|layout| - 1], layout[|layout| - 1];
      AllIsFlat(hash, width, pre);
      var rec := Recorded(hash, width, layout);
      assert rec[..|rec| - 1] == Recorded(hash, width, pre);
      RunEntriesAppend(hash, width, Flatten(pre), last);
    }
  }

  lemma {:induction false} BlockOfKeys(records: seq<TxRecord>, t: nat)
    ensures t in BlockOf(records) <==> exists i :: 0 <= i < |records| && records[i].tx == t
  {
    if records != [] {
      var pre, last := records[..|records| - 1], records[|records| - 1];
      BlockOfKeys(pre, t);
      assert forall i :: 0 <= i < |pre| ==> pre[i] == records[i];
      assert forall i :: 0 <= i < |records| && records[i].tx == t ==> i < |pre| || last.tx == t;
    }
  }

  /** How often an entry is recorded: as often as its transaction has an input with its hash. */
  ghost function EntryCount(block: Block, hash: HashFunction, e: Entry): nat {
    if e.tx in block then multiset(TxEntries(hash, TWO64, e.tx, block[e.tx]))[e] else 0
  }

  lemma {:induction false} SmallMod(x: nat, m: nat)
    requires x < m
    ensures x % m == x
  {
  }

  lemma {:induction false} TxEntriesTx(hash: HashFunction, width: nat, tx: nat, inpoints: seq<Inpoint>, e: Entry)
    requires tx < width <= TWO64
    ensures TxEntries(hash, width, tx, inpoints) == TxEntries(hash, TWO64, tx, inpoints)
    ensures e.tx != tx ==> multiset(TxEntries(hash, width, tx, inpoints))[e] == 0
  {
    SmallMod(tx, width);
    SmallMod(tx, TWO64);
    if e.tx != tx {
      NotIn(TxEntries(hash, width, tx, inpoints), e);
    }
  }

  lemma {:induction false} EntriesOfBlock(hash: HashFunction, width: nat, records: seq<TxRecord>, e: Entry)
    requires 0 < width <= TWO64 && Recordable(records, width)
    ensures multiset(RunEntries(hash, width, records))[e] == EntryCount(BlockOf(records), hash, e)
  {
    if records != [] {
      var pre, last := records[..|records| - 1], records[|records| - 1];
      assert forall i :: 0 <= i < |pre| ==> pre[i] == records[i];
      EntriesOfBlock(hash, width, pre, e);
      TxEntriesTx(hash, width, last.tx, last.inpoints, e);
      AppendCount(RunEntries(hash, width, pre), TxEntries(hash, width, last.tx, last.inpoints), e);
      BlockOfKeys(pre, last.tx);
    }
  }

  // ------------------------------------------------------------ the groups of a block

  /** g is the group of one hash value of the block: depends on the block and the hash function only. */
  ghost predicate HashGroup(block: Block, hash: HashFunction, g: Group) {
    && g != [] && Sorted(g)
    && (forall e: Entry :: multiset(g)[e] == if e.Key() == g[0].Key() then EntryCount(block, hash, e) else 0)
  }

  ghost function HashGroups(block: Block, hash: HashFunction): iset<Group> {
    iset g | HashGroup(block, hash, g)
  }

  ghost predicate AllOfBlock(all: seq<Entry>, block: Block, hash: HashFunction) {
    AllProper(all) && forall e: Entry :: multiset(all)[e] == EntryCount(block, hash, e)
  }

  lemma {:induction false} LayoutEntries(hash: HashFunction, width: nat, layout: seq<seq<TxRecord>>)
    requires 0 < width <= TWO64 && Recordable(Flatten(layout), width)
    ensures AllOfBlock(All(Recorded(hash, width, layout)), BlockOf(Flatten(layout)), hash)
  {
    var records := Flatten(layout);
    AllIsFlat(hash, width, layout);
    RunEntriesProper(hash, width, records);
    forall e: Entry ensures multiset(RunEntries(hash, width, records))[e] == EntryCount(BlockOf(records), hash, e) {
      EntriesOfBlock(hash, width, records, e);
    }
  }

  /** The groups the workers walk are the hash groups of the block, whatever the layout. */
  lemma {:induction false} WorkersSeeHashGroups(env: Env, block: Block, all: seq<Entry>, pbits: nat, gbits: nat,
        shift: nat, sorted: seq<seq<Entry>>)
    requires AllOfBlock(all, block, env.hash) && Prepared(env.parts, all, pbits, gbits, shift, sorted)
    ensures GroupsOf(env) == HashGroups(block, env.hash)
  {
    forall g ensures g in GroupsOf(env) <==> g in HashGroups(block, env.hash) {
      if g in GroupsOf(env) {
        var p: nat, i: nat :| p < |env.parts| && i < |env.parts[p]| && env.parts[p][i] == g;
        assert PartitionBuffer(sorted[p], all, pbits, shift, p);
        WorkerGroupIsBlockGroup(all, pbits, shift, p, sorted[p], g);
      }
      if g in HashGroups(block, env.hash) {
        assert BlockGroup(all, g);
        var p := BlockGroupReachesWorker(all, pbits, gbits, shift, sorted, g);
        var i :| 0 <= i < |env.parts[p]| && env.parts[p][i] == g;
      }
    }
  }

  lemma {:induction false} EntryOfInput(block: Block, hash: HashFunction, t: nat, i: nat)
    requires t in block && t < NONE && i < |block[t]|
    ensures
      var e := ToEntry(hash(block[t][i]), t, TWO64);
      e.tx == t && e.Key() == hash(block[t][i]) && EntryCount(block, hash, e) > 0
  {
    var es := TxEntries(hash, TWO64, t, block[t]);
    assert es[i] in multiset(es);
    ToEntryKey(hash(block[t][i]), t, TWO64);
  }

  ghost predicate IndexesBelowNone(block: Block) {
    forall t :: t in block ==> t < NONE
  }

  lemma {:induction false} HashGroupMatches(block: Block, hash: HashFunction, g: Group)
    requires HashGroup(block, hash, g) && IndexesBelowNone(block)
    ensures GroupMatches(block, hash, g[0].Key(), g)
  {
    var k := g[0].Key();
    forall e | e in g ensures e.Key() == k && e.tx in block {
      assert multiset(g)[e] > 0;
    }
    forall u, x | u in block && x in block[u] && hash(x) == k ensures exists e :: e in g && e.tx == u {
      var i :| 0 <= i < |block[u]| && block[u][i] == x;
      EntryOfInput(block, hash, u, i);
      var e := ToEntry(hash(x), u, TWO64);
      assert multiset(g)[e] > 0;
      assert e in g;
    }
  }

  lemma {:induction false} TwoOccurrences(s: seq<Entry>, i: nat, j: nat)
    requires i < j < |s| && s[i] == s[j]
    ensures multiset(s)[s[i]] >= 2
  {
    assert s == s[..j] + s[j..];
    AppendCount(s[..j], s[j..], s[i]);
    assert s[..j][i] == s[i] && s[j..][0] == s[i];
    assert s[i] in multiset(s[..j]) && s[i] in multiset(s[j..]);
  }

  lemma {:induction false} CountMeansPositions(g: Group, e: Entry) returns (i: nat, j: nat)
    requires multiset(g)[e] >= 2
    ensures i < j < |g| && g[i] == e && g[j] == e
  {
    assert e in multiset(g);
    i :| 0 <= i < |g| && g[i] == e;
    SliceCount(g, i, i + 1, e);
    assert g[i..i + 1] == [e];
    if multiset(g[..i])[e] > 0 {
      j := i;
      assert e in g[..i];
      i :| 0 <= i < j && g[..j][i] == e;
    } else {
      assert e in g[i + 1..];
      var k :| 0 <= k < |g| - (i + 1) && g[i + 1..][k] == e;
      j := i + 1 + k;
    }
  }

  lemma {:induction false} BoundFromPosition(g: Group, j: nat, t: nat)
    requires Sorted(g) && 1 <= j < |g| && g[j].tx == t && g[j].Key() == g[1].Key()
    ensures |g| >= 2 && Bound(g) <= t
  {
    assert j == 1 || Below(g[1], g[j]);
  }

  lemma {:induction false} BoundFromEarlier(g: Group, e: Entry, f: Entry)
    requires Sorted(g) && e in g && f in g && e.tx < f.tx && forall d :: d in g ==> d.Key() == e.Key()
    ensures |g| >= 2 && Bound(g) <= f.tx
  {
    var i :| 0 <= i < |g| && g[i] == e;
    var j :| 0 <= j < |g| && g[j] == f;
    assert g[0] in g && (i == 0 || Below(g[0], g[i]));
    assert |g| >= 2 ==> g[1] in g;
    BoundFromPosition(g, j, f.tx);
  }

  /** A transaction that respends an inpoint with the group's hash is at or above the group's bound. */
  lemma {:induction false} RespendAboveBound(block: Block, hash: HashFunction, g: Group, t: nat)
    requires HashGroup(block, hash, g) && IndexesBelowNone(block) && RespendsHash(block, hash, g[0].Key(), t)
    ensures |g| >= 2 && Bound(g) <= t
  {
    var k := g[0].Key();
    HashGroupMatches(block, hash, g);
    assert forall m :: 0 <= m < |g| ==> g[m] in g;
    var x :| hash(x) == k && Respends(block, t, x);
    if RepeatedIn(block[t], x) {
      var a, b :| 0 <= a < b < |block[t]| && block[t][a] == x && block[t][b] == x;
      var es := TxEntries(hash, TWO64, t, block[t]);
      EntryOfInput(block, hash, t, a);
      TwoOccurrences(es, a, b);
      var i, j := CountMeansPositions(g, es[a]);
      BoundFromPosition(g, j, t);
    } else {
      var u :| u in block && u < t && x in block[u];
      var e :| e in g && e.tx == u;
      var f :| f in g && f.tx == t;
      BoundFromEarlier(g, e, f);
    }
  }

  lemma {:induction false} SettleGroup(block: Block, hash: HashFunction, resolve: Resolver, g: Group)
    requires HashGroup(block, hash, g) && IndexesBelowNone(block) && Faithful(block, resolve)
    ensures
      var k, o := g[0].Key(), Settle(hash, g, resolve);
      && (o.Found? ==>
            && o.tx in block && RespendsHash(block, hash, k, o.tx) && |g| >= 2 && Bound(g) <= o.tx < NONE
            && (forall t: nat :: t < o.tx ==> !RespendsHash(block, hash, k, t)))
      && (o.Distinct? ==> forall t: nat :: !RespendsHash(block, hash, k, t))
      && (o.Failed? ==> exists e :: e in g && e.tx in block && resolve(e.tx) == ResolveError(o.error))
  {
    var k, o := g[0].Key(), Settle(hash, g, resolve);
    HashGroupMatches(block, hash, g);
    SettleMeaning(block, hash, k, g, resolve, 0, {});
    forall t: nat | RespendsHash(block, hash, k, t) ensures exists e :: e in g && e.tx == t {
      var x :| hash(x) == k && Respends(block, t, x);
    }
    if o.Found? {
      RespendAboveBound(block, hash, g, o.tx);
    }
  }

  lemma {:induction false} WorkersBounded(env: Env, block: Block)
    requires GroupsOf(env) == HashGroups(block, env.hash) && IndexesBelowNone(block) && Faithful(block, env.resolve)
    ensures GroupsNonempty(env) && Bounded(env)
  {
    forall p, i | 0 <= p < |env.parts| && 0 <= i < |env.parts[p]|
      ensures env.parts[p][i] in HashGroups(block, env.hash)
    {
      assert env.parts[p][i] in GroupsOf(env);
    }
    forall p, i | 0 <= p < |env.parts| && 0 <= i < |env.parts[p]| && |env.parts[p][i]| >= 2
      ensures
        var g := env.parts[p][i];
        && Bound(g) < NONE
        && (Settle(env.hash, g, env.resolve).Found? ==> Bound(g) <= Settle(env.hash, g, env.resolve).tx < NONE)
    {
      var g := env.parts[p][i];
      assert HashGroup(block, env.hash, g);
      HashGroupMatches(block, env.hash, g);
      assert g[1] in g;
      SettleGroup(block, env.hash, env.resolve, g);
    }
  }

  /** The group that holds a given input's hash. */
  lemma {:induction false} GroupExists(block: Block, hash: HashFunction, all: seq<Entry>, t: nat, i: nat)
    returns (g: Group)
    requires AllOfBlock(all, block, hash) && t in block && t < NONE && i < |block[t]|
    ensures g in HashGroups(block, hash) && g[0].Key() == hash(block[t][i])
  {
    var k := hash(block[t][i]);
    EntryOfInput(block, hash, t, i);
    var e := ToEntry(k, t, TWO64);
    assert multiset(all)[e] > 0;
    var sorted := SortedCopy(all);
    assert e in multiset(sorted);
    var at :| 0 <= at < |sorted| && sorted[at] == e;
    g := CutCovers(sorted, 0, at);
    CutGivesGroups(sorted, 0, g);
    GroupMembers(sorted, g[0].Key(), g, e);
    assert HashGroup(block, hash, g);
  }

  lemma {:induction false} SortedCopy(all: seq<Entry>) returns (sorted: seq<Entry>)
    ensures SortOf(sorted, all)
  {
    sorted := [];
    if all != [] {
      sorted := SortedCopy(all[1..]);
      assert all == [all[0]] + all[1..];
      InsertSorted(all[0], sorted);
      sorted := InsertEntry(all[0], sorted);
    }
  }

  // ------------------------------------------------------------ the theorems

  ghost predicate Complete(env: Env, workers: nat, schedule: seq<nat>)
    requires GroupsNonempty(env) && Bounded(env)
  {
    && workers > 0
    && (forall k :: 0 <= k < |schedule| ==> schedule[k] < workers)
    && Finished(Exec(env, workers, schedule))
  }

  /** The prepared partitions hold the hash groups of the block. */
  lemma {:induction false} GroupsReady(
    env: Env, parts: seq<seq<Group>>, layout: seq<seq<TxRecord>>, width: nat, all: seq<Entry>,
    pbits: nat, gbits: nat, shift: nat, sorted: seq<seq<Entry>>)
    requires 0 < width <= TWO64 && Recordable(Flatten(layout), width)
    requires env.parts == parts && all == All(Recorded(env.hash, width, layout))
    requires Prepared(parts, all, pbits, gbits, shift, sorted)
    requires Faithful(BlockOf(Flatten(layout)), env.resolve)
    ensures GroupsNonempty(env) && Bounded(env)
    ensures GroupsOf(env) == HashGroups(BlockOf(Flatten(layout)), env.hash)
  {
    var block := BlockOf(Flatten(layout));
    LayoutEntries(env.hash, width, layout);
    WorkersSeeHashGroups(env, block, all, pbits, gbits, shift, sorted);
    BlockIndexes(Flatten(layout), width);
    WorkersBounded(env, block);
  }

  /** Whatever the run layout, the index width, the partition bits, the merging, the sort, the number
      of workers and the schedule: the verdict is the one the block, the hash and the resolver
      determine. */
  lemma {:induction false} DetectDeterminedByBlock(
    env: Env, layout: seq<seq<TxRecord>>, width: nat, pbits: nat, gbits: nat, shift: nat, sorted: seq<seq<Entry>>,
    workers: nat, schedule: seq<nat>)
    requires 0 < width <= TWO64 && Recordable(Flatten(layout), width)
    requires Prepared(env.parts, All(Recorded(env.hash, width, layout)), pbits, gbits, shift, sorted)
    requires Faithful(BlockOf(Flatten(layout)), env.resolve)
    ensures GroupsNonempty(env) && Bounded(env)
    ensures Complete(env, workers, schedule) ==>
      IsVerdict(env, HashGroups(BlockOf(Flatten(layout)), env.hash), Result(Exec(env, workers, schedule)))
  {
    GroupsReady(env, env.parts, layout, width, All(Recorded(env.hash, width, layout)), pbits, gbits, shift, sorted);
    if Complete(env, workers, schedule) {
      DetectIsDetermined(env, workers, schedule);
    }
  }

  lemma {:induction false} BlockIndexes(records: seq<TxRecord>, width: nat)
    requires Recordable(records, width)
    ensures IndexesBelowNone(BlockOf(records))
  {
    forall t | t in BlockOf(records) ensures t < NONE {
      BlockOfKeys(records, t);
    }
  }

  /** The lowest transaction that spends an inpoint spent before, or none. */
  ghost predicate ScanVerdict(block: Block, v: Verdict) {
    match v
    case Clean => forall t: nat :: !SpendsSpent(block, t)
    case Duplicate(d) => SpendsSpent(block, d) && forall t: nat :: t < d ==> !SpendsSpent(block, t)
    case Error(_) => false
  }

  lemma {:induction false} RespendHasGroup(block: Block, hash: HashFunction, all: seq<Entry>, resolve: Resolver, t: nat)
    returns (g: Group, d: nat)
    requires AllOfBlock(all, block, hash) && IndexesBelowNone(block) && Faithful(block, resolve)
    requires forall u :: u in block ==> resolve(u).Inputs?
    requires SpendsSpent(block, t)
    ensures g in HashGroups(block, hash) && |g| >= 2 && Settle(hash, g, resolve) == Found(d) && d <= t
  {
    var x :| Respends(block, t, x);
    var i :| 0 <= i < |block[t]| && block[t][i] == x;
    g := GroupExists(block, hash, all, t, i);
    assert RespendsHash(block, hash, g[0].Key(), t);
    SettleGroup(block, hash, resolve, g);
    d := Settle(hash, g, resolve).tx;
  }

  lemma {:induction false} NothingBelowFound(env: Env, block: Block, all: seq<Entry>, limit: nat)
    requires AllOfBlock(all, block, env.hash) && IndexesBelowNone(block)
    requires forall t :: t in block ==> env.resolve(t) == Inputs(block[t])
    requires forall g, tx :: FoundIn(env, HashGroups(block, env.hash), g, tx) ==> limit <= tx
    ensures forall t: nat :: t < limit ==> !SpendsSpent(block, t)
  {
    forall t: nat | t < limit ensures !SpendsSpent(block, t) {
      if SpendsSpent(block, t) {
        var g, d := RespendHasGroup(block, env.hash, all, env.resolve, t);
        assert FoundIn(env, HashGroups(block, env.hash), g, d);
        assert false;
      }
    }
  }

  lemma {:induction false} FoundSpendsSpent(env: Env, block: Block, g: Group, d: nat)
    requires IndexesBelowNone(block) && Faithful(block, env.resolve)
    requires FoundIn(env, HashGroups(block, env.hash), g, d)
    ensures SpendsSpent(block, d)
  {
    SettleGroup(block, env.hash, env.resolve, g);
    var x :| env.hash(x) == g[0].Key() && Respends(block, d, x);
  }

  lemma {:induction false} NothingFails(env: Env, block: Block, g: Group, error: string)
    requires IndexesBelowNone(block) && (forall t :: t in block ==> env.resolve(t) == Inputs(block[t]))
    ensures !FailedIn(env, HashGroups(block, env.hash), g, error)
  {
    if FailedIn(env, HashGroups(block, env.hash), g, error) {
      SettleGroup(block, env.hash, env.resolve, g);
      assert false;
    }
  }

  /** As long as nothing fails to resolve, grouping by hash is only a way to find the candidates: the verdict
      is the one of going through the block's inputs from the first transaction on. */
  lemma {:induction false} VerdictIsScan(env: Env, block: Block, all: seq<Entry>, v: Verdict)
    requires AllOfBlock(all, block, env.hash) && IndexesBelowNone(block)
    requires forall t :: t in block ==> env.resolve(t) == Inputs(block[t])
    requires IsVerdict(env, HashGroups(block, env.hash), v)
    ensures ScanVerdict(block, v)
  {
    match v
    case Clean =>
      forall t: nat ensures !SpendsSpent(block, t) {
        NothingBelowFound(env, block, all, t + 1);
      }
    case Duplicate(d) =>
      NothingBelowFound(env, block, all, d);
      var g: Group :| FoundIn(env, HashGroups(block, env.hash), g, d);
      FoundSpendsSpent(env, block, g, d);
    case Error(error) =>
      var g: Group :| FailedIn(env, HashGroups(block, env.hash), g, error);
      NothingFails(env, block, g, error);
  }

  /** The duplicate-input check is exact: for any hash function, run layout, partition count, sort,
      worker count and schedule it reports the earliest transaction that spends an outpoint spent
      before it, and none exactly when there is none. */
  lemma {:induction false} DetectIsExact(
    env: Env, layout: seq<seq<TxRecord>>, totalTxs: nat, pbits: nat, gbits: nat, shift: nat, sorted: seq<seq<Entry>>,
    workers: nat, schedule: seq<nat>)
    requires totalTxs < TWO64 && Recordable(Flatten(layout), totalTxs)
    requires Prepared(env.parts, All(Recorded(env.hash, IndexWidth(totalTxs), layout)), pbits, gbits, shift, sorted)
    requires forall t :: t in BlockOf(Flatten(layout)) ==> env.resolve(t) == Inputs(BlockOf(Flatten(layout))[t])
    ensures GroupsNonempty(env) && Bounded(env)
    ensures Complete(env, workers, schedule) ==>
      ScanVerdict(BlockOf(Flatten(layout)), Result(Exec(env, workers, schedule)))
  {
    var width, block := IndexWidth(totalTxs), BlockOf(Flatten(layout));
    DetectDeterminedByBlock(env, layout, width, pbits, gbits, shift, sorted, workers, schedule);
    if Complete(env, workers, schedule) {
      LayoutEntries(env.hash, width, layout);
      BlockIndexes(Flatten(layout), totalTxs);
      VerdictIsScan(env, block, All(Recorded(env.hash, width, layout)), Result(Exec(env, workers, schedule)));
    }
  }
}
