/** Recording a block's transactions as mined (model/update-tx-mined.go): the batches each subtree's
    goroutine hands to the store, the counters and block ids the goroutines share, and the verdict. */
module MinedStatus {
  import opened Common

  type Hash = nat
  type BlockId = nat

  datatype Node = Placeholder | Tx(hash: Hash)

  // ------------------------------------------------------------ batches

  function Live(nodes: seq<Node>): seq<Hash> {
    if nodes == [] then []
    else
      var last := |nodes| - 1;
      Live(nodes[..last]) + (if nodes[last].Tx? then [nodes[last].hash] else [])
  }

  function Flatten(batches: seq<seq<Hash>>): seq<Hash> {
    if batches == [] then []
    else
      var last := |batches| - 1;
      Flatten(batches[..last]) + batches[last]
  }

  lemma FlattenMore(batches: seq<seq<Hash>>, b: seq<Hash>)
    ensures Flatten(batches + [b]) == Flatten(batches) + b
  {
    assert (batches + [b])[..|batches|] == batches;
  }

  datatype Cut = Cut(full: seq<seq<Hash>>, pending: seq<Hash>)

  predicate FlushAt(idx: nat, size: nat)
    requires size > 0
  {
    idx > 0 && idx % size == 0
  }

  /** The flushed batches and the pending hashes after n nodes: a flush follows a transaction at a
      positive multiple of the batch size. */
  function CutAt(nodes: seq<Node>, size: nat, n: nat): Cut
    requires n <= |nodes| && size > 0
  {
    if n == 0 then Cut([], [])
    else
      var idx := n - 1;
      var before := CutAt(nodes, size, idx);
      match nodes[idx]
      case Placeholder => before
      case Tx(hash) =>
        var pending := before.pending + [hash];
        if FlushAt(idx, size) then Cut(before.full + [pending], []) else Cut(before.full, pending)
  }

  /** All batches of a subtree, the remainder last. */
  function Batches(nodes: seq<Node>, size: nat): seq<seq<Hash>>
    requires size > 0
  {
    var cut := CutAt(nodes, size, |nodes|);
    if cut.pending == [] then cut.full else cut.full + [cut.pending]
  }

  /** The node loop of a subtree's goroutine, with the batches in place of the store calls. */
  method CutBatches(nodes: seq<Node>, size: nat) returns (batches: seq<seq<Hash>>)
    requires size > 0
    ensures batches == Batches(nodes, size)
    ensures Flatten(batches) == Live(nodes)
    ensures forall b :: b in batches ==> b != []
  {
    batches := [];
    var hashes: seq<Hash> := [];
    for idx := 0 to |nodes|
      invariant CutAt(nodes, size, idx) == Cut(batches, hashes)
    {
      if nodes[idx].Placeholder? {
        continue;
      }
      hashes := hashes + [nodes[idx].hash];
      if FlushAt(idx, size) {
        batches := batches + [hashes];
        hashes := [];
      }
    }
    if |hashes| > 0 {
      batches := batches + [hashes];
    }
    BatchesCoverNodes(nodes, size);
  }

  lemma {:induction false} CutCovers(nodes: seq<Node>, size: nat, n: nat)
    requires n <= |nodes| && size > 0
    ensures Flatten(CutAt(nodes, size, n).full) + CutAt(nodes, size, n).pending == Live(nodes[..n])
    ensures forall b :: b in CutAt(nodes, size, n).full ==> b != []
  {
    if n > 0 {
      var idx := n - 1;
      CutCovers(nodes, size, idx);
      assert nodes[..n][..idx] == nodes[..idx];
      var before := CutAt(nodes, size, idx);
      if nodes[idx].Tx? {
        var pending := before.pending + [nodes[idx].hash];
        FlattenMore(before.full, pending);
        assert Flatten(before.full) + pending == Flatten(before.full) + before.pending + [nodes[idx].hash];
      }
    }
  }

  /** The batches hold every transaction of the subtree once, in order, and none is empty. */
  lemma {:induction false} BatchesCoverNodes(nodes: seq<Node>, size: nat)
    requires size > 0
    ensures Flatten(Batches(nodes, size)) == Live(nodes)
    ensures forall b :: b in Batches(nodes, size) ==> b != []
  {
    CutCovers(nodes, size, |nodes|);
    assert nodes[..|nodes|] == nodes;
    var cut := CutAt(nodes, size, |nodes|);
    FlattenMore(cut.full, cut.pending);
  }

  // ------------------------------------------------------------ batch sizes

  /** Only the first node may be the placeholder. */
  ghost predicate PlaceholderFirst(nodes: seq<Node>) {
    forall i :: 0 < i < |nodes| ==> nodes[i].Tx?
  }

  lemma ModNext(i: nat, size: nat)
    requires size > 0
    ensures (i + 1) % size == if i % size == size - 1 then 0 else i % size + 1
  {
    var q, r := i / size, i % size;
    assert i == q * size + r;
    if r == size - 1 {
      assert i + 1 == (q + 1) * size;
      ModUnique(i + 1, q + 1, 0, size);
    } else {
      ModUnique(i + 1, q, r + 1, size);
    }
  }

  lemma ModUnique(x: nat, q: nat, r: nat, size: nat)
    requires r < size && x == q * size + r
    ensures x % size == r
  {
    var d := x / size - q;
    assert x == (x / size) * size + x % size;
    assert d * size == r - x % size;
    assert d >= 1 ==> d * size >= size;
    assert d <= -1 ==> d * size + size <= 0;
  }

  function Leading(nodes: seq<Node>): nat {
    if nodes != [] && nodes[0].Tx? then 1 else 0
  }

  lemma {:induction false} CutSizes(nodes: seq<Node>, size: nat, n: nat)
    requires 0 < n <= |nodes| && size > 0 && PlaceholderFirst(nodes)
    ensures forall b :: b in CutAt(nodes, size, n).full ==> |b| <= size + Leading(nodes)
    ensures |CutAt(nodes, size, n).pending| <= (n - 1) % size + Leading(nodes)
    ensures n <= size ==> |CutAt(nodes, size, n).pending| == n - 1 + Leading(nodes) && CutAt(nodes, size, n).full == []
  {
    if n == 1 {
      assert CutAt(nodes, size, 0) == Cut([], []);
    } else {
      var i := n - 2;
      CutSizes(nodes, size, n - 1);
      ModNext(i, size);
      assert n - 1 < size ==> !FlushAt(n - 1, size) by {
        if n - 1 < size {
          ModUnique(n - 1, 0, n - 1, size);
        }
      }
    }
  }

  lemma {:induction false} CutGrows(nodes: seq<Node>, size: nat, m: nat, n: nat)
    requires m <= n <= |nodes| && size > 0
    ensures CutAt(nodes, size, m).full <= CutAt(nodes, size, n).full
  {
    if m < n {
      CutGrows(nodes, size, m, n - 1);
    }
  }

  /** With the placeholder nowhere but in the first place no batch is larger than the configured size by
      more than one, and none is larger at all exactly when the subtree begins with the placeholder or is
      no longer than a batch. */
  lemma {:induction false} UsualBatchSizes(nodes: seq<Node>, size: nat)
    requires size > 0 && PlaceholderFirst(nodes)
    ensures forall b :: b in Batches(nodes, size) ==> |b| <= size + Leading(nodes)
    ensures (forall b :: b in Batches(nodes, size) ==> |b| <= size) <==> Leading(nodes) == 0 || |nodes| <= size
  {
    var n := |nodes|;
    if n > 0 {
      CutSizes(nodes, size, n);
    }
    if Leading(nodes) == 1 && n > size {
      CutSizes(nodes, size, size);
      ModUnique(size, 1, 0, size);
      var cut := CutAt(nodes, size, size + 1);
      assert |cut.full[0]| == size + 1;
      CutGrows(nodes, size, size + 1, n);
      assert Batches(nodes, size)[0] == cut.full[0];
    }
  }

  // ------------------------------------------------------------ batch sizes with placeholders anywhere

  /** A batch ends here: a transaction at a positive multiple of the batch size. */
  predicate FlushPos(nodes: seq<Node>, size: nat, i: nat)
    requires size > 0
  {
    i < |nodes| && FlushAt(i, size) && nodes[i].Tx?
  }

  /** nodes[lo..hi] begins where a batch begins and no batch ends inside it. */
  ghost predicate Stretch(nodes: seq<Node>, size: nat, lo: nat, hi: nat)
    requires size > 0
  {
    && lo <= hi <= |nodes| && (lo == 0 || FlushPos(nodes, size, lo - 1))
    && forall i: nat :: lo <= i < hi - 1 ==> !FlushPos(nodes, size, i)
  }

  /** Where the pending batch began after n nodes. */
  function PendingFrom(nodes: seq<Node>, size: nat, n: nat): (lo: nat)
    requires n <= |nodes| && size > 0
    ensures lo <= n
  {
    if n == 0 then 0 else if FlushPos(nodes, size, n - 1) then n else PendingFrom(nodes, size, n - 1)
  }

  lemma {:induction false} PendingIsStretch(nodes: seq<Node>, size: nat, n: nat)
    requires n <= |nodes| && size > 0
    ensures Stretch(nodes, size, PendingFrom(nodes, size, n), n)
    ensures forall i: nat :: PendingFrom(nodes, size, n) <= i < n ==> !FlushPos(nodes, size, i)
  {
    if n > 0 && !FlushPos(nodes, size, n - 1) {
      PendingIsStretch(nodes, size, n - 1);
    }
  }

  lemma {:induction false} StretchIsPending(nodes: seq<Node>, size: nat, lo: nat, n: nat)
    requires size > 0 && lo <= n <= |nodes| && (lo == 0 || FlushPos(nodes, size, lo - 1))
    requires forall i: nat :: lo <= i < n ==> !FlushPos(nodes, size, i)
    ensures PendingFrom(nodes, size, n) == lo
  {
    if lo < n {
      StretchIsPending(nodes, size, lo, n - 1);
    }
  }

  lemma LiveNext(nodes: seq<Node>, lo: nat, n: nat)
    requires lo < n <= |nodes|
    ensures Live(nodes[lo..n]) == Live(nodes[lo..n - 1]) + (if nodes[n - 1].Tx? then [nodes[n - 1].hash] else [])
  {
    assert nodes[lo..n][..n - 1 - lo] == nodes[lo..n - 1];
  }

  /** The pending hashes are the transactions since the last flush. */
  lemma {:induction false} PendingHolds(nodes: seq<Node>, size: nat, n: nat)
    requires n <= |nodes| && size > 0
    ensures CutAt(nodes, size, n).pending == Live(nodes[PendingFrom(nodes, size, n)..n])
  {
    if n > 0 {
      PendingHolds(nodes, size, n - 1);
      if !FlushPos(nodes, size, n - 1) {
        LiveNext(nodes, PendingFrom(nodes, size, n - 1), n);
      }
    }
  }

  /** Every flushed batch is the transactions of a stretch. */
  lemma {:induction false} FullIsStretch(nodes: seq<Node>, size: nat, n: nat, b: seq<Hash>) returns (lo: nat, hi: nat)
    requires n <= |nodes| && size > 0 && b in CutAt(nodes, size, n).full
    ensures Stretch(nodes, size, lo, hi) && b == Live(nodes[lo..hi])
  {
    if b in CutAt(nodes, size, n - 1).full {
      lo, hi := FullIsStretch(nodes, size, n - 1, b);
    } else {
      lo, hi := PendingFrom(nodes, size, n - 1), n;
      PendingHolds(nodes, size, n - 1);
      PendingIsStretch(nodes, size, n - 1);
      LiveNext(nodes, lo, n);
    }
  }

  /** Pending hashes end up in a batch at least as large. */
  lemma {:induction false} PendingEndsInBatch(nodes: seq<Node>, size: nat, n: nat) returns (b: seq<Hash>)
    requires n <= |nodes| && size > 0 && CutAt(nodes, size, n).pending != []
    ensures b in Batches(nodes, size) && |b| >= |CutAt(nodes, size, n).pending|
    decreases |nodes| - n
  {
    if n == |nodes| {
      b := CutAt(nodes, size, n).pending;
    } else if FlushPos(nodes, size, n) {
      b := CutAt(nodes, size, n).pending + [nodes[n].hash];
      var next := CutAt(nodes, size, n + 1).full;
      assert next[|next| - 1] == b;
      CutGrows(nodes, size, n + 1, |nodes|);
    } else {
      b := PendingEndsInBatch(nodes, size, n + 1);
    }
  }

  /** A stretch with a transaction ends up in a batch at least as large. */
  lemma {:induction false} StretchInBatch(nodes: seq<Node>, size: nat, lo: nat, hi: nat) returns (b: seq<Hash>)
    requires size > 0 && Stretch(nodes, size, lo, hi) && Live(nodes[lo..hi]) != []
    ensures b in Batches(nodes, size) && |b| >= |Live(nodes[lo..hi])|
  {
    StretchIsPending(nodes, size, lo, hi - 1);
    PendingHolds(nodes, size, hi - 1);
    LiveNext(nodes, lo, hi);
    if FlushPos(nodes, size, hi - 1) {
      b := Live(nodes[lo..hi]);
      var full := CutAt(nodes, size, hi).full;
      assert full[|full| - 1] == b;
      CutGrows(nodes, size, hi, |nodes|);
    } else {
      b := PendingEndsInBatch(nodes, size, hi);
    }
  }

  /** The batch size is kept exactly when no stretch between two flushes holds more transactions than that:
      every batch is the transactions of such a stretch, and a placeholder where a flush is due puts the
      flush off to the next multiple. */
  lemma {:induction false} BatchSizes(nodes: seq<Node>, size: nat)
    requires size > 0
    ensures (forall b :: b in Batches(nodes, size) ==> |b| <= size) <==>
            forall lo: nat, hi: nat :: Stretch(nodes, size, lo, hi) ==> |Live(nodes[lo..hi])| <= size
    ensures forall b :: b in Batches(nodes, size) ==>
              exists lo: nat, hi: nat :: Stretch(nodes, size, lo, hi) && b == Live(nodes[lo..hi])
  {
    var n := |nodes|;
    forall b | b in Batches(nodes, size)
      ensures exists lo: nat, hi: nat :: Stretch(nodes, size, lo, hi) && b == Live(nodes[lo..hi])
    {
      if b in CutAt(nodes, size, n).full {
        var lo, hi := FullIsStretch(nodes, size, n, b);
      } else {
        PendingHolds(nodes, size, n);
        PendingIsStretch(nodes, size, n);
      }
    }
    if lo: nat, hi: nat :| Stretch(nodes, size, lo, hi) && |Live(nodes[lo..hi])| > size {
      var b := StretchInBatch(nodes, size, lo, hi);
    }
  }

  /** Misplaced placeholders let a batch grow past any multiple: here a batch of four at a size of two, in a
      subtree that begins with the placeholder. */
  lemma {:induction false} MisplacedPlaceholders(h: Hash)
    ensures
      var nodes := [Placeholder, Tx(h), Placeholder, Tx(h), Placeholder, Tx(h), Tx(h)];
      [h, h, h, h] in Batches(nodes, 2)
  {
    var nodes := [Placeholder, Tx(h), Placeholder, Tx(h), Placeholder, Tx(h), Tx(h)];
    assert CutAt(nodes, 2, 1) == Cut([], []);
    assert CutAt(nodes, 2, 3) == Cut([], [h]);
    assert CutAt(nodes, 2, 5) == Cut([], [h, h]);
    assert CutAt(nodes, 2, 6) == Cut([], [h, h, h]);
    assert FlushAt(6, 2) && [h, h, h] + [h] == [h, h, h, h];
    assert CutAt(nodes, 2, 7).full == [[h, h, h, h]];
  }

  // ------------------------------------------------------------ one batch's answer

  datatype Reply = Failed | Ids(ids: map<Hash, seq<BlockId>>)

  /** The block's id, the ids of the recent blocks of our chain, whether the tag is set or reverted, and the
      batches of each subtree. */
  datatype Config = Config(blockId: BlockId, chain: set<BlockId>, unset: bool, parts: seq<seq<seq<Hash>>>)

  predicate Covered(c: Config, hash: Hash, ids: map<Hash, seq<BlockId>>) {
    hash in ids && c.blockId in ids[hash]
  }

  /** A block id other than this block's reported for some transaction. */
  ghost predicate Reported(c: Config, ids: map<Hash, seq<BlockId>>, id: BlockId) {
    id != c.blockId && exists h :: h in ids && id in ids[h]
  }

  /** The block's transaction is on our chain already, by the recent block ids. */
  ghost predicate HitIn(c: Config, reply: Reply) {
    reply.Ids? && !c.unset && exists id :: id in c.chain && Reported(c, reply.ids, id)
  }

  ghost predicate IsOld(c: Config, reply: Reply, id: BlockId) {
    reply.Ids? && !c.unset && c.chain != {} && id !in c.chain && Reported(c, reply.ids, id)
  }

  function AllIds(ids: map<Hash, seq<BlockId>>): set<BlockId> {
    set h, k | h in ids && 0 <= k < |ids[h]| :: ids[h][k]
  }

  ghost function OldIn(c: Config, reply: Reply): (r: set<BlockId>)
    ensures forall id :: id in r <==> IsOld(c, reply, id)
  {
    if reply.Failed? then {} else set id | id in AllIds(reply.ids) && IsOld(c, reply, id)
  }

  /** How many of the submitted hashes were not reported with this block's id. */
  function GapsIn(c: Config, hashes: seq<Hash>, ids: map<Hash, seq<BlockId>>): nat {
    if hashes == [] then 0
    else
      var last := |hashes| - 1;
      GapsIn(c, hashes[..last], ids) + (if Covered(c, hashes[last], ids) then 0 else 1)
  }

  lemma {:induction false} NoGapsMeansCovered(c: Config, hashes: seq<Hash>, ids: map<Hash, seq<BlockId>>)
    ensures GapsIn(c, hashes, ids) == 0 <==> forall h :: h in hashes ==> Covered(c, h, ids)
  {
    if hashes != [] {
      NoGapsMeansCovered(c, hashes[..|hashes| - 1], ids);
    }
  }

  /** The walk over one transaction's block ids. */
  method CheckIds(c: Config, ids: seq<BlockId>, oldBefore: set<BlockId>)
    returns (covered: bool, hit: bool, past: set<BlockId>)
    ensures covered <==> c.blockId in ids
    ensures hit <==> exists id :: id in ids && id != c.blockId && id in c.chain
    ensures forall id :: id in past <==>
      id in oldBefore || (id in ids && id != c.blockId && c.chain != {} && id !in c.chain)
  {
    covered, hit, past := false, false, oldBefore;
    for k := 0 to |ids|
      invariant covered <==> c.blockId in ids[..k]
      invariant hit <==> exists id :: id in ids[..k] && id != c.blockId && id in c.chain
      invariant forall id :: id in past <==>
        id in oldBefore || (id in ids[..k] && id != c.blockId && c.chain != {} && id !in c.chain)
    {
      assert ids[..k + 1] == ids[..k] + [ids[k]];
      if ids[k] == c.blockId {
        covered := true;
      } else if c.chain != {} {
        if ids[k] in c.chain {
          hit := true;
        } else {
          past := past + {ids[k]};
        }
      }
    }
    assert ids[..|ids|] == ids;
  }

  /** The walk over the store's answer, in whatever order the map yields it. */
  method CheckReported(c: Config, ids: map<Hash, seq<BlockId>>)
    returns (covered: set<Hash>, hit: bool, past: set<BlockId>)
    ensures forall h :: h in covered <==> Covered(c, h, ids)
    ensures hit <==> exists id :: id in c.chain && Reported(c, ids, id)
    ensures forall id :: id in past <==> c.chain != {} && id !in c.chain && Reported(c, ids, id)
  {
    covered, hit, past := {}, false, {};
    var left: set<Hash> := ids.Keys;
    while left != {}
      invariant left <= ids.Keys
      invariant forall h :: h in covered <==> Covered(c, h, ids) && h !in left
      invariant hit <==> exists h, id :: h in ids && h !in left && id in ids[h] && id != c.blockId && id in c.chain
      invariant forall id :: id in past <==>
        c.chain != {} && id !in c.chain && id != c.blockId && exists h :: h in ids && h !in left && id in ids[h]
      decreases left
    {
      var h :| h in left;
      var isCovered, isHit, nowPast := CheckIds(c, ids[h], past);
      if isCovered {
        covered := covered + {h};
      }
      hit, past := hit || isHit, nowPast;
      left := left - {h};
    }
  }

  /** checkBatchResults. */
  method CheckBatchResults(c: Config, hashes: seq<Hash>, ids: map<Hash, seq<BlockId>>)
    returns (gaps: nat, hit: bool, past: set<BlockId>)
    ensures gaps == if c.unset then 0 else GapsIn(c, hashes, ids)
    ensures hit <==> HitIn(c, Ids(ids))
    ensures past == OldIn(c, Ids(ids))
  {
    gaps := 0;
    if c.unset {
      return 0, false, {};
    }
    var covered;
    covered, hit, past := CheckReported(c, ids);
    assert past == OldIn(c, Ids(ids));
    for k := 0 to |hashes|
      invariant gaps == GapsIn(c, hashes[..k], ids)
    {
      assert hashes[..k + 1][..k] == hashes[..k];
      if hashes[k] !in covered {
        gaps := gaps + 1;
      }
    }
    assert hashes[..|hashes|] == hashes;
  }

  // ------------------------------------------------------------ the goroutines

  datatype Call = Call(hashes: seq<Hash>, reply: Reply)

  datatype Phase = Running | Merged | Cancelled

  /** What the goroutines share, and of each how many batches it has submitted, the old ids it keeps to
      itself until it ends, and how it ended. `log` is what the store was asked, in order. */
  datatype State = State(
    next: seq<nat>,
    local: seq<set<BlockId>>,
    phase: seq<Phase>,
    failures: nat,
    gaps: nat,
    hit: bool,
    past: set<BlockId>,
    cancelled: bool,
    log: seq<Call>)

  datatype Action = Submit(g: nat, reply: Reply) | Merge(g: nat) | Cancel | Stop(g: nat)

  predicate WellFormed(c: Config, s: State) {
    && |s.next| == |s.local| == |s.phase| == |c.parts|
    && forall g :: 0 <= g < |s.next| ==> s.next[g] <= |c.parts[g]|
  }

  predicate Enabled(c: Config, s: State, a: Action)
    requires WellFormed(c, s)
  {
    match a
    case Submit(g, _) => g < |s.next| && s.phase[g] == Running && s.next[g] < |c.parts[g]|
    case Merge(g) => g < |s.next| && s.phase[g] == Running && s.next[g] == |c.parts[g]|
    case Cancel => true
    case Stop(g) => g < |s.next| && s.phase[g] == Running && s.next[g] < |c.parts[g]| && s.cancelled
  }

  /** What one answered batch does to the shared counters. */
  ghost function Answered(c: Config, s: State, g: nat, call: Call): State
    requires WellFormed(c, s) && g < |s.next|
  {
    var t := s.(next := s.next[g := s.next[g] + 1], log := s.log + [call]);
    match call.reply
    case Failed => t.(failures := s.failures + 1)
    case Ids(ids) =>
      t.(gaps := s.gaps + (if c.unset then 0 else GapsIn(c, call.hashes, ids)),
         hit := s.hit || HitIn(c, call.reply),
         local := s.local[g := s.local[g] + OldIn(c, call.reply)])
  }

  ghost function Step(c: Config, s: State, a: Action): State
    requires WellFormed(c, s) && Enabled(c, s, a)
  {
    match a
    case Submit(g, reply) => Answered(c, s, g, Call(c.parts[g][s.next[g]], reply))
    case Merge(g) => s.(past := s.past + s.local[g], phase := s.phase[g := Merged])
    case Cancel => s.(cancelled := true)
    case Stop(g) => s.(phase := s.phase[g := Cancelled])
  }

  function Init(c: Config): State {
    var n := |c.parts|;
    State(seq(n, i => 0), seq(n, i => {}), seq(n, i => Running), 0, 0, false, {}, false, [])
  }

  /** The run leads from s to t. */
  ghost predicate RunsTo(c: Config, s: State, run: seq<Action>, t: State)
    decreases |run|
  {
    if run == [] then s == t
    else WellFormed(c, s) && Enabled(c, s, run[0]) && RunsTo(c, Step(c, s, run[0]), run[1..], t)
  }

  /** s is reached from the start by some schedule of the goroutines and answers of the store. */
  ghost predicate Reached(c: Config, run: seq<Action>, s: State) {
    RunsTo(c, Init(c), run, s)
  }

  ghost predicate Complete(s: State) {
    forall g :: 0 <= g < |s.phase| ==> s.phase[g] != Running
  }

  // ------------------------------------------------------------ what every run keeps

  ghost function Submitted(log: seq<Call>): multiset<Hash> {
    if log == [] then multiset{}
    else
      var last := |log| - 1;
      Submitted(log[..last]) + multiset(log[last].hashes)
  }

  /** The hashes of the first k batches of a subtree. */
  ghost function Part(batches: seq<seq<Hash>>, k: nat): multiset<Hash> {
    if k <= |batches| then multiset(Flatten(batches[..k])) else multiset{}
  }

  /** The hashes of the first next[g] batches of each of the first n subtrees. */
  ghost function Progress(parts: seq<seq<seq<Hash>>>, next: seq<nat>, n: nat): multiset<Hash>
    requires n <= |next| == |parts|
  {
    if n == 0 then multiset{}
    else
      var g := n - 1;
      Progress(parts, next, g) + Part(parts[g], next[g])
  }

  ghost predicate Kept(c: Config, s: State) {
    && WellFormed(c, s)
    && Submitted(s.log) == Progress(c.parts, s.next, |s.next|)
    && (forall g :: 0 <= g < |s.phase| && s.phase[g] == Merged ==> s.next[g] == |c.parts[g]|)
    && (forall g :: 0 <= g < |s.phase| && s.phase[g] == Merged ==> s.local[g] <= s.past)
  }

  ghost predicate CallFine(c: Config, call: Call) {
    call.reply.Ids? && (!c.unset ==> forall h :: h in call.hashes ==> Covered(c, h, call.reply.ids))
  }

  ghost predicate Counted(c: Config, s: State) {
    && (s.failures == 0 && s.gaps == 0 <==> forall k :: 0 <= k < |s.log| ==> CallFine(c, s.log[k]))
    && (s.hit <==> exists k :: 0 <= k < |s.log| && HitIn(c, s.log[k].reply))
  }

  ghost predicate OldInLog(c: Config, log: seq<Call>, id: BlockId) {
    exists k :: 0 <= k < |log| && IsOld(c, log[k].reply, id)
  }

  /** The old ids are those merged and those some goroutine still holds. */
  ghost predicate OldKept(c: Config, s: State) {
    && (forall id :: id in s.past ==> OldInLog(c, s.log, id))
    && (forall g, id :: 0 <= g < |s.local| && id in s.local[g] ==> OldInLog(c, s.log, id))
    && (forall id :: OldInLog(c, s.log, id) ==> Held(s, id))
  }

  ghost predicate Held(s: State, id: BlockId) {
    id in s.past || exists g :: 0 <= g < |s.local| && id in s.local[g]
  }

  lemma PartStep(batches: seq<seq<Hash>>, k: nat)
    requires k < |batches|
    ensures Part(batches, k + 1) == Part(batches, k) + multiset(batches[k])
  {
    assert batches[..k + 1] == batches[..k] + [batches[k]];
    FlattenMore(batches[..k], batches[k]);
  }

  lemma Swap(a: multiset<Hash>, b: multiset<Hash>, c: multiset<Hash>)
    ensures a + b + c == a + c + b
  {
  }

  lemma {:induction false} ProgressSame(parts: seq<seq<seq<Hash>>>, next: seq<nat>, n: nat, after: seq<nat>)
    requires n <= |next| == |after| == |parts| && forall g :: 0 <= g < n ==> after[g] == next[g]
    ensures Progress(parts, after, n) == Progress(parts, next, n)
  {
    if n > 0 {
      ProgressSame(parts, next, n - 1, after);
    }
  }

  lemma {:induction false} ProgressStep(parts: seq<seq<seq<Hash>>>, next: seq<nat>, g: nat, n: nat, after: seq<nat>,
        batch: multiset<Hash>)
    requires g < n <= |next| == |after| == |parts|
    requires forall h :: 0 <= h < |next| && h != g ==> after[h] == next[h]
    requires Part(parts[g], after[g]) == Part(parts[g], next[g]) + batch
    ensures Progress(parts, after, n) == Progress(parts, next, n) + batch
  {
    var h := n - 1;
    if h == g {
      ProgressSame(parts, next, g, after);
      Assoc(Progress(parts, next, g), Part(parts[g], next[g]), batch);
    } else {
      ProgressStep(parts, next, g, h, after, batch);
      Swap(Progress(parts, next, h), batch, Part(parts[h], next[h]));
    }
  }

  lemma Assoc(a: multiset<Hash>, b: multiset<Hash>, c: multiset<Hash>)
    ensures a + (b + c) == a + b + c
  {
  }

  lemma {:induction false} ProgressStart(parts: seq<seq<seq<Hash>>>, next: seq<nat>, n: nat)
    requires n <= |next| == |parts| && forall g :: 0 <= g < |next| ==> next[g] == 0
    ensures Progress(parts, next, n) == multiset{}
  {
    if n > 0 {
      ProgressStart(parts, next, n - 1);
      assert parts[n - 1][..0] == [];
    }
  }

  lemma SubmittedMore(log: seq<Call>, call: Call)
    ensures Submitted(log + [call]) == Submitted(log) + multiset(call.hashes)
  {
    assert (log + [call])[..|log|] == log;
  }

  /** Submitting a subtree's next batch keeps what was submitted equal to the progress made. */
  lemma SubmittedIsProgress(parts: seq<seq<seq<Hash>>>, next: seq<nat>, g: nat, log: seq<Call>, call: Call,
        after: seq<nat>, more: seq<Call>)
    requires |next| == |parts| && g < |next| && next[g] < |parts[g]| && call.hashes == parts[g][next[g]]
    requires after == next[g := next[g] + 1] && more == log + [call]
    requires Submitted(log) == Progress(parts, next, |next|)
    ensures Submitted(more) == Progress(parts, after, |after|)
  {
    PartStep(parts[g], next[g]);
    ProgressStep(parts, next, g, |next|, after, multiset(call.hashes));
    SubmittedMore(log, call);
  }

  lemma SubmitKept(c: Config, s: State, g: nat, call: Call, t: State)
    requires Kept(c, s) && g < |s.next| && s.next[g] < |c.parts[g]| && s.phase[g] == Running
    requires call.hashes == c.parts[g][s.next[g]]
    requires t.next == s.next[g := s.next[g] + 1] && t.log == s.log + [call]
    requires t.phase == s.phase && t.past == s.past && |t.local| == |s.local|
    requires forall k :: 0 <= k < |s.local| && k != g ==> t.local[k] == s.local[k]
    ensures Kept(c, t)
  {
    SubmittedIsProgress(c.parts, s.next, g, s.log, call, t.next, t.log);
  }

  lemma StepKept(c: Config, s: State, a: Action)
    requires Kept(c, s) && Enabled(c, s, a)
    ensures Kept(c, Step(c, s, a))
  {
    match a
    case Submit(g, reply) =>
      SubmitKept(c, s, g, Call(c.parts[g][s.next[g]], reply), Step(c, s, a));
    case _ =>
  }

  lemma StepCounted(c: Config, s: State, a: Action)
    requires WellFormed(c, s) && Counted(c, s) && Enabled(c, s, a)
    ensures Counted(c, Step(c, s, a))
  {
    if a.Submit? {
      var t := Step(c, s, a);
      var n := |s.log|;
      var call := t.log[n];
      if call.reply.Ids? {
        NoGapsMeansCovered(c, call.hashes, call.reply.ids);
      }
      assert forall k :: 0 <= k < n ==> t.log[k] == s.log[k];
      assert (forall k :: 0 <= k < |t.log| ==> CallFine(c, t.log[k])) <==>
             (forall k :: 0 <= k < n ==> CallFine(c, s.log[k])) && CallFine(c, call);
    }
  }

  lemma StepOldKept(c: Config, s: State, a: Action)
    requires WellFormed(c, s) && OldKept(c, s) && Enabled(c, s, a)
    ensures OldKept(c, Step(c, s, a))
  {
    var t := Step(c, s, a);
    match a
    case Submit(g, reply) =>
      var n := |s.log|;
      assert forall k :: 0 <= k < n ==> t.log[k] == s.log[k];
      assert t.log[n].reply == reply;
      assert forall id :: OldInLog(c, t.log, id) <==> OldInLog(c, s.log, id) || IsOld(c, reply, id);
      forall id | OldInLog(c, t.log, id) ensures Held(t, id) {
        if OldInLog(c, s.log, id) {
          assert Held(s, id);
          if id !in s.past {
            var h :| 0 <= h < |s.local| && id in s.local[h];
            assert id in t.local[h];
          }
        } else {
          assert id in t.local[g];
        }
      }
    case _ =>
  }

  /** The calls the store failed. */
  ghost function FailedCalls(log: seq<Call>): set<nat> {
    set k: nat | k < |log| && log[k].reply.Failed?
  }

  /** The places of a batch whose transaction was not reported with this block. */
  ghost function Uncovered(c: Config, call: Call): set<nat> {
    if c.unset || call.reply.Failed? then {}
    else set j: nat | j < |call.hashes| && !Covered(c, call.hashes[j], call.reply.ids)
  }

  datatype Gap = Gap(call: nat, place: nat)

  ghost function GapsAt(k: nat, places: set<nat>): set<Gap> {
    set j | j in places :: Gap(k, j)
  }

  /** All such places of all calls. */
  ghost function UncoveredIn(c: Config, log: seq<Call>): set<Gap> {
    set k: nat, j: nat | k < |log| && j in Uncovered(c, log[k]) :: Gap(k, j)
  }

  /** The counters are exact. */
  ghost predicate Tallied(c: Config, s: State) {
    s.failures == |FailedCalls(s.log)| && s.gaps == |UncoveredIn(c, s.log)|
  }

  lemma {:induction false} GapsAreUncovered(c: Config, hashes: seq<Hash>, ids: map<Hash, seq<BlockId>>)
    requires !c.unset
    ensures GapsIn(c, hashes, ids) == |Uncovered(c, Call(hashes, Ids(ids)))|
  {
    var all := Uncovered(c, Call(hashes, Ids(ids)));
    if hashes != [] {
      var last := |hashes| - 1;
      GapsAreUncovered(c, hashes[..last], ids);
      var before := Uncovered(c, Call(hashes[..last], Ids(ids)));
      assert all == before + if Covered(c, hashes[last], ids) then {} else {last};
    } else {
      assert all == {};
    }
  }

  lemma {:induction false} GapsAtCount(k: nat, places: set<nat>)
    ensures |GapsAt(k, places)| == |places|
  {
    if places != {} {
      var j :| j in places;
      GapsAtCount(k, places - {j});
      assert GapsAt(k, places) == GapsAt(k, places - {j}) + {Gap(k, j)};
    } else {
      assert GapsAt(k, places) == {};
    }
  }

  lemma {:induction false} OneMoreFailed(log: seq<Call>, call: Call)
    ensures |FailedCalls(log + [call])| == |FailedCalls(log)| + if call.reply.Failed? then 1 else 0
  {
    var n: nat := |log|;
    assert FailedCalls(log + [call]) == FailedCalls(log) + if call.reply.Failed? then {n} else {};
  }

  lemma {:induction false} OneMoreUncovered(c: Config, log: seq<Call>, call: Call)
    ensures |UncoveredIn(c, log + [call])| == |UncoveredIn(c, log)| + |Uncovered(c, call)|
  {
    var n: nat := |log|;
    var before, fresh_ := UncoveredIn(c, log), GapsAt(n, Uncovered(c, call));
    assert UncoveredIn(c, log + [call]) == before + fresh_;
    assert before !! fresh_;
    GapsAtCount(n, Uncovered(c, call));
  }

  lemma {:induction false} StepTallied(c: Config, s: State, a: Action)
    requires WellFormed(c, s) && Tallied(c, s) && Enabled(c, s, a)
    ensures Tallied(c, Step(c, s, a))
  {
    if a.Submit? {
      var call := Call(c.parts[a.g][s.next[a.g]], a.reply);
      OneMoreFailed(s.log, call);
      OneMoreUncovered(c, s.log, call);
      if call.reply.Ids? && !c.unset {
        GapsAreUncovered(c, call.hashes, call.reply.ids);
      }
    }
  }

  ghost predicate Inv(c: Config, s: State) {
    Kept(c, s) && Counted(c, s) && OldKept(c, s) && Tallied(c, s)
  }

  lemma {:induction false} RunKeeps(c: Config, s: State, run: seq<Action>, t: State)
    requires Inv(c, s) && RunsTo(c, s, run, t)
    ensures Inv(c, t)
    decreases |run|
  {
    if run != [] {
      StepKept(c, s, run[0]);
      StepCounted(c, s, run[0]);
      StepOldKept(c, s, run[0]);
      StepTallied(c, s, run[0]);
      RunKeeps(c, Step(c, s, run[0]), run[1..], t);
    }
  }

  lemma {:induction false} EveryRunKeeps(c: Config, run: seq<Action>, s: State)
    requires Reached(c, run, s)
    ensures Inv(c, s)
  {
    var start := Init(c);
    ProgressStart(c.parts, start.next, |start.next|);
    assert FailedCalls([]) == {} && UncoveredIn(c, []) == {};
    RunKeeps(c, start, run, s);
  }

  // ------------------------------------------------------------ every run can be completed

  /** How many steps a goroutine has left. */
  function Left(c: Config, s: State, g: nat): nat
    requires WellFormed(c, s) && g < |s.next|
  {
    if s.phase[g] == Running then |c.parts[g]| - s.next[g] + 1 else 0
  }

  function TotalLeft(c: Config, s: State, n: nat): nat
    requires WellFormed(c, s) && n <= |s.next|
  {
    if n == 0 then 0 else TotalLeft(c, s, n - 1) + Left(c, s, n - 1)
  }

  lemma {:induction false} TotalShrinks(c: Config, s: State, t: State, g: nat, n: nat)
    requires WellFormed(c, s) && WellFormed(c, t) && g < |s.next| && n <= |s.next| && Left(c, t, g) < Left(c, s, g)
    requires forall k :: 0 <= k < |s.next| && k != g ==> t.next[k] == s.next[k] && t.phase[k] == s.phase[k]
    ensures g < n ==> TotalLeft(c, t, n) < TotalLeft(c, s, n)
    ensures g >= n ==> TotalLeft(c, t, n) == TotalLeft(c, s, n)
  {
    if n > 0 {
      TotalShrinks(c, s, t, g, n - 1);
    }
  }

  /** From every state the goroutines can still all finish, also when every call to the store fails. */
  lemma {:induction false} CanFinish(c: Config, s: State) returns (run: seq<Action>, t: State)
    requires WellFormed(c, s)
    ensures RunsTo(c, s, run, t) && Complete(t)
    decreases TotalLeft(c, s, |s.next|)
  {
    if Complete(s) {
      run, t := [], s;
    } else {
      var g :| 0 <= g < |s.phase| && s.phase[g] == Running;
      var a := if s.next[g] < |c.parts[g]| then Submit(g, Failed) else Merge(g);
      var s' := Step(c, s, a);
      TotalShrinks(c, s, s', g, |s.next|);
      var rest;
      rest, t := CanFinish(c, s');
      run := [a] + rest;
      assert run[1..] == rest;
    }
  }

  // ------------------------------------------------------------ the verdict

  datatype Answer = QueryFailed | IsAncestor(yes: bool)

  /** The blockchain service, when there is one: is any of these an ancestor of the block? */
  type Client = Option<set<BlockId> -> Answer>

  datatype Verdict =
    | Done
    | MissingSubtree
    | ContextCancelled
    | QueryError
    | OnChainOld
    | StoreError(failures: nat, gaps: nat)
    | OnChainRecent

  /** The block's subtrees; a missing one is None. */
  type Subtrees = seq<Option<seq<Node>>>

  /** The batches of each subtree. */
  ghost predicate Batched(parts: seq<seq<seq<Hash>>>, subtrees: Subtrees, size: nat) {
    && size > 0 && |parts| == |subtrees|
    && forall g :: 0 <= g < |parts| ==>
         parts[g] == match subtrees[g] case None => [] case Some(nodes) => Batches(nodes, size)
  }

  predicate SubtreesPresent(c: Config, subtrees: Subtrees) {
    c.unset || None !in subtrees
  }

  /** The end of updateTxMinedStatus. */
  function Judge(c: Config, subtrees: Subtrees, s: State, client: Client): Verdict {
    if !SubtreesPresent(c, subtrees) then MissingSubtree
    else if Cancelled in s.phase then ContextCancelled
    else
      var answer := if s.past != {} && client.Some? && !c.unset then client.value(s.past) else IsAncestor(false);
      if answer.QueryFailed? then QueryError
      else if answer.yes then OnChainOld
      else if s.failures > 0 || s.gaps > 0 then StoreError(s.failures, s.gaps)
      else if s.hit then OnChainRecent
      else Done
  }

  ghost function SubtreeHashes(subtree: Option<seq<Node>>): multiset<Hash> {
    match subtree
    case None => multiset{}
    case Some(nodes) => multiset(Live(nodes))
  }

  /** Every transaction of the first n subtrees, as often as they hold it. */
  ghost function BlockHashes(subtrees: Subtrees, n: nat): multiset<Hash>
    requires n <= |subtrees|
  {
    if n == 0 then multiset{} else BlockHashes(subtrees, n - 1) + SubtreeHashes(subtrees[n - 1])
  }

  ghost predicate IsOldSet(c: Config, log: seq<Call>, ids: set<BlockId>) {
    forall id :: id in ids <==> OldInLog(c, log, id)
  }

  /** Nothing the store reported puts a transaction of the block on the block's chain before it. */
  ghost predicate NotOnChain(c: Config, log: seq<Call>, client: Client) {
    && (forall k :: 0 <= k < |log| ==> !HitIn(c, log[k].reply))
    && (client.Some? && !c.unset ==>
          forall ids :: ids != {} && IsOldSet(c, log, ids) ==> client.value(ids) == IsAncestor(false))
  }

  lemma PartAll(parts: seq<seq<seq<Hash>>>, subtrees: Subtrees, size: nat, g: nat)
    requires Batched(parts, subtrees, size) && g < |parts|
    ensures Part(parts[g], |parts[g]|) == SubtreeHashes(subtrees[g])
  {
    var batches := parts[g];
    assert batches[..|batches|] == batches;
    if subtrees[g].Some? {
      BatchesCoverNodes(subtrees[g].value, size);
    }
  }

  lemma {:induction false} ProgressAll(parts: seq<seq<seq<Hash>>>, subtrees: Subtrees, next: seq<nat>, n: nat)
    requires n <= |next| == |parts| == |subtrees|
    requires forall g :: 0 <= g < |next| ==> Part(parts[g], next[g]) == SubtreeHashes(subtrees[g])
    ensures Progress(parts, next, n) == BlockHashes(subtrees, n)
  {
    if n > 0 {
      ProgressAll(parts, subtrees, next, n - 1);
    }
  }

  lemma AllMerged(c: Config, s: State)
    requires Inv(c, s) && Complete(s) && Cancelled !in s.phase
    ensures forall g :: 0 <= g < |s.next| ==> s.next[g] == |c.parts[g]|
    ensures IsOldSet(c, s.log, s.past)
  {
    forall g | 0 <= g < |s.phase| ensures s.phase[g] == Merged {
      assert s.phase[g] in s.phase;
    }
    forall id ensures id in s.past <==> OldInLog(c, s.log, id) {
      if OldInLog(c, s.log, id) {
        assert Held(s, id);
      }
    }
  }

  /** The slow path: what the blockchain service says about the old ids the store reported. */
  ghost predicate SlowPath(c: Config, log: seq<Call>, client: Client, answer: Answer) {
    exists ids :: IsOldSet(c, log, ids)
      && answer == if ids == {} || client.None? || c.unset then IsAncestor(false) else client.value(ids)
  }

  /** What each verdict means, in terms of what the store was asked and answered. */
  ghost predicate Means(c: Config, subtrees: Subtrees, stopped: bool, log: seq<Call>, client: Client, v: Verdict) {
    match v
    case MissingSubtree => !c.unset && None in subtrees
    case ContextCancelled => SubtreesPresent(c, subtrees) && stopped
    case QueryError => SubtreesPresent(c, subtrees) && !stopped && SlowPath(c, log, client, QueryFailed)
    case OnChainOld => SubtreesPresent(c, subtrees) && !stopped && SlowPath(c, log, client, IsAncestor(true))
    case StoreError(failures, gaps) =>
      && SubtreesPresent(c, subtrees) && !stopped && SlowPath(c, log, client, IsAncestor(false))
      && failures == |FailedCalls(log)| && gaps == |UncoveredIn(c, log)| && failures + gaps > 0
    case OnChainRecent =>
      && SubtreesPresent(c, subtrees) && !stopped && SlowPath(c, log, client, IsAncestor(false))
      && (forall k :: 0 <= k < |log| ==> CallFine(c, log[k])) && exists k :: 0 <= k < |log| && HitIn(c, log[k].reply)
    case Done =>
      && SubtreesPresent(c, subtrees) && !stopped && SlowPath(c, log, client, IsAncestor(false))
      && (forall k :: 0 <= k < |log| ==> CallFine(c, log[k])) && forall k :: 0 <= k < |log| ==> !HitIn(c, log[k].reply)
  }

  lemma {:induction false} SlowPathAnswer(c: Config, log: seq<Call>, past: set<BlockId>, client: Client, answer: Answer)
    requires IsOldSet(c, log, past)
    ensures SlowPath(c, log, client, answer) <==>
            answer == if past == {} || client.None? || c.unset then IsAncestor(false) else client.value(past)
  {
    forall ids | IsOldSet(c, log, ids) ensures ids == past {
    }
  }

  /** Every verdict, for every schedule and all answers of the store. */
  lemma {:induction false} VerdictExactly(c: Config, subtrees: Subtrees, run: seq<Action>, s: State, client: Client,
        v: Verdict)
    requires Reached(c, run, s) && Complete(s)
    ensures Judge(c, subtrees, s, client) == v <==> Means(c, subtrees, Cancelled in s.phase, s.log, client, v)
  {
    EveryRunKeeps(c, run, s);
    if Cancelled !in s.phase {
      AllMerged(c, s);
      forall answer { SlowPathAnswer(c, s.log, s.past, client, answer); }
    }
  }

  lemma {:induction false} StoppedStays(c: Config, s: State, run: seq<Action>, t: State, g: nat)
    requires WellFormed(c, s) && RunsTo(c, s, run, t) && g < |s.phase| && s.phase[g] == Cancelled
    ensures g < |t.phase| && t.phase[g] == Cancelled
    decreases |run|
  {
    if run != [] {
      StoppedStays(c, Step(c, s, run[0]), run[1..], t, g);
    }
  }

  /** A cancelled context stops any goroutine that still has batches to submit, whatever the others do, and then the
      update can only end as cancelled. */
  lemma {:induction false} CancelStops(c: Config, subtrees: Subtrees, s: State, g: nat, client: Client)
    returns (run: seq<Action>, t: State)
    requires WellFormed(c, s) && g < |s.phase| && s.phase[g] == Running && s.next[g] < |c.parts[g]|
    requires SubtreesPresent(c, subtrees)
    ensures RunsTo(c, s, run, t) && Complete(t) && Judge(c, subtrees, t, client) == ContextCancelled
  {
    var cancelled := Step(c, s, Cancel);
    var stopped := Step(c, cancelled, Stop(g));
    var rest;
    rest, t := CanFinish(c, stopped);
    StoppedStays(c, stopped, rest, t, g);
    run := [Cancel, Stop(g)] + rest;
    assert run[1..] == [Stop(g)] + rest && run[1..][1..] == rest;
  }

  /** When the update reports success: no subtree was missing and no goroutine gave up, the store took
      every batch and reported this block for every transaction, and nothing it reported is on the block's
      chain. Neither the schedule nor the order of the answers matters. */
  lemma DoneExactly(c: Config, subtrees: Subtrees, run: seq<Action>, s: State, client: Client)
    requires Reached(c, run, s) && Complete(s)
    ensures Judge(c, subtrees, s, client) == Done <==>
            SubtreesPresent(c, subtrees) && Cancelled !in s.phase
            && (forall k :: 0 <= k < |s.log| ==> CallFine(c, s.log[k]))
            && NotOnChain(c, s.log, client)
  {
    EveryRunKeeps(c, run, s);
    if Cancelled !in s.phase {
      AllMerged(c, s);
      OldSetUnique(c, s, client);
    }
  }

  lemma OldSetUnique(c: Config, s: State, client: Client)
    requires Counted(c, s) && IsOldSet(c, s.log, s.past)
    ensures NotOnChain(c, s.log, client) <==>
            !s.hit && (client.Some? && !c.unset && s.past != {} ==> client.value(s.past) == IsAncestor(false))
  {
    forall ids | IsOldSet(c, s.log, ids) ensures ids == s.past {
    }
  }

  /** After success the store was asked about every transaction exactly as often as the block holds it. */
  lemma DoneMeansAllSubmitted(c: Config, subtrees: Subtrees, size: nat, run: seq<Action>, s: State, client: Client)
    requires Batched(c.parts, subtrees, size) && Reached(c, run, s) && Complete(s)
    requires Judge(c, subtrees, s, client) == Done
    ensures Submitted(s.log) == BlockHashes(subtrees, |subtrees|)
  {
    EveryRunKeeps(c, run, s);
    AllMerged(c, s);
    forall g | 0 <= g < |s.next| ensures Part(c.parts[g], s.next[g]) == SubtreeHashes(subtrees[g]) {
      PartAll(c.parts, subtrees, size, g);
    }
    ProgressAll(c.parts, subtrees, s.next, |s.next|);
  }

  lemma {:induction false} SubmittedInCall(log: seq<Call>, h: Hash) returns (k: nat)
    requires h in Submitted(log)
    ensures k < |log| && h in log[k].hashes
  {
    var last := |log| - 1;
    if h in log[last].hashes {
      k := last;
    } else {
      k := SubmittedInCall(log[..last], h);
    }
  }

  lemma InSum(a: multiset<Hash>, b: multiset<Hash>, h: Hash)
    requires h in a || h in b
    ensures h in a + b
  {
  }

  lemma {:induction false} InBlockHashes(subtrees: Subtrees, n: nat, g: nat, h: Hash)
    requires g < n <= |subtrees| && h in SubtreeHashes(subtrees[g])
    ensures h in BlockHashes(subtrees, n)
  {
    var k := n - 1;
    if g < k {
      InBlockHashes(subtrees, k, g, h);
    }
    InSum(BlockHashes(subtrees, k), SubtreeHashes(subtrees[k]), h);
  }

  /** After success every transaction of the block was tagged: some successful call held it and, unless the
      update reverts the tag, reported this block for it. */
  lemma DoneMeansTagged(c: Config, subtrees: Subtrees, size: nat, run: seq<Action>, s: State, client: Client,
                        g: nat, h: Hash) returns (k: nat)
    requires Batched(c.parts, subtrees, size) && Reached(c, run, s) && Complete(s)
    requires Judge(c, subtrees, s, client) == Done
    requires g < |subtrees| && subtrees[g].Some? && h in Live(subtrees[g].value)
    ensures k < |s.log| && h in s.log[k].hashes && s.log[k].reply.Ids?
    ensures !c.unset ==> Covered(c, h, s.log[k].reply.ids)
  {
    DoneMeansAllSubmitted(c, subtrees, size, run, s, client);
    InBlockHashes(subtrees, |subtrees|, g, h);
    k := SubmittedInCall(s.log, h);
    DoneExactly(c, subtrees, run, s, client);
    assert CallFine(c, s.log[k]);
  }
}
