/** The duplicate-input check as a caller uses it (model/inpoint_dedup.go): a Dedup is made, every
    run records its transactions and is finished, and detect is asked for the verdict. */
module DedupCheck {
  import opened InpointDedup
  import opened DedupGroups
  import opened DedupVerify
  import opened DedupDetect
  import opened DedupTheorem

  /** What detect returns: an error of its own when a run was too large, the verdict otherwise. */
  datatype Answer = TooBig | Checked(verdict: Verdict)

  ghost predicate OversizedRun(layout: seq<seq<TxRecord>>) {
    exists r :: 0 <= r < |layout| && InputCount(layout[r]) >= TWO32
  }

  /** The number of inputs of some transactions. */
  function InputCount(records: seq<TxRecord>): nat {
    if records == [] then 0
    else InputCount(records[..|records| - 1]) + |records[|records| - 1].inpoints|
  }

  lemma {:induction false} EntriesCount(hash: HashFunction, width: nat, records: seq<TxRecord>)
    requires width > 0
    ensures |RunEntries(hash, width, records)| == InputCount(records)
  {
    if records != [] {
      EntriesCount(hash, width, records[..|records| - 1]);
    }
  }

  /** The first n runs hold what their transactions recorded, the others nothing yet. */
  ghost predicate RunsRecorded(d: Dedup, layout: seq<seq<TxRecord>>, n: nat)
    reads d
  {
    && d.Valid() && n <= |layout| == |d.runs|
    && (forall r :: 0 <= r < n ==> RunHolds(d.runs[r], RunEntries(d.hash, d.width, layout[r]), d.pbits))
    && (forall r :: n <= r < |layout| ==> d.runs[r].NoRun?)
  }

  /** One run: every transaction is added and the run is finished. */
  method RecordRun(d: Dedup, run: nat, records: seq<TxRecord>)
    requires d.Valid() && run < |d.runs| && d.runs[run].NoRun?
    modifies d
    ensures d.Valid() && |d.runs| == |old(d.runs)|
    ensures forall r :: 0 <= r < |d.runs| && r != run ==> d.runs[r] == old(d.runs[r])
    ensures InputCount(records) >= TWO32 ==> d.tooBig
    ensures InputCount(records) < TWO32 ==>
      d.tooBig == old(d.tooBig) && RunHolds(d.runs[run], RunEntries(d.hash, d.width, records), d.pbits)
  {
    var builder := new RunBuilder(d, run);
    for i := 0 to |records|
      invariant builder.Valid() && fresh(builder) && builder.dedup == d && builder.run == run
      invariant builder.records == records[..i]
      invariant d.runs == old(d.runs) && d.tooBig == old(d.tooBig)
    {
      builder.AddTx(records[i].tx, records[i].inpoints);
      assert records[..i + 1] == records[..i] + [TxRecord(records[i].tx, records[i].inpoints)];
    }
    assert records[..|records|] == records;
    EntriesCount(d.hash, d.width, records);
    builder.Finish();
  }

  /** A Dedup with every run recorded. */
  method RecordAll(layout: seq<seq<TxRecord>>, expectedInputs: nat, totalTxs: nat, hash: HashFunction)
    returns (d: Dedup)
    ensures fresh(d) && d.Valid() && d.hash == hash && d.width == IndexWidth(totalTxs)
    ensures d.tooBig <==> OversizedRun(layout)
    ensures !d.tooBig ==> RunsHold(d.runs, Recorded(hash, d.width, layout), d.pbits)
  {
    d := new Dedup(|layout|, expectedInputs, totalTxs, hash);
    for r := 0 to |layout|
      invariant fresh(d) && d.Valid() && d.hash == hash && d.width == IndexWidth(totalTxs) && |d.runs| == |layout|
      invariant d.tooBig <==> OversizedRun(layout[..r])
      invariant !d.tooBig ==> RunsRecorded(d, layout, r)
      invariant forall k :: r <= k < |layout| ==> d.runs[k].NoRun?
    {
      RecordRun(d, r, layout[r]);
      OversizedNext(layout, r);
    }
    assert layout[..|layout|] == layout;
  }

  lemma {:induction false} OversizedNext(layout: seq<seq<TxRecord>>, r: nat)
    requires r < |layout|
    ensures OversizedRun(layout[..r + 1]) <==> OversizedRun(layout[..r]) || InputCount(layout[r]) >= TWO32
  {
    var pre, now := layout[..r], layout[..r + 1];
    if OversizedRun(pre) {
      var k :| 0 <= k < |pre| && InputCount(pre[k]) >= TWO32;
      assert now[k] == pre[k];
    }
    if InputCount(layout[r]) >= TWO32 {
      assert now[r] == layout[r];
    }
    if OversizedRun(now) {
      var k :| 0 <= k < |now| && InputCount(now[k]) >= TWO32;
      assert k < r ==> pre[k] == now[k];
    }
  }

  lemma {:induction false} RecordableWide(records: seq<TxRecord>, totalTxs: nat)
    requires Recordable(records, totalTxs) && totalTxs < TWO64
    ensures Recordable(records, IndexWidth(totalTxs))
  {
  }

  /** The environment holds the hash groups of the block, as detect needs them. */
  ghost predicate Runnable(env: Env, block: Block) {
    GroupsNonempty(env) && Bounded(env) && GroupsOf(env) == HashGroups(block, env.hash)
  }

  /** What preparing the recorded runs gives. */
  ghost predicate PreparedFor(parts: seq<seq<Group>>, recorded: seq<seq<Entry>>, pbits: nat) {
    exists gbits: nat, shift: nat, sorted :: Prepared(parts, All(recorded), pbits, gbits, shift, sorted)
  }

  method PrepareRuns(d: Dedup, ghost recorded: seq<seq<Entry>>) returns (parts: seq<seq<Group>>)
    requires d.Valid() && RunsHold(d.runs, recorded, d.pbits)
    ensures PreparedFor(parts, recorded, d.pbits)
  {
    var all, gbits, sorted := PrepareParts(d, recorded);
    return all;
  }

  lemma {:induction false} EnvReady(env: Env, layout: seq<seq<TxRecord>>, width: nat, recorded: seq<seq<Entry>>,
        pbits: nat)
    requires 0 < width <= TWO64 && Recordable(Flatten(layout), width)
    requires recorded == Recorded(env.hash, width, layout) && PreparedFor(env.parts, recorded, pbits)
    requires Faithful(BlockOf(Flatten(layout)), env.resolve)
    ensures Runnable(env, BlockOf(Flatten(layout)))
  {
    var gbits: nat, shift: nat, sorted :| Prepared(env.parts, All(recorded), pbits, gbits, shift, sorted);
    GroupsReady(env, env.parts, layout, width, All(recorded), pbits, gbits, shift, sorted);
  }

  /** The first half of detect: the partitions, merged, sorted and cut. */
  method PrepareEnv(d: Dedup, ghost layout: seq<seq<TxRecord>>, resolve: Resolver) returns (env: Env)
    requires d.Valid() && RunsHold(d.runs, Recorded(d.hash, d.width, layout), d.pbits)
    requires Recordable(Flatten(layout), d.width) && Faithful(BlockOf(Flatten(layout)), resolve)
    ensures env.hash == d.hash && env.resolve == resolve && Runnable(env, BlockOf(Flatten(layout)))
  {
    ghost var recorded := Recorded(d.hash, d.width, layout);
    var parts := PrepareRuns(d, recorded);
    env := Env(d.hash, resolve, parts);
    EnvReady(env, layout, d.width, recorded, d.pbits);
  }

  /** What a verdict says of the block: the one the hash and the resolver determine, and that of the sequential
      scan when the resolver never fails. */
  ghost predicate RightVerdict(block: Block, hash: HashFunction, resolve: Resolver, v: Verdict) {
    && DeterminedVerdict(block, hash, resolve, v)
    && ((forall t :: t in block ==> resolve(t).Inputs?) ==> ScanVerdict(block, v))
  }

  /** detect over a Dedup whose runs are recorded, whatever the workers do. */
  method DetectIn(d: Dedup, ghost layout: seq<seq<TxRecord>>, ghost totalTxs: nat, resolve: Resolver, workers: nat)
    returns (a: Answer)
    requires d.Valid() && d.width == IndexWidth(totalTxs) && totalTxs < TWO64
    requires !d.tooBig ==> RunsHold(d.runs, Recorded(d.hash, d.width, layout), d.pbits)
    requires Recordable(Flatten(layout), totalTxs) && Faithful(BlockOf(Flatten(layout)), resolve)
    ensures a.TooBig? <==> d.tooBig
    ensures a.Checked? ==> RightVerdict(BlockOf(Flatten(layout)), d.hash, resolve, a.verdict)
  {
    if d.tooBig {
      return TooBig;
    }
    RecordableWide(Flatten(layout), totalTxs);
    var env := PrepareEnv(d, layout, resolve);
    var v := Detect(env, workers);
    VerdictMeans(env, layout, totalTxs, v);
    return Checked(v);
  }

  lemma {:induction false} VerdictMeans(env: Env, layout: seq<seq<TxRecord>>, totalTxs: nat, v: Verdict)
    requires totalTxs < TWO64 && Recordable(Flatten(layout), totalTxs)
    requires Faithful(BlockOf(Flatten(layout)), env.resolve)
    requires IsVerdict(env, HashGroups(BlockOf(Flatten(layout)), env.hash), v)
    ensures RightVerdict(BlockOf(Flatten(layout)), env.hash, env.resolve, v)
  {
    var width, block := IndexWidth(totalTxs), BlockOf(Flatten(layout));
    if forall t :: t in block ==> env.resolve(t).Inputs? {
      LayoutEntries(env.hash, width, layout);
      BlockIndexes(Flatten(layout), totalTxs);
      VerdictIsScan(env, block, All(Recorded(env.hash, width, layout)), v);
    }
    PartsDoNotMatter(env, HashGroups(block, env.hash), v);
  }

  /** The verdict the block, the hash and the resolver determine. */
  ghost predicate DeterminedVerdict(block: Block, hash: HashFunction, resolve: Resolver, v: Verdict) {
    IsVerdict(Env(hash, resolve, []), HashGroups(block, hash), v)
  }

  lemma {:induction false} PartsDoNotMatter(env: Env, groups: iset<Group>, v: Verdict)
    ensures IsVerdict(env, groups, v) <==> IsVerdict(Env(env.hash, env.resolve, []), groups, v)
  {
    var bare := Env(env.hash, env.resolve, []);
    assert forall g, tx :: FoundIn(env, groups, g, tx) <==> FoundIn(bare, groups, g, tx);
    assert forall g, e :: FailedIn(env, groups, g, e) <==> FailedIn(bare, groups, g, e);
  }

  /** A run of a Dedup with that one run, not finished yet. */
  ghost predicate Ready(run: RunBuilder, totalTxs: nat)
    reads run, run.dedup
  {
    && run.Valid() && run.run == 0 && !run.dedup.tooBig && run.dedup.runs == [NoRun]
    && run.dedup.width == IndexWidth(totalTxs)
  }

  /** A block of one subtree: finishes its run and asks for the verdict. */
  method FinishAndDetect(run: RunBuilder, ghost totalTxs: nat, resolve: Resolver, workers: nat) returns (a: Answer)
    requires Ready(run, totalTxs) && totalTxs < TWO64
    requires Recordable(run.records, totalTxs) && Faithful(BlockOf(run.records), resolve)
    modifies run, run.dedup
    ensures a.TooBig? <==> InputCount(old(run.records)) >= TWO32
    ensures a.Checked? ==> RightVerdict(BlockOf(old(run.records)), run.dedup.hash, resolve, a.verdict)
  {
    var d := run.dedup;
    ghost var records := run.records;
    EntriesCount(d.hash, d.width, records);
    run.Finish();
    assert Flatten([]) == [] && [records][..0] == [] && Flatten([records]) == records;
    assert !d.tooBig ==> RunHolds(d.runs[0], RunEntries(d.hash, d.width, records), d.pbits);
    a := DetectIn(d, [records], totalTxs, resolve, workers);
  }

  /** The whole check, from the transactions of every subtree to the answer. For any hash function, layout,
      sizing hints, number of workers and interleaving of their steps: too big exactly when one subtree has
      2^32 inputs or more, otherwise the earliest transaction that spends an outpoint spent before it, and
      clean exactly when there is none. */
  method CheckDuplicateInputs(layout: seq<seq<TxRecord>>, expectedInputs: nat, totalTxs: nat, hash: HashFunction,
                              resolve: Resolver, workers: nat) returns (a: Answer)
    requires totalTxs < TWO64 && Recordable(Flatten(layout), totalTxs)
    requires forall t :: t in BlockOf(Flatten(layout)) ==> resolve(t) == Inputs(BlockOf(Flatten(layout))[t])
    ensures a.TooBig? <==> OversizedRun(layout)
    ensures a.Checked? ==> ScanVerdict(BlockOf(Flatten(layout)), a.verdict)
  {
    var d := RecordAll(layout, expectedInputs, totalTxs, hash);
    a := DetectIn(d, layout, totalTxs, resolve, workers);
  }
}
