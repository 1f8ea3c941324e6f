/** validOrderAndBlessed on a block of one subtree (model/Block.go), two ways:
    with every input recorded in the spends map as its transaction is validated, and with the
    inputs only collected, checked within the subtree when another error turns up and by the
    batched detector at the end. Both give the same verdict at the same transaction. */
module Verdicts {
  import opened Common
  import opened Inpoints
  import opened NodeShard
  import opened BlockScan
  import ParentOrder
  import SpendsMap
  import DedupVerify
  import DedupDetect
  import DedupTheorem
  import DedupCheck
  import InpointDedup

  ghost predicate AllProper(inpoints: seq<Inpoint>) {
    forall k :: 0 <= k < |inpoints| ==> SpendsMap.Proper(inpoints[k])
  }

  ghost predicate ProperBlock(b: Block) {
    forall i :: 0 <= i < |b.txs| && b.txs[i].inputs.Inputs? ==> AllProper(b.txs[i].inputs.inpoints)
  }

  // ------------------------------------------------------------ input by input

  /** The first k inputs are new and, with what was spent, make up `now`. */
  ghost predicate TakenSoFar(inpoints: seq<Inpoint>, spent: set<Inpoint>, k: nat, now: set<Inpoint>)
    requires k <= |inpoints|
  {
    now == spent + SetOf(inpoints, k) && forall j: nat :: j < k ==> !RepeatsAt(inpoints, spent, j)
  }

  lemma {:induction false} TakenNext(inpoints: seq<Inpoint>, spent: set<Inpoint>, k: nat, now: set<Inpoint>)
    requires k < |inpoints| && TakenSoFar(inpoints, spent, k, now)
    ensures inpoints[k] in now <==> RepeatsAt(inpoints, spent, k)
    ensures inpoints[k] !in now ==> TakenSoFar(inpoints, spent, k + 1, now + {inpoints[k]})
  {
  }

  /** checkDuplicateInputs: every input into the spends map. */
  method SpendInputs(m: SpendsMap.DiskParentSpendsMap, inpoints: seq<Inpoint>, fails: nat -> bool) returns (o: Spending)
    requires m.Valid() && AllProper(inpoints)
    modifies m
    ensures m.Valid()
    ensures o == Spend(inpoints, old(m.spent), fails, 0)
    ensures o.AllNew? ==> m.spent == old(m.spent) + AsSet(inpoints)
  {
    ghost var spent := m.spent;
    for k := 0 to |inpoints|
      invariant m.Valid() && TakenSoFar(inpoints, spent, k, m.spent)
      invariant Spend(inpoints, spent, fails, 0) == Spend(inpoints, spent, fails, k)
    {
      TakenNext(inpoints, spent, k, m.spent);
      var r := m.SetIfNotExists(inpoints[k], fails(k));
      if r.Failed? {
        return MapFailed;
      }
      if r.Existed? {
        return Repeated;
      }
    }
    return AllNew;
  }

  /** validateTransaction on the disk-map path. */
  method ValidateTxPerInput(b: Block, i: nat, m: SpendsMap.DiskParentSpendsMap, fails: nat -> nat -> bool,
        missing: seq<Hash>) returns (error: Option<Verdict>, more: seq<Hash>)
    requires i < |b.txs| && m.Valid() && ProperBlock(b)
    modifies m
    ensures m.Valid()
    ensures error.Some? ==> error.value == ScanWith(b, fails, i, old(m.spent), missing)
    ensures error.None? ==> ScanWith(b, fails, i, old(m.spent), missing) == ScanWith(b, fails, i + 1, m.spent, more)
  {
    more := missing;
    var tx := b.txs[i];
    if i == 0 && tx.placeholder {
      return None, more;
    }
    var unread := MetaError(tx, i);
    if unread.Some? {
      return unread, more;
    }
    var spending := SpendInputs(m, tx.inputs.inpoints, fails(i));
    if spending.MapFailed? {
      return Some(SpendsMapError(i)), more;
    }
    if spending.Repeated? {
      return Some(DuplicateInputs(i)), more;
    }
    var order := ParentOrder.CheckParents(b.txMap, tx.parents.hashes, [], i);
    if order.OutOfOrder? {
      return Some(OutOfOrder(i, order.parent)), more;
    }
    return None, missing + order.parents;
  }

  /** validateSubtree on the disk-map path: the transactions in order, then the chain. */
  method ScanPerInput(b: Block, m: SpendsMap.DiskParentSpendsMap, fails: nat -> nat -> bool) returns (v: Verdict)
    requires m.Valid() && ProperBlock(b)
    modifies m
    ensures v == ScanWith(b, fails, 0, old(m.spent), [])
  {
    ghost var verdict := ScanWith(b, fails, 0, m.spent, []);
    var missing: seq<Hash> := [];
    for i := 0 to |b.txs|
      invariant m.Valid()
      invariant verdict == ScanWith(b, fails, i, m.spent, missing)
    {
      var error, more := ValidateTxPerInput(b, i, m, fails, missing);
      if error.Some? {
        return error.value;
      }
      missing := more;
    }
    return ChainVerdict(b, missing);
  }

  /** The disk-map path, which opens an empty map for the block. */
  method ValidatePerInput(b: Block, disks: nat, fails: nat -> nat -> bool) returns (v: Verdict)
    requires disks > 0 && ProperBlock(b)
    ensures v == ScanWith(b, fails, 0, {}, [])
    ensures Answers(b, fails, v)
    ensures NeverFails(fails) ==> v == Scan(b, 0, {}, [])
  {
    var m := new SpendsMap.DiskParentSpendsMap(disks);
    v := ScanPerInput(b, m, fails);
    ScanIfNeverFails(b, fails);
    ScanAnswers(b, fails, v);
  }

  // ------------------------------------------------------------ collected and batched

  ghost predicate DupAt(b: Block, i: nat)
    requires i < |b.txs|
  {
    Live(b, i) && b.txs[i].inputs.Inputs? && Repeats(b.txs[i].inputs.inpoints, Spent(b, i))
  }

  /** The first transaction before n that repeats an input. */
  ghost function FirstDup(b: Block, n: nat): Option<nat>
    requires n <= |b.txs|
  {
    if n == 0 then None
    else if FirstDup(b, n - 1).Some? then FirstDup(b, n - 1)
    else if DupAt(b, n - 1) then Some(n - 1)
    else None
  }

  ghost predicate InputsReadable(b: Block, n: nat)
    requires n <= |b.txs|
  {
    forall i :: 0 <= i < n && Live(b, i) ==> b.txs[i].inputs.Inputs?
  }

  /** The inner loop of earlierDuplicateInSubtree. */
  method SeeInputs(inpoints: seq<Inpoint>, before: set<Inpoint>) returns (dup: bool, seen: set<Inpoint>)
    ensures dup <==> Repeats(inpoints, before)
    ensures !dup ==> seen == before + AsSet(inpoints)
  {
    seen := before;
    for k := 0 to |inpoints|
      invariant TakenSoFar(inpoints, before, k, seen)
    {
      TakenNext(inpoints, before, k, seen);
      if inpoints[k] in seen {
        return true, seen;
      }
      seen := seen + {inpoints[k]};
    }
    return false, seen;
  }

  /** How far the inputs of the first n transactions can be read. */
  ghost function ReadableTo(b: Block, n: nat): (m: nat)
    requires n <= |b.txs|
    ensures m <= n && InputsReadable(b, m) && (m < n ==> Live(b, m) && b.txs[m].inputs.InputsError?)
  {
    if n == 0 then 0
    else
      var m := ReadableTo(b, n - 1);
      if m < n - 1 || (Live(b, n - 1) && b.txs[n - 1].inputs.InputsError?) then m else n
  }

  /** earlierDuplicateInSubtree, over the transactions before n. An unreadable transaction ends the
      search with nothing found. */
  method EarlierDuplicate(b: Block, n: nat) returns (r: Option<nat>)
    requires n <= |b.txs|
    ensures r == FirstDup(b, ReadableTo(b, n))
    ensures InputsReadable(b, n) ==> r == FirstDup(b, n)
  {
    var seen: set<Inpoint> := {};
    for i := 0 to n
      invariant seen == Spent(b, i) && FirstDup(b, i).None? && i <= ReadableTo(b, n)
    {
      assert Live(b, i) && b.txs[i].inputs.InputsError? ==> ReadableTo(b, n) == i;
      if i == 0 && b.txs[i].placeholder {
        continue;
      }
      if b.txs[i].inputs.InputsError? {
        return None;
      }
      var dup, now := SeeInputs(b.txs[i].inputs.inpoints, seen);
      if dup {
        assert DupAt(b, i);
        FirstDupStays(b, i + 1, ReadableTo(b, n));
        return Some(i);
      }
      seen := now;
    }
    return None;
  }

  lemma {:induction false} FirstDupStays(b: Block, m: nat, n: nat)
    requires m <= n <= |b.txs| && FirstDup(b, m).Some?
    ensures FirstDup(b, n) == FirstDup(b, m)
  {
    if m < n {
      FirstDupStays(b, m, n - 1);
    }
  }

  /** The verdict of the scan when the transactions before i have no error of their own: the first
      repeated input among them, or else what the scan finds from i on. */
  ghost function ScanFrom(b: Block, i: nat, missing: seq<Hash>): Verdict
    requires i <= |b.txs|
  {
    if FirstDup(b, i).Some? then DuplicateInputs(FirstDup(b, i).value) else Scan(b, i, Spent(b, i), missing)
  }

  lemma {:induction false} ScanStep(b: Block, i: nat, missing: seq<Hash>)
    requires i < |b.txs| && Live(b, i) && b.txs[i].parents.Parents? && b.txs[i].inputs.Inputs? && Order(b, i).Missing?
    ensures ScanFrom(b, i, missing) == ScanFrom(b, i + 1, missing + Order(b, i).parents)
  {
  }

  lemma ScanSkip(b: Block)
    requires |b.txs| > 0 && b.txs[0].placeholder
    ensures ScanFrom(b, 0, []) == ScanFrom(b, 1, [])
  {
    assert Spent(b, 1) == {};
  }

  /** The batch of inputs the detector saw, by transaction. */
  ghost function Collected(b: Block): DedupVerify.Block {
    map i: nat | i < |b.txs| && Live(b, i) && b.txs[i].inputs.Inputs? :: b.txs[i].inputs.inpoints
  }

  /** An error was met at transaction i: a duplicate among the transactions before n comes first. */
  method WithPrecedence(b: Block, n: nat, error: Verdict) returns (v: Verdict)
    requires n <= |b.txs| && InputsReadable(b, n)
    ensures v == if FirstDup(b, n).Some? then DuplicateInputs(FirstDup(b, n).value) else error
  {
    var dup := EarlierDuplicate(b, n);
    return if dup.Some? then DuplicateInputs(dup.value) else error;
  }

  // ------------------------------------------------------------ what is recorded

  /** What the run of the subtree records before transaction n. */
  ghost function Records(b: Block, n: nat): seq<InpointDedup.TxRecord>
    requires n <= |b.txs|
  {
    if n == 0 then []
    else
      var tx := b.txs[n - 1];
      Records(b, n - 1)
      + (if Live(b, n - 1) && tx.inputs.Inputs? then [InpointDedup.TxRecord(n - 1, tx.inputs.inpoints)] else [])
  }

  ghost function CollectedBefore(b: Block, n: nat): DedupVerify.Block
    requires n <= |b.txs|
  {
    map i: nat | i < n && Live(b, i) && b.txs[i].inputs.Inputs? :: b.txs[i].inputs.inpoints
  }

  /** The recorded block is the collected one. */
  lemma {:induction false} RecordsAreCollected(b: Block, n: nat)
    requires n <= |b.txs|
    ensures DedupTheorem.BlockOf(Records(b, n)) == CollectedBefore(b, n)
  {
    if n == 0 {
      assert CollectedBefore(b, 0) == map[];
    } else {
      var i := n - 1;
      RecordsAreCollected(b, i);
      CollectedMore(b, i, n);
      if Live(b, i) && b.txs[i].inputs.Inputs? {
        BlockOfMore(Records(b, i), InpointDedup.TxRecord(i, b.txs[i].inputs.inpoints));
      } else {
        assert Records(b, i) + [] == Records(b, i);
      }
    }
  }

  lemma {:induction false} BlockOfMore(records: seq<InpointDedup.TxRecord>, r: InpointDedup.TxRecord)
    ensures DedupTheorem.BlockOf(records + [r]) == DedupTheorem.BlockOf(records)[r.tx := r.inpoints]
  {
    assert (records + [r])[..|records|] == records;
  }

  lemma {:induction false} CollectedMore(b: Block, i: nat, n: nat)
    requires i + 1 == n <= |b.txs|
    ensures CollectedBefore(b, n) ==
            if Live(b, i) && b.txs[i].inputs.Inputs? then CollectedBefore(b, i)[i := b.txs[i].inputs.inpoints]
            else CollectedBefore(b, i)
  {
  }

  lemma {:induction false} RecordsRecordable(b: Block, n: nat, width: nat)
    requires n <= |b.txs| && n <= width && n <= DedupDetect.NONE
    ensures DedupTheorem.Recordable(Records(b, n), width)
    ensures forall k :: 0 <= k < |Records(b, n)| ==> Records(b, n)[k].tx < n
  {
    if n > 0 {
      RecordsRecordable(b, n - 1, width);
    }
  }

  /** The resolver of detectDuplicateInputs: reads the inputs back from the subtree meta. */
  function Resolve(b: Block): DedupVerify.Resolver {
    (t: nat) =>
      if t < |b.txs| && b.txs[t].inputs.Inputs? then DedupVerify.Inputs(b.txs[t].inputs.inpoints)
      else DedupVerify.ResolveError("error getting tx inpoints")
  }

  /** The number of inputs before transaction n. */
  ghost function InputsBefore(b: Block, n: nat): nat
    requires n <= |b.txs|
  {
    if n == 0 then 0
    else
      var tx := b.txs[n - 1];
      InputsBefore(b, n - 1) + (if Live(b, n - 1) && tx.inputs.Inputs? then |tx.inputs.inpoints| else 0)
  }

  lemma {:induction false} RecordsCount(b: Block, n: nat)
    requires n <= |b.txs|
    ensures DedupCheck.InputCount(Records(b, n)) == InputsBefore(b, n)
  {
    if n > 0 {
      RecordsCount(b, n - 1);
      var before := Records(b, n - 1);
      if Live(b, n - 1) && b.txs[n - 1].inputs.Inputs? {
        assert Records(b, n)[..|before|] == before;
      } else {
        assert Records(b, n) == before;
      }
    }
  }

  // ------------------------------------------------------------ collected and batched

  lemma {:induction false} CollectedIsBlock(b: Block)
    requires |b.txs| < DedupDetect.NONE
    ensures DedupTheorem.Flatten([Records(b, |b.txs|)]) == Records(b, |b.txs|)
    ensures DedupTheorem.BlockOf(Records(b, |b.txs|)) == Collected(b)
    ensures DedupTheorem.Recordable(Records(b, |b.txs|), |b.txs|)
  {
    RecordsAreCollected(b, |b.txs|);
    RecordsRecordable(b, |b.txs|, |b.txs|);
    assert CollectedBefore(b, |b.txs|) == Collected(b);
    assert DedupTheorem.Flatten([]) == [] && [Records(b, |b.txs|)][..0] == [];
  }

  lemma {:induction false} ResolvesCollected(b: Block)
    ensures forall t :: t in Collected(b) ==> Resolve(b)(t) == DedupVerify.Inputs(Collected(b)[t])
  {
  }

  /** The end of the in-memory path: the run is finished and detect asked for the verdict. */
  method DetectCollected(b: Block, run: InpointDedup.RunBuilder, workers: nat) returns (v: Verdict)
    requires |b.txs| < DedupDetect.NONE && InputsReadable(b, |b.txs|)
    requires DedupCheck.Ready(run, |b.txs|) && run.records == Records(b, |b.txs|)
    modifies run, run.dedup
    ensures v.TooManyInputs? <==> DedupCheck.InputCount(Records(b, |b.txs|)) >= InpointDedup.TWO32
    ensures !v.TooManyInputs? ==>
      v == match FirstDup(b, |b.txs|) case Some(i) => DuplicateInputs(i) case None => Valid
  {
    CollectedIsBlock(b);
    ResolvesCollected(b);
    var a := DedupCheck.FinishAndDetect(run, |b.txs|, Resolve(b), workers);
    if a.TooBig? {
      return TooManyInputs;
    }
    DetectedIsFirstDup(b, a.verdict);
    match a.verdict
    case Duplicate(tx) => v := DuplicateInputs(tx);
    case Clean => v := Valid;
  }

  /** How far the in-memory path has got without an error. */
  ghost predicate Passed(b: Block, i: nat, missing: seq<Hash>)
    requires i <= |b.txs|
  {
    && InputsReadable(b, i) && (forall k: nat :: k < i ==> OtherwiseFine(b, k))
    && missing == AbsentBefore(b, i)
    && Scan(b, 0, {}, []) == ScanFrom(b, i, missing)
  }

  lemma {:induction false} PassedNext(b: Block, i: nat, missing: seq<Hash>)
    requires i < |b.txs| && Passed(b, i, missing) && Live(b, i) && Known(b, i) && Order(b, i).Missing?
    ensures Passed(b, i + 1, missing + Order(b, i).parents)
  {
    var p := OrderFrom(b, i, 0);
    ScanStep(b, i, missing);
  }

  lemma {:induction false} PassedSkip(b: Block)
    requires |b.txs| > 0 && b.txs[0].placeholder && Passed(b, 0, [])
    ensures Passed(b, 1, [])
  {
    ScanSkip(b);
  }

  /** validateTransaction on the in-memory path, with the search for an earlier duplicate on an error. */
  method ValidateTx(b: Block, i: nat, run: InpointDedup.RunBuilder, missing: seq<Hash>)
    returns (error: Option<Verdict>, more: seq<Hash>)
    requires i < |b.txs| && Live(b, i) && Passed(b, i, missing) && run.Valid() && run.records == Records(b, i)
    modifies run
    ensures run.Valid()
    ensures error.Some? ==> !OtherwiseFine(b, i) && error.value == Scan(b, 0, {}, [])
    ensures error.None? ==> Passed(b, i + 1, more) && run.records == Records(b, i + 1)
  {
    var tx := b.txs[i];
    more := missing;
    var unread := MetaError(tx, i);
    if unread.Some? {
      var v := WithPrecedence(b, i, unread.value);
      return Some(v), more;
    }
    run.AddTx(i, tx.inputs.inpoints);
    var order := ParentOrder.CheckParents(b.txMap, tx.parents.hashes, [], i);
    if order.OutOfOrder? {
      ghost var p := OrderFrom(b, i, 0);
      // the transaction's own inputs had been collected by then
      var v := WithPrecedence(b, i + 1, OutOfOrder(i, order.parent));
      return Some(v), more;
    }
    PassedNext(b, i, missing);
    return None, missing + order.parents;
  }

  /** The in-memory path: every transaction's inputs are recorded as it is validated, duplicates are settled
      within the subtree when something else fails, and the detector runs at the end. It gives the verdict of
      the input-by-input path at the same transaction, for any hash, sizing, number of workers and
      interleaving; except that a block with nothing but duplicates to find and 2^32 inputs or more is
      refused as such. */
  method ValidateBatched(b: Block, hash: InpointDedup.HashFunction, expectedInputs: nat, workers: nat)
    returns (v: Verdict)
    requires |b.txs| < DedupDetect.NONE
    ensures v.TooManyInputs? <==> Uneventful(b) && InputsBefore(b, |b.txs|) >= InpointDedup.TWO32
    ensures !v.TooManyInputs? ==> v == Scan(b, 0, {}, []) && Answers(b, Never(), v)
  {
    v := RecordAndDetect(b, hash, expectedInputs, workers);
    PlainScanAnswers(b, v);
  }

  /** The loop over the transactions and what follows it. */
  method RecordAndDetect(b: Block, hash: InpointDedup.HashFunction, expectedInputs: nat, workers: nat)
    returns (v: Verdict)
    requires |b.txs| < DedupDetect.NONE
    ensures v.TooManyInputs? <==> Uneventful(b) && InputsBefore(b, |b.txs|) >= InpointDedup.TWO32
    ensures !v.TooManyInputs? ==> v == Scan(b, 0, {}, [])
  {
    var d := new InpointDedup.Dedup(1, expectedInputs, |b.txs|, hash);
    var run := new InpointDedup.RunBuilder(d, 0);
    var missing: seq<Hash> := [];
    for i := 0 to |b.txs|
      invariant fresh(d) && fresh(run) && run.dedup == d && DedupCheck.Ready(run, |b.txs|)
      invariant run.records == Records(b, i) && Passed(b, i, missing)
    {
      if i == 0 && b.txs[i].placeholder {
        PassedSkip(b);
        continue;
      }
      var error, more := ValidateTx(b, i, run, missing);
      if error.Some? {
        ScanIsNotTooMany(b, 0, {}, []);
        return error.value;
      }
      missing := more;
    }
    v := JudgeRecorded(b, run, missing, workers);
  }

  /** What follows the loop: the chain lookup and, when it has no complaint, the detector. */
  method JudgeRecorded(b: Block, run: InpointDedup.RunBuilder, missing: seq<Hash>, workers: nat) returns (v: Verdict)
    requires |b.txs| < DedupDetect.NONE && DedupCheck.Ready(run, |b.txs|)
    requires run.records == Records(b, |b.txs|) && Passed(b, |b.txs|, missing)
    modifies run, run.dedup
    ensures v.TooManyInputs? <==> Uneventful(b) && InputsBefore(b, |b.txs|) >= InpointDedup.TWO32
    ensures !v.TooManyInputs? ==> v == Scan(b, 0, {}, [])
  {
    RecordsCount(b, |b.txs|);
    ChainByPosition(b);
    var chain := ChainVerdict(b, missing);
    if chain != Valid {
      v := WithPrecedence(b, |b.txs|, chain);
      return;
    }
    v := DetectCollected(b, run, workers);
  }

  lemma {:induction false} ScanIsNotTooMany(b: Block, i: nat, spent: set<Inpoint>, missing: seq<Hash>)
    requires i <= |b.txs|
    ensures !Scan(b, i, spent, missing).TooManyInputs?
    decreases |b.txs| - i
  {
    if i < |b.txs| {
      if !Live(b, i) {
        ScanIsNotTooMany(b, i + 1, spent, missing);
      } else if b.txs[i].parents.Parents? && b.txs[i].inputs.Inputs? && Order(b, i).Missing? {
        ScanIsNotTooMany(b, i + 1, spent + AsSet(b.txs[i].inputs.inpoints), missing + Order(b, i).parents);
      }
    }
  }

  // ------------------------------------------------------------ the detector's scan and this one

  lemma {:induction false} SpentMeans(b: Block, i: nat, x: Inpoint)
    requires i <= |b.txs| && InputsReadable(b, i)
    ensures x in Spent(b, i) <==> DedupVerify.SpentBefore(Collected(b), i, x)
  {
    if i > 0 {
      SpentMeans(b, i - 1, x);
      var j := i - 1;
      if x in Spent(b, i) {
        if x in Spent(b, j) {
          var u :| u in Collected(b) && u < j && x in Collected(b)[u];
        } else {
          SetOfMeans(b.txs[j].inputs.inpoints, |b.txs[j].inputs.inpoints|, x);
          assert j in Collected(b) && x in Collected(b)[j];
        }
      }
      if DedupVerify.SpentBefore(Collected(b), i, x) {
        var u :| u in Collected(b) && u < i && x in Collected(b)[u];
        if u < j {
          assert DedupVerify.SpentBefore(Collected(b), j, x);
        } else {
          SetOfMeans(b.txs[j].inputs.inpoints, |b.txs[j].inputs.inpoints|, x);
        }
      }
    }
  }

  lemma {:induction false} DupMeansSpendsSpent(b: Block, i: nat)
    requires i < |b.txs| && InputsReadable(b, |b.txs|)
    ensures DupAt(b, i) <==> DedupVerify.SpendsSpent(Collected(b), i)
  {
    var c := Collected(b);
    if DupAt(b, i) {
      var ins := b.txs[i].inputs.inpoints;
      var k: nat :| k < |ins| && RepeatsAt(ins, Spent(b, i), k);
      SpentMeans(b, i, ins[k]);
      SetOfMeans(ins, k, ins[k]);
      if ins[k] in SetOf(ins, k) {
        var j :| 0 <= j < k && ins[j] == ins[k];
        assert DedupVerify.RepeatedIn(c[i], ins[k]);
      }
      assert DedupVerify.Respends(c, i, ins[k]);
    }
    if DedupVerify.SpendsSpent(c, i) {
      var x :| DedupVerify.Respends(c, i, x);
      var ins := b.txs[i].inputs.inpoints;
      SpentMeans(b, i, x);
      if DedupVerify.RepeatedIn(ins, x) {
        var j, k :| 0 <= j < k < |ins| && ins[j] == x && ins[k] == x;
        SetOfMeans(ins, k, x);
        assert RepeatsAt(ins, Spent(b, i), k);
      } else {
        var k :| 0 <= k < |ins| && ins[k] == x;
        assert RepeatsAt(ins, Spent(b, i), k);
      }
    }
  }

  lemma {:induction false} FirstDupIsFirst(b: Block, n: nat)
    requires n <= |b.txs|
    ensures FirstDup(b, n).Some? ==> FirstDup(b, n).value < n && DupAt(b, FirstDup(b, n).value)
    ensures forall i :: 0 <= i < (if FirstDup(b, n).Some? then FirstDup(b, n).value else n) ==> !DupAt(b, i)
  {
    if n > 0 {
      FirstDupIsFirst(b, n - 1);
    }
  }

  lemma {:induction false} DetectedIsFirstDup(b: Block, detected: DedupDetect.Verdict)
    requires InputsReadable(b, |b.txs|) && DedupTheorem.ScanVerdict(Collected(b), detected)
    ensures !detected.Error?
    ensures detected ==
            match FirstDup(b, |b.txs|) case Some(i) => DedupDetect.Duplicate(i) case None => DedupDetect.Clean
  {
    var n := |b.txs|;
    FirstDupIsFirst(b, n);
    if FirstDup(b, n).Some? {
      DupMeansSpendsSpent(b, FirstDup(b, n).value);
    }
    if detected.Duplicate? {
      var x :| DedupVerify.Respends(Collected(b), detected.tx, x);
      DupMeansSpendsSpent(b, detected.tx);
    }
  }
}
