/** The in-memory side of model/inpoint_dedup.go: recording inputs as short
    entries, grouping a run's entries by partition, gathering a merged partition,
    cutting it into groups of equal hash and settling one group against the real
    inpoints. The hash is an arbitrary function throughout. */
module InpointDedup {
  import opened Common
  import opened CountingSort
  import opened Inpoints

  const TWO32: nat := 0x1_0000_0000
  const TWO64: nat := 0x1_0000_0000_0000_0000
  const MAX_PARTITION_BITS: nat := 12
  const ENTRIES_PER_PARTITION: nat := 0x1_0000

  type Key = k: nat | k < TWO64
  type HashFunction = Inpoint -> Key

  /** The shift operators on unsigned words whose result fits the word. */
  function Shl(x: nat, n: nat): nat {
    if n == 0 then x else 2 * Shl(x, n - 1)
  }

  function Shr(x: nat, n: nat): nat {
    if n == 0 then x else Shr(x, n - 1) / 2
  }

  /** A 64-bit hash split in two halves, and the transaction that spends the inpoint. */
  datatype Entry = Entry(hi: nat, lo: nat, tx: nat) {
    function Key(): nat { hi * TWO32 + lo }
  }

  /** The index type is 32 bits wide when every index fits, 64 bits otherwise. */
  function IndexWidth(totalTxs: nat): nat {
    if totalTxs < TWO32 then TWO32 else TWO64
  }

  function ToEntry(k: Key, tx: nat, width: nat): Entry
    requires width > 0
  {
    Entry(k / TWO32, k % TWO32, tx % width)
  }

  function Partition(key: nat, pbits: nat): nat
    requires pbits <= 64
  {
    if pbits == 0 then 0 else Shr(key, 64 - pbits)
  }

  function Classifier(pbits: nat): Entry -> nat
    requires pbits <= 64
  {
    (e: Entry) => Partition(e.Key(), pbits)
  }

  /** One call of addTx. */
  datatype TxRecord = TxRecord(tx: nat, inpoints: seq<Inpoint>)

  function TxEntries(hash: HashFunction, width: nat, tx: nat, inpoints: seq<Inpoint>): seq<Entry>
    requires width > 0
  {
    seq(|inpoints|, i requires 0 <= i < |inpoints| => ToEntry(hash(inpoints[i]), tx, width))
  }

  function RunEntries(hash: HashFunction, width: nat, records: seq<TxRecord>): seq<Entry>
    requires width > 0
  {
    if records == [] then []
    else
      var last := records[|records| - 1];
      RunEntries(hash, width, records[..|records| - 1]) + TxEntries(hash, width, last.tx, last.inpoints)
  }

  /** A finished run: entries grouped by partition, partition p at entries[offs[p]..offs[p + 1]]. */
  datatype Run = NoRun | Run(entries: seq<Entry>, offs: seq<nat>)

  ghost predicate RunHolds(run: Run, recorded: seq<Entry>, pbits: nat)
    requires pbits <= 64
  {
    match run
    case NoRun => recorded == []
    case Run(entries, offs) =>
      && Grouped(recorded, Classifier(pbits), Pow2(pbits), entries)
      && |offs| == Pow2(pbits) + 1
      && Start(recorded, Classifier(pbits), Pow2(pbits)) == |recorded|
      && forall p :: 0 <= p < |offs| ==> offs[p] == Start(recorded, Classifier(pbits), p)
  }

  ghost predicate ProperEntry(e: Entry) {
    e.hi < TWO32 && e.lo < TWO32
  }

  lemma {:induction false} ToEntryKey(k: Key, tx: nat, width: nat)
    requires width > 0
    ensures ToEntry(k, tx, width).Key() == k
    ensures ProperEntry(ToEntry(k, tx, width))
  {
  }

  lemma {:induction false} Pow2Byte(n: nat)
    ensures Pow2(n + 8) == 256 * Pow2(n)
  {
    assert Pow2(n + 4) == 16 * Pow2(n) by { assert Pow2(n + 2) == 4 * Pow2(n); }
    assert Pow2(n + 6) == 4 * Pow2(n + 4);
  }

  lemma {:induction false} Pow2Of64()
    ensures Pow2(64) == TWO64
  {
    Pow2Byte(0);
    Pow2Byte(8);
    Pow2Byte(16);
    Pow2Byte(24);
    Pow2Byte(32);
    Pow2Byte(40);
    Pow2Byte(48);
    Pow2Byte(56);
  }

  lemma {:induction false} ShrBelow(x: nat, n: nat, m: nat)
    requires x < Pow2(m + n)
    ensures Shr(x, n) < Pow2(m)
  {
    if n > 0 {
      var n', m' := n - 1, m + 1;
      assert m' + n' == m + n;
      ShrBelow(x, n', m');
    }
  }

  /** A 64-bit key falls into one of the 2^pbits partitions. */
  lemma {:induction false} PartitionInRange(key: nat, pbits: nat)
    requires key < TWO64 && pbits <= 64
    ensures Partition(key, pbits) < Pow2(pbits)
  {
    if pbits > 0 {
      var rest := 64 - pbits;
      assert Pow2(pbits + rest) == TWO64 by { Pow2Of64(); }
      ShrBelow(key, rest, pbits);
    }
  }

  lemma ProperEntriesClassified(entries: seq<Entry>, pbits: nat)
    requires pbits <= 64 && forall e :: e in entries ==> ProperEntry(e)
    ensures forall k :: 0 <= k < |entries| ==> Classifier(pbits)(entries[k]) < Pow2(pbits)
  {
    forall k | 0 <= k < |entries| ensures Classifier(pbits)(entries[k]) < Pow2(pbits) {
      assert ProperEntry(entries[k]);
      PartitionInRange(entries[k].Key(), pbits);
    }
  }

  /** The first pass of finish: offs[p + 1] counts the entries of partition p. */
  method CountPartitions(entries: seq<Entry>, f: Entry -> nat, np: nat, offs: array<nat>)
    requires offs.Length == np + 1
    requires forall k :: 0 <= k < |entries| ==> f(entries[k]) < np
    requires forall p :: 0 <= p <= np ==> offs[p] == 0
    modifies offs
    ensures offs[0] == 0
    ensures forall p :: 0 <= p < np ==> offs[p + 1] == |Select(entries, f, p)|
  {
    for i := 0 to |entries|
      invariant offs[0] == 0
      invariant forall p :: 0 <= p < np ==> offs[p + 1] == |Select(entries[..i], f, p)|
    {
      var q := f(entries[i]);
      CountAfter(entries, f, np, i);
      var q' := q + 1;
      offs[q'] := offs[q'] + 1;
    }
    assert entries[..|entries|] == entries;
  }

  /** The second pass: counts become where each partition starts. */
  method PrefixSums(ghost entries: seq<Entry>, ghost f: Entry -> nat, np: nat, offs: array<nat>)
    requires offs.Length == np + 1 && offs[0] == 0
    requires forall p :: 0 <= p < np ==> offs[p + 1] == |Select(entries, f, p)|
    modifies offs
    ensures forall p {:trigger offs[p]} :: 0 <= p <= np ==> offs[p] == Start(entries, f, p)
  {
    for p := 0 to np
      invariant forall q {:trigger offs[q]} :: 0 <= q <= p ==> offs[q] == Start(entries, f, q)
      invariant forall q :: p < q <= np ==> offs[q] == old(offs[q])
    {
      ghost var next := p + 1;
      assert old(offs[next]) == |Select(entries, f, p)|;
      assert Start(entries, f, next) == Start(entries, f, p) + |Select(entries, f, p)|;
      offs[p + 1] := offs[p + 1] + offs[p];
    }
  }


  lemma {:induction false} RunEntriesProper(hash: HashFunction, width: nat, records: seq<TxRecord>)
    requires width > 0
    ensures forall e :: e in RunEntries(hash, width, records) ==> ProperEntry(e)
  {
    if records != [] {
      RunEntriesProper(hash, width, records[..|records| - 1]);
    }
  }

  /** The shared side of the check: one slot per run, filled as the runs finish. */
  class Dedup {
    const hash: HashFunction
    const pbits: nat
    const width: nat
    var runs: seq<Run>
    var tooBig: bool

    ghost predicate Valid()
      reads this
    {
      pbits <= MAX_PARTITION_BITS && (width == TWO32 || width == TWO64)
    }

    constructor (numRuns: nat, expectedInputs: nat, totalTxs: nat, hash: HashFunction)
      ensures Valid() && this.hash == hash && width == IndexWidth(totalTxs)
      ensures !tooBig && runs == seq(numRuns, _ => NoRun)
    {
      var bits: nat := 0;
      while bits < MAX_PARTITION_BITS && Shr(expectedInputs, bits) > ENTRIES_PER_PARTITION
            && numRuns * (Shl(1, bits + 1) + 1) <= expectedInputs
        invariant bits <= MAX_PARTITION_BITS
      {
        bits := bits + 1;
      }
      this.hash := hash;
      pbits := bits;
      width := IndexWidth(totalTxs);
      runs := seq(numRuns, _ => NoRun);
      tooBig := false;
    }
  }

  /** Collects the inputs of one run. */
  class RunBuilder {
    const dedup: Dedup
    const run: nat
    var entries: seq<Entry>
    ghost var records: seq<TxRecord>

    ghost predicate Valid()
      reads this, dedup
    {
      && dedup.Valid()
      && run < |dedup.runs|
      && entries == RunEntries(dedup.hash, dedup.width, records)
    }

    constructor (dedup: Dedup, run: nat)
      requires dedup.Valid() && run < |dedup.runs|
      ensures Valid() && this.dedup == dedup && this.run == run && records == []
    {
      this.dedup := dedup;
      this.run := run;
      entries := [];
      records := [];
    }

    method AddTx(tx: nat, inpoints: seq<Inpoint>)
      requires Valid()
      modifies this
      ensures Valid()
      ensures records == old(records) + [TxRecord(tx, inpoints)]
    {
      ghost var taken := TxEntries(dedup.hash, dedup.width, tx, inpoints);
      for i := 0 to |inpoints|
        invariant records == old(records) && dedup.Valid()
        invariant entries == old(entries) + taken[..i]
      {
        var k := dedup.hash(inpoints[i]);
        entries := entries + [Entry(k / TWO32, k % TWO32, tx % dedup.width)];
        assert taken[..i + 1] == taken[..i] + [taken[i]];
      }
      records := records + [TxRecord(tx, inpoints)];
      assert records[..|records| - 1] == old(records);
    }

    /** Hands the run over, grouped by partition. A run of 2^32 entries or more is only flagged. */
    method Finish()
      requires Valid()
      modifies this, dedup
      ensures entries == [] && records == old(records)
      ensures |old(entries)| < TWO32 ==>
        && dedup.tooBig == old(dedup.tooBig)
        && |dedup.runs| == |old(dedup.runs)|
        && dedup.runs == old(dedup.runs)[run := if old(entries) == [] then old(dedup.runs)[run] else dedup.runs[run]]
        && (old(entries) != [] ==>
              RunHolds(dedup.runs[run], RunEntries(dedup.hash, dedup.width, records), dedup.pbits))
      ensures |old(entries)| >= TWO32 ==> dedup.tooBig && dedup.runs == old(dedup.runs)
    {
      var es := entries;
      entries := [];
      if |es| == 0 {
        return;
      }
      if |es| >= TWO32 {
        dedup.tooBig := true;
        return;
      }
      var np, f := Pow2(dedup.pbits), Classifier(dedup.pbits);
      RunEntriesProper(dedup.hash, dedup.width, records);
      ProperEntriesClassified(es, dedup.pbits);
      var offs := new nat[np + 1](_ => 0);
      CountPartitions(es, f, np, offs);
      PrefixSums(es, f, np, offs);
      StartWhole(es, f, np);
      var grouped := new Entry[|es|](_ => es[0]);
      var next := new nat[np](p requires 0 <= p < np reads offs => offs[p]);
      Place(es, f, np, next, grouped);
      dedup.runs := dedup.runs[run := Run(grouped[..], offs[..])];
    }
  }
}
