/** The per-partition part of detect: gathering a merged partition from every run,
    sorting it, and cutting it into groups of equal hash. The main result is that,
    whatever the run layout, the partition bits and the sort, the groups the workers
    see are exactly the groups of the block: per hash value, the sorted entries with
    that hash. */
module DedupGroups {
  import opened Common
  import opened CountingSort
  import opened InpointDedup

  type Group = seq<Entry>

  /** All entries recorded for the block, run by run. */
  function All(recorded: seq<seq<Entry>>): seq<Entry> {
    if recorded == [] then [] else All(recorded[..|recorded| - 1]) + recorded[|recorded| - 1]
  }

  ghost predicate RunsHold(runs: seq<Run>, recorded: seq<seq<Entry>>, pbits: nat)
    requires pbits <= 64
  {
    && |runs| == |recorded|
    && forall r :: 0 <= r < |runs| ==> RunHolds(runs[r], recorded[r], pbits)
  }

  /** Merged partition p covers the partitions lo..hi. */
  ghost predicate Gathered(buf: seq<Entry>, all: seq<Entry>, pbits: nat, lo: nat, hi: nat)
    requires pbits <= 64
  {
    forall e: Entry :: multiset(buf)[e] == if lo <= Partition(e.Key(), pbits) < hi then multiset(all)[e] else 0
  }

  /** The stretch of one run that belongs to partitions lo..hi. */
  function Stretch(run: Run, lo: nat, hi: nat): seq<Entry>
    requires run.Run? ==> lo < |run.offs| && hi < |run.offs| && run.offs[lo] <= run.offs[hi] <= |run.entries|
  {
    if run.NoRun? then [] else run.entries[run.offs[lo]..run.offs[hi]]
  }

  lemma {:induction false} StretchGathered(run: Run, recorded: seq<Entry>, pbits: nat, lo: nat, hi: nat)
    requires pbits <= 64 && RunHolds(run, recorded, pbits) && lo <= hi <= Pow2(pbits)
    ensures run.Run? ==> lo < |run.offs| && hi < |run.offs| && run.offs[lo] <= run.offs[hi] <= |run.entries|
    ensures Gathered(Stretch(run, lo, hi), recorded, pbits, lo, hi)
  {
    if run.Run? {
      var f := Classifier(pbits);
      GroupedRange(recorded, f, Pow2(pbits), run.entries, lo, hi);
      var stretch := Stretch(run, lo, hi);
      forall e: Entry
        ensures multiset(stretch)[e] == if lo <= Partition(e.Key(), pbits) < hi then multiset(recorded)[e] else 0 {
        SelectRangeCount(recorded, f, lo, hi, e);
      }
    }
  }

  lemma {:induction false} GatheredAppend(a: seq<Entry>, b: seq<Entry>, as_: seq<Entry>, bs: seq<Entry>, pbits: nat,
        lo: nat, hi: nat)
    requires pbits <= 64 && Gathered(a, as_, pbits, lo, hi) && Gathered(b, bs, pbits, lo, hi)
    ensures Gathered(a + b, as_ + bs, pbits, lo, hi)
  {
    forall e: Entry
      ensures multiset(a + b)[e] == if lo <= Partition(e.Key(), pbits) < hi then multiset(as_ + bs)[e] else 0 {
      AppendCount(a, b, e);
      AppendCount(as_, bs, e);
    }
  }

  lemma {:induction false} ShlMonotone(p: nat, q: nat, n: nat)
    requires p <= q
    ensures Shl(p, n) <= Shl(q, n)
  {
    if n > 0 {
      ShlMonotone(p, q, n - 1);
    }
  }

  lemma {:induction false} ShlPow2(g: nat, n: nat)
    ensures Shl(Pow2(g), n) == Pow2(g + n)
  {
    if n > 0 {
      var n' := n - 1;
      ShlPow2(g, n');
      assert Pow2(g + n) == 2 * Pow2(g + n');
    }
  }

  /** Merged partition p of 2^gbits ends within the 2^(gbits + shift) partitions of the runs. */
  lemma {:induction false} MergedInside(p: nat, gbits: nat, shift: nat)
    requires p < Pow2(gbits)
    ensures Shl(p, shift) <= Shl(p + 1, shift) <= Pow2(gbits + shift)
  {
    ShlMonotone(p, p + 1, shift);
    ShlMonotone(p + 1, Pow2(gbits), shift);
    ShlPow2(gbits, shift);
  }

  method Gather(runs: seq<Run>, ghost recorded: seq<seq<Entry>>, ghost pbits: nat, gbits: nat, shift: nat, p: nat)
    returns (buf: seq<Entry>)
    requires gbits + shift == pbits <= MAX_PARTITION_BITS && RunsHold(runs, recorded, pbits) && p < Pow2(gbits)
    ensures Gathered(buf, All(recorded), pbits, Shl(p, shift), Shl(p + 1, shift))
  {
    buf := [];
    MergedInside(p, gbits, shift);
    var lo, hi := Shl(p, shift), Shl(p + 1, shift);
    assert recorded[..0] == [];
    for r := 0 to |runs|
      invariant Gathered(buf, All(recorded[..r]), pbits, lo, hi)
    {
      StretchGathered(runs[r], recorded[r], pbits, lo, hi);
      GatheredAppend(buf, Stretch(runs[r], lo, hi), All(recorded[..r]), recorded[r], pbits, lo, hi);
      assert recorded[..r + 1][..r] == recorded[..r];
      if runs[r].Run? {
        buf := buf + runs[r].entries[runs[r].offs[lo]..runs[r].offs[hi]];
      } else {
        assert buf + [] == buf;
      }
    }
    assert recorded[..|runs|] == recorded;
  }

  // ------------------------------------------------------------ sorting and grouping

  predicate Below(a: Entry, b: Entry) {
    a.Key() < b.Key() || (a.Key() == b.Key() && a.tx <= b.tx)
  }

  predicate Sorted(buf: seq<Entry>) {
    forall i, j :: 0 <= i < j < |buf| ==> Below(buf[i], buf[j])
  }

  ghost predicate SortOf(sorted: seq<Entry>, buf: seq<Entry>) {
    Sorted(sorted) && multiset(sorted) == multiset(buf)
  }

  /** Where the group that starts at `i` ends. */
  function GroupEnd(buf: seq<Entry>, i: nat, j: nat): (e: nat)
    requires i < j <= |buf|
    ensures j <= e <= |buf|
    ensures (forall k :: j <= k < e ==> buf[k].Key() == buf[i].Key()) && (e < |buf| ==> buf[e].Key() != buf[i].Key())
    decreases |buf| - j
  {
    if j < |buf| && buf[j].Key() == buf[i].Key() then GroupEnd(buf, i, j + 1) else j
  }

  /** The groups from position `i` on, in order. */
  function GroupsFrom(buf: seq<Entry>, i: nat): seq<Group>
    requires i <= |buf|
    decreases |buf| - i
  {
    if i == |buf| then [] else
      var j := GroupEnd(buf, i, i + 1);
      [buf[i..j]] + GroupsFrom(buf, j)
  }

  /** The scan of a sorted partition buffer. */
  method CutIntoGroups(buf: seq<Entry>) returns (groups: seq<Group>)
    ensures groups == GroupsFrom(buf, 0)
  {
    groups := [];
    var i := 0;
    while i < |buf|
      invariant 0 <= i <= |buf|
      invariant GroupsFrom(buf, 0) == groups + GroupsFrom(buf, i)
    {
      var j := i + 1;
      while j < |buf| && buf[j].Key() == buf[i].Key()
        invariant i < j <= |buf|
        invariant GroupEnd(buf, i, i + 1) == GroupEnd(buf, i, j)
      {
        j := j + 1;
      }
      groups := groups + [buf[i..j]];
      i := j;
    }
  }

  /** g is the group of hash k: the entries of the block with that hash, sorted. */
  ghost predicate GroupOf(all: seq<Entry>, k: nat, g: Group) {
    && g != [] && Sorted(g)
    && (forall e: Entry :: multiset(g)[e] == if e.Key() == k then multiset(all)[e] else 0)
  }

  ghost predicate BlockGroup(all: seq<Entry>, g: Group) {
    g != [] && GroupOf(all, g[0].Key(), g)
  }

  lemma {:induction false} SliceCount(buf: seq<Entry>, i: nat, j: nat, e: Entry)
    requires i <= j <= |buf|
    ensures multiset(buf)[e] == multiset(buf[..i])[e] + multiset(buf[i..j])[e] + multiset(buf[j..])[e]
  {
    assert buf == buf[..i] + (buf[i..j] + buf[j..]);
    AppendCount(buf[..i], buf[i..j] + buf[j..], e);
    AppendCount(buf[i..j], buf[j..], e);
  }

  lemma {:induction false} NotIn(s: seq<Entry>, e: Entry)
    requires forall k :: 0 <= k < |s| ==> s[k] != e
    ensures multiset(s)[e] == 0
  {
    assert e !in multiset(s);
  }

  /** A stretch of a sorted buffer that is maximal with its key holds every entry with that key. */
  lemma {:induction false} StretchIsGroup(buf: seq<Entry>, i: nat, j: nat)
    requires Sorted(buf) && i < j <= |buf|
    requires forall k :: i <= k < j ==> buf[k].Key() == buf[i].Key()
    requires forall k :: 0 <= k < i ==> buf[k].Key() < buf[i].Key()
    requires forall k :: j <= k < |buf| ==> buf[k].Key() > buf[i].Key()
    ensures GroupOf(buf, buf[i].Key(), buf[i..j])
  {
    var g := buf[i..j];
    forall e: Entry ensures multiset(g)[e] == if e.Key() == buf[i].Key() then multiset(buf)[e] else 0 {
      if e.Key() == buf[i].Key() {
        SliceCount(buf, i, j, e);
        NotIn(buf[..i], e);
        NotIn(buf[j..], e);
      } else {
        NotIn(g, e);
      }
    }
  }

  ghost predicate Boundary(buf: seq<Entry>, i: nat)
    requires i <= |buf|
  {
    forall a, b :: 0 <= a < i <= b < |buf| ==> buf[a].Key() < buf[b].Key()
  }

  lemma {:induction false} NextBoundary(buf: seq<Entry>, i: nat)
    requires Sorted(buf) && i < |buf| && Boundary(buf, i)
    ensures Boundary(buf, GroupEnd(buf, i, i + 1))
    ensures GroupOf(buf, buf[i].Key(), buf[i..GroupEnd(buf, i, i + 1)])
  {
    var j := GroupEnd(buf, i, i + 1);
    forall k | j <= k < |buf| ensures buf[k].Key() > buf[i].Key() {
      assert Below(buf[i], buf[j]);
      assert j == k || Below(buf[j], buf[k]);
    }
    forall k | 0 <= k < i ensures buf[k].Key() < buf[i].Key() {
    }
    forall a, b | 0 <= a < j <= b < |buf| ensures buf[a].Key() < buf[b].Key() {
      assert buf[b].Key() > buf[i].Key();
      assert a >= i || buf[a].Key() < buf[i].Key();
    }
    StretchIsGroup(buf, i, j);
  }

  /** Cutting a sorted buffer gives the groups of its hashes... */
  lemma {:induction false} CutGivesGroups(buf: seq<Entry>, i: nat, g: Group)
    requires Sorted(buf) && i <= |buf| && Boundary(buf, i)
    requires g in GroupsFrom(buf, i)
    ensures g != [] && GroupOf(buf, g[0].Key(), g)
    decreases |buf| - i
  {
    if i < |buf| {
      NextBoundary(buf, i);
      var j := GroupEnd(buf, i, i + 1);
      if g in GroupsFrom(buf, j) {
        CutGivesGroups(buf, j, g);
      } else {
        assert g == buf[i..j];
      }
    }
  }

  /** ...and none is missing. */
  lemma {:induction false} CutCovers(buf: seq<Entry>, i: nat, at: nat) returns (g: Group)
    requires Sorted(buf) && i <= at < |buf|
    ensures g in GroupsFrom(buf, i) && buf[at] in g
    decreases |buf| - i
  {
    var j := GroupEnd(buf, i, i + 1);
    if at < j {
      g := buf[i..j];
      assert g[at - i] == buf[at];
    } else {
      g := CutCovers(buf, j, at);
    }
  }

  lemma {:induction false} EntryEquality(a: Entry, b: Entry)
    requires ProperEntry(a) && ProperEntry(b) && Below(a, b) && Below(b, a)
    ensures a == b
  {
    assert a.Key() == b.Key();
    assert a.hi == a.Key() / TWO32 && b.hi == b.Key() / TWO32;
  }

  ghost predicate AllProper(s: seq<Entry>) {
    forall i :: 0 <= i < |s| ==> ProperEntry(s[i])
  }

  /** Sorted sequences with the same entries are equal: the sort leaves no choice. */
  lemma {:induction false} SortedUnique(s: seq<Entry>, t: seq<Entry>)
    requires Sorted(s) && Sorted(t) && multiset(s) == multiset(t)
    requires AllProper(s) && AllProper(t)
    ensures s == t
  {
    SameLength(s, t);
    if s != [] {
      HeadEqual(s, t);
      TailEntries(s);
      TailEntries(t);
      SortedUnique(s[1..], t[1..]);
      assert s == [s[0]] + s[1..] && t == [t[0]] + t[1..];
    }
  }

  lemma {:induction false} SameLength(s: seq<Entry>, t: seq<Entry>)
    requires multiset(s) == multiset(t)
    ensures |s| == |t|
  {
    assert |s| == |multiset(s)| && |t| == |multiset(t)|;
  }

  lemma {:induction false} TailEntries(s: seq<Entry>)
    requires s != []
    ensures multiset(s[1..]) == multiset(s) - multiset{s[0]}
  {
    assert s == [s[0]] + s[1..];
  }

  lemma {:induction false} HeadEqual(s: seq<Entry>, t: seq<Entry>)
    requires Sorted(s) && Sorted(t) && multiset(s) == multiset(t) && s != [] && t != []
    requires AllProper(s) && AllProper(t)
    ensures s[0] == t[0]
  {
    assert s[0] in multiset(t) && t[0] in multiset(s);
    var i :| 0 <= i < |t| && t[i] == s[0];
    var j :| 0 <= j < |s| && s[j] == t[0];
    if i > 0 && j > 0 {
      assert Below(t[0], t[i]) && Below(s[0], s[j]);
      EntryEquality(s[0], t[0]);
    }
  }

  lemma {:induction false} GroupUnique(all: seq<Entry>, k: nat, g: Group, h: Group)
    requires AllProper(all) && GroupOf(all, k, g) && GroupOf(all, k, h)
    ensures g == h
  {
    assert multiset(g) == multiset(h);
    GroupProper(all, k, g);
    GroupProper(all, k, h);
    SortedUnique(g, h);
  }

  lemma {:induction false} GroupMembers(all: seq<Entry>, k: nat, g: Group, e: Entry)
    requires GroupOf(all, k, g)
    ensures e in g <==> e in all && e.Key() == k
  {
    assert e in g <==> multiset(g)[e] > 0;
    assert e in all <==> multiset(all)[e] > 0;
  }

  lemma {:induction false} GroupProper(all: seq<Entry>, k: nat, g: Group)
    requires AllProper(all) && GroupOf(all, k, g)
    ensures AllProper(g)
  {
    forall i | 0 <= i < |g| ensures ProperEntry(g[i]) {
      GroupMembers(all, k, g, g[i]);
    }
  }

  /** The buffer of a merged partition, sorted. */
  ghost predicate PartitionBuffer(sorted: seq<Entry>, all: seq<Entry>, pbits: nat, shift: nat, p: nat)
    requires pbits <= 64
  {
    Sorted(sorted) && Gathered(sorted, all, pbits, Shl(p, shift), Shl(p + 1, shift))
  }

  /** The merged partition a hash belongs to. */
  lemma {:induction false} MergedPartition(key: nat, pbits: nat, gbits: nat, shift: nat) returns (p: nat)
    requires key < TWO64 && gbits + shift == pbits <= 64
    ensures p < Pow2(gbits) && Shl(p, shift) <= Partition(key, pbits) < Shl(p + 1, shift)
  {
    PartitionInRange(key, pbits);
    ShlPow2(gbits, shift);
    p := MergedIndex(Partition(key, pbits), Pow2(gbits), shift);
  }

  lemma {:induction false} MergedIndex(q: nat, groups: nat, shift: nat) returns (p: nat)
    requires q < Shl(groups, shift)
    ensures p < groups && Shl(p, shift) <= q < Shl(p + 1, shift)
  {
    if shift == 0 {
      p := q;
    } else {
      p := MergedIndex(q / 2, groups, shift - 1);
    }
  }

  lemma {:induction false} GroupTransfers(buf: seq<Entry>, all: seq<Entry>, pbits: nat, lo: nat, hi: nat, k: nat,
        g: Group)
    requires pbits <= 64 && Gathered(buf, all, pbits, lo, hi) && GroupOf(buf, k, g) && lo <= Partition(k, pbits) < hi
    ensures GroupOf(all, k, g)
  {
    forall e: Entry ensures multiset(g)[e] == if e.Key() == k then multiset(all)[e] else 0 {
    }
  }

  /** A group cut from a partition's buffer is a group of the whole block. */
  lemma {:induction false} WorkerGroupIsBlockGroup(all: seq<Entry>, pbits: nat, shift: nat, p: nat,
        sorted: seq<Entry>, g: Group)
    requires pbits <= 64 && PartitionBuffer(sorted, all, pbits, shift, p) && g in GroupsFrom(sorted, 0)
    ensures BlockGroup(all, g)
  {
    CutGivesGroups(sorted, 0, g);
    var lo, hi := Shl(p, shift), Shl(p + 1, shift);
    GroupMembers(sorted, g[0].Key(), g, g[0]);
    assert multiset(sorted)[g[0]] > 0;
    GroupTransfers(sorted, all, pbits, lo, hi, g[0].Key(), g);
  }

  lemma {:induction false} BlockGroupInBuffer(all: seq<Entry>, pbits: nat, lo: nat, hi: nat, buf: seq<Entry>, g: Group)
    requires pbits <= 64 && AllProper(all) && BlockGroup(all, g)
    requires Sorted(buf) && Gathered(buf, all, pbits, lo, hi) && lo <= Partition(g[0].Key(), pbits) < hi
    ensures g in GroupsFrom(buf, 0)
  {
    var k := g[0].Key();
    GroupMembers(all, k, g, g[0]);
    assert multiset(buf)[g[0]] > 0;
    assert g[0] in buf;
    var at :| 0 <= at < |buf| && buf[at] == g[0];
    var h := CutCovers(buf, 0, at);
    CutGivesGroups(buf, 0, h);
    GroupMembers(buf, h[0].Key(), h, g[0]);
    GroupTransfers(buf, all, pbits, lo, hi, k, h);
    GroupUnique(all, k, g, h);
  }

  /** Every group of the block is cut from the buffer of its merged partition. */
  lemma {:induction false} BlockGroupReachesWorker(all: seq<Entry>, pbits: nat, gbits: nat, shift: nat,
                                                   sorted: seq<seq<Entry>>, g: Group) returns (p: nat)
    requires gbits + shift == pbits <= 64 && AllProper(all) && BlockGroup(all, g)
    requires |sorted| == Pow2(gbits)
    requires forall p :: 0 <= p < |sorted| ==> PartitionBuffer(sorted[p], all, pbits, shift, p)
    ensures p < |sorted| && g in GroupsFrom(sorted[p], 0)
  {
    GroupProper(all, g[0].Key(), g);
    assert ProperEntry(g[0]);
    p := MergedPartition(g[0].Key(), pbits, gbits, shift);
    assert PartitionBuffer(sorted[p], all, pbits, shift, p);
    BlockGroupInBuffer(all, pbits, Shl(p, shift), Shl(p + 1, shift), sorted[p], g);
  }
}
