/** verifyGroup: settling a group of equal hashes against the real inpoints, and
    what its answer means for the block. */
module DedupVerify {
  import opened Inpoints
  import opened InpointDedup
  import opened DedupGroups

  /** What the resolver answers for a transaction. */
  datatype Resolved = Inputs(inpoints: seq<Inpoint>) | ResolveError(error: string)
  type Resolver = nat -> Resolved

  datatype Outcome = Distinct | Found(tx: nat) | Failed(error: string)

  /** The inputs of every recorded transaction, by its index in the block. */
  type Block = map<nat, seq<Inpoint>>

  ghost predicate RepeatedIn(s: seq<Inpoint>, inpoint: Inpoint) {
    exists i, j :: 0 <= i < j < |s| && s[i] == inpoint && s[j] == inpoint
  }

  ghost predicate SpentBefore(block: Block, t: nat, inpoint: Inpoint) {
    exists u :: u in block && u < t && inpoint in block[u]
  }

  /** Transaction t spends an inpoint that an earlier transaction, or an earlier input of itself, spent. */
  ghost predicate Respends(block: Block, t: nat, inpoint: Inpoint) {
    t in block && inpoint in block[t] && (RepeatedIn(block[t], inpoint) || SpentBefore(block, t, inpoint))
  }

  ghost predicate SpendsSpent(block: Block, t: nat) {
    exists inpoint :: Respends(block, t, inpoint)
  }

  ghost predicate RespendsHash(block: Block, hash: HashFunction, k: nat, t: nat) {
    exists inpoint :: hash(inpoint) == k && Respends(block, t, inpoint)
  }

  // ------------------------------------------------------------ verifyGroup

  datatype Taken = Repeat | Seen(seen: set<Inpoint>)

  /** Takes the inputs from position i on that have the group's hash. */
  function TakeInputs(hash: HashFunction, key: nat, inpoints: seq<Inpoint>, i: nat, seen: set<Inpoint>): Taken
    requires i <= |inpoints|
    decreases |inpoints| - i
  {
    if i == |inpoints| then Seen(seen)
    else if hash(inpoints[i]) != key then TakeInputs(hash, key, inpoints, i + 1, seen)
    else if inpoints[i] in seen then Repeat
    else TakeInputs(hash, key, inpoints, i + 1, seen + {inpoints[i]})
  }

  function SettleFrom(hash: HashFunction, group: Group, resolve: Resolver, k: nat, seen: set<Inpoint>): Outcome
    requires group != [] && k <= |group|
    decreases |group| - k
  {
    if k == |group| then Distinct
    else if k > 0 && group[k].tx == group[k - 1].tx then SettleFrom(hash, group, resolve, k + 1, seen)
    else match resolve(group[k].tx)
      case ResolveError(error) => Failed(error)
      case Inputs(inpoints) =>
        match TakeInputs(hash, group[0].Key(), inpoints, 0, seen)
        case Repeat => Found(group[k].tx)
        case Seen(seen') => SettleFrom(hash, group, resolve, k + 1, seen')
  }

  function Settle(hash: HashFunction, group: Group, resolve: Resolver): Outcome
    requires group != []
  {
    SettleFrom(hash, group, resolve, 0, {})
  }

  method VerifyGroup(hash: HashFunction, group: Group, resolve: Resolver) returns (o: Outcome)
    requires group != []
    ensures o == Settle(hash, group, resolve)
  {
    var seen: set<Inpoint> := {};
    var key := group[0].Key();
    for k := 0 to |group|
      invariant Settle(hash, group, resolve) == SettleFrom(hash, group, resolve, k, seen)
    {
      if k > 0 && group[k].tx == group[k - 1].tx {
        continue;
      }
      var answer := resolve(group[k].tx);
      if answer.ResolveError? {
        return Failed(answer.error);
      }
      var inpoints := answer.inpoints;
      ghost var before := seen;
      for i := 0 to |inpoints|
        invariant TakeInputs(hash, key, inpoints, 0, before) == TakeInputs(hash, key, inpoints, i, seen)
      {
        if hash(inpoints[i]) != key {
          continue;
        }
        if inpoints[i] in seen {
          return Found(group[k].tx);
        }
        seen := seen + {inpoints[i]};
      }
    }
    return Distinct;
  }

  // ------------------------------------------------------------ what the answer means

  /** Taking the inputs repeats exactly when one with the hash was seen before or occurs twice. */
  lemma {:induction false} TakeMeaning(hash: HashFunction, key: nat, ins: seq<Inpoint>, i: nat, before: set<Inpoint>,
        seen: set<Inpoint>)
    requires i <= |ins|
    requires forall x :: x in seen <==> x in before || (hash(x) == key && x in ins[..i])
    requires forall a :: 0 <= a < i && hash(ins[a]) == key ==> ins[a] !in before && ins[a] !in ins[..a]
    ensures
      var r := TakeInputs(hash, key, ins, i, seen);
      && (r.Repeat? <==> exists a :: 0 <= a < |ins| && hash(ins[a]) == key && (ins[a] in before || ins[a] in ins[..a]))
      && (r.Seen? ==> forall x :: x in r.seen <==> x in before || (hash(x) == key && x in ins))
    decreases |ins| - i
  {
    if i == |ins| {
      assert ins[..i] == ins;
    } else {
      assert ins[..i + 1] == ins[..i] + [ins[i]];
      if hash(ins[i]) != key {
        TakeMeaning(hash, key, ins, i + 1, before, seen);
      } else if ins[i] !in seen {
        TakeMeaning(hash, key, ins, i + 1, before, seen + {ins[i]});
      }
    }
  }

  /** The group is the sorted list of the transactions that have an input with hash key. */
  ghost predicate GroupMatches(block: Block, hash: HashFunction, key: nat, group: Group) {
    && group != [] && group[0].Key() == key && Sorted(group)
    && (forall e :: e in group ==> e.Key() == key && e.tx in block)
    && (forall u, x :: u in block && x in block[u] && hash(x) == key ==> exists e :: e in group && e.tx == u)
  }

  /** The resolver answers a transaction with its recorded inputs, or fails. */
  ghost predicate Faithful(block: Block, resolve: Resolver) {
    forall t :: t in block ==> resolve(t).ResolveError? || resolve(t).inpoints == block[t]
  }

  /** The inpoints with the hash that transactions before position k of the group spend. */
  ghost predicate SeenUpTo(block: Block, hash: HashFunction, key: nat, group: Group, k: nat, seen: set<Inpoint>)
    requires k <= |group|
  {
    forall x :: x in seen <==>
      hash(x) == key && exists i :: 0 <= i < k && group[i].tx in block && x in block[group[i].tx]
  }

  lemma {:induction false} RepeatMeansRespends(block: Block, hash: HashFunction, key: nat, group: Group, k: nat,
        seen: set<Inpoint>, a: nat)
    requires GroupMatches(block, hash, key, group) && k < |group| && SeenUpTo(block, hash, key, group, k, seen)
    requires forall i :: 0 <= i < k ==> group[i].tx < group[k].tx
    requires a < |block[group[k].tx]| && hash(block[group[k].tx][a]) == key
    requires block[group[k].tx][a] in seen || block[group[k].tx][a] in block[group[k].tx][..a]
    ensures RespendsHash(block, hash, key, group[k].tx)
  {
    var t := group[k].tx;
    var x := block[t][a];
    if x in seen {
      var i :| 0 <= i < k && group[i].tx in block && x in block[group[i].tx];
      assert SpentBefore(block, t, x);
    } else {
      var b :| 0 <= b < a && block[t][b] == x;
      assert RepeatedIn(block[t], x);
    }
    assert Respends(block, t, x);
  }

  lemma {:induction false} RespendsMeansRepeat(block: Block, hash: HashFunction, key: nat, group: Group, k: nat,
        seen: set<Inpoint>) returns (a: nat)
    requires GroupMatches(block, hash, key, group) && k < |group| && SeenUpTo(block, hash, key, group, k, seen)
    requires RespendsHash(block, hash, key, group[k].tx)
    ensures a < |block[group[k].tx]| && hash(block[group[k].tx][a]) == key
    ensures block[group[k].tx][a] in seen || block[group[k].tx][a] in block[group[k].tx][..a]
  {
    var t := group[k].tx;
    var x :| hash(x) == key && Respends(block, t, x);
    if RepeatedIn(block[t], x) {
      var i, j :| 0 <= i < j < |block[t]| && block[t][i] == x && block[t][j] == x;
      a := j;
      assert block[t][..j][i] == x;
    } else {
      SpentBeforeSeen(block, hash, key, group, k, seen, x);
      a :| 0 <= a < |block[t]| && block[t][a] == x;
    }
  }

  lemma {:induction false} SpentBeforeSeen(block: Block, hash: HashFunction, key: nat, group: Group, k: nat,
        seen: set<Inpoint>, x: Inpoint)
    requires GroupMatches(block, hash, key, group) && k < |group| && SeenUpTo(block, hash, key, group, k, seen)
    requires hash(x) == key && SpentBefore(block, group[k].tx, x)
    ensures x in seen
  {
    var u :| u in block && u < group[k].tx && x in block[u];
    var e :| e in group && e.tx == u;
    var i :| 0 <= i < |group| && group[i] == e;
    EarlierTxEarlierPosition(group, i, k);
  }

  lemma {:induction false} EarlierTxEarlierPosition(group: Group, i: nat, k: nat)
    requires Sorted(group) && i < |group| && k < |group| && group[i].Key() == group[k].Key()
      && group[i].tx < group[k].tx
    ensures i < k
  {
    var inOrder := Below(group[k], group[i]);
  }

  lemma {:induction false} SeenExtends(block: Block, hash: HashFunction, key: nat, group: Group, k: nat,
        seen: set<Inpoint>, seen': set<Inpoint>)
    requires k < |group| && group[k].tx in block && SeenUpTo(block, hash, key, group, k, seen)
    requires forall x :: x in seen' <==> x in seen || (hash(x) == key && x in block[group[k].tx])
    ensures SeenUpTo(block, hash, key, group, k + 1, seen')
  {
    forall x ensures x in seen' <==>
      hash(x) == key && exists i :: 0 <= i < k + 1 && group[i].tx in block && x in block[group[i].tx] {
      if x in seen {
        var i :| 0 <= i < k && group[i].tx in block && x in block[group[i].tx];
      }
    }
  }

  ghost predicate NoRespendBefore(block: Block, hash: HashFunction, key: nat, group: Group, k: nat)
    requires k <= |group|
  {
    forall i :: 0 <= i < k ==> !RespendsHash(block, hash, key, group[i].tx)
  }

  /** With a faithful resolver a found transaction is the first of the group to respend,
      and an answer of Distinct means none does. */
  lemma {:induction false} SettleMeaning(block: Block, hash: HashFunction, key: nat, group: Group, resolve: Resolver,
        k: nat, seen: set<Inpoint>)
    requires GroupMatches(block, hash, key, group) && Faithful(block, resolve)
    requires k <= |group| && SeenUpTo(block, hash, key, group, k, seen) && NoRespendBefore(block, hash, key, group, k)
    ensures
      var o := SettleFrom(hash, group, resolve, k, seen);
      && (o.Found? ==>
            && o.tx in block && RespendsHash(block, hash, key, o.tx)
            && (forall e :: e in group && e.tx < o.tx ==> !RespendsHash(block, hash, key, e.tx)))
      && (o.Distinct? ==> forall e :: e in group ==> !RespendsHash(block, hash, key, e.tx))
      && (o.Failed? ==> exists e :: e in group && resolve(e.tx) == ResolveError(o.error))
    decreases |group| - k
  {
    if k == |group| {
    } else if k > 0 && group[k].tx == group[k - 1].tx {
      forall x | hash(x) == key && x in block[group[k].tx] ensures x in seen {
        assert x in block[group[k - 1].tx];
      }
      SeenExtends(block, hash, key, group, k, seen, seen);
      SettleMeaning(block, hash, key, group, resolve, k + 1, seen);
    } else {
      var t := group[k].tx;
      assert group[k] in group;
      SettleStep(block, hash, key, group, resolve, k, seen);
      if resolve(t).Inputs? {
        var r := TakeInputs(hash, key, block[t], 0, seen);
        if r.Seen? {
          SeenExtends(block, hash, key, group, k, seen, r.seen);
          SettleMeaning(block, hash, key, group, resolve, k + 1, r.seen);
        } else {
          FirstOfTx(block, hash, key, group, k);
        }
      }
    }
  }

  lemma {:induction false} FirstOfTx(block: Block, hash: HashFunction, key: nat, group: Group, k: nat)
    requires GroupMatches(block, hash, key, group) && k < |group| && NoRespendBefore(block, hash, key, group, k)
    ensures forall e :: e in group && e.tx < group[k].tx ==> !RespendsHash(block, hash, key, e.tx)
  {
    forall e | e in group && e.tx < group[k].tx ensures !RespendsHash(block, hash, key, e.tx) {
      var i :| 0 <= i < |group| && group[i] == e;
      assert group[k] in group;
      EarlierTxEarlierPosition(group, i, k);
    }
  }

  lemma {:induction false} SettleStep(block: Block, hash: HashFunction, key: nat, group: Group, resolve: Resolver,
        k: nat, seen: set<Inpoint>)
    requires GroupMatches(block, hash, key, group) && Faithful(block, resolve)
    requires k < |group| && SeenUpTo(block, hash, key, group, k, seen)
    requires k > 0 ==> group[k].tx != group[k - 1].tx
    requires group[k].tx in block
    ensures
      var r := TakeInputs(hash, key, block[group[k].tx], 0, seen);
      && (r.Repeat? <==> RespendsHash(block, hash, key, group[k].tx))
      && (r.Seen? ==> forall x :: x in r.seen <==> x in seen || (hash(x) == key && x in block[group[k].tx]))
  {
    var ins := block[group[k].tx];
    var r := TakeInputs(hash, key, ins, 0, seen);
    TakeMeaning(hash, key, ins, 0, seen, seen);
    forall i | 0 <= i < k ensures group[i].tx < group[k].tx {
      assert Below(group[i], group[k]) && Below(group[k - 1], group[k]);
      assert i == k - 1 || Below(group[i], group[k - 1]);
    }
    if r.Repeat? {
      var a :| 0 <= a < |ins| && hash(ins[a]) == key && (ins[a] in seen || ins[a] in ins[..a]);
      RepeatMeansRespends(block, hash, key, group, k, seen, a);
    } else if RespendsHash(block, hash, key, group[k].tx) {
      var a := RespendsMeansRepeat(block, hash, key, group, k, seen);
    }
  }
}
