/** The order check (model/Block.go: checkParents and the index validateTransaction
    computes): a transaction's parents that are in the block must come before it, and
    exactly the others are passed on to be looked up on the chain. */
module ParentOrder {
  import opened NodeShard
  import opened BlockNodeIndex
  import opened TxWriters

  /** The outcome of checkParents: the first parent found after its child, or the parents that are not
      in the block. */
  datatype Checked = OutOfOrder(parent: Hash) | Missing(parents: seq<Hash>)

  ghost predicate After(txMap: map<Hash, nat>, parent: Hash, txIdx: nat) {
    parent in txMap && txMap[parent] > txIdx
  }

  function Absent(txMap: map<Hash, nat>, parents: seq<Hash>): seq<Hash> {
    if parents == [] then []
    else
      var last := parents[|parents| - 1];
      Absent(txMap, parents[..|parents| - 1]) + (if last in txMap then [] else [last])
  }

  /** checkParents from parent i on, the first i being in order. */
  function JudgeFrom(txMap: map<Hash, nat>, parents: seq<Hash>, txIdx: nat, i: nat): Checked
    requires i <= |parents|
    decreases |parents| - i
  {
    if i == |parents| then Missing(Absent(txMap, parents))
    else if parents[i] in txMap && txMap[parents[i]] > txIdx then OutOfOrder(parents[i])
    else JudgeFrom(txMap, parents, txIdx, i + 1)
  }

  datatype Answer = Answer(idx: nat, found: bool)

  /** The answers of a batched lookup, when there is one per parent, are those of the map. */
  ghost predicate AnswersOf(txMap: map<Hash, nat>, parents: seq<Hash>, answers: seq<Answer>) {
    |answers| == |parents| ==>
      forall i :: 0 <= i < |parents| ==>
        (answers[i].found <==> parents[i] in txMap) && (answers[i].found ==> answers[i].idx == txMap[parents[i]])
  }

  /** checkParents, with the answers looked up in advance or, if their number does not match, one by one. */
  method CheckParents(txMap: map<Hash, nat>, parents: seq<Hash>, lookups: seq<Answer>, txIdx: nat) returns (r: Checked)
    requires AnswersOf(txMap, parents, lookups)
    ensures r == JudgeFrom(txMap, parents, txIdx, 0)
    ensures r.OutOfOrder? <==> exists i :: 0 <= i < |parents| && After(txMap, parents[i], txIdx)
  {
    var missing: seq<Hash> := [];
    for i := 0 to |parents|
      invariant forall j :: 0 <= j < i ==> !After(txMap, parents[j], txIdx)
      invariant JudgeFrom(txMap, parents, txIdx, 0) == JudgeFrom(txMap, parents, txIdx, i)
      invariant missing == Absent(txMap, parents[..i])
    {
      var idx, found := 0, false;
      if |lookups| == |parents| {
        idx, found := lookups[i].idx, lookups[i].found;
      } else if parents[i] in txMap {
        idx, found := txMap[parents[i]], true;
      }
      assert parents[..i + 1][..i] == parents[..i];
      if found {
        if idx > txIdx {
          return OutOfOrder(parents[i]);
        }
        continue;
      }
      missing := missing + [parents[i]];
    }
    assert parents[..|parents|] == parents;
    return Missing(missing);
  }

  lemma {:induction false} AbsentExactly(txMap: map<Hash, nat>, parents: seq<Hash>, p: Hash)
    ensures p in Absent(txMap, parents) <==> p in parents && p !in txMap
  {
    if parents != [] {
      var pre, last := parents[..|parents| - 1], parents[|parents| - 1];
      AbsentExactly(txMap, pre, p);
      assert parents == pre + [last];
    }
  }

  // ------------------------------------------------------------ indexes and positions

  predicate Before(s: nat, t: nat, s': nat, t': nat) {
    s < s' || (s == s' && t < t')
  }

  ghost predicate Fits(body: Body) {
    body.size > 0 && forall s: nat :: s < |body.nodes| ==> !Overflows(body, s)
  }

  /** The number of transactions in the subtrees before s. */
  function SubtreeBase(body: Body, s: nat): nat
    requires s <= |body.nodes|
  {
    if s == 0 then 0 else SubtreeBase(body, s - 1) + |body.nodes[s - 1]|
  }

  lemma {:induction false} BaseMonotone(body: Body, s: nat, s': nat)
    requires s <= s' <= |body.nodes|
    ensures SubtreeBase(body, s) <= SubtreeBase(body, s')
  {
    if s < s' {
      BaseMonotone(body, s, s' - 1);
    }
  }

  /** The transactions of the first s subtrees, one after the other. */
  ghost function Flat(body: Body, s: nat): seq<Hash>
    requires s <= |body.nodes|
  {
    if s == 0 then [] else Flat(body, s - 1) + body.nodes[s - 1]
  }

  lemma {:induction false} FlatGrows(body: Body, s: nat, n: nat)
    requires s <= n <= |body.nodes|
    ensures |Flat(body, s)| == SubtreeBase(body, s) && Flat(body, s) <= Flat(body, n)
  {
    if s < n {
      FlatGrows(body, s, n - 1);
    } else if s > 0 {
      FlatGrows(body, s - 1, s - 1);
    }
  }

  /** The dense index of a transaction is its place among all transactions of the block. */
  lemma {:induction false} DensePosition(body: Body, s: nat, t: nat)
    requires InBody(body, s, t)
    ensures SubtreeBase(body, s) + t < |Flat(body, |body.nodes|)|
    ensures Flat(body, |body.nodes|)[SubtreeBase(body, s) + t] == body.nodes[s][t]
  {
    FlatGrows(body, s, s);
    FlatGrows(body, s + 1, |body.nodes|);
    assert Flat(body, s + 1)[SubtreeBase(body, s) + t] == body.nodes[s][t];
  }

  /** The index a transaction is stored at orders transactions as their position in the block does... */
  lemma {:induction false} IndexOrder(body: Body, s: nat, t: nat, s': nat, t': nat)
    requires Fits(body) && InBody(body, s, t) && InBody(body, s', t') && Before(s, t, s', t')
    ensures GlobalIndex(body, s, t) < GlobalIndex(body, s', t')
  {
    if s < s' {
      assert !Overflows(body, s);
      SlotOrder(s, s', body.size, t);
    }
  }

  /** ...and so does the dense index the duplicate-input check uses. */
  lemma {:induction false} DenseOrder(body: Body, s: nat, t: nat, s': nat, t': nat)
    requires InBody(body, s, t) && InBody(body, s', t') && Before(s, t, s', t')
    ensures SubtreeBase(body, s) + t < SubtreeBase(body, s') + t'
  {
    if s < s' {
      BaseMonotone(body, s + 1, s');
    }
  }

  /** The two indexes agree on the order of any two transactions. */
  lemma {:induction false} IndexesAgree(body: Body, s: nat, t: nat, s': nat, t': nat)
    requires Fits(body) && InBody(body, s, t) && InBody(body, s', t')
    ensures GlobalIndex(body, s, t) < GlobalIndex(body, s', t') <==>
      SubtreeBase(body, s) + t < SubtreeBase(body, s') + t'
    ensures GlobalIndex(body, s, t) < GlobalIndex(body, s', t') <==> Before(s, t, s', t')
  {
    if Before(s, t, s', t') {
      IndexOrder(body, s, t, s', t');
      DenseOrder(body, s, t, s', t');
    } else if Before(s', t', s, t) {
      IndexOrder(body, s', t', s, t);
      DenseOrder(body, s', t', s, t);
    }
  }

  // ------------------------------------------------------------ the filled map

  /** What a Get of the filled map answers: the index first, then the overflow map. */
  ghost function Filled(b: Block, s: State): map<Hash, nat> {
    map h | h in s.index.Keys + s.overflow.Keys ::
      var p := if h in s.index then s.index[h] else s.overflow[h];
      GlobalIndex(b.body, p.s, p.t)
  }

  ghost predicate HeldAt(b: Block, p: Pos, h: Hash) {
    Live(b, p) && HashOf(b, p) == h
  }

  /** Every transaction of the block at the index of its position, nothing else. A placeholder in the
      coinbase position is no transaction of the block. */
  ghost predicate MapOfBody(txMap: map<Hash, nat>, b: Block) {
    && (forall p :: Live(b, p) ==> HashOf(b, p) in txMap && txMap[HashOf(b, p)] == GlobalIndex(b.body, p.s, p.t))
    && (forall h :: h in txMap ==> exists p :: HeldAt(b, p, h))
  }

  /** Whatever the interleaving of the writers, once all have finished without a duplicate the map answers
      every transaction with the index validateTransaction computes for it, and knows no other. */
  lemma {:induction false} FilledIsMapOfBody(b: Block, actions: seq<Action>)
    requires Fits(b.body) && Finished(Exec(b, actions)) && !SomeReported(Exec(b, actions))
    ensures MapOfBody(Filled(b, Exec(b, actions)), b)
  {
    var s := Exec(b, actions);
    var txMap := Filled(b, s);
    ExecInv(b, actions);
    forall p | Live(b, p)
      ensures HashOf(b, p) in txMap && txMap[HashOf(b, p)] == GlobalIndex(b.body, p.s, p.t)
    {
      assert s.writers[p.s].Clean?;
      assert IndexHolds(b, s, p) && !Overflows(b.body, p.s);
    }
    forall h | h in txMap ensures exists p :: HeldAt(b, p, h) {
      assert IndexEntryOk(b, s, h) && OverflowEntryOk(b, s, h);
      assert h !in s.overflow;
      assert HeldAt(b, s.index[h], h);
    }
  }

  // ------------------------------------------------------------ what acceptance means

  lemma {:induction false} JudgeMeaning(txMap: map<Hash, nat>, parents: seq<Hash>, txIdx: nat, i: nat)
    requires i <= |parents|
    ensures
      var r := JudgeFrom(txMap, parents, txIdx, i);
      && (r.OutOfOrder? <==> exists k :: i <= k < |parents| && After(txMap, parents[k], txIdx))
      && (r.Missing? ==> r.parents == Absent(txMap, parents))
    decreases |parents| - i
  {
    if i < |parents| {
      JudgeMeaning(txMap, parents, txIdx, i + 1);
    }
  }

  ghost predicate ComesAfter(b: Block, p: Pos, parent: Hash, q: Pos) {
    HeldAt(b, q, parent) && Before(p.s, p.t, q.s, q.t)
  }

  /** A transaction is accepted exactly when none of its parents in the block comes after it. */
  lemma {:induction false} AcceptedIffParentsBefore(b: Block, txMap: map<Hash, nat>, p: Pos, parents: seq<Hash>)
    requires Fits(b.body) && MapOfBody(txMap, b) && Live(b, p)
    ensures JudgeFrom(txMap, parents, GlobalIndex(b.body, p.s, p.t), 0).Missing? <==>
            forall k, q :: 0 <= k < |parents| ==> !ComesAfter(b, p, parents[k], q)
  {
    var txIdx := GlobalIndex(b.body, p.s, p.t);
    JudgeMeaning(txMap, parents, txIdx, 0);
    if k :| 0 <= k < |parents| && After(txMap, parents[k], txIdx) {
      var q :| HeldAt(b, q, parents[k]);
      IndexesAgree(b.body, p.s, p.t, q.s, q.t);
      assert ComesAfter(b, p, parents[k], q);
    }
    if k, q :| 0 <= k < |parents| && ComesAfter(b, p, parents[k], q) {
      IndexesAgree(b.body, p.s, p.t, q.s, q.t);
      assert After(txMap, parents[k], txIdx);
    }
  }

  /** What an accepted transaction passes on for the chain lookup are exactly its parents that are not in the
      block. */
  lemma {:induction false} PassedOnAreAbsent(b: Block, txMap: map<Hash, nat>, txIdx: nat, parents: seq<Hash>, h: Hash)
    requires MapOfBody(txMap, b) && JudgeFrom(txMap, parents, txIdx, 0).Missing?
    ensures h in JudgeFrom(txMap, parents, txIdx, 0).parents <==> h in parents && forall q :: !HeldAt(b, q, h)
  {
    JudgeMeaning(txMap, parents, txIdx, 0);
    AbsentExactly(txMap, parents, h);
  }

  /** A transaction that names only itself as its parent is accepted, and nothing is looked up on the chain. */
  lemma {:induction false} SelfParentAccepted(b: Block, txMap: map<Hash, nat>, p: Pos)
    requires Fits(b.body) && MapOfBody(txMap, b) && Live(b, p)
    ensures JudgeFrom(txMap, [HashOf(b, p)], GlobalIndex(b.body, p.s, p.t), 0) == Missing([])
  {
    var h, txIdx := HashOf(b, p), GlobalIndex(b.body, p.s, p.t);
    assert [h][..0] == [];
    assert Absent(txMap, [h]) == [];
    assert JudgeFrom(txMap, [h], txIdx, 1) == Missing([]);
  }

  ghost predicate StrictlyBefore(b: Block, p: Pos, parents: seq<Hash>) {
    forall k, q :: 0 <= k < |parents| && HeldAt(b, q, parents[k]) ==> Before(q.s, q.t, p.s, p.t)
  }

  /** The whole path: after any interleaving of the fill that reported nothing, every parent of a transaction
      that is in the block is strictly before it exactly when the order check accepts the transaction and it
      does not name itself. */
  lemma {:induction false} OrderCheckIsExact(b: Block, actions: seq<Action>, p: Pos, parents: seq<Hash>)
    requires Fits(b.body) && Finished(Exec(b, actions)) && !SomeReported(Exec(b, actions)) && Live(b, p)
    ensures StrictlyBefore(b, p, parents) <==>
            && JudgeFrom(Filled(b, Exec(b, actions)), parents, GlobalIndex(b.body, p.s, p.t), 0).Missing?
            && HashOf(b, p) !in parents
  {
    var txMap := Filled(b, Exec(b, actions));
    FilledIsMapOfBody(b, actions);
    AcceptedIffParentsBefore(b, txMap, p, parents);
    if StrictlyBefore(b, p, parents) {
      forall k | 0 <= k < |parents| ensures parents[k] != HashOf(b, p) {
        assert HeldAt(b, p, HashOf(b, p));
      }
      forall k, q | 0 <= k < |parents| ensures !ComesAfter(b, p, parents[k], q) {
        assert HeldAt(b, q, parents[k]) ==> Before(q.s, q.t, p.s, p.t);
      }
    } else {
      var k, q :| 0 <= k < |parents| && HeldAt(b, q, parents[k]) && !Before(q.s, q.t, p.s, p.t);
      assert q != p ==> ComesAfter(b, p, parents[k], q);
    }
  }
}
