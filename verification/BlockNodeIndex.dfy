/** The in-memory transaction map of a block (model/block_node_index.go): index
    arithmetic, registration of node arrays, the overflow map and the choice between
    the 32-bit index and the 64-bit map. */
module BlockNodeIndex {
  import opened Inpoints
  import opened NodeShard
  import NodeIndex

  const MAX_UINT64: nat := 0xFFFF_FFFF_FFFF_FFFF
  const TWO64: nat := 0x1_0000_0000_0000_0000
  const INDEX_LIMIT: nat := NodeIndex.INDEX_LIMIT

  /** Product and quotient by recursion, which keeps them out of the solver's arithmetic. */
  function Mul(a: nat, b: nat): nat {
    if a == 0 then 0 else Mul(a - 1, b) + b
  }

  function Div(a: nat, b: nat): nat
    requires b > 0
  {
    if a < b then 0 else Div(a - b, b) + 1
  }

  lemma {:induction false} MulIsProduct(a: nat, b: nat)
    ensures Mul(a, b) == a * b
  {
    if a > 0 {
      MulIsProduct(a - 1, b);
      assert a * b == (a - 1) * b + b;
    }
  }

  lemma {:induction false} DivBounds(a: nat, b: nat)
    requires b > 0
    ensures Mul(Div(a, b), b) <= a < Mul(Div(a, b), b) + b
  {
    if a >= b {
      DivBounds(a - b, b);
    }
  }

  lemma {:induction false} DivIsQuotient(a: nat, b: nat)
    requires b > 0
    ensures Div(a, b) == a / b
  {
    DivBounds(a, b);
    MulIsProduct(Div(a, b), b);
    QuotientUnique(a, b, Div(a, b));
  }

  lemma {:induction false} QuotientUnique(a: nat, b: nat, q: nat)
    requires b > 0 && q * b <= a < q * b + b
    ensures a / b == q
  {
    var d := a / b - q;
    assert d * b == (a / b) * b - q * b;
    assert d >= 1 ==> d * b >= b;
    assert d <= -1 ==> d * b + b <= 0;
  }

  /** In the machine's own arithmetic: the index of a position, and where an index is looked up. */
  lemma {:induction false} IndexArithmetic(body: Body, s: nat, t: nat, idx: nat)
    requires body.size > 0 && |body.nodes| > 0
    ensures GlobalIndex(body, s, t) == s * body.size + t
    ensures SubtreeAt(body, idx) ==
            if idx / body.size < |body.nodes| - 1 then idx / body.size else |body.nodes| - 1
  {
    MulIsProduct(s, body.size);
    DivIsQuotient(idx, body.size);
  }

  /** The node hashes of the block's subtrees, and the width of a subtree's index space. */
  datatype Body = Body(nodes: seq<seq<Hash>>, size: nat)

  predicate InBody(body: Body, s: nat, t: nat) {
    s < |body.nodes| && t < |body.nodes[s]|
  }

  /** Every subtree has its own stretch of the index space, as wide as the first subtree. */
  function GlobalIndex(body: Body, s: nat, t: nat): nat {
    Mul(s, body.size) + t
  }

  /** Its nodes would run into the stretch of the next subtree; after the last one there is none. */
  predicate Overflows(body: Body, s: nat)
    requires s < |body.nodes|
  {
    s != |body.nodes| - 1 && |body.nodes[s]| > body.size
  }

  /** Which subtree and position hashAt reads for an index. */
  function SubtreeAt(body: Body, idx: nat): nat
    requires body.size > 0 && |body.nodes| > 0
  {
    if Div(idx, body.size) < |body.nodes| - 1 then Div(idx, body.size) else |body.nodes| - 1
  }

  predicate Readable(body: Body, idx: nat) {
    && body.size > 0 && |body.nodes| > 0
    && Mul(SubtreeAt(body, idx), body.size) <= idx
    && idx - Mul(SubtreeAt(body, idx), body.size) < |body.nodes[SubtreeAt(body, idx)]|
  }

  const NO_HASH: Hash := TxHash(0, 0, [])

  /** hashAt; an index outside the registered arrays, which the source never reads, gives NO_HASH. */
  function HashAt(body: Body, idx: nat): Hash {
    if Readable(body, idx) then
      body.nodes[SubtreeAt(body, idx)][idx - Mul(SubtreeAt(body, idx), body.size)]
    else NO_HASH
  }

  lemma {:induction false} DivOfSum(s: nat, size: nat, t: nat)
    requires t < size
    ensures Div(Mul(s, size) + t, size) == s
  {
    if s > 0 {
      DivOfSum(s - 1, size, t);
    }
  }

  lemma {:induction false} DivAtLeast(s: nat, size: nat, t: nat)
    requires size > 0
    ensures Div(Mul(s, size) + t, size) >= s
  {
    if s > 0 {
      DivAtLeast(s - 1, size, t);
    }
  }

  lemma {:induction false} MulMonotone(s: nat, s': nat, size: nat)
    requires s <= s'
    ensures Mul(s, size) <= Mul(s', size)
  {
    if s < s' {
      MulMonotone(s, s' - 1, size);
    }
  }

  /** hashAt recovers the right node for every position of a subtree that fits its slot, and for every
      position of a last subtree of any length. */
  lemma {:induction false} HashAtRecovers(body: Body, s: nat, t: nat)
    requires body.size > 0 && InBody(body, s, t) && !Overflows(body, s)
    ensures Readable(body, GlobalIndex(body, s, t))
    ensures SubtreeAt(body, GlobalIndex(body, s, t)) == s
    ensures HashAt(body, GlobalIndex(body, s, t)) == body.nodes[s][t]
  {
    if s == |body.nodes| - 1 {
      DivAtLeast(s, body.size, t);
    } else {
      DivOfSum(s, body.size, t);
    }
  }

  lemma {:induction false} DivNext(s: nat, size: nat)
    requires size > 0
    ensures Div(Mul(s, size) + size, size) == s + 1
  {
    DivOfSum(s + 1, size, 0);
  }

  /** A subtree is marked as overflowing exactly when hashAt would look for one of its nodes in another subtree. */
  lemma {:induction false} OverflowsExactly(body: Body, s: nat)
    requires body.size > 0 && s < |body.nodes|
    ensures Overflows(body, s) <==>
            exists t: nat :: InBody(body, s, t) && SubtreeAt(body, GlobalIndex(body, s, t)) != s
  {
    if Overflows(body, s) {
      var t := body.size;
      DivNext(s, t);
      assert InBody(body, s, t) && SubtreeAt(body, GlobalIndex(body, s, t)) == s + 1;
    } else {
      forall t: nat | InBody(body, s, t) ensures SubtreeAt(body, GlobalIndex(body, s, t)) == s {
        HashAtRecovers(body, s, t);
      }
    }
  }

  /** Positions of subtrees that fit have distinct indexes. */
  lemma {:induction false} IndexInjective(body: Body, s: nat, t: nat, s': nat, t': nat)
    requires body.size > 0 && InBody(body, s, t) && InBody(body, s', t') && !Overflows(body, s) && !Overflows(body, s')
    requires GlobalIndex(body, s, t) == GlobalIndex(body, s', t')
    ensures s == s' && t == t'
  {
    HashAtRecovers(body, s, t);
    HashAtRecovers(body, s', t');
  }

  // ------------------------------------------------------------ choosing the index type

  /** One above the last index of a subtree, saturating: mul64's high word or add64's carry give the
      largest 64-bit value. */
  function TxIndexEnd(s: nat, size: nat, length: nat): (end: nat) {
    var product := Mul(s, size);
    if product / TWO64 != 0 then MAX_UINT64
    else
      var sum := product % TWO64 + length;
      if sum >= TWO64 then MAX_UINT64 else sum % TWO64
  }

  /** Below 2^64 - 1 the saturating arithmetic is exact. */
  lemma {:induction false} TxIndexEndExact(s: nat, size: nat, length: nat)
    requires TxIndexEnd(s, size, length) < MAX_UINT64
    ensures TxIndexEnd(s, size, length) == Mul(s, size) + length
  {
  }

  method MaxTxIndex(body: Body) returns (limit: nat)
    ensures forall s :: 0 <= s < |body.nodes| ==> TxIndexEnd(s, body.size, |body.nodes[s]|) <= limit
    ensures limit == 0 || exists s :: 0 <= s < |body.nodes| && TxIndexEnd(s, body.size, |body.nodes[s]|) == limit
  {
    limit := 0;
    for s := 0 to |body.nodes|
      invariant forall r :: 0 <= r < s ==> TxIndexEnd(r, body.size, |body.nodes[r]|) <= limit
      invariant limit == 0 || exists r :: 0 <= r < s && TxIndexEnd(r, body.size, |body.nodes[r]|) == limit
    {
      var end := TxIndexEnd(s, body.size, |body.nodes[s]|);
      if end > limit {
        limit := end;
      }
    }
  }

  /** newInMemoryBlockTxMap takes the 32-bit index exactly in this case, the 64-bit map otherwise. */
  predicate UsesNodeIndex(numSubtrees: nat, size: nat, limit: nat) {
    size > 0 && numSubtrees > 0 && limit <= INDEX_LIMIT
  }

  /** newInMemoryBlockTxMap with the limit maxTxIndex computes: the 32-bit index is taken exactly when there is an
      index space and the stretch of no subtree reaches past 2^32. */
  method ChooseIndex(body: Body) returns (indexed: bool)
    ensures indexed <==>
      && body.size > 0 && |body.nodes| > 0
      && forall s: nat :: s < |body.nodes| ==> Mul(s, body.size) + |body.nodes[s]| <= INDEX_LIMIT
  {
    var limit := MaxTxIndex(body);
    forall s: nat | s < |body.nodes|
      ensures TxIndexEnd(s, body.size, |body.nodes[s]|) <= INDEX_LIMIT <==>
              Mul(s, body.size) + |body.nodes[s]| <= INDEX_LIMIT
    {
      EndWithin(s, body.size, |body.nodes[s]|);
    }
    return UsesNodeIndex(|body.nodes|, body.size, limit);
  }

  lemma {:induction false} EndWithin(s: nat, size: nat, length: nat)
    ensures TxIndexEnd(s, size, length) <= INDEX_LIMIT <==> Mul(s, size) + length <= INDEX_LIMIT
  {
  }

  lemma {:induction false} SlotOrder(s: nat, last: nat, size: nat, t: nat)
    requires s < last && t < size
    ensures Mul(s, size) + t < Mul(last, size)
  {
    MulMonotone(s + 1, last, size);
  }

  /** Whenever the 32-bit index is chosen every index put into it fits in 32 bits: by the last
      subtree's end alone, as the load-time check computes the limit. */
  lemma {:induction false} ChosenIndexFits(body: Body, limit: nat, s: nat, t: nat)
    requires UsesNodeIndex(|body.nodes|, body.size, limit)
    requires TxIndexEnd(|body.nodes| - 1, body.size, |body.nodes[|body.nodes| - 1]|) <= limit
    requires InBody(body, s, t) && !Overflows(body, s)
    ensures GlobalIndex(body, s, t) < INDEX_LIMIT
  {
    var last := |body.nodes| - 1;
    TxIndexEndExact(last, body.size, |body.nodes[last]|);
    if s < last {
      SlotOrder(s, last, body.size, t);
    }
  }

  // ------------------------------------------------------------ the map

  datatype PutOutcome = Ok | Exists | TooLarge | Frozen

  /** The node index and the overflow map together. `body` is what the node arrays hold once
      registered; `registered` says which ones are. */
  class BlockIndex {
    const body: Body
    const idx: NodeIndex.Index
    var registered: seq<bool>
    var overflowing: seq<bool>
    var hasOverflow: bool
    var overflow: map<Hash, nat>

    ghost predicate Valid()
      reads this, idx
    {
      && body.size > 0 && |body.nodes| > 0
      && idx.Valid() && idx.env.hashAt == ((i: nat) => HashAt(body, i))
      && |registered| == |overflowing| == |body.nodes|
      && (forall s :: 0 <= s < |registered| && registered[s] ==> overflowing[s] == Overflows(body, s))
      && (!hasOverflow ==> overflow == map[])
      && (forall key :: key in idx.contents ==> Owned(idx.contents[key], key))
    }

    /** The index of an entry names a registered node that holds the key. */
    ghost predicate Owned(i: nat, key: Hash)
      reads this
      requires body.size > 0 && |body.nodes| > 0 && |registered| == |body.nodes|
    {
      Readable(body, i) && registered[SubtreeAt(body, i)] && HashAt(body, i) == key
    }

    constructor (body: Body, capacity: nat, bucketsPerShard: nat, hash: Hash -> Word)
      requires body.size > 0 && |body.nodes| > 0 && bucketsPerShard > 0
      ensures Valid() && this.body == body && idx.contents == map[] && overflow == map[] && !idx.frozen
    {
      this.body := body;
      idx := new NodeIndex.Index(capacity, bucketsPerShard, Env((i: nat) => HashAt(body, i), hash));
      registered := seq(|body.nodes|, _ => false);
      overflowing := seq(|body.nodes|, _ => false);
      hasOverflow := false;
      overflow := map[];
    }

    /** Makes the nodes of subtree s readable; a subtree too long for its slot is only marked. */
    method Register(s: nat) returns (ok: bool)
      requires Valid()
      modifies this`registered, this`overflowing
      ensures Valid()
      ensures ok <==> s < |body.nodes|
      ensures ok ==> registered == old(registered)[s := true] && overflowing[s] == Overflows(body, s)
      ensures !ok ==> registered == old(registered) && overflowing == old(overflowing)
    {
      if s >= |body.nodes| {
        return false;
      }
      overflowing := overflowing[s := s != |body.nodes| - 1 && |body.nodes[s]| > body.size];
      registered := registered[s := true];
      return true;
    }

    /** Put for a transaction of an overflowing subtree. */
    method PutOverflow(key: Hash, i: nat) returns (r: PutOutcome)
      requires Valid()
      modifies this`overflow, this`hasOverflow
      ensures Valid()
      ensures r == if key in old(overflow) || key in idx.contents then Exists else Ok
      ensures overflow == if key in old(overflow) then old(overflow) else old(overflow)[key := i]
    {
      if key in overflow {
        return Exists;
      }
      overflow := overflow[key := i];
      hasOverflow := true;
      var at, dup := idx.Get(key);
      return if dup then Exists else Ok;
    }

    method InOverflow(key: Hash) returns (i: nat, found: bool)
      requires Valid()
      ensures found <==> key in overflow
      ensures i == if found then overflow[key] else 0
    {
      if !hasOverflow {
        return 0, false;
      }
      return if key in overflow then overflow[key] else 0, key in overflow;
    }

    method Put(key: Hash, i: nat) returns (r: PutOutcome)
      requires Valid() && (i < INDEX_LIMIT ==> Owned(i, key))
      modifies idx`shards, idx`contents
      ensures Valid()
      ensures r == if i >= INDEX_LIMIT then TooLarge else if idx.frozen then Frozen
                   else if key in old(idx.contents) || key in overflow then Exists else Ok
      ensures r == Ok ==> idx.contents == old(idx.contents)[key := i]
      ensures r == TooLarge || r == Frozen ==> idx.contents == old(idx.contents)
      ensures r == Exists ==>
        idx.contents == if key in old(idx.contents) then old(idx.contents) else old(idx.contents)[key := i]
    {
      if i >= INDEX_LIMIT {
        return TooLarge;
      }
      var put := idx.Put(key, i);
      match put
      case FrozenError => return Frozen;
      case TxExists => return Exists;
      case Added =>
        var at, dup := InOverflow(key);
        return if dup then Exists else Ok;
    }

    /** A node of the range repeats an indexed hash, an earlier node of the range or an overflow entry. */
    ghost predicate RangeRepeats(m: map<Hash, nat>, o: map<Hash, nat>, es: seq<NodeIndex.NodePut>, k: nat)
      requires k < |es|
    {
      NodeIndex.Repeats(idx.env, m, es, k) || HashAt(body, es[k].idx) in o
    }

    ghost predicate FirstRangeRepeat(m: map<Hash, nat>, o: map<Hash, nat>, es: seq<NodeIndex.NodePut>, k: nat) {
      k < |es| && RangeRepeats(m, o, es, k) && forall j: nat :: j < k ==> !RangeRepeats(m, o, es, j)
    }

    ghost predicate RepeatsFirstAt(m: map<Hash, nat>, lo: nat, n: nat, at: nat)
      reads this
    {
      lo <= at < lo + n && FirstRangeRepeat(m, overflow, NodeIndex.Puts(idx.env, lo, n), at - lo)
    }

    ghost predicate SomeRangeRepeat(m: map<Hash, nat>, o: map<Hash, nat>, es: seq<NodeIndex.NodePut>) {
      exists k: nat :: k < |es| && RangeRepeats(m, o, es, k)
    }

    /** The nodes of the range up to some point were added and nothing else. */
    ghost predicate AddedSome(m: map<Hash, nat>, m': map<Hash, nat>, lo: nat, n: nat) {
      exists k: nat :: k <= n && m' == NodeIndex.AddAll(idx.env, m, NodeIndex.Puts(idx.env, lo, k))
    }

    /** A Put of every node of [lo, lo + n): reports the first index that repeats an indexed hash, an
        earlier node or an overflow entry, or the first index above the 32-bit range. */
    method PutRange(lo: nat, n: nat) returns (at: nat, r: PutOutcome)
      requires Valid() && (forall i: nat :: lo <= i < lo + n && i < INDEX_LIMIT ==> Owned(i, HashAt(body, i)))
      modifies idx`shards, idx`contents
      ensures Valid()
      ensures r == TooLarge <==> n > 0 && lo + n > INDEX_LIMIT
      ensures r == TooLarge ==> at == if lo > INDEX_LIMIT then lo else INDEX_LIMIT
      ensures r == Frozen <==> idx.frozen && n > 0 && lo + n <= INDEX_LIMIT
      ensures r == Frozen ==> at == lo
      ensures r == Exists <==>
        && !idx.frozen && lo + n <= INDEX_LIMIT
        && SomeRangeRepeat(old(idx.contents), overflow, NodeIndex.Puts(idx.env, lo, n))
      ensures r == Exists ==> AddedSome(old(idx.contents), idx.contents, lo, n)
      ensures r == Frozen || r == TooLarge ==> idx.contents == old(idx.contents)
      ensures r == Ok ==> idx.contents == NodeIndex.AddAll(idx.env, old(idx.contents), NodeIndex.Puts(idx.env, lo, n))
      ensures r == Exists ==> RepeatsFirstAt(old(idx.contents), lo, n, at)
    {
      if n == 0 {
        return 0, Ok;
      }
      if lo + n - 1 >= INDEX_LIMIT {
        return if lo > INDEX_LIMIT then lo else INDEX_LIMIT, TooLarge;
      }
      at, r := PutFitting(lo, n);
    }

    /** putRange for a range within 32 bits. */
    method PutFitting(lo: nat, n: nat) returns (at: nat, r: PutOutcome)
      requires Valid() && lo + n <= INDEX_LIMIT && (forall i: nat :: lo <= i < lo + n ==> Owned(i, HashAt(body, i)))
      modifies idx`shards, idx`contents
      ensures Valid()
      ensures r == if idx.frozen then Frozen
                   else if SomeRangeRepeat(old(idx.contents), overflow, NodeIndex.Puts(idx.env, lo, n)) then Exists
                   else Ok
      ensures r == Frozen ==> at == lo && idx.contents == old(idx.contents)
      ensures r == Ok ==> idx.contents == NodeIndex.AddAll(idx.env, old(idx.contents), NodeIndex.Puts(idx.env, lo, n))
      ensures r == Exists ==> AddedSome(old(idx.contents), idx.contents, lo, n)
      ensures r == Exists ==> RepeatsFirstAt(old(idx.contents), lo, n, at)
    {
      var dup, put := PutIndexed(lo, n);
      if put == NodeIndex.FrozenError {
        return lo, Frozen;
      }
      var limit := if put == NodeIndex.TxExists then dup - lo else n;
      var at', found := FirstInOverflow(lo, limit);
      RangeVerdict(old(idx.contents), lo, n, limit, at', found);
      if found {
        return at', Exists;
      }
      if put == NodeIndex.TxExists {
        assert lo + limit == dup;
        return dup, Exists;
      }
      return 0, Ok;
    }

    /** Nodes before `limit` repeat only if they are overflow entries; the node at it is the first
        that repeats in the index. */
    lemma {:induction false} RangeVerdict(m: map<Hash, nat>, lo: nat, n: nat, limit: nat, at: nat, found: bool)
      requires idx.env.hashAt == ((i: nat) => HashAt(body, i)) && limit <= n
      requires found ==> lo <= at < lo + limit && HashAt(body, at) in overflow
      requires forall i: nat :: lo <= i < (if found then at else lo + limit) ==> HashAt(body, i) !in overflow
      requires limit < n ==> NodeIndex.FirstRepeat(idx.env, m, NodeIndex.Puts(idx.env, lo, n), limit)
      requires limit == n ==> NodeIndex.NoRepeat(idx.env, m, NodeIndex.Puts(idx.env, lo, n))
      ensures
        var es := NodeIndex.Puts(idx.env, lo, n);
        && (found ==> RepeatsFirstAt(m, lo, n, at))
        && (!found && limit < n ==> RepeatsFirstAt(m, lo, n, lo + limit))
        && (SomeRangeRepeat(m, overflow, es) <==> found || limit < n)
    {
      var es := NodeIndex.Puts(idx.env, lo, n);
      var first := if found then at - lo else limit;
      forall k: nat | k < first ensures !RangeRepeats(m, overflow, es, k) {
        assert es[k].idx == lo + k;
      }
      if first < n {
        assert es[first].idx == lo + first;
        assert RangeRepeats(m, overflow, es, first);
        assert FirstRangeRepeat(m, overflow, es, lo + first - lo);
      }
    }

    /** The node index's part of PutRange. */
    method PutIndexed(lo: nat, n: nat) returns (dup: nat, put: NodeIndex.PutResult)
      requires Valid() && lo + n <= INDEX_LIMIT && (forall i: nat :: lo <= i < lo + n ==> Owned(i, HashAt(body, i)))
      modifies idx`shards, idx`contents
      ensures Valid()
      ensures put == NodeIndex.FrozenError <==> idx.frozen
      ensures idx.frozen ==> idx.contents == old(idx.contents)
      ensures put == NodeIndex.Added ==>
        && NodeIndex.NoRepeat(idx.env, old(idx.contents), NodeIndex.Puts(idx.env, lo, n))
        && idx.contents == NodeIndex.AddAll(idx.env, old(idx.contents), NodeIndex.Puts(idx.env, lo, n))
      ensures put == NodeIndex.TxExists ==>
        lo <= dup < lo + n
          && NodeIndex.FirstRepeat(idx.env, old(idx.contents), NodeIndex.Puts(idx.env, lo, n), dup - lo)
      ensures !idx.frozen ==> AddedSome(old(idx.contents), idx.contents, lo, n)
    {
      ghost var reached;
      dup, put, reached := idx.PutRange(lo, n);
      if put == NodeIndex.Added {
        OwnedAfter(lo, n, old(idx.contents));
      } else if put == NodeIndex.TxExists {
        OwnedAfter(lo, reached, old(idx.contents));
      }
    }

    /** The first of n nodes from lo that is an overflow entry. */
    method FirstInOverflow(lo: nat, n: nat) returns (at: nat, found: bool)
      requires Valid()
      ensures found ==> lo <= at < lo + n && HashAt(body, at) in overflow
      ensures forall i: nat :: lo <= i < (if found then at else lo + n) ==> HashAt(body, i) !in overflow
    {
      if hasOverflow {
        for i := lo to lo + n
          invariant forall j: nat :: lo <= j < i ==> HashAt(body, j) !in overflow
        {
          var slot, dup := InOverflow(HashAt(body, i));
          if dup {
            return i, true;
          }
        }
      }
      return 0, false;
    }

    /** Entries added for a range are owned. */
    lemma {:induction false} OwnedAfter(lo: nat, n: nat, m: map<Hash, nat>)
      requires body.size > 0 && |body.nodes| > 0 && |registered| == |body.nodes|
        && idx.env.hashAt == ((i: nat) => HashAt(body, i))
      requires forall key :: key in m ==> Owned(m[key], key)
      requires forall i: nat :: lo <= i < lo + n ==> Owned(i, HashAt(body, i))
      ensures
        var m' := NodeIndex.AddAll(idx.env, m, NodeIndex.Puts(idx.env, lo, n));
        forall key :: key in m' ==> Owned(m'[key], key)
    {
      var es := NodeIndex.Puts(idx.env, lo, n);
      var m' := NodeIndex.AddAll(idx.env, m, es);
      forall key | key in m' ensures Owned(m'[key], key) {
        NodeIndex.AddAllOrigin(idx.env, m, es, key);
      }
    }

    method Get(key: Hash) returns (i: nat, found: bool)
      requires Valid()
      ensures found <==> key in idx.contents || key in overflow
      ensures found ==> i == if key in idx.contents then idx.contents[key] else overflow[key]
    {
      i, found := idx.Get(key);
      if found {
        return;
      }
      i, found := InOverflow(key);
    }
  }
}
