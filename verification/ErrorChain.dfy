/** Error chains (errors/errors.go): linked objects that share tails and are rewritten
    in place by SetWrappedErr and Join. A chain is a path of `wrapped` links; every
    operation is specified by what it does to the chains of all objects, and every
    operation keeps all chains finite. Only links between errors of this package are
    modelled. */
module ErrorChain {

  const ERR_PROCESSING: nat := 4
  const ERR_BLOCK_HEADER_CONTEXT: nat := 18
  const MAX_IS_CHAIN_DEPTH: nat := 0x10_0000

  class Error {
    const code: nat
    var wrapped: Error?
    /** A bound on the length of the chain, larger than that of the next link. */
    ghost var rank: nat

    constructor (code: nat)
      ensures this.code == code && wrapped == null && rank == 0
    {
      this.code := code;
      wrapped := null;
      rank := 0;
    }
  }

  /** Links stay within the heap and lead to objects of smaller rank: no chain comes back to itself. */
  ghost predicate Valid(heap: set<Error>)
    reads heap
  {
    forall e {:trigger LinkOk(heap, e)} :: e in heap ==> LinkOk(heap, e)
  }

  ghost predicate LinkOk(heap: set<Error>, e: Error)
    requires e in heap
    reads heap
  {
    e.wrapped != null ==> e.wrapped in heap && e.wrapped.rank < e.rank
  }

  /** The errors met on the way from e along the wrapped links. */
  ghost function Chain(heap: set<Error>, e: Error): (c: seq<Error>)
    requires Valid(heap) && e in heap
    reads heap
    ensures c != [] && c[0] == e
    decreases e.rank
  {
    assert LinkOk(heap, e);
    [e] + (if e.wrapped == null then [] else Chain(heap, e.wrapped))
  }

  ghost function Last(heap: set<Error>, e: Error): Error
    requires Valid(heap) && e in heap
    reads heap
  {
    var c := Chain(heap, e);
    c[|c| - 1]
  }

  ghost predicate Meet(heap: set<Error>, a: Error, b: Error)
    requires Valid(heap) && a in heap && b in heap
    reads heap
  {
    exists x :: x in Chain(heap, a) && x in Chain(heap, b)
  }

  // ------------------------------------------------------------ facts about chains

  lemma {:induction false} ChainInHeap(heap: set<Error>, e: Error)
    requires Valid(heap) && e in heap
    ensures forall i :: 0 <= i < |Chain(heap, e)| ==> Chain(heap, e)[i] in heap
    decreases e.rank
  {
    assert LinkOk(heap, e);
    if e.wrapped != null {
      ChainInHeap(heap, e.wrapped);
    }
  }

  /** Ranks go down along a chain, so no error is met twice. */
  lemma {:induction false} ChainRanks(heap: set<Error>, e: Error, i: nat)
    requires Valid(heap) && e in heap && 0 < i < |Chain(heap, e)|
    ensures Chain(heap, e)[i].rank < e.rank
    decreases e.rank
  {
    assert LinkOk(heap, e);
    if i > 1 {
      ChainRanks(heap, e.wrapped, i - 1);
    }
  }

  lemma {:induction false} ChainAcyclic(heap: set<Error>, e: Error, i: nat, j: nat)
    requires Valid(heap) && e in heap && i < j < |Chain(heap, e)|
    ensures Chain(heap, e)[i] != Chain(heap, e)[j]
    decreases e.rank
  {
    assert LinkOk(heap, e);
    if i == 0 {
      ChainRanks(heap, e, j);
    } else {
      ChainAcyclic(heap, e.wrapped, i - 1, j - 1);
    }
  }

  /** The rest of a chain is the chain of what is met there. */
  lemma {:induction false} ChainSuffix(heap: set<Error>, e: Error, i: nat)
    requires Valid(heap) && e in heap && i < |Chain(heap, e)|
    ensures Chain(heap, e)[i] in heap && Chain(heap, e)[i..] == Chain(heap, Chain(heap, e)[i])
    decreases e.rank
  {
    assert LinkOk(heap, e);
    if i > 0 {
      ChainSuffix(heap, e.wrapped, i - 1);
    }
  }

  lemma {:induction false} LastEnds(heap: set<Error>, e: Error)
    requires Valid(heap) && e in heap
    ensures Last(heap, e) in heap && Last(heap, e) in Chain(heap, e) && Last(heap, e).wrapped == null
    decreases e.rank
  {
    assert LinkOk(heap, e);
    if e.wrapped != null {
      LastEnds(heap, e.wrapped);
    }
  }

  /** Chains that meet end in the same error. */
  lemma {:induction false} MeetingChainsShareLast(heap: set<Error>, a: Error, x: Error)
    requires Valid(heap) && a in heap && x in Chain(heap, a)
    ensures x in heap && Last(heap, a) == Last(heap, x)
  {
    var i :| 0 <= i < |Chain(heap, a)| && Chain(heap, a)[i] == x;
    ChainSuffix(heap, a, i);
  }

  lemma {:induction false} MeetIffSameLast(heap: set<Error>, a: Error, b: Error)
    requires Valid(heap) && a in heap && b in heap
    ensures Meet(heap, a, b) <==> Last(heap, a) == Last(heap, b)
  {
    LastEnds(heap, a);
    LastEnds(heap, b);
    if Meet(heap, a, b) {
      var x :| x in Chain(heap, a) && x in Chain(heap, b);
      MeetingChainsShareLast(heap, a, x);
      MeetingChainsShareLast(heap, b, x);
    }
  }

  // ------------------------------------------------------------ contains

  /** contains: whether the two chains share an error. The cycle guards of the walk never fire. */
  method Contains(e: Error, target: Error, ghost heap: set<Error>) returns (r: bool)
    requires Valid(heap) && e in heap && target in heap
    ensures r <==> Meet(heap, e, target)
  {
    var eChain: set<Error> := {};
    var current: Error? := e;
    ghost var i: nat := 0;
    ghost var c := Chain(heap, e);
    while current != null
      invariant i <= |c| && (current == null <==> i == |c|)
      invariant current != null ==> current == c[i]
      invariant eChain == set x | x in c[..i]
      decreases |c| - i
    {
      NotMetYet(heap, e, i);
      if current in eChain {
        break;
      }
      NextLink(heap, e, i);
      assert c[..i + 1] == c[..i] + [c[i]];
      eChain := eChain + {current};
      current := current.wrapped;
      i := i + 1;
    }
    assert c[..|c|] == c;
    r := Meets(eChain, target, heap);
    assert forall x :: x in eChain <==> x in Chain(heap, e);
  }

  /** The second half of contains: whether the target's chain meets the set of errors collected. */
  method Meets(eChain: set<Error>, target: Error, ghost heap: set<Error>) returns (r: bool)
    requires Valid(heap) && target in heap
    ensures r <==> exists x :: x in eChain && x in Chain(heap, target)
  {
    var visited: set<Error> := {};
    var current: Error? := target;
    ghost var i: nat := 0;
    ghost var c := Chain(heap, target);
    while current != null
      invariant i <= |c| && (current == null <==> i == |c|)
      invariant current != null ==> current == c[i]
      invariant visited == set x | x in c[..i]
      invariant forall k :: 0 <= k < i ==> c[k] !in eChain
      decreases |c| - i
    {
      NotMetYet(heap, target, i);
      if current in visited {
        return false;
      }
      NextLink(heap, target, i);
      assert c[..i + 1] == c[..i] + [c[i]];
      visited := visited + {current};
      if current in eChain {
        return true;
      }
      current := current.wrapped;
      i := i + 1;
    }
    return false;
  }

  lemma {:induction false} NotMetYet(heap: set<Error>, e: Error, i: nat)
    requires Valid(heap) && e in heap && i < |Chain(heap, e)|
    ensures Chain(heap, e)[i] !in Chain(heap, e)[..i]
  {
    forall k | 0 <= k < i ensures Chain(heap, e)[k] != Chain(heap, e)[i] {
      ChainAcyclic(heap, e, k, i);
    }
  }

  lemma {:induction false} NextLink(heap: set<Error>, e: Error, i: nat)
    requires Valid(heap) && e in heap && i < |Chain(heap, e)|
    ensures var c := Chain(heap, e); if i + 1 < |c| then c[i].wrapped == c[i + 1] else c[i].wrapped == null
    decreases e.rank
  {
    assert LinkOk(heap, e);
    if i > 0 {
      NextLink(heap, e.wrapped, i - 1);
    }
  }

  // ------------------------------------------------------------ Is

  /** Is: some link among the first 2^20 has the target's code. */
  method Is(e: Error, target: Error, ghost heap: set<Error>) returns (r: bool)
    requires Valid(heap) && e in heap
    ensures r <==> exists k ::
      0 <= k < |Chain(heap, e)| && k < MAX_IS_CHAIN_DEPTH && Chain(heap, e)[k].code == target.code
  {
    var cur: Error? := e;
    var depth := 0;
    ghost var c := Chain(heap, e);
    while cur != null && depth < MAX_IS_CHAIN_DEPTH
      invariant depth <= |c| && depth <= MAX_IS_CHAIN_DEPTH && (cur == null <==> depth == |c|)
      invariant cur != null ==> cur == c[depth]
      invariant forall k :: 0 <= k < depth ==> c[k].code != target.code
    {
      if cur.code == target.code {
        return true;
      }
      NextLink(heap, e, depth);
      if cur.wrapped == null {
        return false;
      }
      cur := cur.wrapped;
      depth := depth + 1;
    }
    return false;
  }

  // ------------------------------------------------------------ SetWrappedErr

  ghost function EndOf(c: seq<Error>): Error
    requires c != []
  {
    c[|c| - 1]
  }

  /** All chains of the heap, as values. */
  ghost function Chains(heap: set<Error>): (m: map<Error, seq<Error>>)
    requires Valid(heap)
    reads heap
    ensures m.Keys == heap && forall x :: x in heap ==> m[x] == Chain(heap, x)
  {
    map x | x in heap :: Chain(heap, x)
  }

  /** The chains after err's chain is attached at last: those that ended in last grow by it. */
  ghost predicate Grown(before: map<Error, seq<Error>>, after: map<Error, seq<Error>>, last: Error, err: Error) {
    && before.Keys == after.Keys && err in before
    && (forall x :: x in before ==> before[x] != [])
    && (forall x :: x in before ==> after[x] == before[x] + (if EndOf(before[x]) == last then before[err] else []))
  }

  /** SetWrappedErr walks to the end of e's chain and attaches err there, unless the chains already
      share an error, in which case nothing changes. Every chain that ended where e's did grows by
      err's chain; all others stay as they were. */
  method SetWrappedErr(e: Error, err: Error, ghost heap: set<Error>)
    requires Valid(heap) && e in heap && err in heap
    modifies heap
    ensures Valid(heap)
    ensures old(Meet(heap, e, err)) ==> forall x :: x in heap ==> x.wrapped == old(x.wrapped)
    ensures !old(Meet(heap, e, err)) ==>
      && old(Last(heap, e)).wrapped == err
      && (forall x :: x in heap && x != old(Last(heap, e)) ==> x.wrapped == old(x.wrapped))
      && Grown(old(Chains(heap)), Chains(heap), old(Last(heap, e)), err)
    ensures old(Meet(heap, e, err)) ==> Chains(heap) == old(Chains(heap))
  {
    if err == e {
      assert e in Chain(heap, e);
      return;
    }
    var cycle := Contains(err, e, heap);
    if cycle {
      return;
    }
    var lastErr := e;
    while lastErr.wrapped != null
      invariant lastErr in heap && Last(heap, lastErr) == Last(heap, e)
      invariant Valid(heap) && forall x :: x in heap ==> x.wrapped == old(x.wrapped) && x.rank == old(x.rank)
      decreases lastErr.rank
    {
      assert LinkOk(heap, lastErr);
      lastErr := lastErr.wrapped;
    }
    var present := Contains(e, err, heap);
    if present {
      return;
    }
    MeetIffSameLast(heap, e, err);
    EndsAlike(heap, lastErr);
    Attach(lastErr, err, heap);
  }

  /** The final assignment of SetWrappedErr. */
  method Attach(last: Error, err: Error, ghost heap: set<Error>)
    requires Valid(heap) && last in heap && err in heap && last.wrapped == null && Last(heap, err) != last
    modifies heap
    ensures Valid(heap)
    ensures last.wrapped == err && forall x :: x in heap && x != last ==> x.wrapped == old(x.wrapped)
    ensures Grown(old(Chains(heap)), Chains(heap), last, err)
  {
    ghost var before := Chains(heap);
    ghost var grows := ChainsEndingIn(heap, last);
    LinksStayInside(heap, last);
    WereLinked(heap, last, before);
    Splice(last, err, heap, grows, before);
    GrownChains(heap, last, err, before);
  }

  /** The errors whose chain ends in last. Following a link stays inside or outside the set. */
  ghost function ChainsEndingIn(heap: set<Error>, last: Error): (s: set<Error>)
    requires Valid(heap) && last in heap && last.wrapped == null
    reads heap
    ensures s <= heap && forall x {:trigger x in s} :: x in heap ==> (x in s <==> Last(heap, x) == last)
  {
    set x | x in heap && Last(heap, x) == last
  }

  lemma {:induction false} LinksStayInside(heap: set<Error>, last: Error)
    requires Valid(heap) && last in heap && last.wrapped == null
    ensures last in ChainsEndingIn(heap, last)
    ensures forall x {:trigger LinkOk(heap, x)} :: x in heap && LinkOk(heap, x) && x.wrapped != null ==>
      x.wrapped in heap && (x in ChainsEndingIn(heap, last) <==> x.wrapped in ChainsEndingIn(heap, last))
  {
    var s := ChainsEndingIn(heap, last);
    EndsAlike(heap, last);
    forall x | x in heap && x.wrapped != null ensures x.wrapped in heap && (x in s <==> x.wrapped in s) {
      assert LinkOk(heap, x);
    }
  }

  method Splice(last: Error, err: Error, ghost heap: set<Error>, ghost grows: set<Error>,
        ghost before: map<Error, seq<Error>>)
    requires Valid(heap) && last in heap && err in heap && last.wrapped == null && before.Keys == heap
    requires grows <= heap && last in grows && err !in grows
    requires forall x {:trigger LinkOk(heap, x)} :: x in heap && LinkOk(heap, x) && x.wrapped != null ==>
      (x in grows <==> x.wrapped in grows)
    requires forall x {:trigger WasLinked(heap, last, before, x)} :: x in heap ==> WasLinked(heap, last, before, x)
    modifies heap`rank, last`wrapped
    ensures Valid(heap) && last.wrapped == err
    ensures forall x {:trigger WasLinked(heap, last, before, x)} :: x in heap ==> WasLinked(heap, last, before, x)
  {
    RaiseRanks(heap, grows, err.rank + 1);
    forall x | x in heap ensures WasLinked(heap, last, before, x) {
      assert old(WasLinked(heap, last, before, x));
    }
    Relink(last, err, heap, before);
  }

  method Relink(last: Error, err: Error, ghost heap: set<Error>, ghost before: map<Error, seq<Error>>)
    requires Valid(heap) && last in heap && err in heap && last.wrapped == null && err.rank < last.rank
      && before.Keys == heap
    requires forall x {:trigger WasLinked(heap, last, before, x)} :: x in heap ==> WasLinked(heap, last, before, x)
    modifies last`wrapped
    ensures Valid(heap) && last.wrapped == err
    ensures forall x {:trigger WasLinked(heap, last, before, x)} :: x in heap ==> WasLinked(heap, last, before, x)
  {
    last.wrapped := err;
    forall x | x in heap ensures LinkOk(heap, x) && WasLinked(heap, last, before, x) {
      assert old(LinkOk(heap, x)) && old(WasLinked(heap, last, before, x));
    }
  }

  lemma {:induction false} WereLinked(heap: set<Error>, last: Error, before: map<Error, seq<Error>>)
    requires Valid(heap) && before == Chains(heap)
    ensures forall x {:trigger WasLinked(heap, last, before, x)} :: x in heap ==> WasLinked(heap, last, before, x)
  {
    forall x | x in heap ensures WasLinked(heap, last, before, x) {
      assert LinkOk(heap, x);
    }
  }

  /** An error's chain ends where the chain of the next link does. */
  lemma {:induction false} EndsAlike(heap: set<Error>, last: Error)
    requires Valid(heap) && last in heap && last.wrapped == null
    ensures Last(heap, last) == last
    ensures forall x {:trigger LinkOk(heap, x)} :: x in heap && LinkOk(heap, x) && x.wrapped != null ==>
      x.wrapped in heap && Last(heap, x) == Last(heap, x.wrapped)
  {
    forall x | x in heap && x.wrapped != null ensures x.wrapped in heap && Last(heap, x) == Last(heap, x.wrapped) {
      assert LinkOk(heap, x);
    }
  }

  /** Raising the ranks of whole chains together keeps them decreasing. */
  ghost method RaiseRanks(heap: set<Error>, grows: set<Error>, extra: nat)
    requires grows <= heap && Valid(heap)
    requires forall x {:trigger LinkOk(heap, x)} :: x in heap && LinkOk(heap, x) && x.wrapped != null ==>
      (x in grows <==> x.wrapped in grows)
    modifies heap`rank
    ensures Valid(heap)
    ensures forall x :: x in heap ==> x.rank == old(x.rank) + (if x in grows then extra else 0)
  {
    var todo := grows;
    while todo != {}
      invariant todo <= grows
      invariant forall x :: x in heap ==> x.rank == old(x.rank) + (if x in grows - todo then extra else 0)
      decreases todo
    {
      var x :| x in todo;
      x.rank := x.rank + extra;
      todo := todo - {x};
    }
    forall x | x in heap ensures LinkOk(heap, x) {
      assert old(LinkOk(heap, x));
    }
  }

  /** `before` are the chains as they were when last, whose link is now err, was still the end of its
      chain. */
  ghost predicate ChainsBefore(heap: set<Error>, last: Error, err: Error, before: map<Error, seq<Error>>)
    reads heap
  {
    && last in heap && err in heap && last.wrapped == err && before.Keys == heap
    && (forall x :: x in heap ==> before[x] != [])
    && before[last] == [last]
    && (forall x {:trigger WasLinked(heap, last, before, x)} :: x in heap ==> WasLinked(heap, last, before, x))
    && EndOf(before[err]) != last
  }

  ghost predicate WasLinked(heap: set<Error>, last: Error, before: map<Error, seq<Error>>, x: Error)
    requires x in heap && before.Keys == heap
    reads heap
  {
    x != last ==>
      if x.wrapped == null then before[x] == [x]
      else x.wrapped in heap && before[x] == [x] + before[x.wrapped]
  }

  lemma GrownByOne(before: map<Error, seq<Error>>, x: Error, next: Error, tail: seq<Error>)
    requires x in before && next in before && before[next] != [] && before[x] == [x] + before[next]
    ensures EndOf(before[x]) == EndOf(before[next]) && [x] + (before[next] + tail) == before[x] + tail
  {
  }

  lemma {:induction false} GrownChain(heap: set<Error>, last: Error, err: Error, before: map<Error, seq<Error>>,
        x: Error)
    requires Valid(heap) && ChainsBefore(heap, last, err, before) && x in heap
    ensures Chain(heap, x) == before[x] + (if EndOf(before[x]) == last then before[err] else [])
    decreases x.rank
  {
    assert LinkOk(heap, x) && WasLinked(heap, last, before, x);
    if x.wrapped != null {
      var next := x.wrapped;
      GrownChain(heap, last, err, before, next);
      assert Chain(heap, x) == [x] + Chain(heap, next);
      if x == last {
        assert before[err] + [] == before[err];
      } else {
        GrownByOne(before, x, next, if EndOf(before[next]) == last then before[err] else []);
      }
    }
  }

  lemma {:induction false} GrownChains(heap: set<Error>, last: Error, err: Error, before: map<Error, seq<Error>>)
    requires Valid(heap) && ChainsBefore(heap, last, err, before)
    ensures Grown(before, Chains(heap), last, err)
  {
    forall x | x in heap
      ensures Chain(heap, x) == before[x] + (if EndOf(before[x]) == last then before[err] else [])
    {
      GrownChain(heap, last, err, before, x);
    }
  }

  // ------------------------------------------------------------ New and NewBlockHeaderContextError

  /** Adding objects to the heap does not change the chains of those that were there. */
  lemma {:induction false} ChainInLargerHeap(heap: set<Error>, larger: set<Error>, x: Error)
    requires heap <= larger && Valid(heap) && Valid(larger) && x in heap
    ensures Chain(larger, x) == Chain(heap, x)
    decreases x.rank
  {
    assert LinkOk(heap, x);
    if x.wrapped != null {
      ChainInLargerHeap(heap, larger, x.wrapped);
    }
  }

  lemma {:induction false} ValidWith(heap: set<Error>, e: Error)
    requires Valid(heap) && LinkOk(heap + {e}, e)
    ensures Valid(heap + {e})
  {
    forall x | x in heap + {e} ensures LinkOk(heap + {e}, x) {
      assert x in heap ==> LinkOk(heap, x);
    }
  }

  /** New: a fresh error in front of the cause's chain. */
  method New(code: nat, cause: Error?, ghost heap: set<Error>) returns (e: Error)
    requires Valid(heap) && (cause != null ==> cause in heap)
    ensures fresh(e) && e.code == code && e.wrapped == cause
    ensures Valid(heap + {e})
    ensures Chain(heap + {e}, e) == [e] + (if cause == null then [] else Chain(heap, cause))
    ensures forall x {:trigger Chain(heap, x)} :: x in heap ==> Chain(heap + {e}, x) == Chain(heap, x)
  {
    e := new Error(code);
    ValidWith(heap, e);
    if cause != null {
      var cyclic := Contains(cause, e, heap + {e});
      FreshIsApart(heap, cause, e);
      if cause != e && !cyclic {
        e.wrapped := cause;
        e.rank := cause.rank + 1;
      }
      ValidWith(heap, e);
      ChainInLargerHeap(heap, heap + {e}, cause);
    }
    forall x | x in heap ensures Chain(heap + {e}, x) == Chain(heap, x) {
      ChainInLargerHeap(heap, heap + {e}, x);
    }
  }

  lemma {:induction false} FreshIsApart(heap: set<Error>, cause: Error, e: Error)
    requires Valid(heap) && Valid(heap + {e}) && cause in heap && e !in heap && e.wrapped == null
    ensures !Meet(heap + {e}, cause, e)
  {
    ChainInLargerHeap(heap, heap + {e}, cause);
    ChainInHeap(heap, cause);
    assert Chain(heap + {e}, e) == [e];
  }

  /** NewBlockHeaderContextError: an error of its own code, then a processing error, then the caller's
      cause. It writes to no object that existed before (it has no modifies clause), so the cause and
      everything that shares its chain stay as they were. */
  method NewBlockHeaderContextError(cause: Error?, ghost heap: set<Error>) returns (e: Error)
    requires Valid(heap) && (cause != null ==> cause in heap)
    ensures fresh(e) && e.wrapped != null && fresh(e.wrapped)
    ensures e.code == ERR_BLOCK_HEADER_CONTEXT && e.wrapped.code == ERR_PROCESSING
    ensures Valid(heap) && Valid(heap + {e, e.wrapped})
    ensures Chain(heap + {e, e.wrapped}, e) == [e, e.wrapped] + (if cause == null then [] else Chain(heap, cause))
  {
    e := New(ERR_BLOCK_HEADER_CONTEXT, cause, heap);
    var tail := New(ERR_PROCESSING, null, {});
    if e.wrapped == null {
      AttachTail(e, tail);
    } else {
      SpliceTail(e, tail, cause);
    }
    SplicedChain(heap, e, tail, cause);
  }

  /** Nothing is wrapped yet: SetWrappedErr on the two new errors only. */
  method AttachTail(e: Error, tail: Error)
    requires e != tail && e.wrapped == null && tail.wrapped == null
    modifies e, tail
    ensures e.wrapped == tail && tail.wrapped == null && tail.rank < e.rank
  {
    ghost var own := {e, tail};
    LoneErrors(e, tail);
    SetWrappedErr(e, tail, own);
    assert LinkOk(own, e);
  }

  /** The tail goes in above the caller's cause, which is not written to. */
  method SpliceTail(e: Error, tail: Error, cause: Error)
    requires e != tail && e != cause && tail != cause && e.wrapped == cause
    modifies e, tail
    ensures e.wrapped == tail && tail.wrapped == cause && cause.rank < tail.rank < e.rank
  {
    tail.wrapped := e.wrapped;
    e.wrapped := tail;
    tail.rank := cause.rank + 1;
    e.rank := tail.rank + 1;
  }

  lemma {:induction false} LoneErrors(e: Error, tail: Error)
    requires e != tail && e.wrapped == null && tail.wrapped == null
    ensures Valid({e, tail}) && Last({e, tail}, e) == e && Chain({e, tail}, tail) == [tail] && !Meet({e, tail}, e, tail)
  {
    forall x | x in {e, tail} ensures LinkOk({e, tail}, x) {
    }
    assert Chain({e, tail}, e) == [e];
  }

  lemma {:induction false} SplicedChain(heap: set<Error>, e: Error, tail: Error, cause: Error?)
    requires Valid(heap) && e !in heap && tail !in heap && e != tail && (cause != null ==> cause in heap)
    requires e.wrapped == tail && tail.wrapped == cause
    requires tail.rank < e.rank && (cause != null ==> cause.rank < tail.rank)
    ensures Valid(heap + {e, tail})
    ensures Chain(heap + {e, tail}, e) == [e, tail] + (if cause == null then [] else Chain(heap, cause))
  {
    var larger := heap + {e, tail};
    forall x | x in larger ensures LinkOk(larger, x) {
      assert x in heap ==> LinkOk(heap, x);
    }
    if cause != null {
      ChainInLargerHeap(heap, larger, cause);
    }
    assert Chain(larger, tail) == [tail] + (if cause == null then [] else Chain(larger, cause));
  }

  // ------------------------------------------------------------ Join

  ghost predicate InChains(chains: map<Error, seq<Error>>, errs: seq<Error>) {
    forall i :: 0 <= i < |errs| ==> errs[i] in chains
  }

  /** What holds of the chains of any heap: they share an error exactly when they end alike, and the chain of
      an error that is met is part of the chain it is met in. */
  ghost predicate ChainsOk(chains: map<Error, seq<Error>>) {
    && (forall x :: x in chains ==> chains[x] != [] && chains[x][0] == x)
    && (forall x, y :: x in chains && y in chains ==> (Share(chains, x, y) <==> EndOf(chains[x]) == EndOf(chains[y])))
    && (forall x, y, z :: x in chains && y in chains && y in chains[x] && z in chains[y] ==> z in chains[x])
  }

  ghost predicate Share(chains: map<Error, seq<Error>>, x: Error, y: Error)
    requires x in chains && y in chains
  {
    exists z :: z in chains[x] && z in chains[y]
  }

  lemma {:induction false} HeapChainsOk(heap: set<Error>)
    requires Valid(heap)
    ensures ChainsOk(Chains(heap))
  {
    var chains := Chains(heap);
    forall x, y | x in heap && y in heap
      ensures Share(chains, x, y) <==> EndOf(chains[x]) == EndOf(chains[y])
    {
      MeetIffSameLast(heap, x, y);
      assert Share(chains, x, y) <==> Meet(heap, x, y);
    }
    forall x, y, z | x in heap && y in heap && y in chains[x] && z in chains[y] ensures z in chains[x] {
      var i :| 0 <= i < |chains[x]| && chains[x][i] == y;
      ChainSuffix(heap, x, i);
    }
  }

  /** No error of the i-th chain is in an earlier one. */
  ghost predicate Apart(chains: map<Error, seq<Error>>, errs: seq<Error>, i: nat)
    requires InChains(chains, errs) && i < |errs|
  {
    forall k :: 0 <= k < i ==> !Share(chains, errs[k], errs[i])
  }

  /** The chains of the first n errors one after the other, leaving out those that share an error with an
      earlier one. */
  ghost function Attached(chains: map<Error, seq<Error>>, errs: seq<Error>, n: nat): seq<Error>
    requires InChains(chains, errs) && n <= |errs|
  {
    if n == 0 then []
    else Attached(chains, errs, n - 1) + (if Apart(chains, errs, n - 1) then chains[errs[n - 1]] else [])
  }

  /** x's chain ended where that of one of the first n errors did. */
  ghost predicate Merged(before: map<Error, seq<Error>>, errs: seq<Error>, n: nat, x: Error)
    requires InChains(before, errs) && n <= |errs| && x in before && NoneEmpty(before)
  {
    exists k :: 0 <= k < n && EndOf(before[errs[k]]) == EndOf(before[x])
  }

  ghost predicate NoneEmpty(chains: map<Error, seq<Error>>) {
    forall x :: x in chains ==> chains[x] != []
  }

  lemma {:induction false} ApartMeansNotMerged(chains: map<Error, seq<Error>>, errs: seq<Error>, i: nat)
    requires ChainsOk(chains) && InChains(chains, errs) && i < |errs|
    ensures NoneEmpty(chains) && (Apart(chains, errs, i) <==> !Merged(chains, errs, i, errs[i]))
  {
  }

  ghost predicate ApartMeansUnmerged(before: map<Error, seq<Error>>, errs: seq<Error>) {
    && InChains(before, errs) && NoneEmpty(before)
    && forall i: nat {:trigger Apart(before, errs, i)} ::
         i < |errs| ==> (Apart(before, errs, i) <==> !Merged(before, errs, i, errs[i]))
  }

  /** Where x stands once the first n errors are joined: it ends with them, or is untouched. */
  ghost predicate Placed(before: map<Error, seq<Error>>, now: map<Error, seq<Error>>, errs: seq<Error>, n: nat,
        x: Error)
    requires InChains(before, errs) && 0 < n <= |errs| && x in before && before.Keys == now.Keys
    requires NoneEmpty(before) && NoneEmpty(now)
  {
    if Merged(before, errs, n, x) then EndOf(now[x]) == EndOf(now[errs[n - 1]])
    else now[x] == before[x] && EndOf(now[x]) != EndOf(now[errs[n - 1]])
  }

  /** How far Join has got. */
  ghost predicate JoinedTo(before: map<Error, seq<Error>>, now: map<Error, seq<Error>>, errs: seq<Error>, n: nat) {
    && 0 < n <= |errs| && before.Keys == now.Keys && InChains(before, errs) && NoneEmpty(before) && NoneEmpty(now)
    && (forall x {:trigger Placed(before, now, errs, n, x)} :: x in before ==> Placed(before, now, errs, n, x))
    && now[errs[0]] == Attached(before, errs, n)
  }

  lemma {:induction false} JoinStart(before: map<Error, seq<Error>>, errs: seq<Error>)
    requires NoneEmpty(before) && InChains(before, errs) && errs != []
    ensures JoinedTo(before, before, errs, 1)
  {
    forall x | x in before ensures Placed(before, before, errs, 1, x) {
      assert Merged(before, errs, 1, x) <==> EndOf(before[errs[0]]) == EndOf(before[x]);
    }
    assert Apart(before, errs, 0) && Attached(before, errs, 0) == [];
    assert [] + before[errs[0]] == before[errs[0]];
  }

  lemma {:induction false} MergedMore(before: map<Error, seq<Error>>, errs: seq<Error>, n: nat, x: Error)
    requires InChains(before, errs) && n < |errs| && x in before && NoneEmpty(before)
    ensures Merged(before, errs, n + 1, x) <==>
            Merged(before, errs, n, x) || EndOf(before[errs[n]]) == EndOf(before[x])
  {
  }

  /** The next error was met already: nothing is attached and nothing changes. */
  lemma {:induction false} JoinSkips(before: map<Error, seq<Error>>, now: map<Error, seq<Error>>, errs: seq<Error>,
        n: nat)
    requires n < |errs| && JoinedTo(before, now, errs, n) && Merged(before, errs, n, errs[n]) && !Apart(before, errs, n)
    ensures JoinedTo(before, now, errs, n + 1)
  {
    assert Attached(before, errs, n + 1) == Attached(before, errs, n);
    assert Placed(before, now, errs, n, errs[n]);
    var k :| 0 <= k < n && EndOf(before[errs[k]]) == EndOf(before[errs[n]]);
    forall x | x in before ensures Placed(before, now, errs, n + 1, x) {
      assert Placed(before, now, errs, n, x);
      MergedMore(before, errs, n, x);
    }
  }

  /** The next error is new: its chain goes to the end of what is joined. */
  lemma {:induction false} JoinAttaches(before: map<Error, seq<Error>>, now: map<Error, seq<Error>>,
                                        next: map<Error, seq<Error>>, errs: seq<Error>, n: nat)
    requires n < |errs| && JoinedTo(before, now, errs, n) && !Merged(before, errs, n, errs[n]) && Apart(before, errs, n)
    requires Grown(now, next, EndOf(now[errs[n - 1]]), errs[n])
    ensures JoinedTo(before, next, errs, n + 1)
  {
    assert Placed(before, now, errs, n, errs[n]);
    assert next[errs[n]] == before[errs[n]];
    forall x | x in before ensures next[x] != [] && Placed(before, next, errs, n + 1, x) {
      GrownPlaced(before, now, next, errs, n, x);
    }
    assert Merged(before, errs, n, errs[0]) && Placed(before, now, errs, n, errs[0]);
  }

  lemma {:induction false} GrownPlaced(before: map<Error, seq<Error>>, now: map<Error, seq<Error>>,
                                       next: map<Error, seq<Error>>, errs: seq<Error>, n: nat, x: Error)
    requires n < |errs| && JoinedTo(before, now, errs, n) && !Merged(before, errs, n, errs[n]) && x in before
    requires Grown(now, next, EndOf(now[errs[n - 1]]), errs[n]) && next[errs[n]] == now[errs[n]] == before[errs[n]]
    ensures NoneEmpty(next) && Placed(before, next, errs, n + 1, x)
  {
    assert Placed(before, now, errs, n, x);
    MergedMore(before, errs, n, x);
  }

  /** The chains meet in the heap exactly when they shared an error to begin with. */
  lemma {:induction false} JoinMeets(heap: set<Error>, before: map<Error, seq<Error>>, errs: seq<Error>, n: nat)
    requires Valid(heap) && n < |errs| && JoinedTo(before, Chains(heap), errs, n) && ApartMeansUnmerged(before, errs)
    ensures Apart(before, errs, n) <==> !Merged(before, errs, n, errs[n])
    ensures Apart(before, errs, n) <==> !Meet(heap, errs[n - 1], errs[n])
    ensures Last(heap, errs[n - 1]) == EndOf(Chains(heap)[errs[n - 1]])
  {
    assert Apart(before, errs, n) <==> !Merged(before, errs, n, errs[n]);
    MeetIffSameLast(heap, errs[n - 1], errs[n]);
    assert Placed(before, Chains(heap), errs, n, errs[n]);
  }

  /** No chain was shortened. */
  ghost predicate Lengthened(before: map<Error, seq<Error>>, now: map<Error, seq<Error>>) {
    before.Keys == now.Keys && forall x :: x in before ==> before[x] <= now[x]
  }

  lemma {:induction false} LengthenedTwice(a: map<Error, seq<Error>>, b: map<Error, seq<Error>>,
        c: map<Error, seq<Error>>)
    requires Lengthened(a, b) && Lengthened(b, c)
    ensures Lengthened(a, c)
  {
  }

  /** One round of Join. */
  method JoinNext(previous: Error, errs: seq<Error>, i: nat, ghost heap: set<Error>,
        ghost before: map<Error, seq<Error>>)
    requires Valid(heap) && 0 < i < |errs| && JoinedTo(before, Chains(heap), errs, i)
    requires previous == errs[i - 1] && ApartMeansUnmerged(before, errs)
    modifies heap
    ensures Valid(heap) && JoinedTo(before, Chains(heap), errs, i + 1)
    ensures Lengthened(old(Chains(heap)), Chains(heap))
  {
    ghost var now := Chains(heap);
    JoinMeets(heap, before, errs, i);
    SetWrappedErr(previous, errs[i], heap);
    if Apart(before, errs, i) {
      JoinAttaches(before, now, Chains(heap), errs, i);
    } else {
      JoinSkips(before, now, errs, i);
    }
  }

  // ------------------------------------------------------------ what Join keeps

  /** Each error is in the chain of an earlier one, or its chain has nothing in common with any earlier. */
  ghost predicate Joinable(chains: map<Error, seq<Error>>, errs: seq<Error>)
    requires InChains(chains, errs)
  {
    forall i :: 0 <= i < |errs| ==> Apart(chains, errs, i) || MetEarlier(chains, errs, i)
  }

  ghost predicate AllIn(chain: seq<Error>, errs: seq<Error>) {
    forall i :: 0 <= i < |errs| ==> errs[i] in chain
  }

  ghost predicate MetEarlier(chains: map<Error, seq<Error>>, errs: seq<Error>, i: nat)
    requires InChains(chains, errs) && i < |errs|
  {
    exists k :: 0 <= k < i && errs[i] in chains[errs[k]]
  }

  lemma {:induction false} AttachedGrows(chains: map<Error, seq<Error>>, errs: seq<Error>, m: nat, n: nat, x: Error)
    requires InChains(chains, errs) && m <= n <= |errs| && x in Attached(chains, errs, m)
    ensures x in Attached(chains, errs, n)
  {
    if m < n {
      AttachedGrows(chains, errs, m, n - 1, x);
    }
  }

  lemma {:induction false} AttachedOrigin(chains: map<Error, seq<Error>>, errs: seq<Error>, n: nat, x: Error)
    returns (k: nat)
    requires InChains(chains, errs) && n <= |errs| && x in Attached(chains, errs, n)
    ensures k < n && Apart(chains, errs, k) && x in chains[errs[k]]
  {
    k := n - 1;
    var tail := if Apart(chains, errs, k) then chains[errs[k]] else [];
    assert Attached(chains, errs, n) == Attached(chains, errs, k) + tail;
    if x !in tail {
      k := AttachedOrigin(chains, errs, n - 1, x);
    }
  }

  lemma {:induction false} JoinableKeeps(chains: map<Error, seq<Error>>, errs: seq<Error>, i: nat, x: Error)
    requires ChainsOk(chains) && InChains(chains, errs) && Joinable(chains, errs) && i < |errs| && x in chains[errs[i]]
    ensures x in Attached(chains, errs, |errs|)
  {
    if Apart(chains, errs, i) {
      assert x in Attached(chains, errs, i + 1);
      AttachedGrows(chains, errs, i + 1, |errs|, x);
    } else {
      var k :| 0 <= k < i && errs[i] in chains[errs[k]];
      JoinableKeeps(chains, errs, k, x);
    }
  }

  lemma {:induction false} LostFromJoin(chains: map<Error, seq<Error>>, errs: seq<Error>, i: nat)
    requires ChainsOk(chains) && InChains(chains, errs) && i < |errs|
    requires !Apart(chains, errs, i) && !MetEarlier(chains, errs, i)
    ensures errs[i] !in Attached(chains, errs, |errs|)
  {
    assert chains[errs[i]][0] in chains[errs[i]];
    forall k | i < k < |errs| && errs[i] in chains[errs[k]] ensures !Apart(chains, errs, k) {
      assert Share(chains, errs[i], errs[k]);
    }
    if errs[i] in Attached(chains, errs, |errs|) {
      var k := AttachedOrigin(chains, errs, |errs|, errs[i]);
    }
  }

  /** Join keeps every error exactly when each one is in the chain of an earlier one or has nothing in common
      with the earlier ones. Then nothing any of the chains held is lost either. */
  lemma {:induction false} JoinKeepsAllIff(chains: map<Error, seq<Error>>, errs: seq<Error>)
    requires ChainsOk(chains) && InChains(chains, errs)
    ensures AllIn(Attached(chains, errs, |errs|), errs) <==> Joinable(chains, errs)
    ensures Joinable(chains, errs) ==>
            forall i, x :: 0 <= i < |errs| && x in chains[errs[i]] ==> x in Attached(chains, errs, |errs|)
  {
    if Joinable(chains, errs) {
      forall i, x | 0 <= i < |errs| && x in chains[errs[i]] ensures x in Attached(chains, errs, |errs|) {
        JoinableKeeps(chains, errs, i, x);
      }
      assert forall i :: 0 <= i < |errs| ==> chains[errs[i]][0] in chains[errs[i]];
    } else {
      var i :| 0 <= i < |errs| && !Apart(chains, errs, i) && !MetEarlier(chains, errs, i);
      LostFromJoin(chains, errs, i);
    }
  }

  lemma {:induction false} JoinFacts(heap: set<Error>, errs: seq<Error>)
    requires Valid(heap) && forall i :: 0 <= i < |errs| ==> errs[i] in heap
    ensures ApartMeansUnmerged(Chains(heap), errs)
    ensures AllIn(Attached(Chains(heap), errs, |errs|), errs) <==> Joinable(Chains(heap), errs)
  {
    var chains := Chains(heap);
    HeapChainsOk(heap);
    forall i: nat | i < |errs| ensures Apart(chains, errs, i) <==> !Merged(chains, errs, i, errs[i]) {
      ApartMeansNotMerged(chains, errs, i);
    }
    JoinKeepsAllIff(chains, errs);
  }

  /** The loop of Join. */
  method JoinRest(errs: seq<Error>, ghost heap: set<Error>, ghost before: map<Error, seq<Error>>)
    requires Valid(heap) && errs != [] && JoinedTo(before, Chains(heap), errs, 1) && ApartMeansUnmerged(before, errs)
    modifies heap
    ensures Valid(heap) && JoinedTo(before, Chains(heap), errs, |errs|)
    ensures Lengthened(old(Chains(heap)), Chains(heap))
  {
    var previous := errs[0];
    ghost var start := Chains(heap);
    for i := 1 to |errs|
      invariant Valid(heap) && previous == errs[i - 1] && start == old(Chains(heap))
      invariant JoinedTo(before, Chains(heap), errs, i) && Lengthened(start, Chains(heap))
    {
      ghost var now := Chains(heap);
      JoinNext(previous, errs, i, heap, before);
      LengthenedTwice(start, now, Chains(heap));
      previous := errs[i];
    }
  }

  /** Join: chains the rest behind the first. No chain is shortened and none becomes cyclic. The first error's
      chain becomes the given chains one after the other, except those that share an error with an
      earlier one, which add nothing; so every error stays reachable exactly when Joinable says so. */
  method Join(errs: seq<Error>, ghost heap: set<Error>) returns (r: Error?)
    requires Valid(heap) && forall i :: 0 <= i < |errs| ==> errs[i] in heap
    modifies heap
    ensures Valid(heap)
    ensures r == if errs == [] then null else errs[0]
    ensures Lengthened(old(Chains(heap)), Chains(heap))
    ensures errs != [] ==> Chain(heap, errs[0]) == Attached(old(Chains(heap)), errs, |errs|)
    ensures errs != [] ==> (AllIn(Chain(heap, errs[0]), errs) <==> Joinable(old(Chains(heap)), errs))
  {
    if |errs| == 0 {
      return null;
    }
    ghost var before := Chains(heap);
    JoinFacts(heap, errs);
    JoinStart(before, errs);
    JoinRest(errs, heap, before);
    return errs[0];
  }

  lemma {:induction false} SharedCauseNotJoinable(chains: map<Error, seq<Error>>, a: Error, b: Error, cause: Error)
    requires a in chains && b in chains && chains[a] == [a, cause] && chains[b] == [b, cause] && b != a && b != cause
    ensures InChains(chains, [a, b]) && !Joinable(chains, [a, b])
  {
    var errs := [a, b];
    assert cause in chains[errs[0]] && cause in chains[errs[1]];
    assert Share(chains, errs[0], errs[1]);
    assert !Apart(chains, errs, 1) && !MetEarlier(chains, errs, 1);
  }

  method TwoOverOneCause(code: nat, causeCode: nat) returns (a: Error, b: Error, cause: Error, ghost heap: set<Error>)
    ensures fresh(a) && fresh(b) && fresh(cause) && heap == {cause, a, b} && Valid(heap)
    ensures a != b && b != cause && Chain(heap, a) == [a, cause] && Chain(heap, b) == [b, cause]
  {
    cause := New(causeCode, null, {});
    assert {} + {cause} == {cause};
    a := New(code, cause, {cause});
    b := New(code, cause, {cause} + {a});
    heap := {cause} + {a} + {b};
  }

  /** Two errors over one cause: joining them loses the second, whose cause the first already carries. */
  method JoinSharedCause(code: nat, causeCode: nat) returns (a: Error, b: Error, ghost heap: set<Error>)
    ensures fresh(a) && fresh(b) && Valid(heap) && a in heap && !AllIn(Chain(heap, a), [a, b])
  {
    var cause;
    a, b, cause, heap := TwoOverOneCause(code, causeCode);
    SharedCauseNotJoinable(Chains(heap), a, b, cause);
    var errs := [a, b];
    var joined := Join(errs, heap);
    assert errs[0] == a;
  }
}
