/** The median-time-past rule (model/Block.go): which ancestor headers of a caller-supplied run it is
    measured over, and the verdict it gives. */
module MedianTime {
  import opened Common

  type Hash = int

  const ZERO_HASH: Hash := 0

  /** A header; `rest` stands for the version, bits and nonce. The two hash fields are pointers. */
  datatype Header = Header(prev: Option<Hash>, merkleRoot: Option<Hash>, timestamp: int, rest: nat)

  type HeaderHash = Header -> Hash

  const MEDIAN_TIME_BLOCKS := 11

  predicate Hashable(h: Option<Header>) {
    h.Some? && h.value.prev.Some? && h.value.merkleRoot.Some?
  }

  /** No two hashable headers share a hash and none hashes to zero. */
  ghost predicate CollisionFree(hash: HeaderHash) {
    (forall g, h :: Hashable(Some(g)) && Hashable(Some(h)) && hash(g) == hash(h) ==> g == h)
    && forall h :: Hashable(Some(h)) ==> hash(h) != ZERO_HASH
  }

  // ------------------------------------------------------------ the window

  function Reversed<T>(s: seq<T>): (r: seq<T>)
    ensures |r| == |s| && forall i :: 0 <= i < |s| ==> r[i] == s[|s| - 1 - i]
  {
    seq(|s|, i requires 0 <= i < |s| => s[|s| - 1 - i])
  }

  /** A run in newest-first order. */
  function NewestFirst<T>(s: seq<T>, newestFirst: bool): (r: seq<T>)
    ensures |r| == |s|
  {
    if newestFirst then s else Reversed(s)
  }

  ghost predicate Link(hash: HeaderHash, child: Header, parent: Header) {
    Hashable(Some(child)) && Hashable(Some(parent)) && child.prev == Some(hash(parent))
  }

  /** Every header of a newest-first run follows the next one. */
  ghost predicate Linked(hash: HeaderHash, w: seq<Header>) {
    forall i, j :: 0 <= i && j == i + 1 && j < |w| ==> Link(hash, w[i], w[j])
  }

  /** The ancestors the rule is about, newest first: from the parent on, linked, eleven of them or fewer
      ending at genesis. */
  ghost predicate IsAncestors(hash: HeaderHash, parent: Hash, w: seq<Header>) {
    && 1 <= |w| <= MEDIAN_TIME_BLOCKS
    && Hashable(Some(w[0])) && hash(w[0]) == parent
    && Linked(hash, w)
    && (|w| < MEDIAN_TIME_BLOCKS ==> w[|w| - 1].prev == Some(ZERO_HASH))
  }

  /** verifyMedianWindowLinkage. */
  method VerifyLinkage(hash: HeaderHash, window: seq<Header>, newestFirst: bool) returns (ok: bool)
    ensures ok <==> Linked(hash, NewestFirst(window, newestFirst))
  {
    ghost var w := NewestFirst(window, newestFirst);
    var n := |window|;
    var i := 0;
    while i < n - 1
      invariant 0 <= i
      invariant newestFirst ==> forall k, j :: 0 <= k < i && j == k + 1 && j < n ==> Link(hash, w[k], w[j])
      invariant !newestFirst ==> forall k, j :: 0 <= k && n - 1 - i <= k && j == k + 1 && j < n ==>
        Link(hash, w[k], w[j])
    {
      var childIdx, parentIdx := i, i + 1;
      if !newestFirst {
        childIdx, parentIdx := i + 1, i;
      }
      var child, parent := window[childIdx], window[parentIdx];
      ghost var k := if newestFirst then i else n - 2 - i;
      ghost var j := k + 1;
      assert w[k] == child && w[j] == parent;
      if !Hashable(Some(child)) || !Hashable(Some(parent)) || child.prev != Some(hash(parent)) {
        assert !Link(hash, w[k], w[j]);
        return false;
      }
      i := i + 1;
    }
    return true;
  }

  datatype ContextError = NoAncestors | NoParentHash | NotAnchored | NilHeader | NotLinked | TooShort

  datatype Result = Window(headers: seq<Header>) | Refused(error: ContextError)

  predicate Anchors(hash: HeaderHash, h: Option<Header>, parent: Hash) {
    Hashable(h) && hash(h.value) == parent
  }

  function Min(a: nat, b: nat): nat {
    if a < b then a else b
  }

  predicate FromFront(hash: HeaderHash, parent: Hash, chain: seq<Option<Header>>)
    requires chain != []
  {
    Anchors(hash, chain[0], parent)
  }

  /** The part of the run at the end that carries the parent. */
  function Selected(hash: HeaderHash, parent: Hash, chain: seq<Option<Header>>): seq<Option<Header>>
    requires chain != []
  {
    var length := Min(MEDIAN_TIME_BLOCKS, |chain|);
    if FromFront(hash, parent, chain) then chain[..length] else chain[|chain| - length..]
  }

  /** The run holds `w` next to the parent. */
  ghost predicate Supplies(hash: HeaderHash, parent: Hash, chain: seq<Option<Header>>, w: seq<Header>) {
    && chain != []
    && IsAncestors(hash, parent, w)
    && var s := NewestFirst(Selected(hash, parent, chain), FromFront(hash, parent, chain));
       |s| == |w| && forall i :: 0 <= i < |s| ==> s[i] == Some(w[i])
  }

  method Headers(s: seq<Option<Header>>) returns (r: Option<seq<Header>>)
    ensures r.None? <==> None in s
    ensures r.Some? ==> |r.value| == |s| && forall i :: 0 <= i < |s| ==> s[i] == Some(r.value[i])
  {
    var headers: seq<Header> := [];
    for i := 0 to |s|
      invariant |headers| == i && None !in s[..i]
      invariant forall k :: 0 <= k < i ==> s[k] == Some(headers[k])
    {
      if s[i].None? {
        return None;
      }
      headers := headers + [s[i].value];
    }
    return Some(headers);
  }

  /** MedianTimeWindow: it answers exactly when the run holds the ancestors the rule is about next to the
      parent, with those, in the order they were supplied. */
  method MedianTimeWindow(hash: HeaderHash, prev: Option<Hash>, chain: seq<Option<Header>>) returns (r: Result)
    ensures r.Window? <==> prev.Some? && exists w :: Supplies(hash, prev.value, chain, w)
    ensures r.Window? ==>
      Supplies(hash, prev.value, chain, NewestFirst(r.headers, FromFront(hash, prev.value, chain)))
    ensures prev.Some? ==> forall w :: Leads(hash, prev.value, chain, w) ==> r == Window(w)
    ensures prev.Some? ==> forall w :: Trails(hash, prev.value, chain, w) ==> r == Window(Reversed(w))
    ensures r == Refused(NoAncestors) <==> chain == []
    ensures r == Refused(NoParentHash) <==> chain != [] && prev.None?
    ensures r == Refused(NotAnchored) <==>
      && chain != [] && prev.Some?
      && !Anchors(hash, chain[0], prev.value) && !Anchors(hash, chain[|chain| - 1], prev.value)
  {
    r := SelectWindow(hash, prev, chain);
    if prev.Some? {
      forall w | Leads(hash, prev.value, chain, w) ensures r == Window(w) {
        LeadingIsAnswered(hash, prev.value, chain, w, r);
      }
      forall w | Trails(hash, prev.value, chain, w) ensures r == Window(Reversed(w)) {
        TrailingIsAnswered(hash, prev.value, chain, w, r);
      }
    }
  }

  /** The ancestors in full, as far as the run goes. */
  ghost predicate Usable(hash: HeaderHash, parent: Hash, chain: seq<Option<Header>>, w: seq<Header>) {
    IsAncestors(hash, parent, w) && |w| <= |chain| && (|w| == MEDIAN_TIME_BLOCKS || |w| == |chain|)
  }

  /** The run begins with the ancestors, the newest first. */
  ghost predicate Leads(hash: HeaderHash, parent: Hash, chain: seq<Option<Header>>, w: seq<Header>) {
    Usable(hash, parent, chain, w) && forall i :: 0 <= i < |w| ==> chain[i] == Some(w[i])
  }

  /** The run ends with the ancestors, the newest last, and does not begin with the parent. */
  ghost predicate Trails(hash: HeaderHash, parent: Hash, chain: seq<Option<Header>>, w: seq<Header>) {
    && Usable(hash, parent, chain, w) && !Anchors(hash, chain[0], parent)
    && forall i :: 0 <= i < |w| ==> chain[|chain| - 1 - i] == Some(w[i])
  }

  /** A window is given back when and only when the run supplies one. */
  ghost predicate Honours(hash: HeaderHash, parent: Hash, chain: seq<Option<Header>>, r: Result) {
    && (r.Window? <==> exists w :: Supplies(hash, parent, chain, w))
    && (r.Window? ==> Supplies(hash, parent, chain, NewestFirst(r.headers, FromFront(hash, parent, chain))))
  }

  lemma {:induction false} LeadingIsAnswered(hash: HeaderHash, parent: Hash, chain: seq<Option<Header>>, w: seq<Header>,
        r: Result)
    requires Leads(hash, parent, chain, w) && Honours(hash, parent, chain, r)
    ensures r == Window(w)
  {
    assert FromFront(hash, parent, chain) && Supplies(hash, parent, chain, w);
    SuppliedOnce(hash, parent, chain, w, r.headers);
  }

  lemma {:induction false} TrailingIsAnswered(hash: HeaderHash, parent: Hash, chain: seq<Option<Header>>,
        w: seq<Header>, r: Result)
    requires Trails(hash, parent, chain, w) && Honours(hash, parent, chain, r)
    ensures r == Window(Reversed(w))
  {
    TrailingIsSupplied(hash, parent, chain, w);
    SuppliedOnce(hash, parent, chain, w, Reversed(r.headers));
    assert Reversed(Reversed(r.headers)) == r.headers;
  }

  lemma {:induction false} TrailingIsSupplied(hash: HeaderHash, parent: Hash, chain: seq<Option<Header>>,
        w: seq<Header>)
    requires Trails(hash, parent, chain, w)
    ensures !FromFront(hash, parent, chain) && Supplies(hash, parent, chain, w)
  {
    var selected := Selected(hash, parent, chain);
    var s := Reversed(selected);
    forall i | 0 <= i < |s| ensures s[i] == Some(w[i]) {
      assert s[i] == selected[|selected| - 1 - i] == chain[|chain| - 1 - i];
    }
  }

  lemma {:induction false} SuppliedOnce(hash: HeaderHash, parent: Hash, chain: seq<Option<Header>>, w: seq<Header>,
        v: seq<Header>)
    requires Supplies(hash, parent, chain, w) && Supplies(hash, parent, chain, v)
    ensures w == v
  {
    var s := NewestFirst(Selected(hash, parent, chain), FromFront(hash, parent, chain));
    forall i | 0 <= i < |w| ensures w[i] == v[i] {
      assert s[i] == Some(w[i]) && s[i] == Some(v[i]);
    }
  }

  /** The selection and the checks of MedianTimeWindow, step by step. */
  method SelectWindow(hash: HeaderHash, prev: Option<Hash>, chain: seq<Option<Header>>) returns (r: Result)
    ensures r.Window? <==> prev.Some? && exists w :: Supplies(hash, prev.value, chain, w)
    ensures r.Window? ==>
      Supplies(hash, prev.value, chain, NewestFirst(r.headers, FromFront(hash, prev.value, chain)))
    ensures r == Refused(NoAncestors) <==> chain == []
    ensures r == Refused(NoParentHash) <==> chain != [] && prev.None?
    ensures r == Refused(NotAnchored) <==>
      && chain != [] && prev.Some?
      && !Anchors(hash, chain[0], prev.value) && !Anchors(hash, chain[|chain| - 1], prev.value)
  {
    if |chain| == 0 {
      return Refused(NoAncestors);
    }
    var length := Min(MEDIAN_TIME_BLOCKS, |chain|);
    if prev.None? {
      return Refused(NoParentHash);
    }
    var parent := prev.value;
    var newestFirst := FromFront(hash, parent, chain);
    var selected;
    if newestFirst {
      selected := chain[..length];
    } else if Anchors(hash, chain[|chain| - 1], parent) {
      selected := chain[|chain| - length..];
    } else {
      BackAnchors(hash, parent, chain);
      return Refused(NotAnchored);
    }
    assert selected == Selected(hash, parent, chain);
    var headers := Headers(selected);
    if headers.None? {
      NoNilSupplied(hash, parent, chain);
      return Refused(NilHeader);
    }
    var window := headers.value;
    SuppliedIs(hash, parent, chain, window);
    var linked := VerifyLinkage(hash, window, newestFirst);
    if !linked {
      return Refused(NotLinked);
    }
    if length < MEDIAN_TIME_BLOCKS {
      var oldest := if newestFirst then window[length - 1] else window[0];
      if oldest.prev != Some(ZERO_HASH) {
        return Refused(TooShort);
      }
    }
    assert IsAncestors(hash, parent, NewestFirst(window, newestFirst));
    return Window(window);
  }

  lemma BackAnchors(hash: HeaderHash, parent: Hash, chain: seq<Option<Header>>)
    requires chain != [] && !FromFront(hash, parent, chain) && !Anchors(hash, chain[|chain| - 1], parent)
    ensures !exists w :: Supplies(hash, parent, chain, w)
  {
    forall w ensures !Supplies(hash, parent, chain, w) {
      var s := Reversed(Selected(hash, parent, chain));
      assert s[0] == chain[|chain| - 1];
    }
  }

  lemma NoNilSupplied(hash: HeaderHash, parent: Hash, chain: seq<Option<Header>>)
    requires chain != [] && None in Selected(hash, parent, chain)
    ensures !exists w :: Supplies(hash, parent, chain, w)
  {
    var selected := Selected(hash, parent, chain);
    var i :| 0 <= i < |selected| && selected[i].None?;
    forall w ensures !Supplies(hash, parent, chain, w) {
      var s := NewestFirst(selected, FromFront(hash, parent, chain));
      assert s[if FromFront(hash, parent, chain) then i else |s| - 1 - i].None?;
    }
  }

  /** What is supplied can only be the selected headers, newest first. */
  lemma SuppliedIs(hash: HeaderHash, parent: Hash, chain: seq<Option<Header>>, window: seq<Header>)
    requires chain != [] && |window| == |Selected(hash, parent, chain)|
    requires forall i :: 0 <= i < |window| ==> Selected(hash, parent, chain)[i] == Some(window[i])
    ensures forall w :: Supplies(hash, parent, chain, w) ==> w == NewestFirst(window, FromFront(hash, parent, chain))
    ensures Supplies(hash, parent, chain, NewestFirst(window, FromFront(hash, parent, chain))) <==>
            IsAncestors(hash, parent, NewestFirst(window, FromFront(hash, parent, chain)))
  {
    var s := NewestFirst(Selected(hash, parent, chain), FromFront(hash, parent, chain));
    var newest := NewestFirst(window, FromFront(hash, parent, chain));
    assert forall i :: 0 <= i < |s| ==> s[i] == Some(newest[i]);
  }

  // ------------------------------------------------------------ one window per parent

  /** Walking parent pointers from a hash, n headers at most: the ancestors by definition. */
  ghost function Walk(hash: HeaderHash, at: Hash, n: nat): seq<Header>
    decreases n
  {
    if n > 0 && exists h :: Hashable(Some(h)) && hash(h) == at then
      var h :| Hashable(Some(h)) && hash(h) == at;
      [h] + Walk(hash, h.prev.value, n - 1)
    else []
  }

  lemma {:induction false} LinkedIsWalk(hash: HeaderHash, at: Hash, n: nat, w: seq<Header>)
    requires CollisionFree(hash) && 1 <= |w| <= n && Linked(hash, w) && Hashable(Some(w[0])) && hash(w[0]) == at
    requires |w| < n ==> w[|w| - 1].prev == Some(ZERO_HASH)
    ensures w == Walk(hash, at, n)
    decreases n
  {
    var h := w[0];
    if |w| == 1 {
      assert n > 1 ==> Walk(hash, h.prev.value, n - 1) == [];
    } else {
      assert Link(hash, w[0], w[1]);
      var tail := w[1..];
      assert Linked(hash, tail) by {
        forall i, j | 0 <= i && j == i + 1 && j < |tail| ensures Link(hash, tail[i], tail[j]) {
          assert Link(hash, w[i + 1], w[j + 1]);
        }
      }
      LinkedIsWalk(hash, h.prev.value, n - 1, tail);
      assert w == [h] + tail;
    }
  }

  /** Whatever run is supplied, in whatever order, an accepted one selects the eleven headers reached
      from the parent by following parent hashes, or all of them down to genesis. */
  lemma {:induction false} OneWindowPerParent(hash: HeaderHash, parent: Hash, w: seq<Header>)
    requires CollisionFree(hash) && IsAncestors(hash, parent, w)
    ensures w == Walk(hash, parent, MEDIAN_TIME_BLOCKS)
  {
    LinkedIsWalk(hash, parent, MEDIAN_TIME_BLOCKS, w);
  }

  // ------------------------------------------------------------ the median

  /** How many entries are at most m, and how many below it. */
  ghost function AtMost(ts: seq<int>, m: int): nat {
    if ts == [] then 0
    else AtMost(ts[..|ts| - 1], m) + (if ts[|ts| - 1] <= m then 1 else 0)
  }

  ghost function Below(ts: seq<int>, m: int): nat {
    AtMost(ts, m - 1)
  }

  /** The entry of rank n/2: no more than n/2 entries are below it and more than n/2 are at most it. For
      an even count this is the higher of the two middle entries. */
  ghost predicate IsMedian(ts: seq<int>, m: int) {
    m in ts && Below(ts, m) <= |ts| / 2 < AtMost(ts, m)
  }

  lemma {:induction false} AtMostGrows(ts: seq<int>, m: int, n: int)
    requires m <= n
    ensures AtMost(ts, m) <= AtMost(ts, n)
  {
    if ts != [] {
      AtMostGrows(ts[..|ts| - 1], m, n);
    }
  }

  lemma {:induction false} MedianUnique(ts: seq<int>, m: int, n: int)
    requires IsMedian(ts, m) && IsMedian(ts, n)
    ensures m == n
  {
    if m < n {
      AtMostGrows(ts, m, n - 1);
    }
    if n < m {
      AtMostGrows(ts, n, m - 1);
    }
  }

  lemma {:induction false} AtMostWithout(ts: seq<int>, j: nat, m: int)
    requires j < |ts|
    ensures AtMost(ts, m) == AtMost(ts[..j] + ts[j + 1..], m) + (if ts[j] <= m then 1 else 0)
  {
    var last := |ts| - 1;
    var rest := ts[..j] + ts[j + 1..];
    if j == last {
      assert rest == ts[..last];
    } else {
      AtMostWithout(ts[..last], j, m);
      assert rest[..|rest| - 1] == ts[..last][..j] + ts[..last][j + 1..];
    }
  }

  /** The counts do not depend on the order. */
  lemma {:induction false} AtMostOfPermutation(a: seq<int>, b: seq<int>, m: int)
    requires multiset(a) == multiset(b)
    ensures AtMost(a, m) == AtMost(b, m)
    decreases |a|
  {
    if a == [] {
      assert |multiset(b)| == 0;
    } else {
      var last := |a| - 1;
      var x := a[last];
      assert a == a[..last] + [x];
      assert x in multiset(b);
      var j :| 0 <= j < |b| && b[j] == x;
      var rest := b[..j] + b[j + 1..];
      assert b == b[..j] + [x] + b[j + 1..];
      assert multiset(rest) == multiset(b) - multiset{x};
      AtMostOfPermutation(a[..last], rest, m);
      AtMostWithout(b, j, m);
    }
  }

  ghost predicate Sorted(s: seq<int>) {
    forall i, j :: 0 <= i < j < |s| ==> s[i] <= s[j]
  }

  /** What is asked of the library's sort. */
  ghost predicate Sorts(sort: seq<int> -> seq<int>) {
    forall s :: Sorted(sort(s)) && multiset(sort(s)) == multiset(s)
  }

  lemma {:induction false} AtMostBounds(s: seq<int>, k: nat, m: int)
    requires k <= |s|
    ensures (forall i :: 0 <= i < k ==> s[i] <= m) ==> AtMost(s, m) >= k
    ensures (forall i :: k <= i < |s| ==> s[i] > m) ==> AtMost(s, m) <= k
  {
    if s != [] {
      AtMostBounds(s[..|s| - 1], if k == |s| then k - 1 else k, m);
    }
  }

  /** CalculateMedianTimestamp, whichever sort it uses. */
  method CalculateMedianTimestamp(timestamps: seq<int>, sort: seq<int> -> seq<int>) returns (m: Option<int>)
    requires Sorts(sort)
    ensures m.None? <==> timestamps == []
    ensures m.Some? ==> IsMedian(timestamps, m.value)
  {
    var n := |timestamps|;
    if n == 0 {
      return None;
    }
    var sorted := sort(timestamps);
    assert |sorted| == n by {
      assert |multiset(sorted)| == |multiset(timestamps)|;
    }
    var mid := n / 2;
    assert sorted[mid] in multiset(timestamps);
    AtMostOfPermutation(sorted, timestamps, sorted[mid]);
    AtMostOfPermutation(sorted, timestamps, sorted[mid] - 1);
    AtMostBounds(sorted, mid + 1, sorted[mid]);
    AtMostBounds(sorted, mid, sorted[mid] - 1);
    return Some(sorted[mid]);
  }

  // ------------------------------------------------------------ the rule

  function Times(w: seq<Header>): (r: seq<int>)
    ensures |r| == |w| && forall i :: 0 <= i < |w| ==> r[i] == w[i].timestamp
  {
    seq(|w|, i requires 0 <= i < |w| => w[i].timestamp)
  }

  lemma {:induction false} ReversedPermutes(s: seq<int>)
    ensures multiset(Reversed(s)) == multiset(s)
  {
    if s != [] {
      var last := |s| - 1;
      ReversedPermutes(s[..last]);
      assert s == s[..last] + [s[last]];
      assert Reversed(s) == [s[last]] + Reversed(s[..last]);
    }
  }

  /** The median does not depend on the direction of the window. */
  lemma MedianOfNewestFirst(w: seq<Header>, newestFirst: bool, m: int)
    ensures IsMedian(Times(NewestFirst(w, newestFirst)), m) <==> IsMedian(Times(w), m)
  {
    if !newestFirst {
      var ts := Times(w);
      ReversedPermutes(ts);
      assert Times(Reversed(w)) == Reversed(ts);
      assert m in ts <==> m in multiset(ts);
      assert m in Reversed(ts) <==> m in multiset(Reversed(ts));
      AtMostOfPermutation(Reversed(ts), ts, m);
      AtMostOfPermutation(Reversed(ts), ts, m - 1);
    }
  }

  datatype Verdict = Passed | TooFarAhead | NotAfterMedian | Context(error: ContextError)

  /** The timestamp part of CheckHeaderContextual. `horizon` is two hours from now; `generate` is whether
      the chain allows blocks to be generated quickly. With a supplied run that is accepted, the verdict is
      the one over the walk from the parent, so no choice of run changes it. */
  method CheckTimestamp(hash: HeaderHash, header: Header, chain: seq<Option<Header>>, horizon: int, generate: bool,
                        sort: seq<int> -> seq<int>) returns (v: Verdict)
    requires Sorts(sort)
    ensures v.TooFarAhead? <==> header.timestamp > horizon
    ensures chain == [] && header.timestamp <= horizon ==> v.Passed?
    ensures v.Context? <==>
            header.timestamp <= horizon && chain != []
            && !(header.prev.Some? && exists w :: Supplies(hash, header.prev.value, chain, w))
    ensures v == Context(NoParentHash) <==> header.timestamp <= horizon && chain != [] && header.prev.None?
    ensures v == Context(NotAnchored) <==>
      && header.timestamp <= horizon && chain != [] && header.prev.Some?
      && !Anchors(hash, chain[0], header.prev.value) && !Anchors(hash, chain[|chain| - 1], header.prev.value)
    ensures chain != [] && (v.Passed? || v.NotAfterMedian?) ==>
      header.prev.Some? && exists w, m ::
        Supplies(hash, header.prev.value, chain, w) && IsMedian(Times(w), m)
        && (v.NotAfterMedian? <==> header.timestamp <= m && !generate)
  {
    if header.timestamp > horizon {
      return TooFarAhead;
    }
    if |chain| > 0 {
      var r := MedianTimeWindow(hash, header.prev, chain);
      if r.Refused? {
        return Context(r.error);
      }
      var m := CalculateMedianTimestamp(Times(r.headers), sort);
      MedianOfNewestFirst(r.headers, FromFront(hash, header.prev.value, chain), m.value);
      if header.timestamp <= m.value && !generate {
        return NotAfterMedian;
      }
    }
    return Passed;
  }

  /** Two accepted runs have the same median, the one of the walk from the parent. */
  lemma {:induction false} MedianOfParent(hash: HeaderHash, parent: Hash,
        chain1: seq<Option<Header>>, chain2: seq<Option<Header>>, w1: seq<Header>, w2: seq<Header>, m1: int, m2: int)
    requires CollisionFree(hash)
    requires Supplies(hash, parent, chain1, w1) && IsMedian(Times(w1), m1)
    requires Supplies(hash, parent, chain2, w2) && IsMedian(Times(w2), m2)
    ensures m1 == m2 && IsMedian(Times(Walk(hash, parent, MEDIAN_TIME_BLOCKS)), m1)
  {
    OneWindowPerParent(hash, parent, w1);
    OneWindowPerParent(hash, parent, w2);
    MedianUnique(Times(w1), m1, m2);
  }
}
