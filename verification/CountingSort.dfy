/** The arithmetic behind the two counting sorts of the block-validation core:
    the grouping of a dedup run by partition and the grouping of a chunk of
    node-index entries by shard. A sequence is split by a classifier `f` into
    the stable subsequences `Select(xs, f, q)`; in the grouped layout class `q`
    occupies positions `Start(xs, f, q)` up to `Start(xs, f, q + 1)`. */
module CountingSort {

  /** The elements of `xs` in class `q`, in their original order. */
  function Select<T>(xs: seq<T>, f: T -> nat, q: nat): seq<T> {
    if xs == [] then []
    else
      var last := xs[|xs| - 1];
      Select(xs[..|xs| - 1], f, q) + (if f(last) == q then [last] else [])
  }

  /** Where class `q` starts in the grouped layout. */
  function Start<T>(xs: seq<T>, f: T -> nat, q: nat): nat {
    if q == 0 then 0 else Start(xs, f, q - 1) + |Select(xs, f, q - 1)|
  }

  /** Class `q` of `xs` is the stretch of `ys` that starts at `Start(xs, f, q)`. */
  ghost predicate ClassAt<T>(xs: seq<T>, f: T -> nat, q: nat, ys: seq<T>) {
    && Start(xs, f, q + 1) <= |ys|
    && ys[Start(xs, f, q)..Start(xs, f, q + 1)] == Select(xs, f, q)
  }

  /** `ys` is `xs` grouped into `n` classes: each class is a contiguous stretch in original order. */
  ghost predicate Grouped<T>(xs: seq<T>, f: T -> nat, n: nat, ys: seq<T>) {
    && |ys| == |xs|
    && forall q: nat :: q < n ==> ClassAt(xs, f, q, ys)
  }

  lemma {:induction false} SelectPrefix<T>(xs: seq<T>, f: T -> nat, q: nat, i: nat)
    requires i < |xs|
    ensures Select(xs[..i + 1], f, q) == Select(xs[..i], f, q) + (if f(xs[i]) == q then [xs[i]] else [])
  {
    assert xs[..i + 1][..i] == xs[..i];
  }

  lemma {:induction false} SelectLengthMonotone<T>(xs: seq<T>, f: T -> nat, q: nat, i: nat)
    requires i <= |xs|
    ensures |Select(xs[..i], f, q)| <= |Select(xs, f, q)|
    decreases |xs| - i
  {
    if i == |xs| {
      assert xs[..i] == xs;
    } else {
      SelectPrefix(xs, f, q, i);
      SelectLengthMonotone(xs, f, q, i + 1);
    }
  }

  lemma {:induction false} StartMonotone<T>(xs: seq<T>, f: T -> nat, p: nat, q: nat)
    requires p <= q
    ensures Start(xs, f, p) <= Start(xs, f, q)
    decreases q
  {
    if p < q {
      StartMonotone(xs, f, p, q - 1);
    }
  }

  lemma {:induction false} StartPrefix<T>(xs: seq<T>, f: T -> nat, q: nat, i: nat)
    requires i < |xs|
    ensures Start(xs[..i + 1], f, q) == Start(xs[..i], f, q) + (if f(xs[i]) < q then 1 else 0)
  {
    if q > 0 {
      StartPrefix(xs, f, q - 1, i);
      SelectPrefix(xs, f, q - 1, i);
    }
  }

  lemma {:induction false} StartEmpty<T>(f: T -> nat, q: nat)
    ensures Start<T>([], f, q) == 0
  {
    if q > 0 {
      StartEmpty<T>(f, q - 1);
    }
  }

  /** When `f` classifies into fewer than `n` classes, the classes account for every element. */
  lemma {:induction false} StartTotal<T>(xs: seq<T>, f: T -> nat, n: nat, i: nat)
    requires i <= |xs|
    requires forall k :: 0 <= k < i ==> f(xs[k]) < n
    ensures Start(xs[..i], f, n) == i
  {
    if i == 0 {
      assert xs[..0] == [];
      StartEmpty<T>(f, n);
    } else {
      StartTotal(xs, f, n, i - 1);
      StartPrefix(xs, f, n, i - 1);
    }
  }

  lemma {:induction false} StartWhole<T>(xs: seq<T>, f: T -> nat, n: nat)
    requires forall k :: 0 <= k < |xs| ==> f(xs[k]) < n
    ensures Start(xs, f, n) == |xs|
  {
    StartTotal(xs, f, n, |xs|);
    assert xs[..|xs|] == xs;
  }

  /** Select keeps exactly the elements of its class, with their multiplicity. */
  lemma {:induction false} SelectCount<T>(xs: seq<T>, f: T -> nat, q: nat, x: T)
    ensures multiset(Select(xs, f, q))[x] == if f(x) == q then multiset(xs)[x] else 0
  {
    if xs != [] {
      var pre, last := xs[..|xs| - 1], xs[|xs| - 1];
      SelectCount(pre, f, q, x);
      assert xs == pre + [last];
    }
  }

  lemma {:induction false} SelectMembers<T>(xs: seq<T>, f: T -> nat, q: nat)
    ensures forall x :: x in Select(xs, f, q) <==> x in xs && f(x) == q
  {
    forall x ensures x in Select(xs, f, q) <==> x in xs && f(x) == q {
      SelectCount(xs, f, q, x);
      assert x in Select(xs, f, q) <==> x in multiset(Select(xs, f, q));
      assert x in xs <==> x in multiset(xs);
    }
  }

  /** The position the element at `i` is placed at. */
  function Slot<T>(xs: seq<T>, f: T -> nat, i: nat): nat
    requires i < |xs|
  {
    Start(xs, f, f(xs[i])) + |Select(xs[..i], f, f(xs[i]))|
  }

  /** The element placed next falls inside its own class's stretch... */
  lemma {:induction false} SlotInClass<T>(xs: seq<T>, f: T -> nat, i: nat)
    requires i < |xs|
    ensures Start(xs, f, f(xs[i])) <= Slot(xs, f, i) < Start(xs, f, f(xs[i]) + 1)
  {
    var q := f(xs[i]);
    SelectPrefix(xs, f, q, i);
    SelectLengthMonotone(xs, f, q, i + 1);
  }

  /** ...and a position inside one class's stretch is outside every other one's. */
  lemma {:induction false} ClassesDisjoint<T>(xs: seq<T>, f: T -> nat, q: nat, p: nat, at: nat)
    requires Start(xs, f, q) <= at < Start(xs, f, q + 1) && p != q
    ensures at < Start(xs, f, p) || Start(xs, f, p + 1) <= at
  {
    var p', q' := p + 1, q + 1;
    if p' <= q {
      StartMonotone(xs, f, p', q);
    } else {
      StartMonotone(xs, f, q', p);
    }
  }

  /** Classes `lo` up to `hi`, one after the other. */
  function SelectRange<T>(xs: seq<T>, f: T -> nat, lo: nat, hi: nat): seq<T>
    requires lo <= hi
    decreases hi
  {
    if lo == hi then [] else SelectRange(xs, f, lo, hi - 1) + Select(xs, f, hi - 1)
  }

  lemma {:induction false} JoinSlices<T>(ys: seq<T>, a: nat, b: nat, c: nat, front: seq<T>, back: seq<T>)
    requires a <= b <= c <= |ys| && ys[a..b] == front && ys[b..c] == back
    ensures ys[a..c] == front + back
  {
    assert ys[a..c] == ys[a..b] + ys[b..c];
  }

  /** Neighbouring classes of a grouped sequence form one contiguous stretch. */
  lemma {:induction false} GroupedRange<T>(xs: seq<T>, f: T -> nat, n: nat, ys: seq<T>, lo: nat, hi: nat)
    requires Grouped(xs, f, n, ys)
    requires lo <= hi <= n && Start(xs, f, n) == |xs|
    ensures Start(xs, f, lo) <= Start(xs, f, hi) <= |ys|
    ensures ys[Start(xs, f, lo)..Start(xs, f, hi)] == SelectRange(xs, f, lo, hi)
    decreases hi
  {
    if lo == hi {
      StartMonotone(xs, f, hi, n);
    } else {
      var h := hi - 1;
      GroupedRange(xs, f, n, ys, lo, h);
      assert ClassAt(xs, f, h, ys);
      var a, b, c := Start(xs, f, lo), Start(xs, f, h), Start(xs, f, hi);
      JoinSlices(ys, a, b, c, SelectRange(xs, f, lo, h), Select(xs, f, h));
    }
  }

  lemma {:induction false} AppendCount<T>(a: seq<T>, b: seq<T>, x: T)
    ensures multiset(a + b)[x] == multiset(a)[x] + multiset(b)[x]
  {
  }

  /** The number of positions that hold x. */
  ghost function Occurrences<T>(xs: seq<T>, x: T): nat {
    if xs == [] then 0 else Occurrences(xs[..|xs| - 1], x) + (if xs[|xs| - 1] == x then 1 else 0)
  }

  lemma {:induction false} OccurrencesAppend<T>(a: seq<T>, b: seq<T>, x: T)
    ensures Occurrences(a + b, x) == Occurrences(a, x) + Occurrences(b, x)
  {
    if b == [] {
      assert a + b == a;
    } else {
      var b' := b[..|b| - 1];
      assert (a + b)[..|a + b| - 1] == a + b';
      OccurrencesAppend(a, b', x);
    }
  }

  lemma {:induction false} OccurrencesCount<T>(xs: seq<T>, x: T)
    ensures Occurrences(xs, x) == multiset(xs)[x]
  {
    if xs != [] {
      var pre, last := xs[..|xs| - 1], xs[|xs| - 1];
      OccurrencesCount(pre, x);
      assert xs == pre + [last];
    }
  }

  lemma {:induction false} SelectOccurrences<T>(xs: seq<T>, f: T -> nat, q: nat, x: T)
    ensures Occurrences(Select(xs, f, q), x) == if f(x) == q then Occurrences(xs, x) else 0
  {
    if xs != [] {
      var pre, last := xs[..|xs| - 1], xs[|xs| - 1];
      var chosen := Select(pre, f, q);
      SelectOccurrences(pre, f, q, x);
      assert (chosen + [last])[..|chosen|] == chosen;
      assert chosen + [] == chosen;
    }
  }

  lemma {:induction false} SelectRangeOccurrences<T>(xs: seq<T>, f: T -> nat, lo: nat, hi: nat, x: T)
    requires lo <= hi
    ensures Occurrences(SelectRange(xs, f, lo, hi), x) == if lo <= f(x) < hi then Occurrences(xs, x) else 0
    decreases hi
  {
    if lo < hi {
      var h := hi - 1;
      var front, back := SelectRange(xs, f, lo, h), Select(xs, f, h);
      SelectRangeOccurrences(xs, f, lo, h, x);
      SelectOccurrences(xs, f, h, x);
      OccurrencesAppend(front, back, x);
      assert SelectRange(xs, f, lo, hi) == front + back;
    }
  }

  lemma {:induction false} SelectRangeCount<T>(xs: seq<T>, f: T -> nat, lo: nat, hi: nat, x: T)
    requires lo <= hi
    ensures multiset(SelectRange(xs, f, lo, hi))[x] == if lo <= f(x) < hi then multiset(xs)[x] else 0
  {
    SelectRangeOccurrences(xs, f, lo, hi, x);
    OccurrencesCount(xs, x);
    OccurrencesCount(SelectRange(xs, f, lo, hi), x);
  }

  /** Looking at one more element adds one to its own class's count and changes no other. */
  lemma {:induction false} CountAfter<T>(xs: seq<T>, f: T -> nat, n: nat, i: nat)
    requires i < |xs|
    ensures
      var seen, seen' := xs[..i], xs[..i + 1];
      forall p: nat :: p < n ==> |Select(seen', f, p)| == |Select(seen, f, p)| + (if p == f(xs[i]) then 1 else 0)
  {
    var seen, seen' := xs[..i], xs[..i + 1];
    forall p: nat | p < n ensures |Select(seen', f, p)| == |Select(seen, f, p)| + (if p == f(xs[i]) then 1 else 0) {
      SelectPrefix(xs, f, p, i);
    }
  }

  /** After placing the first `i` elements, class `p`'s stretch starts with the ones of them in class `p`. */
  ghost predicate Placed<T>(xs: seq<T>, f: T -> nat, i: nat, p: nat, ys: seq<T>)
    requires i <= |xs|
  {
    var start, done := Start(xs, f, p), Select(xs[..i], f, p);
    && start + |done| <= |ys|
    && ys[start..start + |done|] == done
  }

  lemma {:induction false} PlaceStep<T>(xs: seq<T>, f: T -> nat, i: nat, p: nat, before: seq<T>, after: seq<T>)
    requires i < |xs| == |before|
    requires Slot(xs, f, i) < |before|
    requires after == before[Slot(xs, f, i) := xs[i]]
    requires Placed(xs, f, i, p, before)
    ensures Placed(xs, f, i + 1, p, after)
  {
    var at := Slot(xs, f, i);
    var start := Start(xs, f, p);
    var done := Select(xs[..i], f, p);
    SelectPrefix(xs, f, p, i);
    if f(xs[i]) == p {
      assert at == start + |done|;
      assert after[start..at] == before[start..at];
      assert after[start..at + 1] == after[start..at] + [after[at]];
    } else {
      SlotInClass(xs, f, i);
      ClassesDisjoint(xs, f, f(xs[i]), p, at);
      SelectLengthMonotone(xs, f, p, i);
      assert at < start || start + |done| <= at;
      assert after[start..start + |done|] == before[start..start + |done|];
    }
  }

  lemma {:induction false} PlaceStepAll<T>(xs: seq<T>, f: T -> nat, n: nat, i: nat, before: seq<T>, after: seq<T>)
    requires i < |xs| == |before|
    requires Slot(xs, f, i) < |before|
    requires after == before[Slot(xs, f, i) := xs[i]]
    requires forall p: nat :: p < n ==> Placed(xs, f, i, p, before)
    ensures
      var i' := i + 1;
      forall p: nat :: p < n ==> Placed(xs, f, i', p, after)
  {
    var i' := i + 1;
    forall p: nat | p < n ensures Placed(xs, f, i', p, after) {
      PlaceStep(xs, f, i, p, before, after);
    }
  }

  lemma {:induction false} SlotInside<T>(xs: seq<T>, f: T -> nat, n: nat, i: nat)
    requires i < |xs|
    requires forall k :: 0 <= k < |xs| ==> f(xs[k]) < n
    ensures Slot(xs, f, i) < |xs|
  {
    var q := f(xs[i]) + 1;
    SlotInClass(xs, f, i);
    StartMonotone(xs, f, q, n);
    StartWhole(xs, f, n);
  }

  lemma {:induction false} NothingPlaced<T>(xs: seq<T>, f: T -> nat, n: nat, ys: seq<T>)
    requires |ys| == |xs| && forall k :: 0 <= k < |xs| ==> f(xs[k]) < n
    ensures forall p: nat :: p < n ==> Placed(xs, f, 0, p, ys)
  {
    forall p: nat | p < n ensures Placed(xs, f, 0, p, ys) {
      StartMonotone(xs, f, p, n);
      StartWhole(xs, f, n);
    }
  }

  lemma {:induction false} AllPlaced<T>(xs: seq<T>, f: T -> nat, n: nat, ys: seq<T>)
    requires |ys| == |xs| && forall p: nat :: p < n ==> Placed(xs, f, |xs|, p, ys)
    ensures Grouped(xs, f, n, ys)
  {
    assert xs[..|xs|] == xs;
    forall p: nat | p < n ensures ClassAt(xs, f, p, ys) {
      assert Placed(xs, f, |xs|, p, ys);
    }
  }

  /** The placing pass: `next[p]` is where class `p`'s next element goes. It starts at the class's
      start and ends at its end. */
  method Place<T>(xs: seq<T>, f: T -> nat, n: nat, next: array<nat>, out: array<T>)
    requires next.Length == n && out.Length == |xs|
    requires forall k :: 0 <= k < |xs| ==> f(xs[k]) < n
    requires forall p: nat :: p < n ==> next[p] == Start(xs, f, p)
    requires next as object != out
    modifies next, out
    ensures Grouped(xs, f, n, out[..])
    ensures forall p: nat :: p < n ==> next[p] == Start(xs, f, p) + |Select(xs, f, p)|
  {
    NothingPlaced(xs, f, n, out[..]);
    for i := 0 to |xs|
      invariant forall p: nat :: p < n ==> next[p] == Start(xs, f, p) + |Select(xs[..i], f, p)|
      invariant forall p: nat :: p < n ==> Placed(xs, f, i, p, out[..])
    {
      var q := f(xs[i]);
      SlotInside(xs, f, n, i);
      ghost var before := out[..];
      out[next[q]] := xs[i];
      PlaceStepAll(xs, f, n, i, before, out[..]);
      CountAfter(xs, f, n, i);
      next[q] := next[q] + 1;
    }
    AllPlaced(xs, f, n, out[..]);
    assert xs[..|xs|] == xs;
  }
}
