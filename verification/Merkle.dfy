/** Merkle roots over a symbolic hash: `Leaf` for a transaction id and `Node` for the
    hash of two children. Distinct terms are distinct hashes, and a leaf is never a
    node: collision freedom and domain separation are assumptions of the model, built
    into the datatype. The rule at every level is Bitcoin's: an odd last element is
    paired with itself. */
module Merkle {
  import opened Common

  /** Transaction ids are only compared. */
  type TxId = int

  datatype H = Leaf(id: TxId) | Node(left: H, right: H)

  /** One level up. */
  function Up(xs: seq<H>): (ys: seq<H>)
    ensures |ys| == (|xs| + 1) / 2
  {
    if |xs| == 0 then []
    else if |xs| == 1 then [Node(xs[0], xs[0])]
    else [Node(xs[0], xs[1])] + Up(xs[2..])
  }

  /** The merkle root of a non-empty list. */
  function Root(xs: seq<H>): H
    requires xs != []
    decreases |xs|
  {
    if |xs| == 1 then xs[0] else Root(Up(xs))
  }

  /** The height of the tree over n leaves: the logarithm rounded up. */
  function Levels(n: nat): nat {
    if n <= 1 then 0 else 1 + Levels((n + 1) / 2)
  }

  /** A root raised n levels by pairing it with itself. */
  function Lift(r: H, n: nat): H
    decreases n
  {
    if n == 0 then r else Lift(Node(r, r), n - 1)
  }

  function UpN(xs: seq<H>, n: nat): seq<H>
    decreases n
  {
    if n == 0 then xs else UpN(Up(xs), n - 1)
  }

  function Leaves(ids: seq<TxId>): seq<H> {
    seq(|ids|, i requires 0 <= i < |ids| => Leaf(ids[i]))
  }

  // ------------------------------------------------------------ composition

  lemma {:induction false} UpAt(xs: seq<H>, i: nat)
    requires i < |Up(xs)|
    ensures 2 * i < |xs|
    ensures Up(xs)[i] == Node(xs[2 * i], if 2 * i + 1 < |xs| then xs[2 * i + 1] else xs[2 * i])
  {
    if |xs| >= 2 && i > 0 {
      var rest := xs[2..];
      UpAt(rest, i - 1);
    }
  }

  lemma {:induction false} UpAppend(a: seq<H>, b: seq<H>)
    requires |a| % 2 == 0
    ensures Up(a + b) == Up(a) + Up(b)
  {
    if a == [] {
      assert a + b == b;
    } else {
      assert (a + b)[2..] == a[2..] + b;
      UpAppend(a[2..], b);
    }
  }

  lemma {:induction false} UpNAppend(a: seq<H>, b: seq<H>, h: nat)
    requires |a| == Pow2(h)
    ensures UpN(a + b, h) == UpN(a, h) + UpN(b, h)
    decreases h
  {
    if h > 0 {
      UpAppend(a, b);
      UpNAppend(Up(a), Up(b), h - 1);
    }
  }

  /** Up to 2^h elements, raised h levels, give one: their root lifted to height h. */
  lemma {:induction false} UpNShort(xs: seq<H>, h: nat)
    requires 1 <= |xs| <= Pow2(h)
    ensures Levels(|xs|) <= h
    ensures UpN(xs, h) == [Lift(Root(xs), h - Levels(|xs|))]
    decreases h
  {
    if h > 0 {
      UpNShort(Up(xs), h - 1);
      if |xs| == 1 {
        assert Up(xs) == [Node(xs[0], xs[0])];
      }
    }
  }

  lemma {:induction false} LevelsOfPow2(h: nat)
    ensures Levels(Pow2(h)) == h
  {
    if h > 0 {
      LevelsOfPow2(h - 1);
      assert (Pow2(h) + 1) / 2 == Pow2(h - 1);
    }
  }

  lemma {:induction false} RootOfUpN(xs: seq<H>, h: nat)
    requires |xs| > Pow2(h)
    ensures UpN(xs, h) != [] && Root(xs) == Root(UpN(xs, h))
    decreases h
  {
    if h > 0 {
      RootOfUpN(Up(xs), h - 1);
    }
  }

  function Concat<T>(parts: seq<seq<T>>): seq<T> {
    if parts == [] then [] else parts[0] + Concat(parts[1..])
  }

  /** Every part but the last has 2^h elements, the last between one and 2^h. */
  ghost predicate Tiled(parts: seq<seq<H>>, h: nat) {
    && |parts| >= 1
    && (forall i :: 0 <= i < |parts| - 1 ==> |parts[i]| == Pow2(h))
    && 1 <= |parts[|parts| - 1]| <= Pow2(h)
  }

  /** The roots of the parts, with a short last one lifted to height h. */
  function PartRoots(parts: seq<seq<H>>, h: nat): seq<H>
    requires forall i :: 0 <= i < |parts| ==> parts[i] != [] && Levels(|parts[i]|) <= h
  {
    seq(|parts|, i requires 0 <= i < |parts| => Lift(Root(parts[i]), h - Levels(|parts[i]|)))
  }

  lemma PartRootAt(parts: seq<seq<H>>, h: nat, i: nat) returns (n: nat)
    requires (forall k :: 0 <= k < |parts| ==> parts[k] != [] && Levels(|parts[k]|) <= h) && i < |parts|
    ensures |PartRoots(parts, h)| == |parts| && PartRoots(parts, h)[i] == Lift(Root(parts[i]), n)
  {
    n := h - Levels(|parts[i]|);
  }

  lemma {:induction false} TiledHeights(parts: seq<seq<H>>, h: nat)
    requires Tiled(parts, h)
    ensures forall i :: 0 <= i < |parts| ==> parts[i] != [] && Levels(|parts[i]|) <= h
  {
    forall i | 0 <= i < |parts| ensures parts[i] != [] && Levels(|parts[i]|) <= h {
      assert i < |parts| - 1 ==> |parts[i]| == Pow2(h);
      UpNShort(parts[i], h);
    }
  }

  lemma {:induction false} FirstPartRoot(parts: seq<seq<H>>, h: nat)
    requires parts != [] && forall i :: 0 <= i < |parts| ==> parts[i] != [] && Levels(|parts[i]|) <= h
    ensures PartRoots(parts, h) == [Lift(Root(parts[0]), h - Levels(|parts[0]|))] + PartRoots(parts[1..], h)
  {
  }

  lemma {:induction false} UpNOfTiles(parts: seq<seq<H>>, h: nat)
    requires Tiled(parts, h)
    requires forall i :: 0 <= i < |parts| ==> parts[i] != [] && Levels(|parts[i]|) <= h
    ensures UpN(Concat(parts), h) == PartRoots(parts, h)
  {
    var first, rest := parts[0], parts[1..];
    if |parts| == 1 {
      assert Concat(rest) == [] && Concat(parts) == first;
      UpNShort(first, h);
    } else {
      UpNOfTiles(rest, h);
      assert |first| == Pow2(h);
      UpNAppend(first, Concat(rest), h);
      UpNShort(first, h);
      FirstPartRoot(parts, h);
    }
  }

  lemma {:induction false} TiledLength(parts: seq<seq<H>>, h: nat)
    requires Tiled(parts, h) && |parts| >= 2
    ensures |Concat(parts)| > Pow2(h)
  {
    var rest := parts[1..];
    assert Concat(rest) == rest[0] + Concat(rest[1..]);
    assert rest[0] == parts[1];
    assert 1 < |parts| - 1 ==> |parts[1]| == Pow2(h);
  }

  /** Composing the part roots, the short last one lifted, gives the flat root of the whole list. */
  lemma {:induction false} ComposeIsFlat(parts: seq<seq<H>>, h: nat)
    requires Tiled(parts, h) && |parts| >= 2
    ensures forall i :: 0 <= i < |parts| ==> parts[i] != [] && Levels(|parts[i]|) <= h
    ensures Concat(parts) != []
    ensures Root(Concat(parts)) == Root(PartRoots(parts, h))
  {
    TiledHeights(parts, h);
    TiledLength(parts, h);
    UpNOfTiles(parts, h);
    RootOfUpN(Concat(parts), h);
  }

  // ------------------------------------------------------------ the root determines the list

  /** No element is repeated at positions after the first. */
  ghost predicate TailDistinct(xs: seq<H>) {
    forall i, j :: 1 <= i < j < |xs| ==> xs[i] != xs[j]
  }

  /** How far down the left spine a leaf lies. */
  function Depth(t: H): nat {
    match t
    case Leaf(_) => 0
    case Node(l, _) => 1 + Depth(l)
  }

  ghost predicate SameDepth(xs: seq<H>, d: nat) {
    forall i :: 0 <= i < |xs| ==> Depth(xs[i]) == d
  }

  lemma {:induction false} UpDepth(xs: seq<H>, d: nat)
    requires SameDepth(xs, d)
    ensures SameDepth(Up(xs), d + 1)
  {
    forall i | 0 <= i < |Up(xs)| ensures Depth(Up(xs)[i]) == d + 1 {
      UpAt(xs, i);
    }
  }

  lemma {:induction false} RootDepth(xs: seq<H>, d: nat)
    requires xs != [] && SameDepth(xs, d)
    ensures if |xs| == 1 then Depth(Root(xs)) == d else Depth(Root(xs)) > d
    decreases |xs|
  {
    if |xs| > 1 {
      UpDepth(xs, d);
      RootDepth(Up(xs), d + 1);
    }
  }

  lemma {:induction false} UpTailDistinct(xs: seq<H>)
    requires TailDistinct(xs)
    ensures TailDistinct(Up(xs))
  {
    var ys := Up(xs);
    forall i, j | 1 <= i < j < |ys| ensures ys[i] != ys[j] {
      UpAt(xs, i);
      UpAt(xs, j);
    }
  }

  /** Lists of at least two elements that agree one level up and repeat nothing after the first
      element are equal: the duplicated last element cannot hide a longer list. */
  lemma {:induction false} UpInjective(xs: seq<H>, ys: seq<H>)
    requires |xs| >= 2 && |ys| >= 2 && Up(xs) == Up(ys) && TailDistinct(xs) && TailDistinct(ys)
    ensures xs == ys
  {
    SameLengthBelow(xs, ys);
    SameLengthBelow(ys, xs);
    forall i | 0 <= i < |xs| ensures xs[i] == ys[i] {
      UpAt(xs, i / 2);
      UpAt(ys, i / 2);
    }
  }

  lemma {:induction false} SameLengthBelow(xs: seq<H>, ys: seq<H>)
    requires |xs| >= 2 && |ys| >= 2 && Up(xs) == Up(ys) && TailDistinct(ys)
    ensures |xs| >= |ys|
  {
    var last := |Up(xs)| - 1;
    UpAt(xs, last);
    UpAt(ys, last);
  }

  /** The merkle root of a list that repeats nothing after its first element determines the list. */
  lemma {:induction false} RootDetermines(xs: seq<H>, ys: seq<H>, d: nat)
    requires xs != [] && ys != [] && SameDepth(xs, d) && SameDepth(ys, d)
    requires TailDistinct(xs) && TailDistinct(ys) && Root(xs) == Root(ys)
    ensures xs == ys
    decreases |xs|
  {
    RootDepth(xs, d);
    RootDepth(ys, d);
    if |xs| > 1 {
      UpDepth(xs, d);
      UpDepth(ys, d);
      UpTailDistinct(xs);
      UpTailDistinct(ys);
      RootDetermines(Up(xs), Up(ys), d + 1);
      UpInjective(xs, ys);
    }
  }

  /** Lists of one length with the same root are equal, whatever they repeat. */
  lemma {:induction false} RootSameLength(xs: seq<H>, ys: seq<H>)
    requires xs != [] && |xs| == |ys| && Root(xs) == Root(ys)
    ensures xs == ys
    decreases |xs|
  {
    if |xs| > 1 {
      RootSameLength(Up(xs), Up(ys));
      forall i | 0 <= i < |xs| ensures xs[i] == ys[i] {
        UpAt(xs, i / 2);
        UpAt(ys, i / 2);
      }
    }
  }

  lemma {:induction false} LiftInjective(r: H, t: H, n: nat)
    requires Lift(r, n) == Lift(t, n)
    ensures r == t
    decreases n
  {
    if n > 0 {
      LiftInjective(Node(r, r), Node(t, t), n - 1);
    }
  }

  lemma {:induction false} LeavesInjective(xs: seq<TxId>, ys: seq<TxId>)
    requires Leaves(xs) == Leaves(ys)
    ensures xs == ys
  {
    assert |Leaves(xs)| == |Leaves(ys)|;
    forall i | 0 <= i < |xs| ensures xs[i] == ys[i] {
      assert Leaves(xs)[i] == Leaves(ys)[i];
    }
  }

  ghost predicate TailDistinctIds(xs: seq<TxId>) {
    forall i, j :: 1 <= i < j < |xs| ==> xs[i] != xs[j]
  }

  /** Two transaction lists with the same merkle root, neither repeating a transaction after the
      coinbase, are the same list. */
  lemma {:induction false} IdsDetermined(xs: seq<TxId>, ys: seq<TxId>)
    requires xs != [] && ys != [] && TailDistinctIds(xs) && TailDistinctIds(ys)
    requires Root(Leaves(xs)) == Root(Leaves(ys))
    ensures xs == ys
  {
    RootDetermines(Leaves(xs), Leaves(ys), 0);
    LeavesInjective(xs, ys);
  }

  /** Without the duplicate scan the root does not determine the list (CVE-2012-2459): repeating the
      last transaction of an odd list gives the same root. */
  lemma {:induction false} DuplicatedTailSameRoot(xs: seq<H>)
    requires |xs| % 2 == 1 && |xs| >= 3
    ensures Root(xs) == Root(xs + [xs[|xs| - 1]])
  {
    var a, x := xs[..|xs| - 1], xs[|xs| - 1];
    assert xs == a + [x];
    assert xs + [x] == a + [x, x];
    UpAppend(a, [x]);
    UpAppend(a, [x, x]);
    assert Up([x]) == [Node(x, x)] == Up([x, x]);
  }

  // ------------------------------------------------------------ the ends of a tree

  function Leftmost(t: H): TxId {
    match t
    case Leaf(id) => id
    case Node(l, _) => Leftmost(l)
  }

  function Rightmost(t: H): TxId {
    match t
    case Leaf(id) => id
    case Node(_, r) => Rightmost(r)
  }

  lemma {:induction false} RootEnds(xs: seq<H>)
    requires xs != []
    ensures Leftmost(Root(xs)) == Leftmost(xs[0]) && Rightmost(Root(xs)) == Rightmost(xs[|xs| - 1])
    decreases |xs|
  {
    if |xs| > 1 {
      RootEnds(Up(xs));
      UpAt(xs, 0);
      UpAt(xs, |Up(xs)| - 1);
    }
  }

  lemma {:induction false} LiftEnds(r: H, n: nat)
    ensures Leftmost(Lift(r, n)) == Leftmost(r) && Rightmost(Lift(r, n)) == Rightmost(r)
    decreases n
  {
    if n > 0 {
      LiftEnds(Node(r, r), n - 1);
    }
  }
}
