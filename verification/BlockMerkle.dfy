/** Binding a block's body to its header: CheckMerkleRoot and blockMerkleRoot
    (model/Block.go), the subtree shape rules and the top-level composition
    (model/subtree_body_shape.go), the early binding check and the duplicate scan
    (model/check_duplicate_txs.go). */
module BlockMerkle {
  import opened Common
  import opened Merkle

  /** A loaded subtree: its transaction ids, and the root its file claims, if it was read from one. */
  datatype Subtree = Subtree(nodes: seq<TxId>, claimed: Option<H>) {
    /** RootHash: the claim of the file for a subtree read from storage, the tree's root otherwise. */
    function RootHash(): Option<H> {
      if nodes == [] then None
      else if claimed.Some? then claimed
      else Some(Root(Leaves(nodes)))
    }

    function Length(): nat { |nodes| }

    function Height(): nat { Levels(|nodes|) }

    /** RootHashWithReplaceRootNode: recomputed with the coinbase in the first place. */
    function RootWithCoinbase(coinbase: TxId): Option<H> {
      if nodes == [] then None else Some(Root(Leaves(nodes[0 := coinbase])))
    }

    /** RootHashPadded: the root raised to a height at least its own. */
    function RootPadded(height: nat): Option<H> {
      if RootHash().None? || height < Height() then None
      else Some(Lift(RootHash().value, height - Height()))
    }

    /** The claim, when there is one, is the root of the nodes. */
    predicate Honest() {
      nodes != [] && claimed.Some? ==> claimed.value == Root(Leaves(nodes))
    }
  }

  datatype Verdict = Accepted | Corrupt | Processing | Storage

  datatype RootResult = Computed(root: H) | Rejected(verdict: Verdict)

  predicate IsPowerOfTwo(n: nat) {
    exists h: nat :: h <= n && n == Pow2(h)
  }

  /** CheckSubtreeShape, for one subtree. */
  predicate ShapeOk(idx: nat, length: nat, target: nat, isLast: bool) {
    && (idx == 0 ==> IsPowerOfTwo(target))
    && (!isLast ==> length == target)
    && (isLast ==> length <= target)
  }

  // ------------------------------------------------------------ the shape loop

  /** What the walk over the subtrees from index i on says: the first complaint, if any. */
  function ShapeFrom(slices: seq<Option<Subtree>>, i: nat, target: nat, allLoaded: bool): Verdict
    requires i <= |slices|
    decreases |slices| - i
  {
    if i == |slices| then Accepted
    else if slices[i].None? then
      if !allLoaded && i != |slices| - 1 then ShapeFrom(slices, i + 1, target, allLoaded) else Processing
    else if !ShapeOk(i, slices[i].value.Length(), target, i == |slices| - 1) then Corrupt
    else ShapeFrom(slices, i + 1, target, allLoaded)
  }

  method CheckShapes(slices: seq<Option<Subtree>>, target: nat, allLoaded: bool) returns (v: Verdict)
    ensures v == ShapeFrom(slices, 0, target, allLoaded)
    ensures v == Accepted <==>
      && (forall k :: 0 <= k < |slices| && slices[k].Some? ==>
        ShapeOk(k, slices[k].value.Length(), target, k == |slices| - 1))
      && (forall k :: 0 <= k < |slices| && slices[k].None? ==> !allLoaded && k != |slices| - 1)
  {
    ShapeMeaning(slices, 0, target, allLoaded);
    for i := 0 to |slices|
      invariant ShapeFrom(slices, 0, target, allLoaded) == ShapeFrom(slices, i, target, allLoaded)
    {
      if slices[i].None? {
        if !allLoaded && i != |slices| - 1 {
          continue;
        }
        return Processing;
      }
      if !ShapeOk(i, slices[i].value.Length(), target, i == |slices| - 1) {
        return Corrupt;
      }
    }
    return Accepted;
  }

  /** The walk accepts exactly when every loaded subtree has its shape and only allowed ones are missing. */
  lemma {:induction false} ShapeMeaning(slices: seq<Option<Subtree>>, i: nat, target: nat, allLoaded: bool)
    requires i <= |slices|
    ensures ShapeFrom(slices, i, target, allLoaded) == Accepted <==>
      && (forall k :: i <= k < |slices| && slices[k].Some? ==>
        ShapeOk(k, slices[k].value.Length(), target, k == |slices| - 1))
      && (forall k :: i <= k < |slices| && slices[k].None? ==> !allLoaded && k != |slices| - 1)
    decreases |slices| - i
  {
    if i < |slices| {
      ShapeMeaning(slices, i + 1, target, allLoaded);
    }
  }

  // ------------------------------------------------------------ the top-level composition

  ghost predicate Distinct<T>(xs: seq<T>) {
    forall i, j :: 0 <= i < j < |xs| ==> xs[i] != xs[j]
  }

  /** ComposeSubtreeRootsToMerkleRoot: a repeated root is rejected, otherwise the root over the roots. */
  ghost function Composed(roots: seq<H>): RootResult
    requires roots != []
  {
    if Distinct(roots) then Computed(Root(roots)) else Rejected(Corrupt)
  }

  method ComposeRoots(roots: seq<H>) returns (r: RootResult)
    requires roots != []
    ensures r == Composed(roots)
  {
    var seen: set<H> := {};
    for i := 0 to |roots|
      invariant seen == set k | 0 <= k < i :: roots[k]
      invariant Distinct(roots[..i])
    {
      if roots[i] in seen {
        return Rejected(Corrupt);
      }
      seen := seen + {roots[i]};
    }
    assert roots[..|roots|] == roots;
    return Computed(Root(roots));
  }

  /** blockMerkleRoot. hashes[0] carries the coinbase already. */
  ghost function MerkleRoot(hashes: seq<H>, slices: seq<Option<Subtree>>, allLoaded: bool): RootResult
    requires |hashes| == |slices| >= 1
  {
    if |hashes| == 1 then Computed(hashes[0])
    else if slices[0].None? then Rejected(Processing)
    else
      var target, height := slices[0].value.Length(), slices[0].value.Height();
      var shape := ShapeFrom(slices, 0, target, allLoaded);
      if shape != Accepted then Rejected(shape)
      else
        var last := slices[|slices| - 1];
        if last.None? then Rejected(Processing)
        else if last.value.Length() < target then
          if last.value.RootPadded(height).None? then Rejected(Processing)
          else Composed(hashes[|hashes| - 1 := last.value.RootPadded(height).value])
        else Composed(hashes)
  }

  method BlockMerkleRoot(hashes: seq<H>, slices: seq<Option<Subtree>>, allLoaded: bool) returns (r: RootResult)
    requires |hashes| == |slices| >= 1
    ensures r == MerkleRoot(hashes, slices, allLoaded)
  {
    if |hashes| == 1 {
      return Computed(hashes[0]);
    }
    if slices[0].None? {
      return Rejected(Processing);
    }
    var target, height := slices[0].value.Length(), slices[0].value.Height();
    var shape := CheckShapes(slices, target, allLoaded);
    if shape != Accepted {
      return Rejected(shape);
    }
    var last := slices[|slices| - 1];
    if last.None? {
      return Rejected(Processing);
    }
    var roots := hashes;
    if last.value.Length() < target {
      var lifted := last.value.RootPadded(height);
      if lifted.None? {
        return Rejected(Processing);
      }
      roots := roots[|roots| - 1 := lifted.value];
    }
    r := ComposeRoots(roots);
  }

  // ------------------------------------------------------------ the two checks

  /** A block as the checks see it: the header's merkle root, the coinbase, the subtree keys and the
      loaded subtrees (None for one that was released). */
  datatype Block = Block(merkleRoot: H, coinbase: TxId, keys: seq<H>, slices: seq<Option<Subtree>>)

  /** The root a subtree contributes at its position. */
  function SubtreeRoot(b: Block, i: nat): Option<H>
    requires i < |b.slices|
  {
    if b.slices[i].None? then None
    else if i == 0 then b.slices[0].value.RootWithCoinbase(b.coinbase)
    else b.slices[i].value.RootHash()
  }

  function Values(os: seq<Option<H>>): seq<H>
    requires forall i :: 0 <= i < |os| ==> os[i].Some?
  {
    seq(|os|, i requires 0 <= i < |os| => os[i].value)
  }

  function SubtreeRoots(b: Block): seq<Option<H>> {
    seq(|b.slices|, i requires 0 <= i < |b.slices| => SubtreeRoot(b, i))
  }

  ghost predicate AllRooted(b: Block) {
    forall i :: 0 <= i < |b.slices| ==> SubtreeRoot(b, i).Some?
  }

  function Judge(r: RootResult, merkleRoot: H): Verdict {
    match r
    case Rejected(v) => v
    case Computed(root) => if root == merkleRoot then Accepted else Corrupt
  }

  ghost function MerkleVerdict(b: Block): Verdict {
    if |b.keys| != |b.slices| then Storage
    else if !AllRooted(b) then Processing
    else if |b.slices| == 0 then Judge(Computed(Leaf(b.coinbase)), b.merkleRoot)
    else
      Judge(MerkleRoot(Values(SubtreeRoots(b)), b.slices, true), b.merkleRoot)
  }

  /** CheckMerkleRoot. It is a storage error exactly when there are more or fewer subtrees than keys, a processing
      error exactly when one of them is missing or empty, and otherwise the body is accepted or corrupt. What it
      accepts hashes to the header exactly when the later subtrees claim their own roots, and of honest bodies it
      accepts exactly those that hash to the header and, when there is more than one subtree, have the right shape
      and no two subtree roots alike. */
  method CheckMerkleRoot(b: Block) returns (v: Verdict)
    ensures v == MerkleVerdict(b)
    ensures v == Storage <==> |b.keys| != |b.slices|
    ensures v == Processing <==> |b.keys| == |b.slices| && !AllFilled(b)
    ensures v == Accepted <==> |b.keys| == |b.slices| && AllFilled(b) && ClaimsBind(b)
    ensures v == Accepted ==> (HashesToHeader(b) <==> AllHonest(b))
    ensures |b.keys| == |b.slices| && AllFilled(b) && AllHonest(b) ==> (v == Accepted <==> BodyBinds(b))
  {
    VerdictMeaning(b);
    if |b.keys| != |b.slices| {
      return Storage;
    }
    var hashes: seq<H> := [];
    for i := 0 to |b.slices|
      invariant |hashes| == i
      invariant forall k :: 0 <= k < i ==> SubtreeRoot(b, k) == Some(hashes[k])
    {
      if b.slices[i].None? {
        assert SubtreeRoot(b, i).None?;
        return Processing;
      }
      var root := if i == 0 then b.slices[0].value.RootWithCoinbase(b.coinbase) else b.slices[i].value.RootHash();
      assert root == SubtreeRoot(b, i);
      if root.None? {
        return Processing;
      }
      hashes := hashes + [root.value];
    }
    if |hashes| == 0 {
      return if Leaf(b.coinbase) == b.merkleRoot then Accepted else Corrupt;
    }
    assert hashes == Values(SubtreeRoots(b));
    var r := BlockMerkleRoot(hashes, b.slices, true);
    return Judge(r, b.merkleRoot);
  }

  ghost predicate AllPresent(b: Block) {
    forall i :: 0 <= i < |b.slices| ==> b.slices[i].Some?
  }

  /** Every subtree is loaded and has nodes. */
  ghost predicate AllFilled(b: Block) {
    forall i :: 0 <= i < |b.slices| ==> b.slices[i].Some? && b.slices[i].value.nodes != []
  }

  /** The flat merkle root of the body's transactions is the header's. */
  ghost predicate HashesToHeader(b: Block) {
    AllPresent(b) && Body(b) != [] && Root(Leaves(Body(b))) == b.merkleRoot
  }

  /** checkBodyBoundToHeader: only the first and last subtrees are at hand, the others contribute
      their keys. */
  ghost function EarlyVerdict(b: Block, placeholder: TxId, first: Option<Subtree>, last: Option<Subtree>): Verdict
    requires |b.keys| >= 1
  {
    if first.None? || first.value.nodes == [] then Processing
    else if first.value.nodes[0] != placeholder then Corrupt
    else
      var root := first.value.RootWithCoinbase(b.coinbase).value;
      var hashes := b.keys[0 := root];
      var slices := seq(|b.keys|, _ => None)[0 := first][|b.keys| - 1 := last];
      Judge(MerkleRoot(hashes, slices, false), b.merkleRoot)
  }

  /** checkBodyBoundToHeader. A missing or empty subtree at either end is a processing error and a first node that
      is no placeholder a corrupt body; otherwise it accepts exactly when the root over what the two subtrees and
      the keys between them give is the header's, with no two alike and the lengths those of a shaped body. */
  method CheckBodyBoundToHeader(b: Block, placeholder: TxId, first: Option<Subtree>, last: Option<Subtree>)
    returns (v: Verdict)
    requires |b.keys| >= 1
    ensures v == EarlyVerdict(b, placeholder, first, last)
    ensures v == Processing <==>
      || !Filled(first)
      || (Starts(first, placeholder) && |b.keys| >= 2 && IsPowerOfTwo(first.value.Length()) && !Filled(last))
    ensures v == Accepted <==> Starts(first, placeholder) && EndsBind(b, first, last)
    ensures v != Storage
  {
    EarlyMeaning(b, placeholder, first, last);
    if first.None? || |first.value.nodes| == 0 {
      return Processing;
    }
    if first.value.nodes[0] != placeholder {
      return Corrupt;
    }
    var root := first.value.RootWithCoinbase(b.coinbase);
    var hashes, slices: seq<Option<Subtree>> := [root.value], [];
    for i := 1 to |b.keys|
      invariant hashes == [root.value] + b.keys[1..i]
    {
      hashes := hashes + [b.keys[i]];
    }
    assert hashes == b.keys[0 := root.value];
    slices := seq(|b.keys|, _ => None);
    slices := slices[0 := first];
    slices := slices[|slices| - 1 := last];
    var r := BlockMerkleRoot(hashes, slices, false);
    return Judge(r, b.merkleRoot);
  }

  ghost predicate Filled(st: Option<Subtree>) {
    st.Some? && st.value.nodes != []
  }

  ghost predicate Starts(first: Option<Subtree>, placeholder: TxId) {
    Filled(first) && first.value.nodes[0] == placeholder
  }

  /** The root the last subtree contributes early: its key when it is full, its own root lifted to the height of
      the others when it is short. */
  function LastRoot(b: Block, h: nat, last: Subtree): Option<H>
    requires |b.keys| >= 1
  {
    if last.Length() == Pow2(h) then Some(b.keys[|b.keys| - 1]) else last.RootPadded(h)
  }

  /** The first subtree, the keys and the last subtree have the header's root. */
  ghost predicate EndsBind(b: Block, first: Option<Subtree>, last: Option<Subtree>)
    requires |b.keys| >= 1 && Filled(first)
  {
    var root := Root(Leaves(first.value.nodes[0 := b.coinbase]));
    if |b.keys| == 1 then root == b.merkleRoot
    else Filled(last) && exists h: nat :: EndsBindAt(b, first.value, last.value, root, h)
  }

  ghost predicate EndsBindAt(b: Block, first: Subtree, last: Subtree, root: H, h: nat)
    requires |b.keys| >= 2
  {
    && first.Length() == Pow2(h) && last.Length() <= Pow2(h) && LastRoot(b, h, last).Some?
    && var roots := [root] + b.keys[1..|b.keys| - 1] + [LastRoot(b, h, last).value];
       Distinct(roots) && Root(roots) == b.merkleRoot
  }

  // ------------------------------------------------------------ acceptance is the flat root

  /** The transactions of the body in block order, the coinbase in the first place. */
  function Body(b: Block): seq<TxId>
    requires forall i :: 0 <= i < |b.slices| ==> b.slices[i].Some?
  {
    var all := Concat(NodeLists(b.slices));
    if all == [] then [b.coinbase] else all[0 := b.coinbase]
  }

  function NodeLists(slices: seq<Option<Subtree>>): seq<seq<TxId>>
    requires forall i :: 0 <= i < |slices| ==> slices[i].Some?
  {
    seq(|slices|, i requires 0 <= i < |slices| => slices[i].value.nodes)
  }

  /** The node lists with the coinbase in place, as leaves. */
  function Tiles(b: Block): seq<seq<H>>
    requires forall i :: 0 <= i < |b.slices| ==> b.slices[i].Some?
  {
    seq(|b.slices|, i requires 0 <= i < |b.slices| =>
      var nodes := b.slices[i].value.nodes;
      Leaves(if i == 0 && nodes != [] then nodes[0 := b.coinbase] else nodes))
  }

  lemma {:induction false} ConcatLeaves(parts: seq<seq<TxId>>, tiles: seq<seq<H>>)
    requires |parts| == |tiles| && forall i :: 0 <= i < |parts| ==> tiles[i] == Leaves(parts[i])
    ensures Concat(tiles) == Leaves(Concat(parts))
  {
    if parts != [] {
      ConcatLeaves(parts[1..], tiles[1..]);
    }
  }

  lemma {:induction false} TilesAreBody(b: Block)
    requires |b.slices| >= 1 && (forall i :: 0 <= i < |b.slices| ==> b.slices[i].Some?) && b.slices[0].value.nodes != []
    ensures Concat(Tiles(b)) == Leaves(Body(b)) && Body(b) != []
  {
    var parts: seq<seq<TxId>> := NodeLists(b.slices);
    var parts' := parts[0 := parts[0][0 := b.coinbase]];
    ConcatLeaves(parts', Tiles(b));
    assert parts'[1..] == parts[1..];
    assert Concat(parts) == parts[0] + Concat(parts[1..]);
    assert Concat(parts') == parts'[0] + Concat(parts[1..]);
    ReplaceFirst(parts[0], Concat(parts[1..]), b.coinbase);
  }

  lemma {:induction false} ReplaceFirst(a: seq<TxId>, rest: seq<TxId>, id: TxId)
    requires a != []
    ensures (a + rest)[0 := id] == a[0 := id] + rest
  {
  }

  /** Every subtree after the first claims the root of its nodes. The first one's claim is never used: its
      root is recomputed with the coinbase. */
  ghost predicate AllHonest(b: Block) {
    forall i :: 1 <= i < |b.slices| && b.slices[i].Some? ==> b.slices[i].value.Honest()
  }

  ghost predicate ShapedBlock(b: Block, h: nat) {
    && |b.slices| >= 2
    && (forall i :: 0 <= i < |b.slices| ==> b.slices[i].Some?)
    && (forall i :: 0 <= i < |b.slices| - 1 ==> b.slices[i].value.Length() == Pow2(h))
    && 1 <= b.slices[|b.slices| - 1].value.Length() <= Pow2(h)
  }

  /** What an accepted shape walk and present roots say about the block. */
  lemma {:induction false} AcceptedShape(b: Block) returns (h: nat)
    requires |b.slices| >= 2 && b.slices[0].Some? && AllRooted(b)
      && ShapeFrom(b.slices, 0, b.slices[0].value.Length(), true) == Accepted
    ensures ShapedBlock(b, h)
  {
    assert forall i :: 0 <= i < |b.slices| ==> SubtreeRoot(b, i).Some?;
    var target := b.slices[0].value.Length();
    ShapeMeaning(b.slices, 0, target, true);
    assert ShapeOk(0, b.slices[0].value.Length(), target, false);
    h :| h <= target && target == Pow2(h);
    forall i | 0 <= i < |b.slices| - 1 ensures b.slices[i].value.Length() == Pow2(h) {
      assert ShapeOk(i, b.slices[i].value.Length(), target, false);
    }
    var last := |b.slices| - 1;
    assert ShapeOk(last, b.slices[last].value.Length(), target, true);
    assert SubtreeRoot(b, last).Some?;
  }

  lemma {:induction false} ShapedTiles(b: Block, h: nat)
    requires ShapedBlock(b, h)
    ensures Tiled(Tiles(b), h)
    ensures forall i :: 0 <= i < |b.slices| ==> Tiles(b)[i] != [] && Levels(|Tiles(b)[i]|) <= h
  {
    TiledHeights(Tiles(b), h);
  }

  lemma {:induction false} PowAtLeast(h: nat)
    ensures h <= Pow2(h)
  {
    if h > 0 {
      PowAtLeast(h - 1);
    }
  }

  lemma {:induction false} ShapedAccepted(b: Block, h: nat)
    requires ShapedBlock(b, h)
    ensures ShapeFrom(b.slices, 0, b.slices[0].value.Length(), true) == Accepted
  {
    var target := b.slices[0].value.Length();
    PowAtLeast(h);
    assert IsPowerOfTwo(target);
    ShapeMeaning(b.slices, 0, target, true);
  }

  lemma {:induction false} ShapedHeights(b: Block, h: nat, i: nat)
    requires ShapedBlock(b, h) && i < |b.slices|
    ensures b.slices[i].value.Height() <= h && b.slices[i].value.nodes != []
    ensures i < |b.slices| - 1 ==> b.slices[i].value.Height() == h
    ensures b.slices[i].value.Length() == Pow2(h) ==> b.slices[i].value.Height() == h
  {
    ShapedTiles(b, h);
    LevelsOfPow2(h);
    assert |Tiles(b)[i]| == |b.slices[i].value.nodes|;
    assert i < |b.slices| - 1 ==> b.slices[i].value.Length() == Pow2(h);
  }

  /** The root the composition takes from subtree i, as claimed. */
  function ClaimedAt(b: Block, h: nat, i: nat): H
    requires i < |b.slices| && SubtreeRoot(b, i).Some? && b.slices[i].value.Height() <= h
  {
    Lift(SubtreeRoot(b, i).value, h - b.slices[i].value.Height())
  }

  /** The list blockMerkleRoot composes. */
  ghost function ToCompose(b: Block, h: nat): seq<H>
    requires ShapedBlock(b, h) && AllRooted(b)
  {
    var hashes, last := Values(SubtreeRoots(b)), b.slices[|b.slices| - 1].value;
    if last.Length() < Pow2(h) && last.RootPadded(h).Some? then hashes[|hashes| - 1 := last.RootPadded(h).value]
    else hashes
  }

  lemma {:induction false} ComposedAsClaimed(b: Block, h: nat, i: nat)
    requires ShapedBlock(b, h) && AllRooted(b) && i < |b.slices|
    ensures b.slices[i].value.Height() <= h && ToCompose(b, h)[i] == ClaimedAt(b, h, i)
  {
    ShapedHeights(b, h, i);
    assert SubtreeRoot(b, i).Some?;
  }

  lemma {:induction false} MerkleRootComposes(b: Block, h: nat)
    requires ShapedBlock(b, h) && AllRooted(b)
    ensures MerkleRoot(Values(SubtreeRoots(b)), b.slices, true) == Composed(ToCompose(b, h))
  {
    ShapedHeights(b, h, 0);
    ShapedHeights(b, h, |b.slices| - 1);
    ShapedAccepted(b, h);
    assert SubtreeRoot(b, |b.slices| - 1).Some?;
  }

  lemma {:induction false} HonestRoot(b: Block, h: nat, i: nat)
    requires ShapedBlock(b, h) && AllHonest(b) && i < |b.slices|
    ensures Tiles(b)[i] != [] && SubtreeRoot(b, i) == Some(Root(Tiles(b)[i]))
    ensures |Tiles(b)[i]| == |b.slices[i].value.nodes|
  {
    ShapedHeights(b, h, i);
    assert i > 0 ==> b.slices[i].value.Honest();
  }

  /** The roots blockMerkleRoot composes are the tile roots, the last one lifted. */
  lemma {:induction false} ComposedRoots(b: Block, h: nat)
    requires ShapedBlock(b, h) && AllHonest(b)
    ensures Tiled(Tiles(b), h)
    ensures forall i :: 0 <= i < |b.slices| ==> Tiles(b)[i] != [] && Levels(|Tiles(b)[i]|) <= h
    ensures AllRooted(b) && ToCompose(b, h) == PartRoots(Tiles(b), h)
  {
    ShapedTiles(b, h);
    forall i | 0 <= i < |b.slices| ensures SubtreeRoot(b, i).Some? {
      HonestRoot(b, h, i);
    }
    var roots := PartRoots(Tiles(b), h);
    forall i | 0 <= i < |b.slices| ensures ToCompose(b, h)[i] == roots[i] {
      HonestRoot(b, h, i);
      ComposedAsClaimed(b, h, i);
    }
  }

  ghost predicate RootsDistinct(b: Block, h: nat)
    requires ShapedBlock(b, h) && AllHonest(b)
  {
    ComposedRoots(b, h);
    Distinct(PartRoots(Tiles(b), h))
  }

  lemma {:induction false} ShapedMerkle(b: Block, h: nat)
    requires ShapedBlock(b, h) && AllHonest(b)
    ensures AllRooted(b)
    ensures MerkleRoot(Values(SubtreeRoots(b)), b.slices, true) ==
            if RootsDistinct(b, h) then Computed(Root(Leaves(Body(b)))) else Rejected(Corrupt)
  {
    ComposedRoots(b, h);
    ComposeIsFlat(Tiles(b), h);
    TilesAreBody(b);
    MerkleRootComposes(b, h);
  }

  /** An accepted body hashes to the header: the flat merkle root of its transactions, coinbase first,
      is the header's merkle root. */
  lemma {:induction false} AcceptedBodyHashesToHeader(b: Block)
    requires AllHonest(b) && MerkleVerdict(b) == Accepted
    ensures forall i :: 0 <= i < |b.slices| ==> b.slices[i].Some?
    ensures Body(b) != [] && Root(Leaves(Body(b))) == b.merkleRoot
  {
    assert forall i :: 0 <= i < |b.slices| ==> SubtreeRoot(b, i).Some?;
    if |b.slices| == 0 {
      assert Body(b) == [b.coinbase];
      assert Leaves(Body(b)) == [Leaf(b.coinbase)];
    } else if |b.slices| == 1 {
      TilesAreBody(b);
      assert Concat(Tiles(b)) == Tiles(b)[0] + Concat(Tiles(b)[1..]) == Tiles(b)[0];
      assert SubtreeRoot(b, 0).Some?;
    } else {
      var h := AcceptedShape(b);
      ShapedMerkle(b, h);
    }
  }

  /** A body of the right shape is accepted exactly when its flat merkle root is the header's and no
      two subtree roots coincide. */
  lemma {:induction false} ShapedBodyAcceptedIff(b: Block, h: nat)
    requires |b.keys| == |b.slices| && ShapedBlock(b, h) && AllHonest(b)
    ensures MerkleVerdict(b) == Accepted <==> RootsDistinct(b, h) && Root(Leaves(Body(b))) == b.merkleRoot
  {
    ShapedMerkle(b, h);
  }

  // ------------------------------------------------------------ the early check

  /** Every subtree answers to its key. */
  ghost predicate KeysMatch(b: Block) {
    && |b.keys| == |b.slices|
    && (forall i :: 0 <= i < |b.slices| ==> b.slices[i].Some? && b.slices[i].value.RootHash() == Some(b.keys[i]))
  }

  /** The middle subtrees are as long as the first. */
  ghost predicate MiddleLengths(b: Block) {
    && (forall i :: 0 <= i < |b.slices| ==> b.slices[i].Some?)
    && (forall i :: 1 <= i < |b.slices| - 1 ==> b.slices[i].value.Length() == b.slices[0].value.Length())
  }

  lemma {:induction false} EarlyShape(b: Block, early: seq<Option<Subtree>>, target: nat)
    requires |b.slices| == |early| >= 2 && MiddleLengths(b) && target == b.slices[0].value.Length()
    requires early[0] == b.slices[0] && early[|early| - 1] == b.slices[|early| - 1]
    requires forall i :: 1 <= i < |early| - 1 ==> early[i].None?
    ensures ShapeFrom(early, 0, target, false) == ShapeFrom(b.slices, 0, target, true)
  {
    EarlyShapeFrom(b, early, target, 1);
  }

  lemma {:induction false} EarlyShapeFrom(b: Block, early: seq<Option<Subtree>>, target: nat, i: nat)
    requires |b.slices| == |early| >= 2 && MiddleLengths(b) && target == b.slices[0].value.Length()
    requires early[0] == b.slices[0] && early[|early| - 1] == b.slices[|early| - 1]
    requires forall k :: 1 <= k < |early| - 1 ==> early[k].None?
    requires 1 <= i <= |early|
    ensures ShapeFrom(early, i, target, false) == ShapeFrom(b.slices, i, target, true)
    decreases |early| - i
  {
    if i < |early| {
      EarlyShapeFrom(b, early, target, i + 1);
    }
  }

  /** The check that has only the first and last subtrees and the keys gives the verdict of the full
      check, once every loaded root equals its key and the middle lengths pass; but a body that does not start
      with the placeholder is corrupt. */
  lemma {:induction false} EarlyCheckAgrees(b: Block, placeholder: TxId)
    requires |b.keys| >= 1 && KeysMatch(b) && MiddleLengths(b)
    requires b.slices[0].value.nodes != []
    ensures EarlyVerdict(b, placeholder, b.slices[0], b.slices[|b.slices| - 1]) ==
            if b.slices[0].value.nodes[0] == placeholder then MerkleVerdict(b) else Corrupt
  {
    var first, last := b.slices[0], b.slices[|b.slices| - 1];
    var hashes := b.keys[0 := first.value.RootWithCoinbase(b.coinbase).value];
    var early := seq(|b.keys|, _ => None)[0 := first][|b.keys| - 1 := last];
    assert forall i :: 1 <= i < |b.slices| ==> SubtreeRoot(b, i) == b.slices[i].value.RootHash() == Some(b.keys[i]);
    assert AllRooted(b);
    assert Values(SubtreeRoots(b)) == hashes;
    if |b.slices| >= 2 {
      EarlyShape(b, early, first.value.Length());
    }
  }

  /** The shape walk when only the first and last subtrees are at hand. */
  lemma {:induction false} EndsShape(slices: seq<Option<Subtree>>, target: nat, i: nat)
    requires |slices| >= 2 && 1 <= i < |slices| && (forall k :: 1 <= k < |slices| - 1 ==> slices[k].None?)
    ensures ShapeFrom(slices, i, target, false) ==
            var last := slices[|slices| - 1];
            if last.None? then Processing else if last.value.Length() <= target then Accepted else Corrupt
    decreases |slices| - i
  {
    if i < |slices| - 1 {
      EndsShape(slices, target, i + 1);
    }
  }

  lemma {:induction false} EarlyMeaning(b: Block, placeholder: TxId, first: Option<Subtree>, last: Option<Subtree>)
    requires |b.keys| >= 1
    ensures
      var v := EarlyVerdict(b, placeholder, first, last);
      && (v == Processing <==>
        || !Filled(first)
        || (Starts(first, placeholder) && |b.keys| >= 2 && IsPowerOfTwo(first.value.Length()) && !Filled(last)))
      && (v == Accepted <==> Starts(first, placeholder) && EndsBind(b, first, last))
      && v != Storage
  {
    if Starts(first, placeholder) && |b.keys| >= 2 {
      var slices := seq(|b.keys|, _ => None)[0 := first][|b.keys| - 1 := last];
      var target := first.value.Length();
      EndsShape(slices, target, 1);
      if IsPowerOfTwo(target) && Filled(last) && last.value.Length() <= target {
        var h: nat :| h <= target && target == Pow2(h);
        EarlyComposes(b, placeholder, first, last, h);
      } else {
        OnlyPowersBind(b, first, last);
      }
    }
  }

  lemma {:induction false} OnlyPowersBind(b: Block, first: Option<Subtree>, last: Option<Subtree>)
    requires |b.keys| >= 2 && Filled(first)
    requires !(IsPowerOfTwo(first.value.Length()) && Filled(last) && last.value.Length() <= first.value.Length())
    ensures !EndsBind(b, first, last)
  {
    if EndsBind(b, first, last) {
      var root := Root(Leaves(first.value.nodes[0 := b.coinbase]));
      var h: nat :| EndsBindAt(b, first.value, last.value, root, h);
      PowAtLeast(h);
      assert false;
    }
  }

  lemma {:induction false} EarlyComposes(b: Block, placeholder: TxId, first: Option<Subtree>, last: Option<Subtree>,
        h: nat)
    requires |b.keys| >= 2 && Starts(first, placeholder) && Filled(last)
    requires first.value.Length() == Pow2(h) && last.value.Length() <= Pow2(h)
    ensures
      var v := EarlyVerdict(b, placeholder, first, last);
      && (v == Accepted || v == Corrupt)
      && (v == Accepted <==> EndsBind(b, first, last))
  {
    var slices := seq(|b.keys|, _ => None)[0 := first][|b.keys| - 1 := last];
    var target := Pow2(h);
    PowAtLeast(h);
    assert IsPowerOfTwo(target);
    EndsShape(slices, target, 1);
    LevelsOfPow2(h);
    ShortHeight(last.value.Length(), h);
    var root := first.value.RootWithCoinbase(b.coinbase).value;
    var lasting := LastRoot(b, h, last.value).value;
    var roots := [root] + b.keys[1..|b.keys| - 1] + [lasting];
    assert b.keys[0 := root][|b.keys| - 1 := lasting] == roots;
    assert last.value.Length() == target ==> b.keys[0 := root] == roots;
    if EndsBind(b, first, last) {
      var h': nat :| EndsBindAt(b, first.value, last.value, root, h');
      LevelsOfPow2(h');
    }
    assert EndsBindAt(b, first.value, last.value, root, h) <==> Distinct(roots) && Root(roots) == b.merkleRoot;
  }

  lemma {:induction false} ShortHeight(n: nat, h: nat)
    requires 1 <= n <= Pow2(h)
    ensures Levels(n) <= h
  {
    if n > 1 {
      ShortHeight((n + 1) / 2, h - 1);
    }
  }

  // ------------------------------------------------------------ the duplicate scan

  datatype Position = Position(s: nat, t: nat)

  /** Positions the scan looks at: all but a placeholder at [0][0]. */
  predicate Scanned(slices: seq<Option<Subtree>>, placeholder: TxId, p: Position) {
    && p.s < |slices| && slices[p.s].Some? && p.t < |slices[p.s].value.nodes|
    && !(p.s == 0 && p.t == 0 && slices[0].value.nodes[0] == placeholder)
  }

  function IdAt(slices: seq<Option<Subtree>>, p: Position): TxId
    requires p.s < |slices| && slices[p.s].Some? && p.t < |slices[p.s].value.nodes|
  {
    slices[p.s].value.nodes[p.t]
  }

  predicate Before(p: Position, s: nat, t: nat) {
    p.s < s || (p.s == s && p.t < t)
  }

  ghost predicate SeenBefore(slices: seq<Option<Subtree>>, placeholder: TxId, s: nat, t: nat, seen: set<TxId>) {
    && (forall p :: Scanned(slices, placeholder, p) && Before(p, s, t) ==> IdAt(slices, p) in seen)
    && (forall id :: id in seen ==>
      exists p :: Scanned(slices, placeholder, p) && Before(p, s, t) && IdAt(slices, p) == id)
  }

  ghost predicate NoRepeatBefore(slices: seq<Option<Subtree>>, placeholder: TxId, s: nat, t: nat) {
    forall p, q ::
      Scanned(slices, placeholder, p) && Scanned(slices, placeholder, q) && p != q && Before(p, s, t)
        && Before(q, s, t) ==>
      IdAt(slices, p) != IdAt(slices, q)
  }

  /** How far the scan has got without a repeat. */
  ghost predicate ScanOk(slices: seq<Option<Subtree>>, placeholder: TxId, s: nat, t: nat, seen: set<TxId>) {
    SeenBefore(slices, placeholder, s, t, seen) && NoRepeatBefore(slices, placeholder, s, t)
  }

  ghost predicate HasRepeat(slices: seq<Option<Subtree>>, placeholder: TxId) {
    exists p, q ::
      Scanned(slices, placeholder, p) && Scanned(slices, placeholder, q) && p != q && IdAt(slices, p) == IdAt(slices, q)
  }

  /** SubtreeTxDeduper: the running set of a scan over subtrees handed in one at a time. */
  class SubtreeTxDeduper {
    var seen: set<TxId>

    constructor ()
      ensures seen == {}
    {
      seen := {};
    }

    /** Folds subtree s in. `slices` is the whole body, of which the scan has done the subtrees before s. */
    method Add(s: nat, subtree: Option<Subtree>, placeholder: TxId, ghost slices: seq<Option<Subtree>>)
      returns (ok: bool)
      requires s < |slices| && slices[s] == subtree
      requires ScanOk(slices, placeholder, s, 0, seen)
      modifies this
      ensures ok ==> ScanOk(slices, placeholder, s + 1, 0, seen)
      ensures !ok ==> HasRepeat(slices, placeholder)
    {
      if subtree.None? {
        NextSubtree(slices, placeholder, s, 0, seen);
        return true;
      }
      var nodes := subtree.value.nodes;
      for t := 0 to |nodes|
        invariant ScanOk(slices, placeholder, s, t, seen)
      {
        if s == 0 && t == 0 && nodes[t] == placeholder {
          SkipPlaceholder(slices, placeholder, seen);
          continue;
        }
        if nodes[t] in seen {
          RepeatMet(slices, placeholder, s, t, seen);
          return false;
        }
        TakeNode(slices, placeholder, s, t, seen);
        seen := seen + {nodes[t]};
      }
      NextSubtree(slices, placeholder, s, |nodes|, seen);
      return true;
    }
  }

  lemma {:induction false} SkipPlaceholder(slices: seq<Option<Subtree>>, placeholder: TxId, seen: set<TxId>)
    requires |slices| > 0 && slices[0].Some? && slices[0].value.nodes != [] && slices[0].value.nodes[0] == placeholder
    requires SeenBefore(slices, placeholder, 0, 0, seen)
    ensures ScanOk(slices, placeholder, 0, 1, seen)
  {
    assert forall p :: !Before(p, 0, 0);
    assert forall p :: Before(p, 0, 1) ==> p == Position(0, 0);
    assert forall id :: id !in seen;
  }

  lemma {:induction false} RepeatMet(slices: seq<Option<Subtree>>, placeholder: TxId, s: nat, t: nat, seen: set<TxId>)
    requires Scanned(slices, placeholder, Position(s, t)) && SeenBefore(slices, placeholder, s, t, seen)
    requires IdAt(slices, Position(s, t)) in seen
    ensures HasRepeat(slices, placeholder)
  {
    var p :| Scanned(slices, placeholder, p) && Before(p, s, t) && IdAt(slices, p) == IdAt(slices, Position(s, t));
  }

  lemma {:induction false} TakeNode(slices: seq<Option<Subtree>>, placeholder: TxId, s: nat, t: nat, seen: set<TxId>)
    requires Scanned(slices, placeholder, Position(s, t)) && SeenBefore(slices, placeholder, s, t, seen)
    requires NoRepeatBefore(slices, placeholder, s, t) && IdAt(slices, Position(s, t)) !in seen
    ensures ScanOk(slices, placeholder, s, t + 1, seen + {IdAt(slices, Position(s, t))})
  {
    var at := Position(s, t);
    forall p ensures Before(p, s, t + 1) <==> Before(p, s, t) || p == at {
    }
    forall id | id in seen + {IdAt(slices, at)}
      ensures exists p :: Scanned(slices, placeholder, p) && Before(p, s, t + 1) && IdAt(slices, p) == id
    {
      if id in seen {
        var p :| Scanned(slices, placeholder, p) && Before(p, s, t) && IdAt(slices, p) == id;
      } else {
        assert Before(at, s, t + 1);
      }
    }
  }

  lemma {:induction false} NextSubtree(slices: seq<Option<Subtree>>, placeholder: TxId, s: nat, t: nat, seen: set<TxId>)
    requires s < |slices| && (slices[s].Some? ==> t == |slices[s].value.nodes|)
    requires ScanOk(slices, placeholder, s, t, seen)
    ensures ScanOk(slices, placeholder, s + 1, 0, seen)
  {
    forall p | Scanned(slices, placeholder, p) ensures Before(p, s + 1, 0) <==> Before(p, s, t) {
    }
    forall id | id in seen
      ensures exists p :: Scanned(slices, placeholder, p) && Before(p, s + 1, 0) && IdAt(slices, p) == id
    {
      var p :| Scanned(slices, placeholder, p) && Before(p, s, t) && IdAt(slices, p) == id;
      assert Before(p, s + 1, 0);
    }
  }

  /** CheckSubtreeSlicesForDuplicateTxs: rejects exactly when two scanned positions hold one id. */
  method CheckForDuplicateTxs(slices: seq<Option<Subtree>>, placeholder: TxId) returns (ok: bool)
    ensures ok <==> !HasRepeat(slices, placeholder)
  {
    var deduper := new SubtreeTxDeduper();
    for s := 0 to |slices|
      invariant SeenBefore(slices, placeholder, s, 0, deduper.seen) && NoRepeatBefore(slices, placeholder, s, 0)
    {
      var good := deduper.Add(s, slices[s], placeholder, slices);
      if !good {
        return false;
      }
    }
    assert forall p :: Scanned(slices, placeholder, p) ==> Before(p, |slices|, 0);
    return true;
  }

  // ------------------------------------------------------------ the body is determined

  /** Where position k of the concatenated node lists lies. */
  lemma {:induction false} Locate(slices: seq<Option<Subtree>>, k: nat) returns (p: Position)
    requires (forall i :: 0 <= i < |slices| ==> slices[i].Some?) && k < |Concat(NodeLists(slices))|
    ensures p.s < |slices| && p.t < |slices[p.s].value.nodes| && IdAt(slices, p) == Concat(NodeLists(slices))[k]
    ensures p.s == 0 && p.t == 0 ==> k == 0
  {
    var parts := NodeLists(slices);
    var first := slices[0].value.nodes;
    assert Concat(parts) == parts[0] + Concat(parts[1..]);
    if k < |first| {
      p := Position(0, k);
    } else {
      assert NodeLists(slices[1..]) == parts[1..];
      var q := Locate(slices[1..], k - |first|);
      p := Position(q.s + 1, q.t);
    }
  }

  /** Different positions of the list come from different places. */
  lemma {:induction false} LocateBoth(slices: seq<Option<Subtree>>, j: nat, k: nat) returns (p: Position, q: Position)
    requires (forall i :: 0 <= i < |slices| ==> slices[i].Some?) && j < k < |Concat(NodeLists(slices))|
    ensures p != q
    ensures p.s < |slices| && p.t < |slices[p.s].value.nodes| && IdAt(slices, p) == Concat(NodeLists(slices))[j]
    ensures q.s < |slices| && q.t < |slices[q.s].value.nodes| && IdAt(slices, q) == Concat(NodeLists(slices))[k]
    ensures (p.s == 0 && p.t == 0 ==> j == 0) && (q.s == 0 && q.t == 0 ==> k == 0)
  {
    var parts := NodeLists(slices);
    var first := slices[0].value.nodes;
    assert Concat(parts) == parts[0] + Concat(parts[1..]);
    assert NodeLists(slices[1..]) == parts[1..];
    if k < |first| {
      p, q := Position(0, j), Position(0, k);
    } else if j < |first| {
      var r := Locate(slices[1..], k - |first|);
      p, q := Position(0, j), Position(r.s + 1, r.t);
    } else {
      var a, b := LocateBoth(slices[1..], j - |first|, k - |first|);
      p, q := Position(a.s + 1, a.t), Position(b.s + 1, b.t);
    }
  }

  /** A body that passes the scan repeats nothing after the coinbase, although the scan skips [0][0]. */
  lemma {:induction false} ScanMeansTailDistinct(b: Block, placeholder: TxId)
    requires (forall i :: 0 <= i < |b.slices| ==> b.slices[i].Some?) && !HasRepeat(b.slices, placeholder)
    ensures TailDistinctIds(Body(b))
  {
    var all, body := Concat(NodeLists(b.slices)), Body(b);
    forall j, k | 1 <= j < k < |body| ensures body[j] != body[k] {
      var p, q := LocateBoth(b.slices, j, k);
      assert Scanned(b.slices, placeholder, p) && Scanned(b.slices, placeholder, q);
    }
  }

  /** Passing CheckMerkleRoot and the duplicate scan determines the body: two such blocks with the same
      header merkle root carry the same transactions in the same order, coinbase included, however
      they are cut into subtrees. */
  lemma {:induction false} HeaderDeterminesBody(b: Block, c: Block, placeholder: TxId)
    requires b.merkleRoot == c.merkleRoot && AllHonest(b) && AllHonest(c)
    requires MerkleVerdict(b) == Accepted && MerkleVerdict(c) == Accepted
    requires !HasRepeat(b.slices, placeholder) && !HasRepeat(c.slices, placeholder)
    ensures forall i :: 0 <= i < |b.slices| ==> b.slices[i].Some?
    ensures forall i :: 0 <= i < |c.slices| ==> c.slices[i].Some?
    ensures Body(b) == Body(c)
  {
    AcceptedBodyHashesToHeader(b);
    AcceptedBodyHashesToHeader(c);
    ScanMeansTailDistinct(b, placeholder);
    ScanMeansTailDistinct(c, placeholder);
    IdsDetermined(Body(b), Body(c));
  }

  // ------------------------------------------------------------ what the claims and the duplicate-root rule add

  /** The i-th root the composition sees. */
  ghost function ComposedAt(b: Block, h: nat, i: nat): H
    requires ShapedBlock(b, h) && AllHonest(b) && i < |b.slices|
  {
    ComposedRoots(b, h);
    PartRoots(Tiles(b), h)[i]
  }

  lemma {:induction false} LiftedRootEnds(tile: seq<H>, n: nat)
    requires tile != []
    ensures Leftmost(Lift(Root(tile), n)) == Leftmost(tile[0])
    ensures Rightmost(Lift(Root(tile), n)) == Rightmost(tile[|tile| - 1])
  {
    RootEnds(tile);
    LiftEnds(Root(tile), n);
  }

  lemma {:induction false} ComposedIsLifted(b: Block, h: nat, i: nat) returns (n: nat)
    requires ShapedBlock(b, h) && AllHonest(b) && i < |b.slices|
    ensures b.slices[i].value.nodes != [] && ComposedAt(b, h, i) == Lift(Root(Tiles(b)[i]), n)
  {
    ComposedRoots(b, h);
    n := PartRootAt(Tiles(b), h, i);
  }

  lemma {:induction false} TileEnds(b: Block, h: nat, i: nat)
    requires ShapedBlock(b, h) && AllHonest(b) && i < |b.slices|
    ensures
      var nodes, root := b.slices[i].value.nodes, ComposedAt(b, h, i);
      && nodes != []
      && Leftmost(root) == (if i == 0 then b.coinbase else nodes[0])
      && Rightmost(root) == (if i == 0 && |nodes| == 1 then b.coinbase else nodes[|nodes| - 1])
  {
    var n := ComposedIsLifted(b, h, i);
    TileLeaves(b, i);
    LiftedRootEnds(Tiles(b)[i], n);
  }

  lemma {:induction false} TileLeaves(b: Block, i: nat)
    requires (forall k :: 0 <= k < |b.slices| ==> b.slices[k].Some?) && i < |b.slices| && b.slices[i].value.nodes != []
    ensures
      var nodes, tile := b.slices[i].value.nodes, Tiles(b)[i];
      && |tile| == |nodes|
      && Leftmost(tile[0]) == (if i == 0 then b.coinbase else nodes[0])
      && Rightmost(tile[|tile| - 1]) == (if i == 0 && |nodes| == 1 then b.coinbase else nodes[|nodes| - 1])
  {
  }

  /** Some transaction that starts a subtree is the coinbase's own id. */
  ghost predicate CoinbaseRepeated(b: Block) {
    exists j :: 1 <= j < |b.slices| && b.slices[j].Some? && b.slices[j].value.nodes != []
      && b.slices[j].value.nodes[0] == b.coinbase
  }

  lemma {:induction false} EqualRootsNeedCoinbase(b: Block, h: nat, placeholder: TxId, i: nat, j: nat)
    requires ShapedBlock(b, h) && AllHonest(b) && !HasRepeat(b.slices, placeholder) && i < j < |b.slices|
    requires ComposedAt(b, h, i) == ComposedAt(b, h, j)
    ensures h == 0 && CoinbaseRepeated(b)
  {
    TileEnds(b, h, i);
    TileEnds(b, h, j);
    var last := Position(j, |b.slices[j].value.nodes| - 1);
    assert Scanned(b.slices, placeholder, Position(j, 0)) && Scanned(b.slices, placeholder, last);
    assert i > 0 ==> Scanned(b.slices, placeholder, Position(i, 0));
    assert i == 0 ==> |b.slices[0].value.nodes| == Pow2(h);
    assert h > 0 ==> Pow2(h) >= 2;
    if i == 0 && h > 0 {
      assert Scanned(b.slices, placeholder, Position(0, Pow2(h) - 1));
    }
  }

  /** For a body that passed the duplicate scan the duplicate-root rule rejects only one thing: subtrees
      of a single transaction, one of which is the coinbase again. */
  lemma {:induction false} DuplicateRootRule(b: Block, h: nat, placeholder: TxId)
    requires ShapedBlock(b, h) && AllHonest(b) && !HasRepeat(b.slices, placeholder)
    ensures RootsDistinct(b, h) <==> !(h == 0 && CoinbaseRepeated(b))
  {
    ComposedRoots(b, h);
    var roots := PartRoots(Tiles(b), h);
    if !Distinct(roots) {
      var i, j :| 0 <= i < j < |roots| && roots[i] == roots[j];
      EqualRootsNeedCoinbase(b, h, placeholder, i, j);
    }
    if h == 0 && CoinbaseRepeated(b) {
      var j :| 1 <= j < |b.slices| && b.slices[j].value.nodes != [] && b.slices[j].value.nodes[0] == b.coinbase;
      SingleTileRoot(b, 0);
      SingleTileRoot(b, j);
      assert roots[0] == roots[j];
    }
  }

  lemma {:induction false} SingleTileRoot(b: Block, j: nat)
    requires ShapedBlock(b, 0) && AllHonest(b) && j < |b.slices|
    ensures ComposedAt(b, 0, j) == Leaf(if j == 0 then b.coinbase else b.slices[j].value.nodes[0])
  {
    ComposedRoots(b, 0);
    assert j < |b.slices| - 1 ==> b.slices[j].value.Length() == Pow2(0);
    assert |Tiles(b)[j]| == 1;
  }

  /** So a scanned body of the right shape is accepted exactly when its flat merkle root is the
      header's, with that one exception. */
  lemma {:induction false} ScannedBodyAcceptedIff(b: Block, h: nat, placeholder: TxId)
    requires |b.keys| == |b.slices| && ShapedBlock(b, h) && AllHonest(b) && !HasRepeat(b.slices, placeholder)
    ensures MerkleVerdict(b) == Accepted <==> Root(Leaves(Body(b))) == b.merkleRoot && !(h == 0 && CoinbaseRepeated(b))
  {
    ShapedBodyAcceptedIff(b, h);
    DuplicateRootRule(b, h, placeholder);
  }

  /** A body that hashes to the header and is rejected all the same: two subtrees of one transaction each, the
      second of which is the coinbase again. */
  lemma {:induction false} RepeatedCoinbaseRejected(coinbase: TxId, placeholder: TxId)
    ensures
      var slices := [Some(Subtree([placeholder], None)), Some(Subtree([coinbase], None))];
      var b := Block(Root(Leaves([coinbase, coinbase])), coinbase, [Leaf(0), Leaf(0)], slices);
      && !HasRepeat(slices, placeholder) && Body(b) == [coinbase, coinbase]
      && Root(Leaves(Body(b))) == b.merkleRoot && MerkleVerdict(b) == Corrupt
  {
    var slices := [Some(Subtree([placeholder], None)), Some(Subtree([coinbase], None))];
    var b := Block(Root(Leaves([coinbase, coinbase])), coinbase, [Leaf(0), Leaf(0)], slices);
    assert NodeLists(slices) == [[placeholder], [coinbase]];
    assert Concat(NodeLists(slices)[1..][1..]) == [] && Concat(NodeLists(slices)[1..]) == [coinbase];
    assert Concat(NodeLists(slices)) == [placeholder, coinbase];
    assert forall p :: Scanned(slices, placeholder, p) ==> p == Position(1, 0);
    assert ShapedBlock(b, 0) && AllHonest(b);
    assert slices[1].value.nodes[0] == coinbase && CoinbaseRepeated(b);
    ShapedMerkle(b, 0);
    DuplicateRootRule(b, 0, placeholder);
  }

  // ------------------------------------------------------------ claims

  datatype KeyVerdict = Matches | NoNodes | NodesMismatch | ClaimMismatch

  /** ValidateSubtreeNodesMatchKey: recomputes the root from the nodes, then compares the claim. */
  function ValidateNodesMatchKey(st: Subtree, key: H): KeyVerdict {
    if st.nodes == [] then NoNodes
    else if Root(Leaves(st.nodes)) != key then NodesMismatch
    else if st.RootHash() != Some(key) then ClaimMismatch
    else Matches
  }

  /** The validation is what makes a claimed root trustworthy: it passes exactly for an honest subtree
      that answers to the key. */
  lemma {:induction false} ValidationMeansHonest(st: Subtree, key: H)
    ensures ValidateNodesMatchKey(st, key) == Matches <==> st.RootHash() == Some(key) && st.Honest()
  {
  }

  lemma {:induction false} HonestWhereRootsAgree(b: Block, h: nat, tiles: seq<seq<H>>, i: nat)
    requires ShapedBlock(b, h) && AllRooted(b) && 1 <= i < |b.slices| && tiles == Tiles(b)
    requires forall k :: 0 <= k < |tiles| ==> tiles[k] != [] && Levels(|tiles[k]|) <= h
    requires ToCompose(b, h)[i] == PartRoots(tiles, h)[i]
    ensures b.slices[i].value.Honest()
  {
    ComposedAsClaimed(b, h, i);
    var st := b.slices[i].value;
    assert tiles[i] == Leaves(st.nodes);
    LiftInjective(SubtreeRoot(b, i).value, Root(tiles[i]), h - st.Height());
  }

  lemma {:induction false} HashesToHeaderMeansHonest(b: Block, h: nat)
    requires ShapedBlock(b, h) && AllRooted(b) && MerkleVerdict(b) == Accepted && Body(b) != []
    requires Root(Leaves(Body(b))) == b.merkleRoot
    ensures AllHonest(b)
  {
    var tiles := Tiles(b);
    MerkleRootComposes(b, h);
    ShapedTiles(b, h);
    TilesAreBody(b);
    ComposeIsFlat(tiles, h);
    RootSameLength(ToCompose(b, h), PartRoots(tiles, h));
    forall i | 1 <= i < |b.slices| ensures b.slices[i].value.Honest() {
      HonestWhereRootsAgree(b, h, tiles, i);
    }
  }

  /** CheckMerkleRoot binds exactly as far as the claims can be trusted: a body it accepts hashes to the
      header exactly when every subtree after the first claims the root of its own nodes. */
  lemma {:induction false} AcceptedBodyBoundIffHonest(b: Block)
    requires MerkleVerdict(b) == Accepted
    ensures forall i :: 0 <= i < |b.slices| ==> b.slices[i].Some?
    ensures Body(b) != [] && (Root(Leaves(Body(b))) == b.merkleRoot <==> AllHonest(b))
  {
    assert forall i :: 0 <= i < |b.slices| ==> SubtreeRoot(b, i).Some?;
    if AllHonest(b) {
      AcceptedBodyHashesToHeader(b);
    } else {
      var h := AcceptedShape(b);
      TilesAreBody(b);
      if Root(Leaves(Body(b))) == b.merkleRoot {
        HashesToHeaderMeansHonest(b, h);
      }
    }
  }

  // ------------------------------------------------------------ every verdict

  /** The roots of the subtrees as they claim them, each lifted to the height of a full one. */
  ghost function Claims(b: Block, h: nat): seq<H>
    requires ShapedBlock(b, h)
  {
    seq(|b.slices|, i requires 0 <= i < |b.slices| => ShapedHeights(b, h, i); ClaimedAt(b, h, i))
  }

  /** Up to one subtree: the transactions hash to the header. More: the body has its shape, the claimed roots are
      distinct and theirs is the header's. */
  ghost predicate ClaimsBind(b: Block) {
    if |b.slices| <= 1 then HashesToHeader(b)
    else exists h: nat :: ShapedBlock(b, h) && Distinct(Claims(b, h)) && Root(Claims(b, h)) == b.merkleRoot
  }

  /** The same of an honest body, in terms of its transactions. */
  ghost predicate BodyBinds(b: Block)
    requires AllHonest(b)
  {
    HashesToHeader(b) && (|b.slices| >= 2 ==> exists h: nat :: ShapedBlock(b, h) && RootsDistinct(b, h))
  }

  lemma {:induction false} FilledIsRooted(b: Block)
    ensures AllRooted(b) <==> AllFilled(b)
  {
    if AllRooted(b) {
      forall i | 0 <= i < |b.slices| ensures b.slices[i].Some? && b.slices[i].value.nodes != [] {
        assert SubtreeRoot(b, i).Some?;
      }
    }
  }

  lemma {:induction false} LoadedShape(slices: seq<Option<Subtree>>, i: nat, target: nat)
    requires i <= |slices| && forall k :: 0 <= k < |slices| ==> slices[k].Some?
    ensures ShapeFrom(slices, i, target, true) == Accepted || ShapeFrom(slices, i, target, true) == Corrupt
    decreases |slices| - i
  {
    if i < |slices| {
      LoadedShape(slices, i + 1, target);
    }
  }

  /** A body of two or more loaded subtrees is accepted as its claims say, and is corrupt otherwise. */
  lemma {:induction false} ClaimsDecide(b: Block)
    requires |b.keys| == |b.slices| >= 2 && AllFilled(b)
    ensures MerkleVerdict(b) == if ClaimsBind(b) then Accepted else Corrupt
  {
    FilledIsRooted(b);
    LoadedShape(b.slices, 0, b.slices[0].value.Length());
    forall h: nat | ShapedBlock(b, h)
      ensures MerkleVerdict(b) == Judge(Composed(Claims(b, h)), b.merkleRoot)
    {
      ClaimsComposed(b, h);
    }
    if ShapeFrom(b.slices, 0, b.slices[0].value.Length(), true) == Accepted {
      var h := AcceptedShape(b);
      assert MerkleVerdict(b) == Judge(Composed(Claims(b, h)), b.merkleRoot);
    }
  }

  lemma {:induction false} ClaimsComposed(b: Block, h: nat)
    requires |b.keys| == |b.slices| && ShapedBlock(b, h) && AllRooted(b)
    ensures MerkleVerdict(b) == Judge(Composed(Claims(b, h)), b.merkleRoot)
  {
    MerkleRootComposes(b, h);
    forall i | 0 <= i < |b.slices| ensures ToCompose(b, h)[i] == Claims(b, h)[i] {
      ComposedAsClaimed(b, h, i);
    }
    assert ToCompose(b, h) == Claims(b, h);
  }

  /** A body of at most one subtree is accepted exactly when it hashes to the header, whatever its length. */
  lemma {:induction false} OneSubtreeDecides(b: Block)
    requires |b.keys| == |b.slices| <= 1 && AllFilled(b)
    ensures MerkleVerdict(b) == if HashesToHeader(b) then Accepted else Corrupt
  {
    FilledIsRooted(b);
    if |b.slices| == 0 {
      assert Body(b) == [b.coinbase];
      assert Leaves(Body(b)) == [Leaf(b.coinbase)];
    } else {
      TilesAreBody(b);
      assert Concat(Tiles(b)) == Tiles(b)[0] + Concat(Tiles(b)[1..]) == Tiles(b)[0];
    }
  }

  lemma {:induction false} HonestDecides(b: Block)
    requires |b.keys| == |b.slices| && AllFilled(b) && AllHonest(b)
    ensures MerkleVerdict(b) == Accepted <==> BodyBinds(b)
  {
    FilledIsRooted(b);
    if |b.slices| <= 1 {
      OneSubtreeDecides(b);
    } else {
      forall h: nat | ShapedBlock(b, h)
        ensures MerkleVerdict(b) == Accepted <==> RootsDistinct(b, h) && HashesToHeader(b)
      {
        ShapedBodyAcceptedIff(b, h);
        TilesAreBody(b);
      }
      if MerkleVerdict(b) == Accepted {
        var h := AcceptedShape(b);
        assert RootsDistinct(b, h);
      }
    }
  }

  lemma {:induction false} VerdictMeaning(b: Block)
    ensures
      var v := MerkleVerdict(b);
      && (v == Storage <==> |b.keys| != |b.slices|)
      && (v == Processing <==> |b.keys| == |b.slices| && !AllFilled(b))
      && (v == Accepted <==> |b.keys| == |b.slices| && AllFilled(b) && ClaimsBind(b))
      && (v == Accepted ==> (HashesToHeader(b) <==> AllHonest(b)))
      && (|b.keys| == |b.slices| && AllFilled(b) && AllHonest(b) ==> (v == Accepted <==> BodyBinds(b)))
  {
    FilledIsRooted(b);
    if |b.keys| == |b.slices| && AllFilled(b) {
      if |b.slices| <= 1 {
        OneSubtreeDecides(b);
      } else {
        ClaimsDecide(b);
      }
      if AllHonest(b) {
        HonestDecides(b);
      }
    }
    if MerkleVerdict(b) == Accepted {
      AcceptedBodyBoundIffHonest(b);
    }
  }

  /** Without it CheckMerkleRoot can accept a body whose transactions do not hash to the header: a
      rewritten claim over an unrelated node list goes unnoticed after the first subtree. */
  lemma {:induction false} DishonestClaimAccepted()
    ensures exists b: Block ::
      && MerkleVerdict(b) == Accepted && !AllHonest(b)
      && (forall i :: 0 <= i < |b.slices| ==> b.slices[i].Some?)
      && Root(Leaves(Body(b))) != b.merkleRoot
  {
    var first := Some(Subtree([0, 1], None));
    var forged := Some(Subtree([8, 9], Some(Node(Leaf(2), Leaf(3)))));
    var top := Node(Node(Leaf(7), Leaf(1)), Node(Leaf(2), Leaf(3)));
    var b := Block(top, 7, [Leaf(0), Leaf(0)], [first, forged]);
    assert Leaves([7, 1]) == [Leaf(7), Leaf(1)];
    assert Leaves([8, 9]) == [Leaf(8), Leaf(9)];
    assert [0, 1][0 := 7] == [7, 1];
    assert Root([Leaf(7), Leaf(1)]) == Node(Leaf(7), Leaf(1)) by {
      assert Up([Leaf(7), Leaf(1)]) == [Node(Leaf(7), Leaf(1))];
    }
    var roots := [Node(Leaf(7), Leaf(1)), Node(Leaf(2), Leaf(3))];
    assert Root(roots) == top by { assert Up(roots) == [top]; }
    assert SubtreeRoot(b, 0) == Some(roots[0]) && SubtreeRoot(b, 1) == Some(roots[1]);
    assert Values(SubtreeRoots(b)) == roots;
    ForgedShape(b.slices);
    ForgedBody(b);
    assert !b.slices[1].value.Honest() by {
      assert Root([Leaf(8), Leaf(9)]) == Node(Leaf(8), Leaf(9)) by {
        assert Up([Leaf(8), Leaf(9)]) == [Node(Leaf(8), Leaf(9))];
      }
    }
  }

  lemma {:induction false} ForgedShape(slices: seq<Option<Subtree>>)
    requires |slices| == 2 && slices[0].Some? && slices[1].Some? && slices[0].value.Length() == 2
      && slices[1].value.Length() == 2
    ensures ShapeFrom(slices, 0, 2, true) == Accepted
  {
    assert Pow2(1) == 2;
    assert IsPowerOfTwo(2);
    ShapeMeaning(slices, 0, 2, true);
  }

  lemma {:induction false} ForgedBody(b: Block)
    requires |b.slices| == 2 && b.slices[0].Some? && b.slices[1].Some?
    requires b.slices[0].value.nodes == [0, 1] && b.slices[1].value.nodes == [8, 9] && b.coinbase == 7
    requires b.merkleRoot == Node(Node(Leaf(7), Leaf(1)), Node(Leaf(2), Leaf(3)))
    ensures Root(Leaves(Body(b))) != b.merkleRoot
  {
    var parts := NodeLists(b.slices);
    assert parts == [[0, 1], [8, 9]];
    assert Concat(parts[1..][1..]) == [];
    assert Concat(parts[1..]) == [8, 9];
    assert Concat(parts) == [0, 1, 8, 9];
    assert Body(b) == [7, 1, 8, 9];
    var xs := [Leaf(7), Leaf(1), Leaf(8), Leaf(9)];
    assert Leaves(Body(b)) == xs;
    var ys := [Node(Leaf(7), Leaf(1)), Node(Leaf(8), Leaf(9))];
    assert Up(xs[2..]) == [Node(Leaf(8), Leaf(9))];
    assert Up(xs) == ys;
    assert Up(ys) == [Node(ys[0], ys[1])];
  }
}
