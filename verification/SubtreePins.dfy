/** Ownership of the node arrays of a block's subtrees (model/Block.go): pinning them
    while an in-memory node index reads them, releasing subtrees, closing mmap-backed
    ones before a reload, and the closes deferred while an index is live. A step is one
    critical section; a run is any sequence of steps. */
module SubtreePins {
  import opened Common

  type Id = nat

  /** A subtree: whether its backing is a mapped file, whether its node array is still attached, how
      often it was closed, whether its array went to the pool. */
  datatype Subtree = Subtree(mmap: bool, attached: bool, closed: nat, pooled: bool)

  /** The map the duplicate check filled: none, the 64-bit map, a node index with the subtrees whose arrays it
      has registered, or an index that is closed and about to be cleared. */
  datatype TxMap = NoMap | WideMap | NodeIndex(registered: set<Id>) | ClosedIndex

  /** `taken` are the subtrees the block has let go of with the duty to close them. `letting` counts
      releaseTxMap calls that have dropped the map and not yet run the deferred closes. */
  datatype State = State(slices: seq<Option<Id>>, deferred: seq<Id>, pins: int, txMap: TxMap, letting: nat,
                         subs: map<Id, Subtree>, taken: set<Id>)

  datatype Step =
    | Pin(index: bool)                            // pinNodeIndex and the assignment of its result
    | Register(id: Id)                            // a dedup goroutine registers a subtree's array
    | Release(pool: bool)                         // releaseSubtreeNodesLocked, with or without a pool
    | Drop(i: nat)                                // closeMmapSubtreesLocked, for entry i
    | Install(loaded: seq<Option<Id>>, mmap: set<Id>)  // the fresh slice of a reload, once all are dropped
    | CloseMap                                    // releaseTxMap closes the map
    | ClearMap                                    // ...and then clears the field
    | CloseDeferred                               // closeDeferredLocked

  // ------------------------------------------------------------ the steps

  /** Closing a node index unpins the arrays. */
  function CloseIndex(s: State): State {
    if s.txMap.NodeIndex? then s.(pins := s.pins - 1, txMap := NoMap) else s.(txMap := NoMap)
  }

  function Detached(st: Subtree, pool: bool): Subtree {
    Subtree(st.mmap, false, st.closed + 1, st.pooled || (pool && st.attached && !st.mmap))
  }

  /** One turn of the release loop. */
  function ReleaseAt(s: State, i: nat, pool: bool): State
    requires i < |s.slices| && SlicesKnown(s)
  {
    if s.slices[i].None? then s
    else
      var id := s.slices[i].value;
      var s' := s.(slices := s.slices[i := None], taken := s.taken + {id});
      if s.pins > 0 then s'.(deferred := s'.deferred + [id])
      else s'.(subs := s'.subs[id := Detached(s.subs[id], pool)])
  }

  ghost predicate SlicesKnown(s: State) {
    forall i :: 0 <= i < |s.slices| && s.slices[i].Some? ==> s.slices[i].value in s.subs
  }

  ghost function ReleaseFrom(s: State, i: nat, pool: bool): State
    requires i <= |s.slices| && SlicesKnown(s)
    decreases |s.slices| - i
  {
    if i == |s.slices| then s else ReleaseFrom(ReleaseAt(s, i, pool), i + 1, pool)
  }

  /** One entry dropped before a reload: only mmap-backed subtrees are closed, without pooling. The
      source leaves the array alone because the caller replaces it right after; here the entry is
      dropped at once. */
  function DropAt(s: State, i: nat): State
    requires i < |s.slices| && SlicesKnown(s)
  {
    if s.slices[i].None? then s
    else
      var id := s.slices[i].value;
      var s' := s.(slices := s.slices[i := None]);
      if !s.subs[id].mmap then s'
      else if s.pins > 0 then s'.(deferred := s'.deferred + [id], taken := s.taken + {id})
      else s'.(subs := s'.subs[id := Detached(s.subs[id], false)], taken := s.taken + {id})
  }

  /** The subtrees a reload brings in, attached and open. */
  function Load(subs: map<Id, Subtree>, loaded: seq<Option<Id>>, mmap: set<Id>): map<Id, Subtree> {
    subs + map id | id in Ids(loaded) :: Subtree(id in mmap, true, 0, false)
  }

  function Ids(slices: seq<Option<Id>>): set<Id> {
    set i | 0 <= i < |slices| && slices[i].Some? :: slices[i].value
  }

  function CloseAll(subs: map<Id, Subtree>, ids: seq<Id>): map<Id, Subtree> {
    if ids == [] then subs
    else
      var rest := CloseAll(subs, ids[..|ids| - 1]);
      var id := ids[|ids| - 1];
      if id in rest then rest[id := Detached(rest[id], false)] else rest
  }

  /** Loaded subtrees are new to the block and distinct. The goroutine that fills the map also lets it go, so
      no map is installed between the close of the old one and the clearing of the field. */
  ghost predicate Allowed(s: State, step: Step) {
    match step
    case Drop(i) => i < |s.slices|
    case Install(loaded, _) =>
      && (forall i :: 0 <= i < |s.slices| ==> s.slices[i].None?)
      && Ids(loaded) !! s.subs.Keys
      && (forall i, j :: 0 <= i < j < |loaded| && loaded[i].Some? && loaded[j].Some? ==>
        loaded[i].value != loaded[j].value)
    case Register(id) => id in s.subs
    case CloseDeferred => s.letting > 0
    case Pin(_) => !s.txMap.ClosedIndex?
    case ClearMap => !s.txMap.NodeIndex?
    case _ => true
  }

  ghost function Next(s: State, step: Step): State
    requires SlicesKnown(s) && Allowed(s, step)
  {
    match step
    case Pin(index) =>
      var closed := CloseIndex(s);
      if index then closed.(pins := closed.pins + 1, txMap := NodeIndex({})) else closed.(txMap := WideMap)
    case Register(id) =>
      // a subtree already released has no nodes left to register
      if s.txMap.NodeIndex? && s.subs[id].attached then s.(txMap := NodeIndex(s.txMap.registered + {id})) else s
    case Release(pool) => ReleaseFrom(s, 0, pool)
    case Drop(i) => DropAt(s, i)
    case Install(loaded, mmap) => s.(slices := loaded, subs := Load(s.subs, loaded, mmap))
    case CloseMap =>
      if s.txMap.NodeIndex? then s.(pins := s.pins - 1, txMap := ClosedIndex) else s
    case ClearMap =>
      if s.txMap.NoMap? then s else s.(txMap := NoMap, letting := s.letting + 1)
    case CloseDeferred =>
      var s' := s.(letting := s.letting - 1);
      if s.pins > 0 || s.deferred == [] then s' else s'.(subs := CloseAll(s.subs, s.deferred), deferred := [])
  }

  // ------------------------------------------------------------ the invariant

  ghost predicate DistinctSlices(slices: seq<Option<Id>>) {
    forall i, j :: 0 <= i < j < |slices| && slices[i].Some? && slices[j].Some? ==> slices[i].value != slices[j].value
  }

  ghost predicate DistinctIds(ids: seq<Id>) {
    forall i, j :: 0 <= i < j < |ids| ==> ids[i] != ids[j]
  }

  /** Whether the block still owes the close of a subtree it took. */
  ghost predicate SubOk(s: State, id: Id)
    requires id in s.subs
  {
    var st := s.subs[id];
    && st.closed <= 1
    && (st.attached <==> st.closed == 0)
    && (id in s.taken <==> st.closed == 1 || id in s.deferred)
    && !(st.closed == 1 && id in s.deferred)
    && (st.pooled ==> st.closed == 1 && !st.mmap)
  }

  ghost predicate Inv(s: State) {
    && s.pins == (if s.txMap.NodeIndex? then 1 else 0)
    && SlicesKnown(s) && DistinctSlices(s.slices) && DistinctIds(s.deferred)
    && (forall id :: id in s.deferred ==> id in s.subs)
    && (forall id :: id in s.subs ==> SubOk(s, id))
    && s.taken <= s.subs.Keys
    && (forall i :: 0 <= i < |s.slices| && s.slices[i].Some? ==> s.slices[i].value !in s.taken)
    // a live index reads only arrays that are attached
    && (s.txMap.NodeIndex? ==> forall id :: id in s.txMap.registered ==> id in s.subs && s.subs[id].attached)
    // nobody forgets a deferred close
    && (s.deferred != [] ==> !s.txMap.NoMap? || s.letting > 0)
  }

  lemma {:induction false} ReleaseAtInv(s: State, i: nat, pool: bool)
    requires Inv(s) && i < |s.slices|
    ensures Inv(ReleaseAt(s, i, pool))
  {
    var s' := ReleaseAt(s, i, pool);
    if s.slices[i].Some? {
      var id := s.slices[i].value;
      forall x | x in s'.subs ensures SubOk(s', x) {
        assert SubOk(s, x);
      }
    }
  }

  lemma {:induction false} ReleaseFromInv(s: State, i: nat, pool: bool)
    requires Inv(s) && i <= |s.slices|
    ensures Inv(ReleaseFrom(s, i, pool))
    decreases |s.slices| - i
  {
    if i < |s.slices| {
      ReleaseAtInv(s, i, pool);
      ReleaseFromInv(ReleaseAt(s, i, pool), i + 1, pool);
    }
  }

  lemma {:induction false} DropAtInv(s: State, i: nat)
    requires Inv(s) && i < |s.slices|
    ensures Inv(DropAt(s, i)) && DropAt(s, i).subs.Keys == s.subs.Keys && DropAt(s, i).slices[i].None?
    ensures forall j :: 0 <= j < |s.slices| && s.slices[j].None? ==> DropAt(s, i).slices[j].None?
  {
    var s' := DropAt(s, i);
    if s.slices[i].Some? {
      var id := s.slices[i].value;
      forall x | x in s'.subs ensures SubOk(s', x) {
        assert SubOk(s, x);
      }
    }
  }

  lemma {:induction false} CloseAllEach(subs: map<Id, Subtree>, ids: seq<Id>, x: Id)
    requires DistinctIds(ids) && (forall id :: id in ids ==> id in subs) && x in subs
    ensures CloseAll(subs, ids).Keys == subs.Keys
    ensures CloseAll(subs, ids)[x] == if x in ids then Detached(subs[x], false) else subs[x]
  {
    if ids != [] {
      var pre, last := ids[..|ids| - 1], ids[|ids| - 1];
      CloseAllEach(subs, pre, x);
      CloseAllEach(subs, pre, last);
      assert ids == pre + [last];
      assert last !in pre;
    }
  }

  lemma {:induction false} CloseDeferredInv(s: State)
    requires Inv(s) && s.letting > 0
    ensures Inv(Next(s, CloseDeferred))
  {
    var s' := Next(s, CloseDeferred);
    if s.pins == 0 && s.deferred != [] {
      CloseAllEach(s.subs, s.deferred, s.deferred[0]);
      forall x | x in s'.subs ensures SubOk(s', x) {
        assert SubOk(s, x);
        CloseAllEach(s.subs, s.deferred, x);
      }
    } else {
      forall x | x in s'.subs ensures SubOk(s', x) {
        assert SubOk(s, x);
      }
    }
  }

  lemma {:induction false} InstallInv(s: State, loaded: seq<Option<Id>>, mmap: set<Id>)
    requires Inv(s) && Allowed(s, Install(loaded, mmap))
    ensures Inv(Next(s, Install(loaded, mmap)))
  {
    var s' := Next(s, Install(loaded, mmap));
    assert forall i :: 0 <= i < |loaded| && loaded[i].Some? ==> loaded[i].value in Ids(loaded);
    forall x | x in s'.subs ensures SubOk(s', x) {
      assert x in s.subs ==> SubOk(s, x);
    }
  }

  lemma {:induction false} PinInv(s: State, step: Step)
    requires Inv(s) && Allowed(s, step) && (step.Pin? || step.Register? || step.CloseMap? || step.ClearMap?)
    ensures Inv(Next(s, step))
  {
    var s' := Next(s, step);
    forall x | x in s'.subs ensures SubOk(s', x) {
      assert SubOk(s, x);
    }
  }

  lemma {:induction false} StepInv(s: State, step: Step)
    requires Inv(s) && Allowed(s, step)
    ensures Inv(Next(s, step))
  {
    match step
    case Release(pool) => ReleaseFromInv(s, 0, pool);
    case Drop(i) => DropAtInv(s, i);
    case Install(loaded, mmap) => InstallInv(s, loaded, mmap);
    case CloseDeferred => CloseDeferredInv(s);
    case _ => PinInv(s, step);
  }

  // ------------------------------------------------------------ runs

  const EMPTY: State := State([], [], 0, NoMap, 0, map[], {})

  /** The states of a run from the empty block; None once a step is not allowed. */
  ghost function Run(steps: seq<Step>): (r: Option<State>)
    ensures r.Some? ==> Inv(r.value)
  {
    if steps == [] then Some(EMPTY)
    else
      var before := Run(steps[..|steps| - 1]);
      var step := steps[|steps| - 1];
      if before.None? || !Allowed(before.value, step) then None
      else
        StepInv(before.value, step);
        Some(Next(before.value, step))
  }

  /** While an index is live no step detaches, pools or closes anything. */
  lemma {:induction false} LiveIndexFreezesSubtrees(s: State, step: Step, id: Id)
    requires Inv(s) && Allowed(s, step) && s.txMap.NodeIndex? && id in s.subs
    ensures id in Next(s, step).subs && Next(s, step).subs[id] == s.subs[id]
  {
    match step
    case Release(pool) => PinnedRelease(s, 0, pool);
    case _ =>
  }

  lemma {:induction false} PinnedRelease(s: State, i: nat, pool: bool)
    requires i <= |s.slices| && SlicesKnown(s) && s.pins > 0
    ensures ReleaseFrom(s, i, pool).subs == s.subs
    decreases |s.slices| - i
  {
    if i < |s.slices| {
      PinnedRelease(ReleaseAt(s, i, pool), i + 1, pool);
    }
  }

  /** In every run: what a live index reads is attached and open; a subtree is closed at most once; one
      the block took is closed, or its close is deferred and will be run; nothing mmap-backed is
      pooled. */
  lemma {:induction false} EveryRunIsSafe(steps: seq<Step>, id: Id)
    requires Run(steps).Some? && id in Run(steps).value.subs
    ensures
      var s, st := Run(steps).value, Run(steps).value.subs[id];
      && (s.txMap.NodeIndex? && id in s.txMap.registered ==> st.attached && st.closed == 0 && !st.pooled)
      && st.closed <= 1
      && (id in s.taken ==> (st.closed == 1 && id !in s.deferred) || (st.closed == 0 && id in s.deferred))
      && (id !in s.taken ==> st.closed == 0 && st.attached)
      && (st.mmap ==> !st.pooled)
      && (s.deferred != [] ==> !s.txMap.NoMap? || s.letting > 0)
  {
    assert SubOk(Run(steps).value, id);
  }

  /** A subtree that was taken and not pooled then. */
  ghost predicate TakenUnpooled(s: State, id: Id) {
    id in s.subs && !s.subs[id].pooled && id in s.taken
  }

  lemma {:induction false} StepKeepsUnpooled(s: State, step: Step, id: Id)
    requires Inv(s) && Allowed(s, step) && TakenUnpooled(s, id)
    ensures TakenUnpooled(Next(s, step), id)
  {
    assert SubOk(s, id);
    match step
    case Release(pool) => ReleaseSpares(s, 0, pool, id);
    case CloseDeferred => CloseAllEach(s.subs, s.deferred, id);
    case _ =>
  }

  lemma {:induction false} ReleaseSpares(s: State, i: nat, pool: bool, id: Id)
    requires Inv(s) && i <= |s.slices| && id in s.taken
    ensures
      var t := ReleaseFrom(s, i, pool);
      id in s.subs && id in t.taken && id in t.subs && t.subs[id] == s.subs[id]
    decreases |s.slices| - i
  {
    if i < |s.slices| {
      ReleaseAtInv(s, i, pool);
      ReleaseSpares(ReleaseAt(s, i, pool), i + 1, pool, id);
    }
  }

  /** A prefix of a run is a run. */
  lemma {:induction false} RunPrefix(steps: seq<Step>, k: nat)
    requires Run(steps).Some? && k <= |steps|
    ensures Run(steps[..k]).Some?
  {
    if k == |steps| {
      assert steps[..k] == steps;
    } else {
      var before := steps[..|steps| - 1];
      RunPrefix(before, k);
      assert before[..k] == steps[..k];
    }
  }

  /** In every run, a subtree whose close was deferred at some point is never pooled, then or later: the
      array an index has read is dropped. */
  lemma {:induction false} DeferredIsNeverPooled(steps: seq<Step>, k: nat, id: Id)
    requires Run(steps).Some? && k <= |steps|
    requires Run(steps[..k]).Some? && id in Run(steps[..k]).value.deferred
    ensures TakenUnpooled(Run(steps).value, id)
  {
    if k == |steps| {
      assert steps[..k] == steps;
      assert SubOk(Run(steps).value, id);
    } else {
      var before := steps[..|steps| - 1];
      RunPrefix(steps, |steps| - 1);
      assert before[..k] == steps[..k];
      DeferredIsNeverPooled(before, k, id);
      StepKeepsUnpooled(Run(before).value, steps[|steps| - 1], id);
    }
  }

  /** Once the map is gone and no releaseTxMap is under way, every subtree that was taken has been closed
      exactly once. */
  lemma {:induction false} AllClosedInTheEnd(steps: seq<Step>, id: Id)
    requires Run(steps).Some? && id in Run(steps).value.taken
    requires Run(steps).value.txMap.NoMap? && Run(steps).value.letting == 0
    ensures id in Run(steps).value.subs && Run(steps).value.subs[id].closed == 1
  {
    EveryRunIsSafe(steps, id);
  }

  /** A release takes every loaded subtree. */
  lemma {:induction false} ReleaseTakesAll(s: State, i: nat, pool: bool, k: nat)
    requires Inv(s) && i <= k < |s.slices| && s.slices[k].Some?
    ensures s.slices[k].value in ReleaseFrom(s, i, pool).taken
    decreases |s.slices| - i
  {
    ReleaseAtInv(s, i, pool);
    var s' := ReleaseAt(s, i, pool);
    if i < k {
      ReleaseTakesAll(s', i + 1, pool, k);
    } else {
      TakenGrows(s', i + 1, pool, s.slices[k].value);
    }
  }

  lemma {:induction false} TakenGrows(s: State, i: nat, pool: bool, id: Id)
    requires SlicesKnown(s) && i <= |s.slices| && id in s.taken
    ensures id in ReleaseFrom(s, i, pool).taken
    decreases |s.slices| - i
  {
    if i < |s.slices| {
      TakenGrows(ReleaseAt(s, i, pool), i + 1, pool, id);
    }
  }

  /** Every mmap-backed subtree is still in its place or was taken. */
  ghost predicate MmapKept(s: State) {
    forall id :: id in s.subs && s.subs[id].mmap ==> id in s.taken || InPlace(s, id)
  }

  ghost predicate InPlace(s: State, id: Id) {
    exists i :: 0 <= i < |s.slices| && s.slices[i] == Some(id)
  }

  lemma {:induction false} ReleaseKeepsMmap(s: State, i: nat, pool: bool)
    requires Inv(s) && i <= |s.slices| && MmapKept(s)
    ensures MmapKept(ReleaseFrom(s, i, pool))
    decreases |s.slices| - i
  {
    if i < |s.slices| {
      ReleaseAtInv(s, i, pool);
      EntryKeepsMmap(s, ReleaseAt(s, i, pool), i);
      ReleaseKeepsMmap(ReleaseAt(s, i, pool), i + 1, pool);
    }
  }

  lemma {:induction false} EntryKeepsMmap(s: State, t: State, i: nat)
    requires MmapKept(s) && i < |s.slices| && t.subs.Keys == s.subs.Keys && s.taken <= t.taken
    requires forall id :: id in s.subs ==> t.subs[id].mmap == s.subs[id].mmap
    requires |t.slices| == |s.slices| && forall k :: 0 <= k < |s.slices| && k != i ==> t.slices[k] == s.slices[k]
    requires s.slices[i].Some? && s.slices[i].value in s.subs && s.subs[s.slices[i].value].mmap ==>
      s.slices[i].value in t.taken
    ensures MmapKept(t)
  {
    forall id | id in t.subs && t.subs[id].mmap ensures id in t.taken || InPlace(t, id) {
      if id !in s.taken {
        var k :| 0 <= k < |s.slices| && s.slices[k] == Some(id);
        assert k != i ==> t.slices[k] == Some(id);
      }
    }
  }

  lemma {:induction false} StepKeepsMmap(s: State, step: Step)
    requires Inv(s) && Allowed(s, step) && MmapKept(s)
    ensures MmapKept(Next(s, step))
  {
    var t := Next(s, step);
    match step
    case Release(pool) => ReleaseKeepsMmap(s, 0, pool);
    case Drop(i) => EntryKeepsMmap(s, t, i);
    case Install(loaded, mmap) =>
      forall id | id in t.subs && t.subs[id].mmap ensures id in t.taken || InPlace(t, id) {
        if id in Ids(loaded) {
          var k :| 0 <= k < |loaded| && loaded[k] == Some(id);
          assert t.slices[k] == Some(id);
        }
      }
    case CloseDeferred =>
      forall id | id in t.subs && t.subs[id].mmap ensures id in t.taken || InPlace(t, id) {
        CloseKeepsMmap(s.subs, s.deferred, id);
        assert id in s.taken || InPlace(s, id);
        if id !in s.taken {
          var k :| 0 <= k < |s.slices| && s.slices[k] == Some(id);
          assert t.slices[k] == Some(id);
        }
      }
    case _ => SameSlices(s, t);
  }

  lemma {:induction false} SameSlices(s: State, t: State)
    requires MmapKept(s) && t.slices == s.slices && t.subs == s.subs && t.taken == s.taken
    ensures MmapKept(t)
  {
    forall id: Id | InPlace(s, id) ensures InPlace(t, id) {
      var k :| 0 <= k < |s.slices| && s.slices[k] == Some(id);
      assert t.slices[k] == Some(id);
    }
  }

  lemma {:induction false} CloseKeepsMmap(subs: map<Id, Subtree>, ids: seq<Id>, id: Id)
    ensures CloseAll(subs, ids).Keys == subs.Keys
    ensures id in subs ==> CloseAll(subs, ids)[id].mmap == subs[id].mmap
  {
    if ids != [] {
      CloseKeepsMmap(subs, ids[..|ids| - 1], id);
    }
  }

  /** In every run, whatever falls between the entries of a reload: an mmap-backed subtree that is no longer in
      its place was taken, so EveryRunIsSafe and AllClosedInTheEnd speak of it. */
  lemma {:induction false} MmapIsNeverLost(steps: seq<Step>, id: Id)
    requires Run(steps).Some? && id in Run(steps).value.subs && Run(steps).value.subs[id].mmap
    ensures id in Run(steps).value.taken || InPlace(Run(steps).value, id)
  {
    RunKeepsMmap(steps);
  }

  lemma {:induction false} RunKeepsMmap(steps: seq<Step>)
    requires Run(steps).Some?
    ensures MmapKept(Run(steps).value)
  {
    if steps != [] {
      RunPrefix(steps, |steps| - 1);
      RunKeepsMmap(steps[..|steps| - 1]);
      StepKeepsMmap(Run(steps[..|steps| - 1]).value, steps[|steps| - 1]);
    }
  }

  /** Once releaseTxMap has let an index go and run the deferred closes, none is left, unless another
      index was pinned in between. */
  lemma {:induction false} NoDeferredAfterRelease(s: State)
    requires Inv(s) && s.letting > 0
    ensures Next(s, CloseDeferred).deferred == [] || s.txMap.NodeIndex?
    ensures forall id :: id in s.deferred && !s.txMap.NodeIndex? ==>
      id in Next(s, CloseDeferred).subs && Next(s, CloseDeferred).subs[id].closed == 1
  {
    forall id | id in s.deferred && !s.txMap.NodeIndex?
      ensures id in Next(s, CloseDeferred).subs && Next(s, CloseDeferred).subs[id].closed == 1 {
      assert SubOk(s, id);
      CloseAllEach(s.subs, s.deferred, id);
    }
  }

  // ------------------------------------------------------------ what the steps leave

  /** The loaded subtrees from index i on, in order. */
  ghost function LoadedFrom(slices: seq<Option<Id>>, i: nat): seq<Id>
    requires i <= |slices|
    decreases |slices| - i
  {
    if i == |slices| then []
    else (if slices[i].Some? then [slices[i].value] else []) + LoadedFrom(slices, i + 1)
  }

  ghost predicate LoadedAfter(slices: seq<Option<Id>>, i: nat, id: Id) {
    exists k :: i <= k < |slices| && slices[k] == Some(id)
  }

  lemma {:induction false} LoadedIsIds(slices: seq<Option<Id>>, i: nat, id: Id)
    requires i <= |slices|
    ensures id in LoadedFrom(slices, i) <==> LoadedAfter(slices, i, id)
    decreases |slices| - i
  {
    if i < |slices| {
      LoadedIsIds(slices, i + 1, id);
      assert LoadedAfter(slices, i, id) <==> slices[i] == Some(id) || LoadedAfter(slices, i + 1, id);
    }
  }

  lemma {:induction false} LoadedStays(slices: seq<Option<Id>>, i: nat, j: nat)
    requires i < j <= |slices|
    ensures LoadedFrom(slices[i := None], j) == LoadedFrom(slices, j)
    decreases |slices| - j
  {
    if j < |slices| {
      LoadedStays(slices, i, j + 1);
    }
  }

  /** The subtrees after a release: those in `ids` detached and closed, those of them on the heap pooled if there
      is a pool, the others as they were. */
  ghost predicate ClosedNow(was: map<Id, Subtree>, now: map<Id, Subtree>, ids: set<Id>, pool: bool) {
    && now.Keys == was.Keys
    && (forall id :: id in was ==>
      now[id] == if id in ids then Subtree(was[id].mmap, false, 1, pool && !was[id].mmap) else was[id])
  }

  /** The entries from i on are empty, those before as they were. */
  ghost predicate Emptied(was: seq<Option<Id>>, now: seq<Option<Id>>, i: nat) {
    |now| == |was| && forall k :: 0 <= k < |was| ==> now[k] == if k < i then was[k] else None
  }

  lemma {:induction false} EmptiedOneMore(was: seq<Option<Id>>, now: seq<Option<Id>>, i: nat, next: nat)
    requires i < |was| && next == i + 1 && Emptied(was[i := None], now, next)
    ensures Emptied(was, now, i)
  {
  }

  ghost predicate Released(s: State, t: State, i: nat, pool: bool)
    requires i <= |s.slices|
  {
    && Emptied(s.slices, t.slices, i)
    && t.pins == s.pins && t.txMap == s.txMap && t.letting == s.letting
    && t.taken == s.taken + SetOf(LoadedFrom(s.slices, i))
    && t.deferred == (if s.pins > 0 then s.deferred + LoadedFrom(s.slices, i) else s.deferred)
    && ClosedNow(s.subs, t.subs, if s.pins > 0 then {} else SetOf(LoadedFrom(s.slices, i)), pool)
  }

  ghost function SetOf(ids: seq<Id>): set<Id> {
    set id | id in ids
  }

  /** A release empties every entry. While a node index is live the subtrees are listed for a later close in block
      order and left as they are; otherwise they are closed now. */
  lemma {:induction false} ReleaseLeaves(s: State, i: nat, pool: bool)
    requires Inv(s) && i <= |s.slices|
    ensures Released(s, ReleaseFrom(s, i, pool), i, pool)
    decreases |s.slices| - i
  {
    if i < |s.slices| {
      ReleaseAtInv(s, i, pool);
      ReleaseLeaves(ReleaseAt(s, i, pool), i + 1, pool);
      OpenInPlace(s, i, i + 1);
      ReleasedNext(s, ReleaseFrom(s, i, pool), i, i + 1, pool);
    }
  }

  /** A loaded subtree is open and loaded once. */
  ghost predicate OpenOnce(s: State, i: nat, next: nat)
    requires i < |s.slices|
  {
    s.slices[i].Some? ==>
      var id := s.slices[i].value;
      id in s.subs && s.subs[id].closed == 0 && s.subs[id].attached && !s.subs[id].pooled
        && !LoadedAfter(s.slices, next, id)
  }

  lemma {:induction false} OpenInPlace(s: State, i: nat, next: nat)
    requires Inv(s) && i < |s.slices| && next == i + 1
    ensures OpenOnce(s, i, next)
  {
    if s.slices[i].Some? {
      assert SubOk(s, s.slices[i].value);
    }
  }

  lemma {:induction false} ReleasedNext(s: State, t: State, i: nat, next: nat, pool: bool)
    requires SlicesKnown(s) && i < |s.slices| && next == i + 1 && OpenOnce(s, i, next)
    requires Released(ReleaseAt(s, i, pool), t, next, pool)
    ensures Released(s, t, i, pool)
  {
    var m := ReleaseAt(s, i, pool);
    if s.slices[i].None? {
      ReleasedNothing(s, t, i, next, pool);
    } else if s.pins > 0 {
      ReleasedPinned(s, m, t, i, next, s.slices[i].value, pool);
    } else {
      ReleasedOpen(s, m, t, i, next, s.slices[i].value, pool);
    }
  }

  lemma {:induction false} ReleasedNothing(s: State, t: State, i: nat, next: nat, pool: bool)
    requires i < |s.slices| && next == i + 1 && s.slices[i].None? && Released(s, t, next, pool)
    ensures Released(s, t, i, pool)
  {
    assert s.slices[i := None] == s.slices;
    EmptiedOneMore(s.slices, t.slices, i, next);
    assert LoadedFrom(s.slices, i) == LoadedFrom(s.slices, next);
  }

  lemma {:induction false} ReleasedPinned(s: State, m: State, t: State, i: nat, next: nat, id: Id, pool: bool)
    requires i < |s.slices| && next == i + 1 && s.slices[i] == Some(id) && s.pins > 0
    requires m == s.(slices := s.slices[i := None], taken := s.taken + {id}, deferred := s.deferred + [id])
    requires !LoadedAfter(s.slices, next, id) && Released(m, t, next, pool)
    ensures Released(s, t, i, pool)
  {
    var rest := LoadedFrom(s.slices, next);
    LoadedIsOneMore(s.slices, i, next, id, rest);
    EmptiedOneMore(s.slices, t.slices, i, next);
    assert s.deferred + ([id] + rest) == s.deferred + [id] + rest;
  }

  lemma {:induction false} ReleasedOpen(s: State, m: State, t: State, i: nat, next: nat, id: Id, pool: bool)
    requires i < |s.slices| && next == i + 1 && s.slices[i] == Some(id) && s.pins <= 0 && id in s.subs
    requires m == s.(slices := s.slices[i := None], taken := s.taken + {id},
                     subs := s.subs[id := Detached(s.subs[id], pool)])
    requires s.subs[id].closed == 0 && s.subs[id].attached && !s.subs[id].pooled
    requires !LoadedAfter(s.slices, next, id) && Released(m, t, next, pool)
    ensures Released(s, t, i, pool)
  {
    var rest := LoadedFrom(s.slices, next);
    LoadedIsOneMore(s.slices, i, next, id, rest);
    EmptiedOneMore(s.slices, t.slices, i, next);
    ClosedOneMore(s.subs, t.subs, SetOf(rest), id, pool);
  }

  lemma {:induction false} LoadedIsOneMore(slices: seq<Option<Id>>, i: nat, next: nat, id: Id, rest: seq<Id>)
    requires i < |slices| && next == i + 1 && slices[i] == Some(id) && rest == LoadedFrom(slices, next)
    requires !LoadedAfter(slices, next, id)
    ensures LoadedFrom(slices[i := None], next) == rest && LoadedFrom(slices, i) == [id] + rest
    ensures SetOf(LoadedFrom(slices, i)) == {id} + SetOf(rest) && id !in SetOf(rest)
  {
    LoadedStays(slices, i, next);
    LoadedIsIds(slices, next, id);
    assert SetOf([id] + rest) == {id} + SetOf(rest);
  }

  lemma {:induction false} ClosedOneMore(was: map<Id, Subtree>, now: map<Id, Subtree>, ids: set<Id>, id: Id, pool: bool)
    requires id in was && id !in ids && was[id].closed == 0 && was[id].attached && !was[id].pooled
    requires ClosedNow(was[id := Detached(was[id], pool)], now, ids, pool)
    ensures ClosedNow(was, now, {id} + ids, pool)
  {
  }

  /** The deferred closes: when no node index is live, every listed subtree is closed once and the list is empty. */
  lemma {:induction false} DeferredClosesLeave(s: State)
    requires Inv(s) && s.letting > 0 && !s.txMap.NodeIndex?
    ensures
      var t := Next(s, CloseDeferred);
      t.deferred == [] && ClosedNow(s.subs, t.subs, SetOf(s.deferred), false)
  {
    var t := Next(s, CloseDeferred);
    forall id | id in s.subs
      ensures id in t.subs && t.subs[id] == if id in s.deferred then Subtree(s.subs[id].mmap, false, 1, false)
                                            else s.subs[id]
    {
      assert SubOk(s, id);
      CloseAllEach(s.subs, s.deferred, id);
    }
    if s.deferred != [] {
      CloseAllEach(s.subs, s.deferred, s.deferred[0]);
    }
  }

  /** A live node index can always be let go: closing the map, clearing the field and running the deferred closes
      are allowed one after the other from every state of the invariant. Then there is no map, nothing is pinned or
      deferred, and each formerly deferred subtree has been closed exactly once. */
  lemma {:induction false} LiveIndexIsLetGo(s: State)
    requires Inv(s) && s.txMap.NodeIndex?
    ensures Allowed(s, CloseMap)
    ensures
      var closed := Next(s, CloseMap);
      && SlicesKnown(closed) && Allowed(closed, ClearMap)
      && var cleared := Next(closed, ClearMap);
         && SlicesKnown(cleared) && Allowed(cleared, CloseDeferred)
         && var t := Next(cleared, CloseDeferred);
            && t.txMap == NoMap && t.pins == 0 && t.deferred == []
            && t.slices == s.slices && t.taken == s.taken && t.letting == s.letting
            && ClosedNow(s.subs, t.subs, SetOf(s.deferred), false)
  {
    StepInv(s, CloseMap);
    var closed := Next(s, CloseMap);
    StepInv(closed, ClearMap);
    DeferredClosesLeave(Next(closed, ClearMap));
  }

  /** The mmap-backed subtrees a reload brought in are exactly those said to be, all of them attached, open and not
      pooled; what was there before is as it was. */
  lemma {:induction false} InstallLeaves(s: State, loaded: seq<Option<Id>>, mmap: set<Id>, id: Id)
    requires Inv(s) && Allowed(s, Install(loaded, mmap))
    ensures
      var t := Next(s, Install(loaded, mmap));
      && (id in t.subs <==> id in s.subs || InPlace(t, id))
      && (InPlace(t, id) ==> t.subs[id].mmap == (id in mmap) && t.subs[id].attached && t.subs[id].closed == 0)
      && (InPlace(t, id) ==> !t.subs[id].pooled && id !in t.taken)
      && (id in s.subs ==> t.subs[id] == s.subs[id])
  {
    var t := Next(s, Install(loaded, mmap));
    InstallInv(s, loaded, mmap);
    assert InPlace(t, id) <==> id in Ids(loaded) by {
      if id in Ids(loaded) {
        var k :| 0 <= k < |loaded| && loaded[k] == Some(id);
        assert t.slices[k] == Some(id);
      }
    }
  }

  // ------------------------------------------------------------ the block

  /** The first n entries are dropped, the mmap-backed ones among them taken, the others untouched. */
  ghost predicate DroppedBefore(was: State, now: State, n: nat) {
    && |now.slices| == |was.slices|
    && (forall k :: 0 <= k < |was.slices| ==> now.slices[k] == if k < n then None else was.slices[k])
    && (forall k :: 0 <= k < |was.slices| ==> EntryTaken(was, now, k, n))
    && (forall id :: id in was.subs ==> id in now.subs && now.subs[id].mmap == was.subs[id].mmap)
  }

  ghost predicate EntryTaken(was: State, now: State, k: nat, n: nat)
    requires k < |was.slices|
  {
    k < n && was.slices[k].Some? && was.slices[k].value in was.subs && was.subs[was.slices[k].value].mmap ==>
      was.slices[k].value in now.taken
  }

  lemma {:induction false} DroppedNext(was: State, now: State, i: nat)
    requires SlicesKnown(was) && SlicesKnown(now) && i < |now.slices| && DroppedBefore(was, now, i)
    ensures DroppedBefore(was, DropAt(now, i), i + 1)
  {
    var t, n := DropAt(now, i), i + 1;
    forall k | 0 <= k < |was.slices| ensures EntryTaken(was, t, k, n) {
      assert EntryTaken(was, now, k, i);
    }
  }

  /** The loop of closeDeferredLocked: closes the subtrees one after the other, detaching their nodes. */
  method CloseEach(before: map<Id, Subtree>, ids: seq<Id>) returns (subs: map<Id, Subtree>)
    requires forall i :: 0 <= i < |ids| ==> ids[i] in before
    ensures subs == CloseAll(before, ids)
  {
    subs := before;
    for i := 0 to |ids|
      invariant subs == CloseAll(before, ids[..i]) && subs.Keys == before.Keys
    {
      var id := ids[i];
      assert ids[..i + 1][..i] == ids[..i];
      var st := subs[id];
      subs := subs[id := Subtree(st.mmap, false, st.closed + 1, st.pooled)];
    }
    assert ids[..|ids|] == ids;
  }

  /** The fields of the block the protocol works on. Each method is one critical section and does
      exactly its step. */
  class Block {
    var slices: seq<Option<Id>>
    var deferred: seq<Id>
    var pins: int
    var txMap: TxMap
    var letting: nat
    var subs: map<Id, Subtree>
    ghost var taken: set<Id>

    ghost function View(): State
      reads this
    {
      State(slices, deferred, pins, txMap, letting, subs, taken)
    }

    constructor ()
      ensures View() == EMPTY
    {
      slices, deferred, pins, txMap, letting, subs, taken := [], [], 0, NoMap, 0, map[], {};
    }

    method PinNodeIndex(index: bool)
      requires Inv(View()) && !txMap.ClosedIndex?
      modifies this`pins, this`txMap
      ensures View() == Next(old(View()), Pin(index)) && Inv(View())
      ensures pins == (if index then 1 else 0) && txMap == if index then NodeIndex({}) else WideMap
    {
      StepInv(View(), Pin(index));
      if txMap.NodeIndex? {
        pins := pins - 1;
      }
      if index {
        pins := pins + 1;
        txMap := NodeIndex({});
      } else {
        txMap := WideMap;
      }
    }

    method RegisterNodes(id: Id)
      requires Inv(View()) && id in subs
      modifies this`txMap
      ensures View() == Next(old(View()), Register(id)) && Inv(View())
      ensures txMap == if old(txMap).NodeIndex? && subs[id].closed == 0 then NodeIndex(old(txMap).registered + {id})
                       else old(txMap)
    {
      StepInv(View(), Register(id));
      assert SubOk(View(), id);
      if txMap.NodeIndex? && subs[id].attached {
        txMap := NodeIndex(txMap.registered + {id});
      }
    }

    /** releaseSubtreeNodesLocked. */
    method ReleaseSubtreeNodes(pool: bool)
      requires Inv(View())
      modifies this`slices, this`deferred, this`subs, this`taken
      ensures View() == Next(old(View()), Release(pool)) && Inv(View())
      ensures Released(old(View()), View(), 0, pool)
    {
      ReleaseLeaves(View(), 0, pool);
      ReleaseEntries(pool);
    }

    method ReleaseEntries(pool: bool)
      requires Inv(View())
      modifies this`slices, this`deferred, this`subs, this`taken
      ensures View() == Next(old(View()), Release(pool)) && Inv(View())
    {
      StepInv(View(), Release(pool));
      var pinned := pins > 0;
      for i := 0 to |slices|
        invariant |slices| == |old(slices)| && pinned == (pins > 0) && SlicesKnown(View())
        invariant ReleaseFrom(old(View()), 0, pool) == ReleaseFrom(View(), i, pool)
      {
        if slices[i].None? {
          continue;
        }
        var id := slices[i].value;
        taken := taken + {id};
        if pinned {
          deferred := deferred + [id];
          slices := slices[i := None];
          continue;
        }
        var st := subs[id];
        var pooled := st.attached && pool && !st.mmap;
        subs := subs[id := Subtree(st.mmap, false, st.closed + 1, st.pooled || pooled)];
        slices := slices[i := None];
      }
    }

    /** One turn of the loop of closeMmapSubtreesLocked. The pin count is read anew for every entry, because an
        index can be closed without the lock in between. */
    method DropEntry(i: nat)
      requires Inv(View()) && i < |slices|
      modifies this`slices, this`deferred, this`subs, this`taken
      ensures View() == Next(old(View()), Drop(i)) && Inv(View())
      ensures slices == old(slices)[i := None]
      ensures
        var mapped := old(slices[i].Some? && subs[slices[i].value].mmap);
        && deferred == old(deferred) + (if mapped && pins > 0 then [old(slices)[i].value] else [])
        && ClosedNow(old(subs), subs, if mapped && pins == 0 then {old(slices)[i].value} else {}, false)
    {
      StepInv(View(), Drop(i));
      assert slices[i].Some? ==> SubOk(View(), slices[i].value);
      if slices[i].None? {
        return;
      }
      var id := slices[i].value;
      slices := slices[i := None];
      if !subs[id].mmap {
        return;
      }
      taken := taken + {id};
      if pins > 0 {
        deferred := deferred + [id];
        return;
      }
      var st := subs[id];
      subs := subs[id := Subtree(st.mmap, false, st.closed + 1, st.pooled)];
    }

    /** closeMmapSubtreesLocked when nothing falls between its turns: every mmap-backed subtree is taken and no
        entry is left for the reload that follows. */
    method CloseMmapSubtrees()
      requires Inv(View())
      modifies this
      ensures Inv(View()) && |slices| == |old(slices)| && forall i :: 0 <= i < |slices| ==> slices[i].None?
      ensures DroppedBefore(old(View()), View(), |slices|)
    {
      ghost var was := View();
      for i := 0 to |slices|
        invariant Inv(View()) && DroppedBefore(was, View(), i)
      {
        DroppedNext(was, View(), i);
        DropEntry(i);
      }
    }

    /** The fresh slice of a reload with what it loaded. */
    method InstallSubtrees(loaded: seq<Option<Id>>, mmap: set<Id>)
      requires Inv(View()) && Allowed(View(), Install(loaded, mmap))
      modifies this`slices, this`subs
      ensures View() == Next(old(View()), Install(loaded, mmap)) && Inv(View())
      ensures slices == loaded && forall id :: id in subs <==> id in old(subs) || InPlace(View(), id)
      ensures forall id :: id in subs ==>
        subs[id] == if InPlace(View(), id) then Subtree(id in mmap, true, 0, false) else old(subs)[id]
    {
      StepInv(View(), Install(loaded, mmap));
      forall id {
        InstallLeaves(View(), loaded, mmap, id);
      }
      slices := loaded;
      subs := Load(subs, loaded, mmap);
    }

    /** releaseTxMap: closing the map, which unpins a node index... */
    method CloseTxMap()
      requires Inv(View())
      modifies this`pins, this`txMap
      ensures View() == Next(old(View()), CloseMap) && Inv(View())
      ensures pins == 0 && txMap == if old(txMap).NodeIndex? then ClosedIndex else old(txMap)
    {
      StepInv(View(), CloseMap);
      if txMap.NodeIndex? {
        pins := pins - 1;
        txMap := ClosedIndex;
      }
    }

    /** ...and then clearing the field, before the lock is taken for the deferred closes. */
    method ClearTxMap()
      requires Inv(View()) && !txMap.NodeIndex?
      modifies this`txMap, this`letting
      ensures View() == Next(old(View()), ClearMap) && Inv(View())
      ensures txMap == NoMap && letting == old(letting) + if old(txMap).NoMap? then 0 else 1
    {
      StepInv(View(), ClearMap);
      if txMap.NoMap? {
        return;
      }
      txMap := NoMap;
      letting := letting + 1;
    }

    /** closeDeferredLocked under the lock. */
    method RunDeferredCloses()
      requires Inv(View()) && letting > 0
      modifies this`letting, this`subs, this`deferred
      ensures View() == Next(old(View()), CloseDeferred) && Inv(View())
      ensures letting == old(letting) - 1 && deferred == if txMap.NodeIndex? then old(deferred) else []
      ensures ClosedNow(old(subs), subs, if txMap.NodeIndex? then {} else SetOf(old(deferred)), false)
    {
      StepInv(View(), CloseDeferred);
      if !txMap.NodeIndex? {
        DeferredClosesLeave(View());
      }
      letting := letting - 1;
      if pins > 0 || |deferred| == 0 {
        return;
      }
      subs := CloseEach(subs, deferred);
      deferred := [];
    }

    /** releaseTxMap with nothing in between: whatever map there was is gone, nothing is pinned, and the closes that
        were deferred have been run, each once. */
    method ReleaseTxMap()
      requires Inv(View()) && letting == 0
      modifies this`pins, this`txMap, this`letting, this`subs, this`deferred
      ensures Inv(View()) && txMap == NoMap && pins == 0 && letting == 0 && deferred == []
      ensures ClosedNow(old(subs), subs, SetOf(old(deferred)), false)
    {
      if txMap.NoMap? {
        return;
      }
      CloseTxMap();
      ClearTxMap();
      RunDeferredCloses();
    }
  }
}
