/** The duplicate-transaction check as a concurrent protocol (checkDuplicateTransactions,
    model/Block.go, over blockNodeIndex): one writer per subtree. A subtree that fits its
    slot inserts its nodes into the index in any order and then checks the overflow map;
    an overflowing one inserts each node into the overflow map and then checks the index.
    Every insert and every lookup is one step. The index and the overflow map are the
    exact finite maps NodeIndex and BlockNodeIndex prove them to be. */
module TxWriters {
  import opened NodeShard
  import opened BlockNodeIndex

  datatype Pos = Pos(s: nat, t: nat)

  /** The placeholder is what the coinbase position [0][0] may hold; it is skipped there only. */
  datatype Block = Block(body: Body, placeholder: Hash)

  predicate Live(b: Block, p: Pos) {
    InBody(b.body, p.s, p.t) && !(p.s == 0 && p.t == 0 && b.body.nodes[0][0] == b.placeholder)
  }

  function HashOf(b: Block, p: Pos): Hash
    requires InBody(b.body, p.s, p.t)
  {
    b.body.nodes[p.s][p.t]
  }

  /** The place of the coinbase, when the placeholder is there. */
  ghost predicate IsPlaceholder(b: Block, p: Pos)
    requires InBody(b.body, p.s, p.t)
  {
    p == Pos(0, 0) && HashOf(b, p) == b.placeholder
  }

  /** Two positions of the block, other than a skipped placeholder, hold the same transaction. */
  ghost predicate HasRepeat(b: Block) {
    exists p, q :: Repeats(b, p, q)
  }

  ghost predicate Repeats(b: Block, p: Pos, q: Pos) {
    && InBody(b.body, p.s, p.t) && InBody(b.body, q.s, q.t) && p != q && HashOf(b, p) == HashOf(b, q)
    && !IsPlaceholder(b, p) && !IsPlaceholder(b, q)
  }

  datatype Writer =
    | Start
    | Inserting(todo: set<nat>, repeated: bool)  // index writer: nodes not inserted yet, duplicate met
    | ReadFlag                                   // all inserted, about to read hasOverflow
    | Checking(t: nat)                           // looking nodes up in the overflow map
    | OverflowPut(t: nat)                        // overflow writer: about to insert node t
    | OverflowGet(t: nat)                        // inserted node t, about to look it up in the index
    | Clean
    | Reported

  datatype State = State(index: map<Hash, Pos>, overflow: map<Hash, Pos>, hasOverflow: bool,
                         registered: set<nat>, writers: seq<Writer>)

  /** What the scheduler picks: the writer, which of its remaining nodes it inserts, and whether it
      stops at a duplicate it has met. */
  datatype Action = Action(w: nat, t: nat, stop: bool)

  function LiveNodes(b: Block, s: nat): set<nat>
    requires s < |b.body.nodes|
  {
    set t: nat | t < |b.body.nodes[s]| && Live(b, Pos(s, t))
  }

  function Initial(b: Block): State {
    State(map[], map[], false, {}, seq(|b.body.nodes|, _ => Start))
  }

  function Move(s: State, w: nat, to: Writer): State
    requires w < |s.writers|
  {
    s.(writers := s.writers[w := to])
  }

  /** One step of a writer; an action that does not apply changes nothing. */
  function Step(b: Block, s: State, a: Action): State
    requires |s.writers| == |b.body.nodes|
  {
    if a.w >= |s.writers| then s else
      var nodes := b.body.nodes[a.w];
      match s.writers[a.w]
      case Start =>
        var s' := s.(registered := s.registered + {a.w});
        if Overflows(b.body, a.w) then Move(s', a.w, OverflowPut(0))
          else Move(s', a.w, Inserting(LiveNodes(b, a.w), false))
      case Inserting(todo, repeated) =>
        if repeated && (a.stop || todo == {}) then Move(s, a.w, Reported)
        else if todo == {} then Move(s, a.w, ReadFlag)
        else if a.t !in todo || a.t >= |nodes| then s
        else if nodes[a.t] in s.index then Move(s, a.w, Inserting(todo - {a.t}, true))
        else Move(s.(index := s.index[nodes[a.t] := Pos(a.w, a.t)]), a.w, Inserting(todo - {a.t}, repeated))
      case ReadFlag => Move(s, a.w, if s.hasOverflow then Checking(0) else Clean)
      case Checking(t) =>
        if t >= |nodes| then Move(s, a.w, Clean)
        else if Live(b, Pos(a.w, t)) && nodes[t] in s.overflow then Move(s, a.w, Reported)
        else Move(s, a.w, Checking(t + 1))
      case OverflowPut(t) =>
        if t >= |nodes| then Move(s, a.w, Clean)
        else if !Live(b, Pos(a.w, t)) then Move(s, a.w, OverflowPut(t + 1))
        else if nodes[t] in s.overflow then Move(s, a.w, Reported)
        else Move(s.(overflow := s.overflow[nodes[t] := Pos(a.w, t)], hasOverflow := true), a.w, OverflowGet(t))
      case OverflowGet(t) =>
        if t < |nodes| && nodes[t] in s.index then Move(s, a.w, Reported) else Move(s, a.w, OverflowPut(t + 1))
      case Clean => s
      case Reported => s
  }

  function Exec(b: Block, actions: seq<Action>): (s: State)
    ensures |s.writers| == |b.body.nodes|
  {
    if actions == [] then Initial(b) else Step(b, Exec(b, actions[..|actions| - 1]), actions[|actions| - 1])
  }

  predicate Finished(s: State) {
    forall w :: 0 <= w < |s.writers| ==> s.writers[w].Clean? || s.writers[w].Reported?
  }

  predicate SomeReported(s: State) {
    exists w :: 0 <= w < |s.writers| && s.writers[w].Reported?
  }

  // ------------------------------------------------------------ the invariant

  /** Position p of a fitting subtree has been inserted into the index by its writer. */
  ghost predicate Inserted(w: Writer, t: nat) {
    || (w.Inserting? && !w.repeated && t !in w.todo)
    || w.ReadFlag? || w.Checking? || w.Clean?
  }

  /** ...and has been looked up in the overflow map without a match. */
  ghost predicate Checked(w: Writer, t: nat) {
    (w.Checking? && t < w.t) || w.Clean?
  }

  /** Position p of an overflowing subtree has been inserted into the overflow map... */
  ghost predicate Stored(w: Writer, t: nat) {
    (w.OverflowPut? && t < w.t) || (w.OverflowGet? && t <= w.t) || w.Clean?
  }

  /** ...and has been looked up in the index without a match. */
  ghost predicate Passed(w: Writer, t: nat) {
    (w.OverflowPut? && t < w.t) || (w.OverflowGet? && t < w.t) || w.Clean?
  }

  ghost predicate KindOk(b: Block, w: nat, state: Writer)
    requires w < |b.body.nodes|
  {
    && (state.Inserting? || state.ReadFlag? || state.Checking? ==> !Overflows(b.body, w))
    && (state.OverflowPut? || state.OverflowGet? ==> Overflows(b.body, w))
    && (state.Inserting? ==> state.todo <= LiveNodes(b, w))
    && (state.OverflowGet? ==> Live(b, Pos(w, state.t)))
    && ((state.Inserting? && state.repeated) || state.Reported? ==> HasRepeat(b))
  }

  /** An index entry is a node of a registered subtree that fits, and its writer has moved past it. */
  ghost predicate IndexEntryOk(b: Block, s: State, h: Hash) {
    h in s.index ==>
      var p := s.index[h];
      && Live(b, p) && HashOf(b, p) == h && !Overflows(b.body, p.s) && p.s in s.registered
      && p.s < |s.writers| && !s.writers[p.s].Start?
      && (s.writers[p.s].Inserting? ==> p.t !in s.writers[p.s].todo)
  }

  ghost predicate OverflowEntryOk(b: Block, s: State, h: Hash) {
    h in s.overflow ==>
      var p := s.overflow[h];
      && s.hasOverflow
      && Live(b, p) && HashOf(b, p) == h && Overflows(b.body, p.s)
      && p.s < |s.writers| && !s.writers[p.s].Start?
      && (s.writers[p.s].OverflowPut? ==> p.t < s.writers[p.s].t)
      && (s.writers[p.s].OverflowGet? ==> p.t <= s.writers[p.s].t)
  }

  /** A node its writer has put into the index is there under its own position. */
  ghost predicate IndexHolds(b: Block, s: State, p: Pos) {
    Live(b, p) && p.s < |s.writers| && !Overflows(b.body, p.s) && Inserted(s.writers[p.s], p.t) ==>
      HashOf(b, p) in s.index && s.index[HashOf(b, p)] == p
  }

  ghost predicate OverflowHolds(b: Block, s: State, p: Pos) {
    Live(b, p) && p.s < |s.writers| && Overflows(b.body, p.s) && Stored(s.writers[p.s], p.t) ==>
      HashOf(b, p) in s.overflow && s.overflow[HashOf(b, p)] == p
  }

  ghost predicate PastIndexCheck(b: Block, s: State, p: Pos) {
    Live(b, p) && p.s < |s.writers| && !Overflows(b.body, p.s) && Checked(s.writers[p.s], p.t)
  }

  ghost predicate PastOverflowCheck(b: Block, s: State, q: Pos) {
    Live(b, q) && q.s < |s.writers| && Overflows(b.body, q.s) && Passed(s.writers[q.s], q.t)
  }

  ghost predicate WriterOk(b: Block, s: State, w: nat)
    requires |s.writers| == |b.body.nodes|
  {
    w < |s.writers| ==> KindOk(b, w, s.writers[w]) && (!s.writers[w].Start? ==> w in s.registered)
  }

  ghost predicate Inv(b: Block, s: State) {
    && |s.writers| == |b.body.nodes|
    && (forall w: nat :: WriterOk(b, s, w))
    && (forall h :: IndexEntryOk(b, s, h))
    && (forall h :: OverflowEntryOk(b, s, h))
    && (forall p :: IndexHolds(b, s, p))
    && (forall p :: OverflowHolds(b, s, p))
    // of two equal hashes, one in the index and one in the overflow map, at most one gets past its check
    && (forall p, q :: PastIndexCheck(b, s, p) && PastOverflowCheck(b, s, q) ==> HashOf(b, p) != HashOf(b, q))
  }

  lemma {:induction false} TwoPositions(b: Block, p: Pos, q: Pos)
    requires Live(b, p) && Live(b, q) && p != q && HashOf(b, p) == HashOf(b, q)
    ensures HasRepeat(b)
  {
    assert Repeats(b, p, q);
  }

  /** What a step leaves alone: the other writers and every entry that is there. */
  ghost predicate Extends(s: State, s': State, w: nat) {
    && |s.writers| == |s'.writers|
    && (forall v :: 0 <= v < |s.writers| && v != w ==> s'.writers[v] == s.writers[v])
    && (forall h :: h in s.index ==> h in s'.index && s'.index[h] == s.index[h])
    && (forall h :: h in s.overflow ==> h in s'.overflow && s'.overflow[h] == s.overflow[h])
    && s.registered <= s'.registered && (s.hasOverflow ==> s'.hasOverflow)
  }

  lemma {:induction false} StepLeavesWriters(b: Block, s: State, a: Action, v: nat)
    requires |s.writers| == |b.body.nodes| && v < |s.writers| && v != a.w
    ensures |Step(b, s, a).writers| == |s.writers| && Step(b, s, a).writers[v] == s.writers[v]
  {
  }

  lemma {:induction false} StepLeavesEntries(b: Block, s: State, a: Action, h: Hash)
    requires |s.writers| == |b.body.nodes|
    ensures var t := Step(b, s, a);
      && (h in s.index ==> h in t.index && t.index[h] == s.index[h])
      && (h in s.overflow ==> h in t.overflow && t.overflow[h] == s.overflow[h])
      && s.registered <= t.registered && (s.hasOverflow ==> t.hasOverflow) && |s.writers| == |t.writers|
  {
  }

  lemma {:induction false} StepExtends(b: Block, s: State, a: Action)
    requires |s.writers| == |b.body.nodes|
    ensures Extends(s, Step(b, s, a), a.w)
  {
    var t := Step(b, s, a);
    forall v | 0 <= v < |s.writers| && v != a.w ensures |t.writers| == |s.writers| && t.writers[v] == s.writers[v] {
      StepLeavesWriters(b, s, a, v);
    }
    forall h: Hash
      ensures h in s.index ==> h in t.index && t.index[h] == s.index[h]
      ensures h in s.overflow ==> h in t.overflow && t.overflow[h] == s.overflow[h]
      ensures s.registered <= t.registered && (s.hasOverflow ==> t.hasOverflow) && |s.writers| == |t.writers|
    {
      StepLeavesEntries(b, s, a, h);
    }
  }

  /** What writer w finds under the hash of its node t is its own entry, or the block repeats the hash. */
  ghost predicate OwnOrRepeat(b: Block, m: map<Hash, Pos>, p: Pos)
    requires Live(b, p)
  {
    HashOf(b, p) in m && m[HashOf(b, p)] != p ==> HasRepeat(b)
  }

  lemma {:induction false} FoundMeansRepeat(b: Block, s: State, p: Pos)
    requires Inv(b, s) && Live(b, p)
    ensures OwnOrRepeat(b, s.index, p) && OwnOrRepeat(b, s.overflow, p)
  {
    var h := HashOf(b, p);
    assert IndexEntryOk(b, s, h) && OverflowEntryOk(b, s, h);
    if h in s.index && s.index[h] != p {
      TwoPositions(b, p, s.index[h]);
    }
    if h in s.overflow && s.overflow[h] != p {
      TwoPositions(b, p, s.overflow[h]);
    }
  }

  /** The node a writer looks at in its next step. */
  function LooksAt(w: Writer, a: Action): nat {
    if w.Inserting? then a.t else if w.Checking? || w.OverflowPut? || w.OverflowGet? then w.t else 0
  }

  /** A writer only meets a duplicate where the block repeats a transaction. */
  lemma {:induction false} ActorOk(b: Block, s: State, a: Action)
    requires Inv(b, s) && a.w < |s.writers|
    ensures WriterOk(b, Step(b, s, a), a.w)
  {
    assert WriterOk(b, s, a.w);
    var p := Pos(a.w, LooksAt(s.writers[a.w], a));
    assert LookupOk(b, s, p) by {
      if Live(b, p) {
        FoundMeansRepeat(b, s, p);
        assert IndexEntryOk(b, s, HashOf(b, p)) && OverflowEntryOk(b, s, HashOf(b, p));
      }
    }
    match s.writers[a.w]
    case Start => IndexWriterStep(b, s, a);
    case Inserting(_, _) => IndexWriterStep(b, s, a);
    case ReadFlag => IndexWriterStep(b, s, a);
    case Checking(_) => CheckingStep(b, s, a);
    case OverflowPut(_) => OverflowWriterStep(b, s, a);
    case OverflowGet(_) => OverflowWriterStep(b, s, a);
    case _ =>
  }

  /** What the invariant says about the hash a writer looks up. */
  ghost predicate LookupOk(b: Block, s: State, p: Pos) {
    Live(b, p) ==>
      && OwnOrRepeat(b, s.index, p) && OwnOrRepeat(b, s.overflow, p)
      && IndexEntryOk(b, s, HashOf(b, p)) && OverflowEntryOk(b, s, HashOf(b, p))
  }

  lemma {:induction false} IndexWriterStep(b: Block, s: State, a: Action)
    requires |s.writers| == |b.body.nodes| && a.w < |s.writers| && WriterOk(b, s, a.w)
    requires s.writers[a.w].Start? || s.writers[a.w].Inserting? || s.writers[a.w].ReadFlag?
    requires LookupOk(b, s, Pos(a.w, LooksAt(s.writers[a.w], a)))
    ensures WriterOk(b, Step(b, s, a), a.w)
  {
  }

  lemma {:induction false} CheckingStep(b: Block, s: State, a: Action)
    requires |s.writers| == |b.body.nodes| && a.w < |s.writers| && WriterOk(b, s, a.w)
    requires s.writers[a.w].Checking?
    requires LookupOk(b, s, Pos(a.w, LooksAt(s.writers[a.w], a)))
    ensures WriterOk(b, Step(b, s, a), a.w)
  {
  }

  lemma {:induction false} OverflowWriterStep(b: Block, s: State, a: Action)
    requires |s.writers| == |b.body.nodes| && a.w < |s.writers| && WriterOk(b, s, a.w)
    requires s.writers[a.w].OverflowPut? || s.writers[a.w].OverflowGet?
    requires LookupOk(b, s, Pos(a.w, LooksAt(s.writers[a.w], a)))
    ensures WriterOk(b, Step(b, s, a), a.w)
  {
  }

  lemma {:induction false} StepIndexEntry(b: Block, s: State, a: Action, h: Hash)
    requires Inv(b, s) && a.w < |s.writers|
    ensures IndexEntryOk(b, Step(b, s, a), h)
  {
    assert WriterOk(b, s, a.w) && IndexEntryOk(b, s, h);
    StepExtends(b, s, a);
  }

  lemma {:induction false} StepOverflowEntry(b: Block, s: State, a: Action, h: Hash)
    requires Inv(b, s) && a.w < |s.writers|
    ensures OverflowEntryOk(b, Step(b, s, a), h)
  {
    assert WriterOk(b, s, a.w) && OverflowEntryOk(b, s, h);
    StepExtends(b, s, a);
  }

  lemma {:induction false} StepIndexHolds(b: Block, s: State, a: Action, p: Pos)
    requires Inv(b, s) && a.w < |s.writers|
    ensures IndexHolds(b, Step(b, s, a), p)
  {
    assert IndexHolds(b, s, p) && WriterOk(b, s, a.w);
    StepExtends(b, s, a);
  }

  lemma {:induction false} StepOverflowHolds(b: Block, s: State, a: Action, p: Pos)
    requires Inv(b, s) && a.w < |s.writers|
    ensures OverflowHolds(b, Step(b, s, a), p)
  {
    assert OverflowHolds(b, s, p) && WriterOk(b, s, a.w);
    StepExtends(b, s, a);
  }

  /** The index writer gets past its check only if the overflow map does not hold the hash... */
  lemma {:induction false} IndexCheckSees(b: Block, s: State, a: Action, p: Pos, q: Pos)
    requires Inv(b, s) && a.w < |s.writers| && p.s == a.w && q.s != a.w
    requires PastIndexCheck(b, Step(b, s, a), p) && PastOverflowCheck(b, s, q) && !PastIndexCheck(b, s, p)
    ensures HashOf(b, p) != HashOf(b, q)
  {
    assert OverflowHolds(b, s, q) && WriterOk(b, s, a.w) && OverflowEntryOk(b, s, HashOf(b, q));
  }

  /** ...and the overflow writer only if the index does not. */
  lemma {:induction false} OverflowCheckSees(b: Block, s: State, a: Action, p: Pos, q: Pos)
    requires Inv(b, s) && a.w < |s.writers| && q.s == a.w && p.s != a.w
    requires PastIndexCheck(b, s, p) && PastOverflowCheck(b, Step(b, s, a), q) && !PastOverflowCheck(b, s, q)
    ensures HashOf(b, p) != HashOf(b, q)
  {
    assert IndexHolds(b, s, p) && WriterOk(b, s, a.w);
  }

  lemma {:induction false} StepCross(b: Block, s: State, a: Action, p: Pos, q: Pos)
    requires Inv(b, s) && a.w < |s.writers|
    requires PastIndexCheck(b, Step(b, s, a), p) && PastOverflowCheck(b, Step(b, s, a), q)
    ensures HashOf(b, p) != HashOf(b, q)
  {
    StepExtends(b, s, a);
    if PastIndexCheck(b, s, p) {
      if !PastOverflowCheck(b, s, q) {
        OverflowCheckSees(b, s, a, p, q);
      }
    } else {
      assert p.s == a.w;
      IndexCheckSees(b, s, a, p, q);
    }
  }

  lemma {:induction false} StepKeepsInv(b: Block, s: State, a: Action)
    requires Inv(b, s)
    ensures Inv(b, Step(b, s, a))
  {
    var s' := Step(b, s, a);
    if a.w < |s.writers| {
      StepExtends(b, s, a);
      forall w: nat ensures WriterOk(b, s', w) {
        assert WriterOk(b, s, w);
        ActorOk(b, s, a);
      }
      forall h ensures IndexEntryOk(b, s', h) { StepIndexEntry(b, s, a, h); }
      forall h ensures OverflowEntryOk(b, s', h) { StepOverflowEntry(b, s, a, h); }
      forall p ensures IndexHolds(b, s', p) { StepIndexHolds(b, s, a, p); }
      forall p ensures OverflowHolds(b, s', p) { StepOverflowHolds(b, s, a, p); }
      forall p, q | PastIndexCheck(b, s', p) && PastOverflowCheck(b, s', q) ensures HashOf(b, p) != HashOf(b, q) {
        StepCross(b, s, a, p, q);
      }
    }
  }

  lemma {:induction false} ExecInv(b: Block, actions: seq<Action>)
    ensures Inv(b, Exec(b, actions))
  {
    if actions != [] {
      ExecInv(b, actions[..|actions| - 1]);
      StepKeepsInv(b, Exec(b, actions[..|actions| - 1]), actions[|actions| - 1]);
    }
  }

  /** Once every writer has finished without a report no two positions hold the same hash. */
  lemma {:induction false} AllCleanMeansDistinct(b: Block, s: State, p: Pos, q: Pos)
    requires Inv(b, s) && Finished(s) && !SomeReported(s)
    requires Live(b, p) && Live(b, q) && p != q
    ensures HashOf(b, p) != HashOf(b, q)
  {
    assert s.writers[p.s].Clean? && s.writers[q.s].Clean?;
    assert IndexHolds(b, s, p) && IndexHolds(b, s, q) && OverflowHolds(b, s, p) && OverflowHolds(b, s, q);
    assert PastIndexCheck(b, s, p) || PastOverflowCheck(b, s, p);
    assert PastIndexCheck(b, s, q) || PastOverflowCheck(b, s, q);
  }

  /** In every interleaving of the writers, once all have finished, some writer reports a duplicate
      exactly when two positions of the block hold the same transaction. */
  lemma {:induction false} SomeWriterReportsIffRepeat(b: Block, actions: seq<Action>)
    requires Finished(Exec(b, actions))
    ensures SomeReported(Exec(b, actions)) <==> HasRepeat(b)
  {
    var s := Exec(b, actions);
    ExecInv(b, actions);
    if SomeReported(s) {
      var w :| 0 <= w < |s.writers| && s.writers[w].Reported?;
      assert WriterOk(b, s, w);
    } else if HasRepeat(b) {
      var p, q :| Live(b, p) && Live(b, q) && p != q && HashOf(b, p) == HashOf(b, q);
      AllCleanMeansDistinct(b, s, p, q);
    }
  }

  /** At every moment an index entry names a node of a registered subtree that fits its slot, so
      hashAt reads back the entry's own hash. */
  lemma {:induction false} EntriesReadBack(b: Block, actions: seq<Action>, h: Hash)
    requires b.body.size > 0 && h in Exec(b, actions).index
    ensures
      var p := Exec(b, actions).index[h];
      p.s in Exec(b, actions).registered && HashAt(b.body, GlobalIndex(b.body, p.s, p.t)) == h
  {
    ExecInv(b, actions);
    var p := Exec(b, actions).index[h];
    assert IndexEntryOk(b, Exec(b, actions), h);
    HashAtRecovers(b.body, p.s, p.t);
  }

  // ------------------------------------------------------------ every run can be completed

  /** How many steps a writer has left at most. */
  function Left(b: Block, w: nat, state: Writer): nat
    requires w < |b.body.nodes|
  {
    var n := |b.body.nodes[w]|;
    match state
    case Start => |LiveNodes(b, w)| + 2 * n + 5
    case Inserting(todo, _) => |todo| + n + 4
    case ReadFlag => n + 3
    case Checking(t) => if t >= n then 1 else n - t + 1
    case OverflowPut(t) => if t >= n then 1 else 2 * (n - t) + 1
    case OverflowGet(t) => if t >= n then 2 else 2 * (n - t)
    case Clean => 0
    case Reported => 0
  }

  function TotalLeft(b: Block, writers: seq<Writer>, k: nat): nat
    requires k <= |writers| == |b.body.nodes|
  {
    if k == 0 then 0 else TotalLeft(b, writers, k - 1) + Left(b, k - 1, writers[k - 1])
  }

  lemma {:induction false} TotalShrinks(b: Block, writers: seq<Writer>, after: seq<Writer>, w: nat, k: nat)
    requires k <= |writers| == |after| == |b.body.nodes| && w < |writers|
    requires forall v :: 0 <= v < |writers| && v != w ==> after[v] == writers[v]
    requires Left(b, w, after[w]) < Left(b, w, writers[w])
    ensures w < k ==> TotalLeft(b, after, k) < TotalLeft(b, writers, k)
    ensures w >= k ==> TotalLeft(b, after, k) == TotalLeft(b, writers, k)
  {
    if k > 0 {
      TotalShrinks(b, writers, after, w, k - 1);
    }
  }

  lemma {:induction false} InsertAdvances(b: Block, s: State, a: Action)
    requires |s.writers| == |b.body.nodes| && a.w < |s.writers| && s.writers[a.w].Inserting? && !a.stop
    requires a.t in s.writers[a.w].todo && a.t < |b.body.nodes[a.w]|
    ensures Left(b, a.w, Step(b, s, a).writers[a.w]) < Left(b, a.w, s.writers[a.w])
  {
    var todo := s.writers[a.w].todo;
    assert |todo - {a.t}| == |todo| - 1;
  }

  lemma {:induction false} OtherAdvances(b: Block, s: State, a: Action)
    requires |s.writers| == |b.body.nodes| && a.w < |s.writers| && a.stop
    requires !s.writers[a.w].Clean? && !s.writers[a.w].Reported?
    requires s.writers[a.w].Inserting? ==> s.writers[a.w].todo == {}
    ensures Left(b, a.w, Step(b, s, a).writers[a.w]) < Left(b, a.w, s.writers[a.w])
  {
    if s.writers[a.w].Start? {
      StartAdvances(b, s, a);
    }
  }

  lemma {:induction false} StartAdvances(b: Block, s: State, a: Action)
    requires |s.writers| == |b.body.nodes| && a.w < |s.writers| && s.writers[a.w].Start?
    ensures Left(b, a.w, Step(b, s, a).writers[a.w]) < Left(b, a.w, s.writers[a.w])
  {
  }

  lemma {:induction false} WriterAdvances(b: Block, s: State, w: nat) returns (a: Action)
    requires |s.writers| == |b.body.nodes| && w < |s.writers| && WriterOk(b, s, w)
    requires !s.writers[w].Clean? && !s.writers[w].Reported?
    ensures a.w == w && Left(b, w, Step(b, s, a).writers[w]) < Left(b, w, s.writers[w])
  {
    if s.writers[w].Inserting? && s.writers[w].todo != {} {
      var t :| t in s.writers[w].todo;
      assert t in LiveNodes(b, w);
      a := Action(w, t, false);
      InsertAdvances(b, s, a);
    } else {
      a := Action(w, 0, true);
      OtherAdvances(b, s, a);
    }
  }

  /** From every state a run can reach the writers can still all finish. */
  lemma {:induction false} CanFinish(b: Block, actions: seq<Action>) returns (more: seq<Action>)
    ensures actions <= more && Finished(Exec(b, more))
    decreases TotalLeft(b, Exec(b, actions).writers, |b.body.nodes|)
  {
    var s := Exec(b, actions);
    if Finished(s) {
      more := actions;
    } else {
      ExecInv(b, actions);
      var w :| 0 <= w < |s.writers| && !s.writers[w].Clean? && !s.writers[w].Reported?;
      assert WriterOk(b, s, w);
      var a := WriterAdvances(b, s, w);
      StepExtends(b, s, a);
      TotalShrinks(b, s.writers, Step(b, s, a).writers, w, |s.writers|);
      var next := actions + [a];
      assert next[..|actions|] == actions;
      more := CanFinish(b, next);
    }
  }
}
