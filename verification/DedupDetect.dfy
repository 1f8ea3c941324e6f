/** detect as a concurrent protocol. Workers take merged partitions from a shared
    counter and walk their groups; each load, compare-and-swap and locked update is
    one step, and a schedule is any sequence of worker numbers. The verdict of every
    complete run is the one the block and the resolver determine. */
module DedupDetect {
  import opened Common
  import opened InpointDedup
  import opened DedupGroups
  import opened DedupVerify

  /** No block has 2^64 - 1 transactions: the value stands for "none yet". */
  const NONE: nat := TWO64 - 1

  /** parts[p] are the groups of merged partition p, in order. */
  datatype Env = Env(hash: HashFunction, resolve: Resolver, parts: seq<seq<Group>>)

  datatype Worker =
    | Idle
    | At(p: nat, i: nat)                            // about to look at group i of partition p
    | BelowEarliest(p: nat, i: nat)                 // passed the earliest test, errBound not read yet
    | Settling(p: nat, i: nat)                      // passed both tests
    | Loading(p: nat, i: nat, tx: nat)              // in the compare-and-swap loop, before the load
    | Swapping(p: nat, i: nat, tx: nat, cur: nat)   // in the loop, after the load
    | Failing(p: nat, i: nat, error: string)        // about to record a failing group
    | Done

  datatype State = State(earliest: nat, errBound: nat, errFirst: nat, firstErr: Option<string>,
                         next: nat, workers: seq<Worker>)

  datatype Verdict = Clean | Duplicate(tx: nat) | Error(error: string)

  function Initial(workers: nat): State {
    State(NONE, NONE, 0, None, 0, seq(workers, _ => Idle))
  }

  /** Go's string order. */
  predicate TextLess(a: string, b: string) {
    if b == [] then false
    else if a == [] then true
    else if a[0] != b[0] then a[0] < b[0]
    else TextLess(a[1..], b[1..])
  }

  /** The order failGroup keeps the least of: bound, then first tx, then error text. */
  predicate RankLess(bound: nat, first: nat, error: string, bound': nat, first': nat, error': string) {
    bound < bound' || (bound == bound' && (first < first' || (first == first' && TextLess(error, error'))))
  }

  function Bound(g: Group): nat
    requires |g| >= 2
  {
    g[1].tx
  }

  function First(g: Group): nat
    requires g != []
  {
    g[0].tx
  }

  predicate InRange(env: Env, p: nat, i: nat) {
    p < |env.parts| && i < |env.parts[p]| && env.parts[p][i] != []
  }

  /** Where a worker is in its partition. */
  predicate OnGroup(w: Worker) { !w.Idle? && !w.At? && !w.Done? }
  predicate Busy(w: Worker) { !w.Idle? && !w.Done? }

  function FailGroup(s: State, bound: nat, first: nat, error: string): State {
    if s.firstErr.None? || RankLess(bound, first, error, s.errBound, s.errFirst, s.firstErr.value)
    then s.(firstErr := Some(error), errFirst := first, errBound := bound)
    else s
  }

  predicate WorkerOk(env: Env, w: Worker) {
    && (w.At? ==> w.p < |env.parts| && w.i <= |env.parts[w.p]|)
    && (OnGroup(w) ==>
          && InRange(env, w.p, w.i)
          && var g := env.parts[w.p][w.i];
          && |g| >= 2
          && (w.Loading? || w.Swapping? ==> Settle(env.hash, g, env.resolve) == Found(w.tx))
          && (w.Failing? ==> Settle(env.hash, g, env.resolve) == Failed(w.error)))
  }

  predicate GroupsNonempty(env: Env) {
    forall p, i :: 0 <= p < |env.parts| && 0 <= i < |env.parts[p]| ==> env.parts[p][i] != []
  }

  predicate WorkersOk(env: Env, s: State) {
    forall v :: 0 <= v < |s.workers| ==> WorkerOk(env, s.workers[v])
  }

  function Move(s: State, v: nat, w: Worker): State
    requires v < |s.workers|
  {
    s.(workers := s.workers[v := w])
  }

  /** One step of worker v. */
  function Step(env: Env, s: State, v: nat): State
    requires GroupsNonempty(env) && WorkersOk(env, s) && v < |s.workers|
  {
    var w := s.workers[v];
    assert WorkerOk(env, w);
    match w
    case Idle =>
      Move(s.(next := s.next + 1), v, if s.next >= |env.parts| then Done else At(s.next, 0))
    case At(p, i) =>
      if i == |env.parts[p]| then Move(s, v, Idle)
      else
        var g := env.parts[p][i];
        if |g| >= 2 && Bound(g) < s.earliest then Move(s, v, BelowEarliest(p, i)) else Move(s, v, At(p, i + 1))
    case BelowEarliest(p, i) =>
      if Bound(env.parts[p][i]) <= s.errBound then Move(s, v, Settling(p, i)) else Move(s, v, At(p, i + 1))
    case Settling(p, i) =>
      (match Settle(env.hash, env.parts[p][i], env.resolve)
       case Distinct => Move(s, v, At(p, i + 1))
       case Found(tx) => Move(s, v, Loading(p, i, tx))
       case Failed(error) => Move(s, v, Failing(p, i, error)))
    case Loading(p, i, tx) => Move(s, v, Swapping(p, i, tx, s.earliest))
    case Swapping(p, i, tx, cur) =>
      if tx >= cur then Move(s, v, At(p, i + 1))
      else if s.earliest == cur then Move(s.(earliest := tx), v, At(p, i + 1))
      else Move(s, v, Loading(p, i, tx))
    case Failing(p, i, error) =>
      var g := env.parts[p][i];
      Move(FailGroup(s, Bound(g), First(g), error), v, At(p, i + 1))
    case Done => s
  }

  function Result(s: State): Verdict {
    if s.firstErr.Some? && (s.earliest == NONE || s.errBound < s.earliest) then Error(s.firstErr.value)
    else if s.earliest != NONE then Duplicate(s.earliest)
    else Clean
  }

  predicate Finished(s: State) {
    forall v :: 0 <= v < |s.workers| ==> s.workers[v].Done?
  }

  // ------------------------------------------------------------ what the verdict must be

  ghost predicate FoundIn(env: Env, groups: iset<Group>, g: Group, tx: nat) {
    g in groups && |g| >= 2 && Settle(env.hash, g, env.resolve) == Found(tx)
  }

  ghost predicate FailedIn(env: Env, groups: iset<Group>, g: Group, error: string) {
    g in groups && |g| >= 2 && Settle(env.hash, g, env.resolve) == Failed(error)
  }

  /** The verdict the groups determine: the lowest duplicate, unless a failing group has a bound
      below it, in which case the error of the failing group least by bound, first tx and text. */
  ghost predicate IsVerdict(env: Env, groups: iset<Group>, v: Verdict) {
    match v
    case Clean =>
      && (forall g, tx :: !FoundIn(env, groups, g, tx))
      && (forall g, e :: !FailedIn(env, groups, g, e))
    case Duplicate(d) =>
      && (exists g :: FoundIn(env, groups, g, d))
      && (forall g, tx :: FoundIn(env, groups, g, tx) ==> d <= tx)
      && (forall g, e :: FailedIn(env, groups, g, e) ==> d <= Bound(g))
    case Error(error) =>
      exists f ::
        && FailedIn(env, groups, f, error)
        && (forall g, e :: FailedIn(env, groups, g, e) ==> !RankLess(Bound(g), First(g), e, Bound(f), First(f), error))
        && (forall g, tx :: FoundIn(env, groups, g, tx) ==> Bound(f) < tx)
  }

  lemma {:induction false} TextTotal(a: string, b: string)
    ensures TextLess(a, b) || TextLess(b, a) || a == b
  {
    if a != [] && b != [] && a[0] == b[0] {
      TextTotal(a[1..], b[1..]);
      assert a == [a[0]] + a[1..] && b == [b[0]] + b[1..];
    }
  }

  lemma {:induction false} TextAsymmetric(a: string, b: string)
    ensures !(TextLess(a, b) && TextLess(b, a))
  {
    if a != [] && b != [] && a[0] == b[0] {
      TextAsymmetric(a[1..], b[1..]);
    }
  }

  lemma {:induction false} TextTransitive(a: string, b: string, c: string)
    requires TextLess(a, b) && TextLess(b, c)
    ensures TextLess(a, c)
  {
    if a != [] && a[0] == b[0] && b[0] == c[0] {
      TextTransitive(a[1..], b[1..], c[1..]);
    }
  }

  /** If x is not below y and y is not below z then x is not below z. */
  lemma {:induction false} RankChain(b: nat, f: nat, e: string, b1: nat, f1: nat, e1: string, b2: nat, f2: nat,
        e2: string)
    requires !RankLess(b, f, e, b1, f1, e1) && !RankLess(b1, f1, e1, b2, f2, e2)
    ensures !RankLess(b, f, e, b2, f2, e2)
  {
    if b == b1 == b2 && f == f1 == f2 && TextLess(e, e2) {
      TextTotal(e, e1);
      TextTotal(e1, e2);
      if TextLess(e1, e) {
        TextTransitive(e1, e, e2);
      }
    }
  }

  /** The groups and the resolver leave one verdict. */
  lemma {:induction false} VerdictUnique(env: Env, groups: iset<Group>, v: Verdict, v': Verdict)
    requires IsVerdict(env, groups, v) && IsVerdict(env, groups, v')
    ensures v == v'
  {
    match (v, v')
    case (Error(e), Error(e')) =>
      var f :|
        && FailedIn(env, groups, f, e)
        && forall g, x :: FailedIn(env, groups, g, x) ==> !RankLess(Bound(g), First(g), x, Bound(f), First(f), e);
      var f' :|
        && FailedIn(env, groups, f', e')
        && forall g, x :: FailedIn(env, groups, g, x) ==> !RankLess(Bound(g), First(g), x, Bound(f'), First(f'), e');
      TextTotal(e, e');
    case (Duplicate(d), Error(e)) => ErrorExcludesDuplicate(env, groups, d, e);
    case (Error(e), Duplicate(d)) => ErrorExcludesDuplicate(env, groups, d, e);
    case _ =>
  }

  lemma {:induction false} ErrorExcludesDuplicate(env: Env, groups: iset<Group>, d: nat, e: string)
    ensures !(IsVerdict(env, groups, Duplicate(d)) && IsVerdict(env, groups, Error(e)))
  {
    if IsVerdict(env, groups, Error(e)) {
      var f :| FailedIn(env, groups, f, e) && (forall g, tx :: FoundIn(env, groups, g, tx) ==> Bound(f) < tx);
    }
  }

  // ------------------------------------------------------------ the invariant

  ghost function GroupsOf(env: Env): iset<Group> {
    iset p, i | 0 <= p < |env.parts| && 0 <= i < |env.parts[p]| :: env.parts[p][i]
  }

  /** A duplicate a group yields is never below its second smallest transaction, nor the sentinel. */
  ghost predicate Bounded(env: Env) {
    forall p, i :: 0 <= p < |env.parts| && 0 <= i < |env.parts[p]| && |env.parts[p][i]| >= 2 ==>
      var g := env.parts[p][i];
      && Bound(g) < NONE
      && (Settle(env.hash, g, env.resolve).Found? ==> Bound(g) <= Settle(env.hash, g, env.resolve).tx < NONE)
  }

  /** The group can no longer change the outcome. */
  ghost predicate Settled(env: Env, s: State, g: Group) {
    |g| >= 2 ==>
      || Bound(g) >= s.earliest
      || Bound(g) > s.errBound
      || match Settle(env.hash, g, env.resolve)
         case Distinct => true
         case Found(tx) => s.earliest <= tx
         case Failed(e) =>
           s.firstErr.Some? && !RankLess(Bound(g), First(g), e, s.errBound, s.errFirst, s.firstErr.value)
  }

  ghost predicate Pending(w: Worker, p: nat, i: nat) {
    Busy(w) && w.p == p && w.i <= i
  }

  ghost predicate Covered(env: Env, s: State, p: nat, i: nat) {
    InRange(env, p, i) ==>
      || s.next <= p
      || (exists v :: 0 <= v < |s.workers| && Pending(s.workers[v], p, i))
      || Settled(env, s, env.parts[p][i])
  }

  ghost predicate MinimaWitnessed(env: Env, s: State) {
    && s.earliest <= NONE && s.errBound <= NONE
    && (s.earliest < NONE ==> exists g :: FoundIn(env, GroupsOf(env), g, s.earliest))
    && (s.firstErr.None? ==> s.errBound == NONE)
    && (s.firstErr.Some? ==>
          exists g :: FailedIn(env, GroupsOf(env), g, s.firstErr.value) && Bound(g) == s.errBound
            && First(g) == s.errFirst)
  }

  /** A worker that is done saw the counter at or past the end. */
  ghost predicate DoneAfterEnd(env: Env, s: State) {
    forall v :: 0 <= v < |s.workers| && s.workers[v].Done? ==> |env.parts| <= s.next
  }

  /** What a worker loaded in the compare-and-swap loop was the minimum then. */
  ghost predicate LoadsStale(s: State) {
    forall v :: 0 <= v < |s.workers| && s.workers[v].Swapping? ==> s.earliest <= s.workers[v].cur
  }

  ghost predicate Inv(env: Env, s: State) {
    && GroupsNonempty(env) && Bounded(env) && WorkersOk(env, s)
    && MinimaWitnessed(env, s) && DoneAfterEnd(env, s) && LoadsStale(s)
    && forall p: nat, i: nat :: Covered(env, s, p, i)
  }

  /** The shared minima only go down. */
  ghost predicate Lower(s: State, s': State) {
    && s'.earliest <= s.earliest
    && (s.firstErr.Some? ==>
          && s'.firstErr.Some?
          && !RankLess(s.errBound, s.errFirst, s.firstErr.value, s'.errBound, s'.errFirst, s'.firstErr.value))
    && s'.errBound <= s.errBound
    && s.next <= s'.next && |s.workers| == |s'.workers|
  }

  lemma {:induction false} SettledStays(env: Env, s: State, s': State, g: Group)
    requires Lower(s, s') && Settled(env, s, g)
    ensures Settled(env, s', g)
  {
    if |g| >= 2 {
      var o := Settle(env.hash, g, env.resolve);
      if o.Failed? && s.firstErr.Some?
        && !RankLess(Bound(g), First(g), o.error, s.errBound, s.errFirst, s.firstErr.value) {
        RankChain(Bound(g), First(g), o.error, s.errBound, s.errFirst, s.firstErr.value,
                  s'.errBound, s'.errFirst, s'.firstErr.value);
      }
    }
  }

  /** Coverage after worker v moved, when it stayed on its group or its old group is settled. */
  lemma {:induction false} CoverageKept(env: Env, s: State, s': State, v: nat, p: nat, i: nat)
    requires v < |s.workers| && Lower(s, s') && Covered(env, s, p, i)
    requires forall u :: 0 <= u < |s.workers| && u != v ==> s'.workers[u] == s.workers[u]
    requires Busy(s.workers[v]) && InRange(env, p, i) && Pending(s.workers[v], p, i) ==>
               Pending(s'.workers[v], p, i) || Settled(env, s', env.parts[p][i])
    requires s.next <= p < s'.next ==> Pending(s'.workers[v], p, i)
    ensures Covered(env, s', p, i)
  {
    if InRange(env, p, i) && s'.next > p {
      if s.next <= p {
        assert Pending(s'.workers[v], p, i);
      } else if Settled(env, s, env.parts[p][i]) {
        SettledStays(env, s, s', env.parts[p][i]);
      } else {
        var u :| 0 <= u < |s.workers| && Pending(s.workers[u], p, i);
        assert u == v || Pending(s'.workers[u], p, i);
      }
    }
  }

  lemma {:induction false} FailGroupLowers(s: State, bound: nat, first: nat, error: string)
    requires s.firstErr.None? ==> bound <= s.errBound
    ensures
      var s' := FailGroup(s, bound, first, error);
      && Lower(s, s')
      && s'.firstErr.Some?
      && !RankLess(bound, first, error, s'.errBound, s'.errFirst, s'.firstErr.value)
  {
    TextAsymmetric(error, error);
    if s.firstErr.Some? {
      TextAsymmetric(s.firstErr.value, s.firstErr.value);
      TextAsymmetric(s.firstErr.value, error);
    }
  }

  lemma {:induction false} GroupIn(env: Env, p: nat, i: nat)
    requires InRange(env, p, i)
    ensures env.parts[p][i] in GroupsOf(env)
  {
  }

  /** What a step does to the shared minima. */
  lemma {:induction false} StepMinima(env: Env, s: State, v: nat)
    requires Inv(env, s) && v < |s.workers|
    ensures Lower(s, Step(env, s, v)) && MinimaWitnessed(env, Step(env, s, v))
  {
    var w := s.workers[v];
    assert WorkerOk(env, w);
    if s.firstErr.Some? {
      TextAsymmetric(s.firstErr.value, s.firstErr.value);
    }
    if w.Swapping? {
      GroupIn(env, w.p, w.i);
      assert FoundIn(env, GroupsOf(env), env.parts[w.p][w.i], w.tx);
    } else if w.Failing? {
      var g := env.parts[w.p][w.i];
      GroupIn(env, w.p, w.i);
      assert FailedIn(env, GroupsOf(env), g, w.error);
      FailGroupLowers(s, Bound(g), First(g), w.error);
    }
  }

  /** What a step does to the worker that takes it. */
  lemma {:induction false} StepWorker(env: Env, s: State, v: nat)
    requires Inv(env, s) && v < |s.workers|
    ensures
      var s' := Step(env, s, v);
      && (forall u :: 0 <= u < |s.workers| && u != v ==> s'.workers[u] == s.workers[u])
      && |s'.workers| == |s.workers| && WorkerOk(env, s'.workers[v]) && DoneAfterEnd(env, s')
  {
    assert WorkerOk(env, s.workers[v]);
  }

  lemma {:induction false} StepLoads(env: Env, s: State, v: nat)
    requires Inv(env, s) && v < |s.workers|
    ensures LoadsStale(Step(env, s, v))
  {
    var s' := Step(env, s, v);
    StepMinima(env, s, v);
    StepWorker(env, s, v);
    forall u | 0 <= u < |s'.workers| && s'.workers[u].Swapping? ensures s'.earliest <= s'.workers[u].cur {
      assert u != v ==> s.earliest <= s.workers[u].cur;
    }
  }

  /** A worker only leaves a group behind once it is settled. */
  lemma {:induction false} StepSettles(env: Env, s: State, v: nat, p: nat, i: nat)
    requires Inv(env, s) && v < |s.workers| && InRange(env, p, i) && Pending(s.workers[v], p, i)
    ensures Pending(Step(env, s, v).workers[v], p, i) || Settled(env, Step(env, s, v), env.parts[p][i])
  {
    var w := s.workers[v];
    assert WorkerOk(env, w);
    if w.Failing? {
      var g := env.parts[w.p][w.i];
      FailGroupLowers(s, Bound(g), First(g), w.error);
    }
  }

  lemma {:induction false} StepTakes(env: Env, s: State, v: nat, p: nat, i: nat)
    requires Inv(env, s) && v < |s.workers| && InRange(env, p, i) && s.next <= p < Step(env, s, v).next
    ensures Pending(Step(env, s, v).workers[v], p, i)
  {
  }

  lemma {:induction false} StepKeepsInv(env: Env, s: State, v: nat)
    requires Inv(env, s) && v < |s.workers|
    ensures Inv(env, Step(env, s, v))
  {
    var s' := Step(env, s, v);
    StepMinima(env, s, v);
    StepWorker(env, s, v);
    StepLoads(env, s, v);
    forall p: nat, i: nat ensures Covered(env, s', p, i) {
      if InRange(env, p, i) {
        if Pending(s.workers[v], p, i) {
          StepSettles(env, s, v, p, i);
        }
        if s.next <= p < s'.next {
          StepTakes(env, s, v, p, i);
        }
        assert Covered(env, s, p, i);
        CoverageKept(env, s, s', v, p, i);
      }
    }
  }

  lemma {:induction false} InitialInv(env: Env, workers: nat)
    requires GroupsNonempty(env) && Bounded(env)
    ensures Inv(env, Initial(workers))
  {
  }

  /** The state a schedule reaches. */
  ghost function Exec(env: Env, workers: nat, schedule: seq<nat>): (s: State)
    requires GroupsNonempty(env) && Bounded(env) && forall k :: 0 <= k < |schedule| ==> schedule[k] < workers
    ensures Inv(env, s) && |s.workers| == workers
  {
    if schedule == [] then
      InitialInv(env, workers);
      Initial(workers)
    else
      var before := Exec(env, workers, schedule[..|schedule| - 1]);
      var v := schedule[|schedule| - 1];
      StepMinima(env, before, v);
      StepKeepsInv(env, before, v);
      Step(env, before, v)
  }

  lemma {:induction false} AllSettled(env: Env, s: State, g: Group)
    requires Inv(env, s) && Finished(s) && |s.workers| > 0 && g in GroupsOf(env)
    ensures Settled(env, s, g)
  {
    var p: nat, i: nat :| p < |env.parts| && i < |env.parts[p]| && env.parts[p][i] == g;
    assert s.workers[0].Done?;
    assert Covered(env, s, p, i);
  }

  lemma {:induction false} FinishedVerdict(env: Env, s: State)
    requires Inv(env, s) && Finished(s) && |s.workers| > 0
    ensures IsVerdict(env, GroupsOf(env), Result(s))
  {
    var groups := GroupsOf(env);
    forall g | g in groups ensures Settled(env, s, g) {
      AllSettled(env, s, g);
    }
    forall g: Group, tx: nat | FoundIn(env, groups, g, tx) ensures Bound(g) <= tx < NONE {
      var p: nat, i: nat :| p < |env.parts| && i < |env.parts[p]| && env.parts[p][i] == g;
    }
    forall g, e | FailedIn(env, groups, g, e) ensures Bound(g) < NONE {
      var p: nat, i: nat :| p < |env.parts| && i < |env.parts[p]| && env.parts[p][i] == g;
    }
    match Result(s)
    case Error(error) =>
      var f :| FailedIn(env, groups, f, error) && Bound(f) == s.errBound && First(f) == s.errFirst;
      assert forall g, e :: FailedIn(env, groups, g, e) ==> !RankLess(Bound(g), First(g), e, Bound(f), First(f), error);
      assert forall g, tx :: FoundIn(env, groups, g, tx) ==> Bound(f) < tx;
    case Duplicate(d) =>
    case Clean =>
  }

  /** Every complete run, under any schedule and any number of workers, ends in the verdict the
      groups and the resolver determine. */
  lemma {:induction false} DetectIsDetermined(env: Env, workers: nat, schedule: seq<nat>)
    requires GroupsNonempty(env) && Bounded(env) && workers > 0
    requires forall k :: 0 <= k < |schedule| ==> schedule[k] < workers
    requires Finished(Exec(env, workers, schedule))
    ensures IsVerdict(env, GroupsOf(env), Result(Exec(env, workers, schedule)))
  {
    FinishedVerdict(env, Exec(env, workers, schedule));
  }

  // ------------------------------------------------------------ every run ends

  /** How many steps a worker has left at most on the partition it holds, while the minimum stays. */
  function Left(env: Env, earliest: nat, w: Worker): nat
    requires WorkerOk(env, w)
  {
    match w
    case Idle => 1
    case At(p, i) => 8 * (|env.parts[p]| - i) + 2
    case BelowEarliest(p, i) => 8 * (|env.parts[p]| - i) + 1
    case Settling(p, i) => 8 * (|env.parts[p]| - i)
    case Failing(p, i, _) => 8 * (|env.parts[p]| - i) - 1
    case Swapping(p, i, _, cur) => 8 * (|env.parts[p]| - i) - (if cur != earliest then 2 else 4)
    case Loading(p, i, _) => 8 * (|env.parts[p]| - i) - 3
    case Done => 0
  }

  /** ...and how many on the partitions nobody has taken. */
  function LeftFrom(env: Env, p: nat): nat
    decreases |env.parts| - p
  {
    if p >= |env.parts| then 0 else 8 * |env.parts[p]| + 2 + LeftFrom(env, p + 1)
  }

  function LeftUpTo(env: Env, s: State, n: nat): nat
    requires WorkersOk(env, s) && n <= |s.workers|
  {
    if n == 0 then 0
    else
      assert WorkerOk(env, s.workers[n - 1]);
      LeftUpTo(env, s, n - 1) + Left(env, s.earliest, s.workers[n - 1])
  }

  function TotalLeft(env: Env, s: State): nat
    requires WorkersOk(env, s)
  {
    LeftUpTo(env, s, |s.workers|) + LeftFrom(env, s.next)
  }

  lemma {:induction false} LeftChanges(env: Env, s: State, s': State, v: nat, n: nat)
    requires WorkersOk(env, s) && WorkersOk(env, s') && n <= |s.workers| == |s'.workers| && v < |s.workers|
    requires s'.earliest == s.earliest
    requires forall u :: 0 <= u < |s.workers| && u != v ==> s'.workers[u] == s.workers[u]
    ensures LeftUpTo(env, s', n) ==
            LeftUpTo(env, s, n)
            + (if v < n then Left(env, s.earliest, s'.workers[v]) - Left(env, s.earliest, s.workers[v]) else 0)
  {
    if n > 0 {
      LeftChanges(env, s, s', v, n - 1);
    }
  }

  /** A step of a worker that is not done lowers the minimum, or leaves it and comes closer to the end. */
  lemma {:induction false} StepCloser(env: Env, s: State, v: nat)
    requires Inv(env, s) && v < |s.workers| && !s.workers[v].Done?
    ensures
      var s' := Step(env, s, v);
      && WorkersOk(env, s')
      && (s'.earliest < s.earliest || (s'.earliest == s.earliest && TotalLeft(env, s') < TotalLeft(env, s)))
  {
    var s' := Step(env, s, v);
    StepKeepsInv(env, s, v);
    StepMinima(env, s, v);
    if s'.earliest == s.earliest {
      assert WorkerOk(env, s.workers[v]) && WorkerOk(env, s'.workers[v]);
      StepWorkerLeft(env, s, v);
      LeftChanges(env, s, s', v, |s.workers|);
    }
  }

  lemma {:induction false} StepWorkerLeft(env: Env, s: State, v: nat)
    requires GroupsNonempty(env) && WorkersOk(env, s) && v < |s.workers| && !s.workers[v].Done?
    requires Step(env, s, v).earliest == s.earliest
    requires WorkerOk(env, s.workers[v]) && WorkerOk(env, Step(env, s, v).workers[v])
    ensures
      var s' := Step(env, s, v);
      Left(env, s.earliest, s'.workers[v]) + LeftFrom(env, s'.next) <
      Left(env, s.earliest, s.workers[v]) + LeftFrom(env, s.next)
  {
  }

  /** From every state a run can reach the workers can still all finish, whoever moves first. */
  lemma {:induction false} CanFinish(env: Env, workers: nat, schedule: seq<nat>) returns (more: seq<nat>)
    requires GroupsNonempty(env) && Bounded(env) && forall k :: 0 <= k < |schedule| ==> schedule[k] < workers
    ensures schedule <= more && forall k :: 0 <= k < |more| ==> more[k] < workers
    ensures Finished(Exec(env, workers, more))
    decreases Exec(env, workers, schedule).earliest, TotalLeft(env, Exec(env, workers, schedule))
  {
    var s := Exec(env, workers, schedule);
    if Finished(s) {
      more := schedule;
    } else {
      var v :| 0 <= v < |s.workers| && !s.workers[v].Done?;
      StepCloser(env, s, v);
      var next := schedule + [v];
      assert next[..|schedule|] == schedule;
      more := CanFinish(env, workers, next);
    }
  }

  function Max(a: nat, b: nat): nat { if a > b then a else b }
  function Min(a: nat, b: nat): nat { if a < b then a else b }

  /** detect from the prepared partitions on: in every round any worker that is not done takes a step. It
      ends, and in the verdict the groups and the resolver determine. */
  method Detect(env: Env, requested: nat) returns (v: Verdict)
    requires GroupsNonempty(env) && Bounded(env)
    ensures IsVerdict(env, GroupsOf(env), v)
  {
    var workers := Max(1, Min(requested, |env.parts|));
    var s := Initial(workers);
    InitialInv(env, workers);
    while !Finished(s)
      invariant Inv(env, s) && |s.workers| == workers
      decreases s.earliest, TotalLeft(env, s)
    {
      var w :| 0 <= w < |s.workers| && !s.workers[w].Done?;
      StepMinima(env, s, w);
      StepKeepsInv(env, s, w);
      StepCloser(env, s, w);
      s := Step(env, s, w);
    }
    FinishedVerdict(env, s);
    return Result(s);
  }
}
