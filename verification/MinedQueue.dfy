/** Callers of UpdateTxMinedStatus (model/update-tx-mined.go): the set of block ids being processed,
    the channel to the one worker, and the answers back. */
module MinedQueue {
  import opened Common

  type BlockId = nat
  type CallerId = nat

  /** The room in the channel to the worker. */
  const QUEUE_SIZE := 1024

  /** Where a caller that was let in is. */
  datatype Stage = Entered | Queued | Working | Answered

  datatype Caller = Caller(block: BlockId, stage: Stage)

  /** `admitted`, `sent` and `served` are the callers let in, those that handed over their message and those the
      worker is done with, in order. */
  datatype State = State(
    inFlight: set<BlockId>,
    callers: map<CallerId, Caller>,
    queue: seq<CallerId>,
    worker: Option<CallerId>,
    admitted: seq<CallerId>,
    sent: seq<CallerId>,
    served: seq<CallerId>)

  datatype Action =
    | Arrive(c: CallerId, block: BlockId)
    | Send(c: CallerId)
    | Receive
    | Answer
    | Leave(c: CallerId)

  predicate Enabled(s: State, a: Action) {
    match a
    case Arrive(c, _) => c !in s.callers
    case Send(c) => c in s.callers && s.callers[c].stage == Entered && |s.queue| < QUEUE_SIZE
    case Receive => s.worker.None? && s.queue != [] && s.queue[0] in s.callers
    case Answer => s.worker.Some? && s.worker.value in s.callers
    case Leave(c) => c in s.callers && s.callers[c].stage == Answered
  }

  /** A caller whose block is being processed is turned away and changes nothing. */
  predicate TurnedAway(s: State, block: BlockId) {
    block in s.inFlight
  }

  function AtStage(s: State, c: CallerId, stage: Stage): State
    requires c in s.callers
  {
    s.(callers := s.callers[c := s.callers[c].(stage := stage)])
  }

  /** The in-flight blocks are those of the callers, each of one caller. */
  ghost predicate BlocksOk(s: State) {
    && (forall c :: c in s.callers ==> s.callers[c].block in s.inFlight)
    && (forall b :: b in s.inFlight ==> exists c :: c in s.callers && s.callers[c].block == b)
    && (forall c, d :: c in s.callers && d in s.callers && s.callers[c].block == s.callers[d].block ==> c == d)
  }

  ghost predicate QueueOk(s: State) {
    && (forall c :: c in s.queue <==> c in s.callers && s.callers[c].stage == Queued)
    && (forall i, j :: 0 <= i < j < |s.queue| ==> s.queue[i] != s.queue[j])
    && |s.queue| <= QUEUE_SIZE
  }

  ghost predicate WorkerOk(s: State) {
    forall c :: s.worker == Some(c) <==> c in s.callers && s.callers[c].stage == Working
  }

  /** The worker serves the messages in the order they were sent. */
  ghost predicate OrderOk(s: State) {
    s.sent == s.served + (if s.worker.Some? then [s.worker.value] else []) + s.queue
  }

  /** Every call that was let in was sent once, but for those that have yet to. */
  ghost predicate CountOk(s: State, c: CallerId) {
    multiset(s.admitted)[c] == multiset(s.sent)[c] + if c in s.callers && s.callers[c].stage == Entered then 1 else 0
  }

  ghost predicate CoreOk(s: State) {
    BlocksOk(s) && QueueOk(s) && WorkerOk(s)
  }

  ghost predicate Valid(s: State) {
    CoreOk(s) && OrderOk(s) && forall c: CallerId :: CountOk(s, c)
  }

  function Step(s: State, a: Action): State
    requires Enabled(s, a)
  {
    match a
    case Arrive(c, block) =>
      if TurnedAway(s, block) then s
      else s.(inFlight := s.inFlight + {block}, callers := s.callers[c := Caller(block, Entered)],
              admitted := s.admitted + [c])
    case Send(c) => AtStage(s, c, Queued).(queue := s.queue + [c], sent := s.sent + [c])
    case Receive => AtStage(s, s.queue[0], Working).(queue := s.queue[1..], worker := Some(s.queue[0]))
    case Answer => AtStage(s, s.worker.value, Answered).(worker := None, served := s.served + [s.worker.value])
    case Leave(c) => s.(inFlight := s.inFlight - {s.callers[c].block}, callers := s.callers - {c})
  }

  lemma {:induction false} ArriveKeeps(s: State, c: CallerId, block: BlockId)
    requires Valid(s) && c !in s.callers
    ensures CoreOk(Step(s, Arrive(c, block)))
  {
    var t := Step(s, Arrive(c, block));
    if !TurnedAway(s, block) {
      forall b | b in t.inFlight ensures exists d :: d in t.callers && t.callers[d].block == b {
        if b == block {
          assert t.callers[c].block == b;
        } else {
          var d :| d in s.callers && s.callers[d].block == b;
          assert t.callers[d].block == b;
        }
      }
    }
  }

  lemma {:induction false} LeaveKeeps(s: State, c: CallerId)
    requires Valid(s) && Enabled(s, Leave(c))
    ensures CoreOk(Step(s, Leave(c)))
  {
    var t := Step(s, Leave(c));
    forall b | b in t.inFlight ensures exists d :: d in t.callers && t.callers[d].block == b {
      var d :| d in s.callers && s.callers[d].block == b;
      assert t.callers[d].block == b;
    }
  }

  lemma {:induction false} StageKeepsBlocks(s: State, c: CallerId, stage: Stage, t: State)
    requires BlocksOk(s) && c in s.callers && t.callers == AtStage(s, c, stage).callers && t.inFlight == s.inFlight
    ensures BlocksOk(t)
  {
    forall b | b in t.inFlight ensures exists d :: d in t.callers && t.callers[d].block == b {
      var d :| d in s.callers && s.callers[d].block == b;
      assert t.callers[d].block == b;
    }
  }

  lemma {:induction false} SendKeepsQueue(s: State, c: CallerId)
    requires QueueOk(s) && Enabled(s, Send(c))
    ensures QueueOk(Step(s, Send(c)))
  {
    assert c !in s.queue;
  }

  lemma {:induction false} SendKeeps(s: State, c: CallerId)
    requires Valid(s) && Enabled(s, Send(c))
    ensures CoreOk(Step(s, Send(c)))
  {
    StageKeepsBlocks(s, c, Queued, Step(s, Send(c)));
    SendKeepsQueue(s, c);
  }

  lemma {:induction false} ReceiveKeepsQueue(s: State)
    requires QueueOk(s) && Enabled(s, Receive)
    ensures QueueOk(Step(s, Receive))
  {
    assert s.queue == [s.queue[0]] + s.queue[1..];
  }

  lemma {:induction false} ReceiveKeeps(s: State)
    requires Valid(s) && Enabled(s, Receive)
    ensures CoreOk(Step(s, Receive))
  {
    StageKeepsBlocks(s, s.queue[0], Working, Step(s, Receive));
    ReceiveKeepsQueue(s);
  }

  lemma {:induction false} AnswerKeeps(s: State)
    requires Valid(s) && Enabled(s, Answer)
    ensures CoreOk(Step(s, Answer))
  {
    StageKeepsBlocks(s, s.worker.value, Answered, Step(s, Answer));
  }

  lemma {:induction false} StepKeeps(s: State, a: Action)
    requires Valid(s) && Enabled(s, a)
    ensures Valid(Step(s, a))
  {
    OrderKept(s, a);
    forall c: CallerId ensures CountOk(Step(s, a), c) {
      CountKept(s, a, c);
    }
    match a
    case Arrive(c, block) => ArriveKeeps(s, c, block);
    case Send(c) => SendKeeps(s, c);
    case Receive => ReceiveKeeps(s);
    case Answer => AnswerKeeps(s);
    case Leave(c) => LeaveKeeps(s, c);
  }

  lemma {:induction false} OrderKept(s: State, a: Action)
    requires OrderOk(s) && Enabled(s, a)
    ensures OrderOk(Step(s, a))
  {
    if a.Receive? {
      assert s.queue == [s.queue[0]] + s.queue[1..];
    }
  }

  lemma {:induction false} CountKept(s: State, a: Action, c: CallerId)
    requires CountOk(s, c) && Enabled(s, a) && QueueOk(s) && WorkerOk(s)
    ensures CountOk(Step(s, a), c)
  {
    assert s.queue != [] ==> s.queue[0] in s.queue;
  }

  const START := State({}, map[], [], None, [], [], [])

  ghost predicate RunsTo(s: State, run: seq<Action>, t: State)
    decreases |run|
  {
    if run == [] then s == t
    else Enabled(s, run[0]) && RunsTo(Step(s, run[0]), run[1..], t)
  }

  lemma {:induction false} RunKeeps(s: State, run: seq<Action>, t: State)
    requires Valid(s) && RunsTo(s, run, t)
    ensures Valid(t)
    decreases |run|
  {
    if run != [] {
      StepKeeps(s, run[0]);
      RunKeeps(Step(s, run[0]), run[1..], t);
    }
  }

  /** However the calls interleave, no two that were let in are about the same block at once, a call is
      turned away exactly when one about its block has not returned yet, and the worker serves one at a time. */
  lemma {:induction false} OneUpdatePerBlock(run: seq<Action>, s: State, c: CallerId, d: CallerId, block: BlockId)
    requires RunsTo(START, run, s)
    ensures c in s.callers && d in s.callers && s.callers[c].block == s.callers[d].block ==> c == d
    ensures TurnedAway(s, block) <==> exists e :: e in s.callers && s.callers[e].block == block
    ensures c in s.callers && d in s.callers && s.callers[c].stage == Working == s.callers[d].stage ==> c == d
  {
    RunKeeps(START, run, s);
    assert c in s.callers && s.callers[c].stage == Working ==> s.worker == Some(c);
  }

  /** No call is stuck: while any is unfinished, some step other than a new call is possible, also when the
      channel is full. */
  lemma {:induction false} NobodyStuck(run: seq<Action>, s: State) returns (a: Action)
    requires RunsTo(START, run, s) && s.callers != map[]
    ensures !a.Arrive? && Enabled(s, a)
  {
    RunKeeps(START, run, s);
    a := SomeStep(s);
  }

  lemma {:induction false} SomeStep(s: State) returns (a: Action)
    requires QueueOk(s) && WorkerOk(s) && s.callers != map[]
    ensures !a.Arrive? && Enabled(s, a)
  {
    var c :| c in s.callers;
    assert s.queue != [] ==> s.queue[0] in s.queue;
    match s.callers[c].stage
    case Entered =>
      a := if |s.queue| < QUEUE_SIZE then Send(c) else if s.worker.None? then Receive else Answer;
    case Queued => a := if s.worker.None? then Receive else Answer;
    case Working => a := Answer;
    case Answered => a := Leave(c);
  }

  /** A call about a block that nobody is working on is let in, and then its block is in flight. */
  lemma {:induction false} FreeBlockIsLetIn(run: seq<Action>, s: State, c: CallerId, block: BlockId)
    requires RunsTo(START, run, s) && c !in s.callers && forall e :: e in s.callers ==> s.callers[e].block != block
    ensures
      var t := Step(s, Arrive(c, block));
      && c in t.callers && t.callers[c] == Caller(block, Entered) && t.admitted == s.admitted + [c]
      && TurnedAway(t, block)
  {
    OneUpdatePerBlock(run, s, c, c, block);
  }

  /** In every run the worker serves the calls in the order they were sent, and a call returns only after it was
      served: as often as the caller was let in. */
  lemma {:induction false} ServedInOrder(run: seq<Action>, s: State, c: CallerId)
    requires RunsTo(START, run, s)
    ensures s.served <= s.sent
    ensures c !in s.callers || s.callers[c].stage == Answered ==> multiset(s.served)[c] == multiset(s.admitted)[c]
  {
    RunKeeps(START, run, s);
    assert CountOk(s, c);
    ServedWhenDone(s, c);
  }

  lemma {:induction false} ServedWhenDone(s: State, c: CallerId)
    requires QueueOk(s) && WorkerOk(s) && OrderOk(s)
    ensures s.served <= s.sent
    ensures c !in s.callers || s.callers[c].stage == Answered ==> multiset(s.served)[c] == multiset(s.sent)[c]
  {
    var working := if s.worker.Some? then [s.worker.value] else [];
    if c !in s.callers || s.callers[c].stage == Answered {
      assert c !in s.queue && c !in working;
      CountsInParts(s.sent, s.served, working, s.queue, c);
    }
  }

  lemma {:induction false} CountsInParts(all: seq<CallerId>, a: seq<CallerId>, b: seq<CallerId>, d: seq<CallerId>,
        c: CallerId)
    requires all == a + b + d && c !in b && c !in d
    ensures multiset(all)[c] == multiset(a)[c]
  {
    assert multiset(all) == multiset(a) + multiset(b) + multiset(d);
    assert c !in multiset(b) && c !in multiset(d);
  }

  /** How far a caller is from having left. */
  function Left(stage: Stage): nat {
    match stage
    case Entered => 4
    case Queued => 3
    case Working => 2
    case Answered => 1
  }

  ghost function TotalLeft(callers: map<CallerId, Caller>): nat
    decreases |callers|
  {
    if callers == map[] then 0
    else
      var c :| c in callers;
      Left(callers[c].stage) + TotalLeft(callers - {c})
  }

  lemma {:induction false} TotalWithout(callers: map<CallerId, Caller>, c: CallerId)
    requires c in callers
    ensures TotalLeft(callers) == Left(callers[c].stage) + TotalLeft(callers - {c})
    decreases |callers|
  {
    var d :| d in callers && TotalLeft(callers) == Left(callers[d].stage) + TotalLeft(callers - {d});
    if d != c {
      TotalWithout(callers - {d}, c);
      TotalWithout(callers - {c}, d);
      assert callers - {d} - {c} == callers - {c} - {d};
    }
  }

  lemma {:induction false} StepShrinks(s: State, a: Action)
    requires QueueOk(s) && WorkerOk(s) && Enabled(s, a) && !a.Arrive?
    ensures TotalLeft(Step(s, a).callers) < TotalLeft(s.callers)
  {
    assert s.queue != [] ==> s.queue[0] in s.queue;
    match a
    case Send(c) => StageShrinks(s.callers, c, Queued);
    case Receive => StageShrinks(s.callers, s.queue[0], Working);
    case Answer => StageShrinks(s.callers, s.worker.value, Answered);
    case Leave(c) => TotalWithout(s.callers, c);
  }

  lemma {:induction false} StageShrinks(callers: map<CallerId, Caller>, c: CallerId, stage: Stage)
    requires c in callers && Left(stage) < Left(callers[c].stage)
    ensures TotalLeft(callers[c := callers[c].(stage := stage)]) < TotalLeft(callers)
  {
    var after := callers[c := callers[c].(stage := stage)];
    TotalWithout(callers, c);
    TotalWithout(after, c);
    assert after - {c} == callers - {c};
  }

  /** Whatever the calls under way, they can all return without another one arriving. */
  lemma {:induction false} EveryoneCanReturn(run: seq<Action>, s: State) returns (more: seq<Action>, t: State)
    requires RunsTo(START, run, s)
    ensures RunsTo(s, more, t) && t.callers == map[] && t.inFlight == {}
    ensures forall i :: 0 <= i < |more| ==> !more[i].Arrive?
  {
    RunKeeps(START, run, s);
    more, t := Drain(s);
    RunKeeps(s, more, t);
  }

  lemma {:induction false} Drain(s: State) returns (more: seq<Action>, t: State)
    requires Valid(s)
    ensures RunsTo(s, more, t) && t.callers == map[]
    ensures forall i :: 0 <= i < |more| ==> !more[i].Arrive?
    decreases TotalLeft(s.callers)
  {
    if s.callers == map[] {
      more, t := [], s;
    } else {
      var a := SomeStep(s);
      StepShrinks(s, a);
      StepKeeps(s, a);
      var rest;
      rest, t := Drain(Step(s, a));
      more := [a] + rest;
      assert more[1..] == rest;
    }
  }
}
