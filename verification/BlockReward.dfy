/** The coinbase rules: the reward check (checkBlockRewardAndFees, model/Block.go) and the rules common
    to all transactions (model/block_coinbase_common_rules.go), over wrapping 64-bit sums. */
module BlockReward {
  import opened Common
  import opened Bytes

  const TWO_64 := 0x1_0000_0000_0000_0000

  type Uint64 = n: int | 0 <= n < 0x1_0000_0000_0000_0000

  /** Unsigned addition wraps. */
  function Add(a: Uint64, b: Uint64): Uint64 {
    if a + b < TWO_64 then a + b else a + b - TWO_64
  }

  ghost function Sum(xs: seq<Uint64>): nat {
    if xs == [] then 0 else Sum(xs[..|xs| - 1]) + xs[|xs| - 1]
  }

  lemma {:induction false} SumGrows(xs: seq<Uint64>, n: nat)
    requires n <= |xs|
    ensures Sum(xs[..n]) <= Sum(xs)
  {
    var last := |xs| - 1;
    if n == |xs| {
      assert xs[..n] == xs;
    } else {
      SumGrows(xs[..last], n);
      assert xs[..last][..n] == xs[..n];
    }
  }

  /** The accumulation loop: the true sum, or None exactly when that does not fit in 64 bits. */
  method SumChecked(xs: seq<Uint64>) returns (sum: Option<Uint64>)
    ensures sum.Some? <==> Sum(xs) < TWO_64
    ensures sum.Some? ==> sum.value == Sum(xs)
  {
    var total: Uint64 := 0;
    for i := 0 to |xs|
      invariant total == Sum(xs[..i])
    {
      var next := Add(total, xs[i]);
      assert xs[..i + 1][..i] == xs[..i];
      if next < total {
        SumGrows(xs, i + 1);
        return None;
      }
      total := next;
    }
    assert xs[..|xs|] == xs;
    return Some(total);
  }

  datatype Verdict = Accepted | OutputsOverflow | Released(subtree: nat) | FeesOverflow | RewardOverflow | Inflated

  /** What is known of the block by the time of the check. */
  datatype Reward = Reward(
    height: nat,
    merkleRootChecked: bool,
    storeSupportsOutpointOnly: bool,
    checkpointConfirmedAncestor: bool,
    highestCheckpoint: nat,
    outputs: seq<Uint64>,
    fees: seq<Option<Uint64>>,
    subsidy: Uint64)

  /** The genesis block, and a bound ancestor of the pinned checkpoint, at or below it, that the store may have
      written without fees. */
  predicate Exempt(r: Reward) {
    r.height == 0
    || (r.merkleRootChecked && r.storeSupportsOutpointOnly && r.checkpointConfirmedAncestor
        && r.height <= r.highestCheckpoint)
  }

  ghost function Fees(fees: seq<Option<Uint64>>, n: nat): nat
    requires n <= |fees| && forall i :: 0 <= i < n ==> fees[i].Some?
  {
    if n == 0 then 0 else Fees(fees, n - 1) + fees[n - 1].value
  }

  lemma {:induction false} FeesGrow(fees: seq<Option<Uint64>>, m: nat, n: nat)
    requires m <= n <= |fees| && forall i :: 0 <= i < n ==> fees[i].Some?
    ensures Fees(fees, m) <= Fees(fees, n)
  {
    if m < n {
      FeesGrow(fees, m, n - 1);
    }
  }

  ghost predicate AllPresent(fees: seq<Option<Uint64>>) {
    forall i :: 0 <= i < |fees| ==> fees[i].Some?
  }

  /** The rule over true sums: nothing needs more than 64 bits and the outputs do not exceed the fees
      and the subsidy. */
  ghost predicate Sound(r: Reward) {
    && Sum(r.outputs) < TWO_64
    && AllPresent(r.fees)
    && Fees(r.fees, |r.fees|) + r.subsidy < TWO_64
    && Sum(r.outputs) <= Fees(r.fees, |r.fees|) + r.subsidy
  }

  /** The fees before subtree i are all there and their sum fits. */
  ghost predicate FeesFit(r: Reward, i: nat) {
    i <= |r.fees| && (forall k :: 0 <= k < i ==> r.fees[k].Some?) && Fees(r.fees, i) < TWO_64
  }

  /** Adding the fees of subtree i is what does not fit. */
  ghost predicate FeesFailAt(r: Reward, i: nat) {
    i < |r.fees| && FeesFit(r, i) && r.fees[i].Some? && Fees(r.fees, i) + r.fees[i].value >= TWO_64
  }

  method CheckBlockRewardAndFees(r: Reward) returns (v: Verdict)
    ensures v == Accepted <==> Exempt(r) || Sound(r)
    ensures v == OutputsOverflow <==> !Exempt(r) && Sum(r.outputs) >= TWO_64
    ensures v == Inflated <==>
            !Exempt(r) && AllPresent(r.fees) && Fees(r.fees, |r.fees|) + r.subsidy < Sum(r.outputs) < TWO_64
    ensures v.Released? ==>
      !Exempt(r) && Sum(r.outputs) < TWO_64 && v.subtree < |r.fees| && FeesFit(r, v.subtree) && r.fees[v.subtree].None?
    ensures v == FeesOverflow ==> !Exempt(r) && Sum(r.outputs) < TWO_64 && exists i: nat :: FeesFailAt(r, i)
    ensures v == RewardOverflow ==>
      && !Exempt(r) && Sum(r.outputs) < TWO_64 && FeesFit(r, |r.fees|)
      && Fees(r.fees, |r.fees|) + r.subsidy >= TWO_64
  {
    if r.height == 0 {
      return Accepted;
    }
    if r.merkleRootChecked && r.storeSupportsOutpointOnly && r.checkpointConfirmedAncestor
       && r.height <= r.highestCheckpoint {
      return Accepted;
    }
    var outputs := SumChecked(r.outputs);
    if outputs.None? {
      return OutputsOverflow;
    }
    var fees: Uint64 := 0;
    for i := 0 to |r.fees|
      invariant forall k :: 0 <= k < i ==> r.fees[k].Some?
      invariant fees == Fees(r.fees, i)
    {
      if r.fees[i].None? {
        return Released(i);
      }
      var sum := Add(fees, r.fees[i].value);
      if sum < fees {
        assert FeesFailAt(r, i);
        assert Fees(r.fees, i + 1) >= TWO_64;
        if AllPresent(r.fees) {
          FeesGrow(r.fees, i + 1, |r.fees|);
        }
        return FeesOverflow;
      }
      fees := sum;
    }
    var allowed := Add(fees, r.subsidy);
    if allowed < fees {
      return RewardOverflow;
    }
    if outputs.value > allowed {
      return Inflated;
    }
    return Accepted;
  }

  // ------------------------------------------------------------ signature operations

  const OP_PUSHDATA1 := 0x4c
  const OP_PUSHDATA2 := 0x4d
  const OP_PUSHDATA4 := 0x4e
  const OP_CHECKSIG := 0xac
  const OP_CHECKSIGVERIFY := 0xad
  const OP_CHECKMULTISIG := 0xae
  const OP_CHECKMULTISIGVERIFY := 0xaf
  const OP_INVALIDOPCODE := 0xff

  const MAX_PUBKEYS_PER_MULTISIG := 20

  /** How many bytes hold the length of a push. */
  function PrefixLength(opcode: Byte): nat {
    if opcode == OP_PUSHDATA1 then 1 else if opcode == OP_PUSHDATA2 then 2 else if opcode == OP_PUSHDATA4 then 4 else 0
  }

  predicate IsPush(opcode: Byte) {
    0 < opcode <= OP_PUSHDATA4
  }

  function Weight(opcode: Byte): nat {
    if opcode == OP_CHECKSIG || opcode == OP_CHECKSIGVERIFY then 1
    else if opcode == OP_CHECKMULTISIG || opcode == OP_CHECKMULTISIGVERIFY then MAX_PUBKEYS_PER_MULTISIG
    else 0
  }

  /** pushOperandLength; None when the length bytes are missing. */
  function OperandLength(opcode: Byte, rest: seq<Byte>): Option<nat> {
    var n := PrefixLength(opcode);
    if n == 0 then Some(opcode) else if |rest| < n then None else Some(FromLittleEndian(rest[..n]))
  }

  /** The count from the start of a script. */
  ghost function SigOps(script: seq<Byte>): nat
    decreases |script|
  {
    if script == [] || script[0] == OP_INVALIDOPCODE then 0
    else
      var opcode, rest := script[0], script[1..];
      if !IsPush(opcode) then Weight(opcode) + SigOps(rest)
      else match OperandLength(opcode, rest)
        case None => 0
        case Some(n) =>
          var skip := PrefixLength(opcode) + n;
          if skip > |rest| then 0 else SigOps(rest[skip..])
  }

  /** preGenesisSigOpCount. */
  method PreGenesisSigOpCount(code: seq<Byte>) returns (n: nat)
    ensures n == SigOps(code)
  {
    var script := code;
    n := 0;
    while |script| > 0
      invariant n + SigOps(script) == SigOps(code)
      decreases |script|
    {
      var opcode := script[0];
      script := script[1..];
      if opcode == OP_INVALIDOPCODE {
        return;
      } else if opcode == OP_CHECKSIG || opcode == OP_CHECKSIGVERIFY {
        n := n + 1;
      } else if opcode == OP_CHECKMULTISIG || opcode == OP_CHECKMULTISIGVERIFY {
        n := n + MAX_PUBKEYS_PER_MULTISIG;
      } else if opcode > OP_PUSHDATA4 || opcode == 0 {
      } else {
        var operand := OperandLength(opcode, script);
        if operand.None? || operand.value > |script| - PrefixLength(opcode) {
          return;
        }
        script := script[PrefixLength(opcode) + operand.value..];
      }
    }
  }

  /** How the length of a push is given: by the opcode itself, or by one, two or four bytes after it. */
  datatype PushForm = Direct | Data1 | Data2 | Data4

  /** An instruction: an opcode, or a push of some data. */
  datatype Instruction = Op(opcode: Byte) | Push(form: PushForm, data: seq<Byte>)

  /** Opcodes from 1 to 0x4e push; the longest direct push is 75 bytes. */
  ghost predicate Encodable(i: Instruction) {
    match i
    case Op(opcode) => (opcode == 0 || opcode > OP_PUSHDATA4) && opcode != OP_INVALIDOPCODE
    case Push(Direct, data) => 0 < |data| < OP_PUSHDATA1
    case Push(Data1, data) => |data| < 0x100
    case Push(Data2, data) => |data| < 0x1_0000
    case Push(Data4, data) => |data| < 0x1_0000_0000
  }

  function Encode(i: Instruction): seq<Byte> {
    match i
    case Op(opcode) => [opcode]
    case Push(Direct, data) => LittleEndian(|data|, 1) + data
    case Push(Data1, data) => [OP_PUSHDATA1] + LittleEndian(|data|, 1) + data
    case Push(Data2, data) => [OP_PUSHDATA2] + LittleEndian(|data|, 2) + data
    case Push(Data4, data) => [OP_PUSHDATA4] + LittleEndian(|data|, 4) + data
  }

  ghost function Assemble(program: seq<Instruction>): seq<Byte> {
    if program == [] then [] else Encode(program[0]) + Assemble(program[1..])
  }

  ghost function TotalWeight(program: seq<Instruction>): nat {
    if program == [] then 0
    else (if program[0].Op? then Weight(program[0].opcode) else 0) + TotalWeight(program[1..])
  }

  /** How often the program has one of two opcodes. */
  ghost function Occurrences(program: seq<Instruction>, a: Byte, b: Byte): nat {
    if program == [] then 0
    else (if program[0] == Op(a) || program[0] == Op(b) then 1 else 0) + Occurrences(program[1..], a, b)
  }

  /** A signature check counts once, a multi-signature check as often as it could have keys. */
  lemma {:induction false} WeightCounts(program: seq<Instruction>)
    ensures TotalWeight(program) ==
            Occurrences(program, OP_CHECKSIG, OP_CHECKSIGVERIFY)
            + 20 * Occurrences(program, OP_CHECKMULTISIG, OP_CHECKMULTISIGVERIFY)
  {
    if program != [] {
      WeightCounts(program[1..]);
    }
  }

  lemma OpcodeCounts(opcode: Byte, rest: seq<Byte>)
    requires Encodable(Op(opcode))
    ensures SigOps(Encode(Op(opcode)) + rest) == Weight(opcode) + SigOps(rest)
  {
    assert (Encode(Op(opcode)) + rest)[1..] == rest;
  }

  /** The length bytes of a push and what its opcode says about them. */
  lemma {:induction false} PushDecodes(form: PushForm, data: seq<Byte>, rest: seq<Byte>)
    requires Encodable(Push(form, data))
    ensures
      var script := Encode(Push(form, data)) + rest;
      && script != [] && IsPush(script[0]) && script[0] != OP_INVALIDOPCODE
      && OperandLength(script[0], script[1..]) == Some(|data|)
      && script[1..][PrefixLength(script[0]) + |data|..] == rest
      && PrefixLength(script[0]) + |data| <= |script| - 1
  {
    var script := Encode(Push(form, data)) + rest;
    if form.Direct? {
      assert LittleEndian(|data|, 1) == [|data|] + LittleEndian(0, 0);
      assert script == [script[0]] + data + rest;
      assert script[1..] == data + rest;
    } else {
      PrefixDecodes(script, PrefixLength(script[0]), data, rest);
    }
  }

  lemma {:induction false} PrefixDecodes(script: seq<Byte>, n: nat, data: seq<Byte>, rest: seq<Byte>)
    requires (n == 1 || n == 2 || n == 4) && |data| < Pow256(n) && script != [] && n == PrefixLength(script[0])
    requires script == [script[0]] + LittleEndian(|data|, n) + data + rest
    ensures OperandLength(script[0], script[1..]) == Some(|data|) && script[1..][n + |data|..] == rest
  {
    var prefix := LittleEndian(|data|, n);
    assert script[1..] == prefix + data + rest;
    assert script[1..][..n] == prefix;
    ReadWritten(|data|, n);
  }

  lemma {:induction false} PushedDataCountsNothing(form: PushForm, data: seq<Byte>, rest: seq<Byte>)
    requires Encodable(Push(form, data))
    ensures SigOps(Encode(Push(form, data)) + rest) == SigOps(rest)
  {
    PushDecodes(form, data, rest);
  }

  /** Where nothing can be decoded any further: the bytes start with no instruction. */
  ghost predicate Stuck(rest: seq<Byte>) {
    forall i :: Encodable(i) ==> !(Encode(i) <= rest)
  }

  /** Where counting stops: at the end, at the invalid opcode, and at a push that is longer than what is left. */
  ghost predicate Stops(rest: seq<Byte>) {
    || rest == []
    || rest[0] == OP_INVALIDOPCODE
    || (IsPush(rest[0])
        && (OperandLength(rest[0], rest[1..]).None?
            || PrefixLength(rest[0]) + OperandLength(rest[0], rest[1..]).value > |rest| - 1))
  }

  lemma {:induction false} EncodedGoesOn(i: Instruction, script: seq<Byte>)
    requires Encodable(i) && Encode(i) <= script
    ensures !Stops(script)
  {
    var rest := script[|Encode(i)|..];
    assert script == Encode(i) + rest;
    if i.Push? {
      PushDecodes(i.form, i.data, rest);
    }
  }

  /** Counting stops exactly where nothing can be decoded. */
  lemma {:induction false} StopsWhenStuck(rest: seq<Byte>)
    ensures Stops(rest) <==> Stuck(rest)
  {
    forall i | Encodable(i) && Encode(i) <= rest ensures !Stops(rest) {
      EncodedGoesOn(i, rest);
    }
    if !Stops(rest) {
      var first, after := FirstInstruction(rest);
      assert Encode(first) <= rest;
    }
  }

  /** The count of an assembled script is the weight of its instructions, whatever its pushes carry, and nothing
      counts from where it cannot be decoded any further. */
  lemma {:induction false} SigOpsOfProgram(program: seq<Instruction>, rest: seq<Byte>)
    requires (forall i :: i in program ==> Encodable(i)) && Stuck(rest)
    ensures SigOps(Assemble(program) + rest) == TotalWeight(program)
  {
    StopsWhenStuck(rest);
    SigOpsOfParts(program, rest);
  }

  lemma {:induction false} SigOpsOfParts(program: seq<Instruction>, rest: seq<Byte>)
    requires forall k :: 0 <= k < |program| ==> Encodable(program[k])
    ensures SigOps(Assemble(program) + rest) == TotalWeight(program) + SigOps(rest)
  {
    if program == [] {
      assert Assemble(program) + rest == rest;
    } else {
      var first, tail := program[0], program[1..];
      SigOpsOfParts(tail, rest);
      var after := Assemble(tail) + rest;
      assert Assemble(program) + rest == Encode(first) + after;
      FirstCounts(first, after);
    }
  }

  lemma {:induction false} FirstCounts(first: Instruction, after: seq<Byte>)
    requires Encodable(first)
    ensures SigOps(Encode(first) + after) == (if first.Op? then Weight(first.opcode) else 0) + SigOps(after)
  {
    match first
    case Op(opcode) => OpcodeCounts(opcode, after);
    case Push(form, data) => PushedDataCountsNothing(form, data, after);
  }

  /** The form of a push by its opcode. */
  function FormOf(opcode: Byte): PushForm {
    if opcode == OP_PUSHDATA1 then Data1 else if opcode == OP_PUSHDATA2 then Data2
    else if opcode == OP_PUSHDATA4 then Data4 else Direct
  }

  lemma {:induction false} PushEncodes(opcode: Byte, rest: seq<Byte>, n: nat, end: nat)
    requires IsPush(opcode) && n == PrefixLength(opcode) && n <= end <= |rest|
    requires OperandLength(opcode, rest) == Some(end - n)
    ensures Encodable(Push(FormOf(opcode), rest[n..end]))
    ensures [opcode] + rest == Encode(Push(FormOf(opcode), rest[n..end])) + rest[end..]
  {
    var data := rest[n..end];
    if n == 0 {
      assert LittleEndian(|data|, 1) == [|data|] + LittleEndian(0, 0);
      assert rest == data + rest[end..];
    } else {
      LengthBytes(rest, n, end);
      Joined(opcode, rest, n, end);
    }
  }

  lemma {:induction false} LengthBytes(rest: seq<Byte>, n: nat, end: nat)
    requires (n == 1 || n == 2 || n == 4) && n <= end <= |rest| && FromLittleEndian(rest[..n]) == end - n
    ensures LittleEndian(end - n, n) == rest[..n]
    ensures n == 1 ==> end - n < 0x100
    ensures n == 2 ==> end - n < 0x1_0000
    ensures n == 4 ==> end - n < 0x1_0000_0000
  {
    WriteRead(rest[..n]);
    Powers();
    assert Pow256(1) == 256;
  }

  lemma {:induction false} Joined(opcode: Byte, rest: seq<Byte>, n: nat, end: nat)
    requires n <= end <= |rest|
    ensures [opcode] + rest == [opcode] + rest[..n] + rest[n..end] + rest[end..]
  {
    assert rest == rest[..n] + rest[n..end] + rest[end..];
  }

  lemma {:induction false} FirstInstruction(script: seq<Byte>) returns (first: Instruction, after: seq<Byte>)
    requires !Stops(script)
    ensures Encodable(first) && script == Encode(first) + after
  {
    var opcode, rest := script[0], script[1..];
    assert script == [opcode] + rest;
    if IsPush(opcode) {
      var n := PrefixLength(opcode);
      var end := n + OperandLength(opcode, rest).value;
      first, after := Push(FormOf(opcode), rest[n..end]), rest[end..];
      PushEncodes(opcode, rest, n, end);
    } else {
      first, after := Op(opcode), rest;
    }
  }

  /** Every script is some instructions and then a place where nothing can be decoded, so SigOpsOfProgram is about
      all scripts. */
  lemma {:induction false} EveryScriptDecodes(script: seq<Byte>) returns (program: seq<Instruction>, rest: seq<Byte>)
    ensures (forall i :: i in program ==> Encodable(i)) && Stuck(rest)
    ensures script == Assemble(program) + rest && SigOps(script) == TotalWeight(program)
    decreases |script|
  {
    if Stops(script) {
      program, rest := [], script;
      assert script == Assemble(program) + rest;
      StopsWhenStuck(rest);
    } else {
      var first, after := FirstInstruction(script);
      var tail;
      tail, rest := EveryScriptDecodes(after);
      program := [first] + tail;
      assert program[1..] == tail;
      assert script == Encode(first) + Assemble(tail) + rest;
    }
    SigOpsOfProgram(program, rest);
  }

  // ------------------------------------------------------------ the common rules

  const MAX_MONEY := 21_000_000 * 100_000_000
  const MAX_INT64 := 0x7fff_ffff_ffff_ffff
  const MAX_TX_SIZE_BEFORE_GENESIS := 1_000_000
  const MAX_TX_SIZE_AFTER_GENESIS := 1_000_000_000
  const MAX_SIGOPS_BEFORE_GENESIS := 20_000

  datatype Tx = Tx(inputs: seq<seq<Byte>>, outputs: seq<Uint64>, lockingScripts: seq<seq<Byte>>, size: nat)

  datatype Violation = NoViolation | VinEmpty | VoutEmpty | Oversize | Negative | TooLarge | TotalTooLarge
    | TooManySigOps

  ghost function TotalSigOps(scripts: seq<seq<Byte>>): nat {
    if scripts == [] then 0 else TotalSigOps(scripts[..|scripts| - 1]) + SigOps(scripts[|scripts| - 1])
  }

  method CountSigOps(scripts: seq<seq<Byte>>) returns (n: nat)
    ensures n == TotalSigOps(scripts)
  {
    n := 0;
    for i := 0 to |scripts|
      invariant n == TotalSigOps(scripts[..i])
    {
      var k := PreGenesisSigOpCount(scripts[i]);
      assert scripts[..i + 1][..i] == scripts[..i];
      n := n + k;
    }
    assert scripts[..|scripts|] == scripts;
  }

  /** Output i is the first that breaks the money range, in the way v says. */
  ghost predicate BadAt(outputs: seq<Uint64>, i: nat, v: Violation) {
    && i < |outputs| && Sum(outputs[..i]) <= MAX_MONEY
    && match v
       case Negative => outputs[i] > MAX_INT64
       case TooLarge => MAX_MONEY < outputs[i] <= MAX_INT64
       case TotalTooLarge => outputs[i] <= MAX_MONEY && Sum(outputs[..i + 1]) > MAX_MONEY
       case _ => false
  }

  lemma PrefixNext(xs: seq<Uint64>, i: nat)
    requires i < |xs|
    ensures Sum(xs[..i + 1]) == Sum(xs[..i]) + xs[i]
  {
    assert xs[..i + 1][..i] == xs[..i];
  }

  lemma {:induction false} BadPassesMax(outputs: seq<Uint64>, i: nat, v: Violation)
    requires BadAt(outputs, i, v)
    ensures Sum(outputs[..i + 1]) > MAX_MONEY && Sum(outputs) > MAX_MONEY
  {
    PrefixNext(outputs, i);
    SumGrows(outputs, i + 1);
  }

  lemma {:induction false} BadStays(outputs: seq<Uint64>, i: nat, v: Violation, j: nat)
    requires BadAt(outputs, i, v) && i < j <= |outputs|
    ensures Sum(outputs[..j]) > MAX_MONEY
  {
    BadPassesMax(outputs, i, v);
    SumGrows(outputs[..j], i + 1);
    assert outputs[..j][..i + 1] == outputs[..i + 1];
  }

  /** At most one output is the first bad one, and in one way only. */
  lemma {:induction false} BadAtUnique(outputs: seq<Uint64>, i: nat, v: Violation, j: nat, w: Violation)
    requires BadAt(outputs, i, v) && BadAt(outputs, j, w)
    ensures i == j && v == w
  {
    if i < j {
      BadStays(outputs, i, v, j);
    }
    if j < i {
      BadStays(outputs, j, w, i);
    }
  }

  /** The money range of the outputs, in the order they are checked. The running total cannot wrap. */
  method CheckMoney(outputs: seq<Uint64>) returns (v: Violation)
    ensures v == NoViolation <==> Sum(outputs) <= MAX_MONEY
    ensures v != NoViolation ==> exists i: nat :: BadAt(outputs, i, v)
  {
    var total: Uint64 := 0;
    for i := 0 to |outputs|
      invariant total == Sum(outputs[..i]) <= MAX_MONEY
    {
      PrefixNext(outputs, i);
      if outputs[i] > MAX_INT64 {
        v := Negative;
        assert BadAt(outputs, i, v);
        BadPassesMax(outputs, i, v);
        return;
      }
      if outputs[i] > MAX_MONEY {
        v := TooLarge;
        assert BadAt(outputs, i, v);
        BadPassesMax(outputs, i, v);
        return;
      }
      total := Add(total, outputs[i]);
      if total > MAX_MONEY {
        v := TotalTooLarge;
        assert BadAt(outputs, i, v);
        BadPassesMax(outputs, i, v);
        return;
      }
    }
    assert outputs[..|outputs|] == outputs;
    return NoViolation;
  }

  /** No more than a megabyte before Genesis, no more than a gigabyte after it. */
  predicate SizeOk(size: nat, genesisEnabled: bool) {
    size <= MAX_TX_SIZE_BEFORE_GENESIS || (genesisEnabled && size <= MAX_TX_SIZE_AFTER_GENESIS)
  }

  /** TxCommonRuleViolation: the first rule broken, in the order inputs, outputs, size, money, signature operations;
      the last is what is left when none of the others is. */
  method TxCommonRuleViolation(tx: Tx, genesisEnabled: bool) returns (v: Violation)
    ensures v == NoViolation <==>
            && tx.inputs != [] && tx.outputs != []
            && SizeOk(tx.size, genesisEnabled)
            && Sum(tx.outputs) <= MAX_MONEY
            && (!genesisEnabled ==>
                  TotalSigOps(tx.inputs) + TotalSigOps(tx.lockingScripts) <= MAX_SIGOPS_BEFORE_GENESIS)
    ensures v == VinEmpty <==> tx.inputs == []
    ensures v == VoutEmpty <==> tx.inputs != [] && tx.outputs == []
    ensures v == Oversize <==> tx.inputs != [] && tx.outputs != [] && !SizeOk(tx.size, genesisEnabled)
    ensures v.Negative? || v.TooLarge? || v.TotalTooLarge? <==>
      && tx.inputs != [] && tx.outputs != [] && SizeOk(tx.size, genesisEnabled) && Sum(tx.outputs) > MAX_MONEY
    ensures v.Negative? || v.TooLarge? || v.TotalTooLarge? ==> exists i: nat :: BadAt(tx.outputs, i, v)
  {
    if |tx.inputs| == 0 {
      return VinEmpty;
    }
    if |tx.outputs| == 0 {
      return VoutEmpty;
    }
    if tx.size > if genesisEnabled then MAX_TX_SIZE_AFTER_GENESIS else MAX_TX_SIZE_BEFORE_GENESIS {
      return Oversize;
    }
    v := CheckMoney(tx.outputs);
    if v != NoViolation {
      return;
    }
    if !genesisEnabled {
      var inputs := CountSigOps(tx.inputs);
      var outputs := CountSigOps(tx.lockingScripts);
      if inputs + outputs > MAX_SIGOPS_BEFORE_GENESIS {
        return TooManySigOps;
      }
    }
    return NoViolation;
  }

  /** Both checks on one coinbase. A coinbase that keeps the common rules never overflows the outputs sum, so
      what is left of the reward check on it is the comparison with the fees and the subsidy. */
  method CheckCoinbase(tx: Tx, genesisEnabled: bool, r: Reward) returns (violation: Violation, v: Verdict)
    requires r.outputs == tx.outputs
    ensures violation == NoViolation ==> v != OutputsOverflow
    ensures violation == NoViolation && v == Accepted && !Exempt(r) ==>
            Sum(tx.outputs) <= MAX_MONEY && AllPresent(r.fees) && Sum(tx.outputs) <= Fees(r.fees, |r.fees|) + r.subsidy
  {
    violation := TxCommonRuleViolation(tx, genesisEnabled);
    v := CheckBlockRewardAndFees(r);
  }
}
