/** What validOrderAndBlessed answers on a block of one subtree (model/Block.go): the checks in
    transaction order as a recursive scan, and the same answer in terms of positions of the block: at
    which transaction which check fails first, or what the chain says about the absent parents. */
module BlockScan {
  import opened Common
  import opened Inpoints
  import opened NodeShard
  import ParentOrder

  /** What the subtree meta answers for a transaction. */
  datatype ParentsAnswer = ParentsError | NotFound | Parents(hashes: seq<Hash>)
  datatype InputsAnswer = InputsError | Inputs(inpoints: seq<Inpoint>)

  datatype Tx = Tx(placeholder: bool, parents: ParentsAnswer, inputs: InputsAnswer)

  /** One subtree, the filled transaction map, and what the chain lookup says about the parents that
      are not in the block. */
  datatype Block = Block(txs: seq<Tx>, txMap: map<Hash, nat>, chain: seq<Hash> -> Option<string>)

  datatype Verdict =
    | Valid
    | StorageError(tx: nat)
    | NotInMeta(tx: nat)
    | DuplicateInputs(tx: nat)
    | OutOfOrder(tx: nat, parent: Hash)
    | ChainError(error: string)
    | TooManyInputs
    | SpendsMapError(tx: nat)

  /** All but the coinbase placeholder in the first place. */
  predicate Live(b: Block, i: nat)
    requires i < |b.txs|
  {
    !(i == 0 && b.txs[0].placeholder)
  }

  function Order(b: Block, i: nat): ParentOrder.Checked
    requires i < |b.txs| && b.txs[i].parents.Parents?
  {
    ParentOrder.JudgeFrom(b.txMap, b.txs[i].parents.hashes, i, 0)
  }

  /** The first n inputs. */
  function SetOf(inpoints: seq<Inpoint>, n: nat): set<Inpoint>
    requires n <= |inpoints|
  {
    if n == 0 then {} else SetOf(inpoints, n - 1) + {inpoints[n - 1]}
  }

  function AsSet(inpoints: seq<Inpoint>): set<Inpoint> {
    SetOf(inpoints, |inpoints|)
  }

  /** Input k was spent before, or by an earlier input of the same transaction. */
  ghost predicate RepeatsAt(inpoints: seq<Inpoint>, spent: set<Inpoint>, k: nat)
    requires k < |inpoints|
  {
    inpoints[k] in spent || inpoints[k] in SetOf(inpoints, k)
  }

  ghost predicate Repeats(inpoints: seq<Inpoint>, spent: set<Inpoint>) {
    exists k: nat :: k < |inpoints| && RepeatsAt(inpoints, spent, k)
  }

  lemma {:induction false} SetOfMeans(inpoints: seq<Inpoint>, n: nat, x: Inpoint)
    requires n <= |inpoints|
    ensures x in SetOf(inpoints, n) <==> exists j :: 0 <= j < n && inpoints[j] == x
  {
    if n > 0 {
      SetOfMeans(inpoints, n - 1, x);
    }
  }

  function ChainVerdict(b: Block, missing: seq<Hash>): Verdict {
    if missing == [] then Valid
    else match b.chain(missing)
      case None => Valid
      case Some(error) => ChainError(error)
  }

  /** The checks in transaction order, with the duplicate check among them. */
  ghost function Scan(b: Block, i: nat, spent: set<Inpoint>, missing: seq<Hash>): Verdict
    requires i <= |b.txs|
    decreases |b.txs| - i
  {
    if i == |b.txs| then ChainVerdict(b, missing)
    else if !Live(b, i) then Scan(b, i + 1, spent, missing)
    else match b.txs[i].parents
      case ParentsError => StorageError(i)
      case NotFound => NotInMeta(i)
      case Parents(_) =>
        match b.txs[i].inputs
        case InputsError => StorageError(i)
        case Inputs(inpoints) =>
          if Repeats(inpoints, spent) then DuplicateInputs(i)
          else match Order(b, i)
            case OutOfOrder(parent) => OutOfOrder(i, parent)
            case Missing(absent) => Scan(b, i + 1, spent + AsSet(inpoints), missing + absent)
  }

  /** The errors of reading a transaction's parents and inputs from the subtree meta. */
  function MetaError(tx: Tx, i: nat): Option<Verdict> {
    match tx.parents
    case ParentsError => Some(StorageError(i))
    case NotFound => Some(NotInMeta(i))
    case Parents(_) => if tx.inputs.InputsError? then Some(StorageError(i)) else None
  }

  // ------------------------------------------------------------ a spends map that may fail

  datatype Spending = AllNew | Repeated | MapFailed

  /** Putting the inputs from k on into the spends map: the first that is refused or was there decides. */
  ghost function Spend(inpoints: seq<Inpoint>, spent: set<Inpoint>, fails: nat -> bool, k: nat): Spending
    requires k <= |inpoints|
    decreases |inpoints| - k
  {
    if k == |inpoints| then AllNew
    else if fails(k) then MapFailed
    else if RepeatsAt(inpoints, spent, k) then Repeated
    else Spend(inpoints, spent, fails, k + 1)
  }

  /** Without failures of the map the outcome is whether some input repeats. */
  lemma {:induction false} SpendMeans(inpoints: seq<Inpoint>, spent: set<Inpoint>, fails: nat -> bool, k: nat)
    requires k <= |inpoints| && (forall j: nat :: !fails(j))
    requires forall j: nat :: j < k ==> !RepeatsAt(inpoints, spent, j)
    ensures Spend(inpoints, spent, fails, k) == if Repeats(inpoints, spent) then Repeated else AllNew
    decreases |inpoints| - k
  {
    if k < |inpoints| && !RepeatsAt(inpoints, spent, k) {
      SpendMeans(inpoints, spent, fails, k + 1);
    }
  }

  /** The scan with a spends map that may fail at any input of any transaction. */
  ghost function ScanWith(b: Block, fails: nat -> nat -> bool, i: nat, spent: set<Inpoint>, missing: seq<Hash>): Verdict
    requires i <= |b.txs|
    decreases |b.txs| - i
  {
    if i == |b.txs| then ChainVerdict(b, missing)
    else if !Live(b, i) then ScanWith(b, fails, i + 1, spent, missing)
    else if MetaError(b.txs[i], i).Some? then MetaError(b.txs[i], i).value
    else
      var inpoints := b.txs[i].inputs.inpoints;
      match Spend(inpoints, spent, fails(i), 0)
      case MapFailed => SpendsMapError(i)
      case Repeated => DuplicateInputs(i)
      case AllNew =>
        match Order(b, i)
        case OutOfOrder(parent) => OutOfOrder(i, parent)
        case Missing(absent) => ScanWith(b, fails, i + 1, spent + AsSet(inpoints), missing + absent)
  }

  /** A map that never fails. */
  function Never(): nat -> nat -> bool {
    (i: nat) => (k: nat) => false
  }

  ghost predicate NeverFails(fails: nat -> nat -> bool) {
    forall t: nat, k: nat :: !fails(t)(k)
  }

  /** With a map that never fails it is the scan. */
  lemma {:induction false} ScanWithoutFailures(b: Block, fails: nat -> nat -> bool, i: nat, spent: set<Inpoint>,
        missing: seq<Hash>)
    requires i <= |b.txs| && NeverFails(fails)
    ensures ScanWith(b, fails, i, spent, missing) == Scan(b, i, spent, missing)
    decreases |b.txs| - i
  {
    if i < |b.txs| {
      if !Live(b, i) {
        ScanWithoutFailures(b, fails, i + 1, spent, missing);
      } else if MetaError(b.txs[i], i).None? {
        var inpoints := b.txs[i].inputs.inpoints;
        SpendMeans(inpoints, spent, fails(i), 0);
        if Order(b, i).Missing? {
          ScanWithoutFailures(b, fails, i + 1, spent + AsSet(inpoints), missing + Order(b, i).parents);
        }
      }
    }
  }

  lemma {:induction false} ScanIfNeverFails(b: Block, fails: nat -> nat -> bool)
    ensures NeverFails(fails) ==> ScanWith(b, fails, 0, {}, []) == Scan(b, 0, {}, [])
  {
    if NeverFails(fails) {
      ScanWithoutFailures(b, fails, 0, {}, []);
    }
  }

  /** The inputs of the live transactions before i. */
  ghost function Spent(b: Block, i: nat): set<Inpoint>
    requires i <= |b.txs|
  {
    if i == 0 then {}
    else
      var tx := b.txs[i - 1];
      Spent(b, i - 1) + (if Live(b, i - 1) && tx.inputs.Inputs? then AsSet(tx.inputs.inpoints) else {})
  }

  // ------------------------------------------------------------ the answer by positions

  /** Input l of transaction j spends x. */
  ghost predicate SpendsAt(b: Block, j: nat, l: nat, x: Inpoint) {
    && j < |b.txs| && Live(b, j) && b.txs[j].inputs.Inputs?
    && l < |b.txs[j].inputs.inpoints| && b.txs[j].inputs.inpoints[l] == x
  }

  /** An earlier transaction, or an earlier input of the same one, spends what input k of transaction i spends. */
  ghost predicate SpentEarlier(b: Block, i: nat, k: nat)
    requires i < |b.txs| && b.txs[i].inputs.Inputs? && k < |b.txs[i].inputs.inpoints|
  {
    exists j: nat, l: nat ::
      SpendsAt(b, j, l, b.txs[i].inputs.inpoints[k]) && (j < i || (j == i && l < k))
  }

  /** The subtree meta has the transaction's parents and inputs. */
  ghost predicate Known(b: Block, i: nat)
    requires i < |b.txs|
  {
    b.txs[i].parents.Parents? && b.txs[i].inputs.Inputs?
  }

  /** The map takes each of the first n inputs as new. */
  ghost predicate InputsPass(b: Block, fails: nat -> nat -> bool, i: nat, n: nat)
    requires i < |b.txs| && Known(b, i) && n <= |b.txs[i].inputs.inpoints|
  {
    forall k: nat :: k < n ==> !fails(i)(k) && !SpentEarlier(b, i, k)
  }

  /** Parent p of transaction i is in the block, after it. */
  ghost predicate LateParent(b: Block, i: nat, p: nat)
    requires i < |b.txs| && Known(b, i)
  {
    var parents := b.txs[i].parents.hashes;
    p < |parents| && parents[p] in b.txMap && b.txMap[parents[p]] > i
  }

  ghost predicate NoLateParent(b: Block, i: nat)
    requires i < |b.txs| && Known(b, i)
  {
    forall p: nat :: !LateParent(b, i, p)
  }

  ghost predicate Passes(b: Block, fails: nat -> nat -> bool, i: nat)
    requires i < |b.txs|
  {
    Live(b, i) ==> Known(b, i) && InputsPass(b, fails, i, |b.txs[i].inputs.inpoints|) && NoLateParent(b, i)
  }

  /** The transactions before i pass. */
  ghost predicate AllPass(b: Block, fails: nat -> nat -> bool, i: nat)
    requires i <= |b.txs|
  {
    forall j: nat :: j < i ==> Passes(b, fails, j)
  }

  /** The scan gets as far as transaction i: it is live and those before it pass. */
  ghost predicate ReachedAt(b: Block, fails: nat -> nat -> bool, i: nat) {
    i < |b.txs| && Live(b, i) && AllPass(b, fails, i)
  }

  /** A parent of a transaction. */
  datatype Place = Place(tx: nat, parent: nat)

  ghost predicate AbsentAt(b: Block, p: Place) {
    && p.tx < |b.txs| && Live(b, p.tx) && b.txs[p.tx].parents.Parents?
    && p.parent < |b.txs[p.tx].parents.hashes| && b.txs[p.tx].parents.hashes[p.parent] !in b.txMap
  }

  ghost function ParentAt(b: Block, p: Place): Hash
    requires AbsentAt(b, p)
  {
    b.txs[p.tx].parents.hashes[p.parent]
  }

  ghost predicate PlaceBefore(p: Place, q: Place) {
    p.tx < q.tx || (p.tx == q.tx && p.parent < q.parent)
  }

  ghost predicate InOrder(ps: seq<Place>) {
    forall i, j :: 0 <= i < j < |ps| ==> PlaceBefore(ps[i], ps[j])
  }

  /** All the parents that are not in the block, in block order. */
  ghost predicate Listing(b: Block, ps: seq<Place>) {
    InOrder(ps) && forall p :: p in ps <==> AbsentAt(b, p)
  }

  ghost predicate HashesOf(b: Block, ps: seq<Place>, hashes: seq<Hash>) {
    |hashes| == |ps| && forall k :: 0 <= k < |ps| ==> AbsentAt(b, ps[k]) && hashes[k] == ParentAt(b, ps[k])
  }

  /** The hashes of all parents that are not in the block, in block order. */
  ghost predicate AbsentParents(b: Block, hashes: seq<Hash>) {
    exists ps :: Listing(b, ps) && HashesOf(b, ps, hashes)
  }

  /** The chain has nothing against the absent parents. */
  ghost predicate ChainAgrees(b: Block) {
    exists hashes :: AbsentParents(b, hashes) && (hashes == [] || b.chain(hashes).None?)
  }

  ghost predicate ChainRefuses(b: Block, error: string) {
    exists hashes :: AbsentParents(b, hashes) && hashes != [] && b.chain(hashes) == Some(error)
  }

  ghost predicate MapRefuses(b: Block, fails: nat -> nat -> bool, i: nat, k: nat)
    requires i < |b.txs| && Known(b, i)
  {
    k < |b.txs[i].inputs.inpoints| && InputsPass(b, fails, i, k) && fails(i)(k)
  }

  ghost predicate RepeatsFirst(b: Block, fails: nat -> nat -> bool, i: nat, k: nat)
    requires i < |b.txs| && Known(b, i)
  {
    k < |b.txs[i].inputs.inpoints| && InputsPass(b, fails, i, k) && !fails(i)(k) && SpentEarlier(b, i, k)
  }

  ghost predicate LateFirst(b: Block, i: nat, p: nat, parent: Hash)
    requires i < |b.txs| && Known(b, i)
  {
    LateParent(b, i, p) && b.txs[i].parents.hashes[p] == parent && forall q: nat :: q < p ==> !LateParent(b, i, q)
  }

  /** Only a repeated input can be wrong with transaction i. */
  ghost predicate OtherwiseFine(b: Block, i: nat)
    requires i < |b.txs|
  {
    Live(b, i) ==> Known(b, i) && NoLateParent(b, i)
  }

  /** Only a repeated input can be wrong with the block. */
  ghost predicate Uneventful(b: Block) {
    (forall i: nat :: i < |b.txs| ==> OtherwiseFine(b, i)) && ChainAgrees(b)
  }

  /** What each answer means. An error about a transaction is at the first one that fails a check and names the
      first check it fails; the chain decides when none does. */
  ghost predicate Answers(b: Block, fails: nat -> nat -> bool, v: Verdict) {
    match v
    case Valid => AllPass(b, fails, |b.txs|) && ChainAgrees(b)
    case ChainError(error) => AllPass(b, fails, |b.txs|) && ChainRefuses(b, error)
    case StorageError(i) =>
      && ReachedAt(b, fails, i)
      && (b.txs[i].parents.ParentsError? || (b.txs[i].parents.Parents? && b.txs[i].inputs.InputsError?))
    case NotInMeta(i) => ReachedAt(b, fails, i) && b.txs[i].parents.NotFound?
    case SpendsMapError(i) => ReachedAt(b, fails, i) && Known(b, i) && exists k: nat :: MapRefuses(b, fails, i, k)
    case DuplicateInputs(i) => ReachedAt(b, fails, i) && Known(b, i) && exists k: nat :: RepeatsFirst(b, fails, i, k)
    case OutOfOrder(i, parent) =>
      && ReachedAt(b, fails, i) && Known(b, i) && InputsPass(b, fails, i, |b.txs[i].inputs.inpoints|)
      && exists p: nat :: LateFirst(b, i, p, parent)
    case TooManyInputs => false
  }

  // ------------------------------------------------------------ the scan and the positions

  ghost predicate SpentBy(b: Block, i: nat, x: Inpoint) {
    exists j: nat, l: nat :: j < i && SpendsAt(b, j, l, x)
  }

  lemma {:induction false} SpentAt(b: Block, i: nat, x: Inpoint)
    requires i <= |b.txs|
    ensures x in Spent(b, i) <==> SpentBy(b, i, x)
  {
    if i > 0 {
      var j := i - 1;
      SpentAt(b, j, x);
      if x in Spent(b, i) {
        if x in Spent(b, j) {
          var u: nat, l: nat :| u < j && SpendsAt(b, u, l, x);
        } else {
          var ins := b.txs[j].inputs.inpoints;
          SetOfMeans(ins, |ins|, x);
          var l :| 0 <= l < |ins| && ins[l] == x;
          assert SpendsAt(b, j, l, x);
        }
      }
      if SpentBy(b, i, x) {
        var u: nat, l: nat :| u < i && SpendsAt(b, u, l, x);
        if u < j {
          assert SpentBy(b, j, x);
        } else {
          SetOfMeans(b.txs[j].inputs.inpoints, |b.txs[j].inputs.inpoints|, x);
        }
      }
    }
  }

  lemma {:induction false} RepeatsByPosition(b: Block, i: nat, k: nat)
    requires i < |b.txs| && Live(b, i) && b.txs[i].inputs.Inputs? && k < |b.txs[i].inputs.inpoints|
    ensures RepeatsAt(b.txs[i].inputs.inpoints, Spent(b, i), k) <==> SpentEarlier(b, i, k)
  {
    var ins := b.txs[i].inputs.inpoints;
    var x := ins[k];
    SpentAt(b, i, x);
    SetOfMeans(ins, k, x);
    if x in Spent(b, i) {
      var j: nat, l: nat :| j < i && SpendsAt(b, j, l, x);
    } else if x in SetOf(ins, k) {
      var l :| 0 <= l < k && ins[l] == x;
      assert SpendsAt(b, i, l, x);
    }
    if SpentEarlier(b, i, k) {
      var j: nat, l: nat :| SpendsAt(b, j, l, x) && (j < i || (j == i && l < k));
    }
  }

  /** Where putting the inputs into the map ends. */
  lemma {:induction false} SpendEnds(ins: seq<Inpoint>, spent: set<Inpoint>, fails: nat -> bool, k: nat)
    returns (e: nat)
    requires k <= |ins|
    ensures k <= e <= |ins| && forall j: nat :: k <= j < e ==> !fails(j) && !RepeatsAt(ins, spent, j)
    ensures Spend(ins, spent, fails, k) ==
            if e == |ins| then AllNew else if fails(e) then MapFailed else Repeated
    ensures e < |ins| ==> fails(e) || RepeatsAt(ins, spent, e)
    decreases |ins| - k
  {
    if k == |ins| || fails(k) || RepeatsAt(ins, spent, k) {
      e := k;
    } else {
      e := SpendEnds(ins, spent, fails, k + 1);
    }
  }

  lemma {:induction false} SpendByPosition(b: Block, fails: nat -> nat -> bool, i: nat)
    requires i < |b.txs| && Live(b, i) && Known(b, i)
    ensures
      match Spend(b.txs[i].inputs.inpoints, Spent(b, i), fails(i), 0)
      case AllNew => InputsPass(b, fails, i, |b.txs[i].inputs.inpoints|)
      case MapFailed => exists k: nat :: MapRefuses(b, fails, i, k)
      case Repeated => exists k: nat :: RepeatsFirst(b, fails, i, k)
  {
    var ins := b.txs[i].inputs.inpoints;
    var e := SpendEnds(ins, Spent(b, i), fails(i), 0);
    forall k: nat | k < |ins| ensures RepeatsAt(ins, Spent(b, i), k) <==> SpentEarlier(b, i, k) {
      RepeatsByPosition(b, i, k);
    }
    assert InputsPass(b, fails, i, e);
    assert e < |ins| ==> MapRefuses(b, fails, i, e) || RepeatsFirst(b, fails, i, e);
  }

  lemma {:induction false} OrderFrom(b: Block, i: nat, p: nat) returns (at: nat)
    requires i < |b.txs| && Known(b, i) && p <= |b.txs[i].parents.hashes|
    requires forall q: nat :: q < p ==> !LateParent(b, i, q)
    ensures
      var r := ParentOrder.JudgeFrom(b.txMap, b.txs[i].parents.hashes, i, p);
      && (r.OutOfOrder? ==> LateFirst(b, i, at, r.parent))
      && (r.Missing? ==> NoLateParent(b, i) && r.parents == ParentOrder.Absent(b.txMap, b.txs[i].parents.hashes))
    decreases |b.txs[i].parents.hashes| - p
  {
    var parents := b.txs[i].parents.hashes;
    at := p;
    if p < |parents| && !LateParent(b, i, p) {
      at := OrderFrom(b, i, p + 1);
    }
  }

  // ------------------------------------------------------------ the absent parents

  /** The absent ones among the first m parents of transaction i. */
  ghost function PlacesIn(b: Block, i: nat, m: nat): seq<Place>
    requires i < |b.txs| && b.txs[i].parents.Parents? && m <= |b.txs[i].parents.hashes|
  {
    if m == 0 then []
    else PlacesIn(b, i, m - 1) + (if b.txs[i].parents.hashes[m - 1] in b.txMap then [] else [Place(i, m - 1)])
  }

  ghost predicate HasParents(b: Block, i: nat)
    requires i < |b.txs|
  {
    Live(b, i) && b.txs[i].parents.Parents?
  }

  ghost function PlacesBefore(b: Block, n: nat): seq<Place>
    requires n <= |b.txs|
  {
    if n == 0 then []
    else
      var last := if HasParents(b, n - 1) then PlacesIn(b, n - 1, |b.txs[n - 1].parents.hashes|) else [];
      PlacesBefore(b, n - 1) + last
  }

  /** The absent parents the scan has passed on before transaction n. */
  ghost function AbsentBefore(b: Block, n: nat): seq<Hash>
    requires n <= |b.txs|
  {
    if n == 0 then []
    else
      var last := if HasParents(b, n - 1) then ParentOrder.Absent(b.txMap, b.txs[n - 1].parents.hashes) else [];
      AbsentBefore(b, n - 1) + last
  }

  lemma {:induction false} PlacesInExact(b: Block, i: nat, m: nat)
    requires i < |b.txs| && HasParents(b, i) && m <= |b.txs[i].parents.hashes|
    ensures InOrder(PlacesIn(b, i, m))
    ensures forall p :: p in PlacesIn(b, i, m) <==> AbsentAt(b, p) && p.tx == i && p.parent < m
    ensures HashesOf(b, PlacesIn(b, i, m), ParentOrder.Absent(b.txMap, b.txs[i].parents.hashes[..m]))
  {
    var parents := b.txs[i].parents.hashes;
    if m > 0 {
      PlacesInExact(b, i, m - 1);
      var pre := PlacesIn(b, i, m - 1);
      assert parents[..m][..m - 1] == parents[..m - 1] && parents[..m][m - 1] == parents[m - 1];
      forall k | 0 <= k < |pre| ensures pre[k].parent < m - 1 && pre[k].tx == i {
        assert pre[k] in pre;
      }
    }
  }

  lemma {:induction false} PlacesBeforeExact(b: Block, n: nat)
    requires n <= |b.txs|
    ensures InOrder(PlacesBefore(b, n))
    ensures forall p :: p in PlacesBefore(b, n) <==> AbsentAt(b, p) && p.tx < n
    ensures HashesOf(b, PlacesBefore(b, n), AbsentBefore(b, n))
  {
    if n > 0 {
      var i := n - 1;
      PlacesBeforeExact(b, i);
      if HasParents(b, i) {
        var parents := b.txs[i].parents.hashes;
        PlacesInExact(b, i, |parents|);
        assert parents[..|parents|] == parents;
        JoinPlaces(b, PlacesBefore(b, i), AbsentBefore(b, i), PlacesIn(b, i, |parents|),
                   ParentOrder.Absent(b.txMap, parents), i);
      }
    }
  }

  lemma {:induction false} JoinPlaces(b: Block, ps: seq<Place>, hashes: seq<Hash>, qs: seq<Place>, more: seq<Hash>,
        i: nat)
    requires InOrder(ps) && InOrder(qs) && HashesOf(b, ps, hashes) && HashesOf(b, qs, more)
    requires (forall p :: p in ps ==> p.tx < i) && (forall q :: q in qs ==> q.tx == i)
    ensures InOrder(ps + qs) && HashesOf(b, ps + qs, hashes + more)
  {
    forall k | 0 <= k < |ps| ensures ps[k].tx < i {
      assert ps[k] in ps;
    }
    forall k | 0 <= k < |qs| ensures qs[k].tx == i {
      assert qs[k] in qs;
    }
  }

  lemma {:induction false} OneListing(ps: seq<Place>, qs: seq<Place>)
    requires InOrder(ps) && InOrder(qs) && forall p :: p in ps <==> p in qs
    ensures ps == qs
    decreases |ps|
  {
    SomeInOther(ps, qs);
    SomeInOther(qs, ps);
    if ps != [] {
      var p, q := ps[|ps| - 1], qs[|qs| - 1];
      LastIsLatest(ps, qs);
      LastIsLatest(qs, ps);
      assert p == q;
      var ps', qs' := ps[..|ps| - 1], qs[..|qs| - 1];
      forall x ensures x in ps' <==> x in qs' {
        AllButLast(ps, x);
        AllButLast(qs, x);
      }
      OneListing(ps', qs');
      assert ps == ps' + [p] && qs == qs' + [q];
    }
  }

  lemma {:induction false} SomeInOther(ps: seq<Place>, qs: seq<Place>)
    requires forall p :: p in ps ==> p in qs
    ensures ps != [] ==> qs != []
  {
    if ps != [] {
      assert ps[0] in qs;
    }
  }

  lemma {:induction false} AllButLast(ps: seq<Place>, x: Place)
    requires InOrder(ps) && ps != []
    ensures x in ps[..|ps| - 1] <==> x in ps && x != ps[|ps| - 1]
  {
    var last := |ps| - 1;
    if x in ps[..last] {
      var k :| 0 <= k < last && ps[k] == x;
      assert PlaceBefore(ps[k], ps[last]);
    }
  }

  lemma {:induction false} LastIsLatest(ps: seq<Place>, qs: seq<Place>)
    requires InOrder(qs) && ps != [] && qs != [] && forall p :: p in ps ==> p in qs
    ensures ps[|ps| - 1] == qs[|qs| - 1] || PlaceBefore(ps[|ps| - 1], qs[|qs| - 1])
  {
    var p := ps[|ps| - 1];
    assert p in ps;
    var k :| 0 <= k < |qs| && qs[k] == p;
    if k < |qs| - 1 {
      assert PlaceBefore(qs[k], qs[|qs| - 1]);
    }
  }

  /** There is one list of absent parents. */
  lemma {:induction false} AbsentParentsUnique(b: Block, hashes: seq<Hash>)
    ensures AbsentParents(b, hashes) <==> hashes == AbsentBefore(b, |b.txs|)
  {
    var qs := PlacesBefore(b, |b.txs|);
    PlacesBeforeExact(b, |b.txs|);
    assert Listing(b, qs);
    if AbsentParents(b, hashes) {
      var ps :| Listing(b, ps) && HashesOf(b, ps, hashes);
      OneListing(ps, qs);
      SameHashes(b, ps, hashes, AbsentBefore(b, |b.txs|));
    }
  }

  lemma {:induction false} SameHashes(b: Block, ps: seq<Place>, hashes: seq<Hash>, hashes': seq<Hash>)
    requires HashesOf(b, ps, hashes) && HashesOf(b, ps, hashes')
    ensures hashes == hashes'
  {
  }

  // ------------------------------------------------------------ the scan gives the answer

  lemma {:induction false} ChainAnswers(b: Block, fails: nat -> nat -> bool)
    requires AllPass(b, fails, |b.txs|)
    ensures Answers(b, fails, ChainVerdict(b, AbsentBefore(b, |b.txs|)))
  {
    AbsentParentsUnique(b, AbsentBefore(b, |b.txs|));
  }

  lemma {:induction false} ChainByPosition(b: Block)
    ensures ChainVerdict(b, AbsentBefore(b, |b.txs|)) == Valid <==> ChainAgrees(b)
  {
    AbsentParentsUnique(b, AbsentBefore(b, |b.txs|));
    if ChainAgrees(b) {
      var hashes :| AbsentParents(b, hashes) && (hashes == [] || b.chain(hashes).None?);
      AbsentParentsUnique(b, hashes);
    }
  }

  /** The same for the plain scan. */
  lemma {:induction false} PlainScanAnswers(b: Block, v: Verdict)
    ensures Answers(b, Never(), v) <==> v == Scan(b, 0, {}, [])
  {
    ScanAnswers(b, Never(), v);
    ScanWithoutFailures(b, Never(), 0, {}, []);
  }

  lemma {:induction false} ScanAnswersFrom(b: Block, fails: nat -> nat -> bool, i: nat)
    requires i <= |b.txs| && AllPass(b, fails, i)
    ensures Answers(b, fails, ScanWith(b, fails, i, Spent(b, i), AbsentBefore(b, i)))
    decreases |b.txs| - i
  {
    if i == |b.txs| {
      ChainAnswers(b, fails);
    } else if Passes(b, fails, i) {
      AllPassNext(b, fails, i, i + 1);
      ScanAnswersFrom(b, fails, i + 1);
      PassingStep(b, fails, i, i + 1);
    } else {
      StoppingStep(b, fails, i);
    }
  }

  lemma {:induction false} StoppingStep(b: Block, fails: nat -> nat -> bool, i: nat)
    requires i < |b.txs| && AllPass(b, fails, i) && !Passes(b, fails, i)
    ensures Answers(b, fails, ScanWith(b, fails, i, Spent(b, i), AbsentBefore(b, i)))
  {
    if Known(b, i) {
      FailingStep(b, fails, i);
    } else {
      UnknownStep(b, fails, i);
    }
  }

  lemma {:induction false} AllPassNext(b: Block, fails: nat -> nat -> bool, i: nat, next: nat)
    requires i < |b.txs| && next == i + 1 && AllPass(b, fails, i) && Passes(b, fails, i)
    ensures AllPass(b, fails, next)
  {
  }

  lemma {:induction false} PassingStep(b: Block, fails: nat -> nat -> bool, i: nat, next: nat)
    requires i < |b.txs| && next == i + 1 && Passes(b, fails, i)
    ensures ScanWith(b, fails, i, Spent(b, i), AbsentBefore(b, i))
         == ScanWith(b, fails, next, Spent(b, next), AbsentBefore(b, next))
  {
    if Live(b, i) {
      SpendByPosition(b, fails, i);
      var p := OrderFrom(b, i, 0);
    } else {
      assert Spent(b, next) == Spent(b, i) && AbsentBefore(b, next) == AbsentBefore(b, i);
    }
  }

  lemma {:induction false} FailingStep(b: Block, fails: nat -> nat -> bool, i: nat)
    requires ReachedAt(b, fails, i) && Known(b, i) && !Passes(b, fails, i)
    ensures Answers(b, fails, ScanWith(b, fails, i, Spent(b, i), AbsentBefore(b, i)))
  {
    SpendByPosition(b, fails, i);
    var p := OrderFrom(b, i, 0);
  }

  lemma {:induction false} UnknownStep(b: Block, fails: nat -> nat -> bool, i: nat)
    requires ReachedAt(b, fails, i) && !Known(b, i)
    ensures Answers(b, fails, ScanWith(b, fails, i, Spent(b, i), AbsentBefore(b, i)))
  {
  }

  /** The scan gives the answer, and there is only one. */
  lemma {:induction false} ScanAnswers(b: Block, fails: nat -> nat -> bool, v: Verdict)
    ensures Answers(b, fails, v) <==> v == ScanWith(b, fails, 0, {}, [])
  {
    ScanAnswersFrom(b, fails, 0);
    if Answers(b, fails, v) {
      OneAnswer(b, fails, v, ScanWith(b, fails, 0, {}, []));
    }
  }

  /** The transaction an error is about, the number of transactions for an answer about the whole block. */
  function AnswerAt(b: Block, v: Verdict): nat {
    match v
    case Valid => |b.txs|
    case ChainError(_) => |b.txs|
    case TooManyInputs => |b.txs|
    case StorageError(i) => i
    case NotInMeta(i) => i
    case DuplicateInputs(i) => i
    case OutOfOrder(i, _) => i
    case SpendsMapError(i) => i
  }

  lemma {:induction false} AnswerFails(b: Block, fails: nat -> nat -> bool, v: Verdict)
    requires Answers(b, fails, v)
    ensures AnswerAt(b, v) <= |b.txs| && AllPass(b, fails, AnswerAt(b, v))
    ensures AnswerAt(b, v) < |b.txs| ==> Live(b, AnswerAt(b, v)) && !Passes(b, fails, AnswerAt(b, v))
  {
  }

  lemma {:induction false} OneChainAnswer(b: Block, fails: nat -> nat -> bool, v: Verdict, w: Verdict)
    requires Answers(b, fails, v) && Answers(b, fails, w) && AnswerAt(b, v) == AnswerAt(b, w) == |b.txs|
    ensures v == w
  {
    forall hashes | AbsentParents(b, hashes) ensures hashes == AbsentBefore(b, |b.txs|) {
      AbsentParentsUnique(b, hashes);
    }
  }

  /** The inputs fail in at most one way. */
  lemma {:induction false} OneInputAnswer(b: Block, fails: nat -> nat -> bool, i: nat, k: nat, l: nat)
    requires i < |b.txs| && Known(b, i) && MapRefuses(b, fails, i, k)
    ensures !RepeatsFirst(b, fails, i, l)
  {
    assert fails(i)(k);
    assert l < k ==> !SpentEarlier(b, i, l);
  }

  lemma {:induction false} OneLateParent(b: Block, i: nat, p: nat, q: nat, parent: Hash, parent': Hash)
    requires i < |b.txs| && Known(b, i) && LateFirst(b, i, p, parent) && LateFirst(b, i, q, parent')
    ensures parent == parent'
  {
    assert p == q;
  }

  lemma {:induction false} SameKind(b: Block, fails: nat -> nat -> bool, i: nat, v: Verdict, w: Verdict)
    requires Answers(b, fails, v) && Answers(b, fails, w) && i == AnswerAt(b, v) == AnswerAt(b, w) < |b.txs|
      && Known(b, i)
    ensures v.SpendsMapError? == w.SpendsMapError? && v.DuplicateInputs? == w.DuplicateInputs?
    ensures v.OutOfOrder? == w.OutOfOrder? && (v.SpendsMapError? || v.DuplicateInputs? || v.OutOfOrder?)
  {
    forall k: nat, l: nat | MapRefuses(b, fails, i, k) ensures !RepeatsFirst(b, fails, i, l) {
      OneInputAnswer(b, fails, i, k, l);
    }
  }

  lemma {:induction false} OneAnswer(b: Block, fails: nat -> nat -> bool, v: Verdict, w: Verdict)
    requires Answers(b, fails, v) && Answers(b, fails, w)
    ensures v == w
  {
    AnswerFails(b, fails, v);
    AnswerFails(b, fails, w);
    var i := AnswerAt(b, v);
    assert i == AnswerAt(b, w);
    if i == |b.txs| {
      OneChainAnswer(b, fails, v, w);
    } else if Known(b, i) {
      SameKind(b, fails, i, v, w);
      if v.OutOfOrder? {
        var p: nat :| LateFirst(b, i, p, v.parent);
        var q: nat :| LateFirst(b, i, q, w.parent);
        OneLateParent(b, i, p, q, v.parent, w.parent);
      }
    }
  }
}
