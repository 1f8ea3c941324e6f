/** What the hash seed can change (model/inpoint_dedup.go). The comments of detect promise that a
    failing resolver is treated alike under every seed. It is not: a group that merely collides has
    to be resolved too. Here are two seeds that disagree, exactly when every hash function gives the
    verdict of the sequential scan, and exactly when no two disagree on more than which error. */
module DedupSeed {
  import opened Inpoints
  import opened InpointDedup
  import opened DedupGroups
  import opened DedupVerify
  import opened DedupDetect
  import opened DedupTheorem
  import opened DedupCheck

  // ------------------------------------------------------------ what settling a group went through

  ghost predicate ResolvedBefore(group: Group, resolve: Resolver, k: nat)
    requires k <= |group|
  {
    forall i :: 0 <= i < k ==> resolve(group[i].tx).Inputs?
  }

  /** What an outcome says about the positions settled before it. */
  ghost predicate Trace(block: Block, hash: HashFunction, key: nat, group: Group, resolve: Resolver, o: Outcome) {
    match o
    case Distinct => ResolvedBefore(group, resolve, |group|)
    case Found(tx) =>
      exists n: nat ::
        n < |group| && group[n].tx == tx && resolve(group[n].tx).Inputs? && ResolvedBefore(group, resolve, n)
    case Failed(error) =>
      exists n: nat ::
        n < |group| && resolve(group[n].tx) == ResolveError(error) && NoRespendBefore(block, hash, key, group, n)
  }

  lemma {:induction false} SettleTrace(block: Block, hash: HashFunction, key: nat, group: Group, resolve: Resolver,
                                       k: nat, seen: set<Inpoint>)
    requires GroupMatches(block, hash, key, group) && Faithful(block, resolve)
    requires k <= |group| && SeenUpTo(block, hash, key, group, k, seen) && NoRespendBefore(block, hash, key, group, k)
    requires ResolvedBefore(group, resolve, k)
    ensures Trace(block, hash, key, group, resolve, SettleFrom(hash, group, resolve, k, seen))
    decreases |group| - k
  {
    if k < |group| {
      assert group[k] in group;
      if k > 0 && group[k].tx == group[k - 1].tx {
        forall x | hash(x) == key && x in block[group[k].tx] ensures x in seen {
          assert x in block[group[k - 1].tx];
        }
        SeenExtends(block, hash, key, group, k, seen, seen);
        SettleTrace(block, hash, key, group, resolve, k + 1, seen);
      } else {
        SettleStep(block, hash, key, group, resolve, k, seen);
        if resolve(group[k].tx).Inputs? {
          var r := TakeInputs(hash, key, block[group[k].tx], 0, seen);
          if r.Seen? {
            SeenExtends(block, hash, key, group, k, seen, r.seen);
            SettleTrace(block, hash, key, group, resolve, k + 1, r.seen);
          }
        }
      }
    }
  }

  // ------------------------------------------------------------ the transactions of a group

  ghost predicate InGroup(g: Group, t: nat) {
    exists i :: 0 <= i < |g| && g[i].tx == t
  }

  /** Transaction t has an input with this hash. */
  ghost predicate HasHash(block: Block, hash: HashFunction, key: nat, t: nat) {
    t in block && exists x :: x in block[t] && hash(x) == key
  }

  lemma {:induction false} EntryHasInput(block: Block, hash: HashFunction, e: Entry) returns (i: nat)
    requires EntryCount(block, hash, e) > 0
    ensures e.tx in block && i < |block[e.tx]| && e == ToEntry(hash(block[e.tx][i]), e.tx, TWO64)
    ensures hash(block[e.tx][i]) == e.Key()
  {
    var es := TxEntries(hash, TWO64, e.tx, block[e.tx]);
    assert e in multiset(es);
    i :| 0 <= i < |es| && es[i] == e;
    ToEntryKey(hash(block[e.tx][i]), e.tx, TWO64);
  }

  lemma {:induction false} GroupTxs(block: Block, hash: HashFunction, g: Group, t: nat)
    requires HashGroup(block, hash, g) && IndexesBelowNone(block)
    ensures InGroup(g, t) <==> HasHash(block, hash, g[0].Key(), t)
  {
    HashGroupMatches(block, hash, g);
    if InGroup(g, t) {
      var i :| 0 <= i < |g| && g[i].tx == t;
      assert g[i] in multiset(g);
      var j := EntryHasInput(block, hash, g[i]);
      assert block[t][j] in block[t];
    }
    if HasHash(block, hash, g[0].Key(), t) {
      var x :| x in block[t] && hash(x) == g[0].Key();
      var e :| e in g && e.tx == t;
    }
  }

  lemma {:induction false} TxOrder(g: Group, i: nat, n: nat)
    requires Sorted(g) && i < |g| && n < |g| && g[i].Key() == g[n].Key() && g[i].tx < g[n].tx
    ensures i < n
  {
    EarlierTxEarlierPosition(g, i, n);
  }

  lemma {:induction false} DistinctTrace(block: Block, hash: HashFunction, resolve: Resolver, g: Group, t: nat)
    requires HashGroup(block, hash, g) && IndexesBelowNone(block) && Faithful(block, resolve)
    requires Settle(hash, g, resolve).Distinct? && InGroup(g, t)
    ensures resolve(t).Inputs?
  {
    HashGroupMatches(block, hash, g);
    SettleTrace(block, hash, g[0].Key(), g, resolve, 0, {});
  }

  lemma {:induction false} FoundTrace(block: Block, hash: HashFunction, resolve: Resolver, g: Group, t: nat)
    requires HashGroup(block, hash, g) && IndexesBelowNone(block) && Faithful(block, resolve)
    requires Settle(hash, g, resolve).Found? && InGroup(g, t) && t <= Settle(hash, g, resolve).tx
    ensures resolve(t).Inputs?
  {
    var tx := Settle(hash, g, resolve).tx;
    HashGroupMatches(block, hash, g);
    SettleTrace(block, hash, g[0].Key(), g, resolve, 0, {});
    var n: nat :| n < |g| && g[n].tx == tx && resolve(g[n].tx).Inputs? && ResolvedBefore(g, resolve, n);
    var i :| 0 <= i < |g| && g[i].tx == t;
    assert g[i] in g && g[n] in g;
    ResolvedUpTo(g, resolve, n, i);
  }

  lemma {:induction false} ResolvedUpTo(g: Group, resolve: Resolver, n: nat, i: nat)
    requires Sorted(g) && n < |g| && i < |g| && g[i].Key() == g[n].Key() && g[i].tx <= g[n].tx
    requires resolve(g[n].tx).Inputs? && ResolvedBefore(g, resolve, n)
    ensures resolve(g[i].tx).Inputs?
  {
    if g[i].tx < g[n].tx {
      TxOrder(g, i, n);
    }
  }

  lemma {:induction false} FailedTrace(block: Block, hash: HashFunction, resolve: Resolver, g: Group, error: string)
    returns (f: nat)
    requires HashGroup(block, hash, g) && IndexesBelowNone(block) && Faithful(block, resolve)
    requires Settle(hash, g, resolve) == Failed(error)
    ensures FailsFirst(block, hash, resolve, g, f, error)
  {
    var k := g[0].Key();
    HashGroupMatches(block, hash, g);
    SettleTrace(block, hash, k, g, resolve, 0, {});
    var n: nat :| n < |g| && resolve(g[n].tx) == ResolveError(error) && NoRespendBefore(block, hash, k, g, n);
    f := g[n].tx;
    forall t: nat | t < f ensures !RespendsHash(block, hash, k, t) {
      if RespendsHash(block, hash, k, t) {
        RespenderPosition(block, hash, g, t, n);
      }
    }
  }

  lemma {:induction false} RespenderPosition(block: Block, hash: HashFunction, g: Group, t: nat, n: nat)
    requires HashGroup(block, hash, g) && IndexesBelowNone(block) && GroupMatches(block, hash, g[0].Key(), g)
    requires n < |g| && t < g[n].tx && RespendsHash(block, hash, g[0].Key(), t)
    ensures exists i :: 0 <= i < n && g[i].tx == t
  {
    var x :| hash(x) == g[0].Key() && Respends(block, t, x);
    GroupTxs(block, hash, g, t);
    var i :| 0 <= i < |g| && g[i].tx == t;
    assert g[i] in g && g[n] in g;
    TxOrder(g, i, n);
  }

  /** Transaction f of the group fails to resolve and none before it spends an outpoint of the group again. */
  ghost predicate FailsFirst(block: Block, hash: HashFunction, resolve: Resolver, g: Group, f: nat, error: string)
    requires g != []
  {
    && InGroup(g, f) && resolve(f) == ResolveError(error)
    && forall t: nat :: t < f ==> !RespendsHash(block, hash, g[0].Key(), t)
  }

  // ------------------------------------------------------------ entries of a recorded block

  lemma {:induction false} BlockEntries(records: seq<TxRecord>, hash: HashFunction) returns (all: seq<Entry>)
    requires Recordable(records, TWO64)
    ensures AllOfBlock(all, BlockOf(records), hash) && IndexesBelowNone(BlockOf(records))
  {
    all := All(Recorded(hash, TWO64, [records]));
    assert Flatten([]) == [] && [records][..0] == [] && Flatten([records]) == records;
    LayoutEntries(hash, TWO64, [records]);
    BlockIndexes(records, TWO64);
  }

  /** The group of a key some transaction has an input with. */
  lemma {:induction false} GroupOfKey(records: seq<TxRecord>, hash: HashFunction, t: nat, x: Inpoint) returns (g: Group)
    requires Recordable(records, TWO64) && t in BlockOf(records) && x in BlockOf(records)[t]
    ensures HashGroup(BlockOf(records), hash, g) && g[0].Key() == hash(x)
  {
    var all := BlockEntries(records, hash);
    var i :| 0 <= i < |BlockOf(records)[t]| && BlockOf(records)[t][i] == x;
    g := GroupExists(BlockOf(records), hash, all, t, i);
  }

  /** Two different inputs of one hash, in transactions t <= u: the group has two entries and its bound is at
      most u. */
  lemma {:induction false} PairBound(block: Block, hash: HashFunction, g: Group, t: nat, i: nat, u: nat, j: nat)
    requires HashGroup(block, hash, g) && IndexesBelowNone(block)
    requires t in block && u in block && i < |block[t]| && j < |block[u]| && (t < u || (t == u && i < j))
    requires hash(block[t][i]) == hash(block[u][j]) == g[0].Key()
    ensures |g| >= 2 && Bound(g) <= u
  {
    HashGroupMatches(block, hash, g);
    var k := g[0].Key();
    var et, eu := ToEntry(k, t, TWO64), ToEntry(k, u, TWO64);
    EntryOfInput(block, hash, t, i);
    EntryOfInput(block, hash, u, j);
    assert multiset(g)[et] > 0 && multiset(g)[eu] > 0;
    assert et in g && eu in g;
    assert forall d :: d in g ==> d.Key() == et.Key();
    if t < u {
      BoundFromEarlier(g, et, eu);
    } else {
      var es := TxEntries(hash, TWO64, t, block[t]);
      assert es[i] == et && es[j] == et;
      TwoOccurrences(es, i, j);
      var a, b := CountMeansPositions(g, et);
      assert g[b] in g && g[1] in g;
      BoundFromPosition(g, b, t);
    }
  }

  // ------------------------------------------------------------ when the seed decides

  /** A transaction with inputs that cannot be resolved. */
  ghost predicate Fails(block: Block, resolve: Resolver, f: nat) {
    f in block && block[f] != [] && resolve(f).ResolveError?
  }

  /** An input is a place in the list of a transaction's inputs. */
  ghost predicate InputAt(block: Block, t: nat, i: nat) {
    t in block && i < |block[t]|
  }

  ghost predicate TwoInputs(block: Block) {
    exists t: nat, i: nat, u: nat, j: nat ::
      InputAt(block, t, i) && InputAt(block, u, j) && (t < u || (t == u && i < j))
  }

  ghost predicate EveryHashSays(block: Block, resolve: Resolver, v: Verdict) {
    forall hash: HashFunction :: DeterminedVerdict(block, hash, resolve, v)
  }

  function Constant(): HashFunction {
    (x: Inpoint) => 0
  }

  /** In a group of two entries or more, the first two entries are two different inputs. */
  lemma {:induction false} FirstTwoInputs(block: Block, hash: HashFunction, g: Group)
    returns (t: nat, i: nat, u: nat, j: nat)
    requires HashGroup(block, hash, g) && |g| >= 2 && IndexesBelowNone(block)
    ensures InputAt(block, t, i) && InputAt(block, u, j) && (t < u || (t == u && i < j))
    ensures t == First(g) && u == Bound(g)
    ensures hash(block[t][i]) == hash(block[u][j]) == g[0].Key()
  {
    HashGroupMatches(block, hash, g);
    assert g[0] in g && g[1] in g && Below(g[0], g[1]);
    assert g[0] in multiset(g) && g[1] in multiset(g);
    t, u := g[0].tx, g[1].tx;
    i := EntryHasInput(block, hash, g[0]);
    j := EntryHasInput(block, hash, g[1]);
    if t == u {
      var es := TxEntries(hash, TWO64, t, block[t]);
      TwoOccurrences(g, 0, 1);
      i, j := CountMeansPositions(es, g[0]);
      ToEntryKey(hash(block[t][i]), t, TWO64);
      ToEntryKey(hash(block[t][j]), t, TWO64);
    }
  }

  lemma {:induction false} NothingFound(block: Block, hash: HashFunction, resolve: Resolver, g: Group, tx: nat)
    requires HashGroup(block, hash, g) && IndexesBelowNone(block) && Faithful(block, resolve)
    requires Settle(hash, g, resolve) == Found(tx)
    ensures SpendsSpent(block, tx) && RespendsHash(block, hash, g[0].Key(), tx)
  {
    SettleGroup(block, hash, resolve, g);
    var x :| hash(x) == g[0].Key() && Respends(block, tx, x);
  }

  lemma {:induction false} FailedMeansFails(block: Block, hash: HashFunction, resolve: Resolver, g: Group, f: nat,
        error: string)
    requires HashGroup(block, hash, g) && IndexesBelowNone(block) && FailsFirst(block, hash, resolve, g, f, error)
    ensures Fails(block, resolve, f)
  {
    GroupTxs(block, hash, g, f);
  }

  lemma {:induction false} FailureShows(block: Block, hash: HashFunction, resolve: Resolver, g: Group, error: string)
    requires HashGroup(block, hash, g) && |g| >= 2 && IndexesBelowNone(block) && Faithful(block, resolve)
    requires Settle(hash, g, resolve) == Failed(error)
    ensures TwoInputs(block) && exists f: nat :: Fails(block, resolve, f)
  {
    var f := FailedTrace(block, hash, resolve, g, error);
    FailedMeansFails(block, hash, resolve, g, f, error);
    var t, i, u, j := FirstTwoInputs(block, hash, g);
  }

  lemma {:induction false} CleanForHash(records: seq<TxRecord>, hash: HashFunction, resolve: Resolver)
    requires Recordable(records, TWO64) && Faithful(BlockOf(records), resolve)
    requires forall t: nat :: !SpendsSpent(BlockOf(records), t)
    requires (forall f: nat :: !Fails(BlockOf(records), resolve, f)) || !TwoInputs(BlockOf(records))
    ensures DeterminedVerdict(BlockOf(records), hash, resolve, Clean)
  {
    var block, env := BlockOf(records), Env(hash, resolve, []);
    var groups := HashGroups(block, hash);
    BlockIndexes(records, TWO64);
    forall g, tx ensures !FoundIn(env, groups, g, tx) {
      if FoundIn(env, groups, g, tx) {
        NothingFound(block, hash, resolve, g, tx);
      }
    }
    forall g, e ensures !FailedIn(env, groups, g, e) {
      if FailedIn(env, groups, g, e) {
        FailureShows(block, hash, resolve, g, e);
      }
    }
  }

  lemma {:induction false} CollisionIsNoticed(records: seq<TxRecord>, resolve: Resolver, f: nat)
    requires Recordable(records, TWO64) && Faithful(BlockOf(records), resolve)
    requires forall t: nat :: !SpendsSpent(BlockOf(records), t)
    requires Fails(BlockOf(records), resolve, f) && TwoInputs(BlockOf(records))
    ensures !DeterminedVerdict(BlockOf(records), Constant(), resolve, Clean)
  {
    var block, hash := BlockOf(records), Constant();
    var g := GroupOfKey(records, hash, f, block[f][0]);
    BlockIndexes(records, TWO64);
    var t: nat, i: nat, u: nat, j: nat :|
      InputAt(block, t, i) && InputAt(block, u, j) && (t < u || (t == u && i < j));
    PairBound(block, hash, g, t, i, u, j);
    assert HasHash(block, hash, g[0].Key(), f);
    GroupTxs(block, hash, g, f);
    var o := Settle(hash, g, resolve);
    if o.Found? {
      NothingFound(block, hash, resolve, g, o.tx);
    }
    if o.Distinct? {
      DistinctTrace(block, hash, resolve, g, f);
    }
    assert FailedIn(Env(hash, resolve, []), HashGroups(block, hash), g, o.error);
  }

  /** A block that spends nothing twice is clean under every hash function exactly when no transaction with inputs
      fails to resolve, or there are fewer than two inputs to collide. */
  lemma {:induction false} CleanUnderEveryHash(records: seq<TxRecord>, resolve: Resolver)
    requires Recordable(records, TWO64) && Faithful(BlockOf(records), resolve)
    requires forall t: nat :: !SpendsSpent(BlockOf(records), t)
    ensures EveryHashSays(BlockOf(records), resolve, Clean) <==>
            (forall f: nat :: !Fails(BlockOf(records), resolve, f)) || !TwoInputs(BlockOf(records))
  {
    var block := BlockOf(records);
    if (forall f: nat :: !Fails(block, resolve, f)) || !TwoInputs(block) {
      forall hash: HashFunction ensures DeterminedVerdict(block, hash, resolve, Clean) {
        CleanForHash(records, hash, resolve);
      }
    } else {
      var f: nat :| Fails(block, resolve, f);
      CollisionIsNoticed(records, resolve, f);
    }
  }

  // ------------------------------------------------------------ with a duplicate to find

  /** Transaction d is the first to spend something again. */
  ghost predicate FirstRespend(block: Block, d: nat) {
    SpendsSpent(block, d) && forall t: nat :: t < d ==> !SpendsSpent(block, t)
  }

  ghost predicate NotAgainBefore(block: Block, x: Inpoint, f: nat) {
    forall t: nat :: t < f ==> !Respends(block, t, x)
  }

  /** Two outpoints spent before d that a failing transaction f can be made to collide with, while nothing before f
      spends them or f's own input again. */
  ghost predicate ExposedBy(block: Block, d: nat, f: nat, y: Inpoint, x: Inpoint, x': Inpoint)
    requires f in block
  {
    && y in block[f] && x != x' && SpentBefore(block, d, x) && SpentBefore(block, d, x')
    && NotAgainBefore(block, x, f) && NotAgainBefore(block, x', f) && NotAgainBefore(block, y, f)
  }

  ghost predicate Exposed(block: Block, resolve: Resolver, d: nat) {
    exists f: nat, y, x, x' :: Fails(block, resolve, f) && ExposedBy(block, d, f, y, x, x')
  }

  ghost predicate EarlyFailure(block: Block, resolve: Resolver, d: nat) {
    exists f: nat :: f <= d && Fails(block, resolve, f)
  }

  lemma {:induction false} RespendAtLeast(block: Block, d: nat, hash: HashFunction, key: nat, t: nat)
    requires FirstRespend(block, d) && RespendsHash(block, hash, key, t)
    ensures d <= t
  {
    var x :| hash(x) == key && Respends(block, t, x);
    assert SpendsSpent(block, t);
  }

  /** Without an early failure the group of what d spends again finds d. */
  lemma {:induction false} GroupFindsFirst(records: seq<TxRecord>, hash: HashFunction, resolve: Resolver, d: nat)
    returns (g: Group)
    requires Recordable(records, TWO64) && Faithful(BlockOf(records), resolve)
    requires FirstRespend(BlockOf(records), d) && !EarlyFailure(BlockOf(records), resolve, d)
    ensures HashGroup(BlockOf(records), hash, g) && |g| >= 2 && Settle(hash, g, resolve) == Found(d)
  {
    var block := BlockOf(records);
    BlockIndexes(records, TWO64);
    var x :| Respends(block, d, x);
    g := GroupOfKey(records, hash, d, x);
    assert RespendsHash(block, hash, g[0].Key(), d);
    RespendAboveBound(block, hash, g, d);
    SettleGroup(block, hash, resolve, g);
    match Settle(hash, g, resolve)
    case Found(tx) => RespendAtLeast(block, d, hash, g[0].Key(), tx);
    case Failed(error) =>
      var f := FailedTrace(block, hash, resolve, g, error);
      FailedMeansFails(block, hash, resolve, g, f, error);
    case Distinct =>
  }

  /** A failing group with a bound below d exposes the block. */
  lemma {:induction false} LowFailureExposes(block: Block, hash: HashFunction, resolve: Resolver, d: nat, g: Group,
        error: string)
    requires HashGroup(block, hash, g) && |g| >= 2 && IndexesBelowNone(block) && Faithful(block, resolve)
    requires FirstRespend(block, d) && Settle(hash, g, resolve) == Failed(error) && Bound(g) < d
    ensures Exposed(block, resolve, d)
  {
    var f := FailedTrace(block, hash, resolve, g, error);
    FailedMeansFails(block, hash, resolve, g, f, error);
    GroupTxs(block, hash, g, f);
    var y :| y in block[f] && hash(y) == g[0].Key();
    var t, i, u, j := FirstTwoInputs(block, hash, g);
    var x, x' := block[t][i], block[u][j];
    DifferentBefore(block, d, t, i, u, j);
    NoneAgain(block, hash, g, f, x);
    NoneAgain(block, hash, g, f, x');
    NoneAgain(block, hash, g, f, y);
    assert SpentBefore(block, d, x) && SpentBefore(block, d, x');
    assert ExposedBy(block, d, f, y, x, x');
  }

  lemma {:induction false} NoneAgain(block: Block, hash: HashFunction, g: Group, f: nat, x: Inpoint)
    requires g != [] && hash(x) == g[0].Key()
    requires forall t: nat :: t < f ==> !RespendsHash(block, hash, g[0].Key(), t)
    ensures NotAgainBefore(block, x, f)
  {
    forall t: nat | t < f ensures !Respends(block, t, x) {
      assert !RespendsHash(block, hash, g[0].Key(), t);
    }
  }

  lemma {:induction false} DifferentBefore(block: Block, d: nat, t: nat, i: nat, u: nat, j: nat)
    requires FirstRespend(block, d) && u < d
    requires InputAt(block, t, i) && InputAt(block, u, j) && (t < u || (t == u && i < j))
    ensures block[t][i] != block[u][j]
  {
    if block[t][i] == block[u][j] {
      var x := block[u][j];
      assert t == u ==> RepeatedIn(block[u], x);
      assert t < u ==> SpentBefore(block, u, x);
      assert Respends(block, u, x);
      assert SpendsSpent(block, u);
    }
  }

  lemma {:induction false} FoundForHash(records: seq<TxRecord>, hash: HashFunction, resolve: Resolver, d: nat)
    requires Recordable(records, TWO64) && Faithful(BlockOf(records), resolve) && FirstRespend(BlockOf(records), d)
    requires !EarlyFailure(BlockOf(records), resolve, d) && !Exposed(BlockOf(records), resolve, d)
    ensures DeterminedVerdict(BlockOf(records), hash, resolve, Duplicate(d))
  {
    var block, env := BlockOf(records), Env(hash, resolve, []);
    var groups := HashGroups(block, hash);
    BlockIndexes(records, TWO64);
    var g := GroupFindsFirst(records, hash, resolve, d);
    assert FoundIn(env, groups, g, d);
    forall g, tx | FoundIn(env, groups, g, tx) ensures d <= tx {
      NothingFound(block, hash, resolve, g, tx);
    }
    forall g, e | FailedIn(env, groups, g, e) ensures d <= Bound(g) {
      if Bound(g) < d {
        LowFailureExposes(block, hash, resolve, d, g, e);
      }
    }
  }

  /** A failure at or before d hides d when everything collides. */
  lemma {:induction false} EarlyFailureHides(records: seq<TxRecord>, resolve: Resolver, d: nat)
    requires Recordable(records, TWO64) && Faithful(BlockOf(records), resolve) && FirstRespend(BlockOf(records), d)
    requires EarlyFailure(BlockOf(records), resolve, d)
    ensures !DeterminedVerdict(BlockOf(records), Constant(), resolve, Duplicate(d))
  {
    var block, hash := BlockOf(records), Constant();
    BlockIndexes(records, TWO64);
    var f: nat :| f <= d && Fails(block, resolve, f);
    forall g: Group ensures !FoundIn(Env(hash, resolve, []), HashGroups(block, hash), g, d) {
      if HashGroup(block, hash, g) && Settle(hash, g, resolve) == Found(d) {
        ConstantKey(block, g);
        assert block[f][0] in block[f] && HasHash(block, hash, g[0].Key(), f);
        GroupTxs(block, hash, g, f);
        FoundTrace(block, hash, resolve, g, f);
      }
    }
  }

  lemma {:induction false} ConstantKey(block: Block, g: Group)
    requires HashGroup(block, Constant(), g)
    ensures g[0].Key() == 0
  {
    assert g[0] in multiset(g);
    var i := EntryHasInput(block, Constant(), g[0]);
  }

  function Colliding(y: Inpoint, x: Inpoint, x': Inpoint): HashFunction {
    (z: Inpoint) => if z == x || z == x' || z == y then 0 else 1
  }

  lemma {:induction false} ExposedHides(records: seq<TxRecord>, resolve: Resolver, d: nat) returns (hash: HashFunction)
    requires Recordable(records, TWO64) && Faithful(BlockOf(records), resolve) && FirstRespend(BlockOf(records), d)
    requires Exposed(BlockOf(records), resolve, d)
    ensures !DeterminedVerdict(BlockOf(records), hash, resolve, Duplicate(d))
  {
    var block := BlockOf(records);
    BlockIndexes(records, TWO64);
    var f: nat, y, x, x' :| Fails(block, resolve, f) && ExposedBy(block, d, f, y, x, x');
    hash := Colliding(y, x, x');
    var g := GroupOfKey(records, hash, f, y);
    BothBefore(block, hash, g, d, x, x');
    assert HasHash(block, hash, g[0].Key(), f);
    GroupTxs(block, hash, g, f);
    var o := Settle(hash, g, resolve);
    if o.Distinct? {
      DistinctTrace(block, hash, resolve, g, f);
    }
    if o.Found? {
      FoundAfter(block, hash, resolve, g, f, y, x, x');
      FoundTrace(block, hash, resolve, g, f);
    }
    assert FailedIn(Env(hash, resolve, []), HashGroups(block, hash), g, o.error);
  }

  lemma {:induction false} FoundAfter(block: Block, hash: HashFunction, resolve: Resolver, g: Group, f: nat,
        y: Inpoint, x: Inpoint, x': Inpoint)
    requires HashGroup(block, hash, g) && IndexesBelowNone(block) && Faithful(block, resolve)
    requires hash == Colliding(y, x, x') && g[0].Key() == 0 && Settle(hash, g, resolve).Found?
    requires NotAgainBefore(block, x, f) && NotAgainBefore(block, x', f) && NotAgainBefore(block, y, f)
    ensures f <= Settle(hash, g, resolve).tx
  {
    var tx := Settle(hash, g, resolve).tx;
    NothingFound(block, hash, resolve, g, tx);
    var z :| hash(z) == 0 && Respends(block, tx, z);
    assert z == x || z == x' || z == y;
  }

  lemma {:induction false} BothBefore(block: Block, hash: HashFunction, g: Group, d: nat, x: Inpoint, x': Inpoint)
    requires HashGroup(block, hash, g) && IndexesBelowNone(block) && x != x' && hash(x) == hash(x') == g[0].Key()
    requires SpentBefore(block, d, x) && SpentBefore(block, d, x')
    ensures |g| >= 2 && Bound(g) < d
  {
    var t :| t in block && t < d && x in block[t];
    var u :| u in block && u < d && x' in block[u];
    var i :| 0 <= i < |block[t]| && block[t][i] == x;
    var j :| 0 <= j < |block[u]| && block[u][j] == x';
    if t < u || (t == u && i < j) {
      PairBound(block, hash, g, t, i, u, j);
    } else {
      PairBound(block, hash, g, u, j, t, i);
    }
  }

  /** A block whose first transaction to spend something again is d is reported as such under every hash function
      exactly when no transaction with inputs up to d fails to resolve, and no later failure can be made to
      collide with two outpoints spent before d. */
  lemma {:induction false} DuplicateUnderEveryHash(records: seq<TxRecord>, resolve: Resolver, d: nat)
    requires Recordable(records, TWO64) && Faithful(BlockOf(records), resolve) && FirstRespend(BlockOf(records), d)
    ensures EveryHashSays(BlockOf(records), resolve, Duplicate(d)) <==>
            !EarlyFailure(BlockOf(records), resolve, d) && !Exposed(BlockOf(records), resolve, d)
  {
    var block := BlockOf(records);
    if EarlyFailure(block, resolve, d) {
      EarlyFailureHides(records, resolve, d);
    } else if Exposed(block, resolve, d) {
      var hash := ExposedHides(records, resolve, d);
    } else {
      forall hash: HashFunction ensures DeterminedVerdict(block, hash, resolve, Duplicate(d)) {
        FoundForHash(records, hash, resolve, d);
      }
    }
  }

  // ------------------------------------------------------------ there is always a verdict

  /** Whatever the block, the hash and the resolver, some verdict is determined. */
  lemma {:induction false} SomeVerdict(records: seq<TxRecord>, hash: HashFunction, resolve: Resolver)
    returns (v: Verdict)
    requires Recordable(records, TWO64) && Faithful(BlockOf(records), resolve)
    ensures DeterminedVerdict(BlockOf(records), hash, resolve, v)
  {
    var block := BlockOf(records);
    var all := BlockEntries(records, hash);
    var sorted := SortedCopy(all);
    var env := Env(hash, resolve, [GroupsFrom(sorted, 0)]);
    OnePartition(env, block, all, sorted);
    WorkersBounded(env, block);
    var schedule := CanFinish(env, 1, []);
    var s := Exec(env, 1, schedule);
    FinishedVerdict(env, s);
    v := Result(s);
    PartsDoNotMatter(env, HashGroups(block, hash), v);
  }

  lemma {:induction false} OnePartition(env: Env, block: Block, all: seq<Entry>, sorted: seq<Entry>)
    requires AllOfBlock(all, block, env.hash) && SortOf(sorted, all) && env.parts == [GroupsFrom(sorted, 0)]
    ensures GroupsOf(env) == HashGroups(block, env.hash)
  {
    assert Shl(0, 0) == 0 && Shl(1, 0) == 1 && Partition(0, 0) == 0;
    assert Gathered(sorted, all, 0, 0, 1);
    assert PartitionBuffer(sorted, all, 0, 0, 0);
    WorkersSeeHashGroups(env, block, all, 0, 0, 0, [sorted]);
  }

  // ------------------------------------------------------------ two seeds that disagree

  /** Different inputs of the block have different hashes. */
  ghost predicate Separates(block: Block, hash: HashFunction) {
    forall x, y :: SpentIn(block, x) && SpentIn(block, y) && hash(x) == hash(y) ==> x == y
  }

  ghost predicate SpentIn(block: Block, x: Inpoint) {
    exists t :: t in block && x in block[t]
  }

  /** Under a hash that separates the inputs, the bound of a group is a repeated spend. */
  lemma {:induction false} SeparatedBound(block: Block, hash: HashFunction, g: Group)
    requires HashGroup(block, hash, g) && |g| >= 2 && IndexesBelowNone(block) && Separates(block, hash)
    ensures SpendsSpent(block, Bound(g))
  {
    var t, i, u, j := FirstTwoInputs(block, hash, g);
    var x := block[u][j];
    assert SpentIn(block, block[t][i]) && SpentIn(block, x) && block[t][i] == x;
    assert t == u ==> RepeatedIn(block[u], x);
    assert t < u ==> SpentBefore(block, u, x);
    assert Respends(block, u, x);
  }

  /** Where the inputs are kept apart a block without a repeated spend has nothing to resolve, so it is clean
      whatever fails. */
  lemma {:induction false} KeptApartIsClean(records: seq<TxRecord>, hash: HashFunction, resolve: Resolver)
    requires Recordable(records, TWO64) && Separates(BlockOf(records), hash)
    requires forall t: nat :: !SpendsSpent(BlockOf(records), t)
    ensures DeterminedVerdict(BlockOf(records), hash, resolve, Clean)
  {
    var block := BlockOf(records);
    BlockIndexes(records, TWO64);
    forall g: Group ensures !(g in HashGroups(block, hash) && |g| >= 2) {
      if g in HashGroups(block, hash) && |g| >= 2 {
        SeparatedBound(block, hash, g);
      }
    }
  }

  /** Two transactions of one input each. */
  function Pair(x: Inpoint, y: Inpoint): seq<TxRecord> {
    [TxRecord(0, [x]), TxRecord(1, [y])]
  }

  lemma {:induction false} PairBlock(x: Inpoint, y: Inpoint)
    ensures Recordable(Pair(x, y), TWO64) && BlockOf(Pair(x, y)) == map[0 := [x], 1 := [y]]
    ensures x != y ==> forall t: nat :: !SpendsSpent(BlockOf(Pair(x, y)), t)
  {
    var records := Pair(x, y);
    assert records[..1] == [TxRecord(0, [x])] && records[..1][..0] == [];
    assert BlockOf(records[..1]) == map[0 := [x]];
  }

  /** Two hash functions and one block on which they disagree: with a resolver that always fails, the one that
      keeps two inputs apart calls it clean and the one that makes them collide does not. */
  lemma {:induction false} SeedDecides(x: Inpoint, y: Inpoint, error: string)
    requires x != y
    ensures DeterminedVerdict(BlockOf(Pair(x, y)), Colliding(x, x, x), (t: nat) => ResolveError(error), Clean)
    ensures !DeterminedVerdict(BlockOf(Pair(x, y)), Constant(), (t: nat) => ResolveError(error), Clean)
  {
    var resolve: Resolver := (t: nat) => ResolveError(error);
    PairBlock(x, y);
    var block := BlockOf(Pair(x, y));
    KeptApartIsClean(Pair(x, y), Colliding(x, x, x), resolve);
    assert InputAt(block, 0, 0) && InputAt(block, 1, 0) && TwoInputs(block);
    assert Fails(block, resolve, 0);
    CollisionIsNoticed(Pair(x, y), resolve, 0);
  }

  /** With a resolver that always fails, a group fails with the error of its first transaction. */
  lemma {:induction false} FirstFails(hash: HashFunction, g: Group, resolve: Resolver, error: string)
    requires g != [] && resolve(g[0].tx) == ResolveError(error)
    ensures Settle(hash, g, resolve) == Failed(error)
  {
  }

  lemma {:induction false} OneCollision(records: seq<TxRecord>, hash: HashFunction, resolve: Resolver, t: nat,
        error: string, g: Group)
    requires Recordable(records, TWO64) && Faithful(BlockOf(records), resolve) && resolve(t) == ResolveError(error)
    requires HashGroup(BlockOf(records), hash, g) && |g| >= 2
    requires forall h: Group :: HashGroup(BlockOf(records), hash, h) && |h| >= 2 ==> h[0].tx == t
    ensures DeterminedVerdict(BlockOf(records), hash, resolve, Error(error))
  {
    var env, groups := Env(hash, resolve, []), HashGroups(BlockOf(records), hash);
    forall h: Group | h in groups && |h| >= 2 ensures Settle(hash, h, resolve) == Failed(error) {
      FirstFails(hash, h, resolve, error);
    }
    var v := SomeVerdict(records, hash, resolve);
    assert FailedIn(env, groups, g, error);
  }

  /** Three transactions of one input each. */
  function Triple(x: Inpoint, y: Inpoint, z: Inpoint): seq<TxRecord> {
    [TxRecord(0, [x]), TxRecord(1, [y]), TxRecord(2, [z])]
  }

  lemma {:induction false} TripleBlock(x: Inpoint, y: Inpoint, z: Inpoint)
    ensures Recordable(Triple(x, y, z), TWO64) && BlockOf(Triple(x, y, z)) == map[0 := [x], 1 := [y], 2 := [z]]
  {
    var records := Triple(x, y, z);
    assert records[..2] == Pair(x, y);
    PairBlock(x, y);
  }

  function NamingResolver(first: string, other: string): Resolver {
    (t: nat) => ResolveError(if t == 0 then first else other)
  }

  /** Also which error is reported depends on the seed: of three transactions that all fail, the group of the two
      that collide decides. */
  lemma {:induction false} SeedPicksError(x: Inpoint, y: Inpoint, z: Inpoint, first: string, other: string)
    requires x != y && y != z && x != z
    ensures DeterminedVerdict(BlockOf(Triple(x, y, z)), Colliding(x, x, y), NamingResolver(first, other), Error(first))
    ensures DeterminedVerdict(BlockOf(Triple(x, y, z)), Colliding(y, y, z), NamingResolver(first, other), Error(other))
  {
    TripleBlock(x, y, z);
    CollidingPair(x, y, z, Colliding(x, x, y), 0, 1, NamingResolver(first, other), first);
    CollidingPair(x, y, z, Colliding(y, y, z), 1, 2, NamingResolver(first, other), other);
  }

  /** Of three inputs, t and u collide and no pair that begins elsewhere. */
  ghost predicate OnlyPair(hash: HashFunction, ins: seq<Inpoint>, t: nat, u: nat)
    requires |ins| == 3
  {
    t < u <= 2 && hash(ins[t]) == hash(ins[u])
    && forall i, j :: 0 <= i < j <= 2 && hash(ins[i]) == hash(ins[j]) ==> i == t
  }

  ghost predicate OneEach(block: Block, ins: seq<Inpoint>)
    requires |ins| == 3
  {
    forall k: nat :: (k in block <==> k <= 2) && (k <= 2 ==> block[k] == [ins[k]])
  }

  lemma {:induction false} PairComesFirst(block: Block, ins: seq<Inpoint>, hash: HashFunction, t: nat, u: nat, h: Group)
    requires |ins| == 3 && OneEach(block, ins) && OnlyPair(hash, ins, t, u)
    requires HashGroup(block, hash, h) && |h| >= 2 && IndexesBelowNone(block)
    ensures h[0].tx == t
  {
    var a, i, b, j := FirstTwoInputs(block, hash, h);
    assert block[a] == [ins[a]] && block[b] == [ins[b]];
  }

  lemma {:induction false} CollidingPair(x: Inpoint, y: Inpoint, z: Inpoint, hash: HashFunction, t: nat, u: nat,
        resolve: Resolver, error: string)
    requires OnlyPair(hash, [x, y, z], t, u)
    requires resolve(t) == ResolveError(error) && forall k: nat :: resolve(k).ResolveError?
    ensures DeterminedVerdict(BlockOf(Triple(x, y, z)), hash, resolve, Error(error))
  {
    var records, ins := Triple(x, y, z), [x, y, z];
    TripleBlock(x, y, z);
    var block := BlockOf(records);
    BlockIndexes(records, TWO64);
    assert OneEach(block, ins);
    assert block[t] == [ins[t]] && block[u] == [ins[u]];
    var g := GroupOfKey(records, hash, t, ins[t]);
    PairBound(block, hash, g, t, 0, u, 0);
    forall h: Group | HashGroup(block, hash, h) && |h| >= 2 ensures h[0].tx == t {
      PairComesFirst(block, ins, hash, t, u, h);
    }
    OneCollision(records, hash, resolve, t, error, g);
  }

  // ------------------------------------------------------------ when no two seeds disagree

  /** The same verdict, or two errors. */
  predicate SameKind(v: Verdict, w: Verdict) {
    v == w || (v.Error? && w.Error?)
  }

  /** No two hash functions disagree on more than which error it is. */
  ghost predicate SeedDoesNotMatter(block: Block, resolve: Resolver) {
    forall h: HashFunction, h': HashFunction, v, v' ::
      DeterminedVerdict(block, h, resolve, v) && DeterminedVerdict(block, h', resolve, v') ==> SameKind(v, v')
  }

  /** The seed does not matter to a block without a repeated spend exactly when no transaction with inputs fails to
      resolve or there are fewer than two inputs; and then every hash function says clean. `apart` is any hash
      function that separates the inputs of the block. */
  lemma {:induction false} SeedWithoutDuplicate(records: seq<TxRecord>, resolve: Resolver, apart: HashFunction)
    requires Recordable(records, TWO64) && Faithful(BlockOf(records), resolve) && Separates(BlockOf(records), apart)
    requires forall t: nat :: !SpendsSpent(BlockOf(records), t)
    ensures SeedDoesNotMatter(BlockOf(records), resolve) <==>
            (forall f: nat :: !Fails(BlockOf(records), resolve, f)) || !TwoInputs(BlockOf(records))
    ensures (exists v :: EveryHashSays(BlockOf(records), resolve, v)) <==> SeedDoesNotMatter(BlockOf(records), resolve)
  {
    var block := BlockOf(records);
    CleanUnderEveryHash(records, resolve);
    KeptApartIsClean(records, apart, resolve);
    if EveryHashSays(block, resolve, Clean) {
      AgreedVerdict(block, resolve, Clean);
    } else {
      var hash: HashFunction :| !DeterminedVerdict(block, hash, resolve, Clean);
      var v := SomeVerdict(records, hash, resolve);
      assert DeterminedVerdict(block, apart, resolve, Clean) && !SameKind(Clean, v);
      forall w ensures !EveryHashSays(block, resolve, w) {
        if EveryHashSays(block, resolve, w) {
          assert DeterminedVerdict(block, apart, resolve, w);
          OneVerdict(block, apart, resolve, Clean, w);
        }
      }
    }
  }

  lemma {:induction false} OneVerdict(block: Block, hash: HashFunction, resolve: Resolver, v: Verdict, w: Verdict)
    requires DeterminedVerdict(block, hash, resolve, v) && DeterminedVerdict(block, hash, resolve, w)
    ensures v == w
  {
    VerdictUnique(Env(hash, resolve, []), HashGroups(block, hash), v, w);
  }

  lemma {:induction false} AgreedVerdict(block: Block, resolve: Resolver, v: Verdict)
    requires EveryHashSays(block, resolve, v)
    ensures SeedDoesNotMatter(block, resolve)
  {
    forall h: HashFunction, h': HashFunction, w, w' |
      DeterminedVerdict(block, h, resolve, w) && DeterminedVerdict(block, h', resolve, w')
      ensures SameKind(w, w')
    {
      assert DeterminedVerdict(block, h, resolve, v) && DeterminedVerdict(block, h', resolve, v);
      OneVerdict(block, h, resolve, v, w);
      OneVerdict(block, h', resolve, v, w');
    }
  }

  // ------------------------------------------------------------ the agreed error

  /** Whatever d spends again cannot be settled: d fails to resolve, or the earlier spender does. */
  ghost predicate HiddenFromAll(block: Block, resolve: Resolver, d: nat) {
    || resolve(d).ResolveError?
    || forall x :: Respends(block, d, x) ==> FailingSpender(block, resolve, d, x)
  }

  ghost predicate FailingSpender(block: Block, resolve: Resolver, d: nat, x: Inpoint) {
    exists t: nat :: t < d && t in block && x in block[t] && resolve(t).ResolveError?
  }

  ghost predicate EveryHashFails(block: Block, resolve: Resolver) {
    forall hash: HashFunction, v :: DeterminedVerdict(block, hash, resolve, v) ==> v.Error?
  }

  /** A group with something d spends again, when that is hidden, fails and is bounded by d. */
  lemma {:induction false} HiddenFails(block: Block, hash: HashFunction, resolve: Resolver, d: nat, g: Group,
        x: Inpoint)
    requires HashGroup(block, hash, g) && IndexesBelowNone(block) && Faithful(block, resolve)
    requires FirstRespend(block, d) && HiddenFromAll(block, resolve, d)
    requires Respends(block, d, x) && hash(x) == g[0].Key()
    ensures |g| >= 2 && Bound(g) <= d && Settle(hash, g, resolve).Failed?
  {
    assert RespendsHash(block, hash, g[0].Key(), d);
    RespendAboveBound(block, hash, g, d);
    SettleGroup(block, hash, resolve, g);
    var f: nat := d;
    if resolve(d).Inputs? {
      f :| f < d && f in block && x in block[f] && resolve(f).ResolveError?;
    }
    assert HasHash(block, hash, g[0].Key(), f);
    GroupTxs(block, hash, g, f);
    match Settle(hash, g, resolve)
    case Found(tx) =>
      RespendAtLeast(block, d, hash, g[0].Key(), tx);
      FoundTrace(block, hash, resolve, g, f);
    case Distinct => DistinctTrace(block, hash, resolve, g, f);
    case Failed(_) =>
  }

  /** The group of what the first repeated spend spends again finds it or fails below it. */
  lemma {:induction false} GroupOfFirst(records: seq<TxRecord>, hash: HashFunction, resolve: Resolver, d: nat)
    returns (g: Group)
    requires Recordable(records, TWO64) && Faithful(BlockOf(records), resolve) && FirstRespend(BlockOf(records), d)
    ensures HashGroup(BlockOf(records), hash, g) && |g| >= 2 && Bound(g) <= d
    ensures Settle(hash, g, resolve) == Found(d) || Settle(hash, g, resolve).Failed?
  {
    var block := BlockOf(records);
    BlockIndexes(records, TWO64);
    var x :| Respends(block, d, x);
    g := GroupOfKey(records, hash, d, x);
    assert RespendsHash(block, hash, g[0].Key(), d);
    RespendAboveBound(block, hash, g, d);
    SettleGroup(block, hash, resolve, g);
    if Settle(hash, g, resolve).Found? {
      RespendAtLeast(block, d, hash, g[0].Key(), Settle(hash, g, resolve).tx);
    }
  }

  lemma {:induction false} FoundAtLeast(records: seq<TxRecord>, hash: HashFunction, resolve: Resolver, d: nat, tx: nat)
    requires Recordable(records, TWO64) && Faithful(BlockOf(records), resolve) && FirstRespend(BlockOf(records), d)
    requires DeterminedVerdict(BlockOf(records), hash, resolve, Duplicate(tx))
    ensures d <= tx
  {
    BlockIndexes(records, TWO64);
    var block := BlockOf(records);
    var found: Group :| FoundIn(Env(hash, resolve, []), HashGroups(block, hash), found, tx);
    NothingFound(block, hash, resolve, found, tx);
  }

  /** A block with a repeated spend is never clean, and no other transaction than the first is reported. */
  lemma {:induction false} FirstOrError(records: seq<TxRecord>, hash: HashFunction, resolve: Resolver, d: nat,
        v: Verdict)
    requires Recordable(records, TWO64) && Faithful(BlockOf(records), resolve) && FirstRespend(BlockOf(records), d)
    requires DeterminedVerdict(BlockOf(records), hash, resolve, v)
    ensures v.Error? || v == Duplicate(d)
  {
    var env, groups := Env(hash, resolve, []), HashGroups(BlockOf(records), hash);
    var g := GroupOfFirst(records, hash, resolve, d);
    var o := Settle(hash, g, resolve);
    assert o.Found? ==> FoundIn(env, groups, g, d);
    assert o.Failed? ==> FailedIn(env, groups, g, o.error);
    if v.Duplicate? {
      FoundAtLeast(records, hash, resolve, d, v.tx);
    }
  }

  lemma {:induction false} HiddenNotFound(block: Block, hash: HashFunction, resolve: Resolver, d: nat, g: Group)
    requires HashGroup(block, hash, g) && IndexesBelowNone(block) && Faithful(block, resolve)
    requires FirstRespend(block, d) && HiddenFromAll(block, resolve, d)
    ensures Settle(hash, g, resolve) != Found(d)
  {
    if Settle(hash, g, resolve) == Found(d) {
      NothingFound(block, hash, resolve, g, d);
      var y :| hash(y) == g[0].Key() && Respends(block, d, y);
      HiddenFails(block, hash, resolve, d, g, y);
    }
  }

  lemma {:induction false} HiddenForHash(records: seq<TxRecord>, hash: HashFunction, resolve: Resolver, d: nat,
        v: Verdict)
    requires Recordable(records, TWO64) && Faithful(BlockOf(records), resolve) && FirstRespend(BlockOf(records), d)
    requires HiddenFromAll(BlockOf(records), resolve, d) && DeterminedVerdict(BlockOf(records), hash, resolve, v)
    ensures v.Error?
  {
    var block := BlockOf(records);
    BlockIndexes(records, TWO64);
    FirstOrError(records, hash, resolve, d, v);
    if v == Duplicate(d) {
      var found: Group :| FoundIn(Env(hash, resolve, []), HashGroups(block, hash), found, d);
      HiddenNotFound(block, hash, resolve, d, found);
    }
  }

  /** Under a hash that separates the inputs, a failure in the group of x up to d is of a transaction that
      spends x. */
  lemma {:induction false} ApartFailure(block: Block, apart: HashFunction, resolve: Resolver, d: nat, g: Group,
        x: Inpoint, f: nat, error: string)
    requires HashGroup(block, apart, g) && IndexesBelowNone(block) && Separates(block, apart)
    requires Respends(block, d, x) && apart(x) == g[0].Key() && FailsFirst(block, apart, resolve, g, f, error)
    ensures resolve(d).ResolveError? || FailingSpender(block, resolve, d, x)
  {
    assert RespendsHash(block, apart, g[0].Key(), d);
    GroupTxs(block, apart, g, f);
    var y :| y in block[f] && apart(y) == g[0].Key();
    assert SpentIn(block, x) && SpentIn(block, y);
  }

  lemma {:induction false} ApartFinds(block: Block, apart: HashFunction, resolve: Resolver, d: nat, g: Group,
        x: Inpoint)
    requires HashGroup(block, apart, g) && IndexesBelowNone(block) && Faithful(block, resolve)
      && Separates(block, apart)
    requires FirstRespend(block, d) && Respends(block, d, x) && apart(x) == g[0].Key()
    requires resolve(d).Inputs? && !FailingSpender(block, resolve, d, x)
    ensures |g| >= 2 && Settle(apart, g, resolve) == Found(d)
  {
    assert RespendsHash(block, apart, g[0].Key(), d);
    RespendAboveBound(block, apart, g, d);
    SettleGroup(block, apart, resolve, g);
    match Settle(apart, g, resolve)
    case Found(tx) => RespendAtLeast(block, d, apart, g[0].Key(), tx);
    case Failed(error) =>
      var f := FailedTrace(block, apart, resolve, g, error);
      ApartFailure(block, apart, resolve, d, g, x, f, error);
    case Distinct =>
  }

  lemma {:induction false} ApartReports(block: Block, apart: HashFunction, resolve: Resolver, d: nat, g: Group)
    requires HashGroup(block, apart, g) && |g| >= 2 && Settle(apart, g, resolve) == Found(d)
    requires IndexesBelowNone(block) && Faithful(block, resolve) && Separates(block, apart) && FirstRespend(block, d)
    ensures DeterminedVerdict(block, apart, resolve, Duplicate(d))
  {
    var env, groups := Env(apart, resolve, []), HashGroups(block, apart);
    assert FoundIn(env, groups, g, d);
    forall h: Group, e | FailedIn(env, groups, h, e) ensures d <= Bound(h) {
      SeparatedBound(block, apart, h);
    }
    forall h: Group, tx | FoundIn(env, groups, h, tx) ensures d <= tx {
      NothingFound(block, apart, resolve, h, tx);
    }
  }

  /** Under a hash that separates the inputs, something d spends again that is not hidden is found. */
  lemma {:induction false} FoundWhenApart(records: seq<TxRecord>, resolve: Resolver, d: nat, apart: HashFunction)
    requires Recordable(records, TWO64) && Faithful(BlockOf(records), resolve) && FirstRespend(BlockOf(records), d)
    requires Separates(BlockOf(records), apart) && !HiddenFromAll(BlockOf(records), resolve, d)
    ensures DeterminedVerdict(BlockOf(records), apart, resolve, Duplicate(d))
  {
    var block := BlockOf(records);
    BlockIndexes(records, TWO64);
    var x :| Respends(block, d, x) && !FailingSpender(block, resolve, d, x);
    var g := GroupOfKey(records, apart, d, x);
    ApartFinds(block, apart, resolve, d, g, x);
    ApartReports(block, apart, resolve, d, g);
  }

  /** Every hash function fails on a block with a repeated spend exactly when whatever the first such transaction
      spends again is hidden by a failure. */
  lemma {:induction false} ErrorUnderEveryHash(records: seq<TxRecord>, resolve: Resolver, d: nat, apart: HashFunction)
    requires Recordable(records, TWO64) && Faithful(BlockOf(records), resolve) && FirstRespend(BlockOf(records), d)
    requires Separates(BlockOf(records), apart)
    ensures EveryHashFails(BlockOf(records), resolve) <==> HiddenFromAll(BlockOf(records), resolve, d)
  {
    var block := BlockOf(records);
    if HiddenFromAll(block, resolve, d) {
      forall hash: HashFunction, v | DeterminedVerdict(block, hash, resolve, v) ensures v.Error? {
        HiddenForHash(records, hash, resolve, d, v);
      }
    } else {
      FoundWhenApart(records, resolve, d, apart);
    }
  }

  /** The seed does not matter to a block with a repeated spend exactly when every hash function reports the first,
      or every one fails: nothing up to it fails and no later failure can collide below it, or whatever it
      spends again is hidden. */
  lemma {:induction false} SeedWithDuplicate(records: seq<TxRecord>, resolve: Resolver, d: nat, apart: HashFunction)
    requires Recordable(records, TWO64) && Faithful(BlockOf(records), resolve) && FirstRespend(BlockOf(records), d)
    requires Separates(BlockOf(records), apart)
    ensures SeedDoesNotMatter(BlockOf(records), resolve) <==>
            || (!EarlyFailure(BlockOf(records), resolve, d) && !Exposed(BlockOf(records), resolve, d))
            || HiddenFromAll(BlockOf(records), resolve, d)
  {
    var block := BlockOf(records);
    DuplicateUnderEveryHash(records, resolve, d);
    ErrorUnderEveryHash(records, resolve, d, apart);
    if EveryHashSays(block, resolve, Duplicate(d)) {
      AgreedVerdict(block, resolve, Duplicate(d));
    } else if !EveryHashFails(block, resolve) {
      var h: HashFunction, v :| DeterminedVerdict(block, h, resolve, v) && !v.Error?;
      FirstOrError(records, h, resolve, d, v);
      var h': HashFunction :| !DeterminedVerdict(block, h', resolve, Duplicate(d));
      var v' := SomeVerdict(records, h', resolve);
      assert !SameKind(v, v');
    }
  }

  /** Every transaction that fails gives the same error. */
  ghost predicate OneError(block: Block, resolve: Resolver) {
    forall f: nat, f': nat :: Fails(block, resolve, f) && Fails(block, resolve, f') ==> resolve(f) == resolve(f')
  }

  lemma {:induction false} ErrorOfFailure(records: seq<TxRecord>, hash: HashFunction, resolve: Resolver, error: string)
    returns (f: nat)
    requires Recordable(records, TWO64) && Faithful(BlockOf(records), resolve)
    requires DeterminedVerdict(BlockOf(records), hash, resolve, Error(error))
    ensures Fails(BlockOf(records), resolve, f) && resolve(f) == ResolveError(error)
  {
    var block := BlockOf(records);
    BlockIndexes(records, TWO64);
    var g: Group :| FailedIn(Env(hash, resolve, []), HashGroups(block, hash), g, error);
    f := FailedTrace(block, hash, resolve, g, error);
    FailedMeansFails(block, hash, resolve, g, f, error);
  }

  /** When all failures are alike, the seed does not matter exactly when all hash functions give one verdict. */
  lemma {:induction false} OneVerdictForAll(records: seq<TxRecord>, resolve: Resolver)
    requires Recordable(records, TWO64) && Faithful(BlockOf(records), resolve) && OneError(BlockOf(records), resolve)
    ensures SeedDoesNotMatter(BlockOf(records), resolve) <==> exists v :: EveryHashSays(BlockOf(records), resolve, v)
  {
    var block := BlockOf(records);
    if SeedDoesNotMatter(block, resolve) {
      var v := SomeVerdict(records, Constant(), resolve);
      forall hash: HashFunction ensures DeterminedVerdict(block, hash, resolve, v) {
        var w := SomeVerdict(records, hash, resolve);
        assert SameKind(v, w);
        if v != w {
          var f := ErrorOfFailure(records, Constant(), resolve, v.error);
          var f' := ErrorOfFailure(records, hash, resolve, w.error);
        }
      }
      assert EveryHashSays(block, resolve, v);
    } else if v :| EveryHashSays(block, resolve, v) {
      AgreedVerdict(block, resolve, v);
    }
  }
}
