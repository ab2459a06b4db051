/** The bundler as a state machine. Every stretch of code between two `await`s is one atomic step, and sends and
    bundles interleave freely at those points. `I` is the identity of the item objects that the mempool and the history
    share; their contents are in `data`. */
module BundlerMachine {
  import opened Wrappers
  import opened Abi
  import opened UserOps
  import opened Receipts
  import opened InsertionMap

  type Hash = Bytes32

  datatype Status = Pending | Included | Failed

  datatype ItemData = ItemData(
    hash: Hash,
    op: UserOp,
    status: Status,
    transactionHash: Option<Bytes32>,
    receipt: Option<StoredReceipt>,
    error: Option<string>)

  /** A send whose hash has arrived. */
  datatype Send = Send(hash: Hash, op: UserOp)

  /** `accepted` (all items ever committed, in order) and `finished` (all completed bundles, in order) record the past;
      no step reads them. `checked` holds the sends that passed their duplicate test and await their simulation.
      `inFlight` is the bundle being submitted; the source's `bundling` flag is whether there is one. */
  datatype State<I(==)> = State(
    maxBundleSize: int,
    mempool: InsertionMap<Hash, I>,
    history: map<Hash, I>,
    data: map<I, ItemData>,
    checked: multiset<Send>,
    inFlight: Option<seq<I>>,
    accepted: seq<I>,
    finished: seq<seq<I>>)

  /** A failing bundle may already have written the transaction hash into its first item: `markIncluded` does so before
      it can throw on a malformed receipt. */
  datatype Event<I> =
    | SendCheck(hash: Hash, op: UserOp)
    | SendReject(hash: Hash, op: UserOp)
    | SendCommit(hash: Hash, op: UserOp, item: I)
    | BundleStart
    | BundleOk(tx: TxReceipt)
    | BundleFail(reason: string, touched: Option<Bytes32>)

  function Init<I>(maxBundleSize: int): State<I> {
    State(maxBundleSize, Empty(), map[], map[], multiset{}, None, [], [])
  }

  /** Where `slice(0, max)` ends in a sequence of n values. */
  function SliceEnd(n: nat, max: int): (k: nat)
    ensures k <= n
  {
    if max >= 0 then Min(n, max) else Max(0, n + max)
  }

  function NewItem(hash: Hash, op: UserOp): ItemData {
    ItemData(hash, op, Pending, None, None, None)
  }

  function MarkIncluded(d: ItemData, tx: TxReceipt): ItemData {
    d.(status := Included, transactionHash := Some(tx.hash),
       receipt := Some(StoredReceipt(tx, Lookup(EventIndex(tx.logs), d.hash))))
  }

  function MarkFailed(d: ItemData, reason: string): ItemData {
    d.(status := Failed, error := Some(reason))
  }

  function Touch(d: ItemData, touched: Option<Bytes32>): ItemData {
    if touched.Some? then d.(transactionHash := touched) else d
  }

  function Hashes<I>(data: map<I, ItemData>, items: seq<I>): (hs: seq<Hash>)
    requires forall j :: 0 <= j < |items| ==> items[j] in data
    ensures |hs| == |items| && forall j :: 0 <= j < |items| ==> hs[j] == data[items[j]].hash
  {
    seq(|items|, j requires 0 <= j < |items| => data[items[j]].hash)
  }

  /** What a step may take for granted about the maps; it holds in every state of every run. */
  ghost predicate WellFormed<I>(s: State<I>) {
    && s.mempool.Valid()
    && (s.inFlight.Some? ==> forall j :: 0 <= j < |s.inFlight.value| ==> s.inFlight.value[j] in s.data)
  }

  /** What the environment decides: a hash arrives only for an operation that the ABI encoder takes, only a checked
      send can resume, only a bundle in flight can finish, and a committed item is a new object. */
  predicate Enabled<I>(s: State<I>, e: Event<I>) {
    match e
    case SendCheck(_, op) => Encodable(op)
    case SendReject(hash, op) => Send(hash, op) in s.checked
    case SendCommit(hash, op, item) => Send(hash, op) in s.checked && item !in s.data
    case BundleStart => true
    case BundleOk(_) => s.inFlight.Some?
    case BundleFail(_, _) => s.inFlight.Some?
  }

  /** Takes a finished bundle out of the mempool, hash by hash, and clears the flag. */
  function Finish<I>(s: State<I>, data: map<I, ItemData>): State<I>
    requires s.inFlight.Some? && forall j :: 0 <= j < |s.inFlight.value| ==> s.inFlight.value[j] in s.data
  {
    var items := s.inFlight.value;
    s.(data := data, mempool := s.mempool.DeleteAll(Hashes(s.data, items)), inFlight := None,
       finished := s.finished + [items])
  }

  /** The contents of the items once the bundle in flight has ended. */
  function Settled<I>(s: State<I>, e: Event<I>): map<I, ItemData>
    requires s.inFlight.Some? && (e.BundleOk? || e.BundleFail?)
  {
    var items := s.inFlight.value;
    map i | i in s.data ::
      if i !in items then s.data[i]
      else if e.BundleOk? then MarkIncluded(s.data[i], e.tx)
      else MarkFailed(if i == items[0] then Touch(s.data[i], e.touched) else s.data[i], e.reason)
  }

  ghost function Step<I>(s: State<I>, e: Event<I>): State<I>
    requires WellFormed(s) && Enabled(s, e)
  {
    match e
    case SendCheck(hash, op) =>
      if hash in s.history || s.mempool.Has(hash) then s else s.(checked := s.checked + multiset{Send(hash, op)})
    case SendReject(hash, op) =>
      s.(checked := s.checked - multiset{Send(hash, op)})
    case SendCommit(hash, op, item) =>
      s.(checked := s.checked - multiset{Send(hash, op)},
         mempool := s.mempool.Set(hash, item),
         history := s.history[hash := item],
         data := s.data[item := NewItem(hash, op)],
         accepted := s.accepted + [item])
    case BundleStart =>
      if s.inFlight.Some? || s.mempool.keys == [] then s
      else s.(inFlight := Some(s.mempool.Values()[..SliceEnd(|s.mempool.keys|, s.maxBundleSize)]))
    case BundleOk(_) => Finish(s, Settled(s, e))
    case BundleFail(_, _) => Finish(s, Settled(s, e))
  }

  /** What `eth_getUserOperationReceipt` answers: nothing until the item of that hash holds a receipt. */
  function ReceiptOf<I>(s: State<I>, hash: Hash): Option<RpcReceipt> {
    if hash !in s.history || s.history[hash] !in s.data then None
    else
      match s.data[s.history[hash]].receipt
      case None => None
      case Some(stored) => Some(ReportReceipt(stored))
  }

  /** The events can happen in this order from s. */
  ghost predicate IsRun<I>(s: State<I>, es: seq<Event<I>>)
    decreases |es|
  {
    es == [] || (WellFormed(s) && Enabled(s, es[0]) && IsRun(Step(s, es[0]), es[1..]))
  }

  ghost function Exec<I>(s: State<I>, es: seq<Event<I>>): State<I>
    requires IsRun(s, es)
    decreases |es|
  {
    if es == [] then s else Exec(Step(s, es[0]), es[1..])
  }

  function Flatten<T>(ss: seq<seq<T>>): seq<T> {
    if ss == [] then [] else Flatten(ss[..|ss| - 1]) + ss[|ss| - 1]
  }

  // ---- What holds under every interleaving ----

  /** Mempool keys are history keys; both maps hold the same object for them; it carries that hash and is pending. */
  ghost predicate MapsAgree<I>(s: State<I>) {
    && s.mempool.Valid()
    && (forall h :: h in s.history ==> s.history[h] in s.data && s.data[s.history[h]].hash == h)
    && (forall h :: h in s.mempool.vals ==>
          h in s.history && s.history[h] == s.mempool.vals[h] && s.data[s.mempool.vals[h]].status == Pending)
  }

  /** The hashes of the bundle in flight are exactly the first mempool keys, in insertion order. */
  ghost predicate FlightIsPrefix<I>(s: State<I>) {
    s.inFlight.Some? ==>
      var items := s.inFlight.value;
      && |items| <= |s.mempool.keys|
      && (forall j :: 0 <= j < |items| ==> items[j] in s.data)
      && Hashes(s.data, items) == s.mempool.keys[..|items|]
      && (forall j :: 0 <= j < |items| ==> s.data[items[j]].status == Pending)
  }

  ghost predicate RecordAgrees<I>(s: State<I>) {
    && Distinct(s.accepted)
    && s.data.Keys == (set i | i in s.accepted)
    && (forall i :: i in s.data ==> s.data[i].hash in s.history)
  }

  /** No item object is in two completed bundles, and none of them is pending any more. */
  ghost predicate BundlesDisjoint<I>(s: State<I>) {
    && Distinct(Flatten(s.finished))
    && (forall i :: i in Flatten(s.finished) ==> i in s.data && s.data[i].status != Pending)
  }

  ghost predicate Inv<I>(s: State<I>) {
    MapsAgree(s) && FlightIsPrefix(s) && RecordAgrees(s) && BundlesDisjoint(s)
  }

  lemma CommitKeepsMaps<I>(s: State<I>, hash: Hash, op: UserOp, item: I)
    requires MapsAgree(s) && WellFormed(s) && Enabled(s, SendCommit(hash, op, item))
    ensures MapsAgree(Step(s, SendCommit(hash, op, item)))
  {
    SetValid(s.mempool, hash, item);
  }

  lemma CommitKeepsFlight<I>(s: State<I>, hash: Hash, op: UserOp, item: I)
    requires FlightIsPrefix(s) && WellFormed(s) && Enabled(s, SendCommit(hash, op, item))
    ensures FlightIsPrefix(Step(s, SendCommit(hash, op, item)))
  {
    if s.inFlight.Some? {
      var items, s' := s.inFlight.value, Step(s, SendCommit(hash, op, item));
      assert Hashes(s'.data, items) == Hashes(s.data, items);
      assert s'.mempool.keys[..|items|] == s.mempool.keys[..|items|];
    }
  }

  lemma CommitKeepsRecord<I>(s: State<I>, hash: Hash, op: UserOp, item: I)
    requires RecordAgrees(s) && BundlesDisjoint(s) && WellFormed(s) && Enabled(s, SendCommit(hash, op, item))
    ensures RecordAgrees(Step(s, SendCommit(hash, op, item))) && BundlesDisjoint(Step(s, SendCommit(hash, op, item)))
  {
    assert item !in s.accepted;
    assert Step(s, SendCommit(hash, op, item)).data.Keys == s.data.Keys + {item};
  }

  lemma CommitKeepsInv<I>(s: State<I>, hash: Hash, op: UserOp, item: I)
    requires Inv(s) && Enabled(s, SendCommit(hash, op, item))
    ensures Inv(Step(s, SendCommit(hash, op, item)))
  {
    InvIsWellFormed(s);
    hide WellFormed, MapsAgree, FlightIsPrefix, RecordAgrees, BundlesDisjoint, Step;
    CommitKeepsMaps(s, hash, op, item);
    CommitKeepsFlight(s, hash, op, item);
    CommitKeepsRecord(s, hash, op, item);
  }

  lemma StartKeepsInv<I>(s: State<I>)
    requires Inv(s)
    ensures Inv(Step(s, BundleStart))
  {
    var s' := Step(s, BundleStart);
    if s' != s {
      var items := s'.inFlight.value;
      forall j | 0 <= j < |items|
        ensures items[j] in s.data && s.data[items[j]].status == Pending && s.data[items[j]].hash == s.mempool.keys[j]
      {
        assert s.mempool.keys[j] in s.mempool.vals;
      }
      assert Hashes(s.data, items) == s.mempool.keys[..|items|];
    }
  }

  lemma FlattenAppend<T>(ss: seq<seq<T>>, s: seq<T>)
    ensures Flatten(ss + [s]) == Flatten(ss) + s
  {
  }

  /** Items still in the mempool after a bundle were not part of it. */
  lemma RemainderIsUntouched<I>(s: State<I>, h: Hash)
    requires Inv(s) && s.inFlight.Some?
    requires h in s.mempool.keys[|s.inFlight.value|..]
    ensures h in s.mempool.vals && s.mempool.vals[h] !in s.inFlight.value
  {
  }

  lemma FlightIsDistinct<I>(s: State<I>)
    requires Inv(s) && s.inFlight.Some?
    ensures Distinct(s.inFlight.value)
    ensures Distinct(Flatten(s.finished) + s.inFlight.value)
  {
    var items := s.inFlight.value;
    forall i, j | 0 <= i < j < |items| ensures items[i] != items[j] {
      assert Hashes(s.data, items)[i] == s.mempool.keys[i] && Hashes(s.data, items)[j] == s.mempool.keys[j];
    }
    assert forall j :: 0 <= j < |items| ==> items[j] !in Flatten(s.finished);
  }

  lemma RemainingMempool<I>(s: State<I>)
    requires s.mempool.Valid() && FlightIsPrefix(s) && s.inFlight.Some?
    ensures var n, m := |s.inFlight.value|, s.mempool.DeleteAll(Hashes(s.data, s.inFlight.value));
      && m.Valid() && m.keys == s.mempool.keys[n..] && m.Values() == s.mempool.Values()[n..]
      && forall h :: h in m.vals ==> h in s.mempool.vals && m.vals[h] == s.mempool.vals[h]
  {
    var n := |s.inFlight.value|;
    assert n <= |s.mempool.keys| && Hashes(s.data, s.inFlight.value) == s.mempool.keys[..n];
    hide FlightIsPrefix, Hashes;
    DeletePrefix(s.mempool, n);
    DeletePrefixValues(s.mempool, n);
  }

  lemma FinishKeepsInv<I>(s: State<I>, data: map<I, ItemData>)
    requires Inv(s) && s.inFlight.Some? && data.Keys == s.data.Keys
    requires forall i :: i in s.data ==> data[i].hash == s.data[i].hash
    requires forall i :: i in s.data && i !in s.inFlight.value ==> data[i] == s.data[i]
    requires forall i :: i in s.inFlight.value ==> i in data && data[i].status != Pending
    ensures Inv(Finish(s, data))
    ensures Finish(s, data).mempool.keys == s.mempool.keys[|s.inFlight.value|..]
  {
    var items := s.inFlight.value;
    var s' := Finish(s, data);
    RemainingMempool(s);
    assert s'.mempool.keys == s.mempool.keys[|items|..];
    forall h | h in s'.mempool.vals ensures data[s'.mempool.vals[h]].status == Pending {
      assert h in s'.mempool.keys;
      RemainderIsUntouched(s, h);
    }
    FlightIsDistinct(s);
    FlattenAppend(s.finished, items);
    assert BundlesDisjoint(s');
  }

  lemma SettledFacts<I>(s: State<I>, e: Event<I>)
    requires s.inFlight.Some? && (e.BundleOk? || e.BundleFail?)
    requires forall j :: 0 <= j < |s.inFlight.value| ==> s.inFlight.value[j] in s.data
    ensures var data := Settled(s, e);
      && data.Keys == s.data.Keys
      && (forall i :: i in s.data ==> data[i].hash == s.data[i].hash && data[i].op == s.data[i].op)
      && (forall i :: i in s.data && i !in s.inFlight.value ==> data[i] == s.data[i])
      && (forall i :: i in s.inFlight.value ==> i in data && data[i].status != Pending)
  {
    hide EventIndex, Lookup;
  }

  lemma FinishStepKeepsInv<I>(s: State<I>, e: Event<I>)
    requires Inv(s) && Enabled(s, e) && (e.BundleOk? || e.BundleFail?)
    ensures Inv(Step(s, e))
    ensures Step(s, e).mempool.keys == s.mempool.keys[|s.inFlight.value|..]
  {
    hide Inv, Finish, Settled;
    assert FlightIsPrefix(s) by {
      InvParts(s);
    }
    SettledFacts(s, e);
    FinishKeepsInv(s, Settled(s, e));
  }

  lemma InvParts<I>(s: State<I>)
    requires Inv(s)
    ensures MapsAgree(s) && FlightIsPrefix(s) && RecordAgrees(s) && BundlesDisjoint(s)
  {
  }

  lemma InvStep<I>(s: State<I>, e: Event<I>)
    requires Inv(s) && Enabled(s, e)
    ensures Inv(Step(s, e))
  {
    match e
    case SendCheck(_, _) =>
    case SendReject(_, _) =>
    case SendCommit(hash, op, item) => CommitKeepsInv(s, hash, op, item);
    case BundleStart => StartKeepsInv(s);
    case BundleOk(_) => FinishStepKeepsInv(s, e);
    case BundleFail(_, _) => FinishStepKeepsInv(s, e);
  }

  lemma InvIsWellFormed<I>(s: State<I>)
    requires Inv(s)
    ensures WellFormed(s)
    ensures s.inFlight.Some? ==> |s.inFlight.value| <= |s.mempool.keys|
  {
  }

  lemma {:induction false} InvRun<I>(s: State<I>, es: seq<Event<I>>)
    requires Inv(s) && IsRun(s, es)
    ensures Inv(Exec(s, es))
    decreases |es|
  {
    if es != [] {
      InvStep(s, es[0]);
      InvRun(Step(s, es[0]), es[1..]);
    }
  }

  lemma InitInv<I>(maxBundleSize: int)
    ensures Inv(Init<I>(maxBundleSize))
  {
  }

  /** Under every interleaving: the maps agree, the bundle in flight is a prefix of the mempool, and no item object is
      submitted in two bundles, the one in flight included. */
  lemma EveryInterleaving<I>(maxBundleSize: int, es: seq<Event<I>>)
    requires IsRun(Init(maxBundleSize), es)
    ensures var s := Exec(Init(maxBundleSize), es);
      && MapsAgree(s) && FlightIsPrefix(s) && RecordAgrees(s)
      && Distinct(Flatten(s.finished) + if s.inFlight.Some? then s.inFlight.value else [])
  {
    InitInv<I>(maxBundleSize);
    InvRun(Init(maxBundleSize), es);
    var s := Exec(Init(maxBundleSize), es);
    if s.inFlight.Some? {
      FlightIsDistinct(s);
    } else {
      assert Flatten(s.finished) + [] == Flatten(s.finished);
    }
  }

  lemma {:induction false} RunAppend<I>(s: State<I>, es: seq<Event<I>>, e: Event<I>)
    requires Inv(s) && IsRun(s, es) && Enabled(Exec(s, es), e)
    ensures IsRun(s, es + [e])
    ensures Inv(Exec(s, es)) && Exec(s, es + [e]) == Step(Exec(s, es), e)
    decreases |es|
  {
    InvRun(s, es);
    if es == [] {
      assert ([] + [e])[1..] == [];
    } else {
      assert (es + [e])[1..] == es[1..] + [e];
      InvStep(s, es[0]);
      RunAppend(Step(s, es[0]), es[1..], e);
    }
  }

  /** The well-formedness a step asks for never blocks anything: whatever the environment allows can happen next. */
  lemma NeverStuck<I>(maxBundleSize: int, es: seq<Event<I>>, e: Event<I>)
    requires IsRun(Init(maxBundleSize), es) && Enabled(Exec(Init(maxBundleSize), es), e)
    ensures IsRun(Init(maxBundleSize), es + [e])
  {
    InitInv<I>(maxBundleSize);
    RunAppend(Init(maxBundleSize), es, e);
  }

  /** One item's life: pending until its one bundle ends, then frozen. */
  ghost predicate ItemsOnlySettle<I>(s: State<I>, s': State<I>) {
    forall i :: i in s.data ==>
      && i in s'.data && s'.data[i].hash == s.data[i].hash && s'.data[i].op == s.data[i].op
      && (s.data[i].status != Pending ==> s'.data[i] == s.data[i])
  }

  lemma FlightIsPending<I>(s: State<I>)
    requires FlightIsPrefix(s) && s.inFlight.Some?
    ensures forall i :: i in s.inFlight.value ==> i in s.data && s.data[i].status == Pending
  {
  }

  lemma FinishOnlySettles<I>(s: State<I>, e: Event<I>)
    requires FlightIsPrefix(s) && WellFormed(s) && Enabled(s, e) && (e.BundleOk? || e.BundleFail?)
    ensures ItemsOnlySettle(s, Step(s, e))
  {
    FlightIsPending(s);
    SettledFacts(s, e);
    hide Settled, Hashes, WellFormed, FlightIsPrefix;
    assert Step(s, e).data == Settled(s, e);
  }

  lemma OthersSettleNothing<I>(s: State<I>, e: Event<I>)
    requires WellFormed(s) && Enabled(s, e) && !e.BundleOk? && !e.BundleFail?
    ensures ItemsOnlySettle(s, Step(s, e))
  {
    hide Finish, Settled, Hashes, WellFormed;
    assert forall i :: i in s.data ==> i in Step(s, e).data && Step(s, e).data[i] == s.data[i];
  }

  lemma SettleStep<I>(s: State<I>, e: Event<I>)
    requires Inv(s) && Enabled(s, e)
    ensures ItemsOnlySettle(s, Step(s, e))
  {
    InvParts(s);
    InvIsWellFormed(s);
    hide *;
    if e.BundleOk? || e.BundleFail? {
      FinishOnlySettles(s, e);
    } else {
      OthersSettleNothing(s, e);
    }
  }

  /** A commit puts one new pending item under its hash: at the end of the mempool, or in the place of an older one
      with that hash. */
  lemma CommitEffect<I>(s: State<I>, hash: Hash, op: UserOp, item: I)
    requires Inv(s) && Enabled(s, SendCommit(hash, op, item))
    ensures var s' := Step(s, SendCommit(hash, op, item));
      && hash in s'.history && hash in s'.mempool.vals && item in s'.data
      && s'.history[hash] == item && s'.mempool.vals[hash] == item
      && s'.data[item] == ItemData(hash, op, Pending, None, None, None)
      && s'.mempool.keys == (if hash in s.mempool.vals then s.mempool.keys else s.mempool.keys + [hash])
      && (forall h :: h != hash ==> (h in s'.history <==> h in s.history))
      && (forall h :: h != hash && h in s.history ==> s'.history[h] == s.history[h])
      && (forall h :: h != hash ==> (h in s'.mempool.vals <==> h in s.mempool.vals))
      && (forall h :: h != hash && h in s.mempool.vals ==> s'.mempool.vals[h] == s.mempool.vals[h])
      && (forall i :: i in s.data ==> i in s'.data && s'.data[i] == s.data[i])
  {
    InvIsWellFormed(s);
    hide Inv, WellFormed, MapsAgree, FlightIsPrefix, RecordAgrees, BundlesDisjoint;
  }

  /** A bundle starts exactly when none is in flight and something waits. It takes the configured number of the oldest
      items, or all there are; a negative number leaves that many of the newest. */
  lemma StartEffect<I>(s: State<I>)
    requires Inv(s)
    ensures var s', n, max := Step(s, BundleStart), |s.mempool.keys|, s.maxBundleSize;
      if s.inFlight.Some? || n == 0 then s' == s
      else
        && s'.inFlight.Some? && s'.(inFlight := None) == s
        && var items := s'.inFlight.value;
        && |items| <= n
        && (forall j :: 0 <= j < |items| ==> items[j] == s.mempool.vals[s.mempool.keys[j]])
        && (0 <= max <= n ==> |items| == max) && (n < max ==> |items| == n)
        && (-n <= max < 0 ==> |items| == n - (-max)) && (max < -n ==> |items| == 0)
  {
    InvIsWellFormed(s);
    hide Inv, FlightIsPrefix, RecordAgrees, BundlesDisjoint;
  }

  /** The end of a bundle: the mempool keeps what is behind it, every item in it gets the transaction or the reason,
      no other item changes, and the history still holds the same objects. */
  lemma BundleEffect<I>(s: State<I>, e: Event<I>, i: I)
    requires Inv(s) && Enabled(s, e) && (e.BundleOk? || e.BundleFail?) && i in s.data
    ensures var s', d := Step(s, e), Step(s, e).data[i];
      && s'.mempool.keys == s.mempool.keys[|s.inFlight.value|..] && s'.history == s.history && s'.inFlight.None?
      && s'.finished == s.finished + [s.inFlight.value] && s'.accepted == s.accepted
      && (i !in s.inFlight.value ==> d == s.data[i])
      && (i in s.inFlight.value && e.BundleOk? ==>
            && d.status == Included && d.transactionHash == Some(e.tx.hash)
            && d.receipt == Some(StoredReceipt(e.tx, Lookup(EventIndex(e.tx.logs), s.data[i].hash)))
            && d.error == s.data[i].error)
      && (i in s.inFlight.value && e.BundleFail? ==>
            && d.status == Failed && d.error == Some(e.reason) && d.receipt == s.data[i].receipt
            && d.transactionHash == (if i == s.inFlight.value[0] && e.touched.Some? then e.touched
                                     else s.data[i].transactionHash))
  {
    hide Inv, EventIndex, Lookup, Hashes, WellFormed, MapsAgree, FlightIsPrefix, RecordAgrees, BundlesDisjoint;
    InvIsWellFormed(s);
    FinishStepKeepsInv(s, e);
  }

  /** From any reachable state on, items only move from pending to included or failed, and a settled item never
      changes again in any field. */
  lemma {:induction false} ItemsSettleOnce<I>(s: State<I>, es: seq<Event<I>>)
    requires Inv(s) && IsRun(s, es)
    ensures ItemsOnlySettle(s, Exec(s, es))
    decreases |es|
  {
    if es != [] {
      SettleStep(s, es[0]);
      InvStep(s, es[0]);
      ItemsSettleOnce(Step(s, es[0]), es[1..]);
    }
  }

  // ---- What is held can be printed ----

  ghost predicate AllEncodable<I>(s: State<I>) {
    && (forall x :: x in s.checked ==> Encodable(x.op))
    && (forall i :: i in s.data ==> Encodable(s.data[i].op))
  }

  lemma EncodableStep<I>(s: State<I>, e: Event<I>)
    requires WellFormed(s) && Enabled(s, e) && AllEncodable(s)
    ensures AllEncodable(Step(s, e))
  {
    hide Encodable, Hashes, EventIndex, Lookup;
    if e.BundleOk? || e.BundleFail? {
      SettledFacts(s, e);
    }
  }

  lemma {:induction false} EncodableRun<I>(s: State<I>, es: seq<Event<I>>)
    requires IsRun(s, es) && AllEncodable(s)
    ensures AllEncodable(Exec(s, es))
    decreases |es|
  {
    hide AllEncodable, Step, Enabled;
    if es != [] {
      EncodableStep(s, es[0]);
      EncodableRun(Step(s, es[0]), es[1..]);
    }
  }

  lemma EncodablePrints(op: UserOp)
    requires Encodable(op)
    ensures SerializeUserOp(op).Some? && NormalizeUserOp(SerializeUserOp(op).value) == Ok(op)
  {
    NormalizeSerialize(op);
  }

  /** Over every run: whatever the history holds can be printed, and its printed form normalises back to it. */
  lemma HeldOpsPrint<I>(maxBundleSize: int, es: seq<Event<I>>, hash: Hash)
    requires IsRun(Init(maxBundleSize), es) && hash in Exec(Init(maxBundleSize), es).history
    ensures var s := Exec(Init(maxBundleSize), es);
      && s.history[hash] in s.data
      && var op := s.data[s.history[hash]].op;
         SerializeUserOp(op).Some? && NormalizeUserOp(SerializeUserOp(op).value) == Ok(op)
  {
    hide SerializeUserOp, NormalizeUserOp;
    InitInv<I>(maxBundleSize);
    InvRun(Init(maxBundleSize), es);
    EncodableRun(Init(maxBundleSize), es);
    var s := Exec(Init(maxBundleSize), es);
    EncodablePrints(s.data[s.history[hash]].op);
  }

  // ---- No send is lost ----

  /** How often a send passes its duplicate test: its hash is in neither map at that moment. */
  ghost function Passes<I>(s: State<I>, es: seq<Event<I>>, x: Send): nat
    requires IsRun(s, es)
    decreases |es|
  {
    if es == [] then 0
    else
      (if es[0] == SendCheck(x.hash, x.op) && x.hash !in s.history && x.hash !in s.mempool.vals then 1 else 0)
      + Passes(Step(s, es[0]), es[1..], x)
  }

  /** How often it is turned down or committed after that. */
  function Ends<I>(es: seq<Event<I>>, x: Send): nat {
    if es == [] then 0
    else
      Ends(es[..|es| - 1], x)
      + match es[|es| - 1] {
          case SendReject(hash, op) => if Send(hash, op) == x then 1 else 0
          case SendCommit(hash, op, _) => if Send(hash, op) == x then 1 else 0
          case _ => 0
        }
  }

  lemma {:induction false} EndsFirst<I>(es: seq<Event<I>>, x: Send)
    requires es != []
    ensures Ends(es, x) == Ends(es[..1], x) + Ends(es[1..], x)
  {
    if |es| > 1 {
      var init := es[..|es| - 1];
      EndsFirst(init, x);
      assert init[..1] == es[..1] && es[1..][..|es| - 2] == init[1..];
    } else {
      assert es[..1] == es && es[1..] == [];
    }
  }

  lemma SendStep<I>(s: State<I>, e: Event<I>, x: Send)
    requires WellFormed(s) && Enabled(s, e)
    ensures Step(s, e).checked[x] + Ends([e], x)
         == s.checked[x] + (if e == SendCheck(x.hash, x.op) && x.hash !in s.history && x.hash !in s.mempool.vals then 1
                            else 0)
  {
    assert [e][..0] == [];
    hide WellFormed, Finish, Settled;
  }

  /** Over every run, for every hash and operation: the sends that passed the duplicate test are the ones turned down,
      the ones committed and the ones still awaiting their simulation. */
  lemma {:induction false} SendsBalance<I>(s: State<I>, es: seq<Event<I>>, x: Send)
    requires IsRun(s, es)
    ensures s.checked[x] + Passes(s, es, x) == Exec(s, es).checked[x] + Ends(es, x)
    decreases |es|
  {
    hide Step, Enabled, WellFormed;
    if es != [] {
      SendStep(s, es[0], x);
      SendsBalance(Step(s, es[0]), es[1..], x);
      EndsFirst(es, x);
      assert es[..1] == [es[0]];
    }
  }
}
