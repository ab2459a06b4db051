/** First in, first out, nothing twice and nothing lost: exactly when no send commits a hash that the history holds. */
module BundlerConservation {
  import opened Wrappers
  import opened UserOps
  import opened Receipts
  import opened InsertionMap
  import opened BundlerMachine

  /** No send commits a hash that the history already holds. */
  ghost predicate CleanRun<I>(s: State<I>, es: seq<Event<I>>)
    requires IsRun(s, es)
    decreases |es|
  {
    es == [] || (!(es[0].SendCommit? && es[0].hash in s.history) && CleanRun(Step(s, es[0]), es[1..]))
  }

  ghost predicate HashesDistinct<I>(s: State<I>) {
    && (forall i :: i in s.accepted ==> i in s.data)
    && forall i, j :: 0 <= i < j < |s.accepted| ==> s.data[s.accepted[i]].hash != s.data[s.accepted[j]].hash
  }

  ghost predicate PendingIsWaiting<I>(s: State<I>) {
    forall h :: h in s.history ==>
      s.history[h] in s.data && (s.data[s.history[h]].status == Pending <==> h in s.mempool.vals)
  }

  function CountStatus<I>(data: map<I, ItemData>, items: seq<I>, status: Status): nat
    requires forall i :: i in items ==> i in data
  {
    if items == [] then 0
    else CountStatus(data, items[..|items| - 1], status) + if data[items[|items| - 1]].status == status then 1 else 0
  }

  /** First in, first out, nothing twice and nothing lost: the completed bundles followed by the waiting mempool are the
      accepted items in order, with distinct hashes; an operation is pending in the history exactly while it waits in
      the mempool; accepted = included + failed + waiting. */
  ghost predicate Conserved<I>(s: State<I>) {
    && s.mempool.Valid()
    && HashesDistinct(s)
    && Flatten(s.finished) + s.mempool.Values() == s.accepted
    && PendingIsWaiting(s)
    && |s.accepted| == CountStatus(s.data, s.accepted, Included) + CountStatus(s.data, s.accepted, Failed)
                       + |s.mempool.keys|
  }

  /** The queue: completed bundles and waiting items are the accepted items in order, and the bundle in flight is the
      front of what waits. */
  ghost predicate Queue<I>(s: State<I>) {
    && s.mempool.Valid()
    && Flatten(s.finished) + s.mempool.Values() == s.accepted
    && (s.inFlight.Some? ==> |s.inFlight.value| <= |s.mempool.keys|
                             && s.inFlight.value == s.mempool.Values()[..|s.inFlight.value|])
  }

  ghost predicate InOrder<I>(s: State<I>) {
    HashesDistinct(s) && Queue(s)
  }

  /** A commit that takes the place of an item still waiting. */
  ghost predicate Replaces<I>(s: State<I>, e: Event<I>) {
    e.SendCommit? && e.hash in s.mempool.vals
  }

  lemma {:induction false} CountSettled<I>(data: map<I, ItemData>, items: seq<I>)
    requires forall i :: i in items ==> i in data && data[i].status != Pending
    ensures CountStatus(data, items, Included) + CountStatus(data, items, Failed) == |items|
  {
    if items != [] {
      assert forall i :: i in items[..|items| - 1] ==> i in items;
      assert items[|items| - 1] in items;
      CountSettled(data, items[..|items| - 1]);
    }
  }

  lemma {:induction false} CountAppendPending<I>(data: map<I, ItemData>, items: seq<I>, more: seq<I>, status: Status)
    requires forall i :: i in items + more ==> i in data
    requires forall i :: i in more ==> data[i].status == Pending
    requires status != Pending
    ensures forall i :: i in items ==> i in data
    ensures CountStatus(data, items + more, status) == CountStatus(data, items, status)
  {
    assert forall i :: i in items ==> i in items + more;
    if more == [] {
      assert items + more == items;
    } else {
      var n := |items + more| - 1;
      assert (items + more)[..n] == items + more[..|more| - 1];
      assert forall i :: i in items + more[..|more| - 1] ==> i in items + more;
      assert more[|more| - 1] in more;
      CountAppendPending(data, items, more[..|more| - 1], status);
    }
  }

  lemma WaitingIsPending<I>(s: State<I>)
    requires MapsAgree(s)
    ensures forall i :: i in s.mempool.Values() ==> i in s.data && s.data[i].status == Pending
  {
  }

  lemma InOrderTracksPending<I>(s: State<I>)
    requires Inv(s) && InOrder(s)
    ensures PendingIsWaiting(s)
  {
    forall h | h in s.history && s.data[s.history[h]].status == Pending ensures h in s.mempool.vals {
      var i, waiting := s.history[h], s.mempool.Values();
      assert i in Flatten(s.finished) + waiting;
      var j :| 0 <= j < |waiting| && waiting[j] == i;
      assert s.mempool.keys[j] in s.mempool.vals;
    }
  }

  lemma InOrderIsConserved<I>(s: State<I>)
    requires Inv(s) && InOrder(s)
    ensures Conserved(s)
  {
    hide MapsAgree, FlightIsPrefix, RecordAgrees, CountStatus, Flatten, PendingIsWaiting, HashesDistinct;
    WaitingIsPending(s);
    InOrderTracksPending(s);
    CountSettled(s.data, Flatten(s.finished));
    CountAppendPending(s.data, Flatten(s.finished), s.mempool.Values(), Included);
    CountAppendPending(s.data, Flatten(s.finished), s.mempool.Values(), Failed);
  }

  lemma CommitValues<I>(m: InsertionMap<Hash, I>, hash: Hash, item: I)
    requires m.Valid() && !m.Has(hash)
    ensures m.Set(hash, item).Valid() && m.Set(hash, item).Values() == m.Values() + [item]
  {
    SetValid(m, hash, item);
  }

  lemma CommitHashesDistinct<I>(s: State<I>, hash: Hash, op: UserOp, item: I)
    requires WellFormed(s) && RecordAgrees(s) && HashesDistinct(s)
    requires Enabled(s, SendCommit(hash, op, item)) && hash !in s.history
    ensures HashesDistinct(Step(s, SendCommit(hash, op, item)))
  {
    hide Hashes;
    assert item !in s.accepted;
    assert forall i :: i in s.accepted ==> i in s.data && s.data[i].hash != hash;
  }

  lemma CommitQueue<I>(s: State<I>, hash: Hash, op: UserOp, item: I)
    requires WellFormed(s) && Queue(s) && Enabled(s, SendCommit(hash, op, item)) && !s.mempool.Has(hash)
    ensures Queue(Step(s, SendCommit(hash, op, item)))
  {
    CommitValues(s.mempool, hash, item);
    hide Flatten;
    var s' := Step(s, SendCommit(hash, op, item));
    assert Flatten(s.finished) + (s.mempool.Values() + [item]) == s.accepted + [item];
    if s.inFlight.Some? {
      var n := |s.inFlight.value|;
      assert (s.mempool.Values() + [item])[..n] == s.mempool.Values()[..n];
    }
  }

  lemma FinishQueue<I>(s: State<I>, data: map<I, ItemData>)
    requires FlightIsPrefix(s) && Queue(s) && s.inFlight.Some?
    requires forall j :: 0 <= j < |s.inFlight.value| ==> s.inFlight.value[j] in s.data
    ensures Queue(Finish(s, data))
  {
    hide FlightIsPrefix, Flatten, Hashes;
    var items, waiting := s.inFlight.value, s.mempool.Values();
    RemainingMempool(s);
    FlattenAppend(s.finished, items);
    SplitOrder(Flatten(s.finished), items, waiting);
  }

  lemma SplitOrder<T>(done: seq<T>, items: seq<T>, waiting: seq<T>)
    requires |items| <= |waiting| && items == waiting[..|items|]
    ensures done + items + waiting[|items|..] == done + waiting
  {
  }

  lemma FlightKnown<I>(s: State<I>)
    requires FlightIsPrefix(s) && s.inFlight.Some?
    ensures forall j :: 0 <= j < |s.inFlight.value| ==> s.inFlight.value[j] in s.data
  {
  }

  lemma SameHashesDistinct<I>(s: State<I>, s': State<I>)
    requires s'.accepted == s.accepted && s'.data.Keys == s.data.Keys
    requires forall i :: i in s.data ==> s'.data[i].hash == s.data[i].hash
    ensures HashesDistinct(s) <==> HashesDistinct(s')
  {
  }

  lemma QueueStep<I>(s: State<I>, e: Event<I>)
    requires Inv(s) && Queue(s) && Enabled(s, e) && !Replaces(s, e)
    ensures Queue(Step(s, e))
  {
    InvParts(s);
    InvIsWellFormed(s);
    hide Inv, Settled, Finish, MapsAgree, RecordAgrees, BundlesDisjoint, FlightIsPrefix, Flatten, WellFormed;
    match e
    case SendCheck(_, _) =>
    case SendReject(_, _) =>
    case SendCommit(hash, op, item) => CommitQueue(s, hash, op, item);
    case BundleStart =>
    case BundleOk(_) =>
      FlightKnown(s);
      FinishQueue(s, Settled(s, e));
    case BundleFail(_, _) =>
      FlightKnown(s);
      FinishQueue(s, Settled(s, e));
  }

  lemma DistinctStep<I>(s: State<I>, e: Event<I>)
    requires Inv(s) && HashesDistinct(s) && Enabled(s, e) && !(e.SendCommit? && e.hash in s.history)
    ensures HashesDistinct(Step(s, e))
  {
    InvParts(s);
    InvIsWellFormed(s);
    hide Inv, Settled, MapsAgree, RecordAgrees, BundlesDisjoint, FlightIsPrefix, HashesDistinct, WellFormed;
    if e.SendCommit? {
      CommitHashesDistinct(s, e.hash, e.op, e.item);
    } else {
      if e.BundleOk? || e.BundleFail? {
        FlightKnown(s);
        SettledFacts(s, e);
      }
      SameHashesDistinct(s, Step(s, e));
    }
  }

  lemma CleanStepInOrder<I>(s: State<I>, e: Event<I>)
    requires Inv(s) && InOrder(s) && Enabled(s, e) && !(e.SendCommit? && e.hash in s.history)
    ensures InOrder(Step(s, e))
  {
    InvIsWellFormed(s);
    hide Step, Queue, HashesDistinct, WellFormed;
    QueueStep(s, e);
    DistinctStep(s, e);
  }

  lemma {:induction false} CleanRunInOrder<I>(s: State<I>, es: seq<Event<I>>)
    requires Inv(s) && InOrder(s) && IsRun(s, es) && CleanRun(s, es)
    ensures InOrder(Exec(s, es))
    decreases |es|
  {
    if es != [] {
      CleanStepInOrder(s, es[0]);
      InvStep(s, es[0]);
      CleanRunInOrder(Step(s, es[0]), es[1..]);
    }
  }

  /** A commit whose result has distinct hashes was of a new hash, and distinct hashes go back in time. */
  lemma DistinctStepIsClean<I>(s: State<I>, e: Event<I>)
    requires Inv(s) && Enabled(s, e) && HashesDistinct(Step(s, e))
    ensures HashesDistinct(s) && !(e.SendCommit? && e.hash in s.history)
  {
    InvParts(s);
    InvIsWellFormed(s);
    hide Settled, BundlesDisjoint, Flatten, Hashes, Inv, MapsAgree, FlightIsPrefix, WellFormed, RecordAgrees,
         HashesDistinct;
    if e.SendCommit? {
      DistinctCommitIsClean(s, e);
    } else {
      if e.BundleOk? || e.BundleFail? {
        FlightKnown(s);
        SettledFacts(s, e);
      }
      SameHashesDistinct(s, Step(s, e));
    }
  }

  lemma DistinctCommitIsClean<I>(s: State<I>, e: Event<I>)
    requires WellFormed(s) && RecordAgrees(s) && MapsAgree(s) && Enabled(s, e)
    requires e.SendCommit? && HashesDistinct(Step(s, e))
    ensures HashesDistinct(s) && e.hash !in s.history
  {
    hide Hashes;
    var s', n := Step(s, e), |s.accepted|;
    forall i | 0 <= i < n
      ensures s.accepted[i] in s.data && s.data[s.accepted[i]].hash == s'.data[s'.accepted[i]].hash != e.hash
    {
      assert s.accepted[i] in s.accepted;
      assert s'.accepted[i] == s.accepted[i] && s'.accepted[n] == e.item;
    }
  }

  /** Committing a hash that is already in the history puts it twice among the accepted, for good. */
  lemma {:induction false} DistinctRunIsClean<I>(s: State<I>, es: seq<Event<I>>)
    requires Inv(s) && IsRun(s, es) && HashesDistinct(Exec(s, es))
    ensures HashesDistinct(s) && CleanRun(s, es)
    decreases |es|
  {
    hide Inv, Step, HashesDistinct, Enabled;
    if es != [] {
      InvStep(s, es[0]);
      DistinctRunIsClean(Step(s, es[0]), es[1..]);
      DistinctStepIsClean(s, es[0]);
    }
  }

  /** The exact condition for conservation, over every run from the start: it holds at the end if and only if no send
      committed a hash that was already in the history, which the code tests only before its last `await`. */
  lemma ConservedExactlyOnCleanRuns<I>(maxBundleSize: int, es: seq<Event<I>>)
    requires IsRun(Init(maxBundleSize), es)
    ensures Conserved(Exec(Init(maxBundleSize), es)) <==> CleanRun(Init(maxBundleSize), es)
  {
    var s0 := Init<I>(maxBundleSize);
    InitInv<I>(maxBundleSize);
    InvRun(s0, es);
    if CleanRun(s0, es) {
      CleanRunInOrder(s0, es);
      InOrderIsConserved(Exec(s0, es));
    }
    if Conserved(Exec(s0, es)) {
      DistinctRunIsClean(s0, es);
    }
  }

  // ---- What an overlap costs ----

  /** Pending in the history, but neither waiting nor about to be committed again. */
  ghost predicate Stranded<I>(s: State<I>, h: Hash) {
    && h in s.history && s.history[h] in s.data && s.data[s.history[h]].status == Pending
    && h !in s.mempool.vals && forall x :: x in s.checked ==> x.hash != h
  }

  lemma StrandedIsNotInFlight<I>(s: State<I>, h: Hash)
    requires Inv(s) && Stranded(s, h) && s.inFlight.Some?
    ensures s.history[h] !in s.inFlight.value
  {
  }

  lemma StrandedStep<I>(s: State<I>, e: Event<I>, h: Hash)
    requires Inv(s) && Stranded(s, h) && Enabled(s, e)
    ensures Stranded(Step(s, e), h) && Step(s, e).history[h] == s.history[h]
  {
    InvParts(s);
    InvIsWellFormed(s);
    if e.BundleOk? || e.BundleFail? {
      StrandedIsNotInFlight(s, h);
      RemainingMempool(s);
      FlightKnown(s);
      SettledFacts(s, e);
    }
    hide Settled, Hashes, Inv, WellFormed, MapsAgree, RecordAgrees, BundlesDisjoint, FlightIsPrefix;
  }

  /** A stranded operation is never bundled: it stays pending in the history for ever, and sending it again only
      returns its hash. */
  lemma {:induction false} StrandedForever<I>(s: State<I>, es: seq<Event<I>>, h: Hash)
    requires Inv(s) && Stranded(s, h) && IsRun(s, es)
    ensures Stranded(Exec(s, es), h) && Exec(s, es).history[h] == s.history[h]
    decreases |es|
  {
    if es != [] {
      StrandedStep(s, es[0], h);
      InvStep(s, es[0]);
      StrandedForever(Step(s, es[0]), es[1..], h);
    }
  }

  /** Two overlapping first-time sends of one hash, the second committing while the first is being submitted. */
  function OverlapRun<I>(h: Hash, op: UserOp, first: I, second: I, tx: TxReceipt): seq<Event<I>> {
    [SendCheck(h, op), SendCheck(h, op), SendCommit(h, op, first), BundleStart, SendCommit(h, op, second), BundleOk(tx)]
  }

  /** For any positive bundle size the overlap strands the operation: its first object was bundled, the history holds
      the second one as pending, and the mempool is empty. */
  lemma OverlapStrands<I>(maxBundleSize: int, h: Hash, op: UserOp, first: I, second: I, tx: TxReceipt)
    requires maxBundleSize >= 1 && first != second && Encodable(op)
    ensures IsRun(Init(maxBundleSize), OverlapRun(h, op, first, second, tx))
    ensures var s := Exec(Init(maxBundleSize), OverlapRun(h, op, first, second, tx));
      && Stranded(s, h) && s.history[h] == second && s.mempool.keys == [] && s.finished == [[first]]
      && !PendingIsWaiting(s) && !Conserved(s)
  {
    var s5 := OverlapState(maxBundleSize, h, op, first, second);
    OverlapReaches(maxBundleSize, h, op, first, second, tx);
    OverlapEnds(s5, h, op, first, second, tx);
  }

  /** The state after the second commit. */
  function OverlapState<I>(maxBundleSize: int, h: Hash, op: UserOp, first: I, second: I): State<I> {
    State(maxBundleSize, InsertionMap([h], map[h := second]), map[h := second],
          map[first := NewItem(h, op), second := NewItem(h, op)], multiset{}, Some([first]), [first, second], [])
  }

  lemma OverlapReaches<I>(maxBundleSize: int, h: Hash, op: UserOp, first: I, second: I, tx: TxReceipt)
    requires maxBundleSize >= 1 && first != second && Encodable(op)
    ensures var s5 := OverlapState(maxBundleSize, h, op, first, second);
      && WellFormed(s5)
      && IsRun(Init(maxBundleSize), OverlapRun(h, op, first, second, tx))
      && Exec(Init(maxBundleSize), OverlapRun(h, op, first, second, tx)) == Step(s5, BundleOk(tx))
  {
    hide Step, WellFormed, NewItem, IsRun, Exec, Waiting;
    var one, two := multiset{Send(h, op)}, multiset{Send(h, op), Send(h, op)};
    var s0, s1 := Waiting<I>(maxBundleSize, multiset{}), Waiting<I>(maxBundleSize, one);
    var s2 := Waiting<I>(maxBundleSize, two);
    var s3, s5 := OverlapStart(maxBundleSize, h, op, first), OverlapState(maxBundleSize, h, op, first, second);
    var s4, es := s3.(inFlight := Some([first])), OverlapRun(h, op, first, second, tx);
    NothingWaiting<I>(maxBundleSize);
    CheckWaits<I>(maxBundleSize, multiset{}, h, op);
    CheckWaits<I>(maxBundleSize, one, h, op);
    assert multiset{} + one == one && one + one == two;
    FirstCommit(maxBundleSize, h, op, first);
    OverlapCommits(maxBundleSize, h, op, first, second);
    RunOfSix(s0, es, s1, s2, s3, s4, s5, Step(s5, es[5]));
  }

  /** Sends waiting for their simulation, and nothing else yet. */
  function Waiting<I>(maxBundleSize: int, sends: multiset<Send>): State<I> {
    Init<I>(maxBundleSize).(checked := sends)
  }

  lemma NothingWaiting<I>(maxBundleSize: int)
    ensures Waiting<I>(maxBundleSize, multiset{}) == Init(maxBundleSize)
  {
  }

  lemma CheckWaits<I>(maxBundleSize: int, sends: multiset<Send>, h: Hash, op: UserOp)
    requires Encodable(op)
    ensures var s := Waiting<I>(maxBundleSize, sends);
      && WellFormed(s) && Enabled(s, SendCheck(h, op))
      && Step(s, SendCheck(h, op)) == Waiting(maxBundleSize, sends + multiset{Send(h, op)})
  {
    hide Settled, Finish, Encodable;
  }

  /** The state after the first commit. */
  function OverlapStart<I>(maxBundleSize: int, h: Hash, op: UserOp, first: I): State<I> {
    State(maxBundleSize, InsertionMap([h], map[h := first]), map[h := first], map[first := NewItem(h, op)],
          multiset{Send(h, op)}, None, [first], [])
  }

  lemma FirstCommit<I>(maxBundleSize: int, h: Hash, op: UserOp, first: I)
    ensures var s := Waiting<I>(maxBundleSize, multiset{Send(h, op), Send(h, op)});
      && WellFormed(s) && Enabled(s, SendCommit(h, op, first))
      && Step(s, SendCommit(h, op, first)) == OverlapStart(maxBundleSize, h, op, first)
  {
    hide Settled, Finish, NewItem, Encodable;
  }

  lemma OverlapCommits<I>(maxBundleSize: int, h: Hash, op: UserOp, first: I, second: I)
    requires maxBundleSize >= 1 && first != second
    ensures var s3 := OverlapStart(maxBundleSize, h, op, first);
      var s4 := s3.(inFlight := Some([first]));
      && WellFormed(s3) && WellFormed(s4) && WellFormed(OverlapState(maxBundleSize, h, op, first, second))
      && s4 == Step(s3, BundleStart)
      && Enabled(s4, SendCommit(h, op, second))
      && OverlapState(maxBundleSize, h, op, first, second) == Step(s4, SendCommit(h, op, second))
  {
    hide Settled, Finish, NewItem, Encodable;
    var s3 := OverlapStart(maxBundleSize, h, op, first);
    assert s3.mempool.Valid();
    assert s3.mempool.Values() == [first];
    assert s3.mempool.Values()[..SliceEnd(1, maxBundleSize)] == [first];
  }

  lemma OverlapEnds<I>(s5: State<I>, h: Hash, op: UserOp, first: I, second: I, tx: TxReceipt)
    requires first != second && s5 == OverlapState(s5.maxBundleSize, h, op, first, second)
    ensures WellFormed(s5)
    ensures var s := Step(s5, BundleOk(tx));
      && Stranded(s, h) && s.history[h] == second && s.mempool.keys == [] && s.finished == [[first]]
      && !PendingIsWaiting(s)
  {
    hide MarkIncluded;
    assert FlightIsPrefix(s5) by {
      assert Hashes(s5.data, [first]) == [h];
    }
    RemainingMempool(s5);
    hide Hashes, FlightIsPrefix;
    var s := Step(s5, BundleOk(tx));
    assert s.mempool.keys == [] && s.mempool.vals.Keys == {};
    assert s.finished == [] + [[first]];
    assert s.data[second] == NewItem(h, op);
    assert h in s.history && h !in s.mempool.vals;
  }

  lemma RunOfSix<I>(s0: State<I>, es: seq<Event<I>>, s1: State<I>, s2: State<I>, s3: State<I>, s4: State<I>,
                    s5: State<I>, s6: State<I>)
    requires |es| == 6
    requires WellFormed(s0) && Enabled(s0, es[0]) && s1 == Step(s0, es[0])
    requires WellFormed(s1) && Enabled(s1, es[1]) && s2 == Step(s1, es[1])
    requires WellFormed(s2) && Enabled(s2, es[2]) && s3 == Step(s2, es[2])
    requires WellFormed(s3) && Enabled(s3, es[3]) && s4 == Step(s3, es[3])
    requires WellFormed(s4) && Enabled(s4, es[4]) && s5 == Step(s4, es[4])
    requires WellFormed(s5) && Enabled(s5, es[5]) && s6 == Step(s5, es[5])
    ensures IsRun(s0, es) && Exec(s0, es) == s6
  {
    hide Step, WellFormed, Enabled;
    assert IsRun(s6, es[6..]);
    assert es[5..][1..] == es[6..] && es[4..][1..] == es[5..] && es[3..][1..] == es[4..];
    assert es[2..][1..] == es[3..] && es[1..][1..] == es[2..];
    assert IsRun(s5, es[5..]) && Exec(s5, es[5..]) == s6;
    assert IsRun(s4, es[4..]) && Exec(s4, es[4..]) == s6;
    assert IsRun(s3, es[3..]) && Exec(s3, es[3..]) == s6;
    assert IsRun(s2, es[2..]) && Exec(s2, es[2..]) == s6;
    assert IsRun(s1, es[1..]) && Exec(s1, es[1..]) == s6;
  }
}
