/** What each promise about the queue needs by itself when sends of one hash overlap, and a guard that rules overlaps
    out. */
module BundlerOverlaps {
  import opened Wrappers
  import opened UserOps
  import opened Receipts
  import opened InsertionMap
  import opened BundlerMachine
  import opened BundlerConservation

  // ---- Order and count ----

  /** How many commits of the run take the place of an item still waiting. */
  ghost function Replacements<I>(s: State<I>, es: seq<Event<I>>): nat
    requires IsRun(s, es)
    decreases |es|
  {
    if es == [] then 0 else (if Replaces(s, es[0]) then 1 else 0) + Replacements(Step(s, es[0]), es[1..])
  }

  /** d accepted items are neither in a completed bundle nor waiting. */
  ghost predicate Short<I>(s: State<I>, d: nat) {
    |s.accepted| == |Flatten(s.finished)| + |s.mempool.keys| + d
  }

  lemma ShortStep<I>(s: State<I>, e: Event<I>, d: nat)
    requires Inv(s) && Enabled(s, e) && Short(s, d)
    ensures Short(Step(s, e), d + if Replaces(s, e) then 1 else 0)
  {
    InvIsWellFormed(s);
    hide Inv, Settled, Flatten, Hashes, WellFormed;
    if e.BundleOk? || e.BundleFail? {
      FinishStepKeepsInv(s, e);
      FlattenAppend(s.finished, s.inFlight.value);
    }
  }

  lemma {:induction false} ShortRun<I>(s: State<I>, es: seq<Event<I>>, d: nat)
    requires Inv(s) && IsRun(s, es) && Short(s, d)
    ensures Short(Exec(s, es), d + Replacements(s, es))
    decreases |es|
  {
    hide Inv, Step, Enabled, Short, Replaces;
    if es != [] {
      ShortStep(s, es[0], d);
      InvStep(s, es[0]);
      ShortRun(Step(s, es[0]), es[1..], d + if Replaces(s, es[0]) then 1 else 0);
    }
  }

  lemma {:induction false} QueueRun<I>(s: State<I>, es: seq<Event<I>>)
    requires Inv(s) && Queue(s) && IsRun(s, es) && Replacements(s, es) == 0
    ensures Queue(Exec(s, es))
    decreases |es|
  {
    hide Inv, Step, Enabled, Queue, Replaces;
    if es != [] {
      QueueStep(s, es[0]);
      InvStep(s, es[0]);
      QueueRun(Step(s, es[0]), es[1..]);
    }
  }

  /** Completed bundles, then what waits, are the accepted items in order: at the end of a run this holds if and only
      if no commit replaced an item still waiting. */
  lemma OrderExactly<I>(maxBundleSize: int, es: seq<Event<I>>)
    requires IsRun(Init(maxBundleSize), es)
    ensures var s := Exec(Init(maxBundleSize), es);
      s.mempool.Valid()
      && (Flatten(s.finished) + s.mempool.Values() == s.accepted <==> Replacements(Init(maxBundleSize), es) == 0)
  {
    var s0 := Init<I>(maxBundleSize);
    InitInv<I>(maxBundleSize);
    InvRun(s0, es);
    assert Short(s0, 0) && Queue(s0);
    ShortRun(s0, es, 0);
    if Replacements(s0, es) == 0 {
      QueueRun(s0, es);
    }
  }

  ghost function PendingItems<I>(data: map<I, ItemData>): set<I> {
    set i | i in data && data[i].status == Pending
  }

  ghost function Members<T>(s: seq<T>): set<T> {
    set x | x in s
  }

  lemma {:induction false} DistinctCard<T>(s: seq<T>)
    requires Distinct(s)
    ensures |Members(s)| == |s|
  {
    if s != [] {
      var n := |s| - 1;
      DistinctCard(s[..n]);
      assert Members(s) == Members(s[..n]) + {s[n]};
      assert s[n] !in Members(s[..n]);
    }
  }

  ghost function WithStatus<I>(data: map<I, ItemData>, items: seq<I>, status: Status): set<I>
    requires forall i :: i in items ==> i in data
  {
    set i | i in items && data[i].status == status
  }

  lemma OneMore<I>(data: map<I, ItemData>, rest: seq<I>, last: I, status: Status)
    requires last !in rest && forall i :: i in rest + [last] ==> i in data
    ensures forall i :: i in rest ==> i in data
    ensures |WithStatus(data, rest + [last], status)|
         == |WithStatus(data, rest, status)| + if data[last].status == status then 1 else 0
  {
    assert forall i :: i in rest ==> i in rest + [last];
    assert last in rest + [last];
    assert WithStatus(data, rest + [last], status)
        == WithStatus(data, rest, status) + if data[last].status == status then {last} else {};
  }

  lemma {:induction false} CountIsCard<I>(data: map<I, ItemData>, items: seq<I>, status: Status)
    requires Distinct(items) && forall i :: i in items ==> i in data
    ensures CountStatus(data, items, status) == |WithStatus(data, items, status)|
  {
    if items == [] {
      assert WithStatus(data, items, status) == {};
    } else {
      var rest, last := items[..|items| - 1], items[|items| - 1];
      assert items == rest + [last];
      assert last !in rest;
      OneMore(data, rest, last, status);
      CountIsCard(data, rest, status);
    }
  }

  lemma {:induction false} CountTotal<I>(data: map<I, ItemData>, items: seq<I>)
    requires forall i :: i in items ==> i in data
    ensures CountStatus(data, items, Pending) + CountStatus(data, items, Included) + CountStatus(data, items, Failed)
         == |items|
  {
    if items != [] {
      assert forall i :: i in items[..|items| - 1] ==> i in items;
      assert items[|items| - 1] in items;
      CountTotal(data, items[..|items| - 1]);
    }
  }

  lemma CountPending<I>(s: State<I>)
    requires RecordAgrees(s)
    ensures forall i :: i in s.accepted ==> i in s.data
    ensures CountStatus(s.data, s.accepted, Pending) == |PendingItems(s.data)|
  {
    forall i | i in s.accepted ensures i in s.data {
      assert i in (set x | x in s.accepted);
    }
    CountIsCard(s.data, s.accepted, Pending);
    assert PendingItems(s.data) == WithStatus(s.data, s.accepted, Pending);
  }

  lemma FewerPending<I>(data: map<I, ItemData>, after: map<I, ItemData>, items: seq<I>)
    requires after.Keys == data.Keys && Distinct(items)
    requires forall i :: i in data && i !in items ==> after[i] == data[i]
    requires forall i :: i in items ==> i in data && data[i].status == Pending && after[i].status != Pending
    ensures |PendingItems(after)| == |PendingItems(data)| - |items|
  {
    DistinctCard(items);
    hide Distinct;
    assert Members(items) <= PendingItems(data);
    assert PendingItems(after) == PendingItems(data) - Members(items);
  }

  lemma SettledPending<I>(s: State<I>, e: Event<I>)
    requires Inv(s) && s.inFlight.Some? && (e.BundleOk? || e.BundleFail?)
    requires forall j :: 0 <= j < |s.inFlight.value| ==> s.inFlight.value[j] in s.data
    ensures |PendingItems(Settled(s, e))| == |PendingItems(s.data)| - |s.inFlight.value|
  {
    InvParts(s);
    hide Inv, Settled, Distinct, PendingItems, Hashes, MapsAgree, RecordAgrees, BundlesDisjoint, FlightIsPrefix;
    FlightIsDistinct(s);
    FlightIsPending(s);
    SettledFacts(s, e);
    FewerPending(s.data, Settled(s, e), s.inFlight.value);
  }

  /** d pending items are not what the mempool holds under their hash. */
  ghost predicate Lost<I>(s: State<I>, d: nat) {
    |PendingItems(s.data)| == |s.mempool.keys| + d
  }

  lemma OneMorePending<I>(data: map<I, ItemData>, item: I, d: ItemData)
    requires item !in data && d.status == Pending
    ensures |PendingItems(data[item := d])| == |PendingItems(data)| + 1
  {
    assert PendingItems(data[item := d]) == PendingItems(data) + {item};
  }

  lemma LostStep<I>(s: State<I>, e: Event<I>, d: nat)
    requires Inv(s) && Enabled(s, e) && Lost(s, d)
    ensures Lost(Step(s, e), d + if Replaces(s, e) then 1 else 0)
  {
    InvParts(s);
    InvIsWellFormed(s);
    hide Inv, Settled, MapsAgree, RecordAgrees, BundlesDisjoint, FlightIsPrefix, Hashes, WellFormed, PendingItems;
    if e.BundleOk? || e.BundleFail? {
      FlightKnown(s);
      FinishStepKeepsInv(s, e);
      SettledPending(s, e);
    } else if e.SendCommit? {
      OneMorePending(s.data, e.item, NewItem(e.hash, e.op));
    }
  }

  lemma {:induction false} LostRun<I>(s: State<I>, es: seq<Event<I>>, d: nat)
    requires Inv(s) && IsRun(s, es) && Lost(s, d)
    ensures Lost(Exec(s, es), d + Replacements(s, es))
    decreases |es|
  {
    hide Inv, Step, Enabled, Lost, Replaces;
    if es != [] {
      LostStep(s, es[0], d);
      InvStep(s, es[0]);
      LostRun(Step(s, es[0]), es[1..], d + if Replaces(s, es[0]) then 1 else 0);
    }
  }

  lemma CountByLost<I>(s: State<I>, d: nat)
    requires RecordAgrees(s) && Lost(s, d)
    ensures forall i :: i in s.accepted ==> i in s.data
    ensures |s.accepted| == CountStatus(s.data, s.accepted, Included) + CountStatus(s.data, s.accepted, Failed)
                            + |s.mempool.keys| + d
  {
    CountPending(s);
    hide RecordAgrees, CountStatus, PendingItems;
    CountTotal(s.data, s.accepted);
  }

  /** Accepted = included + failed + waiting, at the end of a run, if and only if no commit replaced an item still
      waiting. */
  lemma CountExactly<I>(maxBundleSize: int, es: seq<Event<I>>)
    requires IsRun(Init(maxBundleSize), es)
    ensures var s := Exec(Init(maxBundleSize), es);
      (forall i :: i in s.accepted ==> i in s.data)
      && (|s.accepted| == CountStatus(s.data, s.accepted, Included) + CountStatus(s.data, s.accepted, Failed)
                          + |s.mempool.keys|
          <==> Replacements(Init(maxBundleSize), es) == 0)
  {
    var s0 := Init<I>(maxBundleSize);
    InitInv<I>(maxBundleSize);
    assert PendingItems(s0.data) == {};
    assert Lost(s0, 0);
    InvRun(s0, es);
    hide MapsAgree, FlightIsPrefix, RecordAgrees, BundlesDisjoint, Lost, CountStatus, IsRun, Exec, Replacements;
    LostRun(s0, es, 0);
    CountByLost(Exec(s0, es), 0 + Replacements(s0, es));
  }

  // ---- Pending in the history exactly while waiting ----

  /** A commit of a hash that is being submitted. */
  ghost predicate HitsFlight<I>(s: State<I>, e: Event<I>) {
    e.SendCommit? && s.inFlight.Some? && |s.inFlight.value| <= |s.mempool.keys|
    && e.hash in s.mempool.keys[..|s.inFlight.value|]
  }

  ghost predicate Ends<I>(e: Event<I>) {
    e.BundleOk? || e.BundleFail?
  }

  /** Some bundle of the run ends after a commit has hit it; `hit` tells whether the one now in flight has been hit. */
  ghost predicate HitBundleEnds<I>(s: State<I>, es: seq<Event<I>>, hit: bool)
    requires IsRun(s, es)
    decreases |es|
  {
    es != [] && ((Ends(es[0]) && hit)
                 || HitBundleEnds(Step(s, es[0]), es[1..], !Ends(es[0]) && (hit || HitsFlight(s, es[0]))))
  }

  /** In every state of the run an operation is pending in the history exactly while it waits. */
  ghost predicate AlwaysWaiting<I>(s: State<I>, es: seq<Event<I>>)
    requires IsRun(s, es)
    decreases |es|
  {
    PendingIsWaiting(s) && (es != [] ==> AlwaysWaiting(Step(s, es[0]), es[1..]))
  }

  /** The objects in flight are still the ones that the mempool holds. */
  ghost predicate FlightIsCurrent<I>(s: State<I>) {
    s.inFlight.Some? ==>
      && |s.inFlight.value| <= |s.mempool.keys|
      && forall j :: 0 <= j < |s.inFlight.value| ==>
           s.mempool.keys[j] in s.mempool.vals && s.mempool.vals[s.mempool.keys[j]] == s.inFlight.value[j]
  }

  lemma CommitWaiting<I>(s: State<I>, e: Event<I>)
    requires Inv(s) && WellFormed(s) && Enabled(s, e) && e.SendCommit? && PendingIsWaiting(s)
    ensures PendingIsWaiting(Step(s, e))
  {
    hide Inv, WellFormed, Enabled, Step;
    CommitEffect(s, e.hash, e.op, e.item);
  }

  lemma CommitCurrent<I>(s: State<I>, e: Event<I>)
    requires MapsAgree(s) && FlightIsPrefix(s) && WellFormed(s) && Enabled(s, e) && e.SendCommit?
    ensures FlightIsCurrent(Step(s, e)) <==> FlightIsCurrent(s) && !HitsFlight(s, e)
  {
    hide Hashes, Distinct;
    if s.inFlight.Some? {
      var s', items := Step(s, e), s.inFlight.value;
      assert forall j :: 0 <= j < |items| ==> s'.mempool.keys[j] == s.mempool.keys[j] == s.mempool.keys[..|items|][j];
      assert forall j :: 0 <= j < |items| ==> s.mempool.keys[j] in s.mempool.vals;
      if HitsFlight(s, e) {
        var j :| 0 <= j < |items| && s.mempool.keys[..|items|][j] == e.hash;
        assert s'.mempool.vals[s'.mempool.keys[j]] == e.item && items[j] in s.data;
        assert !FlightIsCurrent(s');
      }
    }
  }

  lemma QuietSend<I>(s: State<I>, e: Event<I>)
    requires WellFormed(s) && Enabled(s, e) && (e.SendCheck? || e.SendReject?)
    ensures var s' := Step(s, e); s'.history == s.history && s'.data == s.data && s'.mempool == s.mempool
    ensures Step(s, e).inFlight == s.inFlight
  {
  }

  lemma StartIsCurrent<I>(s: State<I>)
    requires MapsAgree(s) && WellFormed(s) && (s.inFlight.Some? ==> |s.inFlight.value| <= |s.mempool.keys|)
    ensures var s' := Step(s, BundleStart); s'.history == s.history && s'.data == s.data && s'.mempool == s.mempool
    ensures FlightIsCurrent(Step(s, BundleStart)) <==> FlightIsCurrent(s)
  {
    hide Hashes, Distinct;
    assert forall j :: 0 <= j < |s.mempool.keys| ==> s.mempool.keys[j] in s.mempool.vals;
  }

  lemma OtherStepWaiting<I>(s: State<I>, e: Event<I>)
    requires Inv(s) && Enabled(s, e) && !Ends(e) && PendingIsWaiting(s)
    ensures PendingIsWaiting(Step(s, e))
    ensures FlightIsCurrent(Step(s, e)) <==> FlightIsCurrent(s) && !HitsFlight(s, e)
  {
    InvParts(s);
    InvIsWellFormed(s);
    if e.SendCommit? {
      hide *;
      CommitWaiting(s, e);
      CommitCurrent(s, e);
    } else if e.BundleStart? {
      hide Inv, WellFormed, MapsAgree, FlightIsPrefix, RecordAgrees, BundlesDisjoint, PendingIsWaiting, FlightIsCurrent,
           Step;
      StartIsCurrent(s);
      SamePending(s, Step(s, e));
    } else {
      hide Inv, WellFormed, MapsAgree, FlightIsPrefix, RecordAgrees, BundlesDisjoint, PendingIsWaiting, Step;
      QuietSend(s, e);
      SamePending(s, Step(s, e));
    }
  }

  lemma SamePending<I>(s: State<I>, s': State<I>)
    requires s'.history == s.history && s'.data == s.data && s'.mempool == s.mempool
    ensures PendingIsWaiting(s') <==> PendingIsWaiting(s)
  {
  }

  /** A key stands before the end of the flight, behind it, or nowhere. */
  lemma WhereHashIs<I>(s: State<I>, h: Hash)
    requires s.mempool.Valid() && s.inFlight.Some? && |s.inFlight.value| <= |s.mempool.keys|
    ensures var n := |s.inFlight.value|;
      && (h in s.mempool.vals <==> h in s.mempool.keys[..n] || h in s.mempool.keys[n..])
      && !(h in s.mempool.keys[..n] && h in s.mempool.keys[n..])
  {
    var n := |s.inFlight.value|;
    assert s.mempool.keys == s.mempool.keys[..n] + s.mempool.keys[n..];
  }

  lemma StillPending<I>(s: State<I>, e: Event<I>, i: I)
    requires FlightIsPrefix(s) && s.inFlight.Some? && Ends(e) && i in s.data
    requires forall j :: 0 <= j < |s.inFlight.value| ==> s.inFlight.value[j] in s.data
    ensures i in Settled(s, e)
    ensures Settled(s, e)[i].status == Pending <==> s.data[i].status == Pending && i !in s.inFlight.value
  {
    SettledFacts(s, e);
  }

  /** What a bundle's end leaves of one hash. */
  lemma EndOf<I>(s: State<I>, e: Event<I>, h: Hash)
    requires Inv(s) && Enabled(s, e) && Ends(e) && h in s.history
    ensures var s', n := Step(s, e), |s.inFlight.value|;
      && n <= |s.mempool.keys| && s'.history == s.history && s.history[h] in s.data && s.history[h] in s'.data
      && (h in s'.mempool.vals <==> h in s.mempool.keys[n..])
      && (s'.data[s.history[h]].status == Pending
          <==> s.data[s.history[h]].status == Pending && s.history[h] !in s.inFlight.value)
  {
    InvParts(s);
    InvIsWellFormed(s);
    FlightKnown(s);
    RemainingMempool(s);
    hide Inv, Settled, Hashes, FlightIsPrefix, RecordAgrees, BundlesDisjoint, WellFormed;
    StillPending(s, e, s.history[h]);
    var s', n := Step(s, e), |s.inFlight.value|;
    assert s'.mempool.vals.Keys == set k | k in s'.mempool.keys;
    assert h in s'.mempool.vals <==> h in s'.mempool.keys;
  }

  lemma EndWaiting<I>(s: State<I>, e: Event<I>)
    requires Inv(s) && Enabled(s, e) && Ends(e) && PendingIsWaiting(s) && FlightIsCurrent(s)
    ensures PendingIsWaiting(Step(s, e))
  {
    var s' := Step(s, e);
    forall h | h in s'.history
      ensures s'.history[h] in s'.data && (s'.data[s'.history[h]].status == Pending <==> h in s'.mempool.vals)
    {
      assert h in s.history by {
        HistoryStays(s, e);
      }
      EndWaitingAt(s, e, h);
    }
  }

  lemma HistoryStays<I>(s: State<I>, e: Event<I>)
    requires WellFormed(s) && Enabled(s, e) && Ends(e)
    ensures Step(s, e).history == s.history
  {
  }

  lemma EndWaitingAt<I>(s: State<I>, e: Event<I>, h: Hash)
    requires Inv(s) && Enabled(s, e) && Ends(e) && PendingIsWaiting(s) && FlightIsCurrent(s) && h in s.history
    ensures var s' := Step(s, e);
      s'.history == s.history && s'.history[h] in s'.data
      && (s'.data[s'.history[h]].status == Pending <==> h in s'.mempool.vals)
  {
    var n, keys := |s.inFlight.value|, s.mempool.keys;
    EndOf(s, e, h);
    InvParts(s);
    WhereHashIs(s, h);
    if h in keys[n..] {
      RemainderIsUntouched(s, h);
    }
    hide Inv, Step, Hashes, FlightIsPrefix, RecordAgrees, BundlesDisjoint, Distinct;
    if h in keys[..n] {
      var j :| 0 <= j < n && keys[..n][j] == h;
      assert keys[j] == h && s.mempool.vals[h] == s.inFlight.value[j];
      assert s.history[h] in s.inFlight.value;
    }
  }

  lemma FlightHashes<I>(s: State<I>)
    requires FlightIsPrefix(s) && s.inFlight.Some?
    ensures |s.inFlight.value| <= |s.mempool.keys|
    ensures forall j :: 0 <= j < |s.inFlight.value| ==>
              s.inFlight.value[j] in s.data && s.data[s.inFlight.value[j]].hash == s.mempool.keys[j]
  {
    var items := s.inFlight.value;
    forall j | 0 <= j < |items| ensures s.data[items[j]].hash == s.mempool.keys[j] {
      assert Hashes(s.data, items)[j] == s.mempool.keys[..|items|][j];
    }
  }

  /** A flight that is not current any more has an item whose hash the history holds by another object. */
  lemma Overtaken<I>(s: State<I>) returns (h: Hash)
    requires Inv(s) && s.inFlight.Some? && !FlightIsCurrent(s)
    ensures |s.inFlight.value| <= |s.mempool.keys|
    ensures h in s.mempool.keys[..|s.inFlight.value|] && h in s.history && s.history[h] !in s.inFlight.value
    ensures s.history[h] in s.data && s.data[s.history[h]].status == Pending
  {
    InvParts(s);
    FlightHashes(s);
    hide Inv, FlightIsPrefix, RecordAgrees, BundlesDisjoint, Hashes;
    var items, keys := s.inFlight.value, s.mempool.keys;
    assert forall j :: 0 <= j < |keys| ==> keys[j] in s.mempool.vals;
    var j :| 0 <= j < |items| && s.mempool.vals[keys[j]] != items[j];
    h := keys[j];
    assert keys[..|items|][j] == h;
    forall i | 0 <= i < |items| ensures items[i] != s.history[h] {
      assert s.data[items[i]].hash == keys[i] && s.data[s.history[h]].hash == h;
    }
  }

  lemma EndStrands<I>(s: State<I>, e: Event<I>)
    requires Inv(s) && Enabled(s, e) && Ends(e) && !FlightIsCurrent(s)
    ensures !PendingIsWaiting(Step(s, e))
  {
    InvParts(s);
    var h := Overtaken(s);
    EndOf(s, e, h);
    WhereHashIs(s, h);
  }

  lemma {:induction false} AlwaysWaitingExactly<I>(s: State<I>, es: seq<Event<I>>, hit: bool)
    requires Inv(s) && IsRun(s, es) && PendingIsWaiting(s) && (hit <==> !FlightIsCurrent(s))
    ensures AlwaysWaiting(s, es) <==> !HitBundleEnds(s, es, hit)
    decreases |es|
  {
    hide Inv, Step, Enabled, PendingIsWaiting, FlightIsCurrent, HitsFlight;
    if es != [] {
      var e, s' := es[0], Step(s, es[0]);
      InvStep(s, e);
      if !Ends(e) {
        OtherStepWaiting(s, e);
        AlwaysWaitingExactly(s', es[1..], hit || HitsFlight(s, e));
      } else if hit {
        EndStrands(s, e);
      } else {
        EndWaiting(s, e);
        NothingInFlight(s, e);
        AlwaysWaitingExactly(s', es[1..], false);
      }
    }
  }

  lemma NothingInFlight<I>(s: State<I>, e: Event<I>)
    requires WellFormed(s) && Enabled(s, e) && Ends(e)
    ensures FlightIsCurrent(Step(s, e))
  {
  }

  /** An operation is pending in the history exactly while it waits, in every state of a run, if and only if no bundle
      ends after a commit has hit a hash in it. */
  lemma WaitingExactly<I>(maxBundleSize: int, es: seq<Event<I>>)
    requires IsRun(Init(maxBundleSize), es)
    ensures AlwaysWaiting(Init(maxBundleSize), es) <==> !HitBundleEnds(Init(maxBundleSize), es, false)
  {
    InitInv<I>(maxBundleSize);
    assert PendingIsWaiting(Init<I>(maxBundleSize)) && FlightIsCurrent(Init<I>(maxBundleSize));
    AlwaysWaitingExactly(Init(maxBundleSize), es, false);
  }

  // ---- A guard ----

  /** No send of a hash comes to its duplicate test while another send of it waits for its simulation. */
  ghost predicate NoOverlap<I>(s: State<I>, es: seq<Event<I>>)
    requires IsRun(s, es)
    decreases |es|
  {
    es == [] || ((es[0].SendCheck? ==> forall x :: x in s.checked ==> x.hash != es[0].hash)
                 && NoOverlap(Step(s, es[0]), es[1..]))
  }

  /** Every hash waits once at most, and is new. */
  ghost predicate AllNew<I>(checked: multiset<Send>, history: map<Hash, I>) {
    && (forall x :: x in checked ==> checked[x] == 1 && x.hash !in history)
    && (forall x, y :: x in checked && y in checked && x.hash == y.hash ==> x == y)
  }

  ghost predicate ChecksAreNew<I>(s: State<I>) {
    AllNew(s.checked, s.history)
  }

  lemma OneMoreIsNew<I>(checked: multiset<Send>, history: map<Hash, I>, send: Send)
    requires AllNew(checked, history) && send.hash !in history
    requires forall x :: x in checked ==> x.hash != send.hash
    ensures AllNew(checked + multiset{send}, history)
  {
    var more := checked + multiset{send};
    forall x | x in more ensures more[x] == 1 && x.hash !in history {
      assert x == send || x in checked;
    }
    forall x, y | x in more && y in more && x.hash == y.hash ensures x == y {
      assert (x == send || x in checked) && (y == send || y in checked);
    }
  }

  lemma OneLessIsNew<I>(checked: multiset<Send>, history: map<Hash, I>, send: Send, item: I)
    requires AllNew(checked, history) && send in checked
    ensures AllNew(checked - multiset{send}, history) && AllNew(checked - multiset{send}, history[send.hash := item])
    ensures send.hash !in history
  {
    var less := checked - multiset{send};
    forall x | x in less ensures x in checked && less[x] == 1 && x.hash != send.hash {
      assert x != send;
    }
  }

  lemma ChecksStep<I>(s: State<I>, e: Event<I>)
    requires WellFormed(s) && Enabled(s, e) && ChecksAreNew(s)
    requires e.SendCheck? ==> forall x :: x in s.checked ==> x.hash != e.hash
    ensures ChecksAreNew(Step(s, e)) && !(e.SendCommit? && e.hash in s.history)
  {
    hide WellFormed, Settled, Hashes, Encodable, AllNew;
    match e
    case SendCheck(hash, op) =>
      if hash !in s.history {
        OneMoreIsNew(s.checked, s.history, Send(hash, op));
      }
    case SendReject(hash, op) => StillNew(s.checked, s.history, Send(hash, op));
    case SendCommit(hash, op, item) => OneLessIsNew(s.checked, s.history, Send(hash, op), item);
    case BundleStart =>
    case BundleOk(_) =>
    case BundleFail(_, _) =>
  }

  lemma StillNew<I>(checked: multiset<Send>, history: map<Hash, I>, send: Send)
    requires AllNew(checked, history)
    ensures AllNew(checked - multiset{send}, history)
  {
    var less := checked - multiset{send};
    forall x | x in less ensures x in checked && less[x] == 1 {
    }
  }

  /** Without overlapping sends every run is clean, so that all of the above holds. (Not the other way round: an
      overlapping send may be rejected.) */
  lemma {:induction false} NoOverlapIsClean<I>(s: State<I>, es: seq<Event<I>>)
    requires IsRun(s, es) && ChecksAreNew(s) && NoOverlap(s, es)
    ensures CleanRun(s, es)
    decreases |es|
  {
    hide Step, Enabled, ChecksAreNew, WellFormed;
    if es != [] {
      ChecksStep(s, es[0]);
      NoOverlapIsClean(Step(s, es[0]), es[1..]);
    }
  }

  lemma NoOverlapConserves<I>(maxBundleSize: int, es: seq<Event<I>>)
    requires IsRun(Init(maxBundleSize), es) && NoOverlap(Init(maxBundleSize), es)
    ensures Conserved(Exec(Init(maxBundleSize), es))
  {
    NoOverlapIsClean(Init(maxBundleSize), es);
    ConservedExactlyOnCleanRuns(maxBundleSize, es);
  }
}
