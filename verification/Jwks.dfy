/** The verifier's key set: fetched at most once at a time, kept for ten minutes, refetched early for an unknown key
    id. */
module Jwks {
  import opened Wrappers

  type Kid = string
  type Key = string

  /** An entry of the published set: its id, "" where missing, and its key, None where it cannot be imported. */
  datatype Jwk = Jwk(kid: Kid, key: Option<Key>)

  const JWKS_MIN_REFETCH_MS := 30_000
  const JWKS_TTL_MS := 600_000

  // ---- Reading a response ----

  /** The importable keys by their ids; of two with one id the later. */
  function KeysIn(jwks: seq<Jwk>): map<Kid, Key> {
    if jwks == [] then map[]
    else
      var j := jwks[|jwks| - 1];
      var before := KeysIn(jwks[..|jwks| - 1]);
      if j.kid == "" || j.key.None? then before else before[j.kid := j.key.value]
  }

  /** The loop over `body.keys`. */
  method CollectKeys(jwks: seq<Jwk>) returns (next: map<Kid, Key>)
    ensures next == KeysIn(jwks)
  {
    next := map[];
    for i := 0 to |jwks|
      invariant next == KeysIn(jwks[..i])
    {
      assert jwks[..i + 1][..i] == jwks[..i];
      if jwks[i].kid == "" || jwks[i].key.None? {
        continue;
      }
      next := next[jwks[i].kid := jwks[i].key.value];
    }
    assert jwks[..|jwks|] == jwks;
  }

  ghost predicate Offers(jwks: seq<Jwk>, k: nat, kid: Kid) {
    k < |jwks| && jwks[k].kid == kid && kid != "" && jwks[k].key.Some?
  }

  /** A bad entry costs only itself: a key id is known exactly if some entry offers it, and its key is the last such
      one's. */
  lemma {:induction false} KeysInExact(jwks: seq<Jwk>, kid: Kid)
    ensures kid in KeysIn(jwks) <==> exists k: nat :: Offers(jwks, k, kid)
    ensures forall k: nat :: Offers(jwks, k, kid) && (forall m: nat :: k < m < |jwks| ==> !Offers(jwks, m, kid)) ==>
              kid in KeysIn(jwks) && KeysIn(jwks)[kid] == jwks[k].key.value
  {
    if jwks != [] {
      var n := |jwks| - 1;
      var init := jwks[..n];
      KeysInExact(init, kid);
      assert forall k: nat :: k < n ==> (Offers(jwks, k, kid) <==> Offers(init, k, kid));
      assert kid in KeysIn(jwks) <==> Offers(jwks, n, kid) || kid in KeysIn(init);
      forall k: nat | Offers(jwks, k, kid) && (forall m: nat :: k < m < |jwks| ==> !Offers(jwks, m, kid))
        ensures kid in KeysIn(jwks) && KeysIn(jwks)[kid] == jwks[k].key.value
      {
        if k < n {
          assert !Offers(jwks, n, kid) && Offers(init, k, kid);
          assert forall m: nat :: k < m < |init| ==> !Offers(init, m, kid);
        }
      }
    }
  }

  /** A response is of use exactly if some entry of it offers a key. */
  lemma UsableExact(response: Option<seq<Jwk>>)
    ensures Usable(response) <==> response.Some? && exists k: nat, kid :: Offers(response.value, k, kid)
  {
    hide KeysIn, Offers;
    if response.Some? {
      var keys := KeysIn(response.value);
      if keys != map[] {
        var kid :| kid in keys;
        KeysInExact(response.value, kid);
      }
      forall k: nat, kid | Offers(response.value, k, kid) ensures kid in keys {
        KeysInExact(response.value, kid);
      }
    }
  }

  /** What has happened to requests so far, with the clock at each point. */
  datatype Entry = Started(at: int) | Loaded(at: int) | Failed(at: int)

  /** A `keyFor` call that awaits the load with that number: the first time, or after finding its key id unknown in a
      set old enough. */
  datatype Call = Call(kid: Kid, second: bool, load: int)

  /** The closure's variables `keys`, `fetchedAt` and `inFlight`; the requests under way; the loads that ended, and
      whether each brought keys; how many of them still have their `finally` to run; the calls waiting; the
      history. */
  datatype State = State(keys: map<Kid, Key>, fetchedAt: int, inFlight: bool, running: nat, results: seq<bool>,
                         ended: nat, waiting: multiset<Call>, log: seq<Entry>)

  const INITIAL := State(map[], 0, false, 0, [], 0, multiset{}, [])

  /** One stretch between awaits, with the clock at that point. `Arrive` ends a request: with the published entries or
      None where there is no such list; a response without one usable key counts as failed. `Resume` continues a call
      after the load it awaited. */
  datatype Event =
    | Enter(at: int, kid: Kid)
    | Arrive(at: int, response: Option<seq<Jwk>>)
    | Finally(at: int)
    | Resume(at: int, call: Call)

  /** How a call ends, or that it does not end yet. */
  datatype Answer = Found(key: Key) | Unknown | NoKeys | Waits

  /** The number of the load in flight, or of the next one; all loads before it are over, `finally` included. */
  function Flight(s: State): int {
    |s.results| - s.ended
  }

  /** `loadJwks` joins the load in flight or starts one. */
  function LoadOrJoin(s: State, at: int, kid: Kid, second: bool): State {
    var s' := s.(waiting := s.waiting + multiset{Call(kid, second, Flight(s))});
    if s.inFlight then s' else s'.(inFlight := true, running := s.running + 1, log := s.log + [Started(at)])
  }

  predicate OldEnough(s: State, at: int) {
    at - s.fetchedAt > JWKS_MIN_REFETCH_MS
  }

  predicate Usable(response: Option<seq<Jwk>>) {
    response.Some? && KeysIn(response.value) != map[]
  }

  /** The second half of `keyFor`: look the key up, and load once more if it is unknown and the set is old enough. */
  function LookUp(s: State, at: int, kid: Kid): (Answer, State) {
    if kid in s.keys then (Found(s.keys[kid]), s)
    else if OldEnough(s, at) then (Waits, LoadOrJoin(s, at, kid, true))
    else (Unknown, s)
  }

  predicate Enabled(s: State, e: Event) {
    match e
    case Enter(_, _) => true
    case Arrive(_, _) => s.running > 0
    case Finally(_) => s.ended > 0
    case Resume(_, call) => call in s.waiting && 0 <= call.load < Flight(s)
  }

  function Advance(s: State, e: Event): (Answer, State)
    requires Enabled(s, e)
  {
    match e
    case Enter(at, kid) =>
      if s.keys == map[] || at - s.fetchedAt > JWKS_TTL_MS then (Waits, LoadOrJoin(s, at, kid, false))
      else LookUp(s, at, kid)
    case Arrive(at, response) =>
      var s' := s.(running := s.running - 1, ended := s.ended + 1, results := s.results + [Usable(response)]);
      if Usable(response)
      then (Waits, s'.(keys := KeysIn(response.value), fetchedAt := at, log := s.log + [Loaded(at)]))
      else (Waits, s'.(log := s.log + [Failed(at)]))
    case Finally(at) => (Waits, s.(inFlight := false, ended := s.ended - 1))
    case Resume(at, call) =>
      var s' := s.(waiting := s.waiting - multiset{call});
      if !s.results[call.load] then (NoKeys, s')
      else if !call.second then LookUp(s', at, call.kid)
      else if call.kid in s.keys then (Found(s.keys[call.kid]), s')
      else (Unknown, s')
  }

  function Step(s: State, e: Event): State
    requires Enabled(s, e)
  {
    Advance(s, e).1
  }

  ghost predicate IsRun(es: seq<Event>, ss: seq<State>) {
    && |ss| == |es| + 1 && ss[0] == INITIAL
    && (forall k :: 0 <= k < |es| ==> Enabled(ss[k], es[k]) && ss[k + 1] == Step(ss[k], es[k]))
    && (forall j, k :: 0 <= j < k < |es| ==> es[j].at <= es[k].at)
  }

  // ---- Invariants of every run ----

  /** Requests never overlap: between any two starts, one ends. */
  ghost predicate OneAtATime(log: seq<Entry>) {
    forall i, j :: 0 <= i < j < |log| && log[i].Started? && log[j].Started? ==>
      exists m :: i < m < j && !log[m].Started?
  }

  /** No request starts within 30 seconds after a success. */
  ghost predicate StartsAreSpaced(log: seq<Entry>) {
    forall i, j :: 0 <= i < j < |log| && log[i].Loaded? && log[j].Started? ==>
      log[j].at - log[i].at > 30_000
  }

  ghost predicate LoadsAreSpaced(log: seq<Entry>) {
    forall i, j :: 0 <= i < j < |log| && log[i].Loaded? && log[j].Loaded? ==>
      log[j].at - log[i].at > 30_000
  }

  ghost predicate Ordered(log: seq<Entry>, now: int) {
    && (forall i :: 0 <= i < |log| ==> log[i].at <= now)
    && (forall i, j :: 0 <= i < j < |log| ==> log[i].at <= log[j].at)
  }

  /** Keys are there exactly after a success, and `fetchedAt` is the time of the latest one. */
  ghost predicate Dated(s: State) {
    && (s.keys == map[] ==> forall i :: 0 <= i < |s.log| ==> !s.log[i].Loaded?)
    && (forall i :: 0 <= i < |s.log| && s.log[i].Loaded? ==> s.log[i].at <= s.fetchedAt)
  }

  ghost predicate Inv(s: State, now: int) {
    && s.running + s.ended == (if s.inFlight then 1 else 0)
    && (s.running == 0 ==> s.log == [] || !s.log[|s.log| - 1].Started?)
    && (s.running > 0 ==> s.log != [] && s.log[|s.log| - 1].Started?)
    && Ordered(s.log, now) && Dated(s)
    && OneAtATime(s.log) && StartsAreSpaced(s.log) && LoadsAreSpaced(s.log)
  }

  lemma AppendKeepsOneAtATime(log: seq<Entry>, e: Entry)
    requires OneAtATime(log) && (e.Started? ==> log == [] || !log[|log| - 1].Started?)
    ensures OneAtATime(log + [e])
  {
    var log' := log + [e];
    forall i, j | 0 <= i < j < |log'| && log'[i].Started? && log'[j].Started?
      ensures exists m :: i < m < j && !log'[m].Started?
    {
      if j < |log| {
        var m :| i < m < j && !log[m].Started?;
        assert !log'[m].Started?;
      } else {
        assert !log'[|log| - 1].Started?;
      }
    }
  }

  /** A load is only begun with no key ever fetched or with the latest fetch long enough ago. */
  lemma LoadKeeps(s: State, now: int, at: int, kid: Kid, second: bool)
    requires Inv(s, now) && now <= at
    requires s.keys == map[] || OldEnough(s, at)
    ensures Inv(LoadOrJoin(s, at, kid, second), at)
  {
    hide OneAtATime;
    if !s.inFlight {
      AppendKeepsOneAtATime(s.log, Started(at));
    }
  }

  lemma LookUpKeeps(s: State, now: int, at: int, kid: Kid)
    requires Inv(s, now) && now <= at
    ensures Inv(LookUp(s, at, kid).1, at)
  {
    if kid !in s.keys && OldEnough(s, at) {
      LoadKeeps(s, now, at, kid, true);
    }
  }

  lemma ArriveKeeps(s: State, now: int, e: Event)
    requires Inv(s, now) && e.Arrive? && Enabled(s, e) && now <= e.at
    ensures Inv(Step(s, e), e.at)
  {
    hide OneAtATime;
    var s' := Step(s, e);
    AppendKeepsOneAtATime(s.log, s'.log[|s.log|]);
    assert s'.log == s.log + [s'.log[|s.log|]];
    forall i, j | 0 <= i < j < |s'.log| && s'.log[i].Loaded? && s'.log[j].Loaded?
      ensures s'.log[j].at - s'.log[i].at > 30_000
    {
      if j == |s.log| {
        var last := |s.log| - 1;
        assert s.log[last].Started? && i < last && s.log[last].at <= now;
      }
    }
  }

  lemma StepKeeps(s: State, now: int, e: Event)
    requires Inv(s, now) && Enabled(s, e) && now <= e.at
    ensures Inv(Step(s, e), e.at)
  {
    hide OneAtATime, StartsAreSpaced, LoadsAreSpaced;
    match e
    case Enter(at, kid) =>
      if s.keys == map[] || at - s.fetchedAt > 600_000 {
        LoadKeeps(s, now, at, kid, false);
      } else {
        LookUpKeeps(s, now, at, kid);
      }
    case Arrive(_, _) => ArriveKeeps(s, now, e);
    case Finally(_) =>
    case Resume(at, call) =>
      var s' := s.(waiting := s.waiting - multiset{call});
      assert Inv(s', now);
      if s.results[call.load] && !call.second {
        LookUpKeeps(s', now, at, call.kid);
      }
  }

  /** The clock before event k. */
  function ClockAt(es: seq<Event>, k: nat): int
    requires k <= |es|
  {
    if k > 0 then es[k - 1].at else if es == [] then 0 else es[0].at
  }

  lemma {:induction false} RunKeeps(es: seq<Event>, ss: seq<State>, k: nat)
    requires IsRun(es, ss) && k < |ss|
    ensures Inv(ss[k], ClockAt(es, k))
    decreases k
  {
    if k > 0 {
      RunKeeps(es, ss, k - 1);
      StepKeeps(ss[k - 1], ClockAt(es, k - 1), es[k - 1]);
    }
  }

  /** Whatever key ids arrive and however calls interleave: one request at a time, none within 30 seconds after a
      success, and successes more than 30 seconds apart. */
  lemma RequestsAreLimited(es: seq<Event>, ss: seq<State>, k: nat)
    requires IsRun(es, ss) && k < |ss|
    ensures ss[k].running <= 1
    ensures OneAtATime(ss[k].log) && StartsAreSpaced(ss[k].log) && LoadsAreSpaced(ss[k].log)
  {
    RunKeeps(es, ss, k);
  }

  // ---- What a caller gets ----

  /** How a call comes out of one of its stretches, for each way and in both directions: `current` says that the set
      need not be loaded first, `last` that this call may not load again. */
  lemma AnswerExact(s: State, e: Event)
    requires Enabled(s, e) && (e.Enter? || e.Resume?)
    ensures var (kid, a) := (if e.Enter? then e.kid else e.call.kid, Advance(s, e).0);
      var failed := e.Resume? && !s.results[e.call.load];
      var current := e.Resume? || (s.keys != map[] && e.at - s.fetchedAt <= 600_000);
      var last := e.Resume? && e.call.second;
      && (a == NoKeys <==> failed)
      && (forall key :: a == Found(key) <==> !failed && current && kid in s.keys && key == s.keys[kid])
      && (a == Unknown <==> !failed && current && kid !in s.keys && (last || e.at - s.fetchedAt <= 30_000))
      && (a == Waits <==> !failed && (!current || (kid !in s.keys && !last && e.at - s.fetchedAt > 30_000)))
  {
  }

  /** A call that waits awaits the load in flight, started by it if there was none, and is marked as one that may not
      load again or one that may; any other call has started nothing. The set and the ended loads stay. */
  ghost predicate Leaves(s: State, s': State, at: int, kid: Kid, waits: bool, last: bool) {
    var starts := waits && !s.inFlight;
    && s'.keys == s.keys && s'.fetchedAt == s.fetchedAt && s'.results == s.results && s'.ended == s.ended
    && s'.waiting == s.waiting + (if waits then multiset{Call(kid, last, |s.results| - s.ended)} else multiset{})
    && s'.inFlight == (s.inFlight || waits) && s'.running == s.running + (if starts then 1 else 0)
    && s'.log == s.log + if starts then [Started(at)] else []
  }

  lemma LookUpLeaves(s: State, at: int, kid: Kid)
    ensures Leaves(s, LookUp(s, at, kid).1, at, kid, LookUp(s, at, kid).0 == Waits, true)
  {
  }

  lemma LoadLeaves(s: State, at: int, kid: Kid)
    ensures Leaves(s, LoadOrJoin(s, at, kid, false), at, kid, true, false)
  {
  }

  /** What a stretch of a call leaves behind: only a call that comes first, and finds the set empty or ten minutes old,
      may load a second time. */
  lemma StretchExact(s: State, e: Event)
    requires Enabled(s, e) && (e.Enter? || e.Resume?)
    ensures var (kid, a, s') := (if e.Enter? then e.kid else e.call.kid, Advance(s, e).0, Advance(s, e).1);
      var before := if e.Resume? then s.(waiting := s.waiting - multiset{e.call}) else s;
      var current := e.Resume? || (s.keys != map[] && e.at - s.fetchedAt <= 600_000);
      Leaves(before, s', e.at, kid, a == Waits, current)
  {
    match e
    case Enter(at, kid) =>
      LookUpLeaves(s, at, kid);
      LoadLeaves(s, at, kid);
      hide LookUp, LoadOrJoin, Leaves;
    case Resume(at, call) =>
      var before := s.(waiting := s.waiting - multiset{call});
      LookUpLeaves(before, at, call.kid);
      NothingLeft(before, at, call.kid);
      hide LookUp, LoadOrJoin, Leaves;
  }

  lemma NothingLeft(s: State, at: int, kid: Kid)
    ensures Leaves(s, s, at, kid, false, true)
  {
  }

  // ---- Failing loads are not limited ----

  function StormRound(n: nat, at: int, kid: Kid): seq<Event> {
    [Enter(at, kid), Arrive(at, None), Finally(at), Resume(at, Call(kid, false, n))]
  }

  /** n calls at one instant, each finding the load before it failed. */
  function Storm(n: nat, at: int, kid: Kid): (es: seq<Event>)
    ensures |es| == 4 * n && forall k :: 0 <= k < |es| ==> es[k].at == at
  {
    if n == 0 then [] else Storm(n - 1, at, kid) + StormRound(n - 1, at, kid)
  }

  function StormLog(n: nat, at: int): seq<Entry> {
    if n == 0 then [] else StormLog(n - 1, at) + [Started(at), Failed(at)]
  }

  function StormState(n: nat, at: int): State {
    INITIAL.(log := StormLog(n, at), results := seq(n, _ => false))
  }

  function Starts(log: seq<Entry>): nat {
    if log == [] then 0 else Starts(log[..|log| - 1]) + if log[|log| - 1].Started? then 1 else 0
  }

  lemma StormRoundFails(n: nat, at: int, kid: Kid) returns (t: seq<State>)
    ensures |t| == 4 && IsPath(StormState(n, at), StormRound(n, at, kid), t)
    ensures t[3] == StormState(n + 1, at)
  {
    hide KeysIn;
    var s := StormState(n, at);
    var es := StormRound(n, at, kid);
    var t0 := Step(s, es[0]);
    var t1 := Step(t0, es[1]);
    var t2 := Step(t1, es[2]);
    assert t2.results == s.results + [false];
    var t3 := Step(t2, es[3]);
    assert StormLog(n + 1, at) == s.log + [Started(at)] + [Failed(at)];
    assert multiset{Call(kid, false, n)} - multiset{Call(kid, false, n)} == multiset{};
    assert t3.results == StormState(n + 1, at).results;
    t := [t0, t1, t2, t3];
  }

  /** The states that the events lead through from s, s not included. */
  ghost predicate IsPath(s: State, es: seq<Event>, t: seq<State>) {
    && |t| == |es|
    && (es != [] ==> Enabled(s, es[0]) && t[0] == Step(s, es[0]))
    && (forall k :: 1 <= k < |es| ==> Enabled(t[k - 1], es[k]) && t[k] == Step(t[k - 1], es[k]))
  }

  lemma {:induction false} StormStarts(n: nat, at: int)
    ensures Starts(StormLog(n, at)) == n
  {
    if n > 0 {
      StormStarts(n - 1, at);
      var log := StormLog(n, at);
      assert log[..|log| - 1] == StormLog(n - 1, at) + [Started(at)];
      assert log[..|log| - 1][..|log| - 2] == StormLog(n - 1, at);
    }
  }

  lemma PathExtendsRun(es: seq<Event>, ss: seq<State>, more: seq<Event>, t: seq<State>, at: int)
    requires IsRun(es, ss) && IsPath(ss[|es|], more, t)
    requires forall k :: 0 <= k < |es + more| ==> (es + more)[k].at == at
    ensures IsRun(es + more, ss + t)
  {
    hide Enabled, Step;
    var es', ss' := es + more, ss + t;
    forall k | 0 <= k < |es'| ensures Enabled(ss'[k], es'[k]) && ss'[k + 1] == Step(ss'[k], es'[k]) {
      if k < |es| {
        assert es'[k] == es[k] && ss'[k] == ss[k] && ss'[k + 1] == ss[k + 1];
        assert Enabled(ss[k], es[k]) && ss[k + 1] == Step(ss[k], es[k]);
      } else {
        var i := k - |es|;
        assert es'[k] == more[i] && ss'[k + 1] == t[i];
        var from := if i == 0 then ss[|es|] else t[i - 1];
        assert ss'[k] == from;
        assert Enabled(from, more[i]) && t[i] == Step(from, more[i]);
      }
    }
  }

  /** The comment above the refetch limit promises that no flood of calls becomes a flood of requests. While loads
      fail that is not so: at any one instant, any number of requests can start, one after the other. */
  lemma {:induction false} FailingLoadsAreNotLimited(n: nat, at: int, kid: Kid) returns (ss: seq<State>)
    ensures IsRun(Storm(n, at, kid), ss) && ss[|ss| - 1] == StormState(n, at)
    ensures Starts(ss[|ss| - 1].log) == n
    ensures forall k :: 0 <= k < |Storm(n, at, kid)| ==> Storm(n, at, kid)[k].at == at
  {
    hide Enabled, Step, Starts, IsPath;
    StormStarts(n, at);
    if n == 0 {
      ss := [INITIAL];
    } else {
      var before := FailingLoadsAreNotLimited(n - 1, at, kid);
      var t := StormRoundFails(n - 1, at, kid);
      PathExtendsRun(Storm(n - 1, at, kid), before, StormRound(n - 1, at, kid), t, at);
      ss := before + t;
    }
  }

  // ---- The promise, exactly ----

  /** The refetch limit as its comment has it: any two requests are more than 30 seconds apart. */
  ghost predicate AllStartsSpaced(log: seq<Entry>) {
    forall i, j :: 0 <= i < j < |log| && log[i].Started? && log[j].Started? ==>
      log[j].at - log[i].at > 30_000
  }

  /** Every request after a failed one starts more than 30 seconds after that one did. */
  ghost predicate RetriesWait(log: seq<Entry>) {
    forall i, j :: 0 <= i && i + 1 < j < |log| && log[i].Started? && log[i + 1].Failed? && log[j].Started? ==>
      log[j].at - log[i].at > 30_000
  }

  lemma LogIsSpacedExactly(log: seq<Entry>, now: int)
    requires OneAtATime(log) && StartsAreSpaced(log) && Ordered(log, now)
    ensures AllStartsSpaced(log) <==> RetriesWait(log)
  {
    if RetriesWait(log) {
      forall i, j | 0 <= i < j < |log| && log[i].Started? && log[j].Started?
        ensures log[j].at - log[i].at > 30_000
      {
        NextEntryEnds(log, i, j);
        if log[i + 1].Loaded? {
          assert log[j].at - log[i + 1].at > 30_000;
        }
      }
    }
  }

  /** The entry after a request's start is its end. */
  lemma NextEntryEnds(log: seq<Entry>, i: int, j: int)
    requires OneAtATime(log) && 0 <= i < j < |log| && log[i].Started? && log[j].Started?
    ensures i + 1 < j && !log[i + 1].Started?
  {
    var m :| i < m < j && !log[m].Started?;
  }

  /** This stretch of a call starts a request: none is in flight, and the call needs one. */
  predicate Asks(s: State, e: Event) {
    && !s.inFlight
    && match e
       case Enter(at, kid) => s.keys == map[] || at - s.fetchedAt > 600_000 || (kid !in s.keys && OldEnough(s, at))
       case Resume(at, call) =>
         0 <= call.load < |s.results| && s.results[call.load] && !call.second && call.kid !in s.keys && OldEnough(s, at)
       case _ => false
  }

  predicate Fails(e: Event) {
    e.Arrive? && !Usable(e.response)
  }

  /** The request of event i fails at event m: m is the first response after i. */
  ghost predicate FailsAt(es: seq<Event>, i: nat, m: nat) {
    i < m < |es| && Fails(es[m]) && forall q :: i < q < m ==> !es[q].Arrive?
  }

  /** A call that asks for the set after a load has failed does so more than 30 seconds after the call that asked for
      that load. */
  ghost predicate CallersWait(es: seq<Event>, ss: seq<State>)
    requires IsRun(es, ss)
  {
    forall i: nat, m: nat, k: nat :: m < k < |es| && FailsAt(es, i, m) && Asks(ss[i], es[i]) && Asks(ss[k], es[k]) ==>
      es[k].at - es[i].at > 30_000
  }

  /** What an event writes into the history. */
  function Writes(s: State, e: Event): seq<Entry> {
    if Asks(s, e) then [Started(e.at)]
    else if e.Arrive? then [if Usable(e.response) then Loaded(e.at) else Failed(e.at)]
    else []
  }

  lemma LogStep(s: State, e: Event)
    requires Enabled(s, e)
    ensures Step(s, e).log == s.log + Writes(s, e)
  {
    hide KeysIn;
  }

  lemma {:induction false} LogGrows(es: seq<Event>, ss: seq<State>, i: nat, k: nat)
    requires IsRun(es, ss) && i <= k < |ss|
    ensures ss[i].log <= ss[k].log
    ensures i < k && Writes(ss[i], es[i]) != [] ==>
              |ss[i].log| < |ss[k].log| && ss[k].log[|ss[i].log|] == Writes(ss[i], es[i])[0]
    decreases k
  {
    hide Writes, Enabled, Step;
    if i < k {
      LogGrows(es, ss, i, k - 1);
      LogStep(ss[k - 1], es[k - 1]);
    }
  }

  /** Every entry of the history was written by one event of the run. */
  lemma {:induction false} WriterOf(es: seq<Event>, ss: seq<State>, k: nat, p: nat) returns (i: nat)
    requires IsRun(es, ss) && k < |ss| && p < |ss[k].log|
    ensures i < k && |ss[i].log| == p && Writes(ss[i], es[i]) == [ss[k].log[p]]
    decreases k
  {
    hide Enabled, Step, Asks;
    LogStep(ss[k - 1], es[k - 1]);
    if p < |ss[k - 1].log| {
      i := WriterOf(es, ss, k - 1, p);
    } else {
      i := k - 1;
    }
  }

  /** Whoever writes earlier stands earlier in the history. */
  lemma WritersInOrder(es: seq<Event>, ss: seq<State>, i: nat, k: nat)
    requires IsRun(es, ss) && i < |es| && k < |es| && |ss[i].log| < |ss[k].log|
    ensures i < k
  {
    hide IsRun;
    if k <= i {
      RunLength(es, ss);
      LogGrows(es, ss, k, i);
    }
  }

  lemma WaitingCallersWait(es: seq<Event>, ss: seq<State>)
    requires IsRun(es, ss) && AllStartsSpaced(ss[|es|].log)
    ensures CallersWait(es, ss)
  {
    RunLength(es, ss);
    var log := ss[|es|].log;
    forall i: nat, m: nat, k: nat | m < k < |es| && FailsAt(es, i, m) && Asks(ss[i], es[i]) && Asks(ss[k], es[k])
      ensures es[k].at - es[i].at > 30_000
    {
      LogGrows(es, ss, i, |es|);
      LogGrows(es, ss, k, |es|);
      LogGrows(es, ss, i, k);
      assert log[|ss[i].log|] == Started(es[i].at) && log[|ss[k].log|] == Started(es[k].at);
    }
  }

  lemma RetryWaits(es: seq<Event>, ss: seq<State>, i: nat, j: nat)
    requires IsRun(es, ss) && CallersWait(es, ss)
    requires i + 1 < j < |ss[|es|].log|
    requires ss[|es|].log[i].Started? && ss[|es|].log[i + 1].Failed? && ss[|es|].log[j].Started?
    ensures ss[|es|].log[j].at - ss[|es|].log[i].at > 30_000
  {
    hide Enabled, Step;
    var a := WriterOf(es, ss, |es|, i);
    var m := WriterOf(es, ss, |es|, i + 1);
    var k := WriterOf(es, ss, |es|, j);
    hide IsRun;
    WritersInOrder(es, ss, a, m);
    WritersInOrder(es, ss, m, k);
    forall q: nat | a < q < m ensures !es[q].Arrive? {
      if es[q].Arrive? {
        NoWriterBetween(es, ss, a, q, m);
      }
    }
    assert FailsAt(es, a, m);
  }

  lemma NoWriterBetween(es: seq<Event>, ss: seq<State>, a: nat, q: nat, m: nat)
    requires IsRun(es, ss) && a < q < m < |es| && Writes(ss[a], es[a]) != [] && Writes(ss[q], es[q]) != []
    ensures |ss[m].log| > |ss[a].log| + 1
  {
    LogGrows(es, ss, a, q);
    LogGrows(es, ss, q, m);
  }

  lemma WaitingCallersSpace(es: seq<Event>, ss: seq<State>)
    requires IsRun(es, ss) && CallersWait(es, ss)
    ensures RetriesWait(ss[|es|].log)
  {
    hide IsRun, CallersWait;
    RunLength(es, ss);
    var log := ss[|es|].log;
    forall i, j | 0 <= i && i + 1 < j < |log| && log[i].Started? && log[i + 1].Failed? && log[j].Started?
      ensures log[j].at - log[i].at > 30_000
    {
      RetryWaits(es, ss, i, j);
    }
  }

  lemma RunIsSpacedExactly(es: seq<Event>, ss: seq<State>)
    requires IsRun(es, ss)
    ensures AllStartsSpaced(ss[|es|].log) <==> RetriesWait(ss[|es|].log)
  {
    hide IsRun, Dated, OneAtATime, StartsAreSpaced, LoadsAreSpaced, Ordered, AllStartsSpaced, RetriesWait;
    RunLength(es, ss);
    RunKeeps(es, ss, |es|);
    LogIsSpacedExactly(ss[|es|].log, ClockAt(es, |es|));
  }

  /** In each single run: any two requests are more than 30 seconds apart, as the comment promises, if and only if no
      call asks again within 30 seconds of a call whose load failed. */
  lemma RefetchLimitExact(es: seq<Event>, ss: seq<State>)
    requires IsRun(es, ss)
    ensures AllStartsSpaced(ss[|es|].log) <==> CallersWait(es, ss)
    ensures AllStartsSpaced(ss[|es|].log) <==> RetriesWait(ss[|es|].log)
  {
    RunLength(es, ss);
    hide IsRun, AllStartsSpaced, RetriesWait, CallersWait;
    RunIsSpacedExactly(es, ss);
    if AllStartsSpaced(ss[|es|].log) {
      WaitingCallersWait(es, ss);
    }
    if CallersWait(es, ss) {
      WaitingCallersSpace(es, ss);
    }
  }

  lemma RunLength(es: seq<Event>, ss: seq<State>)
    requires IsRun(es, ss)
    ensures |ss| == |es| + 1
  {
  }

  /** In particular the promise holds in every run in which no load fails. */
  lemma SuccessSpacesStarts(es: seq<Event>, ss: seq<State>)
    requires IsRun(es, ss) && forall k :: 0 <= k < |es| ==> !Fails(es[k])
    ensures AllStartsSpaced(ss[|es|].log)
  {
    hide Asks, Enabled, Step;
    assert CallersWait(es, ss);
    RefetchLimitExact(es, ss);
  }

  // ---- The closure ----

  lemma UsableKeys(response: Option<seq<Jwk>>)
    ensures Usable(response) <==> response.Some? && KeysIn(response.value) != map[]
  {
  }

  lemma ArriveStep(s: State, at: int, response: Option<seq<Jwk>>)
    requires s.running > 0
    ensures var s' := s.(running := s.running - 1, ended := s.ended + 1, results := s.results + [Usable(response)]);
      Step(s, Arrive(at, response))
      == if Usable(response)
         then s'.(keys := KeysIn(response.value), fetchedAt := at, log := s.log + [Loaded(at)])
         else s'.(log := s.log + [Failed(at)])
  {
    hide KeysIn;
  }

  /** The verifier's closure: three variables changed in place, following the machine stretch by stretch. */
  class KeyStore {
    var keys: map<Kid, Key>
    var fetchedAt: int
    var inFlight: bool
    ghost var running: nat
    ghost var results: seq<bool>
    ghost var ended: nat
    ghost var waiting: multiset<Call>
    ghost var log: seq<Entry>

    ghost function Value(): State
      reads this
    {
      State(keys, fetchedAt, inFlight, running, results, ended, waiting, log)
    }

    constructor ()
      ensures Value() == INITIAL
    {
      keys, fetchedAt, inFlight := map[], 0, false;
      running, results, ended, waiting, log := 0, [], 0, multiset{}, [];
    }

    method LoadJwks(at: int, ghost kid: Kid, ghost second: bool)
      modifies this
      ensures Value() == LoadOrJoin(old(Value()), at, kid, second)
      ensures inFlight && keys == old(keys) && fetchedAt == old(fetchedAt)
      ensures running == old(running) + if old(inFlight) then 0 else 1
    {
      waiting := waiting + multiset{Call(kid, second, Flight(Value()))};
      if inFlight {
        return;
      }
      inFlight := true;
      running := running + 1;
      log := log + [Started(at)];
    }

    method FindOrReload(at: int, kid: Kid) returns (a: Answer)
      modifies this
      ensures (a, Value()) == LookUp(old(Value()), at, kid)
    {
      if kid in keys {
        return Found(keys[kid]);
      }
      if at - fetchedAt > JWKS_MIN_REFETCH_MS {
        LoadJwks(at, kid, true);
        return Waits;
      }
      return Unknown;
    }

    method KeyFor(at: int, kid: Kid) returns (a: Answer)
      modifies this
      ensures (a, Value()) == Advance(old(Value()), Enter(at, kid))
    {
      var stale := at - fetchedAt > JWKS_TTL_MS;
      if keys == map[] || stale {
        LoadJwks(at, kid, false);
        return Waits;
      }
      a := FindOrReload(at, kid);
    }

    /** `failed`: the awaited load threw. */
    method Resume(at: int, call: Call, failed: bool) returns (a: Answer)
      requires Enabled(Value(), Event.Resume(at, call)) && failed == !results[call.load]
      modifies this
      ensures (a, Value()) == Advance(old(Value()), Event.Resume(at, call))
    {
      waiting := waiting - multiset{call};
      if failed {
        return NoKeys;
      }
      if !call.second {
        a := FindOrReload(at, call.kid);
      } else if call.kid in keys {
        a := Found(keys[call.kid]);
      } else {
        a := Unknown;
      }
    }

    method ResponseArrives(at: int, response: Option<seq<Jwk>>)
      requires running > 0
      modifies this
      ensures Value() == Step(old(Value()), Arrive(at, response))
      ensures if Usable(response) then keys == KeysIn(response.value) && fetchedAt == at
              else keys == old(keys) && fetchedAt == old(fetchedAt)
      ensures inFlight == old(inFlight)
    {
      hide Advance, Step, KeysIn, Usable, LoadOrJoin;
      ArriveStep(Value(), at, response);
      UsableKeys(response);
      var next := map[];
      if response.Some? {
        next := CollectKeys(response.value);
      }
      EndLoad(at, next != map[]);
      if next != map[] {
        keys := next;
        fetchedAt := at;
      }
    }

    /** What stands behind the variables, at the end of a request. */
    ghost method EndLoad(at: int, brought: bool)
      requires running > 0
      modifies this`running, this`ended, this`results, this`log
      ensures Value() == old(Value()).(running := old(running) - 1, ended := old(ended) + 1,
                                       results := old(results) + [brought],
                                       log := old(log) + [if brought then Loaded(at) else Failed(at)])
    {
      running, ended, results := running - 1, ended + 1, results + [brought];
      log := log + [if brought then Loaded(at) else Failed(at)];
    }

    method ClearInFlight(ghost at: int)
      requires ended > 0
      modifies this
      ensures Value() == Step(old(Value()), Finally(at))
      ensures !inFlight && keys == old(keys) && fetchedAt == old(fetchedAt)
    {
      inFlight := false;
      ended := ended - 1;
    }
  }
}
