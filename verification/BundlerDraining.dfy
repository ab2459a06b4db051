/** How many bundles empty a mempool. */
module BundlerDraining {
  import opened Wrappers
  import opened Bytes
  import opened InsertionMap
  import opened BundlerMachine

  ghost predicate NoSends<I>(es: seq<Event<I>>) {
    forall k :: 0 <= k < |es| ==> es[k].BundleStart? || es[k].BundleOk? || es[k].BundleFail?
  }

  /** The number of bundles of size m that n operations need. */
  function Rounds(n: nat, m: nat): nat
    requires m >= 1
  {
    (n + m - 1) / m
  }

  /** c completed bundles later the mempool has lost min(n, c * m) operations; a bundle in flight found some. */
  ghost predicate Drained<I>(s: State<I>, n: nat, c: nat, m: nat) {
    |s.mempool.keys| == Max(0, n - c * m) && (s.inFlight.Some? ==> |s.inFlight.value| == Min(|s.mempool.keys|, m) > 0)
  }

  lemma DrainStep<I>(s: State<I>, e: Event<I>, n: nat, c: nat, m: nat)
    requires Inv(s) && Enabled(s, e) && s.maxBundleSize == m >= 1
    requires e.BundleStart? || e.BundleOk? || e.BundleFail?
    requires Drained(s, n, c, m)
    ensures Drained(Step(s, e), n, c + if e.BundleStart? then 0 else 1, m)
    ensures |Step(s, e).finished| == |s.finished| + if e.BundleStart? then 0 else 1
    ensures Step(s, e).maxBundleSize == m
  {
    hide Inv, WellFormed, Settled, Hashes;
    InvIsWellFormed(s);
    if !e.BundleStart? {
      FinishStepKeepsInv(s, e);
      assert (c + 1) * m == c * m + m;
    }
  }

  lemma {:induction false} DrainRun<I>(s: State<I>, es: seq<Event<I>>, n: nat, c: nat, m: nat)
    requires Inv(s) && IsRun(s, es) && NoSends(es) && s.maxBundleSize == m >= 1
    requires Drained(s, n, c, m)
    ensures |Exec(s, es).finished| >= |s.finished|
    ensures Drained(Exec(s, es), n, c + |Exec(s, es).finished| - |s.finished|, m)
    decreases |es|
  {
    if es != [] {
      var c' := c + if es[0].BundleStart? then 0 else 1;
      DrainStep(s, es[0], n, c, m);
      InvStep(s, es[0]);
      DrainRun(Step(s, es[0]), es[1..], n, c', m);
    }
  }

  lemma RoundsBounds(n: nat, m: nat)
    requires m >= 1
    ensures Rounds(n, m) * m >= n
    ensures n > 0 ==> (Rounds(n, m) - 1) * m < n
    ensures n == 0 ==> Rounds(n, m) == 0
  {
  }

  lemma ProductMonotone(a: nat, b: nat, m: nat)
    requires a <= b
    ensures a * m <= b * m
  {
  }

  lemma DrainsFromRest<I>(s: State<I>, es: seq<Event<I>>)
    requires Inv(s) && s.inFlight.None? && s.maxBundleSize >= 1
    requires IsRun(s, es) && NoSends(es)
    ensures var n, t := |s.mempool.keys|, Exec(s, es);
      && |t.finished| >= |s.finished|
      && |t.finished| - |s.finished| <= Rounds(n, s.maxBundleSize)
      && (t.mempool.keys == [] <==> |t.finished| - |s.finished| == Rounds(n, s.maxBundleSize))
  {
    hide Inv, Step, Enabled, Rounds, IsRun, Exec;
    var n, m, t := |s.mempool.keys|, s.maxBundleSize, Exec(s, es);
    assert Drained(s, n, 0, m);
    DrainRun(s, es, n, 0, m);
    DrainCount(s, es, n, m);
    RoundsExact(n, |t.finished| - |s.finished|, m);
  }

  /** A bundle in flight holds something; so it is in every state of a run with a positive bundle size. */
  ghost predicate FlightNotEmpty<I>(s: State<I>) {
    s.inFlight.Some? ==> s.inFlight.value != []
  }

  lemma {:induction false} FlightStaysNotEmpty<I>(s: State<I>, es: seq<Event<I>>)
    requires Inv(s) && FlightNotEmpty(s) && s.maxBundleSize >= 1 && IsRun(s, es)
    ensures FlightNotEmpty(Exec(s, es)) && Exec(s, es).maxBundleSize == s.maxBundleSize
    decreases |es|
  {
    if es != [] {
      InvStep(s, es[0]);
      hide Inv, Settled, Hashes;
      FlightStaysNotEmpty(Step(s, es[0]), es[1..]);
    }
  }

  /** How many bundles are needed from here: the one in flight, and what its end leaves waiting. */
  function BundlesNeeded<I>(s: State<I>): nat
    requires s.maxBundleSize >= 1 && (s.inFlight.Some? ==> |s.inFlight.value| <= |s.mempool.keys|)
  {
    RoundsNonNegative(|s.mempool.keys|, s.maxBundleSize);
    match s.inFlight
    case None => Rounds(|s.mempool.keys|, s.maxBundleSize)
    case Some(items) => 1 + Rounds(|s.mempool.keys| - |items|, s.maxBundleSize)
  }

  lemma {:induction false} DrainsFromFlight<I>(s: State<I>, es: seq<Event<I>>)
    requires Inv(s) && FlightNotEmpty(s) && s.maxBundleSize >= 1 && IsRun(s, es) && NoSends(es)
    requires s.inFlight.Some? ==> |s.inFlight.value| <= |s.mempool.keys|
    ensures var t := Exec(s, es);
      && |t.finished| >= |s.finished|
      && |t.finished| - |s.finished| <= BundlesNeeded(s)
      && (t.mempool.keys == [] <==> |t.finished| - |s.finished| == BundlesNeeded(s))
    decreases |es|
  {
    hide Inv, Rounds, WellFormed, Settled, Hashes, SliceEnd;
    if s.inFlight.None? {
      DrainsFromRest(s, es);
    } else if es != [] {
      InvStep(s, es[0]);
      if es[0].BundleStart? {
        assert Step(s, es[0]) == s;
        DrainsFromFlight(s, es[1..]);
      } else {
        FinishStepKeepsInv(s, es[0]);
        DrainsFromRest(Step(s, es[0]), es[1..]);
      }
    }
  }

  /** From every reachable state, with no further sends and a positive bundle size, the mempool is empty after exactly
      ceil(n / m) completed bundles where nothing is in flight, and after exactly 1 + ceil((n - k) / m) with k
      operations in flight, whatever mix of success and failure occurs; and no further bundle is ever submitted. */
  lemma DrainsInExactlyRounds<I>(maxBundleSize: int, past: seq<Event<I>>, es: seq<Event<I>>)
    requires maxBundleSize >= 1 && IsRun(Init(maxBundleSize), past)
    requires IsRun(Exec(Init(maxBundleSize), past), es) && NoSends(es)
    ensures var s := Exec(Init(maxBundleSize), past);
      var t := Exec(s, es);
      && s.maxBundleSize >= 1 && (s.inFlight.Some? ==> 0 < |s.inFlight.value| <= |s.mempool.keys|)
      && |s.finished| <= |t.finished| <= |s.finished| + BundlesNeeded(s)
      && (t.mempool.keys == [] <==> |t.finished| == |s.finished| + BundlesNeeded(s))
  {
    InitInv<I>(maxBundleSize);
    InvRun(Init(maxBundleSize), past);
    FlightStaysNotEmpty(Init(maxBundleSize), past);
    var s := Exec(Init(maxBundleSize), past);
    InvIsWellFormed(s);
    hide Inv, IsRun, Exec, BundlesNeeded;
    DrainsFromFlight(s, es);
  }

  /** Up to the number of rounds, c rounds of m cover n exactly when c is that number. */
  lemma RoundsExact(n: nat, c: nat, m: nat)
    requires m >= 1 && c <= Rounds(n, m)
    ensures Max(0, n - c * m) == 0 <==> c == Rounds(n, m)
  {
    hide Rounds;
    RoundsBounds(n, m);
    if c < Rounds(n, m) {
      ProductMonotone(c, Rounds(n, m) - 1, m);
    }
  }

  /** No more bundles complete than are needed. */
  lemma {:induction false} DrainCount<I>(s: State<I>, es: seq<Event<I>>, n: nat, m: nat)
    requires Inv(s) && IsRun(s, es) && NoSends(es) && s.maxBundleSize == m >= 1
    requires n == |s.mempool.keys| && Drained(s, n, 0, m)
    ensures |s.finished| <= |Exec(s, es).finished| <= |s.finished| + Rounds(n, m)
    decreases |es|
  {
    hide Inv, Step, Rounds;
    RoundsNonNegative(n, m);
    if es != [] {
      var s' := Step(s, es[0]);
      DrainStep(s, es[0], n, 0, m);
      InvStep(s, es[0]);
      DrainCount(s', es[1..], |s'.mempool.keys|, m);
      if !es[0].BundleStart? {
        RoundsDecrease(n, |s'.mempool.keys|, m);
      }
    }
  }

  lemma RoundsNonNegative(n: nat, m: nat)
    requires m >= 1
    ensures Rounds(n, m) >= 0
  {
  }

  lemma RoundsDecrease(n: nat, n': nat, m: nat)
    requires m >= 1 && n > 0 && n' == Max(0, n - m)
    ensures Rounds(n', m) + 1 == Rounds(n, m)
  {
    var q, r := (n + m - 1) / m, (n + m - 1) % m;
    assert n + m - 1 == q * m + r;
    if n >= m {
      QuotientUnique((n' + m - 1) / m + 1, (n' + m - 1) % m, q, r, m);
    } else {
      QuotientUnique(q, r, 1, n - 1, m);
      QuotientUnique((m - 1) / m, (m - 1) % m, 0, m - 1, m);
    }
  }

  /** A bundle size that is not positive never empties a mempool. */
  lemma {:induction false} ZeroSizeNeverDrains<I>(s: State<I>, es: seq<Event<I>>)
    requires Inv(s) && s.maxBundleSize < 1 && IsRun(s, es)
    requires s.mempool.keys != [] && (s.inFlight.Some? ==> |s.inFlight.value| < |s.mempool.keys|)
    ensures Exec(s, es).mempool.keys != []
    decreases |es|
  {
    hide Inv, Step, Enabled;
    if es != [] {
      InvStep(s, es[0]);
      ZeroSizeStep(s, es[0]);
      ZeroSizeNeverDrains(Step(s, es[0]), es[1..]);
    }
  }

  lemma ZeroSizeStep<I>(s: State<I>, e: Event<I>)
    requires Inv(s) && s.maxBundleSize < 1 && Enabled(s, e)
    requires s.mempool.keys != [] && (s.inFlight.Some? ==> |s.inFlight.value| < |s.mempool.keys|)
    ensures var s' := Step(s, e);
      && s'.maxBundleSize == s.maxBundleSize
      && s'.mempool.keys != [] && (s'.inFlight.Some? ==> |s'.inFlight.value| < |s'.mempool.keys|)
  {
    hide Settled, MapsAgree, RecordAgrees, BundlesDisjoint;
    if e.BundleOk? || e.BundleFail? {
      FinishStepKeepsInv(s, e);
    }
  }
}
