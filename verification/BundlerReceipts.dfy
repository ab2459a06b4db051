/** Whose outcome a receipt lookup reports, over every run of the bundler. */
module BundlerReceipts {
  import opened Wrappers
  import opened Receipts
  import opened InsertionMap
  import opened BundlerMachine

  /** How an event ends a bundle: with a mined transaction, or with None where it fails. */
  function EndOf<I>(e: Event<I>): seq<Option<TxReceipt>> {
    match e
    case BundleOk(tx) => [Some(tx)]
    case BundleFail(_, _) => [None]
    case _ => []
  }

  /** The ends of a run's bundles, in order. */
  function BundleEnds<I>(es: seq<Event<I>>): seq<Option<TxReceipt>>
    decreases |es|
  {
    if es == [] then [] else EndOf(es[0]) + BundleEnds(es[1..])
  }

  /** The k-th bundle held the item and ended with that transaction. */
  ghost predicate CarriedBy<I>(i: I, tx: TxReceipt, finished: seq<seq<I>>, ends: seq<Option<TxReceipt>>, k: nat) {
    k < |finished| == |ends| && i in finished[k] && ends[k] == Some(tx)
  }

  /** An item is included exactly when it holds a receipt; the receipt is the one that a bundle with this item ended
      with, and the event beside it is what the index of its logs says for the item's own hash. */
  ghost predicate Indexed<I>(i: I, d: ItemData, finished: seq<seq<I>>, ends: seq<Option<TxReceipt>>) {
    && (d.status == Included <==> d.receipt.Some?)
    && (d.receipt.Some? ==>
          && (exists k: nat :: CarriedBy(i, d.receipt.value.tx, finished, ends, k))
          && d.receipt.value.event == Lookup(EventIndex(d.receipt.value.tx.logs), d.hash)
          && d.transactionHash == Some(d.receipt.value.tx.hash))
  }

  ghost predicate ReceiptsIndexed<I>(s: State<I>, ends: seq<Option<TxReceipt>>) {
    |ends| == |s.finished| && forall i :: i in s.data ==> Indexed(i, s.data[i], s.finished, ends)
  }

  lemma StaysIndexed<I>(i: I, d: ItemData, finished: seq<seq<I>>, ends: seq<Option<TxReceipt>>, items: seq<I>,
                        end: Option<TxReceipt>)
    requires |ends| == |finished| && Indexed(i, d, finished, ends)
    ensures Indexed(i, d, finished + [items], ends + [end])
  {
    hide EventIndex, Lookup;
    if d.receipt.Some? {
      var k: nat :| CarriedBy(i, d.receipt.value.tx, finished, ends, k);
      assert CarriedBy(i, d.receipt.value.tx, finished + [items], ends + [end], k);
    }
  }

  lemma SettledIsIndexed<I>(s: State<I>, e: Event<I>, ends: seq<Option<TxReceipt>>, i: I)
    requires FlightIsPrefix(s) && s.inFlight.Some? && (e.BundleOk? || e.BundleFail?) && ReceiptsIndexed(s, ends)
    requires i in s.data
    ensures i in Settled(s, e) && Indexed(i, Settled(s, e)[i], s.finished + [s.inFlight.value], ends + EndOf(e))
  {
    hide EventIndex, Lookup, FlightIsPrefix, Hashes;
    var items := s.inFlight.value;
    FlightIsPending(s);
    if i !in items {
      StaysIndexed(i, s.data[i], s.finished, ends, items, EndOf(e)[0]);
    } else if e.BundleOk? {
      assert CarriedBy(i, e.tx, s.finished + [items], ends + EndOf(e), |ends|);
    }
  }

  lemma ReceiptsStep<I>(s: State<I>, e: Event<I>, ends: seq<Option<TxReceipt>>)
    requires Inv(s) && Enabled(s, e) && ReceiptsIndexed(s, ends)
    ensures ReceiptsIndexed(Step(s, e), ends + EndOf(e))
  {
    InvParts(s);
    InvIsWellFormed(s);
    hide Settled, Inv, WellFormed, RecordAgrees, BundlesDisjoint, MapsAgree, FlightIsPrefix, Hashes, Indexed;
    if e.BundleOk? || e.BundleFail? {
      SettledFacts(s, e);
      forall i | i in s.data ensures Indexed(i, Settled(s, e)[i], s.finished + [s.inFlight.value], ends + EndOf(e)) {
        SettledIsIndexed(s, e, ends, i);
      }
    } else {
      assert ends + EndOf(e) == ends;
      if e.SendCommit? {
        NewIsIndexed(e.item, NewItem(e.hash, e.op), s.finished, ends);
      }
    }
  }

  lemma NewIsIndexed<I>(i: I, d: ItemData, finished: seq<seq<I>>, ends: seq<Option<TxReceipt>>)
    requires d.status == Pending && d.receipt.None?
    ensures Indexed(i, d, finished, ends)
  {
  }

  lemma {:induction false} ReceiptsRun<I>(s: State<I>, es: seq<Event<I>>, ends: seq<Option<TxReceipt>>)
    requires Inv(s) && IsRun(s, es) && ReceiptsIndexed(s, ends)
    ensures ReceiptsIndexed(Exec(s, es), ends + BundleEnds(es))
    decreases |es|
  {
    hide Inv, Step, Enabled, ReceiptsIndexed, EndOf;
    if es == [] {
      assert ends + BundleEnds(es) == ends;
    } else {
      InvStep(s, es[0]);
      ReceiptsStep(s, es[0], ends);
      ReceiptsRun(Step(s, es[0]), es[1..], ends + EndOf(es[0]));
      assert ends + EndOf(es[0]) + BundleEnds(es[1..]) == ends + BundleEnds(es);
    }
  }

  /** The held operation was in the k-th completed bundle, that bundle was mined as tx, and the outcome is the one
      read straight off tx's logs for this hash. */
  ghost predicate OutcomeOfBundle<I>(s: State<I>, ends: seq<Option<TxReceipt>>, hash: Hash, utf8: Utf8,
                                     outcome: Outcome, k: nat, tx: TxReceipt)
  {
    hash in s.history && CarriedBy(s.history[hash], tx, s.finished, ends, k) && IsDirectOutcome(tx, hash, utf8, outcome)
  }

  /** From the bundler's lookup to the settled outcome: over every interleaving, whatever the lookup of a hash reports
      is read, by the server's rescan, as that operation's outcome in the very transaction that carried its bundle. */
  lemma ReportedOutcomeIsOwn<I>(maxBundleSize: int, es: seq<Event<I>>, hash: Hash, utf8: Utf8)
    returns (k: nat, tx: TxReceipt)
    requires IsRun(Init(maxBundleSize), es)
    requires ReceiptOf(Exec(Init(maxBundleSize), es), hash).Some?
    ensures var s := Exec(Init(maxBundleSize), es);
      OutcomeOfBundle(s, BundleEnds(es), hash, utf8, OutcomeOf(ReceiptOf(s, hash).value, hash, utf8), k, tx)
  {
    hide EventIndex, IsDirectOutcome;
    var s, ends := Exec(Init(maxBundleSize), es), BundleEnds(es);
    InitInv<I>(maxBundleSize);
    InvRun(Init(maxBundleSize), es);
    ReceiptsRun(Init(maxBundleSize), es, []);
    assert [] + ends == ends;
    var i := s.history[hash];
    tx := s.data[i].receipt.value.tx;
    assert Indexed(i, s.data[i], s.finished, ends);
    k :| CarriedBy(i, tx, s.finished, ends, k);
    SettledOutcomeIsDirect(tx, hash, utf8, SettledOutcome(tx, hash, utf8));
  }

  // ---- While the bundler goes on ----

  /** No send commits this hash once the history holds it. */
  ghost predicate NotRecommitted<I>(s: State<I>, es: seq<Event<I>>, hash: Hash)
    requires IsRun(s, es)
    decreases |es|
  {
    es == [] || (!(es[0].SendCommit? && es[0].hash == hash && hash in s.history)
                 && NotRecommitted(Step(s, es[0]), es[1..], hash))
  }

  lemma ReceiptStaysStep<I>(s: State<I>, e: Event<I>, hash: Hash, ends: seq<Option<TxReceipt>>)
    requires Inv(s) && Enabled(s, e) && ReceiptsIndexed(s, ends) && ReceiptOf(s, hash).Some?
    requires !(e.SendCommit? && e.hash == hash)
    ensures ReceiptOf(Step(s, e), hash) == ReceiptOf(s, hash)
  {
    InvIsWellFormed(s);
    SettleStep(s, e);
    hide Inv, WellFormed, Settled, Hashes, EventIndex, Lookup, ReportReceipt;
    assert Indexed(s.history[hash], s.data[s.history[hash]], s.finished, ends);
  }

  lemma {:induction false} ReceiptStays<I>(s: State<I>, es: seq<Event<I>>, hash: Hash, ends: seq<Option<TxReceipt>>)
    requires Inv(s) && IsRun(s, es) && ReceiptsIndexed(s, ends) && ReceiptOf(s, hash).Some?
    requires NotRecommitted(s, es, hash)
    ensures ReceiptOf(Exec(s, es), hash) == ReceiptOf(s, hash)
    decreases |es|
  {
    hide Inv, Step, Enabled, ReceiptsIndexed, EndOf;
    if es != [] {
      HeldWithReceipt(s, hash);
      InvStep(s, es[0]);
      ReceiptsStep(s, es[0], ends);
      ReceiptStaysStep(s, es[0], hash, ends);
      ReceiptStays(Step(s, es[0]), es[1..], hash, ends + EndOf(es[0]));
    }
  }

  lemma HeldWithReceipt<I>(s: State<I>, hash: Hash)
    requires ReceiptOf(s, hash).Some?
    ensures hash in s.history
  {
  }

  /** A run is any beginning of it, followed by the rest. */
  lemma {:induction false} RunParts<I>(s: State<I>, es: seq<Event<I>>, k: nat, hash: Hash)
    requires IsRun(s, es) && k <= |es|
    ensures IsRun(s, es[..k]) && IsRun(Exec(s, es[..k]), es[k..])
    ensures Exec(Exec(s, es[..k]), es[k..]) == Exec(s, es)
    ensures NotRecommitted(s, es, hash) ==> NotRecommitted(Exec(s, es[..k]), es[k..], hash)
    decreases |es|
  {
    hide Step, Enabled, WellFormed;
    if k == 0 {
      assert es[..0] == [] && es[0..] == es;
    } else {
      assert es[..k][1..] == es[1..][..k - 1] && es[k..] == es[1..][k - 1..];
      RunParts(Step(s, es[0]), es[1..], k - 1, hash);
    }
  }

  /** Once a lookup of a hash has an answer, it has that answer ever after, as long as the hash is not committed
      again. */
  lemma AnswerIsFinal<I>(maxBundleSize: int, es: seq<Event<I>>, k: nat, hash: Hash)
    requires IsRun(Init(maxBundleSize), es) && k <= |es| && NotRecommitted(Init(maxBundleSize), es, hash)
    ensures IsRun(Init(maxBundleSize), es[..k])
    ensures ReceiptOf(Exec(Init(maxBundleSize), es[..k]), hash).Some? ==>
              ReceiptOf(Exec(Init(maxBundleSize), es), hash) == ReceiptOf(Exec(Init(maxBundleSize), es[..k]), hash)
  {
    hide Inv, IsRun, Exec, NotRecommitted, ReceiptOf, BundleEnds;
    RunParts(Init(maxBundleSize), es, k, hash);
    var s := Exec(Init<I>(maxBundleSize), es[..k]);
    InitInv<I>(maxBundleSize);
    InvRun(Init(maxBundleSize), es[..k]);
    NothingIndexed<I>(maxBundleSize);
    ReceiptsRun(Init(maxBundleSize), es[..k], []);
    if ReceiptOf(s, hash).Some? {
      ReceiptStays(s, es[k..], hash, [] + BundleEnds(es[..k]));
    }
  }

  lemma NothingIndexed<I>(maxBundleSize: int)
    ensures ReceiptsIndexed(Init<I>(maxBundleSize), [])
  {
  }
}
