/** The whole way of an outcome: from a mined bundle through the bundler's lookup and the server's reading into its
    row. */
module WriteHistory {
  import opened Wrappers
  import opened Hex
  import opened UserOpLog
  import opened BundlerMachine
  import R = Receipts
  import BundlerReceipts

  /** What a settling round reads for a hash while the bundler is in state s. */
  function Settles<I>(s: State<I>, hash: Hash, utf8: R.Utf8): Option<Settlement> {
    match ReceiptOf(s, hash)
    case None => None
    case Some(report) => Some(FromReceipt(R.OutcomeOf(report, hash, utf8)))
  }

  lemma HashTextIsShort(hash: Hash)
    ensures Clip(Some(Hexlify(hash))) == Some(Hexlify(hash))
  {
  }

  /** The row tells the outcome of the bundle that carried the operation. */
  ghost predicate TellsBundle<I>(row: Row, s: State<I>, ends: seq<Option<R.TxReceipt>>, hash: Hash, utf8: R.Utf8,
                                 o: R.Outcome, k: nat, tx: R.TxReceipt)
  {
    && BundlerReceipts.OutcomeOfBundle(s, ends, hash, utf8, o, k, tx)
    && row.outcome == Outcome(Some(o.success), Clip(o.revertReason), Some(Hexlify(tx.hash)))
  }

  /** Over every run of the bundler, for every row that a round asks about: without a receipt the row stays as it was;
      with one it takes on its operation's outcome in the transaction that carried the operation's bundle, read
      straight off that transaction's logs, and is pending no longer. */
  lemma LoggedOutcomeIsOwn<I>(maxBundleSize: int, es: seq<Event<I>>, hash: Hash, utf8: R.Utf8,
                              rows: seq<Row>, limit: nat, fetch: Fetch, at: int, row: nat)
    requires IsRun(Init(maxBundleSize), es)
    requires row < |rows| && rows[row].id in Batch(rows, limit) && rows[row].entry.userOpHash == Some(Hexlify(hash))
    requires fetch(Hexlify(hash)) == Settles(Exec(Init(maxBundleSize), es), hash, utf8)
    ensures var s, after := Exec(Init(maxBundleSize), es), Round(rows, limit, fetch, at)[row];
      if ReceiptOf(s, hash).None? then after == rows[row]
      else
        && !IsPending(after) && after.entry == rows[row].entry
        && exists o, k, tx :: TellsBundle(after, s, BundlerReceipts.BundleEnds(es), hash, utf8, o, k, tx)
  {
    hide R.IsDirectOutcome, R.OutcomeOf, ReceiptOf, Batch, Hexlify;
    var s := Exec(Init(maxBundleSize), es);
    if ReceiptOf(s, hash).Some? {
      var k, tx := BundlerReceipts.ReportedOutcomeIsOwn(maxBundleSize, es, hash, utf8);
      var o := R.OutcomeOf(ReceiptOf(s, hash).value, hash, utf8);
      DirectHash(tx, hash, utf8, o);
      HashTextIsShort(tx.hash);
      assert TellsBundle(Round(rows, limit, fetch, at)[row], s, BundlerReceipts.BundleEnds(es), hash, utf8, o, k, tx);
    }
  }

  // ---- Any number of rounds, while the bundler goes on ----

  /** A settlement was read when the bundler had come to the k-th point of its run. */
  ghost predicate ReadAt<I>(maxBundleSize: int, es: seq<Event<I>>, k: nat, hash: Hash, utf8: R.Utf8,
                            settled: Settlement)
  {
    k <= |es| && IsRun(Init(maxBundleSize), es[..k])
    && Settles(Exec(Init(maxBundleSize), es[..k]), hash, utf8) == Some(settled)
  }

  lemma {:induction false} LastOutcomeIsSettled(ops: seq<Op>, id: nat)
    ensures LastOutcome(ops, id) == Outcome(None, None, None)
            || exists i :: 0 <= i < |ops| && ops[i].DoSettle? && ops[i].id == id
                           && LastOutcome(ops, id) == OutcomeOf(ops[i].s)
  {
    if ops != [] {
      var n := |ops| - 1;
      var rest := ops[..n];
      LastOutcomeIsSettled(rest, id);
      if LastOutcome(ops, id) == LastOutcome(rest, id) && LastOutcome(rest, id) != Outcome(None, None, None) {
        var i :| 0 <= i < |rest| && rest[i].DoSettle? && rest[i].id == id
              && LastOutcome(rest, id) == OutcomeOf(rest[i].s);
        assert ops[i] == rest[i];
      }
    }
  }

  lemma ReadingIsFinal<I>(maxBundleSize: int, es: seq<Event<I>>, k: nat, hash: Hash, utf8: R.Utf8, settled: Settlement)
    requires IsRun(Init(maxBundleSize), es) && BundlerReceipts.NotRecommitted(Init(maxBundleSize), es, hash)
    requires ReadAt(maxBundleSize, es, k, hash, utf8, settled)
    ensures Settles(Exec(Init(maxBundleSize), es), hash, utf8) == Some(settled)
  {
    hide ReceiptOf, R.OutcomeOf, IsRun, Exec;
    BundlerReceipts.AnswerIsFinal(maxBundleSize, es, k, hash);
  }

  /** Rounds may overlap, records may come between, and the bundler may move on between any two readings: whatever was
      recorded and settled in whatever order, each settlement of this row read from the bundler at some point of its
      run, the row has no outcome yet, or its operation's outcome in the transaction that carried its bundle. So no
      order, and no number of rounds, gives it another. */
  lemma AnyRoundsAgree<I>(maxBundleSize: int, es: seq<Event<I>>, hash: Hash, utf8: R.Utf8, ops: seq<Op>, row: nat)
    requires IsRun(Init(maxBundleSize), es) && BundlerReceipts.NotRecommitted(Init(maxBundleSize), es, hash)
    requires row < |ApplyAll(ops)| && ApplyAll(ops)[row].entry.userOpHash == Some(Hexlify(hash))
    requires forall i :: 0 <= i < |ops| && ops[i].DoSettle? && ops[i].id == row + 1 ==>
               exists k :: ReadAt(maxBundleSize, es, k, hash, utf8, ops[i].s)
    ensures var after, s := ApplyAll(ops)[row], Exec(Init(maxBundleSize), es);
      after.outcome == Outcome(None, None, None)
      || (!IsPending(after)
          && exists o, k, tx :: TellsBundle(after, s, BundlerReceipts.BundleEnds(es), hash, utf8, o, k, tx))
  {
    hide R.IsDirectOutcome, R.OutcomeOf, ReceiptOf, Hexlify, IsRun, Exec, ApplyAll, ReadAt;
    LogIsAppendOnly(ops);
    LastOutcomeIsSettled(ops, row + 1);
    var s, after := Exec(Init<I>(maxBundleSize), es), ApplyAll(ops)[row];
    assert after.outcome == LastOutcome(ops, row + 1);
    if after.outcome != Outcome(None, None, None) {
      var i :| 0 <= i < |ops| && ops[i].DoSettle? && ops[i].id == row + 1 && after.outcome == OutcomeOf(ops[i].s);
      var at :| ReadAt(maxBundleSize, es, at, hash, utf8, ops[i].s);
      ReadingIsFinal(maxBundleSize, es, at, hash, utf8, ops[i].s);
      var k, tx := BundlerReceipts.ReportedOutcomeIsOwn(maxBundleSize, es, hash, utf8);
      var o := R.OutcomeOf(ReceiptOf(s, hash).value, hash, utf8);
      DirectHash(tx, hash, utf8, o);
      HashTextIsShort(tx.hash);
      assert TellsBundle(after, s, BundlerReceipts.BundleEnds(es), hash, utf8, o, k, tx);
    }
  }

  lemma DirectHash(tx: R.TxReceipt, hash: Hash, utf8: R.Utf8, o: R.Outcome)
    requires R.IsDirectOutcome(tx, hash, utf8, o)
    ensures o.transactionHash == Some(tx.hash)
  {
  }
}
