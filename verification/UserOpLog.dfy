/** The write log: rows are appended when a write is handled and settled later from its receipt. */
module UserOpLog {
  import opened Wrappers
  import opened Bytes
  import opened Hex
  import Receipts

  const MAX_FIELD := 200

  /** A text of up to 200 characters as it is, a longer one as its first 200 and an ellipsis. */
  ghost predicate IsCut(value: Option<string>, r: Option<string>) {
    match value
    case None => r == None
    case Some(text) =>
      if |text| <= 200 then r == value
      else r.Some? && |r.value| == 201 && r.value[..200] == text[..200] && r.value[200] == '\U{2026}'
  }

  /** Untrusted text is cut to 200 characters and marked. */
  function Clip(value: Option<string>): (r: Option<string>)
    ensures IsCut(value, r)
  {
    match value
    case None => None
    case Some(text) => Some(if |text| > MAX_FIELD then text[..MAX_FIELD] + "\U{2026}" else text)
  }

  datatype Entry = Entry(
    userSub: Option<string>,
    status: string,
    method_: Option<string>,
    userOpHash: Option<string>,
    sender: Option<string>,
    target: Option<string>,
    owner: Option<string>,
    innerCall: Option<string>,
    storedValue: Option<string>,
    httpStatus: Option<int>,
    error: Option<string>)

  /** Every text of an entry is cut on its own; the status and the HTTP status stay. */
  function ClipEntry(e: Entry): (r: Entry)
    ensures r.status == e.status && r.httpStatus == e.httpStatus
    ensures IsCut(e.userSub, r.userSub) && IsCut(e.method_, r.method_) && IsCut(e.userOpHash, r.userOpHash)
    ensures IsCut(e.sender, r.sender) && IsCut(e.target, r.target) && IsCut(e.owner, r.owner)
    ensures IsCut(e.innerCall, r.innerCall) && IsCut(e.storedValue, r.storedValue) && IsCut(e.error, r.error)
  {
    Entry(Clip(e.userSub), e.status, Clip(e.method_), Clip(e.userOpHash), Clip(e.sender), Clip(e.target), Clip(e.owner),
          Clip(e.innerCall), Clip(e.storedValue), e.httpStatus, Clip(e.error))
  }

  /** The outcome fields of a row; a missing success flag means no receipt has been read yet. */
  datatype Outcome = Outcome(success: Option<bool>, revertReason: Option<string>, txHash: Option<string>)

  datatype Row = Row(id: nat, createdAt: int, entry: Entry, outcome: Outcome, settledAt: Option<int>)

  /** A row as the history shows it: times as text, and no success while no receipt has been read. */
  datatype HistoryEntry = HistoryEntry(
    id: nat,
    at: string,
    user: Option<string>,
    status: string,
    method_: Option<string>,
    userOpHash: Option<string>,
    sender: Option<string>,
    target: Option<string>,
    owner: Option<string>,
    innerCall: Option<string>,
    storedValue: Option<string>,
    httpStatus: Option<int>,
    error: Option<string>,
    success: Option<bool>,
    revertReason: Option<string>,
    txHash: Option<string>,
    settledAt: Option<string>)

  /** `iso` prints a time; a settling time of zero counts as none. */
  function ToEntry(row: Row, iso: int -> string): HistoryEntry {
    var e := row.entry;
    HistoryEntry(row.id, iso(row.createdAt), e.userSub, e.status, e.method_, e.userOpHash, e.sender, e.target, e.owner,
                 e.innerCall, e.storedValue, e.httpStatus, e.error, row.outcome.success, row.outcome.revertReason,
                 row.outcome.txHash,
                 if row.settledAt.Some? && row.settledAt.value != 0 then Some(iso(row.settledAt.value)) else None)
  }

  /** The history entry has everything of the row, and back: only the times are text. */
  ghost predicate Shows(h: HistoryEntry, row: Row, iso: int -> string) {
    && h.id == row.id && h.at == iso(row.createdAt)
    && Entry(h.user, h.status, h.method_, h.userOpHash, h.sender, h.target, h.owner, h.innerCall, h.storedValue,
             h.httpStatus, h.error) == row.entry
    && Outcome(h.success, h.revertReason, h.txHash) == row.outcome
    && (h.settledAt.Some? <==> row.settledAt.Some? && row.settledAt != Some(0))
    && (h.settledAt.Some? ==> h.settledAt == Some(iso(row.settledAt.value)))
  }

  /** What a receipt says: the argument of `settle`. */
  datatype Settlement = Settlement(success: bool, revertReason: Option<string>, transactionHash: Option<string>)

  function FromReceipt(o: Receipts.Outcome): Settlement {
    Settlement(o.success, o.revertReason,
               match o.transactionHash case None => None case Some(h) => Some(Hexlify(h)))
  }

  function OutcomeOf(s: Settlement): Outcome {
    Outcome(Some(s.success), Clip(s.revertReason), Clip(s.transactionHash))
  }

  ghost predicate TellsSettlement(o: Outcome, s: Settlement) {
    o.success == Some(s.success) && IsCut(s.revertReason, o.revertReason) && IsCut(s.transactionHash, o.txHash)
  }

  /** Row ids count up from one: rows are never removed. */
  ghost predicate Numbered(rows: seq<Row>) {
    forall k :: 0 <= k < |rows| ==> rows[k].id == k + 1
  }

  predicate IsPending(row: Row) {
    row.entry.status == "sent" && row.entry.userOpHash.Some? && (row.outcome.success.None? || row.outcome.txHash.None?)
  }

  /** The ids of the pending rows, newest first. */
  function PendingIds(rows: seq<Row>): seq<nat> {
    if rows == [] then []
    else
      (if IsPending(rows[|rows| - 1]) then [rows[|rows| - 1].id] else []) + PendingIds(rows[..|rows| - 1])
  }

  function Take<T>(s: seq<T>, limit: nat): seq<T> {
    if limit <= |s| then s[..limit] else s
  }

  /** The rows that one round looks at. */
  function Batch(rows: seq<Row>, limit: nat): seq<nat> {
    Take(PendingIds(rows), limit)
  }

  function SettleRow(row: Row, s: Settlement, at: int): Row {
    row.(outcome := OutcomeOf(s), settledAt := Some(at))
  }

  /** `UPDATE ... WHERE id = ?` */
  function SettleById(rows: seq<Row>, id: nat, s: Settlement, at: int): (r: seq<Row>)
    ensures |r| == |rows|
    ensures forall k :: 0 <= k < |rows| ==> r[k] == if rows[k].id == id then SettleRow(rows[k], s, at) else rows[k]
  {
    seq(|rows|, k requires 0 <= k < |rows| => if rows[k].id == id then SettleRow(rows[k], s, at) else rows[k])
  }

  /** What the bundler answers for a hash: None while pending or unreachable. */
  type Fetch = string -> Option<Settlement>

  /** A row after its round: with an outcome if it was asked for and its receipt was there. */
  function AnswerRow(row: Row, ids: seq<nat>, fetch: Fetch, at: int): (r: Row)
    ensures r.id == row.id && r.entry == row.entry && r.createdAt == row.createdAt
    ensures row.id !in ids || row.entry.userOpHash.None? || fetch(row.entry.userOpHash.value).None? ==> r == row
    ensures row.id in ids && row.entry.userOpHash.Some? && fetch(row.entry.userOpHash.value).Some? ==>
              r.settledAt == Some(at) && TellsSettlement(r.outcome, fetch(row.entry.userOpHash.value).value)
  {
    if row.id in ids && row.entry.userOpHash.Some? && fetch(row.entry.userOpHash.value).Some?
    then SettleRow(row, fetch(row.entry.userOpHash.value).value, at) else row
  }

  function RoundOver(rows: seq<Row>, ids: seq<nat>, fetch: Fetch, at: int): (r: seq<Row>)
    ensures |r| == |rows|
    ensures forall k :: 0 <= k < |rows| ==> r[k] == AnswerRow(rows[k], ids, fetch, at)
  {
    seq(|rows|, k requires 0 <= k < |rows| => AnswerRow(rows[k], ids, fetch, at))
  }

  function Round(rows: seq<Row>, limit: nat, fetch: Fetch, at: int): seq<Row> {
    RoundOver(rows, Batch(rows, limit), fetch, at)
  }

  function Rounds(rows: seq<Row>, limit: nat, fetch: Fetch, at: int, n: nat): seq<Row>
    decreases n
  {
    if n == 0 then rows else Rounds(Round(rows, limit, fetch, at), limit, fetch, at, n - 1)
  }

  /** Equal in everything but the time of settling. */
  ghost predicate SameOutcomes(a: seq<Row>, b: seq<Row>) {
    |a| == |b| && forall k :: 0 <= k < |a| ==> a[k].(settledAt := None) == b[k].(settledAt := None)
  }

  /** Sent under a hash, and its outcome or its transaction is not known yet. */
  ghost predicate Awaits(row: Row) {
    && row.entry.status == "sent" && row.entry.userOpHash != None
    && (row.outcome.success == None || row.outcome.txHash == None)
  }

  function HashAt(rows: seq<Row>, id: nat): string {
    if 1 <= id <= |rows| then rows[id - 1].entry.userOpHash.UnwrapOr("") else ""
  }

  function Waiting(rows: seq<Row>, limit: nat): seq<(nat, string)> {
    var ids := Batch(rows, limit);
    seq(|ids|, k requires 0 <= k < |ids| => (ids[k], HashAt(rows, ids[k])))
  }

  /** The newest rows that await their outcome, newest first, each with its hash: any other is older than all of a full
      list. */
  ghost predicate AsksNewest(rows: seq<Row>, limit: nat, waiting: seq<(nat, string)>) {
    && |waiting| <= limit && (forall j, k :: 0 <= j < k < |waiting| ==> waiting[j].0 > waiting[k].0)
    && (forall k :: 0 <= k < |waiting| ==>
          && 1 <= waiting[k].0 <= |rows| && Awaits(rows[waiting[k].0 - 1])
          && rows[waiting[k].0 - 1].entry.userOpHash == Some(waiting[k].1))
    && forall i :: 0 <= i < |rows| && Awaits(rows[i]) ==>
         Asked(waiting, i + 1) || (|waiting| == limit && forall k :: 0 <= k < |waiting| ==> i + 1 < waiting[k].0)
  }

  ghost predicate Asked(waiting: seq<(nat, string)>, id: nat) {
    exists k :: 0 <= k < |waiting| && waiting[k].0 == id
  }

  /** The log object. */
  class Log {
    var rows: seq<Row>

    ghost predicate Valid()
      reads this
    {
      Numbered(rows)
    }

    constructor ()
      ensures Valid() && rows == []
    {
      rows := [];
    }

    method Record(entry: Entry, now: int) returns (id: nat)
      requires Valid()
      modifies this
      ensures Valid() && id == |rows|
      ensures rows == old(rows) + [Row(id, now, ClipEntry(entry), Outcome(None, None, None), None)]
    {
      id := |rows| + 1;
      rows := rows + [Row(id, now, ClipEntry(entry), Outcome(None, None, None), None)];
    }

    /** Rows still waiting for a receipt, newest first, with the hash to ask for. */
    method Pending(limit: nat) returns (waiting: seq<(nat, string)>)
      requires Valid()
      ensures waiting == Waiting(rows, limit) && AsksNewest(rows, limit, waiting)
    {
      WaitingAsksNewest(rows, limit);
      hide AsksNewest, Batch;
      var ids, all := Batch(rows, limit), rows;
      return seq(|ids|, k requires 0 <= k < |ids| => (ids[k], HashAt(all, ids[k])));
    }

    /** Touches the outcome fields of the one row with that id, or nothing. */
    method Settle(id: nat, s: Settlement, now: int)
      requires Valid()
      modifies this
      ensures Valid() && rows == SettleById(old(rows), id, s, now)
      ensures forall k :: 0 <= k < |rows| && k != id - 1 ==> rows[k] == old(rows)[k]
      ensures 1 <= id <= |rows| ==>
                && rows[id - 1].entry == old(rows)[id - 1].entry
                && rows[id - 1].createdAt == old(rows)[id - 1].createdAt
                && rows[id - 1].settledAt == Some(now) && TellsSettlement(rows[id - 1].outcome, s)
    {
      rows := SettleById(rows, id, s, now);
    }

    /** The newest rows, newest first, as the page gets them. */
    method Recent(limit: nat, iso: int -> string) returns (entries: seq<HistoryEntry>)
      ensures |entries| == Min(limit, |rows|)
      ensures forall k :: 0 <= k < |entries| ==> Shows(entries[k], rows[|rows| - 1 - k], iso)
    {
      entries := [];
      while |entries| < limit && |entries| < |rows|
        invariant |entries| <= Min(limit, |rows|)
        invariant forall k :: 0 <= k < |entries| ==> Shows(entries[k], rows[|rows| - 1 - k], iso)
      {
        entries := entries + [ToEntry(rows[|rows| - 1 - |entries|], iso)];
      }
    }

    /** One round of settling. The answers arrive in any order and at any time: `order` lists the batch positions as
        they are answered and `clock` gives the times. The outcome fields do not depend on either. */
    method SettlePending(limit: nat, fetch: Fetch, order: seq<nat>, clock: seq<int>)
      requires Valid()
      requires |order| == |clock| == |Batch(rows, limit)|
      requires forall p :: 0 <= p < |order| ==> order[p] < |order|
      requires forall p :: 0 <= p < |order| ==> p in order
      modifies this
      ensures Valid() && SameOutcomes(rows, Round(old(rows), limit, fetch, 0))
    {
      hide Batch, RoundOver, SameOutcomes, SettleById, IsPending, IsCut, TellsSettlement;
      ghost var start, batch := rows, Batch(rows, limit);
      NothingAnswered(rows, fetch);
      var waiting := Pending(limit);
      assert Answered(batch, order[..0]) == [];
      for k := 0 to |order|
        invariant Valid()
        invariant SameOutcomes(rows, RoundOver(start, Answered(batch, order[..k]), fetch, 0))
      {
        var (id, hash) := waiting[order[k]];
        AnsweredNext(batch, order, k);
        SettleAnswer(rows, start, Answered(batch, order[..k]), id, hash, fetch, clock[k]);
        if fetch(hash).Some? {
          Settle(id, fetch(hash).value, clock[k]);
        }
      }
      assert order[..|order|] == order;
      AnsweredAll(batch, order);
      SameIds(start, Answered(batch, order), batch, fetch);
    }
  }

  /** The ids answered so far. */
  ghost function Answered(batch: seq<nat>, order: seq<nat>): seq<nat>
    requires forall p :: 0 <= p < |order| ==> order[p] < |batch|
  {
    seq(|order|, p requires 0 <= p < |order| => batch[order[p]])
  }

  lemma AnsweredNext(batch: seq<nat>, order: seq<nat>, k: nat)
    requires k < |order| && forall p :: 0 <= p < |order| ==> order[p] < |batch|
    ensures Answered(batch, order[..k + 1]) == Answered(batch, order[..k]) + [batch[order[k]]]
  {
  }

  lemma AnsweredAll(batch: seq<nat>, order: seq<nat>)
    requires |order| == |batch|
    requires forall p :: 0 <= p < |order| ==> order[p] < |batch|
    requires forall p :: 0 <= p < |order| ==> p in order
    ensures forall id :: id in Answered(batch, order) <==> id in batch
  {
    forall id | id in batch ensures id in Answered(batch, order) {
      var q :| 0 <= q < |batch| && batch[q] == id;
      assert q in order;
      var p :| 0 <= p < |order| && order[p] == q;
      assert Answered(batch, order)[p] == id;
    }
  }

  lemma SameIds(rows: seq<Row>, a: seq<nat>, b: seq<nat>, fetch: Fetch)
    requires forall id :: id in a <==> id in b
    ensures RoundOver(rows, a, fetch, 0) == RoundOver(rows, b, fetch, 0)
  {
  }

  lemma NothingAnswered(rows: seq<Row>, fetch: Fetch)
    ensures SameOutcomes(rows, RoundOver(rows, [], fetch, 0))
  {
  }

  /** Settling one more answered row does to the rows what the round does to that row. */
  lemma SettleAnswer(rows: seq<Row>, start: seq<Row>, done: seq<nat>, id: nat, hash: string, fetch: Fetch, at: int)
    requires Numbered(start) && Numbered(rows) && SameOutcomes(rows, RoundOver(start, done, fetch, 0))
    requires 1 <= id <= |start| && start[id - 1].entry.userOpHash == Some(hash)
    ensures var next := if fetch(hash).Some? then SettleById(rows, id, fetch(hash).value, at) else rows;
      Numbered(next) && SameOutcomes(next, RoundOver(start, done + [id], fetch, 0))
  {
    var next := if fetch(hash).Some? then SettleById(rows, id, fetch(hash).value, at) else rows;
    forall k | 0 <= k < |start|
      ensures next[k].(settledAt := None) == AnswerRow(start[k], done + [id], fetch, 0).(settledAt := None)
    {
      assert rows[k].(settledAt := None) == AnswerRow(start[k], done, fetch, 0).(settledAt := None);
      assert start[k].id == k + 1 && rows[k].id == k + 1;
    }
  }

  // ---- The pending list ----

  ghost predicate Decreasing(s: seq<nat>) {
    forall i, j :: 0 <= i < j < |s| ==> s[i] > s[j]
  }

  lemma InParts(x: nat, a: seq<nat>, b: seq<nat>)
    ensures x in a + b <==> x in a || x in b
  {
  }

  lemma {:induction false} PendingMembers(rows: seq<Row>, id: nat)
    requires Numbered(rows)
    ensures id in PendingIds(rows) <==> 1 <= id <= |rows| && IsPending(rows[id - 1])
  {
    hide IsPending;
    if rows != [] {
      var n := |rows| - 1;
      var last := if IsPending(rows[n]) then [rows[n].id] else [];
      PendingMembers(rows[..n], id);
      assert rows[n].id == n + 1;
      assert PendingIds(rows) == last + PendingIds(rows[..n]) by {
        hide Numbered;
      }
      hide PendingIds, Numbered;
      InParts(id, last, PendingIds(rows[..n]));
      assert id in last <==> id == n + 1 && IsPending(rows[n]);
    }
  }

  lemma {:induction false} PendingDecreasing(rows: seq<Row>)
    requires Numbered(rows)
    ensures Decreasing(PendingIds(rows))
  {
    hide IsPending;
    if rows != [] {
      var n := |rows| - 1;
      var rest := PendingIds(rows[..n]);
      PendingDecreasing(rows[..n]);
      forall j | 0 <= j < |rest| ensures rest[j] <= n {
        PendingMembers(rows[..n], rest[j]);
      }
      assert PendingIds(rows) == (if IsPending(rows[n]) then [rows[n].id] else []) + rest;
    }
  }

  lemma PendingIdsExact(rows: seq<Row>)
    requires Numbered(rows)
    ensures Decreasing(PendingIds(rows))
    ensures forall id: nat :: id in PendingIds(rows) <==> 1 <= id <= |rows| && IsPending(rows[id - 1])
  {
    PendingDecreasing(rows);
    forall id: nat ensures id in PendingIds(rows) <==> 1 <= id <= |rows| && IsPending(rows[id - 1]) {
      PendingMembers(rows, id);
    }
  }

  /** The batch has the newest of the rows that await their outcome: one left out is older than all of a full batch. */
  lemma BatchFacts(rows: seq<Row>, limit: nat)
    requires Numbered(rows)
    ensures |Batch(rows, limit)| <= limit && Decreasing(Batch(rows, limit))
    ensures forall k :: 0 <= k < |Batch(rows, limit)| ==>
              1 <= Batch(rows, limit)[k] <= |rows| && Awaits(rows[Batch(rows, limit)[k] - 1])
    ensures forall i :: 0 <= i < |rows| && Awaits(rows[i]) && i + 1 !in Batch(rows, limit) ==>
              |Batch(rows, limit)| == limit && forall k :: 0 <= k < limit ==> i + 1 < Batch(rows, limit)[k]
  {
    var all := PendingIds(rows);
    var n := Min(limit, |all|);
    assert Batch(rows, limit) == all[..n];
    PendingIdsExact(rows);
    forall k | 0 <= k < n ensures 1 <= all[k] <= |rows| && Awaits(rows[all[k] - 1]) {
      assert all[k] in all;
    }
    hide PendingIds, Numbered, Batch;
    forall i | 0 <= i < |rows| && Awaits(rows[i]) && i + 1 !in all[..n]
      ensures n == limit && forall k :: 0 <= k < limit ==> i + 1 < all[k]
    {
      assert i + 1 in all;
      PartOf(all, n, i + 1);
      var j :| 0 <= j < |all[n..]| && all[n..][j] == i + 1;
      assert all[n + j] == i + 1;
    }
  }

  lemma AwaitsHash(row: Row)
    requires Awaits(row)
    ensures row.entry.userOpHash.Some?
  {
  }

  lemma WaitingAwaits(rows: seq<Row>, limit: nat)
    requires Numbered(rows)
    ensures var waiting := Waiting(rows, limit);
      && |waiting| <= limit && (forall j, k :: 0 <= j < k < |waiting| ==> waiting[j].0 > waiting[k].0)
      && forall k :: 0 <= k < |waiting| ==>
           && 1 <= waiting[k].0 <= |rows| && Awaits(rows[waiting[k].0 - 1])
           && rows[waiting[k].0 - 1].entry.userOpHash == Some(waiting[k].1)
  {
    BatchFacts(rows, limit);
    hide Batch, Numbered, Awaits;
    forall id: nat | 1 <= id <= |rows| && Awaits(rows[id - 1])
      ensures rows[id - 1].entry.userOpHash == Some(HashAt(rows, id))
    {
      AwaitsHash(rows[id - 1]);
    }
  }

  lemma WaitingAsksNewest(rows: seq<Row>, limit: nat)
    requires Numbered(rows)
    ensures AsksNewest(rows, limit, Waiting(rows, limit))
  {
    BatchFacts(rows, limit);
    WaitingAwaits(rows, limit);
    hide Batch, Numbered, Awaits, Asked, Decreasing;
    var ids, waiting := Batch(rows, limit), Waiting(rows, limit);
    forall i | 0 <= i < |rows| && Awaits(rows[i])
      ensures Asked(waiting, i + 1) || (|waiting| == limit && forall k :: 0 <= k < |waiting| ==> i + 1 < waiting[k].0)
    {
      if i + 1 in ids {
        IsAsked(rows, limit, i + 1);
      }
    }
  }

  lemma IsAsked(rows: seq<Row>, limit: nat, id: nat)
    requires id in Batch(rows, limit)
    ensures Asked(Waiting(rows, limit), id)
  {
    hide Batch;
    var ids := Batch(rows, limit);
    var k :| 0 <= k < |ids| && ids[k] == id;
    assert Waiting(rows, limit)[k].0 == id;
  }

  lemma {:induction false} DecreasingUnique(a: seq<nat>, b: seq<nat>)
    requires Decreasing(a) && Decreasing(b)
    requires forall x :: x in a <==> x in b
    ensures a == b
  {
    assert a != [] ==> a[0] in b;
    assert b != [] ==> b[0] in a;
    if a != [] {
      assert a[0] == b[0];
      forall x ensures x in a[1..] <==> x in b[1..] {
        assert x in a <==> x == a[0] || x in a[1..];
        assert x in b <==> x == b[0] || x in b[1..];
      }
      DecreasingUnique(a[1..], b[1..]);
    }
  }

  /** A settlement is final when it names its transaction; any other leaves the row pending. */
  predicate IsFinal(s: Option<Settlement>) {
    s.Some? && s.value.transactionHash.Some?
  }

  ghost predicate AllFinal(rows: seq<Row>, fetch: Fetch) {
    forall k :: 0 <= k < |rows| && IsPending(rows[k]) ==> IsFinal(fetch(rows[k].entry.userOpHash.value))
  }

  lemma RoundKeepsRows(rows: seq<Row>, limit: nat, fetch: Fetch, at: int)
    requires Numbered(rows)
    ensures Numbered(Round(rows, limit, fetch, at))
    ensures forall k :: 0 <= k < |rows| ==> Round(rows, limit, fetch, at)[k].entry == rows[k].entry
  {
  }

  /** After a round a row is pending exactly if it was, and it was not in the batch with a final receipt. */
  lemma RoundPending(rows: seq<Row>, limit: nat, fetch: Fetch, at: int, k: nat)
    requires Numbered(rows) && k < |rows|
    ensures IsPending(Round(rows, limit, fetch, at)[k]) <==>
            IsPending(rows[k])
            && !(rows[k].id in Batch(rows, limit) && IsFinal(fetch(rows[k].entry.userOpHash.value)))
  {
    PendingIdsExact(rows);
    assert rows[k].id in Batch(rows, limit) ==> rows[k].id in PendingIds(rows);
  }

  /** With final receipts for all, a round takes exactly the newest `limit` rows off the pending list. */
  lemma RoundDropsBatch(rows: seq<Row>, limit: nat, fetch: Fetch, at: int)
    requires Numbered(rows) && AllFinal(rows, fetch)
    ensures var after := Round(rows, limit, fetch, at);
      && Numbered(after) && AllFinal(after, fetch)
      && PendingIds(after) == PendingIds(rows)[Min(limit, |PendingIds(rows)|)..]
  {
    hide IsPending, IsFinal, AnswerRow, PendingIds;
    var after, ids := Round(rows, limit, fetch, at), PendingIds(rows);
    var n := Min(limit, |ids|);
    PendingIdsExact(rows);
    PendingIdsExact(after);
    forall k | 0 <= k < |rows|
      ensures IsPending(after[k]) <==> IsPending(rows[k]) && rows[k].id !in ids[..n]
      ensures after[k].id == rows[k].id && after[k].entry == rows[k].entry
    {
      RoundPending(rows, limit, fetch, at, k);
    }
    forall id: nat ensures id in PendingIds(after) <==> id in ids[n..] {
      PartOf(ids, n, id);
      if 1 <= id <= |rows| {
        assert rows[id - 1].id == id;
      }
    }
    DecreasingUnique(PendingIds(after), ids[n..]);
  }

  lemma PartOf(ids: seq<nat>, n: nat, id: nat)
    requires Decreasing(ids) && n <= |ids|
    ensures id in ids[n..] <==> id in ids && id !in ids[..n]
  {
  }

  /** k rounds leave the p - k * limit oldest pending rows. */
  lemma {:induction false} RoundsDrop(rows: seq<Row>, limit: nat, fetch: Fetch, at: int, k: nat)
    requires Numbered(rows) && AllFinal(rows, fetch)
    ensures |PendingIds(Rounds(rows, limit, fetch, at, k))| == Max(0, |PendingIds(rows)| - k * limit)
    decreases k
  {
    hide Round, AllFinal, PendingIds, Numbered;
    if k > 0 {
      RoundDropsBatch(rows, limit, fetch, at);
      RoundsDrop(Round(rows, limit, fetch, at), limit, fetch, at, k - 1);
      assert k * limit == (k - 1) * limit + limit;
    }
  }

  /** A row whose receipt never becomes final stays pending through any number of rounds. */
  lemma {:induction false} NeverFinalStaysPending(rows: seq<Row>, limit: nat, fetch: Fetch, at: int, k: nat, row: nat)
    requires Numbered(rows) && row < |rows| && IsPending(rows[row])
    requires !IsFinal(fetch(rows[row].entry.userOpHash.value))
    ensures PendingIds(Rounds(rows, limit, fetch, at, k)) != []
    decreases k
  {
    if k == 0 {
      PendingIdsExact(rows);
      assert row + 1 in PendingIds(rows);
    } else {
      RoundPending(rows, limit, fetch, at, row);
      RoundKeepsRows(rows, limit, fetch, at);
      NeverFinalStaysPending(Round(rows, limit, fetch, at), limit, fetch, at, k - 1, row);
    }
  }

  /** The number of rounds of `limit` rows that p pending rows need. */
  function RoundsNeeded(p: nat, limit: nat): nat
    requires limit >= 1
  {
    (p + limit - 1) / limit
  }

  /** ceil(p / limit) rounds leave nothing pending if and only if every pending row has a final receipt; then fewer
      rounds do not. */
  lemma SettledInRoundsNeeded(rows: seq<Row>, limit: nat, fetch: Fetch, at: int)
    requires Numbered(rows) && limit >= 1
    ensures var needed := RoundsNeeded(|PendingIds(rows)|, limit);
      && (PendingIds(Rounds(rows, limit, fetch, at, needed)) == [] <==> AllFinal(rows, fetch))
      && (AllFinal(rows, fetch) ==>
            forall k: nat :: k < needed ==> PendingIds(Rounds(rows, limit, fetch, at, k)) != [])
  {
    var p := |PendingIds(rows)|;
    var needed := RoundsNeeded(p, limit);
    if AllFinal(rows, fetch) {
      RoundsDrop(rows, limit, fetch, at, needed);
      EnoughRounds(p, limit);
      forall k: nat | k < needed ensures PendingIds(Rounds(rows, limit, fetch, at, k)) != [] {
        RoundsDrop(rows, limit, fetch, at, k);
        TooFewRounds(p, limit, k);
      }
    } else {
      var row :| 0 <= row < |rows| && IsPending(rows[row]) && !IsFinal(fetch(rows[row].entry.userOpHash.value));
      NeverFinalStaysPending(rows, limit, fetch, at, needed, row);
    }
  }

  lemma EnoughRounds(p: nat, limit: nat)
    requires limit >= 1
    ensures RoundsNeeded(p, limit) * limit >= p
  {
  }

  lemma TooFewRounds(p: nat, limit: nat, k: nat)
    requires limit >= 1 && k < RoundsNeeded(p, limit)
    ensures k * limit < p
  {
    var q, r := (p + limit - 1) / limit, (p + limit - 1) % limit;
    assert p + limit - 1 == q * limit + r;
    MulStep(k, q, limit);
  }

  /** The round always takes the newest rows: while none of those has a receipt, no older row is ever settled. */
  lemma {:induction false} StuckBatchBlocksOlder(rows: seq<Row>, limit: nat, fetch: Fetch, at: int, k: nat)
    requires Numbered(rows)
    requires forall i :: 0 <= i < |rows| && rows[i].id in Batch(rows, limit) ==>
               rows[i].entry.userOpHash.Some? && fetch(rows[i].entry.userOpHash.value).None?
    ensures Rounds(rows, limit, fetch, at, k) == rows
    decreases k
  {
    if k > 0 {
      assert Round(rows, limit, fetch, at) == rows;
      StuckBatchBlocksOlder(rows, limit, fetch, at, k - 1);
    }
  }

  // ---- The log as an append-only sequence ----

  datatype Op = DoRecord(entry: Entry, now: int) | DoSettle(id: nat, s: Settlement, now: int)

  function Apply(rows: seq<Row>, op: Op): seq<Row> {
    match op
    case DoRecord(entry, now) =>
      rows + [Row(|rows| + 1, now, ClipEntry(entry), Outcome(None, None, None), None)]
    case DoSettle(id, s, now) => SettleById(rows, id, s, now)
  }

  function ApplyAll(ops: seq<Op>): seq<Row> {
    if ops == [] then [] else Apply(ApplyAll(ops[..|ops| - 1]), ops[|ops| - 1])
  }

  /** The records among the operations, in order. */
  function Records(ops: seq<Op>): seq<Op> {
    if ops == [] then []
    else Records(ops[..|ops| - 1]) + if ops[|ops| - 1].DoRecord? then [ops[|ops| - 1]] else []
  }

  /** The outcome fields of the row with an id: those of the last settlement of that id made after the row existed. */
  ghost function LastOutcome(ops: seq<Op>, id: nat): Outcome {
    if ops == [] then Outcome(None, None, None)
    else
      var last := ops[|ops| - 1];
      if last.DoSettle? && last.id == id && id <= |Records(ops)| then OutcomeOf(last.s)
      else LastOutcome(ops[..|ops| - 1], id)
  }

  /** Whatever is recorded and settled, in any order: row k is the k-th record, unchanged but for its outcome fields,
      and those are the last settlement of that id. */
  lemma {:induction false} LogIsAppendOnly(ops: seq<Op>)
    ensures var rows, records := ApplyAll(ops), Records(ops);
      && Numbered(rows) && |rows| == |records|
      && (forall k :: 0 <= k < |rows| ==>
            && records[k].DoRecord?
            && rows[k].entry == ClipEntry(records[k].entry) && rows[k].createdAt == records[k].now
            && rows[k].outcome == LastOutcome(ops, k + 1))
      && forall id :: id > |rows| ==> LastOutcome(ops, id) == Outcome(None, None, None)
  {
    hide ClipEntry, OutcomeOf, IsCut, TellsSettlement;
    if ops != [] {
      LogIsAppendOnly(ops[..|ops| - 1]);
    }
  }

  /** The time of the last settlement of an id made after the row existed. */
  ghost function LastSettledAt(ops: seq<Op>, id: nat): Option<int> {
    if ops == [] then None
    else
      var last := ops[|ops| - 1];
      if last.DoSettle? && last.id == id && id <= |Records(ops)| then Some(last.now)
      else LastSettledAt(ops[..|ops| - 1], id)
  }

  lemma {:induction false} NeverSettledBefore(ops: seq<Op>, id: nat)
    requires id > |Records(ops)|
    ensures LastSettledAt(ops, id) == None
  {
    if ops != [] {
      NeverSettledBefore(ops[..|ops| - 1], id);
    }
  }

  /** Every row bears the time of its last settlement, and none before it has one. */
  lemma {:induction false} SettledAtIsLast(ops: seq<Op>, k: nat)
    requires k < |ApplyAll(ops)|
    ensures ApplyAll(ops)[k].settledAt == LastSettledAt(ops, k + 1)
  {
    hide ClipEntry, OutcomeOf, IsCut, TellsSettlement;
    LogIsAppendOnly(ops);
    if ops != [] {
      var rest := ops[..|ops| - 1];
      LogIsAppendOnly(rest);
      if k < |ApplyAll(rest)| {
        SettledAtIsLast(rest, k);
      } else {
        NeverSettledBefore(rest, k + 1);
      }
    }
  }
}
