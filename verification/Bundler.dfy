/** The bundler object: its two maps, its flag and the item objects they share, changed in place. Each method is one
    stretch of source code between two `await`s and does exactly the matching step of the machine. */
module Bundler {
  import opened Wrappers
  import opened Abi
  import opened Hex
  import opened Js
  import opened UserOps
  import opened Receipts
  import opened InsertionMap
  import opened BundlerMachine
  import opened Reports

  /** One accepted operation; the mempool and the history hold the same object. */
  class Item {
    const userOpHash: Hash
    const op: UserOp
    var status: Status
    var transactionHash: Option<Bytes32>
    var receipt: Option<StoredReceipt>
    var error: Option<string>

    constructor (userOpHash: Hash, op: UserOp)
      ensures Data() == NewItem(userOpHash, op)
    {
      this.userOpHash, this.op := userOpHash, op;
      status, transactionHash, receipt, error := Pending, None, None, None;
    }

    ghost function Data(): ItemData
      reads this
    {
      ItemData(userOpHash, op, status, transactionHash, receipt, error)
    }

    method Include(tx: TxReceipt, event: Option<OpEvent>)
      modifies this
      ensures Data() == old(Data()).(status := Included, transactionHash := Some(tx.hash),
                                     receipt := Some(StoredReceipt(tx, event)))
    {
      status := Included;
      transactionHash := Some(tx.hash);
      receipt := Some(StoredReceipt(tx, event));
    }

    /** What `markIncluded` has written when it throws on a receipt. */
    method HalfInclude(touched: Option<Bytes32>)
      modifies this
      ensures Data() == old(Data()).(status := Included, transactionHash := touched)
    {
      status := Included;
      transactionHash := touched;
    }

    method Fail(reason: string)
      modifies this
      ensures Data() == old(Data()).(status := Failed, error := Some(reason))
    {
      status := Failed;
      error := Some(reason);
    }
  }

  ghost predicate HoldsData(items: seq<Item>, data: map<Item, ItemData>)
    reads items
  {
    forall i :: i in items ==> i in data && i.Data() == data[i]
  }

  lemma DistinctItems(items: seq<Item>)
    requires Distinct(items)
    ensures forall i, j :: 0 <= i < j < |items| ==> items[i] != items[j]
  {
  }

  function HashesOf(items: seq<Item>): seq<Hash> {
    seq(|items|, j requires 0 <= j < |items| => items[j].userOpHash)
  }

  /** What the loops over a bundle need to know about the state they start in and the one they end in. */
  lemma FlightFacts(s: State<Item>, e: Event<Item>)
    requires Inv(s) && s.inFlight.Some? && (e.BundleOk? || e.BundleFail?)
    ensures Distinct(s.inFlight.value) && WellFormed(s)
    ensures forall j :: 0 <= j < |s.inFlight.value| ==>
              s.inFlight.value[j] in s.accepted && s.inFlight.value[j] in s.data
    ensures forall i :: i in s.accepted ==> i in s.data
    ensures Settled(s, e).Keys == s.data.Keys
    ensures Inv(Step(s, e))
    ensures Step(s, e) == s.(mempool := s.mempool.DeleteAll(Hashes(s.data, s.inFlight.value)), data := Settled(s, e),
                             inFlight := None, finished := s.finished + [s.inFlight.value])
  {
    FlightIsDistinct(s);
    FinishStepKeepsInv(s, e);
  }

  lemma CommitFacts(s: State<Item>, hash: Hash, op: UserOp, item: Item)
    requires Inv(s) && Send(hash, op) in s.checked && item !in s.accepted
    ensures WellFormed(s) && Enabled(s, SendCommit(hash, op, item))
    ensures Inv(Step(s, SendCommit(hash, op, item)))
    ensures Step(s, SendCommit(hash, op, item)) ==
      State(s.maxBundleSize, s.mempool.Set(hash, item), s.history[hash := item], s.data[item := NewItem(hash, op)],
            s.checked - multiset{Send(hash, op)}, s.inFlight, s.accepted + [item], s.finished)
  {
    CommitKeepsInv(s, hash, op, item);
  }

  /** What the two loops must have written for the contents to be those of the step. */
  lemma OkData(s: State<Item>, e: Event<Item>)
    requires Inv(s) && s.inFlight.Some? && e.BundleOk?
    requires forall j :: 0 <= j < |s.inFlight.value| ==> s.inFlight.value[j] in s.data
    ensures Settled(s, e).Keys == s.data.Keys
    ensures forall i :: i in s.data ==>
              Settled(s, e)[i]
              == if i in s.inFlight.value then BundlerMachine.MarkIncluded(s.data[i], e.tx) else s.data[i]
  {
  }

  lemma FailData(s: State<Item>, e: Event<Item>)
    requires s.inFlight.Some? && e.BundleFail? && Distinct(s.inFlight.value)
    requires forall j :: 0 <= j < |s.inFlight.value| ==> s.inFlight.value[j] in s.data
    ensures Settled(s, e).Keys == s.data.Keys
    ensures forall i :: i in s.data && i !in s.inFlight.value ==> Settled(s, e)[i] == s.data[i]
    ensures forall j :: 0 <= j < |s.inFlight.value| ==>
              var i := s.inFlight.value[j];
              Settled(s, e)[i] == MarkFailed(if j == 0 then Touch(s.data[i], e.touched) else s.data[i], e.reason)
  {
    hide MarkFailed, Touch;
  }

  lemma IncludedData(d: ItemData, tx: TxReceipt)
    ensures BundlerMachine.MarkIncluded(d, tx)
         == d.(status := Included, transactionHash := Some(tx.hash),
               receipt := Some(StoredReceipt(tx, Lookup(EventIndex(tx.logs), d.hash))))
  {
  }

  class LnetBundler {
    const entryPoint: Address
    const maxBundleSize: int
    var mempool: InsertionMap<Hash, Item>
    var history: map<Hash, Item>
    var bundling: bool

    /** The machine state that the object is in; `Valid` ties it to the fields and to the contents of the items. */
    ghost var model: State<Item>

    ghost predicate Valid()
      reads this, model.accepted
    {
      && Inv(model) && AllEncodable(model)
      && model.maxBundleSize == maxBundleSize && model.mempool == mempool && model.history == history
      && bundling == model.inFlight.Some?
      && HoldsData(model.accepted, model.data)
    }

    constructor (entryPoint: Address, maxBundleSize: int)
      ensures Valid() && model == Init(maxBundleSize) && this.entryPoint == entryPoint
    {
      this.entryPoint, this.maxBundleSize := entryPoint, maxBundleSize;
      mempool, history, bundling := Empty(), map[], false;
      model := Init(maxBundleSize);
    }

    /** The duplicate test, once the hash has arrived; it arrives only for an operation that the ABI encoder takes. */
    method SendCheck(hash: Hash, op: UserOp) returns (known: bool)
      requires Valid() && Encodable(op)
      modifies this`model
      ensures Valid() && model == Step(old(model), BundlerMachine.SendCheck(hash, op))
      ensures known <==> hash in history || mempool.Has(hash)
    {
      hide Inv, AllEncodable, Encodable;
      ghost var e := BundlerMachine.SendCheck(hash, op);
      InvIsWellFormed(model);
      InvStep(model, e);
      EncodableStep(model, e);
      known := hash in history || mempool.Has(hash);
      model := Step(model, e);
    }

    /** The simulation threw. */
    method SendReject(hash: Hash, op: UserOp)
      requires Valid() && Send(hash, op) in model.checked
      modifies this`model
      ensures Valid() && model == Step(old(model), BundlerMachine.SendReject(hash, op))
    {
      hide Inv, AllEncodable;
      ghost var e := BundlerMachine.SendReject(hash, op);
      InvIsWellFormed(model);
      InvStep(model, e);
      EncodableStep(model, e);
      model := Step(model, e);
    }

    /** The simulation passed: the operation enters both maps. */
    method SendCommit(hash: Hash, op: UserOp) returns (item: Item)
      requires Valid() && Send(hash, op) in model.checked
      modifies this
      ensures fresh(item)
      ensures Valid() && model == Step(old(model), BundlerMachine.SendCommit(hash, op, item))
    {
      hide Inv, WellFormed, Step, AllEncodable;
      item := new Item(hash, op);
      CommitFacts(model, hash, op, item);
      EncodableStep(model, BundlerMachine.SendCommit(hash, op, item));
      mempool := mempool.Set(hash, item);
      history := history[hash := item];
      model := Step(model, BundlerMachine.SendCommit(hash, op, item));
    }

    /** The start of `bundleNow`: None where it returns null at once. */
    method BundleStart() returns (items: Option<seq<Item>>)
      requires Valid()
      modifies this`bundling, this`model
      ensures Valid() && model == Step(old(model), BundlerMachine.BundleStart)
      ensures items.None? <==> old(bundling) || mempool.keys == []
      ensures items.Some? ==> model.inFlight == items
    {
      StartKeepsInv(model);
      EncodableStep(model, BundlerMachine.BundleStart);
      if bundling || mempool.keys == [] {
        return None;
      }
      bundling := true;
      var values := mempool.Values();
      items := Some(values[..SliceEnd(|values|, maxBundleSize)]);
      model := Step(model, BundlerMachine.BundleStart);
    }

    /** On a receipt it can read: the index loop, then one update and one deletion per item. */
    method MarkIncluded(items: seq<Item>, receipt: TxReceipt)
      requires Distinct(items)
      modifies this`mempool, items
      ensures mempool == old(mempool).DeleteAll(HashesOf(items))
      ensures forall j :: 0 <= j < |items| ==>
                items[j].Data() == BundlerMachine.MarkIncluded(old(items[j].Data()), receipt)
    {
      hide EventIndex, Distinct, Lookup, BundlerMachine.MarkIncluded;
      ghost var hs := HashesOf(items);
      assert forall i, j :: 0 <= i < j < |items| ==> items[i] != items[j] by {
        DistinctItems(items);
      }
      var events := BuildIndex(receipt.logs);
      for k := 0 to |items|
        invariant mempool == old(mempool).DeleteAll(hs[..k])
        invariant forall j :: 0 <= j < k ==>
                    items[j].Data() == BundlerMachine.MarkIncluded(old(items[j].Data()), receipt)
        invariant forall j :: k <= j < |items| ==> items[j].Data() == old(items[j].Data())
      {
        assert items[k].Data().hash == items[k].userOpHash;
        IncludedData(items[k].Data(), receipt);
        items[k].Include(receipt, Lookup(events, items[k].userOpHash));
        mempool := mempool.Delete(items[k].userOpHash);
        assert hs[..k + 1][..k] == hs[..k];
      }
      assert hs[..|items|] == hs;
    }

    /** The loop of the catch block. */
    method FailItems(items: seq<Item>, reason: string)
      requires Distinct(items)
      modifies this`mempool, items
      ensures mempool == old(mempool).DeleteAll(HashesOf(items))
      ensures forall j :: 0 <= j < |items| ==> items[j].Data() == MarkFailed(old(items[j].Data()), reason)
    {
      ghost var hs := HashesOf(items);
      for k := 0 to |items|
        invariant mempool == old(mempool).DeleteAll(hs[..k])
        invariant forall j :: 0 <= j < k ==> items[j].Data() == MarkFailed(old(items[j].Data()), reason)
        invariant forall j :: k <= j < |items| ==> items[j].Data() == old(items[j].Data())
      {
        items[k].Fail(reason);
        mempool := mempool.Delete(items[k].userOpHash);
        assert hs[..k + 1][..k] == hs[..k];
      }
      assert hs[..|items|] == hs;
    }

    /** `markIncluded` throwing on a receipt it cannot read, having half written its first item, or never reached at
        all; then the catch block. */
    method FailAll(items: seq<Item>, reason: string, touched: Option<Bytes32>)
      requires Distinct(items)
      modifies this`mempool, items
      ensures mempool == old(mempool).DeleteAll(HashesOf(items))
      ensures forall j :: 0 <= j < |items| ==>
                items[j].Data() == MarkFailed(if j == 0 then Touch(old(items[j].Data()), touched)
                                              else old(items[j].Data()), reason)
    {
      if touched.Some? && items != [] {
        items[0].HalfInclude(touched);
        assert forall j :: 1 <= j < |items| ==> items[j].Data() == old(items[j].Data());
      }
      FailItems(items, reason);
    }

    /** The `finally` block, once the loops have brought the mempool and the items to where the step leaves them. */
    method ClearBundling(ghost e: Event<Item>)
      requires Inv(model) && WellFormed(model) && AllEncodable(model)
      requires (e.BundleOk? || e.BundleFail?) && Enabled(model, e)
      requires forall j :: 0 <= j < |model.inFlight.value| ==> model.inFlight.value[j] in model.data
      requires model.maxBundleSize == maxBundleSize && model.history == history
      requires mempool == model.mempool.DeleteAll(Hashes(model.data, model.inFlight.value))
      requires HoldsData(model.accepted, Settled(model, e))
      modifies this`bundling, this`model
      ensures Valid() && model == Step(old(model), e)
    {
      hide Inv, WellFormed, Step, Finish, AllEncodable, Settled, Hashes;
      FlightFacts(model, e);
      EncodableStep(model, e);
      model := Step(model, e);
      bundling := false;
    }

    /** `bundleNow` after its last `await`, with a mined receipt. */
    method BundleOk(items: seq<Item>, receipt: TxReceipt)
      requires Valid() && model.inFlight == Some(items)
      modifies this, items
      ensures Valid() && model == Step(old(model), BundlerMachine.BundleOk(receipt))
    {
      hide Inv, WellFormed, Step, AllEncodable, Settled, BundlerMachine.MarkIncluded, Distinct;
      ghost var s, e := model, BundlerMachine.BundleOk(receipt);
      FlightFacts(s, e);
      OkData(s, e);
      assert Hashes(s.data, items) == HashesOf(items);
      MarkIncluded(items, receipt);
      assert HoldsData(s.accepted, Settled(s, e)) by {
        forall i | i in s.accepted ensures i in Settled(s, e) && i.Data() == Settled(s, e)[i] {
          if i in items {
            var j :| 0 <= j < |items| && items[j] == i;
          }
        }
      }
      ClearBundling(e);
    }

    /** `bundleNow` after an exception, be it of the submission, of the waiting or of `markIncluded`. */
    method BundleFail(items: seq<Item>, reason: string, touched: Option<Bytes32>)
      requires Valid() && model.inFlight == Some(items)
      modifies this, items
      ensures Valid() && model == Step(old(model), BundlerMachine.BundleFail(reason, touched))
    {
      hide Inv, WellFormed, Step, AllEncodable, Settled, MarkFailed, Touch, Distinct;
      ghost var s, e := model, BundlerMachine.BundleFail(reason, touched);
      FlightFacts(s, e);
      FailData(s, e);
      assert Hashes(s.data, items) == HashesOf(items);
      FailAll(items, reason, touched);
      assert HoldsData(s.accepted, Settled(s, e)) by {
        forall i | i in s.accepted ensures i in Settled(s, e) && i.Data() == Settled(s, e)[i] {
          if i in items {
            var j :| 0 <= j < |items| && items[j] == i;
          }
        }
      }
      ClearBundling(e);
    }

    /** `eth_getUserOperationReceipt`: an answer exactly once the held item has a receipt, and it tells that receipt. */
    method GetUserOperationReceipt(hash: Hash) returns (report: Option<FullReceipt>)
      requires Valid()
      ensures report.Some? ==> ReceiptOf(model, hash) == Some(Seen(report.value))
      ensures report.None? ==> ReceiptOf(model, hash) == None
      ensures report.Some? ==> var d := model.data[model.history[hash]];
        d.receipt.Some? && Tells(report.value, entryPoint, d, d.receipt.value)
    {
      hide Tells, ToQuantity, Encodable;
      if hash !in history || history[hash].receipt.None? {
        return None;
      }
      var item := history[hash];
      EncodableNonce(item.op);
      PrintedReceiptTells(entryPoint, item.Data(), item.receipt.value);
      assert Seen(PrintReceipt(entryPoint, hash, item.op, item.receipt.value)) == ReportReceipt(item.receipt.value);
      return Some(PrintReceipt(entryPoint, hash, item.op, item.receipt.value));
    }

    /** `eth_getUserOperationByHash`: an answer exactly for a held operation. It is always printed, and tells it. */
    method GetUserOperationByHash(hash: Hash) returns (found: Option<OpReport>)
      requires Valid()
      ensures found.None? <==> hash !in history
      ensures found.Some? ==> TellsOp(found.value, entryPoint, model.data[history[hash]])
    {
      hide Encodable, ToQuantity, NormalizeUserOp, Reads;
      if hash !in history {
        return None;
      }
      var item := history[hash];
      EncodablePrints(item.op);
      var printed := SerializeUserOp(item.op).value;
      if item.receipt.None? {
        return Some(OpReport(printed, entryPoint, item.transactionHash, None, None));
      }
      var tx := item.receipt.value.tx;
      PrintedReads(tx.blockNumber);
      var blockNumber := ToQuantity(tx.blockNumber);
      return Some(OpReport(printed, entryPoint, item.transactionHash, Some(tx.blockHash), Some(blockNumber)));
    }
  }

  lemma EncodableNonce(op: UserOp)
    requires Encodable(op)
    ensures op.nonce >= 0
  {
  }
}
