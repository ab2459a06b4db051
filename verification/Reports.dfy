/** What the bundler answers about an operation that its history holds. */
module Reports {
  import opened Wrappers
  import opened Bytes
  import opened Hex
  import opened Js
  import opened Abi
  import opened UserOps
  import opened Receipts
  import opened BundlerMachine

  const ZERO_ADDRESS: Address := Zeros(20)

  /** The nested transaction receipt. */
  datatype TxReport = TxReport(
    transactionHash: Bytes32,
    transactionIndex: string,
    blockHash: Bytes32,
    blockNumber: string,
    sender: Address,
    to: Option<Address>,
    cumulativeGasUsed: string,
    gasUsed: string,
    effectiveGasPrice: string,
    status: string)

  /** The answer of `eth_getUserOperationReceipt`. */
  datatype FullReceipt = FullReceipt(
    userOpHash: Hash,
    entryPoint: Address,
    sender: Address,
    nonce: string,
    paymaster: Address,
    actualGasCost: string,
    actualGasUsed: string,
    success: bool,
    logs: seq<Log>,
    receipt: TxReport)

  /** The answer of `eth_getUserOperationByHash`. */
  datatype OpReport = OpReport(
    userOperation: Json,
    entryPoint: Address,
    transactionHash: Option<Bytes32>,
    blockHash: Option<Bytes32>,
    blockNumber: Option<string>)

  /** The part of the answer that the server and the browser read. */
  function Seen(full: FullReceipt): RpcReceipt {
    RpcReceipt(Some(full.success), full.logs, Some(full.receipt.transactionHash))
  }

  predicate Reads(text: string, n: int) {
    StringToBigInt(text) == Some(n)
  }

  /** The answer tells this of an item that holds that receipt: every number reads back, the event's three fields fall
      back to nothing paid by nobody, and success to the transaction's status. */
  ghost predicate Tells(full: FullReceipt, entryPoint: Address, d: ItemData, stored: StoredReceipt) {
    && full.userOpHash == d.hash && full.entryPoint == entryPoint && full.sender == d.op.sender
    && Reads(full.nonce, d.op.nonce)
    && full.paymaster == (if stored.event.Some? then stored.event.value.paymaster else ZERO_ADDRESS)
    && Reads(full.actualGasCost, if stored.event.Some? then stored.event.value.actualGasCost else 0)
    && Reads(full.actualGasUsed, if stored.event.Some? then stored.event.value.actualGasUsed else 0)
    && Seen(full) == ReportReceipt(stored)
    && TellsTx(full.receipt, stored.tx)
  }

  ghost predicate TellsTx(r: TxReport, tx: TxReceipt) {
    && r.transactionHash == tx.hash && r.blockHash == tx.blockHash && r.sender == tx.sender && r.to == tx.to
    && Reads(r.transactionIndex, tx.index) && Reads(r.blockNumber, tx.blockNumber)
    && Reads(r.cumulativeGasUsed, tx.cumulativeGasUsed) && Reads(r.gasUsed, tx.gasUsed)
    && Reads(r.effectiveGasPrice, tx.gasPrice) && Reads(r.status, tx.status)
  }

  function PrintTx(tx: TxReceipt): TxReport {
    TxReport(tx.hash, ToQuantity(tx.index), tx.blockHash, ToQuantity(tx.blockNumber), tx.sender, tx.to,
             ToQuantity(tx.cumulativeGasUsed), ToQuantity(tx.gasUsed), ToQuantity(tx.gasPrice), ToQuantity(tx.status))
  }

  function PrintReceipt(entryPoint: Address, hash: Hash, op: UserOp, stored: StoredReceipt): FullReceipt
    requires op.nonce >= 0
  {
    var event := stored.event.UnwrapOr(OpEvent(ZERO_ADDRESS, stored.tx.status == 1, 0, 0));
    FullReceipt(hash, entryPoint, op.sender, ToQuantity(op.nonce), event.paymaster, ToQuantity(event.actualGasCost),
                ToQuantity(event.actualGasUsed), event.success, stored.tx.logs, PrintTx(stored.tx))
  }

  lemma PrintedReads(n: nat)
    ensures Reads(ToQuantity(n), n)
  {
    QuantityTextReadsBack(n);
  }

  lemma PrintedTxTells(tx: TxReceipt)
    ensures TellsTx(PrintTx(tx), tx)
  {
    hide Reads, ToQuantity;
    PrintedReads(tx.index);
    PrintedReads(tx.blockNumber);
    PrintedReads(tx.cumulativeGasUsed);
    PrintedReads(tx.gasUsed);
    PrintedReads(tx.gasPrice);
    PrintedReads(tx.status);
  }

  lemma PrintedReceiptTells(entryPoint: Address, d: ItemData, stored: StoredReceipt)
    requires d.op.nonce >= 0
    ensures Tells(PrintReceipt(entryPoint, d.hash, d.op, stored), entryPoint, d, stored)
  {
    hide Reads, ToQuantity, TellsTx;
    var event := stored.event.UnwrapOr(OpEvent(ZERO_ADDRESS, stored.tx.status == 1, 0, 0));
    PrintedReads(d.op.nonce);
    PrintedReads(event.actualGasCost);
    PrintedReads(event.actualGasUsed);
    PrintedTxTells(stored.tx);
  }

  /** The answer tells this of an item: its printed operation normalises back to it, and where a receipt is there, its
      block. */
  ghost predicate TellsOp(r: OpReport, entryPoint: Address, d: ItemData) {
    && NormalizeUserOp(r.userOperation) == Ok(d.op)
    && r.entryPoint == entryPoint && r.transactionHash == d.transactionHash
    && (d.receipt.None? ==> r.blockHash.None? && r.blockNumber.None?)
    && (d.receipt.Some? ==> r.blockHash == Some(d.receipt.value.tx.blockHash)
                            && r.blockNumber.Some? && Reads(r.blockNumber.value, d.receipt.value.tx.blockNumber))
  }
}
