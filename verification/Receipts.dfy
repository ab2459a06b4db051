/** From a transaction receipt to the outcome of one UserOperation: the bundler's event index, the server's rescan of
    the logs, and the browser's own copy of that rescan. */
module Receipts {
  import opened Wrappers
  import opened Bytes
  import opened Hex
  import opened Abi

  datatype Log = Log(address: Address, topics: seq<Bytes32>, data: seq<Byte>, transactionHash: Option<Bytes32>)

  datatype TxReceipt = TxReceipt(
    hash: Bytes32,
    status: nat,
    logs: seq<Log>,
    index: nat,
    blockHash: Bytes32,
    blockNumber: nat,
    sender: Address,
    to: Option<Address>,
    cumulativeGasUsed: nat,
    gasUsed: nat,
    gasPrice: nat)

  datatype OpEvent = OpEvent(paymaster: Address, success: bool, actualGasCost: nat, actualGasUsed: nat)

  /** What `markIncluded` stores in an item: the receipt and the event found for the item, if any. */
  datatype StoredReceipt = StoredReceipt(tx: TxReceipt, event: Option<OpEvent>)

  /** keccak256("UserOperationEvent(bytes32,address,address,uint256,bool,uint256,uint256)") */
  const OPERATION_TOPIC: Bytes32 := [
    0x49, 0x62, 0x8f, 0xd1, 0x47, 0x10, 0x06, 0xc1, 0x48, 0x2d, 0xa8, 0x80, 0x28, 0xe9, 0xce, 0x4d,
    0xbb, 0x08, 0x0b, 0x81, 0x5c, 0x9b, 0x03, 0x44, 0xd3, 0x9e, 0x5a, 0x8e, 0x6e, 0xc1, 0x41, 0x9f]

  /** keccak256("UserOperationRevertReason(bytes32,address,uint256,bytes)") */
  const REVERT_TOPIC: Bytes32 := [
    0x1c, 0x4f, 0xad, 0xa7, 0x37, 0x4c, 0x0a, 0x9e, 0xe8, 0x84, 0x1f, 0xc3, 0x8a, 0xfe, 0x82, 0x93,
    0x2d, 0xc0, 0xf8, 0xe6, 0x90, 0x12, 0xe9, 0x27, 0xf0, 0x61, 0xa8, 0xba, 0xe6, 0x11, 0xa2, 0x01]

  /** `parseLog` followed by the reads of its arguments: None where it finds another event or throws. */
  function ParseEvent(log: Log): Option<(Bytes32, OpEvent)> {
    if |log.topics| < 4 || log.topics[0] != OPERATION_TOPIC || |log.data| < 128 then None
    else
      match DecodeAddress(log.topics[3])
      case None => None
      case Some(paymaster) =>
        Some((log.topics[1],
              OpEvent(paymaster, ToNat(log.data[32..64]) != 0, ToNat(log.data[64..96]), ToNat(log.data[96..128]))))
  }

  ghost predicate IsEventOf(log: Log, hash: Bytes32, event: OpEvent) {
    ParseEvent(log) == Some((hash, event))
  }

  /** The event's layout: the hash and the paymaster are its first and third indexed arguments; of the four data words
      the second is the flag, the third the gas cost and the fourth the gas used. */
  ghost predicate ReadsAsEvent(log: Log, hash: Bytes32, event: OpEvent) {
    && |log.topics| >= 4 && |log.data| >= 128
    && log.topics[0] == OPERATION_TOPIC && log.topics[1] == hash && log.topics[3] == AddressWord(event.paymaster)
    && (event.success <==> log.data[32..64] != Word(0))
    && event.actualGasCost < UINT256 && log.data[64..96] == Word(event.actualGasCost)
    && event.actualGasUsed < UINT256 && log.data[96..128] == Word(event.actualGasUsed)
  }

  lemma WordIs(w: Bytes32, n: nat)
    ensures ToNat(w) == n <==> n < UINT256 && w == Word(n)
  {
    hide ToNat, Word;
    WordText(w);
    if n < UINT256 {
      ToNatWord(n);
    }
  }

  /** An event is found exactly where the log is laid out as that event of that hash. */
  lemma ParseEventExact(log: Log, hash: Bytes32, event: OpEvent)
    ensures IsEventOf(log, hash, event) <==> ReadsAsEvent(log, hash, event)
  {
    hide ToNat, Word, DecodeAddress, AddressWord;
    AddressWordReadsBack(event.paymaster);
    if |log.topics| >= 4 && |log.data| >= 128 {
      DecodeAddressSound(log.topics[3]);
      WordIs(log.data[32..64], 0);
      WordIs(log.data[64..96], event.actualGasCost);
      WordIs(log.data[96..128], event.actualGasUsed);
    }
  }

  function EventIndex(logs: seq<Log>): map<Bytes32, OpEvent> {
    if logs == [] then map[]
    else
      var index := EventIndex(logs[..|logs| - 1]);
      match ParseEvent(logs[|logs| - 1])
      case None => index
      case Some(found) => index[found.0 := found.1]
  }

  /** The first loop of `markIncluded`. */
  method BuildIndex(logs: seq<Log>) returns (events: map<Bytes32, OpEvent>)
    ensures events == EventIndex(logs)
  {
    events := map[];
    for i := 0 to |logs|
      invariant events == EventIndex(logs[..i])
    {
      assert logs[..i + 1][..i] == logs[..i];
      match ParseEvent(logs[i])
      case None =>
      case Some(found) => events := events[found.0 := found.1];
    }
    assert logs[..|logs|] == logs;
  }

  /** `events.get(hash) || null` */
  function Lookup(index: map<Bytes32, OpEvent>, hash: Bytes32): Option<OpEvent> {
    if hash in index then Some(index[hash]) else None
  }

  /** `event` is what the last log reporting `hash` says; None when no log reports it. */
  ghost predicate IsLastEvent(logs: seq<Log>, hash: Bytes32, event: Option<OpEvent>) {
    match event
    case None => forall i, e :: 0 <= i < |logs| ==> !IsEventOf(logs[i], hash, e)
    case Some(e) =>
      exists i :: 0 <= i < |logs| && IsEventOf(logs[i], hash, e)
               && forall j, f :: i < j < |logs| ==> !IsEventOf(logs[j], hash, f)
  }

  lemma LastEventStep(rest: seq<Log>, last: Log, hash: Bytes32, before: Option<OpEvent>)
    requires IsLastEvent(rest, hash, before)
    ensures var found := ParseEvent(last);
      IsLastEvent(rest + [last], hash, if found.Some? && found.value.0 == hash then Some(found.value.1) else before)
  {
    hide ParseEvent;
    var logs, n := rest + [last], |rest|;
    var found := ParseEvent(last);
    if found.Some? && found.value.0 == hash {
      assert IsEventOf(logs[n], hash, found.value.1);
    } else if before.Some? {
      var i :| 0 <= i < n && IsEventOf(rest[i], hash, before.value)
        && forall j, f :: i < j < n ==> !IsEventOf(rest[j], hash, f);
      assert IsEventOf(logs[i], hash, before.value);
      forall j, f | i < j < n + 1 ensures !IsEventOf(logs[j], hash, f) {
        assert j < n ==> logs[j] == rest[j];
      }
    } else {
      forall j, f | 0 <= j < n + 1 ensures !IsEventOf(logs[j], hash, f) {
        assert j < n ==> logs[j] == rest[j];
      }
    }
  }

  /** The index answers every hash with the last event of that hash, whatever other operations share the bundle. */
  lemma {:induction false} IndexFindsLastEvent(logs: seq<Log>, hash: Bytes32)
    ensures IsLastEvent(logs, hash, Lookup(EventIndex(logs), hash))
  {
    hide ParseEvent, IsLastEvent;
    if logs == [] {
      NoEventInNothing(hash);
    } else {
      var rest, last := logs[..|logs| - 1], logs[|logs| - 1];
      IndexFindsLastEvent(rest, hash);
      LastEventStep(rest, last, hash, Lookup(EventIndex(rest), hash));
      assert rest + [last] == logs;
    }
  }

  lemma NoEventInNothing(hash: Bytes32)
    ensures IsLastEvent([], hash, None)
  {
  }

  lemma LastEventUnique(logs: seq<Log>, hash: Bytes32, a: Option<OpEvent>, b: Option<OpEvent>)
    requires IsLastEvent(logs, hash, a) && IsLastEvent(logs, hash, b)
    ensures a == b
  {
  }

  /** The answer of `eth_getUserOperationReceipt`, as far as its readers look into it. A missing success flag and a
      missing nested hash are possible for receipts of other bundlers. */
  datatype RpcReceipt = RpcReceipt(success: Option<bool>, logs: seq<Log>, transactionHash: Option<Bytes32>)

  /** `event?.success ?? receipt.status === 1`, with the logs and the transaction hash of the receipt. */
  function ReportReceipt(stored: StoredReceipt): RpcReceipt {
    RpcReceipt(
      Some(match stored.event case Some(e) => e.success case None => stored.tx.status == 1),
      stored.tx.logs,
      Some(stored.tx.hash))
  }

  // ---- Revert data ----

  /** First four bytes of keccak256("Error(string)") and keccak256("Panic(uint256)"). */
  const ERROR_SELECTOR: seq<Byte> := [0x08, 0xc3, 0x79, 0xa0]
  const PANIC_SELECTOR: seq<Byte> := [0x4e, 0x48, 0x7b, 0x71]

  type Utf8 = seq<Byte> -> Option<string>

  function DecodeString(args: seq<Byte>, utf8: Utf8): Option<string> {
    if |args| < 32 then None
    else
      match DecodeBytesAt(args, ToNat(args[..32]))
      case None => None
      case Some(text) => utf8(text)
  }

  predicate StartsWith(data: seq<Byte>, selector: seq<Byte>) {
    |selector| <= |data| && data[..|selector|] == selector
  }

  /** The readable forms; None where the data has neither of the two standard shapes. */
  function StandardReason(data: seq<Byte>, utf8: Utf8): Option<string> {
    if StartsWith(data, ERROR_SELECTOR) then DecodeString(data[4..], utf8)
    else if StartsWith(data, PANIC_SELECTOR) then
      match DecodeUint(data[4..])
      case None => None
      case Some(code) => Some("Panic(0x" + NatToDigits(code) + ")")
    else None
  }

  /** `decodeRevertData`; the server and the browser differ only in the mark they put after clipped data. */
  function DecodeRevertData(data: seq<Byte>, utf8: Utf8, ellipsis: string): Option<string> {
    if data == [] then None
    else
      match StandardReason(data, utf8)
      case Some(text) => Some(text)
      case None =>
        var text := Hexlify(data);
        Some("custom error " + if |text| > 66 then text[..66] + ellipsis else text)
  }

  /** The revert data of `revert("...")`. */
  function ErrorData(text: seq<Byte>): seq<Byte> {
    ERROR_SELECTOR + Word(32) + Word(|text|) + text + Zeros(Padding(|text|))
  }

  /** A reason string comes back as its text, a panic as its code. */
  lemma StandardReasonsReadBack(text: seq<Byte>, code: nat, utf8: Utf8, ellipsis: string)
    requires |text| < UINT256 && code < UINT256 && utf8(text).Some?
    ensures DecodeRevertData(ErrorData(text), utf8, ellipsis) == utf8(text)
    ensures DecodeRevertData(PANIC_SELECTOR + Word(code), utf8, ellipsis) == Some("Panic(0x" + NatToDigits(code) + ")")
    ensures DigitsToNat(NatToDigits(code)) == code
  {
    hide Word, ToNat, Hexlify, NatToDigits, DigitsToNat, DecodeBytesAt;
    var data := ErrorData(text);
    var args := data[4..];
    assert args == Word(32) + Word(|text|) + text + Zeros(Padding(|text|));
    assert args[..32] == Word(32) && args[32..64] == Word(|text|) && args[64..64 + |text|] == text;
    ToNatWord(32);
    ToNatWord(code);
    DecodeBytesExact(args, 32, text);
    DigitsRoundTrip(code);
    var panic := PANIC_SELECTOR + Word(code);
    assert panic[4..] == Word(code) && panic[4..][..32] == Word(code);
    assert panic[..4] == PANIC_SELECTOR && data[..4] == ERROR_SELECTOR;
  }

  /** The data says this in one of the two standard shapes, read by the head/tail rule: the text behind the Error
      selector, or the code behind the Panic selector. */
  ghost predicate SaysInStandardForm(data: seq<Byte>, utf8: Utf8, text: string) {
    |data| >= 36 &&
    if data[..4] == [0x08, 0xc3, 0x79, 0xa0] then
      exists offset: nat, bytes ::
        && offset < UINT256 && data[4..36] == Word(offset)
        && TailHolds(data[4..], offset, bytes) && utf8(bytes) == Some(text)
    else
      && data[..4] == [0x4e, 0x48, 0x7b, 0x71]
      && exists code: nat :: code < UINT256 && data[4..36] == Word(code) && text == "Panic(0x" + NatToDigits(code) + ")"
  }

  /** The text shown for revert data: nothing for no data, a standard form as it reads, anything else in hex, cut after
      66 characters and marked where it is longer. */
  ghost predicate ShownAs(data: seq<Byte>, utf8: Utf8, ellipsis: string, reason: Option<string>) {
    if data == [] then reason == None
    else if exists text :: SaysInStandardForm(data, utf8, text) then
      reason.Some? && SaysInStandardForm(data, utf8, reason.value)
    else
      reason == Some("custom error " + if |data| <= 32 then Hexlify(data) else Hexlify(data)[..66] + ellipsis)
  }

  lemma DecodeStringExact(args: seq<Byte>, utf8: Utf8, text: string)
    ensures DecodeString(args, utf8) == Some(text) <==>
      |args| >= 32 && exists offset: nat, bytes ::
        offset < UINT256 && args[..32] == Word(offset) && TailHolds(args, offset, bytes) && utf8(bytes) == Some(text)
  {
    hide ToNat, Word, DecodeBytesAt, TailHolds;
    if |args| >= 32 {
      var offset := ToNat(args[..32]);
      WordIs(args[..32], offset);
      if DecodeBytesAt(args, offset).Some? {
        DecodeBytesExact(args, offset, DecodeBytesAt(args, offset).value);
      }
      forall o: nat, bytes
        | o < UINT256 && args[..32] == Word(o) && TailHolds(args, o, bytes) && utf8(bytes) == Some(text)
        ensures DecodeString(args, utf8) == Some(text)
      {
        WordIs(args[..32], o);
        DecodeBytesExact(args, o, bytes);
      }
    }
  }

  lemma StandardReasonExact(data: seq<Byte>, utf8: Utf8, text: string)
    ensures StandardReason(data, utf8) == Some(text) <==> SaysInStandardForm(data, utf8, text)
  {
    hide ToNat, Word, DecodeString, TailHolds, NatToDigits;
    if |data| >= 4 {
      var args := data[4..];
      DecodeStringExact(args, utf8, text);
      if |data| >= 36 {
        assert args[..32] == data[4..36];
        WordIs(data[4..36], ToNat(data[4..36]));
        forall code: nat | code < UINT256 && data[4..36] == Word(code) ensures code == ToNat(data[4..36]) {
          WordIs(data[4..36], code);
        }
      }
    }
  }

  lemma DecodeRevertExact(data: seq<Byte>, utf8: Utf8, ellipsis: string, reason: Option<string>)
    ensures DecodeRevertData(data, utf8, ellipsis) == reason <==> ShownAs(data, utf8, ellipsis, reason)
  {
    hide StandardReason, SaysInStandardForm, Hexlify;
    var standard := StandardReason(data, utf8);
    if standard.Some? {
      StandardReasonExact(data, utf8, standard.value);
    }
    forall text | SaysInStandardForm(data, utf8, text) ensures standard == Some(text) {
      StandardReasonExact(data, utf8, text);
    }
  }

  const SERVER_ELLIPSIS := "\U{2026}"
  const BROWSER_ELLIPSIS := "..."

  predicate IsRevertLog(log: Log, hash: Bytes32) {
    |log.topics| >= 2 && log.topics[0] == REVERT_TOPIC && log.topics[1] == hash
  }

  /** The revert data of a UserOperationRevertReason log: None where parsing throws. */
  function ParseRevert(log: Log): Option<seq<Byte>> {
    if |log.topics| < 3 || |log.data| < 64 then None else DecodeBytesAt(log.data, ToNat(log.data[32..64]))
  }

  /** The head/tail rule for a log of `(uint256, bytes)` behind three topics: the second word is the offset of the
      bytes. */
  ghost predicate ReadsAsRevert(log: Log, data: seq<Byte>) {
    |log.topics| >= 3 && |log.data| >= 64
    && exists offset: nat :: offset < UINT256 && log.data[32..64] == Word(offset) && TailHolds(log.data, offset, data)
  }

  lemma ParseRevertExact(log: Log, data: seq<Byte>)
    ensures ParseRevert(log) == Some(data) <==> ReadsAsRevert(log, data)
  {
    hide ToNat, Word, DecodeBytesAt, TailHolds;
    if |log.data| >= 64 {
      var at := ToNat(log.data[32..64]);
      WordIs(log.data[32..64], at);
      DecodeBytesExact(log.data, at, data);
      forall offset: nat | offset < UINT256 && log.data[32..64] == Word(offset) ensures offset == at {
        WordIs(log.data[32..64], offset);
      }
    }
  }

  /** A revert log gives this reason: the text shown for the bytes it reads as, none where it does not read. */
  ghost predicate Explains(log: Log, utf8: Utf8, ellipsis: string, reason: Option<string>) {
    if exists data :: ReadsAsRevert(log, data)
    then exists data :: ReadsAsRevert(log, data) && ShownAs(data, utf8, ellipsis, reason)
    else reason == None
  }

  function ReasonIn(log: Log, utf8: Utf8, ellipsis: string): Option<string> {
    match ParseRevert(log)
    case None => None
    case Some(data) => DecodeRevertData(data, utf8, ellipsis)
  }

  lemma ReasonExact(log: Log, utf8: Utf8, ellipsis: string, reason: Option<string>)
    ensures ReasonIn(log, utf8, ellipsis) == reason <==> Explains(log, utf8, ellipsis, reason)
  {
    hide ParseRevert, ReadsAsRevert, ShownAs, DecodeRevertData;
    forall data ensures ParseRevert(log) == Some(data) <==> ReadsAsRevert(log, data) {
      ParseRevertExact(log, data);
    }
    if ParseRevert(log).Some? {
      DecodeRevertExact(ParseRevert(log).value, utf8, ellipsis, reason);
    }
  }

  /** Index of the first revert log of a hash, or the number of logs. */
  function FirstRevert(logs: seq<Log>, hash: Bytes32): (i: nat)
    ensures i <= |logs|
    ensures i < |logs| ==> IsRevertLog(logs[i], hash)
    ensures forall j :: 0 <= j < i ==> !IsRevertLog(logs[j], hash)
  {
    if logs == [] || IsRevertLog(logs[0], hash) then 0 else 1 + FirstRevert(logs[1..], hash)
  }

  lemma FirstRevertUnique(logs: seq<Log>, hash: Bytes32, i: nat)
    requires i <= |logs| && (i < |logs| ==> IsRevertLog(logs[i], hash))
    requires forall j :: 0 <= j < i ==> !IsRevertLog(logs[j], hash)
    ensures FirstRevert(logs, hash) == i
  {
  }

  /** What the first revert log of the hash says; None without one, or when it does not parse. */
  function RevertReason(logs: seq<Log>, hash: Bytes32, utf8: Utf8, ellipsis: string): Option<string> {
    var i := FirstRevert(logs, hash);
    if i == |logs| then None else ReasonIn(logs[i], utf8, ellipsis)
  }

  /** The reason that the first revert log of the hash gives; none without one. */
  ghost predicate IsFirstReason(logs: seq<Log>, hash: Bytes32, utf8: Utf8, ellipsis: string, reason: Option<string>) {
    if exists i :: 0 <= i < |logs| && IsRevertLog(logs[i], hash)
    then exists i :: 0 <= i < |logs| && IsRevertLog(logs[i], hash)
           && (forall j :: 0 <= j < i ==> !IsRevertLog(logs[j], hash)) && Explains(logs[i], utf8, ellipsis, reason)
    else reason == None
  }

  lemma RevertReasonExact(logs: seq<Log>, hash: Bytes32, utf8: Utf8, ellipsis: string, reason: Option<string>)
    ensures RevertReason(logs, hash, utf8, ellipsis) == reason <==> IsFirstReason(logs, hash, utf8, ellipsis, reason)
  {
    hide IsRevertLog, ReasonIn, Explains;
    var first := FirstRevert(logs, hash);
    if first < |logs| {
      ReasonExact(logs[first], utf8, ellipsis, reason);
    }
    forall i | 0 <= i < |logs| && IsRevertLog(logs[i], hash) && forall j :: 0 <= j < i ==> !IsRevertLog(logs[j], hash)
      ensures i == first
    {
      FirstRevertUnique(logs, hash, i);
    }
  }

  datatype Outcome = Outcome(success: bool, revertReason: Option<string>, transactionHash: Option<Bytes32>)

  function TransactionHashOf(receipt: RpcReceipt): Option<Bytes32> {
    if receipt.transactionHash.Some? then receipt.transactionHash
    else if receipt.logs != [] then receipt.logs[0].transactionHash
    else None
  }

  function OutcomeOf(receipt: RpcReceipt, hash: Bytes32, utf8: Utf8): Outcome {
    var success := receipt.success != Some(false);
    Outcome(success, if success then None else RevertReason(receipt.logs, hash, utf8, SERVER_ELLIPSIS),
            TransactionHashOf(receipt))
  }

  /** The outcome that a receipt gives: anything but a false flag is success, the hash is the receipt's own or else its
      first log's, and only a failure has a reason, the one of the first revert log. */
  ghost predicate IsOutcomeOf(receipt: RpcReceipt, hash: Bytes32, utf8: Utf8, o: Outcome) {
    && (o.success <==> receipt.success != Some(false))
    && (receipt.transactionHash.Some? ==> o.transactionHash == receipt.transactionHash)
    && (receipt.transactionHash.None? ==>
          if receipt.logs == [] then o.transactionHash == None
          else o.transactionHash == receipt.logs[0].transactionHash)
    && if o.success then o.revertReason == None
       else IsFirstReason(receipt.logs, hash, utf8, "\U{2026}", o.revertReason)
  }

  lemma OutcomeExact(receipt: RpcReceipt, hash: Bytes32, utf8: Utf8, o: Outcome)
    ensures OutcomeOf(receipt, hash, utf8) == o <==> IsOutcomeOf(receipt, hash, utf8, o)
  {
    hide RevertReason, IsFirstReason;
    RevertReasonExact(receipt.logs, hash, utf8, SERVER_ELLIPSIS, o.revertReason);
  }

  /** The server's `outcomeFromReceipt`: None while the receipt is missing. */
  method OutcomeFromReceipt(receipt: Option<RpcReceipt>, hash: Bytes32, utf8: Utf8) returns (outcome: Option<Outcome>)
    ensures receipt.None? ==> outcome == None
    ensures receipt.Some? ==> outcome == Some(OutcomeOf(receipt.value, hash, utf8))
    ensures receipt.Some? ==> outcome.Some? && IsOutcomeOf(receipt.value, hash, utf8, outcome.value)
  {
    hide ReasonIn, IsOutcomeOf;
    if receipt.None? {
      return None;
    }
    OutcomeExact(receipt.value, hash, utf8, OutcomeOf(receipt.value, hash, utf8));
    var transactionHash := TransactionHashOf(receipt.value);
    if receipt.value.success != Some(false) {
      return Some(Outcome(true, None, transactionHash));
    }
    var logs := receipt.value.logs;
    for i := 0 to |logs|
      invariant forall j :: 0 <= j < i ==> !IsRevertLog(logs[j], hash)
    {
      if |logs[i].topics| < 1 || logs[i].topics[0] != REVERT_TOPIC {
        continue;
      }
      if |logs[i].topics| < 2 || logs[i].topics[1] != hash {
        continue;
      }
      FirstRevertUnique(logs, hash, i);
      return Some(Outcome(false, ReasonIn(logs[i], utf8, SERVER_ELLIPSIS), transactionHash));
    }
    FirstRevertUnique(logs, hash, |logs|);
    return Some(Outcome(false, None, transactionHash));
  }

  /** The browser's `revertReasonFromReceipt`. */
  method RevertReasonInBrowser(logs: seq<Log>, hash: Bytes32, utf8: Utf8) returns (reason: Option<string>)
    ensures reason == RevertReason(logs, hash, utf8, BROWSER_ELLIPSIS)
    ensures IsFirstReason(logs, hash, utf8, "...", reason)
  {
    hide ReasonIn, IsFirstReason;
    RevertReasonExact(logs, hash, utf8, BROWSER_ELLIPSIS, RevertReason(logs, hash, utf8, BROWSER_ELLIPSIS));
    for i := 0 to |logs|
      invariant forall j :: 0 <= j < i ==> !IsRevertLog(logs[j], hash)
    {
      if IsRevertLog(logs[i], hash) {
        FirstRevertUnique(logs, hash, i);
        return ReasonIn(logs[i], utf8, BROWSER_ELLIPSIS);
      }
    }
    FirstRevertUnique(logs, hash, |logs|);
    return None;
  }

  /** Some revert data is long and of no standard shape, so that its text is clipped. */
  ghost predicate ReasonIsClipped(logs: seq<Log>, hash: Bytes32, utf8: Utf8) {
    var i := FirstRevert(logs, hash);
    i < |logs| && exists data ::
      ReadsAsRevert(logs[i], data) && |data| > 32 && forall text :: !SaysInStandardForm(data, utf8, text)
  }

  /** Clipped data gets a different text from each copy. */
  lemma MarksDiffer(text: string)
    requires |text| > 66
    ensures "custom error " + (text[..66] + SERVER_ELLIPSIS) != "custom error " + (text[..66] + BROWSER_ELLIPSIS)
  {
    var a, b := text[..66] + SERVER_ELLIPSIS, text[..66] + BROWSER_ELLIPSIS;
    assert |SERVER_ELLIPSIS| == 1 && |BROWSER_ELLIPSIS| == 3;
    assert |"custom error " + a| == |"custom error "| + 67 && |"custom error " + b| == |"custom error "| + 69;
  }

  /** The two copies of the decoder give the same text exactly when nothing is clipped. */
  lemma DecodersAgree(logs: seq<Log>, hash: Bytes32, utf8: Utf8)
    ensures RevertReason(logs, hash, utf8, SERVER_ELLIPSIS) == RevertReason(logs, hash, utf8, BROWSER_ELLIPSIS)
       <==> !ReasonIsClipped(logs, hash, utf8)
  {
    hide Hexlify, StandardReason, SaysInStandardForm, ParseRevert, ReadsAsRevert, FirstRevert;
    var i := FirstRevert(logs, hash);
    if i < |logs| {
      forall data ensures ParseRevert(logs[i]) == Some(data) <==> ReadsAsRevert(logs[i], data) {
        ParseRevertExact(logs[i], data);
      }
    }
    if i < |logs| && ParseRevert(logs[i]).Some? {
      var data := ParseRevert(logs[i]).value;
      forall text ensures StandardReason(data, utf8) == Some(text) <==> SaysInStandardForm(data, utf8, text) {
        StandardReasonExact(data, utf8, text);
      }
      if StandardReason(data, utf8).None? && data != [] && |Hexlify(data)| > 66 {
        MarksDiffer(Hexlify(data));
      }
    }
  }

  /** The log that the EntryPoint writes for a failed operation. */
  function RevertLog(address: Address, hash: Bytes32, sender: Address, nonce: nat, data: seq<Byte>,
                     transactionHash: Option<Bytes32>): Log {
    Log(address, [REVERT_TOPIC, hash, AddressWord(sender)],
        Word(nonce) + Word(64) + Word(|data|) + data + Zeros(Padding(|data|)), transactionHash)
  }

  lemma RevertLogReads(address: Address, hash: Bytes32, sender: Address, nonce: nat, data: seq<Byte>,
                       transactionHash: Option<Bytes32>)
    requires nonce < UINT256 && |data| < UINT256
    ensures ReadsAsRevert(RevertLog(address, hash, sender, nonce, data, transactionHash), data)
  {
    hide Word, AddressWord;
    var log := RevertLog(address, hash, sender, nonce, data, transactionHash);
    assert log.data[32..64] == Word(64) && log.data[64..96] == Word(|data|) && log.data[96..96 + |data|] == data;
    assert TailHolds(log.data, 64, data);
  }

  /** From the EntryPoint's log to the row: the revert data written for a failed operation, whatever its nonce, is what
      its outcome shows; the text given to `revert` comes back as that text. */
  lemma EncodedReasonComesBack(receipt: RpcReceipt, before: seq<Log>, after: seq<Log>, address: Address, hash: Bytes32,
                               sender: Address, nonce: nat, data: seq<Byte>, transactionHash: Option<Bytes32>,
                               utf8: Utf8)
    requires nonce < UINT256 && |data| < UINT256 && receipt.success == Some(false)
    requires forall j :: 0 <= j < |before| ==> !IsRevertLog(before[j], hash)
    requires receipt.logs == before + [RevertLog(address, hash, sender, nonce, data, transactionHash)] + after
    ensures var reason := OutcomeOf(receipt, hash, utf8).revertReason;
      && ShownAs(data, utf8, "\U{2026}", reason)
      && forall text :: |text| < UINT256 && data == ErrorData(text) && utf8(text).Some? ==> reason == utf8(text)
  {
    var log := RevertLog(address, hash, sender, nonce, data, transactionHash);
    RevertLogReads(address, hash, sender, nonce, data, transactionHash);
    ParseRevertExact(log, data);
    assert receipt.logs[|before|] == log && IsRevertLog(log, hash);
    hide RevertLog, ParseRevert, ReadsAsRevert, DecodeRevertData, ShownAs, IsRevertLog, ErrorData, FirstRevert;
    FirstRevertUnique(receipt.logs, hash, |before|);
    DecodeRevertExact(data, utf8, SERVER_ELLIPSIS, DecodeRevertData(data, utf8, SERVER_ELLIPSIS));
    forall text | |text| < UINT256 && data == ErrorData(text) && utf8(text).Some?
      ensures DecodeRevertData(data, utf8, SERVER_ELLIPSIS) == utf8(text)
    {
      StandardReasonsReadBack(text, 0, utf8, SERVER_ELLIPSIS);
    }
  }

  // ---- The whole way back ----

  /** What settling reads for one operation of a bundle: stored by `markIncluded`, reported, scanned again. */
  function SettledOutcome(tx: TxReceipt, hash: Bytes32, utf8: Utf8): Outcome {
    OutcomeOf(ReportReceipt(StoredReceipt(tx, Lookup(EventIndex(tx.logs), hash))), hash, utf8)
  }

  /** The outcome read straight off the receipt logs: the last event of the hash decides success, the transaction
      status where there is none; a failure is explained by the first revert log of the hash. */
  ghost predicate IsDirectOutcome(tx: TxReceipt, hash: Bytes32, utf8: Utf8, outcome: Outcome) {
    && outcome.transactionHash == Some(tx.hash)
    && (exists event :: IsLastEvent(tx.logs, hash, event)
          && outcome.success == match event { case Some(e) => e.success case None => tx.status == 1 })
    && (outcome.success ==> outcome.revertReason == None)
    && (!outcome.success ==> IsFirstReason(tx.logs, hash, utf8, "\U{2026}", outcome.revertReason))
  }

  /** Index plus rescan equals the direct reading, for every operation of a bundle of any size. */
  lemma SettledOutcomeIsDirect(tx: TxReceipt, hash: Bytes32, utf8: Utf8, outcome: Outcome)
    ensures outcome == SettledOutcome(tx, hash, utf8) <==> IsDirectOutcome(tx, hash, utf8, outcome)
  {
    hide IsLastEvent, EventIndex, RevertReason, IsFirstReason;
    IndexFindsLastEvent(tx.logs, hash);
    var event := Lookup(EventIndex(tx.logs), hash);
    forall other | IsLastEvent(tx.logs, hash, other) ensures other == event {
      LastEventUnique(tx.logs, hash, other, event);
    }
    RevertReasonExact(tx.logs, hash, utf8, SERVER_ELLIPSIS, outcome.revertReason);
  }

  // ---- Whose logs decide ----

  /** What the index or either scan can take for word of this hash. Neither looks at the address that emitted a log. */
  predicate Speaks(log: Log, hash: Bytes32) {
    ReportsHash(log, hash) || IsRevertLog(log, hash)
  }

  function Keep(logs: seq<Log>, keep: Log -> bool): seq<Log> {
    if logs == [] then []
    else Keep(logs[..|logs| - 1], keep) + if keep(logs[|logs| - 1]) then [logs[|logs| - 1]] else []
  }

  predicate ReportsHash(log: Log, hash: Bytes32) {
    ParseEvent(log).Some? && ParseEvent(log).value.0 == hash
  }

  /** Index of the last event log of a hash, or -1. */
  function LastEventAt(logs: seq<Log>, hash: Bytes32): (i: int)
    ensures -1 <= i < |logs|
    ensures i >= 0 ==> ReportsHash(logs[i], hash)
    ensures forall j :: i < j < |logs| ==> !ReportsHash(logs[j], hash)
  {
    if logs == [] then -1
    else if ReportsHash(logs[|logs| - 1], hash) then |logs| - 1
    else LastEventAt(logs[..|logs| - 1], hash)
  }

  function EventAt(logs: seq<Log>, i: int): Option<OpEvent>
    requires -1 <= i < |logs| && (i >= 0 ==> ParseEvent(logs[i]).Some?)
  {
    if i < 0 then None else Some(ParseEvent(logs[i]).value.1)
  }

  lemma {:induction false} IndexIsLastEvent(logs: seq<Log>, hash: Bytes32)
    ensures Lookup(EventIndex(logs), hash) == EventAt(logs, LastEventAt(logs, hash))
  {
    hide ParseEvent;
    if logs != [] {
      IndexIsLastEvent(logs[..|logs| - 1], hash);
    }
  }

  lemma IndexOfMore(rest: seq<Log>, last: Log, hash: Bytes32)
    ensures Lookup(EventIndex(rest + [last]), hash)
         == if ReportsHash(last, hash) then Some(ParseEvent(last).value.1) else Lookup(EventIndex(rest), hash)
  {
    hide ParseEvent;
    assert (rest + [last])[..|rest|] == rest;
  }

  /** Dropping logs leaves the index entry of a hash alone as long as its last event log stays. */
  lemma {:induction false} KeepIndex(logs: seq<Log>, keep: Log -> bool, hash: Bytes32)
    requires var i := LastEventAt(logs, hash); i >= 0 ==> keep(logs[i])
    ensures Lookup(EventIndex(Keep(logs, keep)), hash) == Lookup(EventIndex(logs), hash)
  {
    hide ParseEvent, EventIndex, Lookup, ReportsHash;
    if logs == [] {
      assert Keep(logs, keep) == logs;
    } else {
      var rest, last := logs[..|logs| - 1], logs[|logs| - 1];
      assert logs == rest + [last];
      IndexOfMore(rest, last, hash);
      IndexOfMore(Keep(rest, keep), last, hash);
      if !ReportsHash(last, hash) {
        KeepIndex(rest, keep, hash);
      }
      if !keep(last) {
        assert Keep(logs, keep) == Keep(rest, keep);
      }
    }
  }

  lemma FirstRevertAppend(rest: seq<Log>, last: Log, hash: Bytes32)
    ensures var i, n := FirstRevert(rest, hash), |rest|;
      FirstRevert(rest + [last], hash) == if i < n then i else if IsRevertLog(last, hash) then n else n + 1
  {
    hide IsRevertLog;
    var i, n := FirstRevert(rest, hash), |rest|;
    FirstRevertUnique(rest + [last], hash, if i < n then i else if IsRevertLog(last, hash) then n else n + 1);
  }

  /** Dropping logs leaves the first revert log of a hash the first as long as it stays. */
  lemma {:induction false} KeepRevert(logs: seq<Log>, keep: Log -> bool, hash: Bytes32)
    requires var i := FirstRevert(logs, hash); i < |logs| ==> keep(logs[i])
    ensures var i, k := FirstRevert(logs, hash), FirstRevert(Keep(logs, keep), hash);
      (i < |logs| <==> k < |Keep(logs, keep)|) && (i < |logs| ==> Keep(logs, keep)[k] == logs[i])
  {
    hide FirstRevert, ParseEvent, IsRevertLog;
    if logs != [] {
      var rest, last := logs[..|logs| - 1], logs[|logs| - 1];
      assert logs == rest + [last];
      FirstRevertAppend(rest, last, hash);
      KeepRevert(rest, keep, hash);
      if keep(last) {
        FirstRevertAppend(Keep(rest, keep), last, hash);
      } else {
        assert Keep(logs, keep) == Keep(rest, keep);
      }
    }
  }

  /** Every set of logs that holds all those speaking of a hash gives the outcome of the whole receipt. */
  lemma SpeakersSuffice(tx: TxReceipt, hash: Bytes32, utf8: Utf8, keep: Log -> bool)
    requires forall i :: 0 <= i < |tx.logs| && Speaks(tx.logs[i], hash) ==> keep(tx.logs[i])
    ensures SettledOutcome(tx.(logs := Keep(tx.logs, keep)), hash, utf8) == SettledOutcome(tx, hash, utf8)
  {
    assert LastEventAt(tx.logs, hash) >= 0 ==> Speaks(tx.logs[LastEventAt(tx.logs, hash)], hash);
    KeepIndex(tx.logs, keep, hash);
    KeepRevert(tx.logs, keep, hash);
  }

  predicate Mentions(log: Log, hash: Bytes32) {
    |log.topics| >= 2 && log.topics[1] == hash
  }

  function Mentioning(hash: Bytes32): Log -> bool {
    log => Mentions(log, hash)
  }

  function EmittedBy(address: Address): Log -> bool {
    (log: Log) => log.address == address
  }

  /** Every log that does not carry the hash as its first indexed argument can be taken out of the receipt. */
  lemma OutcomeIsOwn(tx: TxReceipt, hash: Bytes32, utf8: Utf8)
    ensures SettledOutcome(tx.(logs := Keep(tx.logs, Mentioning(hash))), hash, utf8)
         == SettledOutcome(tx, hash, utf8)
  {
    SpeakersSuffice(tx, hash, utf8, Mentioning(hash));
  }

  /** When only the EntryPoint's logs speak of a hash, the outcome is the one that those logs alone give. */
  lemma EntryPointDecides(tx: TxReceipt, hash: Bytes32, utf8: Utf8, entryPoint: Address)
    requires forall i :: 0 <= i < |tx.logs| && Speaks(tx.logs[i], hash) ==> tx.logs[i].address == entryPoint
    ensures SettledOutcome(tx.(logs := Keep(tx.logs, EmittedBy(entryPoint))), hash, utf8)
         == SettledOutcome(tx, hash, utf8)
  {
    SpeakersSuffice(tx, hash, utf8, EmittedBy(entryPoint));
  }

  /** The outcome that the EntryPoint's own logs give. */
  function EntryPointOutcome(tx: TxReceipt, hash: Bytes32, utf8: Utf8, entryPoint: Address): Outcome {
    SettledOutcome(tx.(logs := Keep(tx.logs, EmittedBy(entryPoint))), hash, utf8)
  }

  /** The last event log of the hash is another contract's, and its flag is the other one. */
  ghost predicate ForeignEventTurns(logs: seq<Log>, hash: Bytes32, entryPoint: Address, success: bool) {
    exists i, event :: 0 <= i < |logs| && IsEventOf(logs[i], hash, event)
      && (forall j, later :: i < j < |logs| ==> !IsEventOf(logs[j], hash, later))
      && logs[i].address != entryPoint && event.success != success
  }

  /** The first revert log of the hash is another contract's, and it decodes to another reason. */
  ghost predicate ForeignRevertTurns(logs: seq<Log>, hash: Bytes32, utf8: Utf8, entryPoint: Address,
                                     reason: Option<string>)
  {
    exists i :: 0 <= i < |logs| && IsRevertLog(logs[i], hash)
      && (forall j :: 0 <= j < i ==> !IsRevertLog(logs[j], hash))
      && logs[i].address != entryPoint && !Explains(logs[i], utf8, "\U{2026}", reason)
  }

  function FlagIn(tx: TxReceipt, hash: Bytes32): bool {
    match EventAt(tx.logs, LastEventAt(tx.logs, hash)) case Some(e) => e.success case None => tx.status == 1
  }

  lemma SettledFlag(tx: TxReceipt, hash: Bytes32, utf8: Utf8)
    ensures SettledOutcome(tx, hash, utf8).success == FlagIn(tx, hash)
  {
    hide ParseEvent, EventIndex, LastEventAt;
    IndexIsLastEvent(tx.logs, hash);
  }

  lemma ForeignEventAt(logs: seq<Log>, hash: Bytes32, entryPoint: Address, success: bool)
    ensures var i := LastEventAt(logs, hash);
      ForeignEventTurns(logs, hash, entryPoint, success)
      <==> i >= 0 && logs[i].address != entryPoint && EventAt(logs, i).value.success != success
  {
    hide ParseEvent, LastEventAt;
    var i := LastEventAt(logs, hash);
    if i >= 0 {
      assert IsEventOf(logs[i], hash, EventAt(logs, i).value);
    }
    forall k, event | 0 <= k < |logs| && IsEventOf(logs[k], hash, event)
                      && forall j, later :: k < j < |logs| ==> !IsEventOf(logs[j], hash, later)
      ensures k == i
    {
      assert ReportsHash(logs[k], hash);
    }
  }

  /** The reported success is not the EntryPoint's word exactly if another contract's event log turns it. */
  lemma FlagTurnsExactly(tx: TxReceipt, hash: Bytes32, utf8: Utf8, entryPoint: Address)
    ensures var own := EntryPointOutcome(tx, hash, utf8, entryPoint);
      SettledOutcome(tx, hash, utf8).success != own.success
      <==> ForeignEventTurns(tx.logs, hash, entryPoint, own.success)
  {
    hide ParseEvent, EventIndex, LastEventAt, ForeignEventTurns, SettledOutcome, Keep;
    var own := tx.(logs := Keep(tx.logs, EmittedBy(entryPoint)));
    SettledFlag(tx, hash, utf8);
    SettledFlag(own, hash, utf8);
    ForeignEventAt(tx.logs, hash, entryPoint, SettledOutcome(own, hash, utf8).success);
    var i := LastEventAt(tx.logs, hash);
    if i < 0 || tx.logs[i].address == entryPoint {
      KeepIndex(tx.logs, EmittedBy(entryPoint), hash);
      IndexIsLastEvent(tx.logs, hash);
      IndexIsLastEvent(own.logs, hash);
    }
  }

  lemma ForeignRevertAt(logs: seq<Log>, hash: Bytes32, utf8: Utf8, entryPoint: Address, reason: Option<string>)
    ensures var i := FirstRevert(logs, hash);
      ForeignRevertTurns(logs, hash, utf8, entryPoint, reason)
      <==> i < |logs| && logs[i].address != entryPoint && RevertReason(logs, hash, utf8, SERVER_ELLIPSIS) != reason
  {
    hide IsRevertLog, FirstRevert, ReasonIn, Explains;
    var i := FirstRevert(logs, hash);
    if i < |logs| {
      ReasonExact(logs[i], utf8, SERVER_ELLIPSIS, reason);
    }
    forall k | 0 <= k < |logs| && IsRevertLog(logs[k], hash) && forall j :: 0 <= j < k ==> !IsRevertLog(logs[j], hash)
      ensures k == FirstRevert(logs, hash)
    {
      FirstRevertUnique(logs, hash, k);
    }
  }

  /** The reason found is not the one in the EntryPoint's logs exactly if another contract's revert log turns it. */
  lemma ReasonTurnsExactly(logs: seq<Log>, hash: Bytes32, utf8: Utf8, entryPoint: Address)
    ensures var own := RevertReason(Keep(logs, EmittedBy(entryPoint)), hash, utf8, SERVER_ELLIPSIS);
      RevertReason(logs, hash, utf8, SERVER_ELLIPSIS) != own
      <==> ForeignRevertTurns(logs, hash, utf8, entryPoint, own)
  {
    hide IsRevertLog, FirstRevert, ReasonIn, ForeignRevertTurns, Keep;
    var own := RevertReason(Keep(logs, EmittedBy(entryPoint)), hash, utf8, SERVER_ELLIPSIS);
    ForeignRevertAt(logs, hash, utf8, entryPoint, own);
    var i := FirstRevert(logs, hash);
    if i == |logs| || logs[i].address == entryPoint {
      KeepRevert(logs, EmittedBy(entryPoint), hash);
    }
  }

  /** For every receipt: the settled outcome is the one that the EntryPoint's own logs give, unless, and only unless,
      the last event log of the hash is another contract's with the other flag, or the operation failed and the first
      revert log of the hash is another contract's with another reason. */
  lemma ForeignLogsDecideExactly(tx: TxReceipt, hash: Bytes32, utf8: Utf8, entryPoint: Address)
    ensures var own := EntryPointOutcome(tx, hash, utf8, entryPoint);
      SettledOutcome(tx, hash, utf8) != own
      <==> ForeignEventTurns(tx.logs, hash, entryPoint, own.success)
           || (!own.success && ForeignRevertTurns(tx.logs, hash, utf8, entryPoint, own.revertReason))
  {
    hide EventIndex, RevertReason, ForeignEventTurns, ForeignRevertTurns, Keep;
    FlagTurnsExactly(tx, hash, utf8, entryPoint);
    ReasonTurnsExactly(tx.logs, hash, utf8, entryPoint);
  }

  lemma {:induction false} LastEventAppend(a: seq<Log>, b: seq<Log>, hash: Bytes32)
    ensures var i := LastEventAt(b, hash);
      LastEventAt(a + b, hash) == if i >= 0 then |a| + i else LastEventAt(a, hash)
    decreases |b|
  {
    hide ReportsHash;
    if b == [] {
      assert a + b == a;
    } else {
      assert (a + b)[..|a + b| - 1] == a + b[..|b| - 1] && (a + b)[|a + b| - 1] == b[|b| - 1];
      LastEventAppend(a, b[..|b| - 1], hash);
    }
  }

  lemma AddedLogAt(before: seq<Log>, log: Log, after: seq<Log>, hash: Bytes32)
    requires LastEventAt(after, hash) < 0
    ensures LastEventAt(before + after, hash) == LastEventAt(before, hash)
    ensures LastEventAt(before + [log] + after, hash)
         == if ReportsHash(log, hash) then |before| else LastEventAt(before, hash)
  {
    LastEventOfOne(log, hash);
    hide ReportsHash, LastEventAt;
    LastEventAppend(before, after, hash);
    LastEventAppend(before + [log], after, hash);
    LastEventAppend(before, [log], hash);
  }

  lemma LastEventOfOne(log: Log, hash: Bytes32)
    ensures LastEventAt([log], hash) == if ReportsHash(log, hash) then 0 else -1
  {
  }

  /** A log added anywhere changes the reported success exactly if it is an event of the hash with the other flag and
      none follows it, whoever emitted it. */
  lemma AddedLogDecides(tx: TxReceipt, before: seq<Log>, log: Log, after: seq<Log>, hash: Bytes32, utf8: Utf8)
    requires tx.logs == before + after
    ensures var was := SettledOutcome(tx, hash, utf8).success;
      SettledOutcome(tx.(logs := before + [log] + after), hash, utf8).success != was
      <==> (forall j :: 0 <= j < |after| ==> !ReportsHash(after[j], hash))
           && exists event :: IsEventOf(log, hash, event) && event.success != was
  {
    hide ParseEvent, LastEventAt, SettledOutcome;
    var more := tx.(logs := before + [log] + after);
    SettledFlag(tx, hash, utf8);
    SettledFlag(more, hash, utf8);
    if LastEventAt(after, hash) < 0 {
      AddedLogAt(before, log, after, hash);
      if ReportsHash(log, hash) {
        assert IsEventOf(log, hash, ParseEvent(log).value.1);
      }
    } else {
      LastEventAppend(before, after, hash);
      LastEventAppend(before + [log], after, hash);
    }
  }

  /** An event of the hash with a chosen flag, from a chosen address. */
  function EventLog(address: Address, hash: Bytes32, success: bool): Log {
    Log(address, [OPERATION_TOPIC, hash, Zeros(32), Zeros(32)],
        Word(0) + Word(if success then 1 else 0) + Word(0) + Word(0), None)
  }

  lemma EventLogReports(address: Address, hash: Bytes32, success: bool)
    ensures exists event :: IsEventOf(EventLog(address, hash, success), hash, event) && event.success == success
  {
    hide Word, ToNat;
    var log := EventLog(address, hash, success);
    ToNatWord(if success then 1 else 0);
    assert log.data[32..64] == Word(if success then 1 else 0);
    assert Zeros(32)[..12] == Zeros(12);
    assert IsEventOf(log, hash, ParseEvent(log).value.1);
  }

  /** For every receipt and every address there is a log of that address that turns the reported success. */
  lemma AnyAddressCanTurnIt(tx: TxReceipt, hash: Bytes32, utf8: Utf8, address: Address) returns (last: Log)
    ensures last.address == address
    ensures SettledOutcome(tx.(logs := tx.logs + [last]), hash, utf8).success != SettledOutcome(tx, hash, utf8).success
  {
    hide ParseEvent, SettledOutcome, EventLog, ReportsHash;
    var success := !SettledOutcome(tx, hash, utf8).success;
    last := EventLog(address, hash, success);
    EventLogReports(address, hash, success);
    EventLogAddress(address, hash, success);
    AddedLogDecides(tx, tx.logs, last, [], hash, utf8);
    assert tx.logs + [last] + [] == tx.logs + [last];
  }

  lemma {:induction false} KeepAppend(a: seq<Log>, b: seq<Log>, keep: Log -> bool)
    ensures Keep(a + b, keep) == Keep(a, keep) + Keep(b, keep)
    decreases |b|
  {
    if b == [] {
      assert a + b == a;
    } else {
      assert (a + b)[..|a + b| - 1] == a + b[..|b| - 1];
      KeepAppend(a, b[..|b| - 1], keep);
    }
  }

  lemma {:induction false} KeepAll(logs: seq<Log>, keep: Log -> bool)
    requires forall i :: 0 <= i < |logs| ==> keep(logs[i])
    ensures Keep(logs, keep) == logs
  {
    if logs != [] {
      KeepAll(logs[..|logs| - 1], keep);
    }
  }

  /** The condition does arise: among the EntryPoint's logs, anywhere after the last event of the hash, so also
      between the events of two operations of one bundle, one log of any other contract turns the reported success,
      while the EntryPoint's own logs still say what they said. */
  lemma ForeignLogBetween(tx: TxReceipt, before: seq<Log>, after: seq<Log>, hash: Bytes32, utf8: Utf8,
                          entryPoint: Address, foreign: Address) returns (log: Log)
    requires tx.logs == before + after && foreign != entryPoint
    requires forall i :: 0 <= i < |tx.logs| ==> tx.logs[i].address == entryPoint
    requires forall j :: 0 <= j < |after| ==> !ReportsHash(after[j], hash)
    ensures log.address == foreign
    ensures var forged := tx.(logs := before + [log] + after);
      && EntryPointOutcome(forged, hash, utf8, entryPoint) == SettledOutcome(tx, hash, utf8)
      && SettledOutcome(forged, hash, utf8).success != SettledOutcome(tx, hash, utf8).success
  {
    hide ParseEvent, SettledOutcome, EventLog, ReportsHash;
    var success := !SettledOutcome(tx, hash, utf8).success;
    log := EventLog(foreign, hash, success);
    EventLogReports(foreign, hash, success);
    AddedLogDecides(tx, before, log, after, hash, utf8);
    EventLogAddress(foreign, hash, success);
    var keep := EmittedBy(entryPoint);
    assert Keep([log], keep) == [];
    KeepAppend(before + [log], after, keep);
    KeepAppend(before, [log], keep);
    KeepAppend(before, after, keep);
    KeepAll(tx.logs, keep);
    assert Keep(before + [log] + after, keep) == tx.logs;
  }

  lemma EventLogAddress(address: Address, hash: Bytes32, success: bool)
    ensures EventLog(address, hash, success).address == address
  {
  }
}
