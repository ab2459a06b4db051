/** The packed UserOperation: the bundler's normaliser and serialiser, the browser's serialiser, and the
    128/128-bit packing that both gates take apart. */
module UserOps {
  import opened Wrappers
  import opened Bytes
  import opened Hex
  import opened Js
  import opened Abi

  /** The byte fields stay text, as in the source; the sender is an address value. */
  datatype UserOp = UserOp(
    sender: Address,
    nonce: int,
    initCode: string,
    callData: string,
    accountGasLimits: string,
    preVerificationGas: int,
    gasFees: string,
    paymasterAndData: string,
    signature: string)

  /** A JSON-RPC error of code -32602 naming the offending field, or the language's own error about parameters that
      cannot be taken apart. */
  datatype RpcError = InvalidParams(field: string) | NotIterable

  /** `getAddress` on 20 bytes of hex text, with or without its prefix. */
  function ParseAddress(j: Json): Option<Address> {
    if !j.Str? then None
    else
      var text := if |j.s| == 40 then "0x" + j.s else j.s;
      if |text| != 42 then None else
        match GetBytes(text)
        case None => None
        case Some(bs) => Some(bs)
  }

  function NormalizeHex(j: Json): Option<string> {
    if j.Undefined? || j.Null? then Some("0x")
    else if j.Str? && IsHexString(j.s) then Some(j.s)
    else None
  }

  function NormalizeBytes32(j: Json): Option<string> {
    if j.Str? && IsHexStringOf(j.s, 32) then Some(j.s) else None
  }

  function NormalizeBigInt(j: Json): Option<int> {
    if j.Num? || j.Str? then BigIntOf(j) else None
  }

  function NormalizeUserOp(input: Json): Result<UserOp, RpcError> {
    if !Truthy(input) || !IsObject(input) then Err(InvalidParams("userOp")) else
    var sender := ParseAddress(Field(input, "sender"));
    if sender.None? then Err(InvalidParams("sender")) else
    var nonce := NormalizeBigInt(OrElse(Field(input, "nonce"), Num(0.0)));
    if nonce.None? then Err(InvalidParams("nonce")) else
    var initCode := NormalizeHex(Field(input, "initCode"));
    if initCode.None? then Err(InvalidParams("initCode")) else
    var callData := NormalizeHex(Field(input, "callData"));
    if callData.None? then Err(InvalidParams("callData")) else
    var gasLimits := NormalizeBytes32(OrElse(Field(input, "accountGasLimits"), Str(ZERO_WORD)));
    if gasLimits.None? then Err(InvalidParams("accountGasLimits")) else
    var preGas := NormalizeBigInt(OrElse(Field(input, "preVerificationGas"), Num(0.0)));
    if preGas.None? then Err(InvalidParams("preVerificationGas")) else
    var gasFees := NormalizeBytes32(OrElse(Field(input, "gasFees"), Str(ZERO_WORD)));
    if gasFees.None? then Err(InvalidParams("gasFees")) else
    var paymaster := NormalizeHex(Field(input, "paymasterAndData"));
    if paymaster.None? then Err(InvalidParams("paymasterAndData")) else
    var signature := NormalizeHex(Field(input, "signature"));
    if signature.None? then Err(InvalidParams("signature")) else
    Ok(UserOp(sender.value, nonce.value, initCode.value, callData.value, gasLimits.value, preGas.value,
              gasFees.value, paymaster.value, signature.value))
  }

  /** The bundler's checks before its first `await`, on `payload.params || []`. Text is taken apart too, into
      characters, and none of those is an address. */
  function StaticCheck(entryPoint: Address, enforceZeroGasFees: bool, params: Json): Result<UserOp, RpcError> {
    if !params.Arr? then Err(if params.Str? || !Truthy(params) then InvalidParams("entryPoint") else NotIterable)
    else
      var rawOp := if |params.xs| > 0 then params.xs[0] else Undefined;
      var address := ParseAddress(if |params.xs| > 1 then params.xs[1] else Undefined);
      if address != Some(entryPoint) then Err(InvalidParams("entryPoint"))
      else
        match NormalizeUserOp(rawOp)
        case Err(e) => Err(e)
        case Ok(op) =>
          if enforceZeroGasFees && op.gasFees != ZERO_WORD then Err(InvalidParams("gasFees")) else Ok(op)
  }

  function OpFields(op: UserOp, nonce: string, preGas: string): Json {
    Obj(map[
      "sender" := Str(Hexlify(op.sender)),
      "nonce" := Str(nonce),
      "initCode" := Str(op.initCode),
      "callData" := Str(op.callData),
      "accountGasLimits" := Str(op.accountGasLimits),
      "preVerificationGas" := Str(preGas),
      "gasFees" := Str(op.gasFees),
      "paymasterAndData" := Str(op.paymasterAndData),
      "signature" := Str(op.signature)])
  }

  /** The bundler's serialiser: `toQuantity` throws on a negative number. */
  function SerializeUserOp(op: UserOp): Option<Json> {
    if op.nonce < 0 || op.preVerificationGas < 0 then None
    else Some(OpFields(op, ToQuantity(op.nonce), ToQuantity(op.preVerificationGas)))
  }

  /** The browser's serialiser: `toBeHex` prints whole bytes, and also throws on a negative number. */
  function SerializeInBrowser(op: UserOp): Option<Json> {
    if op.nonce < 0 || op.preVerificationGas < 0 then None
    else Some(OpFields(op, ToBeHex(op.nonce), ToBeHex(op.preVerificationGas)))
  }

  predicate Missing(j: Json) {
    j.Undefined? || j.Null?
  }

  /** A field of hex text, "0x" where it is missing. */
  ghost predicate TextReads(j: Json, s: string) {
    if Missing(j) then s == "0x" else j == Str(s) && IsHexString(s)
  }

  /** A field of 32 bytes in hex text, the zero word where it is missing. */
  ghost predicate WordReads(j: Json, s: string) {
    if Missing(j) then s == ZERO_WORD else j == Str(s) && IsHexStringOf(s, 32)
  }

  /** A number, or text that reads as one; zero where it is missing. */
  ghost predicate QuantityReads(j: Json, n: int) {
    if Missing(j) then n == 0 else (j.Num? || j.Str?) && BigIntOf(j) == Some(n)
  }

  /** An object whose nine fields say just what the operation holds. */
  ghost predicate ReadsAsOp(input: Json, op: UserOp) {
    && IsObject(input)
    && ParseAddress(Field(input, "sender")) == Some(op.sender)
    && QuantityReads(Field(input, "nonce"), op.nonce)
    && TextReads(Field(input, "initCode"), op.initCode)
    && TextReads(Field(input, "callData"), op.callData)
    && WordReads(Field(input, "accountGasLimits"), op.accountGasLimits)
    && QuantityReads(Field(input, "preVerificationGas"), op.preVerificationGas)
    && WordReads(Field(input, "gasFees"), op.gasFees)
    && TextReads(Field(input, "paymasterAndData"), op.paymasterAndData)
    && TextReads(Field(input, "signature"), op.signature)
  }

  lemma FieldsExact(j: Json, s: string, n: int)
    ensures NormalizeHex(j) == Some(s) <==> TextReads(j, s)
    ensures NormalizeBytes32(OrElse(j, Str(ZERO_WORD))) == Some(s) <==> WordReads(j, s)
    ensures NormalizeBigInt(OrElse(j, Num(0.0))) == Some(n) <==> QuantityReads(j, n)
  {
    hide BigIntOf, IsHexString;
    assert IsHexStringOf(ZERO_WORD, 32);
    NumberIsItself(0);
  }

  /** The normaliser accepts exactly an object each of whose nine fields reads, and holds just what they say. */
  lemma NormalizeExact(input: Json, op: UserOp)
    ensures NormalizeUserOp(input) == Ok(op) <==> ReadsAsOp(input, op)
  {
    hide ParseAddress, NormalizeHex, NormalizeBytes32, NormalizeBigInt, OrElse, Field, TextReads, WordReads,
         QuantityReads;
    FieldsExact(Field(input, "nonce"), "", op.nonce);
    FieldsExact(Field(input, "initCode"), op.initCode, 0);
    FieldsExact(Field(input, "callData"), op.callData, 0);
    FieldsExact(Field(input, "accountGasLimits"), op.accountGasLimits, 0);
    FieldsExact(Field(input, "preVerificationGas"), "", op.preVerificationGas);
    FieldsExact(Field(input, "gasFees"), op.gasFees, 0);
    FieldsExact(Field(input, "paymasterAndData"), op.paymasterAndData, 0);
    FieldsExact(Field(input, "signature"), op.signature, 0);
  }

  /** The bundler's checks before its first `await` let through exactly an array whose second element is its EntryPoint
      and whose first reads as the operation, with a zero fee word where fees are not allowed. */
  lemma StaticCheckExact(entryPoint: Address, enforceZeroGasFees: bool, params: Json, op: UserOp)
    ensures StaticCheck(entryPoint, enforceZeroGasFees, params) == Ok(op) <==>
      && params.Arr? && |params.xs| >= 2
      && ParseAddress(params.xs[1]) == Some(entryPoint)
      && ReadsAsOp(params.xs[0], op)
      && (enforceZeroGasFees ==> op.gasFees == ZERO_WORD)
  {
    hide NormalizeUserOp, ReadsAsOp, ParseAddress;
    NoAddressInNothing();
    if params.Arr? && |params.xs| > 0 {
      NormalizeExact(params.xs[0], op);
      if StaticCheck(entryPoint, enforceZeroGasFees, params).Ok? {
        NormalizeExact(params.xs[0], StaticCheck(entryPoint, enforceZeroGasFees, params).value);
      }
    }
  }

  lemma NoAddressInNothing()
    ensures ParseAddress(Undefined) == None
  {
  }

  ghost predicate ReadsAsText(j: Json) {
    exists s :: TextReads(j, s)
  }

  ghost predicate ReadsAsWord(j: Json) {
    exists s :: WordReads(j, s)
  }

  ghost predicate ReadsAsQuantity(j: Json) {
    exists n :: QuantityReads(j, n)
  }

  /** The first field of an operation that does not read, in the order of the checks. */
  ghost function Unreadable(input: Json): Option<string> {
    If(!IsObject(input), "userOp")
    .Else(If(ParseAddress(Field(input, "sender")) == None, "sender"))
    .Else(If(!ReadsAsQuantity(Field(input, "nonce")), "nonce"))
    .Else(If(!ReadsAsText(Field(input, "initCode")), "initCode"))
    .Else(If(!ReadsAsText(Field(input, "callData")), "callData"))
    .Else(If(!ReadsAsWord(Field(input, "accountGasLimits")), "accountGasLimits"))
    .Else(If(!ReadsAsQuantity(Field(input, "preVerificationGas")), "preVerificationGas"))
    .Else(If(!ReadsAsWord(Field(input, "gasFees")), "gasFees"))
    .Else(If(!ReadsAsText(Field(input, "paymasterAndData")), "paymasterAndData"))
    .Else(If(!ReadsAsText(Field(input, "signature")), "signature"))
  }

  lemma FieldReads(j: Json)
    ensures NormalizeHex(j).Some? <==> ReadsAsText(j)
    ensures NormalizeBytes32(OrElse(j, Str(ZERO_WORD))).Some? <==> ReadsAsWord(j)
    ensures NormalizeBigInt(OrElse(j, Num(0.0))).Some? <==> ReadsAsQuantity(j)
  {
    hide NormalizeHex, NormalizeBytes32, NormalizeBigInt, OrElse, TextReads, WordReads, QuantityReads;
    var (text, word, n) := (NormalizeHex(j), NormalizeBytes32(OrElse(j, Str(ZERO_WORD))),
                            NormalizeBigInt(OrElse(j, Num(0.0))));
    FieldsExact(j, text.UnwrapOr(""), n.UnwrapOr(0));
    FieldsExact(j, word.UnwrapOr(""), 0);
    forall s | TextReads(j, s) ensures text == Some(s) {
      FieldsExact(j, s, 0);
    }
    forall s | WordReads(j, s) ensures word == Some(s) {
      FieldsExact(j, s, 0);
    }
    forall m | QuantityReads(j, m) ensures n == Some(m) {
      FieldsExact(j, "", m);
    }
  }

  /** The normaliser names the first field that does not read. */
  lemma UnreadableExact(input: Json, field: string)
    ensures NormalizeUserOp(input) == Err(InvalidParams(field)) <==> Unreadable(input) == Some(field)
  {
    hide ParseAddress, NormalizeHex, NormalizeBytes32, NormalizeBigInt, OrElse, Field, ReadsAsText, ReadsAsWord,
         ReadsAsQuantity;
    FieldReads(Field(input, "nonce"));
    FieldReads(Field(input, "initCode"));
    FieldReads(Field(input, "callData"));
    FieldReads(Field(input, "accountGasLimits"));
    FieldReads(Field(input, "preVerificationGas"));
    FieldReads(Field(input, "gasFees"));
    FieldReads(Field(input, "paymasterAndData"));
    FieldReads(Field(input, "signature"));
  }

  ghost predicate NamesEntryPoint(entryPoint: Address, params: Json) {
    params.Arr? && |params.xs| >= 2 && ParseAddress(params.xs[1]) == Some(entryPoint)
  }

  /** What refused parameters are told, in the order of the checks: that they cannot be taken apart, the EntryPoint, a
      field of the operation, the fees. */
  lemma StaticRefusalExact(entryPoint: Address, enforceZeroGasFees: bool, params: Json, field: string)
    ensures StaticCheck(entryPoint, enforceZeroGasFees, params) == Err(NotIterable) <==>
              params == Bool(true) || params.Obj? || (params.Num? && params.n != 0.0)
    ensures StaticCheck(entryPoint, enforceZeroGasFees, params) == Err(InvalidParams(field)) <==>
      if params == Bool(true) || params.Obj? || (params.Num? && params.n != 0.0) then false
      else if !NamesEntryPoint(entryPoint, params) then field == "entryPoint"
      else if Unreadable(params.xs[0]).Some? then Unreadable(params.xs[0]) == Some(field)
      else enforceZeroGasFees && !WordReads(Field(params.xs[0], "gasFees"), ZERO_WORD) && field == "gasFees"
  {
    NoAddressInNothing();
    if params.Arr? && |params.xs| >= 2 {
      var input := params.xs[0];
      UnreadableExact(input, field);
      FieldsExact(Field(input, "gasFees"), ZERO_WORD, 0);
      NormalizeNamesField(input);
      if NormalizeUserOp(input).Ok? {
        NormalizeExact(input, NormalizeUserOp(input).value);
        FieldsExact(Field(input, "gasFees"), NormalizeUserOp(input).value.gasFees, 0);
      } else {
        UnreadableExact(input, NormalizeUserOp(input).error.field);
      }
    }
    hide NormalizeUserOp, Unreadable, ParseAddress, Field, NormalizeBytes32, OrElse, WordReads, TextReads,
         QuantityReads;
  }

  lemma NormalizeNamesField(input: Json)
    ensures NormalizeUserOp(input).Err? ==> NormalizeUserOp(input).error.InvalidParams?
  {
    hide ParseAddress, NormalizeHex, NormalizeBytes32, NormalizeBigInt, OrElse, Field;
  }

  /** An address is read exactly from the hex text of its 20 bytes, with or without the prefix. */
  lemma ParseAddressExact(j: Json, a: Address)
    ensures ParseAddress(j) == Some(a) <==> j.Str? && (GetBytes(j.s) == Some(a) || GetBytes("0x" + j.s) == Some(a))
  {
    hide DigitsToBytes;
    if j.Str? && GetBytes("0x" + j.s) == Some(a) {
      assert |"0x" + j.s| == 42;
    }
  }

  /** The encoder takes exactly whole bytes, two 32-byte words and quantities from zero to 2^256, that one excluded. */
  lemma EncodableExact(op: UserOp)
    ensures Encodable(op) <==>
      && GetBytes(op.initCode).Some? && GetBytes(op.callData).Some?
      && GetBytes(op.paymasterAndData).Some? && GetBytes(op.signature).Some?
      && GetBytes(op.accountGasLimits).Some? && |GetBytes(op.accountGasLimits).value| == 32
      && GetBytes(op.gasFees).Some? && |GetBytes(op.gasFees).value| == 32
      && 0 <= op.nonce < Pow256(32) && 0 <= op.preVerificationGas < Pow256(32)
  {
    hide DigitsToBytes, IsHexChar, Pow256;
    WordCapacity();
  }

  lemma NumberIsItself(n: int)
    ensures BigIntOf(Num(n as real)) == Some(n)
  {
  }

  /** What every operation that came out of the normaliser satisfies. */
  predicate IsNormalized(op: UserOp) {
    && IsHexString(op.initCode) && IsHexString(op.callData)
    && IsHexStringOf(op.accountGasLimits, 32) && IsHexStringOf(op.gasFees, 32)
    && IsHexString(op.paymasterAndData) && IsHexString(op.signature)
  }

  predicate IsBytesText(s: string) {
    IsHexString(s) && |s| % 2 == 0
  }

  /** What the ABI encoder takes for `getUserOpHash`: whole bytes, 32-byte words and uint256 quantities. */
  predicate Encodable(op: UserOp) {
    && IsBytesText(op.initCode) && IsBytesText(op.callData)
    && IsBytesText(op.paymasterAndData) && IsBytesText(op.signature)
    && IsHexStringOf(op.accountGasLimits, 32) && IsHexStringOf(op.gasFees, 32)
    && 0 <= op.nonce < UINT256 && 0 <= op.preVerificationGas < UINT256
  }

  lemma NormalizedShape(input: Json)
    requires NormalizeUserOp(input).Ok?
    ensures IsNormalized(NormalizeUserOp(input).value)
  {
    assert IsHexStringOf(ZERO_WORD, 32);
    assert IsHexString("0x");
  }

  lemma AddressTextReadsBack(a: Address)
    ensures ParseAddress(Str(Hexlify(a))) == Some(a)
  {
    GetBytesHexlify(a);
  }

  /** Whatever prints the two quantities, the normaliser restores the operation if `BigInt` restores them. */
  lemma NormalizeFields(op: UserOp, nonce: string, preGas: string)
    requires IsNormalized(op)
    requires StringToBigInt(nonce) == Some(op.nonce) && StringToBigInt(preGas) == Some(op.preVerificationGas)
    ensures NormalizeUserOp(OpFields(op, nonce, preGas)) == Ok(op)
  {
    hide StringToBigInt, Hexlify, ParseAddress, IsHexString;
    var j := OpFields(op, nonce, preGas);
    AddressTextReadsBack(op.sender);
    assert Field(j, "sender") == Str(Hexlify(op.sender));
    assert Field(j, "nonce") == Str(nonce);
    assert Field(j, "preVerificationGas") == Str(preGas);
  }

  /** Round trip, with its exact domain: the bundler can print an operation back exactly when neither quantity is
      negative, and what it prints normalises to the same operation. */
  lemma NormalizeSerialize(op: UserOp)
    requires IsNormalized(op)
    ensures SerializeUserOp(op).Some? <==> op.nonce >= 0 && op.preVerificationGas >= 0
    ensures SerializeUserOp(op).Some? ==> NormalizeUserOp(SerializeUserOp(op).value) == Ok(op)
  {
    if op.nonce >= 0 && op.preVerificationGas >= 0 {
      QuantityTextReadsBack(op.nonce);
      QuantityTextReadsBack(op.preVerificationGas);
      NormalizeFields(op, ToQuantity(op.nonce), ToQuantity(op.preVerificationGas));
    }
  }

  /** The browser's whole-byte printing normalises to the same operation as well. */
  lemma NormalizeBrowserForm(op: UserOp)
    requires IsNormalized(op) && op.nonce >= 0 && op.preVerificationGas >= 0
    ensures SerializeInBrowser(op).Some? && NormalizeUserOp(SerializeInBrowser(op).value) == Ok(op)
  {
    QuantityTextReadsBack(op.nonce);
    QuantityTextReadsBack(op.preVerificationGas);
    NormalizeFields(op, ToBeHex(op.nonce), ToBeHex(op.preVerificationGas));
  }

  lemma MinusOneIsQuantity()
    ensures StringToBigInt("-1") == Some(-1)
  {
  }

  /** A negative quantity passes the normaliser although its error message speaks of a uint256. The operation then has
      neither an ABI encoding, so that no hash ever arrives for it, nor a printed form. */
  lemma NegativeQuantityIsNormalized(op: UserOp)
    requires IsNormalized(op) && op.nonce >= 0
    ensures NormalizeUserOp(OpFields(op, ToQuantity(op.nonce), "-1")) == Ok(op.(preVerificationGas := -1))
    ensures SerializeUserOp(op.(preVerificationGas := -1)) == None && !Encodable(op.(preVerificationGas := -1))
  {
    hide IsHexString;
    QuantityTextReadsBack(op.nonce);
    MinusOneIsQuantity();
    NormalizeFields(op.(preVerificationGas := -1), ToQuantity(op.nonce), "-1");
  }

  const HALF: nat := 0x1_0000000000000000_0000000000000000

  /** Two halves below 2^128 fill one word at most, so the padding in `pack128` does not throw. */
  lemma PackFits(hi: nat, lo: nat)
    requires hi < HALF && lo < HALF
    ensures hi * HALF + lo < Pow256(32)
    ensures ZeroPadValue(ToBeHex(hi * HALF + lo), 32) == Some(Hexlify(FromNat(hi, 16) + FromNat(lo, 16)))
  {
    WordCapacity();
    FromNatSplit(hi, lo, 16, 16);
    ZeroPadToBeHex(hi * HALF + lo, 32);
  }

  /** The browser's `pack128(hi, lo)`; for halves below 2^128 the bitwise or is a sum. */
  function Pack128(hi: nat, lo: nat): string
    requires hi < HALF && lo < HALF
  {
    PackFits(hi, lo);
    ZeroPadValue(ToBeHex(hi * HALF + lo), 32).value
  }

  /** The bundler's reading of a packed word: shift and mask. */
  function HighByShift(word: string): Option<int> {
    match StringToBigInt(word)
    case None => None
    case Some(n) => Some(n / HALF)
  }

  function LowByMask(word: string): Option<int> {
    match StringToBigInt(word)
    case None => None
    case Some(n) => Some(n % HALF)
  }

  /** The policy's reading of a packed word: byte slices of its lower-case text. */
  function HighBySlice(word: string): Option<int> {
    match DataSlice(Lower(word), 0, 16)
    case None => None
    case Some(s) => StringToBigInt(s)
  }

  function LowBySlice(word: string): Option<int> {
    match DataSlice(Lower(word), 16, 32)
    case None => None
    case Some(s) => StringToBigInt(s)
  }

  lemma HexlifyIsQuantity(bs: seq<Byte>)
    requires bs != []
    ensures StringToBigInt(Hexlify(bs)) == Some(ToNat(bs))
  {
    HexTextIsQuantity(Hexlify(bs));
    assert Digits(Hexlify(bs)) == BytesToDigits(bs);
    DigitsBytesAgree(BytesToDigits(bs));
    BytesRoundTrip(bs);
  }

  lemma HexTextIsItsBytes(word: string)
    requires IsHexString(word) && |word| > 2 && |word| % 2 == 0
    ensures StringToBigInt(word) == Some(ToNat(GetBytes(word).value))
  {
    HexTextIsQuantity(word);
    DigitsBytesAgree(Digits(word));
  }

  /** The two gates take any 32-byte word apart into the same two numbers: its first and its last sixteen bytes. */
  lemma GasHalvesAgree(word: string)
    requires IsHexStringOf(word, 32)
    ensures HighBySlice(word) == HighByShift(word) == Some(ToNat(GetBytes(word).value[..16]))
    ensures LowBySlice(word) == LowByMask(word) == Some(ToNat(GetBytes(word).value[16..]))
  {
    hide StringToBigInt, Hexlify, IsHexString, ToNat;
    var bs := GetBytes(word).value;
    var hi, lo := bs[..16], bs[16..];
    assert bs == hi + lo && bs[0..16] == hi && bs[16..32] == lo;
    LowerBytes(word);
    HexlifyIsQuantity(hi);
    HexlifyIsQuantity(lo);
    HexTextIsItsBytes(word);
    ToNatConcat(hi, lo);
    WordCapacity();
    ToNatBound(lo);
    DivModParts(ToNat(hi), ToNat(lo), HALF);
  }

  /** Packing two halves yields one 32-byte word from which each gate reads exactly the two halves. */
  lemma PackedHalvesReadBack(hi: nat, lo: nat)
    requires hi < HALF && lo < HALF
    ensures IsHexStringOf(Pack128(hi, lo), 32)
    ensures HighBySlice(Pack128(hi, lo)) == HighByShift(Pack128(hi, lo)) == Some(hi)
    ensures LowBySlice(Pack128(hi, lo)) == LowByMask(Pack128(hi, lo)) == Some(lo)
    ensures GetBytes(Pack128(hi, lo)) == Some(FromNat(hi, 16) + FromNat(lo, 16))
  {
    hide StringToBigInt, HighBySlice, LowBySlice, HighByShift, LowByMask, ToNat, FromNat, Hexlify, GetBytes,
         IsHexString, ZeroPadValue;
    WordCapacity();
    PackFits(hi, lo);
    var bs := FromNat(hi, 16) + FromNat(lo, 16);
    GetBytesHexlify(bs);
    GasHalvesAgree(Hexlify(bs));
    assert bs[..16] == FromNat(hi, 16) && bs[16..] == FromNat(lo, 16);
    ToNatFromNat(hi, 16);
    ToNatFromNat(lo, 16);
  }

  datatype GasEstimate = GasEstimate(preVerificationGas: string, verificationGasLimit: string, callGasLimit: string)

  /** `n || fallback` on a bigint. */
  function OrDefault(n: int, fallback: int): int {
    if n == 0 then fallback else n
  }

  /** The numbers of the gas estimate; None where a negative quantity makes `toQuantity` throw. The two paymaster
      limits are always "0x0". */
  function EstimateGas(op: UserOp): Option<GasEstimate> {
    match (HighByShift(op.accountGasLimits), LowByMask(op.accountGasLimits))
    case (Some(hi), Some(lo)) =>
      if op.preVerificationGas < 0 || hi < 0 || lo < 0 then None
      else Some(GasEstimate(
        ToQuantity(OrDefault(op.preVerificationGas, 100_000)),
        ToQuantity(OrDefault(hi, 3_000_000)),
        ToQuantity(OrDefault(lo, 1_000_000))))
    case _ => None
  }

  /** The estimate gives the packed limits back, a zero being replaced by its default, in both cases exactly. */
  lemma EstimateReturnsPackedLimits(op: UserOp, hi: nat, lo: nat)
    requires hi < HALF && lo < HALF && op.preVerificationGas >= 0
    requires op.accountGasLimits == Pack128(hi, lo)
    ensures EstimateGas(op).Some?
    ensures var e := EstimateGas(op).value;
      && StringToBigInt(e.verificationGasLimit) == Some(if hi == 0 then 3_000_000 else hi)
      && StringToBigInt(e.callGasLimit) == Some(if lo == 0 then 1_000_000 else lo)
      && StringToBigInt(e.preVerificationGas)
         == Some(if op.preVerificationGas == 0 then 100_000 else op.preVerificationGas)
  {
    hide StringToBigInt, HighByShift, LowByMask, HighBySlice, LowBySlice, Pack128, ToQuantity;
    PackedHalvesReadBack(hi, lo);
    QuantityTextReadsBack(OrDefault(hi, 3_000_000));
    QuantityTextReadsBack(OrDefault(lo, 1_000_000));
    QuantityTextReadsBack(OrDefault(op.preVerificationGas, 100_000));
  }
}
