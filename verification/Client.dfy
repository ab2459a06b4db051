/** The operation the browser builds, and what the two gates on its way make of it. */
module Client {
  import opened Wrappers
  import opened Bytes
  import opened Hex
  import opened Js
  import opened Abi
  import opened UserOps
  import opened Policy

  /** `(BigInt(Date.now()) << 160n) | BigInt(0x<20 random bytes>)` */
  function RandomSalt(clockMs: nat, random: Address): nat {
    clockMs * Pow256(20) + ToNat(random)
  }

  /** A salt fits a uint256 as long as the clock fits 96 bits, and it gives its clock and random bytes back. */
  lemma SaltIsUnique(clockMs: nat, random: Address)
    requires clockMs < Pow256(12)
    ensures RandomSalt(clockMs, random) < UINT256
    ensures FromNat(RandomSalt(clockMs, random), 32) == FromNat(clockMs, 12) + random
    ensures RandomSalt(clockMs, random) / Pow256(20) == clockMs
  {
    hide ToNat, FromNat, Pow256;
    WordCapacity();
    ToNatBound(random);
    FromNatSplit(clockMs, ToNat(random), 12, 20);
    FromNatToNat(random);
    DivModParts(clockMs, ToNat(random), Pow256(20));
  }

  const VERIFICATION_GAS: nat := 3_000_000
  const CALL_GAS: nat := 1_000_000
  const PRE_VERIFICATION_GAS: nat := 100_000

  /** The operation before signing: a fresh account deployed through the factory, one call, no fees, no paymaster. */
  function BuildOp(factory: Address, account: Address, owner: Address, salt: nat, target: Address,
                   calldata: seq<Byte>): UserOp
  {
    UserOp(
      account,
      0,
      Hexlify(factory + EncodeCreateAccount(owner, salt)),
      Hexlify(EncodeExecute(ExecuteCall(target, 0, calldata))),
      Pack128(VERIFICATION_GAS, CALL_GAS),
      PRE_VERIFICATION_GAS,
      Pack128(0, 0),
      "0x",
      "0x")
  }

  lemma PackedConstants()
    ensures IsHexStringOf(Pack128(VERIFICATION_GAS, CALL_GAS), 32)
    ensures GetBytes(Pack128(VERIFICATION_GAS, CALL_GAS))
         == Some(FromNat(VERIFICATION_GAS, 16) + FromNat(CALL_GAS, 16))
    ensures Pack128(0, 0) == ZERO_WORD
  {
    hide FromNat, Pow256, Pack128;
    PackedHalvesReadBack(VERIFICATION_GAS, CALL_GAS);
    PackedHalvesReadBack(0, 0);
    ZeroBytes(16);
    assert Zeros(16) + Zeros(16) == Zeros(32);
    ZeroWordText(Pack128(0, 0));
  }

  lemma {:induction false} ZeroBytes(n: nat)
    ensures FromNat(0, n) == Zeros(n)
  {
    if n > 0 {
      ZeroBytes(n - 1);
    }
  }

  /** The JSON-RPC request that posts an operation. */
  function SendRequest(op: Json, entryPoint: Address): Json {
    Obj(map["jsonrpc" := Str("2.0"), "method" := Str(SEND_METHOD), "params" := Arr([op, Str(Hexlify(entryPoint))])])
  }

  /** The policy allows at least what this app does: its factory, its target, `set(uint256)` under a selector that no
      other listed signature takes over, and its three gas numbers. */
  ghost predicate AllowsApp(c: Config, selectorOf: string -> seq<Byte>, factory: Address, target: Address) {
    && (c.factory == None || c.factory == Some(factory))
    && TargetPermitted(c, target)
    && "set(uint256)" in c.allowedInner
    && selectorOf("set(uint256)") == SET_SELECTOR
    && (forall sig :: sig in c.allowedInner && Matches(sig, selectorOf, SET_SELECTOR) ==> sig == "set(uint256)")
    && VERIFICATION_GAS <= c.limits.verificationGasLimit && CALL_GAS <= c.limits.callGasLimit
    && PRE_VERIFICATION_GAS <= c.limits.preVerificationGas && 196 <= c.limits.callDataBytes
  }

  /** The default limits and the default inner call allow the app, with its target listed or no list at all. */
  lemma DefaultsAllowApp(c: Config, selectorOf: string -> seq<Byte>, factory: Address, target: Address)
    requires c.limits == Limits(5_000_000, 2_000_000, 500_000, 4_096) && c.allowedInner == ["set(uint256)"]
    requires c.factory in {None, Some(factory)}
    requires selectorOf("set(uint256)") == SET_SELECTOR
    ensures AllowsApp(c, selectorOf, factory, target) <==> TargetPermitted(c, target)
  {
  }

  lemma SetIsReported(c: Config, selectorOf: string -> seq<Byte>, factory: Address, target: Address, value: nat)
    requires AllowsApp(c, selectorOf, factory, target) && value < UINT256
    ensures InnerReported(c, selectorOf, EncodeSet(value),
                          InnerCall(SET_SELECTOR, Some("set(uint256)"), Some(Decimal(value))))
  {
    hide Word, ToNat, Decimal;
    var func := EncodeSet(value);
    assert func[..4] == SET_SELECTOR && func[4..36] == Word(value);
    ToNatWord(value);
    assert TakesOneUint("set(uint256)") by {
      assert "set(uint256)" == "set" + "(uint256)" && IsIdentifier("set");
    }
    LastMatch(c.allowedInner, selectorOf, "set(uint256)", SET_SELECTOR);
  }

  lemma {:induction false} LastMatch(signatures: seq<string>, selectorOf: string -> seq<Byte>, sig: string,
                                     selector: seq<Byte>)
    requires sig in signatures && Matches(sig, selectorOf, selector)
    requires forall other :: other in signatures && Matches(other, selectorOf, selector) ==> other == sig
    ensures IsLabel(signatures, selectorOf, selector, Some(sig))
  {
    var n := |signatures| - 1;
    if signatures[n] != sig {
      var rest := signatures[..n];
      assert signatures == rest + [signatures[n]];
      LastMatch(rest, selectorOf, sig, selector);
      var i :| 0 <= i < n && rest[i] == sig && forall j :: i < j < n ==> !Matches(rest[j], selectorOf, selector);
      assert signatures[i] == sig;
      assert signatures[n] in signatures;
      assert forall j :: i < j < n ==> signatures[j] == rest[j];
    } else {
      assert signatures[n] == sig;
    }
  }

  /** The bytes of the two encoded fields of a built operation. */
  lemma BuiltBytes(factory: Address, owner: Address, salt: nat, target: Address, calldata: seq<Byte>)
    requires salt < UINT256 && |calldata| < UINT256
    ensures var init := factory + EncodeCreateAccount(owner, salt);
      && |init| == 88 && init[..20] == factory && init[20..24] == CREATE_ACCOUNT_SELECTOR
      && init[24..56] == AddressWord(owner)
    ensures var data := EncodeExecute(ExecuteCall(target, 0, calldata));
      && |data| == 132 + |calldata| + Padding(|calldata|)
      && data[..4] == EXECUTE_SELECTOR && ReadsAsExecute(data[4..], ExecuteCall(target, 0, calldata))
  {
    hide Word, AddressWord, ReadsAsExecute, DecodeExecuteArgs;
    var init := factory + EncodeCreateAccount(owner, salt);
    assert init == factory + CREATE_ACCOUNT_SELECTOR + AddressWord(owner) + Word(salt);
    var c := ExecuteCall(target, 0, calldata);
    assert EncodeExecute(c)[4..] == EncodeExecuteArgs(c);
    ExecuteRoundTrip(c);
    DecodeExecuteExact(EncodeExecuteArgs(c), c);
  }

  /** The init code the browser builds names its factory, its owner and its salt. */
  lemma BuiltInitCodeReadsBack(factory: Address, account: Address, owner: Address, salt: nat, target: Address,
                               calldata: seq<Byte>)
    requires salt < UINT256
    ensures var init := GetBytes(BuildOp(factory, account, owner, salt, target, calldata).initCode);
      && init.Some? && |init.value| == 88
      && init.value[..20] == factory && init.value[20..24] == [0x5f, 0xbf, 0xb9, 0xcf]
      && DecodeCreateAccountArgs(init.value[24..]) == Some((owner, salt))
  {
    hide Hexlify, GetBytes, AddressWord, Word, EncodeExecute, Pack128;
    var init := factory + EncodeCreateAccount(owner, salt);
    GetBytesHexlify(init);
    assert init[20..] == EncodeCreateAccount(owner, salt);
    assert init[24..] == EncodeCreateAccount(owner, salt)[4..];
    CreateAccountRoundTrip(owner, salt);
  }

  /** What the browser asks for: one call of the target without value under nonce zero, three and one million of gas for
      its two phases, no fees and no paymaster. */
  lemma BuiltOpSays(factory: Address, account: Address, owner: Address, salt: nat, target: Address, calldata: seq<Byte>)
    requires salt < UINT256 && |calldata| < UINT256
    ensures var op := BuildOp(factory, account, owner, salt, target, calldata);
      && op.sender == account && op.nonce == 0 && op.preVerificationGas == 100_000
      && HighByShift(op.accountGasLimits) == Some(3_000_000) && LowByMask(op.accountGasLimits) == Some(1_000_000)
      && HighByShift(op.gasFees) == LowByMask(op.gasFees) == Some(0)
      && op.paymasterAndData == "0x" && op.signature == "0x"
      && GetBytes(op.callData).Some?
      && var data := GetBytes(op.callData).value;
      && |data| >= 4 && data[..4] == [0xb6, 0x1d, 0x27, 0xf6]
      && ReadsAsExecute(data[4..], ExecuteCall(target, 0, calldata))
  {
    hide Hexlify, GetBytes, Pack128, HighByShift, LowByMask, ReadsAsExecute, EncodeExecute, EncodeCreateAccount;
    PackedHalvesReadBack(VERIFICATION_GAS, CALL_GAS);
    PackedHalvesReadBack(0, 0);
    BuiltBytes(factory, owner, salt, target, calldata);
    GetBytesHexlify(EncodeExecute(ExecuteCall(target, 0, calldata)));
  }

  /** For every owner, salt, account, permitted target and 256-bit value, and whatever hex signature the wallet adds:
      the policy accepts the request and reports exactly that sender, target, owner, `set(uint256)` and the decimal of
      the value, and the bundler accepts it and holds the very operation the browser built. */
  lemma BuiltOpPassesBothGates(c: Config, selectorOf: string -> seq<Byte>, factory: Address, account: Address,
                               owner: Address, salt: nat, target: Address, value: nat, signature: string)
    requires AllowsApp(c, selectorOf, factory, target)
    requires salt < UINT256 && value < UINT256 && IsHexString(signature)
    ensures var op := BuildOp(factory, account, owner, salt, target, EncodeSet(value)).(signature := signature);
      && SerializeInBrowser(op).Some?
      && var request := SendRequest(SerializeInBrowser(op).value, c.entryPoint);
      && Check(CreatePolicy(c, selectorOf), request)
         == Ok(Checked(account, target, Some(owner),
                       InnerCall(SET_SELECTOR, Some("set(uint256)"), Some(Decimal(value)))))
      && StaticCheck(c.entryPoint, true, Field(request, "params")) == Ok(op)
  {
    hide Check, CreatePolicy, ToNat, FromNat, Hexlify, GetBytes, IsHexString, NormalizeUserOp, StringToBigInt, ToBeHex,
         EncodeExecute, EncodeCreateAccount, ReadsAsExecute, InnerReported, Pack128, Decimal, ParseAddress,
         TargetPermitted, AllowsApp, AddressWord;
    PackedConstants();
    var func := EncodeSet(value);
    var op := BuildOp(factory, account, owner, salt, target, func).(signature := signature);
    var r := Checked(account, target, Some(owner), InnerCall(SET_SELECTOR, Some("set(uint256)"), Some(Decimal(value))));
    BuiltFieldsNormalized(op);
    NormalizeBrowserForm(op);
    var request := SendRequest(SerializeInBrowser(op).value, c.entryPoint);
    AddressTextReadsBack(c.entryPoint);
    BuiltOpAcceptable(c, selectorOf, factory, owner, salt, target, value, op, r);
    var params := Field(request, "params");
    assert params == Arr([SerializeInBrowser(op).value, Str(Hexlify(c.entryPoint))]);
    assert Field(request, "method") == Str(SEND_METHOD);
    CheckExact(c, selectorOf, request, r);
  }

  lemma ReadsAsOneCall(args: seq<Byte>, a: ExecuteCall, b: ExecuteCall)
    requires ReadsAsExecute(args, a) && ReadsAsExecute(args, b)
    ensures a == b
  {
    hide ReadsAsExecute, DecodeExecuteArgs;
    DecodeExecuteExact(args, a);
    DecodeExecuteExact(args, b);
  }

  /** Whatever the policy accepts of a built request, it accepts for that target. */
  lemma AcceptedTargetIsBuilt(c: Config, selectorOf: string -> seq<Byte>, op: UserOp, target: Address,
                              calldata: seq<Byte>, r: Checked)
    requires SerializeInBrowser(op).Some? && |calldata| < UINT256
    requires op.callData == Hexlify(EncodeExecute(ExecuteCall(target, 0, calldata)))
    requires Check(CreatePolicy(c, selectorOf), SendRequest(SerializeInBrowser(op).value, c.entryPoint)) == Ok(r)
    ensures r.target == target && TargetPermitted(c, target)
  {
    hide Check, CreatePolicy, Hexlify, GetBytes, EncodeExecute, EncodeCreateAccount, ReadsAsExecute, InnerReported,
         ParseAddress, TargetPermitted, AddressWord, Deploys, GasWithin, ToBeHex;
    var j := SerializeInBrowser(op).value;
    var request := SendRequest(j, c.entryPoint);
    CheckExact(c, selectorOf, request, r);
    var rawOp, entryPoint :| Field(request, "params") == Arr([rawOp, entryPoint])
      && OpAcceptable(c, selectorOf, rawOp, r);
    assert rawOp == j by {
      assert Field(request, "params").xs[0] == j;
    }
    var func :| Executes(c, rawOp, r.target, func) && InnerReported(c, selectorOf, func, r.inner);
    var call := ExecuteCall(target, 0, calldata);
    BuiltBytes(Zeros(20), Zeros(20), 0, target, calldata);
    GetBytesHexlify(EncodeExecute(call));
    assert HexField(j, "callData") == Some(EncodeExecute(call));
    ReadsAsOneCall(EncodeExecute(call)[4..], ExecuteCall(r.target, 0, func), call);
  }

  /** Under the default limits and the default inner call, with this factory or none configured, the policy accepts
      the app's own write, whatever its owner, salt and value, exactly if its target is permitted. */
  lemma DefaultPolicyDecides(c: Config, selectorOf: string -> seq<Byte>, factory: Address, account: Address,
                             owner: Address, salt: nat, target: Address, value: nat, signature: string)
    requires c.limits == Limits(5_000_000, 2_000_000, 500_000, 4_096) && c.allowedInner == ["set(uint256)"]
    requires c.factory in {None, Some(factory)}
    requires selectorOf("set(uint256)") == SET_SELECTOR
    requires salt < UINT256 && value < UINT256 && IsHexString(signature)
    ensures var op := BuildOp(factory, account, owner, salt, target, EncodeSet(value)).(signature := signature);
      SerializeInBrowser(op).Some?
      && (Check(CreatePolicy(c, selectorOf), SendRequest(SerializeInBrowser(op).value, c.entryPoint)).Ok?
          <==> TargetPermitted(c, target))
  {
    hide Check, CreatePolicy, TargetPermitted, AllowsApp, SendRequest, Hexlify, Pack128, ToBeHex, EncodeExecute,
         EncodeCreateAccount, IsHexString;
    var op := BuildOp(factory, account, owner, salt, target, EncodeSet(value)).(signature := signature);
    var answer := Check(CreatePolicy(c, selectorOf), SendRequest(SerializeInBrowser(op).value, c.entryPoint));
    if answer.Ok? {
      AcceptedTargetIsBuilt(c, selectorOf, op, target, EncodeSet(value), answer.value);
    }
    if TargetPermitted(c, target) {
      DefaultsAllowApp(c, selectorOf, factory, target);
      BuiltOpPassesBothGates(c, selectorOf, factory, account, owner, salt, target, value, signature);
    }
  }

  lemma BuiltFieldsNormalized(op: UserOp)
    requires IsHexString(op.signature) && op.paymasterAndData == "0x"
    requires op.accountGasLimits == Pack128(VERIFICATION_GAS, CALL_GAS) && op.gasFees == Pack128(0, 0)
    requires exists bs :: op.initCode == Hexlify(bs)
    requires exists bs :: op.callData == Hexlify(bs)
    ensures IsNormalized(op)
  {
    hide Hexlify, Pack128;
    PackedConstants();
  }

  lemma BuiltOpAcceptable(c: Config, selectorOf: string -> seq<Byte>, factory: Address, owner: Address, salt: nat,
                          target: Address, value: nat, op: UserOp, r: Checked)
    requires AllowsApp(c, selectorOf, factory, target)
    requires salt < UINT256 && value < UINT256
    requires op == BuildOp(factory, op.sender, owner, salt, target, EncodeSet(value)).(signature := op.signature)
    requires r == Checked(op.sender, target, Some(owner),
                          InnerCall(SET_SELECTOR, Some("set(uint256)"), Some(Decimal(value))))
    ensures SerializeInBrowser(op).Some? && OpAcceptable(c, selectorOf, SerializeInBrowser(op).value, r)
  {
    hide ToNat, FromNat, Hexlify, IsHexString, StringToBigInt, ToBeHex, EncodeExecute, EncodeCreateAccount,
         ReadsAsExecute, InnerReported, Pack128, Decimal, ParseAddress, GetBytes, DataSlice, TargetPermitted,
         AddressWord;
    var j := SerializeInBrowser(op).value;
    var func := EncodeSet(value);
    AddressTextReadsBack(op.sender);
    assert ParseAddress(Field(j, "sender")) == Some(op.sender);
    BuiltBytes(factory, owner, salt, target, func);
    GetBytesHexlify(factory + EncodeCreateAccount(owner, salt));
    GetBytesHexlify(EncodeExecute(ExecuteCall(target, 0, func)));
    SetIsReported(c, selectorOf, factory, target, value);
    assert Executes(c, j, target, func);
    BuiltGas(op, j, c.limits);
  }

  lemma BuiltGas(op: UserOp, j: Json, limits: Limits)
    requires SerializeInBrowser(op) == Some(j)
    requires op.accountGasLimits == Pack128(VERIFICATION_GAS, CALL_GAS) && op.gasFees == Pack128(0, 0)
    requires op.preVerificationGas == PRE_VERIFICATION_GAS
    requires VERIFICATION_GAS <= limits.verificationGasLimit && CALL_GAS <= limits.callGasLimit
    requires PRE_VERIFICATION_GAS <= limits.preVerificationGas
    ensures GasWithin(limits, j)
  {
    hide ToNat, FromNat, Hexlify, IsHexString, StringToBigInt, BigIntOf, ToBeHex, ToQuantity, Decimal, Pack128,
         GetBytes;
    PackedConstants();
    GetBytesHexlify(Zeros(32));
    QuantityTextReadsBack(PRE_VERIFICATION_GAS);
    assert Field(j, "preVerificationGas") == Str(ToBeHex(PRE_VERIFICATION_GAS));
    TextQuantity(ToBeHex(PRE_VERIFICATION_GAS));
    PackedHalfBytes();
  }

  lemma TextQuantity(s: string)
    ensures BigIntOf(Str(s)) == StringToBigInt(s)
  {
  }

  lemma PackedHalfBytes()
    ensures var w := FromNat(VERIFICATION_GAS, 16) + FromNat(CALL_GAS, 16);
      |w| == 32 && ToNat(w[..16]) == VERIFICATION_GAS && ToNat(w[16..]) == CALL_GAS
  {
    hide ToNat, FromNat;
    var w := FromNat(VERIFICATION_GAS, 16) + FromNat(CALL_GAS, 16);
    assert w[..16] == FromNat(VERIFICATION_GAS, 16) && w[16..] == FromNat(CALL_GAS, 16);
    WordCapacity();
    ToNatFromNat(VERIFICATION_GAS, 16);
    ToNatFromNat(CALL_GAS, 16);
  }

  /** No parser differential: when the policy accepts a request and the bundler accepts its parameters, the operation
      the bundler holds is the one the policy vetted, under the bundler's own readings. Its fee word is zero, its gas
      numbers are under the caps, it names no paymaster, and its callData executes the reported target. */
  lemma GatesReadTheSameOp(c: Config, selectorOf: string -> seq<Byte>, request: Json, r: Checked, op: UserOp)
    requires Check(CreatePolicy(c, selectorOf), request) == Ok(r)
    requires StaticCheck(c.entryPoint, false, Field(request, "params")) == Ok(op)
    ensures op.sender == r.sender && op.gasFees == ZERO_WORD && op.paymasterAndData == "0x"
    ensures HighByShift(op.accountGasLimits).Some? && LowByMask(op.accountGasLimits).Some?
    ensures HighByShift(op.accountGasLimits).value <= c.limits.verificationGasLimit
    ensures LowByMask(op.accountGasLimits).value <= c.limits.callGasLimit
    ensures op.preVerificationGas <= c.limits.preVerificationGas
    ensures r.owner == None <==> op.initCode == "0x"
    ensures Deploys(c.factory, Str(op.initCode), r.owner)
    ensures GetBytes(op.callData).Some?
    ensures 4 <= |GetBytes(op.callData).value| <= c.limits.callDataBytes
    ensures GetBytes(op.callData).value[..4] == EXECUTE_SELECTOR
    ensures exists func ::
              && ReadsAsExecute(GetBytes(op.callData).value[4..], ExecuteCall(r.target, 0, func))
              && InnerReported(c, selectorOf, func, r.inner)
  {
    hide Check, CreatePolicy, ToNat, Hexlify, GetBytes, IsHexString, NormalizeUserOp, BigIntOf, ReadsAsExecute,
         InnerReported, ParseAddress, Field, HighByShift, LowByMask, TargetPermitted, Deploys;
    CheckExact(c, selectorOf, request, r);
    var rawOp, entryPoint :| Field(request, "params") == Arr([rawOp, entryPoint])
      && ParseAddress(entryPoint) == Some(c.entryPoint) && OpAcceptable(c, selectorOf, rawOp, r);
    NormalizedKeepsFields(rawOp, op);
    ZeroWordText(op.gasFees);
    GasHalvesAgree(op.accountGasLimits);
    DeploysKept(c.factory, rawOp, op, r.owner);
    var func :| Executes(c, rawOp, r.target, func) && InnerReported(c, selectorOf, func, r.inner);
  }

  lemma DeploysKept(factory: Option<Address>, rawOp: Json, op: UserOp, owner: Option<Address>)
    requires Deploys(factory, Field(rawOp, "initCode"), owner)
    requires NormalizeHex(Field(rawOp, "initCode")) == Some(op.initCode)
    ensures owner == None <==> op.initCode == "0x"
    ensures Deploys(factory, Str(op.initCode), owner)
  {
  }

  /** What the normaliser copies from the fields of the raw operation. */
  lemma NormalizedKeepsFields(rawOp: Json, op: UserOp)
    requires NormalizeUserOp(rawOp) == Ok(op)
    ensures ParseAddress(Field(rawOp, "sender")) == Some(op.sender)
    ensures IsHexStringOf(op.gasFees, 32) && IsHexStringOf(op.accountGasLimits, 32)
    ensures Field(rawOp, "gasFees").Str? ==> Field(rawOp, "gasFees").s == op.gasFees
    ensures Field(rawOp, "accountGasLimits").Str? ==> Field(rawOp, "accountGasLimits").s == op.accountGasLimits
    ensures Field(rawOp, "callData").Str? ==> Field(rawOp, "callData").s == op.callData
    ensures NormalizeHex(Field(rawOp, "initCode")) == Some(op.initCode)
    ensures NormalizeHex(Field(rawOp, "paymasterAndData")) == Some(op.paymasterAndData)
    ensures !Truthy(Field(rawOp, "paymasterAndData")) ==> op.paymasterAndData == "0x"
    ensures Field(rawOp, "paymasterAndData") == Str("0x") ==> op.paymasterAndData == "0x"
    ensures BigIntOf(Field(rawOp, "preVerificationGas")).Some? ==>
            BigIntOf(Field(rawOp, "preVerificationGas")) == Some(op.preVerificationGas)
  {
    hide BigIntOf, ParseAddress, Field;
    NormalizedShape(rawOp);
    var pre := Field(rawOp, "preVerificationGas");
    assert pre.Null? || pre.Undefined? ==> BigIntOf(pre).None? by {
      NullIsNoQuantity();
    }
  }

  lemma NullIsNoQuantity()
    ensures BigIntOf(Null).None? && BigIntOf(Undefined).None?
  {
  }
}
