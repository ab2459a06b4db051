/** The proxy's gate: what it lets through, decided on the text and bytes of one JSON-RPC request. */
module Policy {
  import opened Wrappers
  import opened Bytes
  import opened Hex
  import opened Js
  import opened Abi
  import opened UserOps

  /** An entry of the target allow-list: `*` or one contract. */
  datatype Target = AnyTarget | Allow(address: Address)

  datatype Limits = Limits(verificationGasLimit: int, callGasLimit: int, preVerificationGas: int, callDataBytes: int)

  datatype Config = Config(
    entryPoint: Address,
    factory: Option<Address>,
    allowedTargets: seq<Target>,
    allowedInner: seq<string>,
    limits: Limits)

  /** The closure state of a created policy. */
  datatype Policy = Policy(
    entryPoint: Address,
    factory: Option<Address>,
    anyTarget: bool,
    targets: set<Address>,
    anySelector: bool,
    innerSelectors: map<seq<Byte>, string>,
    caps: Limits)

  datatype InnerCall = InnerCall(selector: seq<Byte>, signature: Option<string>, value: Option<string>)

  datatype Checked = Checked(sender: Address, target: Address, owner: Option<Address>, inner: InnerCall)

  /** A refusal is the policy's own 403; a fault is an exception of another kind. Neither forwards anything. */
  datatype Rejection = Refused(what: string) | Fault

  const SEND_METHOD := "eth_sendUserOperation"

  /** The last signature wins where two share a selector. */
  function SelectorMap(signatures: seq<string>, selectorOf: string -> seq<Byte>): map<seq<Byte>, string> {
    if signatures == [] then map[]
    else
      var rest, sig := signatures[..|signatures| - 1], signatures[|signatures| - 1];
      if sig == "*" then SelectorMap(rest, selectorOf)
      else SelectorMap(rest, selectorOf)[selectorOf(sig) := sig]
  }

  /** `selectorOf(sig)` stands for the first four bytes of the keccak hash of the signature text. */
  function CreatePolicy(c: Config, selectorOf: string -> seq<Byte>): Policy {
    var anyTarget := c.allowedTargets == [] || AnyTarget in c.allowedTargets;
    Policy(
      c.entryPoint,
      c.factory,
      anyTarget,
      if anyTarget then {} else set t | t in c.allowedTargets && t.Allow? :: t.address,
      "*" in c.allowedInner,
      SelectorMap(c.allowedInner, selectorOf),
      c.limits)
  }

  predicate IsIdentifier(s: string) {
    && s != ""
    && (s[0] == '_' || 'a' <= s[0] <= 'z' || 'A' <= s[0] <= 'Z')
    && forall i :: 0 <= i < |s| ==> s[i] == '_' || 'a' <= s[i] <= 'z' || 'A' <= s[i] <= 'Z' || '0' <= s[i] <= '9'
  }

  /** A function name followed by exactly "(uint256)". */
  predicate IsSingleUint(sig: string) {
    |sig| >= 9 && sig[|sig| - 9..] == "(uint256)" && IsIdentifier(sig[..|sig| - 9])
  }

  function DecodeSingleUint(signature: Option<string>, inner: seq<Byte>): Option<string> {
    if signature.None? || !IsSingleUint(signature.value) then None
    else
      match DecodeUint(if |inner| < 4 then [] else inner[4..])
      case None => None
      case Some(n) => Some(Decimal(n))
  }

  function CheckInitCode(p: Policy, initCode: Json): Result<Option<Address>, Rejection> {
    if !Truthy(initCode) || initCode == Str("0x") then Ok(None)
    else if !initCode.Str? || !IsHexString(initCode.s) || |initCode.s| < 2 + 40 then Err(Refused("initCode"))
    else
      match GetBytes(initCode.s)
      case None => Err(Fault)
      case Some(bs) =>
        if p.factory.Some? && bs[..20] != p.factory.value then Err(Refused("factory"))
        else if |bs| < 24 then Err(Fault)
        else if bs[20..24] != CREATE_ACCOUNT_SELECTOR then Err(Refused("initCode selector"))
        else
          match DecodeCreateAccountArgs(bs[24..])
          case None => Err(Refused("initCode arguments"))
          case Some(args) => Ok(Some(args.0))
  }

  function CheckInner(p: Policy, inner: seq<Byte>): Result<InnerCall, Rejection> {
    if 0 < |inner| < 4 then Err(Fault)
    else
      var selector := if inner == [] then [] else inner[..4];
      if !p.anySelector && selector !in p.innerSelectors then Err(Refused("inner call"))
      else
        var signature := if selector in p.innerSelectors then Some(p.innerSelectors[selector]) else None;
        Ok(InnerCall(selector, signature, DecodeSingleUint(signature, inner)))
  }

  function CheckCallData(p: Policy, callData: Json): Result<(Address, InnerCall), Rejection> {
    if !callData.Str? || !IsHexString(callData.s) then Err(Refused("callData"))
    else if |callData.s| - 2 > 2 * p.caps.callDataBytes then Err(Refused("callData size"))
    else
      match GetBytes(callData.s)
      case None => Err(Fault)
      case Some(bs) =>
        if |bs| < 4 then Err(Fault)
        else if bs[..4] != EXECUTE_SELECTOR then Err(Refused("callData selector"))
        else
          match DecodeExecuteArgs(bs[4..])
          case None => Err(Refused("execute arguments"))
          case Some(call) =>
            if call.value != 0 then Err(Refused("execute value"))
            else if !p.anyTarget && call.dest !in p.targets then Err(Refused("target"))
            else
              match CheckInner(p, call.func)
              case Err(e) => Err(e)
              case Ok(inner) => Ok((call.dest, inner))
  }

  /** Fees, the two gas halves and the pre-verification gas. */
  function CheckGas(caps: Limits, op: Json): Result<(), Rejection> {
    var gasFees, gasLimits := Field(op, "gasFees"), Field(op, "accountGasLimits");
    if !gasFees.Str? || !IsHexStringOf(gasFees.s, 32) then Err(Refused("gasFees"))
    else if Lower(gasFees.s) != ZERO_WORD then Err(Refused("gasFees must be zero"))
    else if !gasLimits.Str? || !IsHexStringOf(gasLimits.s, 32) then Err(Refused("accountGasLimits"))
    else
      match (HighBySlice(gasLimits.s), LowBySlice(gasLimits.s))
      case (Some(hi), Some(lo)) =>
        if hi > caps.verificationGasLimit then Err(Refused("verificationGasLimit"))
        else if lo > caps.callGasLimit then Err(Refused("callGasLimit"))
        else
          (match BigIntOf(Field(op, "preVerificationGas"))
           case None => Err(Refused("preVerificationGas"))
           case Some(n) => if n > caps.preVerificationGas then Err(Refused("preVerificationGas")) else Ok(()))
      case _ => Err(Fault)
  }

  function CheckOp(p: Policy, op: Json): Result<Checked, Rejection> {
    if !Truthy(op) || !IsObject(op) then Err(Refused("userOp")) else
    var sender := ParseAddress(Field(op, "sender"));
    if sender.None? then Err(Refused("sender")) else
    var gas := CheckGas(p.caps, op);
    if gas.Err? then Err(gas.error) else
    var paymaster := Field(op, "paymasterAndData");
    if Truthy(paymaster) && paymaster != Str("0x") then Err(Refused("paymasterAndData")) else
    var owner := CheckInitCode(p, Field(op, "initCode"));
    if owner.Err? then Err(owner.error) else
    var call := CheckCallData(p, Field(op, "callData"));
    if call.Err? then Err(call.error) else
    Ok(Checked(sender.value, call.value.0, owner.value, call.value.1))
  }

  function Check(p: Policy, request: Json): Result<Checked, Rejection> {
    if request.Arr? then Err(Refused("batch"))
    else if !Truthy(request) || !IsObject(request) then Err(Refused("body"))
    else if Field(request, "method") != Str(SEND_METHOD) then
      Err(if HasText(Field(request, "method")) then Refused("method") else Fault)
    else
      var params := Field(request, "params");
      if !params.Arr? || |params.xs| != 2 then Err(Refused("params"))
      else if ParseAddress(params.xs[1]) != Some(p.entryPoint) then Err(Refused("entryPoint"))
      else CheckOp(p, params.xs[0])
  }

  // ---- What acceptance means, in terms of the configuration and the bytes of the request ----

  ghost predicate TargetPermitted(c: Config, target: Address) {
    c.allowedTargets == [] || AnyTarget in c.allowedTargets || Allow(target) in c.allowedTargets
  }

  ghost predicate Matches(sig: string, selectorOf: string -> seq<Byte>, selector: seq<Byte>) {
    sig != "*" && selectorOf(sig) == selector
  }

  /** The label of a selector: the last listed signature with that selector, if any. */
  ghost predicate IsLabel(signatures: seq<string>, selectorOf: string -> seq<Byte>, selector: seq<Byte>,
                          chosen: Option<string>) {
    match chosen
    case None => forall i :: 0 <= i < |signatures| ==> !Matches(signatures[i], selectorOf, selector)
    case Some(sig) =>
      exists i :: 0 <= i < |signatures| && signatures[i] == sig && Matches(sig, selectorOf, selector)
               && forall j :: i < j < |signatures| ==> !Matches(signatures[j], selectorOf, selector)
  }

  /** A function name with one uint256 argument. */
  ghost predicate TakesOneUint(sig: string) {
    exists name :: sig == name + "(uint256)" && IsIdentifier(name)
  }

  lemma SingleUintExact(sig: string)
    ensures IsSingleUint(sig) <==> TakesOneUint(sig)
  {
    hide IsIdentifier;
    if IsSingleUint(sig) {
      assert sig == sig[..|sig| - 9] + "(uint256)";
    }
    forall name | sig == name + "(uint256)" ensures |sig| >= 9 && sig[..|sig| - 9] == name {
      assert sig[|sig| - 9..] == "(uint256)";
    }
  }

  /** How the inner call is reported: its selector, its label, and the decimal text of its first word when the label
      takes one uint256 and the word is there. */
  ghost predicate InnerReported(c: Config, selectorOf: string -> seq<Byte>, func: seq<Byte>, inner: InnerCall) {
    && (if func == [] then inner.selector == [] else |func| >= 4 && inner.selector == func[..4])
    && IsLabel(c.allowedInner, selectorOf, inner.selector, inner.signature)
    && ("*" in c.allowedInner || inner.signature.Some?)
    && inner.value == (if inner.signature.Some? && TakesOneUint(inner.signature.value) && |func| >= 36
                       then Some(Decimal(ToNat(func[4..36]))) else None)
  }

  /** The bytes of a hex-text field. */
  function HexField(op: Json, name: string): Option<seq<Byte>> {
    if Field(op, name).Str? then GetBytes(Field(op, name).s) else None
  }

  ghost predicate GasWithin(caps: Limits, op: Json) {
    && HexField(op, "gasFees") == Some(Zeros(32))
    && HexField(op, "accountGasLimits").Some?
    && var w := HexField(op, "accountGasLimits").value;
    && |w| == 32 && ToNat(w[..16]) <= caps.verificationGasLimit && ToNat(w[16..]) <= caps.callGasLimit
    && BigIntOf(Field(op, "preVerificationGas")).Some?
    && BigIntOf(Field(op, "preVerificationGas")).value <= caps.preVerificationGas
  }

  /** Either nothing to deploy, or `factory.createAccount(owner, salt)` with the configured factory if there is one. */
  ghost predicate Deploys(factory: Option<Address>, initCode: Json, owner: Option<Address>) {
    match owner
    case None => !Truthy(initCode) || initCode == Str("0x")
    case Some(a) =>
      && initCode.Str? && GetBytes(initCode.s).Some?
      && var bs := GetBytes(initCode.s).value;
      && 88 <= |bs|
      && (factory.Some? ==> bs[..20] == factory.value)
      && bs[20..24] == CREATE_ACCOUNT_SELECTOR
      && bs[24..56] == AddressWord(a)
  }

  /** callData is at most the allowed size and reads, by the head/tail rule, as `execute(target, 0, func)`. */
  ghost predicate Executes(c: Config, op: Json, target: Address, func: seq<Byte>) {
    && HexField(op, "callData").Some?
    && var bs := HexField(op, "callData").value;
    && 4 <= |bs| <= c.limits.callDataBytes
    && bs[..4] == EXECUTE_SELECTOR
    && ReadsAsExecute(bs[4..], ExecuteCall(target, 0, func))
  }

  ghost predicate OpAcceptable(c: Config, selectorOf: string -> seq<Byte>, op: Json, r: Checked) {
    && IsObject(op)
    && ParseAddress(Field(op, "sender")) == Some(r.sender)
    && GasWithin(c.limits, op)
    && (!Truthy(Field(op, "paymasterAndData")) || Field(op, "paymasterAndData") == Str("0x"))
    && Deploys(c.factory, Field(op, "initCode"), r.owner)
    && TargetPermitted(c, r.target)
    && exists func :: Executes(c, op, r.target, func) && InnerReported(c, selectorOf, func, r.inner)
  }

  ghost predicate Acceptable(c: Config, selectorOf: string -> seq<Byte>, request: Json, r: Checked) {
    && request.Obj?
    && Field(request, "method") == Str("eth_sendUserOperation")
    && exists op, entryPoint ::
         && Field(request, "params") == Arr([op, entryPoint])
         && ParseAddress(entryPoint) == Some(c.entryPoint)
         && OpAcceptable(c, selectorOf, op, r)
  }

  // ---- The gate meets that meaning exactly ----

  lemma LabelStep(rest: seq<string>, sig: string, selectorOf: string -> seq<Byte>, selector: seq<Byte>,
                  before: Option<string>)
    requires IsLabel(rest, selectorOf, selector, before)
    ensures IsLabel(rest + [sig], selectorOf, selector,
                    if Matches(sig, selectorOf, selector) then Some(sig) else before)
  {
    hide Matches;
    var all, n := rest + [sig], |rest|;
    assert all[n] == sig;
    if !Matches(sig, selectorOf, selector) && before.Some? {
      var i :| 0 <= i < n && rest[i] == before.value && Matches(before.value, selectorOf, selector)
            && forall j :: i < j < n ==> !Matches(rest[j], selectorOf, selector);
      assert all[i] == before.value;
      assert forall j :: i < j < n ==> all[j] == rest[j];
    } else if before.None? {
      assert forall j :: 0 <= j < n ==> all[j] == rest[j];
    }
  }

  /** `map.get(selector)` */
  function LabelIn(m: map<seq<Byte>, string>, selector: seq<Byte>): Option<string> {
    if selector in m then Some(m[selector]) else None
  }

  lemma {:induction false} SelectorMapIsLabel(signatures: seq<string>, selectorOf: string -> seq<Byte>,
                                              selector: seq<Byte>)
    ensures IsLabel(signatures, selectorOf, selector, LabelIn(SelectorMap(signatures, selectorOf), selector))
  {
    if signatures != [] {
      var rest, sig := signatures[..|signatures| - 1], signatures[|signatures| - 1];
      assert signatures == rest + [sig];
      SelectorMapIsLabel(rest, selectorOf, selector);
      LabelStep(rest, sig, selectorOf, selector, LabelIn(SelectorMap(rest, selectorOf), selector));
    }
  }

  lemma LabelUnique(signatures: seq<string>, selectorOf: string -> seq<Byte>, selector: seq<Byte>,
                    a: Option<string>, b: Option<string>)
    requires IsLabel(signatures, selectorOf, selector, a) && IsLabel(signatures, selectorOf, selector, b)
    ensures a == b
  {
  }

  lemma CheckInnerExact(c: Config, selectorOf: string -> seq<Byte>, func: seq<Byte>, inner: InnerCall)
    ensures CheckInner(CreatePolicy(c, selectorOf), func) == Ok(inner) <==> InnerReported(c, selectorOf, func, inner)
  {
    var m := SelectorMap(c.allowedInner, selectorOf);
    var selector := if |func| < 4 then [] else func[..4];
    SelectorMapIsLabel(c.allowedInner, selectorOf, selector);
    var chosen := if selector in m then Some(m[selector]) else None;
    if inner.selector == selector && IsLabel(c.allowedInner, selectorOf, selector, inner.signature) {
      LabelUnique(c.allowedInner, selectorOf, selector, chosen, inner.signature);
    }
    if inner.signature.Some? {
      SingleUintExact(inner.signature.value);
    }
    if chosen.Some? {
      SingleUintExact(chosen.value);
    }
    if |func| >= 36 {
      assert func[4..][..32] == func[4..36];
    }
  }

  lemma WordHasBytes(s: string)
    requires IsHexStringOf(s, 32)
    ensures GetBytes(s).Some? && |GetBytes(s).value| == 32
  {
  }

  lemma CheckGasExact(caps: Limits, op: Json)
    ensures CheckGas(caps, op).Ok? <==> GasWithin(caps, op)
  {
    hide ToNat, DataSlice, BigIntOf, Lower, HighBySlice, LowBySlice, HighByShift, LowByMask, GetBytes, IsHexString,
         Field;
    var gasFees, gasLimits := Field(op, "gasFees"), Field(op, "accountGasLimits");
    if gasFees.Str? && IsHexStringOf(gasFees.s, 32) {
      ZeroWordText(gasFees.s);
      WordHasBytes(gasFees.s);
    }
    if gasLimits.Str? && IsHexStringOf(gasLimits.s, 32) {
      GasHalvesAgree(gasLimits.s);
      WordHasBytes(gasLimits.s);
    }
  }

  lemma CheckInitCodeExact(p: Policy, initCode: Json, owner: Option<Address>)
    ensures CheckInitCode(p, initCode) == Ok(owner) <==> Deploys(p.factory, initCode, owner)
  {
    hide AddressWord, DecodeAddress, ToNat;
    if initCode.Str? && GetBytes(initCode.s).Some? {
      var bs := GetBytes(initCode.s).value;
      if |bs| >= 88 {
        assert bs[24..][..32] == bs[24..56];
        DecodeAddressSound(bs[24..56]);
        if owner.Some? {
          AddressWordReadsBack(owner.value);
        }
      }
    }
  }

  lemma CheckCallDataExact(c: Config, selectorOf: string -> seq<Byte>, op: Json, target: Address, inner: InnerCall)
    ensures CheckCallData(CreatePolicy(c, selectorOf), Field(op, "callData")) == Ok((target, inner)) <==>
            TargetPermitted(c, target)
            && exists func :: Executes(c, op, target, func) && InnerReported(c, selectorOf, func, inner)
  {
    hide DecodeExecuteArgs, ReadsAsExecute, InnerReported, CheckInner, Field, SelectorMap;
    var p := CreatePolicy(c, selectorOf);
    var j := Field(op, "callData");
    if j.Str? && GetBytes(j.s).Some? && |GetBytes(j.s).value| >= 4 {
      var args := GetBytes(j.s).value[4..];
      forall func
        ensures DecodeExecuteArgs(args) == Some(ExecuteCall(target, 0, func))
                <==> ReadsAsExecute(args, ExecuteCall(target, 0, func))
        ensures CheckInner(p, func) == Ok(inner) <==> InnerReported(c, selectorOf, func, inner)
      {
        DecodeExecuteExact(args, ExecuteCall(target, 0, func));
        CheckInnerExact(c, selectorOf, func, inner);
      }
      assert p.anyTarget || target in p.targets <==> TargetPermitted(c, target);
      if CheckCallData(p, j) == Ok((target, inner)) {
        var call := DecodeExecuteArgs(args).value;
        assert call == ExecuteCall(target, 0, call.func);
        assert Executes(c, op, target, call.func) && InnerReported(c, selectorOf, call.func, inner);
      }
    }
  }

  lemma CheckOpExact(c: Config, selectorOf: string -> seq<Byte>, op: Json, r: Checked)
    ensures CheckOp(CreatePolicy(c, selectorOf), op) == Ok(r) <==> OpAcceptable(c, selectorOf, op, r)
  {
    hide Field, ParseAddress, CheckGas, GasWithin, CheckInitCode, Deploys, CheckCallData, Executes, InnerReported,
         TargetPermitted, SelectorMap;
    CheckGasExact(c.limits, op);
    CheckInitCodeExact(CreatePolicy(c, selectorOf), Field(op, "initCode"), r.owner);
    CheckCallDataExact(c, selectorOf, op, r.target, r.inner);
  }

  /** The policy accepts a request with a given report exactly when the request is one `eth_sendUserOperation` to the
      configured EntryPoint whose bytes mean what the report says and stay within the configuration. */
  lemma CheckExact(c: Config, selectorOf: string -> seq<Byte>, request: Json, r: Checked)
    ensures Check(CreatePolicy(c, selectorOf), request) == Ok(r) <==> Acceptable(c, selectorOf, request, r)
  {
    hide Field, ParseAddress, CheckOp, OpAcceptable, SelectorMap;
    var params := Field(request, "params");
    if params.Arr? && |params.xs| == 2 {
      CheckOpExact(c, selectorOf, params.xs[0], r);
      assert params == Arr([params.xs[0], params.xs[1]]);
    }
  }

  // ---- What a request that is not let through is told ----

  /** The bytes of a hex-text field, none where it has none. */
  function BytesIn(j: Json): seq<Byte> {
    if j.Str? then GetBytes(j.s).UnwrapOr([]) else []
  }

  predicate IsWord(j: Json) {
    j.Str? && GetBytes(j.s).Some? && |GetBytes(j.s).value| == 32
  }

  predicate IsOdd(j: Json) {
    j.Str? && |j.s| % 2 == 1
  }

  function GasObjection(caps: Limits, op: Json): Option<Rejection> {
    var gasFees, gasLimits := Field(op, "gasFees"), Field(op, "accountGasLimits");
    var preGas := Field(op, "preVerificationGas");
    If(!IsWord(gasFees), Refused("gasFees"))
    .Else(If(BytesIn(gasFees) != Zeros(32), Refused("gasFees must be zero")))
    .Else(If(!IsWord(gasLimits), Refused("accountGasLimits")))
    .Else(If(IsWord(gasLimits) && ToNat(BytesIn(gasLimits)[..16]) > caps.verificationGasLimit,
             Refused("verificationGasLimit")))
    .Else(If(IsWord(gasLimits) && ToNat(BytesIn(gasLimits)[16..]) > caps.callGasLimit, Refused("callGasLimit")))
    .Else(If(BigIntOf(preGas).None? || BigIntOf(preGas).value > caps.preVerificationGas,
             Refused("preVerificationGas")))
  }

  /** Nothing is wrong with an init code that deploys nothing. */
  function InitCodeObjection(factory: Option<Address>, initCode: Json): Option<Rejection> {
    var bs := BytesIn(initCode);
    if !Truthy(initCode) || initCode == Str("0x") then None
    else
      If(!initCode.Str? || !IsHexString(initCode.s) || |initCode.s| < 42, Refused("initCode"))
      .Else(If(IsOdd(initCode), Fault))
      .Else(If(factory.Some? && !(factory.value <= bs), Refused("factory")))
      .Else(If(|bs| < 24, Fault))
      .Else(If(|bs| >= 24 && bs[20..24] != CREATE_ACCOUNT_SELECTOR, Refused("initCode selector")))
      .Else(If(|bs| < 88 || bs[24..36] != Zeros(12), Refused("initCode arguments")))
  }

  /** Something is wrong with the call an account is to make. */
  ghost function CallObjection(c: Config, selectorOf: string -> seq<Byte>, call: ExecuteCall): Option<Rejection> {
    If(call.value != 0, Refused("execute value"))
    .Else(If(!TargetPermitted(c, call.dest), Refused("target")))
    .Else(If(0 < |call.func| < 4, Fault))
    .Else(If(!exists inner :: InnerReported(c, selectorOf, call.func, inner), Refused("inner call")))
  }

  ghost function CallDataObjection(c: Config, selectorOf: string -> seq<Byte>, callData: Json): Option<Rejection> {
    var bs := BytesIn(callData);
    If(!callData.Str? || !IsHexString(callData.s), Refused("callData"))
    .Else(If(callData.Str? && |callData.s| - 2 > 2 * c.limits.callDataBytes, Refused("callData size")))
    .Else(If(IsOdd(callData) || |bs| < 4, Fault))
    .Else(If(|bs| >= 4 && bs[..4] != EXECUTE_SELECTOR, Refused("callData selector")))
    .Else(
      if |bs| >= 4 && exists call :: ReadsAsExecute(bs[4..], call) then
        var call :| ReadsAsExecute(bs[4..], call);
        CallObjection(c, selectorOf, call)
      else Some(Refused("execute arguments")))
  }

  ghost function OpObjection(c: Config, selectorOf: string -> seq<Byte>, op: Json): Option<Rejection> {
    var paymaster := Field(op, "paymasterAndData");
    If(!IsObject(op), Refused("userOp"))
    .Else(If(ParseAddress(Field(op, "sender")).None?, Refused("sender")))
    .Else(GasObjection(c.limits, op))
    .Else(If(Truthy(paymaster) && paymaster != Str("0x"), Refused("paymasterAndData")))
    .Else(InitCodeObjection(c.factory, Field(op, "initCode")))
    .Else(CallDataObjection(c, selectorOf, Field(op, "callData")))
  }

  /** The first requirement that a request fails, in the order in which they are looked at; None where it meets all. */
  ghost function Objection(c: Config, selectorOf: string -> seq<Byte>, request: Json): Option<Rejection> {
    var rpcMethod, params := Field(request, "method"), Field(request, "params");
    If(request.Arr?, Refused("batch"))
    .Else(If(!request.Obj?, Refused("body")))
    .Else(If(rpcMethod != Str("eth_sendUserOperation") && !HasText(rpcMethod), Fault))
    .Else(If(rpcMethod != Str("eth_sendUserOperation"), Refused("method")))
    .Else(If(!params.Arr? || |params.xs| != 2, Refused("params")))
    .Else(If(params.Arr? && |params.xs| == 2 && ParseAddress(params.xs[1]) != Some(c.entryPoint),
             Refused("entryPoint")))
    .Else(if params.Arr? && |params.xs| == 2 then OpObjection(c, selectorOf, params.xs[0]) else None)
  }

  function Why<T>(r: Result<T, Rejection>): Option<Rejection> {
    match r case Ok(_) => None case Err(e) => Some(e)
  }

  lemma GasRefusalExact(caps: Limits, op: Json)
    ensures Why(CheckGas(caps, op)) == GasObjection(caps, op)
  {
    hide ToNat, DataSlice, BigIntOf, Lower, HighBySlice, LowBySlice, HighByShift, LowByMask, GetBytes, IsHexString,
         Field;
    var gasFees, gasLimits := Field(op, "gasFees"), Field(op, "accountGasLimits");
    if gasFees.Str? && IsHexStringOf(gasFees.s, 32) {
      ZeroWordText(gasFees.s);
      WordHasBytes(gasFees.s);
    }
    if gasLimits.Str? && IsHexStringOf(gasLimits.s, 32) {
      GasHalvesAgree(gasLimits.s);
      WordHasBytes(gasLimits.s);
    }
  }

  lemma InitCodeRefusalExact(p: Policy, initCode: Json)
    ensures Why(CheckInitCode(p, initCode)) == InitCodeObjection(p.factory, initCode)
  {
    hide AddressWord, ToNat;
    if initCode.Str? && GetBytes(initCode.s).Some? {
      var bs := GetBytes(initCode.s).value;
      if |bs| >= 88 {
        assert bs[24..][..32][..12] == bs[24..36];
      }
      if p.factory.Some? && |bs| >= 20 {
        assert p.factory.value <= bs <==> bs[..20] == p.factory.value;
      }
    }
  }

  lemma InnerRefusalExact(c: Config, selectorOf: string -> seq<Byte>, func: seq<Byte>)
    ensures Why(CheckInner(CreatePolicy(c, selectorOf), func))
         == If(0 < |func| < 4, Fault)
            .Else(If(!exists inner :: InnerReported(c, selectorOf, func, inner), Refused("inner call")))
  {
    hide CreatePolicy, InnerReported;
    var answer := CheckInner(CreatePolicy(c, selectorOf), func);
    if answer.Ok? {
      CheckInnerExact(c, selectorOf, func, answer.value);
    }
    forall inner | InnerReported(c, selectorOf, func, inner) ensures answer == Ok(inner) {
      CheckInnerExact(c, selectorOf, func, inner);
    }
  }

  lemma CallDataRefusalExact(c: Config, selectorOf: string -> seq<Byte>, callData: Json)
    ensures Why(CheckCallData(CreatePolicy(c, selectorOf), callData)) == CallDataObjection(c, selectorOf, callData)
  {
    hide DecodeExecuteArgs, ReadsAsExecute, InnerReported, CheckInner, SelectorMap;
    if callData.Str? && GetBytes(callData.s).Some? && |GetBytes(callData.s).value| >= 4 {
      var args := GetBytes(callData.s).value[4..];
      forall call ensures DecodeExecuteArgs(args) == Some(call) <==> ReadsAsExecute(args, call) {
        DecodeExecuteExact(args, call);
      }
      if DecodeExecuteArgs(args).Some? {
        var call := DecodeExecuteArgs(args).value;
        InnerRefusalExact(c, selectorOf, call.func);
        var p := CreatePolicy(c, selectorOf);
        assert p.anyTarget || call.dest in p.targets <==> TargetPermitted(c, call.dest);
      }
    }
  }

  lemma OpRefusalExact(c: Config, selectorOf: string -> seq<Byte>, op: Json)
    ensures Why(CheckOp(CreatePolicy(c, selectorOf), op)) == OpObjection(c, selectorOf, op)
  {
    hide Field, ParseAddress, CheckGas, GasObjection, CheckInitCode, InitCodeObjection, CheckCallData,
         CallDataObjection, SelectorMap;
    GasRefusalExact(c.limits, op);
    InitCodeRefusalExact(CreatePolicy(c, selectorOf), Field(op, "initCode"));
    CallDataRefusalExact(c, selectorOf, Field(op, "callData"));
  }

  /** What the policy answers to a request it does not let through: the first requirement that fails, as a refusal by
      name or, where the code throws something else, as a fault. */
  lemma RefusalExact(c: Config, selectorOf: string -> seq<Byte>, request: Json)
    ensures Why(Check(CreatePolicy(c, selectorOf), request)) == Objection(c, selectorOf, request)
  {
    hide Field, ParseAddress, CheckOp, OpObjection, SelectorMap;
    var params := Field(request, "params");
    if params.Arr? && |params.xs| == 2 {
      OpRefusalExact(c, selectorOf, params.xs[0]);
    }
  }

  // ---- Where the policy throws something other than a refusal ----

  /** Init code of at least twenty bytes' text that has half a byte too many, or names the right factory and then has no
      room for a selector. */
  ghost predicate DeployFaults(factory: Option<Address>, initCode: Json) {
    && initCode.Str? && IsHexString(initCode.s) && |initCode.s| >= 2 + 2 * 20
    && (|initCode.s| % 2 == 1
        || (|BytesIn(initCode)| < 24 && (factory.Some? ==> BytesIn(initCode)[..20] == factory.value)))
  }

  /** callData within the size that has half a byte too many or no room for a selector, or that calls a permitted target
      with one to three bytes. */
  ghost predicate CallFaults(c: Config, op: Json) {
    var callData := Field(op, "callData");
    && callData.Str? && IsHexString(callData.s) && |callData.s| <= 2 + 2 * c.limits.callDataBytes
    && (|callData.s| % 2 == 1 || |BytesIn(callData)| < 4
        || exists target, func :: Executes(c, op, target, func) && TargetPermitted(c, target) && 0 < |func| < 4)
  }

  /** A method that does not print, or an operation in order up to init code or callData that cannot be sliced. */
  ghost predicate Faulty(c: Config, request: Json) {
    && request.Obj?
    && if Field(request, "method") == Str("eth_sendUserOperation") then
         exists op, entryPoint ::
           && Field(request, "params") == Arr([op, entryPoint])
           && ParseAddress(entryPoint) == Some(c.entryPoint)
           && IsObject(op) && ParseAddress(Field(op, "sender")).Some? && GasWithin(c.limits, op)
           && (!Truthy(Field(op, "paymasterAndData")) || Field(op, "paymasterAndData") == Str("0x"))
           && (DeployFaults(c.factory, Field(op, "initCode"))
               || ((exists owner :: Deploys(c.factory, Field(op, "initCode"), owner)) && CallFaults(c, op)))
       else !HasText(Field(request, "method"))
  }

  lemma DeployFaultExact(p: Policy, initCode: Json)
    ensures CheckInitCode(p, initCode) == Err(Fault) <==> DeployFaults(p.factory, initCode)
    ensures CheckInitCode(p, initCode).Ok? <==> exists owner :: Deploys(p.factory, initCode, owner)
  {
    hide Deploys;
    if CheckInitCode(p, initCode).Ok? {
      CheckInitCodeExact(p, initCode, CheckInitCode(p, initCode).value);
    }
    forall owner | Deploys(p.factory, initCode, owner) ensures CheckInitCode(p, initCode).Ok? {
      CheckInitCodeExact(p, initCode, owner);
    }
  }

  lemma CallFaultExact(c: Config, selectorOf: string -> seq<Byte>, op: Json)
    ensures CheckCallData(CreatePolicy(c, selectorOf), Field(op, "callData")) == Err(Fault) <==> CallFaults(c, op)
  {
    hide DecodeExecuteArgs, ReadsAsExecute, SelectorMap, Field;
    var p, j := CreatePolicy(c, selectorOf), Field(op, "callData");
    if j.Str? && GetBytes(j.s).Some? && |GetBytes(j.s).value| >= 4 {
      var args := GetBytes(j.s).value[4..];
      forall call ensures DecodeExecuteArgs(args) == Some(call) <==> ReadsAsExecute(args, call) {
        DecodeExecuteExact(args, call);
      }
      if DecodeExecuteArgs(args).Some? {
        var call := DecodeExecuteArgs(args).value;
        assert p.anyTarget || call.dest in p.targets <==> TargetPermitted(c, call.dest);
        assert Executes(c, op, call.dest, call.func) || call.value != 0 || |args| + 4 > c.limits.callDataBytes
               || EXECUTE_SELECTOR != GetBytes(j.s).value[..4];
        forall target, func | Executes(c, op, target, func) ensures call == ExecuteCall(target, 0, func) {
        }
      }
    }
  }

  lemma GasNeverFaults(caps: Limits, op: Json)
    ensures CheckGas(caps, op) != Err(Fault)
  {
    GasRefusalExact(caps, op);
  }

  lemma OpFaultExact(c: Config, selectorOf: string -> seq<Byte>, op: Json)
    ensures CheckOp(CreatePolicy(c, selectorOf), op) == Err(Fault) <==>
      && IsObject(op) && ParseAddress(Field(op, "sender")).Some? && GasWithin(c.limits, op)
      && (!Truthy(Field(op, "paymasterAndData")) || Field(op, "paymasterAndData") == Str("0x"))
      && (DeployFaults(c.factory, Field(op, "initCode"))
          || ((exists owner :: Deploys(c.factory, Field(op, "initCode"), owner)) && CallFaults(c, op)))
  {
    hide Field, ParseAddress, CheckGas, GasWithin, CheckInitCode, DeployFaults, Deploys, CheckCallData, CallFaults,
         SelectorMap;
    CheckGasExact(c.limits, op);
    GasNeverFaults(c.limits, op);
    DeployFaultExact(CreatePolicy(c, selectorOf), Field(op, "initCode"));
    CallFaultExact(c, selectorOf, op);
  }

  /** The exception that is no refusal, and so becomes a 500 that no row records, arises exactly there. */
  lemma FaultExact(c: Config, selectorOf: string -> seq<Byte>, request: Json)
    ensures Check(CreatePolicy(c, selectorOf), request) == Err(Fault) <==> Faulty(c, request)
  {
    hide Field, ParseAddress, CheckOp, GasWithin, DeployFaults, Deploys, CallFaults, SelectorMap;
    var params := Field(request, "params");
    if params.Arr? && |params.xs| == 2 {
      OpFaultExact(c, selectorOf, params.xs[0]);
      assert params == Arr([params.xs[0], params.xs[1]]);
    }
  }

  /** c2 is at least as permissive: caps no lower, nothing taken off a non-empty target list nor off the inner list,
      and the same factory or none. */
  ghost predicate AtLeastAsPermissive(c1: Config, c2: Config) {
    && c1.entryPoint == c2.entryPoint
    && (c2.factory == c1.factory || c2.factory == None)
    && (c1.allowedTargets == [] ==> c2.allowedTargets == [] || AnyTarget in c2.allowedTargets)
    && (forall t :: t in c1.allowedTargets ==> t in c2.allowedTargets || AnyTarget in c2.allowedTargets)
    && (forall sig :: sig in c1.allowedInner ==> sig in c2.allowedInner)
    && c1.limits.verificationGasLimit <= c2.limits.verificationGasLimit
    && c1.limits.callGasLimit <= c2.limits.callGasLimit
    && c1.limits.preVerificationGas <= c2.limits.preVerificationGas
    && c1.limits.callDataBytes <= c2.limits.callDataBytes
  }

  lemma InnerMonotone(c1: Config, c2: Config, selectorOf: string -> seq<Byte>, func: seq<Byte>, inner: InnerCall)
    requires AtLeastAsPermissive(c1, c2) && InnerReported(c1, selectorOf, func, inner)
    ensures exists wider :: InnerReported(c2, selectorOf, func, wider) && wider.selector == inner.selector
  {
    var m := SelectorMap(c2.allowedInner, selectorOf);
    SelectorMapIsLabel(c2.allowedInner, selectorOf, inner.selector);
    if inner.signature.Some? {
      var sig := inner.signature.value;
      assert sig in c2.allowedInner;
      var k :| 0 <= k < |c2.allowedInner| && c2.allowedInner[k] == sig;
      assert Matches(c2.allowedInner[k], selectorOf, inner.selector);
    }
    CheckInnerExact(c2, selectorOf, func, CheckInner(CreatePolicy(c2, selectorOf), func).value);
  }

  /** Loosening a configuration never turns an acceptance into a rejection, and the verified facts stay the same. */
  lemma CheckMonotone(c1: Config, c2: Config, selectorOf: string -> seq<Byte>, request: Json)
    requires AtLeastAsPermissive(c1, c2)
    ensures var r1, r2 := Check(CreatePolicy(c1, selectorOf), request), Check(CreatePolicy(c2, selectorOf), request);
      r1.Ok? ==>
        && r2.Ok? && r1.value.sender == r2.value.sender && r1.value.target == r2.value.target
        && r1.value.owner == r2.value.owner && r1.value.inner.selector == r2.value.inner.selector
  {
    hide Check, Field, ParseAddress, ReadsAsExecute, InnerReported, SelectorMap, CreatePolicy;
    if Check(CreatePolicy(c1, selectorOf), request).Ok? {
      var r := Check(CreatePolicy(c1, selectorOf), request).value;
      CheckExact(c1, selectorOf, request, r);
      var op, entryPoint :| Field(request, "params") == Arr([op, entryPoint])
        && ParseAddress(entryPoint) == Some(c1.entryPoint) && OpAcceptable(c1, selectorOf, op, r);
      var func :| Executes(c1, op, r.target, func) && InnerReported(c1, selectorOf, func, r.inner);
      InnerMonotone(c1, c2, selectorOf, func, r.inner);
      var wider :| InnerReported(c2, selectorOf, func, wider) && wider.selector == r.inner.selector;
      var r2 := r.(inner := wider);
      assert Executes(c2, op, r.target, func);
      assert OpAcceptable(c2, selectorOf, op, r2);
      CheckExact(c2, selectorOf, request, r2);
    }
  }

  /** An empty target list is the same policy as the explicit `*`, so putting a first target on it can only restrict:
      what the listed policy accepts the empty one accepted, never the other way round for an unlisted target. */
  lemma EmptyTargetListIsStar(c: Config, selectorOf: string -> seq<Byte>, request: Json, t: Address)
    requires c.allowedTargets == []
    ensures Check(CreatePolicy(c, selectorOf), request)
         == Check(CreatePolicy(c.(allowedTargets := [AnyTarget]), selectorOf), request)
    ensures var listed := Check(CreatePolicy(c.(allowedTargets := [Allow(t)]), selectorOf), request);
      listed.Ok? <==> Check(CreatePolicy(c, selectorOf), request).Ok?
                      && Check(CreatePolicy(c, selectorOf), request).value.target == t
  {
    hide Check, Field, ParseAddress, ReadsAsExecute, InnerReported, SelectorMap, Executes, GasWithin, Deploys;
    var one := c.(allowedTargets := [Allow(t)]);
    assert forall op, target, func :: Executes(c, op, target, func) <==> Executes(one, op, target, func) by {
      ExecutesIgnoresTargets(c, one);
    }
    forall r ensures Acceptable(one, selectorOf, request, r)
                     <==> Acceptable(c, selectorOf, request, r) && r.target == t {
      TargetListOnlyConstrains(c, one, t, selectorOf, request, r);
    }
    forall r
      ensures Check(CreatePolicy(one, selectorOf), request) == Ok(r) <==> Acceptable(one, selectorOf, request, r)
      ensures Check(CreatePolicy(c, selectorOf), request) == Ok(r) <==> Acceptable(c, selectorOf, request, r)
    {
      CheckExact(one, selectorOf, request, r);
      CheckExact(c, selectorOf, request, r);
    }
  }

  lemma ExecutesIgnoresTargets(c: Config, one: Config)
    requires c.limits == one.limits
    ensures forall op, target, func :: Executes(c, op, target, func) <==> Executes(one, op, target, func)
  {
  }

  lemma TargetListOnlyConstrains(c: Config, one: Config, t: Address, selectorOf: string -> seq<Byte>, request: Json,
                                 r: Checked)
    requires c.allowedTargets == [] && one == c.(allowedTargets := [Allow(t)])
    ensures Acceptable(one, selectorOf, request, r) <==> Acceptable(c, selectorOf, request, r) && r.target == t
  {
    hide Field, ParseAddress, ReadsAsExecute, SelectorMap, GasWithin, Deploys;
    forall op ensures OpAcceptable(one, selectorOf, op, r) <==> OpAcceptable(c, selectorOf, op, r) && r.target == t {
      assert forall func ::
        InnerReported(one, selectorOf, func, r.inner) <==> InnerReported(c, selectorOf, func, r.inner);
      assert forall func :: Executes(one, op, r.target, func) <==> Executes(c, op, r.target, func);
    }
  }
}
