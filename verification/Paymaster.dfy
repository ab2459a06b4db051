/** The verifying paymaster: the layout of `paymasterAndData`, the hash that the sponsor signs, and the validation
    result. */
module Paymaster {
  import opened Wrappers
  import opened Bytes
  import opened Abi

  type Uint256 = n: nat | n < UINT256
  const UINT48: nat := 0x1_0000_0000_0000
  type Uint48 = n: nat | n < UINT48

  datatype PackedUserOp = PackedUserOp(
    sender: Address,
    nonce: Uint256,
    initCode: seq<Byte>,
    callData: seq<Byte>,
    accountGasLimits: Bytes32,
    preVerificationGas: Uint256,
    gasFees: Bytes32,
    paymasterAndData: seq<Byte>,
    signature: seq<Byte>)

  datatype Revert = BadLayout | SignatureLength | InvalidSignature | InvalidSigner | NotOwner

  datatype Window = Window(validUntil: Uint48, validAfter: Uint48)

  /** Where the contract runs, and the functions it takes from outside: keccak256, the signed-message prefix over a
      hash, and signature recovery (None where it reverts). */
  datatype Chain = Chain(
    id: Uint256,
    self: Address,
    keccak: seq<Byte> -> Bytes32,
    ethSigned: Bytes32 -> Bytes32,
    recover: (Bytes32, seq<Byte>) -> Option<Address>)

  const GAS_OFFSET := 20
  const DATA_OFFSET := 52
  const SIGNATURE_OFFSET := 116

  // ---- Words ----

  function Concat(words: seq<Bytes32>): (bs: seq<Byte>)
    ensures |bs| == 32 * |words|
  {
    if words == [] then [] else words[0] + Concat(words[1..])
  }

  lemma {:induction false} ConcatInjective(a: seq<Bytes32>, b: seq<Bytes32>)
    requires |a| == |b| && Concat(a) == Concat(b)
    ensures a == b
  {
    if a != [] {
      assert Concat(a)[..32] == a[0] && Concat(b)[..32] == b[0];
      assert Concat(a)[32..] == Concat(a[1..]) && Concat(b)[32..] == Concat(b[1..]);
      ConcatInjective(a[1..], b[1..]);
    }
  }

  lemma {:induction false} ConcatAt(words: seq<Bytes32>, i: nat)
    requires i < |words|
    ensures Concat(words)[32 * i..32 * i + 32] == words[i]
  {
    if i > 0 {
      ConcatAt(words[1..], i - 1);
      assert Concat(words)[32..] == Concat(words[1..]);
      assert Concat(words)[32 * i..32 * i + 32] == Concat(words[1..])[32 * (i - 1)..32 * (i - 1) + 32];
    }
  }

  // ---- The contract ----

  function Words(c: Chain, op: PackedUserOp, w: Window): seq<Bytes32>
    requires |op.paymasterAndData| >= DATA_OFFSET
  {
    [AddressWord(op.sender), Word(op.nonce), c.keccak(op.initCode), c.keccak(op.callData), op.accountGasLimits,
     op.paymasterAndData[GAS_OFFSET..DATA_OFFSET], Word(op.preVerificationGas), op.gasFees, Word(c.id),
     AddressWord(c.self), Word(w.validUntil), Word(w.validAfter)]
  }

  /** Slicing calldata past its end reverts. */
  function GetHash(c: Chain, op: PackedUserOp, w: Window): Result<Bytes32, Revert> {
    if |op.paymasterAndData| < DATA_OFFSET then Err(BadLayout) else Ok(c.keccak(Concat(Words(c, op, w))))
  }

  /** What the sponsor signs, byte for byte: twelve words, the op's fields first, then the chain, this contract and the
      window, its end before its start. */
  ghost predicate IsPreimage(c: Chain, op: PackedUserOp, w: Window, p: seq<Byte>)
    requires |op.paymasterAndData| >= 52
  {
    && |p| == 384
    && p[..32] == AddressWord(op.sender) && p[32..64] == Word(op.nonce)
    && p[64..96] == c.keccak(op.initCode) && p[96..128] == c.keccak(op.callData)
    && p[128..160] == op.accountGasLimits && p[160..192] == op.paymasterAndData[20..52]
    && p[192..224] == Word(op.preVerificationGas) && p[224..256] == op.gasFees
    && p[256..288] == Word(c.id) && p[288..320] == AddressWord(c.self)
    && p[320..352] == Word(w.validUntil) && p[352..] == Word(w.validAfter)
  }

  lemma TwelveWords(words: seq<Bytes32>)
    requires |words| == 12
    ensures var p := Concat(words);
      && p[..32] == words[0] && p[32..64] == words[1] && p[64..96] == words[2] && p[96..128] == words[3]
      && p[128..160] == words[4] && p[160..192] == words[5] && p[192..224] == words[6] && p[224..256] == words[7]
      && p[256..288] == words[8] && p[288..320] == words[9] && p[320..352] == words[10] && p[352..] == words[11]
  {
    hide Concat;
    var p := Concat(words);
    forall i | 0 <= i < 12 ensures p[32 * i..32 * i + 32] == words[i] {
      ConcatAt(words, i);
    }
    assert p[32 * 0..32 * 0 + 32] == words[0] && p[32 * 1..32 * 1 + 32] == words[1];
    assert p[32 * 2..32 * 2 + 32] == words[2] && p[32 * 3..32 * 3 + 32] == words[3];
    assert p[32 * 4..32 * 4 + 32] == words[4] && p[32 * 5..32 * 5 + 32] == words[5];
    assert p[32 * 6..32 * 6 + 32] == words[6] && p[32 * 7..32 * 7 + 32] == words[7];
    assert p[32 * 8..32 * 8 + 32] == words[8] && p[32 * 9..32 * 9 + 32] == words[9];
    assert p[32 * 10..32 * 10 + 32] == words[10] && p[32 * 11..32 * 11 + 32] == words[11];
    assert p[352..] == p[352..384];
  }

  /** The hash is that of just these bytes; without 52 bytes of paymaster data there is none. */
  lemma HashExact(c: Chain, op: PackedUserOp, w: Window)
    ensures |op.paymasterAndData| < 52 ==> GetHash(c, op, w) == Err(BadLayout)
    ensures |op.paymasterAndData| >= 52 ==>
              exists p :: IsPreimage(c, op, w, p) && GetHash(c, op, w) == Ok(c.keccak(p))
  {
    hide Concat, Word, AddressWord;
    if |op.paymasterAndData| >= 52 {
      var words := Words(c, op, w);
      TwelveWords(words);
      assert IsPreimage(c, op, w, Concat(words));
    }
  }

  /** `abi.decode` reverts on missing bytes and on a word that is no uint48. */
  function ParsePaymasterAndData(data: seq<Byte>): Result<(Window, seq<Byte>), Revert> {
    if |data| < SIGNATURE_OFFSET then Err(BadLayout)
    else
      var (until, after) := (ToNat(data[52..84]), ToNat(data[84..116]));
      if until >= UINT48 || after >= UINT48 then Err(BadLayout)
      else Ok((Window(until, after), data[SIGNATURE_OFFSET..]))
  }

  /** Bit 0 tells failure, bits 160 to 207 the end of the window, bits 208 to 255 its start. */
  function PackValidationData(failed: bool, w: Window): int {
    (if failed then 1 else 0) + w.validUntil * Pow256(20) + w.validAfter * Pow256(26)
  }

  /** The reading of ERC-4337: an authorizer of 20 bytes, then the two times of 6 bytes each, from the low end up. */
  function UnpackValidationData(data: int): (int, int, int) {
    (data % Pow256(20), data / Pow256(20) % Pow256(6), data / Pow256(26))
  }

  function Validate(c: Chain, signer: Address, op: PackedUserOp): Result<int, Revert> {
    match ParsePaymasterAndData(op.paymasterAndData)
    case Err(e) => Err(e)
    case Ok((w, signature)) =>
      if |signature| != 64 && |signature| != 65 then Err(SignatureLength)
      else
        match GetHash(c, op, w)
        case Err(e) => Err(e)
        case Ok(hash) =>
          match c.recover(c.ethSigned(hash), signature)
          case None => Err(InvalidSignature)
          case Some(recovered) => Ok(PackValidationData(recovered != signer, w))
  }

  // ---- The layout ----

  function EncodeWindow(w: Window): seq<Byte> {
    Word(w.validUntil) + Word(w.validAfter)
  }

  lemma Uint48Word(bs: Bytes32, n: Uint48)
    ensures ToNat(bs) == n <==> bs == Word(n)
  {
    WordText(bs);
    ToNatWord(n);
  }

  /** Parsing succeeds exactly on 52 bytes, the window as two words, and any signature after them. */
  lemma ParseExact(data: seq<Byte>, w: Window, signature: seq<Byte>)
    ensures ParsePaymasterAndData(data) == Ok((w, signature)) <==>
            |data| >= 52 && data == data[..52] + EncodeWindow(w) + signature
  {
    hide Word, ToNat;
    if |data| >= SIGNATURE_OFFSET {
      Uint48Word(data[52..84], w.validUntil);
      Uint48Word(data[84..116], w.validAfter);
      assert data == data[..52] + (data[52..84] + data[84..116]) + data[116..];
      if data == data[..DATA_OFFSET] + EncodeWindow(w) + signature {
        assert data[52..84] == Word(w.validUntil) && data[84..116] == Word(w.validAfter) && data[116..] == signature;
      }
    }
  }

  /** Anything else does not parse: too short for the two words, or one of them beyond 48 bits. */
  lemma BadLayoutExact(data: seq<Byte>)
    ensures var answer := ParsePaymasterAndData(data);
      && (answer.Err? ==> answer == Err(BadLayout))
      && (answer.Err? <==>
            |data| < 116 || ToNat(data[52..84]) >= 0x1_0000_0000_0000 || ToNat(data[84..116]) >= 0x1_0000_0000_0000)
  {
    hide ToNat;
  }

  /** The packed result gives back the failure bit and the window. */
  lemma ValidationDataReadsBack(failed: bool, w: Window)
    ensures UnpackValidationData(PackValidationData(failed, w)) == (if failed then 1 else 0, w.validUntil, w.validAfter)
    ensures 0 <= PackValidationData(failed, w) < UINT256
  {
    WordCapacity();
    Pow256Add(20, 6);
    Pow256Add(26, 6);
    var p20, p6, p26 := Pow256(20), Pow256(6), Pow256(26);
    assert p20 == Pow256(16) * Pow256(4) by { Pow256Add(16, 4); }
    var bit := if failed then 1 else 0;
    var times := w.validUntil + w.validAfter * p6;
    assert w.validAfter * p26 == (w.validAfter * p6) * p20 by {
      Regroup(w.validAfter, p6, p20);
    }
    assert PackValidationData(failed, w) == times * p20 + bit by {
      Distribute(w.validUntil, w.validAfter * p6, p20);
    }
    DivModParts(times, bit, p20);
    DivModParts(w.validAfter, w.validUntil, p6);
    var low := bit + w.validUntil * p20;
    MulStep(w.validUntil, p6, p20);
    assert low < p26;
    DivModParts(w.validAfter, low, p26);
    MulStep(w.validAfter, p6, p26);
  }

  lemma Regroup(x: nat, a: nat, b: nat)
    ensures x * (b * a) == (x * a) * b
  {
  }

  lemma Distribute(x: nat, y: nat, b: nat)
    ensures x * b + y * b == (x + y) * b
  {
  }

  // ---- What the hash covers ----

  ghost predicate NoCollision(keccak: seq<Byte> -> Bytes32, a: seq<Byte>, b: seq<Byte>) {
    keccak(a) == keccak(b) ==> a == b
  }

  /** Everything that the hash covers. */
  ghost predicate SameSponsorship(c1: Chain, op1: PackedUserOp, w1: Window, c2: Chain, op2: PackedUserOp, w2: Window)
    requires |op1.paymasterAndData| >= 52 && |op2.paymasterAndData| >= 52
  {
    && op1.sender == op2.sender && op1.nonce == op2.nonce
    && op1.initCode == op2.initCode && op1.callData == op2.callData
    && op1.accountGasLimits == op2.accountGasLimits && op1.preVerificationGas == op2.preVerificationGas
    && op1.gasFees == op2.gasFees
    && op1.paymasterAndData[20..52] == op2.paymasterAndData[20..52]
    && c1.id == c2.id && c1.self == c2.self && w1 == w2
  }

  lemma WordInjective(m: Uint256, n: Uint256)
    requires Word(m) == Word(n)
    ensures m == n
  {
    ToNatWord(m);
    ToNatWord(n);
  }

  lemma AddressWordInjective(a: Address, b: Address)
    requires AddressWord(a) == AddressWord(b)
    ensures a == b
  {
    assert AddressWord(a)[12..] == a && AddressWord(b)[12..] == b;
  }

  lemma WordsInjective(c1: Chain, op1: PackedUserOp, w1: Window, c2: Chain, op2: PackedUserOp, w2: Window)
    requires |op1.paymasterAndData| >= DATA_OFFSET && |op2.paymasterAndData| >= DATA_OFFSET
    requires c1.keccak == c2.keccak && Words(c1, op1, w1) == Words(c2, op2, w2)
    requires NoCollision(c1.keccak, op1.initCode, op2.initCode) && NoCollision(c1.keccak, op1.callData, op2.callData)
    ensures SameSponsorship(c1, op1, w1, c2, op2, w2)
  {
    hide Word, AddressWord;
    var a, b := Words(c1, op1, w1), Words(c2, op2, w2);
    assert a[0] == b[0] && a[1] == b[1] && a[2] == b[2] && a[3] == b[3] && a[4] == b[4] && a[5] == b[5];
    assert a[6] == b[6] && a[7] == b[7] && a[8] == b[8] && a[9] == b[9] && a[10] == b[10] && a[11] == b[11];
    AddressWordInjective(op1.sender, op2.sender);
    WordInjective(op1.nonce, op2.nonce);
    WordInjective(op1.preVerificationGas, op2.preVerificationGas);
    WordInjective(c1.id, c2.id);
    AddressWordInjective(c1.self, c2.self);
    WordInjective(w1.validUntil, w2.validUntil);
    WordInjective(w1.validAfter, w2.validAfter);
  }

  /** With no keccak collision between the strings at hand: two hashes are equal exactly when the two sponsorships
      agree in every covered part. The paymaster's own address in bytes 0 to 20, everything from byte 52 on and the
      account's signature are not covered; the paymaster's two gas limits are. */
  lemma HashCoversExactly(c1: Chain, op1: PackedUserOp, w1: Window, c2: Chain, op2: PackedUserOp, w2: Window)
    requires |op1.paymasterAndData| >= DATA_OFFSET && |op2.paymasterAndData| >= DATA_OFFSET
    requires c1.keccak == c2.keccak
    requires NoCollision(c1.keccak, op1.initCode, op2.initCode) && NoCollision(c1.keccak, op1.callData, op2.callData)
    requires NoCollision(c1.keccak, Concat(Words(c1, op1, w1)), Concat(Words(c2, op2, w2)))
    ensures GetHash(c1, op1, w1) == GetHash(c2, op2, w2) <==> SameSponsorship(c1, op1, w1, c2, op2, w2)
  {
    hide Word, AddressWord;
    if SameSponsorship(c1, op1, w1, c2, op2, w2) {
      assert Words(c1, op1, w1) == Words(c2, op2, w2);
    }
    if GetHash(c1, op1, w1) == GetHash(c2, op2, w2) {
      ConcatInjective(Words(c1, op1, w1), Words(c2, op2, w2));
      WordsInjective(c1, op1, w1, c2, op2, w2);
    }
  }

  // ---- Sponsoring and verifying ----

  /** What the sponsor puts before its signature. */
  function Header(paymaster: Address, verificationGas: seq<Byte>, postOpGas: seq<Byte>, w: Window): seq<Byte> {
    paymaster + verificationGas + postOpGas + EncodeWindow(w)
  }

  /** The outcome of validation for data that parses: by whether the recovered address is the signer. */
  lemma ValidateExact(c: Chain, signer: Address, op: PackedUserOp, data: int)
    ensures Validate(c, signer, op) == Ok(data) <==>
      exists w: Window, signature: seq<Byte> :: Vouched(c, signer, op, w, signature, data)
  {
    hide Word, ToNat, Concat, PackValidationData, ParsePaymasterAndData, IsPreimage, GetHash, EncodeWindow;
    forall w: Window, signature: seq<Byte> | Vouched(c, signer, op, w, signature, data)
      ensures Validate(c, signer, op) == Ok(data)
    {
      ParseExact(op.paymasterAndData, w, signature);
      HashExact(c, op, w);
      forall p, q | IsPreimage(c, op, w, p) && IsPreimage(c, op, w, q) ensures p == q {
        PreimageUnique(c, op, w, p, q);
      }
    }
    if Validate(c, signer, op) == Ok(data) {
      var (w, signature) := ParsePaymasterAndData(op.paymasterAndData).value;
      ParseExact(op.paymasterAndData, w, signature);
      HashExact(c, op, w);
      assert Vouched(c, signer, op, w, signature, data);
    }
  }

  ghost predicate Vouched(c: Chain, signer: Address, op: PackedUserOp, w: Window, signature: seq<Byte>, data: int) {
    && Carries(op, w, signature)
    && (|signature| == 64 || |signature| == 65)
    && exists p :: IsPreimage(c, op, w, p)
         && var recovered := c.recover(c.ethSigned(c.keccak(p)), signature);
            recovered.Some? && data == PackValidationData(recovered.value != signer, w)
  }

  /** The op's paymaster data names that window and ends with that signature. */
  ghost predicate Carries(op: PackedUserOp, w: Window, signature: seq<Byte>) {
    |op.paymasterAndData| >= 52
    && op.paymasterAndData == op.paymasterAndData[..52] + EncodeWindow(w) + signature
  }

  lemma PreimageUnique(c: Chain, op: PackedUserOp, w: Window, p: seq<Byte>, q: seq<Byte>)
    requires |op.paymasterAndData| >= 52 && IsPreimage(c, op, w, p) && IsPreimage(c, op, w, q)
    ensures p == q
  {
    hide Word, AddressWord;
    assert p == p[..32] + p[32..64] + p[64..96] + p[96..128] + p[128..160] + p[160..192] + p[192..224] + p[224..256]
                + p[256..288] + p[288..320] + p[320..352] + p[352..];
    assert q == q[..32] + q[32..64] + q[64..96] + q[96..128] + q[128..160] + q[160..192] + q[192..224] + q[224..256]
                + q[256..288] + q[288..320] + q[320..352] + q[352..];
  }

  /** What validation reverts with, in this order: the layout, the signature's length, a signature that recovers to
      nothing. */
  lemma ValidateRevertExact(c: Chain, signer: Address, op: PackedUserOp)
    ensures var answer := Validate(c, signer, op);
      && (answer == Err(BadLayout) <==> !exists w: Window, signature: seq<Byte> :: Carries(op, w, signature))
      && (forall w: Window, signature: seq<Byte> :: Carries(op, w, signature) ==>
            && (answer == Err(SignatureLength) <==> |signature| != 64 && |signature| != 65)
            && (answer.Err? && answer != Err(SignatureLength) ==>
                  answer == Err(InvalidSignature)
                  && exists p :: IsPreimage(c, op, w, p) && c.recover(c.ethSigned(c.keccak(p)), signature) == None))
  {
    hide Word, ToNat, Concat, PackValidationData, ParsePaymasterAndData, IsPreimage, GetHash, EncodeWindow;
    forall w: Window, signature: seq<Byte>
      ensures ParsePaymasterAndData(op.paymasterAndData) == Ok((w, signature)) <==> Carries(op, w, signature)
    {
      ParseExact(op.paymasterAndData, w, signature);
    }
    BadLayoutExact(op.paymasterAndData);
    if ParsePaymasterAndData(op.paymasterAndData).Ok? {
      var (w, signature) := ParsePaymasterAndData(op.paymasterAndData).value;
      HashExact(c, op, w);
    }
  }

  /** Sponsor, then verify. The sponsor signs the hash of the op that carries only the header; validating header and
      signature recovers the window and the signature, recomputes that very hash, succeeds under the signer's key and
      fails under any other, with the window in the result either way. */
  lemma SponsorThenVerify(c: Chain, signer: Address, current: Address, op: PackedUserOp, verificationGas: seq<Byte>,
                          postOpGas: seq<Byte>, w: Window, signature: seq<Byte>)
    requires |verificationGas| == 16 && |postOpGas| == 16 && |signature| == 65
    requires var header := Header(c.self, verificationGas, postOpGas, w);
      var hash := GetHash(c, op.(paymasterAndData := header), w);
      hash.Ok? && c.recover(c.ethSigned(hash.value), signature) == Some(signer)
    ensures var header := Header(c.self, verificationGas, postOpGas, w);
      var sponsored := op.(paymasterAndData := header + signature);
      && ParsePaymasterAndData(sponsored.paymasterAndData) == Ok((w, signature))
      && GetHash(c, sponsored, w) == GetHash(c, op.(paymasterAndData := header), w)
      && Validate(c, current, sponsored) == Ok(PackValidationData(current != signer, w))
      && UnpackValidationData(PackValidationData(current != signer, w))
         == (if current != signer then 1 else 0, w.validUntil, w.validAfter)
  {
    hide Word, ToNat, Concat, PackValidationData, UnpackValidationData;
    var header := Header(c.self, verificationGas, postOpGas, w);
    var data := header + signature;
    assert data[..DATA_OFFSET] == c.self + verificationGas + postOpGas;
    assert data == data[..DATA_OFFSET] + EncodeWindow(w) + signature;
    ParseExact(data, w, signature);
    assert data[GAS_OFFSET..DATA_OFFSET] == header[GAS_OFFSET..DATA_OFFSET];
    ValidationDataReadsBack(current != signer, w);
  }

  // ---- The contract's one variable ----

  const ZERO: Address := Zeros(20)

  class VerifyingPaymaster {
    const chain: Chain
    const owner: Address
    var verifyingSigner: Address

    predicate Valid()
      reads this
    {
      verifyingSigner != ZERO
    }

    constructor Trusting(chain: Chain, owner: Address, signer: Address)
      requires signer != ZERO
      ensures Valid() && this.chain == chain && this.owner == owner && verifyingSigner == signer
    {
      this.chain, this.owner, verifyingSigner := chain, owner, signer;
    }

    /** The contract's constructor: no contract comes about with the zero signer. */
    static method Deploy(chain: Chain, owner: Address, signer: Address) returns (r: Result<VerifyingPaymaster, Revert>)
      ensures r == Err(InvalidSigner) <==> signer == Zeros(20)
      ensures r.Err? ==> r == Err(InvalidSigner)
      ensures r.Ok? ==> fresh(r.value) && r.value.Valid() && r.value.chain == chain && r.value.owner == owner
                        && r.value.verifyingSigner == signer
    {
      if signer == ZERO {
        return Err(InvalidSigner);
      }
      var p := new VerifyingPaymaster.Trusting(chain, owner, signer);
      return Ok(p);
    }

    /** Only the owner changes the signer, and never to zero; a refused call changes nothing. */
    method SetVerifyingSigner(caller: Address, newSigner: Address) returns (r: Result<(), Revert>)
      requires Valid()
      modifies this
      ensures Valid()
      ensures r.Ok? <==> caller == owner && newSigner != Zeros(20)
      ensures r.Err? ==> r == Err(if caller != owner then NotOwner else InvalidSigner)
      ensures verifyingSigner == if r.Ok? then newSigner else old(verifyingSigner)
    {
      if caller != owner {
        return Err(NotOwner);
      }
      if newSigner == ZERO {
        return Err(InvalidSigner);
      }
      verifyingSigner := newSigner;
      return Ok(());
    }

    method ValidatePaymasterUserOp(op: PackedUserOp) returns (r: Result<int, Revert>)
      ensures r == Validate(chain, verifyingSigner, op)
    {
      var parsed := ParsePaymasterAndData(op.paymasterAndData);
      if parsed.Err? {
        return Err(parsed.error);
      }
      var (w, signature) := parsed.value;
      if |signature| != 64 && |signature| != 65 {
        return Err(SignatureLength);
      }
      var hash := GetHash(chain, op, w);
      if hash.Err? {
        return Err(hash.error);
      }
      var recovered := chain.recover(chain.ethSigned(hash.value), signature);
      if recovered.None? {
        return Err(InvalidSignature);
      }
      if verifyingSigner != recovered.value {
        return Ok(PackValidationData(true, w));
      }
      return Ok(PackValidationData(false, w));
    }
  }
}
