/** Solidity Contract ABI encodings ("Formal Specification of the Encoding") used on the byte path of a
    UserOperation. */
module Abi {
  import opened Wrappers
  import opened Bytes

  type Address = bs: seq<Byte> | |bs| == 20 witness Zeros(20)
  type Bytes32 = bs: seq<Byte> | |bs| == 32 witness Zeros(32)

  const UINT256: nat := 0x1_0000000000000000_0000000000000000_0000000000000000_0000000000000000

  lemma WordCapacity()
    ensures Pow256(32) == UINT256
    ensures Pow256(16) == 0x1_0000000000000000_0000000000000000
    ensures Pow256(6) == 0x1_0000_0000_0000
  {
    assert Pow256(8) == 0x1_0000000000000000;
    Pow256Add(8, 8);
    Pow256Add(16, 16);
  }

  /** One 32-byte word holding a number. */
  function Word(n: nat): (w: Bytes32) {
    FromNat(n, 32)
  }

  /** One 32-byte word holding an address, left-padded with zeros. */
  function AddressWord(a: Address): (w: Bytes32) {
    Zeros(12) + a
  }

  lemma ToNatWord(n: nat)
    requires n < UINT256
    ensures ToNat(Word(n)) == n
  {
    WordCapacity();
    ToNatFromNat(n, 32);
  }

  /** The number of zero bytes that round a byte string up to whole words. */
  function Padding(length: nat): (p: nat)
    ensures p < 32 && (length + p) % 32 == 0
  {
    (32 - length % 32) % 32
  }

  /** The first four bytes of keccak256("execute(address,uint256,bytes)"). */
  const EXECUTE_SELECTOR: seq<Byte> := [0xb6, 0x1d, 0x27, 0xf6]

  /** The first four bytes of keccak256("createAccount(address,uint256)"). */
  const CREATE_ACCOUNT_SELECTOR: seq<Byte> := [0x5f, 0xbf, 0xb9, 0xcf]

  /** The first four bytes of keccak256("set(uint256)"). */
  const SET_SELECTOR: seq<Byte> := [0x60, 0xfe, 0x47, 0xb1]

  datatype ExecuteCall = ExecuteCall(dest: Address, value: nat, func: seq<Byte>)

  /** The canonical argument block of execute(address,uint256,bytes). */
  function EncodeExecuteArgs(c: ExecuteCall): seq<Byte> {
    AddressWord(c.dest) + Word(c.value) + Word(96) + Word(|c.func|) + c.func + Zeros(Padding(|c.func|))
  }

  function EncodeExecute(c: ExecuteCall): seq<Byte> {
    EXECUTE_SELECTOR + EncodeExecuteArgs(c)
  }

  function EncodeCreateAccount(owner: Address, salt: nat): seq<Byte> {
    CREATE_ACCOUNT_SELECTOR + AddressWord(owner) + Word(salt)
  }

  function EncodeSet(value: nat): seq<Byte> {
    SET_SELECTOR + Word(value)
  }

  function DecodeAddress(w: Bytes32): Option<Address> {
    if w[..12] == Zeros(12) then Some(w[12..]) else None
  }

  /** A dynamic byte string at an offset: its length word, its bytes and their padding must all be present. */
  function DecodeBytesAt(args: seq<Byte>, offset: nat): Option<seq<Byte>> {
    if offset + 32 > |args| then None
    else
      var length := ToNat(args[offset..offset + 32]);
      if offset + 32 + length + Padding(length) > |args| then None
      else Some(args[offset + 32..offset + 32 + length])
  }

  function DecodeExecuteArgs(args: seq<Byte>): Option<ExecuteCall> {
    if |args| < 96 then None
    else
      match (DecodeAddress(args[..32]), DecodeBytesAt(args, ToNat(args[64..96])))
      case (Some(dest), Some(func)) => Some(ExecuteCall(dest, ToNat(args[32..64]), func))
      case _ => None
  }

  /** The owner argument of createAccount(address,uint256). */
  function DecodeCreateAccountArgs(args: seq<Byte>): Option<(Address, nat)> {
    if |args| < 64 then None
    else
      match DecodeAddress(args[..32])
      case None => None
      case Some(owner) => Some((owner, ToNat(args[32..64])))
  }

  function DecodeUint(args: seq<Byte>): Option<nat> {
    if |args| < 32 then None else Some(ToNat(args[..32]))
  }

  /** The head/tail reading rule as a relation: the head holds two static words and an offset, the tail at that
      offset holds a length word followed by the content and its padding. */
  ghost predicate ReadsAsExecute(args: seq<Byte>, c: ExecuteCall) {
    exists offset: nat ::
      && 96 <= |args|
      && args[..32] == AddressWord(c.dest)
      && c.value < UINT256 && args[32..64] == Word(c.value)
      && offset < UINT256 && args[64..96] == Word(offset)
      && TailHolds(args, offset, c.func)
  }

  ghost predicate TailHolds(args: seq<Byte>, offset: nat, content: seq<Byte>) {
    && |content| < UINT256
    && offset + 32 + |content| + Padding(|content|) <= |args|
    && args[offset..offset + 32] == Word(|content|)
    && args[offset + 32..offset + 32 + |content|] == content
  }

  lemma WordText(w: Bytes32)
    ensures ToNat(w) < UINT256 && Word(ToNat(w)) == w
  {
    WordCapacity();
    ToNatBound(w);
    FromNatToNat(w);
  }

  lemma AddressWordReadsBack(a: Address)
    ensures DecodeAddress(AddressWord(a)) == Some(a)
  {
  }

  lemma DecodeAddressSound(w: Bytes32)
    ensures DecodeAddress(w).Some? ==> w == AddressWord(DecodeAddress(w).value)
  {
  }

  lemma DecodeBytesExact(args: seq<Byte>, offset: nat, content: seq<Byte>)
    ensures DecodeBytesAt(args, offset) == Some(content) <==> TailHolds(args, offset, content)
  {
    if offset + 32 <= |args| {
      WordText(args[offset..offset + 32]);
      if |content| < UINT256 {
        ToNatWord(|content|);
      }
    }
  }

  /** The decoder finds a call exactly when the argument block reads as that call under the head/tail rule. */
  lemma DecodeExecuteExact(args: seq<Byte>, c: ExecuteCall)
    ensures DecodeExecuteArgs(args) == Some(c) <==> ReadsAsExecute(args, c)
  {
    if 96 <= |args| {
      var offset := ToNat(args[64..96]);
      WordText(args[32..64]);
      WordText(args[64..96]);
      DecodeAddressSound(args[..32]);
      AddressWordReadsBack(c.dest);
      DecodeBytesExact(args, offset, c.func);
      if ReadsAsExecute(args, c) {
        var o: nat :| o < UINT256 && args[64..96] == Word(o) && TailHolds(args, o, c.func);
        ToNatWord(o);
        ToNatWord(c.value);
      }
    }
  }

  /** The canonical encoding of a call reads as that call. */
  lemma ExecuteRoundTrip(c: ExecuteCall)
    requires c.value < UINT256 && |c.func| < UINT256
    ensures DecodeExecuteArgs(EncodeExecuteArgs(c)) == Some(c)
  {
    var args := EncodeExecuteArgs(c);
    assert args[..32] == AddressWord(c.dest);
    assert args[32..64] == Word(c.value);
    assert args[64..96] == Word(96);
    assert args[96..128] == Word(|c.func|);
    assert args[128..128 + |c.func|] == c.func;
    assert TailHolds(args, 96, c.func);
    DecodeExecuteExact(args, c);
  }

  lemma CreateAccountRoundTrip(owner: Address, salt: nat)
    requires salt < UINT256
    ensures DecodeCreateAccountArgs(EncodeCreateAccount(owner, salt)[4..]) == Some((owner, salt))
  {
    hide Word, AddressWord, DecodeAddress, ToNat;
    var args := EncodeCreateAccount(owner, salt)[4..];
    assert args == AddressWord(owner) + Word(salt);
    assert args[..32] == AddressWord(owner);
    assert args[32..64] == Word(salt);
    AddressWordReadsBack(owner);
    ToNatWord(salt);
  }
}
