/** Hex text: the 0x-prefixed strings in which every quantity and byte string of a UserOperation travels. */
module Hex {
  import opened Wrappers
  import opened Bytes

  predicate IsHexChar(c: char) {
    '0' <= c <= '9' || 'a' <= c <= 'f' || 'A' <= c <= 'F'
  }

  type HexDigits = s: string | forall i :: 0 <= i < |s| ==> IsHexChar(s[i])

  function HexVal(c: char): (v: nat)
    requires IsHexChar(c)
    ensures v < 16
  {
    if '0' <= c <= '9' then c as int - '0' as int
    else if 'a' <= c <= 'f' then c as int - 'a' as int + 10
    else c as int - 'A' as int + 10
  }

  lemma HexCharExact(c: char)
    ensures IsHexChar(c) <==> c in "0123456789abcdefABCDEF"
  {
    assert "0123456789abcdefABCDEF" == "0123456789" + "abcdef" + "ABCDEF";
  }

  function HexChar(v: nat): (c: char)
    requires v < 16
    ensures IsHexChar(c) && HexVal(c) == v
    ensures !('A' <= c <= 'F')
  {
    if v < 10 then ('0' as int + v) as char else ('a' as int + v - 10) as char
  }

  /** The number that hex digits spell. */
  function DigitsToNat(ds: HexDigits): nat {
    if |ds| == 0 then 0 else 16 * DigitsToNat(ds[..|ds| - 1]) + HexVal(ds[|ds| - 1])
  }

  /** `n.toString(16)`: the shortest lower-case digits, "0" for zero. */
  function NatToDigits(n: nat): (ds: HexDigits)
    ensures |ds| > 0
  {
    if n < 16 then [HexChar(n)] else NatToDigits(n / 16) + [HexChar(n % 16)]
  }

  lemma {:induction false} DigitsRoundTrip(n: nat)
    ensures DigitsToNat(NatToDigits(n)) == n
  {
    if n >= 16 {
      DigitsRoundTrip(n / 16);
      assert NatToDigits(n)[..|NatToDigits(n)| - 1] == NatToDigits(n / 16);
    } else {
      assert NatToDigits(n)[..0] == "";
    }
  }

  /** A leading zero digit does not change the number. */
  lemma {:induction false} DigitsPadZero(ds: HexDigits)
    ensures DigitsToNat("0" + ds) == DigitsToNat(ds)
  {
    if |ds| == 0 {
      assert ("0" + ds)[..0] == "" && "0" + ds == "0";
    } else {
      assert ("0" + ds)[..|ds|] == "0" + ds[..|ds| - 1];
      DigitsPadZero(ds[..|ds| - 1]);
    }
  }

  /** The bytes that an even number of hex digits spells. */
  function DigitsToBytes(ds: HexDigits): (bs: seq<Byte>)
    requires |ds| % 2 == 0
    ensures |bs| == |ds| / 2
  {
    if |ds| == 0 then [] else
      DigitsToBytes(ds[..|ds| - 2]) + [16 * HexVal(ds[|ds| - 2]) + HexVal(ds[|ds| - 1])]
  }

  function BytesToDigits(bs: seq<Byte>): (ds: HexDigits)
    ensures |ds| == 2 * |bs|
  {
    if |bs| == 0 then "" else
      BytesToDigits(bs[..|bs| - 1]) + [HexChar(bs[|bs| - 1] / 16), HexChar(bs[|bs| - 1] % 16)]
  }

  lemma HexPair(b: Byte)
    ensures 16 * HexVal(HexChar(b / 16)) + HexVal(HexChar(b % 16)) == b
  {
  }

  lemma LastPair(ds: HexDigits)
    requires |ds| % 2 == 0 && |ds| > 0
    ensures DigitsToBytes(ds) == DigitsToBytes(ds[..|ds| - 2]) + [16 * HexVal(ds[|ds| - 2]) + HexVal(ds[|ds| - 1])]
  {
  }

  lemma PairAppended(all: HexDigits, ds: HexDigits, x: char, y: char)
    requires |ds| % 2 == 0 && IsHexChar(x) && IsHexChar(y)
    requires |all| == |ds| + 2 && all[..|ds|] == ds && all[|ds|] == x && all[|ds| + 1] == y
    ensures DigitsToBytes(all) == DigitsToBytes(ds) + [16 * HexVal(x) + HexVal(y)]
  {
    hide DigitsToBytes, HexVal, IsHexChar;
    LastPair(all);
  }

  lemma {:induction false} BytesRoundTrip(bs: seq<Byte>)
    ensures DigitsToBytes(BytesToDigits(bs)) == bs
  {
    hide DigitsToBytes, HexVal;
    if |bs| == 0 {
      NoDigits();
    } else {
      var init, b := bs[..|bs| - 1], bs[|bs| - 1];
      BytesRoundTrip(init);
      HexPair(b);
      PairAppended(BytesToDigits(bs), BytesToDigits(init), HexChar(b / 16), HexChar(b % 16));
    }
  }

  lemma NoDigits()
    ensures DigitsToBytes("") == []
  {
  }

  /** The two readings of hex digits, as a number and as bytes, agree. */
  lemma {:induction false} DigitsBytesAgree(ds: HexDigits)
    requires |ds| % 2 == 0
    ensures ToNat(DigitsToBytes(ds)) == DigitsToNat(ds)
  {
    if |ds| > 0 {
      var bs := DigitsToBytes(ds);
      DigitsBytesAgree(ds[..|ds| - 2]);
      assert bs[..|bs| - 1] == DigitsToBytes(ds[..|ds| - 2]);
      assert ds[..|ds| - 1][..|ds| - 2] == ds[..|ds| - 2];
    }
  }

  /** ethers `isHexString(value)`: an odd number of digits is allowed. */
  predicate IsHexString(s: string) {
    |s| >= 2 && s[0] == '0' && s[1] == 'x' && forall i :: 2 <= i < |s| ==> IsHexChar(s[i])
  }

  /** ethers `isHexString(value, length)`. */
  predicate IsHexStringOf(s: string, length: nat) {
    IsHexString(s) && |s| == 2 + 2 * length
  }

  function Digits(s: string): (ds: HexDigits)
    requires IsHexString(s)
    ensures |ds| == |s| - 2
  {
    s[2..]
  }

  /** ethers `getBytes`: None where it throws. */
  function GetBytes(s: string): (r: Option<seq<Byte>>)
    ensures r.Some? ==> IsHexString(s) && |s| == 2 + 2 * |r.value|
  {
    if IsHexString(s) && |s| % 2 == 0 then Some(DigitsToBytes(Digits(s))) else None
  }

  /** ethers `hexlify`. */
  function Hexlify(bs: seq<Byte>): (s: string)
    ensures IsHexStringOf(s, |bs|)
  {
    "0x" + BytesToDigits(bs)
  }

  lemma GetBytesHexlify(bs: seq<Byte>)
    ensures GetBytes(Hexlify(bs)) == Some(bs)
  {
    hide DigitsToBytes, BytesToDigits, IsHexChar;
    BytesRoundTrip(bs);
    assert Digits(Hexlify(bs)) == BytesToDigits(bs);
  }

  /** ethers `dataSlice(data, start, end)`: None where it throws. */
  function DataSlice(s: string, start: nat, end: nat): (r: Option<string>)
    requires start <= end
  {
    match GetBytes(s)
    case None => None
    case Some(bs) => if end > |bs| then None else Some(Hexlify(bs[start..end]))
  }

  /** ethers `toQuantity`: shortest digits. */
  function ToQuantity(n: nat): (s: string)
    ensures IsHexString(s) && |s| > 2
  {
    "0x" + NatToDigits(n)
  }

  /** ethers `toBeHex(value)` without a width: shortest even number of digits. */
  function ToBeHex(n: nat): (s: string)
    ensures IsHexString(s) && |s| > 2 && |s| % 2 == 0
  {
    var ds := NatToDigits(n);
    if |ds| % 2 == 1 then "0x0" + ds else "0x" + ds
  }

  /** Both printers of a quantity read back as the same number. */
  lemma QuantityReadsBack(n: nat)
    ensures DigitsToNat(Digits(ToQuantity(n))) == n
    ensures DigitsToNat(Digits(ToBeHex(n))) == n
  {
    var ds := NatToDigits(n);
    DigitsRoundTrip(n);
    DigitsPadZero(ds);
    assert Digits(ToQuantity(n)) == ds;
    assert Digits(ToBeHex(n)) == if |ds| % 2 == 1 then "0" + ds else ds;
  }

  /** `ethers.ZeroHash`: 0x followed by 64 zero digits. */
  const ZERO_WORD: string := Hexlify(Zeros(32))

  function LowerChar(c: char): char {
    if 'A' <= c <= 'Z' then (c as int + 32) as char else c
  }

  /** `toLowerCase` on ASCII text. */
  function Lower(s: string): (r: string)
    ensures |r| == |s|
    ensures forall i :: 0 <= i < |s| ==> r[i] == LowerChar(s[i])
  {
    seq(|s|, i requires 0 <= i < |s| => LowerChar(s[i]))
  }

  lemma LowerKeepsValue(c: char)
    requires IsHexChar(c)
    ensures IsHexChar(LowerChar(c)) && HexVal(LowerChar(c)) == HexVal(c)
  {
  }

  lemma {:induction false} LowerDigits(ds: HexDigits, es: HexDigits)
    requires |ds| % 2 == 0 && es == Lower(ds)
    ensures DigitsToBytes(es) == DigitsToBytes(ds)
  {
    if |ds| > 0 {
      LowerKeepsValue(ds[|ds| - 2]);
      LowerKeepsValue(ds[|ds| - 1]);
      LastPair(ds);
      LastPair(es);
      hide DigitsToBytes, HexVal, IsHexChar, LowerChar;
      assert es[..|ds| - 2] == Lower(ds[..|ds| - 2]);
      LowerDigits(ds[..|ds| - 2], es[..|ds| - 2]);
    }
  }

  /** Letter case does not change the bytes that hex text denotes. */
  lemma LowerBytes(s: string)
    requires IsHexString(s)
    ensures IsHexString(Lower(s)) && GetBytes(Lower(s)) == GetBytes(s)
  {
    var l := Lower(s);
    assert IsHexString(l) by {
      forall i | 2 <= i < |l| ensures IsHexChar(l[i]) {
        assert IsHexChar(s[i]);
      }
    }
    if |s| % 2 == 0 {
      assert Digits(l) == Lower(Digits(s));
      LowerDigits(Digits(s), Digits(l));
    }
  }

  lemma {:induction false} ZeroDigits(ds: HexDigits)
    requires |ds| % 2 == 0
    ensures DigitsToBytes(ds) == Zeros(|ds| / 2) <==> forall i :: 0 <= i < |ds| ==> ds[i] == '0'
  {
    if |ds| > 0 {
      var n := |ds|;
      var bs := DigitsToBytes(ds);
      ZeroDigits(ds[..n - 2]);
      assert bs[..n / 2 - 1] == DigitsToBytes(ds[..n - 2]);
      assert bs == bs[..n / 2 - 1] + [bs[n / 2 - 1]];
      assert Zeros(n / 2) == Zeros(n / 2 - 1) + [0];
      assert bs[n / 2 - 1] == 0 <==> ds[n - 2] == '0' && ds[n - 1] == '0';
      if bs == Zeros(n / 2) {
        assert bs[..n / 2 - 1] == Zeros(n / 2 - 1);
      }
    }
  }

  ghost predicate OnlyZeros(s: string) {
    forall i :: 2 <= i < |s| ==> s[i] == '0'
  }

  lemma ZeroBytesAreZeroDigits(s: string)
    requires IsHexStringOf(s, 32)
    ensures GetBytes(s) == Some(Zeros(32)) <==> OnlyZeros(s)
  {
    hide DigitsToBytes, IsHexChar;
    ZeroDigits(Digits(s));
    assert forall i :: 2 <= i < |s| ==> s[i] == Digits(s)[i - 2];
    assert forall i :: 0 <= i < 64 ==> Digits(s)[i] == s[i + 2];
  }

  lemma OnlyZerosIsZeroWord(s: string)
    requires IsHexStringOf(s, 32)
    ensures OnlyZeros(s) <==> s == ZERO_WORD
  {
    hide DigitsToBytes, BytesToDigits, IsHexChar, GetBytes;
    GetBytesHexlify(Zeros(32));
    ZeroBytesAreZeroDigits(ZERO_WORD);
  }

  /** Comparing hex text of 32 bytes with the zero word is the same as comparing its bytes. */
  lemma ZeroWordText(s: string)
    requires IsHexStringOf(s, 32)
    ensures s == ZERO_WORD <==> GetBytes(s) == Some(Zeros(32))
    ensures Lower(s) == ZERO_WORD <==> s == ZERO_WORD
  {
    hide GetBytes, OnlyZeros, IsHexChar;
    ZeroBytesAreZeroDigits(s);
    OnlyZerosIsZeroWord(s);
    LowerBytes(s);
    ZeroBytesAreZeroDigits(Lower(s));
    OnlyZerosIsZeroWord(Lower(s));
  }

  /** ethers `zeroPadValue(data, length)`: None where it throws. */
  function ZeroPadValue(s: string, length: nat): Option<string> {
    match GetBytes(s)
    case None => None
    case Some(bs) => if |bs| > length then None else Some(Hexlify(Zeros(length - |bs|) + bs))
  }

  lemma {:induction false} DigitsLength(n: nat, k: nat)
    requires n < Pow256(k) && k > 0
    ensures |NatToDigits(n)| <= 2 * k
  {
    if n >= 256 {
      assert k > 1;
      DigitsLength(n / 256, k - 1);
      assert NatToDigits(n) == NatToDigits(n / 16) + [HexChar(n % 16)];
      assert n / 16 / 16 == n / 256;
    } else if n >= 16 {
      assert |NatToDigits(n / 16)| == 1;
    }
  }

  /** `zeroPadValue(toBeHex(n), k)` is the k-byte big-endian form of n. */
  lemma ZeroPadToBeHex(n: nat, k: nat)
    requires n < Pow256(k) && k > 0
    ensures ZeroPadValue(ToBeHex(n), k) == Some(Hexlify(FromNat(n, k)))
  {
    hide NatToDigits, DigitsToNat, DigitsToBytes, BytesToDigits, Hexlify, ToNat, FromNat, Pow256;
    DigitsLength(n, k);
    QuantityReadsBack(n);
    var ds := Digits(ToBeHex(n));
    assert |ds| <= 2 * k;
    var bs := DigitsToBytes(ds);
    assert GetBytes(ToBeHex(n)) == Some(bs);
    DigitsBytesAgree(ds);
    ToNatPadLeft(k - |bs|, bs);
    FromNatToNat(Zeros(k - |bs|) + bs);
  }
}
