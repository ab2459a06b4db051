/** JavaScript values as they arrive from JSON, and the language coercions the code leans on. */
module Js {
  import opened Wrappers
  import opened Hex

  datatype Json =
    | Undefined
    | Null
    | Bool(b: bool)
    | Num(n: real)
    | Str(s: string)
    | Arr(xs: seq<Json>)
    | Obj(fields: map<string, Json>)

  predicate Truthy(j: Json) {
    match j
    case Undefined => false
    case Null => false
    case Bool(b) => b
    case Num(n) => n != 0.0
    case Str(s) => s != ""
    case Arr(_) => true
    case Obj(_) => true
  }

  lemma TruthyExact(j: Json)
    ensures Truthy(j) <==>
      j != Undefined && j != Null && j != Bool(false) && j != Num(0.0) && j != Str("")
  {
  }

  /** `typeof j === "object"` for a truthy j. */
  predicate IsObject(j: Json) {
    j.Arr? || j.Obj?
  }

  /** `j[name]` for a name that is no built-in property. */
  function Field(j: Json, name: string): Json {
    if j.Obj? && name in j.fields then j.fields[name] else Undefined
  }

  /** `j ?? fallback` */
  function OrElse(j: Json, fallback: Json): Json {
    if j.Undefined? || j.Null? then fallback else j
  }

  /** Whether `String(j)` gives a text. It throws on an object with a `toString` of its own, which is no function where
      the object comes from JSON, and on an array around one. */
  predicate HasText(j: Json) {
    match j
    case Obj(fields) => "toString" !in fields
    case Arr(xs) => forall i :: 0 <= i < |xs| ==> HasText(xs[i])
    case _ => true
  }

  /** `String(j)` where `text` prints everything that is no string. */
  function AsText(j: Json, text: Json -> string): string
    requires HasText(j)
  {
    if j.Str? then j.s else text(j)
  }

  /** White space as `trim` and `BigInt` see it. */
  predicate IsSpace(c: char) {
    c in {' ', '\t', '\n', '\r', '\U{0B}', '\U{0C}', '\U{A0}', '\U{1680}', '\U{2028}', '\U{2029}', '\U{202F}',
          '\U{205F}', '\U{3000}', '\U{FEFF}'} || '\U{2000}' <= c <= '\U{200A}'
  }

  function TrimLeft(s: string): (r: string)
    ensures |r| <= |s|
  {
    if s != "" && IsSpace(s[0]) then TrimLeft(s[1..]) else s
  }

  function TrimRight(s: string): (r: string)
    ensures |r| <= |s|
  {
    if s != "" && IsSpace(s[|s| - 1]) then TrimRight(s[..|s| - 1]) else s
  }

  function Trim(s: string): string {
    TrimRight(TrimLeft(s))
  }

  ghost predicate AllSpace(s: string) {
    forall i :: 0 <= i < |s| ==> IsSpace(s[i])
  }

  /** Text that starts and ends with a non-blank character survives `trim` inside any blank padding. */
  lemma {:induction false} TrimPadded(before: string, s: string, after: string)
    requires AllSpace(before) && AllSpace(after)
    requires s == "" || (!IsSpace(s[0]) && !IsSpace(s[|s| - 1]))
    ensures Trim(before + s + after) == s
    decreases |before| + |after|
  {
    var whole := before + s + after;
    if before != "" {
      assert whole[1..] == before[1..] + s + after;
      TrimPadded(before[1..], s, after);
    } else if s == "" {
      if after != "" {
        assert whole[1..] == "" + s + after[1..];
        TrimPadded("", s, after[1..]);
      }
    } else if after != "" {
      assert whole[..|whole| - 1] == "" + s + after[..|after| - 1];
      TrimPadded("", s, after[..|after| - 1]);
    } else {
      assert whole == s;
    }
  }

  function DigitOf(c: char): (d: int)
    ensures d < 36
  {
    if '0' <= c <= '9' then c as int - '0' as int else -1
  }

  /** Digits below a radix of at most ten; None on an empty string or a foreign character. */
  function ReadRadix(ds: string, radix: nat): Option<nat>
    requires 2 <= radix <= 10
  {
    if ds == "" then None
    else
      var d := DigitOf(ds[|ds| - 1]);
      if d < 0 || d >= radix then None
      else if |ds| == 1 then Some(d)
      else
        match ReadRadix(ds[..|ds| - 1], radix)
        case None => None
        case Some(n) => Some(radix * n + d)
  }

  /** `n.toString()`: the decimal text of a natural number. */
  function Decimal(n: nat): (s: string)
    ensures s != "" && forall i :: 0 <= i < |s| ==> '0' <= s[i] <= '9'
    ensures |s| > 1 ==> s[0] != '0'
    ensures s[0] == '0' ==> n == 0
  {
    if n < 10 then [('0' as int + n) as char]
    else Decimal(n / 10) + [('0' as int + n % 10) as char]
  }

  lemma {:induction false} DecimalRoundTrip(n: nat)
    ensures ReadRadix(Decimal(n), 10) == Some(n)
  {
    if n >= 10 {
      DecimalRoundTrip(n / 10);
      assert Decimal(n)[..|Decimal(n)| - 1] == Decimal(n / 10);
    }
  }

  /** `BigInt(text)`: None where it throws a SyntaxError. */
  function StringToBigInt(text: string): Option<int> {
    var s := Trim(text);
    if s == "" then Some(0)
    else if |s| >= 2 && s[0] == '0' && s[1] in {'x', 'X'} then
      if |s| > 2 && forall i :: 2 <= i < |s| ==> IsHexChar(s[i]) then Some(DigitsToNat(s[2..])) else None
    else if |s| >= 2 && s[0] == '0' && s[1] in {'o', 'O'} then ReadRadix(s[2..], 8)
    else if |s| >= 2 && s[0] == '0' && s[1] in {'b', 'B'} then ReadRadix(s[2..], 2)
    else if s[0] == '-' then
      match ReadRadix(s[1..], 10)
      case None => None
      case Some(n) => var m: int := n; Some(-m)
    else if s[0] == '+' then ReadRadix(s[1..], 10)
    else ReadRadix(s, 10)
  }

  /** `BigInt(value)`: None where it throws. Arrays go through their comma-joined text. */
  function BigIntOf(j: Json): Option<int> {
    match j
    case Undefined => None
    case Null => None
    case Bool(b) => Some(if b then 1 else 0)
    case Num(n) => if n == n.Floor as real then Some(n.Floor) else None
    case Str(s) => StringToBigInt(s)
    case Obj(_) => None
    case Arr(xs) =>
      if |xs| == 0 then Some(0)
      else if |xs| > 1 then None
      else
        match xs[0]
        case Undefined => Some(0)
        case Null => Some(0)
        case Bool(_) => None
        case Num(n) => if n == n.Floor as real && -1e21 < n < 1e21 then Some(n.Floor) else None
        case Str(s) => StringToBigInt(s)
        case Obj(_) => None
        case Arr(_) => BigIntOf(xs[0])
  }

  ghost predicate PrintsAs(x: Json, n: int) {
    || ((x == Undefined || x == Null) && n == 0)
    || (x == Num(n as real) && -1_000_000_000_000_000_000_000 < n < 1_000_000_000_000_000_000_000)
    || ((x.Str? || x.Arr?) && BigIntOf(x) == Some(n))
  }

  /** What `BigInt` takes: a flag, a whole number, text, and an array that prints as one of them does: an empty one, or
      one around a missing value, text, a whole number that prints without exponent, or such an array. */
  lemma BigIntOfExact(j: Json, n: int)
    ensures BigIntOf(j) == Some(n) <==>
      || (j == Bool(true) && n == 1) || (j == Bool(false) && n == 0)
      || j == Num(n as real)
      || (j.Str? && StringToBigInt(j.s) == Some(n))
      || (j == Arr([]) && n == 0)
      || exists x :: j == Arr([x]) && PrintsAs(x, n)
  {
    hide StringToBigInt;
    if j.Arr? && |j.xs| == 1 {
      assert j == Arr([j.xs[0]]);
    }
  }

  /** Hex text with at least one digit is a quantity: `BigInt` reads its digits. */
  lemma HexTextIsQuantity(s: string)
    requires IsHexString(s) && |s| > 2
    ensures StringToBigInt(s) == Some(DigitsToNat(Digits(s)))
  {
  }

  lemma DecimalTextIsTrimmed(n: nat)
    ensures Trim(Decimal(n)) == Decimal(n)
  {
  }

  lemma PlainTextIsQuantity(n: nat)
    ensures StringToBigInt(Decimal(n)) == Some(n)
  {
    DecimalTextIsTrimmed(n);
    DecimalRoundTrip(n);
    hide Decimal, ReadRadix, Trim;
  }

  /** Both hex printers of a number are read back by `BigInt`, and so is its decimal text. */
  lemma QuantityTextReadsBack(n: nat)
    ensures StringToBigInt(ToQuantity(n)) == Some(n)
    ensures StringToBigInt(ToBeHex(n)) == Some(n)
    ensures StringToBigInt(Decimal(n)) == Some(n)
  {
    PlainTextIsQuantity(n);
    hide StringToBigInt, IsHexChar, Decimal;
    QuantityReadsBack(n);
    HexTextIsQuantity(ToQuantity(n));
    HexTextIsQuantity(ToBeHex(n));
  }

  // ---- The other forms of a number ----

  lemma {:induction false} TrimBlank(s: string)
    requires AllSpace(s)
    ensures Trim(s) == ""
  {
    if s != "" {
      assert IsSpace(s[0]) && AllSpace(s[1..]);
      TrimBlank(s[1..]);
    }
  }

  /** The text of a number below a radix of at most ten. */
  function InRadix(n: nat, radix: nat): (s: string)
    requires 2 <= radix <= 10
    ensures s != "" && forall i :: 0 <= i < |s| ==> '0' <= s[i] <= '9'
  {
    if n < radix then [('0' as int + n) as char]
    else InRadix(n / radix, radix) + [('0' as int + n % radix) as char]
  }

  lemma {:induction false} OctalRoundTrip(n: nat)
    ensures ReadRadix(InRadix(n, 8), 8) == Some(n)
  {
    if n >= 8 {
      OctalRoundTrip(n / 8);
      assert InRadix(n, 8)[..|InRadix(n, 8)| - 1] == InRadix(n / 8, 8);
    }
  }

  lemma {:induction false} BinaryRoundTrip(n: nat)
    ensures ReadRadix(InRadix(n, 2), 2) == Some(n)
  {
    if n >= 2 {
      BinaryRoundTrip(n / 2);
      assert InRadix(n, 2)[..|InRadix(n, 2)| - 1] == InRadix(n / 2, 2);
    }
  }

  lemma BlankIsZero(s: string)
    requires AllSpace(s)
    ensures StringToBigInt(s) == Some(0)
  {
    TrimBlank(s);
  }

  lemma DigitsAreNotSpace(s: string)
    requires s != "" && forall i :: 0 <= i < |s| ==> '0' <= s[i] <= '9'
    ensures !IsSpace(s[0]) && !IsSpace(s[|s| - 1])
  {
  }

  /** Inside any blanks: a sign before decimal digits, and digits of radix eight and two after their prefixes. */
  lemma NumberForms(before: string, n: nat, after: string)
    requires AllSpace(before) && AllSpace(after)
    ensures StringToBigInt(before + Decimal(n) + after) == Some(n)
    ensures StringToBigInt(before + ("-" + Decimal(n)) + after) == Some(-(n as int))
    ensures StringToBigInt(before + ("+" + Decimal(n)) + after) == Some(n)
    ensures StringToBigInt(before + ("0o" + InRadix(n, 8)) + after) == Some(n)
    ensures StringToBigInt(before + ("0b" + InRadix(n, 2)) + after) == Some(n)
  {
    hide IsSpace, Trim, Decimal, InRadix, ReadRadix;
    PaddedDecimal(before, n, after);
    PaddedSigned(before, n, after);
    PaddedRadix(before, n, after);
  }

  lemma PaddedDecimal(before: string, n: nat, after: string)
    requires AllSpace(before) && AllSpace(after)
    ensures StringToBigInt(before + Decimal(n) + after) == Some(n)
  {
    DigitsAreNotSpace(Decimal(n));
    TrimPadded(before, Decimal(n), after);
    PlainTextIsQuantity(n);
    DecimalTextIsTrimmed(n);
    hide Trim, Decimal, ReadRadix;
  }

  lemma MarkedIsTrimmed(before: string, mark: string, digits: string, after: string)
    requires AllSpace(before) && AllSpace(after) && mark in ["-", "+", "0o", "0b"]
    requires digits != "" && forall i :: 0 <= i < |digits| ==> '0' <= digits[i] <= '9'
    ensures Trim(before + (mark + digits) + after) == mark + digits && (mark + digits)[|mark|..] == digits
  {
    DigitsAreNotSpace(digits);
    TrimPadded(before, mark + digits, after);
  }

  lemma SignedReads(text: string, digits: string)
    ensures Trim(text) == "+" + digits ==> StringToBigInt(text) == ReadRadix(digits, 10)
    ensures Trim(text) == "-" + digits && ReadRadix(digits, 10).Some? ==>
              StringToBigInt(text) == Some(-(ReadRadix(digits, 10).value as int))
  {
    hide Trim, ReadRadix;
    assert ("+" + digits)[1..] == digits && ("-" + digits)[1..] == digits;
  }

  lemma PaddedSigned(before: string, n: nat, after: string)
    requires AllSpace(before) && AllSpace(after)
    ensures StringToBigInt(before + ("-" + Decimal(n)) + after) == Some(-(n as int))
    ensures StringToBigInt(before + ("+" + Decimal(n)) + after) == Some(n)
  {
    DecimalRoundTrip(n);
    hide Trim, Decimal, ReadRadix, AllSpace, StringToBigInt;
    MarkedIsTrimmed(before, "-", Decimal(n), after);
    MarkedIsTrimmed(before, "+", Decimal(n), after);
    SignedReads(before + ("-" + Decimal(n)) + after, Decimal(n));
    SignedReads(before + ("+" + Decimal(n)) + after, Decimal(n));
  }

  lemma RadixReads(text: string, digits: string)
    ensures Trim(text) == "0o" + digits ==> StringToBigInt(text) == ReadRadix(digits, 8)
    ensures Trim(text) == "0b" + digits ==> StringToBigInt(text) == ReadRadix(digits, 2)
  {
    hide Trim, ReadRadix;
    assert ("0o" + digits)[2..] == digits && ("0b" + digits)[2..] == digits;
  }

  lemma PaddedRadix(before: string, n: nat, after: string)
    requires AllSpace(before) && AllSpace(after)
    ensures StringToBigInt(before + ("0o" + InRadix(n, 8)) + after) == Some(n)
    ensures StringToBigInt(before + ("0b" + InRadix(n, 2)) + after) == Some(n)
  {
    OctalRoundTrip(n);
    BinaryRoundTrip(n);
    hide Trim, InRadix, ReadRadix, AllSpace, StringToBigInt;
    MarkedIsTrimmed(before, "0o", InRadix(n, 8), after);
    MarkedIsTrimmed(before, "0b", InRadix(n, 2), after);
    RadixReads(before + ("0o" + InRadix(n, 8)) + after, InRadix(n, 8));
    RadixReads(before + ("0b" + InRadix(n, 2)) + after, InRadix(n, 2));
  }
}
