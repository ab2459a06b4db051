/** The unpadded base64url text of RFC 4648, section 5, and Node's lenient reading of it. */
module Base64Url {
  import opened Wrappers
  import opened Bytes

  type Sextet = n: int | 0 <= n < 64

  function PrintSextet(n: Sextet): char {
    if n < 26 then ('A' as int + n) as char
    else if n < 52 then ('a' as int + n - 26) as char
    else if n < 62 then ('0' as int + n - 52) as char
    else if n == 62 then '-'
    else '_'
  }

  /** The value of a character of either base64 alphabet. */
  function ReadSextet(c: char): Option<Sextet> {
    if 'A' <= c <= 'Z' then Some(c as int - 'A' as int)
    else if 'a' <= c <= 'z' then Some(c as int - 'a' as int + 26)
    else if '0' <= c <= '9' then Some(c as int - '0' as int + 52)
    else if c == '-' || c == '+' then Some(62)
    else if c == '_' || c == '/' then Some(63)
    else None
  }

  lemma SextetReadsBack(n: Sextet)
    ensures ReadSextet(PrintSextet(n)) == Some(n)
    ensures PrintSextet(n) !in {'.', ';', '=', '%', ' ', ','}
  {
  }

  /** The table of the standard: upper case, lower case, digits, then the two last characters. Node also reads those of
      the other alphabet. */
  lemma AlphabetExact(n: Sextet, c: char)
    ensures PrintSextet(0) == 'A' && PrintSextet(25) == 'Z' && PrintSextet(26) == 'a' && PrintSextet(51) == 'z'
    ensures PrintSextet(52) == '0' && PrintSextet(61) == '9' && PrintSextet(62) == '-' && PrintSextet(63) == '_'
    ensures n < 62 && n !in {25, 51, 61} ==> PrintSextet(n + 1) as int == PrintSextet(n) as int + 1
    ensures ReadSextet(c) == Some(n) <==> c == PrintSextet(n) || (c == '+' && n == 62) || (c == '/' && n == 63)
  {
  }

  /** Three bytes make four sextets; a rest of one or two bytes makes two or three. */
  function ToSextets(bs: seq<Byte>): (ss: seq<Sextet>)
    ensures bs != [] ==> ss != []
  {
    if |bs| == 0 then []
    else if |bs| == 1 then [bs[0] / 4, bs[0] % 4 * 16]
    else if |bs| == 2 then [bs[0] / 4, bs[0] % 4 * 16 + bs[1] / 16, bs[1] % 16 * 4]
    else
      [bs[0] / 4, bs[0] % 4 * 16 + bs[1] / 16, bs[1] % 16 * 4 + bs[2] / 64, bs[2] % 64] + ToSextets(bs[3..])
  }

  /** Left-over bits are dropped. */
  function FromSextets(ss: seq<Sextet>): seq<Byte> {
    if |ss| < 2 then []
    else
      var b0 := (ss[0] as int) * 4 + (ss[1] as int) / 16;
      if |ss| == 2 then [b0]
      else
        var b1 := (ss[1] as int) % 16 * 16 + (ss[2] as int) / 4;
        if |ss| == 3 then [b0, b1] else [b0, b1, (ss[2] as int) % 4 * 64 + (ss[3] as int)] + FromSextets(ss[4..])
  }

  lemma {:induction false} SextetsRoundTrip(bs: seq<Byte>)
    ensures FromSextets(ToSextets(bs)) == bs
  {
    if |bs| > 2 {
      SextetsRoundTrip(bs[3..]);
      assert ToSextets(bs)[4..] == ToSextets(bs[3..]);
      assert bs == [bs[0], bs[1], bs[2]] + bs[3..];
    }
  }

  /** The number that digits spell, the most significant first. */
  function Spells(ds: seq<int>, radix: nat): int {
    if ds == [] then 0 else radix * Spells(ds[..|ds| - 1], radix) + ds[|ds| - 1]
  }

  /** Every whole group of three bytes and its four sextets spell one 24-bit number; what is left over is filled up with
      zero bits. */
  lemma {:induction false} GroupSpells(bs: seq<Byte>, i: nat)
    requires 3 * i < |bs|
    ensures var ss, n := ToSextets(bs), |bs| - 3 * i;
      && |ss| >= 4 * i + Min(n + 1, 4)
      && (n >= 3 ==> Spells(ss[4 * i..4 * i + 4], 64) == Spells(bs[3 * i..3 * i + 3], 256))
      && (n == 2 ==> Spells(ss[4 * i..], 64) == 4 * Spells(bs[3 * i..], 256))
      && (n == 1 ==> Spells(ss[4 * i..], 64) == 16 * Spells(bs[3 * i..], 256))
  {
    if i > 0 {
      GroupSpells(bs[3..], i - 1);
      var ss := ToSextets(bs);
      assert ss[4..] == ToSextets(bs[3..]);
      assert bs[3 * i..] == bs[3..][3 * (i - 1)..] && ss[4 * i..] == ss[4..][4 * (i - 1)..];
      if |bs| - 3 * i >= 3 {
        assert bs[3 * i..3 * i + 3] == bs[3..][3 * (i - 1)..3 * (i - 1) + 3];
        assert ss[4 * i..4 * i + 4] == ss[4..][4 * (i - 1)..4 * (i - 1) + 4];
      }
    } else {
      FirstGroupSpells(bs);
    }
  }

  lemma FirstGroupSpells(bs: seq<Byte>)
    requires bs != []
    ensures var ss := ToSextets(bs);
      && |ss| >= Min(|bs| + 1, 4)
      && (|bs| >= 3 ==> Spells(ss[..4], 64) == Spells(bs[..3], 256))
      && (|bs| == 2 ==> Spells(ss, 64) == 4 * Spells(bs, 256))
      && (|bs| == 1 ==> Spells(ss, 64) == 16 * Spells(bs, 256))
  {
    var ss := ToSextets(bs);
    if |bs| >= 3 {
      SpellsThree(bs[..3], 256);
      SpellsThree(ss[..3], 64);
      assert ss[..4][..3] == ss[..3];
    } else if |bs| == 2 {
      SpellsThree(ss, 64);
      SpellsTwo(bs, 256);
    } else {
      SpellsTwo(ss, 64);
    }
  }

  lemma SpellsTwo(ds: seq<int>, radix: nat)
    requires |ds| == 2
    ensures Spells(ds, radix) == radix * ds[0] + ds[1]
  {
    assert ds[..1][..0] == [] && Spells(ds[..1], radix) == ds[0];
  }

  lemma SpellsThree(ds: seq<int>, radix: nat)
    requires |ds| == 3
    ensures Spells(ds, radix) == radix * (radix * ds[0] + ds[1]) + ds[2]
  {
    SpellsTwo(ds[..2], radix);
  }

  function Print(ss: seq<Sextet>): (s: string)
    ensures |s| == |ss| && forall i :: 0 <= i < |ss| ==> s[i] == PrintSextet(ss[i])
  {
    seq(|ss|, i requires 0 <= i < |ss| => PrintSextet(ss[i]))
  }

  /** Characters outside the alphabets are skipped. */
  function Read(s: string): seq<Sextet> {
    if s == "" then []
    else (match ReadSextet(s[0]) case Some(n) => [n] case None => []) + Read(s[1..])
  }

  lemma {:induction false} PrintReadsBack(ss: seq<Sextet>)
    ensures Read(Print(ss)) == ss
  {
    if ss != [] {
      SextetReadsBack(ss[0]);
      assert Print(ss)[1..] == Print(ss[1..]);
      PrintReadsBack(ss[1..]);
    }
  }

  /** `buffer.toString("base64url")` */
  function Encode(bs: seq<Byte>): string {
    Print(ToSextets(bs))
  }

  /** `Buffer.from(text, "base64url")` */
  function Decode(s: string): seq<Byte> {
    FromSextets(Read(s))
  }

  ghost predicate IsUrlText(s: string) {
    forall c :: c in s ==> c !in {'.', ';', '=', '%', ' ', ','}
  }

  /** Every byte string reads back from its text, and the text avoids every character that a cookie treats specially. */
  lemma EncodeDecode(bs: seq<Byte>)
    ensures Decode(Encode(bs)) == bs
    ensures IsUrlText(Encode(bs))
    ensures bs != [] ==> Encode(bs) != ""
  {
    SextetsRoundTrip(bs);
    PrintReadsBack(ToSextets(bs));
    forall c | c in Encode(bs) ensures c !in {'.', ';', '=', '%', ' ', ','} {
      var i :| 0 <= i < |Encode(bs)| && Encode(bs)[i] == c;
      SextetReadsBack(ToSextets(bs)[i]);
    }
  }
}
