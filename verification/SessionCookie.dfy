/** The session cookie: a signed payload printed into one header and found again in another. */
module SessionCookie {
  import opened Wrappers
  import opened Bytes
  import opened Js
  import opened Base64Url

  const EXPIRY_SKEW_MS := 5_000

  /** `expiresAt` in milliseconds; None where the payload carries no number. */
  datatype Session = Session(accessToken: string, sub: string, expiresAt: Option<int>)

  /** The codec's settings and the functions it takes from outside: JSON text of a session's payload and its reading,
      the keyed MAC, and `decodeURIComponent` (None where it throws). A payload field that is missing reads as "". */
  datatype Codec = Codec(
    name: string,
    path: string,
    sameSite: string,
    secure: bool,
    encodeJson: Session -> seq<Byte>,
    decodeJson: seq<Byte> -> Option<Session>,
    mac: string -> seq<Byte>,
    uriDecode: string -> Option<string>)

  function Join(parts: seq<string>, separator: string): string {
    if parts == [] then "" else if |parts| == 1 then parts[0] else parts[0] + separator + Join(parts[1..], separator)
  }

  /** The position of the first occurrence of a character, or the length. */
  function IndexOf(s: string, c: char): (i: nat)
    ensures i <= |s| && (i < |s| ==> s[i] == c) && forall j :: 0 <= j < i ==> s[j] != c
  {
    if s == "" || s[0] == c then 0 else 1 + IndexOf(s[1..], c)
  }

  /** The position of the last occurrence of a character, or -1. */
  function LastIndexOf(s: string, c: char): (i: int)
    ensures -1 <= i < |s| && (i >= 0 ==> s[i] == c) && forall j :: i < j < |s| ==> s[j] != c
  {
    if s == "" then -1
    else if s[|s| - 1] == c then |s| - 1
    else LastIndexOf(s[..|s| - 1], c)
  }

  function Split(s: string, c: char): (parts: seq<string>)
    ensures parts != []
    decreases |s|
  {
    var i := IndexOf(s, c);
    if i == |s| then [s] else [s[..i]] + Split(s[i + 1..], c)
  }

  lemma IndexOfFirst(a: string, c: char, b: string)
    requires c !in a
    ensures IndexOf(a + [c] + b, c) == |a|
  {
    var s := a + [c] + b;
    assert s[|a|] == c;
    assert forall j :: 0 <= j < |a| ==> s[j] == a[j] != c;
  }

  lemma {:induction false} LastIndexOfLast(a: string, c: char, b: string)
    requires c !in b
    ensures LastIndexOf(a + [c] + b, c) == |a|
    decreases |b|
  {
    var s := a + [c] + b;
    if b == "" {
      assert s[|s| - 1] == c;
    } else {
      assert s[|s| - 1] == b[|b| - 1] && b[|b| - 1] in b;
      assert s[..|s| - 1] == a + [c] + b[..|b| - 1];
      LastIndexOfLast(a, c, b[..|b| - 1]);
    }
  }

  lemma SplitFirst(a: string, c: char, b: string)
    requires c !in a
    ensures Split(a + [c] + b, c) == [a] + Split(b, c)
  {
    hide IndexOf;
    var s := a + [c] + b;
    IndexOfFirst(a, c, b);
    assert s[..|a|] == a && s[|a| + 1..] == b;
  }

  lemma SplitWhole(a: string, c: char)
    requires c !in a
    ensures Split(a, c) == [a]
  {
    hide IndexOf;
    assert IndexOf(a, c) == |a|;
  }

  /** Splitting undoes joining when no part holds the separator. */
  lemma {:induction false} SplitJoin(parts: seq<string>, c: char)
    requires parts != [] && forall p :: p in parts ==> c !in p
    ensures Split(Join(parts, [c]), c) == parts
    decreases |parts|
  {
    hide Split;
    assert parts[0] in parts;
    if |parts| == 1 {
      SplitWhole(parts[0], c);
    } else {
      assert forall p :: p in parts[1..] ==> p in parts;
      SplitJoin(parts[1..], c);
      SplitFirst(parts[0], c, Join(parts[1..], [c]));
      assert parts == [parts[0]] + parts[1..];
    }
  }

  // ---- Writing ----

  /** What follows the pair. */
  function Flags(codec: Codec, expire: bool): seq<string> {
    ["HttpOnly", "Path=" + codec.path, "SameSite=" + codec.sameSite]
    + (if codec.secure then ["Secure"] else []) + (if expire then ["Max-Age=0"] else [])
  }

  function SetCookieText(codec: Codec, value: string, expire: bool): string {
    Join([codec.name + "=" + value] + Flags(codec, expire), "; ")
  }

  function Spaced(parts: seq<string>): (r: seq<string>)
    ensures |r| == |parts| && forall i :: 0 <= i < |parts| ==> r[i] == " " + parts[i]
  {
    seq(|parts|, i requires 0 <= i < |parts| => " " + parts[i])
  }

  lemma {:induction false} JoinSpaced(parts: seq<string>)
    requires parts != []
    ensures Join(Spaced(parts), ";") == " " + Join(parts, "; ")
    decreases |parts|
  {
    if |parts| > 1 {
      assert Spaced(parts)[1..] == Spaced(parts[1..]);
      hide Spaced;
      JoinSpaced(parts[1..]);
      var rest := Join(parts[1..], "; ");
      assert (" " + parts[0]) + ";" + (" " + rest) == " " + (parts[0] + "; " + rest);
    }
  }

  lemma JoinAfter(first: string, rest: seq<string>)
    requires rest != []
    ensures Join([first] + rest, "; ") == Join([first] + Spaced(rest), ";")
  {
    hide Spaced;
    JoinSpaced(rest);
    assert ([first] + rest)[1..] == rest && ([first] + Spaced(rest))[1..] == Spaced(rest);
    assert first + "; " + Join(rest, "; ") == first + ";" + (" " + Join(rest, "; "));
  }

  /** No part of the header holds the character that separates them. */
  predicate NoSeparators(codec: Codec, value: string) {
    ';' !in codec.name && ';' !in value && ';' !in codec.path && ';' !in codec.sameSite
  }

  lemma FlagsHaveNoSemicolon(codec: Codec, value: string, expire: bool)
    requires NoSeparators(codec, value)
    ensures forall p :: p in Spaced(Flags(codec, expire)) ==> ';' !in p
  {
    forall p | p in Flags(codec, expire) ensures ';' !in p {
    }
  }

  /** Read at its semicolons, the header is the pair and the flags. */
  lemma SetCookieParts(codec: Codec, value: string, expire: bool)
    requires NoSeparators(codec, value)
    ensures Split(SetCookieText(codec, value, expire), ';') == [codec.name + "=" + value] + Spaced(Flags(codec, expire))
  {
    var first := codec.name + "=" + value;
    assert ';' !in first;
    JoinAfter(first, Flags(codec, expire));
    FlagsHaveNoSemicolon(codec, value, expire);
    hide Flags, Join, Split, Spaced;
    SplitJoin([first] + Spaced(Flags(codec, expire)), ';');
  }

  /** What a reader of the header finds: the pair first, then nothing but HttpOnly, this path and this SameSite, each
      there, Secure exactly where the codec asks for it, and a lifetime exactly to end the session: a live cookie is
      never kept on disk. */
  ghost predicate HeaderSays(codec: Codec, value: string, expire: bool, header: string) {
    var parts := Split(header, ';');
    && parts[0] == codec.name + "=" + value
    && FlagsSay(codec, expire, parts[1..])
  }

  ghost predicate FlagsSay(codec: Codec, expire: bool, parts: seq<string>) {
    && " " + "HttpOnly" in parts && " " + ("Path=" + codec.path) in parts
    && " " + ("SameSite=" + codec.sameSite) in parts
    && (" " + "Secure" in parts <==> codec.secure)
    && (" " + "Max-Age=0" in parts <==> expire)
    && forall p :: p in parts ==>
         exists q :: q in ["HttpOnly", "Path=" + codec.path, "SameSite=" + codec.sameSite, "Secure", "Max-Age=0"]
                     && p == " " + q
  }

  lemma SpacedMember(parts: seq<string>, p: string)
    ensures p in Spaced(parts) <==> exists q :: q in parts && p == " " + q
  {
    if p in Spaced(parts) {
      var i :| 0 <= i < |parts| && Spaced(parts)[i] == p;
      assert parts[i] in parts;
    }
    if exists q :: q in parts && p == " " + q {
      var q :| q in parts && p == " " + q;
      var i :| 0 <= i < |parts| && parts[i] == q;
      assert Spaced(parts)[i] == p;
    }
  }

  lemma BlankCancels(a: string, b: string)
    ensures " " + a == " " + b <==> a == b
  {
    if " " + a == " " + b {
      assert (" " + a)[1..] == a && (" " + b)[1..] == b;
    }
  }

  lemma FlagIsListed(codec: Codec, expire: bool, q: string)
    ensures " " + q in Spaced(Flags(codec, expire)) <==> q in Flags(codec, expire)
  {
    SpacedMember(Flags(codec, expire), " " + q);
    forall other | other in Flags(codec, expire) ensures " " + other == " " + q <==> other == q {
      BlankCancels(other, q);
    }
  }

  lemma FlagsAreThese(codec: Codec, expire: bool)
    ensures var fs := Flags(codec, expire);
      && "HttpOnly" in fs && "Path=" + codec.path in fs && "SameSite=" + codec.sameSite in fs
      && ("Secure" in fs <==> codec.secure) && ("Max-Age=0" in fs <==> expire)
      && forall q :: q in fs ==>
           q in ["HttpOnly", "Path=" + codec.path, "SameSite=" + codec.sameSite, "Secure", "Max-Age=0"]
  {
    var fs := Flags(codec, expire);
    assert fs[0] == "HttpOnly" && fs[1] == "Path=" + codec.path && fs[2] == "SameSite=" + codec.sameSite;
    assert ("Path=" + codec.path)[0] == 'P' && ("SameSite=" + codec.sameSite)[1] == 'a';
    assert "Secure"[1] == 'e' && "Max-Age=0"[0] == 'M' && "Secure"[0] == 'S';
    if codec.secure {
      assert fs[3] == "Secure";
    }
    if expire {
      assert fs[|fs| - 1] == "Max-Age=0";
    }
  }

  lemma SpacedFlagsSay(codec: Codec, expire: bool)
    ensures FlagsSay(codec, expire, Spaced(Flags(codec, expire)))
  {
    FlagsAreThese(codec, expire);
    hide Flags, Spaced;
    FlagIsListed(codec, expire, "HttpOnly");
    FlagIsListed(codec, expire, "Path=" + codec.path);
    FlagIsListed(codec, expire, "SameSite=" + codec.sameSite);
    FlagIsListed(codec, expire, "Secure");
    FlagIsListed(codec, expire, "Max-Age=0");
    forall p | p in Spaced(Flags(codec, expire))
      ensures exists q :: q in ["HttpOnly", "Path=" + codec.path, "SameSite=" + codec.sameSite, "Secure", "Max-Age=0"]
                          && p == " " + q
    {
      SpacedMember(Flags(codec, expire), p);
    }
  }

  lemma HeaderSaysIt(codec: Codec, value: string, expire: bool)
    requires NoSeparators(codec, value)
    ensures HeaderSays(codec, value, expire, SetCookieText(codec, value, expire))
  {
    SetCookieParts(codec, value, expire);
    SpacedFlagsSay(codec, expire);
    hide SetCookieText, Flags, Spaced, Split, Join, FlagsSay;
    var parts := Split(SetCookieText(codec, value, expire), ';');
    assert parts[1..] == Spaced(Flags(codec, expire));
  }

  /** The Set-Cookie header, attribute by attribute. */
  method Attributes(codec: Codec, value: string, expire: bool) returns (header: string)
    ensures header == SetCookieText(codec, value, expire)
    ensures NoSeparators(codec, value) ==> HeaderSays(codec, value, expire, header)
  {
    var attrs := [codec.name + "=" + value, "HttpOnly", "Path=" + codec.path, "SameSite=" + codec.sameSite];
    if codec.secure {
      attrs := attrs + ["Secure"];
    }
    if expire {
      attrs := attrs + ["Max-Age=0"];
    }
    assert attrs == [codec.name + "=" + value] + Flags(codec, expire);
    hide HeaderSays, Flags, Join;
    if NoSeparators(codec, value) {
      HeaderSaysIt(codec, value, expire);
    }
    return Join(attrs, "; ");
  }

  function PayloadText(codec: Codec, s: Session): string {
    Encode(codec.encodeJson(s))
  }

  function CookieValue(codec: Codec, s: Session): string {
    PayloadText(codec, s) + "." + Encode(codec.mac(PayloadText(codec, s)))
  }

  function Serialize(codec: Codec, s: Session): string {
    SetCookieText(codec, CookieValue(codec, s), false)
  }

  /** What a browser keeps of a Set-Cookie header and sends back: the text up to the first semicolon. */
  function CookiePair(setCookie: string): string {
    setCookie[..IndexOf(setCookie, ';')]
  }

  // ---- Reading ----

  predicate IsNamed(part: string, name: string) {
    IndexOf(part, '=') < |part| && Trim(part[..IndexOf(part, '=')]) == name
  }

  function ValueIn(part: string): string {
    if IndexOf(part, '=') < |part| then Trim(part[IndexOf(part, '=') + 1..]) else ""
  }

  /** The value of the first part with that name. */
  function FirstCookie(parts: seq<string>, name: string): Option<string> {
    if parts == [] then None
    else if IsNamed(parts[0], name) then Some(ValueIn(parts[0]))
    else FirstCookie(parts[1..], name)
  }

  function CookieIn(codec: Codec, header: string): Option<string> {
    if header == "" then None
    else
      match FirstCookie(Split(header, ';'), codec.name)
      case None => None
      case Some(value) => match codec.uriDecode(value) { case Some(text) => Some(text) case None => Some(value) }
  }

  /** A part is `name=value`, cut at its first equals sign, with blanks around both. */
  ghost predicate Pairs(part: string, name: string, value: string) {
    exists a, b :: part == a + "=" + b && '=' !in a && Trim(a) == name && Trim(b) == value
  }

  /** The cookie is the value of the first pair of that name, percent-decoded where it can be. */
  ghost predicate IsCookie(codec: Codec, header: string, cookie: string) {
    exists k, value ::
      && 0 <= k < |Split(header, ';')| && Pairs(Split(header, ';')[k], codec.name, value)
      && (forall j, other :: 0 <= j < k ==> !Pairs(Split(header, ';')[j], codec.name, other))
      && cookie == codec.uriDecode(value).UnwrapOr(value)
  }

  lemma PairExact(part: string, name: string, value: string)
    ensures IsNamed(part, name) && ValueIn(part) == value <==> Pairs(part, name, value)
  {
    hide Trim, IndexOf;
    var i := IndexOf(part, '=');
    if i < |part| {
      assert part == part[..i] + "=" + part[i + 1..];
    }
    forall a, b | part == a + "=" + b && '=' !in a ensures i == |a| && part[..i] == a && part[i + 1..] == b {
      IndexOfFirst(a, '=', b);
    }
  }

  lemma {:induction false} FirstCookieExact(parts: seq<string>, name: string, k: nat, value: string)
    requires k < |parts| && Pairs(parts[k], name, value)
    requires forall j, other :: 0 <= j < k ==> !Pairs(parts[j], name, other)
    ensures FirstCookie(parts, name) == Some(value)
  {
    hide Pairs;
    PairExact(parts[k], name, value);
    if k > 0 {
      PairExact(parts[0], name, ValueIn(parts[0]));
      FirstCookieExact(parts[1..], name, k - 1, value);
    }
  }

  lemma {:induction false} FirstCookieFound(parts: seq<string>, name: string) returns (k: nat)
    ensures k <= |parts|
    ensures k < |parts| ==> FirstCookie(parts, name).Some? && Pairs(parts[k], name, FirstCookie(parts, name).value)
    ensures k == |parts| ==> FirstCookie(parts, name) == None
    ensures forall j, other :: 0 <= j < k ==> !Pairs(parts[j], name, other)
  {
    hide Pairs, ValueIn, IsNamed;
    if parts == [] {
      k := 0;
    } else if IsNamed(parts[0], name) {
      PairExact(parts[0], name, ValueIn(parts[0]));
      k := 0;
    } else {
      var i := FirstCookieFound(parts[1..], name);
      k := i + 1;
      forall j, other | 0 <= j < k ensures !Pairs(parts[j], name, other) {
        PairExact(parts[0], name, other);
        assert j > 0 ==> parts[j] == parts[1..][j - 1];
      }
    }
  }

  lemma CookieInExact(codec: Codec, header: string, cookie: string)
    ensures CookieIn(codec, header) == Some(cookie) <==> header != "" && IsCookie(codec, header, cookie)
  {
    hide Pairs, Split, FirstCookie;
    var parts := Split(header, ';');
    var k := FirstCookieFound(parts, codec.name);
    if k < |parts| {
      var value := FirstCookie(parts, codec.name).value;
      assert IsCookie(codec, header, codec.uriDecode(value).UnwrapOr(value));
    }
    if IsCookie(codec, header, cookie) {
      var i, value :| 0 <= i < |parts| && Pairs(parts[i], codec.name, value)
        && (forall j, other :: 0 <= j < i ==> !Pairs(parts[j], codec.name, other))
        && cookie == codec.uriDecode(value).UnwrapOr(value);
      FirstCookieExact(parts, codec.name, i, value);
    }
  }

  /** `readCookie` */
  method ReadCookie(codec: Codec, header: string) returns (value: Option<string>)
    ensures value == CookieIn(codec, header)
    ensures forall cookie :: value == Some(cookie) <==> header != "" && IsCookie(codec, header, cookie)
  {
    hide IsCookie;
    forall cookie ensures CookieIn(codec, header) == Some(cookie) <==> header != "" && IsCookie(codec, header, cookie) {
      CookieInExact(codec, header, cookie);
    }
    if header == "" {
      return None;
    }
    var parts := Split(header, ';');
    for i := 0 to |parts|
      invariant FirstCookie(parts, codec.name) == FirstCookie(parts[i..], codec.name)
    {
      assert parts[i..][1..] == parts[i + 1..];
      var eq := IndexOf(parts[i], '=');
      if eq == |parts[i]| {
        continue;
      }
      if Trim(parts[i][..eq]) != codec.name {
        continue;
      }
      var text := Trim(parts[i][eq + 1..]);
      match codec.uriDecode(text)
      case Some(decoded) => return Some(decoded);
      case None => return Some(text);
    }
    return None;
  }

  /** `parse` up to the expiry check: the session that the cookie carries under a valid MAC. */
  function Verified(codec: Codec, header: string): Option<Session> {
    match CookieIn(codec, header)
    case None => None
    case Some(raw) =>
      var split := LastIndexOf(raw, '.');
      if split < 1 then None
      else if Decode(raw[split + 1..]) != Decode(Encode(codec.mac(raw[..split]))) then None
      else
        match codec.decodeJson(Decode(raw[..split]))
        case None => None
        case Some(s) => if s.accessToken == "" || s.sub == "" then None else Some(s)
  }

  predicate Expired(s: Session, now: int) {
    s.expiresAt.Some? && now + EXPIRY_SKEW_MS >= s.expiresAt.value
  }

  function Parse(codec: Codec, header: string, now: int): Option<Session> {
    match Verified(codec, header)
    case None => None
    case Some(s) => if Expired(s, now) then None else Some(s)
  }

  /** The text carries the session: a payload under its MAC, separated by the last dot, that reads as the session with
      token and subject. */
  ghost predicate CarriesSession(codec: Codec, raw: string, s: Session) {
    exists payload, tag ::
      && raw == payload + "." + tag && payload != "" && '.' !in tag
      && Decode(tag) == codec.mac(payload)
      && codec.decodeJson(Decode(payload)) == Some(s) && s.accessToken != "" && s.sub != ""
  }

  lemma VerifiedExact(codec: Codec, header: string, s: Session)
    ensures Verified(codec, header) == Some(s) <==>
            CookieIn(codec, header).Some? && CarriesSession(codec, CookieIn(codec, header).value, s)
  {
    hide Encode, Decode, CookieIn, LastIndexOf;
    if CookieIn(codec, header).Some? {
      var raw := CookieIn(codec, header).value;
      var split := LastIndexOf(raw, '.');
      if split >= 0 {
        EncodeDecode(codec.mac(raw[..split]));
        assert raw == raw[..split] + "." + raw[split + 1..];
      }
      forall payload, tag | raw == payload + "." + tag && '.' !in tag
        ensures split == |payload| && raw[..split] == payload && raw[split + 1..] == tag
      {
        LastIndexOfLast(payload, '.', tag);
      }
    }
  }

  /** A header parses to a session exactly if it has the cookie, that carries this session under a valid MAC, and the
      session, if it names an end, has more than five seconds to go. */
  lemma ParseExact(codec: Codec, header: string, now: int, s: Session)
    ensures Parse(codec, header, now) == Some(s) <==>
      && header != "" && (exists raw :: IsCookie(codec, header, raw) && CarriesSession(codec, raw, s))
      && (s.expiresAt == None || now + 5_000 < s.expiresAt.value)
  {
    hide Verified, CookieIn, IsCookie, CarriesSession;
    VerifiedExact(codec, header, s);
    forall raw ensures CookieIn(codec, header) == Some(raw) <==> header != "" && IsCookie(codec, header, raw) {
      CookieInExact(codec, header, raw);
    }
  }

  // ---- Round trip ----

  /** JSON text of this session's payload is not empty and reads back as the session. */
  ghost predicate JsonFaithful(codec: Codec, s: Session) {
    codec.encodeJson(s) != [] && codec.decodeJson(codec.encodeJson(s)) == Some(s)
  }

  /** Percent decoding leaves text without a percent sign alone. */
  ghost predicate UriFaithful(codec: Codec) {
    forall text :: '%' !in text ==> codec.uriDecode(text) == Some(text)
  }

  /** A usable cookie name: not empty, no separators, no blanks at its ends. */
  ghost predicate GoodName(name: string) {
    name != "" && '=' !in name && ';' !in name && !IsSpace(name[0]) && !IsSpace(name[|name| - 1])
  }

  lemma {:induction false} FirstCookieSkips(before: seq<string>, part: string, after: seq<string>, name: string)
    requires forall p :: p in before ==> !IsNamed(p, name)
    requires IsNamed(part, name)
    ensures FirstCookie(before + [part] + after, name) == Some(ValueIn(part))
  {
    var parts := before + [part] + after;
    if before != [] {
      assert parts[1..] == before[1..] + [part] + after;
      assert parts[0] == before[0] && before[0] in before;
      FirstCookieSkips(before[1..], part, after, name);
    }
  }

  lemma PairReads(lead: string, name: string, value: string, trail: string)
    requires GoodName(name) && AllSpace(lead) && AllSpace(trail)
    requires value != "" && !IsSpace(value[0]) && !IsSpace(value[|value| - 1])
    ensures var part := lead + name + "=" + value + trail;
      IsNamed(part, name) && ValueIn(part) == value
  {
    var part := lead + name + "=" + value + trail;
    assert '=' !in lead + name by {
      assert forall i :: 0 <= i < |lead| ==> lead[i] != '=';
    }
    assert part == (lead + name) + ['='] + (value + trail);
    IndexOfFirst(lead + name, '=', value + trail);
    assert part[..|lead + name|] == lead + name + "";
    assert part[|lead + name| + 1..] == "" + value + trail;
    TrimPadded(lead, name, "");
    TrimPadded("", value, trail);
  }

  lemma UrlTextHasNoSpace(bs: seq<Byte>)
    ensures forall c :: c in Encode(bs) ==> !IsSpace(c)
  {
  }

  lemma DotIsNotSpace()
    ensures !IsSpace('.')
  {
  }

  /** The parts of a cookie value: where it splits, and that it survives trimming and percent decoding. */
  lemma CookieValueShape(codec: Codec, s: Session)
    requires codec.encodeJson(s) != []
    ensures var value, payload := CookieValue(codec, s), PayloadText(codec, s);
      && payload != "" && value != "" && !IsSpace(value[0]) && !IsSpace(value[|value| - 1])
      && '%' !in value && ';' !in value
      && LastIndexOf(value, '.') == |payload|
      && value[..|payload|] == payload && value[|payload| + 1..] == Encode(codec.mac(payload))
  {
    hide IsSpace, ToSextets, Print, Decode;
    var payload := PayloadText(codec, s);
    var tag := Encode(codec.mac(payload));
    var value := CookieValue(codec, s);
    EncodeDecode(codec.encodeJson(s));
    EncodeDecode(codec.mac(payload));
    UrlTextHasNoSpace(codec.encodeJson(s));
    UrlTextHasNoSpace(codec.mac(payload));
    DotIsNotSpace();
    assert value == payload + ['.'] + tag;
    LastIndexOfLast(payload, '.', tag);
    assert value[0] == payload[0];
    assert payload[0] in payload;
    assert value[|value| - 1] == '.' || value[|value| - 1] in tag;
    assert forall c :: c in value ==> c in payload || c == '.' || c in tag;
  }

  /** For every session with a token and a subject, wherever the pair stands among other cookies and with whatever
      blanks around it, as long as no earlier one has that name: the header parses to exactly that session as long as
      it is not about to expire, and to nothing from then on. */
  lemma CookieRoundTrip(codec: Codec, s: Session, before: seq<string>, lead: string, trail: string, after: seq<string>,
                        now: int)
    requires GoodName(codec.name) && UriFaithful(codec) && JsonFaithful(codec, s)
    requires s.accessToken != "" && s.sub != ""
    requires AllSpace(lead) && AllSpace(trail)
    requires forall p :: p in before + after ==> ';' !in p
    requires forall p :: p in before ==> !IsNamed(p, codec.name)
    ensures var header := Join(before + [lead + CookiePair(Serialize(codec, s)) + trail] + after, ";");
      Parse(codec, header, now)
      == if s.expiresAt.Some? && s.expiresAt.value <= now + 5_000 then None else Some(s)
  {
    hide IsSpace, Encode, Decode, IsNamed, ValueIn;
    var value, payload := CookieValue(codec, s), PayloadText(codec, s);
    CookieValueShape(codec, s);
    PairOfSerialized(codec, s);
    var part := lead + codec.name + "=" + value + trail;
    assert lead + CookiePair(Serialize(codec, s)) + trail == part;
    var parts := before + [part] + after;
    var header := Join(parts, ";");
    PairReads(lead, codec.name, value, trail);
    NoSemicolon(lead, codec.name, value, trail);
    assert forall p :: p in parts ==> p in before + after || p == part;
    SplitJoin(parts, ';');
    FirstCookieSkips(before, part, after, codec.name);
    assert header != "" by {
      assert Split("", ';') == [""];
    }
    assert CookieIn(codec, header) == Some(value);
    EncodeDecode(codec.encodeJson(s));
    EncodeDecode(codec.mac(payload));
  }

  lemma NoSemicolon(lead: string, name: string, value: string, trail: string)
    requires AllSpace(lead) && AllSpace(trail) && ';' !in name && ';' !in value
    ensures ';' !in lead + name + "=" + value + trail
  {
  }

  lemma PairOfSerialized(codec: Codec, s: Session)
    requires ';' !in codec.name && ';' !in CookieValue(codec, s)
    ensures CookiePair(Serialize(codec, s)) == codec.name + "=" + CookieValue(codec, s)
  {
    hide Flags, CookieValue, IndexOf;
    var pair := codec.name + "=" + CookieValue(codec, s);
    var attrs := [pair] + Flags(codec, false);
    FlagsNotEmpty(codec, false);
    assert attrs[1..] == Flags(codec, false);
    var rest := Join(attrs[1..], "; ");
    assert Serialize(codec, s) == pair + "; " + rest;
    assert pair + "; " + rest == pair + [';'] + (" " + rest);
    IndexOfFirst(pair, ';', " " + rest);
  }

  lemma FlagsNotEmpty(codec: Codec, expire: bool)
    ensures Flags(codec, expire) != []
  {
  }

  // ---- Authenticity and expiry ----

  /** An ideal MAC: a presented cookie whose tag is the MAC of its payload text carries a payload text that was
      serialised under the key. */
  ghost predicate NotForged(codec: Codec, issued: seq<Session>, header: string) {
    var raw := CookieIn(codec, header);
    raw.Some? && LastIndexOf(raw.value, '.') >= 1 ==>
      var split := LastIndexOf(raw.value, '.');
      Decode(raw.value[split + 1..]) == codec.mac(raw.value[..split]) ==>
        exists s :: s in issued && raw.value[..split] == PayloadText(codec, s)
  }

  datatype CookieEvent = Issue(session: Session) | Present(header: string, now: int)

  /** The sessions serialised by the first k events. */
  function Issued(events: seq<CookieEvent>, k: nat): seq<Session>
    requires k <= |events|
  {
    if k == 0 then []
    else Issued(events, k - 1) + if events[k - 1].Issue? then [events[k - 1].session] else []
  }

  lemma {:induction false} IssuedEarlier(events: seq<CookieEvent>, k: nat, s: Session)
    requires k <= |events| && s in Issued(events, k)
    ensures exists j :: 0 <= j < k && events[j] == Issue(s)
  {
    if events[k - 1] != Issue(s) {
      IssuedEarlier(events, k - 1, s);
    }
  }

  /** Over any run of issuing and presenting: a session that parsing returns was issued earlier in the run, token,
      subject and expiry alike. */
  lemma ParsedWasIssued(codec: Codec, events: seq<CookieEvent>, k: nat, s: Session)
    requires k < |events| && events[k].Present?
    requires NotForged(codec, Issued(events, k), events[k].header)
    requires forall t :: t in Issued(events, k) ==> JsonFaithful(codec, t)
    requires Parse(codec, events[k].header, events[k].now) == Some(s)
    ensures exists j :: 0 <= j < k && events[j] == Issue(s)
  {
    hide Encode, Decode, CookieIn, LastIndexOf;
    var raw := CookieIn(codec, events[k].header).value;
    var payload := raw[..LastIndexOf(raw, '.')];
    EncodeDecode(codec.mac(payload));
    var t :| t in Issued(events, k) && payload == PayloadText(codec, t);
    EncodeDecode(codec.encodeJson(t));
    IssuedEarlier(events, k, t);
  }

  /** A cookie that parses to nothing at one time parses to nothing at every later time; one that parses at a time
      parsed to the same session at every earlier time. */
  lemma NullStaysNull(codec: Codec, header: string, t1: int, t2: int)
    requires t1 <= t2
    ensures Parse(codec, header, t1) == None ==> Parse(codec, header, t2) == None
    ensures Parse(codec, header, t2).Some? ==> Parse(codec, header, t1) == Parse(codec, header, t2)
  {
  }
}
