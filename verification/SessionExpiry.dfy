/** Three stacked expiry margins on one clock: the cached access token, the cookie that carries it, the page's hint. */
module SessionExpiry {
  import opened Wrappers
  import opened SessionCookie
  import BrowserSession

  // ---- The backend: cached token and minting ----

  /** The token endpoint's answer: the token, the `exp` in seconds that its payload carries, and `expires_in` in
      seconds, 0 where it is missing. */
  datatype Grant = Grant(token: string, exp: Option<int>, expiresIn: nat)

  datatype Cache = Cache(granted: Option<Grant>, until: int)

  const EMPTY_CACHE := Cache(None, 0)

  function TtlMs(g: Grant): int {
    (if g.expiresIn == 0 then 60 else g.expiresIn) * 1000
  }

  /** Refresh 30 seconds early, but keep for 5 seconds at least. */
  function CacheUntil(start: int, g: Grant): int {
    start + Max(TtlMs(g) - 30_000, 5_000)
  }

  /** `fetchToken`: the token to use, if any, and the cache afterwards. */
  function Fetch(c: Cache, now: int, answer: Option<Grant>): (Option<Grant>, Cache) {
    if c.granted.Some? && now < c.until then (c.granted, c)
    else if answer.None? || answer.value.token == "" then (None, c)
    else (answer, Cache(answer, CacheUntil(now, answer.value)))
  }

  /** `tokenExpiryMs`: a zero `exp` counts as missing. */
  function TokenExpiryMs(g: Grant): Option<int> {
    if g.exp.Some? && g.exp.value != 0 then Some(g.exp.value * 1000) else None
  }

  function Mint(g: Grant, sub: string, now: int): Session {
    Session(g.token, sub, Some(TokenExpiryMs(g).UnwrapOr(now + 60_000)))
  }

  /** The session is that subject's, made at that time from that grant: it carries just the granted token, to the end
      that the token names, or for a minute where it names none. */
  ghost predicate Carries(s: Session, g: Grant, sub: string, now: int) {
    && s.accessToken == g.token && s.sub == sub
    && (g.exp.Some? && g.exp.value != 0 ==> s.expiresAt == Some(g.exp.value * 1000))
    && (g.exp == None || g.exp == Some(0) ==> s.expiresAt == Some(now + 60_000))
  }

  /** The backend's module-level token cache. */
  class Backend {
    var granted: Option<Grant>
    var until: int

    function Value(): Cache
      reads this
    {
      Cache(granted, until)
    }

    constructor ()
      ensures Value() == EMPTY_CACHE
    {
      granted, until := None, 0;
    }

    method FetchToken(now: int, answer: Option<Grant>) returns (token: Option<Grant>)
      modifies this
      ensures (token, Value()) == Fetch(old(Value()), now, answer)
      ensures token.Some? ==> token == granted && now < until
      ensures old(granted).Some? && now < old(until) ==> token == old(granted) && Value() == old(Value())
      ensures !(old(granted).Some? && now < old(until)) ==>
                if answer.Some? && answer.value.token != "" then
                  var seconds := if answer.value.expiresIn == 0 then 60 else answer.value.expiresIn;
                  token == granted == answer && until == Max(now + 1000 * seconds - 30_000, now + 5_000)
                else token == None && Value() == old(Value())
    {
      if granted.Some? && now < until {
        return granted;
      }
      if answer.None? || answer.value.token == "" {
        return None;
      }
      granted := answer;
      until := now + Max(TtlMs(answer.value) - 30_000, 5_000);
      return granted;
    }

    /** The minting part of `POST /api/session`, after the identity is verified. */
    method CreateSession(now: int, sub: string, answer: Option<Grant>) returns (minted: Option<Session>)
      modifies this
      ensures Value() == Fetch(old(Value()), now, answer).1
      ensures minted == Minted(old(Value()), now, sub, answer)
      ensures minted.Some? <==> granted.Some? && now < until
      ensures minted.Some? ==> Carries(minted.value, granted.value, sub, now)
    {
      var token := FetchToken(now, answer);
      if token.None? {
        return None;
      }
      minted := Some(Mint(token.value, sub, now));
    }
  }

  function Minted(c: Cache, now: int, sub: string, answer: Option<Grant>): Option<Session> {
    match Fetch(c, now, answer).0
    case None => None
    case Some(g) => Some(Mint(g, sub, now))
  }

  // ---- Runs of the whole system ----

  /** One page's cookie jar and hint, and the backend's cache. Deliveries are instantaneous. */
  datatype World = World(cache: Cache, jar: Option<Session>, hint: int)

  const START := World(EMPTY_CACHE, None, 0)

  /** `kept` tells whether the browser keeps the cookie of a response; past about 4 KB it drops it without a word. */
  datatype Event =
    | Ensure(at: int, force: bool, sub: string, answer: Option<Grant>, kept: bool)
    | Other(at: int, answer: Option<Grant>)      // another page's session is created from the same cache
    | NewProvider(at: int)                       // the page's user changes
    | End(at: int, reached: bool)                // the page ends its session
    | Write(at: int)

  /** The page asks the backend: no hint, or a forced refresh. */
  predicate Asks(w: World, e: Event) {
    e.Ensure? && (e.force || e.at >= w.hint)
  }

  /** The session that this event mints for the page. */
  function MintedBy(w: World, e: Event): Option<Session> {
    if Asks(w, e) then Minted(w.cache, e.at, e.sub, e.answer) else None
  }

  function Step(w: World, e: Event): World {
    match e
    case Ensure(at, _, sub, answer, kept) =>
      if !Asks(w, e) then w
      else
        var minted := Minted(w.cache, at, sub, answer);
        World(Fetch(w.cache, at, answer).1,
              if minted.Some? && kept then minted else w.jar,
              if minted.Some? then BrowserSession.HintUntil(at, minted.value.expiresAt.UnwrapOr(0)) else w.hint)
    case Other(at, answer) => w.(cache := Fetch(w.cache, at, answer).1)
    case NewProvider(_) => w.(hint := 0)
    case End(_, reached) => w.(hint := 0, jar := if reached then None else w.jar)
    case Write(_) => w
  }

  function After(es: seq<Event>): World {
    if es == [] then START else Step(After(es[..|es| - 1]), es[|es| - 1])
  }

  // ---- Whose session the page holds ----

  function AnswerOf(e: Event): Option<Grant> {
    match e
    case Ensure(_, _, _, answer, _) => answer
    case Other(_, answer) => answer
    case _ => None
  }

  /** The token endpoint gave this out at some point of the run. */
  ghost predicate Granted(es: seq<Event>, g: Grant) {
    g.token != "" && exists j :: 0 <= j < |es| && AnswerOf(es[j]) == Some(g)
  }

  /** The k-th event is the page asking for this subject's session, and that is the session it got. */
  ghost predicate MintedAt(es: seq<Event>, k: nat, s: Session) {
    && k < |es| && es[k].Ensure? && (es[k].force || es[k].at >= After(es[..k]).hint)
    && MintedBy(After(es[..k]), es[k]) == Some(s)
    && exists g :: Granted(es[..k + 1], g) && Carries(s, g, es[k].sub, es[k].at)
  }

  /** The jar has nothing but the session of the last mint that the browser kept, if no end reached the server since. */
  ghost predicate JarFrom(es: seq<Event>, k: nat, s: Session) {
    && MintedAt(es, k, s) && es[k].kept
    && forall i :: k < i < |es| ==>
         && !(es[i].End? && es[i].reached)
         && (es[i].Ensure? && es[i].kept ==> MintedBy(After(es[..i]), es[i]) == None)
  }

  lemma {:induction false} CacheIsGranted(es: seq<Event>)
    ensures After(es).cache.granted.Some? ==> Granted(es, After(es).cache.granted.value)
  {
    if es != [] {
      var n := |es| - 1;
      CacheIsGranted(es[..n]);
      if After(es).cache.granted == After(es[..n]).cache.granted != None {
        var j :| 0 <= j < n && AnswerOf(es[..n][j]) == After(es).cache.granted;
        assert es[j] == es[..n][j];
      } else if After(es).cache.granted.Some? {
        assert AnswerOf(es[n]) == After(es).cache.granted;
      }
    }
  }

  lemma MintIsOwn(es: seq<Event>)
    requires es != [] && MintedBy(After(es[..|es| - 1]), es[|es| - 1]).Some?
    ensures MintedAt(es, |es| - 1, MintedBy(After(es[..|es| - 1]), es[|es| - 1]).value)
  {
    CacheIsGranted(es);
    assert es[..|es|] == es;
    var n := |es| - 1;
    var g := After(es).cache.granted.value;
    assert Carries(MintedBy(After(es[..n]), es[n]).value, g, es[n].sub, es[n].at);
  }

  lemma SameBeginnings(es: seq<Event>, n: nat, k: nat)
    requires k <= n <= |es|
    ensures es[..n][..k] == es[..k]
  {
  }

  lemma JarStays(es: seq<Event>, k: nat, s: Session)
    requires es != [] && JarFrom(es[..|es| - 1], k, s)
    requires !(es[|es| - 1].End? && es[|es| - 1].reached)
    requires es[|es| - 1].Ensure? && es[|es| - 1].kept ==> MintedBy(After(es[..|es| - 1]), es[|es| - 1]) == None
    ensures JarFrom(es, k, s)
  {
    hide MintedBy, After, Granted, Carries;
    var n := |es| - 1;
    SameBeginnings(es, n, k);
    SameBeginnings(es, n, k + 1);
    forall i | k < i < |es| ensures !(es[i].End? && es[i].reached)
      ensures es[i].Ensure? && es[i].kept ==> MintedBy(After(es[..i]), es[i]) == None
    {
      SameBeginnings(es, n, Min(i, n));
      assert i < n ==> es[..n][i] == es[i];
    }
  }

  /** Over every run, the cookie in the page's jar is the session of the very subject whose `ensureSession` minted it,
      carrying a token that was granted by then. */
  lemma {:induction false} JarIsOwn(es: seq<Event>)
    ensures After(es).jar.Some? ==> exists k: nat :: JarFrom(es, k, After(es).jar.value)
  {
    hide MintedAt, Granted, Carries;
    if es != [] {
      var n := |es| - 1;
      JarIsOwn(es[..n]);
      var e, w := es[n], After(es[..n]);
      if e.Ensure? && e.kept && MintedBy(w, e).Some? {
        MintIsOwn(es);
        assert JarFrom(es, n, After(es).jar.value);
      } else if After(es).jar.Some? {
        var k: nat :| JarFrom(es[..n], k, w.jar.value);
        JarStays(es, k, w.jar.value);
      }
    }
  }

  /** The page's hint stands from the k-th event: 30 seconds short of the session it got there, 5 seconds at least. */
  ghost predicate HintFrom(es: seq<Event>, k: nat, hint: int) {
    && k < |es| && MintedBy(After(es[..k]), es[k]).Some?
    && var x := MintedBy(After(es[..k]), es[k]).value.expiresAt.UnwrapOr(0);
    && hint == (if x == 0 then es[k].at + 30_000 else Max(x - 30_000, es[k].at + 5_000))
    && forall i :: k < i < |es| ==>
         !es[i].NewProvider? && !es[i].End? && MintedBy(After(es[..i]), es[i]) == None
  }

  lemma HintStays(es: seq<Event>, k: nat, hint: int)
    requires es != [] && HintFrom(es[..|es| - 1], k, hint)
    requires !es[|es| - 1].NewProvider? && !es[|es| - 1].End?
    requires MintedBy(After(es[..|es| - 1]), es[|es| - 1]) == None
    ensures HintFrom(es, k, hint)
  {
    hide MintedBy, After;
    var n := |es| - 1;
    SameBeginnings(es, n, k);
    forall i | k < i < |es|
      ensures !es[i].NewProvider? && !es[i].End? && MintedBy(After(es[..i]), es[i]) == None
    {
      SameBeginnings(es, n, Min(i, n));
      assert i < n ==> es[..n][i] == es[i];
    }
  }

  /** A hint other than zero was set by the last mint, with no new user and no end since. */
  lemma {:induction false} HintIsEarned(es: seq<Event>)
    ensures After(es).hint != 0 ==> exists k: nat :: HintFrom(es, k, After(es).hint)
  {
    if es != [] {
      var n := |es| - 1;
      HintIsEarned(es[..n]);
      var e, w := es[n], After(es[..n]);
      if MintedBy(w, e).Some? {
        assert HintFrom(es, n, After(es).hint);
      } else if After(es).hint != 0 {
        hide HintFrom;
        var k: nat :| HintFrom(es[..n], k, w.hint);
        HintStays(es, k, w.hint);
      }
    }
  }

  /** What the token endpoint says at time `at`: the token lives for at least `life` milliseconds, and `expires_in`
      does not run past the token's own end by more than `slack`. */
  ghost predicate Honest(answer: Option<Grant>, at: int, life: nat, slack: nat) {
    answer.Some? && TokenExpiryMs(answer.value).Some? ==>
      var x := TokenExpiryMs(answer.value).value;
      x >= at + life && x + slack >= at + TtlMs(answer.value)
  }

  ghost predicate IsRun(es: seq<Event>, life: nat, slack: nat) {
    && (forall k :: 0 <= k < |es| ==> es[k].at >= 0)
    && (forall j, k :: 0 <= j < k < |es| ==> es[j].at <= es[k].at)
    && (forall k :: 0 <= k < |es| && es[k].Ensure? ==> Honest(es[k].answer, es[k].at, life, slack))
    && (forall k :: 0 <= k < |es| && es[k].Other? ==> Honest(es[k].answer, es[k].at, life, slack))
  }

  ghost predicate AllKept(es: seq<Event>) {
    forall k :: 0 <= k < |es| && es[k].Ensure? ==> es[k].kept
  }

  /** Every cookie minted for the page is good at that very moment. */
  ghost predicate MintsGood(es: seq<Event>) {
    forall k :: 0 <= k < |es| ==>
      var s := MintedBy(After(es[..k]), es[k]);
      s.Some? ==> !Expired(s.value, es[k].at)
  }

  /** A write that the page sends on the strength of its hint carries a cookie that has not expired. */
  ghost predicate WriteGood(w: World, at: int) {
    at < w.hint ==> w.jar.Some? && !Expired(w.jar.value, at)
  }

  ghost predicate WritesGood(es: seq<Event>) {
    forall k :: 0 <= k < |es| && es[k].Write? ==> WriteGood(After(es[..k]), es[k].at)
  }

  /** The life that a session is sure to have left when minted. */
  function Left(life: nat, slack: nat): int {
    Min(life - 4_999, 30_001 - slack)
  }

  ghost predicate CacheInv(c: Cache, life: nat, slack: nat) {
    c.granted.Some? && TokenExpiryMs(c.granted.value).Some? ==>
      TokenExpiryMs(c.granted.value).value >= c.until - 1 + Left(life, slack)
  }

  lemma FetchKeepsCache(c: Cache, now: int, answer: Option<Grant>, life: nat, slack: nat)
    requires CacheInv(c, life, slack) && Honest(answer, now, life, slack)
    ensures CacheInv(Fetch(c, now, answer).1, life, slack)
  {
  }

  /** From the cache or fresh: what is left of the token's life, unless it names no end and the cookie gets a minute. */
  lemma MintedLife(c: Cache, now: int, sub: string, answer: Option<Grant>, life: nat, slack: nat)
    requires CacheInv(c, life, slack) && Honest(answer, now, life, slack)
    requires Minted(c, now, sub, answer).Some?
    ensures var s := Minted(c, now, sub, answer).value;
      s.expiresAt.Some? && s.expiresAt.value >= now + Min(Left(life, slack), 60_000)
  {
  }

  /** A standing hint ends 30 seconds before the cookie, or 5 seconds after a minting that left the cookie its sure
      life. */
  ghost predicate HintInv(w: World, life: nat, slack: nat) {
    w.hint > 0 ==>
      && w.jar.Some? && w.jar.value.expiresAt.Some?
      && var x := w.jar.value.expiresAt.value;
         w.hint <= x - 30_000 || w.hint <= x - Left(life, slack) + 5_000
  }

  lemma StepKeeps(w: World, e: Event, life: nat, slack: nat)
    requires e.at >= 0 && CacheInv(w.cache, life, slack)
    requires e.Ensure? || e.Other? ==> Honest(e.answer, e.at, life, slack)
    requires Left(life, slack) > 0
    ensures CacheInv(Step(w, e).cache, life, slack)
    ensures HintInv(w, life, slack) && (e.Ensure? ==> e.kept) ==> HintInv(Step(w, e), life, slack)
  {
    if e.Ensure? || e.Other? {
      FetchKeepsCache(w.cache, e.at, e.answer, life, slack);
      if MintedBy(w, e).Some? {
        MintedLife(w.cache, e.at, e.sub, e.answer, life, slack);
      }
    }
  }

  lemma {:induction false} RunKeeps(es: seq<Event>, k: nat, life: nat, slack: nat)
    requires IsRun(es, life, slack) && k <= |es| && Left(life, slack) > 0
    ensures CacheInv(After(es[..k]).cache, life, slack)
    ensures AllKept(es) ==> HintInv(After(es[..k]), life, slack)
    decreases k
  {
    if k > 0 {
      RunKeeps(es, k - 1, life, slack);
      assert es[..k][..k - 1] == es[..k - 1];
      StepKeeps(After(es[..k - 1]), es[k - 1], life, slack);
    }
  }

  lemma MintsAreGood(es: seq<Event>, life: nat, slack: nat)
    requires IsRun(es, life, slack) && life >= 10_000 && slack <= 25_000
    ensures MintsGood(es)
  {
    forall k | 0 <= k < |es| && MintedBy(After(es[..k]), es[k]).Some?
      ensures !Expired(MintedBy(After(es[..k]), es[k]).value, es[k].at)
    {
      RunKeeps(es, k, life, slack);
      MintedLife(After(es[..k]).cache, es[k].at, es[k].sub, es[k].answer, life, slack);
    }
  }

  lemma WritesAreGood(es: seq<Event>, life: nat, slack: nat)
    requires IsRun(es, life, slack) && AllKept(es) && life >= 14_999 && slack <= 20_001
    ensures WritesGood(es)
  {
    forall k | 0 <= k < |es| && es[k].Write? ensures WriteGood(After(es[..k]), es[k].at) {
      RunKeeps(es, k, life, slack);
    }
  }

  // ---- The bounds are exact ----

  /** A run that uses one token from the cache at its last moment: fetched at `start`, minted again at `mint`. */
  function LateMint(start: int, mint: int, sub: string, g: Grant): seq<Event> {
    [Other(start, Some(g)), Ensure(mint, false, sub, None, true), Write(mint + 4_999)]
  }

  lemma LateMintStates(start: int, mint: int, sub: string, g: Grant)
    requires 0 <= start <= mint < CacheUntil(start, g) && g.token != ""
    ensures var es, c := LateMint(start, mint, sub, g), Cache(Some(g), CacheUntil(start, g));
      && After(es[..1]) == World(c, None, 0)
      && After(es[..2]) == Step(World(c, None, 0), es[1])
      && MintedBy(After(es[..1]), es[1]) == Some(Mint(g, sub, mint))
  {
  }

  /** A grant, with its times, that makes minting fail: too short a life, or an `expires_in` that runs too far past
      it. */
  lemma BadMint(life: nat, slack: nat, sub: string) returns (es: seq<Event>)
    requires life < 10_000 || slack > 25_000
    ensures IsRun(es, life, slack) && !MintsGood(es)
  {
    var exp := if life < 10_000 then 10 else life + 31;
    var g := Grant("t", Some(exp), if life < 10_000 then 1 else exp + 25);
    var mint := CacheUntil(1, g) - 1;
    es := LateMint(1, mint, sub, g);
    LateMintStates(1, mint, sub, g);
    assert Expired(MintedBy(After(es[..1]), es[1]).value, mint);
  }

  lemma BadWrite(life: nat, slack: nat, sub: string) returns (es: seq<Event>)
    requires life < 14_999 || slack > 20_001
    ensures IsRun(es, life, slack) && AllKept(es) && !WritesGood(es)
  {
    var exp := if life < 14_999 then 15 else life + 31;
    var g := Grant("t", Some(exp), if life < 14_999 then 1 else exp + 20);
    var mint := CacheUntil(2, g) - 1;
    es := LateMint(2, mint, sub, g);
    LateMintStates(2, mint, sub, g);
    assert !WriteGood(After(es[..2]), es[2].at);
  }

  /** Every minted cookie is good when minted, in every run, exactly when tokens live for 10 seconds at least and
      `expires_in` oversteps by 25 seconds at most. */
  lemma MintBoundExact(life: nat, slack: nat)
    ensures life >= 10_000 && slack <= 25_000 <==> forall es :: IsRun(es, life, slack) ==> MintsGood(es)
  {
    if life >= 10_000 && slack <= 25_000 {
      forall es | IsRun(es, life, slack) ensures MintsGood(es) {
        MintsAreGood(es, life, slack);
      }
    } else {
      var es := BadMint(life, slack, "u");
    }
  }

  /** Every write under a standing hint carries a good cookie, in every run whose cookies the browser keeps, exactly
      when tokens live for 15 seconds (less the last millisecond) and `expires_in` oversteps by less than 20.002
      seconds. */
  lemma WriteBoundExact(life: nat, slack: nat)
    ensures life >= 14_999 && slack <= 20_001 <==> forall es :: IsRun(es, life, slack) && AllKept(es) ==> WritesGood(es)
  {
    if life >= 14_999 && slack <= 20_001 {
      forall es | IsRun(es, life, slack) && AllKept(es) ensures WritesGood(es) {
        WritesAreGood(es, life, slack);
      }
    } else {
      var es := BadWrite(life, slack, "u");
    }
  }

  /** However long tokens live: one cookie that the browser drops, and the page writes under its hint with none. */
  lemma DroppedCookieFailsWrite(life: nat, slack: nat, sub: string) returns (es: seq<Event>)
    ensures IsRun(es, life, slack) && !WritesGood(es)
  {
    var g := Grant("t", Some(life + 1), 1);
    es := [Ensure(0, false, sub, Some(g), false), Write(1)];
    assert es[..0] == [] && es[..1][..0] == [];
    assert After(es[..1]) == Step(START, es[0]);
    assert !WriteGood(After(es[..1]), 1);
    assert es[1].Write?;
  }

  /** What this means at the server: above the bound, the header that the browser sends with such a write parses to the
      session in its jar. */
  lemma HintedWriteIsAccepted(codec: Codec, es: seq<Event>, k: nat, life: nat, slack: nat)
    requires IsRun(es, life, slack) && AllKept(es) && life >= 15_000 && slack <= 20_000
    requires k < |es| && es[k].Write? && es[k].at < After(es[..k]).hint
    requires GoodName(codec.name) && UriFaithful(codec)
    requires After(es[..k]).jar.Some? ==>
               var s := After(es[..k]).jar.value; JsonFaithful(codec, s) && s.accessToken != "" && s.sub != ""
    ensures var jar := After(es[..k]).jar;
      jar.Some? && Parse(codec, CookiePair(Serialize(codec, jar.value)), es[k].at) == jar
  {
    hide Parse, Serialize, CookiePair, After;
    WritesAreGood(es, life, slack);
    assert WriteGood(After(es[..k]), es[k].at);
    var s := After(es[..k]).jar.value;
    CookieRoundTrip(codec, s, [], "", "", [], es[k].at);
    var pair := CookiePair(Serialize(codec, s));
    assert "" + pair + "" == pair;
    assert [] + ["" + pair + ""] + [] == [pair];
    assert Join([pair], ";") == pair;
  }
}
