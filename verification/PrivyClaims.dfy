/** The claim checks on a Privy access token whose signature is good. */
module PrivyClaims {
  import opened Wrappers
  import opened Js

  const PRIVY_ISSUER := "privy.io"
  const CLOCK_SKEW_SEC := 30

  /** A fault is an exception of another kind than the verifier's own. */
  datatype Refusal = Issuer | Audience | Expired | NotYetValid | NoSubject | Fault

  /** `expiresAt` in milliseconds. */
  datatype Identity = Identity(sub: string, sid: Option<string>, expiresAt: real)

  function AudienceMatches(aud: Json, appId: string): bool {
    if aud.Arr? then exists k :: 0 <= k < |aud.xs| && aud.xs[k] == Str(appId) else aud == Str(appId)
  }

  function NowSec(nowMs: int): int {
    nowMs / 1000
  }

  /** `text` is the language's conversion to a string, of what is none. Reading a field of `null` throws, and so does
      converting a subject or session id without text. */
  function CheckClaims(claims: Json, appId: string, text: Json -> string, nowMs: int): Result<Identity, Refusal> {
    var (exp, nbf, now) := (Field(claims, "exp"), Field(claims, "nbf"), NowSec(nowMs) as real);
    var (sub, sid) := (Field(claims, "sub"), Field(claims, "sid"));
    if claims.Null? || claims.Undefined? then Err(Fault)
    else if Field(claims, "iss") != Str(PRIVY_ISSUER) then Err(Issuer)
    else if !AudienceMatches(Field(claims, "aud"), appId) then Err(Audience)
    else if !exp.Num? || now - CLOCK_SKEW_SEC as real >= exp.n then Err(Expired)
    else if nbf.Num? && now + CLOCK_SKEW_SEC as real < nbf.n then Err(NotYetValid)
    else if !Truthy(sub) then Err(NoSubject)
    else if !HasText(sub) || !HasText(sid) then Err(Fault)
    else Ok(Identity(AsText(sub, text), if Truthy(sid) then Some(AsText(sid, text)) else None, exp.n * 1000.0))
  }

  /** Issued by Privy, for this app, for somebody: the conditions that do not depend on the clock. */
  ghost predicate ForThisApp(claims: Json, appId: string) {
    && Field(claims, "iss") == Str("privy.io")
    && (Field(claims, "aud") == Str(appId)
        || (Field(claims, "aud").Arr? && Str(appId) in Field(claims, "aud").xs))
    && Truthy(Field(claims, "sub")) && HasText(Field(claims, "sub")) && HasText(Field(claims, "sid"))
  }

  /** Who the claims speak of, and until when. */
  ghost predicate Names(claims: Json, text: Json -> string, id: Identity) {
    var (sub, sid, exp) := (Field(claims, "sub"), Field(claims, "sid"), Field(claims, "exp"));
    && (sub.Str? ==> id.sub == sub.s) && (!sub.Str? ==> id.sub == text(sub))
    && (!Truthy(sid) ==> id.sid == None)
    && (Truthy(sid) ==> id.sid == Some(if sid.Str? then sid.s else text(sid)))
    && exp.Num? && id.expiresAt == 1000.0 * exp.n
  }

  ghost predicate NotOver(exp: Json, nowMs: int) {
    exp.Num? && nowMs < (Ceil(exp.n) + 30) * 1000
  }

  ghost predicate Begun(nbf: Json, nowMs: int) {
    nbf.Num? ==> (Ceil(nbf.n) - 30) * 1000 <= nowMs
  }

  /** The next whole number at or above. */
  function Ceil(x: real): (n: int)
    ensures (n - 1) as real < x <= n as real
  {
    -((-x).Floor)
  }

  lemma WholeBelow(n: int, x: real)
    ensures (n as real) < x <==> n < Ceil(x)
    ensures x <= n as real <==> Ceil(x) <= n
  {
  }

  lemma ClockExact(exp: Json, nbf: Json, nowMs: int)
    ensures NotOver(exp, nowMs) <==> exp.Num? && !((NowSec(nowMs) as real) - 30.0 >= exp.n)
    ensures Begun(nbf, nowMs) <==> !(nbf.Num? && (NowSec(nowMs) as real) + 30.0 < nbf.n)
  {
    var now := NowSec(nowMs);
    if exp.Num? {
      WholeBelow(now - 30, exp.n);
      assert (now as real) - 30.0 == (now - 30) as real;
      assert now - 30 < Ceil(exp.n) <==> nowMs < (Ceil(exp.n) + 30) * 1000;
    }
    if nbf.Num? {
      WholeBelow(now + 30, nbf.n);
      assert (now as real) + 30.0 == (now + 30) as real;
      assert Ceil(nbf.n) <= now + 30 <==> (Ceil(nbf.n) - 30) * 1000 <= nowMs;
    }
  }

  /** A token is honoured exactly if it is for this app, names an end, and the clock stands, to the millisecond,
      before 30 seconds past that end and, if it names a beginning, not before 30 seconds ahead of it. Fractional
      seconds are rounded up. The identity is the one that the token names, with its own end. */
  lemma HonouredExactly(claims: Json, appId: string, text: Json -> string, nowMs: int, id: Identity)
    ensures CheckClaims(claims, appId, text, nowMs) == Ok(id) <==>
      && ForThisApp(claims, appId) && NotOver(Field(claims, "exp"), nowMs) && Begun(Field(claims, "nbf"), nowMs)
      && Names(claims, text, id)
  {
    ClockExact(Field(claims, "exp"), Field(claims, "nbf"), nowMs);
    hide NotOver, Begun, NowSec, HasText;
  }

  /** Which refusal a token gets: the first of these that applies, in this order; a fault without claims, or where
      nothing but the printing of its subject or session id fails. */
  lemma RefusalExact(claims: Json, appId: string, text: Json -> string, nowMs: int)
    ensures var answer := CheckClaims(claims, appId, text, nowMs);
      var (iss, aud, sub) := (Field(claims, "iss"), Field(claims, "aud"), Field(claims, "sub"));
      if claims == Null || claims == Undefined then answer == Err(Fault)
      else if iss != Str("privy.io") then answer == Err(Issuer)
      else if aud != Str(appId) && !(aud.Arr? && Str(appId) in aud.xs) then answer == Err(Audience)
      else if !NotOver(Field(claims, "exp"), nowMs) then answer == Err(Expired)
      else if !Begun(Field(claims, "nbf"), nowMs) then answer == Err(NotYetValid)
      else if !Truthy(sub) then answer == Err(NoSubject)
      else answer.Ok? || answer == Err(Fault)
  {
    ClockExact(Field(claims, "exp"), Field(claims, "nbf"), nowMs);
    hide NotOver, Begun, NowSec, HasText;
  }

  /** Whatever the claims: without a numeric `exp` no token is honoured, and the times at which one is form an
      interval with one and the same identity. */
  lemma HonouredInterval(claims: Json, appId: string, text: Json -> string, t1: int, t2: int, t3: int)
    requires t1 <= t2 <= t3
    requires CheckClaims(claims, appId, text, t1).Ok? && CheckClaims(claims, appId, text, t3).Ok?
    ensures Field(claims, "exp").Num?
    ensures CheckClaims(claims, appId, text, t2) == CheckClaims(claims, appId, text, t1)
  {
    assert NowSec(t1) <= NowSec(t2) <= NowSec(t3);
  }
}
