/** The page's session state: an expiry hint, one creation in flight at a time, and the provider of the user's
    identity. */
module BrowserSession {
  import opened Wrappers

  type User = string

  /** A creation under way: whose it is, and how often the session had been ended when it began. */
  datatype Creation = Creation(user: User, ends: nat)

  /** The module's variables `privyToken`, `expiresAt` and `inFlight`, and what stands behind them: every creation
      under way, the number of creations that ended but whose `finally` has not run yet, the creation that the current
      hint was earned by, and how often the session has been ended. A provider is known by the user it identifies. */
  datatype State = State(provider: Option<User>, expiresAt: int, inFlight: bool, running: seq<Creation>, ended: nat,
                         owner: Option<Creation>, ends: nat)

  const INITIAL := State(None, 0, false, [], 0, None, 0)

  /** One stretch between awaits. `Respond` ends the k-th creation under way: with the expiry that the backend
      reported, or None where it failed anywhere on its way; nothing is read or written at its other awaits. */
  datatype Event =
    | SetProvider(provider: Option<User>)
    | Ensure(now: int, force: bool)
    | Respond(now: int, k: nat, answer: Option<int>)
    | Finally
    | End

  /** The hint after a response: the cookie's remaining life less 30 seconds, and 5 seconds at least. */
  function HintUntil(now: int, expiresAt: int): (until: int)
    ensures until >= now + 5_000
    ensures until == if expiresAt == 0 then now + 30_000 else Max(expiresAt - 30_000, now + 5_000)
  {
    now + Max((if expiresAt != 0 then expiresAt - now else 60_000) - 30_000, 5_000)
  }

  predicate Enabled(s: State, e: Event) {
    match e
    case Respond(_, k, _) => k < |s.running|
    case Finally => s.ended > 0
    case _ => true
  }

  function Step(s: State, e: Event): State
    requires Enabled(s, e)
  {
    match e
    case SetProvider(p) => s.(provider := p, expiresAt := 0)
    case Ensure(now, force) =>
      if (!force && now < s.expiresAt) || s.inFlight then s
      else
        (match s.provider
         case None => s.(inFlight := true, ended := s.ended + 1)
         case Some(u) => s.(inFlight := true, running := s.running + [Creation(u, s.ends)]))
    case Respond(now, k, answer) =>
      var s' := s.(running := s.running[..k] + s.running[k + 1..], ended := s.ended + 1);
      (match answer
       case None => s'
       case Some(x) => s'.(expiresAt := HintUntil(now, x), owner := Some(s.running[k])))
    case Finally => s.(inFlight := false, ended := s.ended - 1)
    case End => s.(expiresAt := 0, ends := s.ends + 1)
  }

  ghost predicate IsRun(es: seq<Event>, ss: seq<State>) {
    && |ss| == |es| + 1 && ss[0] == INITIAL
    && (forall k :: 0 <= k < |es| ==> Enabled(ss[k], es[k]) && ss[k + 1] == Step(ss[k], es[k]))
    && (forall k :: 0 <= k < |es| && es[k].Respond? ==> es[k].now >= 0)
  }

  /** Never two creations at once, and `inFlight` says exactly whether there is one that is not quite over. */
  lemma {:induction false} SingleFlight(es: seq<Event>, ss: seq<State>, k: nat)
    requires IsRun(es, ss) && k < |ss|
    ensures |ss[k].running| + ss[k].ended == if ss[k].inFlight then 1 else 0
    decreases k
  {
    if k > 0 {
      SingleFlight(es, ss, k - 1);
    }
  }

  /** A creation begins exactly at a call for a user, forced or without a standing hint, while none is in flight; it is
      that user's. */
  lemma CreationBeginsExactly(es: seq<Event>, ss: seq<State>, k: nat)
    requires IsRun(es, ss) && k < |es|
    ensures |ss[k + 1].running| > |ss[k].running| <==>
      && es[k].Ensure? && ss[k].provider.Some? && (es[k].force || es[k].now >= ss[k].expiresAt)
      && |ss[k].running| + ss[k].ended == 0
    ensures |ss[k + 1].running| > |ss[k].running| ==>
              ss[k + 1].running == [Creation(ss[k].provider.value, ss[k].ends)]
  {
    SingleFlight(es, ss, k);
    assert ss[k + 1] == Step(ss[k], es[k]);
  }

  /** A forced call with someone logged in is never lost: right after it a creation is under way, or the one in flight
      is still to finish. */
  lemma ForcedCallIsServed(es: seq<Event>, ss: seq<State>, k: nat)
    requires IsRun(es, ss) && k < |es| && es[k].Ensure? && es[k].force && ss[k].provider.Some?
    ensures |ss[k + 1].running| == 1 || (ss[k].ended == ss[k + 1].ended == 1 && ss[k + 1].running == [])
    ensures ss[k].running == [] && ss[k].ended == 0 ==>
              ss[k + 1].running == [Creation(ss[k].provider.value, ss[k].ends)]
  {
    SingleFlight(es, ss, k);
    assert ss[k + 1] == Step(ss[k], es[k]);
  }

  /** A hint that is still standing was earned by the user whom the page now serves. */
  ghost predicate HintIsOwn(s: State) {
    s.expiresAt > 0 ==> s.owner.Some? && s.provider == Some(s.owner.value.user)
  }

  /** At every successful response the provider identifies the same user as when that creation began. */
  ghost predicate Undisturbed(es: seq<Event>, ss: seq<State>)
    requires IsRun(es, ss)
  {
    forall k :: 0 <= k < |es| && es[k].Respond? && es[k].answer.Some? ==>
      ss[k].provider == Some(ss[k].running[es[k].k].user)
  }

  lemma {:induction false} UndisturbedKeepsHints(es: seq<Event>, ss: seq<State>, k: nat)
    requires IsRun(es, ss) && Undisturbed(es, ss) && k < |ss|
    ensures HintIsOwn(ss[k])
    decreases k
  {
    if k > 0 {
      UndisturbedKeepsHints(es, ss, k - 1);
    }
  }

  /** No user, and nobody after a logout, is left with another user's standing hint: this holds throughout a run
      exactly when no creation succeeds under another provider than the one it began with. */
  lemma NoInheritanceExactly(es: seq<Event>, ss: seq<State>)
    requires IsRun(es, ss)
    ensures (forall k :: 0 <= k < |ss| ==> HintIsOwn(ss[k])) <==> Undisturbed(es, ss)
  {
    if Undisturbed(es, ss) {
      forall k | 0 <= k < |ss| ensures HintIsOwn(ss[k]) {
        UndisturbedKeepsHints(es, ss, k);
      }
    }
    if forall k :: 0 <= k < |ss| ==> HintIsOwn(ss[k]) {
      forall k | 0 <= k < |es| && es[k].Respond? && es[k].answer.Some?
        ensures ss[k].provider == Some(ss[k].running[es[k].k].user)
      {
        assert HintIsOwn(ss[k + 1]);
        assert ss[k + 1] == Step(ss[k], es[k]);
      }
    }
  }

  /** The guard a caller can use: change the provider to another user only while no creation is in flight. */
  lemma {:induction false} QuietChangesSuffice(es: seq<Event>, ss: seq<State>, k: nat)
    requires IsRun(es, ss) && k < |ss|
    requires forall i :: 0 <= i < |es| && es[i].SetProvider? && ss[i].inFlight ==> es[i].provider == ss[i].provider
    ensures forall c :: c in ss[k].running ==> ss[k].provider == Some(c.user)
    decreases k
  {
    if k > 0 {
      QuietChangesSuffice(es, ss, k - 1);
      SingleFlight(es, ss, k - 1);
      assert ss[k] == Step(ss[k - 1], es[k - 1]);
    }
  }

  lemma QuietChangesNeverInherit(es: seq<Event>, ss: seq<State>)
    requires IsRun(es, ss)
    requires forall i :: 0 <= i < |es| && es[i].SetProvider? && ss[i].inFlight ==> es[i].provider == ss[i].provider
    ensures forall k :: 0 <= k < |ss| ==> HintIsOwn(ss[k])
  {
    forall k | 0 <= k < |es| && es[k].Respond? && es[k].answer.Some?
      ensures ss[k].provider == Some(ss[k].running[es[k].k].user)
    {
      QuietChangesSuffice(es, ss, k);
      assert ss[k].running[es[k].k] in ss[k].running;
    }
    NoInheritanceExactly(es, ss);
  }

  /** Without that guard the promise fails: the provider changes while a creation for the first user is under way, and
      the next user, or nobody after a logout, is left with a standing hint on the first user's session. Ensuring a
      session then starts nothing. */
  lemma NextUserInherits(first: User, next: Option<User>, now: nat, expiry: int)
    requires next != Some(first)
    ensures var es := [SetProvider(Some(first)), Ensure(now, false), SetProvider(next), Respond(now, 0, Some(expiry))];
      exists ss: seq<State> :: IsRun(es, ss) && !HintIsOwn(ss[4]) && ss[4].owner == Some(Creation(first, 0))
        && ss[4].provider == next && Step(ss[4], Ensure(now + 4_999, false)) == ss[4]
  {
    var es := [SetProvider(Some(first)), Ensure(now, false), SetProvider(next), Respond(now, 0, Some(expiry))];
    var s1 := INITIAL.(provider := Some(first));
    var c := Creation(first, 0);
    var s2 := s1.(inFlight := true, running := [c]);
    var s3 := s2.(provider := next);
    assert s3.running[..0] + s3.running[1..] == [];
    assert s1.running + [c] == [c];
    var s4 := s3.(running := [], ended := 1, expiresAt := HintUntil(now, expiry), owner := Some(c));
    var ss := [INITIAL, s1, s2, s3, s4];
    forall k | 0 <= k < |es| ensures Enabled(ss[k], es[k]) && ss[k + 1] == Step(ss[k], es[k]) {
    }
    assert IsRun(es, ss);
  }

  // ---- Ending a session ----

  /** A hint that is still standing was earned by a creation that began after the session was last ended. */
  ghost predicate HintIsOpen(s: State) {
    s.expiresAt > 0 ==> s.owner.Some? && s.owner.value.ends == s.ends
  }

  /** No creation succeeds that the session's end overtook. */
  ghost predicate NotOvertaken(es: seq<Event>, ss: seq<State>)
    requires IsRun(es, ss)
  {
    forall k :: 0 <= k < |es| && es[k].Respond? && es[k].answer.Some? ==> ss[k].running[es[k].k].ends == ss[k].ends
  }

  lemma {:induction false} NotOvertakenKeepsHints(es: seq<Event>, ss: seq<State>, k: nat)
    requires IsRun(es, ss) && NotOvertaken(es, ss) && k < |ss|
    ensures HintIsOpen(ss[k])
    decreases k
  {
    if k > 0 {
      NotOvertakenKeepsHints(es, ss, k - 1);
    }
  }

  /** An ended session leaves no hint until a new one is created: this holds throughout a run exactly when no creation
      succeeds that began before an end. */
  lemma EndsForGoodExactly(es: seq<Event>, ss: seq<State>)
    requires IsRun(es, ss)
    ensures (forall k :: 0 <= k < |ss| ==> HintIsOpen(ss[k])) <==> NotOvertaken(es, ss)
  {
    if NotOvertaken(es, ss) {
      forall k | 0 <= k < |ss| ensures HintIsOpen(ss[k]) {
        NotOvertakenKeepsHints(es, ss, k);
      }
    }
    if forall k :: 0 <= k < |ss| ==> HintIsOpen(ss[k]) {
      forall k | 0 <= k < |es| && es[k].Respond? && es[k].answer.Some?
        ensures ss[k].running[es[k].k].ends == ss[k].ends
      {
        assert HintIsOpen(ss[k + 1]);
        assert ss[k + 1] == Step(ss[k], es[k]);
      }
    }
  }

  /** The guard: end the session only while no creation is in flight. */
  lemma {:induction false} QuietEndsSuffice(es: seq<Event>, ss: seq<State>, k: nat)
    requires IsRun(es, ss) && k < |ss|
    requires forall i :: 0 <= i < |es| && es[i].End? ==> !ss[i].inFlight
    ensures forall c :: c in ss[k].running ==> c.ends == ss[k].ends
    decreases k
  {
    if k > 0 {
      QuietEndsSuffice(es, ss, k - 1);
      SingleFlight(es, ss, k - 1);
      assert ss[k] == Step(ss[k - 1], es[k - 1]);
    }
  }

  lemma QuietEndsAreForGood(es: seq<Event>, ss: seq<State>)
    requires IsRun(es, ss)
    requires forall i :: 0 <= i < |es| && es[i].End? ==> !ss[i].inFlight
    ensures forall k :: 0 <= k < |ss| ==> HintIsOpen(ss[k])
  {
    forall k | 0 <= k < |es| && es[k].Respond? && es[k].answer.Some?
      ensures ss[k].running[es[k].k].ends == ss[k].ends
    {
      QuietEndsSuffice(es, ss, k);
      assert ss[k].running[es[k].k] in ss[k].running;
    }
    EndsForGoodExactly(es, ss);
  }

  /** Without that guard the hint comes back: the response to a creation that the end overtook sets it again. */
  lemma EndIsUndone(user: User, now: nat, expiry: int)
    ensures var es := [SetProvider(Some(user)), Ensure(now, false), End, Respond(now, 0, Some(expiry))];
      exists ss: seq<State> :: IsRun(es, ss) && ss[3].expiresAt == 0 && ss[4].expiresAt > now && !HintIsOpen(ss[4])
  {
    var es := [SetProvider(Some(user)), Ensure(now, false), End, Respond(now, 0, Some(expiry))];
    var c := Creation(user, 0);
    var s1 := INITIAL.(provider := Some(user));
    var s2 := s1.(inFlight := true, running := [c]);
    var s3 := s2.(ends := 1);
    assert s3.running[..0] + s3.running[1..] == [];
    assert s1.running + [c] == [c];
    var s4 := s3.(running := [], ended := 1, expiresAt := HintUntil(now, expiry), owner := Some(c));
    var ss := [INITIAL, s1, s2, s3, s4];
    forall k | 0 <= k < |es| ensures Enabled(ss[k], es[k]) && ss[k + 1] == Step(ss[k], es[k]) {
    }
    assert IsRun(es, ss);
  }

  /** The page's module: its three variables, changed in place, follow the machine step for step. */
  class Session {
    var privyToken: Option<User>
    var expiresAt: int
    var inFlight: bool
    ghost var running: seq<Creation>
    ghost var ended: nat
    ghost var owner: Option<Creation>
    ghost var ends: nat

    ghost function Value(): State
      reads this
    {
      State(privyToken, expiresAt, inFlight, running, ended, owner, ends)
    }

    constructor ()
      ensures Value() == INITIAL
    {
      privyToken, expiresAt, inFlight := None, 0, false;
      running, ended, owner, ends := [], 0, None, 0;
    }

    method SetPrivyTokenProvider(provider: Option<User>)
      modifies this
      ensures Value() == Step(old(Value()), SetProvider(provider))
      ensures privyToken == provider && expiresAt == 0 && inFlight == old(inFlight) && running == old(running)
    {
      privyToken := provider;
      expiresAt := 0;
    }

    /** `started` is the user of the creation that this call begins, if it begins one that gets past its first check. */
    method EnsureSession(now: int, force: bool) returns (started: Option<User>)
      modifies this
      ensures Value() == Step(old(Value()), Ensure(now, force))
      ensures forall u :: started == Some(u) <==>
                old(privyToken) == Some(u) && (force || now >= old(expiresAt)) && !old(inFlight)
      ensures running == old(running) + if started.Some? then [Creation(started.value, ends)] else []
      ensures inFlight <==> old(inFlight) || force || now >= old(expiresAt)
      ensures privyToken == old(privyToken) && expiresAt == old(expiresAt)
    {
      started := None;
      if !force && now < expiresAt {
        return;
      }
      if !inFlight {
        inFlight := true;
        match privyToken
        case None =>
          ended := ended + 1;
        case Some(u) =>
          started := Some(u);
          running := running + [Creation(u, ends)];
      }
    }

    /** The end of the k-th creation under way, ahead of its `finally`. */
    method CreateSessionEnds(now: int, ghost k: nat, answer: Option<int>)
      requires k < |running|
      modifies this
      ensures Value() == Step(old(Value()), Respond(now, k, answer))
      ensures answer == None ==> expiresAt == old(expiresAt)
      ensures answer == Some(0) ==> expiresAt == now + 30_000
      ensures answer.Some? && answer.value != 0 ==> expiresAt == Max(answer.value - 30_000, now + 5_000)
      ensures privyToken == old(privyToken) && inFlight == old(inFlight)
    {
      if answer.Some? {
        var ttl := if answer.value != 0 then answer.value - now else 60_000;
        expiresAt := now + Max(ttl - 30_000, 5_000);
        owner := Some(running[k]);
      }
      running := running[..k] + running[k + 1..];
      ended := ended + 1;
    }

    method ClearInFlight()
      requires ended > 0
      modifies this
      ensures Value() == Step(old(Value()), Finally)
      ensures !inFlight && privyToken == old(privyToken) && expiresAt == old(expiresAt)
    {
      inFlight := false;
      ended := ended - 1;
    }

    method EndSession()
      modifies this
      ensures Value() == Step(old(Value()), End)
      ensures expiresAt == 0 && privyToken == old(privyToken) && inFlight == old(inFlight)
    {
      expiresAt := 0;
      ends := ends + 1;
    }
  }
}
