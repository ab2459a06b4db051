/** The write path of the backend: session, then policy, then the bundler, and one row in the write log. */
module BundlerProxy {
  import opened Wrappers
  import opened Bytes
  import opened Hex
  import opened Js
  import opened Abi
  import opened UserOps
  import opened Policy
  import opened Client
  import opened SessionCookie
  import opened UserOpLog

  /** What goes out to the bundler: the bearer token and the body's bytes. */
  datatype Forward = Forward(bearer: string, body: seq<Byte>)

  /** The bundler's answer: status, content type if it names one, and text. */
  datatype Answer =
    | Unreachable(message: string)
    | Answered(ok: bool, status: int, contentType: Option<string>, text: string)

  /** What goes back to the page: an error object in JSON, or the bundler's own text. */
  datatype Reply = Error(status: int, message: string) | Relay(status: int, contentType: string, text: string)

  /** The backend's settings, and the functions it takes from outside: JSON parsing of a body and of an answer (Null
      where that is no JSON), JSON printing, conversion to a string, and the wording of a refusal. */
  datatype Site = Site(
    codec: Codec,
    config: Config,
    selectorOf: string -> seq<Byte>,
    bundlerUrl: string,
    parseJson: seq<Byte> -> Option<Json>,
    parseAnswer: string -> Json,
    printJson: Json -> string,
    text: Json -> string,
    wording: string -> string)

  /** A request: its method, its Cookie header, and its body or the status and message of the error that reading it
      raised. */
  datatype Request = Request(isPost: bool, cookie: string, body: Result<seq<Byte>, (int, string)>)

  datatype Decision =
    | Stop(status: int, message: string)
    | Reject(session: Session, request: Json, what: string)
    | Pass(session: Session, checked: Checked, forward: Forward)

  /** The sender that a request claims: `request?.params?.[0]?.sender`. */
  function ClaimedSender(request: Json): Json {
    Field(First(Field(request, "params")), "sender")
  }

  const NO_SESSION := "no session \U{2014} POST /api/session first"

  function Decide(site: Site, req: Request, now: int): Decision {
    if !req.isPost then Stop(405, "use POST")
    else
      match Parse(site.codec, req.cookie, now)
      case None => Stop(401, NO_SESSION)
      case Some(session) =>
        match req.body
        case Err((status, message)) => Stop(status, message)
        case Ok(bytes) =>
          match site.parseJson(bytes)
          case None => Stop(400, "request body must be JSON")
          case Some(request) =>
            match Check(CreatePolicy(site.config, site.selectorOf), request)
            case Err(Refused(what)) =>
              // Recording a refusal converts the claims to text, which can throw.
              if HasText(Field(request, "method")) && HasText(ClaimedSender(request)) then
                Reject(session, request, what)
              else Stop(500, "internal error")
            case Err(Fault) => Stop(500, "internal error")
            case Ok(checked) => Pass(session, checked, Forward(session.accessToken, bytes))
  }

  // ---- Rows ----

  function TextOf(site: Site, j: Json): Option<string> {
    match j
    case Undefined => None
    case Null => None
    case Str(s) => Some(s)
    case _ => Some(site.text(j))
  }

  /** `j?.[0]` */
  function First(j: Json): Json {
    if j.Arr? then if j.xs != [] then j.xs[0] else Undefined else Field(j, "0")
  }

  /** The addresses in a rejected row are the request's own claims. */
  function RejectedEntry(site: Site, session: Session, request: Json, what: string): Entry {
    Entry(Some(session.sub), "rejected", TextOf(site, Field(request, "method")), None,
          TextOf(site, ClaimedSender(request)), None, None, None, None, Some(403),
          Some(site.wording(what)))
  }

  function Label(inner: InnerCall): string {
    match inner.signature
    case Some(s) => if s != "" then s else Hexlify(inner.selector)
    case None => Hexlify(inner.selector)
  }

  function ErrorText(site: Site, error: Json): Option<string> {
    if Truthy(Field(error, "message")) then TextOf(site, Field(error, "message")) else Some(site.printJson(error))
  }

  /** The answer's error message, if any, converts to text; where it does not, recording throws. */
  predicate Recordable(site: Site, answer: Answer) {
    answer.Answered? ==> HasText(Field(Field(site.parseAnswer(answer.text), "error"), "message"))
  }

  /** A JSON-RPC error under status 200 is a failed write too. */
  function ForwardedEntry(site: Site, session: Session, checked: Checked, answer: Answer): Entry {
    var e := Entry(Some(session.sub), "failed", Some(SEND_METHOD), None, Some(Hexlify(checked.sender)),
                   Some(Hexlify(checked.target)),
                   match checked.owner { case None => None case Some(a) => Some(Hexlify(a)) },
                   Some(Label(checked.inner)), checked.inner.value, Some(502), None);
    match answer
    case Unreachable(message) => e.(error := Some("bundler unreachable: " + message))
    case Answered(ok, status, _, text) =>
      var body := site.parseAnswer(text);
      var (error, result) := (Field(body, "error"), Field(body, "result"));
      e.(status := if Truthy(error) || !ok then "failed" else "sent",
         userOpHash := if result.Str? then Some(result.s) else None,
         httpStatus := Some(status),
         error := if Truthy(error) then ErrorText(site, error) else None)
  }

  /** The row that one request adds, if any. */
  function NewEntry(site: Site, d: Decision, upstream: Forward -> Answer): Option<Entry> {
    match d
    case Stop(_, _) => None
    case Reject(session, request, what) => Some(RejectedEntry(site, session, request, what))
    case Pass(session, checked, forward) =>
      var answer := upstream(forward);
      if Recordable(site, answer) then Some(ForwardedEntry(site, session, checked, answer)) else None
  }

  /** What the page is told. */
  function ReplyTo(site: Site, d: Decision, upstream: Forward -> Answer): Reply {
    match d
    case Stop(status, message) => Error(status, message)
    case Reject(_, _, what) => Error(403, "rejected by policy: " + site.wording(what))
    case Pass(_, _, forward) =>
      match upstream(forward)
      case Unreachable(message) => Error(502, "bundler unreachable at " + site.bundlerUrl + ": " + message)
      case Answered(_, status, contentType, text) =>
        if Recordable(site, upstream(forward)) then Relay(status, ContentType(contentType), text)
        else Error(500, "internal error")
  }

  function ContentType(named: Option<string>): string {
    match named
    case Some(t) => if t != "" then t else "application/json"
    case None => "application/json"
  }

  class Proxy {
    const site: Site
    const log: Log

    constructor (site: Site, log: Log)
      ensures this.site == site && this.log == log
    {
      this.site, this.log := site, log;
    }

    /** `upstream` is what the bundler would answer to a forwarded request; `sent` is what is forwarded, if anything. */
    method HandleBundler(req: Request, now: int, upstream: Forward -> Answer)
      returns (reply: Reply, sent: Option<Forward>)
      requires log.Valid()
      modifies log
      ensures log.Valid()
      ensures var d := Decide(site, req, now);
        && sent == (if d.Pass? then Some(d.forward) else None)
        && log.rows == (match NewEntry(site, d, upstream)
                        case None => old(log.rows)
                        case Some(entry) => Apply(old(log.rows), DoRecord(entry, now)))
        && reply == ReplyTo(site, d, upstream)
    {
      hide Check, CreatePolicy, Parse, RejectedEntry, ForwardedEntry, ClipEntry, ContentType, HasText,
           ClaimedSender;
      sent := None;
      if !req.isPost {
        return Error(405, "use POST"), None;
      }
      var current := Parse(site.codec, req.cookie, now);
      if current.None? {
        return Error(401, NO_SESSION), None;
      }
      if req.body.Err? {
        return Error(req.body.error.0, req.body.error.1), None;
      }
      var request := site.parseJson(req.body.value);
      if request.None? {
        return Error(400, "request body must be JSON"), None;
      }
      var checked := Check(CreatePolicy(site.config, site.selectorOf), request.value);
      match checked
      case Err(Fault) =>
        return Error(500, "internal error"), None;
      case Err(Refused(what)) =>
        if !HasText(Field(request.value, "method")) || !HasText(ClaimedSender(request.value)) {
          return Error(500, "internal error"), None;
        }
        var _ := log.Record(RejectedEntry(site, current.value, request.value, what), now);
        return Error(403, "rejected by policy: " + site.wording(what)), None;
      case Ok(c) =>
        var forward := Forward(current.value.accessToken, req.body.value);
        var answer := upstream(forward);
        if !Recordable(site, answer) {
          return Error(500, "internal error"), Some(forward);
        }
        var _ := log.Record(ForwardedEntry(site, current.value, c, answer), now);
        if answer.Unreachable? {
          return Error(502, "bundler unreachable at " + site.bundlerUrl + ": " + answer.message), Some(forward);
        }
        return Relay(answer.status, ContentType(answer.contentType), answer.text), Some(forward);
    }
  }

  // ---- What reaches the bundler ----

  /** A request reaches the bundler exactly when it is a POST with a live session and its body is one acceptable send;
      then it goes out byte for byte under that session's own token. */
  lemma ForwardedExactly(site: Site, req: Request, now: int, session: Session, checked: Checked, forward: Forward)
    ensures Decide(site, req, now) == Pass(session, checked, forward) <==>
      && req.isPost && Parse(site.codec, req.cookie, now) == Some(session)
      && req.body == Ok(forward.body) && forward.bearer == session.accessToken
      && exists request ::
           site.parseJson(forward.body) == Some(request) && Acceptable(site.config, site.selectorOf, request, checked)
  {
    hide Check, CreatePolicy, Acceptable, Parse;
    if req.body.Ok? && site.parseJson(req.body.value).Some? {
      CheckExact(site.config, site.selectorOf, site.parseJson(req.body.value).value, checked);
    }
  }

  /** The bundler took it: an answer without error of either kind. */
  predicate Took(site: Site, answer: Answer) {
    answer.Answered? && answer.ok && !Truthy(Field(site.parseAnswer(answer.text), "error"))
  }

  /** A request is acceptable with that report: a POST with a live session whose body is one acceptable send. */
  ghost predicate IsAcceptable(site: Site, req: Request, now: int, checked: Checked) {
    && req.isPost && Parse(site.codec, req.cookie, now).Some? && req.body.Ok?
    && site.parseJson(req.body.value).Some?
    && Acceptable(site.config, site.selectorOf, site.parseJson(req.body.value).value, checked)
  }

  lemma PassExactly(site: Site, req: Request, now: int, checked: Checked)
    ensures IsAcceptable(site, req, now, checked) <==>
            Decide(site, req, now).Pass? && Decide(site, req, now).checked == checked
  {
    hide Check, CreatePolicy, Acceptable, Parse;
    if req.body.Ok? && site.parseJson(req.body.value).Some? {
      CheckExact(site.config, site.selectorOf, site.parseJson(req.body.value).value, checked);
    }
  }

  /** The answer has no error whose message is an object, or an array around one, with a `toString` of its own. */
  ghost predicate ErrorPrints(site: Site, answer: Answer) {
    answer.Unreachable? || !Truthy(Field(site.parseAnswer(answer.text), "error"))
    || HasText(Field(Field(site.parseAnswer(answer.text), "error"), "message"))
  }

  lemma RecordableExact(site: Site, answer: Answer)
    ensures Recordable(site, answer) <==> ErrorPrints(site, answer)
  {
  }

  /** A POST with a live session and a JSON body. */
  ghost predicate Asks(site: Site, req: Request, now: int, session: Session, request: Json) {
    && req.isPost && Parse(site.codec, req.cookie, now) == Some(session)
    && req.body.Ok? && site.parseJson(req.body.value) == Some(request)
  }

  lemma DecidedOnRequest(site: Site, req: Request, now: int, session: Session, request: Json)
    requires Asks(site, req, now, session, request)
    ensures var d := Decide(site, req, now);
      match Objection(site.config, site.selectorOf, request)
      case None =>
        d.Pass? && d.session == session && d.forward == Forward(session.accessToken, req.body.value)
        && Acceptable(site.config, site.selectorOf, request, d.checked)
      case Some(Refused(what)) =>
        d == if HasText(ClaimedSender(request)) then Reject(session, request, what) else Stop(500, "internal error")
      case Some(Fault) => d == Stop(500, "internal error")
  {
    hide Check, CreatePolicy, Acceptable, Objection, Parse, ClaimedSender, HasText;
    RefusalExact(site.config, site.selectorOf, request);
    var answer := Check(CreatePolicy(site.config, site.selectorOf), request);
    if answer.Ok? {
      CheckExact(site.config, site.selectorOf, request, answer.value);
    } else {
      RefusedMethodPrints(site.config, site.selectorOf, request);
    }
  }

  /** A refusal by name has a method that prints: one that does not is a fault before. */
  lemma RefusedMethodPrints(c: Config, selectorOf: string -> seq<Byte>, request: Json)
    ensures Objection(c, selectorOf, request).Some? && Objection(c, selectorOf, request).value.Refused? ==>
              HasText(Field(request, "method"))
  {
    hide OpObjection, ParseAddress;
  }

  lemma JudgedExactly(c: Config, selectorOf: string -> seq<Byte>, request: Json)
    ensures Objection(c, selectorOf, request) == None <==> exists checked :: Acceptable(c, selectorOf, request, checked)
    ensures Objection(c, selectorOf, request) == Some(Fault) <==> Faulty(c, request)
  {
    hide Check, CreatePolicy, Acceptable, Objection, Faulty;
    RefusalExact(c, selectorOf, request);
    FaultExact(c, selectorOf, request);
    var answer := Check(CreatePolicy(c, selectorOf), request);
    if answer.Ok? {
      CheckExact(c, selectorOf, request, answer.value);
    }
    forall checked | Acceptable(c, selectorOf, request, checked) ensures answer == Ok(checked) {
      CheckExact(c, selectorOf, request, checked);
    }
  }

  /** The page is told the bundler's answer: its status, type and text, or that it was not reached; 500 where recording
      the answer throws. */
  ghost predicate TellsAnswer(site: Site, reply: Reply, answer: Answer) {
    match answer
    case Unreachable(message) => reply == Error(502, "bundler unreachable at " + site.bundlerUrl + ": " + message)
    case Answered(_, status, contentType, text) =>
      if ErrorPrints(site, answer) then
        && reply.Relay? && reply.status == status && reply.text == text
        && if contentType.Some? && contentType.value != "" then reply.contentType == contentType.value
           else reply.contentType == "application/json"
      else reply == Error(500, "internal error")
  }

  lemma RelayExact(site: Site, d: Decision, upstream: Forward -> Answer)
    requires d.Pass?
    ensures TellsAnswer(site, ReplyTo(site, d, upstream), upstream(d.forward))
  {
    RecordableExact(site, upstream(d.forward));
    hide Recordable, ErrorPrints;
  }

  /** What the page is told once session and body are in order: the bundler's own answer to an acceptable send, 403 with
      the first objection to a refused one, and 500 where judging or recording throws. */
  lemma ReplyExact(site: Site, req: Request, now: int, upstream: Forward -> Answer, session: Session, request: Json)
    requires Asks(site, req, now, session, request)
    ensures var reply := ReplyTo(site, Decide(site, req, now), upstream);
      match Objection(site.config, site.selectorOf, request)
      case Some(Fault) => reply == Error(500, "internal error")
      case Some(Refused(what)) =>
        reply == if HasText(ClaimedSender(request)) then Error(403, "rejected by policy: " + site.wording(what))
                 else Error(500, "internal error")
      case None => TellsAnswer(site, reply, upstream(Forward(session.accessToken, req.body.value)))
  {
    hide Decide, Objection, Acceptable, Asks, HasText, ClaimedSender, TellsAnswer;
    DecidedOnRequest(site, req, now, session, request);
    if Decide(site, req, now).Pass? {
      RelayExact(site, Decide(site, req, now), upstream);
    }
  }

  /** And before that: 405, 401, the error of reading the body, and 400, in this order, with nothing sent or logged. */
  lemma EarlyReplyExact(site: Site, req: Request, now: int, upstream: Forward -> Answer)
    requires req.isPost && Parse(site.codec, req.cookie, now).Some? && req.body.Ok? ==>
               site.parseJson(req.body.value) == None
    ensures var d := Decide(site, req, now);
      && d.Stop? && NewEntry(site, d, upstream) == None
      && ReplyTo(site, d, upstream) ==
         if !req.isPost then Error(405, "use POST")
         else if Parse(site.codec, req.cookie, now).None? then
           Error(401, "no session \U{2014} POST /api/session first")
         else if req.body.Err? then Error(req.body.error.0, req.body.error.1)
         else Error(400, "request body must be JSON")
  {
    hide Check, CreatePolicy, Parse;
  }

  /** A request is turned down by the policy: neither acceptable nor a fault, and the sender it claims prints. */
  ghost predicate IsTurnedDown(site: Site, req: Request, now: int) {
    exists session, request ::
      && Asks(site, req, now, session, request)
      && (!exists checked :: Acceptable(site.config, site.selectorOf, request, checked))
      && !Faulty(site.config, request) && HasText(ClaimedSender(request))
  }

  lemma RejectExactly(site: Site, req: Request, now: int)
    ensures Decide(site, req, now).Reject? <==> IsTurnedDown(site, req, now)
  {
    hide Check, CreatePolicy, Acceptable, Objection, Faulty, Parse, HasText, ClaimedSender;
    var d := Decide(site, req, now);
    forall session, request | Asks(site, req, now, session, request)
      ensures d.Reject? <==>
        && (!exists checked :: Acceptable(site.config, site.selectorOf, request, checked))
        && !Faulty(site.config, request) && HasText(ClaimedSender(request))
    {
      DecidedOnRequest(site, req, now, session, request);
      JudgedExactly(site.config, site.selectorOf, request);
    }
    if d.Reject? {
      assert Asks(site, req, now, d.session, d.request);
    }
  }

  /** A request leaves a row that says "sent" exactly if it is acceptable and the bundler took it, one that says
      "failed" exactly if it is acceptable and the bundler did not, for a reason that prints, and one that says
      "rejected" exactly if the policy turns it down; any row is under the live session's own user. */
  lemma RowStatusExact(site: Site, req: Request, now: int, upstream: Forward -> Answer)
    ensures var session := Parse(site.codec, req.cookie, now);
      var entry := NewEntry(site, Decide(site, req, now), upstream);
      && (entry.Some? ==> session.Some? && entry.value.userSub == Some(session.value.sub)
                          && entry.value.status in ["sent", "failed", "rejected"])
      && (entry.Some? && entry.value.status == "sent" <==>
            exists checked ::
              IsAcceptable(site, req, now, checked)
              && Took(site, upstream(Forward(session.value.accessToken, req.body.value))))
      && (entry.Some? && entry.value.status == "failed" <==>
            exists checked ::
              IsAcceptable(site, req, now, checked)
              && !Took(site, upstream(Forward(session.value.accessToken, req.body.value)))
              && ErrorPrints(site, upstream(Forward(session.value.accessToken, req.body.value))))
      && (entry.Some? && entry.value.status == "rejected" <==> IsTurnedDown(site, req, now))
  {
    var d := Decide(site, req, now);
    RejectExactly(site, req, now);
    hide Check, CreatePolicy, Acceptable, Parse, IsTurnedDown, ClaimedSender;
    if d.Pass? {
      PassExactly(site, req, now, d.checked);
      RecordableExact(site, upstream(d.forward));
    }
    forall checked | IsAcceptable(site, req, now, checked) ensures d.Pass? {
      PassExactly(site, req, now, checked);
    }
  }

  /** The row of a request that the policy turns down: its own claims, 403 and the wording of the first objection. */
  lemma RejectedRowTells(site: Site, req: Request, now: int, upstream: Forward -> Answer, session: Session,
                         request: Json)
    requires Asks(site, req, now, session, request) && IsTurnedDown(site, req, now)
    ensures var entry, objection := NewEntry(site, Decide(site, req, now), upstream),
                                    Objection(site.config, site.selectorOf, request);
      && entry.Some? && objection.Some? && objection.value.Refused?
      && entry.value.userSub == Some(session.sub) && entry.value.httpStatus == Some(403)
      && entry.value.error == Some(site.wording(objection.value.what))
      && (forall text :: Field(request, "method") == Str(text) ==> entry.value.method_ == Some(text))
      && (forall text :: ClaimedSender(request) == Str(text) ==> entry.value.sender == Some(text))
      && entry.value.userOpHash == entry.value.target == entry.value.owner == None
      && entry.value.innerCall == entry.value.storedValue == None
  {
    hide Decide, Objection, Acceptable, IsTurnedDown, HasText, ClaimedSender;
    RejectExactly(site, req, now);
    DecidedOnRequest(site, req, now, session, request);
  }

  /** The row of a forwarded send: the facts that the policy found in it, the bundler's status, the hash where the
      answer has one, and an error exactly where there was one. */
  lemma ForwardedRowTells(site: Site, session: Session, checked: Checked, answer: Answer)
    ensures var e := ForwardedEntry(site, session, checked, answer);
      && e.userSub == Some(session.sub) && e.method_ == Some("eth_sendUserOperation")
      && (e.status == "sent" <==> Took(site, answer)) && (e.status == "failed" <==> !Took(site, answer))
      && e.sender == Some(Hexlify(checked.sender)) && e.target == Some(Hexlify(checked.target))
      && (checked.owner.None? ==> e.owner == None)
      && (checked.owner.Some? ==> e.owner == Some(Hexlify(checked.owner.value)))
      && e.storedValue == checked.inner.value
      && (if checked.inner.signature.Some? && checked.inner.signature.value != ""
          then e.innerCall == checked.inner.signature else e.innerCall == Some(Hexlify(checked.inner.selector)))
      && match answer
         case Unreachable(message) =>
           e.httpStatus == Some(502) && e.error == Some("bundler unreachable: " + message) && e.userOpHash == None
         case Answered(ok, status, _, text) =>
           var body := site.parseAnswer(text);
           && e.httpStatus == Some(status)
           && (forall hash :: e.userOpHash == Some(hash) <==> Field(body, "result") == Str(hash))
           && (e.error == None <==> !Truthy(Field(body, "error")))
           && (forall message :: message != "" && Truthy(Field(body, "error"))
                                 && Field(Field(body, "error"), "message") == Str(message) ==>
                 e.error == Some(message))
           && (Truthy(Field(body, "error")) && !Truthy(Field(Field(body, "error"), "message")) ==>
                 e.error == Some(site.printJson(Field(body, "error"))))
  {
    hide Hexlify;
  }

  /** A send whose operation has nothing but a sender, an object with a `toString` of its own. */
  function UnprintableClaim(entryPoint: Address): Json {
    SendRequest(Obj(map["sender" := Obj(map["toString" := Null])]), entryPoint)
  }

  lemma UnprintableClaimParts(entryPoint: Address)
    ensures var request, op := UnprintableClaim(entryPoint), Obj(map["sender" := Obj(map["toString" := Null])]);
      && request.Obj? && Field(request, "method") == Str("eth_sendUserOperation")
      && Field(request, "params") == Arr([op, Str(Hexlify(entryPoint))])
      && Field(op, "sender") == Obj(map["toString" := Null]) && !HasText(Field(op, "sender"))
      && ClaimedSender(request) == Field(op, "sender")
  {
    hide Hexlify;
  }

  lemma UnprintableClaimIsRefused(c: Config, selectorOf: string -> seq<Byte>)
    ensures Objection(c, selectorOf, UnprintableClaim(c.entryPoint)) == Some(Refused("sender"))
  {
    UnprintableClaimParts(c.entryPoint);
    AddressTextReadsBack(c.entryPoint);
    NoAddressInObject(Obj(map["toString" := Null]));
    hide ParseAddress, Field, Hexlify, HasText, GasObjection, InitCodeObjection, CallDataObjection, UnprintableClaim,
         ClaimedSender;
  }

  /** "The only record they ever leave" has an exception: a refused request that claims an object with a `toString` of
      its own for a sender leaves none, and its page is told 500 instead of 403. */
  lemma UnprintableSenderIsNotLogged(site: Site, req: Request, now: int, upstream: Forward -> Answer, session: Session)
    requires Asks(site, req, now, session, UnprintableClaim(site.config.entryPoint))
    ensures Objection(site.config, site.selectorOf, UnprintableClaim(site.config.entryPoint)) == Some(Refused("sender"))
    ensures NewEntry(site, Decide(site, req, now), upstream) == None
    ensures ReplyTo(site, Decide(site, req, now), upstream) == Error(500, "internal error")
  {
    hide Decide, Asks, Objection, UnprintableClaim, ClaimedSender, HasText, Acceptable;
    UnprintableClaimIsRefused(site.config, site.selectorOf);
    UnprintableClaimParts(site.config.entryPoint);
    DecidedOnRequest(site, req, now, session, UnprintableClaim(site.config.entryPoint));
  }

  lemma NoAddressInObject(j: Json)
    requires j.Obj?
    ensures ParseAddress(j) == None
  {
  }

  // ---- From the page to the log ----

  lemma {:induction false} DecimalLength(n: nat, k: nat)
    requires k >= 1 && n < Pow256(k)
    ensures |Decimal(n)| <= 3 * k
  {
    if n >= 1000 {
      assert n / 10 / 10 / 10 == n / 1000;
      assert |Decimal(n)| == 1 + |Decimal(n / 10)| == 2 + |Decimal(n / 10 / 10)|;
      DecimalLength(n / 1000, k - 1);
    }
  }

  lemma DecimalFits(n: nat)
    requires n < UINT256
    ensures |Decimal(n)| <= MAX_FIELD
  {
    hide Decimal;
    WordCapacity();
    DecimalLength(n, 32);
  }

  /** The page's own write, end to end. Its cookie stands anywhere in the header, not near its end; the body is the
      JSON of the operation the page builds; the bundler accepts it. Then the row tells the user, the account, the
      target, the owner, the call and the exact value, and waits for the receipt under the bundler's hash. */
  lemma PageWriteIsLogged(site: Site, session: Session, before: seq<string>, after: seq<string>, now: int,
                          factory: Address, account: Address, owner: Address, salt: nat, target: Address, value: nat,
                          signature: string, bytes: seq<Byte>, answer: Answer, hash: string, lead: string,
                          trail: string)
    requires GoodName(site.codec.name) && UriFaithful(site.codec) && JsonFaithful(site.codec, session)
    requires session.accessToken != "" && 0 < |session.sub| <= MAX_FIELD && !Expired(session, now)
    requires AllSpace(lead) && AllSpace(trail) && forall p :: p in before + after ==> ';' !in p
    requires forall p :: p in before ==> !IsNamed(p, site.codec.name)
    requires AllowsApp(site.config, site.selectorOf, factory, target)
    requires salt < UINT256 && value < UINT256 && IsHexString(signature)
    requires var op := BuildOp(factory, account, owner, salt, target, EncodeSet(value)).(signature := signature);
      && SerializeInBrowser(op).Some?
      && site.parseJson(bytes) == Some(SendRequest(SerializeInBrowser(op).value, site.config.entryPoint))
    requires Took(site, answer) && Field(site.parseAnswer(answer.text), "result") == Str(hash) && |hash| <= MAX_FIELD
    ensures var header := Join(before + [lead + CookiePair(Serialize(site.codec, session)) + trail] + after, ";");
      var d := Decide(site, Request(true, header, Ok(bytes)), now);
      && d.Pass? && d.forward == Forward(session.accessToken, bytes)
      && ClipEntry(ForwardedEntry(site, session, d.checked, answer))
         == Entry(Some(session.sub), "sent", Some("eth_sendUserOperation"), Some(hash), Some(Hexlify(account)),
                  Some(Hexlify(target)), Some(Hexlify(owner)), Some("set(uint256)"), Some(Decimal(value)),
                  Some(answer.status), None)
      && IsPending(Row(1, now, ClipEntry(ForwardedEntry(site, session, d.checked, answer)),
                       Outcome(None, None, None), None))
  {
    hide Check, CreatePolicy, Parse, Serialize, CookiePair, Decimal, Hexlify, BuildOp, SendRequest, StaticCheck,
         AllowsApp,
         EncodeSet, IsHexString, Join, UriFaithful, JsonFaithful, GoodName, IsNamed;
    CookieRoundTrip(site.codec, session, before, lead, trail, after, now);
    BuiltOpPassesBothGates(site.config, site.selectorOf, factory, account, owner, salt, target, value, signature);
    DecimalFits(value);
    HexlifyLength(account);
    HexlifyLength(target);
    HexlifyLength(owner);
  }

  lemma HexlifyLength(bs: seq<Byte>)
    ensures |Hexlify(bs)| == 2 + 2 * |bs|
  {
  }
}
