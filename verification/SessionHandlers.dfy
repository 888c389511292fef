/** server/irmaserver/handle.go and helpers.go as they are written: handlers that assign the fields
    of a session one by one. Each has the effect Session describes, so that a whole transaction is what
    SessionStore takes it to be, and keeps a coherent session coherent. */
module SessionHandlers {
  import opened Outcomes
  import opened Session
  import SessionStore

  /** The outcome and the session left behind are those of a specification. */
  ghost predicate Effect(spec: Outcome<Reply>, o: Outcome<Response>, after: SessionData) {
    match spec
    case Done(r) => o == Done(r.response) && after == r.session
    case Err => o.Err?
    case Panic => o.Panic?
  }

  lemma EffectMeans(spec: Outcome<Reply>, o: Outcome<Response>, after: SessionData)
    requires Effect(spec, o, after) && o.Done?
    ensures spec == Done(Reply(after, o.value))
  {
  }

  lemma StepIsCoherent(a: SessionData, b: SessionData, c: Call)
    requires StepOk(a, b, c)
    ensures Coherent(b)
  {
  }

  class ActiveSession {
    const action: Action
    const info: RequestInfo
    const frontendAuth: string
    var status: Status
    var result: SessionResult
    var version: Option<Version>
    var options: SessionOptions
    var clientAuth: string
    var cache: Option<CacheEntry>
    var lastActive: int
    var appended: nat
    var legacyCompatible: bool
    var next: bool

    function View(): SessionData
      reads this
    {
      SessionData(action, info, frontendAuth, status, result, version, options, clientAuth, cache, lastActive,
                  appended, legacyCompatible, next)
    }

    constructor (action: Action, info: RequestInfo, frontendAuth: string, now: int)
      ensures View() == NewSession(action, info, frontendAuth, now)
    {
      this.action, this.info, this.frontendAuth := action, info, frontendAuth;
      status, result := Initialized, SessionResult(Initialized, None, false, false);
      version, options, clientAuth, cache := None, SessionOptions(PairingNone, 0), "", None;
      lastActive, appended, legacyCompatible, next := now, 0, false, false;
    }

    method SetStatus(status: Status)
      modifies this
      ensures View() == WithStatus(old(View()), status)
    {
      this.status := status;
      result := result.(status := status);
    }

    method Fail(kind: ErrorKind) returns (response: Response)
      modifies this
      ensures Reply(View(), response) == Session.Fail(old(View()), kind)
    {
      result := SessionResult(Cancelled, None, true, false);
      SetStatus(Cancelled);
      response := ErrorReply(kind);
    }

    /** The check at the start of a transaction. */
    method CheckTimeout(conf: ServerConf, now: int)
      modifies this
      ensures View() == ApplyTimeout(conf, old(View()), now)
      ensures old(Coherent(View())) ==> forall c: Call :: StepOk(old(View()), View(), c)
    {
      if !Finished(status) {
        var lifetime := conf.maxLifetime;
        if status == Initialized && info.clientTimeout != 0 {
          lifetime := info.clientTimeout;
        }
        if lifetime - (now - lastActive) <= 0 {
          SetStatus(Timeout);
        }
      }
    }

    method HandleDelete(now: int)
      modifies this
      ensures View() == Session.HandleDelete(old(View()), now)
      ensures old(Coherent(View())) ==> StepOk(old(View()), View(), Delete)
    {
      if Finished(status) {
        return;
      }
      lastActive := now;
      result := SessionResult(Cancelled, None, false, false);
      SetStatus(Cancelled);
    }

    method UpdateFrontendOptions(request: OptionsRequest) returns (ok: bool)
      modifies this
      ensures ok == Session.UpdateFrontendOptions(old(View()), request).Done?
      ensures View() == if ok then Session.UpdateFrontendOptions(old(View()), request).value else old(View())
      ensures old(Coherent(View())) ==> StepOk(old(View()), View(), ApiSetOptions(request))
    {
      if status != Initialized {
        return false;
      }
      match request {
        case KeepMethod =>
        case UseNone => options := SessionOptions(PairingNone, 0);
        case UsePin(code) => options := SessionOptions(PairingPin, code);
        case UnknownMethod => return false;
      }
      return true;
    }

    method PairingCompleted() returns (ok: bool)
      modifies this
      ensures ok == Session.PairingCompleted(old(View())).Done?
      ensures View() == if ok then Session.PairingCompleted(old(View())).value else old(View())
      ensures old(Coherent(View())) ==> StepOk(old(View()), View(), ApiPairingCompleted)
    {
      ok := status == Pairing;
      if ok {
        SetStatus(Connected);
      }
    }

    method ChooseProtocolVersion(conf: ServerConf, minClient: Version, maxClient: Version) returns (v: Option<Version>)
      ensures v == ChooseVersion(conf, View(), minClient, maxClient)
    {
      var minSession := MIN_SECURE_VERSION;
      if conf.acceptInsecure {
        minSession := MIN_VERSION;
        if !legacyCompatible { minSession := Version(2, 5); }
        if info.revocation { minSession := Version(2, 6); }
        if info.nextSession { minSession := Version(2, 7); }
      }
      if minClient.Above(MAX_VERSION) || maxClient.Below(minSession) || maxClient.Below(minClient) {
        return None;
      }
      v := if maxClient.Above(MAX_VERSION) then Some(MAX_VERSION) else Some(maxClient);
    }

    method HandleGetClientRequest(conf: ServerConf, minClient: Version, maxClient: Version, clientAuth: string,
                                  outcome: GetOutcome, now: int)
      returns (response: Response)
      modifies this
      ensures Reply(View(), response) == HandleGet(conf, old(View()), minClient, maxClient, clientAuth, outcome, now)
    {
      hide ChooseVersion;
      if status != Initialized {
        return ErrorReply(UnexpectedRequest);
      }
      version := ChooseProtocolVersion(conf, minClient, maxClient);
      lastActive := now;
      if version.None? {
        response := Fail(ProtocolVersionError);
        return;
      }
      if clientAuth == "" && version.value.Above(Version(2, 7)) {
        response := Fail(Unauthorized);
        return;
      }
      this.clientAuth := clientAuth;
      if !outcome.revocationOk {
        response := Fail(RevocationError);
        return;
      }
      legacyCompatible := outcome.legacyOk;
      response := Connect(version.value, outcome.copyOk);
    }

    method Connect(v: Version, copyOk: bool) returns (response: Response)
      requires version == Some(v)
      modifies this
      ensures Reply(View(), response) == Start(old(View()), v, copyOk)
    {
      if options.pairing != PairingNone && v.Above(Version(2, 7)) {
        SetStatus(Pairing);
      } else {
        SetStatus(Connected);
      }
      if v.Below(Version(2, 5)) {
        return RequestReply;
      }
      var withRequest := v.Below(Version(2, 8)) || options.pairing == PairingNone;
      if withRequest && !copyOk {
        response := Fail(RevocationError);
        return;
      }
      response := if v.Below(Version(2, 8)) then RequestReply else SessionInfo(v, withRequest);
    }

    method HandleSessionGetRequest(copyOk: bool) returns (o: Outcome<Response>)
      modifies this
      ensures Effect(HandleGetRequest(old(View()), copyOk), o, View())
    {
      if version.None? {
        return Panic;
      }
      if version.value.Below(Version(2, 8)) {
        return Done(ErrorReply(UnexpectedRequest));
      }
      if !copyOk {
        var response := Fail(RevocationError);
        return Done(response);
      }
      return Done(RequestReply);
    }

    method StartNext(outcome: NextOutcome) returns (started: Option<bool>)
      modifies this
      ensures match Session.StartNext(old(View()), outcome)
              case None => started == None && View() == old(View())
              case Some((s, b)) => started == Some(b) && View() == s
    {
      if !info.nextSession {
        return Some(false);
      }
      if result.status != Connected || result.proofStatus != Some(Valid) || result.failed || outcome.NextError? {
        return None;
      }
      if outcome.NextNone? {
        return Some(false);
      }
      result := result.(hasNext := true);
      next := true;
      return Some(true);
    }

    method FinishPost(outcome: NextOutcome, answer: bool -> Response) returns (response: Response)
      modifies this
      ensures Reply(View(), response) == Session.FinishPost(old(View()), outcome, answer)
    {
      var started := StartNext(outcome);
      if started.None? {
        return ErrorReply(NextSessionError);
      }
      SetStatus(DoneStatus);
      response := answer(started.value);
    }

    method HandleSessionCommitments(o: PostOutcome, now: int) returns (r: Outcome<Response>)
      modifies this
      ensures Effect(HandleCommitments(old(View()), o, now), r, View())
    {
      hide Session.FinishPost;
      if !o.parses {
        return Done(ErrorReply(MalformedInput));
      }
      if action != Issuing {
        return Panic;
      }
      lastActive := now;
      var response;
      if !o.prepared {
        response := Fail(MalformedInput);
        return Done(response);
      }
      appended := appended + 1;
      result := result.(proofStatus := Some(o.proofStatus));
      if o.verifyError || o.proofStatus != Valid || !o.signed {
        response := Fail(ProofError);
        return Done(response);
      }
      response := FinishPost(o.next, next => SignaturesReply(o.signatures, next));
      return Done(response);
    }

    method HandleSessionProofs(o: PostOutcome, now: int) returns (response: Response)
      modifies this
      ensures Reply(View(), response) == HandleProofs(old(View()), o, now)
    {
      hide Session.FinishPost;
      if action == Issuing {
        return ErrorReply(InvalidRequest);
      }
      if !o.parses {
        return ErrorReply(MalformedInput);
      }
      lastActive := now;
      appended := appended + 1;
      result := result.(proofStatus := Some(o.proofStatus));
      if o.verifyError {
        response := Fail(ProofError);
        return;
      }
      response := FinishPost(o.next, next => ProofsReply(o.proofStatus, next));
    }

    /** checkCache: a miss empties the cache. */
    method CheckCache(endpoint: Endpoint, message: string, now: int) returns (hit: Option<Response>)
      modifies this
      ensures hit.Some? == CacheHit(old(View()), endpoint, message, now)
      ensures hit.Some? ==> View() == old(View()) && hit.value == old(View()).cache.value.response
      ensures hit.None? ==> View() == old(View()).(cache := None)
    {
      if cache.None? || cache.value.endpoint != endpoint || cache.value.sessionStatus != status
         || lastActive < now - RETRY_TIME_LIMIT || cache.value.message != message {
        cache := None;
        return None;
      }
      return Some(cache.value.response);
    }

    /** cacheMiddleware around pairingMiddleware around the handler: a replay of the cached response, or
        a fresh one, which is cached. */
    method Serve(conf: ServerConf, c: Call, now: int) returns (o: Outcome<Response>)
      requires IsCached(c)
      modifies this
      ensures Effect(Session.Handle(conf, old(View()), c, now), o, View())
      ensures old(Coherent(View())) && o.Done? ==> StepOk(old(View()), View(), c)
      ensures old(Coherent(View())) && o.Done? ==>
        if CacheHit(old(View()), EndpointOf(c), c.message, now)
        then View() == old(View()) && o.value == old(View()).cache.value.response
        else FreshOk(old(View()), c, Reply(View(), o.value))
             && View().cache == Some(CacheEntry(EndpointOf(c), c.message, o.value, status))
    {
      ghost var before := View();
      hide CacheHit, HandleUncached, StepOk, FreshOk;
      var hit := CheckCache(EndpointOf(c), c.message, now);
      if hit.Some? {
        o := Done(hit.value);
      } else {
        o := Dispatch(conf, c, now);
        if o.Done? {
          cache := Some(CacheEntry(EndpointOf(c), c.message, o.value, status));
        }
      }
      if Coherent(before) && o.Done? {
        HandleIsStep(conf, before, c, now);
        CachedCall(conf, before, c, now);
      }
    }

    /** One call, routed to its handler. */
    method Handle(conf: ServerConf, c: Call, now: int) returns (o: Outcome<Response>)
      modifies this
      ensures Effect(Session.Handle(conf, old(View()), c, now), o, View())
      ensures old(Coherent(View())) && o.Done? ==> StepOk(old(View()), View(), c)
      ensures old(Coherent(View())) && !o.Done? ==> o.Panic? && c.PostCommitments? && action != Issuing
    {
      ghost var before := View();
      hide StepOk, HandleCached;
      o := Route(conf, c, now);
      if Coherent(before) {
        HandleIsStep(conf, before, c, now);
      }
    }

    method Route(conf: ServerConf, c: Call, now: int) returns (o: Outcome<Response>)
      modifies this
      ensures Effect(Session.Handle(conf, old(View()), c, now), o, View())
    {
      hide HandleCached, StepOk, FreshOk;
      if IsCached(c) {
        o := Serve(conf, c, now);
        return;
      }
      if (c.FrontendOptions? || c.FrontendPairingCompleted?) && c.auth != frontendAuth {
        return Done(ErrorReply(Unauthorized));
      }
      if c.Delete? || c.ApiCancel? {
        HandleDelete(now);
        return Done(Okay);
      }
      if c.FrontendOptions? || c.ApiSetOptions? {
        var ok := UpdateFrontendOptions(c.request);
        return Done(if ok then OptionsReply(options) else ErrorReply(UnexpectedRequest));
      }
      if c.FrontendPairingCompleted? || c.ApiPairingCompleted? {
        var ok := PairingCompleted();
        return Done(if ok then Okay else ErrorReply(UnexpectedRequest));
      }
      return Done(StatusReply(status));
    }

    /** What handleTransaction does on its copy of the session: the timeout check, the handler, and
        whether the copy is to be stored. This is what SessionStore makes of a transaction. */
    method Transact(conf: ServerConf, c: Call, checked: int, now: int) returns (o: Outcome<Response>, update: bool)
      modifies this
      ensures Effect(SessionStore.Attempt(conf, old(View()), SessionStore.Finish(0, c, checked, now)), o, View())
      ensures o.Done? ==> update == SessionStore.Updates(conf, old(View()), SessionStore.Finish(0, c, checked, now))
      ensures old(Coherent(View())) && o.Done? ==> StepOk(old(View()), View(), c)
      ensures !o.Done? ==> !update
    {
      ghost var before := View();
      hide StepOk, Session.Handle, ApplyTimeout, Effect;
      CheckTimeout(conf, checked);
      var base := View();
      o := Handle(conf, c, now);
      update := false;
      if o.Done? {
        EffectMeans(Session.Handle(conf, base, c, now), o, View());
        update := if IsApi(c) then !c.ApiRead? && !o.value.ErrorReply? else View() != base;
        if Coherent(before) {
          StepIsCoherent(before, base, c);
          SessionStore.TimeoutThenStep(conf, before, checked, View(), c);
        }
      }
    }

    method Dispatch(conf: ServerConf, c: Call, now: int) returns (o: Outcome<Response>)
      requires IsCached(c)
      modifies this
      ensures Effect(HandleUncached(conf, old(View()), c, now), o, View())
    {
      hide HandleGet, HandleGetRequest, HandleCommitments, HandleProofs;
      var response;
      if c.Get? {
        response := HandleGetClientRequest(conf, c.minClient, c.maxClient, c.clientAuth, c.got, now);
        return Done(response);
      }
      if status == Pairing {
        return Done(ErrorReply(PairingRequired));
      }
      if status != Connected {
        return Done(ErrorReply(UnexpectedRequest));
      }
      if clientAuth != c.clientAuth {
        return Done(ErrorReply(Unauthorized));
      }
      match c {
        case GetRequest(_, _, copyOk) => o := HandleSessionGetRequest(copyOk);
        case PostCommitments(_, _, outcome) => o := HandleSessionCommitments(outcome, now);
        case PostProofs(_, _, outcome) =>
          response := HandleSessionProofs(outcome, now);
          o := Done(response);
      }
    }
  }
}
