/** server/irmaserver/handle.go and helpers.go: one session and the handlers that change it. */
module Session {
  import opened Outcomes

  datatype Action = Disclosing | Signing | Issuing

  datatype Status = Initialized | Pairing | Connected | Cancelled | DoneStatus | Timeout

  predicate Finished(s: Status) { s == DoneStatus || s == Cancelled || s == Timeout }

  datatype ProofStatus = Valid | Invalid | InvalidTimestamp | UnmatchedRequest | MissingAttributes | Expired

  datatype Version = Version(major: int, minor: int) {
    predicate Below(v: Version) { major < v.major || (major == v.major && minor < v.minor) }
    predicate Above(v: Version) { major > v.major || (major == v.major && minor > v.minor) }
  }

  const MIN_VERSION := Version(2, 4)
  const MIN_SECURE_VERSION := Version(2, 8)
  const MAX_VERSION := Version(2, 8)
  /** retryTimeLimit, in seconds */
  const RETRY_TIME_LIMIT := 10

  datatype PairingMethod = PairingNone | PairingPin

  datatype SessionOptions = SessionOptions(pairing: PairingMethod, code: nat)

  datatype SessionResult = SessionResult(status: Status, proofStatus: Option<ProofStatus>, failed: bool, hasNext: bool)

  /** What the handlers read of the requestor's request: the client timeout in seconds (0 if unset),
      whether a next session follows and whether nonrevocation is requested. */
  datatype RequestInfo = RequestInfo(clientTimeout: nat, nextSession: bool, revocation: bool)

  datatype ErrorKind =
    | UnexpectedRequest | ProtocolVersionError | Unauthorized | RevocationError | PairingRequired
    | MalformedInput | InvalidRequest | ProofError | NextSessionError | InternalError

  /** A reply: errors, statuses, the session info (with or without the session request), the session
      request, the verdict on proofs, or issued signatures. */
  datatype Response =
    | ErrorReply(kind: ErrorKind)
    | Okay
    | StatusReply(status: Status)
    | OptionsReply(options: SessionOptions)
    | SessionInfo(version: Version, withRequest: bool)
    | RequestReply
    | ProofsReply(proofStatus: ProofStatus, next: bool)
    | SignaturesReply(signatures: nat, next: bool)

  datatype Endpoint = SessionEndpoint | RequestEndpoint | CommitmentsEndpoint | ProofsEndpoint

  datatype CacheEntry = CacheEntry(endpoint: Endpoint, message: string, response: Response, sessionStatus: Status)

  /** `appended` counts how often the implicit disclosure was appended to the request. */
  datatype SessionData = SessionData(
    action: Action,
    info: RequestInfo,
    frontendAuth: string,
    status: Status,
    result: SessionResult,
    version: Option<Version>,
    options: SessionOptions,
    clientAuth: string,
    cache: Option<CacheEntry>,
    lastActive: int,
    appended: nat,
    legacyCompatible: bool,
    next: bool)

  /** `maxLifetime` in seconds */
  datatype ServerConf = ServerConf(maxLifetime: nat, acceptInsecure: bool)

  /** newSession */
  function NewSession(action: Action, info: RequestInfo, frontendAuth: string, now: int): SessionData {
    SessionData(action, info, frontendAuth, Initialized, SessionResult(Initialized, None, false, false), None,
                SessionOptions(PairingNone, 0), "", None, now, 0, false, false)
  }

  datatype Reply = Reply(session: SessionData, response: Response)

  // ---------------------------------------------------------------- helpers

  function WithStatus(s: SessionData, status: Status): SessionData {
    s.(status := status, result := s.result.(status := status))
  }

  /** fail: the result is replaced by an error and the session cancelled. */
  function Failed(s: SessionData): SessionData {
    s.(status := Cancelled, result := SessionResult(Cancelled, None, true, false))
  }

  function Fail(s: SessionData, kind: ErrorKind): Reply { Reply(Failed(s), ErrorReply(kind)) }

  /** timeout: how long the session may still stay unfinished. */
  function TimeoutIn(conf: ServerConf, s: SessionData, now: int): int {
    var max := if s.status == Initialized && s.info.clientTimeout != 0 then s.info.clientTimeout
               else if Finished(s.status) then 0
               else conf.maxLifetime;
    max - (now - s.lastActive)
  }

  /** The check every transaction starts with. */
  function ApplyTimeout(conf: ServerConf, s: SessionData, now: int): SessionData {
    if !Finished(s.status) && TimeoutIn(conf, s, now) <= 0 then WithStatus(s, Timeout) else s
  }

  /** The lowest protocol version acceptable for this session. */
  function MinSessionVersion(conf: ServerConf, s: SessionData): Version {
    if !conf.acceptInsecure then MIN_SECURE_VERSION
    else if s.info.nextSession then Version(2, 7)
    else if s.info.revocation then Version(2, 6)
    else if !s.legacyCompatible then Version(2, 5)
    else MIN_VERSION
  }

  /** chooseProtocolVersion: the highest version both sides support, if there is one. */
  function ChooseVersion(conf: ServerConf, s: SessionData, minClient: Version, maxClient: Version): (v: Option<Version>)
    ensures v.Some? ==>
      !v.value.Below(MinSessionVersion(conf, s)) && !v.value.Above(MAX_VERSION)
      && !v.value.Below(minClient) && !v.value.Above(maxClient)
      && (v.value == MAX_VERSION || v.value == maxClient)
    ensures v.None? ==> forall u: Version ::
      u.Below(MinSessionVersion(conf, s)) || u.Above(MAX_VERSION) || u.Below(minClient) || u.Above(maxClient)
  {
    if minClient.Above(MAX_VERSION) || maxClient.Below(MinSessionVersion(conf, s)) || maxClient.Below(minClient)
      then None
    else if maxClient.Above(MAX_VERSION) then Some(MAX_VERSION)
    else Some(maxClient)
  }

  /** Pairing is used for this session: a method is set and the negotiated version supports it. */
  predicate NeedsPairing(s: SessionData) {
    s.options.pairing != PairingNone && s.version.Some? && s.version.value.Above(Version(2, 7))
  }

  // ---------------------------------------------------------------- frontend

  datatype OptionsRequest = KeepMethod | UseNone | UsePin(code: nat) | UnknownMethod

  function UpdateFrontendOptions(s: SessionData, request: OptionsRequest): Outcome<SessionData> {
    if s.status != Initialized then Err
    else match request
      case KeepMethod => Done(s)
      case UseNone => Done(s.(options := SessionOptions(PairingNone, 0)))
      case UsePin(code) => Done(s.(options := SessionOptions(PairingPin, code)))
      case UnknownMethod => Err
  }

  function PairingCompleted(s: SessionData): Outcome<SessionData> {
    if s.status == Pairing then Done(WithStatus(s, Connected)) else Err
  }

  function HandleDelete(s: SessionData, now: int): SessionData {
    if Finished(s.status) then s
    else s.(lastActive := now, status := Cancelled, result := SessionResult(Cancelled, None, false, false))
  }

  // ---------------------------------------------------------------- the IRMA client

  /** What the outside world decides during a GET: whether the revocation updates could be attached,
      whether the request converts to the legacy format, and whether it could be copied. */
  datatype GetOutcome = GetOutcome(revocationOk: bool, legacyOk: bool, copyOk: bool)

  /** The end of handleGetClientRequest, once the version is fixed: pair or connect, and answer. */
  function Start(s: SessionData, v: Version, copyOk: bool): Reply {
    var started := WithStatus(s, if NeedsPairing(s) then Pairing else Connected);
    if v.Below(Version(2, 5)) then Reply(started, RequestReply)
    else if v.Below(Version(2, 8)) then
      if copyOk then Reply(started, RequestReply) else Fail(started, RevocationError)
    else if started.options.pairing == PairingNone then
      if copyOk then Reply(started, SessionInfo(v, true)) else Fail(started, RevocationError)
    else Reply(started, SessionInfo(v, false))
  }

  /** handleGetClientRequest */
  function HandleGet(conf: ServerConf, s: SessionData, minClient: Version, maxClient: Version, clientAuth: string,
                     outcome: GetOutcome, now: int): Reply {
    if s.status != Initialized then Reply(s, ErrorReply(UnexpectedRequest)) else
      var v := ChooseVersion(conf, s, minClient, maxClient);
      var s1 := s.(lastActive := now, version := v);
      if v.None? then Fail(s1, ProtocolVersionError)
      else if clientAuth == "" && v.value.Above(Version(2, 7)) then Fail(s1, Unauthorized)
      else if !outcome.revocationOk then Fail(s1.(clientAuth := clientAuth), RevocationError)
      else Start(s1.(clientAuth := clientAuth, legacyCompatible := outcome.legacyOk), v.value, outcome.copyOk)
  }

  /** pairingMiddleware: the error with which a request is refused, if it is. */
  function PairingRefusal(s: SessionData, clientAuth: string): Option<ErrorKind> {
    if s.status == Pairing then Some(PairingRequired)
    else if s.status != Connected then Some(UnexpectedRequest)
    else if s.clientAuth != clientAuth then Some(Unauthorized)
    else None
  }

  /** handleSessionGetRequest, behind the pairing middleware */
  function HandleGetRequest(s: SessionData, copyOk: bool): Outcome<Reply> {
    if s.version.None? then Panic
    else if s.version.value.Below(Version(2, 8)) then Done(Reply(s, ErrorReply(UnexpectedRequest)))
    else if !copyOk then Done(Fail(s, RevocationError))
    else Done(Reply(s, RequestReply))
  }

  /** How starting a next session turns out, if one is configured. */
  datatype NextOutcome = NextError | NextNone | NextStarted

  /** What the outside world decides about a POST: whether it parses, whether the steps before the
      verification succeed, the verdict, whether it comes with an error, and the signatures issued. */
  datatype PostOutcome = PostOutcome(
    parses: bool, prepared: bool, proofStatus: ProofStatus, verifyError: bool, signed: bool, signatures: nat,
      next: NextOutcome)

  /** startNext: None is an error, otherwise the session and whether a next one was started. */
  function StartNext(s: SessionData, next: NextOutcome): Option<(SessionData, bool)> {
    if !s.info.nextSession then Some((s, false))
    else if s.result.status != Connected || s.result.proofStatus != Some(Valid) || s.result.failed || next.NextError?
      then None
    else if next.NextNone? then Some((s, false))
    else Some((s.(result := s.result.(hasNext := true), next := true), true))
  }

  /** The end of both POST handlers. */
  function FinishPost(s: SessionData, next: NextOutcome, response: bool -> Response): Reply {
    match StartNext(s, next)
    case None => Reply(s, ErrorReply(NextSessionError))
    case Some((s', started)) => Reply(WithStatus(s', DoneStatus), response(started))
  }

  /** handleSessionCommitments */
  function HandleCommitments(s: SessionData, o: PostOutcome, now: int): Outcome<Reply> {
    if !o.parses then Done(Reply(s, ErrorReply(MalformedInput)))
    else if s.action != Issuing then Panic
    else
      var s1 := s.(lastActive := now);
      if !o.prepared then Done(Fail(s1, MalformedInput)) else
        var s2 := s1.(appended := s1.appended + 1, result := s1.result.(proofStatus := Some(o.proofStatus)));
        if o.verifyError || o.proofStatus != Valid || !o.signed then Done(Fail(s2, ProofError))
        else Done(FinishPost(s2, o.next, next => SignaturesReply(o.signatures, next)))
  }

  /** handleSessionProofs */
  function HandleProofs(s: SessionData, o: PostOutcome, now: int): Reply {
    if s.action == Issuing then Reply(s, ErrorReply(InvalidRequest))
    else if !o.parses then Reply(s, ErrorReply(MalformedInput))
    else
      var s1 := s.(lastActive := now, appended := s.appended + 1, result :=
        s.result.(proofStatus := Some(o.proofStatus)));
      if o.verifyError then Fail(s1, ProofError)
      else FinishPost(s1, o.next, next => ProofsReply(o.proofStatus, next))
  }

  // ---------------------------------------------------------------- dispatch

  /** Everything that can happen to a session, with what the outside world decides about it. */
  datatype Call =
    | Delete
    | ReadStatus
    | FrontendOptions(auth: string, request: OptionsRequest)
    | FrontendPairingCompleted(auth: string)
    | Get(minClient: Version, maxClient: Version, clientAuth: string, message: string, got: GetOutcome)
    | GetRequest(clientAuth: string, message: string, copyOk: bool)
    | PostCommitments(clientAuth: string, message: string, outcome: PostOutcome)
    | PostProofs(clientAuth: string, message: string, outcome: PostOutcome)
    | ApiCancel
    | ApiSetOptions(request: OptionsRequest)
    | ApiPairingCompleted
    | ApiRead

  predicate IsCached(c: Call) { c.Get? || c.GetRequest? || c.PostCommitments? || c.PostProofs? }

  predicate IsApi(c: Call) { c.ApiCancel? || c.ApiSetOptions? || c.ApiPairingCompleted? || c.ApiRead? }

  function EndpointOf(c: Call): Endpoint
    requires IsCached(c)
  {
    match c
    case Get(_, _, _, _, _) => SessionEndpoint
    case GetRequest(_, _, _) => RequestEndpoint
    case PostCommitments(_, _, _) => CommitmentsEndpoint
    case PostProofs(_, _, _) => ProofsEndpoint
  }

  /** checkCache: the same message to the same endpoint, in the status the first answer left behind,
      not more than ten seconds after the last activity. */
  predicate CacheHit(s: SessionData, endpoint: Endpoint, message: string, now: int) {
    && s.cache.Some? && s.cache.value.endpoint == endpoint
    && s.cache.value.sessionStatus == s.status
    && s.lastActive >= now - RETRY_TIME_LIMIT
    && s.cache.value.message == message
  }

  /** The handler behind the cache. */
  function HandleUncached(conf: ServerConf, s: SessionData, c: Call, now: int): Outcome<Reply>
    requires IsCached(c)
  {
    if c.Get? then Done(HandleGet(conf, s, c.minClient, c.maxClient, c.clientAuth, c.got, now))
    else
      var refusal := PairingRefusal(s, c.clientAuth);
      if refusal.Some? then Done(Reply(s, ErrorReply(refusal.value)))
      else if c.GetRequest? then HandleGetRequest(s, c.copyOk)
      else if c.PostCommitments? then HandleCommitments(s, c.outcome, now)
      else Done(HandleProofs(s, c.outcome, now))
  }

  /** cacheMiddleware */
  function HandleCached(conf: ServerConf, s: SessionData, c: Call, now: int): Outcome<Reply>
    requires IsCached(c)
  {
    if CacheHit(s, EndpointOf(c), c.message, now) then Done(Reply(s, s.cache.value.response))
    else
      var r :- HandleUncached(conf, s.(cache := None), c, now);
      Done(Reply(r.session.(cache := Some(CacheEntry(EndpointOf(c), c.message, r.response, r.session.status))),
        r.response))
  }

  function OptionsUpdated(s: SessionData, request: OptionsRequest): Reply {
    var o := UpdateFrontendOptions(s, request);
    if o.Done? then Reply(o.value, OptionsReply(o.value.options)) else Reply(s, ErrorReply(UnexpectedRequest))
  }

  function Paired(s: SessionData): Reply {
    var o := PairingCompleted(s);
    if o.Done? then Reply(o.value, Okay) else Reply(s, ErrorReply(UnexpectedRequest))
  }

  /** The effect of a call on a session whose timeout has been checked. */
  function Handle(conf: ServerConf, s: SessionData, c: Call, now: int): Outcome<Reply> {
    match c
    case Delete => Done(Reply(HandleDelete(s, now), Okay))
    case ReadStatus => Done(Reply(s, StatusReply(s.status)))
    case FrontendOptions(auth, request) =>
      if auth != s.frontendAuth then Done(Reply(s, ErrorReply(Unauthorized)))
      else Done(OptionsUpdated(s, request))
    case FrontendPairingCompleted(auth) =>
      if auth != s.frontendAuth then Done(Reply(s, ErrorReply(Unauthorized)))
      else Done(Paired(s))
    case ApiCancel => Done(Reply(HandleDelete(s, now), Okay))
    case ApiSetOptions(request) => Done(OptionsUpdated(s, request))
    case ApiPairingCompleted => Done(Paired(s))
    case ApiRead => Done(Reply(s, StatusReply(s.status)))
    case _ => HandleCached(conf, s, c, now)
  }

  /** Whether the transaction asks for its session to be stored: over HTTP when it changed, and from
      the API always, except when reading or when the operation failed. */
  predicate WantsUpdate(base: SessionData, c: Call, r: Reply) {
    if IsApi(c) then !c.ApiRead? && !r.response.ErrorReply? else r.session != base
  }

  // ---------------------------------------------------------------- what one call can do

  /** The allowed moves of the status. */
  predicate Move(a: Status, b: Status) {
    || a == b
    || (a == Initialized && (b == Pairing || b == Connected))
    || (a == Pairing && b == Connected)
    || (a == Connected && b == DoneStatus)
    || (!Finished(a) && (b == Cancelled || b == Timeout))
  }

  predicate Coherent(s: SessionData) {
    && s.status == s.result.status
    && (s.status == Pairing ==> NeedsPairing(s))
    && (s.status == Connected || s.status == DoneStatus || s.status == Pairing ==> s.version.Some?)
  }

  /** What a single step keeps: the status follows the allowed moves, a finished session keeps its
      result, pairing and version are fixed once the session has started, and a session that needs
      pairing gets connected only by completing it. */
  predicate StepOk(a: SessionData, b: SessionData, c: Call) {
    && Coherent(b) && Move(a.status, b.status)
    && (Finished(a.status) ==> b.status == a.status && b.result == a.result)
    && (a.status != Initialized ==> b.options == a.options && b.version == a.version && b.clientAuth == a.clientAuth)
    && (NeedsPairing(b) && b.status == Connected && a.status != Connected ==>
          a.status == Pairing && (c.ApiPairingCompleted? || c.FrontendPairingCompleted?))
  }

  lemma TimeoutIsStep(conf: ServerConf, s: SessionData, now: int, c: Call)
    requires Coherent(s)
    ensures StepOk(s, ApplyTimeout(conf, s, now), c)
  {
  }

  /** A reply that gives the client the session request, or that accepts its proofs. */
  predicate Sensitive(r: Response) {
    r.RequestReply? || (r.SessionInfo? && r.withRequest) || r.ProofsReply? || r.SignaturesReply?
  }

  predicate FromTheClient(c: Call, s: SessionData) { IsCached(c) && c.clientAuth == s.clientAuth }

  /** A freshly computed sensitive reply leaves the session connected or done, and goes to the client
      that started the session; signatures are only computed by the move from connected to done with
      valid proofs. */
  predicate FreshOk(s: SessionData, c: Call, r: Reply) {
    && (Sensitive(r.response) ==>
          (r.session.status == Connected || r.session.status == DoneStatus) && FromTheClient(c, r.session))
    && (r.response.SignaturesReply? ==> s.status == Connected && r.session.status == DoneStatus
                                        && r.session.result.proofStatus == Some(Valid))
    && (r.session.status == DoneStatus && s.status != DoneStatus ==>
      r.response.SignaturesReply? || r.response.ProofsReply?)
  }

  lemma StartIsStep(s: SessionData, v: Version, copyOk: bool, c: Call)
    requires Coherent(s) && s.status == Initialized && s.version == Some(v) && FromTheClient(c, s)
    ensures var r := Start(s, v, copyOk); StepOk(s, r.session, c) && FreshOk(s, c, r)
  {
    var started := WithStatus(s, if NeedsPairing(s) then Pairing else Connected);
    var r := Start(s, v, copyOk);
    assert StepOk(s, started, c);
    assert StepOk(s, Failed(started), c);
    assert r.session == started || r.session == Failed(started);
    hide StepOk;
  }

  lemma GetIsStep(conf: ServerConf, s: SessionData, c: Call, now: int)
    requires Coherent(s) && c.Get?
    ensures var r := HandleGet(conf, s, c.minClient, c.maxClient, c.clientAuth, c.got, now);
            StepOk(s, r.session, c) && FreshOk(s, c, r)
  {
    hide Start, ChooseVersion;
    var v := ChooseVersion(conf, s, c.minClient, c.maxClient);
    if s.status == Initialized && v.Some? {
      var started := s.(lastActive := now, version := v, clientAuth := c.clientAuth, legacyCompatible :=
        c.got.legacyOk);
      StartIsStep(started, v.value, c.got.copyOk, c);
    }
  }

  lemma FinishIsStep(s: SessionData, next: NextOutcome, response: bool -> Response, c: Call)
    requires Coherent(s) && s.status == Connected && FromTheClient(c, s)
    requires forall b ::
      response(b).ProofsReply? || (response(b).SignaturesReply? && s.result.proofStatus == Some(Valid))
    ensures StepOk(s, FinishPost(s, next, response).session, c) && FreshOk(s, c, FinishPost(s, next, response))
  {
  }

  lemma CommitmentsIsStep(s: SessionData, o: PostOutcome, now: int, c: Call)
    requires Coherent(s) && s.status == Connected && FromTheClient(c, s) && HandleCommitments(s, o, now).Done?
    ensures var r := HandleCommitments(s, o, now).value; StepOk(s, r.session, c) && FreshOk(s, c, r)
  {
    hide FinishPost;
    if o.parses && o.prepared && !o.verifyError && o.proofStatus == Valid && o.signed {
      var s2 := s.(lastActive := now, appended := s.appended + 1, result :=
        s.result.(proofStatus := Some(o.proofStatus)));
      FinishIsStep(s2, o.next, next => SignaturesReply(o.signatures, next), c);
    }
  }

  lemma ProofsIsStep(s: SessionData, o: PostOutcome, now: int, c: Call)
    requires Coherent(s) && s.status == Connected && FromTheClient(c, s)
    ensures var r := HandleProofs(s, o, now); StepOk(s, r.session, c) && FreshOk(s, c, r)
  {
    hide FinishPost;
    var s1 := s.(lastActive := now, appended := s.appended + 1, result :=
      s.result.(proofStatus := Some(o.proofStatus)));
    FinishIsStep(s1, o.next, next => ProofsReply(o.proofStatus, next), c);
  }

  lemma UncachedIsStep(conf: ServerConf, s: SessionData, c: Call, now: int)
    requires Coherent(s) && IsCached(c) && HandleUncached(conf, s, c, now).Done?
    ensures var r := HandleUncached(conf, s, c, now).value; StepOk(s, r.session, c) && FreshOk(s, c, r)
  {
    hide HandleGet, HandleCommitments, HandleProofs;
    if c.Get? {
      GetIsStep(conf, s, c, now);
    } else if PairingRefusal(s, c.clientAuth).None? {
      if c.PostCommitments? {
        CommitmentsIsStep(s, c.outcome, now, c);
      } else if c.PostProofs? {
        ProofsIsStep(s, c.outcome, now, c);
      }
    }
  }

  /** Only a POST of commitments to a session that issues nothing panics. */
  lemma UncachedPanics(conf: ServerConf, s: SessionData, c: Call, now: int)
    requires Coherent(s) && IsCached(c)
    ensures !HandleUncached(conf, s, c, now).Err?
    ensures HandleUncached(conf, s, c, now).Panic? ==> c.PostCommitments? && s.action != Issuing && c.outcome.parses
  {
    hide HandleGet, HandleProofs, FinishPost;
  }

  /** Every call from a coherent session is such a step. */
  lemma HandleIsStep(conf: ServerConf, s: SessionData, c: Call, now: int)
    requires Coherent(s)
    ensures Handle(conf, s, c, now).Done? ==> StepOk(s, Handle(conf, s, c, now).value.session, c)
    ensures !Handle(conf, s, c, now).Err?
    ensures Handle(conf, s, c, now).Panic? ==> c.PostCommitments? && s.action != Issuing && c.outcome.parses
  {
    hide HandleUncached;
    if IsCached(c) && !CacheHit(s, EndpointOf(c), c.message, now) {
      var s' := s.(cache := None);
      UncachedPanics(conf, s', c, now);
      if HandleUncached(conf, s', c, now).Done? {
        UncachedIsStep(conf, s', c, now);
      }
    }
  }

  /** The cached endpoints either replay the cached response, or compute one and cache it. */
  lemma CachedCall(conf: ServerConf, s: SessionData, c: Call, now: int)
    requires Coherent(s) && IsCached(c) && Handle(conf, s, c, now).Done?
    ensures var r := Handle(conf, s, c, now).value;
            if CacheHit(s, EndpointOf(c), c.message, now) then r == Reply(s, s.cache.value.response)
            else FreshOk(s, c, r)
                 && r.session.cache == Some(CacheEntry(EndpointOf(c), c.message, r.response, r.session.status))
  {
    hide HandleUncached;
    var s' := s.(cache := None);
    if !CacheHit(s, EndpointOf(c), c.message, now) && HandleUncached(conf, s', c, now).Done? {
      UncachedIsStep(conf, s', c, now);
    }
  }

  /** The other calls leave the cache alone and never send a sensitive reply. */
  lemma OtherCall(conf: ServerConf, s: SessionData, c: Call, now: int)
    requires !IsCached(c) && Handle(conf, s, c, now).Done?
    ensures Handle(conf, s, c, now).value.session.cache == s.cache
    ensures !Sensitive(Handle(conf, s, c, now).value.response)
  {
    hide HandleUncached;
  }

  // ---------------------------------------------------------------- what exactly a call does

  /** The lowest acceptable version is the least that meets every requirement: 2.8 unless insecure ones are accepted,
      2.7 for a next session, 2.6 for revocation, and 2.5 for a request that older clients cannot be sent. */
  lemma MinVersionIff(conf: ServerConf, s: SessionData, u: Version)
    ensures !u.Below(MinSessionVersion(conf, s)) <==>
            && !u.Below(Version(2, 4))
            && (!conf.acceptInsecure ==> !u.Below(Version(2, 8)))
            && (s.info.nextSession ==> !u.Below(Version(2, 7)))
            && (s.info.revocation ==> !u.Below(Version(2, 6)))
            && (!s.legacyCompatible ==> !u.Below(Version(2, 5)))
  {
  }

  /** An unfinished session times out exactly when it has been idle for its lifetime, which before a client connects
      is the client timeout if there is one; otherwise it stays as it is. */
  lemma TimesOutIff(conf: ServerConf, s: SessionData, now: int)
    ensures var lifetime := if s.status == Initialized && s.info.clientTimeout > 0 then s.info.clientTimeout
                            else conf.maxLifetime;
            if !Finished(s.status) && s.lastActive + lifetime <= now
            then ApplyTimeout(conf, s, now) == s.(status := Timeout, result := s.result.(status := Timeout))
            else ApplyTimeout(conf, s, now) == s
  {
  }

  /** The version, and whether everything a GET depends on turned out well. */
  predicate CanStart(s: SessionData, c: Call, v: Version)
    requires c.Get?
  {
    && (c.clientAuth != "" || v.Below(Version(2, 8))) && c.got.revocationOk
    && (c.got.copyOk || v.Below(Version(2, 5)) || (!v.Below(Version(2, 8)) && s.options.pairing != PairingNone))
  }

  /** The session a GET started belongs to that client, and waits for pairing exactly if a method is set and the
      version is 2.8 or above; otherwise the client gets the request. */
  predicate Started(s: SessionData, c: Call, v: Version, now: int, r: Reply)
    requires c.Get?
  {
    var status := if s.options.pairing != PairingNone && !v.Below(Version(2, 8)) then Pairing else Connected;
    && (Sensitive(r.response) <==> status == Connected) && !r.response.ErrorReply?
    && r.session == s.(status := status, result := s.result.(status := status), version := Some(v),
                       clientAuth := c.clientAuth, lastActive := now, legacyCompatible := c.got.legacyOk)
  }

  /** One that could not be started is cancelled. */
  predicate NotStarted(s: SessionData, c: Call, v: Option<Version>, now: int, r: Reply)
    requires c.Get?
  {
    var authorized := v.Some? && (c.clientAuth != "" || v.value.Below(Version(2, 8)));
    && r.session.status == Cancelled && r.session.result == SessionResult(Cancelled, None, true, false)
    && r.response == ErrorReply(if v.None? then ProtocolVersionError
                                else if authorized then RevocationError else Unauthorized)
    && r.session.lastActive == now && r.session.version == v && r.session.next == s.next
    && r.session.options == s.options
    && r.session.clientAuth == if authorized then c.clientAuth else s.clientAuth
  }

  /** A GET starts a session that nobody connected to yet exactly if a version can be chosen and all turns out well. */
  lemma GetStartsIff(conf: ServerConf, s: SessionData, c: Call, now: int)
    requires c.Get? && s.status == Initialized
    ensures var r := HandleGet(conf, s, c.minClient, c.maxClient, c.clientAuth, c.got, now);
            var v := ChooseVersion(conf, s, c.minClient, c.maxClient);
            if v.Some? && CanStart(s, c, v.value) then Started(s, c, v.value, now, r) else NotStarted(s, c, v, now, r)
  {
    var v := ChooseVersion(conf, s, c.minClient, c.maxClient);
    hide ChooseVersion;
    if v.Some? && (c.clientAuth != "" || v.value.Below(Version(2, 8))) && c.got.revocationOk {
      StartExact(s.(lastActive := now, version := v, clientAuth := c.clientAuth, legacyCompatible := c.got.legacyOk),
        v.value, c.got.copyOk);
      hide Start;
    } else {
      hide Start, Started;
    }
  }

  lemma StartExact(s: SessionData, v: Version, copyOk: bool)
    requires s.version == Some(v)
    ensures var r := Start(s, v, copyOk);
            var waits := s.options.pairing != PairingNone && !v.Below(Version(2, 8));
            var status := if waits then Pairing else Connected;
            if copyOk || waits || v.Below(Version(2, 5)) then
              && r.session == s.(status := status, result := s.result.(status := status))
              && (Sensitive(r.response) <==> !waits) && !r.response.ErrorReply?
            else r.response == ErrorReply(RevocationError)
                 && r.session == s.(status := Cancelled, result := SessionResult(Cancelled, None, true, false))
  {
  }

  /** What a POST must come to for the session to be done. */
  predicate Succeeds(s: SessionData, o: PostOutcome) {
    && !o.verifyError
    && (s.action == Issuing ==> o.proofStatus == Valid && o.signed)
    && (s.info.nextSession ==> o.proofStatus == Valid && !s.result.failed && !o.next.NextError?)
  }

  /** The session after a POST that makes it done: the verdict is kept, and whether a next session was started. */
  function DoneWith(s: SessionData, o: PostOutcome, now: int): SessionData {
    var started := s.info.nextSession && o.next.NextStarted?;
    s.(status := DoneStatus, lastActive := now, appended := s.appended + 1, next := s.next || started,
       result := SessionResult(DoneStatus, Some(o.proofStatus), s.result.failed, s.result.hasNext || started))
  }

  function VerdictReply(s: SessionData, o: PostOutcome): Response {
    var started := s.info.nextSession && o.next.NextStarted?;
    if s.action == Issuing then SignaturesReply(o.signatures, started) else ProofsReply(o.proofStatus, started)
  }

  /** Why a POST failed: it is of the wrong kind or cannot be used, its proofs are no good, or there is no next
      session. */
  function PostError(s: SessionData, c: Call): ErrorKind
    requires c.PostCommitments? || c.PostProofs?
  {
    var o := c.outcome;
    if c.PostProofs? && s.action == Issuing then InvalidRequest
    else if !Verifies(s, c) then MalformedInput
    else if o.verifyError || (s.action == Issuing && !(o.proofStatus == Valid && o.signed)) then ProofError
    else NextSessionError
  }

  /** What a POST of the client does to a connected session. It is done exactly if the proofs were verified and all
      that follows succeeds; cancelled exactly if preparing or verifying fails, or an issuance has proofs that are not
      valid; and otherwise still connected, in which case an error is sent. */
  predicate PostedOk(s: SessionData, c: Call, now: int, r: Reply)
    requires c.PostCommitments? || c.PostProofs?
  {
    var o := c.outcome;
    if Verifies(s, c) && Succeeds(s, o) then r == Reply(DoneWith(s, o, now), VerdictReply(s, o))
    else
      && r.response == ErrorReply(PostError(s, c))
      && (r.session.status == Cancelled || r.session.status == Connected)
      && (r.session.status == Cancelled <==>
            || (c.PostCommitments? && o.parses && !o.prepared)
            || (Verifies(s, c) && (o.verifyError || (s.action == Issuing && !(o.proofStatus == Valid && o.signed)))))
      && (r.session.status == Cancelled ==>
            r.session.result == SessionResult(Cancelled, None, true, false) && r.session.lastActive == now)
      && (r.session.status == Connected && !Verifies(s, c) ==> r.session == s)
      && (r.session.status == Connected && Verifies(s, c) ==>
            r.session == s.(lastActive := now, appended := s.appended + 1,
                            result := s.result.(proofStatus := Some(o.proofStatus))))
  }

  lemma PostExact(conf: ServerConf, s: SessionData, c: Call, now: int)
    requires Coherent(s) && s.status == Connected && (c.PostCommitments? || c.PostProofs?) && FromTheClient(c, s)
    requires HandleUncached(conf, s, c, now).Done?
    ensures PostedOk(s, c, now, HandleUncached(conf, s, c, now).value)
  {
    var o := c.outcome;
    var posted := s.(lastActive := now, appended := s.appended + 1, result :=
      s.result.(proofStatus := Some(o.proofStatus)));
    FinishExact(s, o, now, next => SignaturesReply(o.signatures, next));
    FinishExact(s, o, now, next => ProofsReply(o.proofStatus, next));
    hide FinishPost, DoneWith;
  }

  lemma FinishExact(s: SessionData, o: PostOutcome, now: int, response: bool -> Response)
    requires Coherent(s) && s.status == Connected
    ensures var posted := s.(lastActive := now, appended := s.appended + 1, result :=
              s.result.(proofStatus := Some(o.proofStatus)));
            FinishPost(posted, o.next, response) ==
              if s.info.nextSession && (o.proofStatus != Valid || s.result.failed || o.next.NextError?)
              then Reply(posted, ErrorReply(NextSessionError))
              else Reply(DoneWith(s, o, now), response(s.info.nextSession && o.next.NextStarted?))
  {
  }

  /** A GET to a session that was started, and any other call to a session that is not connected, or from another
      client, changes nothing. */
  lemma RefusedUnchanged(conf: ServerConf, s: SessionData, c: Call, now: int)
    requires IsCached(c)
    requires if c.Get? then s.status != Initialized else s.status != Connected || !FromTheClient(c, s)
    ensures HandleUncached(conf, s, c, now) ==
            Done(Reply(s, ErrorReply(if c.Get? then UnexpectedRequest
                                     else if s.status == Pairing then PairingRequired
                                     else if s.status == Connected then Unauthorized else UnexpectedRequest)))
  {
  }

  /** The client of a connected session of version 2.8 gets the request whenever it asks; if the request cannot be
      copied the session is cancelled. */
  lemma RequestSentIff(conf: ServerConf, s: SessionData, c: Call, now: int)
    requires Coherent(s) && s.status == Connected && c.GetRequest? && FromTheClient(c, s)
    ensures var o := HandleUncached(conf, s, c, now);
            && o.Done?
            && (o.value.response == RequestReply <==> !s.version.value.Below(Version(2, 8)) && c.copyOk)
            && (o.value.session == s <==> s.version.value.Below(Version(2, 8)) || c.copyOk)
            && (o.value.response != RequestReply ==>
                  o.value.response == ErrorReply(if o.value.session == s then UnexpectedRequest else RevocationError))
            && (o.value.session != s ==> o.value.session.status == Cancelled && o.value.session.result.failed)
  {
  }

  /** What the frontend and the requestor can change: the options before a client connects, the pairing of a client
      that waits for it, and, by cancelling, an unfinished session; the frontend only with its own authorization. */
  predicate FrontendOk(s: SessionData, c: Call, now: int, r: Reply)
    requires !IsCached(c)
  {
    var allowed := (c.FrontendOptions? || c.FrontendPairingCompleted?) ==> c.auth == s.frontendAuth;
    if !allowed then r == Reply(s, ErrorReply(Unauthorized))
    else if c.Delete? || c.ApiCancel? then
      && r.response == Okay
      && (Finished(s.status) ==> r.session == s)
      && (!Finished(s.status) ==>
            r.session == s.(status := Cancelled, result := SessionResult(Cancelled, None, false, false),
                            lastActive := now))
    else if c.FrontendOptions? || c.ApiSetOptions? then
      if s.status != Initialized || c.request.UnknownMethod? then r == Reply(s, ErrorReply(UnexpectedRequest))
      else && r.session == s.(options := r.session.options) && r.response == OptionsReply(r.session.options)
           && (c.request.KeepMethod? ==> r.session.options == s.options)
           && (!c.request.KeepMethod? ==>
                 && (r.session.options.pairing == PairingPin <==> c.request.UsePin?)
                 && (c.request.UsePin? ==> r.session.options.code == c.request.code)
                 && (c.request.UseNone? ==> r.session.options.code == 0))
    else if c.FrontendPairingCompleted? || c.ApiPairingCompleted? then
      if s.status == Pairing
      then r == Reply(s.(status := Connected, result := s.result.(status := Connected)), Okay)
      else r == Reply(s, ErrorReply(UnexpectedRequest))
    else r == Reply(s, StatusReply(s.status))
  }

  lemma FrontendExact(conf: ServerConf, s: SessionData, c: Call, now: int)
    requires !IsCached(c)
    ensures Handle(conf, s, c, now).Done? && FrontendOk(s, c, now, Handle(conf, s, c, now).value)
  {
    hide HandleCached;
  }

  /** Whatever call makes a session done is a POST of its client that is not a replay; the session keeps the verdict
      on the proofs of that POST, and for an issuance that verdict is VALID and the signatures sent are those issued. */
  lemma DoneMeans(conf: ServerConf, s: SessionData, c: Call, now: int)
    requires Coherent(s) && Handle(conf, s, c, now).Done?
    requires s.status != DoneStatus && Handle(conf, s, c, now).value.session.status == DoneStatus
    ensures c.PostCommitments? || c.PostProofs?
    ensures FromTheClient(c, s) && Succeeds(s, c.outcome)
    ensures var r := Handle(conf, s, c, now).value;
            && r.session.result.proofStatus == Some(c.outcome.proofStatus)
            && r.response == VerdictReply(s, c.outcome)
            && (r.session.result.hasNext <==> s.result.hasNext || (s.info.nextSession && c.outcome.next.NextStarted?))
            && (c.PostProofs? ==> r.response.ProofsReply? && r.response.proofStatus == c.outcome.proofStatus)
            && (c.PostCommitments? ==> c.outcome.proofStatus == Valid && r.response.SignaturesReply?
                                       && r.response.signatures == c.outcome.signatures)
  {
    CallAppends(conf, s, c, now);
    HandleIsStep(conf, s, c, now);
    var s' := s.(cache := None);
    hide HandleUncached;
    if c.PostCommitments? || c.PostProofs? {
      assert HandleUncached(conf, s', c, now).Done?;
      PostExact(conf, s', c, now);
    }
  }

  /** What the fields of a session mean: the version is fixed by the GET that starts it, and is at least 2.5, because
      whether older clients can be sent the request is found out only after that; only a cancelled session has
      failed; and a next session is announced only by a session that is done with valid proofs. */
  predicate Grounded(s: SessionData) {
    && (s.status == Initialized ==> !s.legacyCompatible)
    && (s.version.Some? ==> !s.version.value.Below(Version(2, 5)) && !s.version.value.Above(Version(2, 8)))
    && (s.result.failed ==> s.status == Cancelled)
    && (s.result.hasNext <==> s.next)
    && (s.next ==> s.status == DoneStatus && s.info.nextSession && s.result.proofStatus == Some(Valid))
  }

  lemma CallKeepsGrounded(conf: ServerConf, s: SessionData, c: Call, now: int)
    requires Coherent(s) && Grounded(s) && Handle(conf, s, c, now).Done?
    ensures Grounded(Handle(conf, s, c, now).value.session)
  {
    if !IsCached(c) {
      FrontendExact(conf, s, c, now);
      hide Handle;
    } else if !CacheHit(s, EndpointOf(c), c.message, now) {
      UncachedKeepsGrounded(conf, s.(cache := None), c, now);
      hide HandleUncached;
    }
  }

  lemma UncachedKeepsGrounded(conf: ServerConf, s: SessionData, c: Call, now: int)
    requires Coherent(s) && Grounded(s) && IsCached(c) && HandleUncached(conf, s, c, now).Done?
    ensures Grounded(HandleUncached(conf, s, c, now).value.session)
  {
    if c.Get? {
      if s.status == Initialized {
        MinVersionIff(conf, s, Version(2, 5));
        GetStartsIff(conf, s, c, now);
        var v := ChooseVersion(conf, s, c.minClient, c.maxClient);
        if v.Some? {
          MinVersionIff(conf, s, v.value);
        }
        hide ChooseVersion, HandleGet, CanStart;
      } else {
        hide ChooseVersion, Start;
      }
    } else if s.status != Connected || !FromTheClient(c, s) {
      RefusedUnchanged(conf, s, c, now);
    } else if c.GetRequest? {
      RequestSentIff(conf, s, c, now);
    } else {
      PostExact(conf, s, c, now);
      hide HandleUncached;
    }
  }

  /** The call sets this pairing method and code. */
  predicate Sets(c: Call, options: SessionOptions) {
    && (c.FrontendOptions? || c.ApiSetOptions?)
    && (if options.pairing == PairingPin then c.request == UsePin(options.code)
        else c.request.UseNone? && options.code == 0)
  }

  /** Only such a call changes the options. */
  lemma CallKeepsOptions(conf: ServerConf, s: SessionData, c: Call, now: int)
    requires Coherent(s) && Handle(conf, s, c, now).Done?
    ensures var options := Handle(conf, s, c, now).value.session.options; options == s.options || Sets(c, options)
  {
    HandleIsStep(conf, s, c, now);
    if !IsCached(c) {
      FrontendExact(conf, s, c, now);
      hide Handle, StepOk;
    } else if s.status == Initialized && !CacheHit(s, EndpointOf(c), c.message, now) {
      var s' := s.(cache := None);
      if c.Get? {
        GetStartsIff(conf, s', c, now);
        hide HandleGet, ChooseVersion, CanStart;
      } else {
        RefusedUnchanged(conf, s', c, now);
        hide HandleUncached;
      }
    }
  }

  // ---------------------------------------------------------------- replays

  /** The same kind of call. */
  predicate SameKind(c: Call, d: Call)
    requires IsCached(c) && IsCached(d)
  {
    (c.Get? <==> d.Get?) && (c.GetRequest? <==> d.GetRequest?) && (c.PostProofs? <==> d.PostProofs?)
  }

  /** A retry of the call whose response was cached, in a session that has not changed its status since. */
  predicate IsRetry(s: SessionData, first: Call, c: Call, now: int)
    requires IsCached(first) && IsCached(c)
  {
    && SameKind(first, c) && first.message == c.message && now <= s.lastActive + 10
    && s.cache.Some? && s.cache.value.sessionStatus == s.status
  }

  /** A cached response is replayed exactly for such a retry, and then nothing changes. */
  lemma ReplayedIffRetry(conf: ServerConf, s: SessionData, first: Call, c: Call, now: int)
    requires IsCached(first) && IsCached(c) && s.cache.Some?
    requires s.cache.value.endpoint == EndpointOf(first) && s.cache.value.message == first.message
    ensures CacheHit(s, EndpointOf(c), c.message, now) <==> IsRetry(s, first, c, now)
    ensures IsRetry(s, first, c, now) ==> Handle(conf, s, c, now) == Done(Reply(s, s.cache.value.response))
  {
    hide HandleUncached;
  }

  /** On a started session a call that does not come from its client gets a sensitive reply exactly if
      it hits the cache while a sensitive reply is cached: a replay is sent to whoever asks for it. */
  lemma StrangerGetsReplays(conf: ServerConf, s: SessionData, c: Call, now: int)
    requires Coherent(s) && s.status != Initialized && !FromTheClient(c, s) && Handle(conf, s, c, now).Done?
    ensures Sensitive(Handle(conf, s, c, now).value.response) <==>
            IsCached(c) && CacheHit(s, EndpointOf(c), c.message, now) && Sensitive(s.cache.value.response)
  {
    if IsCached(c) {
      CachedCall(conf, s, c, now);
      if !CacheHit(s, EndpointOf(c), c.message, now) {
        HandleIsStep(conf, s, c, now);
        hide Handle, CacheHit;
      }
    } else {
      OtherCall(conf, s, c, now);
    }
  }

  // ---------------------------------------------------------------- what a POST appends

  /** A POST that gets as far as verification, which is when the implicit disclosure is appended. */
  predicate Verifies(s: SessionData, c: Call) {
    && (c.PostCommitments? || c.PostProofs?)
    && PairingRefusal(s, c.clientAuth).None?
    && (if c.PostCommitments? then s.action == Issuing && c.outcome.parses && c.outcome.prepared
        else s.action != Issuing && c.outcome.parses)
  }

  /** How a handler that is not answered from the cache counts: it appends once exactly if it verifies;
      then the session is done, cancelled, or still connected after a failure to start the next
      session, a failure that nothing else reports; and nothing else makes a session done. */
  predicate AppendsOnce(s: SessionData, c: Call, r: Reply) {
    && r.session.appended == s.appended + (if Verifies(s, c) then 1 else 0)
    && (r.response == ErrorReply(NextSessionError) ==> Verifies(s, c) && r.session.status == Connected)
    && (Verifies(s, c) ==> r.session.status == DoneStatus || r.session.status == Cancelled
                           || r.response == ErrorReply(NextSessionError))
    && (r.session.status == DoneStatus && s.status != DoneStatus ==> Verifies(s, c))
  }

  lemma FinishAppends(s: SessionData, next: NextOutcome, response: bool -> Response)
    requires forall b :: !response(b).ErrorReply?
    ensures var r := FinishPost(s, next, response);
            && r.session.appended == s.appended
            && (if r.response == ErrorReply(NextSessionError) then r.session == s else r.session.status == DoneStatus)
  {
  }

  lemma GetAppends(conf: ServerConf, s: SessionData, c: Call, now: int)
    requires c.Get?
    ensures AppendsOnce(s, c, HandleGet(conf, s, c.minClient, c.maxClient, c.clientAuth, c.got, now))
  {
    hide ChooseVersion, NeedsPairing;
  }

  lemma UncachedAppends(conf: ServerConf, s: SessionData, c: Call, now: int)
    requires IsCached(c) && HandleUncached(conf, s, c, now).Done?
    ensures AppendsOnce(s, c, HandleUncached(conf, s, c, now).value)
  {
    hide FinishPost, HandleGet;
    if c.Get? {
      GetAppends(conf, s, c, now);
    } else if c.PostCommitments? {
      var s2 := s.(lastActive := now, appended := s.appended + 1, result :=
        s.result.(proofStatus := Some(c.outcome.proofStatus)));
      FinishAppends(s2, c.outcome.next, next => SignaturesReply(c.outcome.signatures, next));
    } else if c.PostProofs? {
      var s1 := s.(lastActive := now, appended := s.appended + 1, result :=
        s.result.(proofStatus := Some(c.outcome.proofStatus)));
      FinishAppends(s1, c.outcome.next, next => ProofsReply(c.outcome.proofStatus, next));
    }
  }

  /** The same for every call: only a verifying POST that is not a replay appends, and only once. */
  lemma CallAppends(conf: ServerConf, s: SessionData, c: Call, now: int)
    requires Handle(conf, s, c, now).Done?
    ensures var r := Handle(conf, s, c, now).value;
            if IsCached(c) && !CacheHit(s, EndpointOf(c), c.message, now) then AppendsOnce(s, c, r)
            else r.session.appended == s.appended
                 && (r.session.status == DoneStatus ==> s.status == DoneStatus)
                 && (IsCached(c) || r.response != ErrorReply(NextSessionError))
  {
    hide HandleUncached;
    if IsCached(c) && !CacheHit(s, EndpointOf(c), c.message, now) {
      UncachedAppends(conf, s.(cache := None), c, now);
    }
  }

  /** What is left of a session after a POST whose next session failed to start. */
  lemma AfterFailedPost(conf: ServerConf, s: SessionData, c: Call, now: int)
    requires IsCached(c) && HandleUncached(conf, s, c, now).Done?
    requires HandleUncached(conf, s, c, now).value.response == ErrorReply(NextSessionError)
    ensures var after := HandleUncached(conf, s, c, now).value.session;
            after.lastActive == now && after.action == s.action && after.clientAuth == s.clientAuth
  {
    hide FinishPost, ChooseVersion;
    if c.PostCommitments? {
      var s2 := s.(lastActive := now, appended := s.appended + 1, result :=
        s.result.(proofStatus := Some(c.outcome.proofStatus)));
      FinishAppends(s2, c.outcome.next, next => SignaturesReply(c.outcome.signatures, next));
    } else if c.PostProofs? {
      var s1 := s.(lastActive := now, appended := s.appended + 1, result :=
        s.result.(proofStatus := Some(c.outcome.proofStatus)));
      FinishAppends(s1, c.outcome.next, next => ProofsReply(c.outcome.proofStatus, next));
    }
  }

  /** A POST whose next session fails to start, retried by the same client: the implicit disclosure is
      appended a second time exactly if the body differs or more than ten seconds have passed, since
      otherwise the retry is answered from the cache. */
  lemma RetriedPostAppendsTwice(conf: ServerConf, s: SessionData, c: Call, now: int, retry: Call, later: int)
    requires Coherent(s) && IsCached(c) && !CacheHit(s, EndpointOf(c), c.message, now)
    requires Handle(conf, s, c, now).Done? && Handle(conf, s, c, now).value.response == ErrorReply(NextSessionError)
    requires IsCached(retry) && EndpointOf(retry) == EndpointOf(c) && Verifies(s, retry)
    ensures var s1 := Handle(conf, s, c, now).value.session;
            && s1.appended == s.appended + 1
            && Handle(conf, s1, retry, later).Done?
            && var s2 := Handle(conf, s1, retry, later).value.session;
            && (s2.appended == s.appended + 2 <==> retry.message != c.message || later > now + RETRY_TIME_LIMIT)
            && (s2.appended != s.appended + 2 ==> s2 == s1)
  {
    CallAppends(conf, s, c, now);
    var s1 := Handle(conf, s, c, now).value.session;
    hide HandleUncached;
    assert s1.lastActive == now && s1.action == s.action && s1.clientAuth == s.clientAuth by {
      AfterFailedPost(conf, s.(cache := None), c, now);
    }
    CachedCall(conf, s, c, now);
    HandleIsStep(conf, s, c, now);
    HandleIsStep(conf, s1, retry, later);
    CallAppends(conf, s1, retry, later);
    CachedCall(conf, s1, retry, later);
    hide Handle, AppendsOnce;
  }
}
