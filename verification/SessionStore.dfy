/** server/irmaserver/sessions.go: any number of transactions in flight on one stored session. Each
    works on a copy of the session it found and is stored only if no other was stored meanwhile. */
module SessionStore {
  import opened Outcomes
  import opened Session

  /** A stored change: the call, when the timeout and the call were handled, and the response. */
  datatype Commit = Commit(call: Call, checked: int, now: int, response: Response)

  /** A response that went out: it was computed from `history[before]`, and its change, if it made
      one, is `commits[commit]`. */
  datatype Release = Release(call: Call, response: Response, before: nat, commit: Option<nat>)

  /** `history` lists the stored sessions, the last one being current; a transaction in flight is the
      position of the session it copied. */
  datatype Store = Store(history: seq<SessionData>, commits: seq<Commit>, inflight: map<nat, nat>,
    released: seq<Release>)

  datatype Step =
    | Begin(tid: nat)
    | Finish(tid: nat, call: Call, checked: int, now: int)

  /** A new session, as add stores it. */
  function NewStore(conf: ServerConf, action: Action, info: RequestInfo, frontendAuth: string, now: int): (st: Store)
    ensures Inv(conf, st) && st.history == [NewSession(action, info, frontendAuth, now)]
  {
    Store([NewSession(action, info, frontendAuth, now)], [], map[], [])
  }

  function Current(st: Store): SessionData
    requires st.history != []
  {
    st.history[|st.history| - 1]
  }

  function Answer(st: Store, tid: nat, r: Release): Store {
    st.(inflight := st.inflight - {tid}, released := st.released + [r])
  }

  /** What a transaction does with the session it copied. */
  function Attempt(conf: ServerConf, before: SessionData, step: Step): Outcome<Reply>
    requires step.Finish?
  {
    Handle(conf, ApplyTimeout(conf, before, step.checked), step.call, step.now)
  }

  predicate Updates(conf: ServerConf, before: SessionData, step: Step)
    requires step.Finish? && Attempt(conf, before, step).Done?
  {
    WantsUpdate(ApplyTimeout(conf, before, step.checked), step.call, Attempt(conf, before, step).value)
  }

  /** handleTransaction, in two steps: copying the session, and everything after that. */
  function Next(conf: ServerConf, st: Store, step: Step): Store
    requires st.history != []
    requires forall tid <- st.inflight :: st.inflight[tid] < |st.history|
  {
    match step
    case Begin(tid) =>
      if tid in st.inflight then st else st.(inflight := st.inflight[tid := |st.history| - 1])
    case Finish(tid, call, checked, now) =>
      if tid !in st.inflight then st else
        var before := st.inflight[tid];
        var o := Attempt(conf, st.history[before], step);
        if !o.Done? then Answer(st, tid, Release(call, ErrorReply(InternalError), before, None))
        else if !Updates(conf, st.history[before], step)
          then Answer(st, tid, Release(call, o.value.response, before, None))
        else if before != |st.history| - 1 then Answer(st, tid, Release(call, ErrorReply(InternalError), before, None))
        else
          Answer(st, tid, Release(call, o.value.response, before, Some(|st.commits|)))
            .(history := st.history + [o.value.session], commits :=
              st.commits + [Commit(call, checked, now, o.value.response)])
  }

  // ---------------------------------------------------------------- the invariant of every run

  /** The k-th stored change is what its call makes of the session stored before it: no change is lost. */
  ghost predicate Serial(conf: ServerConf, h: seq<SessionData>, cs: seq<Commit>, k: nat)
    requires k < |cs| && |h| == |cs| + 1
  {
    && Attempt(conf, h[k], Finish(0, cs[k].call, cs[k].checked, cs[k].now)) == Done(Reply(h[k + 1], cs[k].response))
    && Updates(conf, h[k], Finish(0, cs[k].call, cs[k].checked, cs[k].now))
  }

  ghost predicate SerialHistory(conf: ServerConf, h: seq<SessionData>, cs: seq<Commit>) {
    && |h| == |cs| + 1
    && Coherent(h[0]) && h[0].cache == None && h[0].status == Initialized
    && forall k: nat :: k < |cs| ==> Serial(conf, h, cs, k)
  }

  /** Where a response came from: the change that was stored with it, or an unchanged reading of a
      session that was stored, or nothing but an internal error. */
  ghost predicate Accounted(conf: ServerConf, h: seq<SessionData>, cs: seq<Commit>, r: Release) {
    && r.before < |h|
    && match r.commit
       case Some(k) => k == r.before && k < |cs| && cs[k].call == r.call && cs[k].response == r.response
       case None => r.response == ErrorReply(InternalError) || ReadOnly(conf, h[r.before], r)
  }

  ghost predicate ReadOnly(conf: ServerConf, before: SessionData, r: Release) {
    exists checked: int, now: int ::
      && Attempt(conf, before, Finish(0, r.call, checked, now)).Done?
      && Attempt(conf, before, Finish(0, r.call, checked, now)).value.response == r.response
      && !Updates(conf, before, Finish(0, r.call, checked, now))
  }

  ghost predicate Inv(conf: ServerConf, st: Store) {
    && SerialHistory(conf, st.history, st.commits)
    && (forall tid <- st.inflight :: st.inflight[tid] < |st.history|)
    && (forall i: nat :: i < |st.released| ==> Accounted(conf, st.history, st.commits, st.released[i]))
    && (forall i: nat, j: nat :: i < j < |st.released| && st.released[i].commit.Some? ==>
          st.released[j].commit != st.released[i].commit)
  }

  lemma AccountedGrows(conf: ServerConf, h: seq<SessionData>, cs: seq<Commit>, s: SessionData, c: Commit, r: Release)
    requires |h| == |cs| + 1 && Accounted(conf, h, cs, r)
    ensures Accounted(conf, h + [s], cs + [c], r)
  {
    hide ReadOnly;
  }

  lemma SerialGrows(conf: ServerConf, h: seq<SessionData>, cs: seq<Commit>, s: SessionData, c: Commit)
    requires SerialHistory(conf, h, cs)
    requires Attempt(conf, h[|cs|], Finish(0, c.call, c.checked, c.now)) == Done(Reply(s, c.response))
    requires Updates(conf, h[|cs|], Finish(0, c.call, c.checked, c.now))
    ensures SerialHistory(conf, h + [s], cs + [c])
  {
    hide Attempt, Updates;
    var h', cs' := h + [s], cs + [c];
    forall k: nat | k < |cs'| ensures Serial(conf, h', cs', k) {
      if k < |cs| {
        assert Serial(conf, h, cs, k);
      }
    }
  }

  lemma StepKeepsInv(conf: ServerConf, st: Store, step: Step)
    requires Inv(conf, st)
    ensures Inv(conf, Next(conf, st, step))
  {
    assert |st.history| == |st.commits| + 1;
    hide Handle, ApplyTimeout, WantsUpdate, SerialHistory;
    var st' := Next(conf, st, step);
    if step.Finish? && step.tid in st.inflight {
      var before := st.inflight[step.tid];
      var r := st'.released[|st.released|];
      var o := Attempt(conf, st.history[before], step);
      if st'.history == st.history {
        assert Accounted(conf, st'.history, st'.commits, r) by {
          if o.Done? && !Updates(conf, st.history[before], step) {
            assert Attempt(conf, st.history[before], Finish(0, r.call, step.checked, step.now)).value.response ==
              r.response;
          }
        }
      } else {
        var c := Commit(step.call, step.checked, step.now, o.value.response);
        SerialGrows(conf, st.history, st.commits, o.value.session, c);
        forall i: nat | i < |st'.released| ensures Accounted(conf, st'.history, st'.commits, st'.released[i]) {
          if i < |st.released| {
            AccountedGrows(conf, st.history, st.commits, o.value.session, c, st.released[i]);
          }
        }
      }
    }
  }

  /** Every run from a new session. */
  function Run(conf: ServerConf, st: Store, steps: seq<Step>): (r: Store)
    requires Inv(conf, st)
    ensures Inv(conf, r)
    decreases |steps|
  {
    if steps == [] then st
    else
      StepKeepsInv(conf, st, steps[0]);
      Run(conf, Next(conf, st, steps[0]), steps[1..])
  }

  // ---------------------------------------------------------------- the status machine over a run

  /** Checking the timeout first makes no difference to what a change may do. */
  lemma TimeoutThenStep(conf: ServerConf, s: SessionData, checked: int, b: SessionData, c: Call)
    requires Coherent(s) && StepOk(ApplyTimeout(conf, s, checked), b, c)
    ensures StepOk(s, b, c)
  {
  }

  /** Every stored session is coherent, and every stored change is an allowed one. */
  lemma {:induction false} CommittedStep(conf: ServerConf, h: seq<SessionData>, cs: seq<Commit>, k: nat)
    requires SerialHistory(conf, h, cs) && k < |cs|
    ensures Coherent(h[k]) && StepOk(h[k], h[k + 1], cs[k].call)
  {
    if k > 0 {
      CommittedStep(conf, h, cs, k - 1);
    }
    assert Serial(conf, h, cs, k);
    hide Handle, WantsUpdate;
    var base := ApplyTimeout(conf, h[k], cs[k].checked);
    TimeoutIsStep(conf, h[k], cs[k].checked, cs[k].call);
    HandleIsStep(conf, base, cs[k].call, cs[k].now);
    TimeoutThenStep(conf, h[k], cs[k].checked, h[k + 1], cs[k].call);
  }

  /** What stays fixed from one stored session to any later one: the outcome once the session is
      finished, and the pairing method, version and client once it is started. */
  ghost predicate Fixed(a: SessionData, b: SessionData) {
    && Coherent(a) && Coherent(b)
    && (Finished(a.status) ==> b.status == a.status && b.result == a.result)
    && (a.status != Initialized ==>
          b.status != Initialized && b.options == a.options && b.version == a.version && b.clientAuth == a.clientAuth)
    && (a.status == Connected ==> b.status != Pairing)
  }

  lemma {:induction false} FixedForever(conf: ServerConf, h: seq<SessionData>, cs: seq<Commit>, i: nat, j: nat)
    requires SerialHistory(conf, h, cs) && i <= j < |h|
    ensures Fixed(h[i], h[j])
    decreases j - i
  {
    if i < |cs| {
      CommittedStep(conf, h, cs, i);
    } else if i > 0 {
      CommittedStep(conf, h, cs, i - 1);
    }
    if i < j {
      FixedForever(conf, h, cs, i + 1, j);
    }
  }

  predicate BecomesDone(h: seq<SessionData>, k: nat)
    requires k + 1 < |h|
  {
    h[k].status != DoneStatus && h[k + 1].status == DoneStatus
  }

  /** At most one stored change makes the session DONE. */
  lemma DoneOnce(conf: ServerConf, h: seq<SessionData>, cs: seq<Commit>, i: nat, j: nat)
    requires SerialHistory(conf, h, cs) && i < |cs| && j < |cs|
    requires BecomesDone(h, i) && BecomesDone(h, j)
    ensures i == j
  {
    if i < j {
      FixedForever(conf, h, cs, i + 1, j);
    } else if j < i {
      FixedForever(conf, h, cs, j + 1, i);
    }
  }

  // ---------------------------------------------------------------- pairing

  predicate CompletesPairing(h: seq<SessionData>, cs: seq<Commit>, p: nat)
    requires p < |cs| && |h| == |cs| + 1
  {
    && (cs[p].call.ApiPairingCompleted? || cs[p].call.FrontendPairingCompleted?)
    && h[p].status == Pairing && h[p + 1].status == Connected
  }

  /** A session that needs pairing is connected or done only after a stored pairing-completed call. */
  lemma {:induction false} ConnectedMeansPaired(conf: ServerConf, h: seq<SessionData>, cs: seq<Commit>, k: nat)
    returns (p: nat)
    requires SerialHistory(conf, h, cs) && k < |h|
    requires NeedsPairing(h[k]) && (h[k].status == Connected || h[k].status == DoneStatus)
    ensures p < k && CompletesPairing(h, cs, p)
  {
    CommittedStep(conf, h, cs, k - 1);
    if h[k - 1].status == Connected || h[k - 1].status == DoneStatus {
      p := ConnectedMeansPaired(conf, h, cs, k - 1);
    } else {
      p := k - 1;
    }
  }

  // ---------------------------------------------------------------- responses and the replay cache

  /** The response stored with change j was computed by its handler, not replayed from the cache. */
  ghost predicate FreshAt(conf: ServerConf, h: seq<SessionData>, cs: seq<Commit>, j: nat)
    requires j < |cs| && |h| == |cs| + 1
  {
    && IsCached(cs[j].call)
    && FreshOk(ApplyTimeout(conf, h[j], cs[j].checked), cs[j].call, Reply(h[j + 1], cs[j].response))
  }

  /** The cache holds the response to that call. */
  ghost predicate CachedFrom(s: SessionData, c: Commit) {
    && IsCached(c.call) && s.cache.Some? && s.cache.value.response == c.response
    && s.cache.value.endpoint == EndpointOf(c.call) && s.cache.value.message == c.call.message
  }

  /** A stored change made by a cached endpoint has a fresh response, which it also cached; any other
      stored change leaves the cache as it was and sends nothing sensitive. */
  lemma CommittedResponse(conf: ServerConf, h: seq<SessionData>, cs: seq<Commit>, k: nat)
    requires SerialHistory(conf, h, cs) && k < |cs|
    ensures if IsCached(cs[k].call) then FreshAt(conf, h, cs, k) && CachedFrom(h[k + 1], cs[k])
            else h[k + 1].cache == h[k].cache && !Sensitive(cs[k].response)
  {
    CommittedStep(conf, h, cs, k);
    assert Serial(conf, h, cs, k);
    hide Handle, FreshOk, StepOk;
    var base := ApplyTimeout(conf, h[k], cs[k].checked);
    assert base.cache == h[k].cache && Coherent(base);
    if IsCached(cs[k].call) {
      CachedCall(conf, base, cs[k].call, cs[k].now);
    } else {
      OtherCall(conf, base, cs[k].call, cs[k].now);
    }
  }

  /** Every cached response was computed for an earlier stored change, by the call it is cached for. */
  lemma {:induction false} CacheOrigin(conf: ServerConf, h: seq<SessionData>, cs: seq<Commit>, k: nat)
    requires SerialHistory(conf, h, cs) && k < |h| && h[k].cache.Some?
    ensures exists j: nat :: j < k && FreshAt(conf, h, cs, j) && CachedFrom(h[k], cs[j])
  {
    CommittedResponse(conf, h, cs, k - 1);
    hide FreshAt;
    if !IsCached(cs[k - 1].call) {
      CacheOrigin(conf, h, cs, k - 1);
    }
  }

  /** The stored session a released sensitive response rests on, one that already had the response's
      status: the change it was stored with, the one whose response was replayed, or a mere reading. */
  lemma SensitiveBasis(conf: ServerConf, st: Store, r: Release)
    requires Inv(conf, st) && Accounted(conf, st.history, st.commits, r) && Sensitive(r.response)
    ensures
      || (r.commit == Some(r.before) && FreshAt(conf, st.history, st.commits, r.before)
        && st.commits[r.before].response == r.response)
      || (r.commit == None && st.history[r.before].cache.Some?
        && st.history[r.before].cache.value.response == r.response)
      || (r.commit == None && !r.response.SignaturesReply?
        && (st.history[r.before].status == Connected || st.history[r.before].status == DoneStatus))
  {
    var h, cs := st.history, st.commits;
    if r.commit.Some? {
      CommittedResponse(conf, h, cs, r.before);
    } else {
      if r.before > 0 {
        CommittedStep(conf, h, cs, r.before - 1);
      }
      ReadOnlyBasis(conf, h[r.before], r);
    }
  }

  lemma ReadOnlyBasis(conf: ServerConf, before: SessionData, r: Release)
    requires Coherent(before) && ReadOnly(conf, before, r) && Sensitive(r.response)
    ensures
      || (before.cache.Some? && before.cache.value.response == r.response)
      || (!r.response.SignaturesReply? && (before.status == Connected || before.status == DoneStatus))
  {
    var checked: int, now: int :|
      && Attempt(conf, before, Finish(0, r.call, checked, now)).Done?
      && Attempt(conf, before, Finish(0, r.call, checked, now)).value.response == r.response
      && !Updates(conf, before, Finish(0, r.call, checked, now));
    var base := ApplyTimeout(conf, before, checked);
    assert Coherent(base) && base.cache == before.cache;
    assert base == before || base.status == Timeout;
    hide Handle, ApplyTimeout;
    if IsCached(r.call) {
      CachedCall(conf, base, r.call, now);
    } else {
      OtherCall(conf, base, r.call, now);
    }
  }

  /** Issued signatures leave the server only as the response of the one stored change that makes the
      session DONE after valid proofs, or as a replay of that response. */
  lemma SignaturesReleased(conf: ServerConf, st: Store, i: nat)
    requires Inv(conf, st) && i < |st.released| && st.released[i].response.SignaturesReply?
    ensures exists k: nat :: k < |st.commits| && SignaturesFrom(st, st.released[i], k)
  {
    var r := st.released[i];
    var h, cs := st.history, st.commits;
    SensitiveBasis(conf, st, r);
    if r.commit == None {
      CacheOrigin(conf, h, cs, r.before);
      var j: nat :| j < r.before && FreshAt(conf, h, cs, j) && CachedFrom(h[r.before], cs[j]);
      assert SignaturesFrom(st, r, j);
    } else {
      assert SignaturesFrom(st, r, r.before);
    }
  }

  predicate SignaturesFrom(st: Store, r: Release, k: nat)
    requires |st.history| == |st.commits| + 1 && k < |st.commits| && r.before < |st.history|
  {
    && BecomesDone(st.history, k) && st.history[k].status == Connected
    && st.history[k + 1].result.proofStatus == Some(Valid)
    && st.commits[k].response == r.response
    && (if r.commit == None then k < r.before && st.history[r.before].cache.Some?
      && st.history[r.before].cache.value.response == r.response
        else r.commit == Some(k))
  }

  /** In a session that needs pairing, the session request is sent and proofs are accepted only
      after a stored pairing-completed call, replayed responses included. */
  lemma SensitiveAfterPairing(conf: ServerConf, st: Store, i: nat)
    requires Inv(conf, st) && i < |st.released| && Sensitive(st.released[i].response)
    requires NeedsPairing(Current(st))
    ensures exists p: nat :: p < st.released[i].before && CompletesPairing(st.history, st.commits, p)
  {
    var r := st.released[i];
    var h, cs := st.history, st.commits;
    SensitiveBasis(conf, st, r);
    if r.commit == Some(r.before) {
      PairedBefore(conf, h, cs, r.before + 1);
    } else if h[r.before].cache.Some? && h[r.before].cache.value.response == r.response {
      CacheOrigin(conf, h, cs, r.before);
      var j: nat :| j < r.before && FreshAt(conf, h, cs, j) && CachedFrom(h[r.before], cs[j]);
      PairedBefore(conf, h, cs, j + 1);
    } else {
      PairedBefore(conf, h, cs, r.before);
    }
  }

  lemma PairedBefore(conf: ServerConf, h: seq<SessionData>, cs: seq<Commit>, k: nat)
    requires SerialHistory(conf, h, cs) && k < |h| && NeedsPairing(h[|h| - 1])
    requires h[k].status == Connected || h[k].status == DoneStatus
    ensures exists p: nat :: p < k && CompletesPairing(h, cs, p)
  {
    FixedForever(conf, h, cs, k, |h| - 1);
    var p := ConnectedMeansPaired(conf, h, cs, k);
  }

  /** The response was replayed from the cache of the session the transaction had copied. */
  ghost predicate Replayed(conf: ServerConf, before: SessionData, r: Release) {
    && IsCached(r.call)
    && exists checked: int, now: int :: HitBy(ApplyTimeout(conf, before, checked), r, now)
  }

  ghost predicate HitBy(base: SessionData, r: Release, now: int)
    requires IsCached(r.call)
  {
    CacheHit(base, EndpointOf(r.call), r.call.message, now) && base.cache.value.response == r.response
  }

  lemma ReadByTheClient(conf: ServerConf, before: SessionData, r: Release)
    requires Coherent(before) && ReadOnly(conf, before, r) && Sensitive(r.response)
    ensures Replayed(conf, before, r) || (FromTheClient(r.call, before) && before.status != Initialized)
  {
    var checked: int, now: int :|
      && Attempt(conf, before, Finish(0, r.call, checked, now)).Done?
      && Attempt(conf, before, Finish(0, r.call, checked, now)).value.response == r.response
      && !Updates(conf, before, Finish(0, r.call, checked, now));
    var base := ApplyTimeout(conf, before, checked);
    assert Coherent(base) && base.clientAuth == before.clientAuth && (base == before || base.status == Timeout);
    if IsCached(r.call) {
      CachedCall(conf, base, r.call, now);
      hide Handle, ApplyTimeout, CacheHit;
      if CacheHit(base, EndpointOf(r.call), r.call.message, now) {
        assert HitBy(base, r, now);
      }
    } else {
      hide Handle, ApplyTimeout;
      OtherCall(conf, base, r.call, now);
    }
  }

  /** Every sensitive response went to the client that started the session, or was replayed from the
      cache, which does not look at who asks (StrangerGetsReplays, and the run in SessionReplay). */
  lemma SensitiveToOneClient(conf: ServerConf, st: Store, i: nat)
    requires Inv(conf, st) && i < |st.released| && Sensitive(st.released[i].response)
    ensures Accounted(conf, st.history, st.commits, st.released[i])
    ensures FromTheClient(st.released[i].call, Current(st))
      || Replayed(conf, st.history[st.released[i].before], st.released[i])
  {
    var r := st.released[i];
    var h, cs := st.history, st.commits;
    assert Accounted(conf, h, cs, r);
    if r.commit.Some? {
      CommittedResponse(conf, h, cs, r.before);
      FixedForever(conf, h, cs, r.before + 1, |h| - 1);
    } else {
      FixedForever(conf, h, cs, r.before, |h| - 1);
      ReadByTheClient(conf, h[r.before], r);
    }
  }

  /** A replayed response was computed for an earlier stored call of the same kind, with the same message. */
  lemma ReplayOrigin(conf: ServerConf, st: Store, r: Release)
    requires Inv(conf, st) && r.before < |st.history| && Replayed(conf, st.history[r.before], r)
    ensures exists j: nat :: j < r.before && IsCached(st.commits[j].call) && SameKind(st.commits[j].call, r.call)
                             && st.commits[j].call.message == r.call.message && st.commits[j].response == r.response
  {
    var h, cs := st.history, st.commits;
    CacheOrigin(conf, h, cs, r.before);
    var j: nat :| j < r.before && FreshAt(conf, h, cs, j) && CachedFrom(h[r.before], cs[j]);
    assert SameKind(cs[j].call, r.call);
  }

  /** A transaction that is not stored leaves the session as its timeout check did: nothing is lost. */
  lemma UnstoredIsUnchanged(conf: ServerConf, before: SessionData, step: Step)
    requires step.Finish? && Attempt(conf, before, step).Done?
    ensures !Updates(conf, before, step) ==>
              Attempt(conf, before, step).value.session == ApplyTimeout(conf, before, step.checked)
    ensures Updates(conf, before, step) && IsApi(step.call) ==>
              !step.call.ApiRead? && !Attempt(conf, before, step).value.response.ErrorReply?
  {
    var base := ApplyTimeout(conf, before, step.checked);
    hide ApplyTimeout, Handle;
    if !IsCached(step.call) {
      FrontendExact(conf, base, step.call, step.now);
    }
  }

  // ---------------------------------------------------------------- the verdict of a run

  /** The change that made the session done: the POST of its client whose verdict the session keeps. */
  ghost predicate DoneBy(conf: ServerConf, h: seq<SessionData>, cs: seq<Commit>, k: nat, verdict: Option<ProofStatus>)
    requires k < |cs| && |h| == |cs| + 1
  {
    && BecomesDone(h, k) && (cs[k].call.PostCommitments? || cs[k].call.PostProofs?)
    && FromTheClient(cs[k].call, h[k]) && VerifiesAt(conf, h, cs, k) && Succeeds(h[k], cs[k].call.outcome)
    && verdict == Some(cs[k].call.outcome.proofStatus) && cs[k].response == VerdictReply(h[k], cs[k].call.outcome)
  }

  lemma CommittedDone(conf: ServerConf, h: seq<SessionData>, cs: seq<Commit>, k: nat)
    requires SerialHistory(conf, h, cs) && k < |cs| && BecomesDone(h, k)
    ensures DoneBy(conf, h, cs, k, h[k + 1].result.proofStatus)
  {
    CommittedStep(conf, h, cs, k);
    CommittedAppends(conf, h, cs, k);
    assert Serial(conf, h, cs, k);
    var base := ApplyTimeout(conf, h[k], cs[k].checked);
    assert Coherent(base) && (base == h[k] || base.status == Timeout);
    hide Handle, ApplyTimeout, SerialHistory;
    assert VerifiesAt(conf, h, cs, k);
    DoneMeans(conf, base, cs[k].call, cs[k].now);
  }

  lemma {:induction false} DoneAt(conf: ServerConf, h: seq<SessionData>, cs: seq<Commit>, n: nat) returns (k: nat)
    requires SerialHistory(conf, h, cs) && n < |h| && h[n].status == DoneStatus
    ensures k < n && BecomesDone(h, k)
  {
    if h[n - 1].status == DoneStatus {
      k := DoneAt(conf, h, cs, n - 1);
    } else {
      k := n - 1;
    }
  }

  /** In every interleaving: a session that is DONE keeps the verdict on the proofs of the one stored POST of its
      client that made it DONE, which was answered with that verdict. */
  lemma EveryRunKeepsVerdict(conf: ServerConf, st: Store, steps: seq<Step>)
    requires Inv(conf, st) && Current(Run(conf, st, steps)).status == DoneStatus
    ensures var end := Run(conf, st, steps);
            exists k: nat :: k < |end.commits|
              && DoneBy(conf, end.history, end.commits, k, Current(end).result.proofStatus)
  {
    var end := Run(conf, st, steps);
    hide Run;
    var h, cs := end.history, end.commits;
    var k := DoneAt(conf, h, cs, |cs|);
    CommittedDone(conf, h, cs, k);
    FixedForever(conf, h, cs, k + 1, |cs|);
  }

  lemma {:induction false} HistoryGrounded(conf: ServerConf, h: seq<SessionData>, cs: seq<Commit>, k: nat)
    requires SerialHistory(conf, h, cs) && k < |h| && Grounded(h[0])
    ensures Grounded(h[k])
  {
    if k > 0 {
      HistoryGrounded(conf, h, cs, k - 1);
      CommittedStep(conf, h, cs, k - 1);
      assert Serial(conf, h, cs, k - 1);
      var base := ApplyTimeout(conf, h[k - 1], cs[k - 1].checked);
      assert Coherent(base) && Grounded(base);
      hide Handle, ApplyTimeout, SerialHistory;
      CallKeepsGrounded(conf, base, cs[k - 1].call, cs[k - 1].now);
    }
  }

  /** In every interleaving from a new session: no version below 2.5 is ever negotiated, only a cancelled session has
      failed, and a next session is announced only by a session that is done with valid proofs. */
  lemma EveryRunGrounded(conf: ServerConf, action: Action, info: RequestInfo, frontendAuth: string, now: int,
                         steps: seq<Step>)
    ensures forall s <- Run(conf, NewStore(conf, action, info, frontendAuth, now), steps).history :: Grounded(s)
  {
    var start := NewStore(conf, action, info, frontendAuth, now);
    var st := Run(conf, start, steps);
    StartKept(conf, start, steps);
    hide Run, Inv;
    forall k: nat | k < |st.history| ensures Grounded(st.history[k]) {
      HistoryGrounded(conf, st.history, st.commits, k);
    }
  }

  lemma {:induction false} OptionsWereSet(conf: ServerConf, h: seq<SessionData>, cs: seq<Commit>, k: nat)
    requires SerialHistory(conf, h, cs) && k < |h| && h[0].options == SessionOptions(PairingNone, 0)
    ensures || h[k].options == SessionOptions(PairingNone, 0)
            || exists p: nat :: p < k && Sets(cs[p].call, h[k].options)
  {
    if k > 0 {
      OptionsWereSet(conf, h, cs, k - 1);
      CommittedStep(conf, h, cs, k - 1);
      assert Serial(conf, h, cs, k - 1);
      var base := ApplyTimeout(conf, h[k - 1], cs[k - 1].checked);
      assert Coherent(base) && base.options == h[k - 1].options;
      hide Handle, ApplyTimeout, SerialHistory, StepOk;
      CallKeepsOptions(conf, base, cs[k - 1].call, cs[k - 1].now);
    }
  }

  /** In every interleaving from a new session a PIN is used only if a stored call asked for it, with the code that
      this call set. */
  lemma EveryRunPairsAsAsked(conf: ServerConf, action: Action, info: RequestInfo, frontendAuth: string, now: int,
                             steps: seq<Step>)
    ensures var st := Run(conf, NewStore(conf, action, info, frontendAuth, now), steps);
            Current(st).options.pairing == PairingPin ==>
              exists p: nat :: p < |st.commits| && Sets(st.commits[p].call, Current(st).options)
  {
    var start := NewStore(conf, action, info, frontendAuth, now);
    var st := Run(conf, start, steps);
    StartKept(conf, start, steps);
    hide Run, Inv;
    OptionsWereSet(conf, st.history, st.commits, |st.commits|);
  }

  // ---------------------------------------------------------------- what is appended over a run

  ghost predicate VerifiesAt(conf: ServerConf, h: seq<SessionData>, cs: seq<Commit>, k: nat)
    requires k < |cs| && |h| == |cs| + 1
  {
    Verifies(ApplyTimeout(conf, h[k], cs[k].checked), cs[k].call)
  }

  /** How many of the first k stored changes are POSTs that got as far as verification. */
  ghost function VerifyingPosts(conf: ServerConf, h: seq<SessionData>, cs: seq<Commit>, k: nat): nat
    requires k <= |cs| && |h| == |cs| + 1
  {
    if k == 0 then 0 else VerifyingPosts(conf, h, cs, k - 1) + (if VerifiesAt(conf, h, cs, k - 1) then 1 else 0)
  }

  predicate FailsToStartNext(c: Commit) { c.response == ErrorReply(NextSessionError) }

  /** How many of the first k stored changes are POSTs whose next session failed to start. */
  function FailedPosts(cs: seq<Commit>, k: nat): nat
    requires k <= |cs|
  {
    if k == 0 then 0 else FailedPosts(cs, k - 1) + (if FailsToStartNext(cs[k - 1]) then 1 else 0)
  }

  /** What one stored change does to the number of times the implicit disclosure was appended. */
  lemma CommittedAppends(conf: ServerConf, h: seq<SessionData>, cs: seq<Commit>, k: nat)
    requires SerialHistory(conf, h, cs) && k < |cs|
    ensures h[k + 1].appended == h[k].appended + (if VerifiesAt(conf, h, cs, k) then 1 else 0)
    ensures FailsToStartNext(cs[k]) ==> VerifiesAt(conf, h, cs, k) && h[k + 1].status == Connected
    ensures VerifiesAt(conf, h, cs, k) ==>
      h[k + 1].status == DoneStatus || h[k + 1].status == Cancelled || FailsToStartNext(cs[k])
    ensures h[k + 1].status == DoneStatus && h[k].status != DoneStatus ==> VerifiesAt(conf, h, cs, k)
  {
    CommittedStep(conf, h, cs, k);
    assert Serial(conf, h, cs, k);
    hide Handle, StepOk, SerialHistory;
    var c := cs[k].call;
    var base := ApplyTimeout(conf, h[k], cs[k].checked);
    assert base.appended == h[k].appended && Coherent(base) && (base == h[k] || base.status == Timeout);
    CallAppends(conf, base, c, cs[k].now);
    if IsCached(c) {
      CachedCall(conf, base, c, cs[k].now);
    } else {
      assert !Verifies(base, c);
    }
  }

  /** Over every run: the implicit disclosure has been appended as often as stored POSTs got as far as
      verification; which is as often as starting the next session failed, and once more if the session
      is done, or cancelled by a POST. */
  lemma {:induction false} AppendedCount(conf: ServerConf, h: seq<SessionData>, cs: seq<Commit>, k: nat)
    requires SerialHistory(conf, h, cs) && k < |h| && h[0].appended == 0
    ensures h[k].appended == VerifyingPosts(conf, h, cs, k)
    ensures !Finished(h[k].status) ==> h[k].appended == FailedPosts(cs, k)
    ensures h[k].status == DoneStatus ==> h[k].appended == 1 + FailedPosts(cs, k)
  {
    if k > 0 {
      AppendedCount(conf, h, cs, k - 1);
      CommittedAppends(conf, h, cs, k - 1);
      CommittedStep(conf, h, cs, k - 1);
      hide SerialHistory, VerifiesAt;
    }
  }

  /** In every interleaving a session that is DONE appended the implicit disclosure exactly once if and
      only if no stored POST before failed to start the next session. */
  lemma AppendedOnceIff(conf: ServerConf, action: Action, info: RequestInfo, frontendAuth: string, now: int,
                        steps: seq<Step>)
    requires Current(Run(conf, NewStore(conf, action, info, frontendAuth, now), steps)).status == DoneStatus
    ensures var st := Run(conf, NewStore(conf, action, info, frontendAuth, now), steps);
            Current(st).appended == 1 <==> forall c <- st.commits :: !FailsToStartNext(c)
  {
    var start := NewStore(conf, action, info, frontendAuth, now);
    var st := Run(conf, start, steps);
    StartKept(conf, start, steps);
    hide Run, Inv;
    AppendedCount(conf, st.history, st.commits, |st.commits|);
    NoFailedPosts(st.commits, |st.commits|);
    assert st.commits[..|st.commits|] == st.commits;
  }

  lemma {:induction false} StartKept(conf: ServerConf, st: Store, steps: seq<Step>)
    requires Inv(conf, st)
    ensures SerialHistory(conf, Run(conf, st, steps).history, Run(conf, st, steps).commits)
    ensures Run(conf, st, steps).history[0] == st.history[0]
    decreases |steps|
  {
    if steps != [] {
      StepKeepsInv(conf, st, steps[0]);
      StartKept(conf, Next(conf, st, steps[0]), steps[1..]);
    }
  }

  lemma {:induction false} NoFailedPosts(cs: seq<Commit>, k: nat)
    requires k <= |cs|
    ensures FailedPosts(cs, k) == 0 <==> forall c <- cs[..k] :: !FailsToStartNext(c)
  {
    if k > 0 {
      NoFailedPosts(cs, k - 1);
      assert cs[..k] == cs[..k - 1] + [cs[k - 1]];
    }
  }

  // ---------------------------------------------------------------- every run

  /** In every interleaving the stored sessions are a serial history of allowed changes, each made on
      the session stored just before it; at most one change makes the session DONE; and of the
      transactions that copied the same session at most one is stored. */
  lemma EveryRunIsSerial(conf: ServerConf, action: Action, info: RequestInfo, frontendAuth: string, now: int,
                         steps: seq<Step>)
    ensures var st := Run(conf, NewStore(conf, action, info, frontendAuth, now), steps);
            && SerialHistory(conf, st.history, st.commits)
            && (forall k: nat :: k < |st.commits| ==> StepOk(st.history[k], st.history[k + 1], st.commits[k].call))
            && (forall i: nat, j: nat ::
                  i < |st.commits| && j < |st.commits| && BecomesDone(st.history, i) && BecomesDone(st.history, j) ==>
                  i == j)
            && (forall i: nat, j: nat ::
                  i < j < |st.released| && st.released[i].commit.Some? && st.released[j].commit.Some? ==>
                  st.released[i].before != st.released[j].before)
  {
    var st := Run(conf, NewStore(conf, action, info, frontendAuth, now), steps);
    var h, cs := st.history, st.commits;
    forall k: nat | k < |cs| ensures StepOk(h[k], h[k + 1], cs[k].call) {
      CommittedStep(conf, h, cs, k);
    }
    forall i: nat, j: nat | i < |cs| && j < |cs| && BecomesDone(h, i) && BecomesDone(h, j) ensures i == j {
      DoneOnce(conf, h, cs, i, j);
    }
    forall i: nat, j: nat | i < j < |st.released| && st.released[i].commit.Some? && st.released[j].commit.Some?
      ensures st.released[i].before != st.released[j].before
    {
      assert Accounted(conf, h, cs, st.released[i]) && Accounted(conf, h, cs, st.released[j]);
    }
  }

  /** In every interleaving all signatures sent are one and the same response, and at most one
      transaction sends it other than as a replay from the cache. */
  lemma EveryRunSignsOnce(conf: ServerConf, st: Store, steps: seq<Step>, i: nat, j: nat)
    requires Inv(conf, st)
    requires var end := Run(conf, st, steps);
             i < j < |end.released| && end.released[i].response.SignaturesReply?
               && end.released[j].response.SignaturesReply?
    ensures var end := Run(conf, st, steps);
            && end.released[i].response == end.released[j].response
            && (end.released[i].commit == None || end.released[j].commit == None)
  {
    var end := Run(conf, st, steps);
    hide Run;
    SignaturesReleased(conf, end, i);
    SignaturesReleased(conf, end, j);
    var k: nat :| k < |end.commits| && SignaturesFrom(end, end.released[i], k);
    var l: nat :| l < |end.commits| && SignaturesFrom(end, end.released[j], l);
    DoneOnce(conf, end.history, end.commits, k, l);
  }

  /** In every interleaving a session that needs pairing sends its request and accepts proofs only
      after pairing was completed. */
  lemma EveryRunPairsFirst(conf: ServerConf, st: Store, steps: seq<Step>)
    requires Inv(conf, st) && NeedsPairing(Current(Run(conf, st, steps)))
    ensures var end := Run(conf, st, steps);
            && (forall i: nat :: i < |end.released| && Sensitive(end.released[i].response) ==>
                  exists p: nat :: p < end.released[i].before && CompletesPairing(end.history, end.commits, p))
            && (forall k: nat :: k < |end.commits| && BecomesDone(end.history, k) ==>
                  exists p: nat :: p <= k && CompletesPairing(end.history, end.commits, p))
  {
    var end := Run(conf, st, steps);
    hide Run;
    forall i: nat | i < |end.released| && Sensitive(end.released[i].response)
      ensures exists p: nat :: p < end.released[i].before && CompletesPairing(end.history, end.commits, p)
    {
      SensitiveAfterPairing(conf, end, i);
    }
    forall k: nat | k < |end.commits| && BecomesDone(end.history, k)
      ensures exists p: nat :: p <= k && CompletesPairing(end.history, end.commits, p)
    {
      PairedBefore(conf, end.history, end.commits, k + 1);
    }
  }
}
