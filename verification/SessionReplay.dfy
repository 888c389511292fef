/** server/irmaserver: a run in which the response cache answers a client that did not start the session. */
module SessionReplay {
  import opened Outcomes
  import opened Session
  import opened SessionStore

  const INFO := RequestInfo(0, false, false)
  const V28 := Version(2, 8)

  /** The frontend asks for a PIN, "alice" connects, the frontend completes the pairing, alice fetches the
      request, and eight seconds after alice connected "mallory" asks for it too, with the same empty body. */
  const CALLS: seq<(Call, int)> := [
    (FrontendOptions("frontend", UsePin(1234)), 0),
    (Get(V28, V28, "alice", "", GetOutcome(true, true, true)), 1),
    (FrontendPairingCompleted("frontend"), 2),
    (GetRequest("alice", "", true), 3),
    (GetRequest("mallory", "", true), 9)
  ]

  /** The session before the k-th call. */
  function Stage(k: nat): SessionData {
    var s0 := NewSession(Disclosing, INFO, "frontend", 0);
    var s1 := s0.(options := SessionOptions(PairingPin, 1234));
    var s2 := WithStatus(s1, Pairing).(
      version := Some(V28), clientAuth := "alice", legacyCompatible := true, lastActive := 1,
      cache := Some(CacheEntry(SessionEndpoint, "", SessionInfo(V28, false), Pairing)));
    var s3 := WithStatus(s2, Connected);
    var s4 := s3.(cache := Some(CacheEntry(RequestEndpoint, "", RequestReply, Connected)));
    if k == 0 then s0 else if k == 1 then s1 else if k == 2 then s2 else if k == 3 then s3 else s4
  }

  function ReplyTo(k: nat): Response {
    if k == 0 then OptionsReply(SessionOptions(PairingPin, 1234))
    else if k == 1 then SessionInfo(V28, false)
    else if k == 2 then Okay
    else RequestReply
  }

  lemma EachReply(conf: ServerConf, k: nat)
    requires k < 5
    ensures Handle(conf, Stage(k), CALLS[k].0, CALLS[k].1) == Done(Reply(Stage(k + 1), ReplyTo(k)))
  {
    if k == 1 {
      assert ChooseVersion(conf, Stage(1), V28, V28) == Some(V28);
    } else {
      hide HandleGet;
      assert k == 0 || k == 2 || k == 3 || k == 4;
    }
  }

  /** With a lifetime of more than eight seconds nothing times out. */
  lemma NoTimeout(conf: ServerConf, k: nat)
    requires conf.maxLifetime > 8 && k < 5
    ensures ApplyTimeout(conf, Stage(k), CALLS[k].1) == Stage(k)
  {
  }

  function StepsOf(calls: seq<(Call, int)>): seq<Step> {
    if calls == [] then []
    else [Begin(0), Finish(0, calls[0].0, calls[0].1, calls[0].1)] + StepsOf(calls[1..])
  }

  function AfterCall(st: Store, c: Call, t: int, r: Reply, update: bool): Store {
    Store(
      if update then st.history + [r.session] else st.history,
      if update then st.commits + [Commit(c, t, t, r.response)] else st.commits, map[],
      st.released + [Release(c, r.response, if |st.history| > 0 then |st.history| - 1 else 0,
                             if update then Some(|st.commits|) else None)])
  }

  /** A transaction that nothing interferes with. */
  lemma OneCall(conf: ServerConf, st: Store, c: Call, t: int, r: Reply, rest: seq<Step>)
    requires Inv(conf, st) && st.inflight == map[]
    requires Attempt(conf, Current(st), Finish(0, c, t, t)) == Done(r)
    ensures var after := AfterCall(st, c, t, r, Updates(conf, Current(st), Finish(0, c, t, t)));
            Inv(conf, after) && Run(conf, st, [Begin(0), Finish(0, c, t, t)] + rest) == Run(conf, after, rest)
  {
    var steps := [Begin(0), Finish(0, c, t, t)] + rest;
    var begun := Next(conf, st, Begin(0));
    var done := Next(conf, begun, Finish(0, c, t, t));
    StepKeepsInv(conf, st, Begin(0));
    StepKeepsInv(conf, begun, Finish(0, c, t, t));
    hide Inv, Attempt, Updates;
    assert steps[1..] == [Finish(0, c, t, t)] + rest && steps[1..][1..] == rest;
    assert begun.inflight[0] == |st.history| - 1;
    assert done.inflight == map[];
  }

  /** The k-th call, in the session it is made on. */
  lemma KthCall(conf: ServerConf, st: Store, k: nat)
    requires conf.maxLifetime > 8 && k < 5 && Inv(conf, st) && st.inflight == map[] && Current(st) == Stage(k)
    ensures var r := Reply(Stage(k + 1), ReplyTo(k));
            var after := AfterCall(st, CALLS[k].0, CALLS[k].1, r, Stage(k + 1) != Stage(k));
            && Inv(conf, after) && after.history != [] && Current(after) == Stage(k + 1)
            && Run(conf, st, StepsOf(CALLS[k..])) == Run(conf, after, StepsOf(CALLS[k + 1..]))
  {
    var (c, t) := CALLS[k];
    var r := Reply(Stage(k + 1), ReplyTo(k));
    NoTimeout(conf, k);
    EachReply(conf, k);
    assert !IsApi(c);
    assert CALLS[k..][0] == (c, t) && CALLS[k..][1..] == CALLS[k + 1..];
    hide Inv, Handle, ApplyTimeout, Stage, Run, ReplyTo;
    assert Attempt(conf, Current(st), Finish(0, c, t, t)) == Done(r);
    assert Updates(conf, Current(st), Finish(0, c, t, t)) <==> Stage(k + 1) != Stage(k);
    OneCall(conf, st, c, t, r, StepsOf(CALLS[k + 1..]));
  }

  /** From the k-th call on: the session ends as alice left it, and the last response is the session request,
      sent to mallory without anything being stored. */
  lemma {:induction false} RunFrom(conf: ServerConf, st: Store, k: nat)
    requires conf.maxLifetime > 8 && k < 5 && Inv(conf, st) && st.inflight == map[] && Current(st) == Stage(k)
    ensures var end := Run(conf, st, StepsOf(CALLS[k..]));
            && Current(end) == Stage(4) && |end.released| > 0
            && end.released[|end.released| - 1] == Release(CALLS[4].0, RequestReply, |end.history| - 1, None)
    decreases 5 - k
  {
    KthCall(conf, st, k);
    var r := Reply(Stage(k + 1), ReplyTo(k));
    var after := AfterCall(st, CALLS[k].0, CALLS[k].1, r, Stage(k + 1) != Stage(k));
    hide Inv, Stage, Run;
    if k < 4 {
      hide StepsOf;
      RunFrom(conf, after, k + 1);
    } else {
      SameStage();
      assert StepsOf(CALLS[5..]) == [];
      RunNothing(conf, after);
    }
  }

  lemma SameStage()
    ensures Stage(5) == Stage(4)
  {
  }

  lemma RunNothing(conf: ServerConf, st: Store)
    requires Inv(conf, st)
    ensures Run(conf, st, []) == st
  {
  }

  /** In this run of a session that needs pairing, and has completed it, the session request goes to a client
      other than the one that started the session. */
  lemma ReplayToStranger(conf: ServerConf)
    requires conf.maxLifetime > 8
    ensures var end := Run(conf, NewStore(conf, Disclosing, INFO, "frontend", 0), StepsOf(CALLS));
            && NeedsPairing(Current(end)) && |end.released| > 0
            && var r := end.released[|end.released| - 1];
            && r.call == GetRequest("mallory", "", true) && r.response == RequestReply
            && Sensitive(r.response) && !FromTheClient(r.call, Current(end)) && Current(end).clientAuth == "alice"
  {
    hide Run, Inv, Stage, StepsOf, NewSession;
    var st := NewStore(conf, Disclosing, INFO, "frontend", 0);
    FirstAndLast();
    WholeList(CALLS);
    RunFrom(conf, st, 0);
  }

  lemma FirstAndLast()
    ensures Stage(0) == NewSession(Disclosing, INFO, "frontend", 0)
    ensures Stage(4).clientAuth == "alice" && NeedsPairing(Stage(4))
  {
  }

  lemma WholeList<T>(s: seq<T>)
    ensures s[0..] == s
  {
  }
}
