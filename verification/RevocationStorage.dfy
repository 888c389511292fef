/** revocation_db.go: the in-memory storage of revocation logs, and the operations of revocation.go on it. */
module RevocationStorage {
  import opened Outcomes
  import opened RevocationLog

  /** memRecordKey */
  datatype Key = Key(id: string, counter: nat)

  type Logs = map<Key, Log>

  /** An issuance record: the public key, the revocation attribute, and whether the attribute can be
      removed from the accumulator. */
  datatype Record = Record(counter: nat, e: int, removable: bool)

  datatype Op =
    | AddUpdate(id: string, update: Update)
    | Revoke(id: string, authority: bool, records: seq<Record>, privateKeys: set<nat>, now: int)
    | Resign(id: string, privateKeys: set<nat>, now: int)

  // ---------------------------------------------------------------- the operations on the logs

  function LogAt(logs: Logs, key: Key): Option<Log> { if key in logs then Some(logs[key]) else None }

  /** The attributes revoked under one public key, in order. */
  function RevokedUnder(records: seq<Record>, counter: nat): seq<int> {
    if records == [] then []
    else
      var init := RevokedUnder(records[..|records| - 1], counter);
      var last := records[|records| - 1];
      if last.counter == counter then init + [last.e] else init
  }

  predicate CanRevoke(logs: Logs, op: Op, r: Record)
    requires op.Revoke?
  {
    Key(op.id, r.counter) in logs && r.counter in op.privateKeys && r.removable
  }

  predicate AllSound(logs: Logs) {
    forall k <- logs :: Sound(logs[k]) && logs[k].signed.counter == k.counter
  }

  function AfterRevoking(log: Log, counter: nat, es: seq<int>, now: int): Log
    requires log.events != []
  {
    if es == [] then log else
      var events := Revoked(log.events, es);
      RevokedNonempty(log.events, es);
      Log(SignedAccumulator(Accumulator(Last(events).index, Last(events).Hashed(), now), counter, true), events)
  }

  lemma {:induction false} RevokedNonempty(events: seq<Event>, es: seq<int>)
    requires events != []
    ensures |Revoked(events, es)| == |events| + |es|
    decreases |es|
  {
    if es != [] {
      RevokedNonempty(events + [Remove(es[0], Last(events), 0).1], es[1..]);
    }
  }

  /** The logs after an operation; an error leaves all of them as they are. */
  function Apply(logs: Logs, op: Op): Outcome<Logs>
    requires AllSound(logs)
  {
    match op
    case AddUpdate(id, u) =>
      var key := Key(id, u.signed.counter);
      var log :- Added(LogAt(logs, key), u);
      Done(if log.Some? then logs[key := log.value] else logs)
    case Revoke(id, authority, records, privateKeys, now) =>
      if !authority || exists r <- records :: !CanRevoke(logs, op, r) then Err
      else
        Done(map k <- logs :: if k.id == id then AfterRevoking(logs[k], k.counter, RevokedUnder(records, k.counter),
          now) else logs[k])
    case Resign(id, privateKeys, now) =>
      if exists k <- logs :: k.id == id && k.counter !in privateKeys then Err
      else Done(map k <- logs :: if k.id == id then logs[k].(signed := Resigned(logs[k].signed, k.counter, now))
        else logs[k])
  }

  function Resigned(signed: SignedAccumulator, counter: nat, now: int): SignedAccumulator {
    SignedAccumulator(signed.acc.(time := now), counter, true)
  }

  /** What every operation guarantees between the logs before and after: no log disappears, what was
      stored stays a prefix, and the head never falls. */
  predicate Grows(before: Logs, after: Logs)
    requires AllSound(before) && AllSound(after)
  {
    forall k <- before :: k in after && before[k].events <= after[k].events && Head(before[k]) <= Head(after[k])
  }

  lemma RevokingKeepsLog(log: Log, counter: nat, es: seq<int>, now: int)
    requires Sound(log) && log.signed.counter == counter
    ensures var after := AfterRevoking(log, counter, es, now);
            && Sound(after) && after.signed.counter == counter && log.events <= after.events
            && Head(after) == Head(log) + |es| && |after.events| == |log.events| + |es|
            && forall i: nat :: i < |es| ==> after.events[|log.events| + i].e == es[i]
  {
    RevokedAppends(log.events, es);
    var after := AfterRevoking(log, counter, es, now);
    LinkedIndices(after.events, |after.events| - 1);
    LinkedIndices(log.events, |log.events| - 1);
  }

  lemma AddingKeepsLogs(logs: Logs, id: string, u: Update)
    requires AllSound(logs) && Apply(logs, AddUpdate(id, u)).Done?
    ensures AllSound(Apply(logs, AddUpdate(id, u)).value) && Grows(logs, Apply(logs, AddUpdate(id, u)).value)
  {
    AddedKeepsLog(LogAt(logs, Key(id, u.signed.counter)), u);
    AddedKeepsCounter(LogAt(logs, Key(id, u.signed.counter)), u);
    forall k <- logs ensures logs[k].events != [] { SoundNonempty(logs[k]); }
    hide Sound, Added;
  }

  lemma RevokingKeepsLogs(logs: Logs, op: Op)
    requires AllSound(logs) && op.Revoke? && Apply(logs, op).Done?
    ensures AllSound(Apply(logs, op).value) && Grows(logs, Apply(logs, op).value)
  {
    hide AfterRevoking, Sound, CanRevoke;
    var after := Apply(logs, op).value;
    forall k <- logs
      ensures Sound(after[k]) && after[k].signed.counter == k.counter && logs[k].events <= after[k].events
      ensures logs[k].events != [] && after[k].events != [] && Head(logs[k]) <= Head(after[k])
    {
      RevokingKeepsLog(logs[k], k.counter, RevokedUnder(op.records, k.counter), op.now);
      SoundNonempty(logs[k]);
    }
  }

  lemma ResigningKeepsLogs(logs: Logs, op: Op)
    requires AllSound(logs) && op.Resign? && Apply(logs, op).Done?
    ensures AllSound(Apply(logs, op).value) && Grows(logs, Apply(logs, op).value)
  {
    var after := Apply(logs, op).value;
    forall k <- logs
      ensures Sound(after[k]) && after[k].signed.counter == k.counter && logs[k].events == after[k].events != []
    {
      assert Sound(logs[k]);
    }
    hide Sound;
  }

  /** Every operation keeps all logs sound and only makes them grow. */
  lemma ApplyKeepsLogs(logs: Logs, op: Op)
    requires AllSound(logs) && Apply(logs, op).Done?
    ensures AllSound(Apply(logs, op).value) && Grows(logs, Apply(logs, op).value)
  {
    hide Apply, AllSound, Grows;
    match op
    case AddUpdate(id, u) => AddingKeepsLogs(logs, id, u);
    case Revoke(_, _, _, _, _) => RevokingKeepsLogs(logs, op);
    case Resign(_, _, _) => ResigningKeepsLogs(logs, op);
  }

  lemma SoundNonempty(log: Log)
    requires Sound(log)
    ensures log.events != []
  {
  }

  lemma AddedKeepsCounter(log: Option<Log>, u: Update)
    requires log.Some? ==> Sound(log.value) && log.value.signed.counter == u.signed.counter
    requires Added(log, u).Done?
    ensures Added(log, u).value.Some? && Added(log, u).value.value.signed.counter == u.signed.counter
  {
    hide Verify, Fresh;
  }

  /** Any sequence of operations, failed ones included. */
  function RunAll(logs: Logs, ops: seq<Op>): Logs
    requires AllSound(logs)
    decreases |ops|
  {
    if ops == [] then logs
    else
      var o := Apply(logs, ops[0]);
      if o.Done? then ApplyKeepsLogs(logs, ops[0]); RunAll(o.value, ops[1..]) else RunAll(logs, ops[1..])
  }

  /** Over every run: all logs stay linked up to their accumulators, and none ever loses an event. */
  lemma {:induction false} RunKeepsLogs(logs: Logs, ops: seq<Op>)
    requires AllSound(logs)
    ensures AllSound(RunAll(logs, ops)) && Grows(logs, RunAll(logs, ops))
    decreases |ops|
  {
    hide Apply, Sound;
    if ops == [] {
      forall k <- logs ensures logs[k].events != [] { SoundNonempty(logs[k]); }
    } else {
      var o := Apply(logs, ops[0]);
      if o.Done? {
        ApplyKeepsLogs(logs, ops[0]);
        RunKeepsLogs(o.value, ops[1..]);
        assert RunAll(logs, ops) == RunAll(o.value, ops[1..]);
      } else {
        RunKeepsLogs(logs, ops[1..]);
        assert RunAll(logs, ops) == RunAll(logs, ops[1..]);
      }
    }
  }

  lemma RevokedUnderSnoc(records: seq<Record>, i: nat, counter: nat)
    requires i < |records|
    ensures RevokedUnder(records[..i + 1], counter) ==
            RevokedUnder(records[..i], counter) + (if records[i].counter == counter then [records[i].e] else [])
  {
    assert records[..i + 1][..i] == records[..i];
  }

  /** Events created from the head alone are those appended to the whole log. */
  lemma {:induction false} RevokedFromHead(events: seq<Event>, es: seq<int>)
    requires events != []
    ensures |Revoked([Last(events)], es)| == 1 + |es|
    ensures Revoked(events, es) == events + Revoked([Last(events)], es)[1..]
    decreases |es|
  {
    if es != [] {
      var e := Remove(es[0], Last(events), 0).1;
      RevokedFromHead(events + [e], es[1..]);
      RevokedFromHead([Last(events), e], es[1..]);
      assert [Last(events)] + [e] == [Last(events), e];
      assert Last(events + [e]) == e && Last([Last(events), e]) == e;
    }
  }

  predicate Permitted(counters: set<nat>, privateKeys: set<nat>, r: Record) {
    r.counter in counters && r.counter in privateKeys && r.removable
  }

  /** An update with the events that revoke the given attributes, starting from the head event. */
  predicate IsRevocation(head: Event, counter: nat, es: seq<int>, now: int, u: Update) {
    && var events := Revoked([head], es);
    && events != [] && u.events == events[1..]
    && u.signed == SignedAccumulator(Accumulator(Last(events).index, Last(events).Hashed(), now), counter, true)
  }

  /** Appending such an update to the log gives the log after revoking. */
  lemma RevokedParts(log: Log, counter: nat, es: seq<int>, now: int)
    requires log.events != []
    ensures es == [] ==> AfterRevoking(log, counter, es, now) == log
    ensures es != [] ==> forall u :: IsRevocation(Last(log.events), counter, es, now, u) ==>
      AfterRevoking(log, counter, es, now) == Log(u.signed, log.events + u.events)
  {
    if es != [] {
      RevokedNonempty(log.events, es);
      RevokedFromHead(log.events, es);
      assert Last(Revoked(log.events, es)) == Last(Revoked([Last(log.events)], es));
    }
  }

  /** Where Revoke is with one key: its accumulator and its events so far, the head event first. */
  ghost predicate Progress(head: Event, acc: Accumulator, events: seq<Event>, es: seq<int>, now: int) {
    && events == Revoked([head], es) && |events| == 1 + |es|
    && (es != [] ==> acc == Accumulator(Last(events).index, Last(events).Hashed(), now))
  }

  lemma ProgressStep(head: Event, acc: Accumulator, events: seq<Event>, es: seq<int>, now: int, e: int)
    requires Progress(head, acc, events, es, now)
    ensures events != []
    ensures var (acc', event) := Remove(e, Last(events), now); Progress(head, acc', events + [event], es + [e], now)
  {
    RevokedSnoc([head], es, e);
  }

  lemma ProgressIsRevocation(head: Event, acc: Accumulator, events: seq<Event>, es: seq<int>, now: int, counter: nat)
    requires Progress(head, acc, events, es, now)
    ensures |events| == 1 + |es|
    ensures es != [] ==> IsRevocation(head, counter, es, now,
      Update(SignedAccumulator(acc, counter, true), events[1..]))
  {
  }

  lemma PermittedMeans(counters: set<nat>, privateKeys: set<nat>, r: Record)
    ensures Permitted(counters, privateKeys, r) <==> r.counter in counters && r.counter in privateKeys && r.removable
  {
  }

  /** Where Revoke is after the given records. */
  ghost predicate AllProgress(heads: map<nat, UpdateHead>, accs: map<nat, Accumulator>, events: map<nat, seq<Event>>,
                              records: seq<Record>, now: int) {
    && accs.Keys == events.Keys == heads.Keys
    && forall c <- heads :: Progress(heads[c].latest, accs[c], events[c], RevokedUnder(records, c), now)
  }

  lemma AllProgressStart(heads: map<nat, UpdateHead>, accs: map<nat, Accumulator>, events: map<nat, seq<Event>>,
                         now: int)
    requires accs.Keys == heads.Keys == events.Keys && forall c <- heads :: events[c] == [heads[c].latest]
    ensures AllProgress(heads, accs, events, [], now)
  {
  }

  lemma AllProgressStep(heads: map<nat, UpdateHead>, accs: map<nat, Accumulator>, events: map<nat, seq<Event>>,
                        records: seq<Record>, i: nat, now: int)
    requires i < |records| && AllProgress(heads, accs, events, records[..i], now) && records[i].counter in heads
    ensures records[i].counter in events && events[records[i].counter] != []
    ensures var r := records[i];
            var (acc, event) := Remove(r.e, Last(events[r.counter]), now);
            AllProgress(heads, accs[r.counter := acc], events[r.counter := events[r.counter] + [event]],
              records[..i + 1], now)
  {
    hide Progress, RevokedUnder, Remove;
    var r := records[i];
    ProgressStep(heads[r.counter].latest, accs[r.counter], events[r.counter], RevokedUnder(records[..i], r.counter),
      now, r.e);
    var (acc, event) := Remove(r.e, Last(events[r.counter]), now);
    var accs', events' := accs[r.counter := acc], events[r.counter := events[r.counter] + [event]];
    forall c <- heads ensures Progress(heads[c].latest, accs'[c], events'[c], RevokedUnder(records[..i + 1], c), now) {
      RevokedUnderSnoc(records, i, c);
      assert RevokedUnder(records[..i], c) + [] == RevokedUnder(records[..i], c);
    }
  }

  // ---------------------------------------------------------------- memRevStorage

  /** The logs after re-signing those of the given types, and whether that succeeded for all of them. */
  function ResignedAll(logs: Logs, ids: seq<string>, privateKeys: string -> set<nat>, now: int): (Logs, bool)
    requires AllSound(logs)
    decreases |ids|
  {
    if ids == [] then (logs, true)
    else
      var o := Apply(logs, Resign(ids[0], privateKeys(ids[0]), now));
      if !o.Done? then (logs, false)
      else
        ApplyKeepsLogs(logs, Resign(ids[0], privateKeys(ids[0]), now));
        ResignedAll(o.value, ids[1..], privateKeys, now)
  }

  /** Adding an update succeeds exactly if the log of its key can take it up, and touches no other log; an update that
      is not older than that log becomes its end, with its own accumulator. No operation panics. */
  lemma AddExact(logs: Logs, id: string, u: Update)
    requires AllSound(logs)
    ensures var key, o := Key(id, u.signed.counter), Apply(logs, Op.AddUpdate(id, u));
            && (LogAt(logs, key).Some? ==> logs[key].events != [])
            && (o.Done? <==> Acceptable(LogAt(logs, key), u))
            && (o.Done? ==>
                  && o.value.Keys == logs.Keys + {key}
                  && (forall k <- logs :: k != key ==> o.value[k] == logs[k])
                  && o.value[key].events != []
                  && (if key in logs && Head(logs[key]) > u.signed.acc.index then o.value[key] == logs[key]
                      else && o.value[key].signed == u.signed && Head(o.value[key]) == u.signed.acc.index
                           && (key in logs ==> logs[key].events <= o.value[key].events)))
    ensures forall op: Op :: !Apply(logs, op).Panic?
  {
    var key := Key(id, u.signed.counter);
    var log := LogAt(logs, key);
    if log.Some? {
      assert Sound(logs[key]);
    }
    AddedIffAcceptable(log, u);
    if Added(log, u).Done? {
      AddedKeepsLog(log, u);
      AddedKeepsCounter(log, u);
    }
    forall op: Op | op.AddUpdate? ensures !Apply(logs, op).Panic? {
      var at := LogAt(logs, Key(op.id, op.update.signed.counter));
      assert at.Some? ==> Sound(at.value);
      AddedIffAcceptable(at, op.update);
    }
    hide Added, Acceptable, Sound;
  }

  /** All logs are kept as they are, except that those of the given types are signed again at the given time. */
  ghost predicate OnlyResigned(before: Logs, after: Logs, ids: set<string>, now: int) {
    && after.Keys == before.Keys
    && forall k <- before ::
      && after[k].events == before[k].events
      && after[k].signed.counter == before[k].signed.counter
      && after[k].signed.acc.index == before[k].signed.acc.index
      && after[k].signed.acc.eventHash == before[k].signed.acc.eventHash
      && after[k].signed.acc.time == if k.id in ids then now else before[k].signed.acc.time
  }

  /** Every key of that type has a private key. */
  ghost predicate CanResign(logs: Logs, id: string, privateKeys: set<nat>) {
    forall k <- logs :: k.id == id ==> k.counter in privateKeys
  }

  /** Re-signing a type sets the time of all of its accumulators, and nothing else, or fails for want of a key. */
  lemma ResignExact(logs: Logs, id: string, privateKeys: set<nat>, now: int)
    requires AllSound(logs)
    ensures Apply(logs, Resign(id, privateKeys, now)).Done? <==> CanResign(logs, id, privateKeys)
    ensures Apply(logs, Resign(id, privateKeys, now)).Done? ==>
              OnlyResigned(logs, Apply(logs, Resign(id, privateKeys, now)).value, {id}, now)
  {
    hide Sound;
  }

  /** Re-signing a list of types stops at the first without all keys; those before it carry the new time, and no
      other log has changed. */
  lemma {:induction false} ResignedAllExact(logs: Logs, ids: seq<string>, privateKeys: string -> set<nat>, now: int)
    returns (n: nat)
    requires AllSound(logs)
    ensures n <= |ids| && forall i :: 0 <= i < n ==> CanResign(logs, ids[i], privateKeys(ids[i]))
    ensures n < |ids| ==> !CanResign(logs, ids[n], privateKeys(ids[n]))
    ensures ResignedAll(logs, ids, privateKeys, now).1 <==> n == |ids|
    ensures AllSound(ResignedAll(logs, ids, privateKeys, now).0)
    ensures OnlyResigned(logs, ResignedAll(logs, ids, privateKeys, now).0, (set id | id in ids[..n]), now)
    decreases |ids|
  {
    hide Apply, OnlyResigned, CanResign;
    n := 0;
    NoneResigned(logs, now);
    assert (set id | id in ids[..0]) == {};
    if ids != [] {
      var next := ResignedFirst(logs, ids, privateKeys, now);
      hide AllSound, ResignedAll;
      if CanResign(logs, ids[0], privateKeys(ids[0])) {
        var rest := ids[1..];
        var m := ResignedAllExact(next, rest, privateKeys, now);
        n := m + 1;
        assert ids[..n] == [ids[0]] + rest[..m];
        assert (set id | id in ids[..n]) == {ids[0]} + (set id | id in rest[..m]);
        var after := ResignedAll(next, rest, privateKeys, now).0;
        ResignedTwice(logs, next, after, {ids[0]}, (set id | id in rest[..m]), now);
        forall i | 0 < i < |ids| ensures CanResign(logs, ids[i], privateKeys(ids[i])) <==>
          CanResign(next, rest[i - 1], privateKeys(rest[i - 1])) {
          SameKeys(logs, next, ids[i], privateKeys(ids[i]));
        }
      }
    }
  }

  lemma NoneResigned(logs: Logs, now: int)
    ensures OnlyResigned(logs, logs, {}, now)
  {
  }

  lemma ResignedFirst(logs: Logs, ids: seq<string>, privateKeys: string -> set<nat>, now: int) returns (next: Logs)
    requires AllSound(logs) && ids != []
    ensures AllSound(next)
    ensures if CanResign(logs, ids[0], privateKeys(ids[0]))
            then && OnlyResigned(logs, next, {ids[0]}, now)
                 && ResignedAll(logs, ids, privateKeys, now) == ResignedAll(next, ids[1..], privateKeys, now)
            else ResignedAll(logs, ids, privateKeys, now) == (logs, false)
  {
    var op := Resign(ids[0], privateKeys(ids[0]), now);
    ResignExact(logs, ids[0], privateKeys(ids[0]), now);
    hide Apply, OnlyResigned, CanResign;
    next := logs;
    if Apply(logs, op).Done? {
      ApplyKeepsLogs(logs, op);
      next := Apply(logs, op).value;
    }
  }

  lemma ResignedTwice(a: Logs, b: Logs, c: Logs, first: set<string>, then_: set<string>, now: int)
    requires OnlyResigned(a, b, first, now) && OnlyResigned(b, c, then_, now)
    ensures OnlyResigned(a, c, first + then_, now) && a.Keys == b.Keys
  {
  }

  lemma SameKeys(a: Logs, b: Logs, id: string, privateKeys: set<nat>)
    requires a.Keys == b.Keys
    ensures CanResign(a, id, privateKeys) <==> CanResign(b, id, privateKeys)
  {
  }

  function CountUnder(records: seq<Record>, counter: nat): nat {
    if records == [] then 0
    else CountUnder(records[..|records| - 1], counter) + (if records[|records| - 1].counter == counter then 1 else 0)
  }

  /** The records of a key are revoked one by one in their order. */
  lemma {:induction false} RevokedInOrder(records: seq<Record>, counter: nat)
    ensures |RevokedUnder(records, counter)| == CountUnder(records, counter)
    ensures forall i :: 0 <= i < |records| && records[i].counter == counter ==>
              CountUnder(records[..i], counter) < |RevokedUnder(records, counter)|
              && RevokedUnder(records, counter)[CountUnder(records[..i], counter)] == records[i].e
    ensures RevokedUnder(records, counter) == [] <==> forall r <- records :: r.counter != counter
  {
    if records != [] {
      var init := records[..|records| - 1];
      RevokedInOrder(init, counter);
      assert forall i :: 0 <= i <= |init| ==> records[..i] == init[..i];
      assert init[..|init|] == init;
      assert records == init + [records[|records| - 1]];
    }
  }

  /** Revoking succeeds exactly for the authority and if every record can be revoked. Then exactly the keys of that
      type with records get an accumulator of that time, and events for those records in their order. */
  lemma RevokeExact(logs: Logs, id: string, authority: bool, records: seq<Record>, privateKeys: set<nat>, now: int)
    requires AllSound(logs)
    ensures var o := Apply(logs, Revoke(id, authority, records, privateKeys, now));
            && (o.Done? <==> authority && forall r <- records ::
                  Key(id, r.counter) in logs && r.counter in privateKeys && r.removable)
            && (o.Done? ==> o.value.Keys == logs.Keys && forall k <- logs ::
                  if k.id == id && exists r <- records :: r.counter == k.counter
                  then IsRevoked(logs[k], o.value[k], RevokedUnder(records, k.counter), now)
                  else o.value[k] == logs[k])
  {
    var op := Revoke(id, authority, records, privateKeys, now);
    assert forall r <- records :: CanRevoke(logs, op, r) <==>
      Key(id, r.counter) in logs && r.counter in privateKeys && r.removable;
    hide AfterRevoking, Sound, CanRevoke, RevokedUnder, IsRevoked;
    forall k <- logs ensures logs[k].events != [] && logs[k].signed.counter == k.counter
      && var es := RevokedUnder(records, k.counter);
         var after := AfterRevoking(logs[k], k.counter, es, now);
         (es == [] <==> forall r <- records :: r.counter != k.counter)
         && (if es == [] then after == logs[k] else IsRevoked(logs[k], after, es, now)) {
      SoundNonempty(logs[k]);
      RevokedInOrder(records, k.counter);
      RevokingIsRevoked(logs[k], k.counter, RevokedUnder(records, k.counter), now);
    }
  }

  /** The log has one more event for each of the attributes, in order, and an accumulator of that time for the last. */
  predicate IsRevoked(before: Log, after: Log, es: seq<int>, now: int) {
    && |after.events| == |before.events| + |es| && before.events <= after.events
    && (forall i: nat :: i < |es| ==> after.events[|before.events| + i].e == es[i])
    && after.signed.acc.time == now && Sound(after)
  }

  lemma RevokingIsRevoked(log: Log, counter: nat, es: seq<int>, now: int)
    requires Sound(log) && log.signed.counter == counter
    ensures if es == [] then AfterRevoking(log, counter, es, now) == log
            else IsRevoked(log, AfterRevoking(log, counter, es, now), es, now)
  {
    RevokingKeepsLog(log, counter, es, now);
    hide Sound;
  }

  /** revocationUpdateHead */
  datatype UpdateHead = UpdateHead(signed: SignedAccumulator, latest: Event)

  predicate NoDuplicates(s: seq<nat>) { forall i: nat, j: nat :: i < j < |s| ==> s[i] != s[j] }

  /** One log after the given updates of one credential type were stored. */
  function AppendedAt(log: Option<Log>, k: Key, id: string, updates: map<nat, Update>): Option<Log> {
    if k.id == id && k.counter in updates then
      Some(Log(updates[k.counter].signed, (if log.Some? then log.value.events else []) + updates[k.counter].events))
    else log
  }

  lemma SameLogs(a: Logs, b: Logs)
    requires forall k :: LogAt(a, k) == LogAt(b, k)
    ensures a == b
  {
    assert forall k :: k in a <==> LogAt(a, k).Some?;
    assert forall k :: k in b <==> LogAt(b, k).Some?;
    forall k <- a ensures k in b && a[k] == b[k] {
      assert LogAt(a, k) == LogAt(b, k);
    }
    assert a.Keys == b.Keys;
  }

  /** The counters listed per credential type are those of the stored keys, each once. */
  ghost predicate Covers(counters: map<string, seq<nat>>, keys: set<Key>) {
    && (forall id <- counters :: NoDuplicates(counters[id]))
    && (forall k <- keys :: k.id in counters && k.counter in counters[k.id])
    && (forall id <- counters :: forall c <- counters[id] :: Key(id, c) in keys)
  }

  function Listed(counters: map<string, seq<nat>>, id: string): seq<nat> { if id in counters then counters[id] else [] }

  lemma CoversListed(counters: map<string, seq<nat>>, keys: set<Key>, id: string, c: nat)
    requires Covers(counters, keys)
    ensures c in Listed(counters, id) <==> Key(id, c) in keys
  {
  }

  lemma CoversMore(counters: map<string, seq<nat>>, keys: set<Key>, id: string, c: nat)
    requires Covers(counters, keys) && Key(id, c) !in keys
    ensures Covers(counters[id := Listed(counters, id) + [c]], keys + {Key(id, c)})
  {
    CoversListed(counters, keys, id, c);
    var more := counters[id := Listed(counters, id) + [c]];
    forall k <- keys + {Key(id, c)} ensures k.id in more && k.counter in more[k.id] {
      if k != Key(id, c) {
        assert k.counter in counters[k.id];
      }
    }
  }

  /** int(from - first) on 64-bit words: the difference wraps, and is then read as signed. */
  function SignedDifference(a: nat, b: nat): int {
    var d := (a - b) % 0x1_0000_0000_0000_0000;
    if d < 0x8000_0000_0000_0000 then d else d - 0x1_0000_0000_0000_0000
  }

  lemma SmallDifference(a: nat, b: nat)
    requires a < 0x8000_0000_0000_0000 && b < 0x8000_0000_0000_0000
    ensures SignedDifference(a, b) == a - b
  {
  }

  lemma DifferenceCases(a: nat, b: nat)
    requires a < 0x1_0000_0000_0000_0000 && b < 0x1_0000_0000_0000_0000
    ensures SignedDifference(a, b) ==
            if a - b >= 0x8000_0000_0000_0000 then a - b - 0x1_0000_0000_0000_0000
            else if a - b < -0x8000_0000_0000_0000 then a - b + 0x1_0000_0000_0000_0000
            else a - b
  {
  }

  /** The events from index `from` up to but not including `to`. */
  function EventsIn(log: Option<Log>, from: nat, to: nat): Outcome<seq<Event>> {
    if log.None? || log.value.events == [] then Err
    else
      var all := log.value.events;
      var startIndex, endIndex := SignedDifference(from, all[0].index), SignedDifference(to, all[0].index);
      if startIndex < 0 || startIndex >= endIndex || endIndex > |all| then Err else Done(all[startIndex..endIndex])
  }

  /** For all 64-bit indices, the end of the log included, and as many events as fit in memory: a range
      is answered exactly when it is not empty and all of it is stored, and then with precisely the events
      that have those indices. */
  lemma EventsExact(log: Log, from: nat, to: nat)
    requires Sound(log) && from < 0x1_0000_0000_0000_0000 && to < 0x1_0000_0000_0000_0000
    requires Head(log) + 1 < 0x1_0000_0000_0000_0000 && |log.events| < 0x8000_0000_0000_0000
    ensures EventsIn(Some(log), from, to).Done? <==> log.events[0].index <= from < to <= Head(log) + 1
    ensures EventsIn(None, from, to) == Err && !EventsIn(Some(log), from, to).Panic?
    ensures EventsIn(Some(log), from, to).Done? ==>
      var r := EventsIn(Some(log), from, to).value;
      |r| == to - from && Linked(r) && forall i: nat :: i < |r| ==> r[i].index == from + i && r[i] in log.events
  {
    var all := log.events;
    LinkedIndices(all, |all| - 1);
    DifferenceCases(from, all[0].index);
    DifferenceCases(to, all[0].index);
    hide SignedDifference;
    if EventsIn(Some(log), from, to).Done? {
      var r := EventsIn(Some(log), from, to).value;
      var at := from - all[0].index;
      assert Linked(r) by {
        forall i: nat | i + 1 < |r| ensures LinkedAt(r, i) { assert LinkedAt(all, at + i); }
      }
      forall i: nat | i < |r| ensures r[i].index == from + i && r[i] in all { LinkedIndices(all, at + i); }
    }
  }

  predicate IsLatest(log: Log, limit: nat, u: Update) {
    && u.signed == log.signed
    && |u.events| == (if limit == 0 || limit > |log.events| then |log.events| else limit)
    && u.events == log.events[|log.events| - |u.events|..]
  }

  ghost predicate LatestOf(logs: Logs, key: Key, limit: nat, u: Update) {
    key in logs && IsLatest(logs[key], limit, u) && Verify(u)
  }

  lemma LatestVerifies(log: Log, limit: nat)
    requires Sound(log)
    ensures var n := if limit == 0 || limit > |log.events| then |log.events| else limit;
            var u := Update(log.signed, log.events[|log.events| - n..]);
            Verify(u) && IsLatest(log, limit, u)
  {
    var n := if limit == 0 || limit > |log.events| then |log.events| else limit;
    LinkedSuffix(log.events, |log.events| - n);
  }

  class MemRevStorage {
    var counters: map<string, seq<nat>>
    var signed: map<Key, SignedAccumulator>
    var events: map<Key, seq<Event>>

    /** The three maps speak about the same keys. */
    ghost predicate Indexed()
      reads this
    {
      signed.Keys == events.Keys && Covers(counters, signed.Keys)
    }

    ghost function View(): Logs
      reads this
    {
      map k | k in signed && k in events :: Log(signed[k], events[k])
    }

    /** The log stored for a key, if there is one. */
    ghost function At(k: Key): Option<Log>
      reads this
    {
      if k in signed && k in events then Some(Log(signed[k], events[k])) else None
    }

    lemma AtIsView(k: Key)
      ensures At(k) == LogAt(View(), k)
    {
    }

    ghost predicate Valid()
      reads this
    {
      Indexed() && AllSound(View())
    }

    constructor ()
      ensures Valid() && View() == map[]
    {
      counters, signed, events := map[], map[], map[];
    }

    /** The first half of AppendAccumulatorUpdate: the head of every log of a credential type. */
    method Heads(id: string) returns (o: Outcome<map<nat, UpdateHead>>)
      ensures Valid() ==> o.Done? && forall c: nat :: c in o.value <==> Key(id, c) in View()
      ensures Valid() ==> forall c <- o.value ::
        o.value[c] == UpdateHead(View()[Key(id, c)].signed, Last(View()[Key(id, c)].events))
    {
      var heads: map<nat, UpdateHead> := map[];
      var list := if id in counters then counters[id] else [];
      var i := 0;
      while i < |list|
        invariant i <= |list|
        invariant forall c: nat :: c in heads <==> c in list[..i]
        invariant forall c <- heads :: Key(id, c) in signed && Key(id, c) in events && events[Key(id, c)] != []
                                       && heads[c] == UpdateHead(signed[Key(id, c)], Last(events[Key(id, c)]))
      {
        var key := Key(id, list[i]);
        if key !in signed {
          return Err;
        }
        var log := if key in events then events[key] else [];
        if log == [] {
          assert Valid() ==> Sound(View()[key]);
          return Err;
        }
        heads := heads[list[i] := UpdateHead(signed[key], Last(log))];
        i := i + 1;
      }
      assert list[..i] == list;
      return Done(heads);
    }

    /** The second half of AppendAccumulatorUpdate: storing what the handler returned. */
    method Store(id: string, updates: map<nat, Update>)
      requires Indexed()
      modifies this
      ensures Indexed() && forall k :: At(k) == AppendedAt(old(At(k)), k, id, updates)
    {
      var known := if id in counters then counters[id] else [];
      forall c: nat ensures c in known <==> At(Key(id, c)).Some? {
        CoversListed(counters, signed.Keys, id, c);
      }
      hide Covers, View;
      var todo := updates.Keys;
      while todo != {}
        invariant todo <= updates.Keys && Indexed()
        invariant forall k :: At(k) == if k.counter in todo then old(At(k)) else AppendedAt(old(At(k)), k, id, updates)
        decreases todo
      {
        var c :| c in todo;
        StoreOne(id, c, updates[c], known);
        todo := todo - {c};
      }
    }

    method StoreOne(id: string, c: nat, u: Update, known: seq<nat>)
      requires Indexed() && (c in known <==> At(Key(id, c)).Some?)
      modifies this
      ensures Indexed()
      ensures forall k :: At(k) == if k == Key(id, c) then AppendedAt(old(At(k)), k, id, map[c := u]) else old(At(k))
    {
      var found := false;
      for i := 0 to |known|
        invariant found <==> c in known[..i]
      {
        found := found || known[i] == c;
      }
      assert known[..|known|] == known;
      hide Covers, AppendedAt;
      assert found <==> Key(id, c) in signed;
      if !found {
        CoversMore(counters, signed.Keys, id, c);
        counters := counters[id := (if id in counters then counters[id] else []) + [c]];
      }
      assert signed.Keys + {Key(id, c)} == if found then signed.Keys else old(signed.Keys) + {Key(id, c)};
      StoreLog(Key(id, c), u);
    }

    method StoreLog(key: Key, u: Update)
      requires signed.Keys == events.Keys
      modifies this`signed, this`events
      ensures signed.Keys == events.Keys == old(signed.Keys) + {key}
      ensures forall k :: At(k) == if k == key then AppendedAt(old(At(k)), k, key.id, map[key.counter := u])
        else old(At(k))
    {
      var before := if key in events then events[key] else [];
      signed := signed[key := u.signed];
      events := events[key := before + u.events];
    }
  
    /** RevocationStorage.AddUpdate */
    method AddUpdate(id: string, u: Update) returns (ok: bool)
      requires Valid()
      modifies this
      ensures Valid()
      ensures match Apply(old(View()), Op.AddUpdate(id, u))
              case Done(logs) => ok && View() == logs
              case _ => !ok && View() == old(View())
    {
      hide Covers, Fresh, Sound;
      var c := u.signed.counter;
      if !Verify(u) {
        return false;
      }
      var heads := Heads(id);
      if !heads.Done? {
        return false;
      }
      var newEvents := u.events;
      if c in heads.value {
        var head := heads.value[c];
        if head.latest.index > u.signed.acc.index {
          assert View() == View()[Key(id, c) := View()[Key(id, c)]];
          return true;
        }
        var o := CollectNewEvents(u.events, head.latest.index + 1, head.signed.acc.eventHash);
        if !head.signed.authentic || !o.Done? {
          return false;
        }
        newEvents := o.value;
        if newEvents == [] && !Verify(Update(u.signed, [head.latest])) {
          return false;
        }
      } else if u.events == [] {
        return false;
      }
      assert [] + u.events == u.events;
      StoreAll(id, map[c := Update(u.signed, newEvents)], Op.AddUpdate(id, u));
      return true;
    }

    /** Storing the updates an operation computed. */
    method StoreAll(id: string, updates: map<nat, Update>, ghost op: Op)
      requires Valid() && Apply(View(), op).Done?
      requires forall k :: LogAt(Apply(View(), op).value, k) == AppendedAt(LogAt(View(), k), k, id, updates)
      modifies this
      ensures Valid() && View() == Apply(old(View()), op).value
    {
      hide Apply, Sound, Covers;
      ghost var before, after := View(), Apply(View(), op).value;
      ApplyKeepsLogs(before, op);
      forall k ensures At(k) == LogAt(before, k) { AtIsView(k); }
      Store(id, updates);
      forall k ensures LogAt(View(), k) == LogAt(after, k) { AtIsView(k); }
      SameLogs(View(), after);
    }
  
    /** The start of Revoke: per key the current accumulator and the latest event as parent. */
    static method StartRevoking(heads: map<nat, UpdateHead>)
      returns (accs: map<nat, Accumulator>, events: map<nat, seq<Event>>)
      ensures accs.Keys == heads.Keys == events.Keys
      ensures forall c <- heads :: accs[c] == heads[c].signed.acc && events[c] == [heads[c].latest]
    {
      accs, events := map[], map[];
      var todo := heads.Keys;
      while todo != {}
        invariant todo <= heads.Keys
        invariant accs.Keys == heads.Keys - todo == events.Keys
        invariant forall c <- accs :: accs[c] == heads[c].signed.acc && events[c] == [heads[c].latest]
        decreases todo
      {
        var c :| c in todo;
        todo := todo - {c};
        accs, events := accs[c := heads[c].signed.acc], events[c := [heads[c].latest]];
      }
    }

    /** The end of Revoke: a signed update for every key with new events, the parent event left out. */
    static method SignUpdates(accs: map<nat, Accumulator>, events: map<nat, seq<Event>>)
      returns (updates: map<nat, Update>)
      requires accs.Keys == events.Keys && forall c <- events :: events[c] != []
      ensures forall c: nat :: c in updates <==> c in events && |events[c]| > 1
      ensures forall c <- updates :: updates[c] == Update(SignedAccumulator(accs[c], c, true), events[c][1..])
    {
      updates := map[];
      var todo := accs.Keys;
      while todo != {}
        invariant todo <= accs.Keys
        invariant forall c: nat :: c in updates <==> c in events && c !in todo && |events[c]| > 1
        invariant forall c <- updates :: updates[c] == Update(SignedAccumulator(accs[c], c, true), events[c][1..])
        decreases todo
      {
        var c :| c in todo;
        todo := todo - {c};
        var newEvents := events[c][1..];
        if newEvents != [] {
          updates := updates[c := Update(SignedAccumulator(accs[c], c, true), newEvents)];
        }
      }
    }

    /** The middle of Revoke: an event and a new accumulator for each record. */
    static method RevokeEach(heads: map<nat, UpdateHead>, records: seq<Record>, privateKeys: set<nat>, now: int)
      returns (ok: bool, accs: map<nat, Accumulator>, events: map<nat, seq<Event>>)
      ensures ok <==> forall r <- records :: Permitted(heads.Keys, privateKeys, r)
      ensures ok ==> AllProgress(heads, accs, events, records, now)
    {
      hide AllProgress, Permitted, Remove, Last, RevokedUnder;
      accs, events := StartRevoking(heads);
      AllProgressStart(heads, accs, events, now);
      assert records[..0] == [];
      for i := 0 to |records|
        invariant accs.Keys == events.Keys == heads.Keys
        invariant forall j: nat :: j < i ==> Permitted(heads.Keys, privateKeys, records[j])
        invariant AllProgress(heads, accs, events, records[..i], now)
      {
        var r := records[i];
        assert r in records && (Permitted(heads.Keys, privateKeys, r) <==>
          r.counter in accs && r.counter in privateKeys && r.removable) by {
          PermittedMeans(heads.Keys, privateKeys, r);
        }
        if r.counter !in accs || r.counter !in privateKeys || !r.removable {
          return false, accs, events;
        }
        AllProgressStep(heads, accs, events, records, i, now);
        var (acc, event) := Remove(r.e, Last(events[r.counter]), now);
        accs := accs[r.counter := acc];
        events := events[r.counter := events[r.counter] + [event]];
      }
      assert records[..|records|] == records;
      ok := true;
    }

    /** The handler of Revoke: for each record an event, and then an update for each key with events. */
    static method RevokeRecords(heads: map<nat, UpdateHead>, records: seq<Record>, privateKeys: set<nat>, now: int)
      returns (o: Outcome<map<nat, Update>>)
      ensures o.Done? <==> forall r <- records :: Permitted(heads.Keys, privateKeys, r)
      ensures o.Done? ==> forall c: nat :: c in o.value <==> c in heads && RevokedUnder(records, c) != []
      ensures o.Done? ==> forall c <- o.value ::
        IsRevocation(heads[c].latest, c, RevokedUnder(records, c), now, o.value[c])
    {
      var ok, accs, events := RevokeEach(heads, records, privateKeys, now);
      if !ok {
        return Err;
      }
      hide Progress, RevokedUnder, IsRevocation, Permitted;
      forall c <- heads ensures Progress(heads[c].latest, accs[c], events[c], RevokedUnder(records, c), now) {}
      forall c <- heads
        ensures |events[c]| == 1 + |RevokedUnder(records, c)|
        ensures |events[c]| > 1 ==>
          IsRevocation(heads[c].latest, c, RevokedUnder(records, c), now,
            Update(SignedAccumulator(accs[c], c, true), events[c][1..]))
      {
        ProgressIsRevocation(heads[c].latest, accs[c], events[c], RevokedUnder(records, c), now, c);
      }
      var updates := SignUpdates(accs, events);
      return Done(updates);
    }

    /** RevocationStorage.Revoke, for the given issuance records */
    method Revoke(id: string, authority: bool, records: seq<Record>, privateKeys: set<nat>, now: int) returns (ok: bool)
      requires Valid()
      modifies this
      ensures Valid()
      ensures match Apply(old(View()), Op.Revoke(id, authority, records, privateKeys, now))
              case Done(logs) => ok && View() == logs
              case _ => !ok && View() == old(View())
    {
      hide Covers, Sound, AfterRevoking, IsRevocation;
      ghost var op := Op.Revoke(id, authority, records, privateKeys, now);
      if !authority {
        return false;
      }
      var heads := Heads(id);
      if !heads.Done? {
        return false;
      }
      var updates := RevokeRecords(heads.value, records, privateKeys, now);
      assert forall r <- records :: CanRevoke(View(), op, r) <==> Permitted(heads.value.Keys, privateKeys, r);
      if !updates.Done? {
        return false;
      }
      forall k ensures LogAt(Apply(View(), op).value, k) == AppendedAt(LogAt(View(), k), k, id, updates.value) {
        if k.id == id && k in View() {
          assert Sound(View()[k]);
          SoundNonempty(View()[k]);
          RevokedParts(View()[k], k.counter, RevokedUnder(records, k.counter), now);
        }
      }
      StoreAll(id, updates.value, op);
      return true;
    }
  
    /** RevocationStorage.updateAccumulatorTimes, for one credential type */
    method UpdateAccumulatorTimes(id: string, privateKeys: set<nat>, now: int) returns (ok: bool)
      requires Valid()
      modifies this
      ensures Valid()
      ensures match Apply(old(View()), Op.Resign(id, privateKeys, now))
              case Done(logs) => ok && View() == logs
              case _ => !ok && View() == old(View())
    {
      hide Covers, Sound;
      var heads := Heads(id);
      if !heads.Done? {
        return false;
      }
      var updates: map<nat, Update> := map[];
      var todo := heads.value.Keys;
      while todo != {}
        invariant todo <= heads.value.Keys && updates.Keys == heads.value.Keys - todo
        invariant forall c <- updates ::
          c in privateKeys && updates[c] == Update(Resigned(heads.value[c].signed, c, now), [])
        decreases todo
      {
        var c :| c in todo;
        todo := todo - {c};
        if c !in privateKeys {
          assert Key(id, c) in View();
          return false;
        }
        updates := updates[c := Update(Resigned(heads.value[c].signed, c, now), [])];
      }
      forall k ensures LogAt(Apply(View(), Op.Resign(id, privateKeys, now)).value, k) ==
        AppendedAt(LogAt(View(), k), k, id, updates) {
        if k in View() {
          assert View()[k].events + [] == View()[k].events;
        }
      }
      StoreAll(id, updates, Op.Resign(id, privateKeys, now));
      return true;
    }

    /** RevocationStorage.updateAccumulatorTimes: one credential type after the other, up to the first
        for which it fails. */
    method UpdateAllAccumulatorTimes(ids: seq<string>, privateKeys: string -> set<nat>, now: int) returns (ok: bool)
      requires Valid()
      modifies this
      ensures Valid()
      ensures ResignedAll(old(View()), ids, privateKeys, now) == (View(), ok)
    {
      hide Covers, AllSound, Apply;
      for i := 0 to |ids|
        invariant Valid()
        invariant ResignedAll(old(View()), ids, privateKeys, now) == ResignedAll(View(), ids[i..], privateKeys, now)
      {
        assert ids[i..][0] == ids[i] && ids[i..][1..] == ids[i + 1..];
        ok := UpdateAccumulatorTimes(ids[i], privateKeys(ids[i]), now);
        if !ok {
          return;
        }
      }
      ok := true;
    }

    /** memRevStorage.Events */
    method Events(key: Key, from: nat, to: nat) returns (o: Outcome<seq<Event>>)
      requires Valid()
      ensures o == EventsIn(LogAt(View(), key), from, to)
    {
      var log := if key in events then events[key] else [];
      if log == [] {
        assert key in View() ==> Sound(View()[key]);
        return Err;
      }
      var startIndex, endIndex := SignedDifference(from, log[0].index), SignedDifference(to, log[0].index);
      if startIndex < 0 || startIndex >= endIndex || endIndex > |log| {
        return Err;
      }
      return Done(log[startIndex..endIndex]);
    }

    method LatestUpdate(key: Key, limit: nat) returns (u: Option<Update>)
      requires Valid()
      ensures if key in View() then u.Some? && LatestOf(View(), key, limit, u.value) else u.None?
    {
      if key !in signed || key !in events {
        return None;
      }
      var log := events[key];
      var offset := if limit == 0 || limit > |log| then |log| else limit;
      LatestVerifies(View()[key], limit);
      return Some(Update(signed[key], log[|log| - offset..]));
    }

    method LatestOfEach(id: string, list: seq<nat>, limit: nat) returns (o: Outcome<map<nat, Update>>)
      requires Valid()
      ensures o.Done? <==> forall c <- list :: Key(id, c) in View()
      ensures o.Done? ==> forall c: nat :: c in o.value <==> c in list
      ensures o.Done? ==> forall c <- o.value :: LatestOf(View(), Key(id, c), limit, o.value[c])
    {
      hide Indexed, AllSound, LatestOf, View;
      var updates: map<nat, Update> := map[];
      for i := 0 to |list|
        invariant forall c: nat :: c in updates <==> c in list[..i]
        invariant forall c <- updates :: Key(id, c) in View() && LatestOf(View(), Key(id, c), limit, updates[c])
      {
        var u := LatestUpdate(Key(id, list[i]), limit);
        if u.None? {
          assert list[i] in list;
          return Err;
        }
        updates := updates[list[i] := u.value];
      }
      assert list[..|list|] == list;
      return Done(updates);
    }

    /** memRevStorage.LatestAccumulatorUpdates: the latest events of one key or of all, all of them if
        the limit is 0. Every update handed out verifies. */
    method LatestAccumulatorUpdates(id: string, counter: Option<nat>, limit: nat) returns (o: Outcome<map<nat, Update>>)
      requires Valid()
      ensures o.Done? ==> forall c <- o.value :: LatestOf(View(), Key(id, c), limit, o.value[c])
      ensures o.Done? && counter.None? ==> forall c: nat :: Key(id, c) in View() <==> c in o.value
      ensures counter.Some? ==>
        (o.Done? <==> Key(id, counter.value) in View()) && (o.Done? ==> o.value.Keys == {counter.value})
      ensures counter.None? ==> (o.Done? <==> id in counters)
    {
      forall c: nat ensures c in Listed(counters, id) <==> Key(id, c) in View() {
        CoversListed(counters, signed.Keys, id, c);
      }
      hide Indexed, AllSound, LatestOf, View;
      if id !in counters {
        return Err;
      }
      o := LatestOfEach(id, if counter.Some? then [counter.value] else counters[id], limit);
    }
  }
}
