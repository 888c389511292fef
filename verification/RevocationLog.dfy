/** revocation.go: the append-only, hash-linked log of revocation events of one public key, and how
    updates from elsewhere, revocations and re-signed accumulators extend it. Cryptography enters
    through contracts: hashing is injective and a valid signature is a flag. */
module RevocationLog {
  import opened Outcomes

  /** A hash is the term it was computed from, so that equal hashes come from equal events. */
  datatype Hash = Origin | HashOf(index: nat, e: int, parent: Hash)

  datatype Event = Event(index: nat, e: int, parent: Hash) {
    function Hashed(): Hash { HashOf(index, e, parent) }
  }

  datatype Accumulator = Accumulator(index: nat, eventHash: Hash, time: int)

  /** `authentic`: the signature verifies against the public key with this counter, and that key is known. */
  datatype SignedAccumulator = SignedAccumulator(acc: Accumulator, counter: nat, authentic: bool)

  datatype Update = Update(signed: SignedAccumulator, events: seq<Event>)

  /** What is stored for one public key. */
  datatype Log = Log(signed: SignedAccumulator, events: seq<Event>)

  function Last(events: seq<Event>): Event
    requires events != []
  {
    events[|events| - 1]
  }

  predicate Follows(a: Event, b: Event) { b.index == a.index + 1 && b.parent == a.Hashed() }

  predicate LinkedAt(events: seq<Event>, i: nat)
    requires i + 1 < |events|
  {
    Follows(events[i], events[i + 1])
  }

  predicate Linked(events: seq<Event>) {
    forall i: nat :: i + 1 < |events| ==> LinkedAt(events, i)
  }

  predicate Confirms(acc: Accumulator, event: Event) { acc.index == event.index && acc.eventHash == event.Hashed() }

  /** The contract of gabi's Update.Verify: an authentic accumulator and no events, or a linked
      list of events whose last one is the accumulator's. */
  predicate Verify(u: Update) {
    u.signed.authentic && (u.events == [] || (Linked(u.events) && Confirms(u.signed.acc, Last(u.events))))
  }

  /** A log is sound if it is a linked list of events whose last one is the accumulator's. */
  predicate Sound(log: Log) { log.events != [] && Verify(Update(log.signed, log.events)) }

  function Head(log: Log): nat
    requires log.events != []
  {
    Last(log.events).index
  }

  // ---------------------------------------------------------------- adding an update

  /** The events after the first one that has the given index, that one included; an error if it does
      not link to the given hash. */
  function Fresh(events: seq<Event>, index: nat, parent: Hash): Outcome<seq<Event>> {
    if events == [] then Done([])
    else if events[0].index == index then if events[0].parent == parent then Done(events) else Err
    else Fresh(events[1..], index, parent)
  }

  /** AddUpdate, for the log of the update's own key: the log afterwards. */
  function Added(log: Option<Log>, u: Update): Outcome<Option<Log>>
    requires log.Some? ==> log.value.events != []
  {
    if !Verify(u) then Err
    else if log.None? then
      if u.events == [] then Err else Done(Some(Log(u.signed, u.events)))
    else
      var head := Last(log.value.events);
      if head.index > u.signed.acc.index then Done(log)
      else if !log.value.signed.authentic then Err
      else
        var added :- Fresh(u.events, head.index + 1, log.value.signed.acc.eventHash);
        if added == [] && !Verify(Update(u.signed, [head])) then Err
        else Done(Some(Log(u.signed, log.value.events + added)))
  }

  /** The loop of AddUpdate that collects the events not stored yet. */
  method CollectNewEvents(events: seq<Event>, index: nat, parent: Hash) returns (o: Outcome<seq<Event>>)
    ensures o == Fresh(events, index, parent)
  {
    var newEvents := events;
    var i := 0;
    while i < |events|
      invariant i <= |events| && newEvents == events[i..]
      invariant Fresh(events, index, parent) == Fresh(newEvents, index, parent)
    {
      if events[i].index == index {
        if parent != events[i].parent {
          return Err;
        }
        break;
      }
      newEvents := newEvents[1..];
      i := i + 1;
    }
    return Done(newEvents);
  }

  /** Indices in a linked list are consecutive. */
  lemma {:induction false} LinkedIndices(events: seq<Event>, i: nat)
    requires Linked(events) && i < |events|
    ensures events[i].index == events[0].index + i
  {
    if i > 0 {
      LinkedIndices(events, i - 1);
      assert LinkedAt(events, i - 1);
    }
  }

  /** Fresh finds the event with the given index by its position, if it is there. */
  lemma {:induction false} FreshIsSuffix(events: seq<Event>, index: nat, parent: Hash)
    requires Linked(events) && events != []
    ensures Fresh(events, index, parent) ==
            if events[0].index <= index < events[0].index + |events| then
              var at := index - events[0].index;
              if events[at].parent == parent then Done(events[at..]) else Err
            else Done([])
  {
    if events[0].index != index {
      var rest := events[1..];
      if rest != [] {
        LinkedSuffix(events, 1);
        assert LinkedAt(events, 0);
        FreshIsSuffix(rest, index, parent);
        if rest[0].index <= index < rest[0].index + |rest| {
          var at := index - events[0].index;
          assert rest[at - 1] == events[at] && rest[at - 1..] == events[at..];
        }
      }
    }
  }

  lemma LinkedSuffix(events: seq<Event>, at: nat)
    requires Linked(events) && at <= |events|
    ensures Linked(events[at..])
  {
    var rest := events[at..];
    forall i: nat | i + 1 < |rest| ensures LinkedAt(rest, i) {
      assert LinkedAt(events, at + i);
    }
  }

  lemma LinkedAppend(a: seq<Event>, b: seq<Event>)
    requires Linked(a) && Linked(b)
    requires a != [] && b != [] ==> Follows(Last(a), b[0])
    ensures Linked(a + b)
  {
    var s := a + b;
    forall i: nat | i + 1 < |s| ensures LinkedAt(s, i) {
      if i + 1 < |a| {
        assert LinkedAt(a, i);
      } else if i >= |a| {
        assert LinkedAt(b, i - |a|);
      }
    }
  }

  /** Exactly when an update is taken up, and what it adds: with an empty log, when it has events;
      otherwise never when it is older (nothing happens then), when it re-signs the head, or when its
      events start no later than right after the head and link to it. */
  predicate Acceptable(log: Option<Log>, u: Update)
    requires log.Some? ==> log.value.events != []
  {
    && Verify(u)
    && (if log.None? then u.events != [] else
          var head := Last(log.value.events);
          || u.signed.acc.index < head.index
          || Confirms(u.signed.acc, head)
          || (u.signed.acc.index > head.index && u.events != [] && u.events[0].index <= head.index + 1
              && EventAt(u.events, head.index + 1).Some?
                && EventAt(u.events, head.index + 1).value.parent == head.Hashed()))
  }

  function EventAt(events: seq<Event>, index: nat): Option<Event> {
    if events != [] && events[0].index <= index < events[0].index + |events| then Some(events[index - events[0].index])
      else None
  }

  lemma AddedIffAcceptable(log: Option<Log>, u: Update)
    requires log.Some? ==> Sound(log.value)
    ensures Added(log, u).Done? <==> Acceptable(log, u)
    ensures !Added(log, u).Panic?
  {
    if Verify(u) && log.Some? && u.events != [] {
      var head := Last(log.value.events);
      FreshIsSuffix(u.events, head.index + 1, log.value.signed.acc.eventHash);
      LinkedIndices(u.events, |u.events| - 1);
    }
  }

  /** Whatever authentic updates arrive, in whatever order: the log stays sound, what was stored stays
      a prefix, and the head never falls; if it stays, only the accumulator is replaced. */
  lemma AddedKeepsLog(log: Option<Log>, u: Update)
    requires log.Some? ==> Sound(log.value)
    requires Added(log, u).Done?
    ensures var after := Added(log, u).value;
            && after.Some? && Sound(after.value)
            && (log.Some? ==> log.value.events <= after.value.events)
            && (log.Some? ==> Head(log.value) <= Head(after.value))
            && (if log.Some? && Head(log.value) > u.signed.acc.index then after == log
                else after.value.signed == u.signed && Head(after.value) == u.signed.acc.index)
  {
    var after := Added(log, u).value.value;
    if log.Some? && Head(log.value) <= u.signed.acc.index {
      var head := Last(log.value.events);
      if u.events != [] {
        FreshIsSuffix(u.events, head.index + 1, log.value.signed.acc.eventHash);
        LinkedIndices(u.events, |u.events| - 1);
        var at := head.index + 1 - u.events[0].index;
        if 0 <= at < |u.events| {
          LinkedIndices(u.events, at);
          LinkedSuffix(u.events, at);
          LinkedAppend(log.value.events, u.events[at..]);
          assert Last(after.events) == Last(u.events);
        } else {
          assert after.events == log.value.events;
        }
      } else {
        assert after.events == log.value.events;
      }
    }
  }

  // ---------------------------------------------------------------- the hash chain determines the past

  /** Two linked lists that end in the same hash agree as far back as both go. */
  lemma {:induction false} HashDeterminesPast(a: seq<Event>, b: seq<Event>, n: nat)
    requires Linked(a) && Linked(b) && a != [] && b != []
    requires Last(a).Hashed() == Last(b).Hashed()
    requires n <= |a| && n <= |b|
    ensures a[|a| - n..] == b[|b| - n..]
  {
    if n > 0 {
      assert Last(a) == Last(b);
      if n > 1 {
        var a', b' := a[..|a| - 1], b[..|b| - 1];
        assert LinkedAt(a, |a| - 2) && LinkedAt(b, |b| - 2);
        assert Linked(a') && Linked(b') by { LinkedPrefix(a); LinkedPrefix(b); }
        HashDeterminesPast(a', b', n - 1);
        assert a[|a| - n..] == a'[|a'| - (n - 1)..] + [Last(a)];
        assert b[|b| - n..] == b'[|b'| - (n - 1)..] + [Last(b)];
      }
    }
  }

  lemma LinkedPrefix(a: seq<Event>)
    requires Linked(a) && a != []
    ensures Linked(a[..|a| - 1])
  {
    var p := a[..|a| - 1];
    forall i: nat | i + 1 < |p| ensures LinkedAt(p, i) {
      assert LinkedAt(a, i);
    }
  }

  /** The complete list of events an issuer ever created for a key. */
  predicate IssuerChain(chain: seq<Event>) { Linked(chain) && chain != [] && chain[0].index == 0 }

  /** The issuer only signs accumulators of its own chain. */
  predicate OnChain(chain: seq<Event>, acc: Accumulator) {
    acc.index < |chain| && acc.eventHash == chain[acc.index].Hashed()
  }

  /** The events of a verified update or a sound log whose accumulator is the issuer's are a segment
      of the issuer's chain: nothing can be altered, left out or inserted. */
  lemma VerifiedIsSegment(chain: seq<Event>, u: Update)
    requires IssuerChain(chain) && Verify(u) && u.events != [] && OnChain(chain, u.signed.acc)
    ensures |u.events| <= u.signed.acc.index + 1
    ensures u.events == chain[u.signed.acc.index + 1 - |u.events|..u.signed.acc.index + 1]
    ensures u.events[0].index == u.signed.acc.index + 1 - |u.events|
  {
    var n := u.signed.acc.index + 1;
    LinkedIndices(u.events, |u.events| - 1);
    var upTo := chain[..n];
    assert Linked(upTo) by {
      forall i: nat | i + 1 < |upTo| ensures LinkedAt(upTo, i) {
        assert LinkedAt(chain, i);
      }
    }
    HashDeterminesPast(u.events, upTo, |u.events|);
    assert u.events[0..] == u.events;
    assert upTo[n - |u.events|..] == chain[n - |u.events|..n];
  }

  /** A stored segment of the issuer's chain: positions from `from` up to but not including `to`. */
  datatype Segment = Segment(from: nat, to: nat)

  predicate IsSegment(chain: seq<Event>, log: Log, s: Segment) {
    && s.from < s.to <= |chain| && log.events == chain[s.from..s.to]
    && log.signed.authentic && log.signed.acc.index == s.to - 1 && log.signed.acc.eventHash == chain[s.to - 1].Hashed()
  }

  /** What an authentic update carrying `count` events up to index `to - 1` does to the stored segment:
      it is refused if it leaves a gap, ignored if it is old, and otherwise extends the segment. */
  function Extend(stored: Option<Segment>, count: nat, to: nat): Option<Segment>
    requires count <= to
  {
    if stored.None? then (if count == 0 then None else Some(Segment(to - count, to)))
    else if to <= stored.value.to || count == 0 || to - count > stored.value.to then stored
    else Some(Segment(stored.value.from, to))
  }

  /** The log after an update, whether it was taken up or refused. */
  function Receive(log: Option<Log>, u: Update): Option<Log>
    requires log.Some? ==> log.value.events != []
  {
    var o := Added(log, u);
    if o.Done? then o.value else log
  }

  predicate Holds(chain: seq<Event>, log: Option<Log>, stored: Option<Segment>) {
    match stored
    case None => log.None?
    case Some(s) => log.Some? && IsSegment(chain, log.value, s)
  }

  lemma SegmentIsSound(chain: seq<Event>, log: Log, s: Segment)
    requires IssuerChain(chain) && IsSegment(chain, log, s)
    ensures Sound(log) && Last(log.events) == chain[s.to - 1] && Head(log) == s.to - 1
  {
    LinkedIndices(chain, s.to - 1);
    assert Linked(log.events) by {
      forall i: nat | i + 1 < |log.events| ensures LinkedAt(log.events, i) {
        assert LinkedAt(chain, s.from + i);
      }
    }
  }

  /** The events an update of the issuer adds to a stored segment: none if it brings nothing new or
      leaves a gap, otherwise exactly the part of the chain in between. */
  lemma FreshOnChain(chain: seq<Event>, s: Segment, u: Update)
    requires IssuerChain(chain) && s.from < s.to <= |chain| && Verify(u) && OnChain(chain, u.signed.acc)
    ensures |u.events| <= u.signed.acc.index + 1
    ensures var to := u.signed.acc.index + 1;
            Fresh(u.events, s.to, chain[s.to - 1].Hashed()) ==
              Done(if to - |u.events| <= s.to < to then chain[s.to..to] else [])
  {
    var to := u.signed.acc.index + 1;
    if u.events != [] {
      VerifiedIsSegment(chain, u);
      FreshIsSuffix(u.events, s.to, chain[s.to - 1].Hashed());
      if to - |u.events| <= s.to < to {
        assert LinkedAt(chain, s.to - 1);
        var at := s.to - (to - |u.events|);
        assert u.events[at] == chain[s.to];
        assert u.events[at..] == chain[s.to..to];
      }
    }
  }

  /** What AddUpdate makes of an issuer's update when a segment of its chain is stored. */
  lemma AddedOnChain(chain: seq<Event>, log: Log, s: Segment, u: Update)
    requires IssuerChain(chain) && IsSegment(chain, log, s) && Verify(u) && OnChain(chain, u.signed.acc)
    ensures |u.events| <= u.signed.acc.index + 1 && log.events != []
    ensures var to := u.signed.acc.index + 1;
            Added(Some(log), u) ==
              if to < s.to then Done(Some(log))
              else if to == s.to then Done(Some(Log(u.signed, log.events)))
              else if to - |u.events| <= s.to then Done(Some(Log(u.signed, chain[s.from..to])))
              else Err
  {
    var to := u.signed.acc.index + 1;
    SegmentIsSound(chain, log, s);
    FreshOnChain(chain, s, u);
    SingletonVerifies(u.signed, chain[s.to - 1]);
    var stored, reached := log.events, chain[s.to - 1];
    assert s.to < to ==> stored + chain[s.to..to] == chain[s.from..to];
    assert stored + [] == stored;
    assert Last(stored) == reached && log.signed.acc.eventHash == reached.Hashed();
    hide Fresh, Linked, Verify, IsSegment, Sound, Head, Last, IssuerChain;
  }

  lemma SingletonVerifies(signed: SignedAccumulator, event: Event)
    ensures Verify(Update(signed, [event])) <==> signed.authentic && Confirms(signed.acc, event)
  {
  }

  /** One received update moves the stored segment exactly as Extend says. */
  lemma ReceiveExtends(chain: seq<Event>, log: Option<Log>, stored: Option<Segment>, u: Update)
    requires IssuerChain(chain) && Holds(chain, log, stored) && Verify(u) && OnChain(chain, u.signed.acc)
    ensures |u.events| <= u.signed.acc.index + 1
    ensures Holds(chain, Receive(log, u), Extend(stored, |u.events|, u.signed.acc.index + 1))
  {
    if stored.Some? {
      AddedOnChain(chain, log.value, stored.value, u);
      hide Added;
    } else if u.events != [] {
      VerifiedIsSegment(chain, u);
    }
  }

  /** Receiving a list of updates one after the other. */
  function ReceiveAll(log: Option<Log>, us: seq<Update>): Option<Log>
    requires log.Some? ==> Sound(log.value)
    decreases |us|
  {
    if us == [] then log
    else
      if Added(log, us[0]).Done? then AddedKeepsLog(log, us[0]); ReceiveAll(Receive(log, us[0]), us[1..])
      else ReceiveAll(log, us[1..])
  }

  function ExtendAll(stored: Option<Segment>, us: seq<Update>): Option<Segment>
    decreases |us|
  {
    if us == [] then stored
    else
      var to := us[0].signed.acc.index + 1;
      if |us[0].events| <= to then ExtendAll(Extend(stored, |us[0].events|, to), us[1..])
        else ExtendAll(stored, us[1..])
  }

  /** Authentic updates of one issuer, in any order, with repeats and gaps: the log always is the
      segment of the issuer's chain that interval arithmetic on the updates predicts. */
  lemma {:induction false} AnyUpdatesGiveSegment(chain: seq<Event>, log: Option<Log>, stored: Option<Segment>,
                                                 us: seq<Update>)
    requires IssuerChain(chain) && Holds(chain, log, stored)
    requires forall i :: 0 <= i < |us| ==> Verify(us[i]) && OnChain(chain, us[i].signed.acc)
    ensures log.Some? ==> Sound(log.value)
    ensures Holds(chain, ReceiveAll(log, us), ExtendAll(stored, us))
    decreases |us|
  {
    if stored.Some? {
      SegmentIsSound(chain, log.value, stored.value);
    }
    hide Verify, OnChain, Added, IssuerChain, Extend, IsSegment, Sound;
    if us != [] {
      ReceiveExtends(chain, log, stored, us[0]);
      AnyUpdatesGiveSegment(chain, Receive(log, us[0]), Extend(stored, |us[0].events|, us[0].signed.acc.index + 1),
        us[1..]);
    }
  }

  // ---------------------------------------------------------------- revoking and re-signing

  /** The contract of gabi's Accumulator.Remove: the next index and an event linked to the parent. */
  function Remove(e: int, parent: Event, time: int): (Accumulator, Event) {
    var event := Event(parent.index + 1, e, parent.Hashed());
    (Accumulator(event.index, event.Hashed(), time), event)
  }

  /** The log after the given attributes were revoked one by one. */
  function Revoked(events: seq<Event>, es: seq<int>): seq<Event>
    requires events != []
    decreases |es|
  {
    if es == [] then events else Revoked(events + [Remove(es[0], Last(events), 0).1], es[1..])
  }

  lemma {:induction false} RevokedSnoc(events: seq<Event>, es: seq<int>, e: int)
    requires events != []
    ensures Revoked(events, es) != []
    ensures Revoked(events, es + [e]) == Revoked(events, es) + [Remove(e, Last(Revoked(events, es)), 0).1]
    decreases |es|
  {
    if es == [] {
      assert (es + [e])[1..] == [];
    } else {
      assert (es + [e])[1..] == es[1..] + [e];
      RevokedSnoc(events + [Remove(es[0], Last(events), 0).1], es[1..], e);
    }
  }

  /** Revoking appends one linked event per attribute, in order. */
  lemma {:induction false} RevokedAppends(events: seq<Event>, es: seq<int>)
    requires Linked(events) && events != []
    ensures var after := Revoked(events, es);
            && Linked(after) && events <= after && |after| == |events| + |es|
            && forall i: nat :: i < |es| ==> after[|events| + i].e == es[i]
    decreases |es|
  {
    if es != [] {
      var next := events + [Remove(es[0], Last(events), 0).1];
      LinkedAppend(events, [Remove(es[0], Last(events), 0).1]);
      RevokedAppends(next, es[1..]);
      var after := Revoked(events, es);
      assert next <= after;
      forall i: nat | i < |es| ensures after[|events| + i].e == es[i] {
        if i > 0 {
          assert after[|next| + (i - 1)].e == es[1..][i - 1];
        }
      }
    }
  }
}
