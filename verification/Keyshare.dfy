/** internal/keysharecore/operations.go: commitment secrets and authentication challenges, which calls
    running at the same time put into a shared map and take out of it again to use them once. */
module Keyshare {
  import opened Outcomes

  function Lookup<V>(m: map<string, V>, key: string): Option<V> { if key in m then Some(m[key]) else None }

  // ---------------------------------------------------------------- calls in progress

  /** What a call holds between its locked sections: a value it drew, or one it took for a key. */
  datatype Holding = Drew(serial: nat) | Took(key: string, serial: nat)

  /** A use of a value: a response computed with a secret, or an authentication attempt checked
      against a challenge, and whether that succeeded. */
  datatype Use = Use(key: string, serial: nat, accepted: bool)

  /** Values are numbered as they are drawn. `putFor` remembers the key each was stored under. */
  datatype State = State(drawn: nat, slots: map<string, nat>, calls: map<nat, Holding>, putFor: map<nat, string>,
    uses: seq<Use>)

  datatype Step =
    | Draw(call: nat)
    | Put(call: nat, key: string)
    | Take(call: nat, key: string)
    | Finish(call: nat, matches: bool, answer: nat)
    | Abort(call: nat)

  const INITIAL := State(0, map[], map[], map[], [])

  /** GenerateCommitments and GenerateChallenge draw and put; GenerateResponse, GenerateResponseV2 and
      ValidateAuth take and finish. The key of a put is arbitrary: commit ids may repeat. */
  function Next(st: State, step: Step): State {
    match step
    case Draw(c) =>
      if c in st.calls then st else st.(drawn := st.drawn + 1, calls := st.calls[c := Drew(st.drawn)])
    case Put(c, key) =>
      if c !in st.calls || !st.calls[c].Drew? then st
      else
        var s := st.calls[c].serial;
        st.(slots := st.slots[key := s], calls := st.calls - {c}, putFor := st.putFor[s := key])
    case Take(c, key) =>
      if c in st.calls then st
      else
        var v := Lookup(st.slots, key);
        if v.None? then st
        else st.(slots := st.slots - {key}, calls := st.calls[c := Took(key, v.value)])
    case Finish(c, matches, answer) =>
      if c !in st.calls || !st.calls[c].Took? then st
      else
        var h := st.calls[c];
        st.(calls := st.calls - {c}, uses := st.uses + [Use(h.key, h.serial, matches && answer == h.serial)])
    case Abort(c) => st.(calls := st.calls - {c})
  }

  // ---------------------------------------------------------------- the shared maps

  /** commitmentData, by commit id, or authChallenges, by user id; values are named by their numbers. Each
      method is one locked section, and is the step of the call that makes it. */
  class Slots {
    var contents: map<string, nat>

    constructor ()
      ensures contents == INITIAL.slots
    {
      contents := map[];
    }

    method Put(key: string, value: nat, ghost st: State, ghost call: nat)
      requires contents == st.slots && call in st.calls && st.calls[call] == Drew(value)
      modifies this
      ensures contents == Next(st, Step.Put(call, key)).slots
      ensures Lookup(contents, key) == Some(value)
      ensures forall k :: k != key ==> Lookup(contents, k) == Lookup(old(contents), k)
    {
      contents := contents[key := value];
    }

    /** consumeChallenge, and the same for commitments: whatever comes of it, the entry is gone. */
    method Take(key: string, ghost st: State, ghost call: nat) returns (value: Option<nat>)
      requires contents == st.slots && call !in st.calls
      modifies this
      ensures contents == Next(st, Step.Take(call, key)).slots
      ensures value.Some? <==> call in Next(st, Step.Take(call, key)).calls
      ensures value.Some? ==> Next(st, Step.Take(call, key)).calls[call] == Took(key, value.value)
      ensures value == Lookup(old(contents), key) && key !in contents
      ensures forall k :: k != key ==> Lookup(contents, k) == Lookup(old(contents), k)
    {
      value := if key in contents then Some(contents[key]) else None;
      contents := contents - {key};
    }
  }

  /** A call that took a value ends with one use of it, under the key it was taken for, which is accepted exactly if
      the answer is that very value and everything else matches. */
  lemma FinishUses(st: State, c: nat, matches: bool, answer: nat)
    requires c in st.calls && st.calls[c].Took?
    ensures var after := Next(st, Step.Finish(c, matches, answer));
            && |after.uses| == |st.uses| + 1 && after.uses[..|st.uses|] == st.uses && c !in after.calls
            && var use := after.uses[|st.uses|];
            && use.key == st.calls[c].key && use.serial == st.calls[c].serial
            && (use.accepted <==> matches && answer == use.serial)
  {
  }

  /** A call that draws a new value and puts it under a key leaves it there, in place of whatever was there. */
  lemma DrawAndPut(st: State, c: nat, key: string)
    requires c !in st.calls
    ensures var after := Next(Next(st, Draw(c)), Step.Put(c, key));
            && after.slots == st.slots[key := st.drawn] && after.calls == st.calls && after.uses == st.uses
            && after.drawn > st.drawn
    ensures Next(Next(st, Draw(c)), Abort(c)).calls == st.calls
  {
    assert Next(st, Draw(c)).calls - {c} == st.calls;
  }

  /** A later call for that key takes it, and with the right answer its use is accepted; then both are gone. */
  lemma TakeAndFinish(st: State, d: nat, key: string)
    requires d !in st.calls && key in st.slots
    ensures var after := Next(Next(st, Step.Take(d, key)), Step.Finish(d, true, st.slots[key]));
            && after.uses == st.uses + [Use(key, st.slots[key], true)]
            && after.slots == st.slots - {key} && after.calls == st.calls
  {
    assert Next(st, Step.Take(d, key)).calls - {d} == st.calls;
  }

  function Run(st: State, steps: seq<Step>): State
    decreases |steps|
  {
    if steps == [] then st else Run(Next(st, steps[0]), steps[1..])
  }

  // ---------------------------------------------------------------- each value is in one place

  datatype Place = InSlot(key: string) | InCall(call: nat) | InUse(index: nat)

  ghost predicate At(st: State, serial: nat, p: Place) {
    match p
    case InSlot(key) => key in st.slots && st.slots[key] == serial
    case InCall(c) => c in st.calls && st.calls[c].serial == serial
    case InUse(i) => i < |st.uses| && st.uses[i].serial == serial
  }

  ghost predicate OnePlace(st: State) {
    forall serial: nat, p: Place, q: Place :: At(st, serial, p) && At(st, serial, q) ==> p == q
  }

  ghost predicate Drawn(st: State) {
    && (forall serial: nat, p: Place :: At(st, serial, p) ==> serial < st.drawn)
    && (forall serial <- st.putFor :: serial < st.drawn)
  }

  /** Taken and used values were stored under the very key they were taken for. */
  ghost predicate Keyed(st: State) {
    && (forall key <- st.slots :: KeyOf(st.putFor, st.slots[key]) == Some(key))
    && (forall c <- st.calls :: st.calls[c].Took? ==> KeyOf(st.putFor, st.calls[c].serial) == Some(st.calls[c].key))
    && (forall c <- st.calls :: st.calls[c].Drew? ==> st.calls[c].serial !in st.putFor)
    && (forall i: nat :: i < |st.uses| ==> KeyOf(st.putFor, st.uses[i].serial) == Some(st.uses[i].key))
  }

  function KeyOf(m: map<nat, string>, serial: nat): Option<string> { if serial in m then Some(m[serial]) else None }

  ghost predicate Inv(st: State) { OnePlace(st) && Drawn(st) && Keyed(st) }

  lemma StepKeepsPlaces(st: State, step: Step)
    requires Inv(st)
    ensures OnePlace(Next(st, step)) && Drawn(Next(st, step))
  {
    var after := Next(st, step);
    if step.Put? && step.call in st.calls {
      assert At(st, st.calls[step.call].serial, InCall(step.call));
    }
    forall serial: nat, p: Place | At(after, serial, p) ensures serial < after.drawn {
      CameFrom(st, step, serial, p);
    }
    forall serial: nat, p: Place, q: Place | At(after, serial, p) && At(after, serial, q) ensures p == q {
      CameFrom(st, step, serial, p);
      CameFrom(st, step, serial, q);
      assert Origin(st, step, p) == Origin(st, step, q) || (serial == st.drawn && step.Draw?);
    }
  }

  /** The place from which a step brought what it left at a place. */
  function Origin(st: State, step: Step, p: Place): Place {
    match step
    case Put(c, key) => if c in st.calls && st.calls[c].Drew? && p == InSlot(key) then InCall(c) else p
    case Take(c, key) => if c !in st.calls && p == InCall(c) then InSlot(key) else p
    case Finish(c, _, _) => if p == InUse(|st.uses|) then InCall(c) else p
    case _ => p
  }

  /** What is somewhere after a step came from the origin of that place, unless it was just drawn. */
  lemma CameFrom(st: State, step: Step, serial: nat, p: Place)
    requires At(Next(st, step), serial, p)
    ensures At(st, serial, Origin(st, step, p)) || (step.Draw? && p == InCall(step.call) && serial == st.drawn)
  {
  }

  lemma StepKeepsKeys(st: State, step: Step)
    requires Inv(st)
    ensures Keyed(Next(st, step))
  {
    if step.Put? && step.call in st.calls && st.calls[step.call].Drew? {
      var s := st.calls[step.call].serial;
      assert At(st, s, InCall(step.call));
      forall c <- st.calls | c != step.call ensures st.calls[c].serial != s {
        assert At(st, st.calls[c].serial, InCall(c));
      }
    }
    if step.Draw? {
      assert st.drawn !in st.putFor;
    }
  }

  lemma {:induction false} RunKeepsInv(st: State, steps: seq<Step>)
    requires Inv(st)
    ensures Inv(Run(st, steps))
    decreases |steps|
  {
    if steps != [] {
      StepKeepsPlaces(st, steps[0]);
      StepKeepsKeys(st, steps[0]);
      RunKeepsInv(Next(st, steps[0]), steps[1..]);
    }
  }

  /** In every interleaving of calls, even if commit ids repeat: each commitment secret enters at most
      one response, each challenge is used by at most one authentication attempt, and a value is only
      ever used for the key it was stored under. */
  lemma EachUsedOnce(steps: seq<Step>, i: nat, j: nat)
    requires i < |Run(INITIAL, steps).uses| && j < |Run(INITIAL, steps).uses|
    ensures var st := Run(INITIAL, steps);
            && (st.uses[i].serial == st.uses[j].serial ==> i == j)
            && st.uses[i].serial in st.putFor && st.putFor[st.uses[i].serial] == st.uses[i].key
  {
    assert Inv(INITIAL);
    RunKeepsInv(INITIAL, steps);
    var st := Run(INITIAL, steps);
    assert At(st, st.uses[i].serial, InUse(i)) && At(st, st.uses[j].serial, InUse(j));
  }
}
