/** The disclosure pipeline end to end: what an honest client offers and chooses is what the verifier
    finds, in one session and over chains of sessions of any length. */
module Chaining {
  import opened Outcomes
  import opened Codec
  import opened Identifiers
  import opened Scheme
  import opened Requests
  import opened CredentialStore
  import opened Candidates
  import opened Verify
  import opened Disclose

  // ---------------------------------------------------------------- one session

  ghost predicate PartHeld(ctx: Context, part: seq<AttributeId>) {
    forall j :: 0 <= j < |part| ==> HeldAttribute(ctx, part[j])
  }

  /** The part starts with the attributes of the conjunction, with texts that satisfy it. */
  ghost predicate PartMatches(ctx: Context, con: AttributeCon, part: seq<AttributeId>)
    requires PartHeld(ctx, part)
  {
    |con| <= |part| && forall k :: 0 <= k < |con| ==> RequestSatisfied(con[k], part[k].typ, TextOf(ctx, part[k]))
  }

  ghost predicate DisConMatches(ctx: Context, discon: AttributeDisCon, part: seq<AttributeId>) {
    PartHeld(ctx, part) && exists c :: 0 <= c < |discon| && PartMatches(ctx, discon[c], part)
  }

  /** Proofs and indices computed by the client for a choice of held attributes. */
  datatype Answer = Answer(
    choice: Choice, groups: seq<AttributeGroup>, indices: seq<seq<AttributeIndex>>, proofs: seq<Proof>)
  {
    function Sent(): Disclosure { Disclosure(proofs, indices) }
  }

  ghost predicate Honest(ctx: Context, a: Answer, nonRevocation: AttributeList -> NonRevocationProof) {
    && Grouped(ctx.conf, a.choice, a.groups, a.indices)
    && Built(ctx, a.groups, nonRevocation, a.proofs)
    && forall i :: 0 <= i < |a.choice| ==> PartHeld(ctx, a.choice[i])
  }

  /** The attributes are the first ones of the part, each with its text. */
  ghost predicate AttrsOfPart(ctx: Context, attrs: Attrs, part: seq<AttributeId>)
    requires PartHeld(ctx, part)
  {
    |attrs| <= |part| && forall k :: 0 <= k < |attrs| ==>
      attrs[k].identifier == part[k].typ && attrs[k].rawValue == TextOf(ctx, part[k])
  }

  /** Every position of an honest answer is readable as the attribute chosen there. */
  lemma PositionReads(ctx: Context, a: Answer, nonRevocation: AttributeList -> NonRevocationProof, i: nat, j: nat)
    requires Honest(ctx, a, nonRevocation) && i < |a.choice| && j < |a.choice[i]|
    ensures |a.indices[i]| == |a.choice[i]| && PartHeld(ctx, a.choice[i])
    ensures ReadsAs(ctx.conf, a.proofs, a.indices[i][j], a.choice[i][j].typ, TextOf(ctx, a.choice[i][j]))
  {
    hide HeldAttribute, PointsTo, Built, TextOf, ReadsAs;
    assert PartHeld(ctx, a.choice[i]) && PartPoints(ctx.conf, a.groups, a.choice[i], a.indices[i]);
    assert forall k :: 0 <= k < |a.groups| ==> GroupNamed(k, a.groups[k], NamedBy(a.indices));
    ChosenReadsAsItself(ctx, a.groups, nonRevocation, a.proofs, a.choice[i][j], a.indices[i][j]);
  }

  /** Against an honest answer no conjunction fails; one that the part matches is satisfied, and any
      satisfied one is satisfied by the attributes chosen in that part. */
  lemma {:induction false} ConAnswered(ctx: Context, a: Answer, nonRevocation: AttributeList -> NonRevocationProof,
                                       i: nat, con: AttributeCon)
    requires Honest(ctx, a, nonRevocation) && i < |a.choice|
    ensures |a.indices[i]| == |a.choice[i]| && PartHeld(ctx, a.choice[i])
    ensures ConSatisfy(ctx.conf, a.proofs, a.indices[i], con).Done?
    ensures ConSatisfy(ctx.conf, a.proofs, a.indices[i], con).value.Some? <==> PartMatches(ctx, con, a.choice[i])
    ensures ConSatisfy(ctx.conf, a.proofs, a.indices[i], con).value.Some? ==>
      AttrsOfPart(ctx, ConSatisfy(ctx.conf, a.proofs, a.indices[i], con).value.value, a.choice[i])
      && |ConSatisfy(ctx.conf, a.proofs, a.indices[i], con).value.value| == |con|
    decreases |con|
  {
    hide HeldAttribute, Built, TextOf, RequestSatisfied, ExtractAttribute, OnlyNamed, DistinctCreds, PointsTo;
    assert PartHeld(ctx, a.choice[i]) && PartPoints(ctx.conf, a.groups, a.choice[i], a.indices[i]);
    if con != [] {
      var n := |con| - 1;
      ConAnswered(ctx, a, nonRevocation, i, con[..n]);
      if |con| <= |a.choice[i]| {
        PositionReads(ctx, a, nonRevocation, i, n);
      }
    }
  }

  /** The disjunction at a matched position is satisfied, by attributes of the chosen part. */
  lemma DisConAnswered(ctx: Context, a: Answer, nonRevocation: AttributeList -> NonRevocationProof, i: nat,
                       discon: AttributeDisCon)
    requires Honest(ctx, a, nonRevocation) && i < |a.choice| && DisConMatches(ctx, discon, a.choice[i])
    ensures i < |a.indices|
    ensures DisConSatisfy(ctx.conf, a.proofs, a.indices[i], discon).Done?
    ensures DisConSatisfy(ctx.conf, a.proofs, a.indices[i], discon).value.Some?
    ensures AttrsOfPart(ctx, DisConSatisfy(ctx.conf, a.proofs, a.indices[i], discon).value.value, a.choice[i])
  {
    hide Honest, ConSatisfy, PartMatches, AttrsOfPart, DisConSatisfy, PartHeld;
    AnswerShape(ctx, a, nonRevocation);
    forall k | 0 <= k < |discon| ensures ConSatisfy(ctx.conf, a.proofs, a.indices[i], discon[k]).Done? {
      ConAnswered(ctx, a, nonRevocation, i, discon[k]);
    }
    var c :| 0 <= c < |discon| && PartMatches(ctx, discon[c], a.choice[i]);
    ConAnswered(ctx, a, nonRevocation, i, discon[c]);
    DisConSatisfiedIfCon(ctx.conf, a.proofs, a.indices[i], discon, c);
    var m := DisConSatisfied(ctx.conf, a.proofs, a.indices[i], discon);
    ConAnswered(ctx, a, nonRevocation, i, discon[m]);
  }

  lemma AnswerShape(ctx: Context, a: Answer, nonRevocation: AttributeList -> NonRevocationProof)
    requires Honest(ctx, a, nonRevocation)
    ensures |a.indices| == |a.choice| && |a.proofs| == |a.groups|
    ensures forall i :: 0 <= i < |a.choice| ==> PartHeld(ctx, a.choice[i])
  {
    hide HeldAttribute, PointsTo, OnlyNamed, ProofOf;
  }

  /** The verifier's Satisfy for a whole request, read as the list of attributes per disjunction. */
  ghost predicate AnsweredBy(ctx: Context, a: Answer, cdc: AttributeConDisCon, list: seq<Option<Attrs>>) {
    && ConDisConSatisfy(ctx.conf, a.Sent(), cdc) == Done(Matched(true, list))
    && |list| == |cdc| == |a.choice|
    && forall i :: 0 <= i < |list| ==>
      list[i].Some? && PartHeld(ctx, a.choice[i]) && AttrsOfPart(ctx, list[i].value, a.choice[i])
  }

  ghost predicate NoExtras(d: Disclosure, n: nat) {
    IndicesInRange(d, n) && forall x :: IsDisclosed(d, x) ==> Named(d, n, x)
  }

  /** A choice that matches a request position by position is found complete by the verifier, at
      indices within range, and discloses nothing that was not asked for. */
  lemma RequestAnswered(ctx: Context, a: Answer, nonRevocation: AttributeList -> NonRevocationProof,
                        cdc: AttributeConDisCon)
    returns (list: seq<Option<Attrs>>)
    requires Honest(ctx, a, nonRevocation) && |a.choice| == |cdc|
    requires forall i :: 0 <= i < |cdc| ==> DisConMatches(ctx, cdc[i], a.choice[i])
    ensures AnsweredBy(ctx, a, cdc, list)
    ensures NoExtras(a.Sent(), |cdc|)
  {
    hide Honest, DisConSatisfy, DisConMatches, AttrsOfPart, PartHeld, NoExtras, ConDisConSatisfy;
    AnswerShape(ctx, a, nonRevocation);
    list := [];
    for i := 0 to |cdc|
      invariant |list| == i
      invariant forall k :: 0 <= k < i ==>
        list[k].Some? && PartHeld(ctx, a.choice[k]) && AttrsOfPart(ctx, list[k].value, a.choice[k])
        && DisConSatisfy(ctx.conf, a.proofs, a.indices[k], cdc[k]) == Done(list[k])
    {
      DisConAnswered(ctx, a, nonRevocation, i, cdc[i]);
      list := list + [DisConSatisfy(ctx.conf, a.proofs, a.indices[i], cdc[i]).value];
    }
    CompleteIff(ctx.conf, a.Sent(), cdc, list);
    NothingExtra(ctx, a, nonRevocation);
  }

  /** What an honest answer discloses is exactly metadata and the chosen attributes. */
  lemma NothingExtra(ctx: Context, a: Answer, nonRevocation: AttributeList -> NonRevocationProof)
    requires Honest(ctx, a, nonRevocation)
    ensures NoExtras(a.Sent(), |a.choice|)
  {
    hide HeldAttribute, PartHeld, KnownAttribute, PositionOf;
    var d := a.Sent();
    forall s, k | 0 <= s < |d.indices| && s < |a.choice| && 0 <= k < |d.indices[s]|
      ensures 0 <= d.indices[s][k].cred < |d.proofs|
    {
      assert PartPoints(ctx.conf, a.groups, a.choice[s], a.indices[s]);
      assert PointsTo(ctx.conf, a.groups, a.choice[s][k], a.indices[s][k]);
    }
    forall x | IsDisclosed(d, x) ensures Named(d, |a.choice|, x) {
      assert d.proofs[x.cred] == ProofOf(ctx, ctx.ByHash(a.groups[x.cred].cred.hash).value, a.groups[x.cred],
        nonRevocation);
      assert GroupNamed(x.cred, a.groups[x.cred], NamedBy(a.indices));
      assert x in NamedBy(a.indices);
    }
  }

  // ---------------------------------------------------------------- from the listed options

  /** The only value demanded of a whole credential, if any, is the one that verifiers find. */
  predicate WholeDemandsMeetable(con: AttributeCon) {
    forall k :: 0 <= k < |con| && IsCredential(con[k].typ) ==> con[k].value.None? || con[k].value == Some(PRESENT)
  }

  ghost predicate ValidatedCon(conf: Configuration, con: AttributeCon) {
    && WellFormedTypes(con) && Adjacent(con)
    && (forall k :: 0 <= k < |con| ==> KnownAttribute(conf, con[k].typ))
    && WholeDemandsMeetable(con)
  }

  function Ids(e: seq<DisclosureCandidate>): (r: seq<AttributeId>)
    ensures |r| == |e|
  {
    seq(|e|, k requires 0 <= k < |e| => AttributeId(e[k].typ, e[k].hash))
  }

  /** The client's judgement of a request carries over to the verifier. */
  lemma MeetsRequestMeansSatisfied(conf: Configuration, al: AttributeList, ar: AttributeRequest)
    requires MeetsRequest(conf, al, ar)
    requires IsCredential(ar.typ) ==> ar.value.None? || ar.value == Some(PRESENT)
    ensures RequestSatisfied(ar, ar.typ, DisclosedText(conf, al, ar.typ))
  {
    hide UntranslatedAttribute;
  }

  /** Any other value demanded of a whole credential is never met at the verifier, whatever is disclosed. */
  lemma OtherWholeDemandNeverMet(conf: Configuration, al: AttributeList, ar: AttributeRequest)
    requires IsCredential(ar.typ) && ar.value.Some? && ar.value != Some(PRESENT)
    ensures !RequestSatisfied(ar, ar.typ, DisclosedText(conf, al, ar.typ))
  {
    hide UntranslatedAttribute;
  }

  /** Client and verifier judge the same of an attribute. Demands on a whole credential they judge differently: the
      client looks for an attribute named like the credential itself, the verifier always finds "present". There
      they agree exactly if nothing is demanded, or a value that must not be null and the client finds one, or if
      the client finds the demanded value exactly when that is "present". */
  lemma SameJudgementIff(conf: Configuration, al: AttributeList, ar: AttributeRequest)
    ensures var own := UntranslatedAttribute(conf, al, ar.typ);
            (MeetsRequest(conf, al, ar) <==> RequestSatisfied(ar, ar.typ, DisclosedText(conf, al, ar.typ))) <==>
            || !IsCredential(ar.typ)
            || (if ar.value.None? then ar.notNull ==> own.Some? else (own == ar.value <==> ar.value == Some(PRESENT)))
  {
    hide UntranslatedAttribute;
  }

  /** A credential type with an attribute named like itself, and a credential of it. */
  const SELF_NAMED := "s.i.c"

  const SELF_NAMED_HASH: bytes := [1, 2, 3, 4, 5, 6, 7, 8, 9, 10, 11, 12, 13, 14, 15, 16]

  function SelfNamedConf(): Configuration {
    Configuration(
      map[SELF_NAMED :=
            CredentialType("s", [AttributeType("c", false, false, false)], false, false, 0, false, false, [])],
      map[SELF_NAMED_HASH := SELF_NAMED], map[], n => [], bs => "h")
  }

  /** With metadata of version 3 and the text "A". */
  function SelfNamedCredential(): AttributeList {
    AttributeList("h", [MetadataOf(SELF_NAMED_HASH), 131], false, false)
  }

  /** The client offers that credential for a demanded value of that attribute, and the verifier never
      finds it. */
  lemma SelfNamedAttributeMismatch()
    ensures var al, conf := SelfNamedCredential(), SelfNamedConf();
            var ar := AttributeRequest(SELF_NAMED, Some([65]), false);
            && IsCredential(SELF_NAMED) && WellFormed(conf, al, SELF_NAMED)
            && MeetsRequest(conf, al, ar) && !RequestSatisfied(ar, ar.typ, DisclosedText(conf, al, ar.typ))
  {
    SelfNamedParts();
    SelfNamedText();
    hide SelfNamedConf, SelfNamedCredential, UntranslatedAttribute, WellFormed;
  }

  lemma SelfNamedText()
    ensures WellFormed(SelfNamedConf(), SelfNamedCredential(), SELF_NAMED)
    ensures UntranslatedAttribute(SelfNamedConf(), SelfNamedCredential(), SELF_NAMED) == Some([65])
  {
    var al, conf := SelfNamedCredential(), SelfNamedConf();
    hide MetadataOf, CredentialTypeHash, Field, Version, ToBytes, HashedBytes, IndexOfName, PartsCount, Name,
      CredentialTypeOf, LastDot, DecodeAttribute, Expiry;
    SelfNamedParts();
    MetadataOfReads(SELF_NAMED_HASH);
    SelfNamedDecodes();
    assert TypeOf(conf, al) == Some(SELF_NAMED);
  }

  lemma SelfNamedDecodes()
    ensures DecodeAttribute(131, 3) == Some([65])
    ensures IndexOfName([AttributeType("c", false, false, false)], "c") == Some(0)
  {
    assert ToBytes(65) == [65];
  }

  lemma SelfNamedParts()
    ensures PartsCount(SELF_NAMED) == 2 && Name(SELF_NAMED) == "c" && CredentialTypeOf(SELF_NAMED) == SELF_NAMED
  {
    var dots := "s.i.";
    assert SELF_NAMED[..4] == dots && dots[..3] == "s.i" && "s.i"[..2] == "s." && "s."[..1] == "s";
    assert PartsCount("s") == 0;
  }

  /** A fully present option listed for a validated disjunction matches that disjunction. */
  lemma ListedOptionMatches(ctx: Context, discon: AttributeDisCon, e: seq<DisclosureCandidate>)
    requires ctx.Valid() && KnownDisCon(ctx.conf, discon)
    requires forall c :: 0 <= c < |discon| ==> ValidatedCon(ctx.conf, discon[c])
    requires e in DisConOptions(ctx, discon) && forall k :: 0 <= k < |e| ==> e[k].hash != ""
    ensures DisConMatches(ctx, discon, Ids(e))
  {
    hide DisConOptions, ConOptions, StoreInv, EntryMeetsCon, HeldAttribute, PartMatches;
    DisConOptionsMember(ctx, discon, e);
    var c :| 0 <= c < |discon| && e in ConOptions(ctx, discon[c]);
    assert ValidatedCon(ctx.conf, discon[c]);
    ListedOptionMeetsCon(ctx, discon[c], e);
    EntryMatches(ctx, discon[c], e);
  }

  lemma EntryMatches(ctx: Context, con: AttributeCon, e: seq<DisclosureCandidate>)
    requires ValidatedCon(ctx.conf, con) && EntryMeetsCon(ctx, con, e)
    ensures PartHeld(ctx, Ids(e)) && PartMatches(ctx, con, Ids(e))
  {
    hide KnownAttribute, WellFormed, MeetsRequest, DisclosedText, RequestSatisfied, PartsCount, Adjacent;
    forall k | 0 <= k < |con|
      ensures HeldAttribute(ctx, Ids(e)[k]) && RequestSatisfied(con[k], Ids(e)[k].typ, TextOf(ctx, Ids(e)[k]))
    {
      assert PositionMeets(ctx, con[k], e[k]);
      var al :| ctx.ByHash(e[k].hash) == Some(al) && WellFormed(ctx.conf, al, CredentialTypeOf(con[k].typ))
        && MeetsRequest(ctx.conf, al, con[k]);
      assert PartsCount(con[k].typ) > 0;
      MeetsRequestMeansSatisfied(ctx.conf, al, con[k]);
    }
  }

  /** The pipeline, end to end: for every validated request and every held set of credentials, one
      fully present listed option per disjunction, grouped and proved by the client, is complete for
      the verifier, in range, and without extra attributes. */
  lemma ChosenOptionsSatisfyRequest(ctx: Context, entries: seq<seq<DisclosureCandidate>>, a: Answer,
                                    nonRevocation: AttributeList -> NonRevocationProof)
    returns (list: seq<Option<Attrs>>)
    requires ctx.Valid() && Chosen(ctx, entries)
    requires a.choice == seq(|entries|, i requires 0 <= i < |entries| => Ids(entries[i]))
    requires Grouped(ctx.conf, a.choice, a.groups, a.indices) && Built(ctx, a.groups, nonRevocation, a.proofs)
    ensures AnsweredBy(ctx, a, ctx.request.disclose, list)
    ensures NoExtras(a.Sent(), |ctx.request.disclose|)
  {
    hide DisConOptions, StoreInv, Grouped, Built, ValidatedCon, KnownDisCon, AnsweredBy, NoExtras, PartMatches,
      HeldAttribute;
    forall i | 0 <= i < |entries| ensures DisConMatches(ctx, ctx.request.disclose[i], a.choice[i]) {
      assert ChosenFor(ctx, ctx.request.disclose[i], entries[i]);
      ListedOptionMatches(ctx, ctx.request.disclose[i], entries[i]);
    }
    list := RequestAnswered(ctx, a, nonRevocation, ctx.request.disclose);
  }

  /** The user chose one fully present listed option for each validated disjunction. */
  ghost predicate Chosen(ctx: Context, entries: seq<seq<DisclosureCandidate>>) {
    && |entries| == |ctx.request.disclose|
    && forall i :: 0 <= i < |entries| ==> ChosenFor(ctx, ctx.request.disclose[i], entries[i])
  }

  ghost predicate ChosenFor(ctx: Context, discon: AttributeDisCon, e: seq<DisclosureCandidate>) {
    && KnownDisCon(ctx.conf, discon)
    && (forall c :: 0 <= c < |discon| ==> ValidatedCon(ctx.conf, discon[c]))
    && e in DisConOptions(ctx, discon)
    && forall k :: 0 <= k < |e| ==> e[k].hash != ""
  }

  /** What the user sees of an option that can be proved. */
  predicate Unflagged(e: seq<DisclosureCandidate>) { forall k :: 0 <= k < |e| ==> !e[k].revoked && !e[k].notRevokable }

  predicate CredProvable(ctx: Context, cred: CredentialId) { Provable(ctx, AttributeGroup(cred, [])) }

  /** A chosen option can be grouped, and all of its credentials be proved exactly if none is flagged. */
  lemma ChosenProvable(ctx: Context, discon: AttributeDisCon, e: seq<DisclosureCandidate>)
    requires ctx.Valid() && ChosenFor(ctx, discon, e)
    ensures PartKnown(ctx.conf, Ids(e))
    ensures Unflagged(e) <==> PartProvable(ctx, Ids(e))
  {
    hide DisConOptions, ConOptions, StoreInv, HeldAttribute, PartMatches, ValidatedCon;
    ListedOptionMatches(ctx, discon, e);
    DisConOptionsMember(ctx, discon, e);
    var c :| 0 <= c < |discon| && e in ConOptions(ctx, discon[c]);
    forall k | 0 <= k < |e|
      ensures KnownAttribute(ctx.conf, Ids(e)[k].typ)
      ensures !e[k].revoked && !e[k].notRevokable <==> CredProvable(ctx, CredOf(Ids(e)[k]))
    {
      assert HeldAttribute(ctx, Ids(e)[k]);
      HeldIsKnown(ctx, Ids(e)[k]);
      ListedFlags(ctx, discon[c], e, k);
    }
  }

  lemma HeldIsKnown(ctx: Context, a: AttributeId)
    requires HeldAttribute(ctx, a)
    ensures KnownAttribute(ctx.conf, a.typ)
  {
  }

  predicate PartProvable(ctx: Context, part: seq<AttributeId>) {
    forall j :: 0 <= j < |part| ==> CredProvable(ctx, CredOf(part[j]))
  }

  /** The groups are those of the chosen credentials. */
  lemma GroupsOfChoice(ctx: Context, choice: Choice, groups: seq<AttributeGroup>, indices: seq<seq<AttributeIndex>>)
    requires Grouped(ctx.conf, choice, groups, indices)
    ensures (forall k :: 0 <= k < |groups| ==> Provable(ctx, groups[k])) <==>
            forall i :: 0 <= i < |choice| ==> PartProvable(ctx, choice[i])
  {
    hide KnownAttribute, PositionOf, OnlyNamed, DistinctCreds;
    assert forall k :: 0 <= k < |groups| ==> (Provable(ctx, groups[k]) <==> CredProvable(ctx, groups[k].cred));
    hide Provable, CredProvable;
    if forall i :: 0 <= i < |choice| ==> PartProvable(ctx, choice[i]) {
      forall k | 0 <= k < |groups| ensures CredProvable(ctx, groups[k].cred) {
        assert IsUsed(k, NamedBy(indices));
        var x :| x in NamedBy(indices) && x.cred == k;
        var i, j :| 0 <= i < |indices| && 0 <= j < |indices[i]| && indices[i][j] == x;
        assert PartPoints(ctx.conf, groups, choice[i], indices[i]) && PartProvable(ctx, choice[i]);
        assert PointsTo(ctx.conf, groups, choice[i][j], x);
      }
    }
    if forall k :: 0 <= k < |groups| ==> Provable(ctx, groups[k]) {
      forall i | 0 <= i < |choice| ensures PartProvable(ctx, choice[i]) {
        assert PartPoints(ctx.conf, groups, choice[i], indices[i]);
        forall j | 0 <= j < |choice[i]| ensures CredProvable(ctx, CredOf(choice[i][j])) {
          assert PointsTo(ctx.conf, groups, choice[i][j], indices[i][j]);
        }
      }
    }
  }

  /** The client's side of a session, from the chosen options to the disclosure: it succeeds exactly if
      no chosen credential is flagged as revoked or as unable to prove that it is not, and what it
      sends is complete for the verifier and discloses nothing else. */
  method AnswerRequest(ctx: Context, entries: seq<seq<DisclosureCandidate>>,
                       nonRevocation: AttributeList -> NonRevocationProof)
    returns (o: Outcome<Disclosure>)
    requires ctx.Valid() && Chosen(ctx, entries)
    ensures o.Done? <==> forall i :: 0 <= i < |entries| ==> Unflagged(entries[i])
    ensures o.Done? ==> ConDisConSatisfy(ctx.conf, o.value, ctx.request.disclose).Done?
                        && ConDisConSatisfy(ctx.conf, o.value, ctx.request.disclose).value.complete
    ensures o.Done? ==> NoExtras(o.value, |ctx.request.disclose|)
  {
    hide StoreInv, ChosenFor, Unflagged, Grouped, Built, Provable, NoExtras, ConDisConSatisfy, PartKnown, PartProvable;
    var choice := seq(|entries|, i requires 0 <= i < |entries| => Ids(entries[i]));
    forall i | 0 <= i < |choice|
      ensures PartKnown(ctx.conf, choice[i]) && (Unflagged(entries[i]) <==> PartProvable(ctx, choice[i]))
    {
      ChosenProvable(ctx, ctx.request.disclose[i], entries[i]);
    }
    var grouped := GroupCredentials(ctx.conf, choice);
    var (groups, indices) := grouped.value;
    GroupsOfChoice(ctx, choice, groups, indices);
    var proofs := BuildProofs(ctx, groups, nonRevocation);
    if proofs.IsFailure() {
      return proofs.PropagateFailure();
    }
    var a := Answer(choice, groups, indices, proofs.value);
    assert Chosen(ctx, entries);
    ghost var list := ChosenOptionsSatisfyRequest(ctx, entries, a, nonRevocation);
    AnsweredIsComplete(ctx, a, ctx.request.disclose, list);
    return Done(a.Sent());
  }

  lemma AnsweredIsComplete(ctx: Context, a: Answer, cdc: AttributeConDisCon, list: seq<Option<Attrs>>)
    requires AnsweredBy(ctx, a, cdc, list)
    ensures ConDisConSatisfy(ctx.conf, a.Sent(), cdc).Done? && ConDisConSatisfy(ctx.conf, a.Sent(), cdc).value.complete
  {
  }

  // ---------------------------------------------------------------- the verdict on an honest answer

  /** A held credential that the verifier has no reason to refuse at time `t`. */
  ghost predicate Presentable(ctx: Context, al: AttributeList, ct: string,
                              nonRevocation: AttributeList -> NonRevocationProof, t: int) {
    && al.ints != []
    && (ct in ctx.request.skipExpiry || Expiry(al.ints[0]) >= t)
    && KeyExpiry(ctx.conf, ct, al.ints[0]).Some? && SigningDate(al.ints[0]) <= KeyExpiry(ctx.conf, ct, al.ints[0]).value
    && (ct in ctx.request.revocation ==>
          |ctx.request.revocation[ct].updates| > 0
          && NonRevocationMet(ctx.request.revocation, ct, Some(nonRevocation(al))))
  }

  /** Each group is a held credential of its type. */
  lemma GroupHeld(ctx: Context, a: Answer, nonRevocation: AttributeList -> NonRevocationProof, k: nat)
    requires Honest(ctx, a, nonRevocation) && k < |a.groups|
    ensures ctx.ByHash(a.groups[k].cred.hash).Some?
    ensures WellFormed(ctx.conf, ctx.ByHash(a.groups[k].cred.hash).value, a.groups[k].cred.typ)
    ensures a.proofs[k] == ProofOf(ctx, ctx.ByHash(a.groups[k].cred.hash).value, a.groups[k], nonRevocation)
    ensures TypeOfProof(ctx.conf, a.proofs[k]) == Some(a.groups[k].cred.typ)
  {
    hide Honest, KnownAttribute, PartsCount, TypeOfMetadata, RequestsRevocation, WellFormed;
    var i, j := GroupChosen(ctx, a, nonRevocation, k);
    var al := ctx.ByHash(a.groups[k].cred.hash).value;
    MetadataDisclosed(ctx, al, a.groups[k], nonRevocation);
  }

  lemma MetadataDisclosed(ctx: Context, al: AttributeList, group: AttributeGroup,
                          nonRevocation: AttributeList -> NonRevocationProof)
    requires WellFormed(ctx.conf, al, group.cred.typ) && 1 in group.attrs
    ensures TypeOfProof(ctx.conf, ProofOf(ctx, al, group, nonRevocation)) == Some(group.cred.typ)
  {
    hide TypeOfMetadata, RequestsRevocation;
    assert DisclosedInts(al, group.attrs)[1] == al.ints[0];
  }

  /** Each group stems from a chosen attribute. */
  lemma GroupChosen(ctx: Context, a: Answer, nonRevocation: AttributeList -> NonRevocationProof, k: nat)
    returns (i: nat, j: nat)
    requires Honest(ctx, a, nonRevocation) && k < |a.groups|
    ensures i < |a.choice| && j < |a.choice[i]| && a.groups[k].cred == CredOf(a.choice[i][j])
      && HeldAttribute(ctx, a.choice[i][j])
    ensures 1 in a.groups[k].attrs && k < |a.proofs| && ctx.ByHash(a.groups[k].cred.hash).Some?
    ensures a.proofs[k] == ProofOf(ctx, ctx.ByHash(a.groups[k].cred.hash).value, a.groups[k], nonRevocation)
  {
    hide KnownAttribute, PositionOf, PartsCount, ProofOf, HeldAttribute;
    assert IsUsed(k, NamedBy(a.indices)) && GroupNamed(k, a.groups[k], NamedBy(a.indices));
    var x :| x in NamedBy(a.indices) && x.cred == k;
    i, j :| 0 <= i < |a.indices| && 0 <= j < |a.indices[i]| && a.indices[i][j] == x;
    assert PartPoints(ctx.conf, a.groups, a.choice[i], a.indices[i]) && PartHeld(ctx, a.choice[i]);
    assert PointsTo(ctx.conf, a.groups, a.choice[i][j], x) && HeldAttribute(ctx, a.choice[i][j]);
  }

  /** A client holding at most one instance of each singleton type never proves one twice. */
  lemma SingletonsProvedOnce(ctx: Context, a: Answer, nonRevocation: AttributeList -> NonRevocationProof)
    requires ctx.Valid() && Honest(ctx, a, nonRevocation)
    ensures SingletonsOnce(ctx.conf, a.proofs)
  {
    hide Honest, StoreInv, TypeOfMetadata, ProofOf;
    GroupsDistinct(ctx, a, nonRevocation);
    forall i, j | 0 <= i < j < |a.proofs| && IsSingleton(ctx.conf, TypeOfProof(ctx.conf, a.proofs[i]))
      ensures TypeOfProof(ctx.conf, a.proofs[i]) != TypeOfProof(ctx.conf, a.proofs[j])
    {
      GroupHeld(ctx, a, nonRevocation, i);
      GroupHeld(ctx, a, nonRevocation, j);
      assert a.groups[i].cred != a.groups[j].cred;
      if a.groups[i].cred.typ == a.groups[j].cred.typ {
        OneInstance(ctx, a.groups[i].cred.typ, a.groups[i].cred.hash, a.groups[j].cred.hash);
        assert false;
      }
    }
  }

  lemma GroupsDistinct(ctx: Context, a: Answer, nonRevocation: AttributeList -> NonRevocationProof)
    requires Honest(ctx, a, nonRevocation)
    ensures DistinctCreds(a.groups) && |a.proofs| == |a.groups|
  {
    hide PartPoints, OnlyNamed, AllUsed, PartHeld, ProofOf;
  }

  lemma OneInstance(ctx: Context, id: string, h1: string, h2: string)
    requires ctx.Valid() && id in ctx.conf.types && ctx.conf.types[id].singleton
    requires ctx.ByHash(h1).Some? && WellFormed(ctx.conf, ctx.ByHash(h1).value, id)
    requires ctx.ByHash(h2).Some? && WellFormed(ctx.conf, ctx.ByHash(h2).value, id)
    ensures h1 == h2
  {
    hide TypeOfMetadata;
    AttributesByHashExact(ctx.conf, ctx.attributes, ctx.lookup, h1);
    AttributesByHashExact(ctx.conf, ctx.attributes, ctx.lookup, h2);
    assert |ctx.attributes[id]| <= 1;
  }

  /** The verdict on an honest answer from presentable credentials is VALID, if the cryptography holds. */
  lemma HonestAnswerIsValid(ctx: Context, a: Answer, nonRevocation: AttributeList -> NonRevocationProof, t: int)
    requires ctx.Valid() && Honest(ctx, a, nonRevocation) && |a.choice| == |ctx.request.disclose|
    requires forall i :: 0 <= i < |a.choice| ==> DisConMatches(ctx, ctx.request.disclose[i], a.choice[i])
    requires forall k :: 0 <= k < |a.groups| && ctx.ByHash(a.groups[k].cred.hash).Some? ==>
      Presentable(ctx, ctx.ByHash(a.groups[k].cred.hash).value, a.groups[k].cred.typ, nonRevocation, t)
    ensures Accepted(ctx.conf, ctx.request, a.Sent(), FromProofs, true, t)
  {
    hide Honest, StoreInv, DisConMatches, ConDisConSatisfy, SingletonsOnce, Presentable, ProofOf, ProofMet,
      ProofUnexpired, KeyKnown;
    var list := RequestAnswered(ctx, a, nonRevocation, ctx.request.disclose);
    SingletonsProvedOnce(ctx, a, nonRevocation);
    GroupsDistinct(ctx, a, nonRevocation);
    forall k | 0 <= k < |a.proofs|
      ensures KeyKnown(ctx.conf, a.proofs[k]) && ProofMet(ctx.conf, ctx.request.revocation, a.proofs[k])
              && ProofUnexpired(ctx.conf, t, ctx.request.skipExpiry, a.proofs[k])
    {
      GroupHeld(ctx, a, nonRevocation, k);
      PresentableProof(ctx, ctx.ByHash(a.groups[k].cred.hash).value, a.groups[k], nonRevocation, t);
    }
  }

  lemma PresentableProof(ctx: Context, al: AttributeList, group: AttributeGroup,
                         nonRevocation: AttributeList -> NonRevocationProof, t: int)
    requires Presentable(ctx, al, group.cred.typ, nonRevocation, t)
    requires TypeOfProof(ctx.conf, ProofOf(ctx, al, group, nonRevocation)) == Some(group.cred.typ)
    ensures var p := ProofOf(ctx, al, group, nonRevocation);
            KeyKnown(ctx.conf, p) && ProofMet(ctx.conf, ctx.request.revocation, p)
            && ProofUnexpired(ctx.conf, t, ctx.request.skipExpiry, p)
  {
    hide TypeOfMetadata, Expiry, SigningDate, KeyExpiry;
  }

  // ---------------------------------------------------------------- chained sessions

  function ConOf(attrs: Attrs): (r: AttributeCon)
    ensures |r| == |attrs|
  {
    seq(|attrs|, k requires 0 <= k < |attrs| => AttributeRequest(attrs[k].identifier, attrs[k].rawValue, false))
  }

  /** nextSession: what was disclosed, with its values, to be disclosed again in the next session. */
  function NextImplicit(disclosed: seq<Attrs>): (r: AttributeConDisCon)
    ensures |r| == |disclosed|
  {
    seq(|disclosed|, i requires 0 <= i < |disclosed| => [ConOf(disclosed[i])])
  }

  method ComputeNextImplicit(disclosed: seq<Attrs>) returns (r: AttributeConDisCon)
    ensures r == NextImplicit(disclosed)
  {
    r := [];
    for i := 0 to |disclosed|
      invariant |r| == i && forall k :: 0 <= k < i ==> r[k] == [ConOf(disclosed[k])]
    {
      var con: AttributeCon := [];
      for k := 0 to |disclosed[i]|
        invariant |con| == k && forall m :: 0 <= m < k ==>
          con[m] == AttributeRequest(disclosed[i][m].identifier, disclosed[i][m].rawValue, false)
      {
        con := con + [AttributeRequest(disclosed[i][k].identifier, disclosed[i][k].rawValue, false)];
      }
      assert con == ConOf(disclosed[i]);
      r := r + [[con]];
    }
  }

  function Values(list: seq<Option<Attrs>>): (r: seq<Attrs>)
    ensures |r| == |list|
  {
    seq(|list|, i requires 0 <= i < |list| => if list[i].Some? then list[i].value else [])
  }

  /** The server's implicit requests line up, position by position, with the client's earlier choices. */
  ghost predicate Aligned(ctx: Context, implicit: AttributeConDisCon, earlier: Choice) {
    |implicit| == |earlier| && forall i :: 0 <= i < |implicit| ==> DisConMatches(ctx, implicit[i], earlier[i])
  }

  /** One session of a chain: the client's state and request, the listed options the user chose now, and the
      answer to the new request followed by everything disclosed in earlier sessions. */
  datatype Round = Round(ctx: Context, entries: seq<seq<DisclosureCandidate>>, answer: Answer) {
    function User(): (c: Choice)
      ensures |c| == |entries|
    {
      seq(|entries|, i requires 0 <= i < |entries| => Ids(entries[i]))
    }

    /** The request the server verifies the answer against. */
    function Extended(implicit: AttributeConDisCon): SessionRequest {
      ctx.request.(disclose := ctx.request.disclose + implicit)
    }
  }

  ghost predicate HonestRound(r: Round, nonRevocation: AttributeList -> NonRevocationProof, earlier: Choice) {
    && r.ctx.Valid() && Chosen(r.ctx, r.entries)
    && r.answer.choice == r.User() + earlier
    && Grouped(r.ctx.conf, r.answer.choice, r.answer.groups, r.answer.indices)
    && Built(r.ctx, r.answer.groups, nonRevocation, r.answer.proofs)
    && AllPresentable(r.ctx, r.answer, nonRevocation)
  }

  ghost predicate AllPresentable(ctx: Context, a: Answer, nonRevocation: AttributeList -> NonRevocationProof) {
    forall k :: 0 <= k < |a.groups| && ctx.ByHash(a.groups[k].cred.hash).Some? ==>
      Presentable(ctx, ctx.ByHash(a.groups[k].cred.hash).value, a.groups[k].cred.typ, nonRevocation, ctx.now)
  }

  /** Every earlier chosen credential is still held, unchanged. */
  ghost predicate StillHeld(before: Context, after: Context, choice: Choice) {
    && after.conf == before.conf
    && forall i, j :: 0 <= i < |choice| && 0 <= j < |choice[i]| ==>
      after.ByHash(choice[i][j].hash) == before.ByHash(choice[i][j].hash)
  }

  /** What the server computes in one session: the request with the implicit part appended. */
  function ServerResult(r: Round, implicit: AttributeConDisCon): Outcome<Matched> {
    ConDisConSatisfy(r.ctx.conf, r.answer.Sent(), r.Extended(implicit).disclose)
  }

  ghost predicate HonestChain(rounds: seq<Round>, nonRevocation: AttributeList -> NonRevocationProof, earlier: Choice) {
    rounds == [] ||
    (HonestRound(rounds[0], nonRevocation, earlier)
     && (|rounds| > 1 ==> StillHeld(rounds[0].ctx, rounds[1].ctx, rounds[0].answer.choice))
     && HonestChain(rounds[1..], nonRevocation, rounds[0].answer.choice))
  }

  /** VALID, if the cryptography holds, and without extra attributes. */
  ghost predicate RoundValid(r: Round, implicit: AttributeConDisCon) {
    && ServerResult(r, implicit).Done?
    && Accepted(r.ctx.conf, r.Extended(implicit), r.answer.Sent(), FromProofs, true, r.ctx.now)
    && NoExtras(r.answer.Sent(), |r.Extended(implicit).disclose|)
  }

  /** Every session of the chain is VALID and without extra attributes, each with the implicit request that
      the disclosed attributes of the session before it gave rise to. */
  ghost predicate ChainAccepted(rounds: seq<Round>, implicit: AttributeConDisCon) {
    rounds == [] ||
    (RoundValid(rounds[0], implicit)
     && ChainAccepted(rounds[1..], NextImplicit(Values(ServerResult(rounds[0], implicit).value.list))))
  }

  /** A conjunction built from disclosed attributes asks for exactly what the client will disclose again. */
  lemma ImplicitMatches(ctx: Context, attrs: Attrs, part: seq<AttributeId>)
    requires PartHeld(ctx, part) && AttrsOfPart(ctx, attrs, part)
    ensures DisConMatches(ctx, [ConOf(attrs)], part)
  {
    hide HeldAttribute, TextOf;
    assert PartMatches(ctx, [ConOf(attrs)][0], part);
  }

  lemma StillMatches(before: Context, after: Context, choice: Choice, i: nat, discon: AttributeDisCon)
    requires StillHeld(before, after, choice) && i < |choice| && DisConMatches(before, discon, choice[i])
    ensures DisConMatches(after, discon, choice[i])
  {
    hide KnownAttribute, WellFormed, PartsCount, DisclosedText, RequestSatisfied;
    var part := choice[i];
    forall j | 0 <= j < |part| ensures HeldAttribute(after, part[j])
      && TextOf(after, part[j]) == TextOf(before, part[j]) {
      assert HeldAttribute(before, part[j]);
      assert after.ByHash(choice[i][j].hash) == before.ByHash(choice[i][j].hash);
    }
    var c :| 0 <= c < |discon| && PartMatches(before, discon[c], part);
    assert PartMatches(after, discon[c], part);
  }

  /** All parts of an honest round are held, and match the extended request. */
  lemma RoundMatches(r: Round, nonRevocation: AttributeList -> NonRevocationProof, implicit: AttributeConDisCon,
                     earlier: Choice)
    requires HonestRound(r, nonRevocation, earlier) && Aligned(r.ctx, implicit, earlier)
    ensures |r.answer.choice| == |r.Extended(implicit).disclose|
    ensures forall i :: 0 <= i < |r.answer.choice| ==>
      DisConMatches(r.ctx, r.Extended(implicit).disclose[i], r.answer.choice[i])
    ensures Honest(r.ctx, r.answer, nonRevocation)
  {
    var cdc := r.Extended(implicit).disclose;
    hide Grouped, Built, DisConOptions, StoreInv, AllPresentable, PartMatches, HeldAttribute;
    forall i | 0 <= i < |cdc| ensures DisConMatches(r.ctx, cdc[i], r.answer.choice[i]) {
      if i < |r.entries| {
        assert ChosenFor(r.ctx, r.ctx.request.disclose[i], r.entries[i]);
        ListedOptionMatches(r.ctx, r.ctx.request.disclose[i], r.entries[i]);
      } else {
        assert DisConMatches(r.ctx, implicit[i - |r.entries|], earlier[i - |r.entries|]);
      }
    }
  }

  /** Nothing but the matching looks at what the request asks to disclose. */
  lemma OtherDisclose(ctx: Context, cdc: AttributeConDisCon, a: Answer,
                      nonRevocation: AttributeList -> NonRevocationProof)
    requires Honest(ctx, a, nonRevocation) && AllPresentable(ctx, a, nonRevocation)
    ensures var other := ctx.(request := ctx.request.(disclose := cdc));
            Honest(other, a, nonRevocation) && AllPresentable(other, a, nonRevocation)
  {
    hide KnownAttribute, WellFormed, PartsCount, Grouped, KeyExpiry, Expiry, SigningDate, NonRevocationMet;
    var other := ctx.(request := ctx.request.(disclose := cdc));
    forall i | 0 <= i < |a.choice| ensures PartHeld(other, a.choice[i]) {
      assert PartHeld(ctx, a.choice[i]);
    }
    forall k | 0 <= k < |a.groups| && ctx.ByHash(a.groups[k].cred.hash).Some?
      ensures Presentable(other, ctx.ByHash(a.groups[k].cred.hash).value, a.groups[k].cred.typ, nonRevocation, ctx.now)
    {
      assert Presentable(ctx, ctx.ByHash(a.groups[k].cred.hash).value, a.groups[k].cred.typ, nonRevocation, ctx.now);
    }
  }

  lemma OtherMatches(ctx: Context, cdc: AttributeConDisCon, discon: AttributeDisCon, part: seq<AttributeId>)
    requires DisConMatches(ctx, discon, part)
    ensures DisConMatches(ctx.(request := ctx.request.(disclose := cdc)), discon, part)
  {
    hide KnownAttribute, WellFormed, PartsCount, DisclosedText, RequestSatisfied;
    var other := ctx.(request := ctx.request.(disclose := cdc));
    forall j | 0 <= j < |part| ensures HeldAttribute(other, part[j]) && TextOf(other, part[j]) == TextOf(ctx, part[j]) {
      assert HeldAttribute(ctx, part[j]);
    }
    var c :| 0 <= c < |discon| && PartMatches(ctx, discon[c], part);
    assert PartMatches(other, discon[c], part);
  }

  /** One session: if the implicit part is aligned, the session is VALID without extras, and the next implicit
      part is aligned with everything chosen so far. */
  lemma RoundAccepted(r: Round, nonRevocation: AttributeList -> NonRevocationProof, implicit: AttributeConDisCon,
                      earlier: Choice)
    requires HonestRound(r, nonRevocation, earlier) && Aligned(r.ctx, implicit, earlier)
    ensures RoundValid(r, implicit)
    ensures Aligned(r.ctx, NextImplicit(Values(ServerResult(r, implicit).value.list)), r.answer.choice)
  {
    RoundMatches(r, nonRevocation, implicit, earlier);
    RoundIsValid(r, nonRevocation, implicit, earlier);
    hide Honest, HonestRound, DisConMatches, NoExtras, AttrsOfPart, PartHeld, ConDisConSatisfy, Accepted;
    var cdc := r.Extended(implicit).disclose;
    var list := RequestAnswered(r.ctx, r.answer, nonRevocation, cdc);
    var next := NextImplicit(Values(list));
    forall i | 0 <= i < |next| ensures DisConMatches(r.ctx, next[i], r.answer.choice[i]) {
      ImplicitMatches(r.ctx, list[i].value, r.answer.choice[i]);
      assert next[i] == [ConOf(list[i].value)];
    }
  }

  lemma RoundIsValid(r: Round, nonRevocation: AttributeList -> NonRevocationProof, implicit: AttributeConDisCon,
                     earlier: Choice)
    requires HonestRound(r, nonRevocation, earlier) && Aligned(r.ctx, implicit, earlier)
    ensures Accepted(r.ctx.conf, r.Extended(implicit), r.answer.Sent(), FromProofs, true, r.ctx.now)
  {
    RoundMatches(r, nonRevocation, implicit, earlier);
    assert r.ctx.Valid() && AllPresentable(r.ctx, r.answer, nonRevocation);
    hide HonestRound, Honest, Aligned, DisConMatches, Accepted, StoreInv;
    var cdc := r.Extended(implicit).disclose;
    var other := r.ctx.(request := r.ctx.request.(disclose := cdc));
    OtherDisclose(r.ctx, cdc, r.answer, nonRevocation);
    forall i | 0 <= i < |cdc| ensures DisConMatches(other, cdc[i], r.answer.choice[i]) {
      OtherMatches(r.ctx, cdc, cdc[i], r.answer.choice[i]);
    }
    HonestAnswerIsValid(other, r.answer, nonRevocation, r.ctx.now);
  }

  /** Chains of any length: a client that answers every session with options it listed and with everything
      disclosed before, from presentable credentials it still holds, gets the verdict VALID in every
      session, and no session reports extra attributes. */
  lemma {:induction false} ChainOfAnyLength(rounds: seq<Round>, nonRevocation: AttributeList -> NonRevocationProof,
                                            implicit: AttributeConDisCon, earlier: Choice)
    requires HonestChain(rounds, nonRevocation, earlier)
    requires rounds != [] ==> Aligned(rounds[0].ctx, implicit, earlier)
    ensures ChainAccepted(rounds, implicit)
    decreases |rounds|
  {
    if rounds != [] {
      hide HonestRound, StillHeld, ServerResult, RoundValid, DisConMatches, NextImplicit, Values;
      RoundAccepted(rounds[0], nonRevocation, implicit, earlier);
      var next := NextImplicit(Values(ServerResult(rounds[0], implicit).value.list));
      if |rounds| > 1 {
        forall i | 0 <= i < |next| ensures DisConMatches(rounds[1].ctx, next[i], rounds[0].answer.choice[i]) {
          StillMatches(rounds[0].ctx, rounds[1].ctx, rounds[0].answer.choice, i, next[i]);
        }
      }
      ChainOfAnyLength(rounds[1..], nonRevocation, next, rounds[0].answer.choice);
    }
  }

  /** In particular for a chain that starts with an ordinary session. */
  lemma ChainFromStart(rounds: seq<Round>, nonRevocation: AttributeList -> NonRevocationProof)
    requires HonestChain(rounds, nonRevocation, [])
    ensures ChainAccepted(rounds, [])
  {
    ChainOfAnyLength(rounds, nonRevocation, [], []);
  }

  // ---------------------------------------------------------------- chains with any client

  /** What was disclosed is disclosed again: the same attributes, with their values. */
  predicate Repeats(attrs: Attrs, disclosed: Attrs) {
    && |attrs| == |disclosed|
    && forall k :: 0 <= k < |attrs| ==>
      attrs[k].identifier == disclosed[k].identifier
      && (disclosed[k].rawValue.Some? ==> attrs[k].rawValue == disclosed[k].rawValue)
  }

  /** Whatever a client sends, it satisfies an implicit request with exactly those attributes that can be read at
      its indices and that repeat what was disclosed before. */
  lemma ImplicitIffRepeated(conf: Configuration, proofs: seq<Proof>, indices: seq<AttributeIndex>,
                            disclosed: seq<Attrs>, i: nat, attrs: Attrs)
    requires i < |disclosed|
    ensures DisConSatisfy(conf, proofs, indices, NextImplicit(disclosed)[i]) == Done(Some(attrs)) <==>
            && Repeats(attrs, disclosed[i]) && |attrs| <= |indices|
            && forall k :: 0 <= k < |attrs| ==> ExtractAttribute(conf, proofs, indices[k]) == Done(attrs[k])
  {
    var con := ConOf(disclosed[i]);
    assert NextImplicit(disclosed)[i] == [con];
    assert [con][..0] == [];
    assert DisConSatisfy(conf, proofs, indices, [con]) == ConSatisfy(conf, proofs, indices, con);
    ConSatisfiedIff(conf, proofs, indices, con, attrs);
    hide ExtractAttribute, ConSatisfy, DisConSatisfy;
  }

  /** A session as its server sees it: the request, what some client sent, how that was verified, and the extra
      attributes it disclosed. */
  datatype Served = Served(conf: Configuration, request: SessionRequest, sent: Disclosure, keys: PublicKeys,
    cryptoOk: bool, t: int, extra: Attrs)
  {
    function Extended(implicit: AttributeConDisCon): SessionRequest {
      request.(disclose := request.disclose + implicit)
    }

    ghost predicate Valid(implicit: AttributeConDisCon) {
      && Accepted(conf, Extended(implicit), sent, keys, cryptoOk, t)
      && ExtrasOf(conf, sent, |Extended(implicit).disclose|, extra)
    }

    /** The disclosed attributes in the result: a list for each disjunction, and the extra ones, if any, at the end. */
    function Disclosed(implicit: AttributeConDisCon): seq<Attrs> {
      var o := ConDisConSatisfy(conf, sent, Extended(implicit).disclose);
      (if o.Done? then Values(o.value.list) else []) + (if extra == [] then [] else [extra])
    }
  }

  /** What the j-th session of a chain asks for besides its own request. */
  function ImplicitAt(ss: seq<Served>, j: nat): AttributeConDisCon
    requires j < |ss|
    decreases j, 0
  {
    if j == 0 then [] else NextImplicit(DisclosedAt(ss, j - 1))
  }

  function DisclosedAt(ss: seq<Served>, j: nat): seq<Attrs>
    requires j < |ss|
    decreases j, 1
  {
    ss[j].Disclosed(ImplicitAt(ss, j))
  }

  /** How far down the list the attributes of session i have moved in session j. */
  function Moved(ss: seq<Served>, i: nat, j: nat): nat
    requires i <= j < |ss|
  {
    if i == j then 0 else Moved(ss, i, j - 1) + |ss[j].request.disclose|
  }

  ghost predicate AllValid(ss: seq<Served>) {
    forall j :: 0 <= j < |ss| ==> ss[j].Valid(ImplicitAt(ss, j))
  }

  /** The result of a VALID session lists for every disjunction what satisfied it, and at the end whatever else was
      disclosed. */
  lemma ResultLists(s: Served, implicit: AttributeConDisCon)
    requires s.Valid(implicit)
    ensures var cdc, all := s.Extended(implicit).disclose, s.Disclosed(implicit);
            && |all| == |cdc| + (if s.extra == [] then 0 else 1) && |cdc| <= |s.sent.indices|
            && (forall i :: 0 <= i < |cdc| ==>
                  DisConSatisfy(s.conf, s.sent.proofs, s.sent.indices[i], cdc[i]) == Done(Some(all[i])))
            && (s.extra != [] ==> all[|cdc|] == s.extra)
            && (s.extra == [] <==> forall x :: IsDisclosed(s.sent, x) ==> Named(s.sent, |cdc|, x))
  {
    hide DisConSatisfy, ConDisConSatisfy, ExtrasReadable, ProofsVerified, ProofUnexpired, ExtrasOf, IsDisclosed, Named;
    var cdc := s.Extended(implicit).disclose;
    CompleteIff(s.conf, s.sent, cdc, ConDisConSatisfy(s.conf, s.sent, cdc).value.list);
    NoExtrasIff(s.conf, s.sent, |cdc|, s.extra);
  }

  lemma NextRepeats(s: Served, disclosed: seq<Attrs>, p: nat)
    requires s.Valid(NextImplicit(disclosed)) && p < |disclosed|
    ensures |s.request.disclose| + p < |s.Disclosed(NextImplicit(disclosed))|
    ensures Repeats(s.Disclosed(NextImplicit(disclosed))[|s.request.disclose| + p], disclosed[p])
  {
    hide Repeats, DisConSatisfy, ConDisConSatisfy, ExtrasOf, ExtrasReadable, ProofsVerified, ProofUnexpired;
    var cdc := s.Extended(NextImplicit(disclosed)).disclose;
    var m := ConDisConSatisfy(s.conf, s.sent, cdc).value;
    var i := |s.request.disclose| + p;
    assert cdc[i] == NextImplicit(disclosed)[p];
    CompleteIff(s.conf, s.sent, cdc, m.list);
    ImplicitIffRepeated(s.conf, s.sent.proofs, s.sent.indices[i], disclosed, p, m.list[i].value);
  }

  lemma RepeatsItself(attrs: Attrs)
    ensures Repeats(attrs, attrs)
  {
  }

  lemma RepeatsAgain(a: Attrs, b: Attrs, c: Attrs)
    requires Repeats(a, b) && Repeats(b, c)
    ensures Repeats(a, c)
  {
  }

  lemma LaterRepeats(ss: seq<Served>, j: nat, q: nat)
    requires AllValid(ss) && 0 < j < |ss| && q < |DisclosedAt(ss, j - 1)|
    ensures |ss[j].request.disclose| + q < |DisclosedAt(ss, j)|
    ensures Repeats(DisclosedAt(ss, j)[|ss[j].request.disclose| + q], DisclosedAt(ss, j - 1)[q])
  {
    hide Repeats, NextImplicit, ConDisConSatisfy, Accepted, ExtrasOf;
    assert ss[j].Valid(ImplicitAt(ss, j));
    NextRepeats(ss[j], DisclosedAt(ss, j - 1), q);
  }

  /** Chains of any length and any clients: what a session of the chain found disclosed, extra attributes included,
      is disclosed again, with the same values, in every later session that is VALID. */
  lemma {:induction false} EveryLaterRepeats(ss: seq<Served>, i: nat, j: nat, p: nat)
    requires AllValid(ss) && i <= j < |ss| && p < |DisclosedAt(ss, i)|
    ensures Moved(ss, i, j) + p < |DisclosedAt(ss, j)|
    ensures Repeats(DisclosedAt(ss, j)[Moved(ss, i, j) + p], DisclosedAt(ss, i)[p])
  {
    hide Repeats, DisclosedAt, AllValid;
    if i == j {
      RepeatsItself(DisclosedAt(ss, i)[p]);
    } else {
      EveryLaterRepeats(ss, i, j - 1, p);
      var q := Moved(ss, i, j - 1) + p;
      LaterRepeats(ss, j, q);
      RepeatsAgain(DisclosedAt(ss, j)[|ss[j].request.disclose| + q], DisclosedAt(ss, j - 1)[q], DisclosedAt(ss, i)[p]);
    }
  }
}
