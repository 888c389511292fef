/** verify.go and the Satisfy methods of requests.go: what a verifier accepts. */
module Verify {
  import opened Outcomes
  import opened Codec
  import opened Identifiers
  import opened Scheme
  import opened Requests

  /** A nonrevocation proof: whether its accumulator was signed under a known key, its index and time. */
  datatype NonRevocationProof = NonRevocationProof(pkCounter: nat, keyKnown: bool, signatureOk: bool, accIndex: nat,
    accTime: int)

  /** A disclosure proof with its disclosed integers by position (0 is the secret key, 1 the
      metadata), or a proof of another kind. */
  datatype Proof = ProofD(disclosed: map<int, nat>, nonRev: Option<NonRevocationProof>) | OtherProof

  datatype AttributeIndex = AttributeIndex(cred: int, attr: int)

  datatype Disclosure = Disclosure(proofs: seq<Proof>, indices: seq<seq<AttributeIndex>>)

  datatype AttributeStatus = Present | Null | Extra

  datatype DisclosedAttribute = DisclosedAttribute(
    rawValue: Option<bytes>, identifier: string, status: AttributeStatus, issuanceTime: nat, notRevoked: bool)

  datatype ProofStatus = StatusValid | StatusInvalid | StatusMissingAttributes | StatusExpired

  /** The value under which a whole credential is disclosed. */
  const PRESENT: bytes := [112, 114, 101, 115, 101, 110, 116]

  function StatusOf(value: Option<bytes>): AttributeStatus { if value.None? then Null else Present }

  // ---------------------------------------------------------------- one attribute

  /** parseAttribute: a missing integer only survives for random blind attributes. */
  function ParseAttribute(conf: Configuration, index: int, disclosed: map<int, nat>,
                          notRevoked: bool): Outcome<DisclosedAttribute>
    requires 1 in disclosed
  {
    var meta := disclosed[1];
    var typ := TypeOfMetadata(conf, meta);
    if typ.None? then Err
    else if index == 1 then
      Done(DisclosedAttribute(Some(PRESENT), typ.value, Present, SigningDate(meta), notRevoked))
    else if index < 2 || index - 2 >= |conf.types[typ.value].attributes| then Panic
    else
      var attrtype := conf.types[typ.value].attributes[index - 2];
      if index !in disclosed && !attrtype.randomBlind then Panic
      else
        var value := if index in disclosed
                     then DecodeAt(conf, typ.value, index - 2, Version(meta), disclosed[index]) else None;
        Done(DisclosedAttribute(value, AttributeIdOf(typ.value, attrtype.id), StatusOf(value), SigningDate(meta),
          notRevoked))
  }

  /** extractAttribute: the bound check admits the index one past the end, which then panics. */
  function ExtractAttribute(conf: Configuration, proofs: seq<Proof>,
                            index: AttributeIndex): Outcome<DisclosedAttribute> {
    if |proofs| < index.cred then Err
    else if index.cred < 0 || index.cred == |proofs| then Panic
    else match proofs[index.cred]
      case OtherProof => Err
      case ProofD(disclosed, nonRev) =>
        if 1 !in disclosed then Panic else ParseAttribute(conf, index.attr, disclosed, nonRev.Some?)
  }

  /** What position `a` of a proof shows: the whole credential at the metadata, otherwise the attribute at that place
      of its type, with the text of the disclosed integer; when it was issued, and whether it was proved not to be
      revoked. Only a random blind attribute may be left undisclosed. */
  predicate Shows(conf: Configuration, p: Proof, a: int, attr: DisclosedAttribute) {
    && p.ProofD? && 1 in p.disclosed && TypeOfMetadata(conf, p.disclosed[1]).Some?
    && var meta, ct := p.disclosed[1], TypeOfMetadata(conf, p.disclosed[1]).value;
    && attr.issuanceTime == SigningDate(meta) && (attr.notRevoked <==> p.nonRev.Some?)
    && attr.status != Extra && (attr.status == Null <==> attr.rawValue == None)
    && if a == 1 then attr.identifier == ct && attr.rawValue == Some(PRESENT)
       else && 2 <= a < 2 + |conf.types[ct].attributes|
            && var typ := conf.types[ct].attributes[a - 2];
            && attr.identifier == ct + "." + typ.id
            && (a !in p.disclosed ==> typ.randomBlind && attr.rawValue == None)
            && (a in p.disclosed && typ.randomBlind ==> attr.rawValue == Some(conf.randomBlindText(p.disclosed[a])))
            && (a in p.disclosed && !typ.randomBlind ==>
                  attr.rawValue == DecodeAttribute(p.disclosed[a], Version(meta)))
  }

  lemma ReadIffShown(conf: Configuration, proofs: seq<Proof>, x: AttributeIndex, attr: DisclosedAttribute)
    ensures ExtractAttribute(conf, proofs, x) == Done(attr) <==>
            0 <= x.cred < |proofs| && Shows(conf, proofs[x.cred], x.attr, attr)
  {
    hide TypeOfMetadata, SigningDate, DecodeAttribute, Version;
  }

  /** Of what cannot be read, an index more than one past the end, a proof of another kind and an unknown credential
      type are errors. Everything else panics: an index of exactly one past the end, or a negative one, metadata
      that is not disclosed, a place that the type does not have, or that is not disclosed. */
  lemma ReadErrIff(conf: Configuration, proofs: seq<Proof>, x: AttributeIndex)
    ensures ExtractAttribute(conf, proofs, x).Err? <==>
            || x.cred > |proofs|
            || (0 <= x.cred < |proofs| && proofs[x.cred].OtherProof?)
            || (&& 0 <= x.cred < |proofs| && proofs[x.cred].ProofD? && 1 in proofs[x.cred].disclosed
                && TypeOfMetadata(conf, proofs[x.cred].disclosed[1]).None?)
  {
    hide TypeOfMetadata, SigningDate, DecodeAttribute, Version;
  }

  // ---------------------------------------------------------------- matching a request

  type Attrs = seq<DisclosedAttribute>

  /** The loop of AttributeCon.Satisfy: the first position that fails decides. */
  function WalkCon(conf: Configuration, proofs: seq<Proof>, indices: seq<AttributeIndex>,
                   con: AttributeCon): Outcome<Option<Attrs>>
    requires |con| <= |indices|
  {
    if con == [] then Done(Some([])) else
      var n := |con| - 1;
      var before := WalkCon(conf, proofs, indices, con[..n]);
      if !before.Done? || before.value.None? then before else
        var attr :- ExtractAttribute(conf, proofs, indices[n]);
        if RequestSatisfied(con[n], attr.identifier, attr.rawValue) then Done(Some(before.value.value + [attr]))
          else Done(None)
  }

  function ConSatisfy(conf: Configuration, proofs: seq<Proof>, indices: seq<AttributeIndex>,
                      con: AttributeCon): Outcome<Option<Attrs>> {
    if |indices| < |con| then Done(None) else WalkCon(conf, proofs, indices, con)
  }

  method ComputeConSatisfy(conf: Configuration, proofs: seq<Proof>, indices: seq<AttributeIndex>, con: AttributeCon)
    returns (r: Outcome<Option<Attrs>>)
    ensures r == ConSatisfy(conf, proofs, indices, con)
  {
    hide ExtractAttribute, RequestSatisfied;
    if |indices| < |con| {
      return Done(None);
    }
    var attrs: Attrs := [];
    for j := 0 to |con|
      invariant WalkCon(conf, proofs, indices, con[..j]) == Done(Some(attrs))
    {
      assert con[..j + 1][..j] == con[..j];
      var attr := ExtractAttribute(conf, proofs, indices[j]);
      if attr.IsFailure() {
        WalkStops(conf, proofs, indices, con, j + 1);
        return attr.PropagateFailure();
      }
      if !RequestSatisfied(con[j], attr.value.identifier, attr.value.rawValue) {
        WalkStops(conf, proofs, indices, con, j + 1);
        return Done(None);
      }
      attrs := attrs + [attr.value];
    }
    assert con[..|con|] == con;
    return Done(Some(attrs));
  }

  /** Once a prefix has failed, so has the whole conjunction, in the same way. */
  lemma {:induction false} WalkStops(conf: Configuration, proofs: seq<Proof>, indices: seq<AttributeIndex>,
                                     con: AttributeCon, j: nat)
    requires |con| <= |indices| && j <= |con|
    ensures var w := WalkCon(conf, proofs, indices, con[..j]);
            !w.Done? || w.value.None? ==> WalkCon(conf, proofs, indices, con) == w
    decreases |con|
  {
    hide ExtractAttribute, RequestSatisfied;
    if j < |con| {
      WalkStops(conf, proofs, indices, con[..|con| - 1], j);
      assert con[..|con| - 1][..j] == con[..j];
    } else {
      assert con[..j] == con;
    }
  }

  /** What a request demands of a disclosed attribute: to be the one asked for, to have a value if it must not
      be null, and the demanded value if there is one. */
  predicate Answers(ar: AttributeRequest, attr: DisclosedAttribute) {
    && attr.identifier == ar.typ
    && (ar.notNull ==> attr.rawValue.Some?)
    && (ar.value.Some? ==> attr.rawValue == ar.value)
  }

  ghost predicate PositionSatisfied(conf: Configuration, proofs: seq<Proof>, index: AttributeIndex,
                                    ar: AttributeRequest, attr: DisclosedAttribute) {
    ExtractAttribute(conf, proofs, index) == Done(attr) && Answers(ar, attr)
  }

  ghost predicate MetAt(conf: Configuration, proofs: seq<Proof>, index: AttributeIndex, ar: AttributeRequest) {
    ExtractAttribute(conf, proofs, index).Done? && Answers(ar, ExtractAttribute(conf, proofs, index).value)
  }

  /** A conjunction is satisfied exactly when it is met position by position. */
  lemma {:induction false} ConSatisfiedIff(conf: Configuration, proofs: seq<Proof>, indices: seq<AttributeIndex>,
                                           con: AttributeCon, attrs: Attrs)
    ensures ConSatisfy(conf, proofs, indices, con) == Done(Some(attrs)) <==>
            |con| <= |indices| && |attrs| == |con|
            && forall j :: 0 <= j < |con| ==> PositionSatisfied(conf, proofs, indices[j], con[j], attrs[j])
    decreases |con|
  {
    hide ExtractAttribute;
    if con != [] && |con| <= |indices| {
      var n := |con| - 1;
      if attrs != [] {
        ConSatisfiedIff(conf, proofs, indices, con[..n], attrs[..|attrs| - 1]);
        assert attrs == attrs[..|attrs| - 1] + [attrs[|attrs| - 1]];
        if |attrs| == |con| && forall j :: 0 <= j < |con| ==>
          PositionSatisfied(conf, proofs, indices[j], con[j], attrs[j]) {
          assert forall j :: 0 <= j < n ==> PositionSatisfied(conf, proofs, indices[j], con[..n][j], attrs[..n][j]);
          assert PositionSatisfied(conf, proofs, indices[n], con[n], attrs[n]);
        }
      }
    }
  }

  /** Position `j` is the first that is not met. */
  ghost predicate FirstUnmet(conf: Configuration, proofs: seq<Proof>, indices: seq<AttributeIndex>, con: AttributeCon,
                             j: nat)
    requires |con| <= |indices|
  {
    && j < |con| && !MetAt(conf, proofs, indices[j], con[j])
    && forall k :: 0 <= k < j ==> MetAt(conf, proofs, indices[k], con[k])
  }

  /** A conjunction that is not met fails in the way its first unmet position does: that attribute cannot be
      read, or it is not what was asked for. */
  lemma {:induction false} ConFailsAt(conf: Configuration, proofs: seq<Proof>, indices: seq<AttributeIndex>,
                                      con: AttributeCon, j: nat)
    requires |con| <= |indices| && FirstUnmet(conf, proofs, indices, con, j)
    ensures ConSatisfy(conf, proofs, indices, con) ==
            match ExtractAttribute(conf, proofs, indices[j])
            case Done(_) => Done(None)
            case Err => Err
            case Panic => Panic
  {
    var attrs := seq(j, k requires 0 <= k < j => ExtractAttribute(conf, proofs, indices[k]).value);
    ConSatisfiedIff(conf, proofs, indices, con[..j], attrs);
    assert con[..j + 1][..j] == con[..j];
    WalkStops(conf, proofs, indices, con, j + 1);
  }

  /** A conjunction that the proofs do not meet although they can be read that far. */
  ghost predicate Refused(conf: Configuration, proofs: seq<Proof>, indices: seq<AttributeIndex>, con: AttributeCon) {
    |con| <= |indices| ==>
      exists j: nat :: FirstUnmet(conf, proofs, indices, con, j) && ExtractAttribute(conf, proofs, indices[j]).Done?
  }

  /** The positions of conjunction `con` are met one by one by the proofs. */
  ghost predicate MetByPosition(conf: Configuration, proofs: seq<Proof>, indices: seq<AttributeIndex>,
                                con: AttributeCon) {
    |con| <= |indices| && forall j :: 0 <= j < |con| ==> MetAt(conf, proofs, indices[j], con[j])
  }

  /** The two regular results of a conjunction; in all other cases reading fails. */
  lemma ConResults(conf: Configuration, proofs: seq<Proof>, indices: seq<AttributeIndex>, con: AttributeCon)
    ensures ConSatisfy(conf, proofs, indices, con) == Done(None) <==> Refused(conf, proofs, indices, con)
    ensures ConSatisfy(conf, proofs, indices, con).Done? && ConSatisfy(conf, proofs, indices, con).value.Some? <==>
            MetByPosition(conf, proofs, indices, con)
  {
    if |con| <= |indices| {
      if j: nat :| FirstUnmet(conf, proofs, indices, con, j) {
        ConFailsAt(conf, proofs, indices, con, j);
      } else {
        AllMet(conf, proofs, indices, con, |con|);
        var attrs := seq(|con|, k requires 0 <= k < |con| => ExtractAttribute(conf, proofs, indices[k]).value);
        ConSatisfiedIff(conf, proofs, indices, con, attrs);
      }
      hide ConSatisfy, MetAt, ExtractAttribute;
    }
  }

  /** Without a first unmet position every position is met. */
  lemma {:induction false} AllMet(conf: Configuration, proofs: seq<Proof>, indices: seq<AttributeIndex>,
                                  con: AttributeCon, n: nat)
    requires n <= |con| <= |indices| && forall j: nat :: !FirstUnmet(conf, proofs, indices, con, j)
    ensures forall k :: 0 <= k < n ==> MetAt(conf, proofs, indices[k], con[k])
  {
    hide MetAt;
    if n > 0 {
      AllMet(conf, proofs, indices, con, n - 1);
      assert !FirstUnmet(conf, proofs, indices, con, n - 1);
    }
  }

  /** AttributeDisCon.Satisfy: the first conjunction that is satisfied, or that fails, decides. */
  function DisConSatisfy(conf: Configuration, proofs: seq<Proof>, indices: seq<AttributeIndex>,
                         discon: AttributeDisCon): Outcome<Option<Attrs>> {
    if discon == [] then Done(None) else
      var before := DisConSatisfy(conf, proofs, indices, discon[..|discon| - 1]);
      if !before.Done? || before.value.Some? then before
      else ConSatisfy(conf, proofs, indices, discon[|discon| - 1])
  }

  method ComputeDisConSatisfy(conf: Configuration, proofs: seq<Proof>, indices: seq<AttributeIndex>,
                              discon: AttributeDisCon)
    returns (r: Outcome<Option<Attrs>>)
    ensures r == DisConSatisfy(conf, proofs, indices, discon)
  {
    hide ConSatisfy;
    for i := 0 to |discon|
      invariant DisConSatisfy(conf, proofs, indices, discon[..i]) == Done(None)
    {
      assert discon[..i + 1][..i] == discon[..i];
      r := ComputeConSatisfy(conf, proofs, indices, discon[i]);
      if r.IsFailure() || r.value.Some? {
        DisConStops(conf, proofs, indices, discon, i + 1);
        return;
      }
    }
    assert discon[..|discon|] == discon;
    return Done(None);
  }

  lemma {:induction false} DisConStops(conf: Configuration, proofs: seq<Proof>, indices: seq<AttributeIndex>,
                                       discon: AttributeDisCon, i: nat)
    requires i <= |discon|
    ensures var w := DisConSatisfy(conf, proofs, indices, discon[..i]);
            w != Done(None) ==> DisConSatisfy(conf, proofs, indices, discon) == w
    decreases |discon|
  {
    hide ConSatisfy;
    if i < |discon| {
      DisConStops(conf, proofs, indices, discon[..|discon| - 1], i);
      assert discon[..|discon| - 1][..i] == discon[..i];
    } else {
      assert discon[..i] == discon;
    }
  }

  /** The first conjunction that is not refused decides, whether it is satisfied or fails. */
  lemma {:induction false} FirstDecides(conf: Configuration, proofs: seq<Proof>, indices: seq<AttributeIndex>,
                                        discon: AttributeDisCon, i: nat)
    requires i <= |discon|
    requires forall k :: 0 <= k < i ==> ConSatisfy(conf, proofs, indices, discon[k]) == Done(None)
    requires i < |discon| ==> ConSatisfy(conf, proofs, indices, discon[i]) != Done(None)
    ensures DisConSatisfy(conf, proofs, indices, discon) ==
            if i < |discon| then ConSatisfy(conf, proofs, indices, discon[i]) else Done(None)
    decreases |discon|
  {
    hide ConSatisfy;
    if discon != [] {
      var n := |discon| - 1;
      FirstDecides(conf, proofs, indices, discon[..n], if i < n then i else n);
    }
  }

  lemma {:induction false} FirstDeciding(conf: Configuration, proofs: seq<Proof>, indices: seq<AttributeIndex>,
                                         discon: AttributeDisCon, n: nat)
    returns (i: nat)
    requires n <= |discon| && forall k :: 0 <= k < n ==> ConSatisfy(conf, proofs, indices, discon[k]) == Done(None)
    ensures i <= |discon| && forall k :: 0 <= k < i ==> ConSatisfy(conf, proofs, indices, discon[k]) == Done(None)
    ensures i < |discon| ==> ConSatisfy(conf, proofs, indices, discon[i]) != Done(None)
    decreases |discon| - n
  {
    hide ConSatisfy;
    if n < |discon| && ConSatisfy(conf, proofs, indices, discon[n]) == Done(None) {
      i := FirstDeciding(conf, proofs, indices, discon, n + 1);
    } else {
      i := n;
    }
  }

  /** A satisfied disjunction has a first conjunction that is not refused, and that one is satisfied by those
      attributes. */
  lemma DisConSatisfied(conf: Configuration, proofs: seq<Proof>, indices: seq<AttributeIndex>, discon: AttributeDisCon)
    returns (i: nat)
    requires DisConSatisfy(conf, proofs, indices, discon).Done?
      && DisConSatisfy(conf, proofs, indices, discon).value.Some?
    ensures i < |discon| && ConSatisfy(conf, proofs, indices, discon[i]) == DisConSatisfy(conf, proofs, indices, discon)
    ensures forall k :: 0 <= k < i ==> ConSatisfy(conf, proofs, indices, discon[k]) == Done(None)
  {
    i := FirstDeciding(conf, proofs, indices, discon, 0);
    FirstDecides(conf, proofs, indices, discon, i);
    hide ConSatisfy, DisConSatisfy;
  }

  /** If no conjunction fails and one is satisfied, so is the disjunction. */
  lemma DisConSatisfiedIfCon(conf: Configuration, proofs: seq<Proof>, indices: seq<AttributeIndex>,
                             discon: AttributeDisCon, i: nat)
    requires i < |discon|
    requires forall k :: 0 <= k < |discon| ==> ConSatisfy(conf, proofs, indices, discon[k]).Done?
    requires ConSatisfy(conf, proofs, indices, discon[i]).value.Some?
    ensures DisConSatisfy(conf, proofs, indices, discon).Done?
      && DisConSatisfy(conf, proofs, indices, discon).value.Some?
  {
    var first := FirstDeciding(conf, proofs, indices, discon, 0);
    FirstDecides(conf, proofs, indices, discon, first);
    hide ConSatisfy, DisConSatisfy;
  }

  /** A conjunction is met position by position, and those before it are refused. */
  ghost predicate DisjunctionMet(conf: Configuration, proofs: seq<Proof>, indices: seq<AttributeIndex>,
                                 discon: AttributeDisCon) {
    exists c :: 0 <= c < |discon| && MetByPosition(conf, proofs, indices, discon[c])
                && forall k :: 0 <= k < c ==> Refused(conf, proofs, indices, discon[k])
  }

  /** A disjunction is satisfied exactly if it is met. */
  lemma DisConSatisfiedIff(conf: Configuration, proofs: seq<Proof>, indices: seq<AttributeIndex>,
                           discon: AttributeDisCon)
    ensures (DisConSatisfy(conf, proofs, indices, discon).Done?
             && DisConSatisfy(conf, proofs, indices, discon).value.Some?) <==>
            DisjunctionMet(conf, proofs, indices, discon)
  {
    var i := FirstDeciding(conf, proofs, indices, discon, 0);
    FirstDecides(conf, proofs, indices, discon, i);
    hide ConSatisfy, DisConSatisfy, Refused, MetByPosition;
    forall k | 0 <= k < |discon|
      ensures ConSatisfy(conf, proofs, indices, discon[k]) == Done(None) <==>
              Refused(conf, proofs, indices, discon[k])
      ensures (ConSatisfy(conf, proofs, indices, discon[k]).Done?
               && ConSatisfy(conf, proofs, indices, discon[k]).value.Some?) <==>
              MetByPosition(conf, proofs, indices, discon[k])
    {
      ConResults(conf, proofs, indices, discon[k]);
    }
  }

  datatype Matched = Matched(complete: bool, list: seq<Option<Attrs>>)

  /** The loop of AttributeConDisCon.Satisfy over the first disjunctions. */
  function WalkConDisCon(conf: Configuration, d: Disclosure, cdc: AttributeConDisCon): Outcome<Matched>
    requires |cdc| <= |d.indices|
  {
    if cdc == [] then Done(Matched(true, [])) else
      var n := |cdc| - 1;
      var before :- WalkConDisCon(conf, d, cdc[..n]);
      var attrs :- DisConSatisfy(conf, d.proofs, d.indices[n], cdc[n]);
      Done(Matched(before.complete && attrs.Some?, before.list + [attrs]))
  }

  function ConDisConSatisfy(conf: Configuration, d: Disclosure, cdc: AttributeConDisCon): Outcome<Matched> {
    if |d.indices| < |cdc| then Done(Matched(false, [])) else WalkConDisCon(conf, d, cdc)
  }

  method ComputeConDisConSatisfy(conf: Configuration, d: Disclosure, cdc: AttributeConDisCon)
    returns (r: Outcome<Matched>)
    ensures r == ConDisConSatisfy(conf, d, cdc)
  {
    hide DisConSatisfy;
    if |d.indices| < |cdc| {
      return Done(Matched(false, []));
    }
    var complete := true;
    var list: seq<Option<Attrs>> := [];
    for i := 0 to |cdc|
      invariant WalkConDisCon(conf, d, cdc[..i]) == Done(Matched(complete, list))
    {
      assert cdc[..i + 1][..i] == cdc[..i];
      var attrs := ComputeDisConSatisfy(conf, d.proofs, d.indices[i], cdc[i]);
      if attrs.IsFailure() {
        WalkConDisConStops(conf, d, cdc, i + 1);
        return attrs.PropagateFailure();
      }
      if attrs.value.None? {
        complete := false;
      }
      list := list + [attrs.value];
    }
    assert cdc[..|cdc|] == cdc;
    return Done(Matched(complete, list));
  }

  lemma {:induction false} WalkConDisConStops(conf: Configuration, d: Disclosure, cdc: AttributeConDisCon, i: nat)
    requires |cdc| <= |d.indices| && i <= |cdc|
    ensures var w := WalkConDisCon(conf, d, cdc[..i]);
            w.IsFailure() ==> WalkConDisCon(conf, d, cdc) == w
    decreases |cdc|
  {
    hide DisConSatisfy;
    if i < |cdc| {
      WalkConDisConStops(conf, d, cdc[..|cdc| - 1], i);
      assert cdc[..|cdc| - 1][..i] == cdc[..i];
    } else {
      assert cdc[..i] == cdc;
    }
  }

  lemma {:induction false} WalkedAll(conf: Configuration, d: Disclosure, cdc: AttributeConDisCon)
    requires |cdc| <= |d.indices|
    ensures WalkConDisCon(conf, d, cdc).Done? <==>
            forall i :: 0 <= i < |cdc| ==> DisConSatisfy(conf, d.proofs, d.indices[i], cdc[i]).Done?
    ensures WalkConDisCon(conf, d, cdc).Done? ==>
            var m := WalkConDisCon(conf, d, cdc).value;
            && |m.list| == |cdc|
            && (forall i :: 0 <= i < |cdc| ==> m.list[i] == DisConSatisfy(conf, d.proofs, d.indices[i], cdc[i]).value)
            && (m.complete <==> forall i :: 0 <= i < |cdc| ==> m.list[i].Some?)
  {
    hide DisConSatisfy;
    if cdc != [] {
      WalkedAll(conf, d, cdc[..|cdc| - 1]);
    }
  }

  /** The list holds, in order, what each disjunction was satisfied with, and the request is complete exactly if
      each of them was; with too few indices nothing is matched. */
  lemma MatchedIff(conf: Configuration, d: Disclosure, cdc: AttributeConDisCon, m: Matched)
    ensures ConDisConSatisfy(conf, d, cdc) == Done(m) <==>
            if |d.indices| < |cdc| then m == Matched(false, [])
            else && |m.list| == |cdc|
                 && (forall i :: 0 <= i < |cdc| ==>
                       DisConSatisfy(conf, d.proofs, d.indices[i], cdc[i]) == Done(m.list[i]))
                 && (m.complete <==> forall i :: 0 <= i < |cdc| ==> m.list[i].Some?)
  {
    hide DisConSatisfy, WalkConDisCon;
    if |cdc| <= |d.indices| {
      WalkedAll(conf, d, cdc);
      var w := WalkConDisCon(conf, d, cdc);
      if w.Done? && |m.list| == |cdc| && forall i :: 0 <= i < |cdc| ==>
        DisConSatisfy(conf, d.proofs, d.indices[i], cdc[i]) == Done(m.list[i]) {
        assert m.list == w.value.list;
      }
    }
  }

  /** So it is complete exactly when every disjunction is satisfied at its position. */
  lemma CompleteIff(conf: Configuration, d: Disclosure, cdc: AttributeConDisCon, list: seq<Option<Attrs>>)
    ensures ConDisConSatisfy(conf, d, cdc) == Done(Matched(true, list)) <==>
            |cdc| <= |d.indices| && |list| == |cdc|
            && forall i :: 0 <= i < |cdc| ==>
              list[i].Some? && DisConSatisfy(conf, d.proofs, d.indices[i], cdc[i]) == Done(list[i])
  {
    MatchedIff(conf, d, cdc, Matched(true, list));
    hide ConDisConSatisfy, DisConSatisfy;
  }

  /** The first disjunction that cannot be read makes the whole request fail in the same way. */
  lemma {:induction false} RequestFailsAt(conf: Configuration, d: Disclosure, cdc: AttributeConDisCon, i: nat)
    requires i < |cdc| <= |d.indices| && !DisConSatisfy(conf, d.proofs, d.indices[i], cdc[i]).Done?
    requires forall k :: 0 <= k < i ==> DisConSatisfy(conf, d.proofs, d.indices[k], cdc[k]).Done?
    ensures ConDisConSatisfy(conf, d, cdc) ==
            if DisConSatisfy(conf, d.proofs, d.indices[i], cdc[i]).Err? then Err else Panic
  {
    hide DisConSatisfy;
    var list := seq(i, k requires 0 <= k < i => DisConSatisfy(conf, d.proofs, d.indices[k], cdc[k]).value);
    MatchedIff(conf, d, cdc[..i], Matched(forall k :: 0 <= k < i ==> list[k].Some?, list));
    assert cdc[..i + 1][..i] == cdc[..i];
    WalkConDisConStops(conf, d, cdc, i + 1);
  }

  // ---------------------------------------------------------------- the proof list

  /** The public keys to verify against: taken from the metadata of the proofs, or given. */
  datatype PublicKeys = FromProofs | Given(count: nat)

  function TypeOfProof(conf: Configuration, p: Proof): Option<string> {
    if p.ProofD? && 1 in p.disclosed then TypeOfMetadata(conf, p.disclosed[1]) else None
  }

  predicate KeyKnown(conf: Configuration, p: Proof) {
    TypeOfProof(conf, p).Some? && KeyExpiry(conf, TypeOfProof(conf, p).value, p.disclosed[1]).Some?
  }

  /** The index of the last revocation event that was sent along with the request, or 0. */
  function Ours(revocation: map<string, NonRevocationRequest>, id: string, pkCounter: nat): nat {
    if id in revocation && pkCounter in revocation[id].updates then revocation[id].updates[pkCounter] else 0
  }

  /** A requested nonrevocation proof is present; a present one is properly signed and not behind. */
  predicate NonRevocationMet(revocation: map<string, NonRevocationRequest>, id: string,
                             nonRev: Option<NonRevocationProof>) {
    match nonRev
    case None => id !in revocation
    case Some(p) => p.keyKnown && p.signatureOk && Ours(revocation, id, p.pkCounter) <= p.accIndex
  }

  predicate ProofMet(conf: Configuration, revocation: map<string, NonRevocationRequest>, p: Proof) {
    p.ProofD? ==> TypeOfProof(conf, p).Some? && NonRevocationMet(revocation, TypeOfProof(conf, p).value, p.nonRev)
  }

  predicate IsSingleton(conf: Configuration, typ: Option<string>) {
    typ.Some? && typ.value in conf.types && conf.types[typ.value].singleton
  }

  /** No singleton type occurs in two disclosure proofs. */
  predicate SingletonsOnce(conf: Configuration, proofs: seq<Proof>) {
    forall i, j :: 0 <= i < j < |proofs| && IsSingleton(conf, TypeOfProof(conf, proofs[i])) ==>
      TypeOfProof(conf, proofs[i]) != TypeOfProof(conf, proofs[j])
  }

  predicate KeysMatch(conf: Configuration, proofs: seq<Proof>, keys: PublicKeys) {
    match keys
    case FromProofs => forall i :: 0 <= i < |proofs| ==> KeyKnown(conf, proofs[i])
    case Given(count) => count == |proofs|
  }

  predicate ProofsVerified(conf: Configuration, revocation: map<string, NonRevocationRequest>, proofs: seq<Proof>,
                           keys: PublicKeys, cryptoOk: bool) {
    proofs == [] ||
    (KeysMatch(conf, proofs, keys) && cryptoOk && SingletonsOnce(conf, proofs)
     && forall i :: 0 <= i < |proofs| ==> ProofMet(conf, revocation, proofs[i]))
  }

  method ExtractPublicKeys(conf: Configuration, proofs: seq<Proof>) returns (r: Outcome<nat>)
    ensures r.Done? <==> KeysMatch(conf, proofs, FromProofs)
    ensures r.Done? ==> r.value == |proofs|
  {
    hide TypeOfMetadata, KeyExpiry;
    for i := 0 to |proofs|
      invariant forall k :: 0 <= k < i ==> KeyKnown(conf, proofs[k])
    {
      match proofs[i] {
        case OtherProof =>
          return Err;
        case ProofD(disclosed, _) =>
          if 1 !in disclosed || TypeOfMetadata(conf, disclosed[1]).None? {
            return Panic;
          }
          if KeyExpiry(conf, TypeOfMetadata(conf, disclosed[1]).value, disclosed[1]).None? {
            return Err;
          }
      }
    }
    return Done(|proofs|);
  }

  /** What the server knows about the revocation of a credential type: when it was last updated, and its
      tolerance in seconds. */
  datatype RevocationSetting = RevocationSetting(updated: int, tolerance: nat)

  /** The clock side of a verification: the time of validity, the settings per credential type, and what
      the conversion of a negative number of seconds to uint64 gives, which Go leaves to the implementation. */
  datatype Moment = Moment(validAt: int, settings: string -> RevocationSetting, negative: int -> nat) {
    function Seconds(d: int): nat { if d >= 0 then d else negative(d) }
  }

  /** Up to when a nonrevocation proof guarantees nonrevocation: the time of its accumulator, or of the
      server's last update if that brought nothing newer. */
  function GuaranteedUntil(revocation: map<string, NonRevocationRequest>, m: Moment, id: string,
                           p: NonRevocationProof): int {
    var updated := m.settings(id).updated;
    if Ours(revocation, id, p.pkCounter) == p.accIndex && updated > p.accTime then updated else p.accTime
  }

  function ToleranceFor(revocation: map<string, NonRevocationRequest>, m: Moment, id: string): nat {
    if id in revocation && revocation[id].tolerance != 0 then revocation[id].tolerance else m.settings(id).tolerance
  }

  /** The time to report for a proof: only if its guarantee ends longer ago than is tolerated. */
  function ReportedTime(conf: Configuration, revocation: map<string, NonRevocationRequest>, m: Moment,
                        p: Proof): Option<int> {
    if TypeOfProof(conf, p).None? || p.nonRev.None? then None
    else
      var id := TypeOfProof(conf, p).value;
      var until := GuaranteedUntil(revocation, m, id, p.nonRev.value);
      if m.Seconds(m.validAt - until) > ToleranceFor(revocation, m, id) then Some(until) else None
  }

  function TimeOf(times: map<nat, int>, i: nat): Option<int> { if i in times then Some(times[i]) else None }

  /** The per-proof part of VerifyProofs: the reported times are those of the proofs whose guarantee ends
      too long ago, and only those. */
  method CheckProofs(conf: Configuration, revocation: map<string, NonRevocationRequest>, proofs: seq<Proof>, m: Moment)
    returns (r: Outcome<bool>, times: map<nat, int>)
    ensures r == Done(true) <==>
      SingletonsOnce(conf, proofs) && forall i :: 0 <= i < |proofs| ==> ProofMet(conf, revocation, proofs[i])
    ensures r == Done(true) ==>
      forall i: nat :: TimeOf(times, i) == if i < |proofs| then ReportedTime(conf, revocation, m, proofs[i]) else None
  {
    hide TypeOfMetadata, NonRevocationMet, GuaranteedUntil, ToleranceFor;
    var singletons: set<string> := {};
    times := map[];
    for i := 0 to |proofs|
      invariant forall k :: 0 <= k < i ==> ProofMet(conf, revocation, proofs[k])
      invariant SingletonsOnce(conf, proofs[..i])
      invariant forall id :: id in singletons <==>
        exists k :: 0 <= k < i && TypeOfProof(conf, proofs[k]) == Some(id) && IsSingleton(conf, Some(id))
      invariant forall k: nat :: TimeOf(times, k) == if k < i then ReportedTime(conf, revocation, m, proofs[k])
        else None
    {
      assert forall k :: 0 <= k < i ==> proofs[..i + 1][k] == proofs[k];
      assert proofs[..i + 1][i] == proofs[i];
      if proofs[i].ProofD? {
        if 1 !in proofs[i].disclosed {
          return Panic, times;
        }
        var typ := TypeOfMetadata(conf, proofs[i].disclosed[1]);
        if typ.None? {
          return Err, times;
        }
        var id := typ.value;
        if IsSingleton(conf, typ) {
          if id in singletons {
            return Done(false), times;
          }
          singletons := singletons + {id};
        }
        if !NonRevocationMet(revocation, id, proofs[i].nonRev) {
          return Done(false), times;
        }
        if proofs[i].nonRev.Some? {
          var until := GuaranteedUntil(revocation, m, id, proofs[i].nonRev.value);
          if m.Seconds(m.validAt - until) > ToleranceFor(revocation, m, id) {
            times := times[i := until];
          }
        }
      }
    }
    assert proofs[..|proofs|] == proofs;
    return Done(true), times;
  }

  /** VerifyProofs; `cryptoOk` is the verdict of the cryptographic verification of the list. Of a proof for
      which no time is reported, nonrevocation is guaranteed up to the tolerated time ago. */
  method VerifyProofs(conf: Configuration, revocation: map<string, NonRevocationRequest>, proofs: seq<Proof>,
                      keys: PublicKeys, cryptoOk: bool, m: Moment)
    returns (r: Outcome<bool>, times: map<nat, int>)
    ensures r == Done(true) <==> ProofsVerified(conf, revocation, proofs, keys, cryptoOk)
    ensures r == Done(true) ==>
      forall i: nat :: TimeOf(times, i) == if i < |proofs| then ReportedTime(conf, revocation, m, proofs[i]) else None
  {
    hide TypeOfMetadata, KeyExpiry, KeyKnown, ReportedTime, SingletonsOnce, ProofMet;
    if |proofs| == 0 {
      return Done(true), map[];
    }
    if keys.FromProofs? {
      var extracted := ExtractPublicKeys(conf, proofs);
      if extracted.IsFailure() {
        return extracted.PropagateFailure(), map[];
      }
    } else if keys.count != |proofs| {
      return Err, map[];
    }
    if !cryptoOk {
      return Done(false), map[];
    }
    r, times := CheckProofs(conf, revocation, proofs, m);
  }

  /** The proof is of the very index that was sent along with the request, or of index 0 if none was. */
  predicate AtIndexSent(revocation: map<string, NonRevocationRequest>, id: string, p: NonRevocationProof) {
    if id in revocation && p.pkCounter in revocation[id].updates
    then p.accIndex == revocation[id].updates[p.pkCounter] else p.accIndex == 0
  }

  /** Nonrevocation is guaranteed until the time of the proof's accumulator, or, of a proof at the index sent, until
      the server's last update if that is later. Exactly if that is longer ago than is tolerated, by the request or
      else by the server, that time is reported. */
  lemma ReportedIffTooOld(conf: Configuration, revocation: map<string, NonRevocationRequest>, m: Moment, p: Proof)
    requires TypeOfProof(conf, p).Some? && p.nonRev.Some?
    ensures var id, proof := TypeOfProof(conf, p).value, p.nonRev.value;
            var until, updated := GuaranteedUntil(revocation, m, id, proof), m.settings(id).updated;
            && proof.accTime <= until && (AtIndexSent(revocation, id, proof) ==> updated <= until)
            && (until == proof.accTime || (AtIndexSent(revocation, id, proof) && until == updated))
    ensures var id := TypeOfProof(conf, p).value;
            var until := GuaranteedUntil(revocation, m, id, p.nonRev.value);
            var tolerated := if id in revocation && revocation[id].tolerance > 0 then revocation[id].tolerance
                             else m.settings(id).tolerance;
            && (until <= m.validAt ==>
                  (ReportedTime(conf, revocation, m, p).Some? <==> until + tolerated < m.validAt))
            && (ReportedTime(conf, revocation, m, p).Some? ==> ReportedTime(conf, revocation, m, p).value == until)
  {
    hide TypeOfMetadata;
  }

  /** An unexpired proof: not past its expiry unless that is skipped, and not signed after its key expired. */
  predicate ProofUnexpired(conf: Configuration, t: int, skip: seq<string>, p: Proof) {
    p.ProofD? ==>
      && TypeOfProof(conf, p).Some?
      && (TypeOfProof(conf, p).value in skip || Expiry(p.disclosed[1]) >= t)
      && KeyKnown(conf, p)
      && SigningDate(p.disclosed[1]) <= KeyExpiry(conf, TypeOfProof(conf, p).value, p.disclosed[1]).value
  }

  /** An expired proof: past its expiry, which decides before its key is looked up, or signed after its key
      expired. */
  predicate ProofExpired(conf: Configuration, t: int, skip: seq<string>, p: Proof) {
    && TypeOfProof(conf, p).Some?
    && var typ := TypeOfProof(conf, p).value;
    && ((typ !in skip && Expiry(p.disclosed[1]) < t)
        || (KeyKnown(conf, p) && SigningDate(p.disclosed[1]) > KeyExpiry(conf, typ, p.disclosed[1]).value))
  }

  /** With a known key a proof is either expired or not. */
  lemma ExpiredOrNot(conf: Configuration, t: int, skip: seq<string>, p: Proof)
    requires p.ProofD? && KeyKnown(conf, p)
    ensures ProofExpired(conf, t, skip, p) <==> !ProofUnexpired(conf, t, skip, p)
  {
    hide TypeOfMetadata, KeyExpiry, Expiry, SigningDate;
  }

  /** Some proof is expired, and none before it makes the check fail. */
  ghost predicate SomeExpired(conf: Configuration, t: int, skip: seq<string>, proofs: seq<Proof>) {
    exists i :: 0 <= i < |proofs| && ProofExpired(conf, t, skip, proofs[i])
                && forall k :: 0 <= k < i ==> ProofUnexpired(conf, t, skip, proofs[k])
  }

  /** ProofList.Expired: false exactly if no proof is expired, true exactly if one is and the check gets
      that far. */
  method Expired(conf: Configuration, t: int, skip: seq<string>, proofs: seq<Proof>) returns (r: Outcome<bool>)
    ensures r == Done(false) <==> forall i :: 0 <= i < |proofs| ==> ProofUnexpired(conf, t, skip, proofs[i])
    ensures r == Done(true) <==> SomeExpired(conf, t, skip, proofs)
    ensures !r.Err?
  {
    hide TypeOfMetadata, KeyExpiry, Expiry, SigningDate;
    for i := 0 to |proofs|
      invariant forall k :: 0 <= k < i ==> ProofUnexpired(conf, t, skip, proofs[k])
    {
      if proofs[i].ProofD? {
        if 1 !in proofs[i].disclosed {
          return Panic;
        }
        var meta := proofs[i].disclosed[1];
        var typ := TypeOfMetadata(conf, meta);
        if typ.None? {
          return Panic;
        }
        if typ.value !in skip && Expiry(meta) < t {
          assert ProofExpired(conf, t, skip, proofs[i]);
          return Done(true);
        }
        var keyExpiry := KeyExpiry(conf, typ.value, meta);
        if keyExpiry.None? {
          return Panic;
        }
        if SigningDate(meta) > keyExpiry.value {
          assert ProofExpired(conf, t, skip, proofs[i]);
          return Done(true);
        }
      }
    }
    return Done(false);
  }

  // ---------------------------------------------------------------- extra attributes

  /** The position is named by one of the first `n` sets of indices. */
  predicate Named(d: Disclosure, n: nat, index: AttributeIndex) {
    exists s, k :: 0 <= s < |d.indices| && s < n && 0 <= k < |d.indices[s]| && d.indices[s][k] == index
  }

  predicate IsDisclosed(d: Disclosure, index: AttributeIndex) {
    0 <= index.cred < |d.proofs| && d.proofs[index.cred].ProofD? && index.attr > 1
    && index.attr in d.proofs[index.cred].disclosed
  }

  /** All named credential positions exist. */
  predicate IndicesInRange(d: Disclosure, n: nat) {
    forall s, k :: 0 <= s < |d.indices| && s < n && 0 <= k < |d.indices[s]| ==> 0 <= d.indices[s][k].cred < |d.proofs|
  }

  /** extraIndices: what was disclosed besides metadata and not named for any requested disjunction. */
  method ExtraIndices(d: Disclosure, n: nat) returns (r: Outcome<set<AttributeIndex>>)
    ensures r.Done? <==> IndicesInRange(d, n)
    ensures r.Done? ==> forall index :: index in r.value <==> IsDisclosed(d, index) && !Named(d, n, index)
  {
    var extra: set<AttributeIndex> := {};
    for i := 0 to |d.proofs|
      invariant forall index :: index in extra <==> IsDisclosed(d, index) && index.cred < i
    {
      if d.proofs[i].ProofD? {
        var own := d.proofs[i].disclosed;
        extra := extra + set j | j in own && j > 1 :: AttributeIndex(i, j);
      }
    }
    for s := 0 to |d.indices|
      invariant IndicesInRange(d, if s < n then s else n)
      invariant forall index :: index in extra <==> IsDisclosed(d, index) && !Named(d, if s < n then s else n, index)
    {
      if s < n {
        for k := 0 to |d.indices[s]|
          invariant forall k' :: 0 <= k' < k ==> 0 <= d.indices[s][k'].cred < |d.proofs|
          invariant forall index :: index in extra <==>
            IsDisclosed(d, index) && !Named(d, s, index) && index !in d.indices[s][..k]
        {
          if d.indices[s][k].cred < 0 || d.indices[s][k].cred >= |d.proofs| {
            return Panic;
          }
          assert d.indices[s][..k + 1] == d.indices[s][..k] + [d.indices[s][k]];
          extra := extra - {d.indices[s][k]};
        }
        assert d.indices[s][..|d.indices[s]|] == d.indices[s];
        NamedStep(d, s);
      }
    }
    NamedAll(d, n);
    return Done(extra);
  }

  lemma NamedStep(d: Disclosure, s: nat)
    requires s < |d.indices|
    ensures forall index :: Named(d, s + 1, index) <==> Named(d, s, index) || index in d.indices[s]
  {
    forall index ensures Named(d, s + 1, index) <==> Named(d, s, index) || index in d.indices[s] {
      if index in d.indices[s] {
        var k :| 0 <= k < |d.indices[s]| && d.indices[s][k] == index;
        assert Named(d, s + 1, index);
      }
    }
  }

  lemma NamedAll(d: Disclosure, n: nat)
    ensures forall index :: Named(d, n, index) <==> Named(d, if |d.indices| < n then |d.indices| else n, index)
  {
  }

  // ---------------------------------------------------------------- the verdict

  /** `times` are the reported times up to which nonrevocation of the proofs is guaranteed. */
  datatype Verdict = Verdict(status: ProofStatus, list: seq<Option<Attrs>>, extra: Attrs, times: map<nat, int>)

  ghost predicate ExtrasReadable(conf: Configuration, d: Disclosure, n: nat) {
    IndicesInRange(d, n)
    && forall index :: IsDisclosed(d, index) && !Named(d, n, index) ==> ExtractAttribute(conf, d.proofs, index).Done?
  }

  /** Everything a VALID disclosure must meet. */
  ghost predicate Accepted(conf: Configuration, request: SessionRequest, d: Disclosure, keys: PublicKeys,
                           cryptoOk: bool, t: int) {
    && ProofsVerified(conf, request.revocation, d.proofs, keys, cryptoOk)
    && ConDisConSatisfy(conf, d, request.disclose).Done?
    && ConDisConSatisfy(conf, d, request.disclose).value.complete
    && ExtrasReadable(conf, d, |request.disclose|)
    && forall i :: 0 <= i < |d.proofs| ==> ProofUnexpired(conf, t, request.skipExpiry, d.proofs[i])
  }

  /** The extra attributes are those at the disclosed positions that nothing names, each once. */
  ghost predicate ExtrasOf(conf: Configuration, d: Disclosure, n: nat, extra: Attrs) {
    exists order: seq<AttributeIndex> :: ExtrasIn(conf, d, n, extra, order)
  }

  ghost predicate ExtrasIn(conf: Configuration, d: Disclosure, n: nat, extra: Attrs, order: seq<AttributeIndex>) {
    && |order| == |extra|
    && (forall i, j :: 0 <= i < j < |order| ==> order[i] != order[j])
    && (forall index :: index in order <==> IsDisclosed(d, index) && !Named(d, n, index))
    && (forall k :: 0 <= k < |order| ==> IsExtra(conf, d, order[k], extra[k]))
  }

  ghost predicate IsExtra(conf: Configuration, d: Disclosure, index: AttributeIndex, attr: DisclosedAttribute) {
    && ExtractAttribute(conf, d.proofs, index).Done?
    && attr == ExtractAttribute(conf, d.proofs, index).value.(status := Extra)
  }

  /** DisclosedAttributes: the matched list and the extra attributes. */
  method DisclosedAttributes(conf: Configuration, d: Disclosure, cdc: AttributeConDisCon)
    returns (r: Outcome<(Matched, Attrs)>)
    ensures r.Done? <==> ConDisConSatisfy(conf, d, cdc).Done? && ExtrasReadable(conf, d, |cdc|)
    ensures r.Done? ==> r.value.0 == ConDisConSatisfy(conf, d, cdc).value
    ensures r.Done? ==> ExtrasOf(conf, d, |cdc|, r.value.1)
  {
    hide ConDisConSatisfy, IsDisclosed, Named, ExtractAttribute, IndicesInRange;
    var matched := ComputeConDisConSatisfy(conf, d, cdc);
    if matched.IsFailure() {
      return matched.PropagateFailure();
    }
    var indices := ExtraIndices(d, |cdc|);
    if indices.IsFailure() {
      return indices.PropagateFailure();
    }
    var todo := indices.value;
    var extra: Attrs := [];
    ghost var order: seq<AttributeIndex> := [];
    while todo != {}
      invariant todo <= indices.value && |order| == |extra|
      invariant forall i, j :: 0 <= i < j < |order| ==> order[i] != order[j]
      invariant forall index :: index in order <==> index in indices.value && index !in todo
      invariant forall k :: 0 <= k < |order| ==> IsExtra(conf, d, order[k], extra[k])
      decreases todo
    {
      var index :| index in todo;
      var attr := ExtractAttribute(conf, d.proofs, index);
      if attr.IsFailure() {
        return attr.PropagateFailure();
      }
      extra := extra + [attr.value.(status := Extra)];
      order := order + [index];
      todo := todo - {index};
    }
    assert ExtrasIn(conf, d, |cdc|, extra, order);
    forall index | IsDisclosed(d, index) && !Named(d, |cdc|, index)
      ensures ExtractAttribute(conf, d.proofs, index).Done? {
      var k :| 0 <= k < |order| && order[k] == index;
      assert IsExtra(conf, d, order[k], extra[k]);
    }
    return Done((matched.value, extra));
  }

  /** If everything disclosed is named, no extra attribute is reported, and otherwise one is. */
  lemma NoExtrasIff(conf: Configuration, d: Disclosure, n: nat, extra: Attrs)
    requires ExtrasOf(conf, d, n, extra)
    ensures extra == [] <==> forall index :: IsDisclosed(d, index) ==> Named(d, n, index)
  {
    hide IsDisclosed, Named, IsExtra;
    var order :| ExtrasIn(conf, d, n, extra, order);
    if order != [] {
      assert order[0] in order;
    }
  }

  /** The proofs verify and all disclosed attributes can be read. */
  ghost predicate Readable(conf: Configuration, request: SessionRequest, d: Disclosure, keys: PublicKeys,
                           cryptoOk: bool) {
    && ProofsVerified(conf, request.revocation, d.proofs, keys, cryptoOk)
    && ConDisConSatisfy(conf, d, request.disclose).Done? && ExtrasReadable(conf, d, |request.disclose|)
  }

  ghost predicate IsComplete(conf: Configuration, request: SessionRequest, d: Disclosure)
    requires ConDisConSatisfy(conf, d, request.disclose).Done?
  {
    ConDisConSatisfy(conf, d, request.disclose).value.complete
  }

  /** VerifyAgainstRequest answers VALID exactly for an accepted disclosure, MISSING_ATTRIBUTES exactly if it
      is readable but not complete, EXPIRED exactly if it is complete but a credential is expired, and
      INVALID in all other cases in which it does not panic. */
  method VerifyAgainstRequest(conf: Configuration, request: SessionRequest, d: Disclosure, keys: PublicKeys,
                              cryptoOk: bool, m: Moment)
    returns (r: Outcome<Verdict>)
    ensures !r.Err?
    ensures r.Done? && r.value.status == StatusValid <==> Accepted(conf, request, d, keys, cryptoOk, m.validAt)
    ensures r.Done? && r.value.status == StatusMissingAttributes <==>
      Readable(conf, request, d, keys, cryptoOk) && !IsComplete(conf, request, d)
    ensures r.Done? && r.value.status == StatusExpired <==>
      Readable(conf, request, d, keys, cryptoOk) && IsComplete(conf, request, d)
      && SomeExpired(conf, m.validAt, request.skipExpiry, d.proofs)
    ensures r.Done? && r.value.status != StatusInvalid ==>
      ConDisConSatisfy(conf, d, request.disclose).Done?
      && r.value.list == ConDisConSatisfy(conf, d, request.disclose).value.list
      && ExtrasOf(conf, d, |request.disclose|, r.value.extra)
      && forall i: nat :: i < |d.proofs| ==>
           TimeOf(r.value.times, i) == ReportedTime(conf, request.revocation, m, d.proofs[i])
  {
    hide ConDisConSatisfy, ProofsVerified, ExtrasReadable, ProofUnexpired, IsDisclosed, Named, ReportedTime, ExtrasOf,
      SomeExpired;
    var valid, times := VerifyProofs(conf, request.revocation, d.proofs, keys, cryptoOk, m);
    if valid.Panic? {
      return Panic;
    }
    if valid != Done(true) {
      return Done(Verdict(StatusInvalid, [], [], map[]));
    }
    var disclosed := DisclosedAttributes(conf, d, request.disclose);
    if disclosed.Panic? {
      return Panic;
    }
    if disclosed.Err? {
      return Done(Verdict(StatusInvalid, [], [], map[]));
    }
    var (matched, extra) := disclosed.value;
    if !matched.complete {
      return Done(Verdict(StatusMissingAttributes, matched.list, extra, times));
    }
    var expired := Expired(conf, m.validAt, request.skipExpiry, d.proofs);
    if expired.Panic? {
      return Panic;
    }
    if expired.value {
      return Done(Verdict(StatusExpired, matched.list, extra, times));
    }
    return Done(Verdict(StatusValid, matched.list, extra, times));
  }

  /** A known public key: by the issuer of the credential type and the counter in the metadata. */
  predicate SignedUnderKnownKey(conf: Configuration, ct: string, meta: nat) {
    (Parent(ct), KeyCounter(meta)) in conf.publicKeys
  }

  /** A disclosure proof the verifier has nothing against: of a known type, not expired unless that is skipped, and
      signed before its key expired; with a nonrevocation proof if one was asked for; and any such proof is
      properly signed and not behind the update that was sent along for its key. */
  predicate GoodProof(conf: Configuration, request: SessionRequest, p: Proof, t: int)
    requires p.ProofD?
  {
    && 1 in p.disclosed && TypeOfMetadata(conf, p.disclosed[1]).Some?
    && var meta, ct := p.disclosed[1], TypeOfMetadata(conf, p.disclosed[1]).value;
    && (ct !in request.skipExpiry ==> t <= Expiry(meta))
    && SignedUnderKnownKey(conf, ct, meta) && SigningDate(meta) <= conf.publicKeys[(Parent(ct), KeyCounter(meta))]
    && (ct in request.revocation ==> p.nonRev.Some?)
    && (p.nonRev.Some? ==>
          && p.nonRev.value.keyKnown && p.nonRev.value.signatureOk
          && (ct in request.revocation && p.nonRev.value.pkCounter in request.revocation[ct].updates ==>
                request.revocation[ct].updates[p.nonRev.value.pkCounter] <= p.nonRev.value.accIndex))
  }

  /** The public keys are as many as there are proofs, or all proofs are of a kind that names its key. */
  predicate KeysGiven(proofs: seq<Proof>, keys: PublicKeys) {
    match keys
    case FromProofs => forall i :: 0 <= i < |proofs| ==> proofs[i].ProofD?
    case Given(count) => proofs == [] || count == |proofs|
  }

  /** VALID, spelled out, is: the cryptography holds; every disjunction is met, position by position, by what is
      disclosed at the indices given for it; all that is disclosed besides can be read; every proof is good; and
      no singleton type is disclosed twice. */
  lemma ValidIff(conf: Configuration, request: SessionRequest, d: Disclosure, keys: PublicKeys, cryptoOk: bool, t: int)
    ensures Accepted(conf, request, d, keys, cryptoOk, t) <==>
      && (d.proofs != [] ==> cryptoOk) && KeysGiven(d.proofs, keys)
      && |request.disclose| <= |d.indices|
      && (forall i :: 0 <= i < |request.disclose| ==>
            DisjunctionMet(conf, d.proofs, d.indices[i], request.disclose[i]))
      && ExtrasReadable(conf, d, |request.disclose|)
      && (forall i :: 0 <= i < |d.proofs| && d.proofs[i].ProofD? ==> GoodProof(conf, request, d.proofs[i], t))
      && (forall i, j :: 0 <= i < j < |d.proofs| && IsSingleton(conf, TypeOfProof(conf, d.proofs[i])) ==>
            TypeOfProof(conf, d.proofs[i]) != TypeOfProof(conf, d.proofs[j]))
  {
    CompleteIfMet(conf, d, request.disclose);
    forall i | 0 <= i < |d.proofs| && d.proofs[i].ProofD?
      ensures GoodProof(conf, request, d.proofs[i], t) <==>
        KeyKnown(conf, d.proofs[i]) && ProofMet(conf, request.revocation, d.proofs[i])
        && ProofUnexpired(conf, t, request.skipExpiry, d.proofs[i])
    {
      GoodProofIff(conf, request, d.proofs[i], t);
    }
    hide ConDisConSatisfy, DisjunctionMet, ExtrasReadable, GoodProof, ProofMet, KeyKnown, ProofUnexpired, TypeOfProof;
  }

  lemma GoodProofIff(conf: Configuration, request: SessionRequest, p: Proof, t: int)
    requires p.ProofD?
    ensures GoodProof(conf, request, p, t) <==>
      KeyKnown(conf, p) && ProofMet(conf, request.revocation, p) && ProofUnexpired(conf, t, request.skipExpiry, p)
  {
    hide TypeOfMetadata, Expiry, SigningDate, KeyCounter, Parent;
  }

  lemma CompleteIfMet(conf: Configuration, d: Disclosure, cdc: AttributeConDisCon)
    ensures ConDisConSatisfy(conf, d, cdc).Done? && ConDisConSatisfy(conf, d, cdc).value.complete <==>
      |cdc| <= |d.indices| && forall i :: 0 <= i < |cdc| ==> DisjunctionMet(conf, d.proofs, d.indices[i], cdc[i])
  {
    hide ConDisConSatisfy, DisConSatisfy, DisjunctionMet;
    if ConDisConSatisfy(conf, d, cdc).Done? {
      MatchedIff(conf, d, cdc, ConDisConSatisfy(conf, d, cdc).value);
    }
    if |cdc| <= |d.indices| {
      forall i | 0 <= i < |cdc| ensures DisjunctionMet(conf, d.proofs, d.indices[i], cdc[i]) <==>
        (DisConSatisfy(conf, d.proofs, d.indices[i], cdc[i]).Done?
         && DisConSatisfy(conf, d.proofs, d.indices[i], cdc[i]).value.Some?) {
        DisConSatisfiedIff(conf, d.proofs, d.indices[i], cdc[i]);
      }
      if forall i :: 0 <= i < |cdc| ==> DisjunctionMet(conf, d.proofs, d.indices[i], cdc[i]) {
        var list := seq(|cdc|, i requires 0 <= i < |cdc| && DisConSatisfy(conf, d.proofs, d.indices[i], cdc[i]).Done? =>
          DisConSatisfy(conf, d.proofs, d.indices[i], cdc[i]).value);
        CompleteIff(conf, d, cdc, list);
      }
    }
  }
}
