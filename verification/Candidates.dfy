/** irmaclient/client.go: the options a user can choose from for a session request. */
module Candidates {
  import opened Outcomes
  import opened Codec
  import opened Identifiers
  import opened Scheme
  import opened Requests
  import opened CredentialStore
  import opened Products

  /** A credential instance, or with an empty hash the suggestion to obtain one. */
  datatype CredCandidate = CredCandidate(typ: string, hash: string)

  datatype DisclosureCandidate = DisclosureCandidate(
    typ: string, hash: string, value: Option<bytes>, expired: bool, revoked: bool, notRevokable: bool)

  /** The client's held credentials, the session request, the current time, and how slices grow. */
  datatype Context = Context(
    conf: Configuration,
    attributes: Attributes,
    lookup: map<string, CredLookup>,
    request: SessionRequest,
    now: int,
    grow: Growth)
  {
    ghost predicate Valid() { StoreInv(conf, attributes, lookup) }

    function ByHash(hash: string): Option<AttributeList> { AttributesByHash(attributes, lookup, hash) }
  }

  // ---------------------------------------------------------------- one credential against a conjunction

  /** AttributeList.UntranslatedAttribute */
  function UntranslatedAttribute(conf: Configuration, al: AttributeList, ai: string): Option<bytes> {
    var ct := CredentialTypeOf(ai);
    if TypeOf(conf, al) != Some(ct) then None else
      var i := IndexOfName(conf.types[ct].attributes, Name(ai));
      if i.Some? && i.value + 1 < |al.ints| then DecodeAt(conf, ct, i.value, Version(al.ints[0]), al.ints[i.value + 1])
      else None
  }

  predicate MeetsRequest(conf: Configuration, al: AttributeList, ar: AttributeRequest) {
    RequestSatisfied(ar, ar.typ, UntranslatedAttribute(conf, al, ar.typ))
  }

  /** The credential meets every request of the conjunction about its type, and there is one. */
  predicate MeetsCon(conf: Configuration, al: AttributeList, id: string, con: AttributeCon) {
    && (exists k :: 0 <= k < |con| && TypeAt(con, k) == id)
    && (forall k :: 0 <= k < |con| && TypeAt(con, k) == id ==> MeetsRequest(conf, al, con[k]))
  }

  /** Not revoked, able to prove nonrevocation if asked to, and not expired unless that is skipped. */
  predicate Usable(ctx: Context, al: AttributeList, id: string) {
    && !al.revoked
    && (!RequestsRevocation(ctx.request, id) || al.hasWitness)
    && (id in ctx.request.skipExpiry || (al.ints != [] && Expiry(al.ints[0]) > ctx.now))
  }

  /** satisfiesCon */
  method SatisfiesCon(ctx: Context, al: AttributeList, id: string, con: AttributeCon)
    returns (satisfies: bool, usable: bool)
    requires al.ints != []
    ensures satisfies <==> MeetsCon(ctx.conf, al, id, con)
    ensures satisfies ==> (usable <==> Usable(ctx, al, id))
    ensures !satisfies ==> !usable
  {
    hide UntranslatedAttribute, Expiry, TypeOf;
    var credfound := false;
    for i := 0 to |con|
      invariant credfound <==> exists k :: 0 <= k < i && TypeAt(con, k) == id
      invariant forall k :: 0 <= k < i && TypeAt(con, k) == id ==> MeetsRequest(ctx.conf, al, con[k])
    {
      if CredentialTypeOf(con[i].typ) == id {
        assert TypeAt(con, i) == id;
        credfound := true;
        if !MeetsRequest(ctx.conf, al, con[i]) {
          return false, false;
        }
      }
    }
    if !credfound {
      return false, false;
    }
    usable := !al.revoked && (!RequestsRevocation(ctx.request, id) || al.hasWitness);
    if id !in ctx.request.skipExpiry {
      usable := usable && Expiry(al.ints[0]) > ctx.now;
    }
    return true, usable;
  }

  // ---------------------------------------------------------------- per credential type

  /** The held instances, in order, that meet the conjunction. */
  function Matching(conf: Configuration, list: seq<AttributeList>, id: string, con: AttributeCon): seq<AttributeList> {
    if list == [] then [] else
      var r := Matching(conf, list[..|list| - 1], id, con);
      if MeetsCon(conf, list[|list| - 1], id, con) then r + [list[|list| - 1]] else r
  }

  lemma {:induction false} MatchingMembers(conf: Configuration, list: seq<AttributeList>, id: string, con: AttributeCon)
    ensures forall al :: al in Matching(conf, list, id, con) <==> al in list && MeetsCon(conf, al, id, con)
  {
    if list != [] {
      MatchingMembers(conf, list[..|list| - 1], id, con);
      assert list == list[..|list| - 1] + [list[|list| - 1]];
    }
  }

  predicate FixedAttrValue(con: AttributeCon, id: string) {
    exists k :: 0 <= k < |con| && TypeAt(con, k) == id && con[k].value.Some?
  }

  /** addCredSuggestion */
  predicate AddCredSuggestion(ctx: Context, id: string, fixedAttrValue: bool, haveCandidates: bool)
    requires id in ctx.conf.types
  {
    var ct := ctx.conf.types[id];
    if ct.deprecated then false
    else if ct.issueURL && !ct.singleton && !fixedAttrValue then true
    else if haveCandidates then false
    else id !in ctx.request.issues
  }

  function Hashes(list: seq<AttributeList>, id: string): (r: seq<CredCandidate>)
    ensures |r| == |list|
  {
    seq(|list|, i requires 0 <= i < |list| => CredCandidate(id, list[i].hash))
  }

  /** The candidates of one credential type: matching instances, then possibly a suggestion. */
  function TypeCandidates(ctx: Context, id: string, con: AttributeCon): seq<CredCandidate>
    requires id in ctx.conf.types
  {
    var m := Matching(ctx.conf, Held(ctx.attributes, id), id, con);
    Hashes(m, id) + (if AddCredSuggestion(ctx, id, FixedAttrValue(con, id), m != []) then [CredCandidate(id, "")]
      else [])
  }

  ghost predicate HasUsable(ctx: Context, id: string, con: AttributeCon) {
    exists al :: al in Held(ctx.attributes, id) && MeetsCon(ctx.conf, al, id, con) && Usable(ctx, al, id)
  }

  predicate KnownTypes(conf: Configuration, types: seq<string>) {
    forall j :: 0 <= j < |types| ==> types[j] in conf.types
  }

  function CredCandidates(ctx: Context, types: seq<string>, con: AttributeCon): seq<seq<CredCandidate>>
    requires KnownTypes(ctx.conf, types)
  {
    seq(|types|, j requires 0 <= j < |types| => TypeCandidates(ctx, types[j], con))
  }

  /** The instances of one type that can be used for the conjunction. */
  method MatchingInstances(ctx: Context, id: string, con: AttributeCon)
    returns (c: seq<CredCandidate>, haveUsableCred: bool)
    requires ctx.Valid()
    ensures c == Hashes(Matching(ctx.conf, Held(ctx.attributes, id), id, con), id)
    ensures haveUsableCred <==> HasUsable(ctx, id, con)
  {
    hide MeetsCon, Usable, StoreInv;
    HeldHaveMetadata(ctx, id);
    var list := if id in ctx.attributes then ctx.attributes[id] else [];
    c := [];
    haveUsableCred := false;
    for i := 0 to |list|
      invariant c == Hashes(Matching(ctx.conf, list[..i], id, con), id)
      invariant haveUsableCred <==>
        exists k :: 0 <= k < i && MeetsCon(ctx.conf, list[k], id, con) && Usable(ctx, list[k], id)
    {
      assert list[..i + 1][..i] == list[..i];
      assert list[i] == Held(ctx.attributes, id)[i];
      var satisfies, usable := SatisfiesCon(ctx, list[i], id, con);
      if satisfies {
        c := c + [CredCandidate(id, list[i].hash)];
        if usable {
          haveUsableCred := true;
        }
      }
    }
    assert list[..|list|] == list;
  }

  lemma HeldHaveMetadata(ctx: Context, id: string)
    requires ctx.Valid()
    ensures forall i :: 0 <= i < |Held(ctx.attributes, id)| ==> Held(ctx.attributes, id)[i].ints != []
  {
    hide TypeOfMetadata, HashedBytes, ToBytes;
    forall i | 0 <= i < |Held(ctx.attributes, id)| ensures Held(ctx.attributes, id)[i].ints != [] {
      assert WellFormed(ctx.conf, ctx.attributes[id][i], id);
    }
  }

  method ComputeFixedAttrValue(con: AttributeCon, id: string) returns (fixedAttrValue: bool)
    ensures fixedAttrValue <==> FixedAttrValue(con, id)
  {
    fixedAttrValue := false;
    for k := 0 to |con|
      invariant fixedAttrValue <==> exists j :: 0 <= j < k && TypeAt(con, j) == id && con[j].value.Some?
    {
      if CredentialTypeOf(con[k].typ) == id {
        assert TypeAt(con, k) == id;
        if con[k].value.Some? {
          fixedAttrValue := true;
        }
      }
    }
  }

  /** credCandidates */
  method ComputeCredCandidates(ctx: Context, con: AttributeCon)
    returns (candidates: seq<seq<CredCandidate>>, satisfiable: bool)
    requires ctx.Valid() && KnownTypes(ctx.conf, CredentialTypes(con))
    ensures candidates == CredCandidates(ctx, CredentialTypes(con), con)
    ensures satisfiable <==> forall j :: 0 <= j < |CredentialTypes(con)| ==>
      HasUsable(ctx, CredentialTypes(con)[j], con)
  {
    hide HasUsable, Matching, FixedAttrValue, StoreInv;
    var types := ComputeCredentialTypes(con);
    candidates := [];
    satisfiable := true;
    for j := 0 to |types|
      invariant |candidates| == j && forall k :: 0 <= k < j ==> candidates[k] == TypeCandidates(ctx, types[k], con)
      invariant satisfiable <==> forall k :: 0 <= k < j ==> HasUsable(ctx, types[k], con)
    {
      var c, haveUsableCred := MatchingInstances(ctx, types[j], con);
      if !haveUsableCred {
        satisfiable := false;
      }
      var fixedAttrValue := ComputeFixedAttrValue(con, types[j]);
      if |c| == 0 {
        satisfiable := false;
        NoMatchNotUsable(ctx, types[j], con);
      }
      if AddCredSuggestion(ctx, types[j], fixedAttrValue, |c| != 0) {
        c := c + [CredCandidate(types[j], "")];
      }
      assert c == TypeCandidates(ctx, types[j], con);
      candidates := candidates + [c];
    }
  }

  lemma NoMatchNotUsable(ctx: Context, id: string, con: AttributeCon)
    requires Matching(ctx.conf, Held(ctx.attributes, id), id, con) == []
    ensures !HasUsable(ctx, id, con)
  {
    MatchingMembers(ctx.conf, Held(ctx.attributes, id), id, con);
  }

  /** The credential has, for every request of the conjunction about its type, a text that will do. */
  ghost predicate Fits(conf: Configuration, al: AttributeList, id: string, con: AttributeCon) {
    && (exists k :: 0 <= k < |con| && TypeAt(con, k) == id)
    && forall k :: 0 <= k < |con| && TypeAt(con, k) == id ==>
      var text := UntranslatedAttribute(conf, al, con[k].typ);
      (con[k].notNull ==> text.Some?) && (con[k].value.Some? ==> text == con[k].value)
  }

  /** Obtaining one is suggested, unless the type is deprecated: always if it can be obtained at an address, more
      than one can be held, and no value is demanded; and otherwise if none that is held fits and none is being
      issued in this very session. */
  ghost predicate Suggested(ctx: Context, id: string, con: AttributeCon)
    requires id in ctx.conf.types
  {
    && !ctx.conf.types[id].deprecated
    && (|| (ctx.conf.types[id].issueURL && !ctx.conf.types[id].singleton
            && forall k :: 0 <= k < |con| && TypeAt(con, k) == id ==> con[k].value.None?)
        || ((forall al <- Held(ctx.attributes, id) :: !Fits(ctx.conf, al, id, con)) && id !in ctx.request.issues))
  }

  /** What is offered for a credential type: exactly the held credentials of that type that fit the conjunction, and
      the suggestion to obtain one exactly if that is suggested. */
  lemma OfferedIff(ctx: Context, id: string, con: AttributeCon, c: CredCandidate)
    requires ctx.Valid() && id in ctx.conf.types
    ensures c in TypeCandidates(ctx, id, con) <==>
            && c.typ == id
            && if c.hash == "" then Suggested(ctx, id, con)
               else exists al <- Held(ctx.attributes, id) :: al.hash == c.hash && Fits(ctx.conf, al, id, con)
  {
    HeldHashesDiffer(ctx, id);
    InstanceOffered(ctx, id, con, c);
    SuggestedIff(ctx, id, con);
    hide StoreInv, Fits, Matching, Suggested, AddCredSuggestion, Held, Hashes;
  }

  lemma FittingMembers(ctx: Context, id: string, con: AttributeCon)
    ensures forall al :: al in Matching(ctx.conf, Held(ctx.attributes, id), id, con) <==>
              al in Held(ctx.attributes, id) && Fits(ctx.conf, al, id, con)
  {
    MatchingMembers(ctx.conf, Held(ctx.attributes, id), id, con);
    hide MeetsCon, Fits, Matching;
    forall al ensures MeetsCon(ctx.conf, al, id, con) <==> Fits(ctx.conf, al, id, con) {
      FitsIffMeets(ctx.conf, al, id, con);
    }
  }

  lemma InstanceOffered(ctx: Context, id: string, con: AttributeCon, c: CredCandidate)
    ensures c in Hashes(Matching(ctx.conf, Held(ctx.attributes, id), id, con), id) <==>
            && c.typ == id
            && exists al <- Held(ctx.attributes, id) :: al.hash == c.hash && Fits(ctx.conf, al, id, con)
  {
    FittingMembers(ctx, id, con);
    hide Fits, Matching, Held;
    var m := Matching(ctx.conf, Held(ctx.attributes, id), id, con);
    if i :| 0 <= i < |m| && m[i].hash == c.hash {
      assert m[i] in m;
      assert Hashes(m, id)[i] == CredCandidate(id, c.hash);
    }
  }

  lemma SuggestedIff(ctx: Context, id: string, con: AttributeCon)
    requires id in ctx.conf.types
    ensures AddCredSuggestion(ctx, id, FixedAttrValue(con, id),
                              Matching(ctx.conf, Held(ctx.attributes, id), id, con) != []) <==>
            Suggested(ctx, id, con)
  {
    FittingMembers(ctx, id, con);
    hide Fits, Matching, Held;
    var m := Matching(ctx.conf, Held(ctx.attributes, id), id, con);
    if m != [] {
      assert m[0] in m;
    }
  }

  lemma FitsIffMeets(conf: Configuration, al: AttributeList, id: string, con: AttributeCon)
    ensures MeetsCon(conf, al, id, con) <==> Fits(conf, al, id, con)
  {
    hide UntranslatedAttribute;
  }

  // ---------------------------------------------------------------- expansion to attributes

  function Types(s: seq<CredCandidate>): (r: seq<string>)
    ensures |r| == |s|
  {
    seq(|s|, j requires 0 <= j < |s| => s[j].typ)
  }

  /** One option of one attribute, flagged with what would make it unusable. */
  function Option_(ctx: Context, credopt: CredCandidate, ar: AttributeRequest): DisclosureCandidate {
    var al := ctx.ByHash(credopt.hash);
    if credopt.hash != "" && al.Some? && al.value.ints != [] then
      DisclosureCandidate(ar.typ, credopt.hash, ar.value,
                          Expiry(al.value.ints[0]) <= ctx.now,
                          al.value.revoked,
                          !al.value.hasWitness && RequestsRevocation(ctx.request, credopt.typ))
    else DisclosureCandidate(ar.typ, credopt.hash, ar.value, false, false, false)
  }

  function Options(ctx: Context, credopt: CredCandidate, ars: AttributeCon): (r: seq<DisclosureCandidate>)
    ensures |r| == |ars|
  {
    seq(|ars|, k requires 0 <= k < |ars| => Option_(ctx, credopt, ars[k]))
  }

  /** The attributes of one combination of credentials, credential by credential. */
  function ExpandOne(ctx: Context, s: seq<CredCandidate>, con: AttributeCon): seq<DisclosureCandidate> {
    if s == [] then []
    else ExpandOne(ctx, s[..|s| - 1], con) + Options(ctx, s[|s| - 1], OfType(con, s[|s| - 1].typ))
  }

  /** credCandidateSet.expand */
  function Expand(ctx: Context, set_: seq<seq<CredCandidate>>, con: AttributeCon): (r: seq<seq<DisclosureCandidate>>)
    ensures |r| == |set_|
  {
    seq(|set_|, i requires 0 <= i < |set_| => ExpandOne(ctx, set_[i], con))
  }

  method ComputeExpand(ctx: Context, set_: seq<seq<CredCandidate>>, con: AttributeCon)
    returns (result: seq<seq<DisclosureCandidate>>)
    ensures result == Expand(ctx, set_, con)
  {
    hide Option_;
    result := [];
    for i := 0 to |set_|
      invariant |result| == i && forall k :: 0 <= k < i ==> result[k] == ExpandOne(ctx, set_[k], con)
    {
      var s := set_[i];
      var candidateSet: seq<DisclosureCandidate> := [];
      for j := 0 to |s|
        invariant candidateSet == ExpandOne(ctx, s[..j], con)
      {
        ghost var before := candidateSet;
        for k := 0 to |con|
          invariant candidateSet == before + Options(ctx, s[j], OfType(con[..k], s[j].typ))
        {
          assert con[..k + 1][..k] == con[..k];
          if CredentialTypeOf(con[k].typ) == s[j].typ {
            assert TypeAt(con[..k + 1], k) == s[j].typ;
            candidateSet := candidateSet + [Option_(ctx, s[j], con[k])];
          }
        }
        assert con[..|con|] == con;
        assert s[..j + 1][..j] == s[..j];
      }
      assert s[..|s|] == s;
      result := result + [candidateSet];
    }
  }

  /** An expanded combination walks the conjunction in the client's order, and each attribute is
      taken from the chosen credential of its type. */
  lemma {:induction false} ExpandWalksClientOrder(ctx: Context, s: seq<CredCandidate>, con: AttributeCon)
    ensures var e, order := ExpandOne(ctx, s, con), ClientOrder(Types(s), con);
            && |e| == |order|
            && forall k :: 0 <= k < |e| ==> exists j :: 0 <= j < |s| && s[j].typ == CredentialTypeOf(order[k].typ)
                                                        && e[k] == Option_(ctx, s[j], order[k])
  {
    hide Option_;
    if s != [] {
      var n := |s| - 1;
      ExpandWalksClientOrder(ctx, s[..n], con);
      assert Types(s)[..n] == Types(s[..n]);
      var e0, order0 := ExpandOne(ctx, s[..n], con), ClientOrder(Types(s[..n]), con);
      var own := OfType(con, s[n].typ);
      OfTypeHasType(con, s[n].typ);
      var e, order := ExpandOne(ctx, s, con), ClientOrder(Types(s), con);
      assert order == order0 + own;
      forall k | 0 <= k < |e|
        ensures exists j :: 0 <= j < |s| && s[j].typ == CredentialTypeOf(order[k].typ)
                            && e[k] == Option_(ctx, s[j], order[k])
      {
        if k < |e0| {
          var j :| 0 <= j < n && s[..n][j].typ == CredentialTypeOf(order0[k].typ)
            && e0[k] == Option_(ctx, s[..n][j], order0[k]);
          assert s[j].typ == CredentialTypeOf(order[k].typ) && e[k] == Option_(ctx, s[j], order[k]);
        } else {
          assert e[k] == Option_(ctx, s[n], own[k - |e0|]);
          assert s[n].typ == CredentialTypeOf(order[k].typ) && e[k] == Option_(ctx, s[n], order[k]);
        }
      }
    }
  }

  lemma {:induction false} OfTypeHasType(con: AttributeCon, ct: string)
    ensures forall k :: 0 <= k < |OfType(con, ct)| ==>
      CredentialTypeOf(OfType(con, ct)[k].typ) == ct && OfType(con, ct)[k] in con
  {
    if con != [] {
      OfTypeHasType(con[..|con| - 1], ct);
    }
  }

  // ---------------------------------------------------------------- disjunctions and requests

  ghost predicate KnownDisCon(conf: Configuration, discon: AttributeDisCon) {
    forall i :: 0 <= i < |discon| ==> KnownTypes(conf, CredentialTypes(discon[i]))
  }

  /** The listed options for one conjunction; an empty conjunction makes its disjunction optional. */
  ghost function ConOptions(ctx: Context, con: AttributeCon): seq<seq<DisclosureCandidate>>
    requires KnownTypes(ctx.conf, CredentialTypes(con))
  {
    if con == [] then [[]]
    else Expand(ctx, Listing(CredCandidates(ctx, CredentialTypes(con), con), ctx.grow), con)
  }

  ghost function DisConOptions(ctx: Context, discon: AttributeDisCon): seq<seq<DisclosureCandidate>>
    requires KnownDisCon(ctx.conf, discon)
  {
    if discon == [] then [] else
      assert forall i :: 0 <= i < |discon| - 1 ==> discon[..|discon| - 1][i] == discon[i];
      DisConOptions(ctx, discon[..|discon| - 1]) + ConOptions(ctx, discon[|discon| - 1])
  }

  ghost predicate ConSatisfiable(ctx: Context, con: AttributeCon) {
    forall j :: 0 <= j < |CredentialTypes(con)| ==> HasUsable(ctx, CredentialTypes(con)[j], con)
  }

  ghost predicate DisConSatisfiable(ctx: Context, discon: AttributeDisCon) {
    exists i :: 0 <= i < |discon| && ConSatisfiable(ctx, discon[i])
  }

  lemma NoTypes(con: AttributeCon)
    requires con == []
    ensures CredentialTypes(con) == []
  {
  }

  lemma NoOptions(ctx: Context, discon: AttributeDisCon)
    requires discon == []
    ensures KnownDisCon(ctx.conf, discon) && DisConOptions(ctx, discon) == []
  {
  }

  lemma DisConOptionsStep(ctx: Context, discon: AttributeDisCon, i: nat)
    requires KnownDisCon(ctx.conf, discon) && i < |discon|
    ensures KnownDisCon(ctx.conf, discon[..i]) && KnownDisCon(ctx.conf, discon[..i + 1])
    ensures DisConOptions(ctx, discon[..i + 1]) == DisConOptions(ctx, discon[..i]) + ConOptions(ctx, discon[i])
  {
    hide ConOptions;
    assert discon[..i + 1][..i] == discon[..i];
  }

  /** candidatesDisCon */
  method ComputeDisConOptions(ctx: Context, discon: AttributeDisCon)
    returns (candidates: seq<seq<DisclosureCandidate>>, satisfiable: bool)
    requires ctx.Valid() && KnownDisCon(ctx.conf, discon)
    ensures candidates == DisConOptions(ctx, discon)
    ensures satisfiable <==> DisConSatisfiable(ctx, discon)
  {
    hide HasUsable, Expand, StoreInv, CredCandidates, Listing, CredentialTypes, KnownTypes, DisConOptions;
    candidates := [];
    satisfiable := false;
    NoOptions(ctx, discon[..0]);
    for i := 0 to |discon|
      invariant KnownDisCon(ctx.conf, discon[..i])
      invariant candidates == DisConOptions(ctx, discon[..i])
      invariant satisfiable <==> exists k :: 0 <= k < i && ConSatisfiable(ctx, discon[k])
    {
      DisConOptionsStep(ctx, discon, i);
      var con := discon[i];
      if |con| == 0 {
        candidates := candidates + [[]];
        satisfiable := true;
        NoTypes(con);
      } else {
        var c, conSatisfiable := ComputeCredCandidates(ctx, con);
        if conSatisfiable {
          satisfiable := true;
        }
        var product := ComputeCartesianProduct(c, ctx.grow);
        var expanded := ComputeExpand(ctx, product, con);
        candidates := candidates + expanded;
      }
    }
    assert discon[..|discon|] == discon;
  }

  /** Candidates: one list of options per disjunction. What is listed as usable makes the request
      satisfiable; the converse holds if no list of candidates is overwritten. */
  method ComputeCandidates(ctx: Context) returns (candidates: seq<seq<seq<DisclosureCandidate>>>, satisfiable: bool)
    requires ctx.Valid()
    requires forall i :: 0 <= i < |ctx.request.disclose| ==> KnownDisCon(ctx.conf, ctx.request.disclose[i])
    ensures |candidates| == |ctx.request.disclose|
    ensures forall i :: 0 <= i < |candidates| ==> candidates[i] == DisConOptions(ctx, ctx.request.disclose[i])
    ensures satisfiable <==> forall i :: 0 <= i < |candidates| ==> DisConSatisfiable(ctx, ctx.request.disclose[i])
    ensures (forall i :: 0 <= i < |candidates| ==> HasUsableOption(ctx, candidates[i])) ==> satisfiable
    ensures (forall i :: 0 <= i < |candidates| ==> DisConUnshared(ctx, ctx.request.disclose[i])) ==>
              (satisfiable <==> forall i :: 0 <= i < |candidates| ==> HasUsableOption(ctx, candidates[i]))
  {
    hide StoreInv, DisConOptions, DisConSatisfiable, HasUsableOption, DisConUnshared, DisConShowsUsable;
    var condiscon := ctx.request.disclose;
    candidates := [];
    satisfiable := true;
    for i := 0 to |condiscon|
      invariant |candidates| == i
      invariant forall k :: 0 <= k < i ==> candidates[k] == DisConOptions(ctx, condiscon[k])
      invariant satisfiable <==> forall k :: 0 <= k < i ==> DisConSatisfiable(ctx, condiscon[k])
    {
      var cands, disconSatisfiable := ComputeDisConOptions(ctx, condiscon[i]);
      if !disconSatisfiable {
        satisfiable := false;
      }
      candidates := candidates + [cands];
    }
    forall i | 0 <= i < |candidates|
      ensures HasUsableOption(ctx, candidates[i]) ==> DisConSatisfiable(ctx, condiscon[i])
      ensures DisConUnshared(ctx, condiscon[i]) ==>
                (DisConSatisfiable(ctx, condiscon[i]) <==> HasUsableOption(ctx, candidates[i]))
    {
      SatisfiableIffUsableOption(ctx, condiscon[i]);
    }
  }

  lemma {:induction false} DisConOptionsMember(ctx: Context, discon: AttributeDisCon, e: seq<DisclosureCandidate>)
    requires KnownDisCon(ctx.conf, discon)
    ensures e in DisConOptions(ctx, discon) <==> exists i :: 0 <= i < |discon| && e in ConOptions(ctx, discon[i])
  {
    hide ConOptions, KnownTypes;
    if discon != [] {
      var n := |discon| - 1;
      assert forall i :: 0 <= i < n ==> discon[..n][i] == discon[i];
      DisConOptionsMember(ctx, discon[..n], e);
    }
  }

  // ---------------------------------------------------------------- when a request is satisfiable

  /** An option made only of held credentials, none of its attributes flagged as unusable. */
  predicate CandidateUsable(ctx: Context, d: DisclosureCandidate) {
    && d.hash != "" && ctx.ByHash(d.hash).Some?
    && !d.revoked && !d.notRevokable
    && (CredentialTypeOf(d.typ) in ctx.request.skipExpiry || !d.expired)
  }

  predicate EntryUsable(ctx: Context, e: seq<DisclosureCandidate>) {
    forall k :: 0 <= k < |e| ==> CandidateUsable(ctx, e[k])
  }

  ghost predicate HasUsableOption(ctx: Context, options: seq<seq<DisclosureCandidate>>) {
    exists e :: e in options && EntryUsable(ctx, e)
  }

  /** The flags of an option say exactly whether its credential is usable. */
  lemma OptionUsable(ctx: Context, credopt: CredCandidate, ar: AttributeRequest, al: AttributeList)
    requires credopt.hash != "" && ctx.ByHash(credopt.hash) == Some(al) && al.ints != []
    requires CredentialTypeOf(ar.typ) == credopt.typ
    ensures CandidateUsable(ctx, Option_(ctx, credopt, ar)) <==> Usable(ctx, al, credopt.typ)
  {
    hide Expiry;
  }

  /** A present candidate of a type is a held instance that meets the conjunction. */
  lemma PresentCandidate(ctx: Context, id: string, con: AttributeCon, c: CredCandidate) returns (al: AttributeList)
    requires ctx.Valid() && id in ctx.conf.types
    requires c in TypeCandidates(ctx, id, con) && c.hash != ""
    ensures c.typ == id && ctx.ByHash(c.hash) == Some(al) && al.hash == c.hash
    ensures al in Held(ctx.attributes, id) && MeetsCon(ctx.conf, al, id, con) && WellFormed(ctx.conf, al, id)
  {
    hide MeetsCon;
    var m := Matching(ctx.conf, Held(ctx.attributes, id), id, con);
    var i :| 0 <= i < |m| && c == CredCandidate(id, m[i].hash);
    al := m[i];
    MatchingMembers(ctx.conf, Held(ctx.attributes, id), id, con);
    HeldByHash(ctx, id, al);
  }

  lemma HeldByHash(ctx: Context, id: string, al: AttributeList)
    requires ctx.Valid() && al in Held(ctx.attributes, id)
    ensures ctx.ByHash(al.hash) == Some(al) && WellFormed(ctx.conf, al, id)
  {
    var i :| 0 <= i < |Held(ctx.attributes, id)| && Held(ctx.attributes, id)[i] == al;
    assert HoldsAt(ctx.attributes, al.hash, id, i);
    AttributesByHashExact(ctx.conf, ctx.attributes, ctx.lookup, al.hash);
    assert WellFormed(ctx.conf, ctx.attributes[id][i], id);
  }

  /** A usable instance of a type is among its candidates. */
  lemma UsableIsCandidate(ctx: Context, id: string, con: AttributeCon, al: AttributeList)
    requires ctx.Valid() && id in ctx.conf.types
    requires al in Held(ctx.attributes, id) && MeetsCon(ctx.conf, al, id, con)
    ensures CredCandidate(id, al.hash) in TypeCandidates(ctx, id, con)
  {
    hide MeetsCon, StoreInv;
    MatchingMembers(ctx.conf, Held(ctx.attributes, id), id, con);
    var m := Matching(ctx.conf, Held(ctx.attributes, id), id, con);
    var i :| 0 <= i < |m| && m[i] == al;
    assert Hashes(m, id)[i] == CredCandidate(id, al.hash);
  }

  /** The candidate of a type that is still shown when all of them are written to the same place. */
  ghost predicate LastUsable(ctx: Context, id: string, con: AttributeCon)
    requires id in ctx.conf.types
  {
    var cands := TypeCandidates(ctx, id, con);
    cands != [] && UsableCandidate(ctx, id, cands[|cands| - 1])
  }

  /** A usable instance of the type is shown: any of them, or at a place with room the last candidate. */
  ghost predicate ShowsUsable(ctx: Context, j: nat, id: string, con: AttributeCon)
    requires id in ctx.conf.types
  {
    if Spare(ctx.grow, j) then LastUsable(ctx, id, con) else HasUsable(ctx, id, con)
  }

  ghost predicate ConShowsUsable(ctx: Context, con: AttributeCon)
    requires KnownTypes(ctx.conf, CredentialTypes(con))
  {
    forall j :: 0 <= j < |CredentialTypes(con)| ==> ShowsUsable(ctx, j, CredentialTypes(con)[j], con)
  }

  ghost predicate DisConShowsUsable(ctx: Context, discon: AttributeDisCon)
    requires KnownDisCon(ctx.conf, discon)
  {
    exists i :: 0 <= i < |discon| && ConShowsUsable(ctx, discon[i])
  }

  /** None of the lists of candidates is overwritten. */
  ghost predicate DisConUnshared(ctx: Context, discon: AttributeDisCon)
    requires KnownDisCon(ctx.conf, discon)
  {
    forall i :: 0 <= i < |discon| ==> ConUnshared(ctx, discon[i])
  }

  ghost predicate ConUnshared(ctx: Context, con: AttributeCon)
    requires KnownTypes(ctx.conf, CredentialTypes(con))
  {
    Unshared(CredCandidates(ctx, CredentialTypes(con), con), ctx.grow)
  }

  lemma LastIsUsable(ctx: Context, id: string, con: AttributeCon)
    requires ctx.Valid() && id in ctx.conf.types && LastUsable(ctx, id, con)
    ensures HasUsable(ctx, id, con)
  {
    hide MeetsCon, Usable, TypeCandidates, StoreInv, WellFormed;
    var cands := TypeCandidates(ctx, id, con);
    var al := PresentCandidate(ctx, id, con, cands[|cands| - 1]);
  }

  /** If no list is overwritten, every usable instance is shown in some option. */
  lemma UnsharedShowsUsable(ctx: Context, con: AttributeCon)
    requires ctx.Valid() && KnownTypes(ctx.conf, CredentialTypes(con)) && ConUnshared(ctx, con)
    requires ConSatisfiable(ctx, con)
    ensures ConShowsUsable(ctx, con)
  {
    hide StoreInv, TypeCandidates, HasUsable, Spare, UsableCandidate, CredentialTypes;
    var types := CredentialTypes(con);
    var lists := CredCandidates(ctx, types, con);
    forall j | 0 <= j < |types| ensures lists[j] != [] && (|lists[j]| <= 1 ==> LastUsable(ctx, types[j], con)) {
      var c := PickUsableOfType(ctx, types[j], con);
    }
    forall j | 0 <= j < |types| ensures ShowsUsable(ctx, j, types[j], con) {}
  }

  /** A conjunction that shows a usable instance of each of its types lists a usable option. */
  lemma ShownConHasOption(ctx: Context, con: AttributeCon) returns (e: seq<DisclosureCandidate>)
    requires ctx.Valid() && KnownTypes(ctx.conf, CredentialTypes(con)) && ConShowsUsable(ctx, con)
    ensures e in ConOptions(ctx, con) && EntryUsable(ctx, e)
  {
    hide StoreInv, ExpandOne, EntryUsable, UsableCandidate, TypeCandidates, HasUsable, Spare;
    if con == [] {
      e := [];
      NothingUnusable(ctx);
      return;
    }
    var types := CredentialTypes(con);
    var lists := CredCandidates(ctx, types, con);
    var s := PickShown(ctx, types, con);
    ListingMembers(lists, ctx.grow, s);
    var product := Listing(lists, ctx.grow);
    var i :| 0 <= i < |product| && product[i] == s;
    e := ExpandOne(ctx, s, con);
    assert Expand(ctx, product, con)[i] == e;
    UsableCombination(ctx, s, types, con);
  }

  lemma NothingUnusable(ctx: Context)
    ensures EntryUsable(ctx, [])
  {
  }

  /** One usable shown candidate per type. */
  lemma PickShown(ctx: Context, types: seq<string>, con: AttributeCon) returns (s: seq<CredCandidate>)
    requires ctx.Valid() && KnownTypes(ctx.conf, types)
    requires forall j :: 0 <= j < |types| ==> ShowsUsable(ctx, j, types[j], con)
    ensures IsChoice(s, Shown(CredCandidates(ctx, types, con), ctx.grow))
    ensures |s| == |types| && forall j :: 0 <= j < |s| ==> UsableCandidate(ctx, types[j], s[j])
  {
    hide StoreInv, TypeCandidates, HasUsable, Spare, UsableCandidate, LastUsable, ShowsUsable;
    var lists := CredCandidates(ctx, types, con);
    s := [];
    for j := 0 to |types|
      invariant |s| == j
      invariant forall k :: 0 <= k < j ==>
        s[k] in Overwritten(lists[k], Spare(ctx.grow, k)) && UsableCandidate(ctx, types[k], s[k])
    {
      var c := PickShownOfType(ctx, j, types[j], con);
      s := s + [c];
    }
  }

  lemma PickShownOfType(ctx: Context, j: nat, id: string, con: AttributeCon) returns (c: CredCandidate)
    requires ctx.Valid() && id in ctx.conf.types && ShowsUsable(ctx, j, id, con)
    ensures c in Overwritten(TypeCandidates(ctx, id, con), Spare(ctx.grow, j)) && UsableCandidate(ctx, id, c)
  {
    hide StoreInv, TypeCandidates, HasUsable, Spare, UsableCandidate;
    var cands := TypeCandidates(ctx, id, con);
    if Spare(ctx.grow, j) {
      c := cands[|cands| - 1];
      assert Repeat(c, |cands|)[0] == c;
    } else {
      c := PickUsableOfType(ctx, id, con);
    }
  }

  lemma PickUsableOfType(ctx: Context, id: string, con: AttributeCon) returns (c: CredCandidate)
    requires ctx.Valid() && id in ctx.conf.types && HasUsable(ctx, id, con)
    ensures c in TypeCandidates(ctx, id, con) && UsableCandidate(ctx, id, c)
  {
    hide MeetsCon, Usable, TypeCandidates, StoreInv, TypeOf;
    var al :| al in Held(ctx.attributes, id) && MeetsCon(ctx.conf, al, id, con) && Usable(ctx, al, id);
    UsableIsCandidate(ctx, id, con, al);
    HeldByHash(ctx, id, al);
    HasMetadata(ctx.conf, al, id);
    c := CredCandidate(id, al.hash);
  }

  lemma HasMetadata(conf: Configuration, al: AttributeList, id: string)
    requires WellFormed(conf, al, id)
    ensures al.ints != []
  {
    hide TypeOf;
  }

  ghost predicate UsableCandidate(ctx: Context, id: string, c: CredCandidate) {
    c.typ == id && c.hash != ""
    && exists al :: ctx.ByHash(c.hash) == Some(al) && al.ints != [] && Usable(ctx, al, id)
  }

  lemma UsableCombination(ctx: Context, s: seq<CredCandidate>, types: seq<string>, con: AttributeCon)
    requires |s| == |types| && forall j :: 0 <= j < |s| ==> UsableCandidate(ctx, types[j], s[j])
    ensures EntryUsable(ctx, ExpandOne(ctx, s, con))
  {
    hide Usable, CandidateUsable, Option_;
    ExpandWalksClientOrder(ctx, s, con);
    var e, order := ExpandOne(ctx, s, con), ClientOrder(Types(s), con);
    forall k | 0 <= k < |e| ensures CandidateUsable(ctx, e[k]) {
      var j :| 0 <= j < |s| && s[j].typ == CredentialTypeOf(order[k].typ) && e[k] == Option_(ctx, s[j], order[k]);
      assert UsableCandidate(ctx, types[j], s[j]);
      var al :| ctx.ByHash(s[j].hash) == Some(al) && al.ints != [] && Usable(ctx, al, types[j]);
      OptionUsable(ctx, s[j], order[k], al);
    }
  }

  /** A usable option of a conjunction shows a usable instance of each of its types. */
  lemma UsableOptionShown(ctx: Context, con: AttributeCon, e: seq<DisclosureCandidate>)
    requires ctx.Valid() && KnownTypes(ctx.conf, CredentialTypes(con))
    requires e in ConOptions(ctx, con) && EntryUsable(ctx, e)
    ensures ConShowsUsable(ctx, con)
  {
    hide ExpandOne, TypeCandidates, StoreInv, EntryUsable, Spare, ShowsUsable, CredentialTypes, Overwritten;
    if con != [] {
      var types := CredentialTypes(con);
      var s := OptionIsShown(ctx, con, e);
      forall j | 0 <= j < |types| ensures ShowsUsable(ctx, j, types[j], con) {
        OverwrittenMember(TypeCandidates(ctx, types[j], con), Spare(ctx.grow, j), s[j]);
        SlotPresent(ctx, s, con, j, e);
        ShownAt(ctx, j, types[j], con, s[j]);
      }
    }
  }

  /** An option of a conjunction is the expansion of one shown candidate per credential type. */
  lemma OptionIsShown(ctx: Context, con: AttributeCon, e: seq<DisclosureCandidate>) returns (s: seq<CredCandidate>)
    requires KnownTypes(ctx.conf, CredentialTypes(con)) && con != [] && e in ConOptions(ctx, con)
    ensures e == ExpandOne(ctx, s, con) && |s| == |CredentialTypes(con)|
    ensures forall j :: 0 <= j < |s| ==>
      s[j] in Overwritten(TypeCandidates(ctx, CredentialTypes(con)[j], con), Spare(ctx.grow, j))
  {
    var lists := CredCandidates(ctx, CredentialTypes(con), con);
    var product := Listing(lists, ctx.grow);
    hide Listing, ExpandOne, TypeCandidates, CredentialTypes, Overwritten, Spare;
    var i :| 0 <= i < |product| && Expand(ctx, product, con)[i] == e;
    s := product[i];
    ListingMembers(lists, ctx.grow, s);
  }

  lemma ShownAt(ctx: Context, j: nat, id: string, con: AttributeCon, c: CredCandidate)
    requires id in ctx.conf.types && c in TypeCandidates(ctx, id, con)
    requires UsableCandidate(ctx, id, c) && HasUsable(ctx, id, con)
    requires Spare(ctx.grow, j) ==> c == TypeCandidates(ctx, id, con)[|TypeCandidates(ctx, id, con)| - 1]
    ensures ShowsUsable(ctx, j, id, con)
  {
    hide TypeCandidates, UsableCandidate, HasUsable, Spare;
  }

  lemma SlotPresent(ctx: Context, s: seq<CredCandidate>, con: AttributeCon, j: nat, e: seq<DisclosureCandidate>)
    requires ctx.Valid() && j < |s| && |s| == |CredentialTypes(con)| && KnownTypes(ctx.conf, CredentialTypes(con))
    requires s[j] in TypeCandidates(ctx, CredentialTypes(con)[j], con)
    requires e == ExpandOne(ctx, s, con) && EntryUsable(ctx, e)
    ensures UsableCandidate(ctx, CredentialTypes(con)[j], s[j]) && HasUsable(ctx, CredentialTypes(con)[j], con)
  {
    hide MeetsCon, Usable, StoreInv, CandidateUsable, Option_, TypeCandidates;
    var id := CredentialTypes(con)[j];
    CandidateType(ctx, id, con, s[j]);
    var ar, k := SlotExpanded(ctx, s, con, j);
    assert CandidateUsable(ctx, e[k]);
    OptionOfAbsent(ctx, s[j], ar);
    var al := PresentCandidate(ctx, id, con, s[j]);
    HasMetadata(ctx.conf, al, id);
    hide WellFormed;
    OptionUsable(ctx, s[j], ar, al);
  }

  lemma CandidateType(ctx: Context, id: string, con: AttributeCon, c: CredCandidate)
    requires id in ctx.conf.types && c in TypeCandidates(ctx, id, con)
    ensures c.typ == id
  {
    hide Matching, AddCredSuggestion;
  }

  lemma OptionOfAbsent(ctx: Context, credopt: CredCandidate, ar: AttributeRequest)
    ensures CandidateUsable(ctx, Option_(ctx, credopt, ar)) ==> credopt.hash != ""
  {
    hide Expiry;
  }

  /** Every credential of a combination contributes at least one attribute of the conjunction. */
  lemma SlotExpanded(ctx: Context, s: seq<CredCandidate>, con: AttributeCon, j: nat)
    returns (ar: AttributeRequest, k: nat)
    requires j < |s| && s[j].typ in CredentialTypes(con)
    ensures CredentialTypeOf(ar.typ) == s[j].typ
    ensures k < |ExpandOne(ctx, s, con)| && ExpandOne(ctx, s, con)[k] == Option_(ctx, s[j], ar)
  {
    hide Option_;
    var own := OfType(con, s[j].typ);
    OfTypeHasType(con, s[j].typ);
    OnlyTypesListed(con, s[j].typ);
    OfTypeNonEmpty(con, s[j].typ);
    ar := own[0];
    k := |ExpandOne(ctx, s[..j], con)|;
    ExpandPrefix(ctx, s, con, j + 1);
    assert s[..j + 1][..j] == s[..j];
    assert ExpandOne(ctx, s[..j + 1], con) == ExpandOne(ctx, s[..j], con) + Options(ctx, s[j], own);
  }

  lemma {:induction false} OfTypeNonEmpty(con: AttributeCon, ct: string)
    requires exists i :: 0 <= i < |con| && TypeAt(con, i) == ct
    ensures OfType(con, ct) != []
  {
    var n := |con| - 1;
    if TypeAt(con, n) != ct {
      var i :| 0 <= i < |con| && TypeAt(con, i) == ct;
      assert TypeAt(con[..n], i) == ct;
      OfTypeNonEmpty(con[..n], ct);
    }
  }

  lemma {:induction false} ExpandPrefix(ctx: Context, s: seq<CredCandidate>, con: AttributeCon, j: nat)
    requires j <= |s|
    ensures ExpandOne(ctx, s[..j], con) <= ExpandOne(ctx, s, con)
    decreases |s|
  {
    hide Option_;
    if j == |s| {
      assert s[..j] == s;
    } else {
      ExpandPrefix(ctx, s[..|s| - 1], con, j);
      assert s[..|s| - 1][..j] == s[..j];
    }
  }

  lemma ShownIsSatisfiable(ctx: Context, con: AttributeCon)
    requires ctx.Valid() && KnownTypes(ctx.conf, CredentialTypes(con)) && ConShowsUsable(ctx, con)
    ensures ConSatisfiable(ctx, con)
  {
    hide StoreInv, LastUsable, HasUsable, CredentialTypes, Spare;
    forall j | 0 <= j < |CredentialTypes(con)| ensures HasUsable(ctx, CredentialTypes(con)[j], con) {
      assert ShowsUsable(ctx, j, CredentialTypes(con)[j], con);
      if LastUsable(ctx, CredentialTypes(con)[j], con) {
        LastIsUsable(ctx, CredentialTypes(con)[j], con);
      }
    }
  }

  /** A disjunction lists an option made only of held and usable credentials if and only if some conjunction
      shows a usable instance of each of its types. Then it is reported satisfiable; and if no list of
      candidates is overwritten, it is reported satisfiable only then. */
  lemma SatisfiableIffUsableOption(ctx: Context, discon: AttributeDisCon)
    requires ctx.Valid() && KnownDisCon(ctx.conf, discon)
    ensures HasUsableOption(ctx, DisConOptions(ctx, discon)) <==> DisConShowsUsable(ctx, discon)
    ensures HasUsableOption(ctx, DisConOptions(ctx, discon)) ==> DisConSatisfiable(ctx, discon)
    ensures DisConUnshared(ctx, discon) ==>
              (DisConSatisfiable(ctx, discon) <==> HasUsableOption(ctx, DisConOptions(ctx, discon)))
  {
    hide ConSatisfiable, ConOptions, StoreInv, EntryUsable, DisConOptions, ConShowsUsable, ConUnshared;
    if i :| 0 <= i < |discon| && ConShowsUsable(ctx, discon[i]) {
      var e := ShownConHasOption(ctx, discon[i]);
      DisConOptionsMember(ctx, discon, e);
    }
    if e :| e in DisConOptions(ctx, discon) && EntryUsable(ctx, e) {
      DisConOptionsMember(ctx, discon, e);
      var i :| 0 <= i < |discon| && e in ConOptions(ctx, discon[i]);
      UsableOptionShown(ctx, discon[i], e);
      ShownIsSatisfiable(ctx, discon[i]);
    }
    if DisConUnshared(ctx, discon) {
      if i :| 0 <= i < |discon| && ConSatisfiable(ctx, discon[i]) {
        UnsharedShowsUsable(ctx, discon[i]);
      }
    }
  }

  // ---------------------------------------------------------------- what a listed option promises

  /** A chosen option names, position by position, the attributes of a conjunction, each in a held
      credential of its type that meets the request at that position. */
  ghost predicate EntryMeetsCon(ctx: Context, con: AttributeCon, e: seq<DisclosureCandidate>) {
    && |e| == |con|
    && forall k :: 0 <= k < |con| ==> PositionMeets(ctx, con[k], e[k])
  }

  ghost predicate PositionMeets(ctx: Context, ar: AttributeRequest, d: DisclosureCandidate) {
    && d.typ == ar.typ && d.value == ar.value
    && exists al :: ctx.ByHash(d.hash) == Some(al) && WellFormed(ctx.conf, al, CredentialTypeOf(ar.typ))
                    && MeetsRequest(ctx.conf, al, ar)
  }

  /** An option of a conjunction is the expansion of one candidate per credential type. */
  lemma OptionIsExpansion(ctx: Context, con: AttributeCon, e: seq<DisclosureCandidate>) returns (s: seq<CredCandidate>)
    requires KnownTypes(ctx.conf, CredentialTypes(con)) && con != [] && e in ConOptions(ctx, con)
    ensures e == ExpandOne(ctx, s, con) && Types(s) == CredentialTypes(con)
    ensures forall j :: 0 <= j < |s| ==> s[j] in TypeCandidates(ctx, CredentialTypes(con)[j], con)
  {
    hide TypeCandidates, ExpandOne;
    var types := CredentialTypes(con);
    var lists := CredCandidates(ctx, types, con);
    var product := Listing(lists, ctx.grow);
    hide Listing;
    var i :| 0 <= i < |product| && Expand(ctx, product, con)[i] == e;
    s := product[i];
    ListingMembers(lists, ctx.grow, s);
    forall j | 0 <= j < |s| ensures s[j].typ == types[j] && s[j] in TypeCandidates(ctx, types[j], con) {
      assert s[j] in lists[j];
      CandidateType(ctx, types[j], con, s[j]);
    }
    assert Types(s) == types;
  }

  /** Every fully present option of an adjacent conjunction meets it in the order of the request. */
  lemma ListedOptionMeetsCon(ctx: Context, con: AttributeCon, e: seq<DisclosureCandidate>)
    requires ctx.Valid() && KnownTypes(ctx.conf, CredentialTypes(con)) && Adjacent(con)
    requires e in ConOptions(ctx, con)
    requires forall k :: 0 <= k < |e| ==> e[k].hash != ""
    ensures EntryMeetsCon(ctx, con, e)
  {
    if con != [] {
      hide StoreInv, Option_, TypeCandidates, ConOptions, ExpandOne, Adjacent, PositionMeets;
      var s := OptionIsExpansion(ctx, con, e);
      ClientOrderIsRequestOrder(con);
      ExpandWalksClientOrder(ctx, s, con);
      forall k | 0 <= k < |con| ensures PositionMeets(ctx, con[k], e[k]) {
        var j :| 0 <= j < |s| && s[j].typ == CredentialTypeOf(con[k].typ) && e[k] == Option_(ctx, s[j], con[k]);
        assert Types(s)[j] == s[j].typ;
        OptionPresent(ctx, con, k, s[j], e[k]);
      }
    }
  }

  lemma OptionPresent(ctx: Context, con: AttributeCon, k: nat, c: CredCandidate, d: DisclosureCandidate)
    requires ctx.Valid() && k < |con| && c.typ in ctx.conf.types && c in TypeCandidates(ctx, c.typ, con)
    requires c.typ == CredentialTypeOf(con[k].typ) && d == Option_(ctx, c, con[k]) && d.hash != ""
    ensures PositionMeets(ctx, con[k], d)
  {
    hide MeetsRequest, StoreInv, Option_, TypeCandidates, WellFormed;
    OptionFields(ctx, c, con[k]);
    var al := PresentCandidate(ctx, c.typ, con, c);
    assert TypeAt(con, k) == c.typ;
  }

  lemma OptionFields(ctx: Context, credopt: CredCandidate, ar: AttributeRequest)
    ensures Option_(ctx, credopt, ar).typ == ar.typ && Option_(ctx, credopt, ar).hash == credopt.hash
    ensures Option_(ctx, credopt, ar).value == ar.value
  {
    hide Expiry;
  }

  predicate HasFlags(d: DisclosureCandidate) { d.expired || d.revoked || d.notRevokable }

  /** The flags shown for a present attribute say why its credential could not be used: it is revoked, it cannot
      prove that it is not although updates to prove it against were sent along, or it has expired. */
  ghost predicate FlagsTell(ctx: Context, d: DisclosureCandidate) {
    && ctx.ByHash(d.hash).Some? && ctx.ByHash(d.hash).value.ints != []
    && var al, ct := ctx.ByHash(d.hash).value, CredentialTypeOf(d.typ);
    && (d.revoked <==> al.revoked)
    && (d.notRevokable <==>
          !al.hasWitness && ct in ctx.request.revocation && ctx.request.revocation[ct].updates != map[])
    && (d.expired <==> Expiry(al.ints[0]) <= ctx.now)
  }

  lemma OptionFlags(ctx: Context, con: AttributeCon, c: CredCandidate, ar: AttributeRequest)
    requires ctx.Valid() && c.typ in ctx.conf.types && c in TypeCandidates(ctx, c.typ, con)
    requires c.typ == CredentialTypeOf(ar.typ) && c.hash != ""
    ensures FlagsTell(ctx, Option_(ctx, c, ar))
  {
    hide MeetsCon, StoreInv, TypeCandidates, Expiry, WellFormed;
    var al := PresentCandidate(ctx, c.typ, con, c);
    HasMetadata(ctx.conf, al, c.typ);
    if ctx.request.revocation.Keys != {} && c.typ in ctx.request.revocation {
      var updates := ctx.request.revocation[c.typ].updates;
      assert |updates| > 0 <==> updates != map[];
    }
  }

  lemma ListedFlags(ctx: Context, con: AttributeCon, e: seq<DisclosureCandidate>, k: nat)
    requires ctx.Valid() && KnownTypes(ctx.conf, CredentialTypes(con)) && e in ConOptions(ctx, con) && k < |e|
    ensures if e[k].hash == "" then !HasFlags(e[k]) else FlagsTell(ctx, e[k])
  {
    hide StoreInv, Option_, TypeCandidates, ExpandOne, FlagsTell, HasFlags;
    var s := OptionIsExpansion(ctx, con, e);
    ExpandWalksClientOrder(ctx, s, con);
    var ar := ClientOrder(Types(s), con)[k];
    var j :| 0 <= j < |s| && s[j].typ == CredentialTypeOf(ar.typ) && e[k] == Option_(ctx, s[j], ar);
    assert Types(s)[j] == s[j].typ;
    OptionFields(ctx, s[j], ar);
    if s[j].hash == "" {
      SuggestionUnflagged(ctx, s[j], ar);
    } else {
      OptionFlags(ctx, con, s[j], ar);
    }
  }

  lemma SuggestionUnflagged(ctx: Context, c: CredCandidate, ar: AttributeRequest)
    requires c.hash == ""
    ensures !HasFlags(Option_(ctx, c, ar))
  {
    hide Expiry;
  }

  // ---------------------------------------------------------------- every combination exactly once

  predicate DistinctHashes(list: seq<AttributeList>) {
    forall i, j :: 0 <= i < j < |list| ==> list[i].hash != list[j].hash
  }

  lemma HeldHashesDiffer(ctx: Context, id: string)
    requires ctx.Valid()
    ensures DistinctHashes(Held(ctx.attributes, id))
    ensures forall i :: 0 <= i < |Held(ctx.attributes, id)| ==> Held(ctx.attributes, id)[i].hash != ""
  {
    var list := Held(ctx.attributes, id);
    forall i | 0 <= i < |list| ensures list[i].hash != "" && IndexedAt(ctx.attributes, ctx.lookup, id, i) {
      assert WellFormed(ctx.conf, ctx.attributes[id][i], id);
    }
  }

  lemma {:induction false} MatchingHashesDiffer(conf: Configuration, list: seq<AttributeList>, id: string,
                                                con: AttributeCon)
    requires DistinctHashes(list)
    ensures DistinctHashes(Matching(conf, list, id, con))
  {
    hide MeetsCon;
    if list != [] {
      var n := |list| - 1;
      MatchingHashesDiffer(conf, list[..n], id, con);
      MatchingMembers(conf, list[..n], id, con);
      var r := Matching(conf, list[..n], id, con);
      forall i | 0 <= i < |r| ensures r[i].hash != list[n].hash {
        assert r[i] in list[..n];
      }
    }
  }

  /** No instance is offered twice for a credential type. */
  lemma TypeCandidatesDistinct(ctx: Context, id: string, con: AttributeCon)
    requires ctx.Valid() && id in ctx.conf.types
    ensures Distinct(TypeCandidates(ctx, id, con))
  {
    HeldHashesDiffer(ctx, id);
    var list := Held(ctx.attributes, id);
    MatchingHashesDiffer(ctx.conf, list, id, con);
    MatchingMembers(ctx.conf, list, id, con);
    hide StoreInv, MeetsCon, AddCredSuggestion, FixedAttrValue, Matching;
    var m := Matching(ctx.conf, list, id, con);
    var cands := TypeCandidates(ctx, id, con);
    forall i, j | 0 <= i < j < |cands| ensures cands[i] != cands[j] {
      assert m[i] in list;
    }
  }

  /** Different combinations of credentials of the same types expand to different entries. */
  lemma {:induction false} ExpandInjective(ctx: Context, s: seq<CredCandidate>, t: seq<CredCandidate>,
                                           con: AttributeCon)
    requires Types(s) == Types(t) && (forall j :: 0 <= j < |s| ==> s[j].typ in CredentialTypes(con))
    requires ExpandOne(ctx, s, con) == ExpandOne(ctx, t, con)
    ensures s == t
  {
    hide Option_, OfType, CredentialTypes;
    if s != [] {
      var n := |s| - 1;
      assert Types(s)[n] == s[n].typ && Types(t)[n] == t[n].typ;
      assert Types(s[..n]) == Types(s)[..n] && Types(t[..n]) == Types(t)[..n];
      var own := OfType(con, s[n].typ);
      var a, b := ExpandOne(ctx, s[..n], con), ExpandOne(ctx, t[..n], con);
      var x, y := Options(ctx, s[n], own), Options(ctx, t[n], own);
      assert a + x == b + y;
      hide ExpandOne, Types;
      SplitEqual(a, x, b, y);
      SameOptions(ctx, s[n], t[n], con);
      ExpandInjective(ctx, s[..n], t[..n], con);
      assert s == s[..n] + [s[n]] && t == t[..n] + [t[n]];
    }
  }

  lemma SameOptions(ctx: Context, c: CredCandidate, d: CredCandidate, con: AttributeCon)
    requires c.typ == d.typ && c.typ in CredentialTypes(con)
    requires Options(ctx, c, OfType(con, c.typ)) == Options(ctx, d, OfType(con, c.typ))
    ensures c == d
  {
    hide Option_;
    var own := OfType(con, c.typ);
    OnlyTypesListed(con, c.typ);
    OfTypeNonEmpty(con, c.typ);
    assert Options(ctx, c, own)[0] == Options(ctx, d, own)[0];
    OptionFields(ctx, c, own[0]);
    OptionFields(ctx, d, own[0]);
  }

  lemma SplitEqual<T>(a: seq<T>, x: seq<T>, b: seq<T>, y: seq<T>)
    requires a + x == b + y && |x| == |y|
    ensures a == b && x == y
  {
    assert a == (a + x)[..|a|] && b == (b + y)[..|b|];
    assert x == (a + x)[|a|..] && y == (b + y)[|b|..];
  }

  /** The expansions of a list of different combinations are different. */
  lemma ExpandDistinct(ctx: Context, types: seq<string>, con: AttributeCon, product: seq<seq<CredCandidate>>)
    requires KnownTypes(ctx.conf, types) && types == CredentialTypes(con) && Distinct(product)
    requires forall s <- product :: IsChoice(s, CredCandidates(ctx, types, con))
    ensures Distinct(Expand(ctx, product, con))
  {
    hide CredCandidates, ExpandOne, CredentialTypes, IsChoice;
    var options := Expand(ctx, product, con);
    forall i, j | 0 <= i < j < |options| ensures options[i] != options[j] {
      ChoiceTypes(ctx, types, con, product[i]);
      ChoiceTypes(ctx, types, con, product[j]);
      if ExpandOne(ctx, product[i], con) == ExpandOne(ctx, product[j], con) {
        ExpandInjective(ctx, product[i], product[j], con);
      }
    }
  }

  lemma ExpandMembers(ctx: Context, con: AttributeCon, product: seq<seq<CredCandidate>>, e: seq<DisclosureCandidate>)
    ensures e in Expand(ctx, product, con) <==> exists s <- product :: e == ExpandOne(ctx, s, con)
  {
    hide ExpandOne;
    var options := Expand(ctx, product, con);
    if s :| s in product && e == ExpandOne(ctx, s, con) {
      var i :| 0 <= i < |product| && product[i] == s;
      assert options[i] == e;
    }
  }

  /** An entry is listed once if it is the expansion of a listed combination, and then of no other. */
  lemma ExpandReflects(ctx: Context, con: AttributeCon, product: seq<seq<CredCandidate>>, s: seq<CredCandidate>)
    requires KnownTypes(ctx.conf, CredentialTypes(con))
    requires IsChoice(s, CredCandidates(ctx, CredentialTypes(con), con))
    requires forall p <- product :: IsChoice(p, CredCandidates(ctx, CredentialTypes(con), con))
    ensures ExpandOne(ctx, s, con) in Expand(ctx, product, con) <==> s in product
  {
    hide CredCandidates, ExpandOne, CredentialTypes, IsChoice, Expand;
    ExpandMembers(ctx, con, product, ExpandOne(ctx, s, con));
    if p :| p in product && ExpandOne(ctx, s, con) == ExpandOne(ctx, p, con) {
      ChoiceTypes(ctx, CredentialTypes(con), con, p);
      ChoiceTypes(ctx, CredentialTypes(con), con, s);
      ExpandInjective(ctx, s, p, con);
    }
  }

  lemma ExpandRepeats(ctx: Context, con: AttributeCon, product: seq<seq<CredCandidate>>)
    ensures Distinct(Expand(ctx, product, con)) ==> Distinct(product)
  {
    hide ExpandOne;
    var options := Expand(ctx, product, con);
    if !Distinct(product) {
      var i, j :| 0 <= i < j < |product| && product[i] == product[j];
      assert options[i] == options[j];
    }
  }

  /** The options listed for a conjunction are expansions of ways to take one candidate per credential type;
      as many as there are such ways, but all of them, and each exactly once, if and only if no list of
      candidates is overwritten. */
  lemma ConOptionsExact(ctx: Context, con: AttributeCon)
    requires ctx.Valid() && con != [] && KnownTypes(ctx.conf, CredentialTypes(con))
    ensures Distinct(ConOptions(ctx, con)) <==> ConUnshared(ctx, con)
    ensures (forall s :: IsChoice(s, CredCandidates(ctx, CredentialTypes(con), con)) ==>
                           ExpandOne(ctx, s, con) in ConOptions(ctx, con)) <==> ConUnshared(ctx, con)
    ensures forall e <- ConOptions(ctx, con) ::
              exists s :: IsChoice(s, CredCandidates(ctx, CredentialTypes(con), con)) && e == ExpandOne(ctx, s, con)
    ensures |ConOptions(ctx, con)| == ProductOfSizes(CredCandidates(ctx, CredentialTypes(con), con))
  {
    var types := CredentialTypes(con);
    var lists := CredCandidates(ctx, types, con);
    hide StoreInv, TypeCandidates, ExpandOne, CredentialTypes;
    forall j | 0 <= j < |lists| ensures Distinct(lists[j]) {
      TypeCandidatesDistinct(ctx, types[j], con);
    }
    ListingExact(lists, ctx.grow);
    var product := Listing(lists, ctx.grow);
    hide CredCandidates, IsChoice, Listing, Distinct, Expand, Unshared;
    forall s <- product ensures IsChoice(s, lists) {
      ListingMembers(lists, ctx.grow, s);
    }
    ExpandRepeats(ctx, con, product);
    if Distinct(product) {
      ExpandDistinct(ctx, types, con, product);
    }
    forall s | IsChoice(s, lists) ensures ExpandOne(ctx, s, con) in ConOptions(ctx, con) <==> s in product {
      ExpandReflects(ctx, con, product, s);
    }
    forall e <- ConOptions(ctx, con) ensures exists s :: IsChoice(s, lists) && e == ExpandOne(ctx, s, con) {
      ExpandMembers(ctx, con, product, e);
    }
  }

  /** A choice of candidates has the given types. */
  lemma ChoiceTypes(ctx: Context, types: seq<string>, con: AttributeCon, s: seq<CredCandidate>)
    requires KnownTypes(ctx.conf, types) && IsChoice(s, CredCandidates(ctx, types, con))
    ensures Types(s) == types && forall j :: 0 <= j < |s| ==> s[j].typ in types
  {
    hide TypeCandidates;
    forall j | 0 <= j < |s| ensures s[j].typ == types[j] {
      CandidateType(ctx, types[j], con, s[j]);
    }
  }
}
