/** requests.go: attribute requests, conjunctions, and the adjacency rule of inner conjunctions. */
module Requests {
  import opened Outcomes
  import opened Codec
  import opened Identifiers

  datatype AttributeRequest = AttributeRequest(typ: string, value: Option<bytes>, notNull: bool)

  type AttributeCon = seq<AttributeRequest>
  type AttributeDisCon = seq<AttributeCon>
  type AttributeConDisCon = seq<AttributeDisCon>

  /** NonRevocationRequest: per public key counter, the index of the last event of the update sent, and
      the tolerance in seconds (0 if unset). */
  datatype NonRevocationRequest = NonRevocationRequest(updates: map<nat, nat>, tolerance: nat)

  /** The parts of a session request that disclosure depends on; `issues` are the credential types
      of an issuance request. */
  datatype SessionRequest = SessionRequest(
    disclose: AttributeConDisCon,
    skipExpiry: seq<string>,
    revocation: map<string, NonRevocationRequest>,
    issues: seq<string>)

  /** BaseRequest.RequestsRevocation */
  predicate RequestsRevocation(request: SessionRequest, ct: string) {
    ct in request.revocation && |request.revocation[ct].updates| > 0
  }

  /** AttributeRequest.Satisfy */
  predicate RequestSatisfied(ar: AttributeRequest, typ: string, val: Option<bytes>) {
    ar.typ == typ && (!ar.notNull || val.Some?) && (ar.value.None? || val == ar.value)
  }

  function TypeAt(con: AttributeCon, i: nat): string
    requires i < |con|
  {
    CredentialTypeOf(con[i].typ)
  }

  // ---------------------------------------------------------------- adjacency

  /** Attributes of one credential type are adjacent. */
  ghost predicate Adjacent(con: AttributeCon) {
    forall i, k, j :: 0 <= i < k < j < |con| && TypeAt(con, i) == TypeAt(con, j) ==> TypeAt(con, k) == TypeAt(con, i)
  }

  ghost predicate WellFormedTypes(con: AttributeCon) {
    forall i :: 0 <= i < |con| ==> PartsCount(con[i].typ) == 2 || PartsCount(con[i].typ) == 3
  }

  /** AttributeCon.Validate accepts exactly the well-formed conjunctions in which the attributes of
      each credential type are adjacent. */
  method ValidateCon(con: AttributeCon) returns (ok: bool)
    ensures ok <==> WellFormedTypes(con) && Adjacent(con)
  {
    hide PartsCount, CredentialTypeOf;
    var credtypes: set<string> := {};
    var last := "";
    for i := 0 to |con|
      invariant WellFormedTypes(con[..i]) && Adjacent(con[..i])
      invariant credtypes == set k | 0 <= k < i :: TypeAt(con, k)
      invariant i > 0 ==> last == TypeAt(con, i - 1)
    {
      var count := PartsCount(con[i].typ);
      if count != 3 && count != 2 {
        return false;
      }
      var typ := CredentialTypeOf(con[i].typ);
      assert typ == TypeAt(con, i);
      if typ in credtypes && last != typ {
        assert TypeAt(con, i - 1) == last;
        return false;
      }
      AdjacentStep(con, i);
      last := typ;
      credtypes := credtypes + {typ};
    }
    assert con[..|con|] == con;
    return true;
  }

  lemma AdjacentStep(con: AttributeCon, i: nat)
    requires i < |con| && Adjacent(con[..i])
    requires (forall k :: 0 <= k < i ==> TypeAt(con, k) != TypeAt(con, i))
      || (i > 0 && TypeAt(con, i - 1) == TypeAt(con, i))
    ensures Adjacent(con[..i + 1])
  {
    var p := con[..i];
    var q := con[..i + 1];
    forall a, k, j | 0 <= a < k < j < |q| && TypeAt(q, a) == TypeAt(q, j) ensures TypeAt(q, k) == TypeAt(q, a) {
      assert TypeAt(q, a) == TypeAt(con, a) == TypeAt(p, a) && TypeAt(q, k) == TypeAt(con, k) == TypeAt(p, k);
      if j < i {
        assert TypeAt(q, j) == TypeAt(p, j);
      } else {
        assert TypeAt(q, j) == TypeAt(con, i);
        assert TypeAt(p, i - 1) == TypeAt(con, i - 1);
      }
    }
  }

  /** AttributeCon.CredentialTypes: the credential types, adjacent repetitions dropped. */
  function CredentialTypes(con: AttributeCon): (r: seq<string>)
    ensures con != [] ==> r != [] && r[|r| - 1] == TypeAt(con, |con| - 1)
    ensures |r| <= |con|
  {
    if con == [] then [] else
      var r := CredentialTypes(con[..|con| - 1]);
      var typ := TypeAt(con, |con| - 1);
      if r == [] || r[|r| - 1] != typ then r + [typ] else r
  }

  method ComputeCredentialTypes(con: AttributeCon) returns (result: seq<string>)
    ensures result == CredentialTypes(con)
  {
    result := [];
    for i := 0 to |con|
      invariant result == CredentialTypes(con[..i])
    {
      assert con[..i + 1][..i] == con[..i];
      var typ := CredentialTypeOf(con[i].typ);
      if |result| == 0 || result[|result| - 1] != typ {
        result := result + [typ];
      }
    }
    assert con[..|con|] == con;
  }

  /** The requests of a conjunction that concern one credential type, in order. */
  function OfType(con: AttributeCon, ct: string): AttributeCon {
    if con == [] then [] else
      var r := OfType(con[..|con| - 1], ct);
      if TypeAt(con, |con| - 1) == ct then r + [con[|con| - 1]] else r
  }

  /** The order in which a client walks a conjunction: per credential type, the requests of that type. */
  function ClientOrder(types: seq<string>, con: AttributeCon): AttributeCon {
    if types == [] then [] else
      ClientOrder(types[..|types| - 1], con) + OfType(con, types[|types| - 1])
  }

  function Occurrences(types: seq<string>, ct: string): nat {
    if types == [] then 0 else
      Occurrences(types[..|types| - 1], ct) + (if types[|types| - 1] == ct then 1 else 0)
  }

  lemma {:induction false} OccursIfMember(types: seq<string>, ct: string)
    ensures ct in types <==> Occurrences(types, ct) > 0
  {
    if types != [] {
      OccursIfMember(types[..|types| - 1], ct);
      assert types == types[..|types| - 1] + [types[|types| - 1]];
    }
  }

  lemma {:induction false} EveryTypeListed(con: AttributeCon, i: nat)
    requires i < |con|
    ensures TypeAt(con, i) in CredentialTypes(con)
  {
    if i < |con| - 1 {
      EveryTypeListed(con[..|con| - 1], i);
    }
  }

  /** Only types of the conjunction are listed. */
  lemma {:induction false} OnlyTypesListed(con: AttributeCon, ct: string)
    requires ct in CredentialTypes(con)
    ensures exists i :: 0 <= i < |con| && TypeAt(con, i) == ct
  {
    var p := con[..|con| - 1];
    if ct in CredentialTypes(p) {
      OnlyTypesListed(p, ct);
      var i :| 0 <= i < |p| && TypeAt(p, i) == ct;
      assert TypeAt(con, i) == ct;
    } else {
      assert TypeAt(con, |con| - 1) == ct;
    }
  }

  /** In an adjacent conjunction no type is listed twice. */
  lemma {:induction false} AdjacentTypesDistinct(con: AttributeCon, ct: string)
    requires Adjacent(con)
    ensures Occurrences(CredentialTypes(con), ct) <= 1
  {
    if con != [] {
      var p := con[..|con| - 1];
      AdjacentPrefix(con);
      AdjacentTypesDistinct(p, ct);
      var typ := TypeAt(con, |con| - 1);
      var r := CredentialTypes(p);
      if (r == [] || r[|r| - 1] != typ) && typ == ct {
        assert forall i :: 0 <= i < |p| ==> TypeAt(p, i) == TypeAt(con, i);
        if ct in r {
          OnlyTypesListed(p, ct);
          assert false;
        }
        OccursIfMember(r, ct);
        assert (r + [typ])[..|r|] == r;
      }
    }
  }

  lemma AdjacentPrefix(con: AttributeCon)
    requires con != [] && Adjacent(con)
    ensures Adjacent(con[..|con| - 1])
  {
    var p := con[..|con| - 1];
    forall i, k, j | 0 <= i < k < j < |p| && TypeAt(p, i) == TypeAt(p, j) ensures TypeAt(p, k) == TypeAt(p, i) {
      assert TypeAt(con, i) == TypeAt(p, i) && TypeAt(con, j) == TypeAt(p, j) && TypeAt(con, k) == TypeAt(p, k);
    }
  }

  /** The step that breaks adjacency: the last type occurred before, but not directly before. */
  lemma RepeatedEarlier(con: AttributeCon) returns (i: nat)
    requires con != [] && !Adjacent(con) && Adjacent(con[..|con| - 1])
    ensures var p := con[..|con| - 1];
            i < |p| && TypeAt(p, i) == TypeAt(con, i) == TypeAt(con, |p|)
            && TypeAt(p, |p| - 1) != TypeAt(con, |p|)
  {
    var n := |con| - 1;
    assert con[..n + 1] == con;
    if forall k :: 0 <= k < n ==> TypeAt(con, k) != TypeAt(con, n) {
      AdjacentStep(con, n);
      assert false;
    }
    i :| 0 <= i < n && TypeAt(con, i) == TypeAt(con, n);
    if TypeAt(con, n - 1) == TypeAt(con, n) {
      AdjacentStep(con, n);
      assert false;
    }
  }

  /** A type that is not adjacent to itself is listed twice. */
  lemma {:induction false} NotAdjacentRepeats(con: AttributeCon) returns (i: nat)
    requires !Adjacent(con)
    ensures i < |con| && Occurrences(CredentialTypes(con), TypeAt(con, i)) >= 2
  {
    var n := |con| - 1;
    var p := con[..n];
    var types := CredentialTypes(p);
    var typ := TypeAt(con, n);
    assert (types + [typ])[..|types|] == types;
    if !Adjacent(p) {
      i := NotAdjacentRepeats(p);
      assert TypeAt(con, i) == TypeAt(p, i);
    } else {
      i := RepeatedEarlier(con);
      EveryTypeListed(p, i);
      OccursIfMember(types, typ);
    }
  }

  lemma {:induction false} ClientOrderAppend(types: seq<string>, p: AttributeCon, a: AttributeRequest)
    ensures |ClientOrder(types, p + [a])| == |ClientOrder(types, p)| + Occurrences(types, CredentialTypeOf(a.typ))
    ensures CredentialTypeOf(a.typ) !in types ==> ClientOrder(types, p + [a]) == ClientOrder(types, p)
  {
    if types != [] {
      ClientOrderAppend(types[..|types| - 1], p, a);
      assert (p + [a])[..|p|] == p;
    }
  }

  /** The client's order has at least one entry per request, and more when a type is listed twice. */
  lemma {:induction false} ClientOrderLength(types: seq<string>, con: AttributeCon)
    requires forall i :: 0 <= i < |con| ==> Occurrences(types, TypeAt(con, i)) >= 1
    ensures |ClientOrder(types, con)| >= |con|
    ensures (exists i :: 0 <= i < |con| && Occurrences(types, TypeAt(con, i)) >= 2) ==>
      |ClientOrder(types, con)| > |con|
  {
    if con == [] {
    } else {
      var p, a := con[..|con| - 1], con[|con| - 1];
      assert p + [a] == con;
      forall i | 0 <= i < |p| ensures Occurrences(types, TypeAt(p, i)) >= 1 {
        assert TypeAt(p, i) == TypeAt(con, i);
      }
      ClientOrderLength(types, p);
      ClientOrderAppend(types, p, a);
      if i :| 0 <= i < |con| && Occurrences(types, TypeAt(con, i)) >= 2 {
        if i < |p| {
          assert TypeAt(p, i) == TypeAt(con, i);
        }
      }
    }
  }

  lemma {:induction false} OrderIfAdjacent(con: AttributeCon)
    requires Adjacent(con)
    ensures ClientOrder(CredentialTypes(con), con) == con
  {
    if con != [] {
      var p, a := con[..|con| - 1], con[|con| - 1];
      assert p + [a] == con;
      AdjacentPrefix(con);
      OrderIfAdjacent(p);
      var r := CredentialTypes(p);
      var typ := TypeAt(con, |con| - 1);
      AdjacentTypesDistinct(con, typ);
      OccursIfMember(r, typ);
      if r == [] || r[|r| - 1] != typ {
        assert (r + [typ])[..|r|] == r;
        assert typ !in r;
        ClientOrderAppend(r, p, a);
        NothingOfType(p, typ);
        assert OfType(con, typ) == [a];
      } else {
        var init := r[..|r| - 1];
        assert r == init + [typ];
        OccursIfMember(init, typ);
        ClientOrderAppend(init, p, a);
        assert OfType(con, typ) == OfType(p, typ) + [a];
      }
    }
  }

  lemma {:induction false} NothingOfType(con: AttributeCon, ct: string)
    requires ct !in CredentialTypes(con)
    ensures OfType(con, ct) == []
  {
    if con != [] {
      NothingOfType(con[..|con| - 1], ct);
    }
  }

  /** The link between client and verifier: walking a conjunction per credential type gives back the
      order of the request if and only if the adjacency rule of AttributeCon.Validate holds. */
  lemma ClientOrderIsRequestOrder(con: AttributeCon)
    ensures ClientOrder(CredentialTypes(con), con) == con <==> Adjacent(con)
  {
    if Adjacent(con) {
      OrderIfAdjacent(con);
    } else {
      var j := NotAdjacentRepeats(con);
      forall i | 0 <= i < |con| ensures Occurrences(CredentialTypes(con), TypeAt(con, i)) >= 1 {
        EveryTypeListed(con, i);
        OccursIfMember(CredentialTypes(con), TypeAt(con, i));
      }
      ClientOrderLength(CredentialTypes(con), con);
    }
  }
}
