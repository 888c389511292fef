/** irmaclient/client.go: from the user's choice to disclosure proofs with positional indices, and
    the theorem that the verifier accepts them. */
module Disclose {
  import opened Outcomes
  import opened Codec
  import opened Identifiers
  import opened Scheme
  import opened Requests
  import opened CredentialStore
  import opened Candidates
  import opened Verify

  /** AttributeIdentifier: an attribute of a credential instance. */
  datatype AttributeId = AttributeId(typ: string, hash: string)

  datatype CredentialId = CredentialId(typ: string, hash: string)

  type Choice = seq<seq<AttributeId>>

  /** A credential and the positions of its attributes that are to be disclosed. */
  datatype AttributeGroup = AttributeGroup(cred: CredentialId, attrs: seq<nat>)

  function CredOf(a: AttributeId): CredentialId { CredentialId(CredentialTypeOf(a.typ), a.hash) }

  /** An identifier of a whole known credential, or of an attribute of one. */
  predicate KnownAttribute(conf: Configuration, typ: string) {
    && CredentialTypeOf(typ) in conf.types
    && (IsCredential(typ) || IndexOf(conf, CredentialTypeOf(typ), typ).Some?)
  }

  /** Known are the types themselves, and whatever is written as a known type, a dot, and the name of one of its
      attributes. */
  lemma KnownIff(conf: Configuration, typ: string)
    requires PartsCount(typ) > 0
    ensures KnownAttribute(conf, typ) <==>
            if IsCredential(typ) then typ in conf.types
            else exists ct <- conf.types :: CredentialTypeOf(typ) == ct
                   && exists a <- conf.types[ct].attributes :: typ == AttributeIdOf(ct, a.id)
  {
    hide PartsCount;
    if !IsCredential(typ) && CredentialTypeOf(typ) in conf.types {
      SplitJoin(typ);
      var ct := CredentialTypeOf(typ);
      var attrs := conf.types[ct].attributes;
      var i := IndexOf(conf, ct, typ);
      if i.Some? {
        assert attrs[i.value] in attrs;
      }
      if a :| a in attrs && typ == AttributeIdOf(ct, a.id) {
        JoinSplit(ct, a.id, typ);
        var k :| 0 <= k < |attrs| && attrs[k] == a;
      }
    }
  }

  lemma JoinSplit(ct: string, name: string, typ: string)
    requires typ == AttributeIdOf(ct, name) && Parent(typ) == ct && PartsCount(typ) > 0
    ensures Name(typ) == name
  {
    SplitJoin(typ);
    assert AttributeIdOf(ct, Name(typ)) == AttributeIdOf(ct, name);
    assert Name(typ) == typ[|ct| + 1..] && name == typ[|ct| + 1..];
  }

  /** The position of an attribute in a proof: 0 is the secret key and 1 the metadata. */
  function PositionOf(conf: Configuration, typ: string): nat
    requires KnownAttribute(conf, typ)
  {
    if IsCredential(typ) then 1 else IndexOf(conf, CredentialTypeOf(typ), typ).value + 2
  }

  // ---------------------------------------------------------------- grouping per credential

  ghost predicate PointsTo(conf: Configuration, groups: seq<AttributeGroup>, a: AttributeId, x: AttributeIndex) {
    && KnownAttribute(conf, a.typ)
    && 0 <= x.cred < |groups| && groups[x.cred].cred == CredOf(a)
    && x.attr == PositionOf(conf, a.typ) && x.attr in groups[x.cred].attrs
  }

  ghost predicate PartPoints(conf: Configuration, groups: seq<AttributeGroup>, part: seq<AttributeId>,
                             indices: seq<AttributeIndex>) {
    |indices| == |part| && forall j :: 0 <= j < |part| ==> PointsTo(conf, groups, part[j], indices[j])
  }

  /** `credIndices` maps each grouped credential to its position. */
  ghost predicate Indexes(credIndices: map<CredentialId, nat>, groups: seq<AttributeGroup>) {
    && (forall k :: 0 <= k < |groups| ==> groups[k].cred in credIndices && credIndices[groups[k].cred] == k)
    && (forall c :: c in credIndices ==> credIndices[c] < |groups| && groups[credIndices[c]].cred == c)
  }

  ghost predicate DistinctCreds(groups: seq<AttributeGroup>) {
    forall i, j :: 0 <= i < j < |groups| ==> groups[i].cred != groups[j].cred
  }

  ghost predicate Extends(groups: seq<AttributeGroup>, more: seq<AttributeGroup>) {
    && |groups| <= |more|
    && forall k :: 0 <= k < |groups| ==> more[k].cred == groups[k].cred && forall a :: a in groups[k].attrs ==>
      a in more[k].attrs
  }

  /** Metadata is always disclosed; besides it only named positions are. */
  ghost predicate OnlyNamed(groups: seq<AttributeGroup>, named: set<AttributeIndex>) {
    forall k :: 0 <= k < |groups| ==> GroupNamed(k, groups[k], named)
  }

  ghost predicate GroupNamed(k: nat, group: AttributeGroup, named: set<AttributeIndex>) {
    1 in group.attrs && forall a :: a in group.attrs ==> a == 1 || AttributeIndex(k, a) in named
  }

  /** Every group has a named position. */
  ghost predicate AllUsed(groups: seq<AttributeGroup>, named: set<AttributeIndex>) {
    forall k :: 0 <= k < |groups| ==> IsUsed(k, named)
  }

  ghost predicate IsUsed(k: nat, named: set<AttributeIndex>) {
    exists x :: x in named && x.cred == k
  }

  /** What groupCredentials returns for a choice. */
  ghost predicate Grouped(conf: Configuration, choice: Choice, groups: seq<AttributeGroup>,
                          indices: seq<seq<AttributeIndex>>) {
    && DistinctCreds(groups)
    && |indices| == |choice|
    && (forall i :: 0 <= i < |choice| ==> PartPoints(conf, groups, choice[i], indices[i]))
    && OnlyNamed(groups, NamedBy(indices)) && AllUsed(groups, NamedBy(indices))
  }

  ghost function NamedBy(indices: seq<seq<AttributeIndex>>): (s: set<AttributeIndex>)
    ensures forall x :: x in s <==> exists i, j :: 0 <= i < |indices| && 0 <= j < |indices[i]| && indices[i][j] == x
  {
    set i, j | 0 <= i < |indices| && 0 <= j < |indices[i]| :: indices[i][j]
  }

  /** One attribute of the choice: find or open the group of its credential and add its position. */
  method AddAttribute(conf: Configuration, credIndices: map<CredentialId, nat>, groups: seq<AttributeGroup>,
                      a: AttributeId,
                      ghost named: set<AttributeIndex>)
    returns (credIndices': map<CredentialId, nat>, groups': seq<AttributeGroup>, x: AttributeIndex)
    requires KnownAttribute(conf, a.typ) && Indexes(credIndices, groups) && OnlyNamed(groups, named)
      && AllUsed(groups, named)
    ensures Indexes(credIndices', groups') && OnlyNamed(groups', named + {x}) && AllUsed(groups', named + {x})
    ensures Extends(groups, groups') && PointsTo(conf, groups', a, x)
  {
    hide KnownAttribute, PositionOf, OnlyNamed, GroupNamed, AllUsed;
    var ici := CredOf(a);
    var credIndex: nat;
    credIndices', groups' := credIndices, groups;
    if ici !in credIndices {
      credIndex := |groups|;
      credIndices' := credIndices[ici := credIndex];
      groups' := groups + [AttributeGroup(ici, [1])];
      OpenGroup(groups, ici, named);
    } else {
      credIndex := credIndices[ici];
    }
    assert Indexes(credIndices', groups');
    var attrIndex := PositionOf(conf, a.typ);
    x := AttributeIndex(credIndex, attrIndex);
    NamePosition(groups', credIndex, attrIndex, named);
    UseGroup(groups, named, x);
    if IsCredential(a.typ) {
      WholeIsMetadata(conf, a.typ);
      return;
    }
    groups' := groups'[credIndex := groups'[credIndex].(attrs := groups'[credIndex].attrs + [attrIndex])];
  }

  lemma UseGroup(groups: seq<AttributeGroup>, named: set<AttributeIndex>, x: AttributeIndex)
    requires AllUsed(groups, named) && 0 <= x.cred <= |groups|
    ensures forall more: seq<AttributeGroup> :: |more| <= |groups| + (if x.cred == |groups| then 1 else 0) ==>
      AllUsed(more, named + {x})
  {
    forall k: nat | k < |groups| || k == x.cred ensures IsUsed(k, named + {x}) {
      if k < |groups| {
        assert IsUsed(k, named);
        var y :| y in named && y.cred == k;
        assert y in named + {x};
      } else {
        assert x in named + {x};
      }
    }
  }

  lemma OpenGroup(groups: seq<AttributeGroup>, ici: CredentialId, named: set<AttributeIndex>)
    requires OnlyNamed(groups, named)
    ensures OnlyNamed(groups + [AttributeGroup(ici, [1])], named)
  {
  }

  /** Naming a position keeps the rule, whether or not it is added to its group. */
  lemma NamePosition(groups: seq<AttributeGroup>, k: nat, a: nat, named: set<AttributeIndex>)
    requires k < |groups| && OnlyNamed(groups, named)
    ensures 1 in groups[k].attrs
    ensures OnlyNamed(groups, named + {AttributeIndex(k, a)})
    ensures OnlyNamed(groups[k := groups[k].(attrs := groups[k].attrs + [a])], named + {AttributeIndex(k, a)})
  {
    assert forall i :: 0 <= i < |groups| ==> GroupNamed(i, groups[i], named);
  }

  lemma WholeIsMetadata(conf: Configuration, typ: string)
    requires KnownAttribute(conf, typ) && IsCredential(typ)
    ensures PositionOf(conf, typ) == 1
  {
  }

  lemma ExtendsPoints(conf: Configuration, groups: seq<AttributeGroup>, more: seq<AttributeGroup>,
                      part: seq<AttributeId>, indices: seq<AttributeIndex>)
    requires Extends(groups, more) && PartPoints(conf, groups, part, indices)
    ensures PartPoints(conf, more, part, indices)
  {
    hide KnownAttribute, PositionOf;
    forall j | 0 <= j < |part| ensures PointsTo(conf, more, part[j], indices[j]) {
      assert PointsTo(conf, groups, part[j], indices[j]);
    }
  }

  /** The inner loop of groupCredentials: the attributes chosen for one disjunction. */
  method GroupPart(conf: Configuration, part: seq<AttributeId>, credIndices: map<CredentialId, nat>,
                   groups: seq<AttributeGroup>,
                   ghost named: set<AttributeIndex>)
    returns (r: Outcome<(map<CredentialId, nat>, seq<AttributeGroup>, seq<AttributeIndex>)>)
    requires Indexes(credIndices, groups) && OnlyNamed(groups, named) && AllUsed(groups, named)
    ensures r.Done? <==> PartKnown(conf, part)
    ensures r.Done? ==>
      Indexes(r.value.0, r.value.1) && OnlyNamed(r.value.1, named + set y | y in r.value.2)
      && AllUsed(r.value.1, named + set y | y in r.value.2)
      && Extends(groups, r.value.1) && PartPoints(conf, r.value.1, part, r.value.2)
  {
    hide AllUsed, PointsTo, Indexes, OnlyNamed, GroupNamed, CredentialTypeOf, IndexOf, IsCredential, Extends,
      PartPoints;
    var credIndices', todisclose := credIndices, groups;
    var current: seq<AttributeIndex> := [];
    ghost var named' := named;
    ExtendsItself(conf, groups);
    for j := 0 to |part|
      invariant forall j' :: 0 <= j' < j ==> KnownAttribute(conf, part[j'].typ)
      invariant named' == named + set y | y in current
      invariant Indexes(credIndices', todisclose) && OnlyNamed(todisclose, named') && AllUsed(todisclose, named')
      invariant Extends(groups, todisclose) && PartPoints(conf, todisclose, part[..j], current)
    {
      var a := part[j];
      if CredentialTypeOf(a.typ) !in conf.types {
        return Panic;
      }
      if !IsCredential(a.typ) && IndexOf(conf, CredentialTypeOf(a.typ), a.typ).None? {
        return Err;
      }
      ghost var before := todisclose;
      var x: AttributeIndex;
      credIndices', todisclose, x := AddAttribute(conf, credIndices', todisclose, a, named');
      PointNext(conf, groups, before, todisclose, part[..j], current, a, x);
      assert part[..j + 1] == part[..j] + [a];
      named' := named' + {x};
      current := current + [x];
    }
    assert part[..|part|] == part;
    return Done((credIndices', todisclose, current));
  }

  lemma ExtendsItself(conf: Configuration, groups: seq<AttributeGroup>)
    ensures Extends(groups, groups) && PartPoints(conf, groups, [], [])
  {
  }

  lemma PointNext(conf: Configuration, first: seq<AttributeGroup>, groups: seq<AttributeGroup>,
                  more: seq<AttributeGroup>,
                  part: seq<AttributeId>, indices: seq<AttributeIndex>, a: AttributeId, x: AttributeIndex)
    requires Extends(first, groups) && Extends(groups, more)
    requires PartPoints(conf, groups, part, indices) && PointsTo(conf, more, a, x)
    ensures Extends(first, more) && PartPoints(conf, more, part + [a], indices + [x])
  {
    hide PointsTo;
    ExtendsPoints(conf, groups, more, part, indices);
  }

  ghost predicate PartKnown(conf: Configuration, part: seq<AttributeId>) {
    forall j :: 0 <= j < |part| ==> KnownAttribute(conf, part[j].typ)
  }

  /** groupCredentials: an unknown attribute of a known type is an error, an unknown type a panic;
      otherwise every chosen attribute gets the position of its credential and of itself, equal
      credentials share one group, and nothing but metadata and chosen attributes is disclosed. */
  method GroupCredentials(conf: Configuration, choice: Choice)
    returns (r: Outcome<(seq<AttributeGroup>, seq<seq<AttributeIndex>>)>)
    ensures r.Done? <==> forall i :: 0 <= i < |choice| ==> PartKnown(conf, choice[i])
    ensures r.Done? ==> Grouped(conf, choice, r.value.0, r.value.1)
  {
    hide PartPoints, OnlyNamed, AllUsed, PartKnown;
    var credIndices: map<CredentialId, nat> := map[];
    var todisclose: seq<AttributeGroup> := [];
    var indices: seq<seq<AttributeIndex>> := [];
    NothingNamed();
    for i := 0 to |choice|
      invariant forall k :: 0 <= k < i ==> PartKnown(conf, choice[k])
      invariant Indexes(credIndices, todisclose) && OnlyNamed(todisclose, NamedBy(indices))
        && AllUsed(todisclose, NamedBy(indices))
      invariant |indices| == i && forall k :: 0 <= k < i ==> PartPoints(conf, todisclose, choice[k], indices[k])
    {
      var part := GroupPart(conf, choice[i], credIndices, todisclose, NamedBy(indices));
      if part.IsFailure() {
        return part.PropagateFailure();
      }
      forall k | 0 <= k < i ensures PartPoints(conf, part.value.1, choice[k], indices[k]) {
        ExtendsPoints(conf, todisclose, part.value.1, choice[k], indices[k]);
      }
      credIndices, todisclose := part.value.0, part.value.1;
      NamedByAppend(indices, part.value.2);
      indices := indices + [part.value.2];
    }
    return Done((todisclose, indices));
  }

  lemma NothingNamed()
    ensures OnlyNamed([], NamedBy([])) && AllUsed([], NamedBy([]))
  {
  }

  lemma NamedByAppend(indices: seq<seq<AttributeIndex>>, current: seq<AttributeIndex>)
    ensures NamedBy(indices + [current]) == NamedBy(indices) + set y | y in current
  {
    var more := indices + [current];
    forall x ensures x in NamedBy(more) <==> x in NamedBy(indices) || x in current {
      if x in NamedBy(indices) {
        var i, j :| 0 <= i < |indices| && 0 <= j < |indices[i]| && indices[i][j] == x;
        assert more[i][j] == x;
      }
      if x in current {
        var j :| 0 <= j < |current| && current[j] == x;
        assert more[|indices|][j] == x;
      }
    }
  }

  // ---------------------------------------------------------------- proofs

  /** The integers a disclosure proof of a credential discloses: position `a` is `ints[a - 1]`. */
  function DisclosedInts(al: AttributeList, attrs: seq<nat>): map<int, nat> {
    map a: int | a in attrs && 1 <= a <= |al.ints| :: al.ints[a - 1]
  }

  /** The proof of one group; `nonRevocation` is what the credential's witness proves. */
  function ProofOf(ctx: Context, al: AttributeList, group: AttributeGroup,
                   nonRevocation: AttributeList -> NonRevocationProof): Proof {
    ProofD(DisclosedInts(al, group.attrs),
           if RequestsRevocation(ctx.request, group.cred.typ) then Some(nonRevocation(al)) else None)
  }

  ghost predicate Built(ctx: Context, groups: seq<AttributeGroup>, nonRevocation: AttributeList -> NonRevocationProof,
                        proofs: seq<Proof>) {
    && |proofs| == |groups|
    && forall k :: 0 <= k < |groups| ==>
      ctx.ByHash(groups[k].cred.hash).Some? && proofs[k] ==
        ProofOf(ctx, ctx.ByHash(groups[k].cred.hash).value, groups[k], nonRevocation)
  }

  /** ProofBuilders: an unknown credential panics, a revoked one or a missing witness is an error. */
  method BuildProofs(ctx: Context, groups: seq<AttributeGroup>, nonRevocation: AttributeList -> NonRevocationProof)
    returns (r: Outcome<seq<Proof>>)
    ensures r.Done? ==> Built(ctx, groups, nonRevocation, r.value)
    ensures r.Done? <==> forall k :: 0 <= k < |groups| ==> Provable(ctx, groups[k])
  {
    hide ProofOf, RequestsRevocation;
    var proofs: seq<Proof> := [];
    for k := 0 to |groups|
      invariant |proofs| == k
      invariant forall i :: 0 <= i < k ==> Provable(ctx, groups[i])
      invariant forall i :: 0 <= i < k ==>
        proofs[i] == ProofOf(ctx, ctx.ByHash(groups[i].cred.hash).value, groups[i], nonRevocation)
    {
      var al := ctx.ByHash(groups[k].cred.hash);
      if al.None? {
        return Panic;
      }
      if al.value.revoked {
        return Err;
      }
      if RequestsRevocation(ctx.request, groups[k].cred.typ) && !al.value.hasWitness {
        return Err;
      }
      proofs := proofs + [ProofOf(ctx, al.value, groups[k], nonRevocation)];
    }
    return Done(proofs);
  }

  predicate Provable(ctx: Context, group: AttributeGroup) {
    var al := ctx.ByHash(group.cred.hash);
    al.Some? && !al.value.revoked && (RequestsRevocation(ctx.request, group.cred.typ) ==> al.value.hasWitness)
  }

  // ---------------------------------------------------------------- the verifier reads what was chosen

  /** The text a verifier sees for an attribute of a credential. */
  function DisclosedText(conf: Configuration, al: AttributeList, typ: string): Option<bytes> {
    if IsCredential(typ) then Some(PRESENT) else UntranslatedAttribute(conf, al, typ)
  }

  /** A chosen attribute of a known type, in a held credential of that type. */
  ghost predicate HeldAttribute(ctx: Context, a: AttributeId) {
    && KnownAttribute(ctx.conf, a.typ) && PartsCount(a.typ) > 0
    && ctx.ByHash(a.hash).Some? && WellFormed(ctx.conf, ctx.ByHash(a.hash).value, CredentialTypeOf(a.typ))
  }

  ghost function TextOf(ctx: Context, a: AttributeId): Option<bytes>
    requires ctx.ByHash(a.hash).Some?
  {
    DisclosedText(ctx.conf, ctx.ByHash(a.hash).value, a.typ)
  }

  ghost predicate ReadsAs(conf: Configuration, proofs: seq<Proof>, x: AttributeIndex, typ: string,
                          text: Option<bytes>) {
    ExtractAttribute(conf, proofs, x).Done?
    && ExtractAttribute(conf, proofs, x).value.identifier == typ
    && ExtractAttribute(conf, proofs, x).value.rawValue == text
  }

  /** Reading the position of a chosen attribute gives its identifier and its text. */
  lemma ChosenReadsAsItself(ctx: Context, groups: seq<AttributeGroup>,
                            nonRevocation: AttributeList -> NonRevocationProof,
                            proofs: seq<Proof>, a: AttributeId, x: AttributeIndex)
    requires Built(ctx, groups, nonRevocation, proofs)
    requires HeldAttribute(ctx, a) && PointsTo(ctx.conf, groups, a, x)
    requires forall k :: 0 <= k < |groups| ==> 1 in groups[k].attrs
    ensures ReadsAs(ctx.conf, proofs, x, a.typ, TextOf(ctx, a))
  {
    hide TypeOfMetadata, DecodeAt, SigningDate, RequestsRevocation, PartsCount, LastDot, IndexOfName;
    var al := ctx.ByHash(a.hash).value;
    var ct := CredentialTypeOf(a.typ);
    var group := groups[x.cred];
    assert proofs[x.cred] == ProofOf(ctx, al, group, nonRevocation);
    var disclosed := DisclosedInts(al, group.attrs);
    assert disclosed[1] == al.ints[0];
    if !IsCredential(a.typ) {
      SplitJoin(a.typ);
      var i := IndexOf(ctx.conf, ct, a.typ).value;
      IndexOfInRange(ctx.conf, ct, a.typ);
      assert x.attr == i + 2 && disclosed[x.attr] == al.ints[i + 1];
    }
  }

  lemma IndexOfInRange(conf: Configuration, ct: string, typ: string)
    requires ct in conf.types && IndexOf(conf, ct, typ).Some?
    ensures CredentialTypeOf(typ) == ct && IndexOf(conf, ct, typ) == IndexOfName(conf.types[ct].attributes, Name(typ))
    ensures IndexOf(conf, ct, typ).value < |conf.types[ct].attributes|
    ensures conf.types[ct].attributes[IndexOf(conf, ct, typ).value].id == Name(typ)
  {
  }
}
