/** From issuance to disclosure: what a verifier reads in a credential is what was asked for when it was issued. */
module Issued {
  import opened Outcomes
  import opened Codec
  import opened Identifiers
  import opened Scheme
  import opened CredentialStore
  import opened Candidates
  import opened Verify
  import opened Disclose
  import opened Chaining
  import Issuance

  /** A held credential with the integers made for a request by metadata version 3; those of random blind attributes
      are not made by the issuer alone. */
  ghost predicate IssuedFor(conf: Configuration, al: AttributeList, cr: Issuance.CredentialRequest,
                            revocationAttr: Option<nat>, issuedAt: int) {
    && WellFormed(conf, al, cr.credType)
    && Issuance.Consistent(conf, cr) && Issuance.Parsed(conf.types[cr.credType])
    && Issuance.MetadataFor(al.ints[0], cr, 3, CredentialTypeHash(al.ints[0]), issuedAt)
    && forall k: nat :: k < |conf.types[cr.credType].attributes| ==>
      var made := Issuance.IntFor(conf.types[cr.credType], cr, k, 3, revocationAttr);
      made.Some? ==> al.ints[k + 1] == made.value
  }

  /** What is read of an attribute: what was asked for, or the text of a random blind attribute. */
  ghost function TextIssued(conf: Configuration, al: AttributeList, cr: Issuance.CredentialRequest,
                            revocationAttr: Option<nat>, i: nat): Option<bytes>
    requires cr.credType in conf.types && i < |conf.types[cr.credType].attributes| && i + 1 < |al.ints|
  {
    if conf.types[cr.credType].attributes[i].randomBlind then Some(conf.randomBlindText(al.ints[i + 1]))
    else Issuance.Expected(conf.types[cr.credType], cr, i, revocationAttr)
  }

  function Made(ints: seq<nat>): (r: Issuance.Ints)
    ensures |r| == |ints|
  {
    seq(|ints|, i requires 0 <= i < |ints| => Some(ints[i]))
  }

  /** Issuer and holder read the same in a complete credential. */
  lemma SameReading(conf: Configuration, al: AttributeList, id: string, ai: string)
    requires WellFormed(conf, al, id)
    ensures Issuance.UntranslatedAttribute(conf, Made(al.ints), ai) == Done(UntranslatedAttribute(conf, al, ai))
  {
    hide TypeOfMetadata, HashedBytes, ToBytes, Name, CredentialTypeOf, DecodeAttribute, Version;
  }

  /** The holder reads in its credential what was asked for. */
  lemma HolderReadsIssued(conf: Configuration, al: AttributeList, cr: Issuance.CredentialRequest,
                          revocationAttr: Option<nat>, issuedAt: int, ai: string)
    requires IssuedFor(conf, al, cr, revocationAttr, issuedAt) && CredentialTypeOf(ai) == cr.credType
    ensures var i := IndexOfName(conf.types[cr.credType].attributes, Name(ai));
            && (i.None? ==> UntranslatedAttribute(conf, al, ai) == None)
            && (i.Some? && !Issuance.Superfluous(conf.types[cr.credType], i.value) ==>
                  UntranslatedAttribute(conf, al, ai) == TextIssued(conf, al, cr, revocationAttr, i.value))
  {
    hide TypeOfMetadata, HashedBytes, ToBytes, Name, CredentialTypeOf, DecodeAttribute, Version, Issuance.Expected,
      IndexOfName, Issuance.IntFor;
    var ct := conf.types[cr.credType];
    var found := IndexOfName(ct.attributes, Name(ai));
    if found.Some? && !Issuance.Superfluous(ct, found.value) && !ct.attributes[found.value].randomBlind {
      Issuance.DecodesTo(conf, ct, cr, found.value, revocationAttr);
    }
  }

  /** A verifier reads it too, wherever an honest client discloses it. */
  lemma VerifierReadsIssued(ctx: Context, a: Answer, nonRevocation: CredentialStore.AttributeList -> NonRevocationProof,
                            i: nat, j: nat, cr: Issuance.CredentialRequest, revocationAttr: Option<nat>, issuedAt: int)
    requires Honest(ctx, a, nonRevocation) && i < |a.choice| && j < |a.choice[i]|
    requires ctx.ByHash(a.choice[i][j].hash).Some?
    requires IssuedFor(ctx.conf, ctx.ByHash(a.choice[i][j].hash).value, cr, revocationAttr, issuedAt)
    requires CredentialTypeOf(a.choice[i][j].typ) == cr.credType && !IsCredential(a.choice[i][j].typ)
    ensures var at := IndexOfName(ctx.conf.types[cr.credType].attributes, Name(a.choice[i][j].typ));
            && at.Some? && i < |a.indices| && j < |a.indices[i]|
            && (!Issuance.Superfluous(ctx.conf.types[cr.credType], at.value) ==>
                  ReadsAs(ctx.conf, a.proofs, a.indices[i][j], a.choice[i][j].typ,
                          TextIssued(ctx.conf, ctx.ByHash(a.choice[i][j].hash).value, cr, revocationAttr, at.value)))
  {
    PositionReads(ctx, a, nonRevocation, i, j);
    AnswerShape(ctx, a, nonRevocation);
    var al := ctx.ByHash(a.choice[i][j].hash).value;
    HolderReadsIssued(ctx.conf, al, cr, revocationAttr, issuedAt, a.choice[i][j].typ);
    assert HeldAttribute(ctx, a.choice[i][j]);
    hide Honest, IssuedFor, ReadsAs, UntranslatedAttribute, WellFormed, TextIssued;
  }
}
