/** requests.go: from a credential request to the attributes that are signed, and back (attributes.go). */
module Issuance {
  import opened Outcomes
  import opened Codec
  import opened Identifiers
  import opened Scheme

  datatype CredentialRequest = CredentialRequest(
    credType: string,
    attributes: map<string, bytes>,
    keyCounter: nat,
    validity: int,
    randomBlind: seq<string>)

  /** The integers of an attribute list; a random blind attribute has none yet. */
  type Ints = seq<Option<nat>>

  // ---------------------------------------------------------------- validation

  function RandomBlindNames(attrs: seq<AttributeType>): seq<string> {
    if attrs == [] then []
    else
      var last := attrs[|attrs| - 1];
      RandomBlindNames(attrs[..|attrs| - 1]) + (if last.randomBlind then [last.id] else [])
  }

  /** They are the names of the random blind attributes, in order. */
  lemma {:induction false} RandomBlindNamesIff(attrs: seq<AttributeType>, name: string)
    ensures name in RandomBlindNames(attrs) <==> exists a <- attrs :: a.randomBlind && a.id == name
    ensures forall i :: 0 <= i < |attrs| ==> RandomBlindNames(attrs[..i]) <= RandomBlindNames(attrs)
  {
    if attrs != [] {
      var n := |attrs| - 1;
      RandomBlindNamesIff(attrs[..n], name);
      assert attrs == attrs[..n] + [attrs[n]];
      forall i | 0 <= i < |attrs| ensures RandomBlindNames(attrs[..i]) <= RandomBlindNames(attrs) {
        assert i < n ==> attrs[..n][..i] == attrs[..i];
      }
    }
  }

  /** A supplied value is allowed for ordinary attributes, and required for those that are not optional. */
  predicate AttributeOk(a: AttributeType, present: bool) {
    if present then !a.revocation && !a.randomBlind else a.revocation || a.randomBlind || a.optional
  }

  /** The request is consistent with the scheme. */
  predicate Consistent(conf: Configuration, cr: CredentialRequest) {
    && cr.credType in conf.types
    && var attrs := conf.types[cr.credType].attributes;
    && (forall name <- cr.attributes :: IndexOfName(attrs, name).Some?)
    && (forall i: nat :: i < |attrs| ==> AttributeOk(attrs[i], attrs[i].id in cr.attributes))
    && cr.randomBlind == RandomBlindNames(attrs)
  }

  /** CredentialRequest.Validate */
  method Validate(conf: Configuration, cr: CredentialRequest) returns (ok: bool)
    ensures ok <==> Consistent(conf, cr)
  {
    if cr.credType !in conf.types {
      return false;
    }
    var attrs := conf.types[cr.credType].attributes;
    var todo := cr.attributes.Keys;
    while todo != {}
      invariant todo <= cr.attributes.Keys
      invariant forall name <- cr.attributes.Keys - todo :: IndexOfName(attrs, name).Some?
      decreases todo
    {
      var name :| name in todo;
      todo := todo - {name};
      var found := false;
      for k := 0 to |attrs|
        invariant found <==> exists m: nat :: m < k && attrs[m].id == name
      {
        found := found || attrs[k].id == name;
      }
      if !found {
        return false;
      }
    }
    var blind: seq<string> := [];
    for i := 0 to |attrs|
      invariant forall k: nat :: k < i ==> AttributeOk(attrs[k], attrs[k].id in cr.attributes)
      invariant blind == RandomBlindNames(attrs[..i])
    {
      var a, present := attrs[i], attrs[i].id in cr.attributes;
      if !present && !a.revocation && !a.randomBlind && !a.optional {
        return false;
      }
      if present && a.revocation {
        return false;
      }
      if present && a.randomBlind {
        return false;
      }
      assert attrs[..i + 1][..i] == attrs[..i];
      if a.randomBlind {
        blind := blind + [a.id];
      }
    }
    assert attrs[..|attrs|] == attrs;
    return blind == cr.randomBlind;
  }

  // ---------------------------------------------------------------- building the list

  /** The integer for attribute `i`: nothing for a random blind attribute, the revocation attribute or
      0 where that goes, and otherwise the encoded value or 0. */
  function IntFor(ct: CredentialType, cr: CredentialRequest, i: nat, version: byte,
                  revocationAttr: Option<nat>): Option<nat>
    requires i < |ct.attributes|
  {
    var a := ct.attributes[i];
    if a.revocation || a.randomBlind then
      if ct.revocationSupported && i == ct.revocationIndex then
        Some(if revocationAttr.Some? then revocationAttr.value else 0)
      else None
    else if a.id in cr.attributes then Some(EncodeAttribute(cr.attributes[a.id], version))
    else Some(0)
  }

  /** The date that is read back as the signing date. */
  function StoredSigningDate(issuedAt: int): nat
    requires WeeksOf(issuedAt) >= 0
  {
    ReadBack(WeeksOf(issuedAt)) * WEEK
  }

  /** The metadata says what the request asked for, except that 65536 reads back as 0 in every short. */
  predicate MetadataFor(meta: nat, cr: CredentialRequest, version: byte, hash: bytes, issuedAt: int) {
    && Version(meta) == version && CredentialTypeHash(meta) == hash
    && KeyCounter(meta) == ReadBack(cr.keyCounter)
    && WeeksOf(issuedAt) >= 0 && SigningDate(meta) == StoredSigningDate(issuedAt)
  }

  /** The expiry is the last week boundary, counted from the signing date, not after the requested one,
      exactly below 65536 weeks; at 65536 weeks the credential expires at its signing date. */
  predicate ExpiryFor(meta: nat, validity: int) {
    && validity >= SigningDate(meta)
    && ValidityDuration(meta) == ReadBack((validity - SigningDate(meta)) / WEEK)
    && (Expiry(meta) <= validity < Expiry(meta) + WEEK <==> (validity - SigningDate(meta)) / WEEK < 65536)
  }

  /** The counter and both dates pass the guards, and the request does not expire before it is signed. */
  predicate Encodable(cr: CredentialRequest, issuedAt: int) {
    && cr.keyCounter <= 65536 && 0 <= WeeksOf(issuedAt) <= 65536
    && StoredSigningDate(issuedAt) <= cr.validity && (cr.validity - StoredSigningDate(issuedAt)) / WEEK <= 65536
  }

  method BuildMetadata(cr: CredentialRequest, version: byte, hash: bytes, issuedAt: int) returns (o: Outcome<nat>)
    requires |hash| == 16
    ensures o.Done? ==> MetadataFor(o.value, cr, version, hash, issuedAt) && ExpiryFor(o.value, cr.validity)
    ensures o.Done? <==> Encodable(cr, issuedAt)
  {
    hide WithField, Field, ToBytes;
    var meta := new MetadataAttribute();
    meta.SetField(VERSION_FIELD, [version]);
    var panicked := meta.SetKeyCounter(cr.keyCounter);
    if panicked {
      return Panic;
    }
    meta.SetField(CREDENTIAL_ID_FIELD, hash);
    panicked := meta.SetSigningDate(issuedAt);
    if panicked {
      return Panic;
    }
    var signed := meta.int_;
    assert Version(signed) == version && CredentialTypeHash(signed) == hash;
    var r := meta.SetExpiryDate(cr.validity);
    if !r.Done? {
      return if r.Err? then Err else Panic;
    }
    assert SigningDate(meta.int_) == SigningDate(signed);
    return Done(meta.int_);
  }

  /** CredentialRequest.AttributeList */
  method AttributeList(conf: Configuration, cr: CredentialRequest, version: byte, revocationAttr: Option<nat>,
                       issuedAt: int, hash: bytes)
    returns (o: Outcome<Ints>)
    requires |hash| == 16
    ensures o.Done? ==>
      && Consistent(conf, cr)
      && var ct := conf.types[cr.credType];
      && |o.value| == |ct.attributes| + 1
      && o.value[0].Some? && MetadataFor(o.value[0].value, cr, version, hash, issuedAt)
        && ExpiryFor(o.value[0].value, cr.validity)
      && (forall i: nat :: i < |ct.attributes| ==> o.value[i + 1] == IntFor(ct, cr, i, version, revocationAttr))
      && (revocationAttr.Some? ==> ct.revocationSupported)
    ensures !Consistent(conf, cr) ==> o.Err?
    ensures Consistent(conf, cr) && Parsed(conf.types[cr.credType]) ==>
      (o.Done? <==> Encodable(cr, issuedAt) && (revocationAttr.Some? ==> conf.types[cr.credType].revocationSupported))
  {
    var ok := Validate(conf, cr);
    if !ok {
      return Err;
    }
    var ct := conf.types[cr.credType];
    if !ct.revocationSupported && revocationAttr.Some? {
      return Err;
    }
    hide MetadataFor, ExpiryFor, Consistent, EncodeAttribute, Encodable;
    var meta := BuildMetadata(cr, version, hash, issuedAt);
    if !meta.Done? {
      return if meta.Err? then Err else Panic;
    }
    var attrs := new Option<nat>[|ct.attributes| + 1](_ => None);
    attrs[0] := Some(meta.value);
    if ct.revocationSupported {
      if ct.revocationIndex + 1 >= attrs.Length {
        return Panic;
      }
      attrs[ct.revocationIndex + 1] := Some(if revocationAttr.Some? then revocationAttr.value else 0);
    }
    FillAttributes(attrs, ct, cr, version, revocationAttr);
    return Done(attrs[..]);
  }

  /** The loop that encodes the supplied values. */
  method FillAttributes(attrs: array<Option<nat>>, ct: CredentialType, cr: CredentialRequest, version: byte,
                        ghost revocationAttr: Option<nat>)
    requires attrs.Length == |ct.attributes| + 1
    requires forall k: nat :: 0 < k < attrs.Length ==>
      attrs[k] == if ct.revocationSupported && k == ct.revocationIndex + 1
        then Some(if revocationAttr.Some? then revocationAttr.value else 0) else None
    modifies attrs
    ensures attrs[0] == old(attrs[0])
    ensures forall i: nat :: i < |ct.attributes| ==> attrs[i + 1] == IntFor(ct, cr, i, version, revocationAttr)
  {
    hide EncodeAttribute;
    for i := 0 to |ct.attributes|
      invariant attrs[0] == old(attrs[0])
      invariant forall k: nat :: k < i ==> attrs[k + 1] == IntFor(ct, cr, k, version, revocationAttr)
      invariant forall k: nat :: i < k < attrs.Length ==> attrs[k] == old(attrs[k])
    {
      var a := ct.attributes[i];
      if a.revocation || a.randomBlind {
        continue;
      }
      attrs[i + 1] := Some(0);
      if a.id in cr.attributes {
        attrs[i + 1] := Some(EncodeAttribute(cr.attributes[a.id], version));
      }
    }
  }

  // ---------------------------------------------------------------- reading it back

  /** UntranslatedAttribute: the text of an attribute; a list of unknown type, or a missing integer, is a
      nil dereference. */
  function UntranslatedAttribute(conf: Configuration, ints: Ints, ai: string): Outcome<Option<bytes>>
    requires ints != [] && ints[0].Some?
  {
    var ct := TypeOfMetadata(conf, ints[0].value);
    if ct.None? then Panic
    else if ct.value != CredentialTypeOf(ai) then Done(None)
    else
      var i := IndexOfName(conf.types[ct.value].attributes, Name(ai));
      if i.None? then Done(None)
      else if i.value + 1 >= |ints| then Panic
      else Decode(conf, conf.types[ct.value].attributes[i.value], ints[i.value + 1], Version(ints[0].value))
  }

  /** AttributeList.decode */
  function Decode(conf: Configuration, a: AttributeType, attr: Option<nat>, version: byte): Outcome<Option<bytes>> {
    if a.randomBlind then Done(if attr.Some? then Some(conf.randomBlindText(attr.value)) else None)
    else if attr.None? then Panic
    else Done(DecodeAttribute(attr.value, version))
  }

  /** What the scheme parser guarantees: no attribute is both for revocation and random blind; revocation is
      supported exactly if there is an attribute for it, and then the index is that of the last one. It
      rejects neither repeated attribute names nor a second revocation attribute. */
  predicate Parsed(ct: CredentialType) {
    && (forall a <- ct.attributes :: !(a.revocation && a.randomBlind))
    && (if ct.revocationSupported
        then && ct.revocationIndex < |ct.attributes| && ct.attributes[ct.revocationIndex].revocation
             && forall i: nat :: ct.revocationIndex < i < |ct.attributes| ==> !ct.attributes[i].revocation
        else forall a <- ct.attributes :: !a.revocation)
  }

  /** A revocation attribute other than the last one, for which no integer is made. */
  predicate Superfluous(ct: CredentialType, i: nat)
    requires i < |ct.attributes|
  {
    ct.attributes[i].revocation && i != ct.revocationIndex
  }

  /** What was asked for attribute `i`, as the holder will read it: a supplied string without its leading
      zero bytes, nothing for an absent one, and for a revocation attribute nothing unless it is odd. */
  function Expected(ct: CredentialType, cr: CredentialRequest, i: nat, revocationAttr: Option<nat>): Option<bytes>
    requires i < |ct.attributes|
  {
    var a := ct.attributes[i];
    if a.id in cr.attributes then Some(Strip(cr.attributes[a.id]))
    else if a.revocation && revocationAttr.Some? && revocationAttr.value % 2 == 1
      then Some(ToBytes(revocationAttr.value / 2))
    else None
  }

  /** An attribute for which the requestor has to supply a value. */
  predicate Mandatory(a: AttributeType) { !a.optional && !a.revocation && !a.randomBlind }

  /** Reading an attribute by name from a list built with metadata version 3 reads the first attribute of
      that name, and gives back what was asked for it, if and only if it is not a superfluous revocation
      attribute, which cannot be read at all. Every value that was supplied can be read back, and every
      mandatory attribute has one. */
  lemma ReadsBack(conf: Configuration, cr: CredentialRequest, revocationAttr: Option<nat>, issuedAt: int, hash: bytes,
                  ints: Ints, ai: string)
    requires Consistent(conf, cr) && Parsed(conf.types[cr.credType])
    requires hash in conf.typeByHash && conf.typeByHash[hash] == cr.credType
    requires var ct := conf.types[cr.credType];
      && |ints| == |ct.attributes| + 1
      && ints[0].Some? && MetadataFor(ints[0].value, cr, 3, hash, issuedAt)
      && (forall k: nat :: k < |ct.attributes| ==> ints[k + 1] == IntFor(ct, cr, k, 3, revocationAttr))
    requires CredentialTypeOf(ai) == cr.credType
    ensures var ct := conf.types[cr.credType];
            var i := IndexOfName(ct.attributes, Name(ai));
            UntranslatedAttribute(conf, ints, ai) ==
              if i.None? then Done(None)
              else if Superfluous(ct, i.value) then Panic
              else Done(Expected(ct, cr, i.value, revocationAttr))
    ensures var ct := conf.types[cr.credType];
            var i := IndexOfName(ct.attributes, Name(ai));
            i.Some? && Mandatory(ct.attributes[i.value]) ==>
              && ct.attributes[i.value].id in cr.attributes
              && UntranslatedAttribute(conf, ints, ai) == Done(Some(Strip(cr.attributes[ct.attributes[i.value].id])))
    ensures Name(ai) in cr.attributes ==>
              UntranslatedAttribute(conf, ints, ai) == Done(Some(Strip(cr.attributes[Name(ai)])))
  {
    var ct := conf.types[cr.credType];
    var found := IndexOfName(ct.attributes, Name(ai));
    assert TypeOfMetadata(conf, ints[0].value) == Some(cr.credType) && Version(ints[0].value) == 3;
    if found.Some? {
      var i := found.value;
      assert AttributeOk(ct.attributes[i], ct.attributes[i].id in cr.attributes);
      DecodesTo(conf, ct, cr, i, revocationAttr);
      if Mandatory(ct.attributes[i]) || Name(ai) in cr.attributes {
        assert !Superfluous(ct, i);
        assert Expected(ct, cr, i, revocationAttr) == Some(Strip(cr.attributes[ct.attributes[i].id]));
      }
      assert ints[i + 1] == IntFor(ct, cr, i, 3, revocationAttr);
    }
    hide IndexOfName, Consistent, Parsed, Decode, IntFor, Expected, MetadataFor, TypeOfMetadata, Version, AttributeOk,
      Superfluous;
  }

  lemma DecodesTo(conf: Configuration, ct: CredentialType, cr: CredentialRequest, i: nat, revocationAttr: Option<nat>)
    requires Parsed(ct) && i < |ct.attributes| && AttributeOk(ct.attributes[i], ct.attributes[i].id in cr.attributes)
    ensures Decode(conf, ct.attributes[i], IntFor(ct, cr, i, 3, revocationAttr), 3) ==
            if Superfluous(ct, i) then Panic else Done(Expected(ct, cr, i, revocationAttr))
  {
    var a := ct.attributes[i];
    assert a in ct.attributes;
    if a.id in cr.attributes {
      DecodeEncode(cr.attributes[a.id], 3);
    }
    hide EncodeAttribute, Strip, ToBytes;
  }
}
