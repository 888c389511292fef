/** descriptions.go, irmaconfig.go: the configuration, as far as sessions depend on it. */
module Scheme {
  import opened Outcomes
  import opened Codec
  import opened Identifiers

  datatype AttributeType = AttributeType(id: string, optional: bool, revocation: bool, randomBlind: bool)

  datatype CredentialType = CredentialType(
    scheme: string,
    attributes: seq<AttributeType>,
    singleton: bool,
    revocationSupported: bool,
    revocationIndex: nat,
    deprecated: bool,
    issueURL: bool,
    dependencies: seq<seq<seq<string>>>)

  /** `typeByHash` is the reverse of the truncated SHA-256 of the type identifiers (reverseHashes);
      `publicKeys` gives the expiry date of each known public key by issuer and counter;
      `randomBlindText` is the base-62 text of a random blind attribute; `sha256` the hexadecimal text
      of a hash. */
  datatype Configuration = Configuration(
    types: map<string, CredentialType>,
    typeByHash: map<bytes, string>,
    publicKeys: map<(string, nat), int>,
    randomBlindText: nat -> bytes,
    sha256: bytes -> string)

  /** MetadataAttribute.CredentialType: the type a metadata integer refers to, if known. */
  function TypeOfMetadata(conf: Configuration, meta: nat): Option<string> {
    var hash := CredentialTypeHash(meta);
    if hash in conf.typeByHash && conf.typeByHash[hash] in conf.types
    then Some(conf.typeByHash[hash]) else None
  }

  /** MetadataAttribute.PublicKey: the expiry date of the key that signed a credential. */
  function KeyExpiry(conf: Configuration, ct: string, meta: nat): Option<int> {
    var key := (Parent(ct), KeyCounter(meta));
    if key in conf.publicKeys then Some(conf.publicKeys[key]) else None
  }

  /** The index of the first attribute called `name`. */
  function IndexOfName(attrs: seq<AttributeType>, name: string): (i: Option<nat>)
    ensures i.Some? ==> i.value < |attrs| && attrs[i.value].id == name
                        && forall k :: 0 <= k < i.value ==> attrs[k].id != name
    ensures i.None? ==> forall k :: 0 <= k < |attrs| ==> attrs[k].id != name
  {
    if attrs == [] then None
    else
      var before := IndexOfName(attrs[..|attrs| - 1], name);
      if before.Some? then before
      else if attrs[|attrs| - 1].id == name then Some(|attrs| - 1)
      else None
  }

  /** CredentialType.IndexOf */
  function IndexOf(conf: Configuration, ct: string, ai: string): Option<nat>
    requires ct in conf.types
  {
    if CredentialTypeOf(ai) != ct then None else IndexOfName(conf.types[ct].attributes, Name(ai))
  }

  /** AttributeList.decode and the decoding half of parseAttribute: the text of attribute `i`. */
  function DecodeAt(conf: Configuration, ct: string, i: nat, version: byte, attr: nat): Option<bytes>
    requires ct in conf.types && i < |conf.types[ct].attributes|
  {
    if conf.types[ct].attributes[i].randomBlind then Some(conf.randomBlindText(attr))
    else DecodeAttribute(attr, version)
  }
}
