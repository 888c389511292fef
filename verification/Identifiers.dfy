/** identifiers.go: dotted identifiers such as "irma-demo.RU.studentCard.studentID". */
module Identifiers {

  /** metaObjectIdentifier.PartsCount: the number of dots. */
  function PartsCount(id: string): nat {
    if id == "" then 0 else PartsCount(id[..|id| - 1]) + (if id[|id| - 1] == '.' then 1 else 0)
  }

  /** strings.LastIndex(id, "."), or -1. */
  function LastDot(id: string): (i: int)
    ensures -1 <= i < |id|
    ensures i >= 0 ==> id[i] == '.'
    ensures forall k :: i < k < |id| ==> id[k] != '.'
  {
    if id == "" then -1
    else if id[|id| - 1] == '.' then |id| - 1
    else LastDot(id[..|id| - 1])
  }

  function Parent(id: string): string {
    if LastDot(id) == -1 then id else id[..LastDot(id)]
  }

  function Name(id: string): string { id[LastDot(id) + 1..] }

  /** An attribute identifier of three parts denotes the credential itself. */
  predicate IsCredential(id: string) { PartsCount(id) == 2 }

  /** AttributeTypeIdentifier.CredentialTypeIdentifier */
  function CredentialTypeOf(id: string): string {
    if IsCredential(id) then id else Parent(id)
  }

  /** AttributeType.GetAttributeTypeIdentifier: the identifier of attribute `name` of type `ct`. */
  function AttributeIdOf(ct: string, name: string): string { ct + "." + name }

  lemma {:induction false} NoDotNoParts(id: string)
    requires forall k :: 0 <= k < |id| ==> id[k] != '.'
    ensures PartsCount(id) == 0
  {
    if id != "" {
      NoDotNoParts(id[..|id| - 1]);
    }
  }

  /** An identifier with a dot is its parent, a dot and its name: splitting and joining agree. */
  lemma SplitJoin(id: string)
    requires PartsCount(id) > 0
    ensures AttributeIdOf(Parent(id), Name(id)) == id
  {
    if LastDot(id) == -1 {
      NoDotNoParts(id);
    } else {
      assert id == id[..LastDot(id)] + [id[LastDot(id)]] + id[LastDot(id) + 1..];
    }
  }
}
