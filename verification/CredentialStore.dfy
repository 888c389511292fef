/** irmaclient/client.go: the credentials a client holds and the index from hash to position. */
module CredentialStore {
  import opened Outcomes
  import opened Codec
  import opened Scheme

  /** An attribute list without the secret key: `ints[0]` is the metadata attribute. `hasWitness` says
      whether the credential carries a nonrevocation witness. */
  datatype AttributeList = AttributeList(hash: string, ints: seq<nat>, revoked: bool, hasWitness: bool)

  type Attributes = map<string, seq<AttributeList>>

  datatype CredLookup = CredLookup(id: string, counter: nat)

  function TypeOf(conf: Configuration, al: AttributeList): Option<string> {
    if al.ints == [] then None else TypeOfMetadata(conf, al.ints[0])
  }

  /** Client.attrs */
  function Held(attributes: Attributes, id: string): seq<AttributeList> {
    if id in attributes then attributes[id] else []
  }

  /** AttributeList.EqualsExceptMetadata */
  predicate EqualsExceptMetadata(a: AttributeList, b: AttributeList) {
    |a.ints| == |b.ints| && forall i :: 1 <= i < |a.ints| ==> a.ints[i] == b.ints[i]
  }

  /** What AttributeList.Hash hashes: the bytes of all integers, one after the other. */
  function HashedBytes(ints: seq<nat>): bytes {
    if ints == [] then [] else HashedBytes(ints[..|ints| - 1]) + ToBytes(ints[|ints| - 1])
  }

  /** A credential of a known type, with one integer per attribute of that type, metadata with a version
      (which fills all of its bytes), and its own hash. */
  predicate WellFormed(conf: Configuration, al: AttributeList, id: string) {
    && al.hash != "" && TypeOf(conf, al) == Some(id) && id in conf.types
    && |al.ints| == |conf.types[id].attributes| + 1
    && |ToBytes(al.ints[0])| == METADATA_LENGTH && al.hash == conf.sha256(HashedBytes(al.ints))
  }

  ghost predicate ListsWellFormed(conf: Configuration, attributes: Attributes) {
    forall id, i: nat {:trigger WellFormed(conf, attributes[id][i], id)} ::
      id in attributes && i < |attributes[id]| ==> WellFormed(conf, attributes[id][i], id)
  }

  predicate IndexedAt(attributes: Attributes, lookup: map<string, CredLookup>, id: string, i: nat)
    requires id in attributes && i < |attributes[id]|
  {
    attributes[id][i].hash in lookup && lookup[attributes[id][i].hash] == CredLookup(id, i)
  }

  predicate BackedAt(attributes: Attributes, lookup: map<string, CredLookup>, hash: string)
    requires hash in lookup
  {
    var at := lookup[hash];
    at.id in attributes && at.counter < |attributes[at.id]| && attributes[at.id][at.counter].hash == hash
  }

  /** `lookup` maps each held hash to exactly its type and position, and nothing else. */
  ghost predicate LookupExact(attributes: Attributes, lookup: map<string, CredLookup>) {
    && (forall id, i: nat {:trigger IndexedAt(attributes, lookup, id, i)} ::
          id in attributes && i < |attributes[id]| ==> IndexedAt(attributes, lookup, id, i))
    && (forall h {:trigger BackedAt(attributes, lookup, h)} :: h in lookup ==> BackedAt(attributes, lookup, h))
  }

  ghost predicate SingletonsHeldOnce(conf: Configuration, attributes: Attributes) {
    forall id :: id in attributes && id in conf.types && conf.types[id].singleton ==> |attributes[id]| <= 1
  }

  /** Some attribute differs; the metadata, which comes first, is not looked at. */
  predicate Differ(a: AttributeList, b: AttributeList) {
    |a.ints| != |b.ints| || exists i :: 0 < i < |a.ints| && a.ints[i] != b.ints[i]
  }

  ghost predicate NoEqualInstances(list: seq<AttributeList>) {
    forall i, j :: 0 <= i < j < |list| ==> Differ(list[i], list[j])
  }

  ghost predicate InstancesDiffer(attributes: Attributes) {
    forall id :: id in attributes ==> NoEqualInstances(attributes[id])
  }

  /** What a client keeps between calls. */
  ghost predicate StoreInv(conf: Configuration, attributes: Attributes, lookup: map<string, CredLookup>) {
    && ListsWellFormed(conf, attributes)
    && LookupExact(attributes, lookup)
    && SingletonsHeldOnce(conf, attributes)
    && InstancesDiffer(attributes)
  }

  /** attributesByHash, as a function of the lists alone. */
  ghost predicate HoldsAt(attributes: Attributes, hash: string, id: string, i: nat) {
    id in attributes && i < |attributes[id]| && attributes[id][i].hash == hash
  }

  function RemoveAt<T>(s: seq<T>, k: nat): seq<T>
    requires k < |s|
  {
    s[..k] + s[k + 1..]
  }

  predicate Survives(old_: AttributeList, cred: AttributeList) {
    old_.hash != cred.hash && !EqualsExceptMetadata(old_, cred)
  }

  /** The instances that stay when `cred` is added to a non-singleton type. */
  function Survivors(list: seq<AttributeList>, cred: AttributeList): seq<AttributeList> {
    if list == [] then []
    else (if Survives(list[0], cred) then [list[0]] else []) + Survivors(list[1..], cred)
  }

  function ListAfterAdd(conf: Configuration, id: string, list: seq<AttributeList>,
                        cred: AttributeList): seq<AttributeList> {
    if id in conf.types && conf.types[id].singleton then [cred] else Survivors(list, cred) + [cred]
  }

  lemma {:induction false} SurvivorsWithoutHash(list: seq<AttributeList>, cred: AttributeList, k: nat)
    requires k < |list| && list[k].hash == cred.hash
    ensures Survivors(RemoveAt(list, k), cred) == Survivors(list, cred)
  {
    if k == 0 {
      assert RemoveAt(list, 0) == list[1..];
    } else {
      SurvivorsWithoutHash(list[1..], cred, k - 1);
      assert RemoveAt(list, k)[1..] == RemoveAt(list[1..], k - 1);
    }
  }

  /** One step of going backwards through the list: keep or drop position `i`. */
  lemma SurvivorsStep(list: seq<AttributeList>, i: nat, cred: AttributeList)
    requires i < |list|
    ensures var tail := Survivors(list[i + 1..], cred);
            && Survivors(list[i..], cred) == (if Survives(list[i], cred) then [list[i]] else []) + tail
            && list[..i + 1] + tail == list[..i] + ([list[i]] + tail)
            && RemoveAt(list[..i + 1] + tail, i) == list[..i] + tail
  {
    assert list[i..][1..] == list[i + 1..];
  }

  /** How many instances have to be removed for `cred`. */
  function Removals(conf: Configuration, id: string, list: seq<AttributeList>, cred: AttributeList): int {
    |list| + 1 - |ListAfterAdd(conf, id, list, cred)|
  }

  lemma {:induction false} SurvivorsPrefix(list: seq<AttributeList>, k: nat, cred: AttributeList)
    requires k <= |list|
    ensures |Survivors(list[k..], cred)| <= |Survivors(list, cred)| <= k + |Survivors(list[k..], cred)|
  {
    hide Survives;
    if k == 0 {
      assert list[0..] == list;
    } else {
      SurvivorsPrefix(list[1..], k - 1, cred);
      assert list[1..][k - 1..] == list[k..];
    }
  }

  /** An instance that does not survive leaves room for fewer survivors. */
  lemma SurvivorsFewer(list: seq<AttributeList>, i: nat, cred: AttributeList)
    requires i < |list|
    ensures !Survives(list[i], cred) ==> |Survivors(list, cred)| <= i + |Survivors(list[i + 1..], cred)|
  {
    SurvivorsPrefix(list, i, cred);
    SurvivorsStep(list, i, cred);
    hide Survives;
  }

  /** What is removed first and what is removed afterwards add up. */
  lemma RemovalsSplit(conf: Configuration, id: string, list: seq<AttributeList>, kept: seq<AttributeList>,
                      cred: AttributeList)
    requires id in conf.types
    requires if conf.types[id].singleton then kept == [] else Survivors(kept, cred) == Survivors(list, cred)
    ensures Removals(conf, id, list, cred) == (|list| - |kept|) + (|kept| - |Survivors(kept, cred)|)
    ensures ListAfterAdd(conf, id, list, cred) == Survivors(kept, cred) + [cred]
  {
  }

  lemma {:induction false} SurvivorsSurvive(list: seq<AttributeList>, cred: AttributeList)
    ensures forall a :: a in Survivors(list, cred) <==> a in list && Survives(a, cred)
  {
    if list != [] {
      SurvivorsSurvive(list[1..], cred);
      assert list == [list[0]] + list[1..];
    }
  }

  /** Where the element at position `i` of list `x` was before position `k` of list `id` was removed. */
  function Before(id: string, k: nat, x: string, i: nat): nat {
    if x == id && i >= k then i + 1 else i
  }

  ghost function Shortened(attributes: Attributes, id: string, k: nat): (after: Attributes)
    requires id in attributes && k < |attributes[id]|
    ensures after.Keys == attributes.Keys
    ensures forall x, i: nat :: x in after && i < |after[x]| ==>
      Before(id, k, x, i) < |attributes[x]| && after[x][i] == attributes[x][Before(id, k, x, i)]
    ensures forall x :: x in after ==> |after[x]| == |attributes[x]| - (if x == id then 1 else 0)
  {
    attributes[id := RemoveAt(attributes[id], k)]
  }

  /** The index after that removal: the removed hash is gone, later positions move down by one. */
  ghost predicate Renumbered(attributes: Attributes, lookup: map<string, CredLookup>, id: string, k: nat,
                             lookup': map<string, CredLookup>)
    requires id in attributes && k < |attributes[id]|
  {
    && lookup'.Keys == lookup.Keys - {attributes[id][k].hash}
    && forall h :: h in lookup' ==>
      lookup'[h] == if lookup[h].id == id && lookup[h].counter > k then CredLookup(id, lookup[h].counter - 1)
        else lookup[h]
  }

  lemma RemoveKeepsLists(conf: Configuration, attributes: Attributes, id: string, k: nat)
    requires id in attributes && k < |attributes[id]|
    ensures ListsWellFormed(conf, attributes) ==> ListsWellFormed(conf, Shortened(attributes, id, k))
    ensures SingletonsHeldOnce(conf, attributes) ==> SingletonsHeldOnce(conf, Shortened(attributes, id, k))
    ensures InstancesDiffer(attributes) ==> InstancesDiffer(Shortened(attributes, id, k))
  {
    var after: Attributes := Shortened(attributes, id, k);
    forall x, i: nat | ListsWellFormed(conf, attributes) && x in after && i < |after[x]|
      ensures WellFormed(conf, after[x][i], x) {
      assert WellFormed(conf, attributes[x][Before(id, k, x, i)], x);
    }
    if InstancesDiffer(attributes) {
      forall x | x in after ensures NoEqualInstances(after[x]) {
        assert NoEqualInstances(attributes[x]);
      }
    }
  }

  lemma RemoveKeepsLookup(attributes: Attributes, lookup: map<string, CredLookup>,
                          id: string, k: nat, lookup': map<string, CredLookup>)
    requires LookupExact(attributes, lookup)
    requires id in attributes && k < |attributes[id]|
    requires Renumbered(attributes, lookup, id, k, lookup')
    ensures LookupExact(Shortened(attributes, id, k), lookup')
  {
    var after: Attributes := Shortened(attributes, id, k);
    assert IndexedAt(attributes, lookup, id, k);
    forall x, i: nat | x in after && i < |after[x]| ensures IndexedAt(after, lookup', x, i) {
      assert IndexedAt(attributes, lookup, x, Before(id, k, x, i));
    }
    forall h | h in lookup' ensures BackedAt(after, lookup', h) {
      assert BackedAt(attributes, lookup, h);
      assert Before(id, k, lookup'[h].id, lookup'[h].counter) == lookup[h].counter;
    }
  }

  /** Appending a credential whose hash is new and which equals no instance keeps the invariant. */
  lemma AppendKeepsInv(conf: Configuration, attributes: Attributes, lookup: map<string, CredLookup>,
                       id: string, cred: AttributeList)
    requires StoreInv(conf, attributes, lookup)
    requires WellFormed(conf, cred, id) && cred.hash !in lookup
    requires conf.types[id].singleton ==> Held(attributes, id) == []
    requires forall i :: 0 <= i < |Held(attributes, id)| ==> Survives(Held(attributes, id)[i], cred)
    ensures var list := Held(attributes, id);
            StoreInv(conf, attributes[id := list + [cred]], lookup[cred.hash := CredLookup(id, |list|)])
  {
    var list := Held(attributes, id);
    var after := attributes[id := list + [cred]];
    var lookup' := lookup[cred.hash := CredLookup(id, |list|)];
    forall x, i: nat | x in after && i < |after[x]|
      ensures WellFormed(conf, after[x][i], x) && IndexedAt(after, lookup', x, i)
    {
      if x != id || i < |list| {
        assert after[x][i] == attributes[x][i];
        assert IndexedAt(attributes, lookup, x, i);
        assert WellFormed(conf, attributes[x][i], x);
      }
    }
    forall h | h in lookup' ensures BackedAt(after, lookup', h) {
      assert h in lookup ==> BackedAt(attributes, lookup, h);
    }
    hide WellFormed, IndexedAt, BackedAt;
    forall x | x in after ensures NoEqualInstances(after[x]) {
      if x in attributes {
        assert NoEqualInstances(attributes[x]);
      }
    }
  }

  ghost predicate NotHeld(attributes: Attributes, hash: string) {
    forall id, i: nat :: !HoldsAt(attributes, hash, id, i)
  }

  ghost predicate SameElsewhere(a: Attributes, b: Attributes, id: string) {
    forall x :: x != id ==> (x in a <==> x in b) && (x in a ==> a[x] == b[x])
  }

  /** SHA-256 has no collisions. */
  ghost predicate HashInjective(conf: Configuration) {
    forall a: bytes, b: bytes :: conf.sha256(a) == conf.sha256(b) ==> a == b
  }

  lemma {:induction false} HashedFirst(ints: seq<nat>)
    requires ints != []
    ensures ToBytes(ints[0]) <= HashedBytes(ints)
  {
    hide ToBytes;
    if |ints| == 1 {
      assert ints[..0] == [];
      assert HashedBytes(ints) == [] + ToBytes(ints[0]);
    } else {
      HashedFirst(ints[..|ints| - 1]);
    }
  }

  /** The metadata is hashed first and fills its 24 bytes, so equal hashes have equal metadata. */
  lemma SameHashSameMetadata(conf: Configuration, a: AttributeList, x: string, b: AttributeList, y: string)
    requires HashInjective(conf) && WellFormed(conf, a, x) && WellFormed(conf, b, y) && a.hash == b.hash
    ensures a.ints[0] == b.ints[0] && x == y
  {
    var bs := HashedBytes(a.ints);
    assert bs == HashedBytes(b.ints);
    HashedFirst(a.ints);
    HashedFirst(b.ints);
    assert ToBytes(a.ints[0]) == bs[..METADATA_LENGTH] == ToBytes(b.ints[0]);
    FromToBytes(a.ints[0]);
    FromToBytes(b.ints[0]);
    hide TypeOfMetadata, ToBytes, HashedBytes, FromBytes;
  }

  /** So the same hash is only held under the same type. */
  lemma SameHashSameType(conf: Configuration, attributes: Attributes, cred: AttributeList, id: string)
    requires HashInjective(conf) && ListsWellFormed(conf, attributes) && WellFormed(conf, cred, id)
    ensures forall x, i: nat :: HoldsAt(attributes, cred.hash, x, i) ==> x == id
  {
    hide TypeOfMetadata, ToBytes, HashedBytes, HashInjective;
    forall x, i: nat | HoldsAt(attributes, cred.hash, x, i) ensures x == id {
      assert WellFormed(conf, attributes[x][i], x);
      SameHashSameMetadata(conf, attributes[x][i], x, cred, id);
    }
  }

  /** Which instances of its type a new credential displaces: those whose integers have the same bytes
      in a row, and those with the same attributes apart from metadata. */
  lemma DisplacedIff(conf: Configuration, held: AttributeList, cred: AttributeList, id: string)
    requires HashInjective(conf) && WellFormed(conf, held, id) && WellFormed(conf, cred, id)
    ensures !Survives(held, cred) <==>
            HashedBytes(held.ints) == HashedBytes(cred.ints) || held.ints[1..] == cred.ints[1..]
  {
    hide TypeOfMetadata, ToBytes, HashedBytes;
    if held.ints[1..] == cred.ints[1..] {
      forall i | 1 <= i < |held.ints| ensures held.ints[i] == cred.ints[i] {
        assert held.ints[i] == held.ints[1..][i - 1] && cred.ints[i] == cred.ints[1..][i - 1];
      }
    }
  }

  predicate SameLengths(a: seq<nat>, b: seq<nat>)
    requires |a| == |b|
  {
    forall i :: 0 <= i < |a| ==> |ToBytes(a[i])| == |ToBytes(b[i])|
  }

  /** The same bytes in a row are the same integers if and only if they are cut at the same places: lengths
      are not hashed, and 0, an absent attribute, has no bytes at all. */
  lemma {:induction false} SameBytesSameInts(a: seq<nat>, b: seq<nat>)
    requires |a| == |b| && HashedBytes(a) == HashedBytes(b)
    ensures a == b <==> SameLengths(a, b)
  {
    hide ToBytes;
    if a != [] && SameLengths(a, b) {
      var n := |a| - 1;
      var x, y := HashedBytes(a[..n]), HashedBytes(b[..n]);
      assert |ToBytes(a[n])| == |ToBytes(b[n])|;
      assert x == HashedBytes(a)[..|x|] && ToBytes(a[n]) == HashedBytes(a)[|x|..];
      assert y == HashedBytes(b)[..|y|] && ToBytes(b[n]) == HashedBytes(b)[|y|..];
      FromToBytes(a[n]);
      FromToBytes(b[n]);
      assert SameLengths(a[..n], b[..n]);
      SameBytesSameInts(a[..n], b[..n]);
      assert a == a[..n] + [a[n]] && b == b[..n] + [b[n]];
    }
  }

  /** Two credentials with the same metadata and the value in different optional attributes have the same
      hash. */
  lemma AbsentAttributesCollide(meta: nat)
    ensures HashedBytes([meta, 0, 131]) == HashedBytes([meta, 131, 0])
  {
    assert ToBytes(0) == [] && ToBytes(131) == [131];
    var a, b := [meta, 0, 131], [meta, 131, 0];
    assert a[..2] == [meta, 0] && b[..2] == [meta, 131] && a[..2][..1] == [meta] == b[..2][..1];
    assert HashedBytes([meta, 0]) == HashedBytes([meta]) + [];
    assert HashedBytes([meta, 131]) == HashedBytes([meta]) + [131];
  }

  /** Adding one of them displaces the other, although they have different attributes. */
  lemma DifferentCredentialDisplaced(conf: Configuration, id: string, meta: nat, a: AttributeList, b: AttributeList)
    requires WellFormed(conf, a, id) && WellFormed(conf, b, id) && !conf.types[id].singleton
    requires a.ints == [meta, 0, 131] && b.ints == [meta, 131, 0]
    ensures !EqualsExceptMetadata(a, b) && ListAfterAdd(conf, id, [a], b) == [b]
  {
    AbsentAttributesCollide(meta);
    assert a.ints[1] != b.ints[1];
    assert Survivors([a], b) == [];
    hide TypeOfMetadata, ToBytes, HashedBytes;
  }

  /** Removing the instance with the hash of `cred`: it is gone, and it had to go. */
  lemma HashRemoved(conf: Configuration, attributes: Attributes, lookup: map<string, CredLookup>, id: string,
                    cred: AttributeList, k: nat)
    requires StoreInv(conf, attributes, lookup) && HoldsAt(attributes, cred.hash, id, k)
    ensures NotHeld(Shortened(attributes, id, k), cred.hash)
    ensures SameElsewhere(Shortened(attributes, id, k), attributes, id)
    ensures Held(Shortened(attributes, id, k), id) == RemoveAt(Held(attributes, id), k)
    ensures Survivors(RemoveAt(Held(attributes, id), k), cred) == Survivors(Held(attributes, id), cred)
    ensures Removals(conf, id, Held(attributes, id), cred) > 0
  {
    RemovedNotHeld(attributes, lookup, id, k);
    SurvivorsWithoutHash(Held(attributes, id), cred, k);
    SurvivorsFewer(Held(attributes, id), k, cred);
    SurvivorsPrefix(Held(attributes, id), |Held(attributes, id)|, cred);
    SurvivorsPrefix(Held(attributes, id)[k + 1..], |Held(attributes, id)| - k - 1, cred);
    hide StoreInv;
  }

  /** One step of dropping equal instances from the end. */
  lemma DropStep(list: seq<AttributeList>, i: nat, cred: AttributeList, attributes: Attributes, id: string)
    requires i < |list| && NotHeld(attributes, cred.hash)
    requires Held(attributes, id) == list[..i + 1] + Survivors(list[i + 1..], cred)
    ensures var held := Held(attributes, id);
            && id in attributes && i < |held|
            && Held(Shortened(attributes, id, i), id) == RemoveAt(held, i)
            && (if EqualsExceptMetadata(held[i], cred)
                then RemoveAt(held, i) == list[..i] + Survivors(list[i..], cred)
                     && |Survivors(list, cred)| < |held|
                else held == list[..i] + Survivors(list[i..], cred))
  {
    hide Survivors, EqualsExceptMetadata, Shortened, RemoveAt;
    assert Held(attributes, id)[i] == list[i] && |list[..i + 1]| == i + 1;
    assert !HoldsAt(attributes, cred.hash, id, i);
    hide NotHeld;
    DropFromList(list, i, cred);
    HeldShortened(attributes, id, i);
  }

  lemma DropFromList(list: seq<AttributeList>, i: nat, cred: AttributeList)
    requires i < |list| && list[i].hash != cred.hash
    ensures var held := list[..i + 1] + Survivors(list[i + 1..], cred);
            if EqualsExceptMetadata(list[i], cred)
            then RemoveAt(held, i) == list[..i] + Survivors(list[i..], cred) && |Survivors(list, cred)| < |held|
            else held == list[..i] + Survivors(list[i..], cred)
  {
    SurvivorsStep(list, i, cred);
    SurvivorsFewer(list, i, cred);
    assert Survives(list[i], cred) <==> !EqualsExceptMetadata(list[i], cred);
    hide Survivors, Survives, EqualsExceptMetadata;
    var tail := Survivors(list[i + 1..], cred);
    assert [] + tail == tail;
  }

  lemma HeldShortened(attributes: Attributes, id: string, k: nat)
    requires id in attributes && k < |attributes[id]|
    ensures Held(Shortened(attributes, id, k), id) == RemoveAt(attributes[id], k)
  {
  }

  lemma SameAsItself(a: Attributes, id: string)
    ensures SameElsewhere(a, a, id)
  {
  }

  lemma ShortenedElsewhere(a: Attributes, b: Attributes, id: string, k: nat)
    requires SameElsewhere(a, b, id) && id in a && k < |a[id]|
    ensures SameElsewhere(Shortened(a, id, k), b, id)
  {
  }

  lemma SameElsewhereToo(a: Attributes, b: Attributes, c: Attributes, id: string)
    requires SameElsewhere(a, b, id) && SameElsewhere(b, c, id)
    ensures SameElsewhere(a, c, id)
  {
  }

  lemma AppendedElsewhere(a: Attributes, b: Attributes, id: string, list: seq<AttributeList>)
    requires SameElsewhere(a, b, id)
    ensures SameElsewhere(a[id := list], b, id)
  {
  }

  lemma WellFormedKnown(conf: Configuration, cred: AttributeList, id: string)
    requires WellFormed(conf, cred, id)
    ensures id in conf.types
  {
  }

  lemma AppendNew(conf: Configuration, attributes: Attributes, lookup: map<string, CredLookup>, id: string,
                  cred: AttributeList, kept: seq<AttributeList>)
    requires StoreInv(conf, attributes, lookup) && WellFormed(conf, cred, id) && NotHeld(attributes, cred.hash)
    requires conf.types[id].singleton ==> kept == []
    requires Held(attributes, id) == Survivors(kept, cred)
    ensures var list := Held(attributes, id);
            StoreInv(conf, attributes[id := list + [cred]], lookup[cred.hash := CredLookup(id, |list|)])
    ensures conf.types[id].singleton ==> Held(attributes, id) == []
  {
    NotHeldNotIndexed(attributes, lookup, cred.hash);
    SurvivorsSurvive(kept, cred);
    hide NotHeld;
    AppendKeepsInv(conf, attributes, lookup, id, cred);
  }

  lemma NotHeldNotIndexed(attributes: Attributes, lookup: map<string, CredLookup>, hash: string)
    requires LookupExact(attributes, lookup)
    ensures NotHeld(attributes, hash) <==> hash !in lookup
  {
    if hash in lookup {
      assert BackedAt(attributes, lookup, hash);
      assert HoldsAt(attributes, hash, lookup[hash].id, lookup[hash].counter);
    } else {
      forall id, i: nat ensures !HoldsAt(attributes, hash, id, i) {
        assert id in attributes && i < |attributes[id]| ==> IndexedAt(attributes, lookup, id, i);
      }
    }
  }

  lemma RemovePreservesNotHeld(attributes: Attributes, id: string, k: nat, hash: string)
    requires id in attributes && k < |attributes[id]| && NotHeld(attributes, hash)
    ensures NotHeld(Shortened(attributes, id, k), hash)
  {
    var after: Attributes := Shortened(attributes, id, k);
    forall x, i: nat ensures !HoldsAt(after, hash, x, i) {
      assert !HoldsAt(attributes, hash, x, Before(id, k, x, i));
    }
  }

  lemma RemovedNotHeld(attributes: Attributes, lookup: map<string, CredLookup>, id: string, k: nat)
    requires LookupExact(attributes, lookup)
    requires id in attributes && k < |attributes[id]|
    ensures NotHeld(Shortened(attributes, id, k), attributes[id][k].hash)
  {
    var hash := attributes[id][k].hash;
    assert IndexedAt(attributes, lookup, id, k);
    var after: Attributes := Shortened(attributes, id, k);
    forall x, i: nat ensures !HoldsAt(after, hash, x, i) {
      if x in after && i < |after[x]| {
        assert IndexedAt(attributes, lookup, x, Before(id, k, x, i));
      }
    }
  }

  /** An index that was not updated after a removal points past what is held. */
  lemma StaleIndex(attributes: Attributes, lookup: map<string, CredLookup>, id: string, k: nat)
    requires LookupExact(attributes, lookup)
    requires id in attributes && k < |attributes[id]|
    ensures !LookupExact(Shortened(attributes, id, k), lookup)
  {
    var hash := attributes[id][k].hash;
    var after: Attributes := Shortened(attributes, id, k);
    assert IndexedAt(attributes, lookup, id, k);
    if k < |after[id]| {
      assert IndexedAt(attributes, lookup, id, k + 1);
      assert Before(id, k, id, k) == k + 1;
    }
    assert !BackedAt(after, lookup, hash);
  }

  /** attributesByHash */
  function AttributesByHash(attributes: Attributes, lookup: map<string, CredLookup>,
                            hash: string): Option<AttributeList> {
    if hash in lookup && lookup[hash].id in attributes && lookup[hash].counter < |attributes[lookup[hash].id]|
    then Some(attributes[lookup[hash].id][lookup[hash].counter]) else None
  }

  /** Looking up a hash finds exactly the held credential with that hash. */
  lemma AttributesByHashExact(conf: Configuration, attributes: Attributes, lookup: map<string, CredLookup>,
                              hash: string)
    requires StoreInv(conf, attributes, lookup)
    ensures forall id, i: nat :: HoldsAt(attributes, hash, id, i) ==>
      AttributesByHash(attributes, lookup, hash) == Some(attributes[id][i])
    ensures AttributesByHash(attributes, lookup, hash).None? <==> NotHeld(attributes, hash)
    ensures AttributesByHash(attributes, lookup, hash).Some? ==>
      HoldsAt(attributes, hash, lookup[hash].id, lookup[hash].counter)
      && WellFormed(conf, AttributesByHash(attributes, lookup, hash).value, lookup[hash].id)
  {
    NotHeldNotIndexed(attributes, lookup, hash);
    forall id, i: nat | HoldsAt(attributes, hash, id, i)
      ensures AttributesByHash(attributes, lookup, hash) == Some(attributes[id][i])
    {
      assert IndexedAt(attributes, lookup, id, i);
    }
    if hash in lookup {
      assert BackedAt(attributes, lookup, hash);
      assert WellFormed(conf, attributes[lookup[hash].id][lookup[hash].counter], lookup[hash].id);
    }
  }

  class Client {
    const conf: Configuration
    var attributes: Attributes
    var lookup: map<string, CredLookup>

    ghost predicate Valid()
      reads this
    {
      StoreInv(conf, attributes, lookup)
    }

    constructor (conf: Configuration)
      ensures Valid() && this.conf == conf && attributes == map[] && lookup == map[]
    {
      this.conf := conf;
      attributes := map[];
      lookup := map[];
    }

    /** remove: an unknown position is an error that changes nothing. When storage fails the list has
        already been shortened but the index has not, so exactly then the invariant is lost. */
    method Remove(id: string, index: nat, storageOk: bool) returns (ok: bool)
      requires Valid()
      modifies this
      ensures old(index >= |Held(attributes, id)|) ==> !ok && attributes == old(attributes) && lookup == old(lookup)
      ensures old(index < |Held(attributes, id)|) ==>
        ok == storageOk && attributes == old(Shortened(attributes, id, index))
      ensures old(index < |Held(attributes, id)|) ==> (Valid() <==> storageOk)
    {
      if id !in attributes || index >= |attributes[id]| {
        return false;
      }
      ghost var before := attributes;
      var list := attributes[id];
      var attrs := list[index];
      attributes := attributes[id := list[..index] + list[index + 1..]];
      if !storageOk {
        StaleIndex(before, lookup, id, index);
        return false;
      }
      lookup := Reindex(lookup, attrs.hash, id, attributes[id], before, index);
      RemoveKeepsLists(conf, before, id, index);
      RemoveKeepsLookup(before, old(lookup), id, index, lookup);
      return true;
    }

    /** The end of remove: drop the hash, then number the remaining list again. */
    static method Reindex(lookup: map<string, CredLookup>, hash: string, id: string, rest: seq<AttributeList>,
                          ghost before: Attributes, ghost k: nat)
      returns (lookup': map<string, CredLookup>)
      requires LookupExact(before, lookup)
      requires id in before && k < |before[id]| && before[id][k].hash == hash
      requires rest == Shortened(before, id, k)[id]
      ensures Renumbered(before, lookup, id, k, lookup')
    {
      lookup' := map h | h in lookup && h != hash :: lookup[h];
      assert IndexedAt(before, lookup, id, k);
      for i := 0 to |rest|
        invariant lookup'.Keys == lookup.Keys - {hash}
        invariant forall h :: h in lookup' ==>
          lookup'[h] == if lookup[h].id == id && k < lookup[h].counter <= i
                        then CredLookup(id, lookup[h].counter - 1) else lookup[h]
      {
        var h := rest[i].hash;
        assert IndexedAt(before, lookup, id, Before(id, k, id, i));
        forall h' | h' in lookup' && lookup[h'] == lookup[h] ensures h' == h {
          assert BackedAt(before, lookup, h');
        }
        lookup' := lookup'[h := lookup'[h].(counter := i)];
      }
      forall h | h in lookup' && lookup[h].id == id ensures lookup[h].counter <= |rest| {
        assert BackedAt(before, lookup, h);
      }
    }

    /** The position of an instance with the same hash, searching every list (-1 if none). */
    method FindByHash(cred: AttributeList, id: string) returns (index: int)
      requires Valid() && WellFormed(conf, cred, id) && HashInjective(conf)
      ensures index == -1 ==> NotHeld(attributes, cred.hash)
      ensures index != -1 ==> index >= 0 && HoldsAt(attributes, cred.hash, id, index)
    {
      var hash := cred.hash;
      SameHashSameType(conf, attributes, cred, id);
      index := -1;
      var ids := attributes.Keys;
      while ids != {}
        invariant ids <= attributes.Keys
        invariant index == -1 ==> forall x, i :: HoldsAt(attributes, hash, x, i) ==> x in ids
        invariant index != -1 ==> index >= 0 && HoldsAt(attributes, hash, id, index)
        decreases ids
      {
        var x :| x in ids;
        var list := attributes[x];
        var i := 0;
        while i < |list|
          invariant 0 <= i <= |list|
          invariant forall k :: 0 <= k < i ==> list[k].hash != hash
          invariant index == -1 ==> forall x, i :: HoldsAt(attributes, hash, x, i) ==> x in ids
          invariant index != -1 ==> index >= 0 && HoldsAt(attributes, hash, id, index)
        {
          if list[i].hash == hash {
            assert HoldsAt(attributes, hash, x, i);
            index := i;
            break;
          }
          i := i + 1;
        }
        ids := ids - {x};
      }
    }

    /** Drops the instances equal to `cred` except for metadata, going backwards; `writes` is how often
        storage succeeds before it fails. */
    method DropEqualInstances(id: string, cred: AttributeList, writes: nat) returns (ok: bool, left: nat)
      requires Valid() && NotHeld(attributes, cred.hash)
      modifies this
      ensures ok <==> |old(Held(attributes, id))| - |Survivors(old(Held(attributes, id)), cred)| <= writes
      ensures ok ==> Valid() && NotHeld(attributes, cred.hash)
      ensures ok ==> Held(attributes, id) == Survivors(old(Held(attributes, id)), cred)
      ensures ok ==> SameElsewhere(attributes, old(attributes), id)
      ensures ok ==> left == writes - (|old(Held(attributes, id))| - |Held(attributes, id)|)
      ensures !ok ==> !Valid()
    {
      ghost var list := Held(attributes, id);
      assert list[..|list|] + Survivors(list[|list|..], cred) == list;
      hide StoreInv, SameElsewhere, EqualsExceptMetadata, Survivors, NotHeld, Shortened;
      assert SameElsewhere(attributes, attributes, id) by { SameAsItself(attributes, id); }
      left := writes;
      var i := |Held(attributes, id)| - 1;
      while i >= 0
        invariant -1 <= i < |list|
        invariant Valid() && NotHeld(attributes, cred.hash)
        invariant Held(attributes, id) == list[..i + 1] + Survivors(list[i + 1..], cred)
        invariant SameElsewhere(attributes, old(attributes), id)
        invariant left == writes - (|list| - |Held(attributes, id)|)
      {
        DropStep(list, i, cred, attributes, id);
        if EqualsExceptMetadata(Held(attributes, id)[i], cred) {
          RemovePreservesNotHeld(attributes, id, i, cred.hash);
          ShortenedElsewhere(attributes, old(attributes), id, i);
          ok := Remove(id, i, left > 0);
          if !ok {
            return;
          }
          left := left - 1;
        }
        i := i - 1;
      }
      assert list[..0] + Survivors(list[0..], cred) == Survivors(list, cred) by { assert list[0..] == list; }
      ok := true;
    }

    /** The first part of addCredential: the same credential and, for a singleton type, any instance
        gives way. */
    method MakeRoom(id: string, cred: AttributeList, writes: nat) returns (ok: bool, left: nat)
      requires Valid() && WellFormed(conf, cred, id) && HashInjective(conf)
      modifies this
      ensures ok ==> Valid() && NotHeld(attributes, cred.hash)
      ensures ok ==> SameElsewhere(attributes, old(attributes), id)
      ensures ok && conf.types[id].singleton ==> Held(attributes, id) == []
      ensures ok && !conf.types[id].singleton ==>
        Survivors(Held(attributes, id), cred) == Survivors(old(Held(attributes, id)), cred)
      ensures ok ==> left == writes - (|old(Held(attributes, id))| - |Held(attributes, id)|)
      ensures !ok ==> !Valid() && writes < Removals(conf, id, old(Held(attributes, id)), cred)
    {
      hide StoreInv, Survives;
      ghost var list := Held(attributes, id);
      left := writes;
      var index := FindByHash(cred, id);
      if index != -1 {
        HashRemoved(conf, attributes, lookup, id, cred, index);
        ok := Remove(id, index, left > 0);
        if !ok {
          return;
        }
        left := left - 1;
      }
      if conf.types[id].singleton {
        while |Held(attributes, id)| != 0
          invariant Valid() && NotHeld(attributes, cred.hash)
          invariant SameElsewhere(attributes, old(attributes), id)
          invariant left == writes - (|list| - |Held(attributes, id)|)
          decreases |Held(attributes, id)|
        {
          RemovePreservesNotHeld(attributes, id, 0, cred.hash);
          ok := Remove(id, 0, left > 0);
          if !ok {
            return;
          }
          left := left - 1;
        }
      }
      ok := true;
    }

    /** addCredential: exactly the previous instances that have the same hash, or the same attributes, or
        are of the same singleton type, give way to it (DisplacedIff). If storage fails while one of them
        is removed, and only then, the store is left inexact; if it fails at the end the credential is
        in memory although an error is returned. */
    method AddCredential(cred: AttributeList, id: string, writes: nat) returns (ok: bool)
      requires Valid() && WellFormed(conf, cred, id) && HashInjective(conf)
      modifies this
      ensures ok <==> writes > Removals(conf, id, old(Held(attributes, id)), cred)
      ensures Valid() <==> writes >= Removals(conf, id, old(Held(attributes, id)), cred)
      ensures Valid() ==> Held(attributes, id) == ListAfterAdd(conf, id, old(Held(attributes, id)), cred)
      ensures Valid() ==> SameElsewhere(attributes, old(attributes), id)
    {
      hide StoreInv, Survivors, Survives, SameElsewhere, NotHeld, WellFormed;
      ghost var list := Held(attributes, id);
      var left;
      ok, left := MakeRoom(id, cred, writes);
      if !ok {
        return;
      }
      ghost var made, kept := attributes, Held(attributes, id);
      assert id in conf.types by { WellFormedKnown(conf, cred, id); }
      RemovalsSplit(conf, id, list, kept, cred);
      ok, left := DropEqualInstances(id, cred, left);
      if !ok {
        return;
      }
      SameElsewhereToo(attributes, made, old(attributes), id);
      AppendNew(conf, attributes, lookup, id, cred, kept);
      var rest := Held(attributes, id);
      AppendedElsewhere(attributes, old(attributes), id, rest + [cred]);
      attributes := attributes[id := rest + [cred]];
      lookup := lookup[cred.hash := CredLookup(id, |rest|)];
      ok := left > 0;
    }
  }
}
