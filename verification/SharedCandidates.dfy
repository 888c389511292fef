/** irmaclient/client.go: concrete credential stores on which the client's listing and its bookkeeping
    are not what they seem. */
module SharedCandidates {
  import opened Outcomes
  import opened Codec
  import opened Identifiers
  import opened Scheme
  import opened Requests
  import opened CredentialStore
  import opened Products
  import opened Candidates

  // ---------------------------------------------------------------- four credential types

  /** "s.i.a" and so on. */
  function Id(c: char): string { "s.i." + [c] }

  lemma IdParts(c: char)
    requires c != '.'
    ensures PartsCount(Id(c)) == 2 && CredentialTypeOf(Id(c)) == Id(c)
  {
    assert Id(c)[..4] == "s.i." && "s.i."[..3] == "s.i" && "s.i"[..2] == "s." && "s."[..1] == "s" && "s"[..0] == "";
    assert PartsCount("s") == 0 && PartsCount("s.") == 1 && PartsCount("s.i") == 1 && PartsCount("s.i.") == 2;
  }

  function HashOf(n: byte): (h: bytes)
    ensures |h| == 16
  {
    seq(16, _ => n)
  }

  /** A credential of the n-th type, with one attribute. */
  function Card(n: byte, sha256: bytes -> string): AttributeList {
    var ints := [MetadataOf(HashOf(n)), 3];
    AttributeList(sha256(HashedBytes(ints)), ints, false, true)
  }

  function TypeWith(singleton: bool): CredentialType {
    CredentialType("s", [AttributeType("x", false, false, false)], singleton, false, 0, false, !singleton, [])
  }

  /** Three singleton types, and one of which more instances can be obtained. */
  function FourTypes(sha256: bytes -> string): Configuration {
    Configuration(
      map[Id('a') := TypeWith(true), Id('b') := TypeWith(true), Id('c') := TypeWith(true), Id('d') := TypeWith(false)],
      map[HashOf(1) := Id('a'), HashOf(2) := Id('b'), HashOf(3) := Id('c'), HashOf(4) := Id('d')],
      map[], n => [], sha256)
  }

  /** One credential of each. */
  function FourCards(sha256: bytes -> string): Attributes {
    map[Id('a') := [Card(1, sha256)], Id('b') := [Card(2, sha256)], Id('c') := [Card(3, sha256)],
        Id('d') := [Card(4, sha256)]]
  }

  function FourLookups(sha256: bytes -> string): map<string, CredLookup> {
    map[Card(1, sha256).hash := CredLookup(Id('a'), 0), Card(2, sha256).hash := CredLookup(Id('b'), 0),
        Card(3, sha256).hash := CredLookup(Id('c'), 0), Card(4, sha256).hash := CredLookup(Id('d'), 0)]
  }

  function Whole(c: char): AttributeRequest { AttributeRequest(Id(c), None, false) }

  /** All four are asked for. */
  const ALL_FOUR: AttributeCon := [Whole('a'), Whole('b'), Whole('c'), Whole('d')]

  function FourContext(sha256: bytes -> string, grow: Growth, now: int): Context {
    Context(FourTypes(sha256), FourCards(sha256), FourLookups(sha256),
            SessionRequest([[ALL_FOUR]], [Id('a'), Id('b'), Id('c'), Id('d')], map[], []), now, grow)
  }

  ghost predicate IsSha(sha256: bytes -> string) {
    (forall bs: bytes :: sha256(bs) != "") && forall a: bytes, b: bytes :: sha256(a) == sha256(b) ==> a == b
  }

  predicate Nth(n: byte, c: char) {
    (n == 1 && c == 'a') || (n == 2 && c == 'b') || (n == 3 && c == 'c') || (n == 4 && c == 'd')
  }

  lemma HashesDiffer(m: byte, n: byte)
    requires m != n
    ensures HashOf(m) != HashOf(n)
  {
    assert HashOf(m)[0] == m && HashOf(n)[0] == n;
  }

  lemma TypeByHash(n: byte, c: char, meta: nat, sha256: bytes -> string)
    requires Nth(n, c) && CredentialTypeHash(meta) == HashOf(n)
    ensures TypeOfMetadata(FourTypes(sha256), meta) == Some(Id(c)) && Id(c) in FourTypes(sha256).types
    ensures |FourTypes(sha256).types[Id(c)].attributes| == 1
  {
    hide HashOf, Field, Id, CredentialTypeHash;
    HashesDiffer(1, 2);
    HashesDiffer(1, 3);
    HashesDiffer(1, 4);
    HashesDiffer(2, 3);
    HashesDiffer(2, 4);
    HashesDiffer(3, 4);
    IdsDiffer();
  }

  lemma CardWellFormed(n: byte, c: char, sha256: bytes -> string)
    requires IsSha(sha256) && Nth(n, c)
    ensures WellFormed(FourTypes(sha256), Card(n, sha256), Id(c))
  {
    hide MetadataOf, ToBytes, HashedBytes, HashOf, Field, Id, FourTypes, TypeOfMetadata, CredentialTypeHash, Version;
    MetadataOfReads(HashOf(n));
    TypeByHash(n, c, MetadataOf(HashOf(n)), sha256);
    assert FourTypes(sha256).sha256 == sha256 by { FourSha(sha256); }
  }

  lemma FourSha(sha256: bytes -> string)
    ensures FourTypes(sha256).sha256 == sha256
  {
  }

  lemma IdsDiffer()
    ensures Id('a') != Id('b') && Id('a') != Id('c') && Id('a') != Id('d')
    ensures Id('b') != Id('c') && Id('b') != Id('d') && Id('c') != Id('d')
  {
    assert Id('a')[4] == 'a' && Id('b')[4] == 'b' && Id('c')[4] == 'c' && Id('d')[4] == 'd';
  }

  lemma CardsDiffer(m: byte, c: char, n: byte, d: char, sha256: bytes -> string)
    requires IsSha(sha256) && Nth(m, c) && Nth(n, d) && Card(m, sha256).hash == Card(n, sha256).hash
    ensures m == n
  {
    CardWellFormed(m, c, sha256);
    CardWellFormed(n, d, sha256);
    hide WellFormed, HashedBytes, FourTypes, Card, Id;
    assert HashInjective(FourTypes(sha256)) by { FourSha(sha256); }
    SameHashSameMetadata(FourTypes(sha256), Card(m, sha256), Id(c), Card(n, sha256), Id(d));
    IdsDiffer();
  }

  lemma CardAt(id: string, i: nat, sha256: bytes -> string) returns (n: byte, c: char)
    requires id in FourCards(sha256) && i < |FourCards(sha256)[id]|
    ensures Nth(n, c) && id == Id(c) && i == 0 && FourCards(sha256)[id] == [Card(n, sha256)]
  {
    IdsDiffer();
    hide Id, Card;
    n, c := if id == Id('a') then 1 else if id == Id('b') then 2 else if id == Id('c') then 3 else 4,
      if id == Id('a') then 'a' else if id == Id('b') then 'b' else if id == Id('c') then 'c' else 'd';
  }

  lemma FourHashesDiffer(sha256: bytes -> string)
    requires IsSha(sha256)
    ensures var a, b, c, d := Card(1, sha256).hash, Card(2, sha256).hash, Card(3, sha256).hash, Card(4, sha256).hash;
            a != b && a != c && a != d && b != c && b != d && c != d
  {
    hide Card;
    if Card(1, sha256).hash == Card(2, sha256).hash { CardsDiffer(1, 'a', 2, 'b', sha256); }
    if Card(1, sha256).hash == Card(3, sha256).hash { CardsDiffer(1, 'a', 3, 'c', sha256); }
    if Card(1, sha256).hash == Card(4, sha256).hash { CardsDiffer(1, 'a', 4, 'd', sha256); }
    if Card(2, sha256).hash == Card(3, sha256).hash { CardsDiffer(2, 'b', 3, 'c', sha256); }
    if Card(2, sha256).hash == Card(4, sha256).hash { CardsDiffer(2, 'b', 4, 'd', sha256); }
    if Card(3, sha256).hash == Card(4, sha256).hash { CardsDiffer(3, 'c', 4, 'd', sha256); }
  }

  lemma LookupOf(n: byte, c: char, sha256: bytes -> string)
    requires IsSha(sha256) && Nth(n, c)
    ensures var h := Card(n, sha256).hash; h in FourLookups(sha256) && FourLookups(sha256)[h] == CredLookup(Id(c), 0)
  {
    hide Card, Id, IsSha;
    FourHashesDiffer(sha256);
  }

  lemma HeldFour(sha256: bytes -> string)
    ensures var held := FourCards(sha256);
            held[Id('a')] == [Card(1, sha256)] && held[Id('b')] == [Card(2, sha256)]
            && held[Id('c')] == [Card(3, sha256)] && held[Id('d')] == [Card(4, sha256)]
  {
    IdsDiffer();
    hide Id, Card;
  }

  lemma LookupBacked(h: string, sha256: bytes -> string)
    requires IsSha(sha256) && h in FourLookups(sha256)
    ensures BackedAt(FourCards(sha256), FourLookups(sha256), h)
  {
    hide Card, Id, IsSha;
    HeldFour(sha256);
    LookupOf(1, 'a', sha256);
    LookupOf(2, 'b', sha256);
    LookupOf(3, 'c', sha256);
    LookupOf(4, 'd', sha256);
  }

  lemma FourValid(sha256: bytes -> string, grow: Growth, now: int)
    requires IsSha(sha256)
    ensures FourContext(sha256, grow, now).Valid()
  {
    var conf, held, lookup := FourTypes(sha256), FourCards(sha256), FourLookups(sha256);
    hide WellFormed, FourTypes, FourCards, FourLookups, EqualsExceptMetadata;
    forall id, i: nat | id in held && i < |held[id]|
      ensures WellFormed(conf, held[id][i], id) && IndexedAt(held, lookup, id, i) && |held[id]| == 1
    {
      var n, c := CardAt(id, i, sha256);
      CardWellFormed(n, c, sha256);
      LookupOf(n, c, sha256);
    }
    forall h | h in lookup ensures BackedAt(held, lookup, h) {
      LookupBacked(h, sha256);
    }
    forall id | id in held ensures |held[id]| <= 1 {
      if |held[id]| > 0 {
        var n, c := CardAt(id, 0, sha256);
      }
    }
  }

  lemma FourCredentialTypes()
    ensures CredentialTypes(ALL_FOUR) == [Id('a'), Id('b'), Id('c'), Id('d')]
  {
    IdsDiffer();
    IdParts('a');
    IdParts('b');
    IdParts('c');
    IdParts('d');
    hide Id, CredentialTypeOf, PartsCount;
    var c1, c2, c3 := [Whole('a')], [Whole('a'), Whole('b')], [Whole('a'), Whole('b'), Whole('c')];
    assert ALL_FOUR[..3] == c3 && c3[..2] == c2 && c2[..1] == c1 && c1[..0] == [];
    assert CredentialTypes(c1) == [Id('a')];
    assert CredentialTypes(c2) == [Id('a'), Id('b')];
    assert CredentialTypes(c3) == [Id('a'), Id('b'), Id('c')];
  }

  /** Nothing is demanded of the credentials, so every instance meets the conjunction. */
  lemma MeetsAllFour(n: byte, c: char, conf: Configuration, al: AttributeList)
    requires Nth(n, c)
    ensures MeetsCon(conf, al, Id(c), ALL_FOUR)
  {
    IdParts(c);
    hide Id, CredentialTypeOf, PartsCount, MeetsRequest;
    assert ALL_FOUR[n - 1] == Whole(c);
    assert TypeAt(ALL_FOUR, n - 1) == Id(c);
    forall k | 0 <= k < |ALL_FOUR| ensures MeetsRequest(conf, al, ALL_FOUR[k]) {
      NothingDemanded(conf, al, ALL_FOUR[k]);
    }
  }

  lemma NothingDemanded(conf: Configuration, al: AttributeList, ar: AttributeRequest)
    requires ar.value.None? && !ar.notNull
    ensures MeetsRequest(conf, al, ar)
  {
    hide UntranslatedAttribute;
  }

  /** Each of the four is usable. */
  lemma CardUsable(n: byte, c: char, sha256: bytes -> string, grow: Growth, now: int)
    requires IsSha(sha256) && Nth(n, c)
    ensures HasUsable(FourContext(sha256, grow, now), Id(c), ALL_FOUR)
  {
    var ctx, al := FourContext(sha256, grow, now), Card(n, sha256);
    HeldFour(sha256);
    MeetsAllFour(n, c, ctx.conf, al);
    CardFlags(n, sha256);
    hide Card, Id, FourTypes, FourLookups, FourCards, MeetsCon, IsSha;
    assert Id(c) in ctx.request.skipExpiry;
    assert Usable(ctx, al, Id(c));
    hide FourContext, Usable;
    assert Held(ctx.attributes, Id(c)) == [al] by { FourHeld(sha256, grow, now, n, c); }
    assert al in Held(ctx.attributes, Id(c));
  }

  lemma FourHeld(sha256: bytes -> string, grow: Growth, now: int, n: byte, c: char)
    requires Nth(n, c)
    ensures Held(FourContext(sha256, grow, now).attributes, Id(c)) == [Card(n, sha256)]
  {
    HeldFour(sha256);
    hide Card, Id, FourTypes, FourLookups;
  }

  lemma CardFlags(n: byte, sha256: bytes -> string)
    ensures !Card(n, sha256).revoked && Card(n, sha256).hasWitness
  {
  }

  /** The last candidate of the fourth type is the suggestion to obtain one more. */
  lemma SuggestionLast(sha256: bytes -> string, grow: Growth, now: int)
    ensures Id('d') in FourTypes(sha256).types
    ensures !LastUsable(FourContext(sha256, grow, now), Id('d'), ALL_FOUR)
  {
    var ctx := FourContext(sha256, grow, now);
    IdsDiffer();
    hide Id, Matching, CredentialTypeOf, MeetsCon, FourCards, FourLookups;
    assert ctx.conf.types[Id('d')] == TypeWith(false);
    assert !FixedAttrValue(ALL_FOUR, Id('d'));
    var cands := TypeCandidates(ctx, Id('d'), ALL_FOUR);
    assert cands[|cands| - 1] == CredCandidate(Id('d'), "");
  }

  /** The client reports that this request can be satisfied, by the credentials it holds, but none of the
      options it lists is made only of held credentials: at the fourth place the one it holds is
      overwritten by the suggestion to obtain another. */
  lemma SatisfiableWithoutOption(sha256: bytes -> string, grow: Growth, now: int)
    requires IsSha(sha256) && forall n: nat :: n < 3 ==> grow(n) == Doubling(n)
    ensures var ctx := FourContext(sha256, grow, now);
            && ctx.Valid() && KnownDisCon(ctx.conf, [ALL_FOUR])
            && DisConSatisfiable(ctx, [ALL_FOUR]) && !HasUsableOption(ctx, DisConOptions(ctx, [ALL_FOUR]))
  {
    var ctx := FourContext(sha256, grow, now);
    hide FourContext, HasUsable, CredentialTypes, Id, LastUsable, Spare, StoreInv, FourTypes, DisConOptions, IsSha;
    FourValid(sha256, grow, now);
    FourShown(sha256, grow, now);
    SatisfiableIffUsableOption(ctx, [ALL_FOUR]);
  }

  lemma FourShown(sha256: bytes -> string, grow: Growth, now: int)
    requires IsSha(sha256) && forall n: nat :: n < 3 ==> grow(n) == Doubling(n)
    ensures var ctx := FourContext(sha256, grow, now);
            KnownDisCon(ctx.conf, [ALL_FOUR]) && DisConSatisfiable(ctx, [ALL_FOUR])
              && !DisConShowsUsable(ctx, [ALL_FOUR])
  {
    var ctx := FourContext(sha256, grow, now);
    hide FourContext, HasUsable, CredentialTypes, Id, LastUsable, Spare, FourTypes, IsSha;
    FourConf(sha256, grow, now);
    FourKnown(sha256);
    FourCredentialTypes();
    SuggestionLast(sha256, grow, now);
    SpareIff(grow, 3);
    assert !PowerOfTwo(3);
    var types := CredentialTypes(ALL_FOUR);
    assert !ShowsUsable(ctx, 3, types[3], ALL_FOUR);
    forall j | 0 <= j < |types| ensures HasUsable(ctx, types[j], ALL_FOUR) {
      CardUsable(1, 'a', sha256, grow, now);
      CardUsable(2, 'b', sha256, grow, now);
      CardUsable(3, 'c', sha256, grow, now);
      CardUsable(4, 'd', sha256, grow, now);
    }
    assert ConSatisfiable(ctx, ALL_FOUR);
    assert [ALL_FOUR][0] == ALL_FOUR;
  }

  lemma FourConf(sha256: bytes -> string, grow: Growth, now: int)
    ensures FourContext(sha256, grow, now).conf == FourTypes(sha256) && FourContext(sha256, grow, now).grow == grow
  {
  }

  lemma FourKnown(sha256: bytes -> string)
    ensures KnownTypes(FourTypes(sha256), [Id('a'), Id('b'), Id('c'), Id('d')])
  {
    hide Id;
  }

  // ---------------------------------------------------------------- two optional attributes

  function TwoOptional(sha256: bytes -> string): Configuration {
    Configuration(
      map[Id('o') := CredentialType("s", [AttributeType("x", true, false, false),
        AttributeType("y", true, false, false)],
                                    false, false, 0, false, false, [])],
      map[HashOf(1) := Id('o')], map[], n => [], sha256)
  }

  function WithInts(ints: seq<nat>, sha256: bytes -> string): AttributeList {
    AttributeList(sha256(HashedBytes(ints)), ints, false, true)
  }

  /** Two credentials of one type with the same metadata, one with only the first and one with only the second
      attribute: different, but with the same hash, so that adding one displaces the other. */
  lemma DifferentDisplaced(sha256: bytes -> string)
    requires IsSha(sha256)
    ensures var conf, meta := TwoOptional(sha256), MetadataOf(HashOf(1));
            var a, b := WithInts([meta, 0, 131], sha256), WithInts([meta, 131, 0], sha256);
            && WellFormed(conf, a, Id('o')) && WellFormed(conf, b, Id('o'))
            && !EqualsExceptMetadata(a, b) && ListAfterAdd(conf, Id('o'), [a], b) == [b]
  {
    var conf, meta := TwoOptional(sha256), MetadataOf(HashOf(1));
    var a, b := WithInts([meta, 0, 131], sha256), WithInts([meta, 131, 0], sha256);
    MetadataOfReads(HashOf(1));
    hide MetadataOf, ToBytes, HashedBytes, HashOf, Field, Id, CredentialTypeHash, Survivors;
    DifferentCredentialDisplaced(conf, Id('o'), meta, a, b);
  }
}
