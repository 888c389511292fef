/** attributes.go: big-endian integers, the metadata attribute and the attribute value encoding. */
module Codec {
  import opened Outcomes

  type byte = x: int | 0 <= x < 256
  type bytes = seq<byte>

  /** ExpiryFactor: one week, in seconds. */
  const WEEK := 60 * 60 * 24 * 7
  /** Number of bytes of a metadata attribute. */
  const METADATA_LENGTH := 24

  // ---------------------------------------------------------------- big.Int and bytes

  /** big.Int.SetBytes: the value of a big-endian byte string. */
  function FromBytes(bs: bytes): nat {
    if bs == [] then 0 else 256 * FromBytes(bs[..|bs| - 1]) + bs[|bs| - 1]
  }

  /** big.Int.Bytes: the big-endian bytes without leading zeros; empty for zero. */
  function ToBytes(n: nat): bytes {
    if n == 0 then [] else ToBytes(n / 256) + [n % 256]
  }

  function Zeros(k: nat): (z: bytes)
    ensures |z| == k
  {
    seq(k, _ => 0)
  }

  /** A byte string without its leading zero bytes. */
  function Strip(bs: bytes): bytes {
    if bs != [] && bs[0] == 0 then Strip(bs[1..]) else bs
  }

  lemma {:induction false} FromToBytes(n: nat)
    ensures FromBytes(ToBytes(n)) == n
  {
    if n > 0 {
      FromToBytes(n / 256);
      assert (ToBytes(n / 256) + [n % 256])[..|ToBytes(n / 256)|] == ToBytes(n / 256);
    }
  }

  /** A leading zero byte does not change the value. */
  lemma {:induction false} FromBytesLeadingZero(bs: bytes)
    ensures FromBytes([0] + bs) == FromBytes(bs)
  {
    if bs != [] {
      FromBytesLeadingZero(bs[..|bs| - 1]);
      assert ([0] + bs)[..|bs|] == [0] + bs[..|bs| - 1];
    }
  }

  lemma {:induction false} FromBytesZeros(k: nat, bs: bytes)
    ensures FromBytes(Zeros(k) + bs) == FromBytes(bs)
    decreases k
  {
    if k == 0 {
      assert Zeros(0) + bs == bs;
    } else {
      assert Zeros(k) + bs == [0] + (Zeros(k - 1) + bs);
      FromBytesLeadingZero(Zeros(k - 1) + bs);
      FromBytesZeros(k - 1, bs);
    }
  }

  /** Without leading zeros, a byte string is exactly the encoding of its value. */
  lemma {:induction false} ToBytesCanonical(bs: bytes)
    requires bs == [] || bs[0] != 0
    ensures ToBytes(FromBytes(bs)) == bs
    ensures bs != [] ==> FromBytes(bs) > 0
  {
    if bs != [] {
      var init := bs[..|bs| - 1];
      ToBytesCanonical(init);
      assert bs == init + [bs[|bs| - 1]];
      assert FromBytes(bs) / 256 == FromBytes(init);
      assert FromBytes(bs) % 256 == bs[|bs| - 1];
    }
  }

  /** Going through an integer loses exactly the leading zero bytes. */
  lemma {:induction false} ToFromBytes(bs: bytes)
    ensures ToBytes(FromBytes(bs)) == Strip(bs)
    decreases |bs|
  {
    if bs != [] && bs[0] == 0 {
      assert bs == [0] + bs[1..];
      FromBytesLeadingZero(bs[1..]);
      ToFromBytes(bs[1..]);
    } else {
      ToBytesCanonical(bs);
    }
  }

  lemma {:induction false} StripZeros(bs: bytes)
    ensures |Strip(bs)| <= |bs|
    ensures Zeros(|bs| - |Strip(bs)|) + Strip(bs) == bs
  {
    if bs != [] && bs[0] == 0 {
      StripZeros(bs[1..]);
      assert bs == [0] + bs[1..];
    }
  }

  // ---------------------------------------------------------------- metadata attribute

  /** A field of the metadata attribute: its length and its offset from the left. */
  datatype MetadataField = MetadataField(length: nat, offset: nat)

  const VERSION_FIELD := MetadataField(1, 0)
  const SIGNING_DATE_FIELD := MetadataField(3, 1)
  const VALIDITY_FIELD := MetadataField(2, 4)
  const KEY_COUNTER_FIELD := MetadataField(2, 6)
  const CREDENTIAL_ID_FIELD := MetadataField(16, 8)

  predicate InBounds(f: MetadataField) { f.offset + f.length <= METADATA_LENGTH }

  predicate DisjointFields(f: MetadataField, g: MetadataField) {
    f.offset + f.length <= g.offset || g.offset + g.length <= f.offset
  }

  /** The metadata integer as a byte string, padded on the left to the metadata length. */
  function MetadataBytes(n: nat): (bs: bytes)
    ensures |bs| >= METADATA_LENGTH
  {
    var raw := ToBytes(n);
    if |raw| < METADATA_LENGTH then Zeros(METADATA_LENGTH - |raw|) + raw else raw
  }

  function Field(n: nat, f: MetadataField): (v: bytes)
    requires InBounds(f)
    ensures |v| == f.length
  {
    MetadataBytes(n)[f.offset..f.offset + f.length]
  }

  /** A value pushed to the right within `width` bytes. */
  function RightAligned(value: bytes, width: nat): (r: bytes)
    requires |value| <= width
    ensures |r| == width
  {
    Zeros(width - |value|) + value
  }

  /** The metadata integer after writing `value` to field `f`. */
  function WithField(n: nat, f: MetadataField, value: bytes): nat
    requires InBounds(f) && |value| <= f.length
  {
    FromBytes(WrittenBytes(MetadataBytes(n), f, value))
  }

  /** A metadata integer of at most 24 bytes is exactly its 24 bytes. */
  lemma MetadataBytesOfExact(bs: bytes)
    requires |bs| == METADATA_LENGTH
    ensures MetadataBytes(FromBytes(bs)) == bs
  {
    ToFromBytes(bs);
    StripZeros(bs);
  }

  /** The byte string of a metadata integer after a write. */
  function WrittenBytes(bs: bytes, f: MetadataField, value: bytes): (after: bytes)
    requires InBounds(f) && |value| <= f.length && |bs| >= METADATA_LENGTH
    ensures |after| == |bs|
    ensures after[f.offset..f.offset + f.length] == RightAligned(value, f.length)
    ensures forall g: MetadataField :: InBounds(g) && DisjointFields(f, g) ==>
      after[g.offset..g.offset + g.length] == bs[g.offset..g.offset + g.length]
  {
    bs[..f.offset] + RightAligned(value, f.length) + bs[f.offset + f.length..]
  }

  /** Reading any field after writing one: the written field holds the value right-aligned, every
      disjoint field is untouched, although the integer itself drops leading zero bytes. */
  lemma FieldAfterWrite(n: nat, f: MetadataField, value: bytes)
    requires InBounds(f) && |value| <= f.length
    requires |ToBytes(n)| <= METADATA_LENGTH
    ensures |ToBytes(WithField(n, f, value))| <= METADATA_LENGTH
    ensures Field(WithField(n, f, value), f) == RightAligned(value, f.length)
    ensures forall g :: InBounds(g) && DisjointFields(f, g) ==> Field(WithField(n, f, value), g) == Field(n, g)
  {
    var after := WrittenBytes(MetadataBytes(n), f, value);
    MetadataBytesOfExact(after);
    ToFromBytes(after);
    StripZeros(after);
  }

  /** Metadata is its fields in a row: version, signing date, validity, key counter, and the hash of the type. */
  lemma MetadataIsItsFields(n: nat)
    requires |ToBytes(n)| <= METADATA_LENGTH
    ensures MetadataBytes(n) == Field(n, VERSION_FIELD) + Field(n, SIGNING_DATE_FIELD) + Field(n, VALIDITY_FIELD)
      + Field(n, KEY_COUNTER_FIELD) + Field(n, CREDENTIAL_ID_FIELD)
    ensures |Field(n, VERSION_FIELD)| == 1 && |Field(n, SIGNING_DATE_FIELD)| == 3 && |Field(n, VALIDITY_FIELD)| == 2
      && |Field(n, KEY_COUNTER_FIELD)| == 2 && |Field(n, CREDENTIAL_ID_FIELD)| == 16
    ensures FromBytes(MetadataBytes(n)) == n
  {
    FromMetadataBytes(n);
    hide ToBytes, FromBytes, MetadataBytes;
    CutInFive(MetadataBytes(n), 1, 4, 6, 8);
  }

  lemma FromMetadataBytes(n: nat)
    requires |ToBytes(n)| <= METADATA_LENGTH
    ensures |MetadataBytes(n)| == METADATA_LENGTH && FromBytes(MetadataBytes(n)) == n
  {
    FromToBytes(n);
    FromBytesZeros(METADATA_LENGTH - |ToBytes(n)|, ToBytes(n));
    hide ToBytes, FromBytes;
  }

  lemma CutInFive<T>(s: seq<T>, a: nat, b: nat, c: nat, d: nat)
    requires a <= b <= c <= d <= |s|
    ensures s == s[0..a] + s[a..b] + s[b..c] + s[c..d] + s[d..|s|]
  {
    assert s[..b] == s[0..a] + s[a..b] && s[..c] == s[..b] + s[b..c] && s[..d] == s[..c] + s[c..d];
    assert s == s[..d] + s[d..];
  }

  /** With a version, metadata takes up all of its bytes. */
  lemma VersionFillsMetadata(n: nat)
    requires |ToBytes(n)| <= METADATA_LENGTH && Version(n) != 0
    ensures |ToBytes(n)| == METADATA_LENGTH
  {
  }

  /** Metadata of version 3 with the given hash of its credential type, and zeros elsewhere. */
  function MetadataOf(hash: bytes): nat
    requires |hash| == 16
  {
    WithField(WithField(0, VERSION_FIELD, [3]), CREDENTIAL_ID_FIELD, hash)
  }

  lemma MetadataOfReads(hash: bytes)
    requires |hash| == 16
    ensures Version(MetadataOf(hash)) == 3 && CredentialTypeHash(MetadataOf(hash)) == hash
    ensures |ToBytes(MetadataOf(hash))| == METADATA_LENGTH
  {
    var n := WithField(0, VERSION_FIELD, [3]);
    FieldAfterWrite(0, VERSION_FIELD, [3]);
    FieldAfterWrite(n, CREDENTIAL_ID_FIELD, hash);
    assert RightAligned([3], 1) == [3] && RightAligned(hash, 16) == hash;
    hide WithField, Field, ToBytes;
    assert Field(MetadataOf(hash), VERSION_FIELD) == Field(n, VERSION_FIELD);
    VersionFillsMetadata(MetadataOf(hash));
  }

  /** shortToByte: two big-endian bytes; 65536 passes the guard and is truncated. */
  function ShortToByte(x: int): Outcome<bytes> {
    if x < 0 || x > 65536 then Panic
    else Done([(x % 65536) / 256, x % 256])
  }

  function Uint16(bs: bytes): nat
    requires |bs| == 2
  {
    var high: int := bs[0];
    256 * high + bs[1]
  }

  /** What a short is read back as. */
  function ReadBack(x: nat): nat { if x < 65536 then x else 0 }

  /** Every value the guard admits is read back, except 65536, which is read back as 0. */
  lemma ShortReadBack(x: int)
    requires 0 <= x <= 65536
    ensures Uint16(ShortToByte(x).value) == ReadBack(x)
  {
    if x < 65536 {
      assert x % 65536 == x;
      assert x == 256 * (x / 256) + x % 256;
    } else {
      assert ShortToByte(65536) == Done([0, 0]);
    }
  }

  lemma ShortShape(x: int)
    ensures !ShortToByte(x).Err? && (ShortToByte(x).Done? <==> 0 <= x <= 65536)
    ensures ShortToByte(x).Done? ==>
      |ShortToByte(x).value| == 2 && RightAligned(ShortToByte(x).value, 2) == ShortToByte(x).value
  {
  }

  /** time.Unix()/ExpiryFactor: Go's division truncates toward zero. */
  function WeeksOf(t: int): int {
    if t >= 0 then t / WEEK else -((-t) / WEEK)
  }

  function Version(n: nat): byte { Field(n, VERSION_FIELD)[0] }

  function SigningDate(n: nat): nat { Uint16(Field(n, SIGNING_DATE_FIELD)[1..]) * WEEK }

  function ValidityDuration(n: nat): nat { Uint16(Field(n, VALIDITY_FIELD)) }

  function KeyCounter(n: nat): nat { Uint16(Field(n, KEY_COUNTER_FIELD)) }

  function CredentialTypeHash(n: nat): bytes { Field(n, CREDENTIAL_ID_FIELD) }

  function Expiry(n: nat): nat { SigningDate(n) + ValidityDuration(n) * WEEK }

  /** FloorToEpochBoundary */
  function FloorToEpochBoundary(t: int): int { WeeksOf(t) * WEEK }

  /** It is the greatest boundary not after the time exactly from 1970 on and on boundaries before that;
      at other times before 1970 it lies after the time. */
  lemma FloorBounds(t: int)
    ensures FloorToEpochBoundary(t) <= t < FloorToEpochBoundary(t) + WEEK <==> t >= 0 || t % WEEK == 0
    ensures FloorToEpochBoundary(t) % WEEK == 0
  {
  }

  lemma WeekFloor(t: int)
    ensures FloorToEpochBoundary(t) == WeeksOf(t) * WEEK
    ensures WeeksOf(t) >= 65536 ==> FloorToEpochBoundary(t) > 0
    ensures t >= 0 ==> FloorToEpochBoundary(t) <= t < FloorToEpochBoundary(t) + WEEK
  {
  }

  /** MetadataAttribute: an integer whose setters rewrite one field through a byte buffer. */
  class MetadataAttribute {
    var int_: nat

    ghost predicate Valid()
      reads this
    {
      |ToBytes(int_)| <= METADATA_LENGTH
    }

    constructor ()
      ensures Valid() && int_ == 0
    {
      int_ := 0;
    }

    /** setField: byte by byte, pushing the value to the right within the field. */
    method SetField(f: MetadataField, value: bytes)
      requires Valid() && InBounds(f) && |value| <= f.length
      modifies this
      ensures Valid()
      ensures int_ == WithField(old(int_), f, value)
      ensures Field(int_, f) == RightAligned(value, f.length)
      ensures forall g :: InBounds(g) && DisjointFields(f, g) ==> Field(int_, g) == Field(old(int_), g)
    {
      var before := MetadataBytes(int_);
      var buf := new byte[|before|](i requires 0 <= i < |before| => before[i]);
      assert buf[..] == before;
      hide Field, ToBytes, MetadataBytes, WrittenBytes, FromBytes;
      Overwrite(buf, f, value);
      FieldAfterWrite(int_, f, value);
      int_ := FromBytes(buf[..]);
    }

    /** The loop of setField. */
    static method Overwrite(buf: array<byte>, f: MetadataField, value: bytes)
      requires InBounds(f) && |value| <= f.length && buf.Length >= METADATA_LENGTH
      modifies buf
      ensures buf[..] == WrittenBytes(old(buf[..]), f, value)
    {
      ghost var before := buf[..];
      var startindex := f.length - |value|;
      ghost var target := WrittenBytes(before, f, value);
      var i := 0;
      while i < f.length
        invariant 0 <= i <= f.length
        invariant forall k :: 0 <= k < buf.Length ==>
          buf[k] == if f.offset <= k < f.offset + i then target[k] else before[k]
      {
        assert target[f.offset + i] == RightAligned(value, f.length)[i];
        if i < startindex {
          buf[i + f.offset] := 0;
        } else {
          buf[i + f.offset] := value[i - startindex];
        }
        i := i + 1;
      }
      assert forall k :: 0 <= k < f.offset ==> target[k] == before[k];
      assert forall k :: f.offset + f.length <= k < |before| ==> target[k] == before[k];
    }

    /** setSigningDate: on return the stored date is the week floor of the issue time, except that
        week 65536 passes the guard and is read back as the epoch. */
    method SetSigningDate(issuedAt: int) returns (panicked: bool)
      requires Valid()
      modifies this
      ensures Valid()
      ensures panicked <==> WeeksOf(issuedAt) < 0 || WeeksOf(issuedAt) > 65536
      ensures panicked ==> int_ == old(int_)
      ensures !panicked ==> SigningDate(int_) == ReadBack(WeeksOf(issuedAt)) * WEEK
      ensures !panicked ==> (SigningDate(int_) == FloorToEpochBoundary(issuedAt) <==> WeeksOf(issuedAt) < 65536)
      ensures !panicked && issuedAt >= 0 && WeeksOf(issuedAt) < 65536 ==>
        SigningDate(int_) <= issuedAt < SigningDate(int_) + WEEK
      ensures forall g :: InBounds(g) && DisjointFields(SIGNING_DATE_FIELD, g) ==> Field(int_, g) == Field(old(int_), g)
    {
      hide WithField, Field, ToBytes, WeeksOf, Uint16, ShortToByte;
      var weeks := WeeksOf(issuedAt);
      var short := ShortToByte(weeks);
      ShortShape(weeks);
      if short.Panic? {
        return true;
      }
      SetField(SIGNING_DATE_FIELD, short.value);
      assert Field(int_, SIGNING_DATE_FIELD)[1..] == short.value;
      ShortReadBack(weeks);
      WeekFloor(issuedAt);
      return false;
    }

    method SetKeyCounter(counter: nat) returns (panicked: bool)
      requires Valid()
      modifies this
      ensures Valid()
      ensures panicked <==> counter > 65536
      ensures panicked ==> int_ == old(int_)
      ensures !panicked ==> KeyCounter(int_) == ReadBack(counter)
      ensures forall g :: InBounds(g) && DisjointFields(KEY_COUNTER_FIELD, g) ==> Field(int_, g) == Field(old(int_), g)
    {
      var short := ShortToByte(counter);
      if short.Panic? {
        return true;
      }
      SetField(KEY_COUNTER_FIELD, short.value);
      ShortReadBack(counter);
      assert Field(int_, KEY_COUNTER_FIELD) == short.value;
      return false;
    }

    /** setExpiryDate for a requested expiry: refused before the signing date, otherwise the stored
        expiry is the last week boundary, counted from the signing date, not after the request, exactly
        below 65536 weeks; at 65536 weeks it is the signing date. */
    method SetExpiryDate(requested: int) returns (r: Outcome<()>)
      requires Valid()
      modifies this
      ensures Valid()
      ensures r.Err? <==> requested < SigningDate(old(int_))
      ensures r.Panic? <==> (requested - SigningDate(old(int_))) / WEEK > 65536
      ensures !r.Done? ==> int_ == old(int_)
      ensures r.Done? ==> SigningDate(int_) == SigningDate(old(int_))
      ensures r.Done? ==> ValidityDuration(int_) == ReadBack((requested - SigningDate(int_)) / WEEK)
      ensures r.Done? ==>
        (Expiry(int_) <= requested < Expiry(int_) + WEEK <==> (requested - SigningDate(int_)) / WEEK < 65536)
      ensures forall g :: InBounds(g) && DisjointFields(VALIDITY_FIELD, g) ==> Field(int_, g) == Field(old(int_), g)
    {
      hide WithField, Field, ToBytes, ShortToByte, Uint16;
      ghost var n := int_;
      var signing := SigningDate(int_);
      ShortShape((requested - signing) / WEEK);
      if requested - signing < 0 {
        return Err;
      }
      var short := ShortToByte((requested - signing) / WEEK);
      if short.Panic? {
        return Panic;
      }
      SetField(VALIDITY_FIELD, short.value);
      ShortReadBack((requested - signing) / WEEK);
      assert Field(int_, VALIDITY_FIELD) == short.value;
      assert Field(int_, SIGNING_DATE_FIELD) == Field(n, SIGNING_DATE_FIELD);
      return Done(());
    }
  }

  // ---------------------------------------------------------------- attribute values

  /** requests.go AttributeList: the integer that encodes a supplied attribute value. */
  function EncodeAttribute(str: bytes, version: byte): nat {
    if version >= 3 then 2 * FromBytes(str) + 1 else FromBytes(str)
  }

  /** decodeAttribute: None is an attribute that does not exist. */
  function DecodeAttribute(attr: nat, version: byte): Option<bytes> {
    if version >= 3 then
      if attr % 2 == 0 then None else Some(ToBytes(attr / 2))
    else Some(ToBytes(attr))
  }

  /** Decoding an encoded value gives it back minus its leading zero bytes, from version 3 on the
      integer zero decodes to no value at all, and below version 3 to the empty string. */
  lemma DecodeEncode(str: bytes, version: byte)
    ensures DecodeAttribute(EncodeAttribute(str, version), version) == Some(Strip(str))
    ensures DecodeAttribute(0, version) == if version >= 3 then None else Some([])
  {
    ToFromBytes(str);
  }
}
