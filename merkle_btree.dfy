/**
 * An optional content hash (MaybeMultihash) and its two-case CBOR encoding.
 * The Java class holds a nullable Multihash field; here that field is an Option.
 */
module MerkleBtree {
  import opened Wrappers

  type byte = bv8

  /** A multihash, identified with its binary serialisation (Multihash.toBytes). */
  datatype Multihash = Multihash(bytes: seq<byte>)

  function ToBytes(h: Multihash): seq<byte> {
    h.bytes
  }

  /** Cid.cast: reads a hash back from its serialisation. */
  function Cast(bytes: seq<byte>): (h: Multihash)
    ensures ToBytes(h) == bytes
  {
    Multihash(bytes)
  }

  /** The CBOR object kinds a MaybeMultihash may be decoded from. */
  datatype CborObject =
    | CborNull
    | CborByteArray(value: seq<byte>)
    | CborBoolean(b: bool)
    | CborLong(n: int)
    | CborString(s: string)
    | CborList(items: seq<CborObject>)
    | CborMerkleLink(target: Multihash)

  datatype Error =
    | HashNotPresent                  // get() on the empty value
    | IncorrectCbor(cbor: CborObject) // fromCbor on a kind other than null or byte array

  datatype MaybeMultihash = MaybeMultihash(hash: Option<Multihash>) {

    predicate IsPresent() {
      hash.Some?
    }

    /** The wrapped hash; fails when absent. */
    function Get(): (r: Result<Multihash, Error>)
      ensures r.Success? <==> IsPresent()
      ensures r.Success? ==> this == Of(r.value)
      ensures r.Failure? ==> r.error == HashNotPresent
    {
      if !IsPresent() then Failure(HashNotPresent) else Success(hash.value)
    }

    /** Java equals: present values compare their hashes, two absent values are equal. */
    function Equals(that: MaybeMultihash): (r: bool)
      ensures r <==> this == that
      ensures !IsPresent() && !that.IsPresent() ==> r
      ensures IsPresent() != that.IsPresent() ==> !r
    {
      if hash.Some? then that.hash.Some? && hash.value == that.hash.value else that.hash.None?
    }

    /** Java hashCode, given the hash code of the wrapped multihash. */
    function HashCode(multihashCode: Multihash -> int): (r: int)
      ensures !IsPresent() ==> r == 0
      ensures IsPresent() ==> r == multihashCode(hash.value)
    {
      if hash.Some? then multihashCode(hash.value) else 0
    }

    function ToCbor(): (c: CborObject)
      ensures c.CborNull? <==> !IsPresent()
      ensures IsPresent() ==> c == CborByteArray(ToBytes(hash.value))
    {
      if IsPresent() then CborByteArray(ToBytes(hash.value)) else CborNull
    }
  }

  /** The shared absent value (MaybeMultihash.EMPTY()). */
  function Empty(): (m: MaybeMultihash)
    ensures !m.IsPresent()
  {
    MaybeMultihash(None)
  }

  function Of(h: Multihash): (m: MaybeMultihash)
    ensures m.IsPresent() && m.hash.value == h
  {
    MaybeMultihash(Some(h))
  }

  /** Decoding: null is absent, a byte array is a hash, every other kind is an error. */
  function FromCbor(cbor: CborObject): (r: Result<MaybeMultihash, Error>)
    ensures r.Success? <==> (cbor.CborNull? || cbor.CborByteArray?)
    ensures r.Success? ==> r.value.ToCbor() == cbor
    ensures r.Failure? ==> r.error == IncorrectCbor(cbor)
  {
    if cbor.CborNull? then Success(Empty())
    else if !cbor.CborByteArray? then Failure(IncorrectCbor(cbor))
    else Success(Of(Cast(cbor.value)))
  }

  /** isPresent: a value is present exactly when it is not the shared empty value, and then it wraps its hash. */
  lemma PresentIffNotEmpty(m: MaybeMultihash)
    ensures m.IsPresent() <==> m != Empty()
    ensures m.IsPresent() ==> m == Of(m.hash.value)
  {
  }

  /** Equal values hash alike. */
  lemma HashCodeAgreesWithEquals(a: MaybeMultihash, b: MaybeMultihash, multihashCode: Multihash -> int)
    requires a.Equals(b)
    ensures a.HashCode(multihashCode) == b.HashCode(multihashCode)
  {
  }

  /** Decoding an encoded value gives it back. */
  lemma CborRoundTrip(m: MaybeMultihash)
    ensures FromCbor(m.ToCbor()) == Success(m)
  {
  }
}
