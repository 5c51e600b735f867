/**
 * The TweetNaCl secret-box key: its key bytes, the dirty flag, and the
 * encoding "key bytes followed by one flag byte" that the decoding
 * constructor reads.
 */
module Symmetric {
  import opened Wrappers

  type byte = bv8

  const KEY_BYTES: nat := 32
  const NONCE_BYTES: nat := 24
  /** TweetNaCl.SECRETBOX_KEY_BYTES, the key length the constructor insists on. */
  const SECRETBOX_KEY_BYTES: nat := 32

  datatype Error =
    | IncorrectKeySize(length: nat) // the main constructor's length check
    | EmptyEncoding                 // the decoding constructor on an empty array

  datatype TweetNaClKey = TweetNaClKey(secretKey: seq<byte>, isDirty: bool) {
    /** What the main constructor guarantees of every key it builds. */
    predicate Valid() {
      |secretKey| == SECRETBOX_KEY_BYTES
    }
  }

  /** The main constructor: rejects a key of the wrong length. */
  function New(secretKey: seq<byte>, isDirty: bool): (r: Result<TweetNaClKey, Error>)
    ensures r.Success? <==> |secretKey| == SECRETBOX_KEY_BYTES
    ensures r.Success? ==> r.value.Valid() && r.value.secretKey == secretKey && r.value.isDirty == isDirty
    ensures r.Failure? ==> r.error == IncorrectKeySize(|secretKey|)
  {
    if |secretKey| != SECRETBOX_KEY_BYTES then Failure(IncorrectKeySize(|secretKey|))
    else Success(TweetNaClKey(secretKey, isDirty))
  }

  /** The layout the decoding constructor reads: key bytes, then 1 for dirty or 0 for clean. */
  function Encoding(k: TweetNaClKey): (e: seq<byte>)
    ensures |e| == |k.secretKey| + 1
    ensures e[..|k.secretKey|] == k.secretKey
    ensures (e[|k.secretKey|] == 1) == k.isDirty && (e[|k.secretKey|] == 0) == !k.isDirty
  {
    k.secretKey + [if k.isDirty then 1 else 0]
  }

  /**
   * The decoding constructor: all but the last byte are the key, and the key
   * is dirty iff the last byte is non-zero.
   */
  function Decode(encoded: seq<byte>): (r: Result<TweetNaClKey, Error>)
    ensures r.Success? <==> |encoded| == SECRETBOX_KEY_BYTES + 1
    ensures r.Success? ==> r.value.Valid()
    ensures r.Success? ==> encoded == r.value.secretKey + [encoded[|encoded| - 1]]
    ensures r.Success? ==> (r.value.isDirty <==> encoded[|encoded| - 1] != 0)
    ensures |encoded| == 0 ==> r == Failure(EmptyEncoding)
    ensures 0 < |encoded| != SECRETBOX_KEY_BYTES + 1 ==> r == Failure(IncorrectKeySize(|encoded| - 1))
  {
    if |encoded| == 0 then Failure(EmptyEncoding)
    else New(encoded[..|encoded| - 1], encoded[|encoded| - 1] != 0)
  }

  lemma DecodeEncoding(k: TweetNaClKey)
    requires k.Valid()
    ensures Decode(Encoding(k)) == Success(k)
  {
    assert Encoding(k)[..|k.secretKey|] == k.secretKey;
  }

  /** Java equals: the flags match and the key bytes agree element by element. */
  function Equals(a: TweetNaClKey, b: TweetNaClKey): (r: bool)
    ensures r <==> a == b
  {
    if a.isDirty != b.isDirty then false else ArraysEqual(a.secretKey, b.secretKey)
  }

  function ArraysEqual(x: seq<byte>, y: seq<byte>): (r: bool)
    ensures r <==> x == y
  {
    |x| == |y| && forall i :: 0 <= i < |x| ==> x[i] == y[i]
  }

  /** SafeRandom.randombytes: fills a[offset..offset + count] from the random source. */
  method RandomBytes(a: array<byte>, offset: nat, count: nat, random: nat -> byte)
    requires offset + count <= a.Length
    modifies a
    ensures forall i :: 0 <= i < a.Length ==> a[i] == if offset <= i < offset + count then random(i - offset) else old(a[i])
  {
    for j := 0 to count
      invariant forall i :: 0 <= i < a.Length ==> a[i] == if offset <= i < offset + j then random(i - offset) else old(a[i])
    {
      a[offset + j] := random(j);
    }
  }

  /** A fresh nonce of exactly NONCE_BYTES random bytes. */
  method CreateNonce(random: nat -> byte) returns (nonce: seq<byte>)
    ensures |nonce| == NONCE_BYTES
    ensures forall i :: 0 <= i < NONCE_BYTES ==> nonce[i] == random(i)
  {
    var res := new byte[NONCE_BYTES];
    RandomBytes(res, 0, res.Length, random);
    nonce := res[..];
  }

  /** A random key: KEY_BYTES random bytes and a flag byte left at 0, so never dirty. */
  method Random(random: nat -> byte) returns (k: TweetNaClKey)
    ensures k.Valid() && !k.isDirty
    ensures forall i :: 0 <= i < KEY_BYTES ==> k.secretKey[i] == random(i)
  {
    var key := new byte[KEY_BYTES + 1](_ => 0);
    RandomBytes(key, 0, KEY_BYTES, random);
    var decoded := Decode(key[..]);
    k := decoded.value;
  }

  /** toDirty: copies the key into an array one byte longer, sets the last byte to 1 and decodes it. */
  method ToDirty(k: TweetNaClKey) returns (r: TweetNaClKey)
    requires k.Valid()
    ensures r.Valid() && r.isDirty && r.secretKey == k.secretKey
  {
    var n := |k.secretKey|;
    var combined := new byte[n + 1](_ => 0);
    for i := 0 to n
      invariant combined[..i] == k.secretKey[..i]
    {
      combined[i] := k.secretKey[i];
    }
    combined[n] := 1;
    assert combined[..] == k.secretKey + [1];
    var decoded := Decode(combined[..]);
    r := decoded.value;
  }
}
