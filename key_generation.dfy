/** KeyGenerationService: a paste key is a truncated Base64url SHA-256 digest of 32 random
    bytes followed by the creation time to the second. The random bytes and the digest are
    foreign calls; the digest is a parameter here. */
module KeyGeneration {
  import opened Common
  import opened Base64Url
  import opened TimestampFormat

  /** Length of a SHA-256 digest in bytes. */
  const DigestLength := 32
  /** Length of the random part that generateKey asks for. */
  const PrefixLength := 8
  /** Length of every generated key: 8 symbols and a 14-digit timestamp. */
  const KeyLength := 22

  function Min(a: int, b: int): int {
    if a <= b then a else b
  }

  /** generateRandomString(length): the first min(length, |encoded|) characters of the padded
      Base64url encoding of the digest; a negative length makes substring throw (None). */
  function GenerateRandomString(digest: seq<Byte>, length: int): (r: Option<string>)
    requires |digest| == DigestLength
    ensures r.None? <==> length < 0
    ensures r.Some? ==> r.value == Encode(digest)[..Min(length, |Encode(digest)|)]
    ensures r.Some? ==> |r.value| == Min(length, 44)
    ensures r.Some? ==> forall i :: 0 <= i < |r.value| && i < 43 ==> IsUrlSafe(r.value[i])
    ensures r.Some? && length >= 44 ==> r.value[43] == '='
  {
    EncodeShape(digest);
    var encoded := Encode(digest);
    if length < 0 then None else Some(encoded[..Min(length, |encoded|)])
  }

  /** The shape every key has: eight URL-safe symbols, then fourteen decimal digits. */
  predicate KeyShape(k: string) {
    && |k| == KeyLength
    && (forall i :: 0 <= i < PrefixLength ==> IsUrlSafe(k[i]))
    && (forall i :: PrefixLength <= i < KeyLength ==> IsDigit(k[i]))
  }

  /** generateKey(): generateRandomString(8) followed by the formatted current date-time. */
  function GenerateKey(digest: seq<Byte>, now: DateTime): (k: string)
    requires |digest| == DigestLength && ValidDateTime(now)
    ensures KeyShape(k)
    ensures k[PrefixLength..] == Format(now)
  {
    var r := GenerateRandomString(digest, PrefixLength);
    r.value + Format(now)
  }

  /** The random part of a key is exactly the encoding of the first six digest bytes; the
      8-character prefix never reaches the padding. */
  lemma KeyPrefixEncodesSixBytes(digest: seq<Byte>, now: DateTime)
    requires |digest| == DigestLength && ValidDateTime(now)
    ensures GenerateKey(digest, now)[..PrefixLength] == Encode(digest[..6])
  {
    EncodePrefix(digest, 2);
    var k := GenerateKey(digest, now);
    assert k[..PrefixLength] == GenerateRandomString(digest, PrefixLength).value;
  }

  /** Two keys collide exactly when the digests agree on their first 48 bits and the keys were
      made in the same second: the timestamp suffix separates keys of different seconds. */
  lemma KeyCollision(d1: seq<Byte>, t1: DateTime, d2: seq<Byte>, t2: DateTime)
    requires |d1| == DigestLength && ValidDateTime(t1)
    requires |d2| == DigestLength && ValidDateTime(t2)
    ensures GenerateKey(d1, t1) == GenerateKey(d2, t2) <==> d1[..6] == d2[..6] && t1 == t2
  {
    var k1, k2 := GenerateKey(d1, t1), GenerateKey(d2, t2);
    KeyPrefixEncodesSixBytes(d1, t1);
    KeyPrefixEncodesSixBytes(d2, t2);
    EncodeInjective(d1[..6], d2[..6]);
    FormatInjective(t1, t2);
    if d1[..6] == d2[..6] && t1 == t2 {
      assert k1 == k1[..PrefixLength] + k1[PrefixLength..];
      assert k2 == k2[..PrefixLength] + k2[PrefixLength..];
    }
  }

  /** No key contains ':' (neither the alphabet nor the digits do), so a key never has the
      shape of a Redis counter key "access_count:<key>". */
  lemma KeyShapeHasNoColon(k: string)
    requires KeyShape(k)
    ensures ':' !in k
  {
    forall i | 0 <= i < |k|
      ensures k[i] != ':'
    {
      if i < PrefixLength { assert IsUrlSafe(k[i]); } else { assert IsDigit(k[i]); }
    }
  }

  /** The key the service's test downloads has the generated shape, and its suffix reads back
      as 2024-09-20 20:34:06. */
  lemma SampleKey()
    ensures KeyShape("Ds66SaQr20240920203406")
    ensures "Ds66SaQr20240920203406"[PrefixLength..] == Format(DateTime(2024, 9, 20, 20, 34, 6))
  {
    SampleShape();
    SampleFields();
    assert Format(DateTime(2024, 9, 20, 20, 34, 6)) == "2024" + "09" + "20" + "20" + "34" + "06";
  }

  lemma SampleShape()
    ensures KeyShape("Ds66SaQr20240920203406")
  {
    var k := "Ds66SaQr20240920203406";
    assert forall i :: 0 <= i < PrefixLength ==> IsUrlSafe(k[i]);
  }

  /** The zero-padded fields of the sample timestamp. */
  lemma SampleFields()
    ensures Digits(2024, 4) == "2024" && Digits(9, 2) == "09" && Digits(20, 2) == "20"
    ensures Digits(34, 2) == "34" && Digits(6, 2) == "06"
  {
    assert Digits(2024, 4) == "2024";
  }
}
