/** Key material, token derivation and the Fernet cipher box.

    The cryptographic primitives are not modelled: the keyed HMAC-SHA256, the
    Fernet `encrypt` (which draws a fresh IV and timestamp on every call) and
    the Fernet `decrypt` (which rejects a blob not made under the key) are
    the fields of a `Crypto` value that every operation takes as a parameter.
    What the system relies on of them is stated as a predicate,
    `CipherRoundTrip`, that the theorems take as a hypothesis. Everything the
    token derivation does around the digest (base64url, strip, truncate,
    prefix) is modelled exactly. */
module Security {
  import opened Wrappers
  import opened Octets
  import opened Base64Url

  /** The prefix `token_for_value` writes in front of every token. */
  const TokenPrefix: string := "TKN_"

  /** `tok[:24]`: the number of base64url characters a token keeps. */
  const TokenBodyLength: nat := 24

  /** The digest bytes that determine the token body: 24 characters of 6 bits. */
  const TokenDigestBytes: nat := 18

  /** The randomness one Fernet encryption consumes (its IV and timestamp). */
  type Nonce = nat

  /** A Fernet ciphertext, as stored in the mapping table. */
  type Blob = Bytes

  /** The secret key and the primitives keyed by it. `mac` is HMAC-SHA256 over
      the UTF-8 bytes of the value; `decrypt` yields `None` where Fernet raises
      (wrong key, tampering) or the plaintext is not valid UTF-8. */
  datatype Crypto = Crypto(
    key: Bytes,
    mac: (Bytes, string) -> Bytes32,
    encrypt: (Bytes, string, Nonce) -> Blob,
    decrypt: (Bytes, Blob) -> Option<string>)

  /** Authenticated encryption round-trips: whatever nonce an encryption
      drew, decrypting its blob under the same key yields the plaintext. */
  ghost predicate CipherRoundTrip(c: Crypto) {
    forall v: string, n: Nonce :: c.decrypt(c.key, c.encrypt(c.key, v, n)) == Some(v)
  }

  /** The token for a digest: base64url, strip `=`, keep 24 characters, prefix. */
  function TokenFromDigest(d: Bytes32): string {
    TokenPrefix + Take(StripPadding(Encode(d)), TokenBodyLength)
  }

  /** The body of a token is the base64url encoding of the first 18 digest
      bytes; padding and the last 14 bytes never reach it. */
  lemma TokenFromDigestShape(d: Bytes32)
    ensures TokenFromDigest(d) == TokenPrefix + Encode(d[..TokenDigestBytes])
    ensures AllUrlSafe(Encode(d[..TokenDigestBytes])) && |Encode(d[..TokenDigestBytes])| == TokenBodyLength
  {
    var head, tail := d[..TokenDigestBytes], d[TokenDigestBytes..];
    assert d == head + tail;
    EncodeAppend(head, tail);
    EncodeWholeGroupsUnpadded(head);
    StripPaddingAppend(Encode(head), Encode(tail));
    var stripped := StripPadding(Encode(d));
    assert stripped == Encode(head) + StripPadding(Encode(tail));
    assert stripped[..TokenBodyLength] == Encode(head);
  }

  /** `urlsafe_b64encode(digest).rstrip("=")` of a 32-byte digest is 43
      characters long: 40 for ten whole groups, 3 for the last two bytes. */
  lemma StrippedDigestLength(d: Bytes32)
    ensures |StripPadding(Encode(d))| == 43
  {
    var head, tail := d[..30], d[30..];
    assert d == head + tail;
    EncodeAppend(head, tail);
    EncodeWholeGroupsUnpadded(head);
    StripPaddingAppend(Encode(head), Encode(tail));
    var e := Encode(tail);
    assert e[2] == Digit((tail[1] % 16) * 4) && e[3] == '=';
    assert StripPadding(e[..3]) == e[..3];
    assert e[..4][..3] == e[..3];
    assert e == e[..4];
  }

  /** `token_for_value`: a pure function of the key and the value. */
  function TokenForValue(c: Crypto, value: string): (t: string)
    ensures |t| == |TokenPrefix| + TokenBodyLength
    ensures t[..|TokenPrefix|] == TokenPrefix
    ensures forall i :: |TokenPrefix| <= i < |t| ==> IsUrlSafeChar(t[i])
    ensures t == TokenPrefix + Encode(c.mac(c.key, value)[..TokenDigestBytes])
  {
    var d := c.mac(c.key, value);
    TokenFromDigestShape(d);
    TokenFromDigest(d)
  }

  /** Two digests give the same token exactly when their first 18 bytes agree. */
  lemma TokenFromDigestIff(d1: Bytes32, d2: Bytes32)
    ensures TokenFromDigest(d1) == TokenFromDigest(d2) <==> d1[..TokenDigestBytes] == d2[..TokenDigestBytes]
  {
    TokenFromDigestShape(d1);
    TokenFromDigestShape(d2);
    var h1, h2 := d1[..TokenDigestBytes], d2[..TokenDigestBytes];
    if TokenFromDigest(d1) == TokenFromDigest(d2) {
      assert Encode(h1) == TokenFromDigest(d1)[|TokenPrefix|..];
      assert Encode(h2) == TokenFromDigest(d2)[|TokenPrefix|..];
      DecodeEncode(h1);
      DecodeEncode(h2);
    }
  }

  /** The base64url text of 32 bytes: ten padding-free groups of the first
      30 bytes, then three digits and one `=` for the last two. */
  lemma KeyTextShape(e: Bytes32)
    ensures Encode(e) == Encode(e[..30]) + Encode(e[30..])
    ensures |Encode(e[..30])| == 40 && AllUrlSafe(Encode(e[..30]))
    ensures |Encode(e)| == 44 && Encode(e)[43] == '='
    ensures forall i :: 0 <= i < 43 ==> IsUrlSafeChar(Encode(e)[i])
  {
    var head, tail := e[..30], e[30..];
    assert e == head + tail;
    EncodeAppend(head, tail);
    EncodeWholeGroupsUnpadded(head);
    var text := Encode(e);
    forall i | 0 <= i < 43 ensures IsUrlSafeChar(text[i]) {
      if i < 40 { assert text[i] == Encode(head)[i]; }
      else { assert text[i] == Encode(tail)[i - 40]; }
    }
  }

  /** `Fernet.generate_key()`: the base64url text (with its `=`) of 32 random
      bytes, as ASCII bytes. */
  function GeneratedKey(entropy: Bytes32): (k: Bytes)
    ensures |k| == 44
    ensures forall i :: 0 <= i < 44 ==> k[i] == Encode(entropy)[i] as int
    ensures forall i :: 0 <= i < 43 ==> IsUrlSafeChar(Encode(entropy)[i])
    ensures k[43] == '=' as int
  {
    var text := Encode(entropy);
    KeyTextShape(entropy);
    seq(|text|, i requires 0 <= i < |text| => text[i] as int)
  }

  /** The last group of the key text, two bytes and one `=`, determines the two bytes. */
  lemma TailGroupInjective(x: Bytes, y: Bytes)
    requires |x| == 2 && |y| == 2 && Encode(x) == Encode(y)
    ensures x == y
  {
    var ex, ey := Encode(x), Encode(y);
    assert ex[0] == ey[0] && ex[1] == ey[1] && ex[2] == ey[2];
    DigitInjective(x[0] / 4, y[0] / 4);
    DigitInjective((x[0] % 4) * 16 + x[1] / 16, (y[0] % 4) * 16 + y[1] / 16);
    DigitInjective((x[1] % 16) * 4, (y[1] % 16) * 4);
    Split16(x[0] % 4, x[1] / 16);
    Split16(y[0] % 4, y[1] / 16);
    Split4(x[1] % 16, 0);
    Split4(y[1] % 16, 0);
    assert x[0] % 4 == y[0] % 4 && x[1] / 16 == y[1] / 16 && x[1] % 16 == y[1] % 16;
  }

  /** A generated key loses none of its entropy: different random bytes give
      different keys. */
  lemma GeneratedKeyInjective(e1: Bytes32, e2: Bytes32)
    ensures GeneratedKey(e1) == GeneratedKey(e2) <==> e1 == e2
  {
    if GeneratedKey(e1) == GeneratedKey(e2) {
      KeyTextShape(e1);
      KeyTextShape(e2);
      var t1, t2 := Encode(e1), Encode(e2);
      forall i | 0 <= i < 44 ensures t1[i] == t2[i] {
        assert GeneratedKey(e1)[i] == GeneratedKey(e2)[i];
      }
      assert t1 == t2;
      assert Encode(e1[..30]) == t1[..40] && Encode(e2[..30]) == t2[..40];
      assert Encode(e1[30..]) == t1[40..] && Encode(e2[30..]) == t2[40..];
      DecodeEncode(e1[..30]);
      DecodeEncode(e2[..30]);
      TailGroupInjective(e1[30..], e2[30..]);
      assert e1 == e1[..30] + e1[30..] && e2 == e2[..30] + e2[30..];
    }
  }

  /** The key file `secret.key` as a one-slot state machine: `keyFile` is the
      file's content, `None` while it does not exist. */
  class KeyManager {
    var keyFile: Option<Bytes>

    constructor (persisted: Option<Bytes>)
      ensures keyFile == persisted
    {
      keyFile := persisted;
    }

    /** `_load_or_create_key`: read the file if it exists; otherwise write a
        freshly generated key to it. `entropy` stands for `os.urandom(32)`. */
    method LoadOrCreateKey(entropy: Bytes32) returns (key: Bytes)
      modifies this
      ensures old(keyFile).Some? ==> key == old(keyFile).value && keyFile == old(keyFile)
      ensures old(keyFile).None? ==> key == GeneratedKey(entropy) && keyFile == Some(key)
    {
      if keyFile.Some? {
        key := keyFile.value;
      } else {
        key := GeneratedKey(entropy);
        keyFile := Some(key);
      }
    }
  }

  /** Loading twice, with whatever randomness, returns the same key both
      times: the file is written at most once and then only read. */
  method LoadOrCreateKeyTwice(m: KeyManager, e1: Bytes32, e2: Bytes32) returns (k1: Bytes, k2: Bytes)
    modifies m
    ensures k1 == k2 && m.keyFile == Some(k1)
    ensures old(m.keyFile).Some? ==> k1 == old(m.keyFile).value
  {
    k1 := m.LoadOrCreateKey(e1);
    k2 := m.LoadOrCreateKey(e2);
  }
}
