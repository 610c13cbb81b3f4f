/**
 * Envelope encryption of mail account passwords: a data key (DEK) is wrapped
 * under the key file's key (KEK), and passwords are encrypted under the DEK.
 * AES-GCM is a foreign primitive, so it is a parameter with stated laws.
 */
module Envelope {
  import opened Prelude

  const BLOB_VERSION: char := 1 as char
  const KEY_SIZE := 32
  const NONCE_SIZE := 12
  const OVERHEAD := 16

  datatype CryptoError = InvalidKeySize | InvalidCiphertext | UnsupportedVersion | RandomFailed

  /** seal and open take key, nonce, text and additional data, in this order. */
  datatype Aead = Aead(
    seal: (Bytes, Bytes, Bytes, Bytes) -> Bytes,
    open: (Bytes, Bytes, Bytes, Bytes) -> Option<Bytes>)

  /** What is assumed of AES-GCM: open undoes seal, and accepts nothing else. */
  ghost predicate Lawful(aead: Aead) {
    && (forall k, n, p, a :: |aead.seal(k, n, p, a)| == |p| + OVERHEAD)
    && (forall k, n, p, a :: aead.open(k, n, aead.seal(k, n, p, a), a) == Some(p))
    && (forall k, n, c, a :: aead.open(k, n, c, a).Some? ==> aead.seal(k, n, aead.open(k, n, c, a).value, a) == c)
  }

  /** A lawful primitive exists: a constant tag. */
  const TAG: Bytes := seq(OVERHEAD, i => '0')

  const CONSTANT_TAG_AEAD := Aead(
    (k, n, p, a) => p + TAG,
    (k, n, c, a) =>
      if |c| >= OVERHEAD && c[|c| - OVERHEAD..] == TAG then Some(c[..|c| - OVERHEAD]) else None)

  lemma LawfulExists()
    ensures Lawful(CONSTANT_TAG_AEAD)
  {
    var aead := CONSTANT_TAG_AEAD;
    forall k, n, p, a
      ensures aead.open(k, n, aead.seal(k, n, p, a), a) == Some(p)
    {
      var c := aead.seal(k, n, p, a);
      assert c[|c| - OVERHEAD..] == TAG;
      assert c[..|c| - OVERHEAD] == p;
    }
    forall k, n, c, a | aead.open(k, n, c, a).Some?
      ensures aead.seal(k, n, aead.open(k, n, c, a).value, a) == c
    {
      assert c == c[..|c| - OVERHEAD] + c[|c| - OVERHEAD..];
    }
  }

  /** What a read of `size` bytes from the random source may give. */
  predicate RandomRead(r: Option<Bytes>, size: nat) {
    r.Some? ==> |r.value| == size
  }

  function EncryptBlob(aead: Aead, key: Bytes, nonce: Option<Bytes>, plaintext: Bytes, aad: Bytes)
    : Result<Bytes, CryptoError>
  {
    if |key| != KEY_SIZE then Failure(InvalidKeySize)
    else if nonce.None? then Failure(RandomFailed)
    else Success([BLOB_VERSION] + nonce.value + aead.seal(key, nonce.value, plaintext, aad))
  }

  /** encryptAESGCM: writes the version, then appends the nonce, then the sealed text. */
  method EncryptAesGcm(aead: Aead, key: Bytes, nonce: Option<Bytes>, plaintext: Bytes, aad: Bytes)
    returns (r: Result<Bytes, CryptoError>)
    ensures r == EncryptBlob(aead, key, nonce, plaintext, aad)
  {
    if |key| != KEY_SIZE {
      return Failure(InvalidKeySize);
    }
    if nonce.None? {
      return Failure(RandomFailed);
    }
    var blob := [BLOB_VERSION];
    blob := blob + nonce.value;
    blob := blob + aead.seal(key, nonce.value, plaintext, aad);
    return Success(blob);
  }

  function DecryptBlob(aead: Aead, key: Bytes, blob: Bytes, aad: Bytes): Result<Bytes, CryptoError> {
    if |key| != KEY_SIZE then Failure(InvalidKeySize)
    else if |blob| < 1 + NONCE_SIZE then Failure(InvalidCiphertext)
    else if blob[0] != BLOB_VERSION then Failure(UnsupportedVersion)
    else
      var ciphertext := blob[1 + NONCE_SIZE..];
      if |ciphertext| < OVERHEAD then Failure(InvalidCiphertext)
      else
        match aead.open(key, blob[1..1 + NONCE_SIZE], ciphertext, aad)
        case None => Failure(InvalidCiphertext)
        case Some(plaintext) => Success(plaintext)
  }

  /** Decryption accepts exactly the blobs that encryption can produce, and returns their plaintext. */
  lemma DecryptsExactlyEncryptions(aead: Aead, key: Bytes, blob: Bytes, plaintext: Bytes, aad: Bytes)
    requires Lawful(aead)
    ensures DecryptBlob(aead, key, blob, aad) == Success(plaintext) <==>
            exists nonce: Bytes ::
              && |nonce| == NONCE_SIZE
              && EncryptBlob(aead, key, Some(nonce), plaintext, aad) == Success(blob)
  {
    if DecryptBlob(aead, key, blob, aad) == Success(plaintext) {
      var nonce := blob[1..1 + NONCE_SIZE];
      assert blob == [blob[0]] + nonce + blob[1 + NONCE_SIZE..];
      assert EncryptBlob(aead, key, Some(nonce), plaintext, aad) == Success(blob);
    }
    if nonce: Bytes :|
      && |nonce| == NONCE_SIZE
      && EncryptBlob(aead, key, Some(nonce), plaintext, aad) == Success(blob)
    {
      assert blob[1..1 + NONCE_SIZE] == nonce;
      assert blob[1 + NONCE_SIZE..] == aead.seal(key, nonce, plaintext, aad);
    }
  }

  /** Blobs of another version are told apart from damaged ones, and no blob is read without a full key. */
  lemma DecryptErrors(aead: Aead, key: Bytes, blob: Bytes, aad: Bytes)
    ensures DecryptBlob(aead, key, blob, aad) == Failure(InvalidKeySize) <==> |key| != KEY_SIZE
    ensures DecryptBlob(aead, key, blob, aad) == Failure(UnsupportedVersion) <==>
            |key| == KEY_SIZE && |blob| > NONCE_SIZE && blob[0] != BLOB_VERSION
    ensures DecryptBlob(aead, key, blob, aad) != Failure(RandomFailed)
  {}

  datatype WrappedKey = WrappedKey(wrappedDek: Bytes, kekVersion: int)

  /** EnvelopeEncrypter: the wrapped key to store, and the key itself. */
  datatype Encrypter = Encrypter(envelope: WrappedKey, dek: Bytes)

  function NewEnvelope(aead: Aead, kek: Bytes, kekVersion: int, aad: Bytes, dek: Option<Bytes>, nonce: Option<Bytes>)
    : Result<Encrypter, CryptoError>
  {
    if |kek| != KEY_SIZE then Failure(InvalidKeySize)
    else if dek.None? then Failure(RandomFailed)
    else
      var wrapped :- EncryptBlob(aead, kek, nonce, dek.value, aad);
      Success(Encrypter(WrappedKey(wrapped, kekVersion), dek.value))
  }

  /** OpenEnvelope: the data key inside. The stored KEK version selects nothing. */
  function OpenEnvelope(aead: Aead, kek: Bytes, envelope: WrappedKey, aad: Bytes): Result<Bytes, CryptoError> {
    if |kek| != KEY_SIZE then Failure(InvalidKeySize)
    else
      var dek :- DecryptBlob(aead, kek, envelope.wrappedDek, aad);
      if |dek| != KEY_SIZE then Failure(InvalidKeySize) else Success(dek)
  }

  /** A new envelope opens again under the same additional data, and gives back its key. */
  lemma EnvelopeRoundTrip(aead: Aead, kek: Bytes, kekVersion: int, aad: Bytes, dek: Option<Bytes>, nonce: Option<Bytes>)
    requires Lawful(aead) && RandomRead(dek, KEY_SIZE) && RandomRead(nonce, NONCE_SIZE)
    ensures var r := NewEnvelope(aead, kek, kekVersion, aad, dek, nonce);
            && (r.Success? <==> |kek| == KEY_SIZE && dek.Some? && nonce.Some?)
            && (r.Success? ==>
                && r.value.envelope.kekVersion == kekVersion
                && OpenEnvelope(aead, kek, r.value.envelope, aad) == Success(r.value.dek)
                && |r.value.dek| == KEY_SIZE)
  {
    var r := NewEnvelope(aead, kek, kekVersion, aad, dek, nonce);
    if r.Success? {
      DecryptsExactlyEncryptions(aead, kek, r.value.envelope.wrappedDek, dek.value, aad);
    }
  }

  /** Encryption under a full key needs only a nonce, and decryption returns the plaintext. */
  lemma BlobRoundTrip(aead: Aead, key: Bytes, nonce: Option<Bytes>, plaintext: Bytes, aad: Bytes)
    requires Lawful(aead) && RandomRead(nonce, NONCE_SIZE) && |key| == KEY_SIZE
    ensures var r := EncryptBlob(aead, key, nonce, plaintext, aad);
            && (r.Success? <==> nonce.Some?)
            && (r.Success? ==>
                && |r.value| == 1 + NONCE_SIZE + |plaintext| + OVERHEAD
                && r.value[0] == BLOB_VERSION
                && DecryptBlob(aead, key, r.value, aad) == Success(plaintext))
  {
    var r := EncryptBlob(aead, key, nonce, plaintext, aad);
    if r.Success? {
      DecryptsExactlyEncryptions(aead, key, r.value, plaintext, aad);
    }
  }
}
