/**
 * Sealed-buffer framing around the ChaCha20-Poly1305 AEAD of section 2.8
 * of RFC 8439: a caller-owned buffer holds the plaintext (or ciphertext)
 * followed by a detached 16-byte tag, and is sealed or opened in place.
 *
 * The cipher itself belongs to a foreign library and is a parameter here:
 * a value of type `Aead` supplies detached encryption and decryption, and
 * the predicates `InPlace` and `Correct` state what the framing relies on.
 */
module Crypto {
  import opened Wrappers
  import opened Nonce

  /** Size of the Poly1305 tag that closes every sealed buffer. */
  const MAC_SIZE: nat := 16

  /** Size of a ChaCha20-Poly1305 key. */
  const PRIVATE_KEY_SIZE: nat := 32

  type Key = k: seq<u8> | |k| == PRIVATE_KEY_SIZE witness seq(PRIVATE_KEY_SIZE, _ => 0)

  /** The failures `encrypt`, `decrypt` and `generate_key` report. */
  datatype Error =
    | BufferSizeMismatch     // the buffer cannot even hold the tag
    | Failed                 // the AEAD refused to encrypt, or the tag did not verify
    | GenerateKey(cause: RngError)

  /** Failure reported by the operating system's random source. */
  datatype RngError = RngError(code: int)

  /** Output of detached encryption: the ciphertext and its tag. */
  datatype Sealed = Sealed(ciphertext: seq<u8>, tag: seq<u8>)

  /**
   * The foreign AEAD. `encryptDetached(key, nonce, aad, plaintext)` and
   * `decryptDetached(key, nonce, aad, ciphertext, tag)` either succeed or
   * report the library's opaque error as `None`.
   */
  datatype Aead = Aead(
    encryptDetached: (Key, seq<u8>, seq<u8>, seq<u8>) -> Option<Sealed>,
    decryptDetached: (Key, seq<u8>, seq<u8>, seq<u8>, seq<u8>) -> Option<seq<u8>>)

  /**
   * The in-place API works on a fixed slice: the ciphertext is as long as
   * the plaintext, the tag is MAC_SIZE bytes, and a decrypted region is as
   * long as the ciphertext it replaces.
   */
  ghost predicate InPlace(aead: Aead) {
    && (forall key, nonce, aad, plaintext ::
          aead.encryptDetached(key, nonce, aad, plaintext).Some? ==>
            && |aead.encryptDetached(key, nonce, aad, plaintext).value.ciphertext| == |plaintext|
            && |aead.encryptDetached(key, nonce, aad, plaintext).value.tag| == MAC_SIZE)
    && (forall key, nonce, aad, ciphertext, tag ::
          aead.decryptDetached(key, nonce, aad, ciphertext, tag).Some? ==>
            |aead.decryptDetached(key, nonce, aad, ciphertext, tag).value| == |ciphertext|)
  }

  /** AEAD correctness: decrypting what was encrypted, under the same key, nonce and aad, succeeds. */
  ghost predicate Correct(aead: Aead) {
    forall key, nonce, aad, plaintext ::
      aead.encryptDetached(key, nonce, aad, plaintext).Some? ==>
        var s := aead.encryptDetached(key, nonce, aad, plaintext).value;
        aead.decryptDetached(key, nonce, aad, s.ciphertext, s.tag) == Some(plaintext)
  }

  /** The library encrypts every input it is given. */
  ghost predicate EncryptsEverything(aead: Aead) {
    forall key, nonce, aad, plaintext :: aead.encryptDetached(key, nonce, aad, plaintext).Some?
  }

  /** A toy cipher (identity with an all-zero tag), showing the three assumptions can hold together. */
  function ToyAead(): Aead {
    Aead(
      (key: Key, nonce: seq<u8>, aad: seq<u8>, p: seq<u8>) =>
        Some(Sealed(p, seq(MAC_SIZE, _ => 0))),
      (key: Key, nonce: seq<u8>, aad: seq<u8>, c: seq<u8>, t: seq<u8>) =>
        if t == seq(MAC_SIZE, _ => 0) then Some(c) else None)
  }

  lemma ToyAeadSatisfiesAssumptions()
    ensures InPlace(ToyAead()) && Correct(ToyAead()) && EncryptsEverything(ToyAead())
  {
  }

  /** `generate_key`: the key is whatever the random source supplied; its failure is reported, never replaced. */
  function GenerateKeyFrom(entropy: Result<Key, RngError>): (r: Result<Key, Error>)
    ensures r.Ok? <==> entropy.Ok?
    ensures r.Ok? ==> r.value == entropy.value
    ensures r.Err? ==> r.error == GenerateKey(entropy.error)
  {
    match entropy
    case Ok(key) => Ok(key)
    case Err(e) => Err(GenerateKey(e))
  }

  /** An absent associated-data argument stands for the empty one (`unwrap_or_default`). */
  function AssociatedData(aad: Option<seq<u8>>): seq<u8> {
    aad.GetOr([])
  }

  /** The contents `encrypt` leaves in `buffer`, or the error it reports. */
  function SealedBuffer(aead: Aead, buffer: seq<u8>, aad: Option<seq<u8>>, nonce: u64, key: Key)
    : Result<seq<u8>, Error>
  {
    if |buffer| < MAC_SIZE then Err(BufferSizeMismatch)
    else
      var size := |buffer|;
      match aead.encryptDetached(key, CipherNonce(nonce), AssociatedData(aad), buffer[..size - MAC_SIZE])
      case None => Err(Failed)
      case Some(s) => Ok(s.ciphertext + s.tag)
  }

  /** The contents `decrypt` leaves in `buffer`, or the error it reports. */
  function OpenedBuffer(aead: Aead, buffer: seq<u8>, aad: Option<seq<u8>>, nonce: u64, key: Key)
    : Result<seq<u8>, Error>
  {
    if |buffer| < MAC_SIZE then Err(BufferSizeMismatch)
    else
      var size := |buffer|;
      match aead.decryptDetached(key, CipherNonce(nonce), AssociatedData(aad),
                                 buffer[..size - MAC_SIZE], buffer[size - MAC_SIZE..])
      case None => Err(Failed)
      case Some(plaintext) => Ok(plaintext + buffer[size - MAC_SIZE..])
  }

  /** A buffer too short to hold the tag, and only such a buffer, is refused as a size mismatch. */
  lemma SealRejectsShortBuffer(aead: Aead, buffer: seq<u8>, aad: Option<seq<u8>>, nonce: u64, key: Key)
    ensures SealedBuffer(aead, buffer, aad, nonce, key) == Err(BufferSizeMismatch) <==> |buffer| < MAC_SIZE
  {
  }

  /** The same size rule for opening. */
  lemma OpenRejectsShortBuffer(aead: Aead, buffer: seq<u8>, aad: Option<seq<u8>>, nonce: u64, key: Key)
    ensures OpenedBuffer(aead, buffer, aad, nonce, key) == Err(BufferSizeMismatch) <==> |buffer| < MAC_SIZE
  {
  }

  /**
   * Sealing keeps the length, stores the AEAD's ciphertext of the leading
   * region (under the widened nonce and the associated data, empty when
   * absent) in that region, and the tag in exactly the trailing MAC_SIZE bytes.
   */
  lemma SealLayout(aead: Aead, buffer: seq<u8>, aad: Option<seq<u8>>, nonce: u64, key: Key, sealed: seq<u8>)
    requires InPlace(aead)
    requires SealedBuffer(aead, buffer, aad, nonce, key) == Ok(sealed)
    ensures |buffer| >= MAC_SIZE && |sealed| == |buffer|
    ensures var split := |buffer| - MAC_SIZE;
      && aead.encryptDetached(key, CipherNonce(nonce), AssociatedData(aad), buffer[..split])
           == Some(Sealed(sealed[..split], sealed[split..]))
  {
  }

  /** Sealing fails with `Failed` exactly when the buffer is large enough and the AEAD refuses. */
  lemma SealFailsOnlyInCipher(aead: Aead, buffer: seq<u8>, aad: Option<seq<u8>>, nonce: u64, key: Key)
    ensures SealedBuffer(aead, buffer, aad, nonce, key) == Err(Failed) <==>
      && |buffer| >= MAC_SIZE
      && aead.encryptDetached(key, CipherNonce(nonce), AssociatedData(aad), buffer[..|buffer| - MAC_SIZE]).None?
  {
  }

  /** With a library that never refuses, sealing succeeds exactly on buffers that hold the tag. */
  lemma SealSucceedsOnLargeEnoughBuffer(aead: Aead, buffer: seq<u8>, aad: Option<seq<u8>>, nonce: u64, key: Key)
    requires EncryptsEverything(aead)
    ensures SealedBuffer(aead, buffer, aad, nonce, key).Ok? <==> |buffer| >= MAC_SIZE
  {
  }

  /**
   * Opening reads the tag from the trailing MAC_SIZE bytes and the ciphertext
   * from the rest; it fails with `Failed` exactly when the AEAD rejects them,
   * and otherwise the leading region becomes the plaintext while the tag
   * bytes stay as they were.
   */
  lemma OpenLayout(aead: Aead, buffer: seq<u8>, aad: Option<seq<u8>>, nonce: u64, key: Key)
    requires InPlace(aead)
    requires |buffer| >= MAC_SIZE
    ensures var split := |buffer| - MAC_SIZE;
      var verdict := aead.decryptDetached(key, CipherNonce(nonce), AssociatedData(aad),
                                          buffer[..split], buffer[split..]);
      match OpenedBuffer(aead, buffer, aad, nonce, key)
      case Err(e) => e == Failed && verdict.None?
      case Ok(result) =>
        && |result| == |buffer|
        && verdict == Some(result[..split])
        && result[split..] == buffer[split..]
  {
  }

  /** An absent associated-data argument behaves exactly like an empty one, for both directions. */
  lemma AbsentAssociatedDataIsEmpty(aead: Aead, buffer: seq<u8>, nonce: u64, key: Key)
    ensures SealedBuffer(aead, buffer, None, nonce, key) == SealedBuffer(aead, buffer, Some([]), nonce, key)
    ensures OpenedBuffer(aead, buffer, None, nonce, key) == OpenedBuffer(aead, buffer, Some([]), nonce, key)
  {
  }

  /**
   * Round trip: opening a buffer sealed with the same key, nonce and
   * associated data succeeds, restores the original leading region and
   * leaves the tag in the trailing bytes.
   */
  lemma RoundTrip(aead: Aead, buffer: seq<u8>, aad: Option<seq<u8>>, nonce: u64, key: Key, sealed: seq<u8>)
    requires InPlace(aead) && Correct(aead)
    requires SealedBuffer(aead, buffer, aad, nonce, key) == Ok(sealed)
    ensures |buffer| >= MAC_SIZE
    ensures OpenedBuffer(aead, sealed, aad, nonce, key)
            == Ok(buffer[..|buffer| - MAC_SIZE] + sealed[|buffer| - MAC_SIZE..])
  {
  }

  /**
   * A buffer of exactly MAC_SIZE bytes carries an empty plaintext: it is
   * never refused for its size, and once sealed it opens to itself. An
   * empty buffer is refused.
   */
  lemma TagOnlyBuffer(aead: Aead, buffer: seq<u8>, aad: Option<seq<u8>>, nonce: u64, key: Key)
    requires InPlace(aead) && Correct(aead)
    requires |buffer| == MAC_SIZE
    ensures SealedBuffer(aead, buffer, aad, nonce, key) != Err(BufferSizeMismatch)
    ensures SealedBuffer(aead, buffer, aad, nonce, key).Ok? ==>
      var sealed := SealedBuffer(aead, buffer, aad, nonce, key).value;
      OpenedBuffer(aead, sealed, aad, nonce, key) == Ok(sealed)
    ensures SealedBuffer(aead, [], aad, nonce, key) == Err(BufferSizeMismatch)
  {
  }

  /** Overwrites `buffer[from..from + |src|]` with `src` (`copy_from_slice`). */
  method CopyInto(buffer: array<u8>, from: nat, src: seq<u8>)
    requires from + |src| <= buffer.Length
    modifies buffer
    ensures buffer[..] == old(buffer[..from]) + src + old(buffer[from + |src|..])
  {
    var i := 0;
    while i < |src|
      invariant 0 <= i <= |src|
      invariant forall k :: 0 <= k < from ==> buffer[k] == old(buffer[k])
      invariant forall k :: 0 <= k < i ==> buffer[from + k] == src[k]
      invariant forall k :: from + i <= k < buffer.Length ==> buffer[k] == old(buffer[k])
    {
      buffer[from + i] := src[i];
      i := i + 1;
    }
    assert buffer[..] == old(buffer[..from]) + src + old(buffer[from + |src|..]);
  }

  /**
   * `encrypt`: seals `buffer` in place. On success the leading
   * `len - MAC_SIZE` bytes hold the ciphertext and the trailing MAC_SIZE
   * bytes the tag; on failure no byte has changed.
   */
  method Encrypt(aead: Aead, buffer: array<u8>, associatedData: Option<seq<u8>>, nonce: u64, key: Key)
    returns (r: Result<(), Error>)
    requires InPlace(aead)
    modifies buffer
    ensures r.Ok? ==> SealedBuffer(aead, old(buffer[..]), associatedData, nonce, key) == Ok(buffer[..])
    ensures r.Err? ==> SealedBuffer(aead, old(buffer[..]), associatedData, nonce, key) == Err(r.error)
    ensures r.Err? ==> buffer[..] == old(buffer[..])
  {
    var size := buffer.Length;
    if size < MAC_SIZE {
      return Err(BufferSizeMismatch);
    }
    var finalNonce := DeriveNonce(nonce);
    var sealed := aead.encryptDetached(key, finalNonce[..], AssociatedData(associatedData),
                                       buffer[..size - MAC_SIZE]);
    if sealed.None? {
      return Err(Failed);
    }
    ghost var before := buffer[..];
    var ciphertext, tag := sealed.value.ciphertext, sealed.value.tag;
    assert |ciphertext| == size - MAC_SIZE && |tag| == MAC_SIZE;
    CopyInto(buffer, 0, ciphertext);
    assert buffer[..] == ciphertext + before[size - MAC_SIZE..];
    CopyInto(buffer, size - MAC_SIZE, tag);
    assert buffer[..] == ciphertext + tag;
    r := Ok(());
  }

  /**
   * `decrypt`: opens `buffer` in place. The trailing MAC_SIZE bytes are the
   * tag and the rest the ciphertext; when the AEAD accepts them the
   * ciphertext region is replaced by the plaintext, otherwise no byte has
   * changed.
   */
  method Decrypt(aead: Aead, buffer: array<u8>, associatedData: Option<seq<u8>>, nonce: u64, key: Key)
    returns (r: Result<(), Error>)
    requires InPlace(aead)
    modifies buffer
    ensures r.Ok? ==> OpenedBuffer(aead, old(buffer[..]), associatedData, nonce, key) == Ok(buffer[..])
    ensures r.Err? ==> OpenedBuffer(aead, old(buffer[..]), associatedData, nonce, key) == Err(r.error)
    ensures r.Err? ==> buffer[..] == old(buffer[..])
  {
    if buffer.Length < MAC_SIZE {
      return Err(BufferSizeMismatch);
    }
    var finalNonce := DeriveNonce(nonce);
    var split := buffer.Length - MAC_SIZE;
    var ciphertext, mac := buffer[..split], buffer[split..];
    var plaintext := aead.decryptDetached(key, finalNonce[..], AssociatedData(associatedData), ciphertext, mac);
    if plaintext.None? {
      return Err(Failed);
    }
    assert |plaintext.value| == split;
    CopyInto(buffer, 0, plaintext.value);
    assert buffer[..] == plaintext.value + mac;
    r := Ok(());
  }
}
