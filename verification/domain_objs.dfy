/**
  The domain objects: a user's state leaf and the vote command, with the
  command's fixed eight-field layout, its field-wise equality, and the
  eleven-element plaintext it is encrypted as.

  Field elements are unbounded integers. The cryptographic primitives
  (encryption, decryption, hashing, signing, signature checking) are not
  modelled: they are passed in as a `Crypto` record of functions.
 */
module DomainObjs {
  import opened Wrappers

  type Field = int
  type PrivKey = int
  type SharedKey = int

  /** A public key: a point with two coordinates. */
  datatype PubKey = PubKey(x: Field, y: Field)

  /** A signature: the point R8 and the scalar S. */
  datatype Signature = Signature(r8x: Field, r8y: Field, s: Field)

  /** A user's leaf in the state tree; a plain record. */
  datatype StateLeaf = StateLeaf(
    pubKey: PubKey,
    voteOptionTreeRoot: Field,
    voiceCreditBalance: Field,
    nonce: Field)

  /** A vote command. */
  datatype Command = Command(
    stateIndex: Field,
    encPubKey: PubKey,
    newPubKey: PubKey,
    voteOptionIndex: Field,
    newVoteWeight: Field,
    nonce: Field)

  /** The primitives the command uses, over some ciphertext type `C`. */
  datatype Crypto<!C> = Crypto(
    encrypt: (seq<Field>, SharedKey) -> C,
    decrypt: (C, SharedKey) -> seq<Field>,
    hash: seq<Field> -> Field,
    sign: (PrivKey, Field) -> Signature,
    verify: (Field, Signature, PubKey) -> bool)

  /** The one fact assumed of the cipher: decrypting with the key used to
      encrypt gives back the plaintext. */
  ghost predicate DecryptInvertsEncrypt<C>(crypto: Crypto<C>)
  {
    forall p, k :: crypto.decrypt(crypto.encrypt(p, k), k) == p
  }

  /** Number of field elements in a serialised command. */
  const CommandLength := 8

  /** Number of field elements in an encrypted command's plaintext. */
  const PlaintextLength := 11

  /** The command serialised as field elements: state index, the two
      coordinates of the encryption key, the two of the new key, vote
      option, vote weight, nonce. */
  function AsArray(c: Command): (a: seq<Field>)
    ensures |a| == CommandLength && FromArray(a) == Some(c)
  {
    [c.stateIndex,
     c.encPubKey.x, c.encPubKey.y,
     c.newPubKey.x, c.newPubKey.y,
     c.voteOptionIndex, c.newVoteWeight, c.nonce]
  }

  /** The command rebuilt from the first eight elements of a decrypted
      plaintext. A plaintext shorter than eight elements would yield a
      command with undefined components; it is `None` here. */
  function FromArray(p: seq<Field>): (r: Option<Command>)
    ensures r.Some? <==> |p| >= CommandLength
  {
    if |p| < CommandLength then None
    else Some(Command(p[0], PubKey(p[1], p[2]), PubKey(p[3], p[4]), p[5], p[6], p[7]))
  }

  /** Deep equality of two commands, component by component. */
  predicate Equals(a: Command, b: Command)
    ensures Equals(a, b) <==> a == b
  {
    && a.stateIndex == b.stateIndex
    && a.encPubKey.x == b.encPubKey.x
    && a.encPubKey.y == b.encPubKey.y
    && a.newPubKey.x == b.newPubKey.x
    && a.newPubKey.y == b.newPubKey.y
    && a.voteOptionIndex == b.voteOptionIndex
    && a.newVoteWeight == b.newVoteWeight
    && a.nonce == b.nonce
  }

  /** The plaintext that is encrypted: the serialised command followed by
      the signature's R8 coordinates and S. */
  function Plaintext(c: Command, sig: Signature): (p: seq<Field>)
    ensures |p| == PlaintextLength
    ensures FromArray(p) == Some(c)
    ensures p[CommandLength..] == [sig.r8x, sig.r8y, sig.s]
  {
    AsArray(c) + [sig.r8x, sig.r8y, sig.s]
  }

  /** Encrypts the command together with a signature. */
  function Encrypt<C>(c: Command, sharedKey: SharedKey, sig: Signature, crypto: Crypto<C>): (m: C)
    ensures DecryptInvertsEncrypt(crypto) ==> crypto.decrypt(m, sharedKey) == Plaintext(c, sig)
  {
    crypto.encrypt(Plaintext(c, sig), sharedKey)
  }

  /** Decrypts a message and rebuilds the command from it. */
  function Decrypt<C>(sharedKey: SharedKey, message: C, crypto: Crypto<C>): (r: Option<Command>)
    ensures r.Some? <==> |crypto.decrypt(message, sharedKey)| >= CommandLength
    ensures r.Some? ==> AsArray(r.value) == crypto.decrypt(message, sharedKey)[..CommandLength]
  {
    FromArray(crypto.decrypt(message, sharedKey))
  }

  /** `pubKey` belongs to `privKey` as far as the signature scheme can
      tell: every signature made with `privKey` checks under `pubKey`. */
  ghost predicate KeyPair<C>(crypto: Crypto<C>, privKey: PrivKey, pubKey: PubKey)
  {
    forall m :: crypto.verify(m, crypto.sign(privKey, m), pubKey)
  }

  /** A matching key pair accepts the signature of any digest. */
  lemma KeyPairVerifies<C>(crypto: Crypto<C>, privKey: PrivKey, pubKey: PubKey, digest: Field)
    requires KeyPair(crypto, privKey, pubKey)
    ensures crypto.verify(digest, crypto.sign(privKey, digest), pubKey)
  {
  }

  /** Signs the hash of the serialised command. */
  function Sign<C>(c: Command, privKey: PrivKey, crypto: Crypto<C>): (sig: Signature)
    ensures forall pubKey :: KeyPair(crypto, privKey, pubKey) ==>
              crypto.verify(crypto.hash(AsArray(c)), sig, pubKey)
  {
    var digest := crypto.hash(AsArray(c));
    var sig := crypto.sign(privKey, digest);
    assert forall pubKey :: KeyPair(crypto, privKey, pubKey) ==> crypto.verify(digest, sig, pubKey) by {
      forall pubKey | KeyPair(crypto, privKey, pubKey)
        ensures crypto.verify(digest, sig, pubKey)
      {
        KeyPairVerifies(crypto, privKey, pubKey, digest);
      }
    }
    sig
  }

  /** Checks a signature against the hash of the serialised command. */
  function VerifySignature<C>(c: Command, sig: Signature, pubKey: PubKey, crypto: Crypto<C>): (ok: bool)
    ensures forall privKey :: KeyPair(crypto, privKey, pubKey) && sig == crypto.sign(privKey, crypto.hash(AsArray(c))) ==> ok
  {
    var digest := crypto.hash(AsArray(c));
    assert forall privKey :: KeyPair(crypto, privKey, pubKey) && sig == crypto.sign(privKey, digest) ==>
             crypto.verify(digest, sig, pubKey) by {
      forall privKey | KeyPair(crypto, privKey, pubKey) && sig == crypto.sign(privKey, digest)
        ensures crypto.verify(digest, sig, pubKey)
      {
        KeyPairVerifies(crypto, privKey, pubKey, digest);
      }
    }
    crypto.verify(digest, sig, pubKey)
  }

  // ---------------------------------------------------------------------
  // Properties
  // ---------------------------------------------------------------------

  /** The layout: eight elements, each the named component in order. */
  lemma AsArrayLayout(c: Command)
    ensures |AsArray(c)| == CommandLength
    ensures AsArray(c)[0] == c.stateIndex
    ensures AsArray(c)[1] == c.encPubKey.x && AsArray(c)[2] == c.encPubKey.y
    ensures AsArray(c)[3] == c.newPubKey.x && AsArray(c)[4] == c.newPubKey.y
    ensures AsArray(c)[5] == c.voteOptionIndex
    ensures AsArray(c)[6] == c.newVoteWeight
    ensures AsArray(c)[7] == c.nonce
  {
  }

  /** Unpacking inverts serialisation, and serialising an unpacked command
      gives back the first eight elements of what was unpacked. */
  lemma FromArrayAsArray(c: Command, p: seq<Field>)
    ensures FromArray(AsArray(c)) == Some(c)
    ensures FromArray(p).Some? ==> AsArray(FromArray(p).value) == p[..CommandLength]
  {
  }

  /** `Equals` holds exactly when the two serialisations agree, which is
      exactly when the commands are the same value. */
  lemma EqualsIffSameArray(a: Command, b: Command)
    ensures Equals(a, b) <==> AsArray(a) == AsArray(b)
    ensures Equals(a, b) <==> a == b
  {
  }

  /** `Equals` is reflexive, symmetric and transitive. */
  lemma EqualsIsEquivalence(a: Command, b: Command, c: Command)
    ensures Equals(a, a)
    ensures Equals(a, b) ==> Equals(b, a)
    ensures Equals(a, b) && Equals(b, c) ==> Equals(a, c)
  {
  }

  /** The plaintext has eleven elements: the serialised command, then the
      signature at indices 8 to 10; unpacking it gives back the command. */
  lemma PlaintextLayout(c: Command, sig: Signature)
    ensures |Plaintext(c, sig)| == PlaintextLength
    ensures Plaintext(c, sig)[..CommandLength] == AsArray(c)
    ensures Plaintext(c, sig)[8] == sig.r8x && Plaintext(c, sig)[9] == sig.r8y
    ensures Plaintext(c, sig)[10] == sig.s
    ensures FromArray(Plaintext(c, sig)) == Some(c)
  {
  }

  /** Unpacking ignores everything after the eighth element, so the
      signature part of a plaintext never affects the decrypted command. */
  lemma FromArrayIgnoresTail(p: seq<Field>, q: seq<Field>)
    requires |p| >= CommandLength && |q| >= CommandLength
    requires p[..CommandLength] == q[..CommandLength]
    ensures FromArray(p) == FromArray(q)
  {
  }

  /** With a cipher whose decryption inverts encryption, decrypting an
      encrypted command gives a command equal to the original, whatever
      signature was packed with it. */
  lemma DecryptEncrypt<C>(c: Command, sharedKey: SharedKey, sig: Signature, crypto: Crypto<C>)
    requires DecryptInvertsEncrypt(crypto)
    ensures Decrypt(sharedKey, Encrypt(c, sharedKey, sig, crypto), crypto).Some?
    ensures Equals(Decrypt(sharedKey, Encrypt(c, sharedKey, sig, crypto), crypto).value, c)
  {
  }

  /** Commands that are `Equals` hash the same serialisation, so they get
      the same signature and the same signature check. */
  lemma EqualCommandsSignAlike<C>(a: Command, b: Command, privKey: PrivKey, sig: Signature,
                                  pubKey: PubKey, crypto: Crypto<C>)
    requires Equals(a, b)
    ensures crypto.hash(AsArray(a)) == crypto.hash(AsArray(b))
    ensures Sign(a, privKey, crypto) == Sign(b, privKey, crypto)
    ensures VerifySignature(a, sig, pubKey, crypto) == VerifySignature(b, sig, pubKey, crypto)
  {
  }
}
