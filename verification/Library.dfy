/** The cryptographic libraries the enclave calls, as a record of functions, and the laws assumed of them.

    The pairing groups have one prime order; a point is represented by a number below it, addition of points
    by addition modulo the order, and the pairing by multiplication.  The public key of a secret is that
    multiple of the generator, the signature of a message that multiple of the point the message is hashed
    to, and a signature is checked by comparing two pairings. */
module Library {
  import opened Wrappers
  import opened Bytes
  import opened Ssz
  import opened PrimeField
  import opened Polynomials

  /** A secret key set: the coefficients of the sharing polynomial, constant term first. */
  type SecretKeySet = seq<nat>

  /** A public key set: the coefficients' points. */
  type PublicKeySet = seq<nat>

  type EthSecretKey = Bytes32
  type EthPublicKey = s: seq<byte> | |s| == 64 witness Zeros(64)

  datatype Lib = Lib(
    order: nat,
    generator: nat,
    hash: Hash,
    keccak: seq<byte> -> Bytes32,
    hashToCurve: Root -> nat,
    pkToBytes: nat -> Bytes48,
    pkSetToBytes: PublicKeySet -> seq<byte>,
    pkSetFromBytes: seq<byte> -> Option<PublicKeySet>,
    sigToBytes: nat -> Bytes96,
    sigFromBytes: Bytes96 -> Option<nat>,
    skToBytes: nat -> Bytes32,
    skFromBytes: Bytes32 -> Option<nat>,
    skSetToBytes: SecretKeySet -> seq<byte>,
    skSetFromBytes: seq<byte> -> Option<SecretKeySet>,
    ethPublicKey: EthSecretKey -> EthPublicKey,
    ethPkToBytes: EthPublicKey -> seq<byte>,
    ethPkFromBytes: seq<byte> -> Option<EthPublicKey>,
    encrypt: (EthPublicKey, seq<byte>, nat) -> seq<byte>,
    decrypt: (EthSecretKey, seq<byte>) -> Option<seq<byte>>)

  /** A value of the scalar field. */
  predicate IsScalar(lib: Lib, x: nat) {
    x < lib.order
  }

  predicate IsKeySet(lib: Lib, poly: seq<nat>) {
    poly != [] && forall i :: 0 <= i < |poly| ==> poly[i] < lib.order
  }

  /** The group has prime order, the generator is not neutral, and points have one encoding each. */
  ghost predicate GroupLaws(lib: Lib) {
    && Prime(lib.order)
    && 0 < lib.generator < lib.order
    && (forall m :: lib.hashToCurve(m) < lib.order)
    && (forall x: nat, y: nat :: x < lib.order && y < lib.order && lib.pkToBytes(x) == lib.pkToBytes(y) ==> x == y)
  }

  /** Encoders of public values have the matching decoders. */
  ghost predicate PublicCodecLaws(lib: Lib) {
    && (forall c :: IsKeySet(lib, c) ==> lib.pkSetFromBytes(lib.pkSetToBytes(c)) == Some(c)
                                         && |lib.pkSetToBytes(c)| == 48 * |c|)
    && (forall x: nat :: x < lib.order ==> lib.sigFromBytes(lib.sigToBytes(x)) == Some(x))
    && (forall pk: EthPublicKey :: |lib.ethPkToBytes(pk)| == 65 && lib.ethPkFromBytes(lib.ethPkToBytes(pk)) == Some(pk))
  }

  /** So have those of secrets; a share is read back as a key set of one coefficient. */
  ghost predicate SecretCodecLaws(lib: Lib) {
    && (forall x: nat :: x < lib.order ==> lib.skFromBytes(lib.skToBytes(x)) == Some(x))
    && (forall b :: lib.skFromBytes(b).Some? ==> lib.skFromBytes(b).value < lib.order)
    && (forall c :: IsKeySet(lib, c) ==> lib.skSetFromBytes(lib.skSetToBytes(c)) == Some(c))
    && (forall x: nat :: x < lib.order ==> lib.skSetFromBytes(lib.skToBytes(x)) == Some([x]))
  }

  /** A ciphertext opens under the matching secret key and under no other. */
  ghost predicate EnvelopeLaws(lib: Lib) {
    forall sk: EthSecretKey, pk: EthPublicKey, m: seq<byte>, nonce: nat ::
      lib.decrypt(sk, lib.encrypt(pk, m, nonce)) == if lib.ethPublicKey(sk) == pk then Some(m) else None
  }

  /** How long a ciphertext is depends on the length of the plaintext only.  Not part of `Lawful`: it is asked for
      where it matters. */
  ghost predicate EnvelopeWidths(lib: Lib) {
    forall pk: EthPublicKey, qk: EthPublicKey, m: seq<byte>, n: seq<byte>, i: nat, j: nat ::
      |m| == |n| ==> |lib.encrypt(pk, m, i)| == |lib.encrypt(qk, n, j)|
  }

  /** Everything that is assumed of the libraries. */
  ghost predicate Lawful(lib: Lib) {
    GroupLaws(lib) && PublicCodecLaws(lib) && SecretCodecLaws(lib) && EnvelopeLaws(lib)
  }

  lemma OrderPositive(lib: Lib)
    requires Lawful(lib)
    ensures lib.order > 0
  {
  }

  // ---------------------------------------------------------------- polynomials and signatures

  /** The group secret: the polynomial at zero. */
  function SecretKey(lib: Lib, poly: SecretKeySet): nat
    requires lib.order > 0
  {
    Eval(poly, 0) % lib.order
  }

  /** Share `i` is the polynomial at `i + 1`. */
  function SecretKeyShare(lib: Lib, poly: SecretKeySet, i: nat): nat
    requires lib.order > 0
  {
    Eval(poly, i + 1) % lib.order
  }

  /** The public key, or the public share, of a secret. */
  function PointOf(lib: Lib, secret: nat): nat
    requires lib.order > 0
  {
    (secret * lib.generator) % lib.order
  }

  /** The public key set has the coefficients' points as coefficients. */
  function PublicKeys(lib: Lib, poly: SecretKeySet): (keys: PublicKeySet)
    requires lib.order > 0
    ensures |keys| == |poly|
    ensures poly != [] ==> IsKeySet(lib, keys)
  {
    seq(|poly|, i requires 0 <= i < |poly| => PointOf(lib, poly[i]))
  }

  function PublicKey(lib: Lib, keys: PublicKeySet): nat
    requires lib.order > 0
  {
    Eval(keys, 0) % lib.order
  }

  function PublicKeyShare(lib: Lib, keys: PublicKeySet, i: nat): nat
    requires lib.order > 0
  {
    Eval(keys, i + 1) % lib.order
  }

  function Sign(lib: Lib, secret: nat, message: Root): nat
    requires lib.order > 0
  {
    (secret * lib.hashToCurve(message)) % lib.order
  }

  /** The pairing of signature and generator equals that of public key and message point. */
  predicate Verify(lib: Lib, publicKey: nat, signature: nat, message: Root)
    requires lib.order > 0
  {
    (signature * lib.generator) % lib.order == (publicKey * lib.hashToCurve(message)) % lib.order
  }

  // ---------------------------------------------------------------- key files

  /** Secret key files: the hexadecimal key text under the hexadecimal public key. */
  type KeyFiles = map<string, string>

  function WriteKey(files: KeyFiles, pkHex: string, skHex: string): KeyFiles {
    files[Strip0x(pkHex) := Strip0x(skHex)]
  }

  function FetchBlsSk(lib: Lib, files: KeyFiles, pkHex: string): Result<SecretKeySet> {
    var name := Strip0x(pkHex);
    if name !in files then Err(NoSuchFile) else
      var bytes :- HexDecode(files[name]);
      match lib.skSetFromBytes(bytes)
      case Some(poly) => Ok(poly)
      case None => Err(Undecodable)
  }

  /** A key that was written is read back, however either name is prefixed; every other file stays. */
  lemma WrittenKeyIsRead(lib: Lib, files: KeyFiles, pkHex: string, skHex: string, other: string)
    ensures var files' := WriteKey(files, pkHex, skHex);
            FetchBlsSk(lib, files', other)
            == if Strip0x(other) != Strip0x(pkHex) then FetchBlsSk(lib, files, other) else
                 var bytes := HexDecode(Strip0x(skHex));
                 if bytes.Err? then Err(bytes.error) else
                   var key := lib.skSetFromBytes(bytes.value);
                   if key.Some? then Ok(key.value) else Err(Undecodable)
  {
    hide HexDecode, Strip0x;
  }

  function PublicKeyHex(lib: Lib, publicKey: nat): (name: string)
    ensures |name| == 96 && IsLowerHex(name) && Strip0x(name) == name
  {
    StripHexEncode(lib.pkToBytes(publicKey));
    HexEncode(lib.pkToBytes(publicKey))
  }

  /** The share's text under the text of its public key. */
  function StoreShareIn(lib: Lib, files: KeyFiles, share: nat): KeyFiles
    requires lib.order > 0
  {
    WriteKey(files, PublicKeyHex(lib, PointOf(lib, share)), HexEncode(lib.skToBytes(share)))
  }
}
