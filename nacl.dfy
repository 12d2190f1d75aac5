/** The foreign primitives the signalling code calls: tweetnacl's SHA-512
    `hash`, `secretbox` (XSalsa20-Poly1305) and `box`
    (Curve25519-XSalsa20-Poly1305), tweetnacl-util's UTF-8 conversions and
    the browser's `JSON`. They are not defined here: a `Primitives` value is
    any implementation of them, and `Sound` lists everything the model
    assumes about one. The size checks that make tweetnacl throw are part of
    the model (`BoxSeal`, `BoxOpen`, `SecretboxOpen`). */
module Nacl {
  import opened Wrappers
  import opened Bytes
  import opened Json

  /** `nacl.hash.hashLength`, SHA-512. */
  const HashLength: nat := 64
  /** `nacl.secretbox.keyLength`. */
  const SecretboxKeyLength: nat := 32
  /** `nacl.secretbox.nonceLength`. */
  const SecretboxNonceLength: nat := 24
  /** `nacl.box.nonceLength`. */
  const BoxNonceLength: nat := 24
  /** `nacl.box.publicKeyLength`. */
  const BoxPublicKeyLength: nat := 32
  /** `nacl.box.secretKeyLength`. */
  const BoxSecretKeyLength: nat := 32
  /** `nacl.secretbox.overheadLength` = `nacl.box.overheadLength`: the Poly1305 tag. */
  const Overhead: nat := 16

  datatype Primitives = Primitives(
    /** `nacl.hash(m)` */
    hash: Bytes -> Bytes,
    /** `nacl.secretbox(m, nonce, key)` */
    secretbox: (Bytes, Bytes, Bytes) -> Bytes,
    /** `nacl.secretbox.open(c, nonce, key)` for well-sized nonce and key */
    secretboxOpen: (Bytes, Bytes, Bytes) -> Option<Bytes>,
    /** `nacl.box(m, nonce, theirPublicKey, mySecretKey)` for well-sized arguments */
    box: (Bytes, Bytes, Bytes, Bytes) -> Bytes,
    /** `nacl.box.open(c, nonce, theirPublicKey, mySecretKey)` for well-sized arguments */
    boxOpen: (Bytes, Bytes, Bytes, Bytes) -> Option<Bytes>,
    /** the public half of the key pair `nacl.box.keyPair` makes from a secret key */
    publicKeyOf: Bytes -> Bytes,
    /** tweetnacl-util `decodeUTF8(s)`: string to UTF-8 bytes */
    utf8Bytes: string -> Bytes,
    /** tweetnacl-util `encodeUTF8(b)`: UTF-8 bytes to string; `None` where it throws */
    utf8String: Bytes -> Option<string>,
    /** `JSON.stringify` */
    stringify: Json -> string,
    /** `JSON.parse`; `None` where it throws */
    parse: string -> Option<Json>)
  {
    /** What the model assumes of the primitives: each opening inverts its
        sealing under the matching key and nonce (for `box`, with the key pair
        swapped), and the documented output sizes. Nothing is assumed about
        opening with any other key. */
    ghost predicate Sound() {
      && (forall m :: |hash(m)| == HashLength)
      && (forall m, n, k :: |secretbox(m, n, k)| == |m| + Overhead)
      && (forall m, n, k :: secretboxOpen(secretbox(m, n, k), n, k) == Some(m))
      && (forall m, n, pk, sk :: |box(m, n, pk, sk)| == |m| + Overhead)
      && (forall sk :: |publicKeyOf(sk)| == BoxPublicKeyLength)
      && (forall m, n, a, b :: boxOpen(box(m, n, publicKeyOf(b), a), n, publicKeyOf(a), b) == Some(m))
      && (forall s :: utf8String(utf8Bytes(s)) == Some(s))
      && (forall j :: parse(stringify(j)) == Some(j))
    }
  }

  /** A key pair as `genKeyPair` returns it from `nacl.box.keyPair()`. */
  datatype KeyPair = KeyPair(publicKey: Bytes, privateKey: Bytes)

  ghost predicate IsKeyPair(p: Primitives, k: KeyPair) {
    |k.privateKey| == BoxSecretKeyLength && k.publicKey == p.publicKeyOf(k.privateKey)
  }

  /** `nacl.secretbox.open`, which throws (here `None`) on a badly sized
      nonce or key and returns `null` (here `None`) on a forgery. */
  function SecretboxOpen(p: Primitives, c: Bytes, nonce: Bytes, key: Bytes): (r: Option<Bytes>)
    ensures (|nonce| != SecretboxNonceLength || |key| != SecretboxKeyLength) ==> r.None?
  {
    if |nonce| != SecretboxNonceLength || |key| != SecretboxKeyLength then None
    else p.secretboxOpen(c, nonce, key)
  }

  /** `nacl.box`, which throws (here `None`) unless the nonce, public key and
      secret key have their sizes. */
  function BoxSeal(p: Primitives, m: Bytes, nonce: Bytes, theirPub: Bytes, mySecret: Bytes): (r: Option<Bytes>)
    ensures r.Some? <==> |nonce| == BoxNonceLength && |theirPub| == BoxPublicKeyLength && |mySecret| == BoxSecretKeyLength
  {
    if |nonce| != BoxNonceLength || |theirPub| != BoxPublicKeyLength || |mySecret| != BoxSecretKeyLength then None
    else Some(p.box(m, nonce, theirPub, mySecret))
  }

  /** `nacl.box.open`, which throws on badly sized arguments and returns
      `null` on a forgery (both `None` here). */
  function BoxOpen(p: Primitives, c: Bytes, nonce: Bytes, theirPub: Bytes, mySecret: Bytes): (r: Option<Bytes>)
    ensures (|nonce| != BoxNonceLength || |theirPub| != BoxPublicKeyLength || |mySecret| != BoxSecretKeyLength) ==> r.None?
  {
    if |nonce| != BoxNonceLength || |theirPub| != BoxPublicKeyLength || |mySecret| != BoxSecretKeyLength then None
    else p.boxOpen(c, nonce, theirPub, mySecret)
  }
}
