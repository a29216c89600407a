/** The cryptography a key runs on, as parameters: a row of the classical key table and a liboqs
    algorithm, each with its operations as functions of the random draws, and the laws they obey. */
module Schemes {
  import opened Options
  import opened Bytes

  /** The random bits one generation or signature consumes. */
  type Seed = nat
  /** An EVP_PKEY private part and public part, as opaque handles. */
  type Scalar = nat
  type Point = nat

  datatype Hash = Sha256 | Sha384 | Sha512

  datatype EvpPkey = EvpPkey(point: Point, scalar: Option<Scalar>)

  /** A row of the `OQSX_EVP_INFO` tables, with the EVP operations of its key type. */
  datatype Classical = Classical(
    raw: bool,         // raw_key_support
    lenPub: nat,       // length_public_key
    lenPriv: nat,      // length_private_key, a maximum unless raw
    lenSecret: nat,    // kex_length_secret
    lenSig: nat,       // length_signature, a maximum
    keygen: Seed -> Option<Scalar>,
    publicOf: Scalar -> Point,
    encodePub: Point -> seq<Byte>,
    decodePub: seq<Byte> -> Option<Point>,
    encodePriv: Scalar -> seq<Byte>,
    decodePriv: seq<Byte> -> Option<Scalar>,
    derive: (Scalar, Point) -> Option<seq<Byte>>,
    digest: (Hash, seq<Byte>) -> seq<Byte>,
    sign: (Scalar, Hash, seq<Byte>, Seed) -> Option<seq<Byte>>,
    verify: (Point, Hash, seq<Byte>, seq<Byte>) -> bool
  ) {
    /** `k` comes out of key generation. */
    ghost predicate Generates(k: Scalar) {
      exists s: Seed :: keygen(s) == Some(k)
    }

    /** The encodings of generated keys are read back; a DER private key says where it ends, a raw one has no
        room to spare. */
    ghost predicate CodecLaws() {
      && (forall k: Scalar :: Generates(k) ==> decodePub(encodePub(publicOf(k))) == Some(publicOf(k)))
      && (forall k: Scalar, rest: seq<Byte> :: Generates(k) && (raw ==> rest == []) ==>
            decodePriv(encodePriv(k) + rest) == Some(k))
    }

    /** Both ends of an exchange derive the same secret. */
    ghost predicate ExchangeLaw() {
      forall a: Scalar, b: Scalar :: derive(a, publicOf(b)) == derive(b, publicOf(a))
    }

    /** A derived secret has the table's length. */
    ghost predicate Sizes() {
      forall a: Scalar, p: Point :: derive(a, p).Some? ==> |derive(a, p).value| == lenSecret
    }

    /** A signature verifies under the public part of the key that made it. */
    ghost predicate SignatureLaw() {
      forall k: Scalar, h: Hash, d: seq<Byte>, r: Seed :: sign(k, h, d, r).Some? ==>
        verify(publicOf(k), h, d, sign(k, h, d, r).value)
    }
  }

  /** A liboqs KEM or signature algorithm. */
  datatype Pq = Pq(
    lenPub: nat,
    lenPriv: nat,
    lenCt: nat,        // length_ciphertext
    lenSecret: nat,    // length_shared_secret
    lenSig: nat,       // length_signature, a maximum
    level: nat,        // claimed_nist_level
    keypair: Seed -> Option<(seq<Byte>, seq<Byte>)>,
    encaps: (seq<Byte>, Seed) -> Option<(seq<Byte>, seq<Byte>)>,
    decaps: (seq<Byte>, seq<Byte>) -> Option<seq<Byte>>,
    sign: (seq<Byte>, seq<Byte>, Seed) -> Option<seq<Byte>>,
    verify: (seq<Byte>, seq<Byte>, seq<Byte>) -> bool
  ) {
    /** What each operation writes has the advertised length. */
    ghost predicate Sizes() {
      && (forall s: Seed :: keypair(s).Some? ==> |keypair(s).value.0| == lenPub && |keypair(s).value.1| == lenPriv)
      && (forall pk: seq<Byte>, s: Seed :: encaps(pk, s).Some? ==>
            |encaps(pk, s).value.0| == lenCt && |encaps(pk, s).value.1| == lenSecret)
      && (forall sk: seq<Byte>, ct: seq<Byte> :: decaps(sk, ct).Some? ==> |decaps(sk, ct).value| == lenSecret)
      && (forall sk: seq<Byte>, m: seq<Byte>, s: Seed :: sign(sk, m, s).Some? ==> |sign(sk, m, s).value| <= lenSig)
    }

    ghost predicate KemLaw() {
      forall s: Seed, r: Seed :: keypair(s).Some? && encaps(keypair(s).value.0, r).Some? ==>
        decaps(keypair(s).value.1, encaps(keypair(s).value.0, r).value.0) == Some(encaps(keypair(s).value.0, r).value.1)
    }

    ghost predicate SignatureLaw() {
      forall s: Seed, m: seq<Byte>, r: Seed :: keypair(s).Some? && sign(keypair(s).value.1, m, r).Some? ==>
        verify(keypair(s).value.0, m, sign(keypair(s).value.1, m, r).value)
    }
  }

  /** The selection bits of key management calls. */
  datatype Selection = Selection(private: bool, public: bool, domain: bool, other: bool) {
    predicate Parameters() {
      domain || other
    }

    predicate Empty() {
      !private && !public && !domain && !other
    }

    function Meet(mask: Selection): Selection {
      Selection(private && mask.private, public && mask.public, domain && mask.domain, other && mask.other)
    }
  }

  datatype KeyType = PlainSig | PlainKem | EcpHybKem | EcxHybKem | HybSig

  /** What `oqsx_key_new` is told: the key type and the algorithms it combines. */
  datatype Algorithm = Algorithm(tlsName: string, keytype: KeyType, classical: Option<Classical>, pq: Pq) {
    predicate Hybrid() {
      keytype.EcpHybKem? || keytype.EcxHybKem? || keytype.HybSig?
    }

    predicate HybridKem() {
      keytype.EcpHybKem? || keytype.EcxHybKem?
    }

    function NumKeys(): nat {
      if Hybrid() then 2 else 1
    }

    function PrivLen(): nat
      requires Hybrid() <==> classical.Some?
    {
      if Hybrid() then SIZE_OF_UINT32 + classical.value.lenPriv + pq.lenPriv else pq.lenPriv
    }

    function PubLen(): nat
      requires Hybrid() <==> classical.Some?
    {
      if Hybrid() then SIZE_OF_UINT32 + classical.value.lenPub + pq.lenPub else pq.lenPub
    }

    /** `oqsx_key_maxsize`: the longest shared secret or signature. */
    function MaxSize(): nat
      requires Hybrid() <==> classical.Some?
    {
      match keytype
      case PlainKem => pq.lenSecret
      case EcpHybKem => classical.value.lenSecret + pq.lenSecret
      case EcxHybKem => classical.value.lenSecret + pq.lenSecret
      case PlainSig => pq.lenSig
      case HybSig => pq.lenSig + classical.value.lenSig + SIZE_OF_UINT32
    }

    /** A hybrid names a table row, lengths fit an `int`,
        and no classical encoding outgrows the buffer it is written to. */
    ghost predicate Valid() {
      && (Hybrid() <==> classical.Some?)
      && pq.lenPriv > 0 && pq.lenPub > 0
      && PrivLen() + PubLen() < TWO_TO_THE_31
      && pq.Sizes()
      && (Hybrid() ==> classical.value.Sizes() && classical.value.lenSig < TWO_TO_THE_31 && EncodingsFit())
    }

    ghost predicate EncodingsFit()
      requires Hybrid() && classical.Some?
    {
      && (forall p: Point :: SIZE_OF_UINT32 + |classical.value.encodePub(p)| <= PubLen())
      && (forall k: Scalar :: SIZE_OF_UINT32 + |classical.value.encodePriv(k)| <= PrivLen())
    }
  }
}
