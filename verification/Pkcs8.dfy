/** The private key blob inside PKCS#8 (section 5 of RFC 5208): header, as many classical bytes as the header
    says, the PQ private key, the PQ public key. Neither padding nor the classical public key is stored. */
module Pkcs8 {
  import opened Options
  import opened Bytes
  import opened Schemes
  import opened KeyLayout
  import opened KeySteps
  import Der

  // ---- lengths, in C's types ----

  /** The encoder's `privkeylen`, an `int` from which a `size_t` difference is taken. */
  function EncoderPrivLen(privLen: nat, lenPriv: nat, header: nat): Option<int> {
    var actual := AsInt(header);
    if AsSize(actual) > lenPriv then None
    else Some(AsInt(AsSize(AsSize(privLen) - AsSize(lenPriv - AsSize(actual)))))
  }

  /** The decoder's `actualprivkeylen`, a `size_t`. */
  function DecoderPrivLen(privLen: nat, lenPriv: nat, header: nat): Option<nat> {
    var actual := AsInt(header);
    if AsSize(actual) > lenPriv then None
    else Some(AsSize(privLen - AsSize(lenPriv - AsSize(actual))))
  }

  /** For every header, also those negative as an `int`, both sides reject or compute the exact length. */
  lemma LengthsNeverWrap(privLen: nat, lenPriv: nat, header: nat)
    requires SIZE_OF_UINT32 + lenPriv <= privLen < TWO_TO_THE_31 && header < TWO_TO_THE_32
    ensures EncoderPrivLen(privLen, lenPriv, header)
         == DecoderPrivLen(privLen, lenPriv, header)
         == if header <= lenPriv then Some(privLen - (lenPriv - header)) else None
    ensures header <= lenPriv ==> SIZE_OF_UINT32 + header <= privLen - (lenPriv - header) <= privLen
  {
  }

  // ---- the blob ----

  /** Where the encoder reads the PQ public key: the last component pointer. */
  ghost predicate EncodeReadable(alg: Algorithm, s: KeyState) {
    && Shaped(alg, s)
    && (s.priv.Some? && s.pub.Some? ==>
          var last := s.compPub[alg.NumKeys() - 1];
          last.Offset? && 0 <= last.at <= alg.PubLen() - alg.pq.lenPub)
  }

  /** `oqsx_pki_priv_to_der` up to its DER wrapping. */
  ghost function EncodePrivate(alg: Algorithm, s: KeyState): (r: Option<seq<Byte>>)
    requires EncodeReadable(alg, s)
  {
    if s.priv.None? || s.pub.None? then None else
    var unused := if alg.Hybrid() then alg.classical.value.lenPriv - DecodeUint32(s.priv.value) else 0;
    if unused < 0 then None else
    Some(s.priv.value[..alg.PrivLen() - unused] + s.pub.value[s.compPub[alg.NumKeys() - 1].at..][..alg.pq.lenPub])
  }

  /** The key `oqsx_key_op` makes of a private blob: padding restored as zeros, the classical public part
      computed from the classical private key. */
  ghost function DecodePrivate(alg: Algorithm, blob: seq<Byte>): (r: Option<KeyState>)
    requires alg.Valid() && (alg.Hybrid() ==> |blob| >= SIZE_OF_UINT32)
  {
    if !alg.Hybrid() then
      if |blob| != alg.PrivLen() + alg.PubLen() then None else
      Some(WithComposites(alg, Blank(alg).(priv := Some(blob[..alg.PrivLen()]), pub := Some(blob[alg.PrivLen()..]))))
    else
      var c := alg.classical.value;
      var n := DecodeUint32(blob);
      if n > c.lenPriv || |blob| != SIZE_OF_UINT32 + n + alg.pq.lenPriv + alg.pq.lenPub then None else
      var classical := blob[SIZE_OF_UINT32..SIZE_OF_UINT32 + n];
      var pq := blob[SIZE_OF_UINT32 + n..];
      match c.decodePriv(classical)
      case None => None
      case Some(k) =>
        var enc := c.encodePub(c.publicOf(k));
        if |enc| != c.lenPub then None else
        Some(WithComposites(alg, Blank(alg).(
          priv := Some(Pack(classical, pq[..alg.pq.lenPriv], Zeros(c.lenPriv - n))),
          pub := Some(Pack(enc, pq[alg.pq.lenPriv..], [])),
          pkey := Some(EvpPkey(c.publicOf(k), Some(k))))))
  }

  /** A decoded key is finished, and its private buffer is zero past the PQ part. */
  lemma DecodedIsCompleted(alg: Algorithm, blob: seq<Byte>)
    requires alg.Valid() && (alg.Hybrid() ==> |blob| >= SIZE_OF_UINT32)
    requires DecodePrivate(alg, blob).Some?
    ensures var s := DecodePrivate(alg, blob).value;
            && Completed(alg, s) && s.priv.Some? && s.pub.Some?
            && (alg.Hybrid() ==>
                  && Padding(s.priv.value, alg.pq.lenPriv)
                     == Zeros(alg.classical.value.lenPriv - DecodeUint32(blob))
                  && blob == EncodeUint32(DecodeUint32(blob)) + ClassicalPart(s.priv.value)
                             + PqPrivate(alg, s.priv.value) + PqPublic(alg, s.pub.value))
  {
    if alg.Hybrid() {
      DecodedParts(alg, blob, DecodePrivate(alg, blob).value);
    }
  }

  lemma DecodedParts(alg: Algorithm, blob: seq<Byte>, s: KeyState)
    requires alg.Valid() && alg.Hybrid() && |blob| >= SIZE_OF_UINT32
    requires DecodePrivate(alg, blob) == Some(s)
    ensures s.priv.Some? && PrivFits(alg, s.priv.value) && s.pub.Some? && PubFits(alg, s.pub.value)
    ensures Padding(s.priv.value, alg.pq.lenPriv) == Zeros(alg.classical.value.lenPriv - DecodeUint32(blob))
    ensures blob == EncodeUint32(DecodeUint32(blob)) + ClassicalPart(s.priv.value)
                    + PqPrivate(alg, s.priv.value) + PqPublic(alg, s.pub.value)
  {
    var c := alg.classical.value;
    var n := DecodeUint32(blob);
    var classical := blob[SIZE_OF_UINT32..SIZE_OF_UINT32 + n];
    var pq := blob[SIZE_OF_UINT32 + n..];
    var enc := c.encodePub(c.publicOf(c.decodePriv(classical).value));
    PackedParts(classical, pq[..alg.pq.lenPriv], Zeros(c.lenPriv - n));
    PackedParts(enc, pq[alg.pq.lenPriv..], []);
    HeaderIsUnique(blob);
    assert blob == blob[..4] + classical + pq[..alg.pq.lenPriv] + pq[alg.pq.lenPriv..];
  }

  /** The blob of a finished key, part by part. */
  lemma EncodedParts(alg: Algorithm, s: KeyState)
    requires Completed(alg, s) && s.priv.Some? && s.pub.Some?
    ensures EncodeReadable(alg, s) && EncodePrivate(alg, s).Some?
    ensures alg.Hybrid() ==>
              EncodePrivate(alg, s).value
              == Pack(ClassicalPart(s.priv.value), PqPrivate(alg, s.priv.value), PqPublic(alg, s.pub.value))
    ensures !alg.Hybrid() ==> EncodePrivate(alg, s).value == s.priv.value + s.pub.value
  {
    if alg.Hybrid() {
      var b := s.priv.value;
      PartitionIffHeaderWithinTable(b, alg.classical.value.lenPriv, alg.pq.lenPriv);
      HeaderIsUnique(b);
      var n := SIZE_OF_UINT32 + DecodeUint32(b) + alg.pq.lenPriv;
      assert b[..n] == EncodeUint32(DecodeUint32(b)) + ClassicalPart(b) + PqPart(b, alg.pq.lenPriv);
      assert |ClassicalPart(b)| == DecodeUint32(b);
    }
  }

  /** Any blob the decoder accepts is the encoding of the key it yields: the encoding is unique. */
  lemma ReencodingReturnsTheBlob(alg: Algorithm, blob: seq<Byte>)
    requires alg.Valid() && (alg.Hybrid() ==> |blob| >= SIZE_OF_UINT32)
    requires DecodePrivate(alg, blob).Some?
    ensures var s := DecodePrivate(alg, blob).value; EncodeReadable(alg, s) && EncodePrivate(alg, s) == Some(blob)
  {
    DecodedIsCompleted(alg, blob);
    EncodedParts(alg, DecodePrivate(alg, blob).value);
    assert alg.Hybrid() ==> |ClassicalPart(DecodePrivate(alg, blob).value.priv.value)| == DecodeUint32(blob);
    assert !alg.Hybrid() ==> blob == blob[..alg.PrivLen()] + blob[alg.PrivLen()..];
  }

  /** The classical half of a finished hybrid key can be rebuilt from its private bytes,
      at the table's public length. */
  ghost predicate Rebuildable(alg: Algorithm, s: KeyState)
    requires Completed(alg, s) && s.priv.Some?
  {
    alg.Hybrid() ==>
      var c := alg.classical.value;
      var k := c.decodePriv(ClassicalPart(s.priv.value));
      k.Some? && |c.encodePub(c.publicOf(k.value))| == c.lenPub
  }

  /** The buffers carry nothing the blob does not determine: zero padding, and the classical public bytes of
      the private key. */
  ghost predicate Canonical(alg: Algorithm, s: KeyState)
    requires Completed(alg, s) && s.priv.Some? && s.pub.Some? && Rebuildable(alg, s)
  {
    alg.Hybrid() ==>
      var c := alg.classical.value;
      var k := c.decodePriv(ClassicalPart(s.priv.value)).value;
      && (forall i :: 0 <= i < |Padding(s.priv.value, alg.pq.lenPriv)| ==>
            Padding(s.priv.value, alg.pq.lenPriv)[i] == 0)
      && ClassicalPart(s.pub.value) == c.encodePub(c.publicOf(k))
  }

  /** Encoding and decoding any finished key: it is accepted exactly when its classical half can be rebuilt,
      and then restores both buffers exactly when they are canonical. */
  lemma RoundTripIff(alg: Algorithm, s: KeyState)
    requires Completed(alg, s) && s.priv.Some? && s.pub.Some?
    ensures EncodeReadable(alg, s) && EncodePrivate(alg, s).Some?
    ensures var blob := EncodePrivate(alg, s).value;
            && (alg.Hybrid() ==> |blob| >= SIZE_OF_UINT32)
            && (DecodePrivate(alg, blob).Some? <==> Rebuildable(alg, s))
            && (Rebuildable(alg, s) ==>
                  (DecodePrivate(alg, blob).value.priv == s.priv && DecodePrivate(alg, blob).value.pub == s.pub
                   <==> Canonical(alg, s)))
  {
    EncodedParts(alg, s);
    var blob := EncodePrivate(alg, s).value;
    if alg.Hybrid() {
      var c := alg.classical.value;
      var classical, priv, pub := ClassicalPart(s.priv.value), PqPrivate(alg, s.priv.value), PqPublic(alg, s.pub.value);
      PackedParts(classical, priv, pub);
      PartitionIffHeaderWithinTable(s.priv.value, c.lenPriv, alg.pq.lenPriv);
      PartitionIffHeaderWithinTable(s.pub.value, c.lenPub, alg.pq.lenPub);
      assert blob[SIZE_OF_UINT32 + |classical|..] == priv + pub;
      if Rebuildable(alg, s) {
        var enc := c.encodePub(c.publicOf(c.decodePriv(classical).value));
        var pad := Padding(s.priv.value, alg.pq.lenPriv);
        SamePackIff(classical, priv, pad, Zeros(c.lenPriv - |classical|));
        SamePublicIff(enc, pub, ClassicalPart(s.pub.value), Padding(s.pub.value, alg.pq.lenPub));
      }
    }
  }

  lemma SamePackIff(classical: seq<Byte>, pq: seq<Byte>, pad: seq<Byte>, other: seq<Byte>)
    requires |classical| < TWO_TO_THE_32 && |other| == |pad|
    ensures Pack(classical, pq, pad) == Pack(classical, pq, other) <==> pad == other
  {
    PackedParts(classical, pq, pad);
    PackedParts(classical, pq, other);
  }

  lemma SamePublicIff(enc: seq<Byte>, pq: seq<Byte>, classical: seq<Byte>, pad: seq<Byte>)
    requires |enc| < TWO_TO_THE_32 && |classical| < TWO_TO_THE_32 && |classical| + |pad| == |enc|
    ensures Pack(enc, pq, []) == Pack(classical, pq, pad) <==> classical == enc
  {
    PackedParts(enc, pq, []);
    PackedParts(classical, pq, pad);
  }

  /** A freshly generated hybrid key is rebuildable exactly when its classical public encoding has the
      table's length, and is then canonical. */
  lemma FreshKeyIsCanonical(alg: Algorithm, cseed: Seed, pseed: Seed)
    requires alg.Valid() && alg.Hybrid() && alg.classical.value.CodecLaws()
    requires Generated(alg, Blank(alg), cseed, pseed).Some?
    ensures var s := Generated(alg, Blank(alg), cseed, pseed).value;
            && Completed(alg, s) && s.priv.Some? && s.pub.Some?
            && (Rebuildable(alg, s) <==> PublicHasTableLength(alg, cseed))
            && (Rebuildable(alg, s) ==>
                  Canonical(alg, s)
                  && alg.classical.value.decodePriv(ClassicalPart(s.priv.value)) == s.pkey.value.scalar)
  {
    GeneratedIsCompleted(alg, Blank(alg), cseed, pseed);
    GeneratedPrivateParts(alg, Blank(alg), cseed, pseed);
    GeneratedPublicParts(alg, Blank(alg), cseed, pseed);
    var c := alg.classical.value;
    var k := ClassicalGen(c, cseed).value;
    assert c.encodePriv(k) + [] == c.encodePriv(k);
  }

  /** PKCS#8 of a freshly generated key gives back the same key, buffers, component pointers and classical key
      alike, exactly when the classical public encoding has the table's length. Otherwise it is refused. */
  lemma FreshKeyRoundTrip(alg: Algorithm, cseed: Seed, pseed: Seed)
    requires alg.Valid() && (alg.Hybrid() ==> alg.classical.value.CodecLaws())
    requires Generated(alg, Blank(alg), cseed, pseed).Some?
    ensures var s := Generated(alg, Blank(alg), cseed, pseed).value;
            && EncodeReadable(alg, s) && EncodePrivate(alg, s).Some?
            && var blob := EncodePrivate(alg, s).value;
            && (alg.Hybrid() ==> |blob| >= SIZE_OF_UINT32)
            && DecodePrivate(alg, blob) == if PublicHasTableLength(alg, cseed) then Some(s) else None
  {
    var s := Generated(alg, Blank(alg), cseed, pseed).value;
    GeneratedIsCompleted(alg, Blank(alg), cseed, pseed);
    RoundTripIff(alg, s);
    EncodedParts(alg, s);
    var blob := EncodePrivate(alg, s).value;
    if alg.Hybrid() {
      FreshKeyIsCanonical(alg, cseed, pseed);
      if PublicHasTableLength(alg, cseed) {
        PackedParts(ClassicalPart(s.priv.value), PqPrivate(alg, s.priv.value), PqPublic(alg, s.pub.value));
        assert blob[SIZE_OF_UINT32..SIZE_OF_UINT32 + DecodeUint32(blob)] == ClassicalPart(s.priv.value);
        assert DecodePrivate(alg, blob).value.pkey == s.pkey;
      }
    }
  }

  predicate PublicHasTableLength(alg: Algorithm, cseed: Seed)
    requires alg.Hybrid() ==> alg.classical.Some?
  {
    alg.Hybrid() ==>
      var c := alg.classical.value;
      var k := ClassicalGen(c, cseed);
      k.Some? && |c.encodePub(c.publicOf(k.value))| == c.lenPub
  }

  // ---- with the DER wrapping ----

  /** `oqsx_pki_priv_to_der`: 0 bytes signal an error. */
  ghost function PrivateToDer(alg: Algorithm, s: KeyState): seq<Byte>
    requires EncodeReadable(alg, s)
  {
    match EncodePrivate(alg, s)
    case None => []
    case Some(blob) => Der.EncodeOctets(blob)
  }

  /** `oqsx_key_from_pkcs8` on the contents of the privateKey field; bytes after the inner OCTET STRING are ignored. */
  ghost function PrivateFromDer(alg: Algorithm, der: seq<Byte>): Option<KeyState>
    requires alg.Valid()
    requires DerReadable(alg, der)
  {
    match Der.DecodeOctets(der)
    case None => None
    case Some((blob, _)) => DecodePrivate(alg, blob)
  }

  /** The decoder reads the header before it checks the length. */
  predicate DerReadable(alg: Algorithm, der: seq<Byte>) {
    alg.Hybrid() && Der.DecodeOctets(der).Some? ==> |Der.DecodeOctets(der).value.0| >= SIZE_OF_UINT32
  }

  lemma FreshKeyDerRoundTrip(alg: Algorithm, cseed: Seed, pseed: Seed)
    requires alg.Valid() && (alg.Hybrid() ==> alg.classical.value.CodecLaws())
    requires Generated(alg, Blank(alg), cseed, pseed).Some?
    ensures var s := Generated(alg, Blank(alg), cseed, pseed).value;
            && EncodeReadable(alg, s)
            && var der := PrivateToDer(alg, s);
            && DerReadable(alg, der)
            && PrivateFromDer(alg, der) == if PublicHasTableLength(alg, cseed) then Some(s) else None
  {
    FreshKeyRoundTrip(alg, cseed, pseed);
    var blob := EncodePrivate(alg, Generated(alg, Blank(alg), cseed, pseed).value).value;
    Der.OctetsReadBack(blob, []);
    assert Der.EncodeOctets(blob) + [] == Der.EncodeOctets(blob);
  }

  /** The encoding of an accepted key is unique as DER too: of all inputs the decoder takes for it, the encoder's
      output, with whatever follows, is exactly the one with a minimal length field. */
  lemma DerReencodingIff(alg: Algorithm, der: seq<Byte>)
    requires alg.Valid() && DerReadable(alg, der) && PrivateFromDer(alg, der).Some?
    requires |Der.DecodeOctets(der).value.0| < TWO_TO_THE_31
    ensures var s := PrivateFromDer(alg, der).value;
            && EncodeReadable(alg, s)
            && (PrivateToDer(alg, s) + Der.DecodeOctets(der).value.1 == der <==> Der.MinimalLength(der[1..]))
  {
    ReencodingReturnsTheBlob(alg, Der.DecodeOctets(der).value.0);
    Der.OctetsEncodingIsUnique(der);
  }
}
