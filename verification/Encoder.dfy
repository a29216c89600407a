/** Writing keys out and reading them back: PKCS#8, SubjectPublicKeyInfo, and whole round trips on the heap. */
module Encoder {
  import opened Options
  import opened Bytes
  import opened Schemes
  import opened KeyLayout
  import opened Pkcs8
  import opened Keys
  import opened KeyMatch
  import Der

  /** `oqsx_pki_priv_to_der`; no bytes signal an error. */
  method PrivToDer(key: OqsxKey) returns (der: seq<Byte>)
    requires key.Valid() && EncodeReadable(key.alg, key.State())
    ensures der == PrivateToDer(key.alg, key.State())
    ensures var blob := EncodePrivate(key.alg, key.State());
            blob.Some? ==>
              var n := |blob.value|;
              && (n < 128 ==> der == [0x04, n] + blob.value)
              && (128 <= n < 0x100 ==> der == [0x04, 0x81, n] + blob.value)
              && (0x100 <= n < 0x1_0000 ==> der == [0x04, 0x82, n / 256, n % 256] + blob.value)
  {
    if key.privkey == null || key.pubkey == null {
      return [];
    }
    SlotIsPointer(key.compPubkey, key.pubkey, key.numkeys - 1);
    var alg := key.alg;
    var privkeylen: int := key.privkeylen;
    if key.numkeys > 1 {
      LengthsNeverWrap(key.privkeylen, alg.classical.value.lenPriv, DecodeUint32(key.privkey[..]));
      var adjusted := EncoderPrivLen(key.privkeylen, alg.classical.value.lenPriv, DecodeUint32(key.privkey[..]));
      if adjusted.None? {
        return [];
      }
      privkeylen := adjusted.value;
    }
    var from := key.compPubkey[key.numkeys - 1];
    var buf := Concatenated(key.privkey, privkeylen, from.buf, from.off, alg.pq.lenPub);
    assert buf[..] == EncodePrivate(alg, key.State()).value;
    der := Der.EncodeOctets(buf[..]);
    Der.OctetsSpelledOut(buf[..]);
  }

  /** The blob's buffer: a prefix of the private buffer, then the PQ public key. */
  method Concatenated(privkey: array<Byte>, privkeylen: nat, pub: array<Byte>, at: nat, pubLen: nat)
    returns (buf: array<Byte>)
    requires privkeylen <= privkey.Length && at + pubLen <= pub.Length
    ensures fresh(buf) && buf[..] == privkey[..][..privkeylen] + pub[..][at..][..pubLen]
  {
    buf := new Byte[privkeylen + pubLen](_ => 0);
    Memcpy(buf, 0, privkey[..privkeylen]);
    Memcpy(buf, privkeylen, pub[at..at + pubLen]);
  }

  /** `oqsx_key_from_pkcs8`, given the contents of the privateKey field. */
  method FromPkcs8(alg: Algorithm, der: seq<Byte>) returns (key: OqsxKey?)
    requires alg.Valid() && DerReadable(alg, der)
    requires Der.DecodeOctets(der).Some? ==> |Der.DecodeOctets(der).value.0| < TWO_TO_THE_31
    ensures key != null <==> PrivateFromDer(alg, der).Some?
    ensures der == [] || der[0] != 0x04 ==> key == null
    ensures key != null ==>
              && key.Valid() && key.alg == alg && fresh(key.Footprint()) && key.references == 1
              && PrivateFromDer(alg, der) == Some(key.State())
  {
    Der.ParserSpelledOut(der);
    var oct := Der.DecodeOctets(der);
    key := KeyOp(alg, if oct.None? then None else Some(oct.value.0), true);
  }

  /** `oqsx_spki_pub_to_der`: a copy of the whole public buffer. */
  method SpkiPubToDer(key: OqsxKey) returns (blob: Option<seq<Byte>>)
    requires key.Valid()
    ensures blob == key.State().pub
  {
    if key.pubkey == null {
      return None;
    }
    return Some(key.pubkey[..]);
  }

  ghost function View(alg: Algorithm, s: KeyState): KeyView {
    KeyView(alg.tlsName, s.priv, s.pub)
  }

  /** Generate, write, read back: the copy exists exactly when the classical public encoding has the table's
      length (or there is none). It is then the same key in other memory, and matches under every selection. */
  method GenerateStoreReload(alg: Algorithm, cseed: Seed, pseed: Seed) returns (key: OqsxKey, copy: OqsxKey?)
    requires alg.Valid() && (alg.Hybrid() ==> alg.classical.value.CodecLaws())
    requires Generated(alg, Blank(alg), cseed, pseed).Some?
    ensures Generated(alg, Blank(alg), cseed, pseed) == Some(key.State())
    ensures copy != null <==> PublicHasTableLength(alg, cseed)
    ensures copy != null ==> copy.State() == key.State() && copy.Footprint() !! key.Footprint()
    ensures copy != null ==> forall s: Selection :: Match(View(alg, key.State()), View(alg, copy.State()), s)
  {
    ghost var s := Generated(alg, Blank(alg), cseed, pseed).value;
    key := GeneratedKeyPair(alg, cseed, pseed, s);
    copy := StoreReload(key, cseed, pseed);
    if copy != null {
      EqualStatesMatch(alg, key.State(), copy.State());
    }
  }

  /** Write and read back. */
  method StoreReload(key: OqsxKey, ghost cseed: Seed, ghost pseed: Seed) returns (copy: OqsxKey?)
    requires key.Valid() && (key.alg.Hybrid() ==> key.alg.classical.value.CodecLaws())
    requires Generated(key.alg, Blank(key.alg), cseed, pseed) == Some(key.State())
    ensures copy != null <==> PublicHasTableLength(key.alg, cseed)
    ensures copy != null ==> copy.State() == key.State() && fresh(copy.Footprint())
  {
    StoredKeyReadsBack(key.alg, key.State(), cseed, pseed);
    var der := PrivToDer(key);
    copy := FromPkcs8(key.alg, der);
  }

  lemma EqualStatesMatch(alg: Algorithm, s: KeyState, t: KeyState)
    requires s == t
    ensures forall selection: Selection :: Match(View(alg, s), View(alg, t), selection)
  {
    MatchIsReflexive(View(alg, s));
  }

  lemma StoredKeyReadsBack(alg: Algorithm, s: KeyState, cseed: Seed, pseed: Seed)
    requires alg.Valid() && (alg.Hybrid() ==> alg.classical.value.CodecLaws())
    requires Generated(alg, Blank(alg), cseed, pseed) == Some(s)
    ensures EncodeReadable(alg, s) && DerReadable(alg, PrivateToDer(alg, s))
    ensures var d := Der.DecodeOctets(PrivateToDer(alg, s)); d.Some? && |d.value.0| < TWO_TO_THE_31
    ensures PrivateFromDer(alg, PrivateToDer(alg, s)) == if PublicHasTableLength(alg, cseed) then Some(s) else None
  {
    FreshKeyDerRoundTrip(alg, cseed, pseed);
    FreshKeyRoundTrip(alg, cseed, pseed);
    var blob := EncodePrivate(alg, s).value;
    Der.OctetsReadBack(blob, []);
    assert Der.EncodeOctets(blob) + [] == Der.EncodeOctets(blob);
  }
}
