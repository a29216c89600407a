/** Hybrid signatures: a length header, the classical signature over a digest of the data, the PQ signature
    over the data itself. */
module HybridSig {
  import opened Options
  import opened Bytes
  import opened Schemes
  import opened KeyLayout
  import opened KeySteps
  import opened KeyTransfer

  ghost predicate SigKey(alg: Algorithm, s: KeyState) {
    Completed(alg, s) && (alg.keytype.PlainSig? || alg.keytype.HybSig?)
  }

  /** The digest both sides hash with, chosen by the claimed NIST level. */
  function LevelHash(level: nat): Hash {
    if level == 1 then Sha256 else if level == 2 || level == 3 then Sha384 else Sha512
  }

  /** The classical half: a signature over the digest, refused when longer than the table says. */
  function ClassicalSigned(alg: Algorithm, pkey: EvpPkey, tbs: seq<Byte>, seed: Seed): (r: Option<seq<Byte>>)
    requires alg.classical.Some?
    ensures r.Some? ==> |r.value| <= alg.classical.value.lenSig
  {
    var c := alg.classical.value;
    var h := LevelHash(alg.pq.level);
    if pkey.scalar.None? then None else
    match c.sign(pkey.scalar.value, h, c.digest(h, tbs), seed)
    case None => None
    case Some(sig) => if |sig| > c.lenSig then None else Some(sig)
  }

  /** `oqs_sig_sign` with room for the longest signature. */
  ghost function Signed(alg: Algorithm, s: KeyState, tbs: seq<Byte>, cseed: Seed, pseed: Seed): (r: Option<seq<Byte>>)
    requires SigKey(alg, s)
    ensures r.Some? ==> |r.value| <= alg.MaxSize()
  {
    if s.priv.None? then None else
    var classical := if alg.Hybrid() then ClassicalSigned(alg, s.pkey.value, tbs, cseed) else Some([]);
    if classical.None? then None else
    match alg.pq.sign(PqPrivate(alg, s.priv.value), tbs, pseed)
    case None => None
    case Some(pq) => Some(if alg.Hybrid() then Pack(classical.value, pq, []) else pq)
  }

  /** `oqs_sig_verify` of a signature whose header stays inside it. */
  ghost function Verified(alg: Algorithm, s: KeyState, sig: seq<Byte>, tbs: seq<Byte>): bool
    requires SigKey(alg, s) && (alg.Hybrid() ==> HeaderInBuffer(sig))
  {
    && s.pub.Some?
    && (alg.Hybrid() ==> ClassicalAccepts(alg, s, ClassicalPart(sig), tbs))
    && PqAccepts(alg, s, if alg.Hybrid() then sig[SIZE_OF_UINT32 + DecodeUint32(sig)..] else sig, tbs)
  }

  ghost predicate ClassicalAccepts(alg: Algorithm, s: KeyState, sig: seq<Byte>, tbs: seq<Byte>)
    requires SigKey(alg, s) && alg.Hybrid()
  {
    var c := alg.classical.value;
    var h := LevelHash(alg.pq.level);
    c.verify(s.pkey.value.point, h, c.digest(h, tbs), sig)
  }

  ghost predicate PqAccepts(alg: Algorithm, s: KeyState, sig: seq<Byte>, tbs: seq<Byte>)
    requires SigKey(alg, s) && s.pub.Some?
  {
    alg.pq.verify(PqPublic(alg, s.pub.value), tbs, sig)
  }

  /** What is signed, in terms of the schemes alone. A plain signature is the PQ signature over the data. A hybrid one
      is the length of the classical signature, that signature, made over the digest the claimed level calls for, and
      the PQ signature over the data; it exists exactly when both parts do and the classical one is no longer than the
      table says. */
  lemma SignatureBytes(alg: Algorithm, s: KeyState, tbs: seq<Byte>, cseed: Seed, pseed: Seed)
    requires SigKey(alg, s)
    ensures s.priv.None? ==> Signed(alg, s, tbs, cseed, pseed) == None
    ensures s.priv.Some? && alg.keytype.PlainSig? ==>
              Signed(alg, s, tbs, cseed, pseed) == alg.pq.sign(s.priv.value, tbs, pseed)
    ensures alg.keytype.PlainSig? ==> alg.MaxSize() == alg.pq.lenSig
    ensures alg.keytype.HybSig? ==> alg.MaxSize() == 4 + alg.classical.value.lenSig + alg.pq.lenSig
    ensures s.priv.Some? && alg.keytype.HybSig? ==>
              var c, key := alg.classical.value, s.pkey.value;
              var h := if alg.pq.level == 1 then Sha256
                       else if alg.pq.level == 2 || alg.pq.level == 3 then Sha384 else Sha512;
              var first := if key.scalar.None? then None
                           else c.sign(key.scalar.value, h, c.digest(h, tbs), cseed);
              var from := 4 + DecodeUint32(s.priv.value);
              var second := alg.pq.sign(s.priv.value[from..from + alg.pq.lenPriv], tbs, pseed);
              Signed(alg, s, tbs, cseed, pseed)
              == if first.None? || second.None? || |first.value| > c.lenSig then None
                 else
                   var n := |first.value|;
                   Some([n / 0x100_0000 % 256, n / 0x1_0000 % 256, n / 0x100 % 256, n % 256]
                        + first.value + second.value)
  {
    if s.priv.Some? && alg.Hybrid() {
      var from := 4 + DecodeUint32(s.priv.value);
      var sk := s.priv.value[from..from + alg.pq.lenPriv];
      assert PqPrivate(alg, s.priv.value) == sk;
      var first, second := ClassicalSigned(alg, s.pkey.value, tbs, cseed), alg.pq.sign(sk, tbs, pseed);
      if first.Some? && second.Some? {
        var n := |first.value|;
        assert Pack(first.value, second.value, [])
            == [n / 0x100_0000 % 256, n / 0x1_0000 % 256, n / 0x100 % 256, n % 256] + first.value + second.value;
      }
    }
  }

  /** What is accepted, in terms of the schemes alone: by a plain key, what the PQ check of its public buffer accepts;
      by a hybrid one, what passes the classical check of the first part over the level's digest and the PQ check of
      the rest over the data. Without a public buffer, nothing. */
  lemma AcceptedIff(alg: Algorithm, s: KeyState, sig: seq<Byte>, tbs: seq<Byte>)
    requires SigKey(alg, s) && (alg.keytype.HybSig? ==> HeaderInBuffer(sig))
    ensures s.pub.None? ==> !Verified(alg, s, sig, tbs)
    ensures s.pub.Some? && alg.keytype.PlainSig? ==>
              (Verified(alg, s, sig, tbs) <==> alg.pq.verify(s.pub.value, tbs, sig))
    ensures s.pub.Some? && alg.keytype.HybSig? ==>
              var c, point := alg.classical.value, s.pkey.value.point;
              var h := if alg.pq.level == 1 then Sha256
                       else if alg.pq.level == 2 || alg.pq.level == 3 then Sha384 else Sha512;
              var from, n := 4 + DecodeUint32(s.pub.value), DecodeUint32(sig);
              Verified(alg, s, sig, tbs)
              <==> c.verify(point, h, c.digest(h, tbs), sig[4..4 + n])
                   && alg.pq.verify(s.pub.value[from..from + alg.pq.lenPub], tbs, sig[4 + n..])
  {
    if s.pub.Some? && alg.Hybrid() {
      var from := 4 + DecodeUint32(s.pub.value);
      assert PqPublic(alg, s.pub.value) == s.pub.value[from..from + alg.pq.lenPub];
    }
  }

  /** A hybrid signature is a pair: any two parts put together are accepted exactly when the classical check
      accepts the first and the PQ check the second, and any signature with its header inside is such a pair. */
  lemma AcceptsIffBothAccept(alg: Algorithm, s: KeyState, classical: seq<Byte>, pq: seq<Byte>, tbs: seq<Byte>)
    requires SigKey(alg, s) && alg.Hybrid() && s.pub.Some? && |classical| < TWO_TO_THE_32
    ensures HeaderInBuffer(Pack(classical, pq, []))
    ensures Verified(alg, s, Pack(classical, pq, []), tbs)
       <==> ClassicalAccepts(alg, s, classical, tbs) && PqAccepts(alg, s, pq, tbs)
  {
    var sig := Pack(classical, pq, []);
    PackedParts(classical, pq, []);
    assert sig[SIZE_OF_UINT32 + |classical|..] == pq;
  }

  lemma EverySignatureIsAPair(sig: seq<Byte>)
    requires HeaderInBuffer(sig)
    ensures sig == Pack(ClassicalPart(sig), sig[SIZE_OF_UINT32 + DecodeUint32(sig)..], [])
  {
    HeaderIsUnique(sig);
  }

  /** Every signature of a generated key verifies under that key, and under the public key another party decodes
      from its SubjectPublicKeyInfo. */
  lemma SignThenVerify(alg: Algorithm, cseed: Seed, pseed: Seed, signer: KeyState, verifier: KeyState,
                       tbs: seq<Byte>, csig: Seed, psig: Seed)
    requires alg.Valid() && (alg.keytype.PlainSig? || alg.keytype.HybSig?)
    requires alg.pq.SignatureLaw()
    requires alg.Hybrid() ==> alg.classical.value.CodecLaws() && alg.classical.value.SignatureLaw()
    requires Generated(alg, Blank(alg), cseed, pseed) == Some(signer)
    requires verifier == signer
          || (ImportReadable(alg, Blank(alg), None, signer.pub)
              && Imported(alg, Blank(alg), None, signer.pub) == Some(verifier))
    ensures SigKey(alg, signer) && SigKey(alg, verifier)
    ensures var sig := Signed(alg, signer, tbs, csig, psig);
            sig.Some? ==> (alg.Hybrid() ==> HeaderInBuffer(sig.value)) && Verified(alg, verifier, sig.value, tbs)
  {
    FreshKeyPublicRoundTrip(alg, cseed, pseed);
    GeneratedPqPair(alg, cseed, pseed);
    if Signed(alg, signer, tbs, csig, psig).Some? {
      SignedIsAccepted(alg, signer, verifier, pseed, tbs, csig, psig);
    }
  }

  lemma GeneratedPqPair(alg: Algorithm, cseed: Seed, pseed: Seed)
    requires alg.Valid() && Generated(alg, Blank(alg), cseed, pseed).Some?
    ensures var s := Generated(alg, Blank(alg), cseed, pseed).value;
            && Completed(alg, s) && s.priv.Some? && s.pub.Some?
            && alg.pq.keypair(pseed) == Some((PqPublic(alg, s.pub.value), PqPrivate(alg, s.priv.value)))
            && (alg.Hybrid() ==> s.pkey.value.scalar.Some?
                                 && s.pkey.value.point == alg.classical.value.publicOf(s.pkey.value.scalar.value))
  {
    GeneratedIsCompleted(alg, Blank(alg), cseed, pseed);
    if alg.Hybrid() {
      GeneratedPrivateParts(alg, Blank(alg), cseed, pseed);
      GeneratedPublicParts(alg, Blank(alg), cseed, pseed);
    }
  }

  /** A signer with matching halves is accepted by any key with its public buffer and classical public key. */
  lemma SignedIsAccepted(alg: Algorithm, signer: KeyState, verifier: KeyState, pseed: Seed, tbs: seq<Byte>, csig: Seed,
                         psig: Seed)
    requires SigKey(alg, signer) && SigKey(alg, verifier)
    requires alg.pq.SignatureLaw() && (alg.Hybrid() ==> alg.classical.value.SignatureLaw())
    requires signer.priv.Some? && signer.pub.Some? && verifier.pub == signer.pub
    requires alg.pq.keypair(pseed) == Some((PqPublic(alg, signer.pub.value), PqPrivate(alg, signer.priv.value)))
    requires alg.Hybrid() ==>
               && signer.pkey.value.scalar.Some?
               && verifier.pkey.value.point == alg.classical.value.publicOf(signer.pkey.value.scalar.value)
    requires Signed(alg, signer, tbs, csig, psig).Some?
    ensures var sig := Signed(alg, signer, tbs, csig, psig).value;
            (alg.Hybrid() ==> HeaderInBuffer(sig)) && Verified(alg, verifier, sig, tbs)
  {
    var sk, pk := PqPrivate(alg, signer.priv.value), PqPublic(alg, signer.pub.value);
    assert alg.pq.verify(pk, tbs, alg.pq.sign(sk, tbs, psig).value);
    if alg.Hybrid() {
      AcceptsIffBothAccept(alg, verifier, ClassicalSigned(alg, signer.pkey.value, tbs, csig).value,
                           alg.pq.sign(sk, tbs, psig).value, tbs);
    }
  }
}
