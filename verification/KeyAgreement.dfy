/** Whether the classical key that hangs off a hybrid key is the one its public buffer encodes. Replacing the
    encoded public key never rebuilds it. */
module KeyAgreement {
  import opened Options
  import opened Bytes
  import opened Schemes
  import opened KeyLayout
  import opened KeySteps
  import opened Pkcs8
  import opened KeyTransfer
  import opened HybridSig

  ghost predicate Agrees(alg: Algorithm, s: KeyState)
    requires Completed(alg, s)
  {
    alg.Hybrid() && s.pub.Some? ==>
      ClassicalPart(s.pub.value) == alg.classical.value.encodePub(s.pkey.value.point)
  }

  /** A generated key agrees, whatever the buffers held before. */
  lemma GeneratedAgrees(alg: Algorithm, s: KeyState, cseed: Seed, pseed: Seed)
    requires Shaped(alg, s) && (!alg.Hybrid() ==> s.pkey.None?)
    requires Generated(alg, s, cseed, pseed).Some?
    ensures Completed(alg, Generated(alg, s, cseed, pseed).value) && Agrees(alg, Generated(alg, s, cseed, pseed).value)
  {
    GeneratedIsCompleted(alg, s, cseed, pseed);
    if alg.Hybrid() {
      GeneratedPublicParts(alg, s, cseed, pseed);
    }
  }

  /** So does one decoded from a private blob. */
  lemma DecodedAgrees(alg: Algorithm, blob: seq<Byte>)
    requires alg.Valid() && (alg.Hybrid() ==> |blob| >= SIZE_OF_UINT32)
    requires DecodePrivate(alg, blob).Some?
    ensures Completed(alg, DecodePrivate(alg, blob).value) && Agrees(alg, DecodePrivate(alg, blob).value)
  {
    DecodedIsCompleted(alg, blob);
    if alg.Hybrid() {
      var c := alg.classical.value;
      var n := DecodeUint32(blob);
      var enc := c.encodePub(c.publicOf(c.decodePriv(blob[SIZE_OF_UINT32..SIZE_OF_UINT32 + n]).value));
      PackedParts(enc, blob[SIZE_OF_UINT32 + n..][alg.pq.lenPriv..], []);
    }
  }

  /** With a private buffer, an import writes the classical public bytes back, but keeps the header; without one,
      what the parser reads need not be what the encoder writes. Public decoding is the import of a public buffer
      into a new key. */
  ghost predicate ImportAgrees(alg: Algorithm, l: KeyState)
    requires Shaped(alg, l) && (alg.Hybrid() && l.pub.Some? ==> HeaderInBuffer(l.pub.value))
  {
    alg.Hybrid() && l.pub.Some? ==>
      var c := alg.classical.value;
      if l.priv.Some? then DecodeUint32(l.pub.value) == c.lenPub
      else
        var p := c.decodePub(ClassicalPart(l.pub.value));
        p.Some? ==> c.encodePub(p.value) == ClassicalPart(l.pub.value)
  }

  lemma ImportedAgreesIff(alg: Algorithm, s: KeyState, priv: Option<seq<Byte>>, pub: Option<seq<Byte>>)
    requires Shaped(alg, s) && (!alg.Hybrid() ==> s.pkey.None?)
    requires ImportReadable(alg, s, priv, pub) && Imported(alg, s, priv, pub).Some?
    requires HeadersWithinTable(alg, Loaded(s, priv, pub))
    ensures Completed(alg, Imported(alg, s, priv, pub).value)
    ensures Agrees(alg, Imported(alg, s, priv, pub).value) <==> ImportAgrees(alg, Loaded(s, priv, pub))
  {
    ImportedIsCompletedIff(alg, s, priv, pub);
    var l := Loaded(s, priv, pub);
    if alg.Hybrid() && l.pub.Some? && l.priv.Some? {
      var c := alg.classical.value;
      var enc := c.encodePub(c.publicOf(c.decodePriv(ClassicalPart(l.priv.value)).value));
      RewrittenPart(l.pub.value, enc);
    }
  }

  lemma RewrittenPart(buf: seq<Byte>, enc: seq<Byte>)
    requires HeaderInBuffer(buf) && DecodeUint32(buf) <= |enc| && SIZE_OF_UINT32 + |enc| <= |buf|
    ensures HeaderInBuffer(Splice(buf, SIZE_OF_UINT32, enc))
    ensures ClassicalPart(Splice(buf, SIZE_OF_UINT32, enc)) == enc[..DecodeUint32(buf)]
  {
  }

  /** The public half of a generated key agrees after decoding. */
  lemma FreshPublicAgrees(alg: Algorithm, cseed: Seed, pseed: Seed)
    requires alg.Valid() && (alg.Hybrid() ==> alg.classical.value.CodecLaws())
    requires Generated(alg, Blank(alg), cseed, pseed).Some?
    ensures var pub := Generated(alg, Blank(alg), cseed, pseed).value.pub;
            && ImportReadable(alg, Blank(alg), None, pub)
            && var r := Imported(alg, Blank(alg), None, pub);
            r.Some? && Completed(alg, r.value) && Agrees(alg, r.value)
  {
    FreshKeyPublicRoundTrip(alg, cseed, pseed);
    GeneratedAgrees(alg, Blank(alg), cseed, pseed);
  }

  /** Replacing the encoded public key of a finished key that agrees keeps it so if and only if the classical
      bytes do not change. */
  lemma ReplacedAgreesIff(alg: Algorithm, s: KeyState, data: seq<Byte>)
    requires Completed(alg, s) && Agrees(alg, s) && Replaceable(alg, s)
    requires PublicReplaced(alg, s, data).Some? && Completed(alg, PublicReplaced(alg, s, data).value)
    ensures s.pub.Some? && PublicReplaced(alg, s, data).value.pub.Some?
    ensures Agrees(alg, PublicReplaced(alg, s, data).value)
       <==> (alg.Hybrid() ==> ClassicalPart(PublicReplaced(alg, s, data).value.pub.value) == ClassicalPart(s.pub.value))
  {
    ReplacedIsCompletedIff(alg, s, data);
  }

  /** What a hybrid signature key accepts after replacement: the classical part by the key it had before, the PQ
      part by the key it was given. */
  lemma ReplacedAccepts(alg: Algorithm, s: KeyState, given: KeyState, r: KeyState, sig: seq<Byte>, tbs: seq<Byte>)
    requires SigKey(alg, s) && SigKey(alg, given) && alg.Hybrid() && given.pub.Some? && Replaceable(alg, s)
    requires PublicReplaced(alg, s, given.pub.value) == Some(r) && Completed(alg, r)
    requires HeaderInBuffer(sig)
    ensures Verified(alg, r, sig, tbs)
       <==> ClassicalAccepts(alg, s, ClassicalPart(sig), tbs)
            && PqAccepts(alg, given, sig[SIZE_OF_UINT32 + DecodeUint32(sig)..], tbs)
  {
    assert r.pub == given.pub && r.pkey == s.pkey;
  }
}
