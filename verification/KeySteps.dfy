/** What every operation on a key does to its layout. */
module KeySteps {
  import opened Options
  import opened Bytes
  import opened Schemes
  import opened KeyLayout

  lemma FilledParts(buf: Option<seq<Byte>>, classical: seq<Byte>, max: nat, pq: seq<Byte>)
    requires |classical| <= max < TWO_TO_THE_32
    requires buf.Some? ==> |buf.value| == SIZE_OF_UINT32 + max + |pq|
    ensures var r := Fill(buf, SIZE_OF_UINT32 + max + |pq|, true, classical, pq);
            && Fits(r, max, |pq|)
            && ClassicalPart(r) == classical
            && PqPart(r, |pq|) == pq
            && (buf.None? ==> Padding(r, |pq|) == Zeros(max - |classical|))
  {
    var base := if buf.Some? then buf.value else Zeros(SIZE_OF_UINT32 + max + |pq|);
    PackedParts(classical, pq, base[SIZE_OF_UINT32 + |classical| + |pq|..]);
  }

  lemma GeneratedBuffers(alg: Algorithm, s: KeyState, cseed: Seed, pseed: Seed)
    requires Shaped(alg, s) && alg.Hybrid() && Generated(alg, s, cseed, pseed).Some?
    ensures var c, r := alg.classical.value, Generated(alg, s, cseed, pseed).value;
            var k, (pk, sk) := ClassicalGen(c, cseed).value, alg.pq.keypair(pseed).value;
            && |sk| == alg.pq.lenPriv && |pk| == alg.pq.lenPub
            && |c.encodePriv(k)| <= c.lenPriv && |c.encodePub(c.publicOf(k))| <= c.lenPub
            && r.priv == Some(Fill(s.priv, SIZE_OF_UINT32 + c.lenPriv + |sk|, true, c.encodePriv(k), sk))
            && r.pub == Some(Fill(s.pub, SIZE_OF_UINT32 + c.lenPub + |pk|, true, c.encodePub(c.publicOf(k)), pk))
  {
  }

  /** Key generation puts each private component in its slice, whatever the buffer held before. */
  lemma GeneratedPrivateParts(alg: Algorithm, s: KeyState, cseed: Seed, pseed: Seed)
    requires Shaped(alg, s) && alg.Hybrid() && Generated(alg, s, cseed, pseed).Some?
    ensures var c := alg.classical.value; var k := ClassicalGen(c, cseed).value;
            var r := Generated(alg, s, cseed, pseed).value.priv;
            && r.Some? && PrivFits(alg, r.value)
            && ClassicalPart(r.value) == c.encodePriv(k)
            && PqPart(r.value, alg.pq.lenPriv) == alg.pq.keypair(pseed).value.1
            && (s.priv.None? ==> Padding(r.value, alg.pq.lenPriv) == Zeros(c.lenPriv - |c.encodePriv(k)|))
  {
    var c := alg.classical.value;
    var cpriv, sk := c.encodePriv(ClassicalGen(c, cseed).value), alg.pq.keypair(pseed).value.1;
    GeneratedBuffers(alg, s, cseed, pseed);
    FilledParts(s.priv, cpriv, c.lenPriv, sk);
  }

  /** And each public one. */
  lemma GeneratedPublicParts(alg: Algorithm, s: KeyState, cseed: Seed, pseed: Seed)
    requires Shaped(alg, s) && alg.Hybrid() && Generated(alg, s, cseed, pseed).Some?
    ensures var c := alg.classical.value; var k := ClassicalGen(c, cseed).value;
            var r := Generated(alg, s, cseed, pseed).value.pub;
            && r.Some? && PubFits(alg, r.value)
            && ClassicalPart(r.value) == c.encodePub(c.publicOf(k))
            && PqPart(r.value, alg.pq.lenPub) == alg.pq.keypair(pseed).value.0
            && (s.pub.None? ==> Padding(r.value, alg.pq.lenPub) == Zeros(c.lenPub - |c.encodePub(c.publicOf(k))|))
  {
    var c := alg.classical.value;
    var cpub, pk := c.encodePub(c.publicOf(ClassicalGen(c, cseed).value)), alg.pq.keypair(pseed).value.0;
    GeneratedBuffers(alg, s, cseed, pseed);
    FilledParts(s.pub, cpub, c.lenPub, pk);
    var r := Generated(alg, s, cseed, pseed).value.pub.value;
    assert Fits(r, c.lenPub, alg.pq.lenPub);
  }

  /** Key generation finishes a key. */
  lemma GeneratedIsCompleted(alg: Algorithm, s: KeyState, cseed: Seed, pseed: Seed)
    requires Shaped(alg, s) && (!alg.Hybrid() ==> s.pkey.None?)
    requires Generated(alg, s, cseed, pseed).Some?
    ensures var g := Generated(alg, s, cseed, pseed).value;
            Completed(alg, g) && g.priv.Some? && g.pub.Some?
  {
    if alg.Hybrid() {
      GeneratedPrivateParts(alg, s, cseed, pseed);
      GeneratedPublicParts(alg, s, cseed, pseed);
    }
  }

  /** An import that succeeds finishes the key exactly when the headers it brought are within the table. */
  lemma ImportedIsCompletedIff(alg: Algorithm, s: KeyState, priv: Option<seq<Byte>>, pub: Option<seq<Byte>>)
    requires Shaped(alg, s) && (!alg.Hybrid() ==> s.pkey.None?)
    requires ImportReadable(alg, s, priv, pub) && Imported(alg, s, priv, pub).Some?
    ensures Completed(alg, Imported(alg, s, priv, pub).value)
       <==> HeadersWithinTable(alg, Loaded(s, priv, pub))
  {
    var l := Loaded(s, priv, pub);
    if alg.Hybrid() && l.pub.Some? && l.priv.Some? {
      assert DecodeUint32(Imported(alg, s, priv, pub).value.pub.value) == DecodeUint32(l.pub.value);
    }
  }

  ghost predicate HeadersWithinTable(alg: Algorithm, s: KeyState)
    requires Shaped(alg, s)
  {
    alg.Hybrid() ==>
      && (s.priv.Some? ==> DecodeUint32(s.priv.value) <= alg.classical.value.lenPriv)
      && (s.pub.Some? ==> DecodeUint32(s.pub.value) <= alg.classical.value.lenPub)
  }

  /** Replacing the encoded public key keeps a finished key finished exactly if there was a public buffer to
      replace and, for a hybrid signature key, the header is the one it had: component pointers are not recomputed. */
  lemma ReplacedIsCompletedIff(alg: Algorithm, s: KeyState, data: seq<Byte>)
    requires Completed(alg, s)
    ensures Replaceable(alg, s)
    ensures PublicReplaced(alg, s, data).Some? ==>
              (Completed(alg, PublicReplaced(alg, s, data).value)
               <==> s.pub.Some? && (alg.keytype.HybSig? ==> DecodeUint32(data) == DecodeUint32(s.pub.value)))
  {
    var r := PublicReplaced(alg, s, data);
    if r.Some? {
      if s.pub.None? {
        assert r.value.compPub[0] != Slots(alg, r.value.pub)[0];
      } else if alg.HybridKem() {
        assert DecodeUint32(r.value.pub.value) == DecodeUint32(s.pub.value);
      }
    }
  }

  /** `oqsx_key_allocate_keymaterial`. */
  function Allocated(alg: Algorithm, s: KeyState, private: bool): KeyState
    requires alg.Hybrid() <==> alg.classical.Some?
  {
    if private && s.priv.None? then
      s.(priv := Some(Zeros(alg.PrivLen())))
    else if !private && s.pub.None? then s.(pub := Some(Zeros(alg.PubLen())))
    else s
  }
}
