/** The laws assumed of the cryptography can all hold at once: a toy instance, for each kind of hybrid key. */
module Consistency {
  import opened Options
  import opened Bytes
  import opened Schemes
  import opened KeyLayout
  import opened Pkcs8
  import opened HybridKem
  import opened KeyBytes

  function ToyClassical(): Classical {
    Classical(
      raw := false, lenPub := 1, lenPriv := 2, lenSecret := 1, lenSig := 1,
      keygen := (s: Seed) => Some(s % 256),
      publicOf := (k: Scalar) => k,
      encodePub := (p: Point) => [p % 256],
      decodePub := (b: seq<Byte>) => if |b| == 1 then Some(b[0]) else None,
      encodePriv := (k: Scalar) => [k % 256],
      decodePriv := (b: seq<Byte>) => if |b| >= 1 then Some(b[0]) else None,
      derive := (k: Scalar, p: Point) => Some([(k + p) % 256]),
      digest := (h: Hash, m: seq<Byte>) => m,
      sign := (k: Scalar, h: Hash, d: seq<Byte>, r: Seed) => Some([k % 256]),
      verify := (p: Point, h: Hash, d: seq<Byte>, sig: seq<Byte>) => sig == [p % 256])
  }

  function ToyPq(): Pq {
    Pq(
      lenPub := 1, lenPriv := 1, lenCt := 1, lenSecret := 1, lenSig := 1, level := 1,
      keypair := (s: Seed) => Some(([s % 256], [s % 256])),
      encaps := (pk: seq<Byte>, r: Seed) => Some(([r % 256], [r % 256])),
      decaps := (sk: seq<Byte>, ct: seq<Byte>) => if |ct| == 1 then Some(ct) else None,
      sign := (sk: seq<Byte>, m: seq<Byte>, r: Seed) => Some(if |sk| == 1 then sk else [0]),
      verify := (pk: seq<Byte>, m: seq<Byte>, sig: seq<Byte>) => sig == pk)
  }

  function Toy(t: KeyType): Algorithm {
    Algorithm("toy", t, if t.PlainSig? || t.PlainKem? then None else Some(ToyClassical()), ToyPq())
  }

  /** A classical private encoding shorter than its maximum, so that a fresh key has padding and the KEM's parsing
      window runs into the PQ key, and every law with it. */
  lemma LawsCanHold(t: KeyType, cseed: Seed, pseed: Seed)
    ensures Toy(t).Valid() && Toy(t).pq.KemLaw() && Toy(t).pq.SignatureLaw()
    ensures var c := ToyClassical(); c.CodecLaws() && c.ExchangeLaw() && c.SignatureLaw()
    ensures Generated(Toy(t), Blank(Toy(t)), cseed, pseed).Some? && PublicHasTableLength(Toy(t), cseed)
    ensures t.EcpHybKem? || t.EcxHybKem? ==>
              Toy(t).HybridKem() && Laws(Toy(t)) && exists s :: FreshKemKey(Toy(t), cseed, pseed, s)
  {
    ToyIsValid(t);
    ToyIsLawful();
    ToyGenerates(t, cseed, pseed);
    if Toy(t).HybridKem() {
      assert FreshKemKey(Toy(t), cseed, pseed, Generated(Toy(t), Blank(Toy(t)), cseed, pseed).value);
    }
  }

  lemma ToyIsValid(t: KeyType)
    ensures Toy(t).Valid() && Toy(t).pq.KemLaw() && Toy(t).pq.SignatureLaw()
  {
  }

  lemma ToyIsLawful()
    ensures var c := ToyClassical(); c.CodecLaws() && c.ExchangeLaw() && c.SignatureLaw()
  {
    assert forall k: Scalar, rest: seq<Byte> :: ([k % 256] + rest)[0] == k % 256;
  }

  lemma ToyGenerates(t: KeyType, cseed: Seed, pseed: Seed)
    requires Toy(t).Valid()
    ensures Generated(Toy(t), Blank(Toy(t)), cseed, pseed).Some? && PublicHasTableLength(Toy(t), cseed)
  {
    if Toy(t).Hybrid() {
      assert ClassicalGen(ToyClassical(), cseed) == Some(cseed % 256);
    }
  }

  /** The same with every encoding exactly as long as the table says, as DER and raw. Generation takes both. */
  lemma FullLengthsGenerate(t: KeyType, raw: bool, cseed: Seed, pseed: Seed)
    requires !t.PlainSig? && !t.PlainKem?
    ensures var c := ToyClassical().(raw := raw, lenPriv := 1);
            var alg := Toy(t).(classical := Some(c));
            && alg.Valid() && c.CodecLaws()
            && |c.encodePub(c.publicOf(cseed % 256))| == c.lenPub && |c.encodePriv(cseed % 256)| == c.lenPriv
            && Generated(alg, Blank(alg), cseed, pseed).Some?
  {
    var c := ToyClassical().(raw := raw, lenPriv := 1);
    var alg := Toy(t).(classical := Some(c));
    ToyIsLawful();
    assert c.CodecLaws();
    assert alg.Valid();
    assert c.keygen(cseed) == Some(cseed % 256);
    ClassicalPairKeptIff(c, cseed, cseed % 256);
  }
}
