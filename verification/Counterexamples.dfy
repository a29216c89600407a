/** Statements one would expect of the key object and the signature context that do not hold, each with an input
    that shows it. The exact conditions are the if-and-only-if lemmas of the other modules. */
module Counterexamples {
  import opened Options
  import opened Bytes
  import opened Schemes
  import opened KeyLayout
  import opened KeySteps
  import opened Pkcs8
  import opened Keys
  import opened HybridSig
  import opened KeyAgreement
  import opened SigStreams
  import Consistency

  /** The toy hybrid signature algorithm with another classical half. */
  function With(c: Classical): Algorithm {
    Consistency.Toy(HybSig).(classical := Some(c))
  }

  /** Key generation accepts a classical public encoding shorter than the table says, and the PKCS#8 of such a key
      cannot be read back. */
  lemma ShortPublicKeyIsLost()
    ensures var alg := With(Consistency.ToyClassical().(lenPub := 2));
            && alg.Valid() && alg.classical.value.CodecLaws()
            && Generated(alg, Blank(alg), 0, 0).Some?
            && var s := Generated(alg, Blank(alg), 0, 0).value;
            && EncodeReadable(alg, s) && EncodePrivate(alg, s).Some? && |EncodePrivate(alg, s).value| >= SIZE_OF_UINT32
            && DecodePrivate(alg, EncodePrivate(alg, s).value).None?
  {
    var alg := With(Consistency.ToyClassical().(lenPub := 2));
    Consistency.ToyIsLawful();
    assert alg.classical.value.CodecLaws();
    assert ClassicalGen(alg.classical.value, 0) == Some(0);
    assert Generated(alg, Blank(alg), 0, 0).Some?;
    FreshKeyRoundTrip(alg, 0, 0);
  }

  /** An import takes a public buffer whose header exceeds the table, if the classical parser does. */
  lemma ImportedHeaderCanExceedTable()
    ensures var alg := With(Consistency.ToyClassical().(decodePub := (b: seq<Byte>) => Some(0)));
            var pub := EncodeUint32(2) + [7, 8];
            && alg.Valid()
            && ImportReadable(alg, Blank(alg), None, Some(pub))
            && Imported(alg, Blank(alg), None, Some(pub)).Some?
            && !Completed(alg, Imported(alg, Blank(alg), None, Some(pub)).value)
  {
    var alg := With(Consistency.ToyClassical().(decodePub := (b: seq<Byte>) => Some(0)));
    var pub := EncodeUint32(2) + [7, 8];
    HeaderReadsBack(2, [7, 8]);
    assert DecodeUint32(pub) == 2 > alg.classical.value.lenPub;
    ImportedIsCompletedIff(alg, Blank(alg), None, Some(pub));
  }

  /** `oqsx_key_gen` reports success for a hybrid key without a classical key when classical generation fails. */
  method FailureReportedAsSuccess() returns (ret: int, key: OqsxKey)
    ensures ret == 0 && key.alg.Hybrid() && key.classicalPkey == None && !Completed(key.alg, key.State())
  {
    var c := Consistency.ToyClassical().(keygen := (s: Seed) => None);
    key := new OqsxKey(With(c));
    ret := key.Gen(0, 0);
  }

  /** When the PQ half fails, `oqsx_genkey` returns NULL and keeps the one reference to the key it made. */
  method FailedGenerationLeaks() returns (key: OqsxKey?, ghost made: OqsxKey)
    ensures key == null && made.references == 1 && !made.freed
  {
    var alg := Consistency.Toy(HybSig);
    alg := alg.(pq := alg.pq.(keypair := (s: Seed) => None));
    key, made := NewKeyPair(alg, 0, 0);
  }

  /** A new header set on a hybrid signature key breaks its layout. */
  lemma ReplacedHeaderBreaksLayout()
    ensures var alg := Consistency.Toy(HybSig);
            && alg.Valid() && Generated(alg, Blank(alg), 0, 0).Some?
            && var s := Generated(alg, Blank(alg), 0, 0).value;
            && Completed(alg, s) && Replaceable(alg, s)
            && var r := PublicReplaced(alg, s, EncodeUint32(0) + [7, 8]);
            r.Some? && !Completed(alg, r.value)
  {
    var alg := Consistency.Toy(HybSig);
    Consistency.ToyIsValid(HybSig);
    Consistency.ToyGenerates(HybSig, 0, 0);
    GeneratedIsCompleted(alg, Blank(alg), 0, 0);
    GeneratedPublicParts(alg, Blank(alg), 0, 0);
    var s := Generated(alg, Blank(alg), 0, 0).value;
    HeaderReadsBack(0, [7, 8]);
    assert |ClassicalPart(s.pub.value)| == DecodeUint32(s.pub.value) == 1;
    ReplacedIsCompletedIff(alg, s, EncodeUint32(0) + [7, 8]);
  }

  /** With the header it had, the key stays finished, but is of two minds: given the public key of a signer, it
      refuses what the signer signs. */
  lemma ReplacedKeyRefusesItsOwner(tbs: seq<Byte>)
    ensures var alg := Consistency.Toy(HybSig);
            && alg.Valid() && Generated(alg, Blank(alg), 1, 1).Some? && Generated(alg, Blank(alg), 2, 2).Some?
            && var signer, other := Generated(alg, Blank(alg), 1, 1).value, Generated(alg, Blank(alg), 2, 2).value;
            && SigKey(alg, signer) && Completed(alg, other) && signer.pub.Some? && Replaceable(alg, other)
            && var r := PublicReplaced(alg, other, signer.pub.value);
            && r.Some? && SigKey(alg, r.value) && r.value.pub == signer.pub && !Agrees(alg, r.value)
            && var sig := Signed(alg, signer, tbs, 0, 0);
            && sig.Some? && HeaderInBuffer(sig.value)
            && Verified(alg, signer, sig.value, tbs) && !Verified(alg, r.value, sig.value, tbs)
  {
    var alg := Consistency.Toy(HybSig);
    ToyKey(1);
    ToyKey(2);
    var signer, other := Generated(alg, Blank(alg), 1, 1).value, Generated(alg, Blank(alg), 2, 2).value;
    Consistency.ToyIsLawful();
    SignThenVerify(alg, 1, 1, signer, signer, tbs, 0, 0);
    ReplacedIsCompletedIff(alg, other, signer.pub.value);
    var r := PublicReplaced(alg, other, signer.pub.value).value;
    assert r.pkey.value.point == 2 && ClassicalPart(r.pub.value) == [1];
    var sig := Signed(alg, signer, tbs, 0, 0).value;
    PackedParts([1], [1], []);
    assert sig == Pack([1], [1], []);
    ReplacedAccepts(alg, other, signer, r, sig, tbs);
  }

  lemma ToyKey(seed: Seed)
    requires seed < 256
    ensures var alg := Consistency.Toy(HybSig);
            && alg.Valid() && alg.pq.SignatureLaw() && Generated(alg, Blank(alg), seed, seed).Some?
            && var s := Generated(alg, Blank(alg), seed, seed).value;
            && Completed(alg, s) && s.priv.Some? && s.pub.Some?
            && s.pkey == Some(EvpPkey(seed, Some(seed)))
            && ClassicalPart(s.pub.value) == [seed] && DecodeUint32(s.pub.value) == 1
            && PqPrivate(alg, s.priv.value) == [seed]
  {
    var alg := Consistency.Toy(HybSig);
    Consistency.ToyIsValid(HybSig);
    Consistency.ToyGenerates(HybSig, seed, seed);
    GeneratedIsCompleted(alg, Blank(alg), seed, seed);
    GeneratedPublicParts(alg, Blank(alg), seed, seed);
    GeneratedPrivateParts(alg, Blank(alg), seed, seed);
    assert |ClassicalPart(Generated(alg, Blank(alg), seed, seed).value.pub.value)| == 1;
  }

  /** A signature with the right classical part and another key's PQ part is refused, by the PQ check alone; with its
      own PQ part it is accepted. */
  lemma OtherPqPartIsRefused(tbs: seq<Byte>)
    ensures var alg := Consistency.Toy(HybSig);
            && alg.Valid() && Generated(alg, Blank(alg), 1, 1).Some?
            && var s := Generated(alg, Blank(alg), 1, 1).value;
            && SigKey(alg, s) && HeaderInBuffer([0, 0, 0, 1, 1, 2]) && HeaderInBuffer([0, 0, 0, 1, 1, 1])
            && Verified(alg, s, [0, 0, 0, 1, 1, 1], tbs) && !Verified(alg, s, [0, 0, 0, 1, 1, 2], tbs)
  {
    var alg := Consistency.Toy(HybSig);
    ToyKey(1);
    var s := Generated(alg, Blank(alg), 1, 1).value;
    GeneratedPublicParts(alg, Blank(alg), 1, 1);
    assert s.pub.value[5..6] == [1];
    assert [0, 0, 0, 1, 1, 1][4..5] == [1] && [0, 0, 0, 1, 1, 2][4..5] == [1];
    assert [0, 0, 0, 1, 1, 1][5..] == [1] && [0, 0, 0, 1, 1, 2][5..] == [2];
    AcceptedIff(alg, s, [0, 0, 0, 1, 1, 1], tbs);
    AcceptedIff(alg, s, [0, 0, 0, 1, 1, 2], tbs);
  }

  /** A plain key refuses that other part too, and no bytes at all. */
  lemma OtherPlainSignatureIsRefused(tbs: seq<Byte>)
    ensures var alg := Consistency.Toy(PlainSig);
            && alg.Valid() && Generated(alg, Blank(alg), 1, 1).Some?
            && var s := Generated(alg, Blank(alg), 1, 1).value;
            SigKey(alg, s) && Verified(alg, s, [1], tbs) && !Verified(alg, s, [2], tbs) && !Verified(alg, s, [], tbs)
  {
    var alg := Consistency.Toy(PlainSig);
    Consistency.ToyIsValid(PlainSig);
    GeneratedIsCompleted(alg, Blank(alg), 1, 1);
    var s := Generated(alg, Blank(alg), 1, 1).value;
    AcceptedIff(alg, s, [1], tbs);
    AcceptedIff(alg, s, [2], tbs);
    AcceptedIff(alg, s, [], tbs);
  }

  /** A context used again without a digest signs what it collected before as well. */
  lemma ReusedContextKeepsOldData(lib: Library)
    ensures var init := Init(None, "toy", true, SignOperation);
            var used := Run(lib, Next(lib, FRESH, init), [Update([1]), SignFinal]);
            Message(lib, Run(lib, Next(lib, used, init), [Update([2])])) == [1, 2]
  {
    var init := Init(None, "toy", true, SignOperation);
    var first := [Update([1]), SignFinal];
    assert first[..1] == [Update([1])];
    assert [Update([1])][..0] == [];
    assert [Update([2])][..0] == [];
    var v := Next(lib, FRESH, init);
    assert Run(lib, v, []) == v;
    assert Run(lib, v, [Update([1])]) == Next(lib, v, Update([1]));
    var used := Run(lib, v, first);
    assert used.data == Some([1]);
    var again := Next(lib, used, init);
    assert Run(lib, again, []) == again;
    assert Run(lib, again, [Update([2])]) == Next(lib, again, Update([2]));
  }

  /** A context used again without naming a digest goes on with the digest context it has, although it has collected
      nothing: the digest is of the old data and the new. */
  lemma ReusedContextKeepsHashing(lib: Library)
    requires lib.fetch("d")
    ensures var first, again := Init(Some("d"), "toy", true, SignOperation), Init(None, "toy", true, SignOperation);
            var used := Run(lib, Next(lib, FRESH, first), [Update([1])]);
            && Collected(used) == []
            && Message(lib, Run(lib, Next(lib, used, again), [Update([2])])) == lib.digest("d", [1, 2])
  {
    var first, again := Init(Some("d"), "toy", true, SignOperation), Init(None, "toy", true, SignOperation);
    var v := Next(lib, FRESH, first);
    MessageIsConcatenation(lib, v, [Update([1])]);
    OneChunk([1]);
    OneChunk([2]);
    var one, two: seq<Byte> := [1], [2];
    assert [] + one == one && one + two == [1, 2];
    ReuseGoesOn(lib, Run(lib, v, [Update([1])]), again, [Update([2])]);
  }

  lemma OneChunk(data: seq<Byte>)
    ensures Chunks([Update(data)]) == data && Collecting([Update(data)])
  {
    assert [Update(data)][..0] == [] && [] + data == data;
  }

  /** A verification without a digest context does not unlock the digest. */
  lemma VerificationKeepsTheLock(lib: Library)
    ensures var calls := [Update([1]), VerifyFinal];
            var v := Run(lib, Next(lib, FRESH, Init(None, "toy", true, VerifyOperation)), calls);
            Succeeds(lib, Run(lib, Next(lib, FRESH, Init(None, "toy", true, VerifyOperation)), calls[..1]), VerifyFinal)
            && forall name :: !Succeeds(lib, v, SetDigest(name))
  {
    var calls := [Update([1]), VerifyFinal];
    var v := Next(lib, FRESH, Init(None, "toy", true, VerifyOperation));
    assert calls[..1] == [Update([1])] && [Update([1])][..0] == [];
    assert Run(lib, v, []) == v;
    assert Run(lib, v, [Update([1])]) == Next(lib, v, Update([1]));
    assert Run(lib, v, calls) == Next(lib, Run(lib, v, calls[..1]), VerifyFinal);
  }
}
