/** What keys look like byte by byte: generated, written out, read back, imported and replaced, in terms of the
    schemes and the table alone. */
module KeyBytes {
  import opened Options
  import opened Bytes
  import opened Schemes
  import opened KeyLayout
  import opened KeySteps
  import opened Pkcs8
  import opened KeyTransfer
  import opened Keys

  /** A classical pair survives generation exactly when its encodings are at most as long as the table says, for keys
      with raw encodings exactly as long. The selftest refuses none whose encoding is read back. */
  lemma ClassicalPairKeptIff(c: Classical, seed: Seed, k: Scalar)
    requires c.CodecLaws()
    ensures ClassicalGen(c, seed) == Some(k)
       <==> && c.keygen(seed) == Some(k)
            && if c.raw then |c.encodePub(c.publicOf(k))| == c.lenPub && |c.encodePriv(k)| == c.lenPriv
               else |c.encodePub(c.publicOf(k))| <= c.lenPub && |c.encodePriv(k)| <= c.lenPriv
  {
    if c.keygen(seed) == Some(k) {
      assert c.Generates(k);
      assert c.decodePriv(c.encodePriv(k) + []) == Some(k) && c.encodePriv(k) + [] == c.encodePriv(k);
    }
  }

  /** A new hybrid key: big-endian length, classical encoding, PQ bytes, zeros; a pointer behind the header and one
      behind the classical encoding. */
  lemma GeneratedBytes(alg: Algorithm, cseed: Seed, pseed: Seed, k: Scalar, pk: seq<Byte>, sk: seq<Byte>)
    requires alg.Valid() && alg.classical.Some? && alg.pq.keypair(pseed) == Some((pk, sk))
    requires var c := alg.classical.value;
             && c.CodecLaws() && c.keygen(cseed) == Some(k)
             && if c.raw then |c.encodePub(c.publicOf(k))| == c.lenPub && |c.encodePriv(k)| == c.lenPriv
                else |c.encodePub(c.publicOf(k))| <= c.lenPub && |c.encodePriv(k)| <= c.lenPriv
    ensures var c := alg.classical.value;
            var priv, pub := c.encodePriv(k), c.encodePub(c.publicOf(k));
            var m, n := |priv|, |pub|;
            && m <= c.lenPriv < TWO_TO_THE_31 && n <= c.lenPub < TWO_TO_THE_31
            && Generated(alg, Blank(alg), cseed, pseed)
               == Some(KeyState(
                         Some([m / 0x100_0000 % 256, m / 0x1_0000 % 256, m / 0x100 % 256, m % 256]
                              + priv + sk + seq(c.lenPriv - m, _ => 0)),
                         Some([n / 0x100_0000 % 256, n / 0x1_0000 % 256, n / 0x100 % 256, n % 256]
                              + pub + pk + seq(c.lenPub - n, _ => 0)),
                         [Offset(4), Offset(4 + m)], [Offset(4), Offset(4 + n)],
                         Some(EvpPkey(c.publicOf(k), Some(k)))))
  {
    var c := alg.classical.value;
    ClassicalPairKeptIff(c, cseed, k);
    var priv, pub := c.encodePriv(k), c.encodePub(c.publicOf(k));
    NewBuffer(priv, sk, c.lenPriv);
    NewBuffer(pub, pk, c.lenPub);
  }

  lemma NewBuffer(classical: seq<Byte>, pq: seq<Byte>, max: nat)
    requires |classical| <= max < TWO_TO_THE_31
    ensures Fill(None, SIZE_OF_UINT32 + max + |pq|, true, classical, pq)
         == var n := |classical|;
            [n / 0x100_0000 % 256, n / 0x1_0000 % 256, n / 0x100 % 256, n % 256]
            + classical + pq + seq(max - n, _ => 0)
    ensures DecodeUint32(Fill(None, SIZE_OF_UINT32 + max + |pq|, true, classical, pq)) == |classical|
  {
    PackedParts(classical, pq, Zeros(max - |classical|));
  }

  /** A new plain key is the PQ pair. */
  lemma PlainGeneratedBytes(alg: Algorithm, cseed: Seed, pseed: Seed)
    requires alg.Valid() && (alg.keytype.PlainSig? || alg.keytype.PlainKem?)
    ensures Generated(alg, Blank(alg), cseed, pseed)
         == match alg.pq.keypair(pseed)
            case None => None
            case Some((pk, sk)) => Some(KeyState(Some(sk), Some(pk), [Offset(0)], [Offset(0)], None))
  {
  }

  /** What is stored of a new key. */
  lemma StoredBytes(alg: Algorithm, cseed: Seed, pseed: Seed, pk: seq<Byte>, sk: seq<Byte>)
    requires alg.Valid() && alg.pq.keypair(pseed) == Some((pk, sk))
    requires Generated(alg, Blank(alg), cseed, pseed).Some?
    ensures var s := Generated(alg, Blank(alg), cseed, pseed).value;
            && EncodeReadable(alg, s)
            && EncodePrivate(alg, s)
               == if alg.classical.None? then Some(sk + pk)
                  else
                    var priv := alg.classical.value.encodePriv(alg.classical.value.keygen(cseed).value);
                    Some([|priv| / 0x100_0000 % 256, |priv| / 0x1_0000 % 256, |priv| / 0x100 % 256, |priv| % 256]
                         + priv + sk + pk)
  {
    var s := Generated(alg, Blank(alg), cseed, pseed).value;
    GeneratedIsCompleted(alg, Blank(alg), cseed, pseed);
    EncodedParts(alg, s);
    if alg.Hybrid() {
      GeneratedPrivateParts(alg, Blank(alg), cseed, pseed);
      GeneratedPublicParts(alg, Blank(alg), cseed, pseed);
    }
  }

  /** Which blobs are accepted, and the keys they make. */
  lemma DecodedBytes(alg: Algorithm, blob: seq<Byte>)
    requires alg.Valid() && alg.classical.Some? && |blob| >= 4
    ensures var c, q := alg.classical.value, alg.pq;
            var n := blob[0] as int * 0x100_0000 + blob[1] as int * 0x1_0000 + blob[2] as int * 0x100 + blob[3];
            DecodePrivate(alg, blob)
            == if n > c.lenPriv || |blob| != 4 + n + q.lenPriv + q.lenPub then None else
               match c.decodePriv(blob[4..4 + n])
               case None => None
               case Some(k) =>
                 var pub := c.encodePub(c.publicOf(k));
                 var m := |pub|;
                 if m != c.lenPub then None else
                 Some(KeyState(
                        Some(blob[..4 + n + q.lenPriv] + seq(c.lenPriv - n, _ => 0)),
                        Some([m / 0x100_0000 % 256, m / 0x1_0000 % 256, m / 0x100 % 256, m % 256]
                             + pub + blob[4 + n + q.lenPriv..]),
                        [Offset(4), Offset(4 + n)], [Offset(4), Offset(4 + m)],
                        Some(EvpPkey(c.publicOf(k), Some(k)))))
  {
    var c, q := alg.classical.value, alg.pq;
    var n := DecodeUint32(blob);
    if n <= c.lenPriv && |blob| == 4 + n + q.lenPriv + q.lenPub && c.decodePriv(blob[4..4 + n]).Some? {
      PrivateBufferOfBlob(blob, q.lenPriv, Zeros(c.lenPriv - n));
      PublicBufferOfBlob(c.encodePub(c.publicOf(c.decodePriv(blob[4..4 + n]).value)), blob, 4 + n, q.lenPriv);
    }
  }

  lemma PrivateBufferOfBlob(blob: seq<Byte>, pqLen: nat, pad: seq<Byte>)
    requires |blob| >= 4 && 4 + DecodeUint32(blob) + pqLen <= |blob|
    ensures var n := DecodeUint32(blob); var buf := Pack(blob[4..4 + n], blob[4 + n..][..pqLen], pad);
            buf == blob[..4 + n + pqLen] + pad && DecodeUint32(buf) == n
  {
    var n := DecodeUint32(blob);
    HeaderIsUnique(blob);
    PackedParts(blob[4..4 + n], blob[4 + n..][..pqLen], pad);
    assert blob[..4 + n + pqLen] == blob[..4] + blob[4..4 + n] + blob[4 + n..][..pqLen];
  }

  lemma PublicBufferOfBlob(classical: seq<Byte>, blob: seq<Byte>, at: nat, pqLen: nat)
    requires |classical| < TWO_TO_THE_32 && at + pqLen <= |blob|
    ensures var buf := Pack(classical, blob[at..][pqLen..], []);
            buf == EncodeUint32(|classical|) + classical + blob[at + pqLen..] && DecodeUint32(buf) == |classical|
  {
    PackedParts(classical, blob[at..][pqLen..], []);
    assert blob[at..][pqLen..] == blob[at + pqLen..];
  }

  lemma PlainDecodedBytes(alg: Algorithm, blob: seq<Byte>)
    requires alg.Valid() && (alg.keytype.PlainSig? || alg.keytype.PlainKem?)
    ensures DecodePrivate(alg, blob)
         == if |blob| != alg.pq.lenPriv + alg.pq.lenPub then None
            else Some(KeyState(Some(blob[..alg.pq.lenPriv]), Some(blob[alg.pq.lenPriv..]),
                               [Offset(0)], [Offset(0)], None))
  {
  }

  /** A public buffer alone, imported or decoded from a SubjectPublicKeyInfo: it is taken as it is when the bytes its
      header names parse. */
  lemma ImportedPublicBytes(alg: Algorithm, pub: seq<Byte>)
    requires alg.Valid() && alg.classical.Some?
    requires |pub| == 4 + alg.classical.value.lenPub + alg.pq.lenPub ==> HeaderInBuffer(pub)
    ensures ImportReadable(alg, Blank(alg), None, Some(pub))
    ensures var c := alg.classical.value;
            Imported(alg, Blank(alg), None, Some(pub))
            == if |pub| != 4 + c.lenPub + alg.pq.lenPub then None else
               var n := pub[0] as int * 0x100_0000 + pub[1] as int * 0x1_0000 + pub[2] as int * 0x100 + pub[3];
               match c.decodePub(pub[4..4 + n])
               case None => None
               case Some(p) => Some(KeyState(None, Some(pub), [NullSlot, NullSlot], [Offset(4), Offset(4 + n)],
                                             Some(EvpPkey(p, None))))
  {
  }

  /** A private buffer decides, whether a public one comes with it or not, and what it determines is written over the
      classical public bytes; the public header stays. */
  lemma ImportedPrivateBytes(alg: Algorithm, priv: seq<Byte>, pub: Option<seq<Byte>>)
    requires alg.Valid() && alg.classical.Some? && HeaderInBuffer(priv)
    ensures ImportReadable(alg, Blank(alg), Some(priv), pub)
    ensures var c := alg.classical.value;
            var r := Imported(alg, Blank(alg), Some(priv), pub);
            if |priv| != 4 + c.lenPriv + alg.pq.lenPriv then r == None else
            if pub.Some? && |pub.value| != 4 + c.lenPub + alg.pq.lenPub then r == None else
            var m := priv[0] as int * 0x100_0000 + priv[1] as int * 0x1_0000 + priv[2] as int * 0x100 + priv[3];
            match c.decodePriv(priv[4..4 + m])
            case None => r == None
            case Some(k) =>
              var enc := c.encodePub(c.publicOf(k));
              if |enc| != c.lenPub then r == None else
              && r.Some? && r.value.priv == Some(priv) && r.value.compPriv == [Offset(4), Offset(4 + m)]
              && r.value.pub
                 == (if pub.None? then None else Some(pub.value[..4] + enc + pub.value[4 + c.lenPub..]))
              && r.value.pkey == Some(EvpPkey(c.publicOf(k), Some(k)))
  {
  }

  /** The encoded public key of a finished key is replaced behind the header of a hybrid KEM key, and whole for any
      other key; without a public buffer a hybrid KEM key writes it elsewhere. The private buffer goes and its pointers
      dangle; nothing else changes. */
  lemma ReplacedBytes(alg: Algorithm, s: KeyState, data: seq<Byte>)
    requires Completed(alg, s)
    ensures Replaceable(alg, s)
    ensures var kem := alg.keytype.EcpHybKem? || alg.keytype.EcxHybKem?;
            var size := alg.pq.lenPub + if alg.classical.None? then 0
                                        else alg.classical.value.lenPub + if kem then 0 else 4;
            var r := PublicReplaced(alg, s, data);
            if |data| != size then r == None else
            && r.Some? && r.value.priv.None? && r.value.pkey == s.pkey
            && |r.value.compPriv| == |s.compPriv| && (forall x <- r.value.compPriv :: !x.Offset?)
            && (if kem && s.pub.None? then r.value.pub.None? && r.value.compPub == [Dangling, NullSlot]
                else
                  && r.value.compPub == s.compPub
                  && r.value.pub == Some(if kem then s.pub.value[..4] + data else data))
  {
  }

  /** Where the component pointers of a hybrid buffer point: the length passes through a signed 32-bit integer. */
  lemma PointersSpelledOut(alg: Algorithm, buf: seq<Byte>)
    requires |buf| >= 4 && !alg.keytype.PlainSig? && !alg.keytype.PlainKem?
    ensures var n := buf[0] as int * 0x100_0000 + buf[1] as int * 0x1_0000 + buf[2] as int * 0x100 + buf[3];
            Slots(alg, Some(buf)) == [Offset(4), Offset(4 + if n < 0x8000_0000 then n else n - 0x1_0000_0000)]
  {
  }

  /** `oqsx_key_maxsize`, type by type: a shared secret or a signature. */
  lemma LongestOutput(alg: Algorithm)
    requires alg.Valid()
    ensures alg.MaxSize()
         == match alg.keytype
            case PlainSig => alg.pq.lenSig
            case HybSig => 4 + alg.classical.value.lenSig + alg.pq.lenSig
            case PlainKem => alg.pq.lenSecret
            case _ => alg.classical.value.lenSecret + alg.pq.lenSecret
  {
  }

  /** On the heap: a generated pair, exported and imported into a new key. It arrives whole if and only if parameters
      of some kind are selected and its classical public encoding has the table's length; otherwise nothing does. */
  method ImportOfFreshPair(alg: Algorithm, cseed: Seed, pseed: Seed, selection: Selection)
    returns (key: OqsxKey, copy: OqsxKey, ok: bool)
    requires alg.Valid() && (alg.classical.Some? ==> alg.classical.value.CodecLaws())
    requires Generated(alg, Blank(alg), cseed, pseed).Some?
    ensures Generated(alg, Blank(alg), cseed, pseed) == Some(key.State())
    ensures ok <==>
            && (selection.domain || selection.other)
            && (alg.classical.Some? ==>
                  var c := alg.classical.value;
                  c.keygen(cseed).Some? && |c.encodePub(c.publicOf(c.keygen(cseed).value))| == c.lenPub)
    ensures ok ==> copy.State() == key.State() && copy.Footprint() !! key.Footprint()
    ensures !selection.domain && !selection.other ==> copy.State() == Blank(alg)
  {
    FreshKeyExportImport(alg, cseed, pseed);
    key := GeneratedKeyPair(alg, cseed, pseed, Generated(alg, Blank(alg), cseed, pseed).value);
    copy, ok := ImportedFrom(key, selection);
  }

  /** Export of both halves, import into a new key. */
  method ImportedFrom(key: OqsxKey, selection: Selection) returns (copy: OqsxKey, ok: bool)
    requires key.Valid() && ImportReadable(key.alg, Blank(key.alg), key.State().priv, key.State().pub)
    ensures key.State() == old(key.State()) && fresh(copy.Footprint())
    ensures var r := Imported(key.alg, Blank(key.alg), key.State().priv, key.State().pub);
            && (ok <==> (selection.domain || selection.other) && r.Some?)
            && (ok ==> r == Some(copy.State()))
    ensures !selection.domain && !selection.other ==> copy.State() == Blank(key.alg)
  {
    var priv, pub := key.Export(Selection(true, true, false, false));
    copy := new OqsxKey(key.alg);
    ok := copy.Import(selection, priv, pub);
  }
}
