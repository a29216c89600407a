/** The hybrid KEM: an ephemeral classical exchange followed by PQ encapsulation, ciphertexts and secrets
    concatenated (sections 3.2 and 3.3 of draft-ietf-tls-hybrid-design). */
module HybridKem {
  import opened Options
  import opened Bytes
  import opened Schemes
  import opened KeyLayout
  import opened KeySteps
  import opened Pkcs8
  import opened KeyTransfer

  ghost predicate KemKey(alg: Algorithm, s: KeyState) {
    Completed(alg, s) && alg.HybridKem()
  }

  function CiphertextLen(alg: Algorithm): nat
    requires alg.HybridKem() && alg.classical.Some?
  {
    alg.classical.value.lenPub + alg.pq.lenCt
  }

  /** The classical half of encapsulation: an ephemeral key pair, its public encoding, the derived secret. */
  function ClassicalEncaps(c: Classical, peer: seq<Byte>, eph: Seed): Option<(seq<Byte>, seq<Byte>)> {
    match c.decodePub(peer)
    case None => None
    case Some(p) =>
      match c.keygen(eph)
      case None => None
      case Some(e) =>
        var secret := c.derive(e, p);
        var share := c.encodePub(c.publicOf(e));
        if secret.None? || |share| != c.lenPub then None else Some((share, secret.value))
  }

  function ClassicalDecaps(c: Classical, window: seq<Byte>, share: seq<Byte>): Option<seq<Byte>> {
    match c.decodePriv(window)
    case None => None
    case Some(k) =>
      match c.decodePub(share)
      case None => None
      case Some(p) => c.derive(k, p)
  }

  /** `oqs_hyb_kem_encaps`: ciphertext and shared secret. */
  ghost function Encapsulated(alg: Algorithm, s: KeyState, eph: Seed, coins: Seed): (r: Option<(seq<Byte>, seq<Byte>)>)
    requires KemKey(alg, s) && s.pub.Some?
    ensures r.Some? ==> |r.value.0| == CiphertextLen(alg) && |r.value.1| == alg.MaxSize()
  {
    var c := alg.classical.value;
    var classical := ClassicalEncaps(c, s.pub.value[SIZE_OF_UINT32..SIZE_OF_UINT32 + c.lenPub], eph);
    var pq := alg.pq.encaps(PqPublic(alg, s.pub.value), coins);
    if classical.None? || pq.None? then None
    else Some((classical.value.0 + pq.value.0, classical.value.1 + pq.value.1))
  }

  /** `oqs_hyb_kem_decaps`. The classical parser gets a window of the maximum private length: it starts at the
      classical bytes and runs on into the PQ key. */
  ghost function Decapsulated(alg: Algorithm, s: KeyState, ct: seq<Byte>): (r: Option<seq<Byte>>)
    requires KemKey(alg, s) && s.priv.Some?
    ensures r.Some? ==> |ct| == CiphertextLen(alg) && |r.value| == alg.MaxSize()
  {
    var c := alg.classical.value;
    if |ct| != CiphertextLen(alg) then None else
    var classical := ClassicalDecaps(c, s.priv.value[SIZE_OF_UINT32..SIZE_OF_UINT32 + c.lenPriv], ct[..c.lenPub]);
    var pq := alg.pq.decaps(PqPrivate(alg, s.priv.value), ct[c.lenPub..]);
    if classical.None? || pq.None? then None else Some(classical.value + pq.value)
  }

  /** Encapsulation in terms of the schemes alone: ephemeral share, then PQ ciphertext; derived secret, then PQ
      secret. The classical parser gets the table's length of bytes behind the header; the PQ key is where the header
      says. */
  lemma EncapsulationBytes(alg: Algorithm, s: KeyState, eph: Seed, coins: Seed)
    requires KemKey(alg, s) && s.pub.Some?
    ensures var c, b := alg.classical.value, s.pub.value;
            var from := 4 + DecodeUint32(b);
            var peer, e := c.decodePub(b[4..4 + c.lenPub]), c.keygen(eph);
            var q := alg.pq.encaps(b[from..from + alg.pq.lenPub], coins);
            Encapsulated(alg, s, eph, coins)
            == if peer.None? || e.None? || q.None? then None else
               var share, secret := c.encodePub(c.publicOf(e.value)), c.derive(e.value, peer.value);
               if secret.None? || |share| != c.lenPub then None
               else Some((share + q.value.0, secret.value + q.value.1))
  {
    var from := 4 + DecodeUint32(s.pub.value);
    assert PqPublic(alg, s.pub.value) == s.pub.value[from..from + alg.pq.lenPub];
  }

  /** And decapsulation: a ciphertext is split at the table's length of the share. */
  lemma DecapsulationBytes(alg: Algorithm, s: KeyState, ct: seq<Byte>)
    requires KemKey(alg, s) && s.priv.Some?
    ensures var c, b := alg.classical.value, s.priv.value;
            var from := 4 + DecodeUint32(b);
            Decapsulated(alg, s, ct)
            == if |ct| != c.lenPub + alg.pq.lenCt then None else
               var k, peer := c.decodePriv(b[4..4 + c.lenPriv]), c.decodePub(ct[..c.lenPub]);
               var q := alg.pq.decaps(b[from..from + alg.pq.lenPriv], ct[c.lenPub..]);
               if k.None? || peer.None? || q.None? then None else
               var secret := c.derive(k.value, peer.value);
               if secret.None? then None else Some(secret.value + q.value)
  {
    var from := 4 + DecodeUint32(s.priv.value);
    assert PqPrivate(alg, s.priv.value) == s.priv.value[from..from + alg.pq.lenPriv];
  }

  lemma WindowStartsWithClassical(buf: seq<Byte>, max: nat)
    requires HeaderInBuffer(buf) && DecodeUint32(buf) <= max && SIZE_OF_UINT32 + max <= |buf|
    ensures buf[SIZE_OF_UINT32..SIZE_OF_UINT32 + max]
         == ClassicalPart(buf) + buf[SIZE_OF_UINT32 + DecodeUint32(buf)..SIZE_OF_UINT32 + max]
    ensures |ClassicalPart(buf)| == DecodeUint32(buf)
  {
  }

  /** The maximum-length window still parses to the generated classical key. */
  lemma WindowParses(alg: Algorithm, cseed: Seed, pseed: Seed)
    requires alg.Valid() && alg.HybridKem() && alg.classical.value.CodecLaws()
    requires Generated(alg, Blank(alg), cseed, pseed).Some?
    ensures var s := Generated(alg, Blank(alg), cseed, pseed).value; var c := alg.classical.value;
            c.decodePriv(s.priv.value[SIZE_OF_UINT32..SIZE_OF_UINT32 + c.lenPriv]) == ClassicalGen(c, cseed)
  {
    var buf := Generated(alg, Blank(alg), cseed, pseed).value.priv.value;
    var c := alg.classical.value;
    GeneratedPrivateParts(alg, Blank(alg), cseed, pseed);
    WindowStartsWithClassical(buf, c.lenPriv);
    var rest := buf[SIZE_OF_UINT32 + DecodeUint32(buf)..SIZE_OF_UINT32 + c.lenPriv];
    assert c.raw ==> rest == [];
    assert c.decodePriv(c.encodePriv(ClassicalGen(c, cseed).value) + rest) == ClassicalGen(c, cseed);
  }

  /** A generated key pair of a hybrid KEM whose classical public encoding has the table's length. */
  ghost predicate FreshKemKey(alg: Algorithm, cseed: Seed, pseed: Seed, s: KeyState) {
    && alg.Valid() && alg.HybridKem()
    && Generated(alg, Blank(alg), cseed, pseed) == Some(s)
    && PublicHasTableLength(alg, cseed)
  }

  ghost predicate Laws(alg: Algorithm)
    requires alg.Valid() && alg.HybridKem()
  {
    alg.pq.KemLaw() && alg.classical.value.CodecLaws() && alg.classical.value.ExchangeLaw()
  }

  lemma FreshIsKemKey(alg: Algorithm, cseed: Seed, pseed: Seed, s: KeyState)
    requires FreshKemKey(alg, cseed, pseed, s)
    ensures KemKey(alg, s) && s.priv.Some? && s.pub.Some?
    ensures DecodeUint32(s.pub.value) == alg.classical.value.lenPub
  {
    GeneratedIsCompleted(alg, Blank(alg), cseed, pseed);
    GeneratedPublicParts(alg, Blank(alg), cseed, pseed);
    assert |ClassicalPart(s.pub.value)| == DecodeUint32(s.pub.value);
  }

  /** What a fresh key holds, through the windows the KEM reads:
      the classical key pair of `k`, the PQ pair of `pseed`. */
  ghost predicate Holds(alg: Algorithm, s: KeyState, k: Scalar, pseed: Seed) {
    && KemKey(alg, s) && s.priv.Some? && s.pub.Some?
    && var c, q := alg.classical.value, alg.pq.keypair(pseed);
    && c.Generates(k)
    && c.decodePriv(s.priv.value[SIZE_OF_UINT32..SIZE_OF_UINT32 + c.lenPriv]) == Some(k)
    && s.pub.value[SIZE_OF_UINT32..SIZE_OF_UINT32 + c.lenPub] == c.encodePub(c.publicOf(k))
    && q == Some((PqPublic(alg, s.pub.value), PqPrivate(alg, s.priv.value)))
  }

  lemma FreshKeyHolds(alg: Algorithm, cseed: Seed, pseed: Seed, s: KeyState)
    requires FreshKemKey(alg, cseed, pseed, s) && alg.classical.value.CodecLaws()
    ensures ClassicalGen(alg.classical.value, cseed).Some?
    ensures Holds(alg, s, ClassicalGen(alg.classical.value, cseed).value, pseed)
  {
    FreshIsKemKey(alg, cseed, pseed, s);
    GeneratedPrivateParts(alg, Blank(alg), cseed, pseed);
    GeneratedPublicParts(alg, Blank(alg), cseed, pseed);
    WindowParses(alg, cseed, pseed);
    WindowStartsWithClassical(s.pub.value, alg.classical.value.lenPub);
  }

  /** A ciphertext made for a public buffer is opened by the key that holds its private half. The secret is the
      classical one followed by the PQ one. */
  lemma EncapsulationOpens(alg: Algorithm, owner: KeyState, k: Scalar, pseed: Seed, sender: KeyState, eph: Seed,
                           coins: Seed)
    requires Holds(alg, owner, k, pseed) && Laws(alg)
    requires KemKey(alg, sender) && sender.pub == owner.pub && sender.pub.Some?
    requires Encapsulated(alg, sender, eph, coins).Some?
    ensures var (ct, secret) := Encapsulated(alg, sender, eph, coins).value;
            Decapsulated(alg, owner, ct) == Some(secret)
            && SecretIsConcatenation(alg, k, pseed, eph, coins, secret)
  {
    var c := alg.classical.value;
    ClassicalHalfOpens(c, k, owner.priv.value[SIZE_OF_UINT32..SIZE_OF_UINT32 + c.lenPriv], eph);
    var share := ClassicalEncaps(c, c.encodePub(c.publicOf(k)), eph).value.0;
    var pq := alg.pq.encaps(PqPublic(alg, sender.pub.value), coins).value.0;
    assert (share + pq)[..c.lenPub] == share && (share + pq)[c.lenPub..] == pq;
  }

  /** `secret` is what the ephemeral key derives with the owner's, then what the PQ encapsulation chose. */
  ghost predicate SecretIsConcatenation(alg: Algorithm, k: Scalar, pseed: Seed, eph: Seed, coins: Seed,
                                        secret: seq<Byte>)
    requires alg.Valid() && alg.HybridKem()
  {
    var c := alg.classical.value;
    var e, q := c.keygen(eph), alg.pq.keypair(pseed);
    && e.Some? && q.Some?
    && var classical, pq := c.derive(e.value, c.publicOf(k)), alg.pq.encaps(q.value.0, coins);
    classical.Some? && pq.Some? && secret == classical.value + pq.value.1
  }

  /** The random draws of one encapsulation work out. */
  ghost predicate EncapsulationSucceeds(alg: Algorithm, k: Scalar, pseed: Seed, eph: Seed, coins: Seed)
    requires alg.Valid() && alg.HybridKem()
  {
    var c := alg.classical.value;
    var e, q := c.keygen(eph), alg.pq.keypair(pseed);
    && e.Some? && c.derive(e.value, c.publicOf(k)).Some? && |c.encodePub(c.publicOf(e.value))| == c.lenPub
    && q.Some? && alg.pq.encaps(q.value.0, coins).Some?
  }

  /** Encapsulation to a key fails for no other reason than its own draws. */
  lemma EncapsulatesIff(alg: Algorithm, owner: KeyState, k: Scalar, pseed: Seed, sender: KeyState, eph: Seed,
                        coins: Seed)
    requires Holds(alg, owner, k, pseed) && alg.classical.value.CodecLaws()
    requires KemKey(alg, sender) && sender.pub == owner.pub
    ensures Encapsulated(alg, sender, eph, coins).Some? <==> EncapsulationSucceeds(alg, k, pseed, eph, coins)
  {
  }

  lemma ClassicalHalfOpens(c: Classical, k: Scalar, window: seq<Byte>, eph: Seed)
    requires c.CodecLaws() && c.ExchangeLaw() && c.Generates(k) && c.decodePriv(window) == Some(k)
    ensures var sent := ClassicalEncaps(c, c.encodePub(c.publicOf(k)), eph);
            sent.Some? ==>
              && ClassicalDecaps(c, window, sent.value.0) == Some(sent.value.1)
              && Some(sent.value.1) == c.derive(c.keygen(eph).value, c.publicOf(k))
  {
    if c.keygen(eph).Some? {
      assert c.Generates(c.keygen(eph).value);
      assert c.derive(c.keygen(eph).value, c.publicOf(k)) == c.derive(k, c.publicOf(c.keygen(eph).value));
    }
  }

  /** The client's key share, without its header, set on a key pair of the server's own becomes the client's
      public buffer there; the private half of the server's key is gone. */
  lemma KeyShareArrives(alg: Algorithm, ccseed: Seed, cpseed: Seed, client: KeyState,
                        scseed: Seed, spseed: Seed, server: KeyState)
    requires FreshKemKey(alg, ccseed, cpseed, client) && FreshKemKey(alg, scseed, spseed, server)
    ensures KemKey(alg, client) && KemKey(alg, server) && client.pub.Some? && server.pub.Some?
    ensures var peer := PublicReplaced(alg, server, EncodedPublic(alg, client.pub.value));
            peer.Some? && KemKey(alg, peer.value) && peer.value.pub == client.pub && peer.value.priv.None?
  {
    FreshIsKemKey(alg, ccseed, cpseed, client);
    FreshIsKemKey(alg, scseed, spseed, server);
    EncodedPublicTransfersIff(alg, client, server);
    ReplacedIsCompletedIff(alg, server, EncodedPublic(alg, client.pub.value));
  }

  /** The TLS exchange end to end: whatever the server encapsulates to the key share it received, the client
      opens to the same secret, the classical one followed by the PQ one. */
  lemma TlsAgreement(alg: Algorithm, ccseed: Seed, cpseed: Seed, client: KeyState,
                     scseed: Seed, spseed: Seed, server: KeyState, peer: KeyState, eph: Seed, coins: Seed)
    requires FreshKemKey(alg, ccseed, cpseed, client) && FreshKemKey(alg, scseed, spseed, server) && Laws(alg)
    requires KemKey(alg, server) && server.pub.Some? && client.pub.Some? && |client.pub.value| >= SIZE_OF_UINT32
    requires PublicReplaced(alg, server, EncodedPublic(alg, client.pub.value)) == Some(peer)
    ensures KemKey(alg, peer) && peer.pub.Some? && KemKey(alg, client) && client.priv.Some?
    ensures ClassicalGen(alg.classical.value, ccseed).Some?
    ensures var sent := Encapsulated(alg, peer, eph, coins);
            sent.Some? ==>
              && Decapsulated(alg, client, sent.value.0) == Some(sent.value.1)
              && SecretIsConcatenation(alg, ClassicalGen(alg.classical.value, ccseed).value,
                                       cpseed, eph, coins, sent.value.1)
  {
    FreshIsKemKey(alg, ccseed, cpseed, client);
    FreshKeyHolds(alg, ccseed, cpseed, client);
    KeyShareArrives(alg, ccseed, cpseed, client, scseed, spseed, server);
    if Encapsulated(alg, peer, eph, coins).Some? {
      EncapsulationOpens(alg, client, ClassicalGen(alg.classical.value, ccseed).value, cpseed, peer, eph, coins);
    }
  }

  /** A classical public encoding says where it ends, as far as the parser is concerned: nothing may follow it. */
  ghost predicate PublicEncodingsAreStrict(c: Classical) {
    forall k: Scalar, rest: seq<Byte> :: c.Generates(k) && rest != [] ==>
      c.decodePub(c.encodePub(c.publicOf(k)) + rest).None?
  }

  /** Whatever key pair the server has, it can encapsulate to the share of a generated key only if the classical
      public encoding of that key has the table's length, provided the classical parser takes no trailing bytes:
      it gets a window of that length. */
  lemma ShareNeedsTableLength(alg: Algorithm, ccseed: Seed, cpseed: Seed, client: KeyState, server: KeyState,
                              peer: KeyState, eph: Seed, coins: Seed)
    requires alg.Valid() && alg.HybridKem() && PublicEncodingsAreStrict(alg.classical.value)
    requires Generated(alg, Blank(alg), ccseed, cpseed) == Some(client) && client.pub.Some?
    requires KemKey(alg, server) && server.pub.Some?
    requires PublicReplaced(alg, server, EncodedPublic(alg, client.pub.value)) == Some(peer)
    ensures KemKey(alg, peer) && peer.pub.Some?
    ensures Encapsulated(alg, peer, eph, coins).Some? ==> PublicHasTableLength(alg, ccseed)
  {
    ReplacedIsCompletedIff(alg, server, EncodedPublic(alg, client.pub.value));
    SameBehindHeader(peer.pub.value, client.pub.value, alg.classical.value.lenPub);
    if !PublicHasTableLength(alg, ccseed) {
      ShortShareDoesNotParse(alg, ccseed, cpseed, client);
    }
  }

  lemma SameBehindHeader(a: seq<Byte>, b: seq<Byte>, n: nat)
    requires |a| == |b| >= SIZE_OF_UINT32 + n && a[SIZE_OF_UINT32..] == b[SIZE_OF_UINT32..]
    ensures a[SIZE_OF_UINT32..SIZE_OF_UINT32 + n] == b[SIZE_OF_UINT32..SIZE_OF_UINT32 + n]
  {
    assert a[SIZE_OF_UINT32..SIZE_OF_UINT32 + n] == a[SIZE_OF_UINT32..][..n];
    assert b[SIZE_OF_UINT32..SIZE_OF_UINT32 + n] == b[SIZE_OF_UINT32..][..n];
  }

  lemma ShortShareDoesNotParse(alg: Algorithm, cseed: Seed, pseed: Seed, s: KeyState)
    requires alg.Valid() && alg.HybridKem() && PublicEncodingsAreStrict(alg.classical.value)
    requires Generated(alg, Blank(alg), cseed, pseed) == Some(s) && s.pub.Some? && !PublicHasTableLength(alg, cseed)
    ensures |s.pub.value| >= SIZE_OF_UINT32 + alg.classical.value.lenPub
    ensures var c := alg.classical.value; c.decodePub(s.pub.value[SIZE_OF_UINT32..SIZE_OF_UINT32 + c.lenPub]).None?
  {
    var c := alg.classical.value;
    GeneratedPublicParts(alg, Blank(alg), cseed, pseed);
    WindowStartsWithClassical(s.pub.value, c.lenPub);
    var k := ClassicalGen(c, cseed).value;
    assert c.Generates(k);
    var rest := s.pub.value[SIZE_OF_UINT32 + DecodeUint32(s.pub.value)..SIZE_OF_UINT32 + c.lenPub];
    assert rest != [];
    assert c.decodePub(c.encodePub(c.publicOf(k)) + rest).None?;
  }

  /** If the server's own header is another one, the PQ half is taken from the wrong place in the share. */
  lemma OtherHeaderShiftsPq(alg: Algorithm, client: KeyState, server: KeyState, peer: KeyState)
    requires KemKey(alg, client) && client.pub.Some? && KemKey(alg, server) && server.pub.Some?
    requires PublicReplaced(alg, server, EncodedPublic(alg, client.pub.value)) == Some(peer)
    ensures KemKey(alg, peer) && peer.pub.Some?
    ensures PqPublic(alg, peer.pub.value)
         == client.pub.value[SIZE_OF_UINT32 + DecodeUint32(server.pub.value)..][..alg.pq.lenPub]
  {
    ReplacedIsCompletedIff(alg, server, EncodedPublic(alg, client.pub.value));
    assert DecodeUint32(peer.pub.value) == DecodeUint32(server.pub.value);
    assert peer.pub.value[SIZE_OF_UINT32..] == client.pub.value[SIZE_OF_UINT32..];
    var at := DecodeUint32(server.pub.value);
    assert peer.pub.value[SIZE_OF_UINT32 + at..] == peer.pub.value[SIZE_OF_UINT32..][at..];
    assert client.pub.value[SIZE_OF_UINT32 + at..] == client.pub.value[SIZE_OF_UINT32..][at..];
  }
}
