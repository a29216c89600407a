/** KEM operations on heap buffers: what is written where, and which lengths are reported. */
module KemContext {
  import opened Options
  import opened Bytes
  import opened Schemes
  import opened KeyLayout
  import opened KeyTransfer
  import opened HybridKem
  import opened Keys

  const OQS_ERROR: int := -1

  /** Where a pointer argument may be written through. */
  function Target(p: Pointer): set<object> {
    if p.At? then {p.buf} else {}
  }

  predicate Room(p: Pointer, n: nat) {
    p.At? ==> 0 <= p.off <= p.buf.Length - n
  }

  /** `PROV_OQSKEM_CTX`. */
  class KemCtx {
    var kem: OqsxKey?

    constructor ()
      ensures kem == null
    {
      kem := null;
    }

    /** `oqs_kem_decapsencaps_init`.
        Re-initialising with the key already held neither frees it nor changes its count. */
    method Init(key: OqsxKey?) returns (ok: bool)
      requires key != null ==> !key.freed && key.references >= 1
      requires kem != null ==> !kem.freed && kem.references >= 1
      modifies this, Just(key)`references, Just(kem)`references, if kem == key then {} else Dying(kem)
      ensures ok <==> key != null
      ensures if ok then kem == key else kem == old(kem)
      ensures ok && old(kem) == key ==> unchanged(key)
      ensures ok && old(kem) != key ==>
                && key.references == old(key.references) + 1 && !key.freed
                && (old(kem) != null ==>
                      old(kem).references == old(kem.references) - 1
                      && (old(kem).freed <==> old(kem.references) == 1))
    {
      if key == null {
        return false;
      }
      var up := key.UpRef();
      if !up {
        return false;
      }
      KeyFree(kem);
      kem := key;
      return true;
    }

    /** `oqs_kem_freectx`. */
    method Free()
      modifies Just(kem)`references, Dying(kem)
      ensures kem != null ==>
        kem.references == old(kem.references) - 1 && kem.freed == (old(kem.freed) || kem.references <= 0)
    {
      KeyFree(kem);
    }
  }

  /** `oqs_evp_kem_encaps_keyslot`, slot 0. */
  method EvpEncaps(key: OqsxKey, ct: Pointer, secret: Pointer, eph: Seed) returns (ret: int, ctlen: nat, secretlen: nat)
    requires key.Valid() && KemKey(key.alg, key.State()) && (ct.At? && secret.At? ==> key.pubkey != null)
    requires Room(ct, key.alg.classical.value.lenPub) && Room(secret, key.alg.classical.value.lenSecret)
    requires Target(ct) !! Target(secret) && key.Footprint() !! Target(ct) + Target(secret)
    modifies Target(ct), Target(secret)
    ensures key.State() == old(key.State())
    ensures ctlen == key.alg.classical.value.lenPub && secretlen == key.alg.classical.value.lenSecret
    ensures !ct.At? || !secret.At? ==> ret == 1
    ensures ct.At? && secret.At? ==>
              var c := key.alg.classical.value;
              var at := SIZE_OF_UINT32;
              var sent := ClassicalEncaps(c, old(key.State()).pub.value[at..at + c.lenPub], eph);
              && (ret > 0 <==> sent.Some?)
              && (ret > 0 ==>
                    && |sent.value.0| == c.lenPub && |sent.value.1| == c.lenSecret
                    && ct.buf[..] == Splice(old(ct.buf[..]), ct.off, sent.value.0)
                    && secret.buf[..] == Splice(old(secret.buf[..]), secret.off, sent.value.1))
    ensures !ct.At? && secret.At? ==> secret.buf[..] == old(secret.buf[..])
    ensures ct.At? && !secret.At? ==> ct.buf[..] == old(ct.buf[..])
  {
    var c := key.alg.classical.value;
    key.PublicPointers();
    var pubkeyKex := key.compPubkey[0];
    ctlen, secretlen := c.lenPub, c.lenSecret;
    if !ct.At? || !secret.At? {
      return 1, ctlen, secretlen;
    }
    ret := OQS_ERROR;
    assert pubkeyKex.buf[pubkeyKex.off..pubkeyKex.off + c.lenPub]
           == key.pubkey[..][SIZE_OF_UINT32..SIZE_OF_UINT32 + c.lenPub];
    var peer := c.decodePub(pubkeyKex.buf[pubkeyKex.off..pubkeyKex.off + c.lenPub]);
    if peer.None? {
      return;
    }
    var e := c.keygen(eph);
    if e.None? {
      return;
    }
    var derived := c.derive(e.value, peer.value);
    if derived.None? {
      return;
    }
    Memcpy(secret.buf, secret.off, derived.value);
    var share := c.encodePub(c.publicOf(e.value));
    if |share| != c.lenPub {
      return;
    }
    Memcpy(ct.buf, ct.off, share);
    ret := 1;
  }

  /** `oqs_qs_kem_encaps_keyslot`, the last slot. */
  method QsEncaps(key: OqsxKey, out: Pointer, secret: Pointer, coins: Seed)
    returns (ret: int, outlen: nat, secretlen: nat)
    requires key.Valid() && Completed(key.alg, key.State()) && (out.At? && secret.At? ==> key.pubkey != null)
    requires Room(out, key.alg.pq.lenCt) && Room(secret, key.alg.pq.lenSecret)
    requires Target(out) !! Target(secret) && key.Footprint() !! Target(out) + Target(secret)
    modifies Target(out), Target(secret)
    ensures key.State() == old(key.State())
    ensures outlen == key.alg.pq.lenCt && secretlen == key.alg.pq.lenSecret
    ensures !out.At? || !secret.At? ==> ret == 1
    ensures out.At? && secret.At? ==>
              var sent := key.alg.pq.encaps(PqPublic(key.alg, old(key.State()).pub.value), coins);
              && (ret > 0 <==> sent.Some?)
              && (ret > 0 ==>
                    && out.buf[..] == Splice(old(out.buf[..]), out.off, sent.value.0)
                    && secret.buf[..] == Splice(old(secret.buf[..]), secret.off, sent.value.1))
    ensures !out.At? && secret.At? ==> secret.buf[..] == old(secret.buf[..])
    ensures out.At? && !secret.At? ==> out.buf[..] == old(out.buf[..])
  {
    var pq := key.alg.pq;
    outlen, secretlen := pq.lenCt, pq.lenSecret;
    if !out.At? || !secret.At? {
      return 1, outlen, secretlen;
    }
    key.PublicPointers();
    var pubkey := key.compPubkey[key.numkeys - 1];
    assert pubkey.buf[pubkey.off..pubkey.off + pq.lenPub] == PqPublic(key.alg, key.State().pub.value);
    match pq.encaps(pubkey.buf[pubkey.off..pubkey.off + pq.lenPub], coins)
    case None =>
      ret := 0;
    case Some((ct, ss)) =>
      Memcpy(out.buf, out.off, ct);
      Memcpy(secret.buf, secret.off, ss);
      ret := 1;
  }

  /** `oqs_hyb_kem_encaps`. A query and a real call report the same lengths; a real call puts the two ciphertexts
      side by side, and the two secrets, and touches nothing past them. */
  method HybEncaps(key: OqsxKey, ct: array?<Byte>, secret: array?<Byte>, eph: Seed, coins: Seed)
    returns (ret: int, ctlen: nat, secretlen: nat)
    requires key.Valid() && KemKey(key.alg, key.State()) && (ct != null && secret != null ==> key.pubkey != null)
    requires ct != null ==> ct.Length >= CiphertextLen(key.alg) && ct !in key.Footprint()
    requires secret != null ==> secret.Length >= key.alg.MaxSize() && secret !in key.Footprint() && secret != ct
    modifies ct, secret
    ensures ctlen == CiphertextLen(key.alg) && secretlen == key.alg.MaxSize()
    ensures key.State() == old(key.State())
    ensures ct == null || secret == null ==> ret == 1
    ensures ct != null && secret == null ==> ct[..] == old(ct[..])
    ensures ct == null && secret != null ==> secret[..] == old(secret[..])
    ensures ct != null && secret != null ==>
              var sent := Encapsulated(key.alg, old(key.State()), eph, coins);
              && (ret > 0 <==> sent.Some?)
              && (ret > 0 ==>
                    && ct[..] == Splice(old(ct[..]), 0, sent.value.0)
                    && secret[..] == Splice(old(secret[..]), 0, sent.value.1))
  {
    var ctLen0, secretLen0, ctLen1, secretLen1;
    ret, ctLen0, secretLen0 := EvpEncaps(key, Null, Null, eph);
    ret, ctLen1, secretLen1 := QsEncaps(key, Null, Null, coins);
    ctlen, secretlen := ctLen0 + ctLen1, secretLen0 + secretLen1;
    if ct == null || secret == null {
      return 1, ctlen, secretlen;
    }
    ret := EncapsSideBySide(key, ct, secret, ctLen0, secretLen0, eph, coins);
  }

  /** The real call: each half writes at its own sub-pointers. */
  method EncapsSideBySide(key: OqsxKey, ct: array<Byte>, secret: array<Byte>, ctLen0: nat, secretLen0: nat, eph: Seed,
                          coins: Seed)
    returns (ret: int)
    requires key.Valid() && KemKey(key.alg, key.State()) && key.pubkey != null
    requires ct.Length >= CiphertextLen(key.alg) && ct !in key.Footprint()
    requires secret.Length >= key.alg.MaxSize() && secret !in key.Footprint() && secret != ct
    requires ctLen0 == key.alg.classical.value.lenPub && secretLen0 == key.alg.classical.value.lenSecret
    modifies ct, secret
    ensures key.State() == old(key.State())
    ensures var sent := Encapsulated(key.alg, old(key.State()), eph, coins);
              && (ret > 0 <==> sent.Some?)
              && (ret > 0 ==>
                    && ct[..] == Splice(old(ct[..]), 0, sent.value.0)
                    && secret[..] == Splice(old(secret[..]), 0, sent.value.1))
  {
    ghost var ct0, secret0 := ct[..], secret[..];
    var ctlen, secretlen;
    ret, ctlen, secretlen := EvpEncaps(key, At(ct, 0), At(secret, 0), eph);
    if ret <= 0 {
      return OQS_ERROR;
    }
    ret, ctlen, secretlen := QsEncaps(key, At(ct, ctLen0), At(secret, secretLen0), coins);
    if ret <= 0 {
      return OQS_ERROR;
    }
    ghost var c := key.alg.classical.value;
    ghost var classical :=
      ClassicalEncaps(c, key.State().pub.value[SIZE_OF_UINT32..SIZE_OF_UINT32 + c.lenPub], eph).value;
    ghost var pq := key.alg.pq.encaps(PqPublic(key.alg, key.State().pub.value), coins).value;
    SplicesJoin(ct0, classical.0, pq.0);
    SplicesJoin(secret0, classical.1, pq.1);
  }

  /** Two adjacent copies are one copy of the concatenation. */
  lemma SplicesJoin(s: seq<Byte>, a: seq<Byte>, b: seq<Byte>)
    requires |a| + |b| <= |s|
    ensures Splice(Splice(s, 0, a), |a|, b) == Splice(s, 0, a + b)
  {
  }

  /** `oqs_evp_kem_decaps_keyslot`, slot 0. */
  method EvpDecaps(key: OqsxKey, secret: Pointer, ct: seq<Byte>) returns (ret: int, secretlen: nat)
    requires key.Valid() && KemKey(key.alg, key.State()) && (secret.At? ==> key.privkey != null)
    requires Room(secret, key.alg.classical.value.lenSecret) && key.Footprint() !! Target(secret)
    modifies Target(secret)
    ensures key.State() == old(key.State())
    ensures secretlen == key.alg.classical.value.lenSecret
    ensures !secret.At? ==> ret == 1
    ensures secret.At? ==>
              var c := key.alg.classical.value;
              var plain :=
                ClassicalDecaps(c, old(key.State()).priv.value[SIZE_OF_UINT32..SIZE_OF_UINT32 + c.lenPriv], ct);
              && (ret > 0 <==> plain.Some?)
              && (ret > 0 ==> |plain.value| == c.lenSecret
                              && secret.buf[..] == Splice(old(secret.buf[..]), secret.off, plain.value))
  {
    var c := key.alg.classical.value;
    secretlen := c.lenSecret;
    if !secret.At? {
      return 1, secretlen;
    }
    key.PrivatePointers();
    var privkeyKex := key.compPrivkey[0];
    ret := -2;
    assert privkeyKex.buf[privkeyKex.off..privkeyKex.off + c.lenPriv]
           == key.privkey[..][SIZE_OF_UINT32..SIZE_OF_UINT32 + c.lenPriv];
    var k := c.decodePriv(privkeyKex.buf[privkeyKex.off..privkeyKex.off + c.lenPriv]);
    if k.None? {
      return;
    }
    var peer := c.decodePub(ct);
    if peer.None? {
      return;
    }
    var derived := c.derive(k.value, peer.value);
    if derived.None? {
      return;
    }
    Memcpy(secret.buf, secret.off, derived.value);
    ret := 1;
  }

  /** `oqs_qs_kem_decaps_keyslot`, the last slot. */
  method QsDecaps(key: OqsxKey, out: Pointer, ct: seq<Byte>) returns (ret: int, outlen: nat)
    requires key.Valid() && Completed(key.alg, key.State()) && (out.At? ==> key.privkey != null)
    requires Room(out, key.alg.pq.lenSecret) && key.Footprint() !! Target(out)
    modifies Target(out)
    ensures key.State() == old(key.State())
    ensures outlen == key.alg.pq.lenSecret
    ensures !out.At? ==> ret == 1
    ensures out.At? ==>
              var plain := key.alg.pq.decaps(PqPrivate(key.alg, old(key.State()).priv.value), ct);
              && (ret > 0 <==> plain.Some?)
              && (ret > 0 ==> out.buf[..] == Splice(old(out.buf[..]), out.off, plain.value))
  {
    var pq := key.alg.pq;
    outlen := pq.lenSecret;
    if !out.At? {
      return 1, outlen;
    }
    key.PrivatePointers();
    var privkey := key.compPrivkey[key.numkeys - 1];
    assert privkey.buf[privkey.off..privkey.off + pq.lenPriv] == PqPrivate(key.alg, key.State().priv.value);
    match pq.decaps(privkey.buf[privkey.off..privkey.off + pq.lenPriv], ct)
    case None =>
      ret := 0;
    case Some(ss) =>
      Memcpy(out.buf, out.off, ss);
      ret := 1;
  }

  /** `oqs_hyb_kem_decaps`: any ciphertext of another length is refused. */
  method HybDecaps(key: OqsxKey, secret: array?<Byte>, ct: seq<Byte>) returns (ret: int, secretlen: nat)
    requires key.Valid() && KemKey(key.alg, key.State())
    requires secret != null && |ct| == CiphertextLen(key.alg) ==> key.privkey != null
    requires secret != null ==> secret.Length >= key.alg.MaxSize() && secret !in key.Footprint()
    modifies secret
    ensures secretlen == key.alg.MaxSize()
    ensures secret == null ==> ret == 1
    ensures secret != null && |ct| == CiphertextLen(key.alg) ==>
              var plain := Decapsulated(key.alg, old(key.State()), ct);
              && (ret > 0 <==> plain.Some?)
              && (ret > 0 ==> secret[..] == Splice(old(secret[..]), 0, plain.value))
    ensures secret != null && |ct| != CiphertextLen(key.alg) ==> ret <= 0 && secret[..] == old(secret[..])
  {
    var c := key.alg.classical.value;
    var secretLen0, secretLen1;
    ret, secretLen0 := EvpDecaps(key, Null, []);
    ret, secretLen1 := QsDecaps(key, Null, []);
    secretlen := secretLen0 + secretLen1;
    if secret == null {
      return 1, secretlen;
    }
    var ctLen0, ctLen1 := c.lenPub, key.alg.pq.lenCt;
    if ctLen0 + ctLen1 != |ct| {
      return OQS_ERROR, secretlen;
    }
    ghost var secret0 := secret[..];
    ret, secretLen0 := EvpDecaps(key, At(secret, 0), ct[..ctLen0]);
    if ret <= 0 {
      return OQS_ERROR, secretlen;
    }
    ret, secretLen1 := QsDecaps(key, At(secret, secretLen0), ct[ctLen0..]);
    if ret <= 0 {
      return OQS_ERROR, secretlen;
    }
    ghost var priv := key.State().priv.value;
    SplicesJoin(secret0,
                ClassicalDecaps(c, priv[SIZE_OF_UINT32..SIZE_OF_UINT32 + c.lenPriv], ct[..c.lenPub]).value,
                key.alg.pq.decaps(PqPrivate(key.alg, priv), ct[c.lenPub..]).value);
  }

  /** The client's key share set on the server's key pair. */
  method SetKeyShare(client: OqsxKey, server: OqsxKey, ghost c: KeyState, ghost s: KeyState)
    requires client.Valid() && server.Valid() && client.alg == server.alg && client.Footprint() !! server.Footprint()
    requires client.State() == c && server.State() == s
    requires KemKey(client.alg, c) && KemKey(server.alg, s) && c.pub.Some? && s.pub.Some?
    requires PublicReplaced(server.alg, s, EncodedPublic(client.alg, c.pub.value)).Some?
    modifies server`privkey, server`pubkey, server`compPubkey, server.pubkey
    ensures server.Valid() && client.State() == c && client.Footprint() !! server.Footprint()
    ensures fresh(server.Footprint() - old(server.Footprint()))
    ensures PublicReplaced(server.alg, s, EncodedPublic(client.alg, c.pub.value)) == Some(server.State())
  {
    var share := client.GetEncodedPublic();
    server.PublicPointers();
    var ok := server.SetEncodedPublic(share.value);
  }

  /** Encapsulation by one side and decapsulation by the other, into new buffers. */
  method Exchange(client: OqsxKey, server: OqsxKey, ghost c: KeyState, ghost s: KeyState, ghost k: Scalar,
                  ghost pseed: Seed, eph: Seed, coins: Seed)
    returns (ok: bool, clientSecret: array<Byte>, serverSecret: array<Byte>)
    requires client.Valid() && server.Valid() && client.alg == server.alg && client.State() == c && server.State() == s
    requires Holds(client.alg, c, k, pseed) && Laws(client.alg)
    requires KemKey(server.alg, s) && s.pub == c.pub
    ensures clientSecret != serverSecret
    ensures ok ==> clientSecret[..] == serverSecret[..]
    ensures ok ==> SecretIsConcatenation(client.alg, k, pseed, eph, coins, clientSecret[..])
    ensures ok <==> EncapsulationSucceeds(client.alg, k, pseed, eph, coins)
  {
    var alg := client.alg;
    EncapsulatesIff(alg, c, k, pseed, s, eph, coins);
    var ct := new Byte[CiphertextLen(alg)](_ => 0);
    clientSecret := new Byte[alg.MaxSize()](_ => 0);
    serverSecret := new Byte[alg.MaxSize()](_ => 0);
    var ret, ctlen, secretlen := HybEncaps(server, ct, serverSecret, eph, coins);
    ok := ret > 0;
    if ok {
      EncapsulationOpens(alg, c, k, pseed, s, eph, coins);
      assert ct[..] == Encapsulated(alg, s, eph, coins).value.0;
      ret, secretlen := HybDecaps(client, clientSecret, ct[..]);
    }
  }

  /** The whole exchange on the heap, from two key generations on. It succeeds unless one of the server's draws
      fails, and then both sides hold the same bytes, the classical secret followed by the PQ one. */
  method Handshake(alg: Algorithm, ccseed: Seed, cpseed: Seed, scseed: Seed, spseed: Seed, ghost c: KeyState,
                   ghost s: KeyState, eph: Seed, coins: Seed)
    returns (ok: bool, clientSecret: array<Byte>, serverSecret: array<Byte>)
    requires FreshKemKey(alg, ccseed, cpseed, c) && FreshKemKey(alg, scseed, spseed, s) && Laws(alg)
    ensures clientSecret != serverSecret
    ensures ok ==> clientSecret[..] == serverSecret[..]
    ensures ClassicalGen(alg.classical.value, ccseed).Some?
    ensures var k := ClassicalGen(alg.classical.value, ccseed).value;
            && (ok ==> SecretIsConcatenation(alg, k, cpseed, eph, coins, clientSecret[..]))
            && (ok <==> EncapsulationSucceeds(alg, k, cpseed, eph, coins))
  {
    var client := GeneratedKeyPair(alg, ccseed, cpseed, c);
    var server := GeneratedKeyPair(alg, scseed, spseed, s);
    assert client.Footprint() !! server.Footprint();
    assert client.Valid() && client.State() == c;
    KeyShareArrives(alg, ccseed, cpseed, c, scseed, spseed, s);
    FreshKeyHolds(alg, ccseed, cpseed, c);
    SetKeyShare(client, server, c, s);
    ghost var peer := PublicReplaced(alg, s, EncodedPublic(alg, c.pub.value)).value;
    assert server.State() == peer;
    ok, clientSecret, serverSecret :=
      Exchange(client, server, c, peer, ClassicalGen(alg.classical.value, ccseed).value, cpseed, eph, coins);
  }
}
