/** The signature context object. Its methods are proved against SigStreams (the state) and HybridSig (the
    signatures); duplication is proved to share nothing mutable. */
module SigContext {
  import opened Options
  import opened Bytes
  import opened Schemes
  import opened KeyLayout
  import opened HybridSig
  import opened Keys
  import opened SigStreams

  /** An EVP_MD_CTX. After finalisation it refuses to go on. */
  class MdCtx {
    const name: string
    var absorbed: seq<Byte>
    var finished: bool

    constructor (name: string)
      ensures this.name == name && absorbed == [] && !finished
    {
      this.name := name;
      absorbed, finished := [], false;
    }

    method Update(data: seq<Byte>) returns (ok: bool)
      modifies this
      ensures ok == !old(finished) && finished == old(finished)
      ensures absorbed == if ok then old(absorbed) + data else old(absorbed)
    {
      if !finished {
        absorbed := absorbed + data;
      }
      return !finished;
    }

    method Final(lib: Library) returns (digest: Option<seq<Byte>>)
      modifies this`finished
      ensures finished
      ensures digest == if old(finished) then None else Some(lib.digest(name, absorbed))
    {
      if finished {
        return None;
      }
      finished := true;
      return Some(lib.digest(name, absorbed));
    }

    method Copy() returns (copy: MdCtx)
      ensures fresh(copy) && copy.name == name && copy.absorbed == absorbed && copy.finished == finished
    {
      copy := new MdCtx(name);
      copy.absorbed, copy.finished := absorbed, finished;
    }
  }

  /** The objects among one. */
  function Only(p: object?): set<object> {
    if p == null then {} else {p}
  }

  function Progress(m: MdCtx?): Option<Hashing>
    reads m
  {
    if m == null then None else Some(Hashing(m.name, m.absorbed, m.finished))
  }

  /** `oqs_sig_sign`. Without a buffer it reports the maximum size; too short a buffer is refused. Otherwise it writes
      a plain key's PQ signature, or the length of the classical signature, that signature over the digest the claimed
      level calls for, and the PQ signature. */
  method Sign(key: OqsxKey, sig: array?<Byte>, siglen: nat, tbs: seq<Byte>, cseed: Seed, pseed: Seed)
    returns (ok: bool, outlen: nat)
    requires key.Valid() && SigKey(key.alg, key.State())
    requires sig != null ==> siglen <= sig.Length && sig !in key.Footprint()
    modifies sig
    ensures sig == null ==> (ok <==> key.privkey != null) && (ok ==> outlen == key.alg.MaxSize())
    ensures sig != null && siglen < key.alg.MaxSize() ==> !ok && sig[..] == old(sig[..])
    ensures sig != null && siglen >= key.alg.MaxSize() ==>
              var signed := Signed(key.alg, old(key.State()), tbs, cseed, pseed);
              && (ok <==> signed.Some?)
              && (ok ==> outlen == |signed.value| <= key.alg.MaxSize()
                         && sig[..] == Splice(old(sig[..]), 0, signed.value))
    ensures sig == null && ok && key.alg.keytype.PlainSig? ==> outlen == key.alg.pq.lenSig
    ensures sig == null && ok && key.alg.keytype.HybSig? ==>
              outlen == 4 + key.alg.classical.value.lenSig + key.alg.pq.lenSig
    ensures sig != null && ok && key.alg.keytype.PlainSig? ==>
              old(key.privkey) != null && outlen <= |sig[..]|
              && Some(sig[..outlen]) == key.alg.pq.sign(old(key.privkey[..]), tbs, pseed)
    ensures sig != null && ok && key.alg.keytype.HybSig? ==>
              && old(key.privkey) != null && key.classicalPkey.value.scalar.Some?
              && var c, q := key.alg.classical.value, key.alg.pq;
              var h := if q.level == 1 then Sha256 else if q.level == 2 || q.level == 3 then Sha384 else Sha512;
              var first := c.sign(key.classicalPkey.value.scalar.value, h, c.digest(h, tbs), cseed);
              var from := 4 + DecodeUint32(old(key.privkey[..]));
              var second := q.sign(old(key.privkey[..])[from..from + q.lenPriv], tbs, pseed);
              && first.Some? && second.Some? && outlen == 4 + |first.value| + |second.value| <= |sig[..]|
              && var n := |first.value|;
              sig[..outlen] == [n / 0x100_0000 % 256, n / 0x1_0000 % 256, n / 0x100 % 256, n % 256]
                               + first.value + second.value
  {
    SignatureBytes(key.alg, key.State(), tbs, cseed, pseed);
    var maxSigLen := key.alg.pq.lenSig;
    if key.privkey == null {
      return false, siglen;
    }
    if key.classicalPkey != None {
      maxSigLen := maxSigLen + SIZE_OF_UINT32 + key.alg.classical.value.lenSig;
    }
    if sig == null {
      return true, maxSigLen;
    }
    if siglen < maxSigLen {
      return false, siglen;
    }
    ok, outlen := WriteSignature(key, sig, siglen, tbs, cseed, pseed);
  }

  /** Its second half: header, classical and PQ signature at a running index, and how far it got. */
  method WriteSignature(key: OqsxKey, sig: array<Byte>, siglen: nat, tbs: seq<Byte>, cseed: Seed, pseed: Seed)
    returns (ok: bool, outlen: nat)
    requires key.Valid() && SigKey(key.alg, key.State()) && key.privkey != null
    requires key.alg.MaxSize() <= siglen <= sig.Length && sig !in key.Footprint()
    modifies sig
    ensures var signed := Signed(key.alg, old(key.State()), tbs, cseed, pseed);
            && (ok <==> signed.Some?)
            && (ok ==> outlen == |signed.value| <= key.alg.MaxSize()
                       && sig[..] == Splice(old(sig[..]), 0, signed.value))
  {
    var pq := key.alg.pq;
    var isHybrid := key.classicalPkey != None;
    ghost var sig0 := sig[..];
    key.PrivatePointers();
    var sk := key.compPrivkey[key.numkeys - 1];
    assert sk.buf[sk.off..sk.off + pq.lenPriv] == PqPrivate(key.alg, key.State().priv.value);
    var secret := sk.buf[sk.off..sk.off + pq.lenPriv];
    var index := 0;
    ghost var classicalSig := [];
    if isHybrid {
      var signed := ClassicalSigned(key.alg, key.classicalPkey.value, tbs, cseed);
      if signed.None? {
        return false, siglen;
      }
      classicalSig := signed.value;
      Memcpy(sig, SIZE_OF_UINT32, signed.value);
      StoreUint32(sig, |signed.value|);
      PrefixedBySplices(signed.value, sig0);
      index := SIZE_OF_UINT32 + |signed.value|;
    }
    match pq.sign(secret, tbs, pseed)
    case None =>
      return false, siglen;
    case Some(s) =>
      Memcpy(sig, index, s);
      if isHybrid {
        PrefixedThenPq(classicalSig, s, sig0);
      }
      return true, index + |s|;
  }

  lemma PrefixedThenPq(classical: seq<Byte>, pq: seq<Byte>, buf: seq<Byte>)
    requires SIZE_OF_UINT32 + |classical| + |pq| <= |buf|
    ensures Splice(Prefixed(classical, buf), SIZE_OF_UINT32 + |classical|, pq)
            == Splice(buf, 0, Pack(classical, pq, []))
  {
  }

  /** `oqs_sig_verify`. */
  method Verify(key: OqsxKey, sig: seq<Byte>, tbs: seq<Byte>) returns (ok: bool)
    requires key.Valid() && SigKey(key.alg, key.State()) && (key.alg.Hybrid() ==> HeaderInBuffer(sig))
    ensures ok == Verified(key.alg, key.State(), sig, tbs)
    ensures key.pubkey == null ==> !ok
    ensures key.pubkey != null && key.alg.keytype.PlainSig? ==> ok == key.alg.pq.verify(key.pubkey[..], tbs, sig)
    ensures key.pubkey != null && key.alg.keytype.HybSig? ==>
              var c, point := key.alg.classical.value, key.classicalPkey.value.point;
              var h := if key.alg.pq.level == 1 then Sha256
                       else if key.alg.pq.level == 2 || key.alg.pq.level == 3 then Sha384 else Sha512;
              var from, n := 4 + DecodeUint32(key.pubkey[..]), DecodeUint32(sig);
              ok <==> c.verify(point, h, c.digest(h, tbs), sig[4..4 + n])
                      && key.alg.pq.verify(key.pubkey[..][from..from + key.alg.pq.lenPub], tbs, sig[4 + n..])
  {
    AcceptedIff(key.alg, key.State(), sig, tbs);
    if key.pubkey == null {
      return false;
    }
    var index := 0;
    if key.classicalPkey != None {
      var c := key.alg.classical.value;
      var actualClassicalSigLen := DecodeUint32(sig);
      var h := LevelHash(key.alg.pq.level);
      if !c.verify(key.classicalPkey.value.point, h, c.digest(h, tbs),
                   sig[SIZE_OF_UINT32..SIZE_OF_UINT32 + actualClassicalSigLen]) {
        return false;
      }
      index := SIZE_OF_UINT32 + actualClassicalSigLen;
    }
    key.PublicPointers();
    var pk := key.compPubkey[key.numkeys - 1];
    assert pk.buf[pk.off..pk.off + key.alg.pq.lenPub] == PqPublic(key.alg, key.State().pub.value);
    assert sig[0..] == sig;
    return key.alg.pq.verify(pk.buf[pk.off..pk.off + key.alg.pq.lenPub], tbs, sig[index..]);
  }

  /** The new key has a reference more and the old one a reference less; the same key has what it had. */
  twostate predicate HandedOver(was: OqsxKey?, key: OqsxKey)
    reads key, Just(was)
  {
    && !key.freed
    && key.references == old(key.references) + (if was == key then 0 else 1)
    && (was != null && was != key ==> was.references == old(was.references) - 1 && (was.freed <==> was.references == 0))
  }

  /** A reference on the new key, then the release of the old one. */
  method Exchange(was: OqsxKey?, key: OqsxKey)
    requires !key.freed && key.references >= 1
    requires was != null ==> !was.freed && was.references >= 1
    modifies key`references, Just(was)`references, if was == key then {} else Dying(was)
    ensures HandedOver(was, key)
  {
    var up := key.UpRef();
    KeyFree(was);
  }

  /** `PROV_OQSSIG_CTX`. */
  class SigCtx {
    const lib: Library
    var propq: array?<Byte>
    var sig: OqsxKey?
    var allowMd: bool
    var mdname: string
    var aid: array?<Byte>
    var md: Option<string>
    var mdctx: MdCtx?
    var mdsize: nat
    var mddata: array?<Byte>
    var operation: Operation
    ghost var born: set<object>  // everything ever allocated for the context
    ghost var gone: set<object>  // what has been given back

    ghost predicate Valid()
      reads this`mddata, this`mdsize, this`aid, this`propq
    {
      && (mddata != null ==> mddata.Length == mdsize && mddata != aid)
      && (mddata == null ==> mdsize == 0)
      && (propq != null ==> propq != aid && propq != mddata)
    }

    predicate Part(p: object)
      reads this`aid, this`mddata, this`propq, this`mdctx
    {
      p == aid || p == mddata || p == propq || p == mdctx
    }

    ghost predicate Live(p: object?)
      reads this`born, this`gone
    {
      p != null ==> p in born && p !in gone
    }

    /** Everything allocated for the context has gone back or is one of its parts, and never both. */
    ghost predicate Conserved()
      reads this`born, this`gone, this`aid, this`mddata, this`propq, this`mdctx
    {
      && Live(aid) && Live(mddata) && Live(propq) && Live(mdctx)
      && gone <= born && forall p <- born :: p in gone || Part(p)
    }

    /** Of what was allocated or given back nothing is forgotten, and all else is new. */
    twostate predicate Kept()
      reads this`born, this`gone, this`mdctx
    {
      && old(born) <= born && old(gone) <= gone && fresh(born - old(born))
      && (mdctx == old(mdctx) || mdctx == null || fresh(mdctx))
    }

    /** `free`: of nothing, or of something that has not gone back before. */
    ghost method Drop(p: object?)
      requires Live(p)
      modifies this`gone
      ensures gone == old(gone) + Only(p)
    {
      gone := gone + Only(p);
    }

    /** The digest context is freed. */
    method DropDigest()
      requires Conserved()
      modifies this`mdctx, this`gone
      ensures mdctx == null && Conserved() && Kept()
    {
      Drop(mdctx);
      mdctx := null;
    }

    /** There is a new one. */
    method AdoptDigest(name: string)
      requires Conserved() && mdctx == null
      modifies this`mdctx, this`born
      ensures mdctx != null && fresh(mdctx) && Progress(mdctx) == Some(Hashing(name, [], false)) && Conserved()
      ensures Kept()
    {
      mdctx := new MdCtx(name);
      born := born + {mdctx};
    }

    /** The algorithm identifier is freed and another one allocated. */
    method ReplaceAid(data: seq<Byte>)
      requires Valid() && Conserved()
      modifies this`aid, this`born, this`gone
      ensures Valid() && aid != null && fresh(aid) && aid[..] == data && Conserved() && Kept()
    {
      Drop(aid);
      aid := NewBuffer(data);
      born := born + {aid};
    }

    /** So is the collected data, if there is any. */
    method ReplaceData(data: seq<Byte>)
      requires Valid() && Conserved()
      modifies this`mddata, this`mdsize, this`born, this`gone
      ensures Valid() && mddata != null && fresh(mddata) && mddata[..] == data && Conserved() && Kept()
    {
      Drop(mddata);
      mddata := NewBuffer(data);
      mdsize := |data|;
      born := born + {mddata};
    }

    /** Everything that is left is freed. */
    method DropAll()
      requires Valid() && Conserved()
      modifies this`propq, this`mdctx, this`mddata, this`mdsize, this`aid, this`gone
      ensures Valid() && Conserved() && Kept() && gone == born
      ensures propq == null && mdctx == null && mddata == null && aid == null
    {
      DropQuery();
      DropDigest();
      DropBuffers();
    }

    method DropQuery()
      requires Valid() && Conserved()
      modifies this`propq, this`gone
      ensures Valid() && propq == null && Conserved() && Kept()
    {
      Drop(propq);
      propq := null;
    }

    method DropBuffers()
      requires Valid() && Conserved()
      modifies this`mddata, this`mdsize, this`aid, this`gone
      ensures Valid() && mddata == null && aid == null && Conserved() && Kept()
    {
      Drop(mddata);
      mddata, mdsize := null, 0;
      Drop(aid);
      aid := null;
    }

    /** The buffers this context frees. */
    function Owned(): set<array<Byte>>
      reads this
    {
      (if aid == null then {} else {aid}) + (if mddata == null then {} else {mddata})
      + (if propq == null then {} else {propq})
    }

    ghost function View(): CtxView
      reads this`sig, this`allowMd, this`mdname, this`aid, this`md, this`mdctx, this`mddata, this`operation
      reads aid, mdctx, mddata
    {
      CtxView(
        if sig == null then None else Some(sig.alg.tlsName),
        allowMd, mdname, Contents(aid), md, Progress(mdctx), Contents(mddata), operation)
    }

    /** `oqs_sig_newctx`. */
    constructor (lib: Library, query: Option<seq<Byte>>)
      ensures Valid() && View() == FRESH && sig == null && this.lib == lib
      ensures Contents(propq) == query && (propq != null ==> fresh(propq)) && fresh(born) && Conserved()
    {
      this.lib := lib;
      propq := null;
      sig, allowMd, mdname, operation := null, false, "", NoOperation;
      aid, md, mdctx, mdsize, mddata := null, None, null, 0, null;
      born, gone := {}, {};
      new;
      if query.Some? {
        propq := NewBuffer(query.value);
        born := {propq};
      }
    }

    /** The structure copy in `oqs_sig_dupctx`, with pointers of its own. */
    constructor Copying(src: SigCtx, mdctx: MdCtx?, mddata: array?<Byte>, aid: array?<Byte>, propq: array?<Byte>)
      ensures lib == src.lib && sig == src.sig && allowMd == src.allowMd && mdname == src.mdname && md == src.md
      ensures operation == src.operation && mdsize == src.mdsize
      ensures this.mdctx == mdctx && this.mddata == mddata && this.aid == aid && this.propq == propq
      ensures Conserved() && gone == {}
    {
      lib, sig, allowMd, mdname, md, operation := src.lib, src.sig, src.allowMd, src.mdname, src.md, src.operation;
      mdsize := src.mdsize;
      this.mdctx, this.mddata, this.aid, this.propq := mdctx, mddata, aid, propq;
      born, gone := Only(mdctx) + Only(mddata) + Only(aid) + Only(propq), {};
    }

    /** `oqs_sig_setup_md` with a digest name. */
    method SetUpDigest(name: string) returns (ok: bool)
      requires Valid() && sig != null
      modifies this`mdctx, this`aid, this`md, this`mdname, this`born, this`gone
      requires Conserved()
      ensures Conserved() && Kept()
      ensures Valid() && View() == SetUpMd(lib, old(View()), name)
      ensures ok == lib.fetch(name)
      ensures ok ==> mdctx == null
      ensures aid == old(aid) || fresh(aid)
      ensures mdctx == old(mdctx) || mdctx == null
    {
      if !lib.fetch(name) {
        return false;
      }
      DropDigest();
      ReplaceAid(lib.algorithmId(sig.alg.tlsName));
      md := Some(name);
      mdname := name;
      return true;
    }

    /** The digest part of initialisation: a fetched digest gets a digest context of its own. */
    method StartDigest(name: string) returns (ok: bool)
      requires Valid() && sig != null
      modifies this`mdctx, this`aid, this`md, this`mdname, this`born, this`gone
      requires Conserved()
      ensures Valid() && ok == lib.fetch(name) && Conserved() && Kept()
      ensures View() == if ok then SetUpMd(lib, old(View()), name).(mdctx := Some(Hashing(name, [], false)))
                             else old(View())
      ensures (aid == old(aid) || fresh(aid)) && (mdctx == old(mdctx) || fresh(mdctx))
    {
      ok := SetUpDigest(name);
      if ok {
        AdoptDigest(name);
      }
    }

    /** `oqs_sig_signverify_init`: takes a reference on the new key before it releases the old one. */
    method SignVerifyInit(key: OqsxKey, op: Operation) returns (ok: bool)
      requires Valid() && (op.SignOperation? || op.VerifyOperation?)
      requires !key.freed && key.references >= 1
      requires sig != null ==> !sig.freed && sig.references >= 1
      modifies this`sig, this`operation, this`allowMd
      modifies key`references, Just(sig)`references, if sig == key then {} else Dying(sig)
      ensures sig == key
      ensures HandedOver(old(sig), key)
      ensures Valid() && View() == Keyed(old(View()), key.alg.tlsName, op)
      ensures ok == HasHalf(old(key.privkey) != null, old(key.pubkey) != null, op)
      ensures ok <==>
              (op.SignOperation? ==> old(key.privkey) != null) && (op.VerifyOperation? ==> old(key.pubkey) != null)
    {
      Exchange(sig, key);
      sig := key;
      operation := op;
      allowMd := true;
      return !((op.SignOperation? && sig.privkey == null) || (op.VerifyOperation? && sig.pubkey == null));
    }

    /** `oqs_sig_digest_signverify_init`. */
    method DigestInit(name: Option<string>, key: OqsxKey, op: Operation) returns (ok: bool)
      requires Valid() && (op.SignOperation? || op.VerifyOperation?)
      requires !key.freed && key.references >= 1
      requires sig != null ==> !sig.freed && sig.references >= 1
      modifies this`sig, this`operation, this`allowMd, this`mdctx, this`aid, this`md, this`mdname, this`born, this`gone
      modifies key`references, Just(sig)`references, if sig == key then {} else Dying(sig)
      requires Conserved()
      ensures Valid() && sig == key && Conserved() && Kept()
      ensures HandedOver(old(sig), key)
      ensures var call := Init(name, key.alg.tlsName,
                               HasHalf(old(key.privkey) != null, old(key.pubkey) != null, op), op);
              View() == Next(lib, old(View()), call) && ok == Succeeds(lib, old(View()), call)
      ensures (aid == old(aid) || fresh(aid)) && (mdctx == old(mdctx) || mdctx == null || fresh(mdctx))
    {
      var hasHalf := Rekey(key, op);
      assert View() == Keyed(old(View()), key.alg.tlsName, op);
      ok := StartDigestIf(hasHalf, name);
    }

    /** The part of it that concerns the key. */
    method Rekey(key: OqsxKey, op: Operation) returns (ok: bool)
      requires Valid() && (op.SignOperation? || op.VerifyOperation?)
      requires !key.freed && key.references >= 1
      requires sig != null ==> !sig.freed && sig.references >= 1
      modifies this`sig, this`operation, this`allowMd
      modifies key`references, Just(sig)`references, if sig == key then {} else Dying(sig)
      ensures sig == key && HandedOver(old(sig), key)
      ensures Valid() && View() == Keyed(old(View()), key.alg.tlsName, op)
      ensures ok == HasHalf(old(key.privkey) != null, old(key.pubkey) != null, op)
    {
      allowMd := true;  // permitted until first use
      ok := SignVerifyInit(key, op);
    }

    method StartDigestIf(go: bool, name: Option<string>) returns (ok: bool)
      requires Valid() && Conserved() && sig != null
      modifies this`mdctx, this`aid, this`md, this`mdname, this`born, this`gone
      ensures Valid() && Conserved() && Kept()
      ensures ok == (go && (name.Some? ==> lib.fetch(name.value)))
      ensures View() == Started(lib, old(View()), go, name)
      ensures (aid == old(aid) || fresh(aid)) && (mdctx == old(mdctx) || fresh(mdctx))
    {
      ok := go;
      if go && name.Some? {
        ok := StartDigest(name.value);
      }
    }

    /** `oqs_sig_digest_signverify_update`. */
    method DigestUpdate(data: seq<Byte>) returns (ok: bool)
      requires Valid() && sig != null
      modifies this`allowMd, this`mddata, this`mdsize, this`born, this`gone, mdctx
      requires Conserved()
      ensures Conserved() && Kept()
      ensures Valid() && View() == Next(lib, old(View()), Update(data))
      ensures ok == Succeeds(lib, old(View()), Update(data))
      ensures mddata == old(mddata) || fresh(mddata)
    {
      allowMd := false;
      if mdctx != null {
        ok := mdctx.Update(data);
        return;
      }
      if mddata != null {
        ReplaceData(mddata[..] + data);
        return true;
      }
      if data == [] {  // an allocation of no bytes yields NULL
        return false;
      }
      ReplaceData(data);
      return true;
    }

    /** `oqs_sig_set_ctx_params` with a digest. */
    method SetDigestParam(name: string) returns (ok: bool)
      requires Valid() && sig != null
      modifies this`mdctx, this`aid, this`md, this`mdname, this`born, this`gone
      requires Conserved()
      ensures Conserved() && Kept()
      ensures Valid() && View() == Next(lib, old(View()), SetDigest(name))
      ensures ok == Succeeds(lib, old(View()), SetDigest(name))
      ensures (aid == old(aid) || fresh(aid)) && (mdctx == old(mdctx) || mdctx == null)
    {
      if !allowMd {
        return false;
      }
      ok := SetUpDigest(name);
    }

    /** What both final calls begin with: the digest, if a digest context is active, or the collected data. */
    method TakeMessage() returns (tbs: Option<seq<Byte>>)
      requires Valid() && sig != null
      modifies mdctx
      ensures Valid() && View() == Finished(old(View()), false)
      ensures tbs == if Succeeds(lib, old(View()), SignFinal) then Some(Message(lib, old(View()))) else None
    {
      if mdctx != null {
        tbs := mdctx.Final(lib);
      } else {
        tbs := Some(if mddata != null then mddata[..] else []);
      }
    }

    /** And how it unlocks the digest. The key is not concerned. */
    method TakeAndUnlock(verifying: bool) returns (tbs: Option<seq<Byte>>)
      requires Valid() && sig != null && sig.Valid()
      modifies this`allowMd, mdctx
      ensures Valid() && sig.Valid() && sig.State() == old(sig.State())
      ensures View() == Next(lib, old(View()), if verifying then VerifyFinal else SignFinal)
      ensures tbs == if Succeeds(lib, old(View()), SignFinal) then Some(Message(lib, old(View()))) else None
    {
      tbs := TakeMessage();
      if tbs.Some? && (verifying ==> mdctx != null) {
        allowMd := true;
      }
    }

    /** `oqs_sig_digest_sign_final` without a signature buffer. */
    method DigestSignQuery() returns (ok: bool, outlen: nat)
      requires Valid() && sig != null && sig.Valid() && SigKey(sig.alg, sig.State())
      modifies this`allowMd
      ensures Valid() && View() == Next(lib, old(View()), SizeQuery)
      ensures (ok <==> sig.privkey != null) && (ok ==> outlen == sig.alg.MaxSize())
    {
      allowMd := true;
      ok, outlen := Sign(sig, null, 0, [], 0, 0);
    }

    /** `oqs_sig_digest_sign_final`: signs exactly the message of the state before the call. A buffer that is too
        short fails, but only after the digest has been finalised. */
    method DigestSignFinal(out: array<Byte>, siglen: nat, cseed: Seed, pseed: Seed) returns (ok: bool, outlen: nat)
      requires Valid() && sig != null && sig.Valid() && SigKey(sig.alg, sig.State())
      requires siglen <= out.Length && out !in sig.Footprint() && out != aid && out != mddata
      modifies this`allowMd, mdctx, out
      ensures Valid() && View() == Next(lib, old(View()), SignFinal)
      ensures var signed := Signed(sig.alg, old(sig.State()), Message(lib, old(View())), cseed, pseed);
                && (ok <==> Succeeds(lib, old(View()), SignFinal) && siglen >= sig.alg.MaxSize() && signed.Some?)
                && (ok ==> outlen == |signed.value| <= sig.alg.MaxSize()
                            && out[..] == Splice(old(out[..]), 0, signed.value))
    {
      var tbs := TakeAndUnlock(false);
      if tbs.None? {
        return false, siglen;
      }
      ok, outlen := Sign(sig, out, siglen, tbs.value, cseed, pseed);
    }

    /** The same into a new buffer of the maximum size. */
    method DigestSignNew(cseed: Seed, pseed: Seed) returns (ok: bool, out: array<Byte>, outlen: nat)
      requires Valid() && sig != null && sig.Valid() && SigKey(sig.alg, sig.State())
      modifies this`allowMd, mdctx
      ensures Valid() && View() == Next(lib, old(View()), SignFinal) && sig.State() == old(sig.State())
      ensures var signed := Signed(sig.alg, old(sig.State()), Message(lib, old(View())), cseed, pseed);
                && (ok <==> Succeeds(lib, old(View()), SignFinal) && signed.Some?)
                && (ok ==> outlen == |signed.value| <= out.Length && out[..outlen] == signed.value)
    {
      out := new Byte[sig.alg.MaxSize()](_ => 0);
      ok, outlen := DigestSignFinal(out, out.Length, cseed, pseed);
    }

    /** `oqs_sig_digest_verify_final`. Only an active digest context unlocks the digest again. */
    method DigestVerifyFinal(signature: seq<Byte>) returns (ok: bool)
      requires Valid() && sig != null && sig.Valid() && SigKey(sig.alg, sig.State())
      requires sig.alg.Hybrid() ==> HeaderInBuffer(signature)
      modifies this`allowMd, mdctx
      ensures Valid() && View() == Next(lib, old(View()), VerifyFinal)
      ensures ok <==> Succeeds(lib, old(View()), VerifyFinal)
                      && Verified(sig.alg, old(sig.State()), signature, Message(lib, old(View())))
    {
      var tbs := TakeAndUnlock(true);
      if tbs.None? {
        return false;
      }
      ok := Verify(sig, signature, tbs.value);
    }

    /** `oqs_sig_dupctx`, when every allocation succeeds: equal contents in buffers of its own, and one more
        reference on the shared key. */
    method Dup() returns (dst: SigCtx)
      requires Valid() && (sig != null ==> sig.references >= 1)
      modifies Just(sig)`references
      ensures dst.Valid() && dst.View() == View() == old(View()) && dst.sig == sig && dst.lib == lib
      ensures fresh(dst) && (dst.aid != null ==> fresh(dst.aid)) && (dst.mddata != null ==> fresh(dst.mddata))
      ensures dst.mdctx != null ==> fresh(dst.mdctx)
      ensures Contents(dst.propq) == Contents(propq) && (dst.propq != null ==> fresh(dst.propq))
      ensures fresh(dst.born) && dst.Conserved()
      ensures sig != null ==> sig.references == old(sig.references) + 1
    {
      if sig != null {
        var up := sig.UpRef();
      }
      dst := Copied();
    }

    method Copied() returns (dst: SigCtx)
      requires Valid()
      ensures dst.Valid() && dst.View() == View() && dst.sig == sig && dst.lib == lib
      ensures fresh(dst) && (dst.aid != null ==> fresh(dst.aid)) && (dst.mddata != null ==> fresh(dst.mddata))
      ensures dst.mdctx != null ==> fresh(dst.mdctx)
      ensures Contents(dst.propq) == Contents(propq) && (dst.propq != null ==> fresh(dst.propq))
      ensures fresh(dst.born) && dst.Conserved()
    {
      var mdctxCopy := DupMdCtx(mdctx);
      var mddataCopy := DupBuffer(mddata);
      var aidCopy := DupBuffer(aid);
      var propqCopy := DupBuffer(propq);
      dst := new SigCtx.Copying(this, mdctxCopy, mddataCopy, aidCopy, propqCopy);
      assert forall p <- dst.born :: dst.Part(p);
    }

    /** `oqs_sig_freectx`: what goes back to the allocator is exactly what the context owned, each buffer once. */
    method Free() returns (buffers: set<array<Byte>>, digest: MdCtx?)
      requires Valid()
      modifies this`mdctx, this`md, this`mddata, this`mdsize, this`aid, this`propq, this`gone
      modifies Just(sig)`references, Dying(sig)
      ensures buffers == old(Owned()) && digest == old(mdctx)
      requires Conserved()
      ensures gone == born
      ensures Valid() && aid == null && mddata == null && propq == null && mdctx == null
      ensures sig != null ==>
        sig.references == old(sig.references) - 1 && (sig.references > 0 ==> sig.freed == old(sig.freed))
    {
      buffers, digest := Owned(), mdctx;
      md := None;
      KeyFree(sig);
      DropAll();
    }

    /** Any call but initialisation: it changes nothing but the context itself. A final call signs into a buffer
        of its own, or verifies the given signature. */
    method Perform(call: Call, signature: seq<Byte>, cseed: Seed, pseed: Seed)
      requires Usable(signature) && !call.Init?
      modifies this`allowMd, this`mddata, this`mdsize, this`mdctx, this`aid, this`md, this`mdname, this`born
      modifies this`gone, mdctx
      requires Conserved()
      ensures Conserved() && Kept()
      ensures Valid() && View() == Next(lib, old(View()), call)
      ensures sig.Standing() == old(sig.Standing())
      ensures aid == old(aid) || fresh(aid)
      ensures mddata == old(mddata) || fresh(mddata)
      ensures mdctx == old(mdctx) || mdctx == null
    {
      if call.Update? || call.SetDigest? {
        Collect(call);
      } else {
        Finish(call, signature, cseed, pseed);
      }
    }

    /** Updates and digest settings do not look at the key. */
    method Collect(call: Call)
      requires Valid() && sig != null && (call.Update? || call.SetDigest?)
      requires Conserved()
      modifies this`allowMd, this`mddata, this`mdsize, this`mdctx, this`aid, this`md, this`mdname, this`born
      modifies this`gone, mdctx
      ensures Conserved() && Kept()
      ensures Valid() && View() == Next(lib, old(View()), call)
      ensures aid == old(aid) || fresh(aid)
      ensures mddata == old(mddata) || fresh(mddata)
      ensures mdctx == old(mdctx) || mdctx == null
    {
      var ok;
      match call
      case Update(chunk) => ok := DigestUpdate(chunk);
      case SetDigest(name) => ok := SetDigestParam(name);
    }

    /** The final calls and the size query leave the buffers alone. */
    method Finish(call: Call, signature: seq<Byte>, cseed: Seed, pseed: Seed)
      requires Usable(signature) && (call.SizeQuery? || call.SignFinal? || call.VerifyFinal?)
      modifies this`allowMd, mdctx
      ensures Valid() && View() == Next(lib, old(View()), call)
    {
      var ok, outlen;
      match call
      case SizeQuery => ok, outlen := DigestSignQuery();
      case SignFinal => var out; ok, out, outlen := DigestSignNew(cseed, pseed);
      case VerifyFinal => ok := DigestVerifyFinal(signature);
    }

    /** Initialised with a finished signature key; the signature, if it comes to that, has its header inside. */
    ghost predicate Usable(signature: seq<Byte>)
      reads this, sig, if sig == null then {} else sig.Footprint()
    {
      && Valid() && sig != null && sig.Standing().Some? && SigKey(sig.alg, sig.Standing().value)
      && (sig.alg.Hybrid() ==> HeaderInBuffer(signature))
    }

    /** Such calls one after the other. */
    method Replay(calls: seq<Call>, signature: seq<Byte>, cseed: Seed, pseed: Seed)
      requires Usable(signature) && forall c <- calls :: !c.Init?
      modifies this`allowMd, this`mddata, this`mdsize, this`mdctx, this`aid, this`md, this`mdname, this`born
      modifies this`gone, mdctx
      requires Conserved()
      ensures Conserved() && Kept()
      ensures Valid() && View() == Run(lib, old(View()), calls)
      ensures sig.Standing() == old(sig.Standing())
      ensures aid == old(aid) || fresh(aid)
      ensures mddata == old(mddata) || fresh(mddata)
      ensures mdctx == old(mdctx) || mdctx == null
    {
      for i := 0 to |calls|
        invariant Valid() && View() == Run(lib, old(View()), calls[..i])
        invariant sig.Standing() == old(sig.Standing()) && Conserved() && Kept()
        invariant aid == old(aid) || fresh(aid)
        invariant mddata == old(mddata) || fresh(mddata)
        invariant mdctx == old(mdctx) || mdctx == null
      {
        assert calls[i] in calls;
        assert calls[..i + 1][..i] == calls[..i];
        Perform(calls[i], signature, cseed, pseed);
      }
      assert calls[..|calls|] == calls;
    }
  }

  /** `OPENSSL_memdup` of an optional buffer. */
  method DupBuffer(buf: array?<Byte>) returns (r: array?<Byte>)
    ensures Contents(r) == Contents(buf)
    ensures r != null ==> fresh(r) && buf != null && r.Length == buf.Length
  {
    if buf == null {
      return null;
    }
    r := NewBuffer(buf[..]);
  }

  /** `EVP_MD_CTX_copy_ex` of an optional digest context. */
  method DupMdCtx(m: MdCtx?) returns (r: MdCtx?)
    ensures Progress(r) == Progress(m)
    ensures r != null ==> fresh(r)
  {
    if m == null {
      return null;
    }
    r := m.Copy();
  }

  predicate HasHalf(priv: bool, pub: bool, op: Operation) {
    (op.SignOperation? ==> priv) && (op.VerifyOperation? ==> pub)
  }

  /** Signing and verifying in pieces, on the heap, from key generation on: whatever the chunks, with size queries
      in between, the signature is the one of the whole message, or of its digest when one is named, and a
      verifier fed the same message in other chunks accepts it. */
  method SignThenVerifyInPieces(lib: Library, alg: Algorithm, cseed: Seed, pseed: Seed, ghost s: KeyState,
                                name: Option<string>, calls: seq<Call>, others: seq<Call>, csig: Seed, psig: Seed)
    returns (signed: bool, accepted: bool)
    requires alg.Valid() && (alg.keytype.PlainSig? || alg.keytype.HybSig?) && alg.pq.SignatureLaw()
    requires alg.Hybrid() ==> alg.classical.value.CodecLaws() && alg.classical.value.SignatureLaw()
    requires Generated(alg, Blank(alg), cseed, pseed) == Some(s)
    requires Collecting(calls) && Collecting(others) && Chunks(calls) == Chunks(others)
    requires name.Some? ==> lib.fetch(name.value)
    ensures SigKey(alg, s)
    ensures signed <==> Signed(alg, s, Digested(lib, name, Chunks(calls)), csig, psig).Some?
    ensures accepted <==> signed
  {
    SignThenVerify(alg, cseed, pseed, s, s, Digested(lib, name, Chunks(calls)), csig, psig);
    var key := GeneratedKeyPair(alg, cseed, pseed, s);
    var out, outlen;
    signed, out, outlen := SignInPieces(lib, key, s, name, calls, csig, psig);
    accepted := false;
    if signed {
      accepted := VerifyInPieces(lib, key, s, name, others, out[..outlen]);
    }
  }

  /** What ends up signed: the data, or its digest when one is named. */
  function Digested(lib: Library, name: Option<string>, data: seq<Byte>): seq<Byte> {
    if name.Some? then lib.digest(name.value, data) else data
  }

  /** A new context, one initialisation. */
  method Opened(lib: Library, key: OqsxKey, ghost s: KeyState, name: Option<string>, op: Operation)
    returns (ctx: SigCtx)
    requires key.Valid() && key.State() == s && key.references >= 1 && !key.freed
    requires (op.SignOperation? && s.priv.Some?) || (op.VerifyOperation? && s.pub.Some?)
    modifies key`references
    ensures key.Valid() && key.State() == s && key.references >= 1 && !key.freed
    ensures fresh(ctx) && ctx.Valid() && ctx.sig == key && ctx.lib == lib
    ensures (ctx.aid != null ==> fresh(ctx.aid)) && ctx.mddata == null && (ctx.mdctx != null ==> fresh(ctx.mdctx))
    ensures ctx.View() == Next(lib, FRESH, Init(name, key.alg.tlsName, true, op)) && ctx.Conserved()
  {
    ctx := new SigCtx(lib, None);
    var ok := ctx.DigestInit(name, key, op);
  }

  /** And the pieces. */
  method Fed(lib: Library, key: OqsxKey, ghost s: KeyState, name: Option<string>, op: Operation, calls: seq<Call>,
             signature: seq<Byte>)
    returns (ctx: SigCtx)
    requires key.Valid() && key.State() == s && SigKey(key.alg, s) && key.references >= 1 && !key.freed
    requires (op.SignOperation? && s.priv.Some?) || (op.VerifyOperation? && s.pub.Some?)
    requires key.alg.Hybrid() ==> HeaderInBuffer(signature)
    requires Collecting(calls) && (name.Some? ==> lib.fetch(name.value))
    modifies key`references
    ensures key.State() == s && key.references >= 1 && !key.freed
    ensures fresh(ctx) && ctx.Usable(signature) && ctx.sig == key && ctx.lib == lib
    ensures (ctx.aid != null ==> fresh(ctx.aid)) && (ctx.mddata != null ==> fresh(ctx.mddata))
    ensures ctx.mdctx != null ==> fresh(ctx.mdctx)
    ensures Message(lib, ctx.View()) == Digested(lib, name, Chunks(calls)) && Succeeds(lib, ctx.View(), SignFinal)
  {
    StreamingEqualsOneShot(lib, FRESH, Init(name, key.alg.tlsName, true, op), calls);
    ctx := Opened(lib, key, s, name, op);
    ctx.Replay(calls, signature, 0, 0);
  }

  method SignInPieces(lib: Library, key: OqsxKey, ghost s: KeyState, name: Option<string>, calls: seq<Call>,
                      cseed: Seed, pseed: Seed)
    returns (ok: bool, out: array<Byte>, outlen: nat)
    requires key.Valid() && key.State() == s && SigKey(key.alg, s) && s.priv.Some? && key.references >= 1 && !key.freed
    requires Collecting(calls) && (name.Some? ==> lib.fetch(name.value))
    modifies key`references
    ensures key.Valid() && key.State() == s && key.references >= 1 && !key.freed
    ensures var signed := Signed(key.alg, s, Digested(lib, name, Chunks(calls)), cseed, pseed);
            && (ok <==> signed.Some?)
            && (ok ==> outlen <= out.Length && out[..outlen] == signed.value)
  {
    var ctx := Fed(lib, key, s, name, SignOperation, calls, Zeros(SIZE_OF_UINT32));
    ok, out, outlen := ctx.DigestSignNew(cseed, pseed);
  }

  method VerifyInPieces(lib: Library, key: OqsxKey, ghost s: KeyState, name: Option<string>, calls: seq<Call>,
                        signature: seq<Byte>)
    returns (ok: bool)
    requires key.Valid() && key.State() == s && SigKey(key.alg, s) && s.pub.Some? && key.references >= 1 && !key.freed
    requires key.alg.Hybrid() ==> HeaderInBuffer(signature)
    requires Collecting(calls) && (name.Some? ==> lib.fetch(name.value))
    modifies key`references
    ensures key.Valid() && key.State() == s && key.references >= 1 && !key.freed
    ensures ok == Verified(key.alg, s, signature, Digested(lib, name, Chunks(calls)))
  {
    var ctx := Fed(lib, key, s, name, VerifyOperation, calls, signature);
    ok := ctx.DigestVerifyFinal(signature);
  }
}
