/** The key object: two heap buffers, pointers into them, a classical key, a reference count. Each method is
    proved against the state function of KeyLayout that says what it leaves. */
module Keys {
  import opened Options
  import opened Bytes
  import opened Schemes
  import opened KeyLayout
  import opened KeySteps
  import opened Pkcs8
  import opened KeyTransfer

  /** A C pointer into key material: NULL, never set, or an address in some buffer, live or freed. */
  datatype Pointer = Null | Unset | At(buf: array<Byte>, off: int)

  function SlotsOf(comp: seq<Pointer>, buf: array?<Byte>): seq<Slot> {
    seq(|comp|, i requires 0 <= i < |comp| =>
      match comp[i]
      case Null => NullSlot
      case Unset => Dangling
      case At(b, off) => if b == buf then Offset(off) else Dangling)
  }

  /** What a buffer pointer points at. */
  function Contents(buf: array?<Byte>): Option<seq<Byte>>
    reads buf
  {
    if buf == null then None else Some(buf[..])
  }

  /** A newly allocated copy. */
  method NewBuffer(data: seq<Byte>) returns (buf: array<Byte>)
    ensures fresh(buf) && buf[..] == data
  {
    buf := new Byte[|data|](i requires 0 <= i < |data| => data[i]);
  }

  /** A slot that is an offset is a pointer into the buffer. */
  lemma SlotIsPointer(comp: seq<Pointer>, buf: array?<Byte>, i: nat)
    requires i < |comp| && SlotsOf(comp, buf)[i].Offset?
    ensures buf != null && comp[i] == At(buf, SlotsOf(comp, buf)[i].at)
  {
  }

  /** What becomes of pointers when the buffer they point into goes. */
  lemma PointersLeftBehind(comp: seq<Pointer>, buf: array?<Byte>)
    ensures var s := SlotsOf(comp, buf);
            SlotsOf(comp, null) == seq(|s|, i requires 0 <= i < |s| => if s[i].Offset? then Dangling else s[i])
  {
  }

  lemma TailReplaced(s: seq<Byte>, at: nat, data: seq<Byte>)
    requires at + |data| == |s|
    ensures Splice(s, at, data) == s[..at] + data
  {
  }

  class OqsxKey {
    const alg: Algorithm
    const numkeys: nat
    const privkeylen: nat
    const pubkeylen: nat
    var privkey: array?<Byte>
    var pubkey: array?<Byte>
    var compPrivkey: seq<Pointer>
    var compPubkey: seq<Pointer>
    var classicalPkey: Option<EvpPkey>
    var references: int
    var freed: bool

    ghost predicate Valid()
      reads this`privkey, this`pubkey, this`compPrivkey, this`compPubkey
    {
      && alg.Valid()
      && numkeys == alg.NumKeys() && privkeylen == alg.PrivLen() && pubkeylen == alg.PubLen()
      && |compPrivkey| == |compPubkey| == numkeys
      && (privkey != null ==> privkey.Length == privkeylen)
      && (pubkey != null ==> pubkey.Length == pubkeylen)
      && (privkey != null ==> privkey != pubkey)
    }

    ghost function State(): (s: KeyState)
      reads this`privkey, this`pubkey, this`compPrivkey, this`compPubkey, this`classicalPkey, privkey, pubkey
    {
      KeyState(
        if privkey == null then None else Some(privkey[..]),
        if pubkey == null then None else Some(pubkey[..]),
        SlotsOf(compPrivkey, privkey), SlotsOf(compPubkey, pubkey), classicalPkey)
    }

    /** The state of a key that is whole and has not been torn down. */
    ghost function Standing(): (s: Option<KeyState>)
      reads this`privkey, this`pubkey, this`compPrivkey, this`compPubkey, this`classicalPkey, this`freed
      reads privkey, pubkey
    {
      if Valid() && !freed then Some(State()) else None
    }

    /** The objects this key's operations may write. */
    ghost function Footprint(): set<object>
      reads this
    {
      {this} + (if privkey == null then {} else {privkey}) + (if pubkey == null then {} else {pubkey})
    }

    /** `oqsx_key_new`. */
    constructor (alg: Algorithm)
      requires alg.Valid()
      ensures Valid() && State() == Blank(alg) && this.alg == alg
      ensures Footprint() == {this} && references == 1 && !freed
    {
      this.alg := alg;
      numkeys := if alg.Hybrid() then 2 else 1;
      privkeylen := if alg.Hybrid() then SIZE_OF_UINT32 + alg.pq.lenPriv + alg.classical.value.lenPriv
                    else alg.pq.lenPriv;
      pubkeylen := if alg.Hybrid() then SIZE_OF_UINT32 + alg.pq.lenPub + alg.classical.value.lenPub else alg.pq.lenPub;
      privkey, pubkey := null, null;
      compPrivkey := seq(alg.NumKeys(), _ => Unset);
      compPubkey := seq(alg.NumKeys(), _ => Unset);
      classicalPkey := None;
      references := 1;
      freed := false;
      new;
      assert State().compPriv == Blank(alg).compPriv;
    }

    /** `oqsx_key_set_composites`. */
    method SetComposites()
      requires Valid()
      modifies this`compPrivkey, this`compPubkey
      ensures Valid() && State() == WithComposites(alg, old(State()))
    {
      if numkeys == 1 {
        compPrivkey := [if privkey == null then Null else At(privkey, 0)];
        compPubkey := [if pubkey == null then Null else At(pubkey, 0)];
      } else {
        if privkey != null {
          var classicPrivkeyLen := AsInt(DecodeUint32(privkey[..]));
          compPrivkey := [At(privkey, SIZE_OF_UINT32), At(privkey, classicPrivkeyLen + SIZE_OF_UINT32)];
        } else {
          compPrivkey := [Null, Null];
        }
        if pubkey != null {
          var classicPubkeyLen := AsInt(DecodeUint32(pubkey[..]));
          compPubkey := [At(pubkey, SIZE_OF_UINT32), At(pubkey, classicPubkeyLen + SIZE_OF_UINT32)];
        } else {
          compPubkey := [Null, Null];
        }
      }
      assert State().compPriv == Slots(alg, State().priv);
      assert State().compPub == Slots(alg, State().pub);
    }

    /** `oqsx_key_allocate_keymaterial`; 0 is success. */
    method AllocateKeymaterial(includePrivate: bool) returns (ret: int)
      requires Valid()
      modifies this`privkey, this`pubkey
      ensures Valid() && ret == 0 && State() == Allocated(alg, old(State()), includePrivate)
      ensures if old(privkey) == null && includePrivate then fresh(privkey) else privkey == old(privkey)
      ensures if old(pubkey) == null && !includePrivate then fresh(pubkey) else pubkey == old(pubkey)
    {
      ret := 0;
      if privkey == null && includePrivate {
        privkey := new Byte[privkeylen](_ => 0);
        assert privkey[..] == Zeros(privkeylen);
      }
      if pubkey == null && !includePrivate {
        pubkey := new Byte[pubkeylen](_ => 0);
        assert pubkey[..] == Zeros(pubkeylen);
      }
      assert State().compPriv == old(State()).compPriv;
      assert State().compPub == old(State()).compPub;
    }

    /** Both allocations, where key generation and the private decoder do them together. */
    method AllocateBoth() returns (ret: int)
      requires Valid()
      modifies this`privkey, this`pubkey
      ensures Valid() && ret == 0 && privkey != null && pubkey != null
      ensures State() == Allocated(alg, Allocated(alg, old(State()), false), true)
      ensures privkey == old(privkey) || (fresh(privkey) && privkey[..] == Zeros(privkeylen))
      ensures pubkey == old(pubkey) || (fresh(pubkey) && pubkey[..] == Zeros(pubkeylen))
    {
      ret := AllocateKeymaterial(false);
      if ret == 0 {
        ret := AllocateKeymaterial(true);
      }
    }

    /** `oqsx_key_gen_evp_key`: writes the classical encodings and their lengths. A failure part way leaves
        what was already written. */
    method GenEvpKey(seed: Seed) returns (pkey: Option<EvpPkey>)
      requires Valid() && alg.Hybrid() && privkey != null && pubkey != null
      modifies privkey, pubkey
      ensures var c := alg.classical.value; var k := ClassicalGen(c, seed);
              if k.None? then pkey.None? else
              && pkey == Some(EvpPkey(c.publicOf(k.value), k))
              && SIZE_OF_UINT32 + |c.encodePriv(k.value)| <= privkeylen
              && SIZE_OF_UINT32 + |c.encodePub(c.publicOf(k.value))| <= pubkeylen
              && privkey[..] == Prefixed(c.encodePriv(k.value), old(privkey[..]))
              && pubkey[..] == Prefixed(c.encodePub(c.publicOf(k.value)), old(pubkey[..]))
      ensures var c := alg.classical.value;
              var k := c.keygen(seed);
              pkey.Some? <==>
                && k.Some?
                && var pub, priv := |c.encodePub(c.publicOf(k.value))|, |c.encodePriv(k.value)|;
                   if c.raw then pub == c.lenPub && priv == c.lenPriv
                   else pub <= c.lenPub && priv <= c.lenPriv && c.decodePriv(c.encodePriv(k.value)).Some?
    {
      pkey := None;
      var c := alg.classical.value;
      var drawn := c.keygen(seed);
      if drawn.None? {
        return;
      }
      var k := drawn.value;
      var pub := c.encodePub(c.publicOf(k));
      var priv := c.encodePriv(k);
      if c.raw {
        if |pub| != c.lenPub {
          return;
        }
        Memcpy(pubkey, SIZE_OF_UINT32, pub);
        if |priv| > c.lenPriv {  // the raw export refuses to exceed the room it is told of
          return;
        }
        Memcpy(privkey, SIZE_OF_UINT32, priv);
        if |priv| != c.lenPriv {
          return;
        }
      } else {
        Memcpy(pubkey, SIZE_OF_UINT32, pub);
        if |pub| > c.lenPub {
          return;
        }
        Memcpy(privkey, SIZE_OF_UINT32, priv);
        if |priv| > c.lenPriv {
          return;
        }
        if c.decodePriv(privkey[SIZE_OF_UINT32..SIZE_OF_UINT32 + |priv|]).None? {  // selftest
          return;
        }
      }
      StoreUint32(pubkey, |pub|);
      StoreUint32(privkey, |priv|);
      PrefixedBySplices(pub, old(pubkey[..]));
      PrefixedBySplices(priv, old(privkey[..]));
      pkey := Some(EvpPkey(c.publicOf(k), Some(k)));
    }

    /** `oqsx_key_gen_oqs`: the PQ key pair goes where the last component pointers point. */
    method GenOqs(seed: Seed) returns (ret: int)
      requires Valid() && privkey != null && pubkey != null
      requires var p := compPrivkey[numkeys - 1]; p.At? && p.buf == privkey && 0 <= p.off <= privkeylen - alg.pq.lenPriv
      requires var p := compPubkey[numkeys - 1]; p.At? && p.buf == pubkey && 0 <= p.off <= pubkeylen - alg.pq.lenPub
      modifies privkey, pubkey
      ensures ret == 0 <==> alg.pq.keypair(seed).Some?
      ensures ret == 0 ==>
                && privkey[..] == Splice(old(privkey[..]), compPrivkey[numkeys - 1].off, alg.pq.keypair(seed).value.1)
                && pubkey[..] == Splice(old(pubkey[..]), compPubkey[numkeys - 1].off, alg.pq.keypair(seed).value.0)
    {
      match alg.pq.keypair(seed)
      case None =>
        ret := -1;
      case Some((pk, sk)) =>
        Memcpy(pubkey, compPubkey[numkeys - 1].off, pk);
        Memcpy(privkey, compPrivkey[numkeys - 1].off, sk);
        ret := 0;
    }

    /** `oqsx_key_gen` of a plain key, its buffers allocated. */
    method GenPlain(pseed: Seed) returns (ret: int)
      requires Valid() && privkey != null && pubkey != null && !alg.Hybrid()
      modifies this`compPrivkey, this`compPubkey, privkey, pubkey
      ensures Valid()
      ensures ret == 0 <==> Generated(alg, old(State()), 0, pseed).Some?
      ensures ret == 0 ==> Generated(alg, old(State()), 0, pseed) == Some(State())
    {
      SetComposites();
      SlotIsPointer(compPrivkey, privkey, 0);
      SlotIsPointer(compPubkey, pubkey, 0);
      ret := GenOqs(pseed);
      if ret == 0 {
        assert privkey[..] == alg.pq.keypair(pseed).value.1;
        assert pubkey[..] == alg.pq.keypair(pseed).value.0;
      }
    }

    /** `oqsx_key_gen` of a hybrid key, its buffers allocated. */
    method GenHybrid(cseed: Seed, pseed: Seed) returns (ret: int)
      requires Valid() && privkey != null && pubkey != null && alg.Hybrid()
      modifies this`compPrivkey, this`compPubkey, this`classicalPkey, privkey, pubkey
      ensures Valid()
      ensures Generated(alg, old(State()), cseed, pseed).Some? ==>
                ret == 0 && Generated(alg, old(State()), cseed, pseed) == Some(State())
      ensures ret == 0 <==> Generated(alg, old(State()), cseed, pseed).Some? || ClassicalHalfFails(cseed)
      ensures ClassicalHalfFails(cseed) ==>
                classicalPkey == old(classicalPkey) && compPrivkey == old(compPrivkey) && compPubkey == old(compPubkey)
    {
      ret := 0;
      ghost var priv, pub := privkey[..], pubkey[..];
      var pkey := GenEvpKey(cseed);
      if pkey == None {
        return;
      }
      ghost var cpriv := alg.classical.value.encodePriv(pkey.value.scalar.value);
      ghost var cpub := alg.classical.value.encodePub(pkey.value.point);
      PrefixedHeader(cpriv, priv);
      PrefixedHeader(cpub, pub);
      SetComposites();
      SlotIsPointer(compPrivkey, privkey, 1);
      SlotIsPointer(compPubkey, pubkey, 1);
      classicalPkey := pkey;
      ret := GenOqs(pseed);
      if ret == 0 {
        FillByParts(priv, cpriv, alg.pq.keypair(pseed).value.1);
        FillByParts(pub, cpub, alg.pq.keypair(pseed).value.0);
        assert privkey[..] == Fill(Some(priv), privkeylen, true, cpriv, alg.pq.keypair(pseed).value.1);
        assert pubkey[..] == Fill(Some(pub), pubkeylen, true, cpub, alg.pq.keypair(pseed).value.0);
        FilledHeader(Some(priv), privkeylen, cpriv, alg.pq.keypair(pseed).value.1);
        FilledHeader(Some(pub), pubkeylen, cpub, alg.pq.keypair(pseed).value.0);
      }
    }

    /** `oqsx_key_gen`; 0 is success. It is also 0 when classical key generation fails, and then the key has
        neither component pointers nor a classical key. */
    method Gen(cseed: Seed, pseed: Seed) returns (ret: int)
      requires Valid()
      modifies this`privkey, this`pubkey, this`compPrivkey, this`compPubkey, this`classicalPkey, privkey, pubkey
      ensures Valid()
      ensures privkey == old(privkey) || fresh(privkey)
      ensures pubkey == old(pubkey) || fresh(pubkey)
      ensures Generated(alg, old(State()), cseed, pseed).Some? ==>
                ret == 0 && Generated(alg, old(State()), cseed, pseed) == Some(State())
      ensures ret == 0 <==> Generated(alg, old(State()), cseed, pseed).Some? || ClassicalHalfFails(cseed)
      ensures ClassicalHalfFails(cseed) ==>
                classicalPkey == old(classicalPkey) && compPrivkey == old(compPrivkey) && compPubkey == old(compPubkey)
      ensures ret != 0 ==> classicalPkey == None
      ensures alg.Hybrid() && alg.pq.keypair(pseed).Some? ==>
                var c := alg.classical.value;
                var k := c.keygen(cseed);
                var passes :=
                  && k.Some?
                  && var pub, priv := |c.encodePub(c.publicOf(k.value))|, |c.encodePriv(k.value)|;
                     if c.raw then pub == c.lenPub && priv == c.lenPriv
                     else pub <= c.lenPub && priv <= c.lenPriv && c.decodePriv(c.encodePriv(k.value)).Some?;
                && ret == 0
                && classicalPkey == if passes then Some(EvpPkey(c.publicOf(k.value), k)) else old(classicalPkey)
    {
      ret := 0;
      if privkey == null || pubkey == null {
        ret := AllocateBoth();
      }
      AllocationFirst(alg, old(State()), cseed, pseed);
      if alg.Hybrid() {
        ret := GenHybrid(cseed, pseed);
      } else {
        ret := GenPlain(pseed);
      }
      if ret != 0 {
        classicalPkey := None;
      }
    }

    /** The component pointers `oqsx_key_recreate_classickey` follows are those just set, and the header it
        reads stays inside its buffer. */
    ghost predicate Recreatable(private: bool)
      requires Valid()
      reads this, privkey, pubkey
    {
      alg.Hybrid() ==>
        && compPubkey[0] == (if pubkey == null then Null else At(pubkey, SIZE_OF_UINT32))
        && (if private then
              privkey != null && HeaderInBuffer(privkey[..]) && compPrivkey[0] == At(privkey, SIZE_OF_UINT32)
            else
              pubkey != null && HeaderInBuffer(pubkey[..]))
    }

    /** `oqsx_key_recreate_classickey`. */
    method RecreateClassickey(private: bool) returns (ok: bool)
      requires Valid() && Recreatable(private)
      modifies this`classicalPkey, pubkey
      ensures Valid()
      ensures ok <==> Rebuilt(alg, old(State()), private).Some?
      ensures ok ==> Rebuilt(alg, old(State()), private) == Some(State())
    {
      if numkeys != 2 {
        return true;
      }
      var c := alg.classical.value;
      if !private {
        var classicalPubkeyLen := AsInt(DecodeUint32(pubkey[..]));
        var encPubkey := compPubkey[0];
        var p := c.decodePub(encPubkey.buf[encPubkey.off..encPubkey.off + classicalPubkeyLen]);
        if p.None? {
          classicalPkey := None;
          return false;
        }
        classicalPkey := Some(EvpPkey(p.value, None));
        return true;
      }
      var classicalPrivkeyLen := AsInt(DecodeUint32(privkey[..]));
      var encPrivkey, encPubkey := compPrivkey[0], compPubkey[0];
      var k := c.decodePriv(encPrivkey.buf[encPrivkey.off..encPrivkey.off + classicalPrivkeyLen]);
      if k.None? {
        classicalPkey := None;
        return false;
      }
      classicalPkey := Some(EvpPkey(c.publicOf(k.value), k));
      var enc := c.encodePub(c.publicOf(k.value));
      if c.raw && |enc| != c.lenPub {
        return false;
      }
      if encPubkey.At? {  // with no public buffer the encoder is given NULL and writes nothing here
        Memcpy(pubkey, encPubkey.off, enc);
      }
      return |enc| == c.lenPub;
    }

    /** `oqsx_key_fromdata`. */
    method FromData(priv: Option<seq<Byte>>, pub: Option<seq<Byte>>) returns (ok: bool)
      requires Valid() && ImportReadable(alg, State(), priv, pub)
      modifies this`privkey, this`pubkey, this`compPrivkey, this`compPubkey, this`classicalPkey, pubkey
      ensures Valid()
      ensures privkey == old(privkey) || fresh(privkey)
      ensures pubkey == old(pubkey) || fresh(pubkey)
      ensures ok <==> Imported(alg, old(State()), priv, pub).Some?
      ensures ok ==> Imported(alg, old(State()), priv, pub) == Some(State())
    {
      if priv.None? && pub.None? {
        return false;
      }
      if priv.Some? {
        if privkeylen != |priv.value| {
          return false;
        }
        privkey := NewBuffer(priv.value);
      }
      if pub.Some? {
        if pubkeylen != |pub.value| {
          return false;
        }
        pubkey := NewBuffer(pub.value);
      }
      ghost var loaded := Loaded(old(State()), priv, pub);
      assert State().priv == loaded.priv && State().pub == loaded.pub;
      SetComposites();
      assert State() == WithComposites(alg, loaded);
      PublicPointers();
      PrivatePointers();
      ok := RecreateClassickey(privkey != null);
    }

    /** `oqsx_import`. */
    method Import(selection: Selection, priv: Option<seq<Byte>>, pub: Option<seq<Byte>>) returns (ok: bool)
      requires Valid() && (selection.domain || selection.other ==> ImportReadable(alg, State(), priv, pub))
      modifies this`privkey, this`pubkey, this`compPrivkey, this`compPubkey, this`classicalPkey, pubkey
      ensures Valid()
      ensures privkey == old(privkey) || fresh(privkey)
      ensures pubkey == old(pubkey) || fresh(pubkey)
      ensures ok <==> (selection.domain || selection.other) && Imported(alg, old(State()), priv, pub).Some?
      ensures ok ==> Imported(alg, old(State()), priv, pub) == Some(State())
      ensures !selection.domain && !selection.other ==> State() == old(State())
    {
      ok := false;
      if selection.Parameters() {
        ok := FromData(priv, pub);
      }
    }

    /** `oqsx_export`: what the callback is given. */
    method Export(selection: Selection) returns (priv: Option<seq<Byte>>, pub: Option<seq<Byte>>)
      requires Valid()
      ensures (priv, pub) == Exported(State(), selection)
    {
      priv, pub := None, None;
      if selection.private || selection.public {
        if pubkey != null {
          pub := Some(pubkey[..]);
        }
        if privkey != null && selection.private {
          priv := Some(privkey[..]);
        }
      }
    }

    /** Public component pointers that agree with the state: past the header, and past the classical bytes. */
    lemma PublicPointers()
      requires Valid() && State().compPub == Slots(alg, State().pub)
      ensures alg.Hybrid() ==> compPubkey[0] == (if pubkey == null then Null else At(pubkey, SIZE_OF_UINT32))
      ensures pubkey != null ==>
                compPubkey[numkeys - 1]
                  == At(pubkey, if alg.Hybrid() then AsInt(DecodeUint32(pubkey[..])) + SIZE_OF_UINT32 else 0)
    {
      assert State().compPub[0] == SlotsOf(compPubkey, pubkey)[0];
      assert State().compPub[numkeys - 1] == SlotsOf(compPubkey, pubkey)[numkeys - 1];
    }

    lemma PrivatePointers()
      requires Valid() && State().compPriv == Slots(alg, State().priv)
      ensures alg.Hybrid() ==> compPrivkey[0] == (if privkey == null then Null else At(privkey, SIZE_OF_UINT32))
      ensures privkey != null ==>
                compPrivkey[numkeys - 1]
                  == At(privkey, if alg.Hybrid() then AsInt(DecodeUint32(privkey[..])) + SIZE_OF_UINT32 else 0)
    {
      assert State().compPriv[0] == SlotsOf(compPrivkey, privkey)[0];
      assert State().compPriv[numkeys - 1] == SlotsOf(compPrivkey, privkey)[numkeys - 1];
    }

    /** `oqsx_get_params` for the encoded public key; a plain or signature key without one has none to give. */
    method GetEncodedPublic() returns (data: Option<seq<Byte>>)
      requires Valid() && (alg.HybridKem() ==> pubkey != null)
      ensures data == if pubkey == null then None else Some(EncodedPublic(alg, State().pub.value))
    {
      if alg.HybridKem() {
        assert pubkey[SIZE_OF_UINT32..pubkeylen] == pubkey[..][SIZE_OF_UINT32..];
        return Some(pubkey[SIZE_OF_UINT32..pubkeylen]);
      }
      return if pubkey == null then None else Some(pubkey[..]);
    }

    /** `oqsx_set_params` for the encoded public key. */
    method SetEncodedPublic(data: seq<Byte>) returns (ok: bool)
      requires Valid()
      requires alg.HybridKem() ==>
               compPubkey[0] == Null || (pubkey != null && compPubkey[0] == At(pubkey, SIZE_OF_UINT32))
      modifies this`privkey, this`pubkey, this`compPubkey, pubkey
      ensures Valid()
      ensures pubkey == old(pubkey) || fresh(pubkey)
      ensures Replaceable(alg, old(State()))
      ensures ok <==> PublicReplaced(alg, old(State()), data).Some?
      ensures ok ==> PublicReplaced(alg, old(State()), data) == Some(State())
      ensures if ok then privkey == null else privkey == old(privkey)
      ensures !ok ==> State() == old(State())
    {
      if |data| != pubkeylen - (if alg.HybridKem() then SIZE_OF_UINT32 else 0) {
        return false;
      }
      if alg.HybridKem() {
        WriteEncodedPublic(data);
      } else if pubkey == null {
        pubkey := NewBuffer(data);
      } else {
        Memcpy(pubkey, 0, data);
        TailReplaced(old(pubkey[..]), 0, data);
      }
      PointersLeftBehind(compPrivkey, privkey);
      privkey := null;
      ghost var r := PublicReplaced(alg, old(State()), data).value;
      assert State().pub == r.pub;
      assert State().compPriv == r.compPriv;
      assert State().compPub == r.compPub;
      return true;
    }

    /** The write through the first component pointer of a hybrid KEM key. */
    method WriteEncodedPublic(data: seq<Byte>)
      requires Valid() && alg.HybridKem() && |data| == pubkeylen - SIZE_OF_UINT32
      requires compPubkey[0] == Null || (pubkey != null && compPubkey[0] == At(pubkey, SIZE_OF_UINT32))
      modifies this`compPubkey, pubkey
      ensures Valid()
      ensures if old(compPubkey)[0] == Null then
                old(State()).compPub[0] == NullSlot
                && State() == old(State()).(compPub := old(State()).compPub[0 := Dangling])
              else
                old(State()).compPub[0] == Offset(SIZE_OF_UINT32)
                && State() == old(State()).(pub := Some(old(State()).pub.value[..SIZE_OF_UINT32] + data))
    {
      if compPubkey[0] == Null {
        var buf := NewBuffer(data);
        compPubkey := compPubkey[0 := At(buf, 0)];
        assert State().compPub == old(State()).compPub[0 := Dangling];
      } else {
        Memcpy(pubkey, compPubkey[0].off, data);
        TailReplaced(old(pubkey[..]), SIZE_OF_UINT32, data);
      }
    }

    /** `oqsx_key_up_ref`. */
    method UpRef() returns (ok: bool)
      modifies this`references
      ensures references == old(references) + 1 && (ok <==> references > 1)
    {
      references := references + 1;
      return references > 1;
    }

    /** Classical key generation fails, or its encodings do not pass the checks. */
    predicate ClassicalHalfFails(cseed: Seed)
      requires alg.Hybrid() ==> alg.classical.Some?
    {
      alg.Hybrid() && ClassicalGen(alg.classical.value, cseed).None?
    }
  }

  /** `buf` with `classical` at its start, behind a header with its length. */
  function Prefixed(classical: seq<Byte>, buf: seq<Byte>): (r: seq<Byte>)
    requires SIZE_OF_UINT32 + |classical| <= |buf|
    ensures |r| == |buf|
  {
    EncodeUint32(|classical|) + classical + buf[SIZE_OF_UINT32 + |classical|..]
  }

  /** Writing the classical bytes first and the header after them. */
  lemma PrefixedBySplices(classical: seq<Byte>, buf: seq<Byte>)
    requires SIZE_OF_UINT32 + |classical| <= |buf|
    ensures Splice(Splice(buf, SIZE_OF_UINT32, classical), 0, EncodeUint32(|classical|)) == Prefixed(classical, buf)
  {
  }

  lemma PrefixedHeader(classical: seq<Byte>, buf: seq<Byte>)
    requires SIZE_OF_UINT32 + |classical| <= |buf| < TWO_TO_THE_32
    ensures DecodeUint32(Prefixed(classical, buf)) == |classical|
  {
    HeaderReadsBack(|classical|, classical + buf[SIZE_OF_UINT32 + |classical|..]);
    assert Prefixed(classical, buf) == EncodeUint32(|classical|) + (classical + buf[SIZE_OF_UINT32 + |classical|..]);
  }

  lemma FilledHeader(buf: Option<seq<Byte>>, size: nat, classical: seq<Byte>, pq: seq<Byte>)
    requires buf.Some? ==> |buf.value| == size
    requires SIZE_OF_UINT32 + |classical| + |pq| <= size < TWO_TO_THE_32
    ensures DecodeUint32(Fill(buf, size, true, classical, pq)) == |classical|
  {
    var base := if buf.Some? then buf.value else Zeros(size);
    PackedParts(classical, pq, base[SIZE_OF_UINT32 + |classical| + |pq|..]);
  }

  /** Allocating the missing buffers first makes no difference to what is generated. */
  lemma AllocationFirst(alg: Algorithm, s: KeyState, cseed: Seed, pseed: Seed)
    requires Shaped(alg, s)
    ensures var t := Allocated(alg, Allocated(alg, s, false), true);
            Shaped(alg, t) && Generated(alg, t, cseed, pseed) == Generated(alg, s, cseed, pseed)
            && (!alg.Hybrid() ==> Generated(alg, s, 0, pseed) == Generated(alg, s, cseed, pseed))
  {
  }

  lemma FillByParts(buf: seq<Byte>, classical: seq<Byte>, pq: seq<Byte>)
    requires SIZE_OF_UINT32 + |classical| + |pq| <= |buf|
    ensures Splice(Prefixed(classical, buf), SIZE_OF_UINT32 + |classical|, pq)
         == Fill(Some(buf), |buf|, true, classical, pq)
  {
  }

  /** `oqsx_genkey`. It returns NULL exactly when the classical half succeeds, if there is one, and the PQ half
      fails; the key it made is then left with its one reference and nobody to release it. */
  method NewKeyPair(alg: Algorithm, cseed: Seed, pseed: Seed) returns (key: OqsxKey?, ghost made: OqsxKey)
    requires alg.Valid()
    ensures made.Valid() && made.alg == alg && fresh(made.Footprint()) && made.references == 1 && !made.freed
    ensures key == null <==>
            alg.pq.keypair(pseed).None? && (alg.Hybrid() ==> ClassicalGen(alg.classical.value, cseed).Some?)
    ensures key != null ==> key == made
    ensures Generated(alg, Blank(alg), cseed, pseed).Some? ==>
            Generated(alg, Blank(alg), cseed, pseed) == Some(made.State())
    ensures alg.Hybrid() && alg.pq.keypair(pseed).Some? ==>
              var c := alg.classical.value;
              var k := c.keygen(cseed);
              var passes :=
                && k.Some?
                && var pub, priv := |c.encodePub(c.publicOf(k.value))|, |c.encodePriv(k.value)|;
                   if c.raw then pub == c.lenPub && priv == c.lenPriv
                   else pub <= c.lenPub && priv <= c.lenPriv && c.decodePriv(c.encodePriv(k.value)).Some?;
              && key == made
              && made.classicalPkey == if passes then Some(EvpPkey(c.publicOf(k.value), k)) else None
  {
    key := new OqsxKey(alg);
    made := key;
    var ret := key.Gen(cseed, pseed);
    if ret != 0 {
      key := null;
    }
  }

  /** The same when both halves succeed. */
  method GeneratedKeyPair(alg: Algorithm, cseed: Seed, pseed: Seed, ghost s: KeyState) returns (key: OqsxKey)
    requires alg.Valid() && Generated(alg, Blank(alg), cseed, pseed) == Some(s)
    ensures key.Valid() && key.alg == alg && fresh(key.Footprint()) && key.State() == s
    ensures key.references == 1 && !key.freed
  {
    var pair, made := NewKeyPair(alg, cseed, pseed);
    key := pair;
  }

  /** The keys among one. */
  function Just(key: OqsxKey?): set<OqsxKey> {
    if key == null then {} else {key}
  }

  /** A key its next release tears down. */
  function Dying(key: OqsxKey?): set<OqsxKey>
    reads Just(key)
  {
    if key == null || key.references > 1 then {} else {key}
  }

  /** `oqsx_key_free`: the last release tears the key down, any other changes the count only. */
  method KeyFree(key: OqsxKey?)
    modifies Just(key)`references, Dying(key)
    ensures key != null ==>
              && key.references == old(key.references) - 1
              && key.freed == (old(key.freed) || key.references <= 0)
              && (key.references <= 0 ==> key.privkey == null && key.pubkey == null && key.classicalPkey == None)
  {
    if key == null {
      return;
    }
    key.references := key.references - 1;
    if key.references > 0 {
      return;
    }
    key.privkey, key.pubkey, key.classicalPkey := null, null, None;
    key.freed := true;
  }

  /** The decoder's intermediate key, before the classical half is rebuilt in it. */
  ghost function DecodedHalfway(alg: Algorithm, blob: seq<Byte>): KeyState
    requires alg.Valid() && alg.Hybrid() && |blob| >= SIZE_OF_UINT32
    requires DecodeUint32(blob) <= alg.classical.value.lenPriv
    requires |blob| == SIZE_OF_UINT32 + DecodeUint32(blob) + alg.pq.lenPriv + alg.pq.lenPub
  {
    var c := alg.classical.value;
    var m := DecodeUint32(blob);
    var classical, pq := blob[SIZE_OF_UINT32..SIZE_OF_UINT32 + m], blob[SIZE_OF_UINT32 + m..];
    WithComposites(alg, Blank(alg).(
      priv := Some(Pack(classical, pq[..alg.pq.lenPriv], Zeros(c.lenPriv - m))),
      pub := Some(Pack(Zeros(c.lenPub), pq[alg.pq.lenPriv..], []))))
  }

  /** A blob's private prefix copied into a zeroed buffer. */
  lemma TruncatedIsPacked(blob: seq<Byte>, pqLen: nat, size: nat)
    requires |blob| >= SIZE_OF_UINT32 && SIZE_OF_UINT32 + DecodeUint32(blob) + pqLen <= |blob|
    requires SIZE_OF_UINT32 + DecodeUint32(blob) + pqLen <= size
    ensures var m := DecodeUint32(blob); var n := SIZE_OF_UINT32 + m + pqLen;
            Splice(Zeros(size), 0, blob[..n])
              == Pack(blob[SIZE_OF_UINT32..SIZE_OF_UINT32 + m], blob[SIZE_OF_UINT32 + m..][..pqLen], Zeros(size - n))
  {
    var m := DecodeUint32(blob);
    var n := SIZE_OF_UINT32 + m + pqLen;
    HeaderIsUnique(blob);
    assert blob[..n] == blob[..4] + blob[SIZE_OF_UINT32..SIZE_OF_UINT32 + m] + blob[SIZE_OF_UINT32 + m..][..pqLen];
  }

  /** A header and, behind room for the classical part, the PQ bytes copied into a zeroed buffer. */
  lemma SplicedIsPacked(classicalLen: nat, pq: seq<Byte>)
    ensures Splice(Splice(Zeros(SIZE_OF_UINT32 + classicalLen + |pq|), 0, EncodeUint32(classicalLen)),
                   SIZE_OF_UINT32 + classicalLen, pq)
         == Pack(Zeros(classicalLen), pq, [])
  {
  }

  lemma PublicRewritten(old_: seq<Byte>, enc: seq<Byte>, pq: seq<Byte>)
    requires |old_| == |enc| < TWO_TO_THE_32
    ensures Splice(Pack(old_, pq, []), SIZE_OF_UINT32, enc) == Pack(enc, pq, [])
    ensures DecodeUint32(Pack(enc, pq, [])) == DecodeUint32(Pack(old_, pq, []))
  {
    PackedParts(old_, pq, []);
    PackedParts(enc, pq, []);
  }

  lemma HalfwayParts(alg: Algorithm, blob: seq<Byte>)
    requires alg.Valid() && alg.Hybrid() && |blob| >= SIZE_OF_UINT32
    requires DecodeUint32(blob) <= alg.classical.value.lenPriv
    requires |blob| == SIZE_OF_UINT32 + DecodeUint32(blob) + alg.pq.lenPriv + alg.pq.lenPub
    ensures var b := DecodedHalfway(alg, blob).priv.value;
            HeaderInBuffer(b) && ClassicalPart(b) == blob[SIZE_OF_UINT32..SIZE_OF_UINT32 + DecodeUint32(blob)]
    ensures Shaped(alg, DecodedHalfway(alg, blob))
  {
    var m := DecodeUint32(blob);
    PackedParts(blob[SIZE_OF_UINT32..SIZE_OF_UINT32 + m], blob[SIZE_OF_UINT32 + m..][..alg.pq.lenPriv],
                Zeros(alg.classical.value.lenPriv - m));
  }

  lemma HalfwayToDecoded(alg: Algorithm, blob: seq<Byte>)
    requires alg.Valid() && alg.Hybrid() && |blob| >= SIZE_OF_UINT32
    requires DecodeUint32(blob) <= alg.classical.value.lenPriv
    requires |blob| == SIZE_OF_UINT32 + DecodeUint32(blob) + alg.pq.lenPriv + alg.pq.lenPub
    ensures Shaped(alg, DecodedHalfway(alg, blob)) && HeaderInBuffer(DecodedHalfway(alg, blob).priv.value)
    ensures Rebuilt(alg, DecodedHalfway(alg, blob), true) == DecodePrivate(alg, blob)
  {
    var c := alg.classical.value;
    var m := DecodeUint32(blob);
    HalfwayParts(alg, blob);
    match c.decodePriv(blob[SIZE_OF_UINT32..SIZE_OF_UINT32 + m])
    case None =>
    case Some(k) =>
      var enc := c.encodePub(c.publicOf(k));
      if |enc| == c.lenPub {
        PublicRewritten(Zeros(c.lenPub), enc, blob[SIZE_OF_UINT32 + m..][alg.pq.lenPriv..]);
      }
  }

  /** What `oqsx_key_op` takes for granted of its input. */
  ghost predicate KeyOpReadable(alg: Algorithm, p: Option<seq<Byte>>, private: bool) {
    && alg.Valid()
    && (p.Some? ==>
          && |p.value| < TWO_TO_THE_31
          && (if private then alg.Hybrid() ==> |p.value| >= SIZE_OF_UINT32
              else ImportReadable(alg, Blank(alg), None, p)))
  }

  /** `oqsx_key_op`: a key made of a private blob or of a public buffer. */
  method KeyOp(alg: Algorithm, p: Option<seq<Byte>>, private: bool) returns (key: OqsxKey?)
    requires KeyOpReadable(alg, p, private)
    ensures p.None? ==> key == null
    ensures p.Some? ==>
              var r := if private then DecodePrivate(alg, p.value) else Imported(alg, Blank(alg), None, p);
              (key != null <==> r.Some?) && (key != null ==> key.Valid() && key.alg == alg && r == Some(key.State()))
    ensures key != null ==> fresh(key.Footprint()) && key.references == 1 && !key.freed
  {
    if p.None? {
      return null;
    }
    key := new OqsxKey(alg);
    var ok;
    if private {
      ok := DecodePrivateInto(key, p.value);
    } else {
      ok := DecodePublicInto(key, p.value);
    }
    if !ok {
      KeyFree(key);
      key := null;
    }
  }

  /** The public branch. */
  method DecodePublicInto(key: OqsxKey, p: seq<Byte>) returns (ok: bool)
    requires key.Valid() && key.State() == Blank(key.alg) && ImportReadable(key.alg, Blank(key.alg), None, Some(p))
    modifies key`privkey, key`pubkey, key`compPrivkey, key`compPubkey, key`classicalPkey
    ensures key.Valid() && (key.privkey == null) && (key.pubkey != null ==> fresh(key.pubkey))
    ensures ok <==> Imported(key.alg, Blank(key.alg), None, Some(p)).Some?
    ensures ok ==> Imported(key.alg, Blank(key.alg), None, Some(p)) == Some(key.State())
  {
    if key.pubkeylen != |p| {
      return false;
    }
    var ret := key.AllocateKeymaterial(false);
    Memcpy(key.pubkey, 0, p);
    assert key.pubkey[..] == p;
    key.SetComposites();
    key.PublicPointers();
    key.PrivatePointers();
    assert key.State() == WithComposites(key.alg, Loaded(Blank(key.alg), None, Some(p)));
    ok := key.RecreateClassickey(false);
  }

  /** The private branch: how much of the input is private key, then the buffers, then the classical key. */
  method DecodePrivateInto(key: OqsxKey, p: seq<Byte>) returns (ok: bool)
    requires key.Valid() && key.State() == Blank(key.alg) && KeyOpReadable(key.alg, Some(p), true)
    modifies key`privkey, key`pubkey, key`compPrivkey, key`compPubkey, key`classicalPkey
    ensures key.Valid() && (key.privkey != null ==> fresh(key.privkey)) && (key.pubkey != null ==> fresh(key.pubkey))
    ensures ok <==> DecodePrivate(key.alg, p).Some?
    ensures ok ==> DecodePrivate(key.alg, p) == Some(key.State())
  {
    var alg := key.alg;
    var actualPrivkeyLen := key.privkeylen;
    if key.numkeys == 2 {
      LengthsNeverWrap(key.privkeylen, alg.classical.value.lenPriv, DecodeUint32(p));
      var adjusted := DecoderPrivLen(key.privkeylen, alg.classical.value.lenPriv, DecodeUint32(p));
      if adjusted.None? {
        return false;
      }
      actualPrivkeyLen := adjusted.value;
    }
    if AsSize(actualPrivkeyLen + alg.pq.lenPub) != |p| {
      return false;
    }
    if key.numkeys == 2 {
      PopulateHybrid(key, p, actualPrivkeyLen);
      HalfwayToDecoded(alg, p);
    } else {
      PopulatePlain(key, p);
    }
    key.PublicPointers();
    key.PrivatePointers();
    ok := key.RecreateClassickey(true);
  }

  /** The copies into the zeroed buffers of a hybrid key: the private prefix of the blob, and behind the header
      of a classical part of the table's length the PQ public key. The source repeats the length check between
      them; it holds already. */
  method CopyBlob(p: seq<Byte>, actualPrivkeyLen: nat, classicalLen: nat, privkey: array<Byte>, pubkey: array<Byte>)
    requires |p| >= SIZE_OF_UINT32 && SIZE_OF_UINT32 + DecodeUint32(p) <= actualPrivkeyLen <= |p|
    requires actualPrivkeyLen <= privkey.Length
    requires pubkey.Length == SIZE_OF_UINT32 + classicalLen + |p| - actualPrivkeyLen
    requires privkey != pubkey && privkey[..] == Zeros(privkey.Length) && pubkey[..] == Zeros(pubkey.Length)
    modifies privkey, pubkey
    ensures var pq := p[SIZE_OF_UINT32 + DecodeUint32(p)..];
            var pqPrivLen := actualPrivkeyLen - SIZE_OF_UINT32 - DecodeUint32(p);
            && privkey[..] == Pack(p[SIZE_OF_UINT32..SIZE_OF_UINT32 + DecodeUint32(p)], pq[..pqPrivLen],
                                   Zeros(privkey.Length - actualPrivkeyLen))
            && pubkey[..] == Pack(Zeros(classicalLen), pq[pqPrivLen..], [])
  {
    Memcpy(privkey, 0, p[..actualPrivkeyLen]);
    StoreUint32(pubkey, classicalLen);
    Memcpy(pubkey, SIZE_OF_UINT32 + classicalLen, p[actualPrivkeyLen..]);
    TruncatedIsPacked(p, actualPrivkeyLen - SIZE_OF_UINT32 - DecodeUint32(p), privkey.Length);
    SplicedIsPacked(classicalLen, p[actualPrivkeyLen..]);
    assert p[SIZE_OF_UINT32 + DecodeUint32(p)..][actualPrivkeyLen - SIZE_OF_UINT32 - DecodeUint32(p)..]
           == p[actualPrivkeyLen..];
  }

  /** Allocate and fill the buffers of a hybrid key. */
  method PopulateHybrid(key: OqsxKey, p: seq<Byte>, actualPrivkeyLen: nat)
    requires key.Valid() && key.State() == Blank(key.alg) && key.alg.Hybrid()
    requires |p| >= SIZE_OF_UINT32 && DecodeUint32(p) <= key.alg.classical.value.lenPriv
    requires actualPrivkeyLen == SIZE_OF_UINT32 + DecodeUint32(p) + key.alg.pq.lenPriv == |p| - key.alg.pq.lenPub
    modifies key`privkey, key`pubkey, key`compPrivkey, key`compPubkey
    ensures key.Valid() && key.privkey != null && fresh(key.privkey) && key.pubkey != null && fresh(key.pubkey)
    ensures key.State() == DecodedHalfway(key.alg, p)
  {
    var ret := key.AllocateBoth();
    CopyBlob(p, actualPrivkeyLen, key.alg.classical.value.lenPub, key.privkey, key.pubkey);
    key.SetComposites();
  }

  /** Allocate and fill the buffers of a plain key. */
  method PopulatePlain(key: OqsxKey, p: seq<Byte>)
    requires key.Valid() && key.State() == Blank(key.alg) && !key.alg.Hybrid()
    requires |p| == key.alg.PrivLen() + key.alg.PubLen()
    modifies key`privkey, key`pubkey, key`compPrivkey, key`compPubkey
    ensures key.Valid() && key.privkey != null && fresh(key.privkey) && key.pubkey != null && fresh(key.pubkey)
    ensures DecodePrivate(key.alg, p) == Some(key.State())
  {
    var ret := key.AllocateBoth();
    Memcpy(key.privkey, 0, p[..key.privkeylen]);
    Memcpy(key.pubkey, 0, p[key.privkeylen..]);
    assert key.privkey[..] == p[..key.privkeylen];
    assert key.pubkey[..] == p[key.privkeylen..];
    key.SetComposites();
  }
}
