/** The flat key buffer, and the states a key object goes through, as values. */
module KeyLayout {
  import opened Options
  import opened Bytes
  import opened Schemes

  // ---- one hybrid buffer: header, classical bytes, PQ bytes, padding up to the table maximum ----

  function Pack(classical: seq<Byte>, pq: seq<Byte>, padding: seq<Byte>): (r: seq<Byte>)
    ensures |r| == SIZE_OF_UINT32 + |classical| + |pq| + |padding|
  {
    EncodeUint32(|classical|) + classical + pq + padding
  }

  /** The header names a length that ends inside the buffer: what reading the classical slice demands. */
  predicate HeaderInBuffer(buf: seq<Byte>) {
    |buf| >= SIZE_OF_UINT32 && SIZE_OF_UINT32 + DecodeUint32(buf) <= |buf|
  }

  function ClassicalPart(buf: seq<Byte>): seq<Byte>
    requires HeaderInBuffer(buf)
  {
    buf[SIZE_OF_UINT32..SIZE_OF_UINT32 + DecodeUint32(buf)]
  }

  /** The PQ bytes follow the classical ones at once, so they leave the buffer when the header exceeds the maximum. */
  predicate Fits(buf: seq<Byte>, max: nat, pqLen: nat) {
    |buf| == SIZE_OF_UINT32 + max + pqLen && DecodeUint32(buf) <= max
  }

  function PqPart(buf: seq<Byte>, pqLen: nat): seq<Byte>
    requires HeaderInBuffer(buf) && SIZE_OF_UINT32 + DecodeUint32(buf) + pqLen <= |buf|
  {
    buf[SIZE_OF_UINT32 + DecodeUint32(buf)..][..pqLen]
  }

  function Padding(buf: seq<Byte>, pqLen: nat): seq<Byte>
    requires HeaderInBuffer(buf) && SIZE_OF_UINT32 + DecodeUint32(buf) + pqLen <= |buf|
  {
    buf[SIZE_OF_UINT32 + DecodeUint32(buf) + pqLen..]
  }

  /** A buffer of the key's length is exactly header, classical slice, PQ slice and padding if and only if
      its header is at most the table maximum. */
  lemma PartitionIffHeaderWithinTable(buf: seq<Byte>, max: nat, pqLen: nat)
    requires |buf| == SIZE_OF_UINT32 + max + pqLen
    ensures Fits(buf, max, pqLen)
       <==> exists c: seq<Byte>, q: seq<Byte>, z: seq<Byte> ::
              |c| < TWO_TO_THE_32 && |q| == pqLen && buf == Pack(c, q, z)
    ensures Fits(buf, max, pqLen) ==>
              && buf == Pack(ClassicalPart(buf), PqPart(buf, pqLen), Padding(buf, pqLen))
              && |Padding(buf, pqLen)| == max - DecodeUint32(buf)
  {
    if Fits(buf, max, pqLen) {
      HeaderIsUnique(buf);
      assert buf == Pack(ClassicalPart(buf), PqPart(buf, pqLen), Padding(buf, pqLen));
    }
    forall c: seq<Byte>, q: seq<Byte>, z: seq<Byte>
      | |c| < TWO_TO_THE_32 && |q| == pqLen && buf == Pack(c, q, z)
      ensures Fits(buf, max, pqLen)
    {
      PackedParts(c, q, z);
    }
  }

  lemma PackedParts(c: seq<Byte>, q: seq<Byte>, z: seq<Byte>)
    requires |c| < TWO_TO_THE_32
    ensures DecodeUint32(Pack(c, q, z)) == |c|
    ensures HeaderInBuffer(Pack(c, q, z)) && ClassicalPart(Pack(c, q, z)) == c
    ensures PqPart(Pack(c, q, z), |q|) == q
    ensures Padding(Pack(c, q, z), |q|) == z
  {
    HeaderReadsBack(|c|, c + q + z);
    assert Pack(c, q, z) == EncodeUint32(|c|) + (c + q + z);
    assert Pack(c, q, z)[SIZE_OF_UINT32 + |c|..] == q + z;
  }

  // ---- key states ----

  /** A component pointer: unset, an offset into the key's current buffer, or pointing elsewhere. */
  datatype Slot = NullSlot | Offset(at: int) | Dangling

  datatype KeyState = KeyState(
    priv: Option<seq<Byte>>,
    pub: Option<seq<Byte>>,
    compPriv: seq<Slot>,
    compPub: seq<Slot>,
    pkey: Option<EvpPkey>)

  /** After `oqsx_key_new`: no buffers, component arrays allocated but not filled. */
  function Blank(alg: Algorithm): KeyState {
    var slots := seq(alg.NumKeys(), _ => Dangling);
    KeyState(None, None, slots, slots, None)
  }

  ghost predicate Shaped(alg: Algorithm, s: KeyState) {
    && alg.Valid()
    && |s.compPriv| == |s.compPub| == alg.NumKeys()
    && (s.priv.Some? ==> |s.priv.value| == alg.PrivLen())
    && (s.pub.Some? ==> |s.pub.value| == alg.PubLen())
  }

  /** `oqsx_key_set_composites` for one buffer. The header passes through an `int`. */
  function Slots(alg: Algorithm, buf: Option<seq<Byte>>): seq<Slot>
    requires alg.Hybrid() && buf.Some? ==> |buf.value| >= SIZE_OF_UINT32
  {
    if !alg.Hybrid() then [if buf.None? then NullSlot else Offset(0)]
    else if buf.None? then [NullSlot, NullSlot]
    else [Offset(SIZE_OF_UINT32), Offset(AsInt(DecodeUint32(buf.value)) + SIZE_OF_UINT32)]
  }

  function WithComposites(alg: Algorithm, s: KeyState): KeyState
    requires alg.Hybrid() && s.priv.Some? ==> |s.priv.value| >= SIZE_OF_UINT32
    requires alg.Hybrid() && s.pub.Some? ==> |s.pub.value| >= SIZE_OF_UINT32
  {
    s.(compPriv := Slots(alg, s.priv), compPub := Slots(alg, s.pub))
  }

  ghost predicate PrivFits(alg: Algorithm, buf: seq<Byte>)
    requires alg.Valid()
  {
    |buf| == alg.PrivLen() && (alg.Hybrid() ==> Fits(buf, alg.classical.value.lenPriv, alg.pq.lenPriv))
  }

  ghost predicate PubFits(alg: Algorithm, buf: seq<Byte>)
    requires alg.Valid()
  {
    |buf| == alg.PubLen() && (alg.Hybrid() ==> Fits(buf, alg.classical.value.lenPub, alg.pq.lenPub))
  }

  /** The layout a finished key has: each present buffer is partitioned, the component pointers are the
      slices' starts, and a classical key hangs off exactly the hybrid ones. */
  ghost predicate Completed(alg: Algorithm, s: KeyState) {
    && Shaped(alg, s)
    && (s.priv.Some? ==> PrivFits(alg, s.priv.value) && s.compPriv == Slots(alg, s.priv))
    && (s.pub.Some? ==> PubFits(alg, s.pub.value))
    && s.compPub == Slots(alg, s.pub)
    && (s.pkey.Some? <==> alg.Hybrid())
  }

  /** The private and public PQ slices of a finished key. */
  ghost function PqPrivate(alg: Algorithm, buf: seq<Byte>): (r: seq<Byte>)
    requires alg.Valid() && PrivFits(alg, buf)
    ensures |r| == alg.pq.lenPriv
  {
    if alg.Hybrid() then PqPart(buf, alg.pq.lenPriv) else buf
  }

  ghost function PqPublic(alg: Algorithm, buf: seq<Byte>): (r: seq<Byte>)
    requires alg.Valid() && PubFits(alg, buf)
    ensures |r| == alg.pq.lenPub
  {
    if alg.Hybrid() then PqPart(buf, alg.pq.lenPub) else buf
  }

  // ---- key generation ----

  /** The classical half of key generation: `oqsx_key_gen_evp_key` with its length checks and selftest. */
  function ClassicalGen(c: Classical, seed: Seed): Option<Scalar> {
    match c.keygen(seed)
    case None => None
    case Some(k) =>
      var pub, priv := |c.encodePub(c.publicOf(k))|, |c.encodePriv(k)|;
      if c.raw then
        if pub == c.lenPub && priv == c.lenPriv then Some(k) else None
      else if pub <= c.lenPub && priv <= c.lenPriv && c.decodePriv(c.encodePriv(k)).Some? then Some(k)
      else None
  }

  /** One generated buffer. Bytes past the PQ part stay what they were: zeros in a new buffer. */
  function Fill(buf: Option<seq<Byte>>, size: nat, hybrid: bool, classical: seq<Byte>, pq: seq<Byte>): (r: seq<Byte>)
    requires buf.Some? ==> |buf.value| == size
    requires if hybrid then SIZE_OF_UINT32 + |classical| + |pq| <= size else |pq| == size
    ensures |r| == size
  {
    if !hybrid then pq else
    var base := if buf.Some? then buf.value else Zeros(size);
    Pack(classical, pq, base[SIZE_OF_UINT32 + |classical| + |pq|..])
  }

  /** The state `oqsx_key_gen` leaves when both halves succeed; `None` when one fails. */
  ghost function Generated(alg: Algorithm, s: KeyState, cseed: Seed, pseed: Seed): (r: Option<KeyState>)
    requires Shaped(alg, s)
  {
    var k := if alg.Hybrid() then ClassicalGen(alg.classical.value, cseed) else Some(0);
    var q := alg.pq.keypair(pseed);
    if k.None? || q.None? then None else
    var cpub := if alg.Hybrid() then alg.classical.value.encodePub(alg.classical.value.publicOf(k.value)) else [];
    var cpriv := if alg.Hybrid() then alg.classical.value.encodePriv(k.value) else [];
    var filled := s.(
      priv := Some(Fill(s.priv, alg.PrivLen(), alg.Hybrid(), cpriv, q.value.1)),
      pub := Some(Fill(s.pub, alg.PubLen(), alg.Hybrid(), cpub, q.value.0)),
      pkey := if alg.Hybrid() then Some(EvpPkey(alg.classical.value.publicOf(k.value), k)) else s.pkey);
    Some(WithComposites(alg, filled))
  }

  // ---- rebuilding the classical key, and import ----

  /** `oqsx_key_recreate_classickey`: from the private part, writing the public encoding back into the
      public buffer if there is one; or from the public part alone. `None` is its error return. */
  ghost function Rebuilt(alg: Algorithm, s: KeyState, private: bool): (r: Option<KeyState>)
    requires Shaped(alg, s)
    requires alg.Hybrid() ==> var b := if private then s.priv else s.pub; b.Some? && HeaderInBuffer(b.value)
    ensures r.Some? ==> Shaped(alg, r.value)
  {
    if !alg.Hybrid() then Some(s) else
    var c := alg.classical.value;
    if private then
      match c.decodePriv(ClassicalPart(s.priv.value))
      case None => None
      case Some(k) =>
        var enc := c.encodePub(c.publicOf(k));
        if |enc| != c.lenPub then None else
        Some(s.(pub := if s.pub.None? then None else Some(Splice(s.pub.value, SIZE_OF_UINT32, enc)),
                pkey := Some(EvpPkey(c.publicOf(k), Some(k)))))
    else
      match c.decodePub(ClassicalPart(s.pub.value))
      case None => None
      case Some(p) => Some(s.(pkey := Some(EvpPkey(p, None))))
  }

  /** The buffers `oqsx_key_fromdata` puts in place before anything is read from them. */
  function Loaded(s: KeyState, priv: Option<seq<Byte>>, pub: Option<seq<Byte>>): KeyState {
    s.(priv := if priv.Some? then priv else s.priv, pub := if pub.Some? then pub else s.pub)
  }

  /** `oqsx_key_fromdata`. */
  ghost function Imported(alg: Algorithm, s: KeyState, priv: Option<seq<Byte>>,
                          pub: Option<seq<Byte>>): (r: Option<KeyState>)
    requires Shaped(alg, s) && ImportReadable(alg, s, priv, pub)
  {
    if priv.None? && pub.None? then None
    else if priv.Some? && |priv.value| != alg.PrivLen() then None
    else if pub.Some? && |pub.value| != alg.PubLen() then None
    else
      var loaded := WithComposites(alg, Loaded(s, priv, pub));
      Rebuilt(alg, loaded, loaded.priv.Some?)
  }

  /** The header an import of the right sizes trusts, the private one if there is a private buffer, names
      bytes inside its buffer. */
  ghost predicate ImportReadable(alg: Algorithm, s: KeyState, priv: Option<seq<Byte>>, pub: Option<seq<Byte>>)
    requires alg.Valid()
  {
    (&& alg.Hybrid()
     && (priv.Some? ==> |priv.value| == alg.PrivLen())
     && (pub.Some? ==> |pub.value| == alg.PubLen())) ==>
      var l := Loaded(s, priv, pub);
      if l.priv.Some? then HeaderInBuffer(l.priv.value) else l.pub.Some? ==> HeaderInBuffer(l.pub.value)
  }

  /** What `oqsx_set_params` follows for a hybrid KEM: the first public component pointer, which is null or
      points behind the header. */
  ghost predicate Replaceable(alg: Algorithm, s: KeyState)
    requires Shaped(alg, s)
  {
    alg.HybridKem() ==> s.compPub[0] == NullSlot || (s.pub.Some? && s.compPub[0] == Offset(SIZE_OF_UINT32))
  }

  /** `oqsx_set_params` with an encoded public key: written where the first component pointer points for a
      hybrid KEM, into a buffer of its own if that is null, and over the whole public buffer otherwise. The
      private buffer goes, its component pointers stay; so does the classical key. */
  ghost function PublicReplaced(alg: Algorithm, s: KeyState, data: seq<Byte>): (r: Option<KeyState>)
    requires Shaped(alg, s) && Replaceable(alg, s)
    ensures r.Some? ==> Shaped(alg, r.value)
  {
    var header := if alg.HybridKem() then SIZE_OF_UINT32 else 0;
    if |data| != alg.PubLen() - header then None else
    var cleared := s.(
      priv := None,
      compPriv := seq(|s.compPriv|, i requires 0 <= i < |s.compPriv| =>
        if s.compPriv[i].Offset? then Dangling else s.compPriv[i]));
    Some(if alg.HybridKem() && s.compPub[0] == NullSlot then cleared.(compPub := s.compPub[0 := Dangling])
         else cleared.(pub := Some(if alg.HybridKem() then s.pub.value[..header] + data else data)))
  }
}
