/** Keys leaving and entering: export and import, SubjectPublicKeyInfo, and the TLS key share. */
module KeyTransfer {
  import opened Options
  import opened Bytes
  import opened Schemes
  import opened KeyLayout
  import opened KeySteps
  import opened Pkcs8

  /** `oqsx_export`: the buffers handed over. Either key bit brings the public one, the private bit the private one. */
  function Exported(s: KeyState, selection: Selection): (Option<seq<Byte>>, Option<seq<Byte>>) {
    (if selection.private then s.priv else None, if selection.private || selection.public then s.pub else None)
  }

  /** `oqsx_import`: nothing is taken unless parameters are selected. */
  ghost function ImportedUnder(alg: Algorithm, s: KeyState, selection: Selection, priv: Option<seq<Byte>>,
                               pub: Option<seq<Byte>>)
    : (r: Option<KeyState>)
    requires Shaped(alg, s) && (selection.Parameters() ==> ImportReadable(alg, s, priv, pub))
  {
    if selection.Parameters() then Imported(alg, s, priv, pub) else None
  }

  /** Exporting a finished key pair into a new key, whatever is selected. With the private key, the import succeeds
      exactly when the classical half can be rebuilt; it then keeps the private buffer, points the components into
      the new buffers, and keeps the public buffer exactly when its classical bytes are those the private key
      determines. With the public key alone, it succeeds exactly when the classical bytes parse, and keeps them. */
  lemma ExportThenImport(alg: Algorithm, s: KeyState, selection: Selection)
    requires Completed(alg, s) && s.priv.Some? && s.pub.Some?
    ensures var (priv, pub) := Exported(s, selection);
            && ImportReadable(alg, Blank(alg), priv, pub)
            && var r := ImportedUnder(alg, Blank(alg), selection, priv, pub);
            && (r.Some? <==>
                  && (selection.domain || selection.other)
                  && if selection.private then Rebuildable(alg, s)
                     else selection.public
                          && (alg.Hybrid() ==> alg.classical.value.decodePub(ClassicalPart(s.pub.value)).Some?))
            && (r.Some? ==>
                  && Completed(alg, r.value)
                  && r.value.compPub == s.compPub
                  && (if selection.private then r.value.priv == s.priv && r.value.compPriv == s.compPriv
                      else r.value.priv.None?)
                  && (r.value.pub == s.pub <==> (alg.Hybrid() && selection.private ==> PublicMatchesPrivate(alg, s))))
  {
    var (priv, pub) := Exported(s, selection);
    if ImportedUnder(alg, Blank(alg), selection, priv, pub).Some? {
      ImportedIsCompletedIff(alg, Blank(alg), priv, pub);
      if alg.Hybrid() && selection.private {
        PublicWrittenBack(alg, s);
      }
    }
  }

  /** The import of a pair writes the classical public bytes of the private key over those that came with it. */
  lemma PublicWrittenBack(alg: Algorithm, s: KeyState)
    requires Completed(alg, s) && s.priv.Some? && s.pub.Some? && alg.Hybrid() && Rebuildable(alg, s)
    ensures var r := Imported(alg, Blank(alg), s.priv, s.pub);
            r.Some? && (r.value.pub == s.pub <==> PublicMatchesPrivate(alg, s))
  {
    var c := alg.classical.value;
    var enc := c.encodePub(c.publicOf(c.decodePriv(ClassicalPart(s.priv.value)).value));
    var pub := s.pub.value;
    assert pub == Splice(pub, SIZE_OF_UINT32, pub[SIZE_OF_UINT32..SIZE_OF_UINT32 + |enc|]);
    assert Imported(alg, Blank(alg), s.priv, s.pub).value.pub.value == Splice(pub, SIZE_OF_UINT32, enc);
  }

  ghost predicate PublicMatchesPrivate(alg: Algorithm, s: KeyState)
    requires Completed(alg, s) && s.priv.Some? && s.pub.Some? && alg.Hybrid() && Rebuildable(alg, s)
  {
    var c := alg.classical.value;
    s.pub.value[SIZE_OF_UINT32..SIZE_OF_UINT32 + c.lenPub]
      == c.encodePub(c.publicOf(c.decodePriv(ClassicalPart(s.priv.value)).value))
  }

  /** A generated key pair survives export and import whole, under the same condition as PKCS#8. */
  lemma FreshKeyExportImport(alg: Algorithm, cseed: Seed, pseed: Seed)
    requires alg.Valid() && (alg.Hybrid() ==> alg.classical.value.CodecLaws())
    requires Generated(alg, Blank(alg), cseed, pseed).Some?
    ensures var s := Generated(alg, Blank(alg), cseed, pseed).value;
            && ImportReadable(alg, Blank(alg), s.priv, s.pub)
            && Imported(alg, Blank(alg), s.priv, s.pub) == if PublicHasTableLength(alg, cseed) then Some(s) else None
  {
    var s := Generated(alg, Blank(alg), cseed, pseed).value;
    GeneratedIsCompleted(alg, Blank(alg), cseed, pseed);
    ExportThenImport(alg, s, Selection(true, true, true, true));
    if alg.Hybrid() {
      FreshKeyIsCanonical(alg, cseed, pseed);
    }
  }

  /** The public half of a generated key, decoded from its SubjectPublicKeyInfo: same buffer, same component
      pointers, the classical public key, and nothing private. The classical length does not matter here. */
  lemma FreshKeyPublicRoundTrip(alg: Algorithm, cseed: Seed, pseed: Seed)
    requires alg.Valid() && (alg.Hybrid() ==> alg.classical.value.CodecLaws())
    requires Generated(alg, Blank(alg), cseed, pseed).Some?
    ensures var s := Generated(alg, Blank(alg), cseed, pseed).value;
            && ImportReadable(alg, Blank(alg), None, s.pub)
            && var r := Imported(alg, Blank(alg), None, s.pub);
            && r.Some? && Completed(alg, r.value)
            && r.value.priv.None? && r.value.pub == s.pub && r.value.compPub == s.compPub
            && r.value.pkey == if alg.Hybrid() then Some(EvpPkey(s.pkey.value.point, None)) else None
  {
    GeneratedIsCompleted(alg, Blank(alg), cseed, pseed);
    if alg.Hybrid() {
      GeneratedPublicParts(alg, Blank(alg), cseed, pseed);
    }
    ImportedIsCompletedIff(alg, Blank(alg), None, Generated(alg, Blank(alg), cseed, pseed).value.pub);
  }

  /** `OSSL_PKEY_PARAM_ENCODED_PUBLIC_KEY`: hybrid KEMs do not pass the length header out. */
  function EncodedPublic(alg: Algorithm, pub: seq<Byte>): seq<Byte>
    requires alg.HybridKem() ==> |pub| >= SIZE_OF_UINT32
  {
    if alg.HybridKem() then pub[SIZE_OF_UINT32..] else pub
  }

  /** Setting the encoded public key one key gave out on another finished key of the algorithm transfers the
      public buffer whole exactly when, for a hybrid KEM, both carry the same header. */
  lemma EncodedPublicTransfersIff(alg: Algorithm, from: KeyState, to: KeyState)
    requires Completed(alg, from) && from.pub.Some? && Completed(alg, to) && to.pub.Some?
    ensures var r := PublicReplaced(alg, to, EncodedPublic(alg, from.pub.value));
            && r.Some? && r.value.priv.None?
            && (r.value.pub == from.pub
                <==> (alg.HybridKem() ==> DecodeUint32(to.pub.value) == DecodeUint32(from.pub.value)))
  {
    if alg.HybridKem() {
      HeaderIsUnique(to.pub.value);
      HeaderIsUnique(from.pub.value);
      var r := PublicReplaced(alg, to, EncodedPublic(alg, from.pub.value)).value.pub.value;
      assert r[..SIZE_OF_UINT32] == to.pub.value[..SIZE_OF_UINT32];
      assert r[SIZE_OF_UINT32..] == from.pub.value[SIZE_OF_UINT32..];
      assert from.pub.value == from.pub.value[..SIZE_OF_UINT32] + from.pub.value[SIZE_OF_UINT32..];
    }
  }
}
