/** Matching of keys, `oqsx_match` in the build that keeps public keys with private ones. */
module KeyMatch {
  import opened Options
  import opened Bytes
  import opened Schemes

  /** What a match reads of a key. */
  datatype KeyView = KeyView(tlsName: string, priv: Option<seq<Byte>>, pub: Option<seq<Byte>>)

  /** Comparisons read the second key's buffers to the first one's length. */
  predicate Comparable(a: KeyView, b: KeyView) {
    && (a.priv.Some? && b.priv.Some? ==> |a.priv.value| == |b.priv.value|)
    && (a.pub.Some? && b.pub.Some? ==> |a.pub.value| == |b.pub.value|)
  }

  /** `CRYPTO_memcmp(a, b, n) == 0`. */
  predicate SameBytes(a: seq<Byte>, b: seq<Byte>, n: nat): (same: bool)
    requires n <= |a| && n <= |b|
    ensures n == |a| == |b| ==> (same <==> a == b)
  {
    forall i :: 0 <= i < n ==> a[i] == b[i]
  }

  function Match(key1: KeyView, key2: KeyView, selection: Selection): (ok: bool)
    requires Comparable(key1, key2)
  {
    var privOk :=
      if selection.private && !selection.public then
        if (key1.priv.None? && key2.priv.Some?) || (key1.priv.Some? && key2.priv.None?)
           || key1.tlsName != key2.tlsName then
          false
        else
          (key1.priv.None? && key2.priv.None?)
          || (key1.priv.Some? && SameBytes(key1.priv.value, key2.priv.value, |key1.priv.value|))
      else true;
    if selection.public then
      if (key1.pub.None? && key2.pub.Some?) || (key1.pub.Some? && key2.pub.None?) || key1.tlsName != key2.tlsName then
        selection.domain && key1.priv.Some? && key2.priv.Some?
        && SameBytes(key1.priv.value, key2.priv.value, |key1.priv.value|)
      else
        privOk && ((key1.pub.None? && key2.pub.None?)
                   || (key1.pub.Some? && SameBytes(key1.pub.value, key2.pub.value, |key1.pub.value|)))
    else privOk
  }

  /** Every key matches itself and any key with the same name and buffers, whatever is selected. */
  lemma MatchIsReflexive(a: KeyView)
    ensures forall s: Selection :: Match(a, a, s)
  {
  }

  lemma MatchIsSymmetric(a: KeyView, b: KeyView, s: Selection)
    requires Comparable(a, b)
    ensures Match(a, b, s) == Match(b, a, s)
  {
  }

  /** With neither half selected there is nothing to compare. */
  lemma NothingSelectedMatches(a: KeyView, b: KeyView, s: Selection)
    requires Comparable(a, b) && !s.private && !s.public
    ensures Match(a, b, s)
  {
  }

  /** Private-only matching is equality of name and optional private buffer. */
  lemma PrivateMatchIsEquality(a: KeyView, b: KeyView, s: Selection)
    requires Comparable(a, b) && s.private && !s.public
    ensures Match(a, b, s) <==> a.tlsName == b.tlsName && a.priv == b.priv
  {
  }

  /** Public matching without domain parameters is equality of name and optional public buffer; selecting the
      private key as well adds nothing. */
  lemma PublicMatchIsEquality(a: KeyView, b: KeyView, s: Selection)
    requires Comparable(a, b) && s.public && !s.domain
    ensures Match(a, b, s) <==> a.tlsName == b.tlsName && a.pub == b.pub
  {
  }

  /** So both chain: with reflexivity and symmetry, they are equivalence relations on keys that can be compared. */
  lemma EqualityMatchesChain(a: KeyView, b: KeyView, c: KeyView, s: Selection)
    requires Comparable(a, b) && Comparable(b, c) && Comparable(a, c)
    requires (s.private && !s.public) || (s.public && !s.domain)
    requires Match(a, b, s) && Match(b, c, s)
    ensures Match(a, c, s)
  {
    if s.public {
      PublicMatchIsEquality(a, b, s);
      PublicMatchIsEquality(b, c, s);
      PublicMatchIsEquality(a, c, s);
    } else {
      PrivateMatchIsEquality(a, b, s);
      PrivateMatchIsEquality(b, c, s);
      PrivateMatchIsEquality(a, c, s);
    }
  }

  /** With domain parameters, equal private buffers also count where the public parts cannot be compared. */
  lemma DomainMatchIff(a: KeyView, b: KeyView, s: Selection)
    requires Comparable(a, b) && s.public && s.domain
    ensures Match(a, b, s) <==>
              || (a.tlsName == b.tlsName && a.pub == b.pub)
              || ((a.tlsName != b.tlsName || a.pub.Some? != b.pub.Some?) && a.priv.Some? && a.priv == b.priv)
  {
  }

  /** On keys of one algorithm that chain, the ends fail to match exactly in these cases: both have public
      parts, unequal, and the middle key has none; or one end lacks a public part and the private buffers
      are not both there and equal. */
  lemma DomainMatchChainsIff(a: KeyView, b: KeyView, c: KeyView, s: Selection)
    requires Comparable(a, b) && Comparable(b, c) && Comparable(a, c) && s.public && s.domain
    requires a.tlsName == b.tlsName == c.tlsName
    requires Match(a, b, s) && Match(b, c, s)
    ensures !Match(a, c, s) <==>
              || (a.pub.Some? && c.pub.Some? && b.pub.None? && a.pub != c.pub)
              || (a.pub.Some? != c.pub.Some? && (a.priv.None? || a.priv != c.priv))
    ensures a.pub.Some? && b.pub.Some? && c.pub.Some? ==> Match(a, c, s)
  {
    DomainMatchIff(a, b, s);
    DomainMatchIff(b, c, s);
    DomainMatchIff(a, c, s);
  }

  /** So it is not transitive: a public-only key, the full pair, and the private half alone. */
  lemma DomainMatchIsNotTransitive(name: string, s: Selection)
    requires s.public && s.domain
    ensures var pubOnly := KeyView(name, None, Some([1]));
            var pair := KeyView(name, Some([2]), Some([1]));
            var privOnly := KeyView(name, Some([2]), None);
            Match(pubOnly, pair, s) && Match(pair, privOnly, s) && !Match(pubOnly, privOnly, s)
  {
    var privOnly := KeyView(name, Some([2]), None);
    assert privOnly.pub.None?;
  }
}
