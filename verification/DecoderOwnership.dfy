/** Who owns a key between the decoder that makes it and the key manager that takes it over. */
module DecoderOwnership {
  import opened Options
  import opened Schemes

  const POINTER_SIZE: nat := 8

  /** A decoded key, with how often it was given to `free_key`. */
  class DecodedKey {
    var freed: nat

    constructor ()
      ensures freed == 0
    {
      freed := 0;
    }
  }

  /** The decoder's local variable `key`, whose address the callback is handed. */
  class Reference {
    var key: DecodedKey?

    constructor ()
      ensures key == null
    {
      key := null;
    }
  }

  /** A d2i entry of the key type descriptor: absent, or what it does on the input at hand. */
  datatype Parser = Absent | Yields | Fails

  /** A key type descriptor. An empty selection asks for guessing with its mask. */
  datatype Descriptor = Descriptor(
    mask: Selection,
    pkcs8: Parser, privateKey: Parser, spki: Parser, publicKey: Parser, parameters: Parser,
    check: Option<bool>)   // check_key, if there is one, and its verdict

  /** What the rest of the world does during one call. */
  datatype World = World(
    readOk: bool,          // the input could be read
    fatal: bool,           // the PKCS#8 attempt raised flag_fatal
    loads: seq<nat>,       // the sizes with which the callback reaches oqsx_load, one after the other
    callbackResult: bool)

  /** `oqsx_load`: takes the key out of the reference. */
  method Load(reference: Reference, size: nat) returns (key: DecodedKey?)
    modifies reference
    ensures if size == POINTER_SIZE then key == old(reference.key) && reference.key == null
            else key == null && reference.key == old(reference.key)
  {
    if size == POINTER_SIZE {
      key := reference.key;
      reference.key := null;
      return;
    }
    return null;
  }

  /** `free_key`. */
  method FreeKey(key: DecodedKey?)
    modifies key
    ensures key != null ==> key.freed == old(key.freed) + 1
  {
    if key != null {
      key.freed := key.freed + 1;
    }
  }

  // ---- which attempts are made ----

  function PrivateParser(d: Descriptor): Parser {
    if d.pkcs8 != Absent then d.pkcs8 else d.privateKey
  }

  function PublicParser(d: Descriptor): Parser {
    if d.spki != Absent then d.spki else d.publicKey
  }

  /** Some attempt yields a key: the first selected one, or while guessing any selected one. */
  predicate SomethingParses(d: Descriptor, asked: Selection) {
    var s := if asked.Empty() then d.mask else asked;
    if s.private && (PrivateParser(d) == Yields || !asked.Empty()) then PrivateParser(d) == Yields
    else if s.public && (PublicParser(d) == Yields || !asked.Empty()) then PublicParser(d) == Yields
    else s.Parameters() && d.parameters == Yields
  }

  /** Asked for something, the decoder tries one parser only, by precedence: private, public, parameters. Asked for
      nothing, it tries each one its mask selects. PKCS#8 goes before a bare private key, and SubjectPublicKeyInfo
      before a bare public one; either kind of parameters will do. */
  lemma ParsesIff(d: Descriptor, asked: Selection)
    ensures var pri, pub := if d.pkcs8 == Absent then d.privateKey else d.pkcs8,
                            if d.spki == Absent then d.publicKey else d.spki;
            SomethingParses(d, asked) <==>
              if asked == Selection(false, false, false, false) then
                || (d.mask.private && pri == Yields)
                || (d.mask.public && pub == Yields)
                || ((d.mask.domain || d.mask.other) && d.parameters == Yields)
              else if asked.private then pri == Yields
              else if asked.public then pub == Yields
              else d.parameters == Yields
  {
  }

  /** The attempts of `oqs_der2key_decode`, in order; `stop` is the jump past the callback. */
  method Attempt(d: Descriptor, asked: Selection, w: World) returns (key: DecodedKey?, stop: bool)
    requires (if asked == Selection(false, false, false, false) then d.mask else asked).public ==>
               PublicParser(d) != Absent
    ensures key != null ==> fresh(key) && key.freed == 0
    ensures stop <==> (if asked == Selection(false, false, false, false) then d.mask else asked).private
                      && d.pkcs8 != Absent && w.fatal
    ensures key != null <==> if stop then d.pkcs8 == Yields else SomethingParses(d, asked)
  {
    var selection := if asked.Empty() then d.mask else asked;
    key, stop := null, false;
    if selection.private {
      if d.pkcs8 != Absent {
        key := Run(d.pkcs8);
        if w.fatal {
          return key, true;
        }
      } else if d.privateKey != Absent {
        key := Run(d.privateKey);
      }
      if key == null && !asked.Empty() {
        return;
      }
    }
    if key == null && selection.public {
      if d.spki != Absent {
        key := Run(d.spki);
      } else {
        key := Run(d.publicKey);
      }
      if key == null && !asked.Empty() {
        return;
      }
    }
    if key == null && selection.Parameters() {
      if d.parameters != Absent {
        key := Run(d.parameters);
      }
    }
  }

  method Run(p: Parser) returns (key: DecodedKey?)
    ensures key != null <==> p == Yields
    ensures key != null ==> fresh(key) && key.freed == 0
  {
    if p == Yields {
      key := new DecodedKey();
    } else {
      key := null;
    }
  }

  /** The index of the load that takes the key: the first with the right size. */
  predicate Takes(sizes: seq<nat>, i: nat)
    requires i < |sizes|
  {
    sizes[i] == POINTER_SIZE && forall j :: 0 <= j < i ==> sizes[j] != POINTER_SIZE
  }

  /** What the callback does with the reference: it loads from it, any number of times. The first load of the right
      size takes the key, and every other load gets nothing. */
  method CallBack(reference: Reference, sizes: seq<nat>) returns (loaded: seq<DecodedKey?>)
    modifies reference
    ensures |loaded| == |sizes|
    ensures forall i :: 0 <= i < |sizes| ==> loaded[i] == if Takes(sizes, i) then old(reference.key) else null
    ensures reference.key == if POINTER_SIZE in sizes then null else old(reference.key)
  {
    loaded := [];
    for i := 0 to |sizes|
      invariant |loaded| == i
      invariant forall j :: 0 <= j < i ==> loaded[j] == if Takes(sizes, j) then old(reference.key) else null
      invariant reference.key == if POINTER_SIZE in sizes[..i] then null else old(reference.key)
    {
      var key := Load(reference, sizes[i]);
      loaded := loaded + [key];
      assert sizes[..i + 1] == sizes[..i] + [sizes[i]];
    }
    assert sizes[..|sizes|] == sizes;
  }

  /** `oqs_der2key_decode`. A key that was made is either taken by exactly one load of the callback, unfreed, or freed
      exactly once; a key that was not made is neither. Coming back empty-handed is success; a fatal attempt is not. */
  method Decode(d: Descriptor, asked: Selection, w: World)
    returns (ok: bool, made: DecodedKey?, loaded: seq<DecodedKey?>)
    requires (if asked == Selection(false, false, false, false) then d.mask else asked).public ==>
               PublicParser(d) != Absent
    ensures made != null ==> fresh(made) && made.freed + (if made in loaded then 1 else 0) == 1
    ensures var selection := if asked == Selection(false, false, false, false) then d.mask else asked;
            var meet := (selection.private && d.mask.private) || (selection.public && d.mask.public)
                        || (selection.domain && d.mask.domain) || (selection.other && d.mask.other);
            var stop := selection.private && d.pkcs8 != Absent && w.fatal;
            var tried := meet && w.readOk;
            var offered := tried && !stop && SomethingParses(d, asked) && d.check != Some(false);
            && (made != null <==> tried && if stop then d.pkcs8 == Yields else SomethingParses(d, asked))
            && (made != null ==> (made in loaded <==> offered && POINTER_SIZE in w.loads))
            && |loaded| == (if offered then |w.loads| else 0)
            && (forall i :: 0 <= i < |loaded| ==> loaded[i] == if Takes(w.loads, i) then made else null)
            && (ok <==> meet && (tried ==> !stop) && (offered ==> w.callbackResult))
  {
    ok, made, loaded := false, null, [];
    var selection := if asked.Empty() then d.mask else asked;
    if selection.Meet(d.mask).Empty() {
      return;
    }
    var reference := new Reference();
    if w.readOk {
      var stop;
      reference.key, stop := Attempt(d, asked, w);
      made := reference.key;
      if stop {
        FreeKey(reference.key);
        return;
      }
      if reference.key != null && d.check == Some(false) {
        FreeKey(reference.key);
        reference.key := null;
      }
    }
    ok := true;
    if reference.key != null {
      loaded := CallBack(reference, w.loads);
      FirstLoad(w.loads, loaded, made);
      ok := w.callbackResult;
    }
    FreeKey(reference.key);
  }

  /** If some load has the right size, one is the first. */
  lemma FirstLoad(sizes: seq<nat>, loaded: seq<DecodedKey?>, key: DecodedKey?)
    requires key != null && |loaded| == |sizes|
    requires forall i :: 0 <= i < |sizes| ==> loaded[i] == if Takes(sizes, i) then key else null
    ensures key in loaded <==> POINTER_SIZE in sizes
    ensures forall i, j :: 0 <= i < |loaded| && 0 <= j < |loaded| && loaded[i] == key == loaded[j] ==> i == j
  {
    if POINTER_SIZE in sizes {
      var i := First(sizes);
      assert loaded[i] == key;
    }
  }

  lemma First(sizes: seq<nat>) returns (i: nat)
    requires POINTER_SIZE in sizes
    ensures i < |sizes| && Takes(sizes, i)
  {
    i := 0;
    while sizes[i] != POINTER_SIZE
      invariant i < |sizes| && POINTER_SIZE in sizes[i..]
      invariant forall j :: 0 <= j < i ==> sizes[j] != POINTER_SIZE
      decreases |sizes| - i
    {
      i := i + 1;
    }
  }
}
