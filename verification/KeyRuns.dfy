/** What holds over whole runs of operations on a key. Decoding starts a run: `oqsx_key_op` fills the key it has
    just made, from a private blob; from a public one it does what an import does. */
module KeyRuns {
  import opened Options
  import opened Bytes
  import opened Schemes
  import opened KeyLayout
  import opened KeySteps
  import opened Pkcs8
  import opened KeyAgreement

  datatype Action =
    | Decode(blob: seq<Byte>)
    | Allocate(private: bool)
    | Generate(cseed: Seed, pseed: Seed)
    | Import(priv: Option<seq<Byte>>, pub: Option<seq<Byte>>)
    | ReplacePublic(data: seq<Byte>)

  /** What the source takes for granted of an operation's input. */
  ghost predicate Sound(alg: Algorithm, s: KeyState, a: Action)
    requires Shaped(alg, s)
  {
    match a
    case Decode(blob) => s == Blank(alg) && |blob| < TWO_TO_THE_31 && (alg.Hybrid() ==> |blob| >= SIZE_OF_UINT32)
    case Allocate(_) => true
    case Generate(_, _) => true
    case Import(priv, pub) => ImportReadable(alg, s, priv, pub)
    case ReplacePublic(_) => Replaceable(alg, s)
  }

  /** The state after a successful operation; `None` when it reports failure. */
  ghost function After(alg: Algorithm, s: KeyState, a: Action): Option<KeyState>
    requires Shaped(alg, s) && Sound(alg, s, a)
  {
    match a
    case Decode(blob) => DecodePrivate(alg, blob)
    case Allocate(private) => Some(Allocated(alg, s, private))
    case Generate(cseed, pseed) => Generated(alg, s, cseed, pseed)
    case Import(priv, pub) => Imported(alg, s, priv, pub)
    case ReplacePublic(data) => PublicReplaced(alg, s, data)
  }

  /** `run[0]` is the new key, and each further state results from the next operation. */
  ghost predicate IsRun(alg: Algorithm, actions: seq<Action>, run: seq<KeyState>) {
    && alg.Valid()
    && |run| == |actions| + 1
    && run[0] == Blank(alg)
    && forall i :: 0 <= i < |actions| ==> Follows(alg, run[i], actions[i], run[i + 1])
  }

  ghost predicate Follows(alg: Algorithm, s: KeyState, a: Action, t: KeyState) {
    Shaped(alg, s) && Sound(alg, s, a) && After(alg, s, a) == Some(t)
  }

  /** Whether operation `a`, which took `s` to `t`, leaves a finished key, given whether `s` was one: generation
      and private decoding always do, an import when its headers are within the table, a replacement when there
      was a public buffer and a hybrid signature key gets the header it had. */
  ghost predicate Finishes(alg: Algorithm, s: KeyState, a: Action, t: KeyState, was: bool)
    requires Follows(alg, s, a, t)
  {
    match a
    case Decode(_) => true
    case Generate(_, _) => true
    case Import(priv, pub) => HeadersWithinTable(alg, Loaded(s, priv, pub))
    case Allocate(_) => was && t == s
    case ReplacePublic(data) =>
      was && s.pub.Some? && (alg.keytype.HybSig? ==> DecodeUint32(data) == DecodeUint32(s.pub.value))
  }

  ghost predicate Finished(alg: Algorithm, actions: seq<Action>, run: seq<KeyState>)
    requires IsRun(alg, actions, run)
    decreases |actions|
  {
    |actions| > 0 &&
    var n := |actions| - 1;
    Finishes(alg, run[n], actions[n], run[n + 1], Finished(alg, actions[..n], run[..n + 1]))
  }

  lemma StepFinishes(alg: Algorithm, s: KeyState, a: Action, t: KeyState, was: bool)
    requires Follows(alg, s, a, t) && (!alg.Hybrid() ==> s.pkey.None?) && (was ==> Completed(alg, s))
    ensures Shaped(alg, t) && (!alg.Hybrid() ==> t.pkey.None?)
    ensures Finishes(alg, s, a, t, was) ==> Completed(alg, t)
  {
    match a
    case Decode(blob) => DecodedIsCompleted(alg, blob);
    case Allocate(_) =>
    case Generate(cseed, pseed) => GeneratedIsCompleted(alg, s, cseed, pseed);
    case Import(priv, pub) => ImportedIsCompletedIff(alg, s, priv, pub);
    case ReplacePublic(data) =>
      if was {
        ReplacedIsCompletedIff(alg, s, data);
      }
  }

  /** Over every run, buffers keep their sizes, and a finished key has the whole layout. */
  lemma {:induction false} EveryRunKeepsLayout(alg: Algorithm, actions: seq<Action>, run: seq<KeyState>)
    requires IsRun(alg, actions, run)
    ensures Shaped(alg, run[|actions|])
    ensures !alg.Hybrid() ==> run[|actions|].pkey.None?
    ensures Finished(alg, actions, run) ==> Completed(alg, run[|actions|])
    decreases |actions|
  {
    if |actions| > 0 {
      var n := |actions| - 1;
      EveryRunKeepsLayout(alg, actions[..n], run[..n + 1]);
      assert run[..n + 1][n] == run[n];
      assert Follows(alg, run[n], actions[n], run[n + 1]);
      StepFinishes(alg, run[n], actions[n], run[n + 1], Finished(alg, actions[..n], run[..n + 1]));
    }
  }

  /** Whether the operation also leaves the classical key the public buffer encodes. */
  ghost predicate Keeps(alg: Algorithm, s: KeyState, a: Action, t: KeyState, was: bool)
    requires Follows(alg, s, a, t) && (was ==> Completed(alg, s)) && Completed(alg, t)
  {
    match a
    case Decode(_) => true
    case Generate(_, _) => true
    case Import(priv, pub) =>
      && HeadersWithinTable(alg, Loaded(s, priv, pub))
      && ImportAgrees(alg, Loaded(s, priv, pub))
    case Allocate(_) => was && t == s
    case ReplacePublic(_) =>
      && was && s.pub.Some? && t.pub.Some?
      && (alg.Hybrid() ==> ClassicalPart(t.pub.value) == ClassicalPart(s.pub.value))
  }

  lemma StepAgrees(alg: Algorithm, s: KeyState, a: Action, t: KeyState, was: bool)
    requires Follows(alg, s, a, t) && (!alg.Hybrid() ==> s.pkey.None?)
    requires was ==> Completed(alg, s) && Agrees(alg, s)
    requires Completed(alg, t) && Keeps(alg, s, a, t, was)
    ensures Agrees(alg, t)
  {
    match a
    case Decode(blob) => DecodedAgrees(alg, blob);
    case Allocate(_) =>
    case Generate(cseed, pseed) => GeneratedAgrees(alg, s, cseed, pseed);
    case Import(priv, pub) => ImportedAgreesIff(alg, s, priv, pub);
    case ReplacePublic(data) => ReplacedAgreesIff(alg, s, data);
  }

  ghost predicate InStep(alg: Algorithm, actions: seq<Action>, run: seq<KeyState>)
    requires IsRun(alg, actions, run)
    ensures InStep(alg, actions, run) ==> Completed(alg, run[|actions|])
    decreases |actions|
  {
    && |actions| > 0
    && Completed(alg, run[|actions|])
    && var n := |actions| - 1;
    assert run[..n + 1][n] == run[n];
    Keeps(alg, run[n], actions[n], run[n + 1], InStep(alg, actions[..n], run[..n + 1]))
  }

  /** Over every run, a finished key whose last generation, decoding or import left matching halves, and whose
      public bytes have only been replaced since by ones with the same classical part, has the classical key its
      public buffer encodes. */
  lemma {:induction false} EveryRunKeepsAgreement(alg: Algorithm, actions: seq<Action>, run: seq<KeyState>)
    requires IsRun(alg, actions, run) && InStep(alg, actions, run)
    ensures Completed(alg, run[|actions|]) && Agrees(alg, run[|actions|])
    decreases |actions|
  {
    var n := |actions| - 1;
    var was := InStep(alg, actions[..n], run[..n + 1]);
    EveryRunKeepsLayout(alg, actions[..n], run[..n + 1]);
    assert run[..n + 1][n] == run[n];
    if was {
      EveryRunKeepsAgreement(alg, actions[..n], run[..n + 1]);
    }
    StepAgrees(alg, run[n], actions[n], run[n + 1], was);
  }
}
