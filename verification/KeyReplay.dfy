/** Lists of operations carried out on the key object: the object goes where the runs of states say. */
module KeyReplay {
  import opened Options
  import opened Bytes
  import opened Schemes
  import opened KeyLayout
  import opened KeyAgreement
  import opened KeyRuns
  import opened Keys

  /** What the source takes for granted holds of each action in the state it meets. */
  ghost predicate AllSound(alg: Algorithm, actions: seq<Action>) {
    forall i, run: seq<KeyState> {:trigger IsRun(alg, actions[..i], run)} ::
      0 <= i < |actions| && IsRun(alg, actions[..i], run) && Shaped(alg, run[i]) ==> Sound(alg, run[i], actions[i])
  }

  /** One operation on the object; `ok` when it does what it is asked to. Key generation whose classical half fails
      does not, whatever it returns. */
  method Perform(key: OqsxKey, a: Action) returns (ok: bool)
    requires key.Valid() && Sound(key.alg, key.State(), a)
    modifies key, key.pubkey, key.privkey
    ensures key.Valid()
    ensures key.privkey == old(key.privkey) || key.privkey == null || fresh(key.privkey)
    ensures key.pubkey == old(key.pubkey) || key.pubkey == null || fresh(key.pubkey)
    ensures ok <==> After(key.alg, old(key.State()), a).Some?
    ensures ok ==> After(key.alg, old(key.State()), a) == Some(key.State())
  {
    match a
    case Decode(blob) => ok := DecodePrivateInto(key, blob);
    case Allocate(private) => var ret := key.AllocateKeymaterial(private); ok := true;
    case Generate(cseed, pseed) =>
      var ret := key.Gen(cseed, pseed);
      ok := ret == 0 && !key.ClassicalHalfFails(cseed);
    case Import(priv, pub) => ok := key.FromData(priv, pub);
    case ReplacePublic(data) => ok := ReplacePublic(key, data);
  }

  method ReplacePublic(key: OqsxKey, data: seq<Byte>) returns (ok: bool)
    requires key.Valid() && Replaceable(key.alg, key.State())
    modifies key`privkey, key`pubkey, key`compPubkey, key.pubkey
    ensures key.Valid()
    ensures key.privkey == old(key.privkey) || key.privkey == null
    ensures key.pubkey == old(key.pubkey) || fresh(key.pubkey)
    ensures ok <==> PublicReplaced(key.alg, old(key.State()), data).Some?
    ensures ok ==> PublicReplaced(key.alg, old(key.State()), data) == Some(key.State())
  {
    if key.alg.HybridKem() {
      assert key.State().compPub[0] == SlotsOf(key.compPubkey, key.pubkey)[0];
    }
    ok := key.SetEncodedPublic(data);
  }

  /** A new key and a list of operations, up to the first that fails. If none does, the states the object went
      through are a run. */
  method Replay(alg: Algorithm, actions: seq<Action>) returns (key: OqsxKey, ok: bool, ghost run: seq<KeyState>)
    requires alg.Valid() && AllSound(alg, actions)
    ensures key.alg == alg && key.Valid() && fresh(key.Footprint())
    ensures ok ==> IsRun(alg, actions, run) && key.State() == run[|actions|]
  {
    key := new OqsxKey(alg);
    ok, run := true, [key.State()];
    for i := 0 to |actions|
      invariant key.alg == alg && key.Valid() && fresh(key.Footprint())
      invariant ok ==> IsRun(alg, actions[..i], run) && key.State() == run[i]
    {
      if ok {
        EveryRunKeepsLayout(alg, actions[..i], run);
        ok := Perform(key, actions[i]);
        if ok {
          RunGrows(alg, actions, i, run, key.State());
          run := run + [key.State()];
        }
      }
    }
    assert actions[..|actions|] == actions;
  }

  lemma RunGrows(alg: Algorithm, actions: seq<Action>, i: nat, run: seq<KeyState>, next: KeyState)
    requires i < |actions| && IsRun(alg, actions[..i], run) && Follows(alg, run[i], actions[i], next)
    ensures IsRun(alg, actions[..i + 1], run + [next])
  {
    var longer := run + [next];
    forall j | 0 <= j < i + 1 ensures Follows(alg, longer[j], actions[..i + 1][j], longer[j + 1]) {
      if j < i {
        assert Follows(alg, run[j], actions[..i][j], run[j + 1]);
      }
    }
  }

  /** So whatever is done with a key object, its buffers keep their sizes, a finished key has the whole layout, and
      one whose halves were kept in step has the classical key its public buffer encodes. */
  method ReplayKeepsLayout(alg: Algorithm, actions: seq<Action>)
    returns (key: OqsxKey, ok: bool, ghost run: seq<KeyState>)
    requires alg.Valid() && AllSound(alg, actions)
    ensures key.alg == alg && key.Valid()
    ensures ok ==>
              && IsRun(alg, actions, run) && key.State() == run[|actions|] && Shaped(alg, key.State())
              && (Finished(alg, actions, run) ==> Completed(alg, key.State()))
              && (InStep(alg, actions, run) ==> Completed(alg, key.State()) && Agrees(alg, key.State()))
  {
    key, ok, run := Replay(alg, actions);
    if ok {
      EveryRunKeepsLayout(alg, actions, run);
      if InStep(alg, actions, run) {
        EveryRunKeepsAgreement(alg, actions, run);
      }
    }
  }
}
