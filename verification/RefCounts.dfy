/** Reference counting over every interleaving: keys shared between threads, each handle a slot some thread
    owns, every atomic read-modify-write a step of its own. */
module RefCounts {
  import opened Options

  type Key = nat
  type Thread = nat

  /** Where a counted pointer lives: a variable of whoever created the key, a KEM or signature context, or a
      local of a thread between taking its reference and storing it. */
  datatype Slot = Creator(id: nat) | Context(id: nat) | Local(thread: Thread)

  /** How far a thread is in an initialisation (or duplication) or a release. */
  datatype Pc =
    | Idle
    | Releasing(ctx: Slot, key: Key)               // has taken its reference, will release what ctx holds
    | Storing(ctx: Slot, key: Key)                 // will store the new key in ctx
    | TearingDown(dead: Key, after: Option<(Slot, Key)>)  // brought the count to zero; perhaps a store to follow

  datatype State = State(
    refs: map<Key, int>,      // the `references` fields
    torn: map<Key, nat>,      // how often each key has been torn down
    lost: map<Key, nat>,      // how many of its handles were dropped without a release
    held: map<Slot, Key>,     // live handles
    pcs: map<Thread, Pc>)

  datatype Step =
    | New(t: Thread, slot: Slot, key: Key)   // oqsx_key_new
    | UpRef(t: Thread, src: Slot, ctx: Slot) // init or dupctx: the atomic increment
    | Release(t: Thread)                     // init: the atomic decrement of the old key, if there is one
    | Store(t: Thread)                       // init: the assignment
    | Free(t: Thread, slot: Slot)            // freectx or oqsx_key_free: the atomic decrement
    | Abandon(t: Thread, slot: Slot)         // oqsx_genkey when generation fails: the creator's handle is dropped
    | TearDown(t: Thread)                    // the rest of oqsx_key_free after a decrement to zero

  function PcOf(s: State, t: Thread): Pc {
    if t in s.pcs then s.pcs[t] else Idle
  }

  /** The context a thread is in the middle of changing; contexts are used by one thread at a time. */
  function Busy(pc: Pc): Option<Slot> {
    match pc
    case Idle => None
    case Releasing(ctx, _) => Some(ctx)
    case Storing(ctx, _) => Some(ctx)
    case TearingDown(_, Some((ctx, _))) => Some(ctx)
    case TearingDown(_, None) => None
  }

  /** The key a thread has a reference to in a local. */
  function Pending(pc: Pc): Option<Key> {
    match pc
    case Idle => None
    case Releasing(_, k) => Some(k)
    case Storing(_, k) => Some(k)
    case TearingDown(_, Some((_, k))) => Some(k)
    case TearingDown(_, None) => None
  }

  predicate Untouched(s: State, slot: Slot) {
    !slot.Local? && forall t <- s.pcs :: Busy(s.pcs[t]) != Some(slot)
  }

  predicate Enabled(s: State, step: Step) {
    match step
    case New(t, slot, key) => PcOf(s, t).Idle? && key !in s.refs && slot !in s.held && Untouched(s, slot)
    case UpRef(t, src, ctx) =>
      && PcOf(s, t).Idle? && src in s.held && s.held[src] in s.refs
      && Untouched(s, src) && Untouched(s, ctx)
    case Release(t) => PcOf(s, t).Releasing? && (PcOf(s, t).ctx in s.held ==> s.held[PcOf(s, t).ctx] in s.refs)
    case Store(t) => PcOf(s, t).Storing?
    case Free(t, slot) => PcOf(s, t).Idle? && slot in s.held && s.held[slot] in s.refs && Untouched(s, slot)
    case Abandon(t, slot) => PcOf(s, t).Idle? && slot.Creator? && slot in s.held
      && s.held[slot] in s.lost && Untouched(s, slot)
    case TearDown(t) => PcOf(s, t).TearingDown? && PcOf(s, t).dead in s.torn
  }

  function Apply(s: State, step: Step): State
    requires Enabled(s, step)
  {
    match step
    case New(t, slot, key) =>
      s.(refs := s.refs[key := 1], torn := s.torn[key := 0], lost := s.lost[key := 0],
         held := s.held[slot := key], pcs := s.pcs[t := Idle])
    case UpRef(t, src, ctx) =>
      var k := s.held[src];
      s.(refs := s.refs[k := s.refs[k] + 1], held := s.held[Local(t) := k], pcs := s.pcs[t := Releasing(ctx, k)])
    case Release(t) =>
      var pc := PcOf(s, t);
      if pc.ctx !in s.held then s.(pcs := s.pcs[t := Storing(pc.ctx, pc.key)])
      else Dropped(s, t, pc.ctx, Some((pc.ctx, pc.key)), Storing(pc.ctx, pc.key))
    case Store(t) =>
      var pc := PcOf(s, t);
      s.(held := (s.held - {Local(t)})[pc.ctx := pc.key], pcs := s.pcs[t := Idle])
    case Free(t, slot) => Dropped(s, t, slot, None, Idle)
    case Abandon(t, slot) =>
      var k := s.held[slot];
      s.(lost := s.lost[k := s.lost[k] + 1], held := s.held - {slot}, pcs := s.pcs[t := Idle])
    case TearDown(t) =>
      var pc := PcOf(s, t);
      s.(torn := s.torn[pc.dead := s.torn[pc.dead] + 1],
         pcs := s.pcs[t := if pc.after.Some? then Storing(pc.after.value.0, pc.after.value.1) else Idle])
  }

  /** The decrement of `oqsx_key_free`; reaching zero commits the thread to the teardown. */
  function Dropped(s: State, t: Thread, slot: Slot, after: Option<(Slot, Key)>, otherwise: Pc): State
    requires slot in s.held && s.held[slot] in s.refs
  {
    var k := s.held[slot];
    s.(refs := s.refs[k := s.refs[k] - 1],
       held := s.held - {slot},
       pcs := s.pcs[t := if s.refs[k] - 1 == 0 then TearingDown(k, after) else otherwise])
  }

  function Holders(s: State, k: Key): set<Slot> {
    set slot | slot in s.held && s.held[slot] == k
  }

  predicate Destroys(s: State, t: Thread, k: Key) {
    PcOf(s, t).TearingDown? && PcOf(s, t).dead == k
  }

  // ---- the invariant ----

  ghost predicate Counts(s: State) {
    && s.refs.Keys == s.torn.Keys == s.lost.Keys
    && (forall slot <- s.held :: s.held[slot] in s.refs)
    && (forall k <- s.refs :: s.refs[k] == |Holders(s, k)| + s.lost[k])
  }

  ghost predicate Teardowns(s: State) {
    && s.refs.Keys == s.torn.Keys
    && (forall k <- s.refs :: s.refs[k] != 0 ==> s.torn[k] == 0 && forall t :: !Destroys(s, t, k))
    && (forall k <- s.refs :: s.refs[k] == 0 ==>
          if s.torn[k] == 0 then exists t :: Destroys(s, t, k)
          else s.torn[k] == 1 && forall t :: !Destroys(s, t, k))
    && (forall k, t, u :: Destroys(s, t, k) && Destroys(s, u, k) ==> t == u)
    && (forall k, t :: Destroys(s, t, k) ==> k in s.refs)
  }

  ghost predicate Locals(s: State) {
    && (forall t :: Local(t) in s.held <==> Pending(PcOf(s, t)).Some?)
    && (forall t :: Local(t) in s.held ==> Pending(PcOf(s, t)) == Some(s.held[Local(t)]))
    && (forall t, c :: Busy(PcOf(s, t)) == Some(c) ==> !c.Local? && (c in s.held ==> PcOf(s, t).Releasing?))
    && (forall t, u, c :: Busy(PcOf(s, t)) == Some(c) && Busy(PcOf(s, u)) == Some(c) ==> t == u)
  }

  ghost predicate Inv(s: State) {
    Counts(s) && Teardowns(s) && Locals(s)
  }

  const START: State := State(map[], map[], map[], map[], map[])

  /** A step of `t` that ends in `pc` keeps the locals in order if it does so for `t` and leaves the others alone. */
  lemma LocalsFrame(s: State, t: Thread, pc: Pc, s': State)
    requires Locals(s) && s'.pcs == s.pcs[t := pc]
    requires forall u :: u != t ==>
               && (Local(u) in s'.held <==> Local(u) in s.held)
               && (Local(u) in s.held ==> s'.held[Local(u)] == s.held[Local(u)])
    requires if Local(t) in s'.held then Pending(pc) == Some(s'.held[Local(t)]) else Pending(pc).None?
    requires Busy(pc).Some? ==>
               && !Busy(pc).value.Local?
               && (Busy(pc).value in s'.held ==> pc.Releasing?)
               && forall u :: u != t ==> Busy(PcOf(s, u)) != Busy(pc)
    requires forall u :: u != t && Busy(PcOf(s, u)).Some? && Busy(PcOf(s, u)).value in s'.held ==>
             Busy(PcOf(s, u)).value in s.held
    ensures Locals(s')
  {
    forall u ensures PcOf(s', u) == if u == t then pc else PcOf(s, u) {
    }
  }

  lemma UntouchedMeansNotBusy(s: State, slot: Slot)
    requires Untouched(s, slot)
    ensures forall u :: Busy(PcOf(s, u)) != Some(slot)
  {
    forall u ensures Busy(PcOf(s, u)) != Some(slot) {
      assert u in s.pcs ==> PcOf(s, u) == s.pcs[u];
    }
  }

  lemma StepKeepsLocals(s: State, step: Step)
    requires Inv(s) && Enabled(s, step)
    ensures Locals(Apply(s, step))
  {
    match step
    case New(_, _, _) => HandleOutsideKeepsLocals(s, step);
    case UpRef(_, _, _) => ChangeOfContextKeepsLocals(s, step);
    case Release(_) => ChangeOfContextKeepsLocals(s, step);
    case Store(_) => ChangeOfContextKeepsLocals(s, step);
    case Free(_, _) => HandleOutsideKeepsLocals(s, step);
    case Abandon(_, _) => HandleOutsideKeepsLocals(s, step);
    case TearDown(_) => HandleOutsideKeepsLocals(s, step);
  }

  lemma ChangeOfContextKeepsLocals(s: State, step: Step)
    requires Inv(s) && Enabled(s, step) && (step.UpRef? || step.Release? || step.Store?)
    ensures Locals(Apply(s, step))
  {
    if step.UpRef? {
      UntouchedMeansNotBusy(s, step.ctx);
    }
    LocalsFrame(s, step.t, Apply(s, step).pcs[step.t], Apply(s, step));
  }

  lemma HandleOutsideKeepsLocals(s: State, step: Step)
    requires Inv(s) && Enabled(s, step) && (step.New? || step.Free? || step.Abandon? || step.TearDown?)
    ensures Locals(Apply(s, step))
  {
    if !step.TearDown? {
      UntouchedMeansNotBusy(s, step.slot);
    }
    LocalsFrame(s, step.t, Apply(s, step).pcs[step.t], Apply(s, step));
  }

  /** One handle more or less changes the count of its own key by one. */
  lemma StepKeepsCounts(s: State, step: Step)
    requires Inv(s) && Enabled(s, step)
    ensures Counts(Apply(s, step))
  {
    match step
    case New(_, _, _) => GainKeepsCounts(s, step);
    case UpRef(_, _, _) => GainKeepsCounts(s, step);
    case Release(t) =>
      if PcOf(s, t).ctx in s.held {
        HolderLeaves(s, PcOf(s, t).ctx, Apply(s, step));
      } else {
        SameHolders(s, Apply(s, step));
      }
    case Free(_, slot) => HolderLeaves(s, slot, Apply(s, step));
    case Abandon(_, _) => MoveKeepsCounts(s, step);
    case Store(_) => MoveKeepsCounts(s, step);
    case TearDown(_) => SameHolders(s, Apply(s, step));
  }

  lemma GainKeepsCounts(s: State, step: Step)
    requires Inv(s) && Enabled(s, step) && (step.New? || step.UpRef?)
    ensures Counts(Apply(s, step))
  {
    if step.New? {
      FirstHolder(s, step.slot, step.key, Apply(s, step));
    } else {
      HolderJoins(s, Local(step.t), s.held[step.src], Apply(s, step));
    }
  }

  lemma MoveKeepsCounts(s: State, step: Step)
    requires Inv(s) && Enabled(s, step) && (step.Store? || step.Abandon?)
    ensures Counts(Apply(s, step))
  {
    if step.Store? {
      HolderMoves(s, Local(step.t), PcOf(s, step.t).ctx, Apply(s, step));
    } else {
      HolderIsLost(s, step.slot, Apply(s, step));
    }
  }

  lemma SameHolders(s: State, s': State)
    requires Counts(s) && s'.held == s.held && s'.refs == s.refs && s'.torn.Keys == s.torn.Keys && s'.lost == s.lost
    ensures Counts(s')
  {
    forall k ensures Holders(s', k) == Holders(s, k) {
    }
  }

  lemma HolderMoves(s: State, from: Slot, to: Slot, s': State)
    requires Counts(s) && from in s.held && to !in s.held
    requires s'.held == (s.held - {from})[to := s.held[from]] && s'.refs == s.refs && s'.torn == s.torn
    requires s'.lost == s.lost
    ensures Counts(s')
  {
    var k := s.held[from];
    assert Holders(s', k) == Holders(s, k) - {from} + {to};
    forall j | j != k ensures Holders(s', j) == Holders(s, j) {
    }
  }

  lemma HolderJoins(s: State, slot: Slot, k: Key, s': State)
    requires Counts(s) && slot !in s.held && k in s.refs
    requires s'.held == s.held[slot := k] && s'.torn == s.torn && s'.lost == s.lost
    requires s'.refs == s.refs[k := s.refs[k] + 1]
    ensures Counts(s')
  {
    OthersKeepHolders(s, slot, k, s');
  }

  lemma FirstHolder(s: State, slot: Slot, k: Key, s': State)
    requires Counts(s) && slot !in s.held && k !in s.refs
    requires s'.held == s.held[slot := k]
    requires s'.torn == s.torn[k := 0] && s'.lost == s.lost[k := 0] && s'.refs == s.refs[k := 1]
    ensures Counts(s')
  {
    assert Holders(s, k) == {};
    OthersKeepHolders(s, slot, k, s');
  }

  lemma OthersKeepHolders(s: State, slot: Slot, k: Key, s': State)
    requires slot !in s.held && s'.held == s.held[slot := k]
    ensures Holders(s', k) == Holders(s, k) + {slot} && slot !in Holders(s, k)
    ensures forall j :: j != k ==> Holders(s', j) == Holders(s, j)
  {
    forall j | j != k ensures Holders(s', j) == Holders(s, j) {
    }
  }

  lemma HolderLeaves(s: State, slot: Slot, s': State)
    requires Counts(s) && slot in s.held
    requires s'.held == s.held - {slot} && s'.torn == s.torn && s'.lost == s.lost
    requires s'.refs == s.refs[s.held[slot] := s.refs[s.held[slot]] - 1]
    ensures Counts(s')
  {
    var k := s.held[slot];
    assert Holders(s', k) == Holders(s, k) - {slot};
    forall j | j in s.refs && j != k ensures Holders(s', j) == Holders(s, j) {
    }
  }

  lemma HolderIsLost(s: State, slot: Slot, s': State)
    requires Counts(s) && slot in s.held
    requires s'.held == s.held - {slot} && s'.torn == s.torn && s'.refs == s.refs
    requires s'.lost == s.lost[s.held[slot] := s.lost[s.held[slot]] + 1]
    ensures Counts(s')
  {
    var k := s.held[slot];
    assert Holders(s', k) == Holders(s, k) - {slot};
    forall j | j in s.refs && j != k ensures Holders(s', j) == Holders(s, j) {
    }
  }

  /** A key some slot holds is counted, so it is not torn down and nobody is about to. */
  lemma HeldIsAlive(s: State, slot: Slot)
    requires Inv(s) && slot in s.held
    ensures s.refs[s.held[slot]] > 0 && s.torn[s.held[slot]] == 0
    ensures forall t :: !Destroys(s, t, s.held[slot])
  {
    assert slot in Holders(s, s.held[slot]);
  }

  /** What a step of `t` has to do for the teardown bookkeeping, key by key. */
  lemma TeardownsFrame(s: State, t: Thread, pc: Pc, s': State)
    requires Teardowns(s) && s'.pcs == s.pcs[t := pc] && s'.refs.Keys == s'.torn.Keys >= s.refs.Keys
    requires forall k <- s'.refs :: k !in s.refs ==> s'.refs[k] != 0 && s'.torn[k] == 0
    requires forall k <- s.refs :: s.refs[k] == 0 ==>
               && s'.refs[k] == 0
               && if Destroys(s, t, k) && !(pc.TearingDown? && pc.dead == k) then s'.torn[k] == s.torn[k] + 1
                  else s'.torn[k] == s.torn[k]
    requires forall k <- s.refs :: s.refs[k] != 0 ==>
               && s'.torn[k] == s.torn[k] && (s'.refs[k] == 0 <==> pc.TearingDown? && pc.dead == k)
    requires pc.TearingDown? ==> pc.dead in s.refs && (s.refs[pc.dead] == 0 ==> Destroys(s, t, pc.dead))
    ensures Teardowns(s')
  {
    forall u ensures PcOf(s', u) == if u == t then pc else PcOf(s, u) {
    }
    forall u, k ensures Destroys(s', u, k) <==> if u == t then pc.TearingDown? && pc.dead == k else Destroys(s, u, k) {
    }
    forall k | k in s'.refs && s'.refs[k] == 0
      ensures if s'.torn[k] == 0 then exists u :: Destroys(s', u, k)
              else s'.torn[k] == 1 && forall u :: !Destroys(s', u, k)
    {
      if s.refs[k] == 0 && s.torn[k] == 0 {
        var u :| Destroys(s, u, k);
        if u != t {
          assert Destroys(s', u, k);
        } else if pc.TearingDown? && pc.dead == k {
          assert Destroys(s', t, k);
        }
      } else if s.refs[k] != 0 {
        assert Destroys(s', t, k);
      }
    }
  }

  lemma StepKeepsTeardowns(s: State, step: Step)
    requires Inv(s) && Enabled(s, step)
    ensures Teardowns(Apply(s, step))
  {
    match step
    case New(_, _, _) => GainKeepsTeardowns(s, step);
    case UpRef(_, _, _) => GainKeepsTeardowns(s, step);
    case Release(_) => DropKeepsTeardowns(s, step);
    case Store(_) => MoveKeepsTeardowns(s, step);
    case Free(_, _) => DropKeepsTeardowns(s, step);
    case Abandon(_, _) => MoveKeepsTeardowns(s, step);
    case TearDown(_) => TearDownKeepsTeardowns(s, step);
  }

  lemma GainKeepsTeardowns(s: State, step: Step)
    requires Inv(s) && Enabled(s, step) && (step.New? || step.UpRef?)
    ensures Teardowns(Apply(s, step))
  {
    if step.UpRef? {
      HeldIsAlive(s, step.src);
    }
    TeardownsFrame(s, step.t, Apply(s, step).pcs[step.t], Apply(s, step));
  }

  lemma MoveKeepsTeardowns(s: State, step: Step)
    requires Inv(s) && Enabled(s, step) && (step.Store? || step.Abandon?)
    ensures Teardowns(Apply(s, step))
  {
    TeardownsFrame(s, step.t, Apply(s, step).pcs[step.t], Apply(s, step));
  }

  lemma TearDownKeepsTeardowns(s: State, step: Step)
    requires Inv(s) && Enabled(s, step) && step.TearDown?
    ensures Teardowns(Apply(s, step))
  {
    assert Destroys(s, step.t, PcOf(s, step.t).dead);
    TeardownsFrame(s, step.t, Apply(s, step).pcs[step.t], Apply(s, step));
  }

  lemma DropKeepsTeardowns(s: State, step: Step)
    requires Inv(s) && Enabled(s, step) && (step.Release? || step.Free?)
    ensures Teardowns(Apply(s, step))
  {
    var s' := Apply(s, step);
    var slot := if step.Free? then step.slot else PcOf(s, step.t).ctx;
    if slot in s.held {
      HeldIsAlive(s, slot);
    }
    TeardownsFrame(s, step.t, s'.pcs[step.t], s');
  }

  lemma StepKeepsInv(s: State, step: Step)
    requires Inv(s) && Enabled(s, step)
    ensures Inv(Apply(s, step))
  {
    StepKeepsLocals(s, step);
    StepKeepsCounts(s, step);
    StepKeepsTeardowns(s, step);
  }

  // ---- runs ----

  ghost predicate IsRun(steps: seq<Step>, run: seq<State>) {
    && |run| == |steps| + 1 && run[0] == START
    && forall i :: 0 <= i < |steps| ==> Enabled(run[i], steps[i]) && run[i + 1] == Apply(run[i], steps[i])
  }

  /** Over every interleaving, `references` is the number of live handles and of handles dropped without a
      release, and no key anybody holds has been or is being torn down. */
  lemma {:induction false} CountIsLiveHandles(steps: seq<Step>, run: seq<State>, i: nat)
    requires IsRun(steps, run) && i < |run|
    ensures Inv(run[i])
    ensures forall k <- run[i].refs :: k in run[i].lost && run[i].refs[k] == |Holders(run[i], k)| + run[i].lost[k]
    ensures forall slot <- run[i].held ::
              var k := run[i].held[slot];
              k in run[i].refs && run[i].torn[k] == 0 && forall t :: !Destroys(run[i], t, k)
  {
    if i > 0 {
      CountIsLiveHandles(steps, run, i - 1);
      StepKeepsInv(run[i - 1], steps[i - 1]);
    }
    forall slot | slot in run[i].held
      ensures var k := run[i].held[slot];
              k in run[i].refs && run[i].torn[k] == 0 && forall t :: !Destroys(run[i], t, k)
    {
      HeldIsAlive(run[i], slot);
    }
  }

  function LostCount(s: State, k: Key): nat {
    if k in s.lost then s.lost[k] else 0
  }

  function TornCount(s: State, k: Key): nat {
    if k in s.torn then s.torn[k] else 0
  }

  /** The key exists and nobody holds it. */
  ghost predicate Released(s: State, k: Key) {
    k in s.refs && Holders(s, k) == {}
  }

  lemma ReleasedStays(s: State, step: Step, k: Key)
    requires Inv(s) && Enabled(s, step) && Released(s, k)
    ensures Released(Apply(s, step), k) && TornCount(Apply(s, step), k) >= TornCount(s, k)
  {
    forall slot | slot in s.held ensures s.held[slot] != k {
      assert slot !in Holders(s, k);
    }
    forall slot | slot in Apply(s, step).held ensures Apply(s, step).held[slot] != k {
    }
  }

  /** Once the last handle of a key is gone, it never gets another. */
  lemma {:induction false} ReleasedForGood(steps: seq<Step>, run: seq<State>, i: nat, j: nat, k: Key)
    requires IsRun(steps, run) && i <= j < |run| && Released(run[i], k)
    ensures Released(run[j], k) && TornCount(run[j], k) >= TornCount(run[i], k)
    decreases j
  {
    if i < j {
      ReleasedForGood(steps, run, i, j - 1, k);
      CountIsLiveHandles(steps, run, j - 1);
      ReleasedStays(run[j - 1], steps[j - 1], k);
    }
  }

  /** Tearing down is a step of its own, of a key nobody holds. */
  lemma TornDownWhenReleased(s: State, step: Step, k: Key)
    requires Inv(s) && Enabled(s, step) && k in s.refs
    requires TornCount(Apply(s, step), k) != TornCount(s, k)
    ensures step.TearDown? && Released(s, k) && LostCount(s, k) == 0 && TornCount(s, k) == 0
    ensures TornCount(Apply(s, step), k) == 1
  {
    assert step.TearDown? && Destroys(s, step.t, k);
    assert |Holders(s, k)| == 0;
  }

  lemma TornAtMostOnce(s: State, k: Key)
    requires Inv(s)
    ensures TornCount(s, k) <= 1
  {
    if k in s.refs && s.refs[k] == 0 {
    }
  }

  /** Each key is torn down in at most one step of a run; then and ever after, nobody holds the key. */
  lemma TornDownOnce(steps: seq<Step>, run: seq<State>, i: nat, k: Key)
    requires IsRun(steps, run) && i < |steps| && k in run[i].refs
    requires TornCount(run[i + 1], k) != TornCount(run[i], k)
    ensures steps[i].TearDown? && TornCount(run[i], k) == 0
    ensures forall j :: i <= j < |run| ==> Released(run[j], k)
    ensures forall j :: i < j < |run| ==> TornCount(run[j], k) == 1
  {
    CountIsLiveHandles(steps, run, i);
    TornDownWhenReleased(run[i], steps[i], k);
    ReleasedStays(run[i], steps[i], k);
    forall j | i <= j < |run| ensures Released(run[j], k) {
      ReleasedForGood(steps, run, i, j, k);
    }
    forall j | i < j < |run| ensures TornCount(run[j], k) == 1 {
      ReleasedForGood(steps, run, i + 1, j, k);
      CountIsLiveHandles(steps, run, j);
      TornAtMostOnce(run[j], k);
    }
  }

  /** What leaks: when every thread is between operations, a key nobody holds has been torn down if and only if
      none of its handles was ever dropped without a release, and a key somebody holds has not. */
  lemma QuietMeansTornIffReleased(steps: seq<Step>, run: seq<State>, i: nat, k: Key)
    requires IsRun(steps, run) && i < |run| && k in run[i].refs
    requires forall t :: PcOf(run[i], t).Idle?
    ensures TornCount(run[i], k) == if Released(run[i], k) && LostCount(run[i], k) == 0 then 1 else 0
  {
    CountIsLiveHandles(steps, run, i);
    assert forall t :: !Destroys(run[i], t, k);
    if !Released(run[i], k) {
      var slot :| slot in Holders(run[i], k);
      assert run[i].held[slot] == k;
    }
  }

  lemma LossIsKept(s: State, step: Step, k: Key)
    requires Inv(s) && Enabled(s, step) && k in s.refs && LostCount(s, k) > 0
    ensures k in Apply(s, step).refs && LostCount(Apply(s, step), k) > 0
  {
  }

  lemma LossKeepsAlive(s: State, k: Key)
    requires Inv(s) && k in s.refs && LostCount(s, k) > 0
    ensures s.refs[k] > 0 && TornCount(s, k) == 0
  {
  }

  lemma {:induction false} LossIsForGood(steps: seq<Step>, run: seq<State>, i: nat, j: nat, k: Key)
    requires IsRun(steps, run) && i <= j < |run| && k in run[i].refs && LostCount(run[i], k) > 0
    ensures k in run[j].refs && LostCount(run[j], k) > 0
    decreases j
  {
    if i < j {
      LossIsForGood(steps, run, i, j - 1, k);
      CountIsLiveHandles(steps, run, j - 1);
      LossIsKept(run[j - 1], steps[j - 1], k);
    }
  }

  /** A key one of whose handles was dropped without a release is never torn down. */
  lemma AbandonedForGood(steps: seq<Step>, run: seq<State>, i: nat, j: nat, k: Key)
    requires IsRun(steps, run) && i <= j < |run| && k in run[i].refs && LostCount(run[i], k) > 0
    ensures k in run[j].refs && run[j].refs[k] > 0 && TornCount(run[j], k) == 0
  {
    LossIsForGood(steps, run, i, j, k);
    CountIsLiveHandles(steps, run, j);
    LossKeepsAlive(run[j], k);
  }

  /** Nothing waits: in every reachable state a thread inside an operation can take the next step of it, and an idle
      one can make a key, take a reference for a context from any handle and release or drop any handle, as long as
      no other thread is changing the contexts concerned. */
  lemma NoThreadIsStuck(steps: seq<Step>, run: seq<State>, i: nat, t: Thread)
    requires IsRun(steps, run) && i < |run|
    ensures PcOf(run[i], t).Releasing? ==> Enabled(run[i], Release(t))
    ensures PcOf(run[i], t).Storing? ==> Enabled(run[i], Store(t))
    ensures PcOf(run[i], t).TearingDown? ==> Enabled(run[i], TearDown(t))
    ensures PcOf(run[i], t).Idle? ==>
              forall slot: Slot |
                !slot.Local? && forall u: Thread <- run[i].pcs :: Busy(run[i].pcs[u]) != Some(slot) ::
                && (slot in run[i].held ==> Enabled(run[i], Free(t, slot)))
                && (slot in run[i].held && slot.Creator? ==> Enabled(run[i], Abandon(t, slot)))
                && (forall key :: slot !in run[i].held && key !in run[i].refs ==> Enabled(run[i], New(t, slot, key)))
                && (forall ctx: Slot :: Untouched(run[i], ctx) && slot in run[i].held ==>
                      Enabled(run[i], UpRef(t, slot, ctx)))
  {
    CountIsLiveHandles(steps, run, i);
    if PcOf(run[i], t).TearingDown? {
      assert Destroys(run[i], t, PcOf(run[i], t).dead);
    } else if PcOf(run[i], t).Idle? {
      IdleIsFree(run[i], t);
    }
  }

  lemma IdleIsFree(s: State, t: Thread)
    requires Counts(s) && PcOf(s, t).Idle?
    ensures forall slot | Untouched(s, slot) && slot in s.held :: Enabled(s, Free(t, slot))
    ensures forall slot | Untouched(s, slot) && slot in s.held && slot.Creator? :: Enabled(s, Abandon(t, slot))
    ensures forall slot, key | Untouched(s, slot) && slot !in s.held && key !in s.refs :: Enabled(s, New(t, slot, key))
    ensures forall slot, ctx | Untouched(s, slot) && Untouched(s, ctx) && slot in s.held ::
              Enabled(s, UpRef(t, slot, ctx))
  {
  }

  /** Re-initialising a context with the key it already holds never brings the count to zero: the new reference
      was taken first. */
  lemma ReinitialisingKeepsTheKey(steps: seq<Step>, run: seq<State>, i: nat)
    requires IsRun(steps, run) && i < |steps| && steps[i].Release?
    requires var pc := PcOf(run[i], steps[i].t); pc.ctx in run[i].held && run[i].held[pc.ctx] == pc.key
    ensures var pc := PcOf(run[i], steps[i].t);
            && pc.key in run[i + 1].refs && run[i + 1].refs[pc.key] >= 1 && TornCount(run[i + 1], pc.key) == 0
            && PcOf(run[i + 1], steps[i].t) == Storing(pc.ctx, pc.key)
  {
    CountIsLiveHandles(steps, run, i);
    var t := steps[i].t;
    var pc := PcOf(run[i], t);
    assert {pc.ctx, Local(t)} <= Holders(run[i], pc.key);
    AtLeastTwo(Holders(run[i], pc.key), pc.ctx, Local(t));
  }

  lemma AtLeastTwo(slots: set<Slot>, a: Slot, b: Slot)
    requires a in slots && b in slots && a != b
    ensures |slots| >= 2
  {
    assert |slots - {a}| == |slots| - 1 && b in slots - {a};
  }
}
