/** A duplicated signature context and the one it was made from, driven in any interleaving. */
module SigDuplicates {
  import opened Options
  import opened Bytes
  import opened Schemes
  import opened KeyLayout
  import opened HybridSig
  import opened Keys
  import opened SigStreams
  import opened SigContext

  /** A step of one of two contexts: a call, an initialisation with one of two keys, or its release. */
  datatype Event =
    | Do(left: bool, call: Call)
    | Start(left: bool, name: Option<string>, second: bool, op: Operation)
    | Release(left: bool)

  /** What does not change about a key: the name of its algorithm and which halves it has. */
  datatype KeyFacts = KeyFacts(name: string, priv: bool, pub: bool)

  /** The call of the state machine an event stands for. */
  function Meaning(e: Event, k0: KeyFacts, k1: KeyFacts): Call
    requires !e.Release?
  {
    match e
    case Do(_, call) => call
    case Start(_, name, second, op) =>
      var k := if second then k1 else k0;
      Init(name, k.name, HasHalf(k.priv, k.pub, op), op)
  }

  /** The calls made on one side. */
  function Calls(events: seq<Event>, left: bool, k0: KeyFacts, k1: KeyFacts): seq<Call> {
    if events == [] then []
    else
      var last := events[|events| - 1];
      Calls(events[..|events| - 1], left, k0, k1) +
      if last.left == left && !last.Release? then [Meaning(last, k0, k1)] else []
  }

  /** Both contexts are in order, and nothing was ever allocated for both. */
  ghost predicate Separate(a: SigCtx, b: SigCtx)
    reads a, b
  {
    a != b && a.Valid() && b.Valid() && a.Conserved() && b.Conserved() && a.born !! b.born
  }

  // ---- the keys ----

  /** Two keys, possibly the same, the states they are in, and how many others hold each. */
  datatype Accounts = Accounts(k0: OqsxKey, s0: KeyState, r0: int, k1: OqsxKey, s1: KeyState, r1: int)

  /** Neither key has been touched, but for its count, or torn down. */
  ghost predicate Stand(acc: Accounts)
    reads acc.k0`privkey, acc.k0`pubkey, acc.k0`compPrivkey, acc.k0`compPubkey, acc.k0`classicalPkey, acc.k0`freed
    reads acc.k1`privkey, acc.k1`pubkey, acc.k1`compPrivkey, acc.k1`compPubkey, acc.k1`classicalPkey, acc.k1`freed
    reads acc.k0.privkey, acc.k0.pubkey, acc.k1.privkey, acc.k1.pubkey
  {
    acc.k0.Standing() == Some(acc.s0) && acc.k1.Standing() == Some(acc.s1)
  }

  ghost predicate SigKeys(acc: Accounts) {
    SigKey(acc.k0.alg, acc.s0) && SigKey(acc.k1.alg, acc.s1)
  }

  function Holding(ctx: SigCtx, live: bool, key: OqsxKey): nat
    reads ctx`sig
  {
    if live && ctx.sig == key then 1 else 0
  }

  /** Each count is the contexts that hold the key and the others, of which there are some. */
  predicate Balanced(acc: Accounts, a: SigCtx, aLive: bool, b: SigCtx, bLive: bool)
    reads acc.k0`references, acc.k1`references, a`sig, b`sig
  {
    && acc.r0 >= 1 && acc.k0.references == acc.r0 + Holding(a, aLive, acc.k0) + Holding(b, bLive, acc.k0)
    && acc.r1 >= 1 && acc.k1.references == acc.r1 + Holding(a, aLive, acc.k1) + Holding(b, bLive, acc.k1)
  }

  predicate HoldsOne(ctx: SigCtx, acc: Accounts)
    reads ctx`sig
  {
    ctx.sig == acc.k0 || ctx.sig == acc.k1
  }

  ghost function Facts(alg: Algorithm, s: KeyState): KeyFacts {
    KeyFacts(alg.tlsName, s.priv.Some?, s.pub.Some?)
  }

  // ---- one event ----

  /** Initialisations name a key and are for signing or verifying. */
  predicate Lawful(e: Event) {
    (e.Do? ==> !e.call.Init?) && (e.Start? ==> e.op.SignOperation? || e.op.VerifyOperation?)
  }

  /** And nothing is done on a side after its release. */
  predicate Legal(events: seq<Event>) {
    && (forall e <- events :: Lawful(e))
    && forall i, j :: 0 <= i < j < |events| && events[i].Release? ==> events[j].left != events[i].left
  }

  /** A call: the keys are not concerned. */
  method AdvanceByCall(x: SigCtx, call: Call, signature: seq<Byte>, cseed: Seed, pseed: Seed, ghost acc: Accounts)
    requires x.Valid() && x.Conserved() && HoldsOne(x, acc) && !call.Init? && HeaderInBuffer(signature)
    requires Stand(acc) && SigKeys(acc)
    modifies x`allowMd, x`mddata, x`mdsize, x`mdctx, x`aid, x`md, x`mdname, x`born, x`gone, x.mdctx
    ensures x.Valid() && x.Conserved() && x.Kept()
    ensures x.View() == Next(x.lib, old(x.View()), call)
  {
    assert x.sig.Standing().Some? && SigKey(x.sig.alg, x.sig.Standing().value);
    x.Perform(call, signature, cseed, pseed);
  }

  predicate Fits(facts: KeyFacts, key: OqsxKey)
    reads key`privkey, key`pubkey
  {
    facts == KeyFacts(key.alg.tlsName, key.privkey != null, key.pubkey != null)
  }

  /** An initialisation moves one count to another, or none. */
  method AdvanceByInit(x: SigCtx, ghost y: SigCtx, ghost yLive: bool, e: Event, ghost f0: KeyFacts, ghost f1: KeyFacts,
                       key: OqsxKey, ghost acc: Accounts)
    requires x != y && x.Valid() && x.Conserved() && HoldsOne(x, acc) && Balanced(acc, x, true, y, yLive)
    requires e.Start? && (e.op.SignOperation? || e.op.VerifyOperation?) && !acc.k0.freed && !acc.k1.freed
    requires Fits(f0, acc.k0) && Fits(f1, acc.k1) && key == if e.second then acc.k1 else acc.k0
    modifies x`sig, x`operation, x`allowMd, x`mdctx, x`aid, x`md, x`mdname, x`born, x`gone
    modifies acc.k0`references, acc.k1`references
    ensures x.Valid() && x.Conserved() && x.Kept() && HoldsOne(x, acc) && Balanced(acc, x, true, y, yLive)
    ensures x.View() == Next(x.lib, old(x.View()), Meaning(e, f0, f1))
  {
    var ok := x.DigestInit(e.name, key, e.op);
  }

  /** A release gives back what is left, and one count. */
  method AdvanceByRelease(x: SigCtx, ghost y: SigCtx, ghost yLive: bool, ghost acc: Accounts)
    requires x != y && x.Valid() && x.Conserved() && HoldsOne(x, acc) && Balanced(acc, x, true, y, yLive)
    modifies x`mdctx, x`md, x`mddata, x`mdsize, x`aid, x`propq, x`gone, acc.k0`references, acc.k1`references
    ensures x.Valid() && x.Conserved() && x.Kept() && x.gone == x.born && Balanced(acc, x, false, y, yLive)
  {
    var buffers, digest := x.Free();
  }

  /** One event on `x`, which is live. It touches `x`, its digest context and the counts of keys, no more. */
  method Advance(x: SigCtx, ghost y: SigCtx, ghost yLive: bool, e: Event, ghost acc: Accounts, k0: OqsxKey, k1: OqsxKey,
                 signature: seq<Byte>, cseed: Seed, pseed: Seed)
    requires acc.k0 == k0 && acc.k1 == k1 && Stand(acc) && SigKeys(acc)
    requires x != y && x.Valid() && x.Conserved() && HoldsOne(x, acc) && Balanced(acc, x, true, y, yLive)
    requires Lawful(e) && HeaderInBuffer(signature)
    modifies x, x.mdctx, k0`references, k1`references
    ensures x.Valid() && x.Conserved() && x.Kept() && HoldsOne(x, acc) && Balanced(acc, x, !e.Release?, y, yLive)
    ensures if e.Release? then x.gone == x.born
            else x.View() == Next(x.lib, old(x.View()), Meaning(e, Facts(k0.alg, acc.s0), Facts(k1.alg, acc.s1)))
  {
    match e
    case Do(_, call) => AdvanceByCall(x, call, signature, cseed, pseed, acc);
    case Start(_, _, second, _) =>
      ghost var f0, f1 := Facts(k0.alg, acc.s0), Facts(k1.alg, acc.s1);
      AdvanceByInit(x, y, yLive, e, f0, f1, if second then k1 else k0, acc);
    case Release(_) => AdvanceByRelease(x, y, yLive, acc);
  }

  /** And the keys stand as they did. */
  method AdvanceStanding(x: SigCtx, ghost y: SigCtx, ghost yLive: bool, e: Event, ghost acc: Accounts,
                         k0: OqsxKey, k1: OqsxKey, signature: seq<Byte>, cseed: Seed, pseed: Seed)
    requires acc.k0 == k0 && acc.k1 == k1 && Stand(acc) && SigKeys(acc)
    requires x != y && x.Valid() && x.Conserved() && HoldsOne(x, acc) && Balanced(acc, x, true, y, yLive)
    requires Lawful(e) && HeaderInBuffer(signature)
    modifies x, x.mdctx, k0`references, k1`references
    ensures x.Valid() && x.Conserved() && x.Kept() && HoldsOne(x, acc) && Balanced(acc, x, !e.Release?, y, yLive)
    ensures if e.Release? then x.gone == x.born
            else x.View() == Next(x.lib, old(x.View()), Meaning(e, Facts(k0.alg, acc.s0), Facts(k1.alg, acc.s1)))
    ensures Stand(acc)
  {
    Advance(x, y, yLive, e, acc, k0, k1, signature, cseed, pseed);
  }

  /** The same with the other context in view: it does not change, and nothing comes to belong to both. */
  method Turn(x: SigCtx, y: SigCtx, ghost yLive: bool, e: Event, ghost acc: Accounts, k0: OqsxKey, k1: OqsxKey,
              signature: seq<Byte>, cseed: Seed, pseed: Seed)
    requires acc.k0 == k0 && acc.k1 == k1 && Stand(acc) && SigKeys(acc)
    requires Separate(x, y) && HoldsOne(x, acc) && Balanced(acc, x, true, y, yLive)
    requires Lawful(e) && HeaderInBuffer(signature)
    modifies x, x.mdctx, k0`references, k1`references
    ensures Separate(x, y) && HoldsOne(x, acc) && Balanced(acc, x, !e.Release?, y, yLive) && Stand(acc)
    ensures x.Kept() && unchanged(y) && y.View() == old(y.View())
    ensures if e.Release? then x.gone == x.born
            else x.View() == Next(x.lib, old(x.View()), Meaning(e, Facts(k0.alg, acc.s0), Facts(k1.alg, acc.s1)))
  {
    assert x.mdctx != null ==> x.mdctx != y.mdctx;
    AdvanceStanding(x, y, yLive, e, acc, k0, k1, signature, cseed, pseed);
    assert x.born !! y.born;
  }

  // ---- lists of events ----

  /** Whether a side is live after the first `n` events; and the calls made on it. */
  predicate LiveAfter(events: seq<Event>, n: nat, left: bool)
    requires n <= |events|
  {
    Release(left) !in events[..n]
  }

  function CallsUntil(events: seq<Event>, n: nat, left: bool, k0: KeyFacts, k1: KeyFacts): seq<Call>
    requires n <= |events|
  {
    Calls(events[..n], left, k0, k1)
  }

  lemma OneMoreEvent(lib: Library, v: CtxView, events: seq<Event>, n: nat, left: bool, k0: KeyFacts, k1: KeyFacts)
    requires n < |events| && Legal(events) && v.keyName.Some?
    ensures events[n].left == left ==> LiveAfter(events, n, left)
    ensures LiveAfter(events, n + 1, left) <==> LiveAfter(events, n, left) && events[n] != Release(left)
    ensures Run(lib, v, CallsUntil(events, n + 1, left, k0, k1))
         == if events[n].left == left && !events[n].Release? then
              Next(lib, Run(lib, v, CallsUntil(events, n, left, k0, k1)), Meaning(events[n], k0, k1))
            else Run(lib, v, CallsUntil(events, n, left, k0, k1))
  {
    assert events[..n + 1] == events[..n] + [events[n]] && events[..n + 1][..n] == events[..n];
    var before := CallsUntil(events, n, left, k0, k1);
    assert before + [] == before;
    if events[n].left == left && !events[n].Release? {
      RunOneMore(lib, v, before, Meaning(events[n], k0, k1));
    }
  }

  /** A context that has not been released is where its own calls among the first `n` events lead; one that has, has
      given back everything that was ever allocated for it. */
  ghost predicate Led(ctx: SigCtx, v: CtxView, events: seq<Event>, n: nat, left: bool, k0: KeyFacts, k1: KeyFacts)
    requires n <= |events|
    reads ctx, ctx.aid, ctx.mdctx, ctx.mddata
  {
    && v.keyName.Some?
    && if LiveAfter(events, n, left) then ctx.View() == Run(ctx.lib, v, CallsUntil(events, n, left, k0, k1))
       else ctx.gone == ctx.born
  }

  /** The situation after `n` events. */
  ghost predicate Driven(a: SigCtx, b: SigCtx, events: seq<Event>, n: nat, acc: Accounts, va: CtxView, vb: CtxView)
    requires n <= |events|
    reads acc.k0`references, acc.k1`references, a, a.aid, a.mdctx, a.mddata, b, b.aid, b.mdctx, b.mddata
  {
    && Separate(a, b) && HoldsOne(a, acc) && HoldsOne(b, acc)
    && Balanced(acc, a, LiveAfter(events, n, true), b, LiveAfter(events, n, false))
    && Led(a, va, events, n, true, Facts(acc.k0.alg, acc.s0), Facts(acc.k1.alg, acc.s1))
    && Led(b, vb, events, n, false, Facts(acc.k0.alg, acc.s0), Facts(acc.k1.alg, acc.s1))
  }

  /** Event `n`, on the one side. */
  method LeftTurn(a: SigCtx, b: SigCtx, events: seq<Event>, n: nat, ghost acc: Accounts, k0: OqsxKey, k1: OqsxKey,
                  signature: seq<Byte>, cseed: Seed, pseed: Seed, ghost va: CtxView, ghost vb: CtxView)
    requires n < |events| && Legal(events) && events[n].left && acc.k0 == k0 && acc.k1 == k1 && Stand(acc)
    requires SigKeys(acc)
    requires HeaderInBuffer(signature) && Driven(a, b, events, n, acc, va, vb)
    modifies a, a.mdctx, k0`references, k1`references
    ensures Driven(a, b, events, n + 1, acc, va, vb) && Stand(acc) && a.Kept()
  {
    ghost var f0, f1 := Facts(k0.alg, acc.s0), Facts(k1.alg, acc.s1);
    OneMoreEvent(a.lib, va, events, n, true, f0, f1);
    OneMoreEvent(b.lib, vb, events, n, false, f0, f1);
    assert events[n] in events;
    Turn(a, b, LiveAfter(events, n, false), events[n], acc, k0, k1, signature, cseed, pseed);
  }

  /** And on the other. */
  method RightTurn(a: SigCtx, b: SigCtx, events: seq<Event>, n: nat, ghost acc: Accounts, k0: OqsxKey, k1: OqsxKey,
                  signature: seq<Byte>, cseed: Seed, pseed: Seed, ghost va: CtxView, ghost vb: CtxView)
    requires n < |events| && Legal(events) && !events[n].left && acc.k0 == k0 && acc.k1 == k1 && Stand(acc)
    requires SigKeys(acc)
    requires HeaderInBuffer(signature) && Driven(a, b, events, n, acc, va, vb)
    modifies b, b.mdctx, k0`references, k1`references
    ensures Driven(a, b, events, n + 1, acc, va, vb) && Stand(acc) && b.Kept()
  {
    ghost var f0, f1 := Facts(k0.alg, acc.s0), Facts(k1.alg, acc.s1);
    OneMoreEvent(a.lib, va, events, n, true, f0, f1);
    OneMoreEvent(b.lib, vb, events, n, false, f0, f1);
    assert events[n] in events;
    Turn(b, a, LiveAfter(events, n, true), events[n], acc, k0, k1, signature, cseed, pseed);
  }

  method EitherTurn(a: SigCtx, b: SigCtx, events: seq<Event>, n: nat, ghost acc: Accounts, k0: OqsxKey, k1: OqsxKey,
                    signature: seq<Byte>, cseed: Seed, pseed: Seed, ghost va: CtxView, ghost vb: CtxView)
    requires n < |events| && Legal(events) && acc.k0 == k0 && acc.k1 == k1 && Stand(acc) && SigKeys(acc)
    requires HeaderInBuffer(signature) && Driven(a, b, events, n, acc, va, vb)
    modifies a, a.mdctx, b, b.mdctx, k0`references, k1`references
    ensures Driven(a, b, events, n + 1, acc, va, vb) && Stand(acc) && a.Kept() && b.Kept()
  {
    if events[n].left {
      LeftTurn(a, b, events, n, acc, k0, k1, signature, cseed, pseed, va, vb);
    } else {
      RightTurn(a, b, events, n, acc, k0, k1, signature, cseed, pseed, va, vb);
    }
  }

  /** The events from the `n`-th on. */
  method DriveFrom(a: SigCtx, b: SigCtx, events: seq<Event>, n: nat, ghost acc: Accounts, k0: OqsxKey, k1: OqsxKey,
                   signature: seq<Byte>, cseed: Seed, pseed: Seed, ghost va: CtxView, ghost vb: CtxView)
    requires n <= |events| && Legal(events) && acc.k0 == k0 && acc.k1 == k1 && Stand(acc) && SigKeys(acc)
    requires HeaderInBuffer(signature) && Driven(a, b, events, n, acc, va, vb)
    modifies a, a.mdctx, b, b.mdctx, k0`references, k1`references
    ensures Driven(a, b, events, |events|, acc, va, vb) && Stand(acc) && a.Kept() && b.Kept()
    decreases |events| - n
  {
    if n < |events| {
      EitherTurn(a, b, events, n, acc, k0, k1, signature, cseed, pseed, va, vb);
      DriveFrom(a, b, events, n + 1, acc, k0, k1, signature, cseed, pseed, va, vb);
    }
  }

  lemma NothingDrivenYet(a: SigCtx, b: SigCtx, events: seq<Event>, acc: Accounts)
    requires Separate(a, b) && HoldsOne(a, acc) && HoldsOne(b, acc) && Balanced(acc, a, true, b, true)
    ensures Driven(a, b, events, 0, acc, a.View(), b.View())
  {
  }

  /** Two contexts that share nothing but keys, driven in any interleaving of calls, initialisations and at most one
      release each. Each is where its own calls lead, or, once released, has given back everything that was ever
      allocated for it. At every moment what a context was given and has not given back is exactly its parts
      (`Conserved`), nothing was ever allocated for both, and nothing is forgotten (`Kept`). The others' references
      to the keys are what they were. */
  method DriveInterleaved(a: SigCtx, b: SigCtx, events: seq<Event>, ghost acc: Accounts, k0: OqsxKey, k1: OqsxKey,
                          signature: seq<Byte>, cseed: Seed, pseed: Seed)
    requires acc.k0 == k0 && acc.k1 == k1 && Stand(acc) && SigKeys(acc) && Balanced(acc, a, true, b, true)
    requires Separate(a, b) && HoldsOne(a, acc) && HoldsOne(b, acc) && Legal(events) && HeaderInBuffer(signature)
    modifies a, a.mdctx, b, b.mdctx, k0`references, k1`references
    ensures Driven(a, b, events, |events|, acc, old(a.View()), old(b.View())) && Stand(acc)
    ensures a.Kept() && b.Kept()
  {
    NothingDrivenYet(a, b, events, acc);
    DriveFrom(a, b, events, 0, acc, k0, k1, signature, cseed, pseed, a.View(), b.View());
  }

  /** A duplicate stands apart from its original and is a holder of the key beside it. */
  method Duplicated(ctx: SigCtx, ghost acc: Accounts, k0: OqsxKey) returns (dup: SigCtx)
    requires acc.k0 == k0 && k0 != acc.k1 && Stand(acc) && ctx.Valid() && ctx.Conserved() && ctx.sig == k0
    requires acc.r0 >= 1 && acc.r1 >= 1 && k0.references == acc.r0 + 1 && acc.k1.references == acc.r1
    modifies k0`references
    ensures fresh(dup) && fresh(dup.born) && Separate(ctx, dup) && dup.View() == ctx.View()
    ensures (dup.mdctx != null ==> fresh(dup.mdctx)) && unchanged(ctx) && ctx.View() == old(ctx.View())
    ensures dup.sig == k0 && Balanced(acc, ctx, true, dup, true) && Stand(acc)
  {
    dup := ctx.Dup();
  }

  /** So after a duplication, whatever is done with the two contexts in whatever order, neither notices the other. */
  method DuplicatesAreIndependent(ctx: SigCtx, events: seq<Event>, ghost acc: Accounts, k0: OqsxKey, k1: OqsxKey,
                                  signature: seq<Byte>, cseed: Seed, pseed: Seed)
    returns (dup: SigCtx)
    requires acc.k0 == k0 && acc.k1 == k1 && k0 != k1 && Stand(acc) && SigKeys(acc)
    requires ctx.Valid() && ctx.Conserved() && ctx.sig == k0
    requires acc.r0 >= 1 && acc.r1 >= 1 && k0.references == acc.r0 + 1 && k1.references == acc.r1
    requires Legal(events) && HeaderInBuffer(signature)
    modifies ctx, ctx.mdctx, k0`references, k1`references
    ensures fresh(dup) && fresh(dup.born) && ctx.Kept() && Stand(acc)
    ensures Driven(ctx, dup, events, |events|, acc, old(ctx.View()), old(ctx.View()))
  {
    dup := Duplicated(ctx, acc, k0);
    DriveInterleaved(ctx, dup, events, acc, k0, k1, signature, cseed, pseed);
  }

  /** The special case of releasing both at once, with what goes back. */
  method FreeBoth(a: SigCtx, b: SigCtx)
    returns (buffersA: set<array<Byte>>, digestA: MdCtx?, ghost between: CtxView,
             buffersB: set<array<Byte>>, digestB: MdCtx?)
    requires Separate(a, b) && a.sig == b.sig && a.sig != null
    modifies a, b, a.sig
    ensures between == old(b.View())
    ensures buffersA == old(a.Owned()) && buffersB == old(b.Owned()) && buffersA !! buffersB
    ensures digestA == old(a.mdctx) && digestB == old(b.mdctx) && (digestA != null ==> digestA != digestB)
    ensures a.gone == a.born == old(a.born) && b.gone == b.born == old(b.born)
    ensures old(a.sig).references == old(a.sig.references) - 2
  {
    OwnedApart(a, b);
    buffersA, digestA := a.Free();
    between := b.View();
    buffersB, digestB := b.Free();
  }

  lemma OwnedApart(a: SigCtx, b: SigCtx)
    requires Separate(a, b)
    ensures a.Owned() !! b.Owned() && (a.mdctx != null ==> a.mdctx != b.mdctx)
  {
    assert forall r <- a.Owned() :: r in a.born;
    assert forall r <- b.Owned() :: r in b.born;
  }
}
