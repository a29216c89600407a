/** The signature context as a state machine over its calls, and what holds over whole runs of calls. */
module SigStreams {
  import opened Options
  import opened Bytes

  /** What the context asks of OpenSSL: whether a digest can be fetched, digests, algorithm identifiers. */
  datatype Library = Library(
    fetch: string -> bool,
    digest: (string, seq<Byte>) -> seq<Byte>,
    algorithmId: string -> seq<Byte>)

  datatype Operation = NoOperation | SignOperation | VerifyOperation

  /** A digest context: what it has absorbed, and whether it has been finalised. */
  datatype Hashing = Hashing(name: string, absorbed: seq<Byte>, finished: bool)

  /** The state of a `PROV_OQSSIG_CTX`, buffers by content. */
  datatype CtxView = CtxView(
    keyName: Option<string>,
    allowMd: bool,
    mdname: string,
    aid: Option<seq<Byte>>,
    md: Option<string>,
    mdctx: Option<Hashing>,
    data: Option<seq<Byte>>,
    operation: Operation)

  const FRESH: CtxView := CtxView(None, false, "", None, None, None, None, NoOperation)

  datatype Call =
    | Init(mdname: Option<string>, keyName: string, hasHalf: bool, op: Operation)
    | Update(chunk: seq<Byte>)
    | SizeQuery
    | SignFinal
    | VerifyFinal
    | SetDigest(name: string)

  /** `oqs_sig_setup_md` with a digest name. */
  function SetUpMd(lib: Library, v: CtxView, name: string): CtxView
    requires v.keyName.Some?
  {
    if !lib.fetch(name) then v
    else v.(mdctx := None, aid := Some(lib.algorithmId(v.keyName.value)), md := Some(name), mdname := name)
  }

  /** The key part of initialisation. */
  function Keyed(v: CtxView, keyName: string, op: Operation): CtxView {
    v.(allowMd := true, keyName := Some(keyName), operation := op)
  }

  /** The digest part of initialisation, if it gets that far: a digest context of its own for a fetched digest. */
  function Started(lib: Library, v: CtxView, go: bool, mdname: Option<string>): CtxView
    requires v.keyName.Some?
  {
    if !go || mdname.None? || !lib.fetch(mdname.value) then v
    else SetUpMd(lib, v, mdname.value).(mdctx := Some(Hashing(mdname.value, [], false)))
  }

  /** Every call but initialisation follows the key pointer somewhere. */
  predicate Callable(v: CtxView, c: Call) {
    c.Init? || v.keyName.Some?
  }

  function Next(lib: Library, v: CtxView, c: Call): (r: CtxView)
    requires Callable(v, c)
    ensures r.keyName.Some?
  {
    match c
    case Init(mdname, keyName, hasHalf, op) =>
      Started(lib, Keyed(v, keyName, op), hasHalf, mdname)
    case Update(chunk) =>
      var locked := v.(allowMd := false);
      if v.mdctx.Some? then
        if v.mdctx.value.finished then locked
        else locked.(mdctx := Some(v.mdctx.value.(absorbed := v.mdctx.value.absorbed + chunk)))
      else if v.data.Some? then locked.(data := Some(v.data.value + chunk))
      else if chunk == [] then locked
      else locked.(data := Some(chunk))
    case SizeQuery => v.(allowMd := true)
    case SignFinal => Finished(v, true)
    case VerifyFinal => Finished(v, v.mdctx.Some?)
    case SetDigest(name) => if v.allowMd then SetUpMd(lib, v, name) else v
  }

  /** The final calls: a digest context is finalised once; `unlock` says whether the digest may be set again. */
  function Finished(v: CtxView, unlock: bool): CtxView {
    if v.mdctx.Some? && v.mdctx.value.finished then v
    else v.(allowMd := v.allowMd || unlock,
            mdctx := if v.mdctx.Some? then Some(v.mdctx.value.(finished := true)) else None)
  }

  /** Whether the call reports success, as far as the context decides it. */
  predicate Succeeds(lib: Library, v: CtxView, c: Call)
    requires Callable(v, c)
  {
    match c
    case Init(mdname, _, hasHalf, _) => hasHalf && (mdname.Some? ==> lib.fetch(mdname.value))
    case Update(chunk) => if v.mdctx.Some? then !v.mdctx.value.finished else v.data.Some? || chunk != []
    case SizeQuery => true
    case SignFinal => v.mdctx.Some? ==> !v.mdctx.value.finished
    case VerifyFinal => v.mdctx.Some? ==> !v.mdctx.value.finished
    case SetDigest(name) => v.allowMd && lib.fetch(name)
  }

  function Collected(v: CtxView): seq<Byte> {
    if v.data.Some? then v.data.value else []
  }

  /** What a final call signs or verifies. */
  function Message(lib: Library, v: CtxView): seq<Byte> {
    if v.mdctx.Some? then lib.digest(v.mdctx.value.name, v.mdctx.value.absorbed) else Collected(v)
  }

  /** Every call, field by field. Initialisation keeps the collected data always, and what concerns the digest unless
      it gets to a digest that can be fetched. */
  lemma CallEffects(lib: Library, v: CtxView, c: Call)
    requires Callable(v, c)
    ensures match c
            case Init(name, key, hasHalf, op) =>
              var digest := name.Some? && lib.fetch(name.value);
              && (Succeeds(lib, v, c) <==> hasHalf && (name.Some? ==> digest))
              && Next(lib, v, c)
                 == (if hasHalf && digest then
                       CtxView(Some(key), true, name.value, Some(lib.algorithmId(key)), name,
                               Some(Hashing(name.value, [], false)), v.data, op)
                     else CtxView(Some(key), true, v.mdname, v.aid, v.md, v.mdctx, v.data, op))
            case Update(chunk) =>
              var r := Next(lib, v, c);
              && r == v.(allowMd := false, mdctx := r.mdctx, data := r.data)
              && (v.mdctx.None? ==>
                    && (Succeeds(lib, v, c) <==> v.data.Some? || chunk != [])
                    && r.mdctx.None? && (r.data.Some? <==> v.data.Some? || chunk != [])
                    && (r.data.Some? ==> r.data.value == (if v.data.Some? then v.data.value else []) + chunk))
              && (v.mdctx.Some? ==>
                    && (Succeeds(lib, v, c) <==> !v.mdctx.value.finished)
                    && r.data == v.data
                    && r.mdctx == Some(if v.mdctx.value.finished then v.mdctx.value
                                       else v.mdctx.value.(absorbed := v.mdctx.value.absorbed + chunk)))
            case SizeQuery => Succeeds(lib, v, c) && Next(lib, v, c) == v.(allowMd := true)
            case SetDigest(name) =>
              && (Succeeds(lib, v, c) <==> v.allowMd && lib.fetch(name))
              && Next(lib, v, c)
                 == (if v.allowMd && lib.fetch(name) then
                       v.(mdname := name, aid := Some(lib.algorithmId(v.keyName.value)), md := Some(name),
                          mdctx := None)
                     else v)
            case _ =>  // the final calls
              && (Succeeds(lib, v, c) <==> v.mdctx.None? || !v.mdctx.value.finished)
              && Next(lib, v, c)
                 == (if v.mdctx.None? then (if c.SignFinal? then v.(allowMd := true) else v)
                     else if v.mdctx.value.finished then v
                     else v.(allowMd := true, mdctx := Some(v.mdctx.value.(finished := true))))
  {
    assert c.Update? ==> [] + c.chunk == c.chunk;
  }

  // ---- runs ----

  function Run(lib: Library, v: CtxView, calls: seq<Call>): (r: CtxView)
    requires v.keyName.Some?
    ensures r.keyName.Some?
  {
    if calls == [] then v else Next(lib, Run(lib, v, calls[..|calls| - 1]), calls[|calls| - 1])
  }

  /** The chunks of all updates, in order. */
  function Chunks(calls: seq<Call>): seq<Byte> {
    if calls == [] then []
    else
      var last := calls[|calls| - 1];
      Chunks(calls[..|calls| - 1]) + if last.Update? then last.chunk else []
  }

  /** Updates with size queries in between. */
  predicate Collecting(calls: seq<Call>) {
    forall c <- calls :: c.Update? || c.SizeQuery?
  }

  /** From any context, updates and size queries in any order make the message exactly what was there with the
      chunks behind it: hashed if a digest context is active, as it is otherwise. A digest context that has been
      finalised takes nothing more. An empty first update fails, and changes nothing of this. */
  lemma {:induction false} MessageIsConcatenation(lib: Library, v: CtxView, calls: seq<Call>)
    requires v.keyName.Some? && Collecting(calls)
    ensures var r := Run(lib, v, calls);
            && (v.mdctx.None? ==> r.mdctx.None? && Collected(r) == Collected(v) + Chunks(calls))
            && (v.mdctx.Some? ==>
                  && r.data == v.data
                  && r.mdctx == Some(if v.mdctx.value.finished then v.mdctx.value
                                     else v.mdctx.value.(absorbed := v.mdctx.value.absorbed + Chunks(calls))))
  {
    if calls != [] {
      var n := |calls| - 1;
      MessageIsConcatenation(lib, v, calls[..n]);
      assert calls[n] in calls;
      var before := if v.mdctx.Some? then v.mdctx.value.absorbed else Collected(v);
      var chunk := if calls[n].Update? then calls[n].chunk else [];
      assert before + Chunks(calls) == before + Chunks(calls[..n]) + chunk;
      assert before + Chunks(calls[..n]) + [] == before + Chunks(calls[..n]);
    } else if v.mdctx.Some? {
      assert v.mdctx.value.absorbed + [] == v.mdctx.value.absorbed;
    }
  }

  /** Streaming equals one-shot: after initialising a new context, or any context when a digest is named, the
      message is the concatenation of the chunks, or its digest, whatever size queries came between; and it can
      be finalised. */
  lemma StreamingEqualsOneShot(lib: Library, v: CtxView, init: Call, calls: seq<Call>)
    requires init.Init? && Succeeds(lib, v, init) && Collecting(calls)
    requires v == FRESH || init.mdname.Some?
    ensures Message(lib, Run(lib, Next(lib, v, init), calls))
         == if init.mdname.Some? then lib.digest(init.mdname.value, Chunks(calls)) else Chunks(calls)
    ensures Succeeds(lib, Run(lib, Next(lib, v, init), calls), SignFinal)
  {
    MessageIsConcatenation(lib, Next(lib, v, init), calls);
    assert [] + Chunks(calls) == Chunks(calls);
  }

  /** Reusing a context without naming a digest: exactly the new chunks are taken, as they are, if and only if the
      context had neither a digest context nor collected data. Initialisation and final calls drop neither. */
  lemma ReuseIsCleanIff(lib: Library, v: CtxView, init: Call, calls: seq<Call>)
    requires init.Init? && Succeeds(lib, v, init) && init.mdname.None? && Collecting(calls)
    ensures var r := Run(lib, Next(lib, v, init), calls);
            r.mdctx.None? && Collected(r) == Chunks(calls) <==> v.mdctx.None? && Collected(v) == []
  {
    MessageIsConcatenation(lib, Next(lib, v, init), calls);
    assert |Collected(v) + Chunks(calls)| == |Collected(v)| + |Chunks(calls)|;
  }

  /** What happens otherwise: old data comes before the new; a digest context left over goes on hashing; and if it
      had been finalised, every update and every final call fails. */
  lemma ReuseGoesOn(lib: Library, v: CtxView, init: Call, calls: seq<Call>)
    requires init.Init? && Succeeds(lib, v, init) && init.mdname.None? && Collecting(calls)
    ensures var r := Run(lib, Next(lib, v, init), calls);
            match v.mdctx
            case None => Message(lib, r) == Collected(v) + Chunks(calls)
            case Some(h) =>
              if h.finished then
                !Succeeds(lib, r, SignFinal) && !Succeeds(lib, r, VerifyFinal)
                && forall chunk :: !Succeeds(lib, r, Update(chunk))
              else Message(lib, r) == lib.digest(h.name, h.absorbed + Chunks(calls))
  {
    MessageIsConcatenation(lib, Next(lib, v, init), calls);
  }

  /** Setting a digest after initialisation drops the digest context: from then on the data itself is signed. */
  lemma SetDigestStopsHashing(lib: Library, v: CtxView, name: string, calls: seq<Call>)
    requires v.keyName.Some? && Succeeds(lib, v, SetDigest(name)) && Collecting(calls)
    ensures Message(lib, Run(lib, Next(lib, v, SetDigest(name)), calls)) == Collected(v) + Chunks(calls)
  {
    MessageIsConcatenation(lib, Next(lib, v, SetDigest(name)), calls);
  }

  // ---- the digest lock ----

  /** The calls after which the digest may be set again: initialisation, a size query, a signature made, and a
      verification carried out with an active digest context. */
  predicate Unlocks(lib: Library, v: CtxView, c: Call)
    requires Callable(v, c)
  {
    match c
    case Init(_, _, _, _) => true
    case SizeQuery => true
    case SignFinal => Succeeds(lib, v, c)
    case VerifyFinal => Succeeds(lib, v, c) && v.mdctx.Some?
    case Update(_) => false
    case SetDigest(_) => false
  }

  predicate UnlocksAt(lib: Library, v: CtxView, calls: seq<Call>, j: nat)
    requires v.keyName.Some? && j < |calls|
  {
    Unlocks(lib, Run(lib, v, calls[..j]), calls[j])
  }

  /** Call `i` is an update, and none of the calls after it unlocks in the state it meets. */
  predicate LocksFrom(lib: Library, v: CtxView, calls: seq<Call>, i: nat)
    requires v.keyName.Some? && i < |calls|
  {
    calls[i].Update? && forall j :: i < j < |calls| ==> !UnlocksAt(lib, v, calls, j)
  }

  lemma LastCall(lib: Library, v: CtxView, calls: seq<Call>, i: nat)
    requires v.keyName.Some? && i < |calls| - 1
    ensures var n := |calls| - 1;
            LocksFrom(lib, v, calls, i) <==> LocksFrom(lib, v, calls[..n], i) && !UnlocksAt(lib, v, calls, n)
  {
    var n := |calls| - 1;
    forall j | i < j < n ensures UnlocksAt(lib, v, calls[..n], j) == UnlocksAt(lib, v, calls, j) {
      assert calls[..n][..j] == calls[..j];
    }
  }

  /** Over every run from an initialised context, setting a digest is refused exactly if some update has not been
      followed by a call that unlocks. */
  lemma {:induction false} DigestLock(lib: Library, v: CtxView, calls: seq<Call>, name: string)
    requires v.keyName.Some? && v.allowMd && lib.fetch(name)
    ensures !Succeeds(lib, Run(lib, v, calls), SetDigest(name)) <==>
            exists i :: 0 <= i < |calls| && LocksFrom(lib, v, calls, i)
  {
    if calls != [] {
      var n := |calls| - 1;
      DigestLock(lib, v, calls[..n], name);
      forall i | 0 <= i < n
        ensures LocksFrom(lib, v, calls, i)
           <==> LocksFrom(lib, v, calls[..n], i) && !UnlocksAt(lib, v, calls, n)
      {
        LastCall(lib, v, calls, i);
      }
      if calls[n].Update? {
        assert LocksFrom(lib, v, calls, n);
      }
    }
  }

  /** And while it is, any number of attempts fail and change nothing at all. */
  lemma {:induction false} RefusedAttemptsChangeNothing(lib: Library, v: CtxView, calls: seq<Call>, i: nat,
                                                        attempts: seq<Call>)
    requires v.keyName.Some? && i < |calls| && LocksFrom(lib, v, calls, i)
    requires forall c <- attempts :: c.SetDigest?
    ensures Run(lib, v, calls + attempts) == Run(lib, v, calls)
    ensures forall c <- attempts :: !Succeeds(lib, Run(lib, v, calls), c)
  {
    LockedAfter(lib, v, calls, i);
    if attempts == [] {
      assert calls + attempts == calls;
    } else {
      var n := |attempts| - 1;
      assert attempts[n] in attempts;
      RefusedAttemptsChangeNothing(lib, v, calls, i, attempts[..n]);
      assert calls + attempts == calls + attempts[..n] + [attempts[n]];
      RunOneMore(lib, v, calls + attempts[..n], attempts[n]);
    }
  }

  lemma RunOneMore(lib: Library, v: CtxView, calls: seq<Call>, c: Call)
    requires v.keyName.Some?
    ensures Run(lib, v, calls + [c]) == Next(lib, Run(lib, v, calls), c)
  {
    assert (calls + [c])[..|calls|] == calls;
  }

  lemma {:induction false} LockedAfter(lib: Library, v: CtxView, calls: seq<Call>, i: nat)
    requires v.keyName.Some? && i < |calls| && LocksFrom(lib, v, calls, i)
    ensures !Run(lib, v, calls).allowMd
  {
    var n := |calls| - 1;
    if i < n {
      LastCall(lib, v, calls, i);
      LockedAfter(lib, v, calls[..n], i);
    }
  }
}
