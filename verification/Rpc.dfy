/** rpc/crpcexecutor.cpp and rpc/crpcinvoker.cpp: remote calls over an ordered
    pair of datagram streams (Framing). */
module Rpc {
  import opened Octets
  import opened Wrappers
  import opened Framing

  /** A registered function with its unpack: it may change the state of the
      handlers, and None means that it did not accept the arguments. */
  type Function<!S> = (S, Bytes) -> Option<S>
  type SyncFunction<!S> = (S, Bytes) -> Option<(S, Bytes)>

  datatype Outcome = Success | UnpackError | FunctionNotFound | Failure

  datatype Handlers<!S> = Handlers(functions: map<nat, Function<S>>, syncFunctions: map<nat, SyncFunction<S>>)

  /** executeFunction: the handlers' state after it and the reply it sends. */
  function Execute<S>(h: Handlers<S>, s: S, d: Datagram): (S, Option<Datagram>) {
    if d.fid in h.functions then
      match h.functions[d.fid](s, d.data)
      case None => (s, None)
      case Some(t) => (t, None)
    else if d.fid in h.syncFunctions then
      match h.syncFunctions[d.fid](s, d.data)
      case None => (s, None)
      case Some(r) => (r.0, Some(Datagram(d.fid, r.1)))
    else (s, None)
  }

  class CRpcExecutor<S> {
    var functions: map<nat, Function<S>>
    var syncFunctions: map<nat, SyncFunction<S>>
    var state: S

    ghost function H(): Handlers<S>
      reads this
    {
      Handlers(functions, syncFunctions)
    }

    constructor (state: S)
      ensures H() == Handlers(map[], map[]) && this.state == state
    {
      functions, syncFunctions, this.state := map[], map[], state;
    }

    method RegisterFunction(id: nat, f: Function<S>) returns (inserted: bool)
      modifies this`functions
      ensures inserted <==> id !in old(functions)
      ensures functions == if inserted then old(functions)[id := f] else old(functions)
    {
      inserted := id !in functions;
      if inserted {
        functions := functions[id := f];
      }
    }

    method RegisterSyncFunction(id: nat, f: SyncFunction<S>) returns (inserted: bool)
      modifies this`syncFunctions
      ensures inserted <==> id !in old(syncFunctions)
      ensures syncFunctions == if inserted then old(syncFunctions)[id := f] else old(syncFunctions)
    {
      inserted := id !in syncFunctions;
      if inserted {
        syncFunctions := syncFunctions[id := f];
      }
    }

    method ExecuteFunction(d: Datagram, sends: bool) returns (outcome: Outcome, reply: Option<Datagram>)
      modifies this`state
      ensures (state, reply) == Execute(H(), old(state), d)
      ensures d.fid in functions ==>
                var next := functions[d.fid](old(state), d.data);
                && reply == None
                && if next.Some? then outcome == Success && state == next.value
                   else outcome == UnpackError && state == old(state)
      ensures d.fid !in functions && d.fid in syncFunctions ==>
                var answered := syncFunctions[d.fid](old(state), d.data);
                if answered.Some?
                then && outcome == (if sends then Success else Failure) && state == answered.value.0
                     && reply == Some(Datagram(d.fid, answered.value.1))
                else outcome == UnpackError && state == old(state) && reply == None
      ensures d.fid !in functions && d.fid !in syncFunctions ==>
                outcome == FunctionNotFound && state == old(state) && reply == None
    {
      reply := None;
      if d.fid in functions {
        var next := functions[d.fid](state, d.data);
        if next.None? {
          return UnpackError, reply;
        }
        state := next.value;
        return Success, reply;
      }
      if d.fid in syncFunctions {
        var answered := syncFunctions[d.fid](state, d.data);
        if answered.None? {
          return UnpackError, reply;
        }
        state := answered.value.0;
        reply := Some(Datagram(d.fid, answered.value.1));
        return if sends then Success else Failure, reply;
      }
      return FunctionNotFound, reply;
    }

    /** run(): every datagram in turn, whatever became of the one before. */
    method Run(incoming: seq<Datagram>) returns (replies: seq<Datagram>)
      modifies this`state
      ensures state == Executed(H(), old(state), incoming).0
      ensures replies == Executed(H(), old(state), incoming).1
    {
      hide Execute;
      ghost var h := H();
      replies := [];
      var i := 0;
      assert incoming[0..] == incoming;
      while i < |incoming|
        invariant 0 <= i <= |incoming| && H() == h
        invariant Executed(h, old(state), incoming).0 == Executed(h, state, incoming[i..]).0
        invariant Executed(h, old(state), incoming).1 == replies + Executed(h, state, incoming[i..]).1
      {
        var _, reply := ExecuteFunction(incoming[i], true);
        assert incoming[i..][1..] == incoming[i + 1..];
        if reply.Some? {
          replies := replies + [reply.value];
        }
        i := i + 1;
      }
    }
  }

  function Executed<S>(h: Handlers<S>, s: S, ds: seq<Datagram>): (S, seq<Datagram>)
    decreases |ds|
  {
    if ds == [] then (s, [])
    else
      var (t, reply) := Execute(h, s, ds[0]);
      var (u, more) := Executed(h, t, ds[1..]);
      (u, (if reply.Some? then [reply.value] else []) + more)
  }

  /** A run of the executor goes on from where the last request left the handlers. */
  lemma {:induction false} ExecutedOneMore<S>(h: Handlers<S>, s: S, ds: seq<Datagram>, d: Datagram)
    ensures var (t, replies) := Executed(h, s, ds);
            var (u, reply) := Execute(h, t, d);
            Executed(h, s, ds + [d]) == (u, replies + if reply.Some? then [reply.value] else [])
    decreases |ds|
  {
    hide Execute;
    if ds == [] {
      assert [] + [d] == [d] && [d][1..] == [];
      var (t, reply) := Execute(h, s, d);
      var only := if reply.Some? then [reply.value] else [];
      assert Executed(h, t, []) == (t, []);
      assert Executed(h, s, [d]) == (t, only + []) && only + [] == [] + only;
    } else {
      ExecutedOneMore(h, Execute(h, s, ds[0]).0, ds[1..], d);
      assert (ds + [d])[0] == ds[0] && (ds + [d])[1..] == ds[1..] + [d];
      var (t0, reply) := Execute(h, s, ds[0]);
      var (t, more) := Executed(h, t0, ds[1..]);
      var first := if reply.Some? then [reply.value] else [];
      var last := var r := Execute(h, t, d).1; if r.Some? then [r.value] else [];
      assert Executed(h, s, ds + [d]).1 == first + (more + last) == first + more + last;
    }
  }

  /** An id that the executor answers: a sync function and not a one-way function
      as well.  Unlike the invoker it does not refuse an id registered both ways,
      and it looks among the one-way functions first. */
  predicate Answers<S>(h: Handlers<S>, fid: nat) {
    fid !in h.functions && fid in h.syncFunctions
  }

  /** The ids of these datagrams that are answered, in order. */
  function AnsweredIds<S>(h: Handlers<S>, ds: seq<Datagram>): seq<nat>
    decreases |ds|
  {
    if ds == [] then [] else (if Answers(h, ds[0].fid) then [ds[0].fid] else []) + AnsweredIds(h, ds[1..])
  }

  function Ids(ds: seq<Datagram>): seq<nat> {
    seq(|ds|, i requires 0 <= i < |ds| => ds[i].fid)
  }

  /** Over a whole run of the executor no reply ever names an id that is registered
      one-way, and if the sync functions accept their arguments there is a reply
      for every other request to one of them, in order. */
  lemma {:induction false} ShadowedFunctionsAreSilent<S(!new)>(h: Handlers<S>, s: S, ds: seq<Datagram>)
    ensures forall i :: 0 <= i < |Executed(h, s, ds).1| ==> Answers(h, Executed(h, s, ds).1[i].fid)
    ensures (forall fid, t, b :: fid in h.syncFunctions ==> h.syncFunctions[fid](t, b).Some?)
              ==> Ids(Executed(h, s, ds).1) == AnsweredIds(h, ds)
    decreases |ds|
  {
    if ds != [] {
      var (t, reply) := Execute(h, s, ds[0]);
      var more := Executed(h, t, ds[1..]).1;
      ShadowedFunctionsAreSilent(h, t, ds[1..]);
      assert reply.Some? ==> reply.value.fid == ds[0].fid && Answers(h, ds[0].fid);
      assert Ids((if reply.Some? then [reply.value] else []) + more)
          == (if reply.Some? then [reply.value.fid] else []) + Ids(more);
    }
  }

  class CRpcInvoker {
    var functions: set<nat>
    var syncFunctions: set<nat>

    /** No id is both. */
    ghost predicate Valid()
      reads this
    {
      functions !! syncFunctions
    }

    constructor ()
      ensures Valid() && functions == {} && syncFunctions == {}
    {
      functions, syncFunctions := {}, {};
    }

    method RegisterFunction(id: nat) returns (inserted: bool)
      requires Valid()
      modifies this
      ensures Valid() && syncFunctions == old(syncFunctions)
      ensures inserted <==> id !in old(functions) + old(syncFunctions)
      ensures functions == if inserted then old(functions) + {id} else old(functions)
    {
      if id in syncFunctions {
        return false;
      }
      inserted := id !in functions;
      functions := functions + {id};
    }

    method RegisterSyncFunction(id: nat) returns (inserted: bool)
      requires Valid()
      modifies this
      ensures Valid() && functions == old(functions)
      ensures inserted <==> id !in old(functions) + old(syncFunctions)
      ensures syncFunctions == if inserted then old(syncFunctions) + {id} else old(syncFunctions)
    {
      if id in functions {
        return false;
      }
      inserted := id !in syncFunctions;
      syncFunctions := syncFunctions + {id};
    }
  }

  // ------------------------------------------------------- calls in flight

  datatype Call = OneWay(request: Datagram) | Sync(request: Datagram)

  /** What a call came to: a one-way call returns at once, a sync call with the
      reply it read, or without one when recvData timed out.  `of` records whose
      reply it was; the caller cannot see it. */
  datatype Result = Done | Got(of: int, data: Bytes) | GaveUp

  datatype Reply = Reply(of: int, datagram: Datagram)

  /** The caller, the two streams and the executor's state.  `results` has an
      entry for every call that has returned. */
  datatype System<S> = System(
    waiting: bool, issued: seq<Call>, results: seq<Result>, requests: seq<Datagram>, replies: seq<Reply>, state: S)

  datatype Action = Invoke(call: Call) | Serve | Receive | TimeOut

  function Start<S>(s: S): System<S> {
    System(false, [], [], [], [], s)
  }

  /** recvData may time out at any moment between two datagrams; a time-out inside
      one, which loses the bytes read, is not among the steps. */
  predicate Enabled<S>(s: System<S>, a: Action) {
    match a
    case Invoke(_) => !s.waiting
    case Serve => s.requests != []
    case Receive => s.waiting && s.replies != []
    case TimeOut => s.waiting
  }

  /** The invoker takes whatever reply comes first; it does not look at the id. */
  function Apply<S>(h: Handlers<S>, s: System<S>, a: Action): System<S>
    requires Enabled(s, a)
  {
    match a
    case Invoke(call) =>
      var t := s.(issued := s.issued + [call], requests := s.requests + [call.request]);
      if call.Sync? then t.(waiting := true) else t.(results := s.results + [Done])
    case Serve =>
      var (state, reply) := Execute(h, s.state, s.requests[0]);
      s.(state := state, requests := s.requests[1..],
         replies := s.replies + if reply.Some? then [Reply(|s.issued| - |s.requests|, reply.value)] else [])
    case Receive =>
      var first := s.replies[0];
      s.(waiting := false, replies := s.replies[1..], results := s.results + [Got(first.of, first.datagram.data)])
    case TimeOut => s.(waiting := false, results := s.results + [GaveUp])
  }

  predicate Possible<S>(h: Handlers<S>, s: System<S>, actions: seq<Action>)
    decreases |actions|
  {
    actions == [] || (Enabled(s, actions[0]) && Possible(h, Apply(h, s, actions[0]), actions[1..]))
  }

  function After<S>(h: Handlers<S>, s: System<S>, actions: seq<Action>): System<S>
    requires Possible(h, s, actions)
    decreases |actions|
  {
    if actions == [] then s else After(h, Apply(h, s, actions[0]), actions[1..])
  }

  // ------------------------------------------------ one call after another

  /** The handlers' state when these calls have been executed in order. */
  function StateAfter<S>(h: Handlers<S>, s: S, calls: seq<Call>): S
    decreases |calls|
  {
    if calls == [] then s
    else Execute(h, StateAfter(h, s, calls[..|calls| - 1]), calls[|calls| - 1].request).0
  }

  /** The reply to the i-th call, if there is one, when it is executed after those
      before it. */
  function Own<S>(h: Handlers<S>, s: S, calls: seq<Call>, i: nat): Option<Datagram>
    requires i < |calls|
  {
    Execute(h, StateAfter(h, s, calls[..i]), calls[i].request).1
  }

  lemma OwnStays<S>(h: Handlers<S>, s: S, calls: seq<Call>, call: Call)
    ensures forall i :: 0 <= i < |calls| ==> Own(h, s, calls + [call], i) == Own(h, s, calls, i)
  {
    forall i | 0 <= i < |calls|
      ensures Own(h, s, calls + [call], i) == Own(h, s, calls, i)
    {
      assert (calls + [call])[..i] == calls[..i];
    }
  }

  lemma StateStep<S>(h: Handlers<S>, s: S, calls: seq<Call>, i: nat)
    requires i < |calls|
    ensures StateAfter(h, s, calls[..i + 1]) == Execute(h, StateAfter(h, s, calls[..i]), calls[i].request).0
  {
    assert calls[..i + 1][..i] == calls[..i];
  }

  function Requests(calls: seq<Call>): (ds: seq<Datagram>)
    ensures |ds| == |calls|
  {
    seq(|calls|, i requires 0 <= i < |calls| => calls[i].request)
  }

  /** The state and the replies that the pairing theorems speak of are those of the
      executor's own loop over the requests. */
  lemma {:induction false} RunIsOneByOne<S>(h: Handlers<S>, s: S, calls: seq<Call>)
    ensures Executed(h, s, Requests(calls)).0 == StateAfter(h, s, calls)
    ensures calls != [] ==>
              var n := |calls| - 1;
              Executed(h, s, Requests(calls)).1
              == Executed(h, s, Requests(calls[..n])).1
                 + match Own(h, s, calls, n) case None => [] case Some(reply) => [reply]
    decreases |calls|
  {
    hide Execute;
    if calls != [] {
      var n := |calls| - 1;
      RunIsOneByOne(h, s, calls[..n]);
      assert Requests(calls) == Requests(calls[..n]) + [calls[n].request];
      ExecutedOneMore(h, s, Requests(calls[..n]), calls[n].request);
      hide Executed;
    } else {
      assert Requests(calls) == [];
    }
  }

  // ---------------------------------------------------------------- invariant

  /** How many calls the executor has done. */
  function Served<S>(s: System<S>): int {
    |s.issued| - |s.requests|
  }

  /** The executor has done all calls but those queued. */
  ghost predicate Queued<S>(h: Handlers<S>, start: S, s: System<S>) {
    && 0 <= Served(s)
    && s.requests == Requests(s.issued)[Served(s)..]
    && s.state == StateAfter(h, start, s.issued[..Served(s)])
    && |s.results| == |s.issued| - (if s.waiting then 1 else 0)
    && (s.waiting ==> s.issued[|s.results|].Sync?)
    && (forall i :: 0 <= i < |s.results| ==> (s.results[i].Done? <==> s.issued[i].OneWay?))
  }

  predicate IsGot<S>(s: System<S>, j: int) {
    0 <= j < |s.results| && s.results[j].Got?
  }

  /** Every reply is the one to a call that has been executed, and read no earlier
      than that call was made. */
  ghost predicate Genuine<S>(h: Handlers<S>, start: S, s: System<S>)
    requires 0 <= Served(s)
  {
    && (forall k :: 0 <= k < |s.replies| ==>
          0 <= s.replies[k].of < Served(s) && Own(h, start, s.issued, s.replies[k].of) == Some(s.replies[k].datagram))
    && (forall j :: IsGot(s, j) ==>
          && 0 <= s.results[j].of <= j && s.results[j].of < Served(s)
          && Own(h, start, s.issued, s.results[j].of).Some?
          && s.results[j].data == Own(h, start, s.issued, s.results[j].of).value.data)
  }

  /** Replies are read in the order of their calls. */
  ghost predicate Ordered<S>(s: System<S>) {
    && (forall k, l :: 0 <= k < l < |s.replies| ==> s.replies[k].of < s.replies[l].of)
    && (forall j, k :: IsGot(s, j) && 0 <= k < |s.replies| ==> s.results[j].of < s.replies[k].of)
    && (forall i, j :: IsGot(s, i) && IsGot(s, j) && i < j ==> s.results[i].of < s.results[j].of)
  }

  ghost predicate Kept<S>(s: System<S>, i: nat) {
    || (exists k :: 0 <= k < |s.replies| && s.replies[k].of == i)
    || (exists j :: IsGot(s, j) && s.results[j].of == i)
  }

  /** No reply is lost. */
  ghost predicate Complete<S>(h: Handlers<S>, start: S, s: System<S>)
    requires 0 <= Served(s)
  {
    forall i :: 0 <= i < Served(s) && Own(h, start, s.issued, i).Some? ==> Kept(s, i)
  }

  ghost predicate Inv<S>(h: Handlers<S>, start: S, s: System<S>) {
    Queued(h, start, s) && Genuine(h, start, s) && Ordered(s) && Complete(h, start, s)
  }

  lemma InvStarts<S>(h: Handlers<S>, start: S)
    ensures Inv(h, start, Start(start))
  {
  }

  lemma InvokeKeeps<S>(h: Handlers<S>, start: S, s: System<S>, call: Call)
    requires Inv(h, start, s) && Enabled(s, Invoke(call))
    ensures Inv(h, start, Apply(h, s, Invoke(call)))
  {
    hide Own, StateAfter, Execute;
    var t := Apply(h, s, Invoke(call));
    var done := Served(s);
    OwnStays(h, start, s.issued, call);
    assert t.issued[..done] == s.issued[..done];
    assert Requests(t.issued)[done..] == Requests(s.issued)[done..] + [call.request];
    assert forall j :: IsGot(t, j) <==> IsGot(s, j);
    assert forall i :: Kept(s, i) ==> Kept(t, i);
  }

  /** The call at the head of the queue is the first not done. */
  lemma HeadOfQueue<S>(h: Handlers<S>, start: S, s: System<S>, done: nat)
    requires Queued(h, start, s) && s.requests != [] && done == Served(s)
    ensures s.requests[0] == s.issued[done].request && s.requests[1..] == Requests(s.issued)[done + 1..]
    ensures Execute(h, s.state, s.requests[0]).1 == Own(h, start, s.issued, done)
    ensures Execute(h, s.state, s.requests[0]).0 == StateAfter(h, start, s.issued[..done + 1])
  {
    assert s.requests[0] == Requests(s.issued)[done];
    assert Requests(s.issued)[done + 1..] == Requests(s.issued)[done..][1..];
    StateStep(h, start, s.issued, done);
    hide Execute, StateAfter;
  }

  lemma ServeKeeps<S>(h: Handlers<S>, start: S, s: System<S>)
    requires Inv(h, start, s) && Enabled(s, Serve)
    ensures Inv(h, start, Apply(h, s, Serve))
  {
    hide Own, StateAfter, Execute;
    var t, done := Apply(h, s, Serve), Served(s);
    HeadOfQueue(h, start, s, done);
    assert forall j :: IsGot(t, j) <==> IsGot(s, j);
    forall i: nat | Kept(s, i)
      ensures Kept(t, i)
    {
      if k :| 0 <= k < |s.replies| && s.replies[k].of == i {
        assert t.replies[k].of == i;
      }
    }
    if Own(h, start, s.issued, done).Some? {
      assert t.replies[|s.replies|].of == done;
    }
  }

  lemma ReceiveKeeps<S>(h: Handlers<S>, start: S, s: System<S>)
    requires Inv(h, start, s) && Enabled(s, Receive)
    ensures Inv(h, start, Apply(h, s, Receive))
  {
    hide Own, StateAfter, Execute;
    var t, n := Apply(h, s, Receive), |s.results|;
    assert forall j :: IsGot(t, j) <==> IsGot(s, j) || j == n;
    forall i: nat | Kept(s, i)
      ensures Kept(t, i)
    {
      if k :| 0 <= k < |s.replies| && s.replies[k].of == i {
        assert if k == 0 then t.results[n].of == i else t.replies[k - 1].of == i;
      } else {
        var j :| IsGot(s, j) && s.results[j].of == i;
        assert IsGot(t, j) && t.results[j].of == i;
      }
    }
  }

  lemma TimeOutKeeps<S>(h: Handlers<S>, start: S, s: System<S>)
    requires Inv(h, start, s) && Enabled(s, TimeOut)
    ensures Inv(h, start, Apply(h, s, TimeOut))
  {
    hide Own, StateAfter, Execute;
    var t := Apply(h, s, TimeOut);
    assert forall j :: IsGot(t, j) <==> IsGot(s, j);
    assert forall i :: Kept(s, i) ==> Kept(t, i);
  }

  lemma StepKeeps<S>(h: Handlers<S>, start: S, s: System<S>, a: Action)
    requires Inv(h, start, s) && Enabled(s, a)
    ensures Inv(h, start, Apply(h, s, a))
  {
    hide Inv;
    match a
    case Invoke(call) => InvokeKeeps(h, start, s, call);
    case Serve => ServeKeeps(h, start, s);
    case Receive => ReceiveKeeps(h, start, s);
    case TimeOut => TimeOutKeeps(h, start, s);
  }

  lemma {:induction false} RunKeeps<S>(h: Handlers<S>, start: S, s: System<S>, actions: seq<Action>)
    requires Inv(h, start, s) && Possible(h, s, actions)
    ensures Inv(h, start, After(h, s, actions))
    decreases |actions|
  {
    hide Inv;
    if actions != [] {
      StepKeeps(h, start, s, actions[0]);
      RunKeeps(h, start, Apply(h, s, actions[0]), actions[1..]);
    }
  }

  // ----------------------------------------------------------------- theorems

  /** Every sync call that got a reply got its own. */
  ghost predicate Paired<S>(s: System<S>) {
    forall j :: IsGot(s, j) ==> s.results[j].of == j
  }

  /** No call that read no reply, one-way or given up, has one and is followed by
      a call that read a reply. */
  ghost predicate Unharmed<S>(h: Handlers<S>, start: S, s: System<S>)
    requires |s.results| <= |s.issued|
  {
    forall i, j :: 0 <= i < j && IsGot(s, j) && !IsGot(s, i) ==> Own(h, start, s.issued, i) == None
  }

  /** In every interleaving, with time-outs whenever they like: the replies are
      paired with their calls exactly when no reply was left unread by a call
      before a later one read.  What a call got is in any case the whole reply to
      the call it belongs to. */
  lemma PairedExactly<S>(h: Handlers<S>, start: S, actions: seq<Action>)
    requires Possible(h, Start(start), actions)
    ensures var s := After(h, Start(start), actions);
            && |s.results| <= |s.issued|
            && (Paired(s) <==> Unharmed(h, start, s))
            && (forall j :: IsGot(s, j) ==>
                  && 0 <= s.results[j].of <= j && Own(h, start, s.issued, s.results[j].of).Some?
                  && s.results[j].data == Own(h, start, s.issued, s.results[j].of).value.data)
  {
    hide Own, Execute, StateAfter;
    var s := After(h, Start(start), actions);
    InvStarts(h, start);
    RunKeeps(h, start, Start(start), actions);
    if Paired(s) {
      forall i, j | 0 <= i < j && IsGot(s, j) && !IsGot(s, i)
        ensures Own(h, start, s.issued, i) == None
      {
        UnreadIsSilent(h, start, s, i, j);
      }
    } else if Unharmed(h, start, s) {
      forall j | IsGot(s, j)
        ensures s.results[j].of == j
      {
        ReadIsOwn(h, start, s, j);
      }
    }
  }

  lemma UnreadIsSilent<S>(h: Handlers<S>, start: S, s: System<S>, i: nat, j: nat)
    requires Inv(h, start, s) && Paired(s) && i < j && IsGot(s, j) && !IsGot(s, i)
    ensures Own(h, start, s.issued, i) == None
  {
    hide Own, StateAfter, Execute;
    assert s.results[j].of == j;
  }

  lemma {:induction false} ReadIsOwn<S>(h: Handlers<S>, start: S, s: System<S>, j: nat)
    requires Inv(h, start, s) && Unharmed(h, start, s) && IsGot(s, j)
    ensures s.results[j].of == j
  {
    hide Own, StateAfter, Execute;
    var i := s.results[j].of;
    if i < j {
      assert Own(h, start, s.issued, i).Some?;
      assert IsGot(s, i);
      ReadIsOwn(h, start, s, i);
    }
  }

  /** What a caller can see to: no reply is read after a call that was given up,
      and one-way calls go to functions that do not answer. */
  ghost predicate Prudent<S>(h: Handlers<S>, s: System<S>)
    requires |s.results| <= |s.issued|
  {
    && (forall i, j :: 0 <= i < j && IsGot(s, j) ==> !s.results[i].GaveUp?)
    && (forall i :: 0 <= i < |s.results| && s.results[i].Done? ==>
          s.issued[i].request.fid in h.functions || s.issued[i].request.fid !in h.syncFunctions)
  }

  /** For such a caller every sync call that returned a reply returned what it would
      return if the calls were executed one after another. */
  lemma RepliesArePaired<S>(h: Handlers<S>, start: S, actions: seq<Action>)
    requires Possible(h, Start(start), actions)
    requires var s := After(h, Start(start), actions); |s.results| <= |s.issued| && Prudent(h, s)
    ensures var s := After(h, Start(start), actions);
            forall j :: IsGot(s, j) ==>
              Own(h, start, s.issued, j).Some? && s.results[j].data == Own(h, start, s.issued, j).value.data
  {
    hide StateAfter;
    var s := After(h, Start(start), actions);
    PairedExactly(h, start, actions);
    forall i, j | 0 <= i < j && IsGot(s, j) && !IsGot(s, i)
      ensures Own(h, start, s.issued, i) == None
    {
      assert s.results[i].Done?;
    }
    assert Paired(s);
  }

  // ---------------------------------------------------------- late replies

  lemma OneAction<S>(h: Handlers<S>, s: System<S>, a: Action, t: System<S>, rest: seq<Action>)
    requires Enabled(s, a) && t == Apply(h, s, a) && Possible(h, t, rest)
    ensures Possible(h, s, [a] + rest) && After(h, s, [a] + rest) == After(h, t, rest)
  {
    assert ([a] + rest)[1..] == rest;
  }

  /** The first call is given up before its request is served. */
  function LateReply(d: Datagram, e: Datagram): seq<Action> {
    [Invoke(Sync(d))] + ([TimeOut] + ([Invoke(Sync(e))] + ([Serve] + [Receive])))
  }

  /** Whatever the handlers and whatever the second call: if the executor answers
      the first, the second can be given that answer. */
  lemma LateReplyIsMistaken<S>(h: Handlers<S>, start: S, d: Datagram, e: Datagram)
    requires Execute(h, start, d).1.Some?
    ensures Possible(h, Start(start), LateReply(d, e))
    ensures var s := After(h, Start(start), LateReply(d, e));
            && s.issued == [Sync(d), Sync(e)]
            && s.results == [GaveUp, Got(0, Execute(h, start, d).1.value.data)]
  {
    var (next, reply) := Execute(h, start, d);
    hide Execute;
    var s0 := Start(start);
    var s1 := s0.(waiting := true, issued := [Sync(d)], requests := [d]);
    var s2 := s1.(waiting := false, results := [GaveUp]);
    var s3 := s2.(waiting := true, issued := [Sync(d), Sync(e)], requests := [d, e]);
    var s4 := s3.(requests := [e], replies := [Reply(0, reply.value)], state := next);
    var s5 := s4.(waiting := false, replies := [], results := [GaveUp, Got(0, reply.value.data)]);
    OneAction(h, s4, Receive, s5, []);
    assert [Receive] + [] == [Receive];
    OneAction(h, s3, Serve, s4, [Receive]);
    OneAction(h, s2, Invoke(Sync(e)), s3, [Serve] + [Receive]);
    OneAction(h, s1, TimeOut, s2, [Invoke(Sync(e))] + ([Serve] + [Receive]));
    OneAction(h, s0, Invoke(Sync(d)), s1, [TimeOut] + ([Invoke(Sync(e))] + ([Serve] + [Receive])));
  }

  // ----------------------------------------------------- which calls are safe

  ghost predicate AlwaysPaired<S(!new)>(h: Handlers<S>, start: S, calls: seq<Call>) {
    forall actions: seq<Action> ::
      Possible(h, Start(start), actions) && After(h, Start(start), actions).issued == calls ==>
        Paired(After(h, Start(start), actions))
  }

  lemma {:induction false} Joined<S>(h: Handlers<S>, s: System<S>, first: seq<Action>, second: seq<Action>)
    requires Possible(h, s, first) && Possible(h, After(h, s, first), second)
    ensures Possible(h, s, first + second) && After(h, s, first + second) == After(h, After(h, s, first), second)
    decreases |first|
  {
    if first == [] {
      assert first + second == second;
    } else {
      assert (first + second)[1..] == first[1..] + second;
      Joined(h, Apply(h, s, first[0]), first[1..], second);
    }
  }

  lemma One<S>(h: Handlers<S>, s: System<S>, a: Action)
    requires Enabled(s, a)
    ensures Possible(h, s, [a]) && After(h, s, [a]) == Apply(h, s, a)
  {
    assert [a][1..] == [];
    assert After(h, s, [a]) == After(h, Apply(h, s, a), []);
  }

  /** Every call made at once, the sync ones given up without waiting. */
  function Rush(calls: seq<Call>): seq<Action>
    decreases |calls|
  {
    if calls == [] then []
    else [Invoke(calls[0])] + ((if calls[0].Sync? then [TimeOut] else []) + Rush(calls[1..]))
  }

  function Unread(calls: seq<Call>): seq<Result> {
    seq(|calls|, i requires 0 <= i < |calls| => if calls[i].Sync? then GaveUp else Done)
  }

  lemma {:induction false} RushRun<S>(h: Handlers<S>, s: System<S>, calls: seq<Call>)
    requires !s.waiting
    ensures Possible(h, s, Rush(calls))
    ensures After(h, s, Rush(calls))
         == s.(issued := s.issued + calls, results := s.results + Unread(calls),
               requests := s.requests + Requests(calls))
    decreases |calls|
  {
    if calls != [] {
      var call, rest := calls[0], calls[1..];
      var given := if call.Sync? then [TimeOut] else [];
      var t := s.(issued := s.issued + [call], results := s.results + Unread([call]),
                  requests := s.requests + [call.request]);
      RushRun(h, t, rest);
      assert Unread([call]) + Unread(rest) == Unread(calls);
      assert s.results + Unread([call]) + Unread(rest) == s.results + Unread(calls);
      assert s.requests + [call.request] + Requests(rest) == s.requests + Requests(calls);
      assert s.issued + [call] + rest == s.issued + calls;
      var u := Apply(h, s, Invoke(call));
      if call.Sync? {
        assert Unread([call]) == [GaveUp];
        OneAction(h, u, TimeOut, t, Rush(rest));
      } else {
        assert Unread([call]) == [Done];
        assert given + Rush(rest) == Rush(rest);
      }
      OneAction(h, s, Invoke(call), u, given + Rush(rest));
    } else {
      assert s.issued + [] == s.issued && s.results + Unread([]) == s.results;
      assert s.requests + Requests([]) == s.requests;
    }
  }

  function ServeAll(n: nat): seq<Action> {
    seq(n, _ => Serve)
  }

  lemma {:induction false} ServeAllRun<S>(h: Handlers<S>, s: System<S>)
    ensures Possible(h, s, ServeAll(|s.requests|))
    ensures var t := After(h, s, ServeAll(|s.requests|));
            t.requests == [] && t.issued == s.issued && t.results == s.results && t.waiting == s.waiting
    decreases |s.requests|
  {
    hide Execute;
    if s.requests != [] {
      var t := Apply(h, s, Serve);
      ServeAllRun(h, t);
      assert ServeAll(|s.requests|)[1..] == ServeAll(|t.requests|);
    }
  }

  lemma OwnOfPrefix<S>(h: Handlers<S>, s: S, calls: seq<Call>, n: nat, i: nat)
    requires i < n <= |calls|
    ensures Own(h, s, calls[..n], i) == Own(h, s, calls, i)
  {
    assert calls[..n][..i] == calls[..i];
  }

  /** Everything before the j-th call is given up at once, and all requests are
      served before the j-th call reads. */
  function Overtaken(calls: seq<Call>, j: nat): seq<Action>
    requires j < |calls|
  {
    Rush(calls[..j]) + [Invoke(calls[j])] + ServeAll(j + 1)
  }

  lemma OvertakenRun<S>(h: Handlers<S>, start: S, calls: seq<Call>, i: nat, j: nat)
    requires i < j < |calls| && calls[j].Sync? && Own(h, start, calls, i).Some?
    ensures Possible(h, Start(start), Overtaken(calls, j))
    ensures var t := After(h, Start(start), Overtaken(calls, j));
            t.waiting && t.issued == calls[..j + 1] && |t.results| == j && t.replies != [] && t.replies[0].of <= i
  {
    hide Own, Execute, StateAfter, Inv;
    var s0 := Start(start);
    OvertakenSteps(h, start, calls, j);
    InvStarts(h, start);
    RunKeeps(h, start, s0, Overtaken(calls, j));
    hide After, Possible, Overtaken;
    FirstReplyIsNoLater(h, start, After(h, s0, Overtaken(calls, j)), calls, i, j);
  }

  lemma OvertakenSteps<S>(h: Handlers<S>, start: S, calls: seq<Call>, j: nat)
    requires j < |calls| && calls[j].Sync?
    ensures Possible(h, Start(start), Overtaken(calls, j))
    ensures var t := After(h, Start(start), Overtaken(calls, j));
            t.waiting && t.issued == calls[..j + 1] && t.results == Unread(calls[..j]) && t.requests == []
  {
    hide Execute;
    var s0 := Start(start);
    RushRun(h, s0, calls[..j]);
    var s1 := After(h, s0, Rush(calls[..j]));
    assert s1.issued == calls[..j] && s1.results == Unread(calls[..j]) && s1.requests == Requests(calls[..j]);
    One(h, s1, Invoke(calls[j]));
    Joined(h, s0, Rush(calls[..j]), [Invoke(calls[j])]);
    var s2 := Apply(h, s1, Invoke(calls[j]));
    assert s2.issued == calls[..j + 1];
    hide Rush;
    ServeAllRun(h, s2);
    Joined(h, s0, Rush(calls[..j]) + [Invoke(calls[j])], ServeAll(j + 1));
  }

  /** With every request served and no reply read, the first reply in flight is that
      to the i-th call or to one before it. */
  lemma FirstReplyIsNoLater<S>(h: Handlers<S>, start: S, t: System<S>, calls: seq<Call>, i: nat, j: nat)
    requires i < j < |calls| && Own(h, start, calls, i).Some? && Inv(h, start, t)
    requires t.issued == calls[..j + 1] && t.results == Unread(calls[..j]) && t.requests == []
    ensures t.replies != [] && t.replies[0].of <= i
  {
    hide Own, Execute, StateAfter;
    OwnOfPrefix(h, start, calls, j + 1, i);
    assert forall k :: !IsGot(t, k);
    assert Kept(t, i);
  }

  /** An answered call before a sync call can come in its way. */
  lemma AnsweredCallHarms<S>(h: Handlers<S>, start: S, calls: seq<Call>, i: nat, j: nat) returns (actions: seq<Action>)
    requires i < j < |calls| && calls[j].Sync? && Own(h, start, calls, i).Some?
    ensures Possible(h, Start(start), actions)
    ensures After(h, Start(start), actions).issued == calls && !Paired(After(h, Start(start), actions))
  {
    hide Own, Execute, StateAfter, Overtaken;
    OvertakenRun(h, start, calls, i, j);
    var s0 := Start(start);
    var t := After(h, s0, Overtaken(calls, j));
    One(h, t, Receive);
    Joined(h, s0, Overtaken(calls, j), [Receive]);
    var u := Apply(h, t, Receive);
    var rest := calls[j + 1..];
    RushRun(h, u, rest);
    Joined(h, s0, Overtaken(calls, j) + [Receive], Rush(rest));
    actions := Overtaken(calls, j) + [Receive] + Rush(rest);
    var v := After(h, s0, actions);
    hide Rush, After, Possible;
    assert v.issued == calls[..j + 1] + rest == calls;
    assert IsGot(v, j) && v.results[j] == u.results[j] && u.results[j].of <= i;
  }

  /** Calls made in this order are paired in every run, whatever times out and
      whenever, exactly when nothing before a sync call is answered. */
  lemma AlwaysPairedExactly<S(!new)>(h: Handlers<S>, start: S, calls: seq<Call>)
    ensures AlwaysPaired(h, start, calls)
       <==> forall i, j :: 0 <= i < j < |calls| && calls[j].Sync? ==> Own(h, start, calls, i) == None
  {
    hide Own, Execute, StateAfter;
    if i, j :| 0 <= i < j < |calls| && calls[j].Sync? && Own(h, start, calls, i) != None {
      var actions := AnsweredCallHarms(h, start, calls, i, j);
      assert !Paired(After(h, Start(start), actions));
    } else {
      forall actions: seq<Action> |
        Possible(h, Start(start), actions) && After(h, Start(start), actions).issued == calls
        ensures Paired(After(h, Start(start), actions))
      {
        PairedExactly(h, start, actions);
        SyncCallsRead(h, start, actions);
      }
    }
  }

  lemma SyncCallsRead<S>(h: Handlers<S>, start: S, actions: seq<Action>)
    requires Possible(h, Start(start), actions)
    ensures var s := After(h, Start(start), actions);
            && |s.results| <= |s.issued|
            && forall j :: IsGot(s, j) ==> s.issued[j].Sync?
  {
    hide Own, Execute, StateAfter;
    InvStarts(h, start);
    RunKeeps(h, start, Start(start), actions);
  }

  // --------------------------------------------------- a channel without time-outs

  predicate Patient(actions: seq<Action>) {
    TimeOut !in actions
  }

  /** In a run without time-outs the replies are paired exactly when no one-way call
      that the executor answers comes before a call that read a reply. */
  lemma PatientPairedExactly<S>(h: Handlers<S>, start: S, actions: seq<Action>)
    requires Patient(actions) && Possible(h, Start(start), actions)
    ensures var s := After(h, Start(start), actions);
            && |s.results| <= |s.issued|
            && (Paired(s) <==> forall i, j :: 0 <= i < j && IsGot(s, j) && s.issued[i].OneWay? ==>
                                 Own(h, start, s.issued, i) == None)
  {
    hide Own, Execute, StateAfter;
    var s := After(h, Start(start), actions);
    PairedExactly(h, start, actions);
    InvStarts(h, start);
    RunKeeps(h, start, Start(start), actions);
    NobodyGaveUp(h, Start(start), actions);
    hide After, Possible;
    assert forall i :: 0 <= i < |s.results| ==> (!IsGot(s, i) <==> s.issued[i].OneWay?);
  }

  predicate NoneGaveUp<S>(s: System<S>) {
    forall i :: 0 <= i < |s.results| ==> !s.results[i].GaveUp?
  }

  lemma {:induction false} NobodyGaveUp<S>(h: Handlers<S>, s: System<S>, actions: seq<Action>)
    requires Patient(actions) && Possible(h, s, actions) && NoneGaveUp(s)
    ensures NoneGaveUp(After(h, s, actions))
    decreases |actions|
  {
    hide Execute;
    if actions != [] {
      assert actions[0] != TimeOut;
      NobodyGaveUp(h, Apply(h, s, actions[0]), actions[1..]);
    }
  }

  ghost predicate AlwaysPairedInTime<S(!new)>(h: Handlers<S>, start: S, calls: seq<Call>) {
    forall actions: seq<Action> ::
      Patient(actions) && Possible(h, Start(start), actions) && After(h, Start(start), actions).issued <= calls ==>
        Paired(After(h, Start(start), actions))
  }

  /** The i-th call is one-way and answered all the same, and no sync call before it
      waits for ever. */
  ghost predicate Stray<S>(h: Handlers<S>, start: S, calls: seq<Call>, i: nat)
    requires i < |calls|
  {
    && calls[i].OneWay? && Own(h, start, calls, i).Some?
    && forall k :: 0 <= k < i && calls[k].Sync? ==> Own(h, start, calls, k).Some?
  }

  lemma {:induction false} InTimeIsOwn<S>(h: Handlers<S>, start: S, s: System<S>, calls: seq<Call>, j: nat)
    requires Inv(h, start, s) && NoneGaveUp(s) && s.issued <= calls && IsGot(s, j)
    requires forall i, l :: 0 <= i < l < |calls| && calls[l].Sync? ==> !Stray(h, start, calls, i)
    ensures s.results[j].of == j
  {
    hide Own, Execute, StateAfter;
    var t := s.results[j].of;
    assert s.issued == calls[..|s.issued|];
    forall k | 0 <= k < |s.issued|
      ensures Own(h, start, s.issued, k) == Own(h, start, calls, k)
    {
      OwnOfPrefix(h, start, calls, |s.issued|, k);
    }
    if t < j {
      if s.issued[t].Sync? {
        assert IsGot(s, t);
        InTimeIsOwn(h, start, s, calls, t);
      } else {
        assert !Stray(h, start, calls, t);
        var k :| 0 <= k < t && calls[k].Sync? && Own(h, start, calls, k) == None;
        assert IsGot(s, k);
        InTimeIsOwn(h, start, s, calls, k);
      }
    }
  }

  /** Every call served before the next is made, and every reply read at once. */
  function Prompt(calls: seq<Call>): seq<Action>
    decreases |calls|
  {
    if calls == [] then []
    else
      var call := calls[|calls| - 1];
      Prompt(calls[..|calls| - 1]) + ([Invoke(call), Serve] + if call.Sync? then [Receive] else [])
  }

  lemma {:induction false} PromptRun<S>(h: Handlers<S>, start: S, calls: seq<Call>, n: nat, i: nat)
    requires n <= |calls| && i < |calls| && Stray(h, start, calls, i)
    requires forall k :: 0 <= k < n && calls[k].Sync? ==> Own(h, start, calls, k).Some?
    ensures Patient(Prompt(calls[..n])) && Possible(h, Start(start), Prompt(calls[..n]))
    ensures var t := After(h, Start(start), Prompt(calls[..n]));
            !t.waiting && t.requests == [] && t.issued == calls[..n] && (i < n ==> t.replies != [])
    decreases n
  {
    hide Own, Execute, StateAfter, Inv;
    if n > 0 {
      var m, call := n - 1, calls[n - 1];
      PromptRun(h, start, calls, m, i);
      assert calls[..n][..m] == calls[..m];
      var s := After(h, Start(start), Prompt(calls[..m]));
      var turn := [Invoke(call), Serve] + if call.Sync? then [Receive] else [];
      InvStarts(h, start);
      RunKeeps(h, start, Start(start), Prompt(calls[..m]));
      OneTurn(h, start, s, calls, m);
      Joined(h, Start(start), Prompt(calls[..m]), turn);
    }
  }

  lemma OneTurn<S>(h: Handlers<S>, start: S, s: System<S>, calls: seq<Call>, m: nat)
    requires m < |calls| && Inv(h, start, s) && !s.waiting && s.requests == [] && s.issued == calls[..m]
    requires calls[m].Sync? ==> Own(h, start, calls, m).Some?
    ensures var turn := [Invoke(calls[m]), Serve] + if calls[m].Sync? then [Receive] else [];
            && Possible(h, s, turn)
            && var t := After(h, s, turn);
               && !t.waiting && t.requests == [] && t.issued == calls[..m + 1]
               && (s.replies != [] || (calls[m].OneWay? && Own(h, start, calls, m).Some?) ==> t.replies != [])
  {
    var call := calls[m];
    var (next, reply) := Execute(h, s.state, call.request);
    assert s.issued[..Served(s)] == calls[..m];
    assert reply == Own(h, start, calls, m);
    hide Own, Execute, StateAfter, Inv;
    var s1 := Apply(h, s, Invoke(call));
    var s2 := Apply(h, s1, Serve);
    assert s1.requests == [call.request] && s1.issued == calls[..m + 1];
    if call.Sync? {
      var s3 := Apply(h, s2, Receive);
      One(h, s2, Receive);
      OneAction(h, s1, Serve, s2, [Receive]);
      OneAction(h, s, Invoke(call), s1, [Serve] + [Receive]);
      assert [Invoke(call)] + ([Serve] + [Receive]) == [Invoke(call), Serve] + [Receive];
    } else {
      One(h, s1, Serve);
      OneAction(h, s, Invoke(call), s1, [Serve]);
      assert [Invoke(call)] + [Serve] == [Invoke(call), Serve] + [];
    }
  }

  lemma {:induction false} FirstSyncAfter(calls: seq<Call>, i: nat, j: nat) returns (k: nat)
    requires i < j < |calls| && calls[j].Sync?
    ensures i < k <= j && calls[k].Sync? && forall l :: i < l < k ==> calls[l].OneWay?
    decreases j - i
  {
    if l :| i < l < j && calls[l].Sync? {
      k := FirstSyncAfter(calls, i, l);
    } else {
      k := j;
    }
  }

  lemma StrayReplyHarms<S>(h: Handlers<S>, start: S, calls: seq<Call>, i: nat, j: nat) returns (actions: seq<Action>)
    requires i < j < |calls| && calls[j].Sync? && Stray(h, start, calls, i)
    ensures Patient(actions) && Possible(h, Start(start), actions)
    ensures After(h, Start(start), actions).issued <= calls && !Paired(After(h, Start(start), actions))
  {
    hide Own, Execute, StateAfter;
    var k := FirstSyncAfter(calls, i, j);
    PromptRun(h, start, calls, k, i);
    var s0, prompt := Start(start), Prompt(calls[..k]);
    var s1 := After(h, s0, prompt);
    InvStarts(h, start);
    RunKeeps(h, start, s0, prompt);
    hide Prompt;
    StrayReplyIsRead(h, start, s1, calls, k);
    Joined(h, s0, prompt, [Invoke(calls[k])] + [Receive]);
    actions := prompt + ([Invoke(calls[k])] + [Receive]);
    hide After, Possible, Inv;
  }

  /** With a reply in flight and no request queued, the next sync call reads it. */
  lemma StrayReplyIsRead<S>(h: Handlers<S>, start: S, s: System<S>, calls: seq<Call>, k: nat)
    requires k < |calls| && calls[k].Sync? && Inv(h, start, s) && s.replies != []
    requires !s.waiting && s.issued == calls[..k]
    ensures var turn := [Invoke(calls[k])] + [Receive];
            && Possible(h, s, turn)
            && var t := After(h, s, turn); t.issued <= calls && !Paired(t)
  {
    hide Own, Execute, StateAfter;
    var s1 := Apply(h, s, Invoke(calls[k]));
    var s2 := Apply(h, s1, Receive);
    One(h, s1, Receive);
    OneAction(h, s, Invoke(calls[k]), s1, [Receive]);
    hide After, Possible;
    assert s2.issued == calls[..k + 1];
    assert IsGot(s2, k) && s2.results[k].of < k;
  }

  /** Over a channel that never times out, calls made in this order are paired in
      every run exactly when no sync call follows a one-way call that the executor
      answers, unless one before that already waits for ever. */
  lemma AlwaysPairedInTimeExactly<S(!new)>(h: Handlers<S>, start: S, calls: seq<Call>)
    ensures AlwaysPairedInTime(h, start, calls)
       <==> forall i, j :: 0 <= i < j < |calls| && calls[j].Sync? ==> !Stray(h, start, calls, i)
  {
    hide Own, Execute, StateAfter, Stray;
    if i, j :| 0 <= i < j < |calls| && calls[j].Sync? && Stray(h, start, calls, i) {
      var actions := StrayReplyHarms(h, start, calls, i, j);
      assert !Paired(After(h, Start(start), actions));
    } else {
      forall actions: seq<Action> |
        Patient(actions) && Possible(h, Start(start), actions) && After(h, Start(start), actions).issued <= calls
        ensures Paired(After(h, Start(start), actions))
      {
        var s := After(h, Start(start), actions);
        InvStarts(h, start);
        RunKeeps(h, start, Start(start), actions);
        NobodyGaveUp(h, Start(start), actions);
        forall j | IsGot(s, j)
          ensures s.results[j].of == j
        {
          InTimeIsOwn(h, start, s, calls, j);
        }
      }
    }
  }
}
