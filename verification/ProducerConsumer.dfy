/** utils/cproducerconsumer.hpp: the bounded queue as the steps its threads take
    between acquiring and releasing the lock, in any interleaving. */
module ProducerConsumer {
  import opened Wrappers

  datatype Op<T> = Push(item: T) | Pop

  /** push/pop without a thread, push/pop with one, and try_push/try_pop. */
  datatype Style = Untimed | Timed | Try

  datatype Call<T> = Call(op: Op<T>, style: Style)

  /** Where a thread is.  Testing, Woken, Ready, Notifying and Leaving hold the
      lock; an Asleep thread has not been notified, a Waking one has, or its wait
      timed out or ended by itself, and it wants the lock back. */
  datatype Phase<T> =
    | Outside
    | Entering(call: Call<T>)
    | Testing(call: Call<T>)
    | Asleep(call: Call<T>)
    | Waking(call: Call<T>, timedOut: bool)
    | Woken(call: Call<T>, timedOut: bool)
    | Ready(call: Call<T>)
    | Notifying(call: Call<T>)
    | Leaving(call: Call<T>, code: int)

  /** `acted` counts its changes to the queue, `succeeded` its returns of 0. */
  datatype Thread<T> = Thread(phase: Phase<T>, acted: nat, succeeded: nat)

  /** `pushed` and `popped` are what went in and came out, in lock order. */
  datatype Queue<T> = Queue(
    capacity: nat, que: seq<T>, lock: Option<nat>, threads: seq<Thread<T>>, pushed: seq<T>, popped: seq<T>)

  /** The sizes are compared as 32-bit counts. */
  const COUNTS := 0x1_0000_0000

  predicate IsEmpty<T>(q: Queue<T>) {
    |q.que| % COUNTS == 0
  }

  predicate IsFull<T>(q: Queue<T>) {
    |q.que| % COUNTS == q.capacity
  }

  /** The while condition of the call. */
  predicate Blocked<T>(q: Queue<T>, op: Op<T>) {
    if op.Push? then IsFull(q) else IsEmpty(q)
  }

  predicate InLock<T>(p: Phase<T>) {
    p.Testing? || p.Woken? || p.Ready? || p.Notifying? || p.Leaving?
  }

  // ------------------------------------------------------------------- steps

  datatype Action<T> =
    | Begin(t: nat, call: Call<T>)
    | Acquire(t: nat)
    | Test(t: nat)
    | Wake(t: nat, timedOut: bool)
    | Settle(t: nat, terminated: bool)
    | Act(t: nat, terminated: bool)
    | Notify(t: nat)
    | Return(t: nat)

  predicate Enabled<T>(q: Queue<T>, a: Action<T>) {
    a.t < |q.threads| &&
    var p := q.threads[a.t].phase;
    match a
    case Begin(_, _) => p.Outside?
    case Acquire(_) => (p.Entering? || p.Waking?) && q.lock == None
    case Test(_) => p.Testing?
    case Wake(_, timedOut) => p.Asleep? && (timedOut ==> !p.call.style.Untimed?)
    case Settle(_, _) => p.Woken?
    case Act(_, _) => p.Ready? && (p.call.op.Pop? ==> q.que != [])
    case Notify(_) => p.Notifying?
    case Return(_) => p.Leaving?
  }

  function Moved<T>(q: Queue<T>, t: nat, p: Phase<T>): Queue<T>
    requires t < |q.threads|
  {
    q.(threads := q.threads[t := q.threads[t].(phase := p)])
  }

  /** notify_all: a push wakes the pops that sleep and a pop the pushes. */
  function Roused<T>(x: Thread<T>, cause: Op<T>): Thread<T> {
    if x.phase.Asleep? && x.phase.call.op.Push? != cause.Push? then x.(phase := Waking(x.phase.call, false)) else x
  }

  function NotifyAll<T>(q: Queue<T>, cause: Op<T>): Queue<T> {
    q.(threads := seq(|q.threads|, i requires 0 <= i < |q.threads| => Roused(q.threads[i], cause)))
  }

  function Changed<T>(q: Queue<T>, op: Op<T>): Queue<T>
    requires op.Pop? ==> q.que != []
  {
    match op
    case Push(x) => q.(que := q.que + [x], pushed := q.pushed + [x])
    case Pop => q.(que := q.que[1..], popped := q.popped + [q.que[0]])
  }

  function Apply<T>(q: Queue<T>, a: Action<T>): Queue<T>
    requires Enabled(q, a)
  {
    var x := q.threads[a.t];
    match a
    case Begin(t, call) => Moved(q, t, Entering(call))
    case Acquire(t) =>
      Moved(q.(lock := Some(t)), t,
            if x.phase.Entering? then Testing(x.phase.call) else Woken(x.phase.call, x.phase.timedOut))
    case Test(t) =>
      var call := x.phase.call;
      if Blocked(q, call.op) then Moved(q.(lock := None), t, Asleep(call)) else Moved(q, t, Ready(call))
    case Wake(t, timedOut) => Moved(q, t, Waking(x.phase.call, timedOut))
    case Settle(t, terminated) =>
      var call := x.phase.call;
      if call.style.Try? && x.phase.timedOut then Moved(q, t, Leaving(call, -2))
      else if !call.style.Untimed? && terminated then Moved(q, t, Leaving(call, -1))
      else Moved(q, t, Testing(call))
    case Act(t, terminated) =>
      var call := x.phase.call;
      if !call.style.Untimed? && terminated then Moved(q, t, Leaving(call, -1))
      else
        var r := Changed(q, call.op);
        r.(threads := q.threads[t := x.(phase := Notifying(call), acted := x.acted + 1)])
    case Notify(t) => Moved(NotifyAll(q, x.phase.call.op), t, Leaving(x.phase.call, 0))
    case Return(t) =>
      q.(lock := None,
         threads := q.threads[t := Thread(Outside, x.acted, x.succeeded + if x.phase.code == 0 then 1 else 0)])
  }

  predicate Possible<T>(q: Queue<T>, actions: seq<Action<T>>)
    decreases |actions|
  {
    actions == [] || (Enabled(q, actions[0]) && Possible(Apply(q, actions[0]), actions[1..]))
  }

  function After<T>(q: Queue<T>, actions: seq<Action<T>>): Queue<T>
    requires Possible(q, actions)
    decreases |actions|
  {
    if actions == [] then q else After(Apply(q, actions[0]), actions[1..])
  }

  function Fresh<T>(capacity: nat, n: nat): Queue<T> {
    Queue(capacity, [], None, seq(n, _ => Thread(Outside, 0, 0)), [], [])
  }

  // --------------------------------------------------------------- invariant

  /** Thread t sleeps un-notified in a call of this kind. */
  predicate Sleeps<T>(q: Queue<T>, t: nat, push: bool) {
    t < |q.threads| && q.threads[t].phase.Asleep? && q.threads[t].phase.call.op.Push? == push
  }

  /** A change has been made whose notification is still to come. */
  predicate Owes<T>(q: Queue<T>, t: nat, push: bool) {
    t < |q.threads| && q.threads[t].phase.Notifying? && q.threads[t].phase.call.op.Push? == push
  }

  predicate Exclusive<T>(q: Queue<T>) {
    forall t :: 0 <= t < |q.threads| ==> (InLock(q.threads[t].phase) <==> q.lock == Some(t))
  }

  /** A Ready thread's test still holds, since it kept the lock. */
  predicate Tested<T>(q: Queue<T>) {
    forall t :: 0 <= t < |q.threads| && q.threads[t].phase.Ready? ==> !Blocked(q, q.threads[t].phase.call.op)
  }

  /** Whoever sleeps un-notified has a reason to, or a notification is on its way. */
  ghost predicate NobodyForgotten<T>(q: Queue<T>) {
    && (forall t: nat :: Sleeps(q, t, true) ==> IsFull(q) || (q.lock.Some? && Owes(q, q.lock.value, false)))
    && (forall t: nat :: Sleeps(q, t, false) ==> IsEmpty(q) || (q.lock.Some? && Owes(q, q.lock.value, true)))
  }

  /** While a push owes a notification no push sleeps, and likewise for pops. */
  ghost predicate OwnSideAwake<T>(q: Queue<T>) {
    forall t: nat, u: nat, push: bool :: Owes(q, t, push) ==> !Sleeps(q, u, push)
  }

  /** The thread has acted once in this call and not returned yet. */
  predicate MidSuccess<T>(p: Phase<T>) {
    p.Notifying? || (p.Leaving? && p.code == 0)
  }

  predicate Accounted<T>(q: Queue<T>) {
    forall t :: 0 <= t < |q.threads| ==>
      q.threads[t].acted == q.threads[t].succeeded + if MidSuccess(q.threads[t].phase) then 1 else 0
  }

  ghost predicate Conserved<T>(q: Queue<T>) {
    q.popped + q.que == q.pushed
  }

  predicate Bounded<T>(q: Queue<T>) {
    q.capacity < COUNTS ==> |q.que| <= q.capacity
  }

  ghost predicate Inv<T>(q: Queue<T>) {
    Exclusive(q) && Tested(q) && NobodyForgotten(q) && OwnSideAwake(q) && Accounted(q) && Conserved(q) && Bounded(q)
  }

  lemma FreshIsFine<T>(capacity: nat, n: nat)
    ensures Inv(Fresh<T>(capacity, n))
  {
  }

  /** Steps that leave the queue alone and put nobody to sleep. */
  lemma QuietStep<T>(q: Queue<T>, r: Queue<T>, t: nat)
    requires Inv(q) && t < |q.threads| == |r.threads|
    requires r.que == q.que && r.capacity == q.capacity && r.pushed == q.pushed && r.popped == q.popped
    requires forall u :: 0 <= u < |q.threads| && u != t ==> r.threads[u] == q.threads[u]
    requires !r.threads[t].phase.Asleep? && !r.threads[t].phase.Notifying? && !q.threads[t].phase.Notifying?
    requires r.threads[t].phase.Ready? ==> !Blocked(q, r.threads[t].phase.call.op)
    requires r.threads[t].acted == q.threads[t].acted
    requires r.threads[t].acted == r.threads[t].succeeded + if MidSuccess(r.threads[t].phase) then 1 else 0
    requires if InLock(r.threads[t].phase) then r.lock == Some(t) && (q.lock == None || q.lock == Some(t))
             else if q.lock == Some(t) then r.lock == None else r.lock == q.lock
    ensures Inv(r)
  {
    forall u: nat | Sleeps(r, u, true)
      ensures IsFull(r) || (r.lock.Some? && Owes(r, r.lock.value, false))
    {
      assert Sleeps(q, u, true);
    }
    forall u: nat | Sleeps(r, u, false)
      ensures IsEmpty(r) || (r.lock.Some? && Owes(r, r.lock.value, true))
    {
      assert Sleeps(q, u, false);
    }
    forall u: nat, v: nat, push: bool | Owes(r, u, push)
      ensures !Sleeps(r, v, push)
    {
      assert Owes(q, u, push);
      if Sleeps(r, v, push) {
        assert Sleeps(q, v, push);
      }
    }
  }

  /** Going to sleep: the condition was tested in the same critical section. */
  lemma SleepKeeps<T>(q: Queue<T>, t: nat)
    requires Inv(q) && Enabled(q, Test(t)) && Blocked(q, q.threads[t].phase.call.op)
    ensures Inv(Apply(q, Test(t)))
  {
    var r := Apply(q, Test(t));
    forall u: nat | Sleeps(r, u, true)
      ensures IsFull(r)
    {
      if u != t {
        assert Sleeps(q, u, true);
      }
    }
    forall u: nat | Sleeps(r, u, false)
      ensures IsEmpty(r)
    {
      if u != t {
        assert Sleeps(q, u, false);
      }
    }
  }

  /** A change leaves nobody of its own side asleep. */
  lemma ChangeKeeps<T>(q: Queue<T>, t: nat)
    requires Inv(q) && Enabled(q, Act(t, false))
    ensures Inv(Apply(q, Act(t, false)))
  {
    var r := Apply(q, Act(t, false));
    var op := q.threads[t].phase.call.op;
    forall u: nat | Sleeps(r, u, op.Push?)
      ensures false
    {
      assert Sleeps(q, u, op.Push?);
    }
    assert Owes(r, t, op.Push?);
    if op.Push? {
      assert r.popped + r.que == q.popped + q.que + [op.item];
    } else {
      assert q.que == [q.que[0]] + q.que[1..];
      assert r.popped + r.que == q.popped + ([q.que[0]] + q.que[1..]);
    }
    SizeStaysBounded(q, op);
  }

  lemma SizeStaysBounded<T>(q: Queue<T>, op: Op<T>)
    requires Bounded(q) && !Blocked(q, op) && (op.Pop? ==> q.que != [])
    ensures Bounded(Changed(q, op))
  {
  }

  /** notify_all leaves nobody of the other side asleep. */
  lemma NotifyKeeps<T>(q: Queue<T>, t: nat)
    requires Inv(q) && Enabled(q, Notify(t))
    ensures Inv(Apply(q, Notify(t)))
  {
    var r := Apply(q, Notify(t));
    var push := q.threads[t].phase.call.op.Push?;
    assert Owes(q, t, push);
    forall u: nat, side: bool | Sleeps(r, u, side)
      ensures false
    {
      if side == push {
        assert Sleeps(q, u, side);
      }
    }
  }

  lemma StepKeeps<T>(q: Queue<T>, a: Action<T>)
    requires Inv(q) && Enabled(q, a)
    ensures Inv(Apply(q, a))
  {
    var r := Apply(q, a);
    if a.Test? && Blocked(q, q.threads[a.t].phase.call.op) {
      SleepKeeps(q, a.t);
    } else if a.Act? && !r.threads[a.t].phase.Leaving? {
      assert r == Apply(q, Act(a.t, false));
      ChangeKeeps(q, a.t);
    } else if a.Notify? {
      NotifyKeeps(q, a.t);
    } else {
      QuietStep(q, r, a.t);
    }
  }

  lemma {:induction false} RunKeeps<T>(q: Queue<T>, actions: seq<Action<T>>)
    requires Inv(q) && Possible(q, actions)
    ensures Inv(After(q, actions)) && After(q, actions).capacity == q.capacity
    decreases |actions|
  {
    hide Inv;
    if actions != [] {
      StepKeeps(q, actions[0]);
      RunKeeps(Apply(q, actions[0]), actions[1..]);
    }
  }

  // ---------------------------------------------------------------- theorems

  /** In every interleaving: whoever sleeps un-notified has its condition, a push a
      full queue and a pop an empty one, unless the thread that holds the lock has
      just changed that and is about to notify.  A free lock leaves the first. */
  lemma NoLostWakeups<T>(capacity: nat, n: nat, actions: seq<Action<T>>, t: nat)
    requires Possible(Fresh(capacity, n), actions)
    ensures var q := After(Fresh(capacity, n), actions);
            && (Sleeps(q, t, true) ==>
                  |q.que| % 0x1_0000_0000 == q.capacity || (q.lock.Some? && Owes(q, q.lock.value, false)))
            && (Sleeps(q, t, false) ==>
                  |q.que| % 0x1_0000_0000 == 0 || (q.lock.Some? && Owes(q, q.lock.value, true)))
            && (q.lock == None && Sleeps(q, t, true) ==> |q.que| % 0x1_0000_0000 == q.capacity)
            && (q.lock == None && Sleeps(q, t, false) ==> |q.que| % 0x1_0000_0000 == 0)
  {
    FreshIsFine<T>(capacity, n);
    RunKeeps(Fresh(capacity, n), actions);
  }

  /** With room for one item a push and a pop never both sleep un-notified, not
      even between a change and its notification. */
  lemma NeverBothAsleep<T>(capacity: nat, n: nat, actions: seq<Action<T>>, t: nat, u: nat)
    requires capacity >= 1 && Possible(Fresh(capacity, n), actions)
    ensures var q := After(Fresh(capacity, n), actions);
            !(Sleeps(q, t, true) && Sleeps(q, u, false))
  {
    FreshIsFine<T>(capacity, n);
    RunKeeps(Fresh(capacity, n), actions);
  }

  /** What came out followed by what is in is what went in, and a thread outside
      the queue has changed it once for every call that returned 0: the calls
      that returned -1 or -2 changed nothing. */
  lemma ItemsAreConserved<T>(capacity: nat, n: nat, actions: seq<Action<T>>)
    requires Possible(Fresh(capacity, n), actions)
    ensures var q := After(Fresh(capacity, n), actions);
            && q.popped + q.que == q.pushed
            && (forall t :: 0 <= t < |q.threads| && q.threads[t].phase.Outside? ==>
                  q.threads[t].acted == q.threads[t].succeeded)
            && Acts(q.threads) == |q.pushed| + |q.popped|
  {
    FreshIsFine<T>(capacity, n);
    NoActsYet<T>(n);
    RunKeeps(Fresh(capacity, n), actions);
    RunKeepsActs(Fresh(capacity, n), actions);
  }

  /** What a call that ends returns, whatever else goes on: -2 exactly when a try_push
      or try_pop finds that its wait timed out, 0 exactly after its notification, and
      -1 exactly when a call with a thread finds that terminated, before it tests
      again or before it acts.  Only a thread on its way to notify changes the queue. */
  lemma CodesMean<T>(q: Queue<T>, a: Action<T>, p: Phase<T>, r: Queue<T>)
    requires Enabled(q, a) && r == Apply(q, a) && p == q.threads[a.t].phase && !p.Leaving?
    ensures var now := r.threads[a.t].phase;
            && (now.Leaving? ==> now.code in {0, -1, -2} && now.call == p.call)
            && (now.Leaving? && now.code == -2 <==> a.Settle? && p.timedOut && p.call.style.Try?)
            && (now.Leaving? && now.code == 0 <==> a.Notify?)
            && (now.Leaving? && now.code == -1 <==>
                  || (a.Settle? && a.terminated && p.call.style != Untimed && !(p.timedOut && p.call.style.Try?))
                  || (a.Act? && a.terminated && p.call.style != Untimed))
            && (r.que == q.que || (a.Act? && !now.Leaving?))
            && (a.Act? && !now.Leaving? ==>
                  r.que == match p.call.op case Push(x) => q.que + [x] case Pop => q.que[1..])
  {
  }

  /** Only a notification moves other threads: it wakes exactly those asleep in calls of
      the other kind, none of which has then timed out. */
  lemma NotifyMoves<T>(q: Queue<T>, a: Action<T>, u: nat)
    requires Enabled(q, a) && u < |q.threads| && u != a.t
    ensures var x, y := q.threads[u], Apply(q, a).threads[u];
            if a.Notify? && x.phase.Asleep? && x.phase.call.op.Push? != q.threads[a.t].phase.call.op.Push?
            then y == Thread(Waking(x.phase.call, false), x.acted, x.succeeded)
            else y == x
  {
  }

  /** A thread that has passed its test can always take its item. */
  lemma ReadyCanAct<T>(capacity: nat, n: nat, actions: seq<Action<T>>, t: nat, terminated: bool)
    requires Possible(Fresh(capacity, n), actions)
    ensures var q := After(Fresh(capacity, n), actions);
            t < |q.threads| && q.threads[t].phase.Ready? ==> Enabled(q, Act(t, terminated))
  {
    FreshIsFine<T>(capacity, n);
    RunKeeps(Fresh(capacity, n), actions);
  }

  // --------------------------------------------------- changes by all threads

  function Acts<T>(threads: seq<Thread<T>>): nat {
    if threads == [] then 0 else threads[0].acted + Acts(threads[1..])
  }

  lemma {:induction false} NoActsYet<T>(n: nat)
    ensures Acts(seq(n, _ => Thread<T>.Thread(Outside, 0, 0))) == 0
  {
    if n > 0 {
      NoActsYet<T>(n - 1);
      assert seq(n, _ => Thread<T>.Thread(Outside, 0, 0))[1..] == seq(n - 1, _ => Thread<T>.Thread(Outside, 0, 0));
    }
  }

  lemma {:induction false} ActsOfUpdate<T>(threads: seq<Thread<T>>, t: nat, x: Thread<T>)
    requires t < |threads|
    ensures Acts(threads[t := x]) == Acts(threads) - threads[t].acted + x.acted
    decreases |threads|
  {
    if t > 0 {
      ActsOfUpdate(threads[1..], t - 1, x);
      assert threads[t := x][1..] == threads[1..][t - 1 := x];
    } else {
      assert threads[t := x][1..] == threads[1..];
    }
  }

  lemma {:induction false} ActsOfSame<T>(xs: seq<Thread<T>>, ys: seq<Thread<T>>)
    requires |xs| == |ys| && forall t :: 0 <= t < |xs| ==> xs[t].acted == ys[t].acted
    ensures Acts(xs) == Acts(ys)
    decreases |xs|
  {
    if xs != [] {
      ActsOfSame(xs[1..], ys[1..]);
    }
  }

  lemma StepKeepsActs<T>(q: Queue<T>, a: Action<T>)
    requires Enabled(q, a) && Acts(q.threads) == |q.pushed| + |q.popped|
    ensures var r := Apply(q, a); Acts(r.threads) == |r.pushed| + |r.popped|
  {
    var r := Apply(q, a);
    if a.Notify? {
      ActsOfSame(q.threads, r.threads);
    } else {
      ActsOfUpdate(q.threads, a.t, r.threads[a.t]);
      assert r.threads == q.threads[a.t := r.threads[a.t]];
    }
  }

  lemma {:induction false} RunKeepsActs<T>(q: Queue<T>, actions: seq<Action<T>>)
    requires Possible(q, actions) && Acts(q.threads) == |q.pushed| + |q.popped|
    ensures var r := After(q, actions); Acts(r.threads) == |r.pushed| + |r.popped|
    decreases |actions|
  {
    if actions != [] {
      StepKeepsActs(q, actions[0]);
      RunKeepsActs(Apply(q, actions[0]), actions[1..]);
    }
  }

  // ----------------------------------------------------------------- capacity

  /** Thread 0 is outside and nobody holds the lock. */
  predicate Resting<T>(q: Queue<T>) {
    q.lock == None && |q.threads| > 0 && q.threads[0].phase.Outside?
  }

  function PushSteps<T>(item: T): seq<Action<T>> {
    [Begin(0, Call(Push(item), Untimed)), Acquire(0), Test(0), Act(0, false), Notify(0), Return(0)]
  }

  lemma OneAction<T>(q: Queue<T>, a: Action<T>, r: Queue<T>, rest: seq<Action<T>>)
    requires Enabled(q, a) && r == Apply(q, a) && Possible(r, rest)
    ensures Possible(q, [a] + rest) && After(q, [a] + rest) == After(r, rest)
  {
    assert ([a] + rest)[1..] == rest;
  }

  /** The queue after such a push. */
  function Grown<T>(q: Queue<T>, item: T): Queue<T>
    requires Resting(q) && !IsFull(q)
  {
    var s := PushSteps(item);
    var q1 := Apply(q, s[0]);
    var q2 := Apply(q1, s[1]);
    assert !Blocked(q2, Push(item));
    var q3 := Apply(q2, s[2]);
    var q4 := Apply(q3, s[3]);
    var q5 := Apply(q4, s[4]);
    Apply(q5, s[5])
  }

  /** A push into a queue that does not count as full goes through. */
  lemma PushGoesThrough<T>(q: Queue<T>, item: T, rest: seq<Action<T>>)
    requires Resting(q) && !IsFull(q)
    requires Possible(Grown(q, item), rest)
    ensures Possible(q, PushSteps(item) + rest)
    ensures After(q, PushSteps(item) + rest) == After(Grown(q, item), rest)
  {
    var s := PushSteps(item);
    var q1 := Apply(q, s[0]);
    var q2 := Apply(q1, s[1]);
    assert !Blocked(q2, Push(item));
    var q3 := Apply(q2, s[2]);
    var q4 := Apply(q3, s[3]);
    var q5 := Apply(q4, s[4]);
    OneAction(q5, s[5], Grown(q, item), rest);
    OneAction(q4, s[4], q5, [s[5]] + rest);
    OneAction(q3, s[3], q4, [s[4]] + ([s[5]] + rest));
    OneAction(q2, s[2], q3, [s[3]] + ([s[4]] + ([s[5]] + rest)));
    OneAction(q1, s[1], q2, [s[2]] + ([s[3]] + ([s[4]] + ([s[5]] + rest))));
    OneAction(q, s[0], q1, [s[1]] + ([s[2]] + ([s[3]] + ([s[4]] + ([s[5]] + rest)))));
    assert s + rest == [s[0]] + ([s[1]] + ([s[2]] + ([s[3]] + ([s[4]] + ([s[5]] + rest)))));
  }

  lemma GrownByOne<T>(q: Queue<T>, item: T)
    requires Resting(q) && !IsFull(q)
    ensures var r := Grown(q, item); Resting(r) && r.que == q.que + [item] && r.capacity == q.capacity
  {
  }

  /** A capacity of 2^32 or more is never reached by the count, so pushes go on. */
  lemma {:induction false} PushesGoOn<T>(q: Queue<T>, item: T, more: nat) returns (actions: seq<Action<T>>)
    requires Resting(q) && q.capacity >= COUNTS
    ensures Possible(q, actions) && |After(q, actions).que| == |q.que| + more
    decreases more
  {
    if more == 0 {
      actions := [];
    } else {
      GrownByOne(q, item);
      hide Grown, PushSteps;
      var rest := PushesGoOn(Grown(q, item), item, more - 1);
      PushGoesThrough(q, item, rest);
      actions := PushSteps(item) + rest;
    }
  }

  ghost predicate StaysBounded<T(!new)>(capacity: nat, n: nat) {
    forall actions: seq<Action<T>> :: Possible(Fresh(capacity, n), actions) ==>
      |After(Fresh(capacity, n), actions).que| <= capacity
  }

  /** The size never exceeds the capacity exactly when the capacity fits the
      32-bit count it is compared with. */
  lemma CapacityIsKept<T(!new)>(capacity: nat, n: nat, item: T)
    requires n > 0
    ensures StaysBounded<T>(capacity, n) <==> capacity < 0x1_0000_0000
  {
    var q := Fresh<T>(capacity, n);
    if capacity < COUNTS {
      FreshIsFine<T>(capacity, n);
      forall actions: seq<Action<T>> | Possible(q, actions)
        ensures |After(q, actions).que| <= capacity
      {
        RunKeeps(q, actions);
      }
    } else {
      var actions := PushesGoOn(q, item, capacity + 1);
      assert Possible(Fresh(capacity, n), actions);
    }
  }
}
