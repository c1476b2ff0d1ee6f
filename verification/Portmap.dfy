/** node/cportmap.cpp: the table of registered ports and the allocator of
    ephemeral ones.  Q stands for the application queues, compared as pointers. */
module Portmap {

  const FIRST := 40000
  /** Ports from FIRST up to here, exclusive, are handed out. */
  const LIMIT := 65535
  const RANGE := LIMIT - FIRST

  predicate Ephemeral(port: nat) {
    FIRST <= port < LIMIT
  }

  datatype Table<Q> = Table(ports: map<nat, Q>, cursor: nat) {
    predicate Valid() {
      FIRST <= cursor <= LIMIT
    }
  }

  /** How many steps round the range from cursor to port. */
  function Distance(cursor: nat, port: nat): nat
    requires FIRST <= cursor <= LIMIT && Ephemeral(port)
  {
    if port >= cursor then port - cursor else port - cursor + RANGE
  }

  // --------------------------------------------------------------- operations

  /** The first port of lo..hi that is not registered, or hi. */
  function FirstFree<Q>(ports: map<nat, Q>, lo: nat, hi: nat): (p: nat)
    requires lo <= hi
    ensures lo <= p <= hi
    ensures p < hi ==> p !in ports
    ensures forall x :: lo <= x < p ==> x in ports
    decreases hi - lo
  {
    if lo == hi || lo !in ports then lo else FirstFree(ports, lo + 1, hi)
  }

  /** The port that getEphemeralPort returns: 0 when there is none. */
  function Granted<Q>(t: Table<Q>): nat
    requires t.Valid()
  {
    var p := FirstFree(t.ports, t.cursor, LIMIT);
    if p < LIMIT then p
    else
      var r := FirstFree(t.ports, FIRST, t.cursor);
      if r < t.cursor then r else 0
  }

  datatype Op<Q> = Register(port: nat, q: Q) | Unregister(port: nat) | Free(q: Q) | Grant(q: Q)

  function Apply<Q(==)>(t: Table<Q>, op: Op<Q>): (u: Table<Q>)
    requires t.Valid()
    ensures u.Valid()
  {
    match op
    case Register(port, q) => if port in t.ports then t else t.(ports := t.ports[port := q])
    case Unregister(port) => t.(ports := t.ports - {port})
    case Free(q) => t.(ports := map p | p in t.ports && t.ports[p] != q :: t.ports[p])
    case Grant(q) =>
      var p := Granted(t);
      if p == 0 then t else Table(t.ports[p := q], p + 1)
  }

  /** 0 means that every ephemeral port is registered; any other result is the
      first free port in cyclic order from the cursor. */
  lemma GrantedIsFirst<Q>(t: Table<Q>)
    requires t.Valid()
    ensures Granted(t) == 0 <==> forall x :: Ephemeral(x) ==> x in t.ports
    ensures Granted(t) != 0 ==> Ephemeral(Granted(t)) && Granted(t) !in t.ports
    ensures Granted(t) != 0 ==>
              forall x :: Ephemeral(x) && x !in t.ports ==> Distance(t.cursor, Granted(t)) <= Distance(t.cursor, x)
  {
    var r := FirstFree(t.ports, FIRST, t.cursor);
    if Granted(t) != 0 {
      assert Ephemeral(Granted(t));
    }
  }

  class CPortmap<Q(==)> {
    var mapPorts: map<nat, Q>
    var ephemeralPort: nat

    ghost function Abstract(): Table<Q>
      reads this
    {
      Table(mapPorts, ephemeralPort)
    }

    ghost predicate Valid()
      reads this
    {
      Abstract().Valid()
    }

    constructor ()
      ensures Valid() && Abstract() == Table(map[], FIRST)
    {
      mapPorts, ephemeralPort := map[], FIRST;
    }

    method RegisterPort(port: nat, q: Q) returns (registered: bool)
      requires Valid()
      modifies this`mapPorts
      ensures registered <==> port !in old(mapPorts)
      ensures mapPorts == if registered then old(mapPorts)[port := q] else old(mapPorts)
      ensures Abstract() == Apply(old(Abstract()), Register(port, q))
    {
      registered := port !in mapPorts;
      if registered {
        mapPorts := mapPorts[port := q];
      }
    }

    method UnregisterPort(port: nat) returns (erased: bool)
      requires Valid()
      modifies this`mapPorts
      ensures erased <==> port in old(mapPorts)
      ensures forall p :: p in mapPorts <==> p in old(mapPorts) && p != port
      ensures forall p <- mapPorts :: mapPorts[p] == old(mapPorts)[p]
      ensures Abstract() == Apply(old(Abstract()), Unregister(port))
    {
      erased := port in mapPorts;
      mapPorts := mapPorts - {port};
    }

    method FreePorts(q: Q)
      requires Valid()
      modifies this`mapPorts
      ensures forall p :: p in mapPorts <==> p in old(mapPorts) && old(mapPorts)[p] != q
      ensures forall p <- mapPorts :: mapPorts[p] == old(mapPorts)[p]
      ensures Abstract() == Apply(old(Abstract()), Free(q))
    {
      var left := mapPorts.Keys;
      while left != {}
        invariant left <= mapPorts.Keys <= old(mapPorts).Keys
        invariant forall p <- mapPorts :: mapPorts[p] == old(mapPorts)[p]
        invariant forall p <- old(mapPorts) :: p !in left ==> (p in mapPorts <==> old(mapPorts)[p] != q)
        decreases |left|
      {
        var p :| p in left;
        left := left - {p};
        if mapPorts[p] == q {
          mapPorts := mapPorts - {p};
        }
      }
    }

    /** Tries one port after another and binds the first that is free. */
    method RegisterFirst(lo: nat, hi: nat, q: Q) returns (registered: bool, port: nat)
      requires Valid() && lo <= hi
      modifies this`mapPorts
      ensures port == FirstFree(old(mapPorts), lo, hi)
      ensures registered <==> port < hi
      ensures mapPorts == if registered then old(mapPorts)[port := q] else old(mapPorts)
    {
      registered, port := false, lo;
      while port < hi
        invariant lo <= port <= hi && mapPorts == old(mapPorts)
        invariant FirstFree(mapPorts, lo, hi) == FirstFree(mapPorts, port, hi)
      {
        registered := RegisterPort(port, q);
        if registered {
          return;
        }
        port := port + 1;
      }
      registered := false;
    }

    /** The loops stop below 65535, so port + 1 never passes the last port and the
        source's reset of the cursor is not taken. */
    method GetEphemeralPort(q: Q) returns (port: nat)
      requires Valid()
      modifies this
      ensures Valid()
      ensures port == Granted(old(Abstract()))
      ensures Abstract() == Apply(old(Abstract()), Grant(q))
      ensures port == 0 ==>
                && mapPorts == old(mapPorts) && ephemeralPort == old(ephemeralPort)
                && forall x :: 40000 <= x < 65535 ==> x in mapPorts
      ensures port != 0 ==>
                && 40000 <= port < 65535 && port !in old(mapPorts)
                && mapPorts == old(mapPorts)[port := q] && ephemeralPort == port + 1
                && (forall x :: old(ephemeralPort) <= x < (if port >= old(ephemeralPort) then port else 65535) ==>
                      x in old(mapPorts))
                && (port < old(ephemeralPort) ==> forall x :: 40000 <= x < port ==> x in old(mapPorts))
    {
      var registered;
      registered, port := RegisterFirst(ephemeralPort, LIMIT, q);
      if registered {
        ephemeralPort := port + 1;
        return;
      }
      registered, port := RegisterFirst(FIRST, ephemeralPort, q);
      if registered {
        ephemeralPort := port + 1;
        return;
      }
      port := 0;
    }
  }

  // --------------------------------------------------------------------- runs

  function After<Q(==)>(t: Table<Q>, ops: seq<Op<Q>>): (u: Table<Q>)
    requires t.Valid()
    ensures u.Valid()
    decreases |ops|
  {
    if ops == [] then t else After(Apply(t, ops[0]), ops[1..])
  }

  /** The ports that were registered at some moment of the run. */
  function Seen<Q(==)>(t: Table<Q>, ops: seq<Op<Q>>): (s: set<nat>)
    requires t.Valid()
    ensures t.ports.Keys <= s
    decreases |ops|
  {
    t.ports.Keys + if ops == [] then {} else Seen(Apply(t, ops[0]), ops[1..])
  }

  /** The cursor is `passed` steps past `base`, and every port it has passed since
      then is in `seen`. */
  ghost predicate Swept<Q>(t: Table<Q>, base: nat, passed: nat, seen: set<nat>)
    requires FIRST <= base <= LIMIT
  {
    && t.Valid()
    && passed <= RANGE
    && (t.cursor == base + passed || t.cursor == base + passed - RANGE)
    && forall x :: Ephemeral(x) && Distance(base, x) < passed ==> x in seen
  }

  /** A grant passes registered ports only. */
  lemma GrantPasses<Q>(t: Table<Q>, base: nat, passed: nat, seen: set<nat>)
    requires FIRST <= base <= LIMIT && Swept(t, base, passed, seen) && Granted(t) != 0
    ensures Ephemeral(Granted(t))
    ensures Distance(base, Granted(t)) >= passed ==>
              forall x :: Ephemeral(x) && Distance(base, x) < Distance(base, Granted(t)) ==> x in seen + t.ports.Keys
    ensures Distance(base, Granted(t)) < passed ==> forall x :: Ephemeral(x) ==> x in seen + t.ports.Keys
  {
    GrantedIsFirst(t);
  }

  lemma GrantAdvances<Q>(t: Table<Q>, q: Q, base: nat, passed: nat, seen: set<nat>)
    requires FIRST <= base <= LIMIT && Swept(t, base, passed, seen) && Granted(t) != 0
    requires Ephemeral(Granted(t)) && Distance(base, Granted(t)) >= passed
    ensures var r := Granted(t);
            Swept(Apply(t, Grant(q)), base, Distance(base, r) + 1, seen + t.ports.Keys + {r})
  {
    hide Granted;
    GrantPasses(t, base, passed, seen);
  }

  lemma {:induction false} SweepIsComplete<Q>(t: Table<Q>, ops: seq<Op<Q>>, base: nat, passed: nat, seen: set<nat>,
                                              p: nat)
    requires FIRST <= base <= LIMIT && Swept(t, base, passed, seen)
    requires Ephemeral(p) && Distance(base, p) == RANGE - 1 && p in seen
    requires Granted(After(t, ops)) == p
    ensures forall x :: Ephemeral(x) ==> x in seen + Seen(t, ops)
    decreases |ops|
  {
    hide Granted;
    if ops == [] {
      GrantPasses(t, base, passed, seen);
    } else {
      var u := Apply(t, ops[0]);
      var now := seen + t.ports.Keys;
      if ops[0].Grant? && Granted(t) != 0 {
        var r := Granted(t);
        GrantPasses(t, base, passed, seen);
        if Distance(base, r) >= passed {
          GrantAdvances(t, ops[0].q, base, passed, seen);
          SweepIsComplete(u, ops[1..], base, Distance(base, r) + 1, now + {r}, p);
        }
      } else {
        SweepIsComplete(u, ops[1..], base, passed, now, p);
      }
    }
  }

  /** Between two grants of the same port every port of the range was registered
      at some moment. */
  lemma GrantsAreFarApart<Q>(t: Table<Q>, q: Q, ops: seq<Op<Q>>, p: nat)
    requires t.Valid() && p != 0
    requires Granted(t) == p && Granted(After(Apply(t, Grant(q)), ops)) == p
    ensures forall x :: Ephemeral(x) ==> x in Seen(Apply(t, Grant(q)), ops)
  {
    GrantedIsFirst(t);
    var u := Apply(t, Grant(q));
    SweepIsComplete(u, ops, p + 1, 0, {p}, p);
    assert p in u.ports.Keys;
  }
}
