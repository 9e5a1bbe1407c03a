/**
 * Every interleaving of getConn, invalidate, eviction ticks, Download and Close over one pool. Each step
 * is one critical section, or one probe, dial or connection close outside the lock.
 */
module SftpInterleavings {
  import opened SftpPool

  /** A goroutine of the client. */
  type Gid = nat

  /** Where a goroutine is, with the locals it still needs. */
  datatype Pc =
    | Probing(key: Key, e: EntryId)
    | Touching(key: Key, e: EntryId)
    | Dropping(key: Key, e: EntryId)
    | ClosingOld(key: Key, conn: ConnId)
    | Dialing(key: Key)
    | Publishing(key: Key, conn: ConnId)
    | Discarding(key: Key, conn: ConnId, winner: ConnId)
    | Got(key: Key, conn: ConnId)
    | Failed
    | Draining(rest: set<ConnId>)
    | Private(conn: ConnId)

  /** Who is responsible for a connection. */
  datatype Owner = Held(g: Gid) | Pooled(key: Key) | Owed(g: Gid) | Closed

  /** `owner` and `dialledFor` are bookkeeping; `closes` records every Close call on a connection. */
  datatype System = System(
    pool: Pool,
    pcs: map<Gid, Pc>,
    owner: map<ConnId, Owner>,
    dialledFor: map<ConnId, Key>,
    closes: seq<ConnId>,
    stopped: bool)

  datatype Step =
    | GetConn(g: Gid, key: Key)
    | ProbeOk(g: Gid)
    | ProbeBad(g: Gid)
    | Touch(g: Gid, now: int)
    | Drop(g: Gid)
    | CloseOld(g: Gid)
    | DialOk(g: Gid, conn: ConnId)
    | DialBad(g: Gid)
    | Publish(g: Gid, e: EntryId, now: int)
    | Discard(g: Gid)
    | Invalidate(key: Key)
    | Evict(g: Gid, keys: set<Key>)
    | CloseClient(g: Gid)
    | CloseOne(g: Gid, conn: ConnId)
    | PrivateDial(g: Gid, conn: ConnId)
    | PrivateClose(g: Gid)

  const START := System(Pool(map[], map[]), map[], map[], map[], [], false)

  /** Idle goroutines may start any call. */
  predicate Idle(s: System, g: Gid) {
    g !in s.pcs || s.pcs[g].Got? || s.pcs[g].Failed? || s.pcs[g] == Draining({})
  }

  function Goto(s: System, g: Gid, pc: Pc): System {
    s.(pcs := s.pcs[g := pc])
  }

  function CloseConn(s: System, conn: ConnId): System {
    s.(owner := s.owner[conn := Closed], closes := s.closes + [conn])
  }

  /** Removes the entries of `keys`; goroutine `g` must close their connections. */
  function TakeOut(s: System, g: Gid, keys: set<Key>): System
    requires WellFormed(s.pool)
  {
    var conns := ConnsOf(s.pool, keys);
    s.(pool := Without(s.pool, keys), pcs := s.pcs[g := Draining(conns)],
       owner := map c | c in s.owner.Keys + conns :: if c in conns then Owed(g) else s.owner[c])
  }

  predicate CanStep(s: System, step: Step) {
    match step
    case GetConn(g, _) => Idle(s, g)
    case ProbeOk(g) => g in s.pcs && s.pcs[g].Probing?
    case ProbeBad(g) => g in s.pcs && s.pcs[g].Probing?
    case Touch(g, _) => g in s.pcs && s.pcs[g].Touching? && s.pcs[g].e in s.pool.heap
    case Drop(g) => g in s.pcs && s.pcs[g].Dropping? && s.pcs[g].e in s.pool.heap
    case CloseOld(g) => g in s.pcs && s.pcs[g].ClosingOld?
    case DialOk(g, conn) => g in s.pcs && s.pcs[g].Dialing? && conn !in s.owner
    case DialBad(g) => g in s.pcs && s.pcs[g].Dialing?
    case Publish(g, e, _) => g in s.pcs && s.pcs[g].Publishing? && e !in s.pool.heap
    case Discard(g) => g in s.pcs && s.pcs[g].Discarding?
    case Invalidate(key) => true
    case Evict(g, keys) => Idle(s, g)
    case CloseClient(g) => Idle(s, g) && !s.stopped
    case CloseOne(g, conn) => g in s.pcs && s.pcs[g].Draining? && conn in s.pcs[g].rest
    case PrivateDial(g, conn) => Idle(s, g) && conn !in s.owner
    case PrivateClose(g) => g in s.pcs && s.pcs[g].Private?
  }

  /** The effect of a step; a step that cannot be taken leaves the system as it is. */
  function Next(s: System, step: Step): System
    requires WellFormed(s.pool)
  {
    if !CanStep(s, step) then s
    else match step
      case GetConn(g, key) =>
        if key in s.pool.entries then Goto(s, g, Probing(key, s.pool.entries[key])) else Goto(s, g, Dialing(key))
      case ProbeOk(g) => Goto(s, g, Touching(s.pcs[g].key, s.pcs[g].e))
      case ProbeBad(g) => Goto(s, g, Dropping(s.pcs[g].key, s.pcs[g].e))
      case Touch(g, now) =>
        var key, e := s.pcs[g].key, s.pcs[g].e;
        Goto(s, g, Got(key, s.pool.heap[e].conn)).(pool := Touched(s.pool, key, e, now))
      case Drop(g) =>
        var key, e := s.pcs[g].key, s.pcs[g].e;
        if IsPooled(s.pool, key, e) then
          var conn := s.pool.heap[e].conn;
          Goto(s, g, ClosingOld(key, conn)).(pool := Dropped(s.pool, key, e), owner := s.owner[conn := Owed(g)])
        else Goto(s, g, Dialing(key))
      case CloseOld(g) => Goto(CloseConn(s, s.pcs[g].conn), g, Dialing(s.pcs[g].key))
      case DialOk(g, conn) =>
        Goto(s, g, Publishing(s.pcs[g].key, conn)).(
          owner := s.owner[conn := Held(g)], dialledFor := s.dialledFor[conn := s.pcs[g].key])
      case DialBad(g) => Goto(s, g, Failed)
      case Publish(g, e, now) =>
        var key, conn := s.pcs[g].key, s.pcs[g].conn;
        if key in s.pool.entries then Goto(s, g, Discarding(key, conn, s.pool.heap[s.pool.entries[key]].conn))
        else
          Goto(s, g, Got(key, conn)).(
            pool := Published(s.pool, key, e, conn, now), owner := s.owner[conn := Pooled(key)])
      case Discard(g) => Goto(CloseConn(s, s.pcs[g].conn), g, Got(s.pcs[g].key, s.pcs[g].winner))
      case Invalidate(key) =>
        if key in s.pool.entries then
          CloseConn(s, s.pool.heap[s.pool.entries[key]].conn).(pool := Without(s.pool, {key}))
        else s
      case Evict(g, keys) => TakeOut(s, g, keys)
      case CloseClient(g) => TakeOut(s, g, s.pool.entries.Keys).(stopped := true)
      case CloseOne(g, conn) => Goto(CloseConn(s, conn), g, Draining(s.pcs[g].rest - {conn}))
      case PrivateDial(g, conn) => Goto(s, g, Private(conn)).(owner := s.owner[conn := Held(g)])
      case PrivateClose(g) => Goto(CloseConn(s, s.pcs[g].conn), g, Failed)
  }

  // -------------------------------------------------------------- invariant

  /** The goroutine has dialled `c` and neither published nor closed it. */
  predicate Holds(pc: Pc, c: ConnId) {
    (pc.Publishing? || pc.Discarding? || pc.Private?) && pc.conn == c
  }

  /** The goroutine has removed `c` from the pool and must still close it. */
  predicate Owes(pc: Pc, c: ConnId) {
    (pc.ClosingOld? && pc.conn == c) || (pc.Draining? && c in pc.rest)
  }

  predicate PooledUnder(p: Pool, k: Key, c: ConnId) {
    k in p.entries && p.entries[k] in p.heap && p.heap[p.entries[k]].conn == c
  }

  /** What the system itself shows about `c`: the four places a connection can be. */
  predicate Shows(s: System, c: ConnId, o: Owner) {
    match o
    case Held(g) => g in s.pcs && Holds(s.pcs[g], c)
    case Pooled(key) => PooledUnder(s.pool, key, c)
    case Owed(g) => g in s.pcs && Owes(s.pcs[g], c)
    case Closed => c in s.closes
  }

  /**
   * Every connection ever dialled is in exactly one place, the one its owner names, and no connection
   * has been closed twice.
   */
  ghost predicate Inv(s: System) {
    && WellFormed(s.pool)
    && (forall c, o :: Shows(s, c, o) <==> c in s.owner && s.owner[c] == o)
    && (forall i, j | 0 <= i < j < |s.closes| :: s.closes[i] != s.closes[j])
  }

  /** Steps that move a goroutine without changing where any connection is. */
  lemma MoveStep(s: System, g: Gid, pc: Pc, pool: Pool)
    requires Inv(s) && WellFormed(pool)
    requires forall c :: (g in s.pcs && Holds(s.pcs[g], c)) <==> Holds(pc, c)
    requires forall c :: (g in s.pcs && Owes(s.pcs[g], c)) <==> Owes(pc, c)
    requires forall k, c :: PooledUnder(pool, k, c) <==> PooledUnder(s.pool, k, c)
    ensures Inv(Goto(s, g, pc).(pool := pool))
  {
    var t := Goto(s, g, pc).(pool := pool);
    forall c, o ensures Shows(t, c, o) <==> Shows(s, c, o) {
    }
  }

  /** Steps that move one connection from its place to another, or out of nowhere when it is new. */
  lemma TransferStep(s: System, t: System, conn: ConnId, to: Owner)
    requires Inv(s) && WellFormed(t.pool) && to != Closed
    requires t.owner == s.owner[conn := to] && t.closes == s.closes && conn !in s.closes
    requires forall c, o | c != conn :: Shows(t, c, o) <==> Shows(s, c, o)
    requires forall o :: Shows(t, conn, o) <==> o == to
    ensures Inv(t)
  {
  }

  /** Steps that close a connection that is not closed yet. */
  lemma CloseStep(s: System, t: System, conn: ConnId)
    requires Inv(s) && WellFormed(t.pool) && conn in s.owner && s.owner[conn] != Closed
    requires t.owner == s.owner[conn := Closed] && t.closes == s.closes + [conn]
    requires forall c, o | c != conn :: Shows(t, c, o) <==> Shows(s, c, o)
    requires forall o :: Shows(t, conn, o) <==> o == Closed
    ensures Inv(t)
  {
    assert !Shows(s, conn, Closed);
  }

  lemma GoroutineCloses(s: System, g: Gid, conn: ConnId, pc: Pc)
    requires Inv(s) && g in s.pcs && (Holds(s.pcs[g], conn) || Owes(s.pcs[g], conn))
    requires forall c | c != conn :: (Holds(pc, c) <==> Holds(s.pcs[g], c)) && (Owes(pc, c) <==> Owes(s.pcs[g], c))
    requires !Holds(pc, conn) && !Owes(pc, conn)
    ensures Inv(Goto(CloseConn(s, conn), g, pc))
  {
    var t := Goto(CloseConn(s, conn), g, pc);
    assert Shows(s, conn, Held(g)) || Shows(s, conn, Owed(g));
    forall o ensures Shows(t, conn, o) <==> o == Closed {
      assert Shows(s, conn, o) <==> s.owner[conn] == o;
    }
    forall c, o | c != conn ensures Shows(t, c, o) <==> Shows(s, c, o) {
    }
    CloseStep(s, t, conn);
  }

  lemma TakeOutStep(s: System, g: Gid, keys: set<Key>)
    requires Inv(s) && Idle(s, g)
    ensures Inv(TakeOut(s, g, keys))
  {
    var t, conns := TakeOut(s, g, keys), ConnsOf(s.pool, keys);
    forall c | c in conns ensures exists k :: k in keys && Shows(s, c, Pooled(k)) {
      var k :| k in keys && k in s.pool.entries && s.pool.heap[s.pool.entries[k]].conn == c;
      assert Shows(s, c, Pooled(k));
    }
    forall c, o ensures Shows(t, c, o) <==> c in t.owner && t.owner[c] == o {
      assert Shows(s, c, o) <==> c in s.owner && s.owner[c] == o;
      if c in conns {
        var k :| k in keys && Shows(s, c, Pooled(k));
        assert Shows(t, c, Owed(g));
      } else {
        assert Shows(t, c, o) <==> Shows(s, c, o);
      }
    }
  }

  lemma MovesKeepInv(s: System, step: Step, g: Gid)
    requires Inv(s) && CanStep(s, step)
    requires step.GetConn? || step.ProbeOk? || step.ProbeBad? || step.DialBad? || step.Touch?
    requires g == step.g
    ensures Inv(Next(s, step))
  {
    var t := Next(s, step);
    MoveStep(s, g, t.pcs[g], t.pool);
  }

  lemma StepKeepsInv(s: System, step: Step)
    requires Inv(s)
    ensures Inv(Next(s, step))
  {
    if CanStep(s, step) {
      match step
      case GetConn(g, key) => MovesKeepInv(s, step, g);
      case ProbeOk(g) => MovesKeepInv(s, step, g);
      case ProbeBad(g) => MovesKeepInv(s, step, g);
      case DialBad(g) => MovesKeepInv(s, step, g);
      case Touch(g, now) => MovesKeepInv(s, step, g);
      case Drop(g) => DropStep(s, g);
      case Publish(g, e, now) => PublishStep(s, g, e, now);
      case DialOk(g, conn) => DialStep(s, Next(s, step), g, conn);
      case PrivateDial(g, conn) => DialStep(s, Next(s, step), g, conn);
      case CloseOld(g) => GoroutineCloses(s, g, s.pcs[g].conn, Dialing(s.pcs[g].key));
      case Discard(g) => GoroutineCloses(s, g, s.pcs[g].conn, Got(s.pcs[g].key, s.pcs[g].winner));
      case CloseOne(g, conn) => GoroutineCloses(s, g, conn, Draining(s.pcs[g].rest - {conn}));
      case PrivateClose(g) => GoroutineCloses(s, g, s.pcs[g].conn, Failed);
      case Invalidate(key) => InvalidateStep(s, key);
      case Evict(g, keys) => TakeOutStep(s, g, keys);
      case CloseClient(g) =>
        TakeOutStep(s, g, s.pool.entries.Keys);
        Unstopped(TakeOut(s, g, s.pool.entries.Keys));
    }
  }

  lemma Unstopped(s: System)
    requires Inv(s)
    ensures Inv(s.(stopped := true))
  {
    forall c, o ensures Shows(s.(stopped := true), c, o) <==> Shows(s, c, o) {
    }
  }

  lemma DialStep(s: System, t: System, g: Gid, conn: ConnId)
    requires Inv(s) && conn !in s.owner
    requires forall c :: g in s.pcs ==> !Holds(s.pcs[g], c) && !Owes(s.pcs[g], c)
    requires g in t.pcs && t.pcs == s.pcs[g := t.pcs[g]] && t.pool == s.pool && t.closes == s.closes
    requires forall c :: (Holds(t.pcs[g], c) <==> c == conn) && !Owes(t.pcs[g], c)
    requires t.owner == s.owner[conn := Held(g)]
    ensures Inv(t)
  {
    forall o ensures Shows(t, conn, o) <==> o == Held(g) {
      assert !Shows(s, conn, o);
    }
    forall c, o | c != conn ensures Shows(t, c, o) <==> Shows(s, c, o) {
    }
    assert !Shows(s, conn, Closed);
    TransferStep(s, t, conn, Held(g));
  }

  lemma DropStep(s: System, g: Gid)
    requires Inv(s) && CanStep(s, Drop(g))
    ensures Inv(Next(s, Drop(g)))
  {
    var key, e, t := s.pcs[g].key, s.pcs[g].e, Next(s, Drop(g));
    if IsPooled(s.pool, key, e) {
      var conn := s.pool.heap[e].conn;
      assert Shows(s, conn, Pooled(key));
      forall o ensures Shows(t, conn, o) <==> o == Owed(g) {
        assert Shows(s, conn, o) <==> o == Pooled(key);
      }
      forall c, o | c != conn ensures Shows(t, c, o) <==> Shows(s, c, o) {
      }
      assert !Shows(s, conn, Closed);
      TransferStep(s, t, conn, Owed(g));
    } else {
      MoveStep(s, g, Dialing(key), s.pool);
    }
  }

  lemma PublishStep(s: System, g: Gid, e: EntryId, now: int)
    requires Inv(s) && CanStep(s, Publish(g, e, now))
    ensures Inv(Next(s, Publish(g, e, now)))
  {
    var key, conn, t := s.pcs[g].key, s.pcs[g].conn, Next(s, Publish(g, e, now));
    if key in s.pool.entries {
      MoveStep(s, g, t.pcs[g], s.pool);
    } else {
      assert Shows(s, conn, Held(g));
      forall o ensures Shows(t, conn, o) <==> o == Pooled(key) {
        assert Shows(s, conn, o) <==> o == Held(g);
      }
      forall c, o | c != conn ensures Shows(t, c, o) <==> Shows(s, c, o) {
      }
      assert !Shows(s, conn, Closed);
      TransferStep(s, t, conn, Pooled(key));
    }
  }

  lemma InvalidateStep(s: System, key: Key)
    requires Inv(s)
    ensures Inv(Next(s, Invalidate(key)))
  {
    if key in s.pool.entries {
      var conn, t := s.pool.heap[s.pool.entries[key]].conn, Next(s, Invalidate(key));
      assert Shows(s, conn, Pooled(key));
      forall o ensures Shows(t, conn, o) <==> o == Closed {
        assert Shows(s, conn, o) <==> o == Pooled(key);
      }
      forall c, o | c != conn ensures Shows(t, c, o) <==> Shows(s, c, o) {
      }
      CloseStep(s, t, conn);
    }
  }

  // -------------------------------------------------------------- every run

  /** Any number of steps of any goroutines, in any order. */
  ghost function Run(s: System, steps: seq<Step>): (t: System)
    requires Inv(s)
    ensures Inv(t)
    decreases |steps|
  {
    if steps == [] then s
    else
      StepKeepsInv(s, steps[0]);
      Run(Next(s, steps[0]), steps[1..])
  }

  /**
   * At every point of every run a dialled connection is in exactly one place: held by its dialler, pooled
   * under one key, owed a close by one goroutine, or closed. None is closed twice.
   */
  lemma OnePlaceEach(steps: seq<Step>, c: ConnId)
    ensures var s := Run(START, steps);
            && (c in s.owner ==> forall o :: Shows(s, c, o) <==> o == s.owner[c])
            && (c !in s.owner ==> forall o :: !Shows(s, c, o))
            && forall i, j | 0 <= i < j < |s.closes| :: s.closes[i] != s.closes[j]
  {
    assert Inv(START);
    var s := Run(START, steps);
    if c in s.owner {
      forall o ensures Shows(s, c, o) <==> o == s.owner[c] {
      }
    }
  }

  function PooledConns(s: System): set<ConnId>
    requires WellFormed(s.pool)
  {
    ConnsOf(s.pool, s.pool.entries.Keys)
  }

  /** When all goroutines are idle, every connection ever dialled is either pooled or closed, and not both. */
  lemma IdleAccounting(steps: seq<Step>)
    requires forall g <- Run(START, steps).pcs :: Idle(Run(START, steps), g)
    ensures var s := Run(START, steps);
            && s.owner.Keys == PooledConns(s) + (set c | c in s.closes)
            && PooledConns(s) !! (set c | c in s.closes)
  {
    assert Inv(START);
    var s := Run(START, steps);
    forall c ensures c in s.owner <==> c in PooledConns(s) || c in s.closes {
      if c in s.owner {
        assert Shows(s, c, s.owner[c]);
      }
      if c in s.closes {
        assert Shows(s, c, Closed);
      }
      if c in PooledConns(s) {
        var k :| k in s.pool.entries && s.pool.heap[s.pool.entries[k]].conn == c;
        assert Shows(s, c, Pooled(k));
      }
    }
    forall c | c in PooledConns(s) ensures c !in s.closes {
      var k :| k in s.pool.entries && s.pool.heap[s.pool.entries[k]].conn == c;
      assert Shows(s, c, Pooled(k)) && (Shows(s, c, Closed) <==> c in s.closes);
    }
  }

  // ----------------------------------------------------- the right connection

  predicate ForKey(s: System, key: Key, c: ConnId) {
    c in s.dialledFor && s.dialledFor[c] == key
  }

  predicate EntryFor(s: System, key: Key, e: EntryId) {
    e in s.pool.heap && ForKey(s, key, s.pool.heap[e].conn)
  }

  /** What a goroutine works with was dialled for the key it was asked for. */
  predicate PcFor(s: System, pc: Pc) {
    match pc
    case Probing(key, e) => EntryFor(s, key, e)
    case Touching(key, e) => EntryFor(s, key, e)
    case Dropping(key, e) => EntryFor(s, key, e)
    case Publishing(key, conn) => ForKey(s, key, conn)
    case Discarding(key, _, winner) => ForKey(s, key, winner)
    case Got(key, conn) => ForKey(s, key, conn)
    case _ => true
  }

  ghost predicate KeyInv(s: System) {
    && WellFormed(s.pool)
    && s.dialledFor.Keys <= s.owner.Keys
    && (forall k <- s.pool.entries :: EntryFor(s, k, s.pool.entries[k]))
    && (forall g <- s.pcs :: PcFor(s, s.pcs[g]))
  }

  /** Nothing known about keys is lost from `s` to `t`. */
  ghost predicate Extends(s: System, t: System) {
    && (forall k, c :: ForKey(s, k, c) ==> ForKey(t, k, c))
    && (forall k, e :: EntryFor(s, k, e) ==> EntryFor(t, k, e))
  }

  lemma PcKept(s: System, t: System, pc: Pc)
    requires Extends(s, t) && PcFor(s, pc)
    ensures PcFor(t, pc)
  {
  }

  lemma NextExtends(s: System, step: Step)
    requires KeyInv(s)
    ensures Extends(s, Next(s, step))
    ensures Next(s, step).dialledFor.Keys <= Next(s, step).owner.Keys
  {
  }

  /** The goroutine that steps works with its key's connections again. */
  lemma MoverFor(s: System, step: Step, g: Gid)
    requires KeyInv(s) && CanStep(s, step) && !step.Invalidate? && step.g == g
    ensures g in Next(s, step).pcs && PcFor(Next(s, step), Next(s, step).pcs[g])
  {
    assert g in s.pcs ==> PcFor(s, s.pcs[g]);
  }

  lemma OthersStay(s: System, step: Step, g: Gid)
    requires WellFormed(s.pool) && g in Next(s, step).pcs
    requires !CanStep(s, step) || step.Invalidate? || step.g != g
    ensures g in s.pcs && Next(s, step).pcs[g] == s.pcs[g]
  {
  }

  /** The other goroutines are untouched. */
  lemma PcsFor(s: System, step: Step)
    requires KeyInv(s)
    ensures forall g <- Next(s, step).pcs :: PcFor(Next(s, step), Next(s, step).pcs[g])
  {
    var t := Next(s, step);
    NextExtends(s, step);
    forall g | g in t.pcs ensures PcFor(t, t.pcs[g]) {
      if CanStep(s, step) && !step.Invalidate? && step.g == g {
        MoverFor(s, step, g);
      } else {
        OthersStay(s, step, g);
        PcKept(s, t, s.pcs[g]);
      }
    }
  }

  lemma NewEntry(s: System, step: Step, k: Key)
    requires WellFormed(s.pool) && k in Next(s, step).pool.entries
    requires k !in s.pool.entries || Next(s, step).pool.entries[k] != s.pool.entries[k]
    ensures CanStep(s, step) && step.Publish? && k == s.pcs[step.g].key && Next(s, step).pool.entries[k] == step.e
    ensures step.e in Next(s, step).pool.heap && Next(s, step).pool.heap[step.e].conn == s.pcs[step.g].conn
    ensures Next(s, step).dialledFor == s.dialledFor
  {
  }

  lemma EntriesFor(s: System, step: Step)
    requires KeyInv(s)
    ensures forall k <- Next(s, step).pool.entries :: EntryFor(Next(s, step), k, Next(s, step).pool.entries[k])
  {
    var t := Next(s, step);
    NextExtends(s, step);
    forall k | k in t.pool.entries ensures EntryFor(t, k, t.pool.entries[k]) {
      if k in s.pool.entries && t.pool.entries[k] == s.pool.entries[k] {
        assert EntryFor(s, k, s.pool.entries[k]);
      } else {
        NewEntry(s, step, k);
        assert PcFor(s, s.pcs[step.g]);
      }
    }
  }

  lemma KeyStep(s: System, step: Step)
    requires Inv(s) && KeyInv(s)
    ensures KeyInv(Next(s, step))
  {
    StepKeepsInv(s, step);
    NextExtends(s, step);
    PcsFor(s, step);
    EntriesFor(s, step);
  }

  lemma {:induction false} RunKeepsKeys(s: System, steps: seq<Step>)
    requires Inv(s) && KeyInv(s)
    ensures KeyInv(Run(s, steps))
    decreases |steps|
  {
    if steps != [] {
      StepKeepsInv(s, steps[0]);
      KeyStep(s, steps[0]);
      RunKeepsKeys(Next(s, steps[0]), steps[1..]);
    }
  }

  /** getConn only ever returns a connection that was dialled for the login it was asked for. */
  lemma GotTheRightConn(steps: seq<Step>, g: Gid)
    requires var s := Run(START, steps); g in s.pcs && s.pcs[g].Got?
    ensures var s := Run(START, steps); ForKey(s, s.pcs[g].key, s.pcs[g].conn)
  {
    assert Inv(START) && KeyInv(START);
    RunKeepsKeys(START, steps);
    var s := Run(START, steps);
    assert PcFor(s, s.pcs[g]);
  }

  // ------------------------------------------------------------- particular runs

  /** `at` gives the states between the steps. */
  ghost predicate IsPath(at: nat -> System, steps: seq<Step>) {
    forall j: nat | j < |steps| :: Inv(at(j)) && at(j + 1) == Next(at(j), steps[j])
  }

  lemma {:induction false} PathIsRun(at: nat -> System, steps: seq<Step>, n: nat)
    requires IsPath(at, steps) && n <= |steps| && Inv(at(n))
    ensures Run(at(n), steps[n..]) == at(|steps|)
    decreases |steps| - n
  {
    if n < |steps| {
      assert Inv(at(n)) && at(n + 1) == Next(at(n), steps[n]);
      StepKeepsInv(at(n), steps[n]);
      PathIsRun(at, steps, n + 1);
      assert steps[n..][0] == steps[n] && steps[n..][1..] == steps[n + 1..];
    }
  }

  /** A pool with one entry, for connection 0, under the key "k". */
  const ONE := Pool(map["k" := 0], map[0 := Cell(0, 0)])
}
