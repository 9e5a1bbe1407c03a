/** What getConn's result is worth: where the returned connection can be. */
module SftpResults {
  import opened SftpPool
  import opened SftpInterleavings

  predicate Released(s: System, c: ConnId) {
    c in s.owner && !s.owner[c].Held?
  }

  /** The connection a goroutine has been given or will be, if that is settled. */
  function Given(pc: Pc): set<ConnId> {
    match pc
    case Got(_, conn) => {conn}
    case Discarding(_, _, winner) => {winner}
    case _ => {}
  }

  /** No entry and no result is a connection its dialler still has to itself, and no two entries share one. */
  ghost predicate WorthInv(s: System) {
    && (forall e <- s.pool.heap :: Released(s, s.pool.heap[e].conn))
    && (forall e, d | e in s.pool.heap && d in s.pool.heap && e != d :: s.pool.heap[e].conn != s.pool.heap[d].conn)
    && (forall g <- s.pcs :: forall c <- Given(s.pcs[g]) :: Released(s, c))
  }

  lemma ReleasedStays(s: System, step: Step, c: ConnId)
    requires Inv(s) && Released(s, c)
    ensures Released(Next(s, step), c)
  {
  }

  lemma HeapStep(s: System, step: Step, e: EntryId)
    requires Inv(s) && WorthInv(s) && e in Next(s, step).pool.heap
    ensures var t := Next(s, step);
            && Released(t, t.pool.heap[e].conn)
            && (e in s.pool.heap ==> t.pool.heap[e].conn == s.pool.heap[e].conn)
            && (e !in s.pool.heap ==> forall d <- s.pool.heap :: s.pool.heap[d].conn != t.pool.heap[e].conn)
            && (e !in s.pool.heap ==> step.Publish? && step.e == e)
  {
    if e in s.pool.heap {
      ReleasedStays(s, step, s.pool.heap[e].conn);
    } else {
      assert step.Publish? && Shows(s, s.pcs[step.g].conn, Held(step.g));
    }
  }

  lemma GivenStep(s: System, step: Step, g: Gid, c: ConnId)
    requires Inv(s) && KeyInv(s) && WorthInv(s) && g in Next(s, step).pcs && c in Given(Next(s, step).pcs[g])
    ensures Released(Next(s, step), c)
  {
    if g in s.pcs && c in Given(s.pcs[g]) {
      ReleasedStays(s, step, c);
    } else {
      assert CanStep(s, step) && PcFor(s, s.pcs[g]);
      match step
      case Touch(_, _) => ReleasedStays(s, step, c);
      case Publish(_, _, _) =>
        if s.pcs[g].key in s.pool.entries {
          ReleasedStays(s, step, c);
        }
      case _ => assert false;
    }
  }

  lemma WorthStep(s: System, step: Step)
    requires Inv(s) && KeyInv(s) && WorthInv(s)
    ensures WorthInv(Next(s, step))
  {
    var t := Next(s, step);
    forall e | e in t.pool.heap ensures Released(t, t.pool.heap[e].conn) {
      HeapStep(s, step, e);
    }
    forall e, d | e in t.pool.heap && d in t.pool.heap && e != d ensures t.pool.heap[e].conn != t.pool.heap[d].conn {
      HeapStep(s, step, e);
      HeapStep(s, step, d);
    }
    forall g, c | g in t.pcs && c in Given(t.pcs[g]) ensures Released(t, c) {
      GivenStep(s, step, g, c);
    }
  }

  lemma {:induction false} RunKeepsWorth(s: System, steps: seq<Step>)
    requires Inv(s) && KeyInv(s) && WorthInv(s)
    ensures WorthInv(Run(s, steps))
    decreases |steps|
  {
    if steps != [] {
      StepKeepsInv(s, steps[0]);
      KeyStep(s, steps[0]);
      WorthStep(s, steps[0]);
      RunKeepsWorth(Next(s, steps[0]), steps[1..]);
    }
  }

  /**
   * A connection getConn has returned is pooled under the key it was asked for, or another goroutine owes
   * its close, or it is closed already; it is never another key's.
   */
  lemma GotConnState(steps: seq<Step>, g: Gid)
    requires var s := Run(START, steps); g in s.pcs && s.pcs[g].Got?
    ensures var s := Run(START, steps); var conn := s.pcs[g].conn;
            && conn in s.owner
            && (s.owner[conn] == Pooled(s.pcs[g].key) || s.owner[conn].Owed? || s.owner[conn].Closed?)
            && (PooledUnder(s.pool, s.pcs[g].key, conn) <==> s.owner[conn] == Pooled(s.pcs[g].key))
  {
    assert Inv(START) && KeyInv(START) && WorthInv(START);
    RunKeepsKeys(START, steps);
    RunKeepsWorth(START, steps);
    var s := Run(START, steps);
    var key, conn := s.pcs[g].key, s.pcs[g].conn;
    assert conn in Given(s.pcs[g]) && PcFor(s, s.pcs[g]);
    assert Shows(s, conn, s.owner[conn]);
    if s.owner[conn].Pooled? {
      var k := s.owner[conn].key;
      assert EntryFor(s, k, s.pool.entries[k]);
    }
    assert Shows(s, conn, Pooled(key)) <==> s.owner[conn] == Pooled(key);
  }

  // -------------------------------------------------- when it is still pooled

  /** The step takes the entry of `key` out of the pool. */
  predicate TakesOut(s: System, step: Step, key: Key) {
    && key in s.pool.entries && CanStep(s, step)
    && match step
       case Invalidate(k) => k == key
       case Evict(_, keys) => key in keys
       case CloseClient(_) => true
       case Drop(g) => s.pcs[g].key == key && s.pcs[g].e == s.pool.entries[key]
       case _ => false
  }

  /** Some step of the run does. */
  ghost predicate TakenOut(s: System, steps: seq<Step>, key: Key)
    requires Inv(s)
    decreases |steps|
  {
    if steps == [] then false
    else
      StepKeepsInv(s, steps[0]);
      TakesOut(s, steps[0], key) || TakenOut(Next(s, steps[0]), steps[1..], key)
  }

  /** On its way out of the pool, or closed. */
  predicate Gone(s: System, c: ConnId) {
    c in s.owner && (s.owner[c].Owed? || s.owner[c].Closed?)
  }

  /** What is gone never comes back into the pool. */
  lemma GoneStays(s: System, step: Step, c: ConnId)
    requires Inv(s) && Gone(s, c)
    ensures Gone(Next(s, step), c)
  {
    if CanStep(s, step) && step.Publish? {
      assert Shows(s, s.pcs[step.g].conn, Held(step.g));
    }
  }

  lemma GoneNotPooled(s: System, key: Key, c: ConnId)
    requires Inv(s) && Gone(s, c)
    ensures !PooledUnder(s.pool, key, c)
  {
    assert Shows(s, c, Pooled(key)) <==> s.owner[c] == Pooled(key);
  }

  lemma {:induction false} GoneForGood(s: System, steps: seq<Step>, key: Key, c: ConnId)
    requires Inv(s) && Gone(s, c)
    ensures !PooledUnder(Run(s, steps).pool, key, c)
    decreases |steps|
  {
    if steps == [] {
      GoneNotPooled(s, key, c);
    } else {
      StepKeepsInv(s, steps[0]);
      GoneStays(s, steps[0], c);
      GoneForGood(Next(s, steps[0]), steps[1..], key, c);
    }
  }

  /** A step leaves a pooled connection pooled unless it takes its entry out, and then it is gone. */
  lemma PooledStep(s: System, step: Step, key: Key, c: ConnId)
    requires Inv(s) && PooledUnder(s.pool, key, c)
    ensures if TakesOut(s, step, key) then Gone(Next(s, step), c) else PooledUnder(Next(s, step).pool, key, c)
  {
  }

  /**
   * Over any run: a pooled connection is still pooled under its key if and only if no step has taken the
   * key's entry out. It does not come back, whoever publishes under the key.
   */
  lemma {:induction false} StillPooled(s: System, steps: seq<Step>, key: Key, c: ConnId)
    requires Inv(s) && PooledUnder(s.pool, key, c)
    ensures PooledUnder(Run(s, steps).pool, key, c) <==> !TakenOut(s, steps, key)
    decreases |steps|
  {
    if steps != [] {
      StepKeepsInv(s, steps[0]);
      PooledStep(s, steps[0], key, c);
      if TakesOut(s, steps[0], key) {
        GoneForGood(Next(s, steps[0]), steps[1..], key, c);
      } else {
        StillPooled(Next(s, steps[0]), steps[1..], key, c);
      }
    }
  }

  lemma {:induction false} EntryConnStays(s: System, steps: seq<Step>, e: EntryId)
    requires Inv(s) && KeyInv(s) && WorthInv(s) && e in s.pool.heap
    ensures e in Run(s, steps).pool.heap && Run(s, steps).pool.heap[e].conn == s.pool.heap[e].conn
    decreases |steps|
  {
    if steps != [] {
      StepKeepsInv(s, steps[0]);
      KeyStep(s, steps[0]);
      WorthStep(s, steps[0]);
      HeapKept(s, steps[0], e);
      EntryConnStays(Next(s, steps[0]), steps[1..], e);
    }
  }

  lemma HeapKept(s: System, step: Step, e: EntryId)
    requires Inv(s) && e in s.pool.heap
    ensures e in Next(s, step).pool.heap && Next(s, step).pool.heap[e].conn == s.pool.heap[e].conn
  {
  }

  /** The steps that return do not take entries out. */
  lemma LastLook(u: System, step: Step, key: Key, c: ConnId)
    requires Inv(u) && (step.Touch? || step.Discard?)
    ensures PooledUnder(Next(u, step).pool, key, c) <==> PooledUnder(u.pool, key, c)
  {
  }

  /**
   * The return after a good probe. From the moment getConn has looked the entry up, through its probe and
   * whatever others do, to its second look: the connection it returns is still pooled if and only if no
   * step in between has taken the key's entry out.
   */
  lemma ProbedConnStillPooled(before: seq<Step>, g: Gid, key: Key, between: seq<Step>, now: int)
    requires var s := Run(START, before); CanStep(s, GetConn(g, key)) && key in s.pool.entries
    requires var s := Run(START, before); var u := Run(s, [GetConn(g, key)] + between);
             g in u.pcs && u.pcs[g] == Touching(key, s.pool.entries[key])
    ensures var s := Run(START, before); var looked := [GetConn(g, key)] + between;
            var t := Next(Run(s, looked), Touch(g, now));
            && g in t.pcs && t.pcs[g] == Got(key, s.pool.heap[s.pool.entries[key]].conn)
            && (PooledUnder(t.pool, key, t.pcs[g].conn) <==> !TakenOut(s, looked, key))
  {
    assert Inv(START) && KeyInv(START) && WorthInv(START);
    RunKeepsKeys(START, before);
    RunKeepsWorth(START, before);
    var s, looked := Run(START, before), [GetConn(g, key)] + between;
    var e := s.pool.entries[key];
    EntryConnStays(s, looked, e);
    StillPooled(s, looked, key, s.pool.heap[e].conn);
    LastLook(Run(s, looked), Touch(g, now), key, s.pool.heap[e].conn);
  }

  /**
   * The return after a lost publish. From the moment getConn finds another's connection under its key, to
   * the close of its own: the connection it returns is still pooled if and only if no step in between has
   * taken the key's entry out.
   */
  lemma WinnerStillPooled(before: seq<Step>, g: Gid, e: EntryId, now: int, between: seq<Step>)
    requires var s := Run(START, before); CanStep(s, Publish(g, e, now)) && s.pcs[g].key in s.pool.entries
    requires var s := Run(START, before); var u := Run(s, [Publish(g, e, now)] + between);
             g in u.pcs && u.pcs[g] == Next(s, Publish(g, e, now)).pcs[g]
    ensures var s := Run(START, before); var key, lost := s.pcs[g].key, [Publish(g, e, now)] + between;
            var t := Next(Run(s, lost), Discard(g));
            && g in t.pcs && t.pcs[g] == Got(key, s.pool.heap[s.pool.entries[key]].conn)
            && (PooledUnder(t.pool, key, t.pcs[g].conn) <==> !TakenOut(s, lost, key))
  {
    var s, lost := Run(START, before), [Publish(g, e, now)] + between;
    var key := s.pcs[g].key;
    var winner := s.pool.heap[s.pool.entries[key]].conn;
    StillPooled(s, lost, key, winner);
    LastLook(Run(s, lost), Discard(g), key, winner);
  }

  /** The return after a publish of its own: the connection it returns is pooled. */
  lemma OwnConnPooled(before: seq<Step>, g: Gid, e: EntryId, now: int)
    requires var s := Run(START, before); CanStep(s, Publish(g, e, now)) && s.pcs[g].key !in s.pool.entries
    ensures var s := Run(START, before); var t := Next(s, Publish(g, e, now));
            t.pcs[g] == Got(s.pcs[g].key, s.pcs[g].conn) && PooledUnder(t.pool, s.pcs[g].key, s.pcs[g].conn)
  {
  }

  /** The steps of a getConn whose connection is invalidated between its probe and its second look. */
  const STALE: seq<Step> :=
    [GetConn(0, "k"), DialOk(0, 0), Publish(0, 0, 0), GetConn(1, "k"), ProbeOk(1), Invalidate("k"), Touch(1, 0)]

  function StaleAt(k: nat): System {
    var owner, fors := map[0 := Pooled("k")], map[0 := "k"];
    if k == 0 then START
    else if k == 1 then START.(pcs := map[0 := Dialing("k")])
    else if k == 2 then System(START.pool, map[0 := Publishing("k", 0)], map[0 := Held(0)], fors, [], false)
    else if k == 3 then System(ONE, map[0 := Got("k", 0)], owner, fors, [], false)
    else if k == 4 then System(ONE, map[0 := Got("k", 0), 1 := Probing("k", 0)], owner, fors, [], false)
    else if k == 5 then System(ONE, map[0 := Got("k", 0), 1 := Touching("k", 0)], owner, fors, [], false)
    else
      System(ONE.(entries := map[]), map[0 := Got("k", 0), 1 := if k == 6 then Touching("k", 0) else Got("k", 0)],
             map[0 := Closed], fors, [0], false)
  }

  lemma StalePools(k: nat)
    requires 0 <= k < 3
    ensures WellFormed(StaleAt(k).pool) && StaleAt(k + 1) == Next(StaleAt(k), STALE[k])
  {
  }

  lemma StaleReturns(k: nat)
    requires 3 <= k < 7
    ensures WellFormed(StaleAt(k).pool) && StaleAt(k + 1) == Next(StaleAt(k), STALE[k])
  {
    if k == 5 {
      assert ONE.entries - {"k"} == map[];
    }
  }

  lemma StaleNext(k: nat)
    requires k < 7
    ensures WellFormed(StaleAt(k).pool) && StaleAt(k + 1) == Next(StaleAt(k), STALE[k])
  {
    if k < 3 {
      StalePools(k);
    } else {
      StaleReturns(k);
    }
  }

  lemma {:induction false} StaleInv(k: nat)
    requires k <= 7
    ensures Inv(StaleAt(k))
  {
    if k > 0 {
      StaleInv(k - 1);
      StaleNext(k - 1);
      StepKeepsInv(StaleAt(k - 1), STALE[k - 1]);
    }
  }

  /** It returns a closed connection. */
  lemma GotClosedConn()
    ensures var s := Run(START, STALE); 1 in s.pcs && s.pcs[1] == Got("k", 0) && 0 in s.closes
  {
    var at := (k: nat) => StaleAt(k);
    forall j: nat | j < |STALE| ensures Inv(at(j)) && at(j + 1) == Next(at(j), STALE[j]) {
      StaleInv(j);
      StaleNext(j);
    }
    PathIsRun(at, STALE, 0);
    assert STALE[0..] == STALE;
  }

  /** The steps of a getConn that loses its publish to a connection which is invalidated before it returns. */
  const LOSING: seq<Step> :=
    [GetConn(0, "k"), GetConn(1, "k"), DialOk(0, 0), DialOk(1, 1), Publish(0, 0, 0), Publish(1, 1, 0), Invalidate("k"),
     Discard(1)]

  function LosingAt(k: nat): System {
    var fors := map[0 := "k", 1 := "k"];
    if k == 0 then START
    else if k == 1 then START.(pcs := map[0 := Dialing("k")])
    else if k == 2 then START.(pcs := map[0 := Dialing("k"), 1 := Dialing("k")])
    else if k == 3 then
      System(START.pool, map[0 := Publishing("k", 0), 1 := Dialing("k")], map[0 := Held(0)], map[0 := "k"], [], false)
    else if k == 4 then
      System(START.pool, map[0 := Publishing("k", 0), 1 := Publishing("k", 1)], map[0 := Held(0), 1 := Held(1)], fors,
             [], false)
    else if k == 5 then
      System(ONE, map[0 := Got("k", 0), 1 := Publishing("k", 1)], map[0 := Pooled("k"), 1 := Held(1)], fors, [], false)
    else if k == 6 then
      System(ONE, map[0 := Got("k", 0), 1 := Discarding("k", 1, 0)], map[0 := Pooled("k"), 1 := Held(1)], fors, [],
          false)
    else if k == 7 then
      System(ONE.(entries := map[]), map[0 := Got("k", 0), 1 := Discarding("k", 1, 0)], map[0 := Closed, 1 := Held(1)],
             fors, [0], false)
    else
      System(ONE.(entries := map[]), map[0 := Got("k", 0), 1 := Got("k", 0)], map[0 := Closed, 1 := Closed], fors,
             [0, 1], false)
  }

  lemma LosingDials(k: nat)
    requires 0 <= k < 4
    ensures WellFormed(LosingAt(k).pool) && LosingAt(k + 1) == Next(LosingAt(k), LOSING[k])
  {
  }

  lemma LosingPublishes(k: nat)
    requires 4 <= k < 6
    ensures WellFormed(LosingAt(k).pool) && LosingAt(k + 1) == Next(LosingAt(k), LOSING[k])
  {
  }

  lemma LosingReturns(k: nat)
    requires 6 <= k < 8
    ensures WellFormed(LosingAt(k).pool) && LosingAt(k + 1) == Next(LosingAt(k), LOSING[k])
  {
    if k == 6 {
      assert ONE.entries - {"k"} == map[];
    }
  }

  lemma LosingNext(k: nat)
    requires k < 8
    ensures WellFormed(LosingAt(k).pool) && LosingAt(k + 1) == Next(LosingAt(k), LOSING[k])
  {
    if k < 4 {
      LosingDials(k);
    } else if k < 6 {
      LosingPublishes(k);
    } else {
      LosingReturns(k);
    }
  }

  lemma {:induction false} LosingInv(k: nat)
    requires k <= 8
    ensures Inv(LosingAt(k))
  {
    if k > 0 {
      LosingInv(k - 1);
      LosingNext(k - 1);
      StepKeepsInv(LosingAt(k - 1), LOSING[k - 1]);
    }
  }

  /** It returns a closed connection, too. */
  lemma LoserGotClosedConn()
    ensures var s := Run(START, LOSING); 1 in s.pcs && s.pcs[1] == Got("k", 0) && 0 in s.closes
  {
    var at := (k: nat) => LosingAt(k);
    forall j: nat | j < |LOSING| ensures Inv(at(j)) && at(j + 1) == Next(at(j), LOSING[j]) {
      LosingInv(j);
      LosingNext(j);
    }
    PathIsRun(at, LOSING, 0);
    assert LOSING[0..] == LOSING;
  }
}
