/** What Close leaves behind: whether a getConn in flight can fill the emptied pool again. */
module SftpClose {
  import opened SftpPool
  import opened SftpInterleavings

  /** A getConn in a place from which it may still dial and publish. */
  predicate MayPublish(pc: Pc) {
    pc.Probing? || pc.Dropping? || pc.ClosingOld? || pc.Dialing? || pc.Publishing?
  }

  predicate Quiet(s: System) {
    s.pool.entries == map[] && forall g <- s.pcs :: !MayPublish(s.pcs[g])
  }

  predicate NoNewCalls(steps: seq<Step>) {
    forall step <- steps :: !step.GetConn?
  }

  lemma QuietNext(s: System, step: Step)
    requires WellFormed(s.pool) && Quiet(s) && !step.GetConn?
    ensures Quiet(Next(s, step))
  {
  }

  lemma {:induction false} QuietStays(s: System, steps: seq<Step>)
    requires Inv(s) && Quiet(s) && NoNewCalls(steps)
    ensures Quiet(Run(s, steps))
    decreases |steps|
  {
    if steps != [] {
      StepKeepsInv(s, steps[0]);
      assert steps[0] in steps;
      QuietNext(s, steps[0]);
      QuietStays(Next(s, steps[0]), steps[1..]);
    }
  }

  lemma FreshId(ids: set<nat>) returns (n: nat)
    ensures n !in ids
  {
    n := 0;
    var left := ids;
    while left != {}
      invariant forall i | i in ids && i !in left :: i < n
    {
      var i :| i in left;
      left := left - {i};
      n := if i < n then n else i + 1;
    }
  }

  /** One step towards publishing, from any place that may. */
  lemma RepopulateStep(s: System, g: Gid) returns (step: Step)
    requires Inv(s) && s.pool.entries == map[] && KeyInv(s)
    requires g in s.pcs && MayPublish(s.pcs[g])
    ensures !step.GetConn?
    ensures var t := Next(s, step);
            t.pool.entries == map[] ==> g in t.pcs && MayPublish(t.pcs[g]) && Rank(t.pcs[g]) < Rank(s.pcs[g])
  {
    assert PcFor(s, s.pcs[g]);
    match s.pcs[g]
    case Probing(_, _) => step := ProbeBad(g);
    case Dropping(_, _) => step := Drop(g);
    case ClosingOld(_, _) => step := CloseOld(g);
    case Dialing(_) => var c := FreshId(s.owner.Keys); step := DialOk(g, c);
    case Publishing(key, conn) =>
      var e := FreshId(s.pool.heap.Keys);
      step := Publish(g, e, 0);
      assert key in Next(s, step).pool.entries;
  }

  function Rank(pc: Pc): nat {
    match pc
    case Probing(_, _) => 4
    case Dropping(_, _) => 3
    case ClosingOld(_, _) => 2
    case Dialing(_) => 1
    case _ => 0
  }

  lemma Repopulate(s: System, g: Gid) returns (steps: seq<Step>)
    requires Inv(s) && KeyInv(s) && s.pool.entries == map[]
    requires g in s.pcs && MayPublish(s.pcs[g])
    ensures NoNewCalls(steps) && Run(s, steps).pool.entries != map[]
    decreases Rank(s.pcs[g])
  {
    var step := RepopulateStep(s, g);
    StepKeepsInv(s, step);
    KeyStep(s, step);
    var t := Next(s, step);
    if t.pool.entries != map[] {
      steps := [step];
      assert Run(t, []) == t;
    } else {
      var rest := Repopulate(t, g);
      steps := [step] + rest;
      assert steps[1..] == rest;
    }
  }

  /**
   * Close empties the pool for good exactly when no getConn that could still dial is in flight: from an
   * emptied pool, and with no further getConn calls, some run fills it again if and only if some
   * goroutine is at such a place.
   */
  lemma EmptiedForGood(s: System)
    requires Inv(s) && KeyInv(s) && s.pool.entries == map[]
    ensures (exists steps | NoNewCalls(steps) :: Run(s, steps).pool.entries != map[])
       <==> exists g <- s.pcs :: MayPublish(s.pcs[g])
  {
    if g :| g in s.pcs && MayPublish(s.pcs[g]) {
      var steps := Repopulate(s, g);
    } else {
      forall steps | NoNewCalls(steps) ensures Run(s, steps).pool.entries == map[] {
        QuietStays(s, steps);
      }
    }
  }

  /**
   * For a Close at any point of any run: it empties the pool for good if and only if no getConn that may
   * still dial is in flight when it takes the lock.
   */
  lemma CloseEmptiesForGood(steps: seq<Step>, g: Gid)
    requires CanStep(Run(START, steps), CloseClient(g))
    ensures var s := Run(START, steps);
            Inv(Next(s, CloseClient(g)))
            && ((exists more | NoNewCalls(more) :: Run(Next(s, CloseClient(g)), more).pool.entries != map[])
                <==> exists h <- s.pcs :: MayPublish(s.pcs[h]))
  {
    assert Inv(START) && KeyInv(START);
    RunKeepsKeys(START, steps);
    var s := Run(START, steps);
    StepKeepsInv(s, CloseClient(g));
    KeyStep(s, CloseClient(g));
    EmptiedForGood(Next(s, CloseClient(g)));
    IdleMoves(s.pcs, g, Next(s, CloseClient(g)).pcs);
  }

  /** A goroutine that may not dial and still may not has no part in whether any may. */
  lemma IdleMoves(before: map<Gid, Pc>, g: Gid, after: map<Gid, Pc>)
    requires (g in before ==> !MayPublish(before[g])) && g in after && !MayPublish(after[g])
    requires after == before[g := after[g]]
    ensures (exists h <- after :: MayPublish(after[h])) <==> exists h <- before :: MayPublish(before[h])
  {
    if h :| h in before && MayPublish(before[h]) {
      assert h in after && MayPublish(after[h]);
    }
  }

  /** The steps of a getConn that is dialling while Close empties the pool. */
  const REFILL: seq<Step> := [GetConn(0, "k"), CloseClient(1), DialOk(0, 0), Publish(0, 0, 0)]

  function RefillAt(k: nat): System {
    if k == 0 then START
    else if k == 1 then START.(pcs := map[0 := Dialing("k")])
    else if k == 2 then START.(pcs := map[0 := Dialing("k"), 1 := Draining({})], stopped := true)
    else if k == 3 then
      System(START.pool, map[0 := Publishing("k", 0), 1 := Draining({})], map[0 := Held(0)], map[0 := "k"], [], true)
    else System(ONE, map[0 := Got("k", 0), 1 := Draining({})], map[0 := Pooled("k")], map[0 := "k"], [], true)
  }

  lemma RefillNext(k: nat)
    requires k < 4
    ensures WellFormed(RefillAt(k).pool) && RefillAt(k + 1) == Next(RefillAt(k), REFILL[k])
  {
    if k == 1 {
      assert ConnsOf(START.pool, START.pool.entries.Keys) == {};
    }
  }

  lemma {:induction false} RefillInv(k: nat)
    requires k <= 4
    ensures Inv(RefillAt(k))
  {
    if k > 0 {
      RefillInv(k - 1);
      RefillNext(k - 1);
      StepKeepsInv(RefillAt(k - 1), REFILL[k - 1]);
    }
  }

  /** It pools its connection in the closed client. */
  lemma RefilledAfterClose()
    ensures var s := Run(START, REFILL); s.stopped && "k" in s.pool.entries
  {
    var at := (k: nat) => RefillAt(k);
    forall j: nat | j < |REFILL| ensures Inv(at(j)) && at(j + 1) == Next(at(j), REFILL[j]) {
      RefillInv(j);
      RefillNext(j);
    }
    PathIsRun(at, REFILL, 0);
    assert REFILL[0..] == REFILL;
  }
}
