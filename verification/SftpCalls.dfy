/** What one call does to the pool when no other goroutine takes a step in between: each way getConn can go. */
module SftpCalls {
  import opened SftpPool
  import opened SftpInterleavings

  /** The state after some steps one after the other. */
  lemma RunStep(s: System, step: Step, rest: seq<Step>)
    requires Inv(s)
    ensures Inv(Next(s, step)) && Run(s, [step] + rest) == Run(Next(s, step), rest)
  {
    StepKeepsInv(s, step);
    assert ([step] + rest)[0] == step && ([step] + rest)[1..] == rest;
  }

  lemma RunTwo(s: System, a: Step, b: Step)
    requires Inv(s)
    ensures Inv(Next(s, a)) && Inv(Next(Next(s, a), b)) && Run(s, [a, b]) == Next(Next(s, a), b)
  {
    RunStep(s, a, [b]);
    RunStep(Next(s, a), b, []);
    assert [a, b] == [a] + [b] && [b] == [b] + [];
  }

  lemma RunThree(s: System, a: Step, b: Step, c: Step)
    requires Inv(s)
    ensures Inv(Next(s, a)) && Inv(Next(Next(s, a), b)) && Run(s, [a, b, c]) == Next(Next(Next(s, a), b), c)
  {
    RunStep(s, a, [b, c]);
    RunTwo(Next(s, a), b, c);
    assert [a, b, c] == [a] + [b, c];
  }

  /** The last step of a call that found a connection: it is used again at `now`. */
  lemma AfterTouch(s: System, g: Gid, key: Key, e: EntryId, now: int)
    requires WellFormed(s.pool) && g in s.pcs && s.pcs[g] == Touching(key, e)
    requires key in s.pool.entries && s.pool.entries[key] == e
    ensures var t, conn := Next(s, Touch(g, now)), s.pool.heap[e].conn;
            && t.pcs == s.pcs[g := Got(key, conn)] && t.closes == s.closes && t.owner == s.owner
            && t.pool.entries == s.pool.entries && t.pool.heap == s.pool.heap[e := Cell(conn, now)]
  {
  }

  /** The last step of a call that dialled: what it dialled is pooled, with `now` as the time of its use. */
  lemma AfterPublish(s: System, g: Gid, key: Key, conn: ConnId, e: EntryId, now: int)
    requires WellFormed(s.pool) && g in s.pcs && s.pcs[g] == Publishing(key, conn)
    requires key !in s.pool.entries && e !in s.pool.heap
    ensures var t := Next(s, Publish(g, e, now));
            && t.pcs == s.pcs[g := Got(key, conn)] && t.closes == s.closes
            && t.pool.entries == s.pool.entries[key := e] && t.pool.heap == s.pool.heap[e := Cell(conn, now)]
  {
  }

  /** A pooled connection that answers is returned; it is used again at `now`, and nothing else changes. */
  lemma ReusedConn(s: System, g: Gid, key: Key, now: int)
    requires Inv(s) && Idle(s, g) && key in s.pool.entries
    ensures var e, t := s.pool.entries[key], Run(s, [GetConn(g, key), ProbeOk(g), Touch(g, now)]);
            var conn := s.pool.heap[e].conn;
            && t.pcs == s.pcs[g := Got(key, conn)] && t.closes == s.closes && t.owner == s.owner
            && t.pool.entries == s.pool.entries && t.pool.heap == s.pool.heap[e := Cell(conn, now)]
  {
    var e, t := s.pool.entries[key], Next(Next(s, GetConn(g, key)), ProbeOk(g));
    RunThree(s, GetConn(g, key), ProbeOk(g), Touch(g, now));
    assert t == s.(pcs := s.pcs[g := Probing(key, e)][g := Touching(key, e)]);
    assert s.pcs[g := Probing(key, e)][g := Touching(key, e)] == s.pcs[g := Touching(key, e)];
    AfterTouch(t, g, key, e, now);
  }

  /** The way of a call without a pooled connection: dial, and pool what was dialled. */
  lemma DialledConn(s: System, g: Gid, key: Key, conn: ConnId, e: EntryId, now: int)
    requires Inv(s) && g in s.pcs && s.pcs[g] == Dialing(key) && key !in s.pool.entries
    requires conn !in s.owner && e !in s.pool.heap
    ensures var t := Run(s, [DialOk(g, conn), Publish(g, e, now)]);
            && t.pcs == s.pcs[g := Got(key, conn)] && t.closes == s.closes
            && t.pool.entries == s.pool.entries[key := e] && t.pool.heap == s.pool.heap[e := Cell(conn, now)]
  {
    RunTwo(s, DialOk(g, conn), Publish(g, e, now));
    AfterPublish(Next(s, DialOk(g, conn)), g, key, conn, e, now);
  }

  /** A call finds no pooled connection. */
  lemma MissedConn(s: System, g: Gid, key: Key)
    requires Inv(s) && Idle(s, g) && key !in s.pool.entries
    ensures var t := Next(s, GetConn(g, key));
            Inv(t) && t.pcs == s.pcs[g := Dialing(key)] && t.pool == s.pool && t.closes == s.closes && t.owner == s.owner
  {
    StepKeepsInv(s, GetConn(g, key));
  }

  /** A call finds one that does not answer: it leaves the pool and is closed once, and the call goes on to dial. */
  lemma DeadConn(s: System, g: Gid, key: Key)
    requires Inv(s) && Idle(s, g) && key in s.pool.entries
    ensures var e := s.pool.entries[key];
            var t := Run(s, [GetConn(g, key), ProbeBad(g), Drop(g), CloseOld(g)]);
            && Inv(t) && t.pcs == s.pcs[g := Dialing(key)]
            && t.pool.entries == s.pool.entries - {key} && t.pool.heap == s.pool.heap
            && t.closes == s.closes + [s.pool.heap[e].conn] && t.owner.Keys == s.owner.Keys
  {
    RunStep(s, GetConn(g, key), [ProbeBad(g), Drop(g), CloseOld(g)]);
    assert [GetConn(g, key)] + [ProbeBad(g), Drop(g), CloseOld(g)] ==
           [GetConn(g, key), ProbeBad(g), Drop(g), CloseOld(g)];
    RunThree(Next(s, GetConn(g, key)), ProbeBad(g), Drop(g), CloseOld(g));
    StepKeepsInv(Next(Next(Next(s, GetConn(g, key)), ProbeBad(g)), Drop(g)), CloseOld(g));
    var conn := s.pool.heap[s.pool.entries[key]].conn;
    assert Shows(s, conn, Pooled(key));
  }

  /** A tick takes the entries it has chosen out of the pool, and the goroutine owes the close of each connection. */
  lemma TickTakesOut(s: System, g: Gid, keys: set<Key>)
    requires Inv(s) && Idle(s, g)
    ensures var t := Next(s, Evict(g, keys));
            && t.pool.entries == s.pool.entries - keys && t.pool.heap == s.pool.heap && t.closes == s.closes
            && forall k <- keys | k in s.pool.entries :: Shows(t, s.pool.heap[s.pool.entries[k]].conn, Owed(g))
  {
  }

  /** And then closes one of them at a time. */
  lemma OwedIsClosed(s: System, g: Gid, conn: ConnId)
    requires Inv(s) && g in s.pcs && s.pcs[g].Draining? && conn in s.pcs[g].rest
    ensures var t := Next(s, CloseOne(g, conn));
            t.closes == s.closes + [conn] && t.pcs == s.pcs[g := Draining(s.pcs[g].rest - {conn})] && t.pool == s.pool
  {
  }

  /** invalidate takes the entry out and closes its connection in one step. */
  lemma InvalidateCloses(s: System, key: Key)
    requires Inv(s)
    ensures var t := Next(s, Invalidate(key));
            if key in s.pool.entries then
              && t.pool.entries == s.pool.entries - {key} && t.pool.heap == s.pool.heap && t.pcs == s.pcs
              && t.closes == s.closes + [s.pool.heap[s.pool.entries[key]].conn]
            else t == s
  {
  }

  /** Close empties the pool for the moment, and owes the close of every connection that was in it. */
  lemma CloseTakesAll(s: System, g: Gid)
    requires Inv(s) && Idle(s, g) && !s.stopped
    ensures var t := Next(s, CloseClient(g));
            && t.pool.entries == map[] && t.stopped && t.closes == s.closes
            && forall k <- s.pool.entries :: Shows(t, s.pool.heap[s.pool.entries[k]].conn, Owed(g))
  {
  }

  /** A call that dialled while another published: it returns the other's connection and closes its own. */
  lemma LostPublish(s: System, g: Gid, key: Key, conn: ConnId, e: EntryId, now: int)
    requires Inv(s) && g in s.pcs && s.pcs[g] == Publishing(key, conn)
    requires key in s.pool.entries && e !in s.pool.heap
    ensures var t := Run(s, [Publish(g, e, now), Discard(g)]);
            && t.pool == s.pool && t.closes == s.closes + [conn]
            && g in t.pcs && t.pcs[g] == Got(key, s.pool.heap[s.pool.entries[key]].conn)
  {
    RunTwo(s, Publish(g, e, now), Discard(g));
  }

  /** Download's own connection never enters the pool, and is closed when it is done. */
  lemma PrivateConnClosed(s: System, g: Gid, conn: ConnId)
    requires Inv(s) && Idle(s, g) && conn !in s.owner
    ensures var t := Run(s, [PrivateDial(g, conn), PrivateClose(g)]);
            t.pool == s.pool && t.closes == s.closes + [conn] && g in t.pcs && t.pcs[g] == Failed
  {
    RunTwo(s, PrivateDial(g, conn), PrivateClose(g));
  }
}
