/** The SFTP connection pool of webssh/sftp_client.go: what its critical sections do to the pool. */
module SftpPool {
  import opened Sequences

  type Key = string
  type ConnId = nat

  /** A pool entry's identity; entries are compared by it, never by content. */
  type EntryId = nat

  datatype Cell = Cell(conn: ConnId, lastUsed: int)

  /** `entries` is the pool's map; `heap` holds every entry ever made, pooled or not. */
  datatype Pool = Pool(entries: map<Key, EntryId>, heap: map<EntryId, Cell>)

  predicate WellFormed(p: Pool) {
    forall k <- p.entries :: p.entries[k] in p.heap
  }

  predicate IsPooled(p: Pool, key: Key, e: EntryId) {
    key in p.entries && p.entries[key] == e
  }

  /** After a good probe: the entry is used again, if it is still the pooled one. */
  function Touched(p: Pool, key: Key, e: EntryId, now: int): Pool
    requires e in p.heap
  {
    if IsPooled(p, key, e) then p.(heap := p.heap[e := p.heap[e].(lastUsed := now)]) else p
  }

  /** After a bad probe: the entry leaves, if it is still the pooled one. */
  function Dropped(p: Pool, key: Key, e: EntryId): Pool {
    if IsPooled(p, key, e) then p.(entries := p.entries - {key}) else p
  }

  /** A new entry `e` for a new connection, unless the key has one already. */
  function Published(p: Pool, key: Key, e: EntryId, conn: ConnId, now: int): Pool {
    if key in p.entries then p
    else Pool(p.entries[key := e], p.heap[e := Cell(conn, now)])
  }

  function Without(p: Pool, keys: set<Key>): Pool {
    p.(entries := p.entries - keys)
  }

  /** The connections pooled under `keys`. */
  function ConnsOf(p: Pool, keys: set<Key>): set<ConnId>
    requires WellFormed(p)
  {
    set k | k in keys && k in p.entries :: p.heap[p.entries[k]].conn
  }

  lemma OneMoreGone(p: Pool, keys: set<Key>, key: Key)
    requires WellFormed(p) && key in p.entries
    ensures ConnsOf(p, keys + {key}) == ConnsOf(p, keys) + {p.heap[p.entries[key]].conn}
    ensures Without(Without(p, keys), {key}) == Without(p, keys + {key})
  {
    assert p.entries - keys - {key} == p.entries - (keys + {key});
  }

  /** When the entry of `key` was last used. */
  function UsedAt(p: Pool, key: Key): int
    requires WellFormed(p) && key in p.entries
  {
    p.heap[p.entries[key]].lastUsed
  }

  /** The pool's key for a login. */
  function ConnKey(user: string, addr: string): Key {
    user + "@" + addr
  }

  /** The second login's user name goes on where the first's ends, with a piece of the first's address. */
  ghost predicate Shifted(u: string, a: string, v: string, b: string) {
    exists w :: v == u + "@" + w && a == w + "@" + b
  }

  lemma ShiftedShare(u: string, a: string, v: string, b: string)
    requires Shifted(u, a, v, b)
    ensures ConnKey(u, a) == ConnKey(v, b)
  {
    var w :| v == u + "@" + w && a == w + "@" + b;
    assert u + "@" + (w + "@" + b) == u + "@" + w + "@" + b;
  }

  lemma LongerUserShifts(u: string, a: string, v: string, b: string)
    requires ConnKey(u, a) == ConnKey(v, b) && |u| < |v|
    ensures Shifted(u, a, v, b)
  {
    var s := ConnKey(u, a);
    var w := s[|u| + 1..|v|];
    assert s[..|u| + 1] == u + "@" && s[..|v|] == v && s[..|v|] == s[..|u| + 1] + w;
    assert s[|u| + 1..] == a && s[|v|..] == "@" + b && s[|u| + 1..] == w + s[|v|..];
  }

  /**
   * Two logins share a key if and only if they are equal, or one's user name is the other's and an at
   * sign and a piece that the other's address starts with.
   */
  lemma ConnKeyShared(u: string, a: string, v: string, b: string)
    ensures ConnKey(u, a) == ConnKey(v, b) <==> (u == v && a == b) || Shifted(u, a, v, b) || Shifted(v, b, u, a)
  {
    if Shifted(u, a, v, b) {
      ShiftedShare(u, a, v, b);
    }
    if Shifted(v, b, u, a) {
      ShiftedShare(v, b, u, a);
    }
    if ConnKey(u, a) == ConnKey(v, b) {
      if |u| < |v| {
        LongerUserShifts(u, a, v, b);
      } else if |v| < |u| {
        LongerUserShifts(v, b, u, a);
      } else {
        var s := ConnKey(u, a);
        assert s[..|u|] == u == v && s[|u| + 1..] == a == b;
      }
    }
  }

  /** Logins whose addresses hold no '@' never share a key. */
  lemma ConnKeyInjective(u: string, a: string, v: string, b: string)
    requires '@' !in a && '@' !in b
    ensures ConnKey(u, a) == ConnKey(v, b) <==> u == v && a == b
  {
    ConnKeyShared(u, a, v, b);
  }

  /** An '@' in an address can make two different logins share a key. */
  lemma ConnKeyCollision()
    ensures ConnKey("a", "b@c") == ConnKey("a@b", "c")
  {
    assert ConnKey("a", "b@c") == "a@b@c" == ConnKey("a@b", "c");
  }

  /** NewSSHClient completes the address with the default port, in the caller's own options. */
  function WithPort(addr: string): string {
    if ':' in addr then addr else addr + ":22"
  }

  /** So the key of one login stays the same across calls exactly when its address names a port. */
  lemma KeyStable(user: string, addr: string)
    ensures ConnKey(user, WithPort(addr)) == ConnKey(user, addr) <==> ':' in addr
  {
    if ':' !in addr {
      assert |ConnKey(user, WithPort(addr))| == |ConnKey(user, addr)| + 3;
    }
  }

  /** A login without a port has one key before its first dial and another after it. */
  lemma KeyChanges()
    ensures ConnKey("u", "h") == "u@h" && ConnKey("u", WithPort("h")) == "u@h:22"
  {
    assert ConnKey("u", "h") == "u@h";
    assert WithPort("h") == "h:22";
  }

  class SFTPClient {
    var entries: map<Key, EntryId>
    var heap: map<EntryId, Cell>
    const idleTimeout: int

    function Value(): Pool
      reads this
    {
      Pool(entries, heap)
    }

    constructor (idleTimeout: int)
      ensures Value() == Pool(map[], map[]) && WellFormed(Value())
      ensures this.idleTimeout == if idleTimeout <= 0 then 30_000_000_000 else idleTimeout
    {
      entries, heap := map[], map[];
      this.idleTimeout := if idleTimeout <= 0 then 30_000_000_000 else idleTimeout;
    }

    method TouchIfPooled(key: Key, e: EntryId, now: int)
      requires WellFormed(Value()) && e in heap
      modifies this`heap
      ensures Value() == Touched(old(Value()), key, e, now) && WellFormed(Value())
      // the entry is used again at `now`, and nothing else changes
      ensures heap == if key in entries && entries[key] == e then old(heap)[e := Cell(old(heap)[e].conn, now)]
                      else old(heap)
    {
      if key in entries && entries[key] == e {
        heap := heap[e := heap[e].(lastUsed := now)];
      }
    }

    method DropIfPooled(key: Key, e: EntryId) returns (owesClose: bool)
      requires WellFormed(Value())
      modifies this`entries
      ensures Value() == Dropped(old(Value()), key, e) && WellFormed(Value())
      ensures entries == if key in old(entries) && old(entries)[key] == e then old(entries) - {key} else old(entries)
      ensures owesClose <==> IsPooled(old(Value()), key, e)
    {
      owesClose := key in entries && entries[key] == e;
      if owesClose {
        entries := entries - {key};
      }
    }

    method PublishIfAbsent(key: Key, e: EntryId, conn: ConnId, now: int) returns (result: ConnId, won: bool)
      requires WellFormed(Value()) && e !in heap
      modifies this
      ensures Value() == Published(old(Value()), key, e, conn, now) && WellFormed(Value())
      ensures won ==> entries == old(entries)[key := e] && heap == old(heap)[e := Cell(conn, now)]
      ensures !won ==> entries == old(entries) && heap == old(heap)
      ensures won <==> key !in old(entries)
      ensures key in entries && result == heap[entries[key]].conn && (won ==> result == conn)
    {
      if key in entries {
        return heap[entries[key]].conn, false;
      }
      entries := entries[key := e];
      heap := heap[e := Cell(conn, now)];
      return conn, true;
    }

    /**
     * getConn when no other goroutine runs in between: `probeOk` is the answer of the pooled connection,
     * `dialled` the new connection if dialling succeeds, `added` the identity of its entry.
     */
    method GetConn(key: Key, probeOk: bool, dialled: Option<ConnId>, added: EntryId, now: int)
      returns (conn: Option<ConnId>, closed: seq<ConnId>)
      requires WellFormed(Value()) && added !in heap
      modifies this
      ensures WellFormed(Value())
      // a pooled connection that answers is returned and stays pooled; one that does not is closed, once
      ensures key in old(entries) && probeOk ==>
                var e := old(entries)[key];
                && conn == Some(old(heap)[e].conn) && closed == []
                && entries == old(entries) && heap == old(heap)[e := Cell(old(heap)[e].conn, now)]
      ensures key in old(entries) && !probeOk ==> closed == [old(heap)[old(entries)[key]].conn]
      ensures key !in old(entries) ==> closed == []
      // otherwise the result is the dialled connection, pooled under the key; without one the key is left empty
      ensures key !in old(entries) || !probeOk ==>
                && conn == dialled
                && entries == (if dialled.Some? then old(entries)[key := added] else old(entries) - {key})
                && heap == if dialled.Some? then old(heap)[added := Cell(dialled.value, now)] else old(heap)
    {
      closed := [];
      if key in entries {
        var e := entries[key];
        if probeOk {
          TouchIfPooled(key, e, now);
          return Some(heap[e].conn), closed;
        }
        var owesClose := DropIfPooled(key, e);
        if owesClose {
          closed := closed + [heap[e].conn];
        }
      }
      assert Value() == Without(old(Value()), {key});
      if dialled.None? {
        return None, closed;
      }
      var own := dialled.value;
      var result, won := PublishIfAbsent(key, added, own, now);
      if !won {
        closed := closed + [own];
      }
      return Some(result), closed;
    }

    /** `invalidate`: the pooled connection, if any, is closed and leaves the pool in one critical section. */
    method Invalidate(key: Key) returns (closed: set<ConnId>)
      requires WellFormed(Value())
      modifies this`entries
      ensures Value() == Without(old(Value()), {key}) && WellFormed(Value())
      ensures closed == ConnsOf(old(Value()), {key})
      ensures entries == old(entries) - {key}
      ensures closed == if key in old(entries) then {heap[old(entries)[key]].conn} else {}
    {
      closed := {};
      if key in entries {
        closed := {heap[entries[key]].conn};
        entries := entries - {key};
      }
    }

    /**
     * One tick of evictLoop. The clock is read once per entry; it never runs backwards. An entry idle
     * for longer than the timeout when the tick starts goes, one not idle that long when it ends stays.
     */
    method EvictIdle(clock: nat -> int) returns (expired: seq<ConnId>, ghost gone: set<Key>)
      requires WellFormed(Value())
      requires forall i: nat, j: nat | i <= j :: clock(i) <= clock(j)
      modifies this`entries
      ensures Value() == Without(old(Value()), gone) && WellFormed(Value())
      ensures gone <= old(entries).Keys && (set c | c in expired) == ConnsOf(old(Value()), gone) && |expired| == |gone|
      ensures forall k <- old(entries) :: heap[old(entries)[k]].lastUsed + idleTimeout < clock(0) ==> k in gone
      ensures forall k <- gone :: heap[old(entries)[k]].lastUsed + idleTimeout < clock(|old(entries)|)
    {
      expired, gone := [], {};
      ghost var before, first, last := Value(), clock(0), clock(|entries|);
      var todo := entries.Keys;
      var i: nat := 0;
      while todo != {}
        invariant todo <= before.entries.Keys && gone <= before.entries.Keys - todo
        invariant i + |todo| == |before.entries| && |expired| == |gone|
        invariant Value() == Without(before, gone)
        invariant (set c | c in expired) == ConnsOf(before, gone)
        invariant forall k <- before.entries.Keys - todo | UsedAt(before, k) + idleTimeout < first :: k in gone
        invariant forall k <- gone :: UsedAt(before, k) + idleTimeout < last
      {
        var key :| key in todo;
        var cell, now := heap[entries[key]], clock(i);
        assert first <= now <= last;
        todo := todo - {key};
        i := i + 1;
        if now - cell.lastUsed > idleTimeout {
          OneMoreGone(before, gone, key);
          assert (set c | c in expired + [cell.conn]) == (set c | c in expired) + {cell.conn};
          expired := expired + [cell.conn];
          entries := entries - {key};
          gone := gone + {key};
        }
      }
    }

    /** The locked part of Close. */
    method TakeAll() returns (conns: seq<ConnId>)
      requires WellFormed(Value())
      modifies this`entries
      ensures Value() == Without(old(Value()), old(entries).Keys) && WellFormed(Value())
      ensures (set c | c in conns) == ConnsOf(old(Value()), old(entries).Keys) && |conns| == |old(entries)|
      ensures entries == map[] && forall k <- old(entries) :: heap[old(entries)[k]].conn in conns
    {
      conns := [];
      var todo := entries.Keys;
      ghost var done: set<Key> := {};
      while todo != {}
        invariant todo + done == entries.Keys && todo !! done && |conns| == |done|
        invariant forall c :: c in conns <==> c in ConnsOf(Value(), done)
      {
        var key :| key in todo;
        conns := conns + [heap[entries[key]].conn];
        todo := todo - {key};
        done := done + {key};
      }
      entries := map[];
    }
  }

  /**
   * A connection that getConn returns at `now`, reused or new, is still pooled after a tick that ends no
   * later than `idleTimeout` after; and after a tick that begins later than that it is gone.
   */
  method UseThenTick(c: SFTPClient, key: Key, probeOk: bool, dialled: Option<ConnId>, added: EntryId, now: int,
                     clock: nat -> int) returns (conn: Option<ConnId>)
    requires WellFormed(c.Value()) && added !in c.heap
    requires forall i: nat, j: nat | i <= j :: clock(i) <= clock(j)
    modifies c
    ensures WellFormed(c.Value())
    ensures conn.Some? && (forall i: nat :: clock(i) <= now + c.idleTimeout) ==>
              key in c.entries && c.heap[c.entries[key]] == Cell(conn.value, now)
    ensures conn.Some? && clock(0) > now + c.idleTimeout ==> key !in c.entries
  {
    var closed;
    conn, closed := c.GetConn(key, probeOk, dialled, added, now);
    ghost var before := c.Value();
    assert conn.Some? ==> key in before.entries && before.heap[before.entries[key]] == Cell(conn.value, now);
    var expired; ghost var gone;
    expired, gone := c.EvictIdle(clock);
  }
}
