/** The cache with expiring values of ttlcache/timed.go. Times are readings of one monotone clock. */
module TtlCache {
  import opened Sequences

  datatype Item<V> = Item(createdAt: int, value: V)

  type Items<V> = map<string, Item<V>>

  /** What `Get` answers from these items at `now`. */
  function Found<V>(items: Items<V>, interval: int, key: string, now: int): Option<V> {
    if key in items && now - items[key].createdAt < interval then Some(items[key].value) else None
  }

  /** The items a `Get` leaves: an expired one is deleted on sight. */
  function AfterGet<V>(items: Items<V>, interval: int, key: string, now: int): Items<V> {
    if key in items && now - items[key].createdAt >= interval then items - {key} else items
  }

  /** A sweep that looks at `keys`, and deletes those of them that are more than `interval` old. */
  function Swept<V>(items: Items<V>, interval: int, keys: set<string>, now: int): Items<V> {
    map k | k in items && !(k in keys && now - items[k].createdAt > interval) :: items[k]
  }

  lemma GoneSwept<V>(items: Items<V>, interval: int, gone: set<string>, now: int)
    requires forall k :: k in gone ==> k in items && now - items[k].createdAt > interval
    ensures items - gone == Swept(items, interval, gone, now)
  {
  }

  ghost predicate Monotone(clock: nat -> int) {
    forall i: nat, j: nat :: i <= j ==> clock(i) <= clock(j)
  }

  class TimedCache<V> {
    const interval: int
    var items: Items<V>

    constructor (interval: int)
      ensures this.interval == interval && items == map[]
    {
      this.interval, items := interval, map[];
    }

    method Set(key: string, value: V, now: int)
      modifies this
      ensures items == old(items)[key := Item(now, value)]
    {
      items := items[key := Item(now, value)];
    }

    method Get(key: string, now: int) returns (r: Option<V>)
      modifies this
      ensures r == Found(old(items), interval, key, now)
      ensures items == AfterGet(old(items), interval, key, now)
      ensures key in old(items) ==>
                var item := old(items)[key];
                if now - item.createdAt < interval then r == Some(item.value) && items == old(items)
                else r == None && items == old(items) - {key}
      ensures key !in old(items) ==> r == None && items == old(items)
    {
      if key !in items {
        return None;
      }
      var item := items[key];
      if now - item.createdAt >= interval {
        items := items - {key};
        return None;
      }
      return Some(item.value);
    }

    /** The clock is read once for each item; the order in which the keys come up is not fixed. */
    method DeleteExpired(clock: nat -> int)
      requires Monotone(clock)
      modifies this
      ensures exists keys :: items == Swept(old(items), interval, keys, clock(|old(items)|))
      ensures forall k :: k in items ==> items[k].createdAt + interval >= clock(0)
      ensures forall k <- items :: k in old(items) && items[k] == old(items)[k]
      ensures forall k <- old(items) :: k !in items ==> clock(|old(items)|) - old(items)[k].createdAt > interval
    {
      ghost var before := items;
      var left, i := items.Keys, 0;
      ghost var gone: set<string>, first, last := {}, clock(0), clock(|items|);
      while left != {}
        invariant left <= before.Keys && i + |left| == |before|
        invariant gone !! left && items == before - gone
        invariant forall k :: k in gone ==> k in before && last - before[k].createdAt > interval
        invariant forall k :: k in items && k !in left ==> first - items[k].createdAt <= interval
        decreases |left|
      {
        var key :| key in left;
        left := left - {key};
        var now := clock(i);
        assert first <= now <= last;
        if now - items[key].createdAt > interval {
          items := items - {key};
          gone := gone + {key};
        }
        i := i + 1;
      }
      GoneSwept(before, interval, gone, last);
    }
  }

  // ---------------------------------------------------- sequential histories

  datatype Op<V> = Set(key: string, value: V, now: int)
                 | Get(key: string, now: int)
                 | Sweep(keys: set<string>, now: int)

  function Apply<V>(items: Items<V>, interval: int, op: Op<V>): Items<V> {
    match op
    case Set(key, value, now) => items[key := Item(now, value)]
    case Get(key, now) => AfterGet(items, interval, key, now)
    case Sweep(keys, now) => Swept(items, interval, keys, now)
  }

  function Run<V>(interval: int, ops: seq<Op<V>>): Items<V> {
    if ops == [] then map[] else Apply(Run(interval, ops[..|ops| - 1]), interval, ops[|ops| - 1])
  }

  /** The latest `Set` of a key, if any. */
  function Latest<V>(ops: seq<Op<V>>, key: string): Option<Item<V>> {
    if ops == [] then None
    else
      var op := ops[|ops| - 1];
      if op.Set? && op.key == key then Some(Item(op.now, op.value)) else Latest(ops[..|ops| - 1], key)
  }

  ghost predicate InOrder<V>(ops: seq<Op<V>>) {
    forall i, j :: 0 <= i <= j < |ops| ==> ops[i].now <= ops[j].now
  }

  /** An item that is there is the latest that was set; one that is not there was never set or has expired. */
  lemma {:induction false} ItemsAreLatest<V>(interval: int, ops: seq<Op<V>>, key: string)
    requires InOrder(ops)
    ensures var items := Run(interval, ops);
            if key in items then Latest(ops, key) == Some(items[key])
            else Latest(ops, key) == None || ops[|ops| - 1].now - Latest(ops, key).value.createdAt >= interval
  {
    if ops != [] {
      ItemsAreLatest(interval, ops[..|ops| - 1], key);
    }
  }

  /**
   * `Get` answers with a value exactly when the latest `Set` of the key stored it less than `interval`
   * ago, whatever sweeps and other `Get` calls came between.
   */
  lemma GetIsLatest<V>(interval: int, ops: seq<Op<V>>, key: string, now: int, value: V)
    requires InOrder(ops) && (ops != [] ==> ops[|ops| - 1].now <= now)
    ensures Found(Run(interval, ops), interval, key, now) == Some(value) <==>
            exists at :: Latest(ops, key) == Some(Item(at, value)) && now - at < interval
  {
    ItemsAreLatest(interval, ops, key);
    var items := Run(interval, ops);
    if key in items {
      assert Latest(ops, key) == Some(Item(items[key].createdAt, items[key].value));
    }
  }

  // --------------------------------------------------------- interleaved calls

  /**
   * A `Get` takes its snapshot under the read lock, looks at the clock outside any lock, and deletes
   * under the write lock; other calls run in between. `Set` and a sweep are single steps under the lock.
   */
  datatype Phase<V> = Holding(key: string, found: Option<Item<V>>) | Deleting(key: string)

  datatype Step<V> = SetValue(key: string, value: V)
                   | Snapshot(caller: nat, key: string)
                   | Check(caller: nat)
                   | Delete(caller: nat)
                   | SweepKeys(keys: set<string>)
                   | Tick(d: nat)

  datatype State<V> = State(now: int, items: Items<V>, phases: map<nat, Phase<V>>)

  /** The answer of a call whose check is due: `None` while it is not, `Some(None)` for "not found". */
  function Answer<V>(s: State<V>, interval: int, caller: nat): Option<Option<V>> {
    if !(caller in s.phases && s.phases[caller].Holding?) then None
    else
      match s.phases[caller].found
      case None => Some(None)
      case Some(item) => if s.now - item.createdAt >= interval then Some(None) else Some(Some(item.value))
  }

  function Checked<V>(s: State<V>, interval: int, caller: nat): State<V>
    requires caller in s.phases && s.phases[caller].Holding?
  {
    var p := s.phases[caller];
    if p.found.Some? && s.now - p.found.value.createdAt >= interval then
      s.(phases := s.phases[caller := Deleting(p.key)])
    else s.(phases := s.phases - {caller})
  }

  /** A step that is not possible in a state leaves it as it is. */
  function Next<V>(s: State<V>, interval: int, step: Step<V>): State<V> {
    match step
    case SetValue(key, value) => s.(items := s.items[key := Item(s.now, value)])
    case Snapshot(caller, key) =>
      if caller in s.phases then s
      else s.(phases := s.phases[caller := Holding(key, if key in s.items then Some(s.items[key]) else None)])
    case Check(caller) =>
      if caller in s.phases && s.phases[caller].Holding? then Checked(s, interval, caller) else s
    case Delete(caller) =>
      if Deletes(s, caller).Some? then
        s.(items := s.items - {s.phases[caller].key}, phases := s.phases - {caller})
      else s
    case SweepKeys(keys) => s.(items := Swept(s.items, interval, keys, s.now))
    case Tick(d) => s.(now := s.now + d)
  }

  /** The key a caller is about to delete. */
  function Deletes<V>(s: State<V>, caller: nat): Option<string> {
    if caller in s.phases && s.phases[caller].Deleting? then Some(s.phases[caller].key) else None
  }

  /** A `Get` that is checked right after its snapshot answers, and deletes, as the call in one piece does. */
  lemma GetAlone<V>(s: State<V>, interval: int, caller: nat, key: string)
    requires caller !in s.phases
    ensures var t := Next(s, interval, Snapshot(caller, key));
            && Answer(t, interval, caller) == Some(Found(s.items, interval, key, s.now))
            && Next(Next(t, interval, Check(caller)), interval, Delete(caller)).items ==
               AfterGet(s.items, interval, key, s.now)
  {
  }

  function Exec<V>(interval: int, steps: seq<Step<V>>): State<V> {
    if steps == [] then State(0, map[], map[])
    else Next(Exec(interval, steps[..|steps| - 1]), interval, steps[|steps| - 1])
  }

  /** The latest `Set` of a key in a run, with the time it was made. */
  function LastSet<V>(interval: int, steps: seq<Step<V>>, key: string): Option<Item<V>> {
    if steps == [] then None
    else
      var before, step := steps[..|steps| - 1], steps[|steps| - 1];
      if step.SetValue? && step.key == key then Some(Item(Exec(interval, before).now, step.value))
      else LastSet(interval, before, key)
  }

  /** Some `Get` has deleted the key since its latest `Set`. */
  predicate DeletedSince<V>(interval: int, steps: seq<Step<V>>, key: string) {
    if steps == [] then false
    else
      var before, step := steps[..|steps| - 1], steps[|steps| - 1];
      if step.SetValue? && step.key == key then false
      else
        || (step.Delete? && Deletes(Exec(interval, before), step.caller) == Some(key))
        || DeletedSince(interval, before, key)
  }

  /** An item that is there is the latest that was set; a young one that is missing was deleted by a `Get`. */
  lemma {:induction false} LostOnlyByGet<V>(interval: int, steps: seq<Step<V>>, key: string)
    ensures var s := Exec(interval, steps); var last := LastSet(interval, steps, key);
            && (key in s.items ==> last == Some(s.items[key]) && s.items[key].createdAt <= s.now)
            && (last.Some? && s.now - last.value.createdAt <= interval ==>
                  (key !in s.items <==> DeletedSince(interval, steps, key)))
  {
    if steps != [] {
      LostOnlyByGet(interval, steps[..|steps| - 1], key);
    }
  }

  /** What a call holds is the key's item as it was when the call took its snapshot. */
  lemma {:induction false} HeldSince<V>(interval: int, steps: seq<Step<V>>, caller: nat) returns (at: nat)
    requires caller in Exec(interval, steps).phases && Exec(interval, steps).phases[caller].Holding?
    ensures var p := Exec(interval, steps).phases[caller];
            && at < |steps| && steps[at] == Snapshot(caller, p.key)
            && p.found == (var items := Exec(interval, steps[..at]).items;
                           if p.key in items then Some(items[p.key]) else None)
  {
    var n := |steps| - 1;
    var before := steps[..n];
    var s := Exec(interval, before);
    if caller in s.phases {
      at := HeldSince(interval, before, caller);
      assert before[..at] == steps[..at];
    } else {
      at := n;
    }
  }

  /**
   * In every interleaving a value that `Get` returns was the latest set for its key when the call took
   * its snapshot, and it is less than `interval` old when the call checks it.
   */
  lemma ReturnedWasCurrent<V>(interval: int, steps: seq<Step<V>>, caller: nat, value: V) returns (at: nat)
    requires Answer(Exec(interval, steps), interval, caller) == Some(Some(value))
    ensures var s := Exec(interval, steps);
            && at < |steps| && steps[at] == Snapshot(caller, s.phases[caller].key)
            && LastSet(interval, steps[..at], s.phases[caller].key) == s.phases[caller].found
            && s.phases[caller].found.value.value == value
            && s.now - s.phases[caller].found.value.createdAt < interval
  {
    at := HeldSince(interval, steps, caller);
    LostOnlyByGet(interval, steps[..at], Exec(interval, steps).phases[caller].key);
  }

  lemma ExecNext<V>(interval: int, steps: seq<Step<V>>, i: nat)
    requires i < |steps|
    ensures Exec(interval, steps[..i + 1]) == Next(Exec(interval, steps[..i]), interval, steps[i])
  {
    assert steps[..i + 1][..i] == steps[..i];
  }

  /** A `Get` that has seen an expired item deletes a value set after its check, however fresh. */
  lemma FreshValueLost<V>(interval: nat, stale: V, newer: V, key: string)
    ensures var steps :=
              [SetValue(key, stale), Tick(interval), Snapshot(0, key), Check(0), SetValue(key, newer), Delete(0)];
            var s := Exec(interval, steps);
            key !in s.items && LastSet(interval, steps, key) == Some(Item(s.now, newer))
  {
    var steps := [SetValue(key, stale), Tick(interval), Snapshot(0, key), Check(0), SetValue(key, newer), Delete(0)];
    ExecNext(interval, steps, 0);
    ExecNext(interval, steps, 1);
    ExecNext(interval, steps, 2);
    ExecNext(interval, steps, 3);
    assert Deletes(Exec(interval, steps[..4]), 0) == Some(key);
    ExecNext(interval, steps, 4);
    assert steps[..5][..4] == steps[..4];
    assert LastSet(interval, steps[..5], key) == Some(Item(interval, newer));
    assert steps[..6] == steps;
    ExecNext(interval, steps, 5);
  }

  // ------------------------------------------- when a value just set can be lost

  /** The run from a given state. */
  function From<V>(s: State<V>, interval: int, steps: seq<Step<V>>): State<V>
    decreases |steps|
  {
    if steps == [] then s else From(Next(s, interval, steps[0]), interval, steps[1..])
  }

  ghost predicate SetsNot<V>(steps: seq<Step<V>>, key: string) {
    forall step <- steps :: step.SetValue? ==> step.key != key
  }

  /**
   * A `Get` in flight that will delete the key, or that holds an item of it made before `t` and will once it
   * expires.
   */
  predicate Endangers<V>(p: Phase<V>, key: string, t: int) {
    p.key == key && (p.Deleting? || (p.found.Some? && p.found.value.createdAt < t))
  }

  ghost predicate Endangered<V>(s: State<V>, key: string, t: int) {
    exists caller <- s.phases :: Endangers(s.phases[caller], key, t)
  }

  /** The value set at `t` is there and no `Get` in flight endangers it. */
  ghost predicate Safe<V>(s: State<V>, key: string, t: int) {
    key in s.items && s.items[key].createdAt == t <= s.now && !Endangered(s, key, t)
  }

  /** It stays so until it expires. */
  lemma SafeNext<V>(s: State<V>, interval: int, step: Step<V>, key: string, t: int)
    requires Safe(s, key, t) && (step.SetValue? ==> step.key != key)
    requires Next(s, interval, step).now - t < interval
    ensures Safe(Next(s, interval, step), key, t)
  {
    var u := Next(s, interval, step);
    forall caller | caller in u.phases ensures !Endangers(u.phases[caller], key, t) {
      assert caller in s.phases ==> !Endangers(s.phases[caller], key, t);
    }
  }

  lemma TimeGoesOn<V>(s: State<V>, interval: int, steps: seq<Step<V>>)
    ensures From(s, interval, steps).now >= s.now
    decreases |steps|
  {
    if steps != [] {
      TimeGoesOn(Next(s, interval, steps[0]), interval, steps[1..]);
    }
  }

  lemma {:induction false} SafeStays<V>(s: State<V>, interval: int, steps: seq<Step<V>>, key: string, t: int)
    requires Safe(s, key, t) && SetsNot(steps, key)
    requires From(s, interval, steps).now - t < interval
    ensures Safe(From(s, interval, steps), key, t)
    decreases |steps|
  {
    if steps != [] {
      assert steps[0] in steps;
      TimeGoesOn(Next(s, interval, steps[0]), interval, steps[1..]);
      SafeNext(s, interval, steps[0], key, t);
      SafeStays(Next(s, interval, steps[0]), interval, steps[1..], key, t);
    }
  }

  /** The value set at `t` is missing although it has not expired. */
  predicate Lost<V>(s: State<V>, interval: int, key: string, t: int) {
    key !in s.items && s.now - t < interval
  }

  /** A `Get` that holds an item made before the value waits for it to expire, finds it expired and deletes the key. */
  lemma HeldItemLoses<V>(s: State<V>, interval: int, caller: nat, key: string) returns (steps: seq<Step<V>>)
    requires interval > 0 && caller in s.phases && Endangers(s.phases[caller], key, s.now)
    ensures SetsNot(steps, key) && Lost(From(s, interval, steps), interval, key, s.now)
  {
    var p := s.phases[caller];
    if p.Deleting? {
      steps := [Delete(caller)];
      assert From(Next(s, interval, Delete(caller)), interval, []) == Next(s, interval, Delete(caller));
    } else {
      var age := s.now - p.found.value.createdAt;
      var d: nat := if age >= interval then 0 else interval - age;
      steps := [Tick(d), Check(caller), Delete(caller)];
      var waited := Next(s, interval, Tick(d));
      var checked := Next(waited, interval, Check(caller));
      assert checked.phases[caller] == Deleting(key);
      var gone := Next(checked, interval, Delete(caller));
      assert key !in gone.items && gone.now == s.now + d;
      assert steps[1..] == [Check(caller), Delete(caller)] && steps[1..][1..] == [Delete(caller)];
      assert From(checked, interval, [Delete(caller)]) == From(gone, interval, []) == gone;
    }
  }

  /**
   * A value just set can be missing before it expires, without another `Set` of its key, if and only if
   * some `Get` of the key is in flight when it is set that has found the old item expired, or that holds
   * an item made before.
   */
  lemma LostIfGetInFlight<V>(before: State<V>, interval: int, key: string, value: V)
    requires interval > 0
    ensures var s := Next(before, interval, SetValue(key, value));
            (exists steps | SetsNot(steps, key) :: Lost(From(s, interval, steps), interval, key, before.now)) <==>
            Endangered(before, key, before.now)
  {
    var s := Next(before, interval, SetValue(key, value));
    if Endangered(before, key, before.now) {
      var caller :| caller in before.phases && Endangers(before.phases[caller], key, before.now);
      var steps := HeldItemLoses(s, interval, caller, key);
    } else {
      assert Safe(s, key, before.now);
      forall steps | SetsNot(steps, key) ensures !Lost(From(s, interval, steps), interval, key, before.now) {
        if From(s, interval, steps).now - before.now < interval {
          SafeStays(s, interval, steps, key, before.now);
        }
      }
    }
  }

  /** A value set while no `Get` is in flight is never lost. */
  lemma NeverLostAlone<V>(before: State<V>, interval: int, key: string, value: V, steps: seq<Step<V>>)
    requires interval > 0 && before.phases == map[] && SetsNot(steps, key)
    ensures !Lost(From(Next(before, interval, SetValue(key, value)), interval, steps), interval, key, before.now)
  {
    LostIfGetInFlight(before, interval, key, value);
  }
}
