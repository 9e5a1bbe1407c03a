/** The shared token of the etcd client, under any interleaving of do and watchOnce callers. */
module EtcdTokens {
  import opened Sequences

  type Gid = nat

  /** An auth token; the empty one means that none is cached. */
  type Token = string

  /** do retries once after a 401, watchOnce returns to the reconnect loop. */
  datatype Kind = Do | Watch

  /** Where a caller is; `attempt` is do's loop counter. */
  datatype Pc =
    | Ensuring(kind: Kind, attempt: nat)
    | Authenticating(kind: Kind, attempt: nat)
    | Sending(kind: Kind, attempt: nat)
    | InFlight(kind: Kind, attempt: nat, used: Token)
    | Resetting(kind: Kind, attempt: nat, used: Token)
    | Done

  /**
   * `lock` is the holder of the client's mutex while it authenticates; the other critical sections are
   * single steps. `issued`, `cleared`, `rejected` and `sends` record what happened.
   */
  datatype System = System(
    token: Token,
    lock: Option<Gid>,
    pcs: map<Gid, Pc>,
    issued: seq<Token>,
    cleared: seq<Token>,
    rejected: set<Token>,
    sends: map<Gid, nat>)

  datatype Reply = TransportError | Unauthorized | OtherStatus

  datatype Step =
    | Call(g: Gid, kind: Kind)
    | Ensure(g: Gid)
    | AuthOk(g: Gid, token: Token)
    | AuthFailed(g: Gid)
    | Send(g: Gid)
    | Receive(g: Gid, reply: Reply)
    | Reset(g: Gid)

  const START := System("", None, map[], [], [], {}, map[])

  function Goto(s: System, g: Gid, pc: Pc): System {
    s.(pcs := s.pcs[g := pc])
  }

  /** Authentication gives fresh, non-empty tokens. */
  predicate CanStep(s: System, step: Step) {
    match step
    case Call(g, _) => g !in s.pcs || s.pcs[g].Done?
    case Ensure(g) => g in s.pcs && s.pcs[g].Ensuring? && s.lock.None?
    case AuthOk(g, token) => g in s.pcs && s.pcs[g].Authenticating? && token != "" && token !in s.issued
    case AuthFailed(g) => g in s.pcs && s.pcs[g].Authenticating?
    case Send(g) => g in s.pcs && s.pcs[g].Sending? && s.lock.None?
    case Receive(g, _) => g in s.pcs && s.pcs[g].InFlight?
    case Reset(g) => g in s.pcs && s.pcs[g].Resetting? && s.lock.None?
  }

  /** A client configured with a user name; a step that cannot be taken changes nothing. */
  function Next(s: System, step: Step): System {
    if !CanStep(s, step) then s
    else match step
      case Call(g, kind) => Goto(s, g, Ensuring(kind, 0)).(sends := s.sends[g := 0])
      case Ensure(g) =>
        var pc := s.pcs[g];
        if s.token != "" then Goto(s, g, Sending(pc.kind, pc.attempt))
        else Goto(s, g, Authenticating(pc.kind, pc.attempt)).(lock := Some(g))
      case AuthOk(g, token) =>
        Goto(s, g, Sending(s.pcs[g].kind, s.pcs[g].attempt)).(
          token := token, lock := None, issued := s.issued + [token])
      case AuthFailed(g) => Goto(s, g, Done).(lock := None)
      case Send(g) =>
        Goto(s, g, InFlight(s.pcs[g].kind, s.pcs[g].attempt, s.token)).(
          sends := s.sends[g := (if g in s.sends then s.sends[g] else 0) + 1])
      case Receive(g, reply) =>
        var pc := s.pcs[g];
        if reply.Unauthorized? then
          Goto(s, g, if pc.kind.Watch? || pc.attempt == 0 then Resetting(pc.kind, pc.attempt, pc.used) else Done).(
            rejected := s.rejected + {pc.used})
        else Goto(s, g, Done)
      case Reset(g) =>
        var pc := s.pcs[g];
        var t := Goto(s, g, if pc.kind.Do? then Ensuring(Do, pc.attempt + 1) else Done);
        if s.token == pc.used then
          t.(token := "", cleared := if s.token != "" then s.cleared + [s.token] else s.cleared)
        else t
  }

  predicate Distinct(ts: seq<Token>) {
    forall i, j | 0 <= i < j < |ts| :: ts[i] != ts[j]
  }

  function Cached(s: System): seq<Token> {
    if s.token == "" then [] else [s.token]
  }

  /** Tokens are cleared in the order they were issued; only the last issued can still be cached. */
  predicate TokenInv(s: System) {
    && s.issued == s.cleared + Cached(s)
    && Distinct(s.issued) && "" !in s.issued
    && (forall t <- s.cleared :: t in s.rejected)
  }

  predicate CallerInv(s: System, g: Gid, pc: Pc) {
    && (pc.Authenticating? <==> s.lock == Some(g))
    && (pc.InFlight? || pc.Resetting? ==> pc.used == "" || pc.used in s.issued)
    && (pc.Resetting? ==> pc.used in s.rejected && (pc.kind.Do? ==> pc.attempt == 0))
    && (!pc.Done? ==>
          && g in s.sends && pc.attempt <= 1 && (pc.kind.Watch? ==> pc.attempt == 0)
          && s.sends[g] == pc.attempt + (if pc.InFlight? || pc.Resetting? then 1 else 0))
  }

  /** One authentication at a time, and only while no token is cached. */
  predicate CallersInv(s: System) {
    && (s.lock.Some? ==> s.token == "" && s.lock.value in s.pcs)
    && (forall g <- s.pcs :: CallerInv(s, g, s.pcs[g]))
    && (forall g <- s.sends :: s.sends[g] <= 2)
  }

  predicate Inv(s: System) {
    TokenInv(s) && CallersInv(s)
  }

  lemma TokenStep(s: System, step: Step)
    requires Inv(s)
    ensures TokenInv(Next(s, step))
  {
    if CanStep(s, step) && step.Reset? {
      assert CallerInv(s, step.g, s.pcs[step.g]);
    }
    if CanStep(s, step) && step.AuthOk? {
      assert CallerInv(s, step.g, s.pcs[step.g]);
      assert s.cleared + [] == s.cleared;
    }
  }

  lemma OtherCallers(s: System, step: Step, g: Gid)
    requires Inv(s) && CanStep(s, step) && g in s.pcs && g != step.g
    ensures CallerInv(Next(s, step), g, s.pcs[g])
  {
    assert CallerInv(s, g, s.pcs[g]);
    assert step.g in s.pcs ==> CallerInv(s, step.g, s.pcs[step.g]);
  }

  lemma MovingCaller(s: System, step: Step)
    requires Inv(s) && CanStep(s, step)
    ensures CallerInv(Next(s, step), step.g, Next(s, step).pcs[step.g])
    ensures forall g <- Next(s, step).sends :: Next(s, step).sends[g] <= 2
  {
    assert step.g in s.pcs ==> CallerInv(s, step.g, s.pcs[step.g]);
    assert s.token != "" ==> s.issued[|s.cleared|] == s.token;
  }

  lemma CallersStep(s: System, step: Step)
    requires Inv(s)
    ensures CallersInv(Next(s, step))
  {
    if CanStep(s, step) {
      var t := Next(s, step);
      MovingCaller(s, step);
      assert step.g in s.pcs ==> CallerInv(s, step.g, s.pcs[step.g]);
      forall g | g in t.pcs ensures CallerInv(t, g, t.pcs[g]) {
        if g != step.g {
          OtherCallers(s, step, g);
        }
      }
    }
  }

  /** Any number of steps of any callers, in any order. */
  ghost function Run(s: System, steps: seq<Step>): (t: System)
    requires Inv(s)
    ensures Inv(t)
    decreases |steps|
  {
    if steps == [] then s
    else
      TokenStep(s, steps[0]);
      CallersStep(s, steps[0]);
      Run(Next(s, steps[0]), steps[1..])
  }

  /**
   * In every run: authentications that succeeded are the effective resets plus one if a token is cached;
   * each token is cleared at most once, in the order of issue; and no more tokens are issued than one
   * beyond the number of distinct tokens a server has rejected, however many 401 replies there were.
   */
  lemma TokenAccounting(steps: seq<Step>)
    ensures var s := Run(START, steps);
            && |s.issued| == |s.cleared| + (if s.token != "" then 1 else 0)
            && Distinct(s.cleared)
            && |s.issued| <= |s.rejected - {""}| + 1
            && (forall g <- s.sends :: s.sends[g] <= 2)
  {
    var s := Run(START, steps);
    assert s.cleared == s.issued[..|s.cleared|];
    DistinctSize(s.cleared, s.rejected - {""});
  }

  lemma {:induction false} DistinctSize(ts: seq<Token>, all: set<Token>)
    requires Distinct(ts) && forall t <- ts :: t in all
    ensures |ts| <= |all|
  {
    if ts != [] {
      assert ts[0] in all;
      forall t | t in ts[1..] ensures t in all - {ts[0]} {
        assert t in ts;
      }
      DistinctSize(ts[1..], all - {ts[0]});
    }
  }

  /** A reset takes away the cached token only if that very token was used; one already cleared stays harmless. */
  lemma OldRejectionHarmless(steps: seq<Step>, g: Gid)
    requires var s := Run(START, steps); CanStep(s, Reset(g))
    ensures var s := Run(START, steps);
            && (Next(s, Reset(g)).token != s.token ==> s.pcs[g].used == s.token)
            && (s.pcs[g].used in s.cleared ==>
                Next(s, Reset(g)).token == s.token && Next(s, Reset(g)).cleared == s.cleared)
  {
    var s := Run(START, steps);
    assert forall i | 0 <= i < |s.cleared| :: s.cleared[i] == s.issued[i];
    assert s.token != "" ==> s.issued[|s.cleared|] == s.token;
  }

  // -------------------------------------------------------- after a rejection

  lemma RunStep(s: System, step: Step, rest: seq<Step>)
    requires Inv(s)
    ensures Inv(Next(s, step)) && Run(s, [step] + rest) == Run(Next(s, step), rest)
  {
    TokenStep(s, step);
    CallersStep(s, step);
    assert ([step] + rest)[0] == step && ([step] + rest)[1..] == rest;
  }

  /** A run of four steps. */
  lemma RunFour(s: System, a: Step, b: Step, c: Step, d: Step, rest: seq<Step>)
    requires Inv(s)
    ensures var t := Next(Next(Next(Next(s, a), b), c), d);
            Inv(t) && Run(s, [a, b, c, d] + rest) == Run(t, rest)
  {
    RunStep(s, a, [b, c, d] + rest);
    RunStep(Next(s, a), b, [c, d] + rest);
    RunStep(Next(Next(s, a), b), c, [d] + rest);
    RunStep(Next(Next(Next(s, a), b), c), d, rest);
    assert [a, b, c, d] + rest == [a] + ([b, c, d] + rest);
    assert [b, c, d] + rest == [b] + ([c, d] + rest);
    assert [c, d] + rest == [c] + ([d] + rest);
  }

  /** A caller whose first request with the cached token is rejected, and what it does to the system. */
  lemma FirstRejected(s: System, g: Gid)
    requires g in s.pcs && s.pcs[g].InFlight? && s.pcs[g].kind.Do? && s.pcs[g].attempt == 0 && s.lock.None?
    ensures var used := s.pcs[g].used;
            Next(Next(s, Receive(g, Unauthorized)), Reset(g)) ==
            s.(pcs := s.pcs[g := Ensuring(Do, 1)], rejected := s.rejected + {used},
               token := if s.token == used then "" else s.token,
               cleared := if s.token == used && used != "" then s.cleared + [used] else s.cleared)
  {
    var used := s.pcs[g].used;
    assert s.pcs[g := Resetting(Do, 0, used)][g := Ensuring(Do, 1)] == s.pcs[g := Ensuring(Do, 1)];
  }

  lemma Authenticated(s: System, g: Gid, newer: Token)
    requires g in s.pcs && s.pcs[g] == Ensuring(Do, 1) && s.lock.None? && s.token == ""
    requires newer != "" && newer !in s.issued
    ensures Next(Next(s, Ensure(g)), AuthOk(g, newer)) ==
            s.(pcs := s.pcs[g := Sending(Do, 1)], token := newer, issued := s.issued + [newer])
  {
    assert s.pcs[g := Authenticating(Do, 1)][g := Sending(Do, 1)] == s.pcs[g := Sending(Do, 1)];
  }

  /**
   * When the cached token itself is rejected, it is cleared, the caller authenticates, and its second request
   * carries the new token.
   */
  lemma RejectedIsReplaced(s: System, g: Gid, newer: Token)
    requires Inv(s) && g in s.pcs && s.pcs[g] == InFlight(Do, 0, s.token) && s.token != ""
    requires newer != "" && newer !in s.issued
    ensures var t := Run(s, [Receive(g, Unauthorized), Reset(g), Ensure(g), AuthOk(g, newer)] + [Send(g)]);
            && t.token == newer && t.pcs[g := Done] == s.pcs[g := Done]
            && g in t.pcs && t.pcs[g] == InFlight(Do, 1, newer)
            && t.cleared == s.cleared + [s.token] && t.issued == s.issued + [newer]
  {
    var a, b := Receive(g, Unauthorized), Reset(g);
    FirstRejected(s, g);
    Authenticated(Next(Next(s, a), b), g, newer);
    RunFour(s, a, b, Ensure(g), AuthOk(g, newer), [Send(g)]);
    RunStep(Next(Next(Next(Next(s, a), b), Ensure(g)), AuthOk(g, newer)), Send(g), []);
    assert [Send(g)] + [] == [Send(g)];
  }

  /** When another caller has replaced the rejected token already, the new one is used without authenticating. */
  lemma ReplacementIsUsed(s: System, g: Gid)
    requires Inv(s) && g in s.pcs && s.pcs[g].InFlight? && s.pcs[g].kind.Do? && s.pcs[g].attempt == 0
    requires s.token != "" && s.pcs[g].used != s.token
    ensures var t := Run(s, [Receive(g, Unauthorized), Reset(g), Ensure(g), Send(g)] + []);
            && t.token == s.token && t.pcs[g := Done] == s.pcs[g := Done]
            && g in t.pcs && t.pcs[g] == InFlight(Do, 1, s.token)
            && t.cleared == s.cleared && t.issued == s.issued
  {
    FirstRejected(s, g);
    RunFour(s, Receive(g, Unauthorized), Reset(g), Ensure(g), Send(g), []);
  }

  /** A second rejection ends the call, and the token stays cached for others to find out. */
  lemma SecondRejectionEnds(s: System, g: Gid)
    requires Inv(s) && g in s.pcs && s.pcs[g].InFlight? && s.pcs[g].kind.Do? && s.pcs[g].attempt != 0
    ensures var t := Next(s, Receive(g, Unauthorized));
            t.pcs == s.pcs[g := Done] && t.token == s.token && t.cleared == s.cleared
  {
  }
}
