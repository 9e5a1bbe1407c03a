/** The etcd client's own methods: token cache, request retry and endpoint rotation. */
module EtcdClient {
  import opened Machine
  import opened Sequences

  const UNAUTHORIZED := 401
  const DEFAULT_ENDPOINT := "http://localhost:2379"

  /** What one HTTP exchange gives: an error of the transport, or a status and a body. */
  datatype Reply = TransportError | Status(code: int, body: string)

  datatype Error = AuthFailed | RequestFailed | BadStatus(code: int) | Exhausted
  datatype Result = Ok(body: string) | Err(error: Error)

  /** Which of `n` endpoints the `k`-th pick gives; the counter is 64 bits wide. */
  function Slot(n: nat, k: nat): (i: nat)
    requires n > 0
    ensures i < n
  {
    k % TWO64 % n
  }

  function Pick(endpoints: seq<string>, k: nat): string {
    if endpoints == [] then DEFAULT_ENDPOINT else endpoints[Slot(|endpoints|, k)]
  }

  predicate Is401(reply: Reply) {
    reply.Status? && reply.code == 401
  }

  class Client {
    const endpoints: seq<string>
    const username: string
    var robin: nat
    var token: string
    /** How often an endpoint has been picked. */
    ghost var picks: nat

    constructor (endpoints: seq<string>, username: string)
      ensures this.endpoints == endpoints && this.username == username && token == "" && picks == 0 && Valid()
    {
      this.endpoints, this.username := endpoints, username;
      robin, token, picks := 0, "", 0;
    }

    /** The counter is 64 bits wide, and is not used without endpoints. */
    ghost predicate Valid()
      reads this
    {
      endpoints != [] ==> robin == picks % TWO64
    }

    /** `auth` is what the server answers if it is asked; `None` is a failure of any kind. */
    method EnsureToken(auth: Option<string>) returns (ok: bool)
      requires Valid()
      modifies this
      ensures Valid()
      ensures username == "" || old(token) != "" ==> ok && token == old(token) && picks == old(picks)
      ensures username != "" && old(token) == "" ==>
                && ok == auth.Some? && token == (if auth.Some? then auth.value else "")
                && picks == old(picks) + 1
    {
      if username == "" {
        return true;
      }
      if token != "" {
        return true;
      }
      var url := Endpoint();
      if auth.None? {
        return false;
      }
      token := auth.value;
      return true;
    }

    method ResetToken(used: string)
      modifies this`token
      ensures token == if old(token) == used then "" else old(token)
    {
      if token == used {
        token := "";
      }
    }

    method Endpoint() returns (e: string)
      requires Valid()
      modifies this`robin, this`picks
      ensures Valid() && picks == old(picks) + 1
      ensures e == if endpoints == [] then "http://localhost:2379" else Pick(endpoints, picks)
    {
      NextCount(picks);
      picks := picks + 1;
      if |endpoints| == 0 {
        return DEFAULT_ENDPOINT;
      }
      robin := (robin + 1) % TWO64;
      var idx := robin % |endpoints|;
      return endpoints[idx];
    }

    /**
     * One call without other callers in between. `auth` and `reply` are the server's answers by attempt;
     * `sent` lists the token used by each request that was made.
     */
    method Do(auth: nat -> Option<string>, reply: nat -> Reply) returns (r: Result, sent: seq<string>)
      requires Valid()
      modifies this
      ensures Valid()
      // without a token nothing is sent; a cached one is used, whatever its age
      ensures sent == [] <==> username != "" && old(token) == "" && auth(0).None?
      ensures sent != [] ==> sent[0] == if username == "" || old(token) != "" then old(token) else auth(0).value
      // a first 401 with a user name is answered by a new authentication and one more request, and nothing else is
      ensures |sent| <= 2
      ensures |sent| == 2 <==> sent != [] && username != "" && Is401(reply(0)) && auth(1).Some?
      ensures |sent| == 2 ==> sent[1] == auth(1).value
      // the result is the last request's, unless an authentication failed; the line after the loop is not reached
      ensures r == Err(AuthFailed) <==>
                sent == [] || (|sent| == 1 && username != "" && Is401(reply(0)) && auth(1).None?)
      ensures sent != [] && r != Err(AuthFailed) ==>
                match reply(|sent| - 1)
                case TransportError => r == Err(RequestFailed)
                case Status(code, body) => r == if code >= 300 then Err(BadStatus(code)) else Ok(body)
      // a rejected token is forgotten; what stays cached is the last one that was sent
      ensures token == if sent == [] || r == Err(AuthFailed) then "" else sent[|sent| - 1]
      // every authentication and every request goes to the next endpoint
      ensures picks == old(picks) + |sent| + (if username != "" && old(token) == "" then 1 else 0)
                                    + if sent != [] && username != "" && Is401(reply(0)) then 1 else 0
    {
      sent := [];
      for attempt := 0 to 2
        invariant |sent| == attempt < 2
        invariant Valid()
        invariant attempt == 0 ==> token == old(token) && picks == old(picks)
        invariant attempt == 1 ==>
                    && username != "" && token == "" && Is401(reply(0))
                    && (if old(token) == "" then auth(0).Some? && sent[0] == auth(0).value else sent[0] == old(token))
                    && picks == old(picks) + if old(token) == "" then 2 else 1
      {
        var ok := EnsureToken(auth(attempt));
        if !ok {
          return Err(AuthFailed), sent;
        }
        var url := Endpoint();
        var used := token;
        sent := sent + [used];
        var resp := reply(attempt);
        if resp.TransportError? {
          return Err(RequestFailed), sent;
        }
        if resp.code == UNAUTHORIZED && attempt == 0 && username != "" {
          ResetToken(used);
          continue;
        }
        if resp.code >= 300 {
          return Err(BadStatus(resp.code)), sent;
        }
        return Ok(resp.body), sent;
      }
      return Err(Exhausted), sent;
    }
  }

  lemma SlotIs(n: nat, k: nat)
    requires n > 0 && k < TWO64
    ensures Slot(n, k) == k % n
  {
    RemainderIs(TWO64, 0, k);
  }

  /** The first call in a round of `n` that reaches endpoint `x`. */
  function Turn(n: nat, robin: nat, x: nat): (i: nat)
    requires x < n
    ensures 1 <= i <= n
  {
    var c := (robin + 1) % n;
    if c <= x then x - c + 1 else x - c + n + 1
  }

  lemma TurnIs(n: nat, robin: nat, x: nat)
    requires x < n
    ensures (robin + Turn(n, robin, x)) % n == x
  {
    var q, c := (robin + 1) / n, (robin + 1) % n;
    assert robin + 1 == n * q + c;
    if c <= x {
      RemainderIs(n, q, x);
    } else {
      assert n * (q + 1) == n * q + n;
      RemainderIs(n, q + 1, x);
    }
  }

  /** Until the counter wraps, of any |endpoints| picks in a row exactly one gives endpoint `x`. */
  lemma RoundRobin(endpoints: seq<string>, robin: nat, x: nat, j: nat)
    requires x < |endpoints| && robin + |endpoints| < TWO64 && 1 <= j <= |endpoints|
    ensures Slot(|endpoints|, robin + j) == x <==> j == Turn(|endpoints|, robin, x)
    ensures Pick(endpoints, robin + Turn(|endpoints|, robin, x)) == endpoints[x]
  {
    var n := |endpoints|;
    var i := Turn(n, robin, x);
    TurnIs(n, robin, x);
    SlotIs(n, robin + i);
    SlotIs(n, robin + j);
    if (robin + j) % n == x {
      SameRemainder(n, robin + i, robin + j);
    }
  }

  lemma SameRemainder(n: nat, a: nat, b: nat)
    requires n > 0 && a < b + n && b < a + n && a % n == b % n
    ensures a == b
  {
    var x, y := a / n, b / n;
    assert a == n * x + a % n && b == n * y + b % n;
    assert n * (x - y) == n * x - n * y;
    if x > y {
      SmallMultiple(n, x - y);
    } else if x < y {
      SmallMultiple(n, y - x);
    }
  }

  lemma SmallMultiple(n: nat, q: int)
    requires q > 0
    ensures n * q >= n
  {
  }

  /** Across the wrap of the counter the rotation goes on exactly when the number of endpoints divides 2^64. */
  lemma WrapKeepsRotation(n: nat)
    requires 0 < n < TWO64
    ensures Slot(n, TWO64) == (Slot(n, TWO64 - 1) + 1) % n <==> TWO64 % n == 0
  {
    var q, r := (TWO64 - 1) / n, (TWO64 - 1) % n;
    assert TWO64 - 1 == n * q + r;
    if r == n - 1 {
      assert TWO64 == n * (q + 1);
      MultipleMod(n, q + 1);
    } else {
      assert TWO64 == n * q + (r + 1);
      RemainderIs(n, q, r + 1);
      RemainderIs(n, 0, r + 1);
    }
    RemainderIs(n, 0, 0);
    if r == n - 1 {
      MultipleMod(n, 1);
    }
  }

  /** With three endpoints the first is used twice in a row when the counter wraps. */
  lemma WrapRepeatsEndpoint(a: string, b: string, c: string)
    ensures var last := 0xFFFF_FFFF_FFFF_FFFF; Pick([a, b, c], last) == a == Pick([a, b, c], last + 1)
  {
    assert (TWO64 - 1) % TWO64 % 3 == 0 && TWO64 % TWO64 == 0;
  }

  lemma NextCount(k: nat)
    ensures (k % TWO64 + 1) % TWO64 == (k + 1) % TWO64
  {
    var q, r := k / TWO64, k % TWO64;
    assert k == TWO64 * q + r;
    if r + 1 < TWO64 {
      RemainderIs(TWO64, q, r + 1);
      RemainderIs(TWO64, 0, r + 1);
    } else {
      assert k + 1 == TWO64 * (q + 1);
      MultipleMod(TWO64, q + 1);
      MultipleMod(TWO64, 1);
    }
  }

  lemma MultipleMod(n: nat, q: nat)
    requires n > 0
    ensures (n * q) % n == 0
  {
    RemainderIs(n, q, 0);
  }

  lemma RemainderIs(n: nat, q: nat, r: nat)
    requires r < n
    ensures (n * q + r) % n == r
  {
    var x := n * q + r;
    var d := x / n - q;
    assert x == n * (x / n) + x % n;
    assert n * d == n * (x / n) - n * q;
    assert n * d == r - x % n;
    if d > 0 {
      SmallMultiple(n, d);
    } else if d < 0 {
      SmallMultiple(n, -d);
    }
  }
}
