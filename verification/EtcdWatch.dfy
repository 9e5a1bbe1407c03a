/** The watch of etcd/watch.go: one connection, and the loop that reconnects. */
module EtcdWatch {
  import opened Sequences
  import EtcdClient

  // ---------------------------------------------------------- one connection

  /** An event as the server sends it: a PUT carries its base64 value, decoded here, or `None` if it is malformed. */
  datatype RawEvent = Put(value: Option<string>) | Plain(kind: string)

  datatype WatchEvent = WatchEvent(kind: string, value: string)

  /** A line of the stream: empty, not JSON, a server error, or events. */
  datatype Message = Blank | Malformed | ServerError(text: string) | Events(events: seq<RawEvent>)

  datatype Response = TransportError | Status(code: int)

  /** How the attempt ended; `Cancelled` is Go's nil error. */
  datatype WatchErr = Cancelled | AuthExpired | Other

  function Decodable(e: RawEvent): seq<WatchEvent> {
    match e
    case Put(Some(v)) => [WatchEvent("PUT", v)]
    case Put(None) => []
    case Plain(kind) => [WatchEvent(kind, "")]
  }

  /** The well-formed events of a message. */
  function MessageEvents(m: Message): seq<WatchEvent> {
    if m.Events? then FlatMap(Decodable, m.events) else []
  }

  /** What is offered to the channel of errors, which takes it if it has room. */
  datatype Notice = FromServer(text: string) | Undecodable

  function EventNotices(e: RawEvent): seq<Notice> {
    if e == Put(None) then [Undecodable] else []
  }

  /** The server's error, or one notice for each malformed event. */
  function MessageNotices(m: Message): seq<Notice> {
    match m
    case ServerError(text) => [FromServer(text)]
    case Events(events) => FlatMap(EventNotices, events)
    case _ => []
  }

  /** The server has accepted the watch. */
  predicate Streams(tokenOk: bool, requestOk: bool, response: Response) {
    tokenOk && requestOk && response.Status? && response.code < 300
  }

  /**
   * The loop over the lines of an accepted watch. `cancelAtLine` and `cancelAtSend` say when the context turns
   * out cancelled: before the i-th line is handled, or while the i-th event waits for the receiver.
   */
  method ReadStream(stream: seq<Message>, cancelAtLine: nat -> bool, cancelAtSend: nat -> bool)
    returns (cancelled: bool, connected: bool, events: seq<WatchEvent>, notices: seq<Notice>)
    ensures events <= FlatMap(MessageEvents, stream) && notices <= FlatMap(MessageNotices, stream)
    ensures !cancelled ==>
              && events == FlatMap(MessageEvents, stream) && notices == FlatMap(MessageNotices, stream)
              && (connected <==> events != [])
    ensures events != [] ==> connected
    ensures cancelled <==>
              || (exists i: nat :: i < |stream| && cancelAtLine(i))
              || (exists j: nat :: j < |FlatMap(MessageEvents, stream)| && cancelAtSend(j))
  {
    connected, events, notices := false, [], [];
    for i := 0 to |stream|
      invariant events == FlatMap(MessageEvents, stream[..i])
      invariant notices == FlatMap(MessageNotices, stream[..i])
      invariant connected <==> events != []
      invariant forall j: nat | j < i :: !cancelAtLine(j)
      invariant forall j: nat | j < |events| :: !cancelAtSend(j)
    {
      Split(MessageEvents, stream, i);
      Prefix(MessageEvents, stream, i);
      Split(MessageNotices, stream, i);
      Prefix(MessageNotices, stream, i);
      if cancelAtLine(i) {
        return true, connected, events, notices;
      }
      var msg := stream[i];
      if msg.ServerError? {
        notices := notices + [FromServer(msg.text)];
        continue;
      }
      if !msg.Events? {
        continue;
      }
      var sent, noted, touched, cut := SendEvents(msg.events, cancelAtSend, |events|);
      PrefixChain(MessageEvents, events, sent, stream, i);
      PrefixChain(MessageNotices, notices, noted, stream, i);
      FallsShort(events, sent, stream, i);
      events, notices, connected := events + sent, notices + noted, connected || touched;
      if cut {
        return true, connected, events, notices;
      }
    }
    assert stream[..|stream|] == stream;
    cancelled := false;
  }

  /**
   * `watchOnce`. `stream` is the lines before the stream ends or the scanner stops. `streamError` is the
   * scanner's error, `cancelAtEnd` whether the context was cancelled when a transport error or it came.
   */
  method WatchOnce(username: string, tokenOk: bool, requestOk: bool, response: Response, stream: seq<Message>,
                   streamError: bool, cancelAtLine: nat -> bool, cancelAtSend: nat -> bool, cancelAtEnd: bool)
    returns (err: WatchErr, connected: bool, events: seq<WatchEvent>, notices: seq<Notice>, resetToken: bool)
    // the return contract the reconnect loop relies on
    ensures err.AuthExpired? ==> !connected && events == []
    ensures err.AuthExpired? <==> tokenOk && requestOk && response == Status(401) && username != ""
    ensures resetToken <==> err.AuthExpired?
    // without a stream nothing is delivered; with one, the end is regular exactly when the context was cancelled
    ensures !Streams(tokenOk, requestOk, response) ==>
              && !connected && events == [] && notices == []
              && (err.Cancelled? <==> tokenOk && requestOk && response.TransportError? && cancelAtEnd)
    ensures Streams(tokenOk, requestOk, response) ==>
              (err.Cancelled? <==>
                || (exists i: nat :: i < |stream| && cancelAtLine(i))
                || (exists j: nat :: j < |FlatMap(MessageEvents, stream)| && cancelAtSend(j))
                || (streamError && cancelAtEnd))
    // what was delivered: the stream's well-formed events in order, all of them unless cancelled
    ensures events <= FlatMap(MessageEvents, stream)
    ensures !err.Cancelled? && Streams(tokenOk, requestOk, response) ==>
              events == FlatMap(MessageEvents, stream) && (connected <==> events != [])
    ensures events != [] ==> connected
    // and what was offered to the channel of errors, likewise
    ensures notices <= FlatMap(MessageNotices, stream)
    ensures !err.Cancelled? && Streams(tokenOk, requestOk, response) ==>
              notices == FlatMap(MessageNotices, stream)
  {
    connected, events, notices, resetToken := false, [], [], false;
    if !tokenOk || !requestOk {
      return Other, connected, events, notices, resetToken;
    }
    if response.TransportError? {
      return if cancelAtEnd then Cancelled else Other, connected, events, notices, resetToken;
    }
    if response.code == EtcdClient.UNAUTHORIZED && username != "" {
      return AuthExpired, connected, events, notices, true;
    }
    if response.code >= 300 {
      return Other, connected, events, notices, resetToken;
    }
    var cancelled;
    cancelled, connected, events, notices := ReadStream(stream, cancelAtLine, cancelAtSend);
    if cancelled || (streamError && cancelAtEnd) {
      return Cancelled, connected, events, notices, resetToken;
    }
    return Other, connected, events, notices, resetToken;
  }

  /** The event a server must have sent for a delivered one. */
  function Undelivered(e: WatchEvent): seq<RawEvent> {
    [if e.kind == "PUT" then Put(Some(e.value)) else Plain(e.kind)]
  }

  lemma EventRecovered(e: RawEvent)
    requires e != Put(None) && e != Plain("PUT")
    ensures FlatMap(Undelivered, Decodable(e)) == [e] && EventNotices(e) == []
  {
    FlatMapOne(Undelivered, Decodable(e)[0]);
  }

  /** Nothing of a well-formed event is lost on the way: those that were sent can be told from those delivered. */
  lemma {:induction false} EventsRecovered(es: seq<RawEvent>)
    requires forall e <- es :: e != Put(None) && e != Plain("PUT")
    ensures FlatMap(Undelivered, FlatMap(Decodable, es)) == es
    ensures FlatMap(EventNotices, es) == []
  {
    if es != [] {
      var e, rest := es[0], es[1..];
      assert e in es && es == [e] + rest && forall x <- rest :: x in es;
      EventsRecovered(rest);
      EventRecovered(e);
      FlatMapAppend(Undelivered, Decodable(e), FlatMap(Decodable, rest));
    }
  }

  lemma Split<A, B>(g: A -> seq<B>, s: seq<A>, i: nat)
    requires i < |s|
    ensures FlatMap(g, s[..i + 1]) == FlatMap(g, s[..i]) + g(s[i])
  {
    var head := s[..i];
    assert s[..i + 1] == head + [s[i]];
    FlatMapAppend(g, head, [s[i]]);
    FlatMapOne(g, s[i]);
  }

  lemma Prefix<A, B>(g: A -> seq<B>, s: seq<A>, i: nat)
    requires i <= |s|
    ensures FlatMap(g, s[..i]) <= FlatMap(g, s)
  {
    var head, tail := s[..i], s[i..];
    assert s == head + tail;
    FlatMapAppend(g, head, tail);
  }

  lemma PrefixChain<T>(all: Message -> seq<T>, before: seq<T>, got: seq<T>, stream: seq<Message>, i: nat)
    requires i < |stream| && before == FlatMap(all, stream[..i])
    ensures got <= all(stream[i]) ==> before + got <= FlatMap(all, stream)
  {
    Split(all, stream, i);
    Prefix(all, stream, i + 1);
  }

  lemma FallsShort(events: seq<WatchEvent>, sent: seq<WatchEvent>, stream: seq<Message>, i: nat)
    requires i < |stream| && events == FlatMap(MessageEvents, stream[..i])
    ensures |sent| < |MessageEvents(stream[i])| ==> |events| + |sent| < |FlatMap(MessageEvents, stream)|
  {
    Split(MessageEvents, stream, i);
    Prefix(MessageEvents, stream, i + 1);
  }

  /** The loop over the events of one message; `already` events have been sent before. */
  method SendEvents(es: seq<RawEvent>, cancelAtSend: nat -> bool, already: nat)
    returns (sent: seq<WatchEvent>, noted: seq<Notice>, touched: bool, cancelled: bool)
    ensures sent <= FlatMap(Decodable, es) && noted <= FlatMap(EventNotices, es)
    ensures !cancelled ==> sent == FlatMap(Decodable, es) && noted == FlatMap(EventNotices, es)
    ensures !cancelled ==> (touched <==> sent != [])
    ensures cancelled ==> touched && |sent| < |FlatMap(Decodable, es)| && cancelAtSend(already + |sent|)
    ensures forall j: nat | already <= j < already + |sent| :: !cancelAtSend(j)
    ensures sent != [] ==> touched
  {
    sent, noted, touched := [], [], false;
    for j := 0 to |es|
      invariant sent == FlatMap(Decodable, es[..j]) && noted == FlatMap(EventNotices, es[..j])
      invariant touched <==> sent != []
      invariant forall k: nat | already <= k < already + |sent| :: !cancelAtSend(k)
    {
      Split(Decodable, es, j);
      Prefix(Decodable, es, j + 1);
      Split(EventNotices, es, j);
      var ev := es[j];
      if ev.Put? && ev.value.None? {
        noted := noted + [Undecodable];
        continue;
      }
      var out := if ev.Put? then WatchEvent("PUT", ev.value.value) else WatchEvent(ev.kind, "");
      touched := true;
      if cancelAtSend(already + |sent|) {
        Prefix(Decodable, es, j);
        Prefix(EventNotices, es, j);
        return sent, noted, touched, true;
      }
      sent := sent + [out];
    }
    assert es[..|es|] == es;
    return sent, noted, touched, false;
  }

  // ------------------------------------------------------- the reconnect loop

  /** Seconds. */
  const INIT_BACKOFF: nat := 1
  const MAX_BACKOFF: nat := 30

  datatype Outcome = Outcome(err: WatchErr, connected: bool)

  /** What `watchOnce` guarantees about its results. */
  predicate Contract(o: Outcome) {
    o.err.AuthExpired? ==> !o.connected
  }

  /** What lies between one attempt and the next. */
  datatype Pause = Immediate | Wait(seconds: nat)

  function Pow2(n: nat): nat {
    if n == 0 then 1 else 2 * Pow2(n - 1)
  }

  /** The j-th wait since the start or the last connected attempt. */
  function Backoff(j: nat): nat {
    if Pow2(j) < MAX_BACKOFF then Pow2(j) else MAX_BACKOFF
  }

  function Waits(pauses: seq<Pause>): nat {
    if pauses == [] then 0 else Waits(pauses[..|pauses| - 1]) + (if pauses[|pauses| - 1].Wait? then 1 else 0)
  }

  /** The waits before attempt `k`'s pause, since the start or the last connected attempt. */
  function WaitsSince(outcomes: seq<Outcome>, pauses: seq<Pause>, k: nat): nat
    requires k < |outcomes| && k <= |pauses|
  {
    if outcomes[k].connected || k == 0 then 0
    else WaitsSince(outcomes, pauses, k - 1) + (if pauses[k - 1].Wait? then 1 else 0)
  }

  /** The first rejection of a row of rejected attempts. */
  predicate FirstRejection(outcomes: seq<Outcome>, k: nat)
    requires k < |outcomes|
  {
    outcomes[k].err.AuthExpired? && (k == 0 || !outcomes[k - 1].err.AuthExpired?)
  }

  /** After attempt `k`: at once if its token was the first to be rejected in a row, else a backoff wait. */
  predicate RightPause(outcomes: seq<Outcome>, pauses: seq<Pause>, k: nat)
    requires k < |outcomes| && k < |pauses|
  {
    pauses[k] == if FirstRejection(outcomes, k) then Immediate else Wait(Backoff(WaitsSince(outcomes, pauses, k)))
  }

  lemma BackoffDoubles(j: nat)
    ensures Backoff(0) == 1 <= Backoff(j) <= 30
    ensures Backoff(j + 1) == if Backoff(j) * 2 > 30 then 30 else Backoff(j) * 2
  {
    Pow2Positive(j);
    assert Pow2(0) == 1;
  }

  lemma {:induction false} Pow2Positive(j: nat)
    ensures Pow2(j) >= 1
  {
    if j > 0 {
      Pow2Positive(j - 1);
    }
  }

  lemma {:induction false} WaitsSincePrefix(outcomes: seq<Outcome>, pauses: seq<Pause>, p: Pause, k: nat)
    requires k < |outcomes| && k <= |pauses|
    ensures WaitsSince(outcomes, pauses + [p], k) == WaitsSince(outcomes, pauses, k)
  {
    if k > 0 {
      WaitsSincePrefix(outcomes, pauses, p, k - 1);
    }
  }

  /**
   * The loop of Watch over the outcomes its attempts will have, until they are used up or the context
   * is cancelled: `cancelAt` before an attempt, `cancelIn` during a wait. `pauses` lists what followed
   * each attempt that led to another.
   */
  method Reconnect(outcomes: seq<Outcome>, cancelAt: nat -> bool, cancelIn: nat -> bool) returns (pauses: seq<Pause>)
    requires forall o <- outcomes :: Contract(o)
    ensures |pauses| <= |outcomes|
    ensures forall k | 0 <= k < |pauses| :: RightPause(outcomes, pauses, k)
    ensures forall k | 0 <= k < |pauses| :: !outcomes[k].err.Cancelled?
    // a cancelled context stops it before an attempt and in a wait
    ensures forall k | 0 <= k < |pauses| :: !cancelAt(k) && (pauses[k].Wait? ==> !cancelIn(k))
    // it only ends by cancellation
    ensures var n := |pauses|;
            n < |outcomes| ==>
              || cancelAt(n) || outcomes[n].err.Cancelled?
              || (cancelIn(n) && !FirstRejection(outcomes, n))
  {
    pauses := [];
    var backoff := INIT_BACKOFF;
    var authImmediateRetryUsed := false;
    for k := 0 to |outcomes|
      invariant |pauses| == k
      invariant forall i | 0 <= i < k :: RightPause(outcomes, pauses, i)
      invariant forall i | 0 <= i < k :: !outcomes[i].err.Cancelled? && !cancelAt(i)
      invariant forall i | 0 <= i < k && pauses[i].Wait? :: !cancelIn(i)
      invariant authImmediateRetryUsed <==> k > 0 && outcomes[k - 1].err.AuthExpired?
      invariant backoff == if k == 0 then INIT_BACKOFF
                           else Backoff(WaitsSince(outcomes, pauses, k - 1) + (if pauses[k - 1].Wait? then 1 else 0))
    {
      if cancelAt(k) {
        return;
      }
      var o := outcomes[k];
      assert Contract(o);
      if o.err.Cancelled? {
        return;
      }
      if o.connected {
        backoff := INIT_BACKOFF;
      }
      if o.connected || !o.err.AuthExpired? {
        authImmediateRetryUsed := false;
      }
      var pause;
      if o.err.AuthExpired? && !authImmediateRetryUsed {
        authImmediateRetryUsed := true;
        pause := Immediate;
      } else {
        if cancelIn(k) {
          return;
        }
        pause := Wait(backoff);
        BackoffDoubles(WaitsSince(outcomes, pauses, k));
        if backoff < MAX_BACKOFF {
          backoff := backoff * 2;
          if backoff > MAX_BACKOFF {
            backoff := MAX_BACKOFF;
          }
        }
      }
      forall i | 0 <= i < k ensures RightPause(outcomes, pauses + [pause], i) {
        assert RightPause(outcomes, pauses, i);
        WaitsSincePrefix(outcomes, pauses, pause, i);
      }
      WaitsSincePrefix(outcomes, pauses, pause, k);
      pauses := pauses + [pause];
    }
  }

  // ------------------------------------------------------------ whole runs

  /** The pauses of a run of `Reconnect`. */
  ghost predicate IsRun(outcomes: seq<Outcome>, pauses: seq<Pause>) {
    && |pauses| <= |outcomes|
    && forall k | 0 <= k < |pauses| :: RightPause(outcomes, pauses, k)
  }

  /** A reconnect is immediate exactly after a rejection that does not follow another one. */
  lemma AtOnce(outcomes: seq<Outcome>, pauses: seq<Pause>, k: nat)
    requires IsRun(outcomes, pauses) && k < |pauses|
    ensures pauses[k].Immediate? <==>
            outcomes[k].err.AuthExpired? && (k == 0 || !outcomes[k - 1].err.AuthExpired?)
    ensures FirstRejection(outcomes, k) <==> pauses[k].Immediate?
    ensures (k == 0 || outcomes[k].connected) && pauses[k].Wait? ==> pauses[k].seconds == 1
  {
    assert RightPause(outcomes, pauses, k) && Pow2(0) == 1;
  }

  /** From one wait to the next: a second after a connected attempt, else twice as long, up to half a minute. */
  lemma NextWait(outcomes: seq<Outcome>, pauses: seq<Pause>, k: nat)
    requires IsRun(outcomes, pauses) && 0 < k < |pauses| && pauses[k - 1].Wait? && pauses[k].Wait?
    ensures var last := pauses[k - 1].seconds;
            pauses[k].seconds == if outcomes[k].connected then 1 else if last * 2 > 30 then 30 else last * 2
  {
    assert RightPause(outcomes, pauses, k - 1) && RightPause(outcomes, pauses, k);
    BackoffDoubles(WaitsSince(outcomes, pauses, k - 1));
  }

  /** Between two immediate reconnects there is always a wait. */
  lemma ImmediatesApart(outcomes: seq<Outcome>, pauses: seq<Pause>, i: nat, j: nat)
    requires IsRun(outcomes, pauses) && i < j < |pauses| && pauses[i].Immediate? && pauses[j].Immediate?
    ensures exists m | i < m < j :: pauses[m].Wait?
  {
    assert RightPause(outcomes, pauses, i) && RightPause(outcomes, pauses, i + 1);
    assert pauses[i + 1].Wait?;
  }

  /** So the attempts started are at most twice the waits plus two. */
  lemma {:induction false} AttemptsBounded(outcomes: seq<Outcome>, pauses: seq<Pause>)
    requires IsRun(outcomes, pauses)
    ensures |pauses| + 1 <= 2 * Waits(pauses) + 2
    decreases |pauses|
  {
    if |pauses| >= 2 {
      var n := |pauses|;
      var p := pauses[..n - 2];
      assert pauses[..n - 1][..n - 2] == p;
      assert RightPause(outcomes, pauses, n - 1) && RightPause(outcomes, pauses, n - 2);
      RunPrefix(outcomes, pauses, n - 2);
      AttemptsBounded(outcomes, p);
    } else if |pauses| == 1 {
      assert Waits(pauses[..0]) == 0;
    }
  }

  lemma RunPrefix(outcomes: seq<Outcome>, pauses: seq<Pause>, n: nat)
    requires IsRun(outcomes, pauses) && n <= |pauses|
    ensures IsRun(outcomes, pauses[..n])
  {
    forall k | 0 <= k < n ensures RightPause(outcomes, pauses[..n], k) {
      assert RightPause(outcomes, pauses, k);
      WaitsSinceSame(outcomes, pauses, n, k);
    }
  }

  lemma {:induction false} WaitsSinceSame(outcomes: seq<Outcome>, pauses: seq<Pause>, n: nat, k: nat)
    requires k < |outcomes| && k <= n <= |pauses|
    ensures WaitsSince(outcomes, pauses[..n], k) == WaitsSince(outcomes, pauses, k)
  {
    if k > 0 {
      WaitsSinceSame(outcomes, pauses, n, k - 1);
    }
  }

  function TotalDelay(pauses: seq<Pause>): nat {
    if pauses == [] then 0
    else
      var last := pauses[|pauses| - 1];
      TotalDelay(pauses[..|pauses| - 1]) + (if last.Wait? then last.seconds else 0)
  }

  /** The sum of the first `w` waits, in closed form. */
  function BackoffSum(w: nat): nat {
    Pow2Positive(w);
    if w <= 5 then Pow2(w) - 1 else 31 + 30 * (w - 5)
  }

  lemma BackoffSumStep(w: nat)
    ensures BackoffSum(w + 1) == BackoffSum(w) + Backoff(w)
  {
    assert Pow2(5) == 32 && Pow2(4) == 16 && Pow2(3) == 8 && Pow2(2) == 4 && Pow2(1) == 2;
    if w >= 5 {
      Pow2Grows(5, w);
    }
  }

  lemma {:induction false} Pow2Grows(a: nat, b: nat)
    requires a <= b
    ensures Pow2(a) <= Pow2(b)
    decreases b - a
  {
    Pow2Positive(a);
    if a < b {
      Pow2Grows(a, b - 1);
      Pow2Positive(b - 1);
    }
  }

  /** The stretch going on after an attempt that was `connected` or not. */
  function Current(stretches: seq<nat>, connected: bool): nat
    requires stretches != []
  {
    if connected then 0 else stretches[|stretches| - 1]
  }

  /** One attempt and its pause: a connected attempt starts a stretch, and a wait is one more in the current one. */
  function Extend(stretches: seq<nat>, connected: bool, wait: bool): (r: seq<nat>)
    requires stretches != []
    ensures r != [] && r[|r| - 1] == Current(stretches, connected) + if wait then 1 else 0
  {
    var now := Current(stretches, connected) + if wait then 1 else 0;
    (if connected then stretches else stretches[..|stretches| - 1]) + [now]
  }

  /**
   * The waits of a run, counted apart for the stretches between connected attempts; the last stretch is still
   * going on.
   */
  function Stretches(outcomes: seq<Outcome>, pauses: seq<Pause>): (r: seq<nat>)
    requires |pauses| <= |outcomes|
    ensures r != []
    decreases |pauses|
  {
    if pauses == [] then [0]
    else
      var n := |pauses| - 1;
      Extend(Stretches(outcomes, pauses[..n]), outcomes[n].connected, pauses[n].Wait?)
  }

  function Total(stretches: seq<nat>): nat {
    if stretches == [] then 0 else Total(stretches[..|stretches| - 1]) + stretches[|stretches| - 1]
  }

  /** The delay of stretches of so many waits each. */
  function DelayOf(stretches: seq<nat>): nat {
    if stretches == [] then 0 else DelayOf(stretches[..|stretches| - 1]) + BackoffSum(stretches[|stretches| - 1])
  }

  lemma ExtendCosts(stretches: seq<nat>, connected: bool, wait: bool)
    requires stretches != []
    ensures var after := Extend(stretches, connected, wait);
            && DelayOf(after) == DelayOf(stretches) + (if wait then Backoff(Current(stretches, connected)) else 0)
            && Total(after) == Total(stretches) + (if wait then 1 else 0)
  {
    var after := Extend(stretches, connected, wait);
    var n := |after| - 1;
    assert after[..n] == if connected then stretches else stretches[..|stretches| - 1];
    assert BackoffSum(0) == 0;
    BackoffSumStep(Current(stretches, connected));
  }

  /** The waits of the stretch that attempt `n` finds going on. */
  function Going(outcomes: seq<Outcome>, pauses: seq<Pause>, n: nat): nat
    requires n <= |outcomes| && n <= |pauses|
  {
    if n == 0 then 0 else WaitsSince(outcomes, pauses, n - 1) + (if pauses[n - 1].Wait? then 1 else 0)
  }

  lemma {:induction false} StretchGoing(outcomes: seq<Outcome>, pauses: seq<Pause>, n: nat)
    requires n <= |pauses| <= |outcomes|
    ensures var r := Stretches(outcomes, pauses[..n]); r[|r| - 1] == Going(outcomes, pauses, n)
  {
    if n > 0 {
      StretchGoing(outcomes, pauses, n - 1);
      assert pauses[..n][..n - 1] == pauses[..n - 1];
    }
  }

  /** The wait after attempt `n` belongs to the stretch it finds going on, or starts. */
  lemma CurrentWaits(outcomes: seq<Outcome>, pauses: seq<Pause>, n: nat)
    requires n <= |pauses| <= |outcomes| && n < |outcomes|
    ensures Current(Stretches(outcomes, pauses[..n]), outcomes[n].connected) == WaitsSince(outcomes, pauses, n)
  {
    StretchGoing(outcomes, pauses, n);
  }

  /**
   * The delay of any run: each stretch between connected attempts costs the closed form of its own waits,
   * and the stretches have all the waits among them.
   */
  lemma {:induction false} DelayByStretches(outcomes: seq<Outcome>, pauses: seq<Pause>)
    requires IsRun(outcomes, pauses)
    ensures TotalDelay(pauses) == DelayOf(Stretches(outcomes, pauses))
    ensures Waits(pauses) == Total(Stretches(outcomes, pauses))
    decreases |pauses|
  {
    if pauses != [] {
      var n := |pauses| - 1;
      RunPrefix(outcomes, pauses, n);
      DelayByStretches(outcomes, pauses[..n]);
      CurrentWaits(outcomes, pauses, n);
      ExtendCosts(Stretches(outcomes, pauses[..n]), outcomes[n].connected, pauses[n].Wait?);
      assert RightPause(outcomes, pauses, n);
    } else {
      assert [0][..0] == [] && BackoffSum(0) == 0;
    }
  }

  /** Without a connected attempt there is one stretch, so the delay is the closed form of all waits. */
  lemma {:induction false} OneStretch(outcomes: seq<Outcome>, pauses: seq<Pause>)
    requires |pauses| <= |outcomes| && forall o <- outcomes :: !o.connected
    ensures Stretches(outcomes, pauses) == [Waits(pauses)]
    decreases |pauses|
  {
    if pauses != [] {
      OneStretch(outcomes, pauses[..|pauses| - 1]);
      assert outcomes[|pauses| - 1] in outcomes;
    }
  }

  lemma DelayClosedForm(outcomes: seq<Outcome>, pauses: seq<Pause>)
    requires IsRun(outcomes, pauses) && forall o <- outcomes :: !o.connected
    ensures TotalDelay(pauses) == BackoffSum(Waits(pauses))
  {
    DelayByStretches(outcomes, pauses);
    OneStretch(outcomes, pauses);
    assert [Waits(pauses)][..0] == [];
  }
}
