/**
 * The stream view of a websocket connection: `Conn.Read` of websocket/conn.go hands out the payloads
 * of the incoming messages as one stream of bytes. A character stands for a byte.
 */
module WsConn {
  import opened Sequences

  datatype Status = Nil | Eof | Failed

  /**
   * What a message reader answers to one read: how many bytes it is ready to give, and what it
   * reports beside them.
   */
  datatype Answer = Answer(n: nat, status: Status)

  /** The bytes given: never more than fit or than are left, as io.Reader demands. */
  function Given(left: string, cap: nat, a: Answer): (k: nat)
    ensures k <= |left| && k <= cap && (k == a.n || (k < a.n && (k == |left| || k == cap)))
  {
    if a.n <= |left| && a.n <= cap then a.n else if cap <= |left| then cap else |left|
  }

  /** The end of a message is reported only when nothing of it is left. */
  function Reported(left: string, cap: nat, a: Answer): Status {
    if a.status == Eof && Given(left, cap, a) < |left| then Nil else a.status
  }

  /** The payload still to be handed out, message by message. */
  function Segments(rdBuf: Option<string>, incoming: seq<string>): seq<string> {
    if rdBuf.Some? then [rdBuf.value] + incoming else incoming
  }

  /**
   * One read leaves used-up messages behind, and takes `data` off the front of one message or takes
   * nothing; what is left of that message goes too when it is empty and its reader has said so.
   */
  ghost predicate ReadStep(before: seq<string>, data: string, after: seq<string>)
    decreases |before|
  {
    || (data == "" && after == before)
    || (before != [] && data <= before[0] && after == [before[0][|data|..]] + before[1..])
    || (before != [] && data == before[0] && after == before[1..])
    || (before != [] && before[0] == "" && ReadStep(before[1..], data, after))
  }

  /** `cur` is `start` without some used-up messages at the front. */
  ghost predicate Leads(start: seq<string>, cur: seq<string>)
    decreases |start|
  {
    start == cur || (start != [] && start[0] == "" && Leads(start[1..], cur))
  }

  lemma {:induction false} LeadsOn(start: seq<string>, cur: seq<string>)
    requires Leads(start, cur) && cur != [] && cur[0] == ""
    ensures Leads(start, cur[1..])
    decreases |start|
  {
    if start != cur {
      LeadsOn(start[1..], cur);
    }
  }

  lemma {:induction false} LeadsTo(start: seq<string>, cur: seq<string>, data: string, after: seq<string>)
    requires Leads(start, cur) && ReadStep(cur, data, after)
    ensures ReadStep(start, data, after)
    decreases |start|
  {
    if start != cur {
      LeadsTo(start[1..], cur, data, after);
    }
  }

  lemma {:induction false} LeadsMember(start: seq<string>, left: string, more: seq<string>)
    requires Leads(start, [left] + more)
    ensures left in start
    decreases |start|
  {
    if start == [left] + more {
      assert start[0] == left;
    } else {
      LeadsMember(start[1..], left, more);
    }
  }

  lemma Took(start: seq<string>, left: string, n: nat, more: seq<string>, kept: bool)
    requires n <= |left| && (!kept ==> n == |left|) && Leads(start, [left] + more)
    ensures ReadStep(start, left[..n], if kept then [left[n..]] + more else more)
  {
    assert ([left] + more)[1..] == more;
    LeadsTo(start, [left] + more, left[..n], if kept then [left[n..]] + more else more);
  }

  lemma Waited(start: seq<string>, cur: seq<string>)
    requires Leads(start, cur)
    ensures ReadStep(start, "", cur)
  {
    LeadsTo(start, cur, "", cur);
  }

  lemma UsedUp(start: seq<string>, more: seq<string>)
    requires Leads(start, [""] + more)
    ensures Leads(start, more)
  {
    LeadsOn(start, [""] + more);
  }

  /** Readers that give at least a byte while there is one and then report the end, on a live connection. */
  ghost predicate Prompt(answers: nat -> Answer, arrives: nat -> bool) {
    forall k :: answers(k).n > 0 && answers(k).status == Eof && arrives(k)
  }

  class Conn {
    var rdBuf: Option<string>
    var incoming: seq<string>

    constructor (messages: seq<string>)
      ensures rdBuf == None && incoming == messages
    {
      rdBuf, incoming := None, messages;
    }

    function Left(): seq<string>
      reads this
    {
      Segments(rdBuf, incoming)
    }

    /**
     * `answers(k)` is the k-th answer of a message reader in this call and `arrives(k)` says whether
     * the k-th wait for a message brings the next one or an error.
     */
    method Read(cap: nat, answers: nat -> Answer, arrives: nat -> bool) returns (data: string, status: Status)
      modifies this
      ensures ReadStep(old(Left()), data, Left())
      ensures |data| <= cap && (data != "" ==> status == Nil) && status != Eof
      // the bytes are those one reader gave of its message
      ensures data != "" ==> exists m, k :: m in old(Left()) && data == m[..Given(m, cap, answers(k))]
      // it fails only when a reader fails, no message comes, or nothing is left; it comes back empty for no other reason
      ensures status == Failed ==>
                (exists k :: answers(k).status == Failed) || (exists k :: !arrives(k)) || Flatten(old(Left())) == ""
      ensures status == Nil && data == "" ==>
                cap == 0 || exists k :: answers(k).n == 0 || answers(k).status == Nil
      ensures data == "" && cap > 0 && Prompt(answers, arrives) ==> Flatten(old(Left())) == ""
    {
      ghost var start := Left();
      var k := 0;
      while true
        invariant Leads(start, Left())
        decreases |incoming|, rdBuf.Some?
      {
        if rdBuf.Some? {
          var left := rdBuf.value;
          var n, err := Given(left, cap, answers(k)), Reported(left, cap, answers(k));
          k := k + 1;
          rdBuf := Some(left[n..]);
          if n > 0 {
            LeadsMember(start, left, incoming);
            if err == Eof {
              rdBuf := None;
            }
            Took(start, left, n, incoming, rdBuf.Some?);
            return left[..n], Nil;
          }
          if err == Eof {
            assert left == "";
            UsedUp(start, incoming);
            rdBuf := None;
            continue;
          }
          Waited(start, Left());
          return "", err;
        }
        if incoming == [] || !arrives(k) {
          Waited(start, Left());
          StepConserves(start, "", Left());
          return "", Failed;
        }
        k := k + 1;
        assert [incoming[0]] + incoming[1..] == incoming;
        rdBuf, incoming := Some(incoming[0]), incoming[1..];
      }
    }
  }

  // -------------------------------------------------------------- whole runs

  /** No read loses, repeats or reorders a byte. */
  lemma {:induction false} StepConserves(before: seq<string>, data: string, after: seq<string>)
    requires ReadStep(before, data, after)
    ensures Flatten(before) == data + Flatten(after)
    decreases |before|
  {
    if data == "" && after == before {
    } else if data <= before[0] && after == [before[0][|data|..]] + before[1..] {
      assert before[0] == data + before[0][|data|..];
      assert Flatten(after) == before[0][|data|..] + Flatten(before[1..]);
    } else if !(data == before[0] && after == before[1..]) {
      StepConserves(before[1..], data, after);
    }
  }

  /** A run of reads, each with its result, from the messages `before` to what is left of them. */
  ghost predicate Reads(before: seq<string>, results: seq<string>, after: seq<string>)
    decreases |results|
  {
    if results == [] then after == before
    else exists mid :: ReadStep(before, results[0], mid) && Reads(mid, results[1..], after)
  }

  /** The results of any run, put together, are a prefix of the payloads put together. */
  lemma {:induction false} StreamIsPrefix(before: seq<string>, results: seq<string>, after: seq<string>)
    requires Reads(before, results, after)
    ensures Flatten(before) == Flatten(results) + Flatten(after)
    decreases |results|
  {
    if results != [] {
      var mid :| ReadStep(before, results[0], mid) && Reads(mid, results[1..], after);
      StepConserves(before, results[0], mid);
      StreamIsPrefix(mid, results[1..], after);
      Assoc(results[0], Flatten(results[1..]), Flatten(after));
    }
  }

  function NonEmpty(results: seq<string>): seq<string> {
    if results == [] then []
    else if results[0] == "" then NonEmpty(results[1..])
    else [results[0]] + NonEmpty(results[1..])
  }

  /** Every result belongs to one message: grouped, the results are prefixes of the messages. */
  ghost predicate Grouped(messages: seq<string>, results: seq<string>, groups: seq<seq<string>>) {
    && |groups| == |messages|
    && Flatten(groups) == results
    && forall k :: 0 <= k < |messages| ==> Flatten(groups[k]) <= messages[k]
  }

  /** One more read, before a run whose results are grouped already. */
  lemma {:induction false} GroupStep(before: seq<string>, data: string, mid: seq<string>, results: seq<string>,
                                     groups: seq<seq<string>>) returns (r: seq<seq<string>>)
    requires ReadStep(before, data, mid) && Grouped(mid, results, groups)
    ensures Grouped(before, (if data == "" then [] else [data]) + results, r)
    decreases |before|
  {
    var own: seq<string> := if data == "" then [] else [data];
    if data == "" && mid == before {
      r := groups;
    } else if data <= before[0] && mid == [before[0][|data|..]] + before[1..] {
      r := [own + groups[0]] + groups[1..];
      FlattenAppend(own, groups[0]);
      assert Flatten(own) == data;
      assert Flatten(r) == own + groups[0] + Flatten(groups[1..]);
      assert Flatten(groups[0]) <= mid[0];
    } else if data == before[0] && mid == before[1..] {
      r := [own] + groups;
      assert Flatten(own) == data;
    } else {
      var inner := GroupStep(before[1..], data, mid, results, groups);
      r := [[]] + inner;
    }
  }

  /**
   * No result spans two messages: in any run the results that are not empty fall into one group per
   * message, in order, and each group put together is a prefix of its message.
   */
  lemma {:induction false} ResultsWithinMessages(before: seq<string>, results: seq<string>, after: seq<string>)
      returns (groups: seq<seq<string>>)
    requires Reads(before, results, after)
    ensures Grouped(before, NonEmpty(results), groups)
    decreases |results|
  {
    if results == [] {
      groups := seq(|before|, _ => []);
      NoGroups(|before|);
    } else {
      var mid :| ReadStep(before, results[0], mid) && Reads(mid, results[1..], after);
      var rest := ResultsWithinMessages(mid, results[1..], after);
      groups := GroupStep(before, results[0], mid, NonEmpty(results[1..]), rest);
    }
  }

  lemma {:induction false} NoGroups(n: nat)
    ensures Flatten(seq<seq<string>>(n, _ => [])) == []
  {
    if n > 0 {
      NoGroups(n - 1);
      assert seq<seq<string>>(n, _ => [])[1..] == seq<seq<string>>(n - 1, _ => []);
    }
  }
}
