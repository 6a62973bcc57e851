/** One consumer of the group: the fetch/acknowledge loop of
    `groupConsumerRoutine`. The first half states the loop as functions over a
    configuration (window, exhaustion flag, traces and counters); the class
    `Worker` at the end runs it in place and is proved to follow them. */
module GroupConsumer {
  import opened Broker

  /** A broker call the worker issues: a read and the reply it got, or an
      acknowledgement of one identifier. */
  datatype Call = Read(reply: ReadReply) | Ack(id: EntryId)

  /** What one loop iteration does, once the stop signal was not seen. */
  datatype Action = Fetch | Acknowledge | Return

  /** Why the routine returned: the stop channel was closed, or the window
      drained after the source ran dry. */
  datatype Exit = Stopped | Drained

  /** The worker's state between iterations.
      ids       -- the pending window, oldest first
      done      -- an empty read was seen; no further read is issued
      readCalls -- XREADGROUP calls issued (= read-latency samples)
      fetched   -- identifiers received, in order (their count is what the
                   worker adds to the shared read counter)
      acked     -- identifiers acknowledged, in order (their count is what it
                   adds to the shared ack counter, and the ack-latency samples)
      calls     -- every broker call, in order */
  datatype Config = Config(ids: seq<EntryId>, done: bool, readCalls: nat,
                           fetched: seq<EntryId>, acked: seq<EntryId>,
                           calls: seq<Call>)

  /** A worker that has just started: empty window, nothing read. */
  const Start := Config([], false, 0, [], [], [])

  /** The three-way rule evaluated on every iteration: fetch while the window
      has room and the source is not exhausted, else acknowledge while
      anything is pending, else return. */
  function Choose(pcount: int, c: Config): (a: Action)
    ensures a == Fetch <==> |c.ids| < pcount && !c.done
    ensures a == Return <==> c.ids == [] && (c.done || pcount <= 0)
    ensures a == Acknowledge ==> c.ids != []
  {
    if |c.ids| < pcount && !c.done then Fetch
    else if |c.ids| > 0 then Acknowledge
    else Return
  }

  /** A fetch that received `reply`: an empty reply marks the source
      exhausted, an entry is appended to the window and counted. */
  function AfterFetch(c: Config, reply: ReadReply): (d: Config)
    ensures d.readCalls == c.readCalls + 1 && d.calls == c.calls + [Read(reply)]
    ensures d.acked == c.acked
    ensures reply.NoEntry? ==> d.done && d.ids == c.ids && d.fetched == c.fetched
    ensures reply.Entry? ==> d.done == c.done && d.ids == c.ids + [reply.id]
                             && d.fetched == c.fetched + [reply.id]
  {
    match reply
    case NoEntry =>
      c.(done := true, readCalls := c.readCalls + 1, calls := c.calls + [Read(reply)])
    case Entry(id) =>
      c.(ids := c.ids + [id], readCalls := c.readCalls + 1,
         fetched := c.fetched + [id], calls := c.calls + [Read(reply)])
  }

  /** Acknowledging the oldest pending identifier: it leaves the head of the
      window, is acknowledged and counted. */
  function AfterAck(c: Config): (d: Config)
    requires c.ids != []
    ensures c.ids == [c.ids[0]] + d.ids
    ensures d.acked == c.acked + [c.ids[0]] && d.calls == c.calls + [Ack(c.ids[0])]
    ensures d.done == c.done && d.readCalls == c.readCalls && d.fetched == c.fetched
  {
    c.(ids := c.ids[1..], acked := c.acked + [c.ids[0]],
       calls := c.calls + [Ack(c.ids[0])])
  }

  /** The invariant of the loop.
      - the window is the fetched identifiers not yet acknowledged, so the
        acknowledgements are a prefix of the fetches, in the same order;
      - the window never holds more than `pcount` identifiers;
      - the identifiers fetched are the entries of the first replies, in
        order, and `done` holds exactly when the last read got no entry;
      - every call is a read or an acknowledgement. */
  ghost predicate Inv(pcount: int, replies: seq<ReadReply>, c: Config) {
    && c.fetched == c.acked + c.ids
    && (c.ids == [] || |c.ids| <= pcount)
    && |c.fetched| == (if c.done then c.readCalls - 1 else c.readCalls)
    && (c.done ==> c.readCalls >= 1 && ReplyAt(replies, c.readCalls - 1) == NoEntry)
    && (forall k :: 0 <= k < |c.fetched| ==> ReplyAt(replies, k) == Entry(c.fetched[k]))
    && |c.calls| == c.readCalls + |c.acked|
  }

  /** A bound on the iterations left: two per read the source can still
      answer, one per pending identifier. */
  function Measure(replies: seq<ReadReply>, c: Config): nat {
    2 * (if c.done then 0 else if c.readCalls < |replies| then |replies| + 1 - c.readCalls else 1)
    + |c.ids|
  }

  /** One iteration that neither stopped nor returned. The read is answered
      by the broker's next scripted reply. */
  function Next(pcount: int, replies: seq<ReadReply>, c: Config): (d: Config)
    requires Choose(pcount, c) != Return
    ensures Measure(replies, d) < Measure(replies, c)
    ensures c.done ==> d.done && d.readCalls == c.readCalls && d.fetched == c.fetched
    ensures c.fetched <= d.fetched && c.acked <= d.acked && c.calls <= d.calls
    ensures |d.calls| == |c.calls| + 1
  {
    if Choose(pcount, c) == Fetch then AfterFetch(c, ReplyAt(replies, c.readCalls))
    else AfterAck(c)
  }

  /** Every iteration keeps the invariant: the window stays within its bound,
      the acknowledgements stay a prefix of the fetches, and the fetched
      identifiers stay the entries of the replies read so far. */
  lemma NextKeepsInv(pcount: int, replies: seq<ReadReply>, c: Config)
    requires Inv(pcount, replies, c) && Choose(pcount, c) != Return
    ensures Inv(pcount, replies, Next(pcount, replies, c))
  {
    var d := Next(pcount, replies, c);
    if Choose(pcount, c) == Fetch {
      var reply := ReplyAt(replies, c.readCalls);
      assert !c.done && |c.fetched| == c.readCalls;
      if reply.Entry? {
        assert d.fetched == c.fetched + [reply.id];
        assert d.acked + d.ids == c.acked + c.ids + [reply.id];
        forall k | 0 <= k < |d.fetched|
          ensures ReplyAt(replies, k) == Entry(d.fetched[k])
        {
          if k < |c.fetched| {
            assert d.fetched[k] == c.fetched[k];
          }
        }
      }
    } else {
      assert d.acked + d.ids == c.acked + [c.ids[0]] + c.ids[1..];
      assert [c.ids[0]] + c.ids[1..] == c.ids;
    }
  }

  /** How a run of the routine ended: why, in which state, and the index
      (from 0) of the iteration that returned; every earlier iteration
      issued exactly one broker call. */
  datatype Ending = Ending(exit: Exit, final: Config, iterations: nat)

  /** The routine from iteration `t` in state `c`: the stop signal is polled
      at the top of every iteration, then the three-way rule decides. */
  function Run(pcount: int, replies: seq<ReadReply>, stops: seq<bool>,
               t: nat, c: Config): (e: Ending)
    requires Inv(pcount, replies, c)
    ensures Inv(pcount, replies, e.final)
    ensures e.iterations >= t
    ensures e.exit == Stopped <==> StopAt(stops, e.iterations)
    ensures e.exit == Drained ==>
              e.final.ids == [] && (e.final.done || pcount <= 0)
              && e.final.fetched == e.final.acked
    decreases Measure(replies, c)
  {
    if StopAt(stops, t) then Ending(Stopped, c, t)
    else if Choose(pcount, c) == Return then Ending(Drained, c, t)
    else
      NextKeepsInv(pcount, replies, c);
      Run(pcount, replies, stops, t + 1, Next(pcount, replies, c))
  }

  /** What a run adds to a state: one broker call per iteration that did not
      stop or return, the traces only grow, `done` once set stays set and no
      read follows it, and the stop signal was not seen before the last
      iteration. */
  lemma {:induction false} RunProgress(pcount: int, replies: seq<ReadReply>,
                                       stops: seq<bool>, t: nat, c: Config)
    requires Inv(pcount, replies, c)
    ensures var e := Run(pcount, replies, stops, t, c);
            && |e.final.calls| == |c.calls| + (e.iterations - t)
            && c.fetched <= e.final.fetched && c.acked <= e.final.acked
            && c.calls <= e.final.calls
            && (c.done ==> e.final.done && e.final.readCalls == c.readCalls)
            && (forall u :: t <= u < e.iterations ==> !StopAt(stops, u))
    decreases Measure(replies, c)
  {
    if !StopAt(stops, t) && Choose(pcount, c) != Return {
      RunUnfolds(pcount, replies, stops, t, c);
      RunProgress(pcount, replies, stops, t + 1, Next(pcount, replies, c));
    }
  }

  /** An iteration that neither stopped nor returned keeps the invariant,
      brings the run closer to its end, and leaves the rest of the run to
      the next iteration. */
  lemma RunUnfolds(pcount: int, replies: seq<ReadReply>, stops: seq<bool>, t: nat, c: Config)
    requires Inv(pcount, replies, c)
    requires !StopAt(stops, t) && Choose(pcount, c) != Return
    ensures var d := Next(pcount, replies, c);
            && Inv(pcount, replies, d)
            && Measure(replies, d) < Measure(replies, c)
            && Run(pcount, replies, stops, t, c) == Run(pcount, replies, stops, t + 1, d)
  {
    NextKeepsInv(pcount, replies, c);
  }

  /** On a stream of n entries with a window of at least one and no stop,
      the worker fetches and acknowledges every entry in stream order,
      issues n + 1 reads (the last one empty) and n acknowledgements, and
      returns after the 2n + 1 iterations that issued them. */
  lemma FiniteSourceDrains(pcount: int, ids: seq<EntryId>, stops: seq<bool>)
    requires pcount >= 1
    requires forall u :: 0 <= u < |stops| ==> !stops[u]
    ensures var e := Run(pcount, Entries(ids), stops, 0, Start);
            && e.exit == Drained
            && e.final.fetched == ids && e.final.acked == ids
            && e.final.readCalls == |ids| + 1
            && e.iterations == 2 * |ids| + 1
  {
    var replies := Entries(ids);
    var e := Run(pcount, replies, stops, 0, Start);
    RunProgress(pcount, replies, stops, 0, Start);
    assert !StopAt(stops, e.iterations);
    var f := e.final;
    assert f.done;
    assert |f.fetched| == f.readCalls - 1;
    forall k | 0 <= k < |ids|
      ensures ReplyAt(replies, k) == Entry(ids[k])
    {
    }
    assert f.readCalls - 1 >= |ids|;
    assert |f.fetched| > 0 ==> ReplyAt(replies, |f.fetched| - 1).Entry?;
    assert |f.fetched| == |ids|;
    forall k | 0 <= k < |ids|
      ensures f.fetched[k] == ids[k]
    {
      assert ReplyAt(replies, k) == Entry(f.fetched[k]);
    }
  }

  /** With a window of size zero or less the routine returns on its first
      iteration without issuing any call. */
  lemma EmptyWindowReturns(pcount: int, replies: seq<ReadReply>, stops: seq<bool>)
    requires pcount <= 0
    requires !StopAt(stops, 0)
    ensures Run(pcount, replies, stops, 0, Start) == Ending(Drained, Start, 0)
  {
  }

  /** A stop seen at the top of an iteration changes nothing: the run that was
      stopped has issued a prefix of the calls, fetches and acknowledgements
      of the same run left alone. */
  lemma {:induction false} StopOnlyTruncates(pcount: int, replies: seq<ReadReply>,
                                             stops: seq<bool>, t: nat, c: Config)
    requires Inv(pcount, replies, c)
    ensures var cut := Run(pcount, replies, stops, t, c).final;
            var full := Run(pcount, replies, [], t, c).final;
            && cut.calls <= full.calls
            && cut.fetched <= full.fetched
            && cut.acked <= full.acked
    decreases Measure(replies, c)
  {
    if StopAt(stops, t) || Choose(pcount, c) == Return {
      assert Run(pcount, replies, stops, t, c).final == c;
      RunProgress(pcount, replies, [], t, c);
    } else {
      RunUnfolds(pcount, replies, stops, t, c);
      RunUnfolds(pcount, replies, [], t, c);
      StopOnlyTruncates(pcount, replies, stops, t + 1, Next(pcount, replies, c));
    }
  }

  /** Cancellation is cooperative but not lost: once the stop channel is
      closed at iteration `s`, the routine has returned by that iteration. */
  lemma StopBoundsRun(pcount: int, replies: seq<ReadReply>, stops: seq<bool>,
                      t: nat, c: Config, s: nat)
    requires Inv(pcount, replies, c)
    requires t <= s && StopAt(stops, s)
    ensures Run(pcount, replies, stops, t, c).iterations <= s
  {
    RunProgress(pcount, replies, stops, t, c);
  }

  /** Calls that strictly alternate read, acknowledge, read, ... where every
      acknowledgement is for the entry the read just before it delivered. */
  ghost predicate Alternating(calls: seq<Call>) {
    && (forall k :: 0 <= k < |calls| ==> (calls[k].Read? <==> k % 2 == 0))
    && (forall k :: 0 < k < |calls| && calls[k].Ack? ==>
          calls[k - 1] == Read(Entry(calls[k].id)))
  }

  /** The shape of a unit-window worker's state after each iteration. */
  ghost predicate UnitWindow(c: Config) {
    && Alternating(c.calls)
    && (|c.calls| % 2 == 0 ==> c.ids == [] && !c.done)
    && (|c.calls| % 2 == 1 ==>
          var last := c.calls[|c.calls| - 1];
          && last.Read?
          && (last.reply.Entry? ==> c.ids == [last.reply.id] && !c.done)
          && (last.reply.NoEntry? ==> c.ids == [] && c.done))
  }

  /** One iteration of a unit-window worker keeps that shape: after a read
      comes the acknowledgement of what it delivered, after an
      acknowledgement the next read. */
  lemma UnitWindowStep(replies: seq<ReadReply>, c: Config)
    requires Inv(1, replies, c) && UnitWindow(c) && Choose(1, c) != Return
    ensures UnitWindow(Next(1, replies, c))
  {
    var d := Next(1, replies, c);
    var n := |c.calls|;
    assert d.calls == c.calls + [d.calls[n]];
    if n % 2 == 0 {
      assert Choose(1, c) == Fetch;
      assert d.calls[n].Read?;
    } else {
      assert Choose(1, c) == Acknowledge;
      assert c.calls[n - 1] == Read(Entry(c.ids[0]));
      assert d.calls[n] == Ack(c.ids[0]);
    }
  }

  /** The unit-window shape holds for the rest of the run. */
  lemma {:induction false} UnitWindowRun(replies: seq<ReadReply>, stops: seq<bool>,
                                         t: nat, c: Config)
    requires Inv(1, replies, c) && UnitWindow(c)
    ensures UnitWindow(Run(1, replies, stops, t, c).final)
    decreases Measure(replies, c)
  {
    if !StopAt(stops, t) && Choose(1, c) != Return {
      UnitWindowStep(replies, c);
      NextKeepsInv(1, replies, c);
      UnitWindowRun(replies, stops, t + 1, Next(1, replies, c));
    }
  }

  /** Fetching has priority over acknowledging, so with `pcount = 1` the
      calls strictly alternate: fetch one entry, acknowledge it, fetch the
      next, and so on. */
  lemma UnitWindowAlternates(replies: seq<ReadReply>, stops: seq<bool>)
    ensures Alternating(Run(1, replies, stops, 0, Start).final.calls)
  {
    UnitWindowRun(replies, stops, 0, Start);
  }

  /** The worker as the routine keeps it: the window and the exhaustion flag
      are real state; what it has read, fetched, acknowledged and called is
      ghost bookkeeping for the proof. */
  class Worker {
    const pcount: int
    var ids: seq<EntryId>
    var done: bool
    ghost var readCalls: nat
    ghost var fetched: seq<EntryId>
    ghost var acked: seq<EntryId>
    ghost var calls: seq<Call>

    ghost function Snapshot(): Config
      reads this
    {
      Config(ids, done, readCalls, fetched, acked, calls)
    }

    /** A new routine: empty window, source not yet exhausted. */
    constructor (pcount: int)
      ensures this.pcount == pcount && Snapshot() == Start
    {
      this.pcount := pcount;
      ids, done := [], false;
      readCalls, fetched, acked, calls := 0, [], [], [];
    }

    /** The fetch branch, once the read returned `reply`: the broker's answer
        to this worker's next read. */
    method ApplyFetch(reply: ReadReply, ghost replies: seq<ReadReply>)
      requires Choose(pcount, Snapshot()) == Fetch && reply == ReplyAt(replies, readCalls)
      modifies this
      ensures Snapshot() == AfterFetch(old(Snapshot()), reply)
      ensures Snapshot() == Next(pcount, replies, old(Snapshot()))
    {
      readCalls := readCalls + 1;
      calls := calls + [Read(reply)];
      if reply.NoEntry? {
        done := true;
        return;
      }
      ids := ids + [reply.id];
      fetched := fetched + [reply.id];
    }

    /** The acknowledge branch: pops the oldest pending identifier, which is
        the one sent to XACK. */
    method PopAndAck(ghost replies: seq<ReadReply>) returns (id: EntryId)
      requires Choose(pcount, Snapshot()) == Acknowledge
      modifies this
      ensures id == old(ids[0])
      ensures Snapshot() == AfterAck(old(Snapshot()))
      ensures Snapshot() == Next(pcount, replies, old(Snapshot()))
    {
      id := ids[0];
      ids := ids[1..];
      acked := acked + [id];
      calls := calls + [Ack(id)];
    }

    /** The routine's loop, on a fresh worker. The broker answers reads from
        `replies` in order; `stops[t]` says whether the stop channel is seen
        closed at the top of iteration t. */
    method Consume(replies: seq<ReadReply>, stops: seq<bool>) returns (exit: Exit)
      requires Snapshot() == Start
      modifies this
      ensures var e := Run(pcount, replies, stops, 0, Start);
              exit == e.exit && Snapshot() == e.final
    {
      ghost var goal := Run(pcount, replies, stops, 0, Start);
      ghost var c := Start;
      var t := 0;
      // The broker's delivery position for this consumer: how many reads it
      // has answered. It equals the ghost `readCalls`.
      var cursor := 0;
      while true
        invariant Snapshot() == c && cursor == c.readCalls
        invariant Inv(pcount, replies, c)
        invariant Run(pcount, replies, stops, t, c) == goal
        // Implied by the first invariant; stated so that the loop tests
        // below are matched against `c` directly.
        invariant ids == c.ids && done == c.done
        decreases Measure(replies, c)
      {
        if StopAt(stops, t) {
          assert goal == Ending(Stopped, c, t);
          return Stopped;
        }
        if |ids| < pcount && !done {
          var reply := ReplyAt(replies, cursor);
          cursor := cursor + 1;
          ApplyFetch(reply, replies);
        } else if |ids| > 0 {
          var _ := PopAndAck(replies);
        } else {
          assert goal == Ending(Drained, c, t);
          return Drained;
        }
        RunUnfolds(pcount, replies, stops, t, c);
        c := Snapshot();
        t := t + 1;
      }
    }
  }
}
