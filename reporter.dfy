/** The live reporter of main.go (`updateCLI`): on every timer tick it reads
    the shared counters, keeps the previous read count, appends one sample to
    the rate series once reading has begun, and returns when the acknowledged
    count equals the target or an interrupt arrives. Clock readings are
    plain numbers supplied with each tick; the series holds each tick's
    increase of the read count, the numerator of the rate the source
    computes in floating point. */
module Reporter {

  /** What the reporter's `select` receives: a tick, with the clock reading
      and the two shared counters as read on that tick, or the interrupt
      signal, with the read counter as read when it is handled. */
  datatype Event = Tick(now: nat, read: nat, acked: nat) | Interrupt(read: nat)

  /** The reporter's local state between ticks. */
  datatype Watch = Watch(start: nat, prevTime: nat, prevCount: nat, deltas: seq<nat>)

  /** `updateCLI` returns because the target was reached (closed = false),
      because of an interrupt (closed = true), or, when the events run out
      first, is still waiting. */
  datatype Verdict = Completed | Cancelled | Waiting

  /** The outcome: verdict, final state, how many events were taken from the
      channel and the read count returned as the total. */
  datatype Report = Report(verdict: Verdict, watch: Watch, consumed: nat, total: nat)

  /** Counters are unsigned 64-bit integers. */
  const Wrap: nat := 0x1_0000_0000_0000_0000

  /** `totalMessagesRead - prevMessageCount` in uint64 arithmetic. */
  function Delta(read: nat, prev: nat): (d: nat)
    requires read < Wrap && prev < Wrap
    ensures d < Wrap
    ensures prev <= read ==> d + prev == read
    ensures read < prev ==> d + prev == read + Wrap
  {
    (read - prev) % Wrap
  }

  /** The state before the first tick: both clocks at the call's start time
      and no message seen. */
  function Init(t0: nat): Watch {
    Watch(t0, t0, 0, [])
  }

  /** A tick is one on which the read counter was nonzero. */
  predicate NonzeroTick(e: Event) {
    e.Tick? && e.read != 0
  }

  /** The per-tick bookkeeping. */
  function AfterTick(w: Watch, now: nat, read: nat): (v: Watch)
    requires read < Wrap && w.prevCount < Wrap
    ensures v.prevCount == read && v.prevTime == now
    ensures read == 0 ==> v.deltas == w.deltas
    ensures read != 0 ==> |v.deltas| == |w.deltas| + 1 && v.deltas[..|w.deltas|] == w.deltas
    ensures read != 0 && w.prevCount <= read ==>
              v.deltas[|w.deltas|] + w.prevCount == read
    ensures read != 0 ==> v.deltas[|w.deltas|] == Delta(read, w.prevCount)
    ensures v.start != w.start ==> w.prevCount == 0 && read != 0 && v.start == now
    ensures w.prevCount == 0 && read != 0 ==> v.start == now
  {
    var start := if w.prevCount == 0 && read != 0 then now else w.start;
    var deltas := if read != 0 then w.deltas + [Delta(read, w.prevCount)] else w.deltas;
    Watch(start, now, read, deltas)
  }

  /** Every counter value the reporter can see fits in 64 bits. */
  ghost predicate Fits(events: seq<Event>) {
    forall j :: 0 <= j < |events| ==> events[j].read < Wrap
  }

  /** An event on which the loop returns: an interrupt, or a tick on which
      the acknowledged count equals the target. */
  predicate EndsLoop(target: nat, e: Event) {
    e.Interrupt? || e.acked == target
  }

  /** No event in `events[i..n]` ends the loop. */
  ghost predicate Quiet(target: nat, events: seq<Event>, i: nat, n: nat)
    requires n <= |events|
  {
    forall j :: i <= j < n ==> !EndsLoop(target, events[j])
  }

  /** The reporter's loop from event `i` on: it returns on the first event
      that ends the loop, and is still waiting if there is none. */
  function Observe(target: nat, events: seq<Event>, i: nat, w: Watch): (r: Report)
    requires i <= |events| && Fits(events) && w.prevCount < Wrap
    ensures i <= r.consumed <= |events| && r.watch.prevCount < Wrap
    ensures r.verdict == Waiting ==>
              r.consumed == |events| && Quiet(target, events, i, |events|)
    ensures r.verdict != Waiting ==>
              && i < r.consumed
              && Quiet(target, events, i, r.consumed - 1)
              && EndsLoop(target, events[r.consumed - 1])
              && (r.verdict == Cancelled <==> events[r.consumed - 1].Interrupt?)
              && r.total == events[r.consumed - 1].read
    decreases |events| - i
  {
    if i == |events| then Report(Waiting, w, i, w.prevCount)
    else match events[i]
      case Interrupt(read) => Report(Cancelled, w, i + 1, read)
      case Tick(now, read, acked) =>
        var v := AfterTick(w, now, read);
        if acked == target then Report(Completed, v, i + 1, read)
        else Observe(target, events, i + 1, v)
  }

  /** How many of `events` are ticks with a nonzero read count. */
  function NonzeroTicks(events: seq<Event>): nat {
    if events == [] then 0
    else (if NonzeroTick(events[0]) then 1 else 0) + NonzeroTicks(events[1..])
  }

  /** The rate series grows by one on every tick with a nonzero read count,
      the first one included, and on no other event. */
  lemma {:induction false} SeriesCountsNonzeroTicks(target: nat, events: seq<Event>,
                                                    i: nat, w: Watch)
    requires i <= |events| && Fits(events) && w.prevCount < Wrap
    ensures var r := Observe(target, events, i, w);
            && w.deltas <= r.watch.deltas
            && |r.watch.deltas| == |w.deltas| + NonzeroTicks(events[i..r.consumed])
    decreases |events| - i
  {
    var r := Observe(target, events, i, w);
    if i < |events| {
      assert events[i..r.consumed][1..] == events[i + 1..r.consumed];
      match events[i]
      case Interrupt(read) =>
        assert events[i..r.consumed] == [events[i]];
      case Tick(now, read, acked) =>
        var v := AfterTick(w, now, read);
        if acked == target {
          assert events[i..r.consumed] == [events[i]];
        } else {
          SeriesCountsNonzeroTicks(target, events, i + 1, v);
        }
    } else {
      assert events[i..r.consumed] == [];
    }
  }

  /** Read counts as the shared counter delivers them: never decreasing from
      one tick to a later one. */
  ghost predicate Monotone(events: seq<Event>) {
    forall j, k :: 0 <= j < k < |events| && events[j].Tick? && events[k].Tick? ==>
      events[j].read <= events[k].read
  }

  /** Once the read count was nonzero on a tick, `start` is never reset again. */
  lemma {:induction false} StartStaysAfterFirstRead(target: nat, events: seq<Event>,
                                                    i: nat, w: Watch)
    requires i <= |events| && Fits(events) && w.prevCount < Wrap
    requires w.prevCount != 0 && Monotone(events)
    requires forall k :: i <= k < |events| && events[k].Tick? ==> w.prevCount <= events[k].read
    ensures Observe(target, events, i, w).watch.start == w.start
    decreases |events| - i
  {
    if i < |events| && events[i].Tick? && events[i].acked != target {
      var v := AfterTick(w, events[i].now, events[i].read);
      StartStaysAfterFirstRead(target, events, i + 1, v);
    }
  }

  /** The first tick in `events[i..n]` with a nonzero read count, or `n`
      when there is none. */
  function FirstNonzero(events: seq<Event>, i: nat, n: nat): (f: nat)
    requires i <= n <= |events|
    ensures i <= f <= n
    ensures f < n ==> NonzeroTick(events[f])
    ensures forall j :: i <= j < f ==> !NonzeroTick(events[j])
    decreases n - i
  {
    if i == n then n
    else if NonzeroTick(events[i]) then i
    else FirstNonzero(events, i + 1, n)
  }

  /** While nothing has been read, `start` is the call's start time; from the
      first tick with a nonzero read count on, it is that tick's time. So,
      for a non-decreasing counter, `start` is reset at most once. */
  lemma {:induction false} StartIsFirstNonzeroTick(target: nat, events: seq<Event>,
                                                   i: nat, w: Watch)
    requires i <= |events| && Fits(events) && Monotone(events)
    requires w.prevCount == 0
    ensures var r := Observe(target, events, i, w);
            var f := FirstNonzero(events, i, r.consumed);
            r.watch.start == if f < r.consumed then events[f].now else w.start
    decreases |events| - i
  {
    var r := Observe(target, events, i, w);
    if i < |events| && events[i].Tick? && events[i].acked != target {
      var e := events[i];
      var v := AfterTick(w, e.now, e.read);
      assert r == Observe(target, events, i + 1, v);
      if e.read == 0 {
        StartIsFirstNonzeroTick(target, events, i + 1, v);
        assert FirstNonzero(events, i, r.consumed) == FirstNonzero(events, i + 1, r.consumed);
      } else {
        forall k | i + 1 <= k < |events| && events[k].Tick?
          ensures v.prevCount <= events[k].read
        {
          assert events[i].read <= events[k].read;
        }
        StartStaysAfterFirstRead(target, events, i + 1, v);
      }
    }
  }

  /** The completion test is equality: with a target of zero and nothing
      acknowledged, the reporter returns on the first tick. */
  lemma ZeroTargetReturnsOnFirstTick(events: seq<Event>, t0: nat)
    requires Fits(events) && |events| > 0 && events[0].Tick? && events[0].acked == 0
    ensures var r := Observe(0, events, 0, Init(t0));
            r.verdict == Completed && r.consumed == 1
  {
  }

  /** An interrupt ends the loop at once, whatever the counters say and
      whatever would come after it: the first interrupt not preceded by a
      completing tick makes the loop return Cancelled, with the read count
      seen when it is handled. An interrupt handled first leaves the state
      untouched. */
  lemma {:induction false} InterruptCancels(target: nat, events: seq<Event>, i: nat,
                                            w: Watch, j: nat)
    requires i <= j < |events| && Fits(events) && w.prevCount < Wrap
    requires events[j].Interrupt?
    requires forall k :: i <= k < j ==> !EndsLoop(target, events[k])
    ensures var r := Observe(target, events, i, w);
            && r.verdict == Cancelled && r.consumed == j + 1
            && r.total == events[j].read
            && (i == j ==> r.watch == w)
    decreases j - i
  {
    if i < j {
      var e := events[i];
      assert e.Tick? && e.acked != target;
      InterruptCancels(target, events, i + 1, AfterTick(w, e.now, e.read), j);
    }
  }

  /** `updateCLI`: the loop over the timer and the interrupt channel, with
      its state in local variables. Returns whether it was cancelled, the
      test start time, the read total and the series. */
  method UpdateCli(t0: nat, target: nat, events: seq<Event>)
    returns (verdict: Verdict, start: nat, total: nat, series: seq<nat>)
    requires Fits(events)
    ensures var r := Observe(target, events, 0, Init(t0));
            && verdict == r.verdict && start == r.watch.start
            && total == r.total && series == r.watch.deltas
  {
    start := t0;
    var prevTime := t0;
    var prevMessageCount := 0;
    series := [];
    var i := 0;
    while i < |events|
      invariant i <= |events| && prevMessageCount < Wrap
      invariant Observe(target, events, i, Watch(start, prevTime, prevMessageCount, series))
                == Observe(target, events, 0, Init(t0))
      decreases |events| - i
    {
      match events[i] {
        case Interrupt(read) =>
          return Cancelled, start, read, series;
        case Tick(now, read, acked) =>
          if prevMessageCount == 0 && read != 0 {
            start := now;
          }
          if read != 0 {
            series := series + [Delta(read, prevMessageCount)];
          }
          prevMessageCount := read;
          prevTime := now;
          if acked == target {
            return Completed, start, read, series;
          }
      }
      i := i + 1;
    }
    return Waiting, start, prevMessageCount, series;
  }
}
