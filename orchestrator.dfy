/** The orchestration in `main` of main.go: resolve the target message count,
    reset the consumer group, start one worker per consumer name, run the
    reporter, and decide how to shut down. Broker replies are inputs; the
    workers run concurrently in the source and are represented here by their
    names (their loop is module GroupConsumer). */
module Orchestrator {
  import opened Reporter

  /** Outcome of a control-connection command that returns nothing. */
  datatype Status = Ok | Failed

  /** Outcome of `XLEN key`. */
  datatype LenReply = Length(n: nat) | LenFailed

  /** The setup commands, in the order `main` issues them. */
  datatype Step = Dial | Xlen | Destroy | Create

  /** Setup ends with the target count, or with `log.Fatal` at one step. */
  datatype SetupResult = Ready(target: nat) | Fatal(step: Step)

  /** The `message-count` flag: 0 means "the whole stream as it is now". */
  function ResolveTarget(requested: nat, backlog: nat): (target: nat)
    ensures requested == 0 ==> target == backlog
    ensures requested != 0 ==> target == requested
  {
    if requested == 0 then backlog else requested
  }

  /** Dial, XLEN when the requested count is 0, XGROUP DESTROY, XGROUP
      CREATE at id 0. Every failure is fatal, the DESTROY one included, and
      XLEN is issued only when needed. */
  function Setup(requested: nat, dial: Status, xlen: LenReply,
                 destroy: Status, create: Status): (r: SetupResult)
    ensures r.Ready? <==>
              dial.Ok? && (requested != 0 || xlen.Length?) && destroy.Ok? && create.Ok?
    ensures r.Ready? ==> r.target == ResolveTarget(requested, if xlen.Length? then xlen.n else 0)
    ensures r == Fatal(Dial) <==> dial.Failed?
    ensures r == Fatal(Xlen) <==> dial.Ok? && requested == 0 && xlen.LenFailed?
    ensures r == Fatal(Destroy) <==>
              dial.Ok? && (requested != 0 || xlen.Length?) && destroy.Failed?
    ensures r == Fatal(Create) <==>
              dial.Ok? && (requested != 0 || xlen.Length?) && destroy.Ok? && create.Failed?
  {
    if dial.Failed? then Fatal(Dial)
    else if requested == 0 && xlen.LenFailed? then Fatal(Xlen)
    else if destroy.Failed? then Fatal(Destroy)
    else if create.Failed? then Fatal(Create)
    else Ready(ResolveTarget(requested, if xlen.Length? then xlen.n else 0))
  }

  /** When a count was requested, the XLEN reply plays no part. */
  lemma RequestedCountIgnoresBacklog(requested: nat, dial: Status, xlen: LenReply,
                                     other: LenReply, destroy: Status, create: Status)
    requires requested != 0
    ensures Setup(requested, dial, xlen, destroy, create)
            == Setup(requested, dial, other, destroy, create)
  {
  }

  /** One decimal digit. */
  function Digit(d: nat): (c: char)
    requires d < 10
    ensures '0' <= c <= '9'
  {
    ('0' as int + d) as char
  }

  /** `%d` of a non-negative integer: digits, most significant first, no
      leading zero. */
  function Decimal(n: nat): (s: string)
    ensures |s| >= 1 && (|s| == 1 <==> n < 10)
    ensures forall k :: 0 <= k < |s| ==> '0' <= s[k] <= '9'
    ensures |s| > 1 ==> s[0] != '0'
    decreases n
  {
    if n < 10 then [Digit(n)] else Decimal(n / 10) + [Digit(n % 10)]
  }

  /** The number a string of decimal digits denotes, most significant
      digit first. */
  function DigitsValue(s: string): int {
    if s == [] then 0
    else 10 * DigitsValue(s[..|s| - 1]) + (s[|s| - 1] as int - '0' as int)
  }

  /** `Decimal(n)` reads back as `n`. */
  lemma {:induction false} DecimalValue(n: nat)
    ensures DigitsValue(Decimal(n)) == n
    decreases n
  {
    var s := Decimal(n);
    if n >= 10 {
      DecimalValue(n / 10);
      assert s[..|s| - 1] == Decimal(n / 10);
    }
  }

  /** Different numbers print differently. */
  lemma {:induction false} DecimalInjective(a: nat, b: nat)
    requires a != b
    ensures Decimal(a) != Decimal(b)
    decreases a
  {
    var sa, sb := Decimal(a), Decimal(b);
    if a < 10 && b < 10 {
      assert sa[0] == Digit(a) && sb[0] == Digit(b);
    } else if a < 10 || b < 10 {
      assert |sa| != |sb|;
    } else if a % 10 != b % 10 {
      assert sa[|sa| - 1] == Digit(a % 10) && sb[|sb| - 1] == Digit(b % 10);
    } else {
      assert a / 10 != b / 10;
      DecimalInjective(a / 10, b / 10);
      assert sa[..|sa| - 1] == Decimal(a / 10);
      assert sb[..|sb| - 1] == Decimal(b / 10);
    }
  }

  /** The name of consumer `id`: `fmt.Sprintf("%s%d", prefix, id)`. */
  function ConsumerName(prefix: string, id: nat): (name: string)
    ensures |name| == |prefix| + |Decimal(id)|
    ensures name[..|prefix|] == prefix && name[|prefix|..] == Decimal(id)
  {
    prefix + Decimal(id)
  }

  /** Consumers with different ordinals have different names. */
  lemma ConsumerNamesDistinct(prefix: string, i: nat, j: nat)
    requires i != j
    ensures ConsumerName(prefix, i) != ConsumerName(prefix, j)
  {
    DecimalInjective(i, j);
  }

  /** The loop that starts the workers: one per ordinal 1..count, each under
      its own name. A count of zero or less starts none. */
  method SpawnConsumers(prefix: string, count: int) returns (names: seq<string>)
    ensures |names| == if count > 0 then count else 0
    ensures forall k :: 0 <= k < |names| ==> names[k] == ConsumerName(prefix, k + 1)
    ensures forall j, k :: 0 <= j < k < |names| ==> names[j] != names[k]
  {
    names := [];
    var id := 1;
    while id <= count
      invariant 1 <= id && (count >= 1 ==> id <= count + 1) && (count < 1 ==> id == 1)
      invariant |names| == id - 1
      invariant forall k :: 0 <= k < |names| ==> names[k] == ConsumerName(prefix, k + 1)
    {
      names := names + [ConsumerName(prefix, id)];
      id := id + 1;
    }
    forall j, k | 0 <= j < k < |names|
      ensures names[j] != names[k]
    {
      ConsumerNamesDistinct(prefix, j + 1, k + 1);
    }
  }

  /** What `main` does once the reporter returned. */
  datatype Shutdown = Shutdown(closeStop: bool, awaited: nat)

  /** What `main` does once the report is out. After an interrupt it
      returns without closing the stop channel or waiting for any worker.
      Otherwise it closes the stop channel and waits for every worker it
      started. */
  function ShutdownAfter(closed: bool, workers: nat): (s: Shutdown)
    ensures closed <==> !s.closeStop
    ensures s.awaited == (if closed then 0 else workers)
  {
    if closed then Shutdown(false, 0) else Shutdown(true, workers)
  }

  /** How a benchmark run ends. `Unfinished` is a run whose reporter had not
      returned when the scripted events ran out. */
  datatype RunEnd =
    | SetupFailed(step: Step)
    | Unfinished(target: nat, names: seq<string>)
    | Finished(target: nat, names: seq<string>, closed: bool, start: nat,
               total: nat, series: seq<nat>, shutdown: Shutdown)

  /** `main`, sequentially: setup, start the workers, report, shut down. */
  method Benchmark(requested: nat, dial: Status, xlen: LenReply, destroy: Status,
                   create: Status, prefix: string, consumers: int, t0: nat,
                   events: seq<Event>) returns (end: RunEnd)
    requires Fits(events)
    ensures var s := Setup(requested, dial, xlen, destroy, create);
            && (s.Fatal? <==> end.SetupFailed?)
            && (s.Fatal? ==> end.step == s.step)
            && (s.Ready? ==> end.target == s.target
                             && |end.names| == (if consumers > 0 then consumers else 0)
                             && forall k :: 0 <= k < |end.names| ==>
                                  end.names[k] == ConsumerName(prefix, k + 1))
    ensures end.Unfinished? || end.Finished? ==>
              var r := Observe(end.target, events, 0, Init(t0));
              && (end.Unfinished? <==> r.verdict == Waiting)
              && (end.Finished? ==>
                    && end.closed == (r.verdict == Cancelled)
                    && end.start == r.watch.start && end.total == r.total
                    && end.series == r.watch.deltas
                    && end.shutdown == ShutdownAfter(end.closed, |end.names|))
  {
    var s := Setup(requested, dial, xlen, destroy, create);
    if s.Fatal? {
      return SetupFailed(s.step);
    }
    var names := SpawnConsumers(prefix, consumers);
    var verdict, start, total, series := UpdateCli(t0, s.target, events);
    if verdict == Waiting {
      return Unfinished(s.target, names);
    }
    var closed := verdict == Cancelled;
    end := Finished(s.target, names, closed, start, total, series,
                    ShutdownAfter(closed, |names|));
  }
}
