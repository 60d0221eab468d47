/**
 * `receive data` as the older revision, cmd/recieve.go, has it. The
 * delivery callback hands the display string over and then acks and counts
 * the message itself, whatever the decision stage does with it; the decision
 * stage forwards the `n`-th message iff `count < 1 || n <= count` and stops
 * iff `count > 0 && n >= count`, so a count of 0 (the default) means no limit.
 */
module ReceiveLegacy {
  import opened Wrappers
  import opened Text
  import opened Delivery
  import opened Cli

  // ---------------------------------------------------------------------------
  // Command line

  /** What `receive <args>` does: print the usage text, or run `data` on the remaining arguments. */
  datatype Command = Usage | Data(args: seq<string>)

  /** No arguments, `help` or any unknown subcommand print the usage and succeed; only `data` runs. */
  function Dispatch(args: seq<string>): (c: Command)
    ensures c.Data? <==> |args| > 0 && args[0] == "data"
    ensures c.Data? ==> c.args == args[1..]
  {
    if |args| < 1 then Usage
    else if args[0] == "data" then Data(args[1..])
    else Usage
  }

  /** The options of `receive data`; `quiet` is the `--quiet` switch. */
  datatype Config = Config(
    quiet: bool,
    verbose: bool,
    format: Format,
    count: int,
    wait: int,
    noAck: bool,
    render: Renderers)

  datatype Failure = NoSubscription | NoProject | NoSuchSubscription(name: string)

  /**
   * The checks before receiving, in order: a subscription name, a project,
   * then the backend's answer whether the subscription exists.
   */
  function Validate(subscription: string, project: string, found: bool): (r: Outcome<Failure>)
    ensures r == Fail(NoSubscription) <==> subscription == ""
    ensures r == Fail(NoProject) <==> subscription != "" && project == ""
    ensures r == Fail(NoSuchSubscription(subscription)) <==> subscription != "" && project != "" && !found
    ensures r == Pass <==> subscription != "" && project != "" && found
  {
    if subscription == "" then Fail(NoSubscription)
    else if project == "" then Fail(NoProject)
    else if !found then Fail(NoSuchSubscription(subscription))
    else Pass
  }

  /** `receive data` goes through the shared subcommand lookup with `data` as its only subcommand. */
  lemma DispatchLooksUp(args: seq<string>)
    ensures Dispatch(args).Usage? <==> Subcommand(args, {"data"}).None?
    ensures Dispatch(args).Data? ==> Subcommand(args, {"data"}) == Some(("data", Dispatch(args).args))
  {
  }

  /** The checks are the subscription, the project and the backend's answer, in that order. */
  lemma ValidateInOrder(subscription: string, project: string, found: bool)
    ensures Validate(subscription, project, found) ==
            FirstFailure([(subscription != "", NoSubscription), (project != "", NoProject)] +
                         [(found, NoSuchSubscription(subscription))])
  {
    var last := [(found, NoSuchSubscription(subscription))];
    var checks := [(subscription != "", NoSubscription), (project != "", NoProject)] + last;
    assert checks[1..][1..] == last && last[1..] == [];
    if subscription != "" {
      assert FirstFailure(checks) == FirstFailure(checks[1..]);
      if project != "" {
        assert FirstFailure(checks[1..]) == FirstFailure(last);
      }
    }
  }

  /**
   * The subscription's receive settings as this revision computes them: a
   * `--concurrency` below one is raised to one, and more than one
   * outstanding message takes the library's default number of goroutines.
   */
  function ReceiveSettings(concurrent: int, defaultGoroutines: nat): (f: FlowControl)
    ensures f.maxOutstanding >= 1
    ensures f.goroutines == (if f.maxOutstanding > 1 then defaultGoroutines else 1)
  {
    var maxFlight := if concurrent < 1 then 1 else concurrent;
    var maxRoutine := if maxFlight > 1 then defaultGoroutines else 1;
    FlowControl(maxFlight, maxRoutine)
  }

  /**
   * The start-up line printed to standard output with `--verbose`, once the
   * subscription is known to exist: it states a positive count and names
   * the idle timeout when `--wait` is set; it never speaks of `--expect`.
   */
  function Announce(cfg: Config): (r: Option<Announcement>)
    ensures r.None? <==> !cfg.verbose
    ensures r.Some? ==> (NamesWait(r.value) <==> cfg.wait > 0)
    ensures r.Some? ==> (NamesCount(r.value) <==> cfg.count > 0)
    ensures r.Some? && NamesCount(r.value) ==> r.value.n == cfg.count
    ensures r.Some? ==> !NamesExpect(r.value)
  {
    if !cfg.verbose then None
    else if cfg.count > 0 && cfg.wait > 0 then Some(UpToFor(cfg.count))
    else if cfg.count > 0 then Some(Receiving(cfg.count))
    else if cfg.wait > 0 then Some(ReceivingFor)
    else Some(Forever)
  }

  // ---------------------------------------------------------------------------
  // The pipeline

  /** The display string: a dot when quiet or with `--output none`, else the JSON line or the pretty layout. */
  function Recv(cfg: Config, m: Message): (r: seq<byte>)
    ensures cfg.quiet || cfg.format == NoneFormat ==> r == Dot
    ensures !cfg.quiet && cfg.format == Json ==> r == cfg.render.json(m)
    ensures !cfg.quiet && cfg.format == Pretty ==> r == PrettyBlock(m, cfg.render, cfg.verbose)
  {
    if cfg.quiet || cfg.format == NoneFormat then Dot
    else if cfg.format == Json then cfg.render.json(m)
    else PrettyBlock(m, cfg.render, cfg.verbose)
  }

  /**
   * The `--output` text, read through `Format`, decides the display when not
   * quiet: "none" gives a dot, "json" the JSON line, any other value the
   * pretty layout.
   */
  lemma OutputFlag(cfg: Config, output: string, m: Message)
    requires cfg.format == FormatOf(output)
    ensures !cfg.quiet && output == "none" ==> Recv(cfg, m) == Dot
    ensures !cfg.quiet && output == "json" ==> Recv(cfg, m) == cfg.render.json(m)
    ensures !cfg.quiet && output != "none" && output != "json" ==>
              Recv(cfg, m) == PrettyBlock(m, cfg.render, cfg.verbose)
  {
  }

  /** The `n`-th processed message is forwarded to the writer. */
  predicate Forwards(cfg: Config, n: nat) {
    cfg.count < 1 || n <= cfg.count
  }

  /** The decision stage stops after the `n`-th processed message. */
  predicate Stops(cfg: Config, n: nat) {
    cfg.count > 0 && n >= cfg.count
  }

  /** With `--verbose`, the idle timer's cancellation notice goes to the writer too. */
  function IdleNotice(cfg: Config): seq<byte> {
    Utf8("Canceling after receiving for " + cfg.render.duration(cfg.wait) + "...\n")
  }

  /**
   * The counters, the messages handed to the decision stage, the backend
   * calls, the strings handed to the writer, and whether the stage stopped.
   */
  datatype State = State(
    tproc: nat,
    tmsg: nat,
    tbytes: nat,
    taken: seq<Message>,
    calls: seq<Call>,
    output: seq<seq<byte>>,
    stopped: bool)

  const Start: State := State(0, 0, 0, [], [], [], false)

  /**
   * One event. A delivery after the stage stopped blocks on the unbuffered
   * queue and never reaches its ack or its counters. Otherwise the stage
   * numbers the message and forwards it or not, and the callback acks it
   * (without `--no-ack`) and counts it in every case.
   */
  function Step(cfg: Config, s: State, e: Event): (r: State)
    ensures s.stopped ==> r == s
    ensures e.Deliver? && !s.stopped ==> r.tproc == s.tproc + 1 && r.taken == s.taken + [e.msg]
    ensures !(e.Deliver? && !s.stopped) ==> r.tproc == s.tproc && r.taken == s.taken
    ensures s.output <= r.output && s.calls <= r.calls
  {
    if s.stopped then s
    else
      match e
      case Deliver(m) =>
        var n := s.tproc + 1;
        State(
          n,
          s.tmsg + 1,
          s.tbytes + |m.data|,
          s.taken + [m],
          if cfg.noAck then s.calls else s.calls + [AckCall(m.id)],
          if Forwards(cfg, n) then s.output + [Recv(cfg, m)] else s.output,
          Stops(cfg, n))
      case Idle =>
        if cfg.wait > 0
        then s.(output := if cfg.verbose then s.output + [IdleNotice(cfg)] else s.output, stopped := true)
        else s
      case Cancel => s.(stopped := true)
      case Closed => s.(stopped := true)
  }

  /** A delivery the count lets through, to a running stage: everything it changes. */
  lemma DeliverForwarded(cfg: Config, s: State, m: Message)
    requires !s.stopped && Forwards(cfg, s.tproc + 1)
    ensures var r := Step(cfg, s, Deliver(m));
            && r.tproc == s.tproc + 1
            && r.stopped == Stops(cfg, s.tproc + 1)
            && r.taken == s.taken + [m]
            && r.output == s.output + [Recv(cfg, m)]
            && r.calls == (if cfg.noAck then s.calls else s.calls + [AckCall(m.id)])
            && r.tmsg == s.tmsg + 1
            && r.tbytes == s.tbytes + |m.data|
  {
  }

  function Run(cfg: Config, t: seq<Event>): State {
    if |t| == 0 then Start else Step(cfg, Run(cfg, t[..|t| - 1]), t[|t| - 1])
  }

  /**
   * What is printed to standard output at the end: the final newline, and,
   * when `shown`, the summary line with the counted messages and bytes.
   */
  datatype Summary = Summary(trailingNewline: bool, messages: nat, bytes: nat, shown: bool)

  /** After the pipeline is joined: no error, a final newline whenever `--quiet` is set, the summary with `--verbose`. */
  function Shutdown(cfg: Config, s: State): (r: Summary)
    ensures r.trailingNewline == cfg.quiet
    ensures r.messages == s.tmsg && r.bytes == s.tbytes
    ensures r.shown == cfg.verbose
  {
    Summary(cfg.quiet, s.tmsg, s.tbytes, cfg.verbose)
  }

  // ---------------------------------------------------------------------------
  // Properties

  function Displays(cfg: Config, ms: seq<Message>): (r: seq<seq<byte>>)
    ensures |r| == |ms|
    ensures forall i :: 0 <= i < |ms| ==> r[i] == Recv(cfg, ms[i])
  {
    if |ms| == 0 then [] else Displays(cfg, ms[..|ms| - 1]) + [Recv(cfg, ms[|ms| - 1])]
  }

  function AckCalls(ms: seq<Message>): (cs: seq<Call>)
    ensures |cs| == |ms|
    ensures forall i :: 0 <= i < |ms| ==> cs[i] == AckCall(ms[i].id)
  {
    if |ms| == 0 then [] else AckCalls(ms[..|ms| - 1]) + [AckCall(ms[|ms| - 1].id)]
  }

  /** The invariant of the older decision stage. */
  ghost predicate Consistent(cfg: Config, s: State) {
    && s.tproc == |s.taken| == s.tmsg
    && s.tbytes == PayloadBytes(s.taken)
    && s.calls == (if cfg.noAck then [] else AckCalls(s.taken))
    && (|| s.output == Displays(cfg, s.taken)
        || (s.stopped && cfg.verbose && cfg.wait > 0 && s.output == Displays(cfg, s.taken) + [IdleNotice(cfg)]))
    && (cfg.count > 0 ==> s.tproc <= cfg.count)
    && (cfg.count > 0 && s.tproc >= cfg.count ==> s.stopped)
  }

  lemma StepConsistent(cfg: Config, s: State, e: Event)
    requires Consistent(cfg, s)
    ensures Consistent(cfg, Step(cfg, s, e))
  {
    if !s.stopped && e.Deliver? {
      assert Forwards(cfg, s.tproc + 1);
      DeliverForwarded(cfg, s, e.msg);
      TakenSnoc(cfg, s.taken, e.msg);
    }
  }

  /** Taking one more message extends each view of the taken messages. */
  lemma TakenSnoc(cfg: Config, ms: seq<Message>, m: Message)
    ensures Displays(cfg, ms + [m]) == Displays(cfg, ms) + [Recv(cfg, m)]
    ensures AckCalls(ms + [m]) == AckCalls(ms) + [AckCall(m.id)]
    ensures PayloadBytes(ms + [m]) == PayloadBytes(ms) + |m.data|
  {
    assert (ms + [m])[..|ms|] == ms;
  }

  lemma {:induction false} RunConsistent(cfg: Config, t: seq<Event>)
    ensures Consistent(cfg, Run(cfg, t))
  {
    if |t| > 0 {
      RunConsistent(cfg, t[..|t| - 1]);
      StepConsistent(cfg, Run(cfg, t[..|t| - 1]), t[|t| - 1]);
    }
  }

  /** The processed messages are the first deliveries of the trace; all of them while the stage runs. */
  lemma {:induction false} RunTakesDeliveredPrefix(cfg: Config, t: seq<Event>)
    ensures Run(cfg, t).taken <= Delivered(t)
    ensures !Run(cfg, t).stopped ==> Run(cfg, t).taken == Delivered(t)
  {
    if |t| > 0 {
      RunTakesDeliveredPrefix(cfg, t[..|t| - 1]);
    }
  }

  /**
   * Every processed message is acked (unless `--no-ack`), never nacked, and
   * counted in `tmsg` and `tbytes` even with `--no-ack`; every one is also
   * forwarded, since the stage stops before a number can pass the count.
   */
  lemma EveryProcessedIsAckedAndCounted(cfg: Config, t: seq<Event>)
    ensures var s := Run(cfg, t);
            && s.taken <= Delivered(t)
            && s.tmsg == s.tproc == |s.taken|
            && s.tbytes == PayloadBytes(s.taken)
            && s.calls == (if cfg.noAck then [] else AckCalls(s.taken))
            && (forall n: nat :: 1 <= n <= s.tproc ==> Forwards(cfg, n))
            && (|| s.output == Displays(cfg, s.taken)
                || (s.stopped && cfg.verbose && cfg.wait > 0 && s.output == Displays(cfg, s.taken) + [IdleNotice(cfg)]))
  {
    RunConsistent(cfg, t);
    RunTakesDeliveredPrefix(cfg, t);
  }

  /**
   * A positive count stops the stage right after the `count`-th message, so
   * at most `count` are processed; and a stage that has stopped either saw a
   * halting event or processed exactly a positive count, so a count below
   * one never stops it.
   */
  lemma {:induction false} StopRule(cfg: Config, t: seq<Event>)
    ensures cfg.count > 0 ==> Run(cfg, t).tproc <= cfg.count
    ensures cfg.count > 0 && Run(cfg, t).tproc == cfg.count ==> Run(cfg, t).stopped
    ensures Run(cfg, t).stopped ==>
              (exists i :: 0 <= i < |t| && Halts(cfg.wait, t[i])) || (cfg.count > 0 && Run(cfg, t).tproc == cfg.count)
  {
    RunConsistent(cfg, t);
    if |t| > 0 {
      var t' := t[..|t| - 1];
      var e := t[|t| - 1];
      StopRule(cfg, t');
      RunConsistent(cfg, t');
      var s := Run(cfg, t');
      assert Run(cfg, t) == Step(cfg, s, e);
      if s.stopped {
        if exists i :: 0 <= i < |t'| && Halts(cfg.wait, t'[i]) {
          var i :| 0 <= i < |t'| && Halts(cfg.wait, t'[i]);
          assert t[i] == t'[i];
        }
      } else if Halts(cfg.wait, e) {
        assert Halts(cfg.wait, t[|t| - 1]);
      }
    }
  }
}
