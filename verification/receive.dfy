/**
 * `receive data` as cmd/receive.go has it: a decision stage that numbers
 * every dequeued message, acks and forwards it while the number is within
 * the bound (`--expect`, else `--count`, else none), nacks it otherwise, and
 * stops after the message whose number reaches the bound.
 *
 * The decision stage is the only consumer of the processing queue, so its
 * `select` is modelled as a fold over the sequence of events it sees.
 */
module Receive {
  import opened Wrappers
  import opened Text
  import opened Delivery

  /** The options of `receive data`; `quiet` is a suppression level. */
  datatype Config = Config(
    quiet: nat,
    verbose: bool,
    format: Format,
    expected: int,
    count: int,
    wait: int,
    noAck: bool,
    render: Renderers)

  // ---------------------------------------------------------------------------
  // The delivery callback's display string

  /** The display string built by the delivery callback, and whether it counted a progress dot. */
  datatype Rendered = Rendered(text: seq<byte>, dot: bool)

  /** The settings under which a message is shown as a progress dot. */
  predicate DotMode(cfg: Config) {
    cfg.quiet == 1 || (cfg.quiet == 0 && cfg.format == NoneFormat)
  }

  /**
   * The display string of one message: nothing at quiet level 2 and above, a
   * dot at level 1 or with `--output none`, else the JSON line or the pretty
   * layout.
   */
  function Recv(cfg: Config, m: Message): (r: Rendered)
    ensures r.dot <==> DotMode(cfg)
    ensures r.dot ==> r.text == Dot
    ensures cfg.quiet > 1 ==> r.text == []
    ensures cfg.quiet == 0 && cfg.format == Json ==> r.text == cfg.render.json(m)
    ensures cfg.quiet == 0 && cfg.format == Pretty ==> r.text == PrettyBlock(m, cfg.render, cfg.verbose)
  {
    if cfg.quiet > 1 then Rendered([], false)
    else if cfg.quiet > 0 || cfg.format == NoneFormat then Rendered(Dot, true)
    else if cfg.format == Json then Rendered(cfg.render.json(m), false)
    else Rendered(PrettyBlock(m, cfg.render, cfg.verbose), false)
  }

  /**
   * The `--output` text, read through `Format`, decides the display when not
   * quiet: "none" gives dots, "json" the JSON line, any other value the pretty
   * layout.
   */
  lemma OutputFlag(cfg: Config, output: string, m: Message)
    requires cfg.format == FormatOf(output)
    ensures cfg.quiet == 0 ==> (Recv(cfg, m).dot <==> output == "none")
    ensures cfg.quiet == 0 && output == "json" ==> Recv(cfg, m).text == cfg.render.json(m)
    ensures cfg.quiet == 0 && output != "none" && output != "json" ==>
              Recv(cfg, m).text == PrettyBlock(m, cfg.render, cfg.verbose)
  {
  }

  // ---------------------------------------------------------------------------
  // The decision rule

  /** The bound on accepted messages: `--expect` if set, else `--count` if set, else none. */
  function Bound(cfg: Config): (k: Option<nat>)
    ensures k.None? <==> cfg.expected < 0 && cfg.count < 0
    ensures k.Some? ==> k.value == (if cfg.expected >= 0 then cfg.expected else cfg.count)
  {
    if cfg.expected >= 0 then Some(cfg.expected)
    else if cfg.count >= 0 then Some(cfg.count)
    else None
  }

  /** The `n`-th processed message is acked and forwarded. */
  predicate Admits(cfg: Config, n: nat) {
    Bound(cfg).None? || n <= Bound(cfg).value
  }

  /** The decision stage stops after the `n`-th processed message. */
  predicate StopsAfter(cfg: Config, n: nat) {
    Bound(cfg).Some? && n + 1 > Bound(cfg).value
  }

  /** What the decision stage did with a message: `m.Ack()` or `m.Nack()`. */
  datatype Decision = Accepted(msg: Message) | Refused(msg: Message)

  /**
   * The pipeline's state: the three counters, the dot counter of the
   * callback, the decisions taken, the calls that reached the backend, the
   * display strings handed to the writer, and whether the stage has stopped.
   */
  datatype State = State(
    tproc: nat,
    tmsg: nat,
    tbytes: nat,
    dots: nat,
    decisions: seq<Decision>,
    calls: seq<Call>,
    output: seq<seq<byte>>,
    stopped: bool)

  const Start: State := State(0, 0, 0, 0, [], [], [], false)

  /** `message.Ack`: without `--no-ack` the ack closure acks the message and counts it and its bytes. */
  function AckMessage(cfg: Config, s: State, m: Message): State {
    if cfg.noAck then s
    else s.(calls := s.calls + [AckCall(m.id)], tmsg := s.tmsg + 1, tbytes := s.tbytes + |m.data|)
  }

  /** `message.Nack`: without `--no-ack` the message is nacked; no counter changes. */
  function NackMessage(cfg: Config, s: State, m: Message): State {
    if cfg.noAck then s else s.(calls := s.calls + [NackCall(m.id)])
  }

  /** One iteration of the decision stage on a dequeued message and its display string. */
  function Process(cfg: Config, s: State, m: Message, text: seq<byte>): State {
    var n := s.tproc + 1;
    var s' := if Admits(cfg, n)
      then AckMessage(cfg, s, m).(decisions := s.decisions + [Accepted(m)], output := s.output + [text])
      else NackMessage(cfg, s, m).(decisions := s.decisions + [Refused(m)]);
    s'.(tproc := n, stopped := StopsAfter(cfg, n))
  }

  /**
   * One event. A delivery always runs the callback's formatting (and so may
   * count a dot); once the stage has stopped, the callback's hand-over loses
   * to the cancelled context and the message is dropped. The idle timer can
   * only fire when `--wait` is positive.
   */
  function Step(cfg: Config, s: State, e: Event): (r: State)
    ensures s.stopped ==> r.stopped
    ensures s.output <= r.output && s.calls <= r.calls
    ensures e.Deliver? && !s.stopped ==>
              && r.tproc == s.tproc + 1
              && |r.decisions| == |s.decisions| + 1
              && r.decisions[..|s.decisions|] == s.decisions
              && r.decisions[|s.decisions|].msg == e.msg
    ensures !(e.Deliver? && !s.stopped) ==>
              && r.tproc == s.tproc && r.decisions == s.decisions && r.calls == s.calls
              && r.output == s.output && r.tmsg == s.tmsg && r.tbytes == s.tbytes
  {
    match e
    case Deliver(m) =>
      var s' := WithDot(cfg, s, m);
      if s.stopped then s'
      else
        var r := Process(cfg, s', m, Recv(cfg, m).text);
        assert r.decisions[..|s.decisions|] == s.decisions;
        r
    case Idle => if cfg.wait > 0 then s.(stopped := true) else s
    case Cancel => s.(stopped := true)
    case Closed => s.(stopped := true)
  }

  /** The state after the decision stage has seen the events of `t`, in order. */
  function Run(cfg: Config, t: seq<Event>): State {
    if |t| == 0 then Start else Step(cfg, Run(cfg, t[..|t| - 1]), t[|t| - 1])
  }

  /** Everything the writer prints, in the order the decision stage forwarded it. */
  function Printed(cfg: Config, t: seq<Event>): seq<byte> {
    Concat(Run(cfg, t).output)
  }

  // ---------------------------------------------------------------------------
  // Start-up

  /**
   * The start-up line logged to standard error with `--verbose`: it states
   * the bound the decision stage will apply, says "expect" when the bound is
   * `--expect`, and names the idle timeout when `--wait` is set.
   */
  function Announce(cfg: Config): (r: Option<Announcement>)
    ensures r.None? <==> !cfg.verbose
    ensures r.Some? ==> (NamesWait(r.value) <==> cfg.wait > 0)
    ensures r.Some? ==> (NamesCount(r.value) <==> Bound(cfg).Some?)
    ensures r.Some? && NamesCount(r.value) ==> r.value.n == Bound(cfg).value
    ensures r.Some? ==> (NamesExpect(r.value) <==> cfg.expected >= 0)
  {
    if !cfg.verbose then None
    else if cfg.expected >= 0 && cfg.wait > 0 then Some(ExpectingFor(cfg.expected))
    else if cfg.count >= 0 && cfg.wait > 0 then Some(UpToFor(cfg.count))
    else if cfg.expected >= 0 then Some(Expected(cfg.expected))
    else if cfg.count >= 0 then Some(Receiving(cfg.count))
    else if cfg.wait > 0 then Some(ReceivingFor)
    else Some(Forever)
  }

  // ---------------------------------------------------------------------------
  // Shutdown

  /**
   * What is logged to standard error at the end: the newline closing the
   * dots, and, when `shown`, the summary line with the accepted messages and
   * bytes.
   */
  datatype Summary = Summary(trailingNewline: bool, messages: nat, bytes: nat, shown: bool)

  /** "Expected: <expect> messages; received: <tproc> (accepted <tmsg>)" */
  datatype Mismatch = Mismatch(expected: nat, received: nat, accepted: nat)

  /**
   * After the pipeline is joined: an `--expect` that was not met exactly is
   * fatal (and the program exits before anything else is logged); otherwise
   * a newline ends the dots when any were printed at a quiet level.
   */
  function Shutdown(cfg: Config, s: State): (r: Result<Summary, Mismatch>)
    ensures r.Failure? <==> cfg.expected >= 0 && s.tproc != cfg.expected
    ensures r.Success? ==> r.value.trailingNewline == (cfg.quiet > 0 && s.dots > 0)
    ensures r.Success? ==> r.value.messages == s.tmsg && r.value.bytes == s.tbytes
    ensures r.Success? ==> (r.value.shown <==> cfg.verbose)
  {
    if cfg.expected >= 0 && s.tproc != cfg.expected then Failure(Mismatch(cfg.expected, s.tproc, s.tmsg))
    else Success(Summary(cfg.quiet > 0 && s.dots > 0, s.tmsg, s.tbytes, cfg.verbose))
  }

  // ---------------------------------------------------------------------------
  // Reference views of the decision log

  function MessagesOf(ds: seq<Decision>): (ms: seq<Message>)
    ensures |ms| == |ds|
    ensures forall i :: 0 <= i < |ds| ==> ms[i] == ds[i].msg
  {
    if |ds| == 0 then [] else MessagesOf(ds[..|ds| - 1]) + [ds[|ds| - 1].msg]
  }

  /** The accepted messages, in decision order. */
  function AcceptedMessages(ds: seq<Decision>): seq<Message> {
    if |ds| == 0 then []
    else
      var ms := AcceptedMessages(ds[..|ds| - 1]);
      if ds[|ds| - 1].Accepted? then ms + [ds[|ds| - 1].msg] else ms
  }

  /** The backend calls the decisions make when acks are enabled. */
  function CallsOf(ds: seq<Decision>): (cs: seq<Call>)
    ensures |cs| == |ds|
    ensures forall i :: 0 <= i < |ds| ==>
              cs[i] == (if ds[i].Accepted? then AckCall(ds[i].msg.id) else NackCall(ds[i].msg.id))
  {
    if |ds| == 0 then []
    else
      var d := ds[|ds| - 1];
      CallsOf(ds[..|ds| - 1]) + [if d.Accepted? then AckCall(d.msg.id) else NackCall(d.msg.id)]
  }

  /** The display strings of a list of messages. */
  function Displays(cfg: Config, ms: seq<Message>): (r: seq<seq<byte>>)
    ensures |r| == |ms|
    ensures forall i :: 0 <= i < |ms| ==> r[i] == Recv(cfg, ms[i]).text
  {
    if |ms| == 0 then [] else Displays(cfg, ms[..|ms| - 1]) + [Recv(cfg, ms[|ms| - 1]).text]
  }

  /** Each processed message has exactly one decision: acked iff its number is within the bound. */
  ghost predicate Numbered(cfg: Config, s: State) {
    && s.tproc == |s.decisions|
    && (forall i :: 0 <= i < |s.decisions| ==> (s.decisions[i].Accepted? <==> Admits(cfg, i + 1)))
  }

  /** The writer got the display strings of the accepted messages, in order. */
  ghost predicate Forwarded(cfg: Config, s: State) {
    s.output == Displays(cfg, AcceptedMessages(s.decisions))
  }

  /** Backend calls and acceptance counters follow the decisions, unless acks are disabled. */
  ghost predicate Counted(cfg: Config, s: State) {
    && s.calls == (if cfg.noAck then [] else CallsOf(s.decisions))
    && s.tmsg == (if cfg.noAck then 0 else |AcceptedMessages(s.decisions)|)
    && s.tbytes == (if cfg.noAck then 0 else PayloadBytes(AcceptedMessages(s.decisions)))
  }

  /** The stage stops once the bound is reached, so it never processes past `max(k, 1)`. */
  ghost predicate Limited(cfg: Config, s: State) {
    && (s.tproc > 0 && StopsAfter(cfg, s.tproc) ==> s.stopped)
    && (Bound(cfg).Some? ==> s.tproc <= Max(Bound(cfg).value, 1))
  }

  /** The invariant of the decision stage. */
  ghost predicate Consistent(cfg: Config, s: State) {
    Numbered(cfg, s) && Forwarded(cfg, s) && Counted(cfg, s) && Limited(cfg, s)
  }

  lemma StepConsistent(cfg: Config, s: State, e: Event)
    requires Consistent(cfg, s)
    ensures Consistent(cfg, Step(cfg, s, e))
  {
    if e.Deliver? && !s.stopped {
      var m := e.msg;
      var s' := WithDot(cfg, s, m);
      StepDeliver(cfg, s, m);
      assert Numbered(cfg, s') && Forwarded(cfg, s') && Counted(cfg, s') && Limited(cfg, s');
      ProcessNumbered(cfg, s', m, Recv(cfg, m).text);
      ProcessForwarded(cfg, s', m);
      ProcessCounted(cfg, s', m, Recv(cfg, m).text);
      ProcessLimited(cfg, s', m, Recv(cfg, m).text);
    }
  }

  /** The state after the callback has formatted `m`, counting its dot if it printed one. */
  function WithDot(cfg: Config, s: State, m: Message): State {
    s.(dots := s.dots + if Recv(cfg, m).dot then 1 else 0)
  }

  /** A delivery to a running stage is one iteration of the stage. */
  lemma StepDeliver(cfg: Config, s: State, m: Message)
    requires !s.stopped
    ensures Step(cfg, s, Deliver(m)) == Process(cfg, WithDot(cfg, s, m), m, Recv(cfg, m).text)
  {
  }

  /** A delivery the bound admits, to a running stage: everything it changes. */
  lemma DeliverAdmitted(cfg: Config, s: State, m: Message)
    requires !s.stopped && Admits(cfg, s.tproc + 1)
    ensures var r := Step(cfg, s, Deliver(m));
            && r.tproc == s.tproc + 1
            && r.stopped == StopsAfter(cfg, s.tproc + 1)
            && r.decisions == s.decisions + [Accepted(m)]
            && r.output == s.output + [Recv(cfg, m).text]
            && r.calls == (if cfg.noAck then s.calls else s.calls + [AckCall(m.id)])
            && r.tmsg == (if cfg.noAck then s.tmsg else s.tmsg + 1)
            && r.tbytes == (if cfg.noAck then s.tbytes else s.tbytes + |m.data|)
  {
    StepDeliver(cfg, s, m);
  }

  lemma ProcessNumbered(cfg: Config, s: State, m: Message, text: seq<byte>)
    requires Numbered(cfg, s)
    ensures Numbered(cfg, Process(cfg, s, m, text))
  {
    var r := Process(cfg, s, m, text);
    assert r.decisions[..|s.decisions|] == s.decisions;
  }

  lemma ProcessForwarded(cfg: Config, s: State, m: Message)
    requires Forwarded(cfg, s)
    ensures Forwarded(cfg, Process(cfg, s, m, Recv(cfg, m).text))
  {
    var d := if Admits(cfg, s.tproc + 1) then Accepted(m) else Refused(m);
    assert Process(cfg, s, m, Recv(cfg, m).text).decisions == s.decisions + [d];
    DecisionSnoc(s.decisions, d);
    var acc := AcceptedMessages(s.decisions);
    assert (acc + [m])[..|acc|] == acc;
  }

  lemma ProcessCounted(cfg: Config, s: State, m: Message, text: seq<byte>)
    requires Counted(cfg, s)
    ensures Counted(cfg, Process(cfg, s, m, text))
  {
    var d := if Admits(cfg, s.tproc + 1) then Accepted(m) else Refused(m);
    ProcessEffect(cfg, s, m, text);
    DecisionSnoc(s.decisions, d);
    PayloadSnoc(AcceptedMessages(s.decisions), m);
  }

  /** What one iteration of the decision stage changes. */
  lemma ProcessEffect(cfg: Config, s: State, m: Message, text: seq<byte>)
    ensures var r := Process(cfg, s, m, text);
            var d := if Admits(cfg, s.tproc + 1) then Accepted(m) else Refused(m);
            && r.decisions == s.decisions + [d]
            && r.calls == (if cfg.noAck then s.calls
                           else s.calls + [if d.Accepted? then AckCall(m.id) else NackCall(m.id)])
            && r.tmsg == (if !cfg.noAck && d.Accepted? then s.tmsg + 1 else s.tmsg)
            && r.tbytes == (if !cfg.noAck && d.Accepted? then s.tbytes + |m.data| else s.tbytes)
  {
  }

  /** Appending a decision appends to each view of the decision log. */
  lemma DecisionSnoc(ds: seq<Decision>, d: Decision)
    ensures AcceptedMessages(ds + [d]) == if d.Accepted? then AcceptedMessages(ds) + [d.msg] else AcceptedMessages(ds)
    ensures CallsOf(ds + [d]) == CallsOf(ds) + [if d.Accepted? then AckCall(d.msg.id) else NackCall(d.msg.id)]
    ensures MessagesOf(ds + [d]) == MessagesOf(ds) + [d.msg]
  {
    assert (ds + [d])[..|ds|] == ds;
  }

  lemma PayloadSnoc(ms: seq<Message>, m: Message)
    ensures PayloadBytes(ms + [m]) == PayloadBytes(ms) + |m.data|
  {
    assert (ms + [m])[..|ms|] == ms;
  }

  lemma ProcessLimited(cfg: Config, s: State, m: Message, text: seq<byte>)
    requires Limited(cfg, s)
    requires !s.stopped
    ensures Limited(cfg, Process(cfg, s, m, text))
  {
  }

  /** Every state the decision stage reaches satisfies the invariant. */
  lemma {:induction false} RunConsistent(cfg: Config, t: seq<Event>)
    ensures Consistent(cfg, Run(cfg, t))
  {
    if |t| > 0 {
      RunConsistent(cfg, t[..|t| - 1]);
      StepConsistent(cfg, Run(cfg, t[..|t| - 1]), t[|t| - 1]);
    }
  }

  /**
   * The processed messages are the first deliveries of the trace, in order;
   * while the stage has not stopped, every delivery has been processed.
   */
  lemma {:induction false} RunTakesDeliveredPrefix(cfg: Config, t: seq<Event>)
    ensures MessagesOf(Run(cfg, t).decisions) <= Delivered(t)
    ensures !Run(cfg, t).stopped ==> MessagesOf(Run(cfg, t).decisions) == Delivered(t)
  {
    if |t| > 0 {
      var t' := t[..|t| - 1];
      RunTakesDeliveredPrefix(cfg, t');
      var s := Run(cfg, t');
      var r := Run(cfg, t);
      var e := t[|t| - 1];
      if e.Deliver? && !s.stopped {
        assert MessagesOf(r.decisions) == MessagesOf(s.decisions) + [e.msg];
      }
    }
  }

  /** One dot per delivered message exactly when messages are shown as dots. */
  lemma {:induction false} RunDots(cfg: Config, t: seq<Event>)
    ensures Run(cfg, t).dots == (if DotMode(cfg) then |Delivered(t)| else 0)
  {
    if |t| > 0 {
      RunDots(cfg, t[..|t| - 1]);
    }
  }

  // ---------------------------------------------------------------------------
  // Properties of whole runs

  /** The subsequence of `ms` whose positions (counted from 1) the bound admits. */
  function Admitted(cfg: Config, ms: seq<Message>): seq<Message> {
    if |ms| == 0 then []
    else
      var init := Admitted(cfg, ms[..|ms| - 1]);
      if Admits(cfg, |ms|) then init + [ms[|ms| - 1]] else init
  }

  lemma {:induction false} AcceptedAreAdmitted(cfg: Config, ds: seq<Decision>)
    requires forall i :: 0 <= i < |ds| ==> (ds[i].Accepted? <==> Admits(cfg, i + 1))
    ensures AcceptedMessages(ds) == Admitted(cfg, MessagesOf(ds))
  {
    if |ds| > 0 {
      var ds' := ds[..|ds| - 1];
      AcceptedAreAdmitted(cfg, ds');
      assert MessagesOf(ds)[..|ds| - 1] == MessagesOf(ds');
    }
  }

  lemma {:induction false} AllAccepted(ds: seq<Decision>)
    requires forall i :: 0 <= i < |ds| ==> ds[i].Accepted?
    ensures AcceptedMessages(ds) == MessagesOf(ds)
  {
    if |ds| > 0 {
      AllAccepted(ds[..|ds| - 1]);
    }
  }

  /**
   * The `n`-th processed message is the `n`-th delivery, and it is acked and
   * its display forwarded iff `n` is within the bound; otherwise it is
   * nacked and not forwarded. What the writer receives is exactly the
   * admitted subsequence of the processed deliveries, in dequeue order.
   */
  lemma RunDecisions(cfg: Config, t: seq<Event>)
    ensures var s := Run(cfg, t);
            && s.tproc == |s.decisions| <= |Delivered(t)|
            && (forall i :: 0 <= i < s.tproc ==> s.decisions[i].msg == Delivered(t)[i])
            && (forall i :: 0 <= i < s.tproc ==> (s.decisions[i].Accepted? <==> Admits(cfg, i + 1)))
            && s.output == Displays(cfg, Admitted(cfg, Delivered(t)[..s.tproc]))
            && s.calls == (if cfg.noAck then [] else CallsOf(s.decisions))
  {
    RunConsistent(cfg, t);
    RunTakesDeliveredPrefix(cfg, t);
    DecisionsOf(cfg, Run(cfg, t), Delivered(t));
  }

  /** The decisions of a consistent state that has processed a prefix of `ms`. */
  lemma DecisionsOf(cfg: Config, s: State, ms: seq<Message>)
    requires Consistent(cfg, s) && MessagesOf(s.decisions) <= ms
    ensures s.tproc == |s.decisions| <= |ms|
    ensures forall i :: 0 <= i < s.tproc ==> s.decisions[i].msg == ms[i]
    ensures forall i :: 0 <= i < s.tproc ==> (s.decisions[i].Accepted? <==> Admits(cfg, i + 1))
    ensures s.output == Displays(cfg, Admitted(cfg, ms[..s.tproc]))
    ensures s.calls == (if cfg.noAck then [] else CallsOf(s.decisions))
  {
    assert Numbered(cfg, s) && Forwarded(cfg, s) && Counted(cfg, s);
    LoggedDecisions(cfg, s, ms);
  }

  lemma LoggedDecisions(cfg: Config, s: State, ms: seq<Message>)
    requires Numbered(cfg, s) && Forwarded(cfg, s) && MessagesOf(s.decisions) <= ms
    ensures s.tproc <= |ms|
    ensures forall i :: 0 <= i < s.tproc ==> s.decisions[i].msg == ms[i]
    ensures s.output == Displays(cfg, Admitted(cfg, ms[..s.tproc]))
  {
    AcceptedAreAdmitted(cfg, s.decisions);
    assert MessagesOf(s.decisions) == ms[..s.tproc];
  }

  /**
   * One backend call per processed message (none with `--no-ack`), and the
   * acceptance counters count exactly the admitted messages and their
   * bytes; with `--no-ack` both counters stay zero.
   */
  lemma AcceptanceCounters(cfg: Config, t: seq<Event>)
    ensures var s := Run(cfg, t);
            var admitted := Admitted(cfg, MessagesOf(s.decisions));
            && |s.calls| == (if cfg.noAck then 0 else s.tproc)
            && s.tmsg == (if cfg.noAck then 0 else |admitted|)
            && s.tbytes == (if cfg.noAck then 0 else PayloadBytes(admitted))
  {
    RunConsistent(cfg, t);
    AcceptedAreAdmitted(cfg, Run(cfg, t).decisions);
  }

  /** Later events never take back a decision, an output or a backend call. */
  lemma {:induction false} RunExtends(cfg: Config, t: seq<Event>, u: seq<Event>)
    ensures var a := Run(cfg, t);
            var b := Run(cfg, t + u);
            a.decisions <= b.decisions && a.output <= b.output && a.calls <= b.calls
    ensures var a := Run(cfg, t);
            var b := Run(cfg, t + u);
            a.stopped ==>
              && b.stopped && b.tproc == a.tproc && b.decisions == a.decisions
              && b.output == a.output && b.calls == a.calls
              && b.tmsg == a.tmsg && b.tbytes == a.tbytes
    decreases |u|
  {
    if |u| == 0 {
      assert t + u == t;
    } else {
      var u' := u[..|u| - 1];
      assert (t + u)[..|t + u| - 1] == t + u';
      RunExtends(cfg, t, u');
      var b' := Run(cfg, t + u');
      var b := Run(cfg, t + u);
      assert b == Step(cfg, b', (t + u)[|t + u| - 1]);
      assert b'.decisions <= b.decisions;
    }
  }

  /** The writer's output only ever grows at its end: it is printed in forwarding order. */
  lemma PrintedExtends(cfg: Config, t: seq<Event>, u: seq<Event>)
    ensures Printed(cfg, t) <= Printed(cfg, t + u)
  {
    RunExtends(cfg, t, u);
    var a := Run(cfg, t).output;
    var b := Run(cfg, t + u).output;
    assert b == a + b[|a|..];
    ConcatAppend(a, b[|a|..]);
  }

  /** Some event of `t` halts the stage. */
  predicate HaltsIn(cfg: Config, t: seq<Event>) {
    exists i :: 0 <= i < |t| && Halts(cfg.wait, t[i])
  }

  lemma HaltsInSnoc(cfg: Config, t: seq<Event>)
    requires |t| > 0
    ensures HaltsIn(cfg, t) <==> HaltsIn(cfg, t[..|t| - 1]) || Halts(cfg.wait, t[|t| - 1])
  {
    var t' := t[..|t| - 1];
    if HaltsIn(cfg, t') {
      var i :| 0 <= i < |t'| && Halts(cfg.wait, t'[i]);
      assert t[i] == t'[i];
    }
    if HaltsIn(cfg, t) && !Halts(cfg.wait, t[|t| - 1]) {
      var i :| 0 <= i < |t| && Halts(cfg.wait, t[i]);
      assert t'[i] == t[i];
    }
  }

  /** What stops the stage in one step. */
  lemma StepStops(cfg: Config, s: State, e: Event)
    ensures Step(cfg, s, e).stopped <==>
              s.stopped || Halts(cfg.wait, e) || (e.Deliver? && StopsAfter(cfg, s.tproc + 1))
    ensures s.stopped ==> Step(cfg, s, e).tproc == s.tproc
  {
  }

  /**
   * The stage has stopped exactly when a halting event occurred or the
   * number of the last processed message reached the bound; without a bound
   * the count never stops it.
   */
  lemma {:induction false} StopCause(cfg: Config, t: seq<Event>)
    ensures Run(cfg, t).stopped <==>
              HaltsIn(cfg, t) || (Run(cfg, t).tproc > 0 && StopsAfter(cfg, Run(cfg, t).tproc))
  {
    if |t| > 0 {
      var t' := t[..|t| - 1];
      var e := t[|t| - 1];
      StopCause(cfg, t');
      HaltsInSnoc(cfg, t);
      var s := Run(cfg, t');
      assert Run(cfg, t) == Step(cfg, s, e);
      StepStops(cfg, s, e);
      RunConsistent(cfg, t);
      assert Limited(cfg, Run(cfg, t));
    }
  }

  /**
   * With a bound of at least one, no message is ever nacked: at most `k`
   * messages are processed and every one is acked and forwarded.
   */
  lemma PositiveBoundNeverRefuses(cfg: Config, t: seq<Event>)
    requires Bound(cfg).Some? && Bound(cfg).value >= 1
    ensures var s := Run(cfg, t);
            && s.tproc <= Bound(cfg).value
            && s.tproc == |s.decisions| <= |Delivered(t)|
            && (forall i :: 0 <= i < |s.decisions| ==> s.decisions[i].Accepted?)
            && s.output == Displays(cfg, Delivered(t)[..s.tproc])
            && (forall i :: 0 <= i < |s.calls| ==> s.calls[i].AckCall?)
  {
    var s := Run(cfg, t);
    RunConsistent(cfg, t);
    RunTakesDeliveredPrefix(cfg, t);
    PositiveBoundAccepts(cfg, s);
    assert MessagesOf(s.decisions) == Delivered(t)[..s.tproc];
  }

  /** A consistent state under a bound `k >= 1` has processed at most `k` messages, all accepted. */
  lemma PositiveBoundAccepts(cfg: Config, s: State)
    requires Bound(cfg).Some? && Bound(cfg).value >= 1
    requires Consistent(cfg, s)
    ensures s.tproc <= Bound(cfg).value
    ensures forall i :: 0 <= i < |s.decisions| ==> s.decisions[i].Accepted?
    ensures s.output == Displays(cfg, MessagesOf(s.decisions))
    ensures forall i :: 0 <= i < |s.calls| ==> s.calls[i].AckCall?
  {
    assert Numbered(cfg, s) && Forwarded(cfg, s) && Counted(cfg, s);
    forall i | 0 <= i < |s.decisions|
      ensures s.decisions[i].Accepted?
    {
      assert Admits(cfg, i + 1);
    }
    AllAccepted(s.decisions);
  }

  /**
   * With a bound of zero, the first delivery is nacked, nothing is
   * forwarded or counted, and the stage stops at once; an `--expect 0` run
   * that receives a message therefore fails.
   */
  lemma ZeroBoundRefusesFirst(cfg: Config, t: seq<Event>)
    requires Bound(cfg) == Some(0)
    requires |t| > 0 && t[0].Deliver?
    ensures var s := Run(cfg, t);
            && s.stopped && s.tproc == 1
            && s.decisions == [Refused(t[0].msg)]
            && s.output == []
            && s.calls == (if cfg.noAck then [] else [NackCall(t[0].msg.id)])
            && s.tmsg == 0 && s.tbytes == 0
    ensures cfg.expected == 0 ==> Run(cfg, t).tproc == 1 && Shutdown(cfg, Run(cfg, t)).Failure?
  {
    var first := t[..1];
    assert Run(cfg, first) == Step(cfg, Start, t[0]) by {
      assert first[..0] == [];
    }
    RunExtends(cfg, first, t[1..]);
    assert first + t[1..] == t;
  }

  /**
   * Without a bound and without a halting event, every delivery is
   * processed, acked and forwarded, and the stage keeps running.
   */
  lemma UnboundedAcceptsAll(cfg: Config, t: seq<Event>)
    requires Bound(cfg).None?
    requires forall i :: 0 <= i < |t| ==> !Halts(cfg.wait, t[i])
    ensures var s := Run(cfg, t);
            && !s.stopped
            && s.tproc == |s.decisions| == |Delivered(t)|
            && (forall i :: 0 <= i < |s.decisions| ==> s.decisions[i] == Accepted(Delivered(t)[i]))
            && s.output == Displays(cfg, Delivered(t))
            && s.tmsg == (if cfg.noAck then 0 else |Delivered(t)|)
  {
    StopCause(cfg, t);
    assert !HaltsIn(cfg, t);
    RunConsistent(cfg, t);
    RunTakesDeliveredPrefix(cfg, t);
    UnboundedAccepts(cfg, Run(cfg, t));
  }

  /** Without a bound, a consistent state has accepted every message it processed. */
  lemma UnboundedAccepts(cfg: Config, s: State)
    requires Bound(cfg).None? && Consistent(cfg, s)
    ensures forall i :: 0 <= i < |s.decisions| ==> s.decisions[i] == Accepted(MessagesOf(s.decisions)[i])
    ensures s.tproc == |s.decisions|
    ensures s.output == Displays(cfg, MessagesOf(s.decisions))
    ensures s.tmsg == (if cfg.noAck then 0 else |s.decisions|)
  {
    assert Numbered(cfg, s) && Forwarded(cfg, s) && Counted(cfg, s);
    forall i | 0 <= i < |s.decisions|
      ensures s.decisions[i].Accepted?
    {
      assert Admits(cfg, i + 1);
    }
    AllAccepted(s.decisions);
  }

  /** With `--expect` set, `--count` plays no part. */
  lemma {:induction false} ExpectTakesPrecedence(cfg: Config, count: int, t: seq<Event>)
    requires cfg.expected >= 0
    ensures Run(cfg.(count := count), t) == Run(cfg, t)
    ensures Shutdown(cfg.(count := count), Run(cfg.(count := count), t)) == Shutdown(cfg, Run(cfg, t))
  {
    if |t| > 0 {
      ExpectTakesPrecedence(cfg, count, t[..|t| - 1]);
      StepIgnoresCount(cfg, count, Run(cfg, t[..|t| - 1]), t[|t| - 1]);
    }
  }

  lemma StepIgnoresCount(cfg: Config, count: int, s: State, e: Event)
    requires cfg.expected >= 0
    ensures Step(cfg.(count := count), s, e) == Step(cfg, s, e)
  {
    var cfg' := cfg.(count := count);
    assert Bound(cfg') == Bound(cfg);
    if e.Deliver? {
      assert Recv(cfg', e.msg) == Recv(cfg, e.msg);
    }
  }

  /**
   * The shutdown verdict: the run fails iff `--expect` is set and the number
   * of processed messages differs from it; otherwise the dots get a closing
   * newline iff the quiet level is exactly 1 and something was delivered.
   */
  lemma ShutdownVerdict(cfg: Config, t: seq<Event>)
    ensures var r := Shutdown(cfg, Run(cfg, t));
            && (r.Failure? <==> cfg.expected >= 0 && Run(cfg, t).tproc != cfg.expected)
            && (r.Success? ==> (r.value.trailingNewline <==> cfg.quiet == 1 && |Delivered(t)| > 0))
  {
    RunDots(cfg, t);
  }

  /** Processing `j <= k` deliveries in a row under bound `k >= 1` stops exactly at the `k`-th. */
  lemma {:induction false} DeliveriesUpToBound(cfg: Config, t: seq<Event>)
    requires Bound(cfg).Some? && 1 <= |t| <= Bound(cfg).value
    requires forall i :: 0 <= i < |t| ==> t[i].Deliver?
    ensures Run(cfg, t).tproc == |t|
    ensures Run(cfg, t).stopped <==> |t| == Bound(cfg).value
  {
    var t' := t[..|t| - 1];
    if |t'| > 0 {
      DeliveriesUpToBound(cfg, t');
    } else {
      assert Run(cfg, t') == Start;
    }
  }

  /**
   * When the first `k` events are deliveries, an `--expect k` run succeeds,
   * whatever follows: exactly `k` messages are processed and all are acked.
   */
  lemma ExpectMet(cfg: Config, t: seq<Event>)
    requires cfg.expected >= 1 && |t| >= cfg.expected
    requires forall i :: 0 <= i < cfg.expected ==> t[i].Deliver?
    ensures Run(cfg, t).tproc == cfg.expected
    ensures Shutdown(cfg, Run(cfg, t)).Success?
    ensures Run(cfg, t).tmsg == (if cfg.noAck then 0 else cfg.expected)
  {
    var k := cfg.expected;
    var head := t[..k];
    assert head + t[k..] == t;
    DeliveriesUpToBound(cfg, head);
    RunExtends(cfg, head, t[k..]);
    var a := Run(cfg, head);
    RunConsistent(cfg, head);
    PositiveBoundAccepts(cfg, a);
    AllAccepted(a.decisions);
    assert Counted(cfg, a) && Numbered(cfg, a);
    assert a.tmsg == (if cfg.noAck then 0 else k);
  }
}
