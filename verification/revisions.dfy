/**
 * The two revisions of `receive data` side by side. cmd/recieve.go is the
 * older one; cmd/receive.go replaced it. They agree on every run whose
 * count is not zero, as long as the newer one is given no `--expect` and the
 * older one would not print its idle notice; they differ in what `--no-ack`
 * counts, in what a count of zero means, and in the final newline.
 */
module Revisions {
  import opened Delivery
  import N = Receive
  import L = ReceiveLegacy

  /** The newer revision's options for the same command line, without `--expect`. */
  function Newer(c: L.Config): N.Config {
    N.Config(if c.quiet then 1 else 0, c.verbose, c.format, -1, c.count, c.wait, c.noAck, c.render)
  }

  /** Both revisions hand the subscription the same receive settings. */
  lemma FlowSettingsAgree(concurrency: int, defaultGoroutines: nat)
    ensures L.ReceiveSettings(concurrency, defaultGoroutines) == FlowSettings(concurrency, defaultGoroutines)
  {
  }

  /**
   * With a non-zero count and no `--expect`, both revisions announce the
   * same thing; a count of zero is announced as a bound of zero by the newer
   * one and as no limit by the older one.
   */
  lemma AnnounceAgree(c: L.Config)
    ensures c.count != 0 ==> N.Announce(Newer(c)) == L.Announce(c)
    ensures c.count == 0 && c.verbose ==>
              && N.Announce(Newer(c)).value.n == 0
              && !NamesCount(L.Announce(c).value)
  {
  }

  /** Both revisions build the same display string for a message. */
  lemma RecvAgree(c: L.Config, m: Message)
    ensures N.Recv(Newer(c), m).text == L.Recv(c, m)
    ensures N.Recv(Newer(c), m).dot <==> c.quiet || c.format == NoneFormat
  {
  }

  /** The two states show the same behaviour so far. */
  ghost predicate Agree(c: L.Config, a: N.State, b: L.State) {
    && a.tproc == b.tproc
    && a.stopped == b.stopped
    && a.output == b.output
    && a.calls == b.calls
    && N.MessagesOf(a.decisions) == b.taken
    && (if c.noAck then a.tmsg == 0 && a.tbytes == 0 else a.tmsg == b.tmsg && a.tbytes == b.tbytes)
  }

  lemma StepAgree(c: L.Config, a: N.State, b: L.State, e: Event)
    requires c.count != 0 && !(c.verbose && c.wait > 0 && e.Idle?)
    requires L.Consistent(c, b) && Agree(c, a, b)
    ensures Agree(c, N.Step(Newer(c), a, e), L.Step(c, b, e))
  {
    if e.Deliver? && !a.stopped {
      assert c.count > 0 ==> b.tproc < c.count;
      DeliverAgree(c, a, b, e.msg);
    }
  }

  /** A delivery to a running stage: both accept it, show the same string and make the same call. */
  lemma DeliverAgree(c: L.Config, a: N.State, b: L.State, m: Message)
    requires c.count != 0 && !a.stopped && Agree(c, a, b)
    requires c.count > 0 ==> a.tproc < c.count
    ensures Agree(c, N.Step(Newer(c), a, Deliver(m)), L.Step(c, b, Deliver(m)))
  {
    var cfg := Newer(c);
    var n := a.tproc + 1;
    assert N.Admits(cfg, n) && L.Forwards(c, n);
    assert N.StopsAfter(cfg, n) == L.Stops(c, n);
    RecvAgree(c, m);
    N.DeliverAdmitted(cfg, a, m);
    N.DecisionSnoc(a.decisions, N.Accepted(m));
    L.DeliverForwarded(c, b, m);
  }

  /** The older revision writes no idle notice: not both `--verbose` and `--wait`, or no idle event. */
  predicate NoIdleNotice(c: L.Config, t: seq<Event>) {
    !(c.verbose && c.wait > 0) || forall i :: 0 <= i < |t| ==> !t[i].Idle?
  }

  /**
   * For every event trace, with a non-zero count, no `--expect`, and no
   * verbose idle notice (`NoIdleNotice`), both revisions process, forward and ack the same
   * messages and stop at the same point; they also count the same messages
   * and bytes, except under `--no-ack`, where the newer one counts nothing
   * and the older one counts every processed message.
   */
  lemma {:induction false} SameBehaviour(c: L.Config, t: seq<Event>)
    requires c.count != 0 && NoIdleNotice(c, t)
    ensures var a := N.Run(Newer(c), t);
            var b := L.Run(c, t);
            && a.tproc == b.tproc
            && a.stopped == b.stopped
            && a.output == b.output
            && a.calls == b.calls
            && N.MessagesOf(a.decisions) == b.taken
            && (!c.noAck ==> a.tmsg == b.tmsg && a.tbytes == b.tbytes)
            && (c.noAck ==> a.tmsg == 0 && a.tbytes == 0 && b.tmsg == b.tproc)
  {
    if |t| > 0 {
      var t' := t[..|t| - 1];
      assert forall i :: 0 <= i < |t'| ==> t'[i] == t[i];
      SameBehaviour(c, t');
      L.RunConsistent(c, t');
      StepAgree(c, N.Run(Newer(c), t'), L.Run(c, t'), t[|t| - 1]);
    }
    L.RunConsistent(c, t);
  }

  /**
   * A count of zero is a bound of zero to the newer revision (the first
   * message is nacked and the stage stops) but no limit at all to the older
   * one (the message is acked and shown and the stage runs on).
   */
  lemma ZeroCountDiverges(c: L.Config, m: Message)
    requires c.count == 0
    ensures var a := N.Run(Newer(c), [Deliver(m)]);
            && a.stopped && a.output == []
            && a.decisions == [N.Refused(m)]
            && a.calls == (if c.noAck then [] else [NackCall(m.id)])
    ensures var b := L.Run(c, [Deliver(m)]);
            && !b.stopped && b.output == [L.Recv(c, m)]
            && b.taken == [m]
            && b.calls == (if c.noAck then [] else [AckCall(m.id)])
  {
    assert [Deliver(m)][..0] == [];
  }

  /**
   * `--quiet` with nothing delivered: the older revision still prints a
   * final newline, the newer one does not (it ends only dots it printed).
   */
  lemma QuietNewlineDiffers(c: L.Config, t: seq<Event>)
    requires c.quiet && Delivered(t) == []
    ensures L.Shutdown(c, L.Run(c, t)).trailingNewline
    ensures var r := N.Shutdown(Newer(c), N.Run(Newer(c), t));
            r.Success? && !r.value.trailingNewline
  {
    N.ShutdownVerdict(Newer(c), t);
  }
}
