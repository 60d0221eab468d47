/**
 * What the `receive` and `publish` command groups share: the subcommand is
 * looked up by the first argument, and a subcommand's checks run in a fixed
 * order, the first one that fails deciding the error.
 */
module Cli {
  import opened Wrappers

  /**
   * The subcommand the first argument names, if it is one of `names`,
   * together with the arguments after it. No arguments, `help` and an
   * unknown word name none, and the group prints its usage text.
   */
  function Subcommand(args: seq<string>, names: set<string>): (r: Option<(string, seq<string>)>)
    ensures r.Some? <==> |args| > 0 && args[0] in names
    ensures r.Some? ==> r.value.0 in names && [r.value.0] + r.value.1 == args
  {
    if |args| > 0 && args[0] in names then Some((args[0], args[1..])) else None
  }

  /** Check `i` is the first of `checks` that does not hold. */
  predicate FailsFirstAt<E>(checks: seq<(bool, E)>, i: int) {
    && 0 <= i < |checks|
    && !checks[i].0
    && forall j :: 0 <= j < i ==> checks[j].0
  }

  /**
   * Checks made one after the other, each a condition and the error returned
   * when it does not hold: the error of the first one that does not hold.
   */
  function FirstFailure<E(==)>(checks: seq<(bool, E)>): (r: Outcome<E>)
    ensures r.Pass? <==> forall i :: 0 <= i < |checks| ==> checks[i].0
    ensures r.Fail? ==> exists i :: FailsFirstAt(checks, i) && r.error == checks[i].1
  {
    if |checks| == 0 then Pass
    else if !checks[0].0 then
      assert FailsFirstAt(checks, 0);
      Fail(checks[0].1)
    else
      var r := FirstFailure(checks[1..]);
      FailsFirstAfterHead(checks, r);
      r
  }

  /** A failure that comes first among the checks after a passing head comes first among all of them. */
  lemma FailsFirstAfterHead<E>(checks: seq<(bool, E)>, r: Outcome<E>)
    requires |checks| > 0 && checks[0].0
    requires r.Pass? <==> forall i :: 0 <= i < |checks| - 1 ==> checks[1..][i].0
    requires r.Fail? ==> exists i :: FailsFirstAt(checks[1..], i) && r.error == checks[1..][i].1
    ensures r.Pass? <==> forall i :: 0 <= i < |checks| ==> checks[i].0
    ensures r.Fail? ==> exists i :: FailsFirstAt(checks, i) && r.error == checks[i].1
  {
    assert forall i :: 1 <= i < |checks| ==> checks[i] == checks[1..][i - 1];
    if r.Fail? {
      var i :| FailsFirstAt(checks[1..], i) && r.error == checks[1..][i].1;
      assert FailsFirstAt(checks, i + 1);
    }
  }
}
