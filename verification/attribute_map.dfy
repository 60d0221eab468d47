/**
 * All `--attr` flags of `publish data` (cmd/publish.go) together: the first
 * malformed flag is the error, no flag at all leaves the attributes absent,
 * and a later flag overrides an earlier one with the same key.
 */
module AttributeMap {
  import opened Wrappers
  import opened Text
  import opened AttributeFlags

  /** A list of pairs as a map, later pairs overwriting earlier ones with the same key. */
  function ToMap(ps: seq<(string, string)>): (m: map<string, string>)
  {
    if |ps| == 0 then map[] else ToMap(ps[..|ps| - 1])[ps[|ps| - 1].0 := ps[|ps| - 1].1]
  }

  /** The keys of the map are the keys of the pairs, and each maps to the value of its last pair. */
  lemma {:induction false} ToMapLastWins(ps: seq<(string, string)>)
    ensures forall k :: k in ToMap(ps) <==> exists i :: 0 <= i < |ps| && ps[i].0 == k
    ensures forall i :: 0 <= i < |ps| && (forall j :: i < j < |ps| ==> ps[j].0 != ps[i].0) ==>
              ps[i].0 in ToMap(ps) && ToMap(ps)[ps[i].0] == ps[i].1
  {
    if |ps| > 0 {
      var init := ps[..|ps| - 1];
      ToMapLastWins(init);
      forall k | k in ToMap(ps) ensures exists i :: 0 <= i < |ps| && ps[i].0 == k {
        if k != ps[|ps| - 1].0 {
          assert ToMap(ps) == ToMap(init)[ps[|ps| - 1].0 := ps[|ps| - 1].1];
          assert k in ToMap(init);
          var i :| 0 <= i < |init| && init[i].0 == k;
          assert ps[i] == init[i];
        }
      }
      forall i | 0 <= i < |ps| && (forall j :: i < j < |ps| ==> ps[j].0 != ps[i].0)
        ensures ps[i].0 in ToMap(ps) && ToMap(ps)[ps[i].0] == ps[i].1
      {
        if i < |init| {
          assert init[i] == ps[i];
          assert ps[|ps| - 1].0 != ps[i].0;
          assert forall j :: i < j < |init| ==> init[j].0 != init[i].0 by {
            forall j | i < j < |init| ensures init[j].0 != init[i].0 {
              assert init[j] == ps[j];
            }
          }
        }
      }
      forall k | exists i :: 0 <= i < |ps| && ps[i].0 == k ensures k in ToMap(ps) {
        var i :| 0 <= i < |ps| && ps[i].0 == k;
        if i < |init| {
          assert init[i] == ps[i];
        }
      }
    }
  }

  /**
   * A parser for one flag. The loop over the flags is stated for any such
   * parser; `publish data` uses `SplitAttribute`.
   */
  type Splitter = string -> Result<(string, string), Failure>

  /** Every flag parses. */
  predicate AllValid(pairs: seq<string>, split: Splitter) {
    forall i :: 0 <= i < |pairs| ==> split(pairs[i]).Success?
  }

  lemma AllValidSnoc(pairs: seq<string>, split: Splitter)
    requires |pairs| > 0
    ensures AllValid(pairs, split) <==> AllValid(pairs[..|pairs| - 1], split) && split(pairs[|pairs| - 1]).Success?
  {
    var init := pairs[..|pairs| - 1];
    assert forall i :: 0 <= i < |init| ==> init[i] == pairs[i];
  }

  /** The key and value of every flag, in order. */
  function Splits(pairs: seq<string>, split: Splitter): (ps: seq<(string, string)>)
    requires AllValid(pairs, split)
    ensures |ps| == |pairs|
    ensures forall i :: 0 <= i < |pairs| ==> ps[i] == split(pairs[i]).value
  {
    if |pairs| == 0 then []
    else
      AllValidSnoc(pairs, split);
      Splits(pairs[..|pairs| - 1], split) + [split(pairs[|pairs| - 1]).value]
  }

  /** The `i`-th flag is the first one that does not parse. */
  predicate FirstInvalidAt(pairs: seq<string>, split: Splitter, i: int) {
    0 <= i < |pairs| && AllValid(pairs[..i], split) && split(pairs[i]).Failure?
  }

  /**
   * All `--attr` flags, in order: the first one that does not parse is the
   * error; without any flag the attributes are absent (a nil map), not
   * empty; otherwise each flag's pair is stored in turn.
   */
  function ParseAttributes(pairs: seq<string>, split: Splitter): (r: Result<Option<map<string, string>>, Failure>)
    ensures r.Success? <==> AllValid(pairs, split)
    ensures r.Success? ==> (r.value.None? <==> |pairs| == 0)
    ensures r.Failure? ==> exists i :: FirstInvalidAt(pairs, split, i) && r.error == split(pairs[i]).error
  {
    if |pairs| == 0 then Success(None)
    else
      var init := pairs[..|pairs| - 1];
      var last := pairs[|pairs| - 1];
      var r0 := ParseAttributes(init, split);
      AllValidSnoc(pairs, split);
      if r0.Failure? then
        assert exists i :: FirstInvalidAt(pairs, split, i) && r0.error == split(pairs[i]).error by {
          var i :| FirstInvalidAt(init, split, i) && r0.error == split(init[i]).error;
          assert pairs[..i] == init[..i];
          assert FirstInvalidAt(pairs, split, i);
        }
        Failure(r0.error)
      else
        var kv := split(last);
        if kv.Failure? then
          assert pairs[..|init|] == init;
          assert FirstInvalidAt(pairs, split, |init|);
          Failure(kv.error)
        else
          Success(Some(r0.value.GetOr(map[])[kv.value.0 := kv.value.1]))
  }

  /** A successful parse holds the flags' pairs as a map, a later pair overriding an earlier one. */
  lemma {:induction false} ParsedMap(pairs: seq<string>, split: Splitter)
    requires ParseAttributes(pairs, split).Success? && ParseAttributes(pairs, split).value.Some?
    ensures ParseAttributes(pairs, split).value.value == ToMap(Splits(pairs, split))
  {
    var init := pairs[..|pairs| - 1];
    AllValidSnoc(pairs, split);
    if |init| > 0 {
      ParsedMap(init, split);
    }
    assert Splits(pairs, split)[..|init|] == Splits(init, split);
  }

  /**
   * The attributes of a successful parse: every key is the key of some
   * flag, and every flag's key maps to its value unless a later flag has
   * the same key.
   */
  lemma LastFlagWins(pairs: seq<string>, split: Splitter)
    requires ParseAttributes(pairs, split).Success? && ParseAttributes(pairs, split).value.Some?
    ensures var m := ParseAttributes(pairs, split).value.value;
            forall k :: k in m <==> exists i :: 0 <= i < |pairs| && split(pairs[i]).value.0 == k
    ensures var m := ParseAttributes(pairs, split).value.value;
            forall i :: 0 <= i < |pairs| && (forall j :: i < j < |pairs| ==> split(pairs[j]).value.0 != split(pairs[i]).value.0) ==>
              m[split(pairs[i]).value.0] == split(pairs[i]).value.1
  {
    ParsedMap(pairs, split);
    var m := ParseAttributes(pairs, split).value.value;
    var ps := Splits(pairs, split);
    ToMapLastWins(ps);
    forall k ensures k in m <==> exists i :: 0 <= i < |pairs| && split(pairs[i]).value.0 == k {
      if k in m {
        var i :| 0 <= i < |ps| && ps[i].0 == k;
        assert split(pairs[i]).value.0 == k;
      }
      if exists i :: 0 <= i < |pairs| && split(pairs[i]).value.0 == k {
        var i :| 0 <= i < |pairs| && split(pairs[i]).value.0 == k;
        assert ps[i].0 == k;
      }
    }
    forall i | 0 <= i < |pairs| && (forall j :: i < j < |pairs| ==> split(pairs[j]).value.0 != split(pairs[i]).value.0)
      ensures m[split(pairs[i]).value.0] == split(pairs[i]).value.1
    {
      assert forall j :: i < j < |ps| ==> ps[j].0 != ps[i].0;
    }
  }
}
