/**
 * One `--attr key=value` flag of `publish data` (cmd/publish.go): split at
 * its first `=`, both sides trimmed.
 */
module AttributeFlags {
  import opened Wrappers
  import opened Text

  /** Why `publish` gives up before publishing anything. */
  datatype Failure = NoTopic | NoProject | InvalidAttribute(entry: string) | NoSuchTopic

  /**
   * One `--attr` flag: split at the first `=`, which must not be the first
   * character, then trim both sides. The position is taken before
   * trimming, so ` =v` gives the empty key.
   */
  function SplitAttribute(e: string): (r: Result<(string, string), Failure>)
    ensures r.Success? <==> ValidAttribute(e)
    ensures r.Failure? ==> r.error == InvalidAttribute(e)
    ensures r.Success? ==> r.value == KeyValue(e)
  {
    var x := Index(e, '=');
    if x > 0 then Success((TrimSpace(e[..x]), TrimSpace(e[x + 1..])))
    else Failure(InvalidAttribute(e))
  }

  /** The key and value of a well-formed flag. */
  function KeyValue(e: string): (string, string)
    requires ValidAttribute(e)
  {
    var x := Index(e, '=');
    (TrimSpace(e[..x]), TrimSpace(e[x + 1..]))
  }

  /** The key is what stands before the first `=`, the value what follows it, both trimmed. */
  lemma SplitAtFirstEquals(e: string)
    requires ValidAttribute(e)
    ensures exists x :: 0 < x < |e| && e[x] == '=' && '=' !in e[..x]
                        && SplitAttribute(e).value == (TrimSpace(e[..x]), TrimSpace(e[x + 1..]))
  {
    var x := Index(e, '=');
    assert 0 < x < |e| && e[x] == '=' && '=' !in e[..x];
  }

  /** The flag's first `=` is not its first character (and there is one). */
  predicate ValidAttribute(e: string) {
    Index(e, '=') > 0
  }

  /** A flag is well formed iff it has an `=` and does not start with one. */
  lemma ValidAttributeMeaning(e: string)
    ensures ValidAttribute(e) <==> '=' in e && e[0] != '='
  {
    if '=' in e && e[0] != '=' {
      assert Index(e, '=') != 0;
    }
  }

  /** A string of white space only. */
  predicate Blank(s: string) {
    forall i :: 0 <= i < |s| ==> IsSpace(s[i])
  }

  /**
   * Writing a trimmed key without `=` and a trimmed value as `key=value`,
   * with any white space around either, parses back to that key and value,
   * as long as something stands before the `=`.
   */
  lemma {:induction false} SplitAttributeRoundTrip(pre: string, k: string, mid: string, mid2: string, v: string, post: string)
    requires Blank(pre) && Blank(mid) && Blank(mid2) && Blank(post)
    requires Trimmed(k) && Trimmed(v) && '=' !in k
    requires |pre + k + mid| > 0
    ensures SplitAttribute(pre + k + mid + "=" + mid2 + v + post) == Success((k, v))
  {
    var lhs := pre + k + mid;
    var rhs := mid2 + v + post;
    var e := pre + k + mid + "=" + mid2 + v + post;
    assert e == lhs + "=" + rhs;
    assert '=' !in lhs by {
      forall i | 0 <= i < |lhs| ensures lhs[i] != '=' {
        if i < |pre| {
          assert lhs[i] == pre[i] && IsSpace(pre[i]);
        } else if i < |pre| + |k| {
          assert lhs[i] == k[i - |pre|];
        } else {
          assert lhs[i] == mid[i - |pre| - |k|] && IsSpace(mid[i - |pre| - |k|]);
        }
      }
    }
    IndexAfter(lhs, rhs);
    assert e[..|lhs|] == lhs;
    assert e[|lhs| + 1..] == rhs;
    TrimSpacePadded(pre, k, mid);
    TrimSpacePadded(mid2, v, post);
  }

  lemma IndexAfter(lhs: string, rhs: string)
    requires '=' !in lhs
    ensures Index(lhs + "=" + rhs, '=') == |lhs|
  {
    var e := lhs + "=" + rhs;
    assert e[..|lhs|] == lhs;
    assert e[|lhs|] == '=';
  }

  /**
   * ` =v` is accepted with the empty key, because the `=` is looked for
   * before trimming; `=v` and `ts:123` are refused.
   */
  lemma AttributeEdgeCases()
    ensures SplitAttribute(" =v") == Success(("", "v"))
    ensures SplitAttribute("=v") == Failure(InvalidAttribute("=v"))
    ensures SplitAttribute("ts:123") == Failure(InvalidAttribute("ts:123"))
  {
    EmptyKeyAccepted();
    NoEqualsRefused("=v");
    ColonRefused();
  }

  lemma EmptyKeyAccepted()
    ensures SplitAttribute(" =v") == Success(("", "v"))
  {
    assert Blank(" ") by {
      assert IsSpace(" "[0]);
    }
    assert Trimmed("v");
    SplitAttributeRoundTrip(" ", "", "", "", "v", "");
    assert " " + "" + "" + "=" + "" + "v" + "" == " =v";
  }

  lemma NoEqualsRefused(e: string)
    requires |e| > 0 && e[0] == '='
    ensures SplitAttribute(e) == Failure(InvalidAttribute(e))
  {
  }

  lemma ColonRefused()
    ensures SplitAttribute("ts:123") == Failure(InvalidAttribute("ts:123"))
  {
    var e := "ts:123";
    assert e[0] != '=' && e[1] != '=' && e[2] != '=' && e[3] != '=' && e[4] != '=' && e[5] != '=';
    assert '=' !in e;
  }
}
