/**
 * The helpers of cmd/util.go: `stringer`, which turns a decoded Avro field
 * into attribute text, and `dumpAttrs`, which lists a message's attributes on
 * one line.
 */
module Util {
  import opened Text

  /**
   * A Go `interface{}` as the Avro decoder hands it over: nil, a string, a
   * pointer to a string, a record (`map[string]interface{}`), or anything
   * else (numbers, booleans, arrays, ...), which only `fmt.Sprint` renders.
   */
  datatype Value =
    | Nil
    | Str(s: string)
    | StrRef(target: string)
    | Record(fields: map<string, Value>)
    | Other(tag: int)

  /** The values `stringer` renders itself, without `fmt.Sprint`. */
  predicate IsText(v: Value) {
    v.Nil? || v.Str? || v.StrRef?
  }

  /**
   * `stringer`: nil is the empty string (where `fmt.Sprint` would print
   * `<nil>`), a string is itself, a pointer to a string is the string it
   * points to, and everything else is left to `fmt.Sprint`, which `sprint`
   * stands for.
   */
  function Stringer(v: Value, sprint: Value -> string): (r: string)
    ensures v.Nil? ==> r == ""
    ensures v.Str? ==> r == v.s
    ensures v.StrRef? ==> r == v.target
    ensures !IsText(v) ==> r == sprint(v)
  {
    match v
    case Nil => ""
    case Str(s) => s
    case StrRef(target) => target
    case _ => sprint(v)
  }

  /** Only the default case depends on `fmt.Sprint`; a string and a pointer to it read the same. */
  lemma StringerText(v: Value, sprint1: Value -> string, sprint2: Value -> string)
    requires IsText(v)
    ensures Stringer(v, sprint1) == Stringer(v, sprint2)
    ensures v.StrRef? ==> Stringer(v, sprint1) == Stringer(Str(v.target), sprint2)
  {
  }

  // ---------------------------------------------------------------------------
  // dumpAttrs

  /** One attribute as `dumpAttrs` writes it: `k: v`. */
  function Entry(kv: (string, string)): string {
    kv.0 + ": " + kv.1
  }

  function EntryLength(kv: (string, string)): nat {
    |kv.0| + 2 + |kv.1|
  }

  /** The entries of one enumeration of the map, joined with `, `. */
  function Joined(a: seq<(string, string)>): string {
    if |a| == 0 then ""
    else if |a| == 1 then Entry(a[0])
    else Joined(a[..|a| - 1]) + ", " + Entry(a[|a| - 1])
  }

  /**
   * `dumpAttrs` over one enumeration `a` of the map: a separator before
   * every entry but the first, then the key, `: ` and the value.
   */
  method DumpAttrs(a: seq<(string, string)>) returns (r: string)
    ensures r == Joined(a)
  {
    var b := "";
    var n := 0;
    for i := 0 to |a|
      invariant n == i
      invariant b == Joined(a[..i])
    {
      assert a[..i + 1][..i] == a[..i];
      if n > 0 {
        b := b + ", ";
      }
      b := b + a[i].0;
      b := b + ": ";
      b := b + a[i].1;
      n := n + 1;
    }
    assert a[..|a|] == a;
    r := b;
  }

  /** The position at which the `i`-th entry starts. */
  function Offset(a: seq<(string, string)>, i: nat): nat
    requires i <= |a|
  {
    Sum(a[..i], EntryLength) + 2 * i
  }

  lemma {:induction false} JoinedLength(a: seq<(string, string)>)
    ensures |a| == 0 ==> |Joined(a)| == 0
    ensures |a| > 0 ==> |Joined(a)| == Sum(a, EntryLength) + 2 * (|a| - 1)
  {
    if |a| > 1 {
      JoinedLength(a[..|a| - 1]);
    } else if |a| == 1 {
      assert a[..0] == [];
    }
  }

  lemma {:induction false} JoinedPrefix(a: seq<(string, string)>, j: nat)
    requires j <= |a|
    ensures Joined(a[..j]) <= Joined(a)
    decreases |a| - j
  {
    if j < |a| {
      var a' := a[..j + 1];
      assert a'[..j] == a[..j];
      JoinedPrefix(a, j + 1);
      if j == 0 {
        assert Joined(a[..j]) == [];
      } else {
        assert Joined(a') == Joined(a[..j]) + ", " + Entry(a[j]);
      }
    } else {
      assert a[..j] == a;
    }
  }

  /**
   * Every entry appears exactly where the entries before it and their
   * separators end, and a `, ` separates it from the entry before.
   */
  lemma JoinedEntries(a: seq<(string, string)>, i: nat)
    requires i < |a|
    ensures Offset(a, i) + |Entry(a[i])| <= |Joined(a)|
    ensures Joined(a)[Offset(a, i)..Offset(a, i) + |Entry(a[i])|] == Entry(a[i])
    ensures i > 0 ==> Joined(a)[Offset(a, i) - 2..Offset(a, i)] == ", "
  {
    var p := a[..i + 1];
    OffsetOfPrefix(a, i);
    JoinedLastEntry(p);
    JoinedPrefix(a, i + 1);
    var o := Offset(a, i);
    PrefixSlice(Joined(p), Joined(a), o, o + |Entry(a[i])|);
    if i > 0 {
      PrefixSlice(Joined(p), Joined(a), o - 2, o);
    }
  }

  /** The `i`-th entry is the last of the first `i + 1`, at the same offset. */
  lemma OffsetOfPrefix(a: seq<(string, string)>, i: nat)
    requires i < |a|
    ensures a[..i + 1][i] == a[i]
    ensures Offset(a[..i + 1], i) == Offset(a, i)
  {
    assert a[..i + 1][..i] == a[..i];
  }

  lemma PrefixSlice(x: string, y: string, lo: nat, hi: nat)
    requires x <= y && lo <= hi <= |x|
    ensures y[lo..hi] == x[lo..hi]
  {
  }

  /** The last entry closes the listing, after a `, ` unless it is the only one. */
  lemma JoinedLastEntry(p: seq<(string, string)>)
    requires |p| > 0
    ensures Offset(p, |p| - 1) + |Entry(p[|p| - 1])| == |Joined(p)|
    ensures Joined(p)[Offset(p, |p| - 1)..] == Entry(p[|p| - 1])
    ensures |p| > 1 ==> Joined(p)[Offset(p, |p| - 1) - 2..Offset(p, |p| - 1)] == ", "
  {
    var n := |p| - 1;
    var init := p[..n];
    assert p[..n] == init;
    JoinedLength(init);
    if n == 0 {
      assert init == [];
    } else {
      assert Joined(p) == Joined(init) + ", " + Entry(p[n]);
    }
  }

  /**
   * The length of the listing is the same for every enumeration order of
   * the map: the sum of the entries' lengths plus two per separator.
   */
  lemma DumpLengthOrderIndependent(a: seq<(string, string)>, b: seq<(string, string)>)
    requires multiset(a) == multiset(b)
    ensures |Joined(a)| == |Joined(b)|
  {
    assert |a| == |multiset(a)| == |multiset(b)| == |b|;
    SumPermutation(a, b, EntryLength);
    JoinedLength(a);
    JoinedLength(b);
  }
}
