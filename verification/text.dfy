/**
 * Strings and bytes as the Go code sees them.
 *
 * A Go `string` is a byte string. Identifiers, attribute keys and values are
 * valid UTF-8 (the messaging service requires it), so they are modelled as
 * `string` (a sequence of Unicode scalar values) together with their UTF-8
 * encoding; payloads and everything written to the terminal are bytes.
 */
module Text {
  import opened Wrappers

  type byte = b: int | 0 <= b < 256

  /** The newline byte `'\n'`. */
  const NL: byte := 10

  function Max(a: int, b: int): int {
    if a < b then b else a
  }

  function Min(a: int, b: int): int {
    if a < b then a else b
  }

  lemma MultiplySucc(n: nat, k: nat)
    ensures n * k + k == (n + 1) * k
  {
  }

  /** `n` copies of `x`, as `strings.Repeat` builds them. */
  function Repeat<T>(x: T, n: nat): (r: seq<T>)
    ensures |r| == n
    ensures forall i :: 0 <= i < n ==> r[i] == x
  {
    if n == 0 then [] else Repeat(x, n - 1) + [x]
  }

  /** The concatenation of a list of byte strings, in order. */
  function Concat(xs: seq<seq<byte>>): seq<byte>
  {
    if |xs| == 0 then [] else Concat(xs[..|xs| - 1]) + xs[|xs| - 1]
  }

  lemma {:induction false} ConcatAppend(xs: seq<seq<byte>>, ys: seq<seq<byte>>)
    ensures Concat(xs + ys) == Concat(xs) + Concat(ys)
    decreases |ys|
  {
    if |ys| == 0 {
      assert xs + ys == xs;
    } else {
      var ys' := ys[..|ys| - 1];
      assert (xs + ys)[..|xs + ys| - 1] == xs + ys';
      ConcatAppend(xs, ys');
    }
  }

  // ---------------------------------------------------------------------------
  // UTF-8

  /** The UTF-8 encoding of one Unicode scalar value. */
  function EncodeChar(c: char): (r: seq<byte>)
    ensures 1 <= |r| <= 4
    ensures |r| == 1 <==> c as int < 0x80
    ensures c as int < 0x80 ==> r == [c as int]
  {
    var n := c as int;
    if n < 0x80 then [n]
    else if n < 0x800 then [0xC0 + n / 64, 0x80 + n % 64]
    else if n < 0x10000 then [0xE0 + n / 4096, 0x80 + (n / 64) % 64, 0x80 + n % 64]
    else [0xF0 + n / 262144, 0x80 + (n / 4096) % 64, 0x80 + (n / 64) % 64, 0x80 + n % 64]
  }

  /** The bytes of a Go string holding `s`. */
  function Utf8(s: string): (r: seq<byte>)
    ensures |s| <= |r| <= 4 * |s|
  {
    FlattenLength(s, EncodeChar);
    Flatten(s, EncodeChar)
  }

  /** Encoding is a homomorphism: the bytes of `a + b` are those of `a` then those of `b`. */
  lemma Utf8Append(a: string, b: string)
    ensures Utf8(a + b) == Utf8(a) + Utf8(b)
  {
    FlattenAppend(a, b, EncodeChar);
  }

  /** `n` copies of a character take `n` times its encoded width. */
  lemma Utf8RepeatLength(c: char, n: nat)
    ensures |Utf8(Repeat(c, n))| == n * |EncodeChar(c)|
  {
    FlattenRepeat(c, n, EncodeChar);
  }

  /** The encodings `f` gives the elements of `xs`, one after the other. */
  function Flatten<T>(xs: seq<T>, f: T -> seq<byte>): seq<byte> {
    if |xs| == 0 then [] else Flatten(xs[..|xs| - 1], f) + f(xs[|xs| - 1])
  }

  lemma {:induction false} FlattenAppend<T>(xs: seq<T>, ys: seq<T>, f: T -> seq<byte>)
    ensures Flatten(xs + ys, f) == Flatten(xs, f) + Flatten(ys, f)
    decreases |ys|
  {
    if |ys| == 0 {
      assert xs + ys == xs;
    } else {
      var ys' := ys[..|ys| - 1];
      assert (xs + ys)[..|xs + ys| - 1] == xs + ys';
      FlattenAppend(xs, ys', f);
    }
  }

  lemma {:induction false} FlattenLength<T>(xs: seq<T>, f: T -> seq<byte>)
    requires forall x :: 1 <= |f(x)| <= 4
    ensures |xs| <= |Flatten(xs, f)| <= 4 * |xs|
  {
    if |xs| > 0 {
      FlattenLength(xs[..|xs| - 1], f);
    }
  }

  lemma {:induction false} FlattenRepeat<T>(x: T, n: nat, f: T -> seq<byte>)
    ensures |Flatten(Repeat(x, n), f)| == n * |f(x)|
  {
    if n > 0 {
      FlattenRepeat(x, n - 1, f);
      assert Repeat(x, n)[..n - 1] == Repeat(x, n - 1);
      MultiplySucc(n - 1, |f(x)|);
    }
  }

  /** Go's `len` of a string: its length in bytes, not in characters. */
  function ByteLen(s: string): nat {
    |Utf8(s)|
  }

  // ---------------------------------------------------------------------------
  // fmt's `%<w>s` verb

  /**
   * `fmt.Sprintf("%<width>s", s)`: right-justified in a field of `width`
   * runes; a longer string is never truncated.
   */
  function PadLeft(s: string, width: nat): (r: string)
    ensures |r| == Max(|s|, width)
    ensures r[|r| - |s|..] == s
    ensures forall i :: 0 <= i < |r| - |s| ==> r[i] == ' '
  {
    if |s| < width then Repeat(' ', width - |s|) + s else s
  }

  // ---------------------------------------------------------------------------
  // strings.Index and strings.TrimSpace

  /** `strings.Index(s, string(c))`: the first position of `c`, or -1. */
  function Index(s: string, c: char): (r: int)
    ensures -1 <= r < |s|
    ensures r == -1 <==> c !in s
    ensures r >= 0 ==> s[r] == c && c !in s[..r]
  {
    if |s| == 0 then -1
    else if s[0] == c then 0
    else
      var r' := Index(s[1..], c);
      assert s == [s[0]] + s[1..];
      if r' == -1 then -1
      else
        assert s[..r' + 1] == [s[0]] + s[1..][..r'];
        r' + 1
  }

  /** Go's `unicode.IsSpace`: the White_Space property of Unicode. */
  predicate IsSpace(c: char) {
    var n := c as int;
    || (0x09 <= n <= 0x0D) || n == 0x20 || n == 0x85 || n == 0xA0 || n == 0x1680
    || (0x2000 <= n <= 0x200A) || n == 0x2028 || n == 0x2029 || n == 0x202F
    || n == 0x205F || n == 0x3000
  }

  /** The number of white-space characters `s` starts with. */
  function LeadingSpace(s: string): (n: nat)
    ensures n <= |s|
    ensures forall i :: 0 <= i < n ==> IsSpace(s[i])
    ensures n < |s| ==> !IsSpace(s[n])
  {
    if |s| == 0 || !IsSpace(s[0]) then 0 else 1 + LeadingSpace(s[1..])
  }

  /** The number of white-space characters `s` ends with. */
  function TrailingSpace(s: string): (n: nat)
    ensures n <= |s|
    ensures forall i :: |s| - n <= i < |s| ==> IsSpace(s[i])
    ensures n < |s| ==> !IsSpace(s[|s| - 1 - n])
  {
    if |s| == 0 || !IsSpace(s[|s| - 1]) then 0 else 1 + TrailingSpace(s[..|s| - 1])
  }

  /** True of a string with no white space at either end. */
  predicate Trimmed(s: string) {
    |s| == 0 || (!IsSpace(s[0]) && !IsSpace(s[|s| - 1]))
  }

  /**
   * `strings.TrimSpace`: the longest factor of `s` that neither starts nor
   * ends with white space, obtained by dropping only white space.
   */
  function TrimSpace(s: string): (r: string)
    ensures Trimmed(r)
    ensures LeadingSpace(s) + |r| <= |s|
    ensures r == s[LeadingSpace(s)..LeadingSpace(s) + |r|]
    ensures forall i :: LeadingSpace(s) + |r| <= i < |s| ==> IsSpace(s[i])
  {
    var a := LeadingSpace(s);
    if a == |s| then []
    else
      var b := TrailingSpace(s);
      s[a..|s| - b]
  }

  /** A string without white space at its ends is its own trimming. */
  lemma TrimSpaceOfTrimmed(s: string)
    requires Trimmed(s)
    ensures TrimSpace(s) == s
  {
    if |s| > 0 {
      assert LeadingSpace(s) == 0;
      assert TrailingSpace(s) == 0;
    }
  }

  /** Trimming is idempotent. */
  lemma TrimSpaceIdempotent(s: string)
    ensures TrimSpace(TrimSpace(s)) == TrimSpace(s)
  {
    TrimSpaceOfTrimmed(TrimSpace(s));
  }

  /** Surrounding white space of any length is removed. */
  lemma {:induction false} TrimSpacePadded(pre: string, s: string, post: string)
    requires forall i :: 0 <= i < |pre| ==> IsSpace(pre[i])
    requires forall i :: 0 <= i < |post| ==> IsSpace(post[i])
    requires Trimmed(s)
    ensures TrimSpace(pre + s + post) == s
  {
    var t := pre + s + post;
    if |s| == 0 {
      assert LeadingSpace(t) == |t| by { LeadingAllSpace(t); }
    } else {
      LeadingSpaceOf(pre, s + post);
      assert pre + (s + post) == t;
      TrailingSpaceOf(pre + s, post);
      assert (pre + s) + post == t;
    }
  }

  lemma {:induction false} LeadingAllSpace(t: string)
    requires forall i :: 0 <= i < |t| ==> IsSpace(t[i])
    ensures LeadingSpace(t) == |t|
  {
    if |t| > 0 {
      LeadingAllSpace(t[1..]);
    }
  }

  lemma {:induction false} LeadingSpaceOf(pre: string, rest: string)
    requires forall i :: 0 <= i < |pre| ==> IsSpace(pre[i])
    requires |rest| > 0 && !IsSpace(rest[0])
    ensures LeadingSpace(pre + rest) == |pre|
    decreases |pre|
  {
    if |pre| == 0 {
      assert pre + rest == rest;
    } else {
      assert (pre + rest)[1..] == pre[1..] + rest;
      LeadingSpaceOf(pre[1..], rest);
    }
  }

  lemma {:induction false} TrailingSpaceOf(init: string, post: string)
    requires forall i :: 0 <= i < |post| ==> IsSpace(post[i])
    requires |init| > 0 && !IsSpace(init[|init| - 1])
    ensures TrailingSpace(init + post) == |post|
    decreases |post|
  {
    if |post| == 0 {
      assert init + post == init;
    } else {
      var post' := post[..|post| - 1];
      assert (init + post)[..|init + post| - 1] == init + post';
      TrailingSpaceOf(init, post');
    }
  }

  // ---------------------------------------------------------------------------
  // Sums over sequences, independent of the order of the elements

  /** The sum of `f` over the elements of `xs`. */
  function Sum<T>(xs: seq<T>, f: T -> nat): nat
  {
    if |xs| == 0 then 0 else Sum(xs[..|xs| - 1], f) + f(xs[|xs| - 1])
  }

  lemma {:induction false} SumAppend<T>(xs: seq<T>, ys: seq<T>, f: T -> nat)
    ensures Sum(xs + ys, f) == Sum(xs, f) + Sum(ys, f)
    decreases |ys|
  {
    if |ys| == 0 {
      assert xs + ys == xs;
    } else {
      var ys' := ys[..|ys| - 1];
      assert (xs + ys)[..|xs + ys| - 1] == xs + ys';
      SumAppend(xs, ys', f);
    }
  }

  /** A sum does not depend on the order in which the elements are enumerated. */
  lemma {:induction false} SumPermutation<T>(xs: seq<T>, ys: seq<T>, f: T -> nat)
    requires multiset(xs) == multiset(ys)
    ensures Sum(xs, f) == Sum(ys, f)
    decreases |xs|
  {
    if |xs| == 0 {
      assert |ys| == |multiset(ys)| == 0;
    } else {
      var x := xs[|xs| - 1];
      var xs' := xs[..|xs| - 1];
      assert xs == xs' + [x];
      assert multiset(xs') == multiset(xs) - multiset{x};
      assert x in multiset(ys);
      var i :| 0 <= i < |ys| && ys[i] == x;
      MultisetRemove(ys, i);
      SumPermutation(xs', ys[..i] + ys[i + 1..], f);
      SumRemove(ys, i, f);
    }
  }

  lemma MultisetRemove<T>(ys: seq<T>, i: nat)
    requires i < |ys|
    ensures multiset(ys[..i] + ys[i + 1..]) == multiset(ys) - multiset{ys[i]}
  {
    SplitAt(ys, i);
  }

  /** Taking one element out of a sequence takes its value out of the sum. */
  lemma SumRemove<T>(ys: seq<T>, i: nat, f: T -> nat)
    requires i < |ys|
    ensures Sum(ys, f) == Sum(ys[..i] + ys[i + 1..], f) + f(ys[i])
  {
    var a := ys[..i];
    var b := ys[i + 1..];
    SplitAt(ys, i);
    SumSnoc(a, ys[i], f);
    SumAppend(a + [ys[i]], b, f);
    SumAppend(a, b, f);
  }

  lemma SplitAt<T>(ys: seq<T>, i: nat)
    requires i < |ys|
    ensures ys == ys[..i] + [ys[i]] + ys[i + 1..]
  {
  }

  lemma SumSnoc<T>(a: seq<T>, y: T, f: T -> nat)
    ensures Sum(a + [y], f) == Sum(a, f) + f(y)
  {
    assert (a + [y])[..|a|] == a;
  }
}
