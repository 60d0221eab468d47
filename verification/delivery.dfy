/**
 * What the two revisions of the `receive data` command share: the delivered
 * message, the output formats, the "pretty" display layout, the events the
 * decision stage reacts to, and the flow-control settings handed to the
 * subscription.
 */
module Delivery {
  import opened Text

  /**
   * A delivered message. `attributes` is one enumeration of the message's
   * attribute map, in whatever order Go's map iteration produced. The
   * properties below hold for any sequence of pairs, so for every order.
   */
  datatype Message = Message(id: string, publishTime: int, data: seq<byte>, attributes: seq<(string, string)>)

  /**
   * Formatting done by library code the model does not look into: `%v` of
   * the publish time, the JSON encoder's line for a message, and `%v` of the
   * `--wait` duration.
   */
  datatype Renderers = Renderers(time: int -> string, json: Message -> seq<byte>, duration: int -> string)

  /** The `--output` formats. */
  datatype Format = NoneFormat | Pretty | Json

  /** `Format(output)`: anything other than "none" and "json" takes the pretty branch. */
  function FormatOf(output: string): (f: Format)
    ensures f == NoneFormat <==> output == "none"
    ensures f == Json <==> output == "json"
  {
    if output == "none" then NoneFormat
    else if output == "json" then Json
    else Pretty
  }

  /** The progress marker printed instead of a message: `"."`. */
  const Dot: seq<byte> := [46]

  /** The glyph of the rule lines, U+2500. */
  const RuleGlyph: char := '─'

  /** The glyph closing a verbose block, U+25C6. */
  const EndGlyph: char := '◆'

  /** The widest key column the attribute table pads to. */
  const MaxKeyColumn: nat := 40

  // ---------------------------------------------------------------------------
  // The pretty layout

  /** The longest attribute key, in bytes (Go's `len`); 0 for no attributes. */
  function MaxKeyBytes(attrs: seq<(string, string)>): (w: nat)
    ensures forall i :: 0 <= i < |attrs| ==> ByteLen(attrs[i].0) <= w
    ensures |attrs| > 0 ==> exists i :: 0 <= i < |attrs| && ByteLen(attrs[i].0) == w
    ensures |attrs| == 0 ==> w == 0
  {
    if |attrs| == 0 then 0
    else
      var w' := MaxKeyBytes(attrs[..|attrs| - 1]);
      assert forall i :: 0 <= i < |attrs| - 1 ==> attrs[..|attrs| - 1][i] == attrs[i];
      Max(w', ByteLen(attrs[|attrs| - 1].0))
  }

  /** The width the keys are right-justified to. */
  function KeyWidth(attrs: seq<(string, string)>): nat {
    Min(MaxKeyBytes(attrs), MaxKeyColumn)
  }

  /** The header `"<id> @ <publish time>"`. */
  function Header(m: Message, render: Renderers): string {
    m.id + " @ " + render.time(m.publishTime)
  }

  /** A rule line: one glyph per BYTE of the header, then a newline. */
  function RuleLine(h: string): seq<byte> {
    Utf8(Repeat(RuleGlyph, ByteLen(h))) + [NL]
  }

  /** One attribute line: the key right-justified to `w` runes, `": "`, the value. */
  function AttributeLine(k: string, v: string, w: nat): seq<byte> {
    Utf8(PadLeft(k, w) + ": " + v) + [NL]
  }

  function AttributeLines(attrs: seq<(string, string)>, w: nat): seq<byte> {
    if |attrs| == 0 then []
    else
      var (k, v) := attrs[|attrs| - 1];
      AttributeLines(attrs[..|attrs| - 1], w) + AttributeLine(k, v, w)
  }

  /**
   * The payload followed by a newline unless it is empty or already ends in
   * one: the payload then always ends a line.
   */
  function DataBlock(d: seq<byte>): (r: seq<byte>)
    ensures |r| == |d| || |r| == |d| + 1
    ensures r[..|d|] == d
    ensures |r| == 0 || r[|r| - 1] == NL
    ensures |r| == 0 <==> |d| == 0
    ensures |d| > 0 && d[|d| - 1] == NL ==> r == d
  {
    if |d| > 0 && d[|d| - 1] != NL then d + [NL] else d
  }

  /** The header followed by a newline: the whole display without `--verbose`. */
  function HeaderLine(m: Message, render: Renderers): seq<byte> {
    Utf8(Header(m, render)) + [NL]
  }

  /** `"◆\n"`, the last line of a verbose display. */
  const EndLine: seq<byte> := EncodeChar(EndGlyph) + [NL]

  /** The attribute table and its closing rule; nothing when there are no attributes. */
  function AttributeTable(m: Message, h: string): (r: seq<byte>)
    ensures |r| == 0 || r[|r| - 1] == NL
  {
    if |m.attributes| > 0
    then AttributeLines(m.attributes, KeyWidth(m.attributes)) + RuleLine(h)
    else []
  }

  /** What a verbose display shows between the header and the payload; it ends a line. */
  function Details(m: Message, render: Renderers): (r: seq<byte>)
    ensures |r| > 0 && r[|r| - 1] == NL
  {
    var h := Header(m, render);
    var rule := RuleLine(h);
    assert rule[|rule| - 1] == NL;
    rule + AttributeTable(m, h)
  }

  /** The "pretty" display of a message. */
  function PrettyBlock(m: Message, render: Renderers, verbose: bool): seq<byte> {
    var head := HeaderLine(m, render);
    if verbose then head + Details(m, render) + DataBlock(m.data) + EndLine else head
  }

  /** Trimming the data block again changes nothing. */
  lemma DataBlockIdempotent(d: seq<byte>)
    ensures DataBlock(DataBlock(d)) == DataBlock(d)
  {
  }

  /** A rule line holds three bytes per byte of the header (the glyph is three bytes in UTF-8). */
  lemma RuleLineLength(h: string)
    ensures |RuleLine(h)| == 3 * ByteLen(h) + 1
    ensures RuleLine(h)[|RuleLine(h)| - 1] == NL
  {
    Utf8RepeatLength(RuleGlyph, ByteLen(h));
    RuleGlyphWidth();
  }

  lemma RuleGlyphWidth()
    ensures |EncodeChar(RuleGlyph)| == 3
  {
  }

  /** The display always starts with the header line; without `--verbose` it is nothing else. */
  lemma PrettyStartsWithHeader(m: Message, render: Renderers, verbose: bool)
    ensures var h := HeaderLine(m, render);
            |h| <= |PrettyBlock(m, render, verbose)| && PrettyBlock(m, render, verbose)[..|h|] == h
    ensures !verbose ==> PrettyBlock(m, render, verbose) == HeaderLine(m, render)
  {
    var h := HeaderLine(m, render);
    if verbose {
      var rest := Details(m, render) + DataBlock(m.data) + EndLine;
      assert PrettyBlock(m, render, verbose) == h + rest;
      assert (h + rest)[..|h|] == h;
    }
  }

  /**
   * `r` ends with the payload block `db` followed by the end line, and the
   * end glyph starts a line of its own.
   */
  ghost predicate EndsWithPayload(r: seq<byte>, db: seq<byte>) {
    && |r| >= |EndLine| + |db| + 1
    && r[|r| - |EndLine|..] == EndLine
    && r[|r| - |EndLine| - |db|..|r| - |EndLine|] == db
    && r[|r| - |EndLine| - 1] == NL
  }

  /**
   * A verbose display ends with the payload (as its data block) and then the
   * end glyph on a line of its own.
   */
  lemma PrettyVerboseEnding(m: Message, render: Renderers)
    ensures EndLine == [0xE2, 0x97, 0x86, NL]
    ensures EndsWithPayload(PrettyBlock(m, render, true), DataBlock(m.data))
  {
    var head := HeaderLine(m, render);
    var details := Details(m, render);
    assert (head + details)[|head + details| - 1] == details[|details| - 1];
    EndingAfterLine(head + details, m.data);
    EndLineBytes();
  }

  lemma EndingAfterLine(pre: seq<byte>, d: seq<byte>)
    requires |pre| > 0 && pre[|pre| - 1] == NL
    ensures EndsWithPayload(pre + DataBlock(d) + EndLine, DataBlock(d))
  {
    var db := DataBlock(d);
    EndLineBytes();
    var r := pre + db + EndLine;
    assert r[|pre|..|pre| + |db|] == db;
    if |db| == 0 {
      assert r[|pre| - 1] == pre[|pre| - 1];
    } else {
      assert r[|pre| + |db| - 1] == db[|db| - 1];
    }
  }

  lemma EndLineBytes()
    ensures EndLine == [0xE2, 0x97, 0x86, NL]
  {
  }

  /**
   * When no key is longer than the column limit, every key is padded to
   * exactly the key width, so the `": "` separators line up whatever the
   * enumeration order; a key of more than 40 bytes overflows the column.
   */
  lemma KeyColumnAligned(attrs: seq<(string, string)>, i: int)
    requires 0 <= i < |attrs|
    ensures MaxKeyBytes(attrs) <= MaxKeyColumn ==> |PadLeft(attrs[i].0, KeyWidth(attrs))| == KeyWidth(attrs)
    ensures KeyWidth(attrs) <= MaxKeyColumn
    ensures |attrs[i].0| > MaxKeyColumn ==> |PadLeft(attrs[i].0, KeyWidth(attrs))| == |attrs[i].0|
  {
  }

  /** The key width does not depend on the order the attribute map is enumerated in. */
  lemma KeyWidthOrderIndependent(a: seq<(string, string)>, b: seq<(string, string)>)
    requires multiset(a) == multiset(b)
    ensures KeyWidth(a) == KeyWidth(b)
  {
    MaxKeyBytesBelow(a, b);
    MaxKeyBytesBelow(b, a);
  }

  lemma MaxKeyBytesBelow(a: seq<(string, string)>, b: seq<(string, string)>)
    requires multiset(a) == multiset(b)
    ensures MaxKeyBytes(b) <= MaxKeyBytes(a)
  {
    if |b| > 0 {
      var j :| 0 <= j < |b| && ByteLen(b[j].0) == MaxKeyBytes(b);
      assert b[j] in multiset(a);
      var i :| 0 <= i < |a| && a[i] == b[j];
    }
  }

  /** The attribute table has the same size for every enumeration order. */
  lemma AttributeLinesOrderIndependent(a: seq<(string, string)>, b: seq<(string, string)>, w: nat)
    requires multiset(a) == multiset(b)
    ensures |AttributeLines(a, w)| == |AttributeLines(b, w)|
  {
    var f := (p: (string, string)) => |AttributeLine(p.0, p.1, w)|;
    AttributeLinesLength(a, w);
    AttributeLinesLength(b, w);
    SumPermutation(a, b, f);
  }

  lemma {:induction false} AttributeLinesLength(a: seq<(string, string)>, w: nat)
    ensures |AttributeLines(a, w)| == Sum(a, (p: (string, string)) => |AttributeLine(p.0, p.1, w)|)
  {
    if |a| > 0 {
      AttributeLinesLength(a[..|a| - 1], w);
    }
  }

  // ---------------------------------------------------------------------------
  // The events the decision stage reacts to

  /**
   * One event of the decision stage's `select`: a delivery callback handing
   * over a message, the idle timer firing, the context being cancelled, or
   * the processing queue being closed.
   */
  datatype Event = Deliver(msg: Message) | Idle | Cancel | Closed

  /** A halting event: cancellation, the queue closing, or the idle timer when `--wait` is set. */
  predicate Halts(wait: int, e: Event) {
    e.Cancel? || e.Closed? || (e.Idle? && wait > 0)
  }

  /** The total payload size of `ms`, the byte counter both revisions keep. */
  function PayloadBytes(ms: seq<Message>): nat {
    if |ms| == 0 then 0 else PayloadBytes(ms[..|ms| - 1]) + |ms[|ms| - 1].data|
  }

  /** A call that reached the backend: `msg.Ack()` or `msg.Nack()`. */
  datatype Call = AckCall(id: string) | NackCall(id: string)

  /** The messages of the `Deliver` events of a trace, in order. */
  function Delivered(t: seq<Event>): (ms: seq<Message>)
    ensures |ms| <= |t|
  {
    if |t| == 0 then []
    else
      var ms := Delivered(t[..|t| - 1]);
      match t[|t| - 1]
      case Deliver(m) => ms + [m]
      case _ => ms
  }

  lemma {:induction false} DeliveredAppend(t: seq<Event>, u: seq<Event>)
    ensures Delivered(t + u) == Delivered(t) + Delivered(u)
    decreases |u|
  {
    if |u| == 0 {
      assert t + u == t;
    } else {
      var u' := u[..|u| - 1];
      assert (t + u)[..|t + u| - 1] == t + u';
      DeliveredAppend(t, u');
    }
  }

  // ---------------------------------------------------------------------------
  // Flow control

  datatype FlowControl = FlowControl(maxOutstanding: nat, goroutines: nat)

  /**
   * The subscription's receive settings: at least one outstanding message,
   * and a single delivery goroutine unless more than one message may be
   * outstanding, in which case the library's default pool size is used.
   */
  function FlowSettings(concurrency: int, defaultGoroutines: nat): (f: FlowControl)
    ensures f.maxOutstanding >= 1
    ensures concurrency >= 1 ==> f.maxOutstanding == concurrency
    ensures concurrency < 1 ==> f.maxOutstanding == 1
    ensures f.goroutines == (if f.maxOutstanding == 1 then 1 else defaultGoroutines)
  {
    var flight := Max(1, concurrency);
    FlowControl(flight, if flight > 1 then defaultGoroutines else 1)
  }

  /** A single delivery goroutine exactly when one message may be outstanding or the library's pool is one. */
  lemma FlowSettingsSingleRoutine(concurrency: int, defaultGoroutines: nat)
    ensures var f := FlowSettings(concurrency, defaultGoroutines);
            f.goroutines == 1 <==> concurrency <= 1 || defaultGoroutines == 1
  {
  }

  /** Clamping an already clamped setting changes nothing. */
  lemma FlowSettingsIdempotent(concurrency: int, defaultGoroutines: nat)
    ensures var f := FlowSettings(concurrency, defaultGoroutines);
            FlowSettings(f.maxOutstanding, defaultGoroutines) == f
  {
  }

  // ---------------------------------------------------------------------------
  // Start-up line

  /**
   * The start-up line `receive data` prints with `--verbose`, without the
   * subscription and topic names, which come from the service: how many
   * messages it expects or will receive, if any, and whether it names the
   * `--wait` duration.
   */
  datatype Announcement =
    | ExpectingFor(n: nat)
    | UpToFor(n: nat)
    | Expected(n: nat)
    | Receiving(n: nat)
    | ReceivingFor
    | Forever

  /** The line names the `--wait` duration. */
  predicate NamesWait(a: Announcement) {
    a.ExpectingFor? || a.UpToFor? || a.ReceivingFor?
  }

  /** The line states a number of messages. */
  predicate NamesCount(a: Announcement) {
    !(a.ReceivingFor? || a.Forever?)
  }

  /** The line speaks of `--expect` rather than `--count`. */
  predicate NamesExpect(a: Announcement) {
    a.ExpectingFor? || a.Expected?
  }
}
