/**
 * `publish data` and `publish avro` from cmd/publish.go: the checks before
 * publishing, the `key=value` attribute flags, the repetition of each input
 * and the totals, and the attributes taken from Avro record fields.
 *
 * Reading files and decoding Avro containers are left out: `publish data`
 * gets the contents of its inputs, and `publish avro` the decoded items of
 * each input together with the binary encoder (`encode`) and `fmt.Sprint`
 * (`sprint`) as parameters. Publishing itself always succeeds here.
 */
module Publish {
  import opened Wrappers
  import opened Text
  import opened Util
  import opened AttributeFlags
  import opened AttributeMap
  import opened Cli

  /** What `publish <args>` does: print the usage text, or run a subcommand on the remaining arguments. */
  datatype Command = Usage | Data(args: seq<string>) | Avro(args: seq<string>)

  /** No arguments, `help` or an unknown subcommand print the usage and succeed. */
  function Dispatch(args: seq<string>): (c: Command)
    ensures c.Data? <==> |args| > 0 && args[0] == "data"
    ensures c.Avro? <==> |args| > 0 && args[0] == "avro"
    ensures !c.Usage? ==> c.args == args[1..]
  {
    if |args| < 1 then Usage
    else if args[0] == "data" then Data(args[1..])
    else if args[0] == "avro" then Avro(args[1..])
    else Usage
  }

  /** The checks both subcommands make first, in order. */
  function CheckTarget(topic: string, project: string): (r: Outcome<Failure>)
    ensures r == Fail(NoTopic) <==> topic == ""
    ensures r == Fail(NoProject) <==> topic != "" && project == ""
    ensures r == Pass <==> topic != "" && project != ""
  {
    if topic == "" then Fail(NoTopic)
    else if project == "" then Fail(NoProject)
    else Pass
  }

  /** `publish` goes through the shared subcommand lookup with `data` and `avro` as its subcommands. */
  lemma DispatchLooksUp(args: seq<string>)
    ensures Dispatch(args).Usage? <==> Subcommand(args, {"data", "avro"}).None?
    ensures Dispatch(args).Data? ==> Subcommand(args, {"data", "avro"}) == Some(("data", Dispatch(args).args))
    ensures Dispatch(args).Avro? ==> Subcommand(args, {"data", "avro"}) == Some(("avro", Dispatch(args).args))
  {
  }

  /** The checks are the topic, then the project. */
  lemma CheckTargetInOrder(topic: string, project: string)
    ensures CheckTarget(topic, project) == FirstFailure([(topic != "", NoTopic), (project != "", NoProject)])
  {
  }

  // ---------------------------------------------------------------------------
  // publish data

  /** A message handed to the backend. */
  datatype Outgoing = Outgoing(data: seq<byte>, attributes: Option<map<string, string>>)

  /** What is printed per publish: a dot, or in verbose mode the size of what was published. */
  datatype Progress = Dot | Published(size: nat) | AttributeLine(attributes: map<string, string>)

  /** The totals line `--> Published <tmsg> messages (<tbytes>) to <topic>`. */
  datatype Totals = Totals(messages: nat, bytes: nat)

  /** What a successful run publishes and prints; the totals lines are printed unless verbose. */
  datatype Report = Report(sent: seq<Outgoing>, progress: seq<Progress>, totals: seq<Totals>, summarised: bool)

  /** Each input `times` times in a row, in input order. */
  function Expand(inputs: seq<seq<byte>>, attributes: Option<map<string, string>>, times: nat): seq<Outgoing> {
    if |inputs| == 0 then []
    else Expand(inputs[..|inputs| - 1], attributes, times) + Repeat(Outgoing(inputs[|inputs| - 1], attributes), times)
  }

  /** The position of the `j`-th copy of the `i`-th input when every input is repeated `times` times. */
  function Slot(i: nat, j: nat, times: nat): nat {
    i * times + j
  }

  lemma SlotBound(i: nat, j: nat, n: nat, times: nat)
    requires i < n && j < times
    ensures Slot(i, j, times) < n * times
  {
    assert (i + 1) * times == i * times + times;
    assert (i + 1) * times <= n * times by {
      MultiplyMonotone(i + 1, n, times);
    }
  }

  lemma MultiplyMonotone(a: nat, b: nat, c: nat)
    requires a <= b
    ensures a * c <= b * c
  {
    assert b * c == a * c + (b - a) * c;
  }

  /** The `j`-th copy of the `i`-th input sits at position `i * times + j`. */
  lemma ExpandLayout(inputs: seq<seq<byte>>, attributes: Option<map<string, string>>, times: nat)
    ensures |Expand(inputs, attributes, times)| == |inputs| * times
    ensures forall i: nat, j: nat :: i < |inputs| && j < times ==>
              Slot(i, j, times) < |inputs| * times
              && Expand(inputs, attributes, times)[Slot(i, j, times)] == Outgoing(inputs[i], attributes)
  {
    ExpandLength(inputs, attributes, times);
    forall i: nat, j: nat | i < |inputs| && j < times
      ensures Slot(i, j, times) < |inputs| * times
      ensures Expand(inputs, attributes, times)[Slot(i, j, times)] == Outgoing(inputs[i], attributes)
    {
      ExpandAt(inputs, attributes, times, i, j);
    }
  }

  lemma {:induction false} ExpandLength(inputs: seq<seq<byte>>, attributes: Option<map<string, string>>, times: nat)
    ensures |Expand(inputs, attributes, times)| == |inputs| * times
  {
    if |inputs| > 0 {
      ExpandLength(inputs[..|inputs| - 1], attributes, times);
      MultiplySucc(|inputs| - 1, times);
    }
  }

  lemma {:induction false} ExpandAt(inputs: seq<seq<byte>>, attributes: Option<map<string, string>>, times: nat, i: nat, j: nat)
    requires i < |inputs| && j < times
    ensures Slot(i, j, times) < |inputs| * times
    ensures |Expand(inputs, attributes, times)| == |inputs| * times
    ensures Expand(inputs, attributes, times)[Slot(i, j, times)] == Outgoing(inputs[i], attributes)
  {
    var init := inputs[..|inputs| - 1];
    var e' := Expand(init, attributes, times);
    ExpandLength(inputs, attributes, times);
    ExpandLength(init, attributes, times);
    SlotBound(i, j, |inputs|, times);
    if i < |init| {
      ExpandAt(init, attributes, times, i, j);
      assert init[i] == inputs[i];
    } else {
      assert Slot(i, j, times) == |e'| + j;
    }
  }

  /** The sum of the lengths of the inputs. */
  function TotalBytes(inputs: seq<seq<byte>>): nat {
    if |inputs| == 0 then 0 else TotalBytes(inputs[..|inputs| - 1]) + |inputs[|inputs| - 1]|
  }

  /** The progress printed for published messages, one entry (or two, with attributes shown) each. */
  function ProgressOf(sent: seq<Outgoing>, verbose: bool, showAttributes: bool): seq<Progress> {
    if |sent| == 0 then []
    else
      var o := sent[|sent| - 1];
      var shown := o.attributes.GetOr(map[]);
      ProgressOf(sent[..|sent| - 1], verbose, showAttributes)
      + (if !verbose then [Dot]
         else if showAttributes && |shown| > 0 then [Published(|o.data|), AttributeLine(shown)]
         else [Published(|o.data|)])
  }

  lemma {:induction false} ProgressOfAppend(a: seq<Outgoing>, b: seq<Outgoing>, verbose: bool, showAttributes: bool)
    ensures ProgressOf(a + b, verbose, showAttributes) == ProgressOf(a, verbose, showAttributes) + ProgressOf(b, verbose, showAttributes)
    decreases |b|
  {
    if |b| == 0 {
      assert a + b == a;
    } else {
      var b' := b[..|b| - 1];
      assert (a + b)[..|a + b| - 1] == a + b';
      ProgressOfAppend(a, b', verbose, showAttributes);
    }
  }

  /** The progress printed for one published message. */
  lemma ProgressOfOne(o: Outgoing, verbose: bool, showAttributes: bool)
    ensures !verbose ==> ProgressOf([o], verbose, showAttributes) == [Dot]
    ensures verbose && showAttributes && |o.attributes.GetOr(map[])| > 0 ==>
              ProgressOf([o], verbose, showAttributes) == [Published(|o.data|), AttributeLine(o.attributes.GetOr(map[]))]
    ensures verbose && !(showAttributes && |o.attributes.GetOr(map[])| > 0) ==>
              ProgressOf([o], verbose, showAttributes) == [Published(|o.data|)]
  {
    assert [o][..0] == [];
  }

  /**
   * `publish data`: after the topic and project checks, the attribute
   * flags, then the backend's answer whether the topic exists; then every
   * input is published `max(count, 1)` times in a row, and the totals count
   * each input once, whatever the repetition.
   */
  method PublishData(topic: string, project: string, pairs: seq<string>, count: int, verbose: bool,
                     found: bool, inputs: seq<seq<byte>>)
    returns (r: Result<Report, Failure>)
    ensures CheckTarget(topic, project).Fail? ==> r == Failure(CheckTarget(topic, project).error)
    ensures CheckTarget(topic, project).Pass? && ParseAttributes(pairs, SplitAttribute).Failure? ==>
              r == Failure(ParseAttributes(pairs, SplitAttribute).error)
    ensures CheckTarget(topic, project).Pass? && ParseAttributes(pairs, SplitAttribute).Success? && !found ==>
              r == Failure(NoSuchTopic)
    ensures r.Success? <==> CheckTarget(topic, project).Pass? && ParseAttributes(pairs, SplitAttribute).Success? && found
    ensures r.Success? ==>
              && r.value.sent == Expand(inputs, ParseAttributes(pairs, SplitAttribute).value, Max(count, 1))
              && r.value.progress == ProgressOf(r.value.sent, verbose, false)
              && r.value.totals == [Totals(|inputs|, TotalBytes(inputs))]
              && r.value.summarised == !verbose
  {
    var checked := CheckTarget(topic, project);
    if checked.Fail? {
      return Failure(checked.error);
    }
    var parsed := ParseAttributes(pairs, SplitAttribute);
    if parsed.Failure? {
      return Failure(parsed.error);
    }
    if !found {
      return Failure(NoSuchTopic);
    }
    var sent, progress, totals := PublishInputs(inputs, parsed.value, Max(count, 1), verbose);
    r := Success(Report(sent, progress, [totals], !verbose));
  }

  /**
   * The publishing loop of `publish data`: each input `times` times in a
   * row, one progress entry per publish, and totals that count each input
   * once.
   */
  method PublishInputs(inputs: seq<seq<byte>>, attrs: Option<map<string, string>>, times: nat, verbose: bool)
    returns (sent: seq<Outgoing>, progress: seq<Progress>, totals: Totals)
    ensures sent == Expand(inputs, attrs, times)
    ensures progress == ProgressOf(sent, verbose, false)
    ensures totals == Totals(|inputs|, TotalBytes(inputs))
  {
    sent := [];
    progress := [];
    var tmsg := 0;
    var tbytes := 0;
    for k := 0 to |inputs|
      invariant sent == Expand(inputs[..k], attrs, times)
      invariant progress == ProgressOf(sent, verbose, false)
      invariant tmsg == k
      invariant tbytes == TotalBytes(inputs[..k])
    {
      var data := inputs[k];
      var copies, marks := PublishCopies(data, attrs, times, verbose);
      ProgressOfAppend(sent, copies, verbose, false);
      assert inputs[..k + 1][..k] == inputs[..k];
      sent := sent + copies;
      progress := progress + marks;
      tbytes := tbytes + |data|;
      tmsg := tmsg + 1;
    }
    assert inputs[..|inputs|] == inputs;
    totals := Totals(tmsg, tbytes);
  }

  /** One input published `times` times, with a progress entry per publish. */
  method PublishCopies(data: seq<byte>, attrs: Option<map<string, string>>, times: nat, verbose: bool)
    returns (sent: seq<Outgoing>, progress: seq<Progress>)
    ensures sent == Repeat(Outgoing(data, attrs), times)
    ensures progress == ProgressOf(sent, verbose, false)
  {
    sent := [];
    progress := [];
    var o := Outgoing(data, attrs);
    for i := 0 to times
      invariant sent == Repeat(o, i)
      invariant progress == ProgressOf(sent, verbose, false)
    {
      ProgressOfAppend(sent, [o], verbose, false);
      ProgressOfOne(o, verbose, false);
      sent := sent + [o];
      progress := progress + (if verbose then [Published(|data|)] else [Dot]);
    }
  }

  /** Without `--count` (or with a count below one) each input is published once. */
  lemma EachInputOnce(inputs: seq<seq<byte>>, attributes: Option<map<string, string>>, count: int)
    requires count <= 1
    ensures Expand(inputs, attributes, Max(count, 1)) == Outgoings(inputs, attributes)
  {
    ExpandLayout(inputs, attributes, 1);
  }

  /** Each input as one message. */
  function Outgoings(inputs: seq<seq<byte>>, attributes: Option<map<string, string>>): (r: seq<Outgoing>)
    ensures |r| == |inputs|
    ensures forall i :: 0 <= i < |inputs| ==> r[i] == Outgoing(inputs[i], attributes)
  {
    if |inputs| == 0 then [] else Outgoings(inputs[..|inputs| - 1], attributes) + [Outgoing(inputs[|inputs| - 1], attributes)]
  }

  // ---------------------------------------------------------------------------
  // publish avro

  /** The four flags naming the record fields and the attributes they feed. */
  datatype AvroFields = AvroFields(fieldId: string, fieldTimestamp: string, attrId: string, attrTimestamp: string)

  /** The flag defaults: no fields, attributes `id` and `ts`. */
  const DefaultFields: AvroFields := AvroFields("", "", "id", "ts")

  /** A record field; a missing one reads as nil, as a Go map lookup does. */
  function Field(fields: map<string, Value>, name: string): Value {
    if name in fields then fields[name] else Nil
  }

  /** The record's identifier field is named and set. */
  predicate HasId(item: Value, f: AvroFields) {
    item.Record? && f.fieldId != "" && Field(item.fields, f.fieldId) != Nil
  }

  /** The record's timestamp field is named and set. */
  predicate HasTimestamp(item: Value, f: AvroFields) {
    item.Record? && f.fieldTimestamp != "" && Field(item.fields, f.fieldTimestamp) != Nil
  }

  /**
   * The attributes of one Avro item: for a record, the identifier field's
   * text under the identifier attribute and then the timestamp field's text
   * under the timestamp attribute, each only when its field is named and
   * non-nil (the timestamp wins if both attributes have the same name); any
   * other item gets no attributes.
   */
  function ItemAttributes(item: Value, f: AvroFields, sprint: Value -> string): (r: map<string, string>)
    ensures !item.Record? ==> r == map[]
    ensures r.Keys <= {f.attrId, f.attrTimestamp}
    ensures f.attrTimestamp in r <==> HasTimestamp(item, f) || (f.attrId == f.attrTimestamp && HasId(item, f))
    ensures f.attrId in r <==> HasId(item, f) || (f.attrId == f.attrTimestamp && HasTimestamp(item, f))
    ensures HasTimestamp(item, f) ==> r[f.attrTimestamp] == Stringer(Field(item.fields, f.fieldTimestamp), sprint)
    ensures HasId(item, f) && !(HasTimestamp(item, f) && f.attrId == f.attrTimestamp) ==>
              r[f.attrId] == Stringer(Field(item.fields, f.fieldId), sprint)
  {
    if !item.Record? then map[]
    else
      var withId: map<string, string> :=
        if HasId(item, f) then map[f.attrId := Stringer(Field(item.fields, f.fieldId), sprint)] else map[];
      if HasTimestamp(item, f)
      then withId[f.attrTimestamp := Stringer(Field(item.fields, f.fieldTimestamp), sprint)]
      else withId
  }

  /**
   * When the named fields hold nil, strings or string pointers, the
   * attributes do not depend on `fmt.Sprint`: only other field types reach it.
   */
  lemma ItemAttributesOfText(item: Value, f: AvroFields, sprint1: Value -> string, sprint2: Value -> string)
    requires item.Record? ==> IsText(Field(item.fields, f.fieldId)) && IsText(Field(item.fields, f.fieldTimestamp))
    ensures ItemAttributes(item, f, sprint1) == ItemAttributes(item, f, sprint2)
  {
    if item.Record? {
      StringerText(Field(item.fields, f.fieldId), sprint1, sprint2);
      StringerText(Field(item.fields, f.fieldTimestamp), sprint1, sprint2);
    }
  }

  /** With the flag defaults no field is named, so no message gets attributes. */
  lemma DefaultsGiveNoAttributes(item: Value, sprint: Value -> string)
    ensures ItemAttributes(item, DefaultFields, sprint) == map[]
  {
    var r := ItemAttributes(item, DefaultFields, sprint);
    assert r.Keys <= {"id", "ts"};
    assert "id" !in r && "ts" !in r;
  }

  /** The message published for one Avro item: its binary encoding and its attributes. */
  function AvroMessage(item: Value, f: AvroFields, encode: Value -> seq<byte>, sprint: Value -> string): Outgoing {
    Outgoing(encode(item), Some(ItemAttributes(item, f, sprint)))
  }

  function AvroMessages(items: seq<Value>, f: AvroFields, encode: Value -> seq<byte>, sprint: Value -> string): (r: seq<Outgoing>)
    ensures |r| == |items|
    ensures forall i :: 0 <= i < |items| ==> r[i] == AvroMessage(items[i], f, encode, sprint)
  {
    if |items| == 0 then []
    else AvroMessages(items[..|items| - 1], f, encode, sprint) + [AvroMessage(items[|items| - 1], f, encode, sprint)]
  }

  /** The messages of every input, input after input. */
  function AvroInputs(files: seq<seq<Value>>, f: AvroFields, encode: Value -> seq<byte>, sprint: Value -> string): seq<Outgoing> {
    if |files| == 0 then []
    else AvroInputs(files[..|files| - 1], f, encode, sprint) + AvroMessages(files[|files| - 1], f, encode, sprint)
  }

  function EncodedBytes(items: seq<Value>, encode: Value -> seq<byte>): nat {
    if |items| == 0 then 0 else EncodedBytes(items[..|items| - 1], encode) + |encode(items[|items| - 1])|
  }

  /** The totals of one input: its items and their encoded bytes. */
  function FileTotals(files: seq<seq<Value>>, encode: Value -> seq<byte>): (r: seq<Totals>)
    ensures |r| == |files|
    ensures forall i :: 0 <= i < |files| ==> r[i] == Totals(|files[i]|, EncodedBytes(files[i], encode))
  {
    if |files| == 0 then []
    else FileTotals(files[..|files| - 1], encode) + [Totals(|files[|files| - 1]|, EncodedBytes(files[|files| - 1], encode))]
  }

  /**
   * The items of one Avro input: each is encoded and published once with
   * the attributes its record fields give, and counted in the input's
   * totals; verbose mode lists a message's attributes when it has any.
   */
  method PublishItems(items: seq<Value>, f: AvroFields, verbose: bool,
                      encode: Value -> seq<byte>, sprint: Value -> string)
    returns (sent: seq<Outgoing>, progress: seq<Progress>, totals: Totals)
    ensures sent == AvroMessages(items, f, encode, sprint)
    ensures progress == ProgressOf(sent, verbose, true)
    ensures totals == Totals(|items|, EncodedBytes(items, encode))
  {
    sent := [];
    progress := [];
    var tmsg := 0;
    var tbytes := 0;
    for i := 0 to |items|
      invariant sent == AvroMessages(items[..i], f, encode, sprint)
      invariant progress == ProgressOf(sent, verbose, true)
      invariant tmsg == i
      invariant tbytes == EncodedBytes(items[..i], encode)
    {
      var o, marks := PublishItem(items[i], f, verbose, encode, sprint);
      ItemsSnoc(items, i, f, encode, sprint);
      ProgressOfAppend(sent, [o], verbose, true);
      sent := sent + [o];
      progress := progress + marks;
      tbytes := tbytes + |o.data|;
      tmsg := tmsg + 1;
    }
    assert items[..|items|] == items;
    totals := Totals(tmsg, tbytes);
  }

  /** Taking one more item appends its message and its encoded bytes. */
  lemma ItemsSnoc(items: seq<Value>, i: nat, f: AvroFields, encode: Value -> seq<byte>, sprint: Value -> string)
    requires i < |items|
    ensures AvroMessages(items[..i + 1], f, encode, sprint) ==
            AvroMessages(items[..i], f, encode, sprint) + [AvroMessage(items[i], f, encode, sprint)]
    ensures EncodedBytes(items[..i + 1], encode) == EncodedBytes(items[..i], encode) + |encode(items[i])|
  {
    assert items[..i + 1][..i] == items[..i];
  }

  /**
   * One Avro item: the message published for it, and the progress printed
   * for it, which in verbose mode lists the message's attributes if it has any.
   */
  method PublishItem(item: Value, f: AvroFields, verbose: bool,
                     encode: Value -> seq<byte>, sprint: Value -> string)
    returns (o: Outgoing, marks: seq<Progress>)
    ensures o == AvroMessage(item, f, encode, sprint)
    ensures marks == ProgressOf([o], verbose, true)
  {
    var data := encode(item);
    var attrs := ItemAttributes(item, f, sprint);
    o := Outgoing(data, Some(attrs));
    ProgressOfOne(o, verbose, true);
    if verbose {
      marks := [Published(|data|)];
      if |attrs| > 0 {
        marks := marks + [AttributeLine(attrs)];
      }
    } else {
      marks := [Dot];
    }
  }

  /**
   * `publish avro`: after the topic and project checks and the backend's
   * answer whether the topic exists, every decoded item of every input is
   * published once, in order, and the totals restart for each input.
   */
  method PublishAvro(topic: string, project: string, f: AvroFields, verbose: bool, found: bool,
                     files: seq<seq<Value>>, encode: Value -> seq<byte>, sprint: Value -> string)
    returns (r: Result<Report, Failure>)
    ensures CheckTarget(topic, project).Fail? ==> r == Failure(CheckTarget(topic, project).error)
    ensures CheckTarget(topic, project).Pass? && !found ==> r == Failure(NoSuchTopic)
    ensures r.Success? <==> CheckTarget(topic, project).Pass? && found
    ensures r.Success? ==>
              && r.value.sent == AvroInputs(files, f, encode, sprint)
              && r.value.progress == ProgressOf(r.value.sent, verbose, true)
              && r.value.totals == FileTotals(files, encode)
              && r.value.summarised == !verbose
  {
    var checked := CheckTarget(topic, project);
    if checked.Fail? {
      return Failure(checked.error);
    }
    if !found {
      return Failure(NoSuchTopic);
    }
    var sent: seq<Outgoing> := [];
    var progress: seq<Progress> := [];
    var totals: seq<Totals> := [];
    for k := 0 to |files|
      invariant sent == AvroInputs(files[..k], f, encode, sprint)
      invariant progress == ProgressOf(sent, verbose, true)
      invariant totals == FileTotals(files[..k], encode)
    {
      var fileSent, fileProgress, fileTotals := PublishItems(files[k], f, verbose, encode, sprint);
      ProgressOfAppend(sent, fileSent, verbose, true);
      assert files[..k + 1][..k] == files[..k];
      sent := sent + fileSent;
      progress := progress + fileProgress;
      totals := totals + [fileTotals];
    }
    assert files[..|files|] == files;
    r := Success(Report(sent, progress, totals, !verbose));
  }
}
