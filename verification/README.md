# pubsub-cli: receiving and publishing, modelled in Dafny

`pubsub` is a command-line client for a publish/subscribe messaging service.
This project models the message-handling core of its `receive data`,
`publish data` and `publish avro` commands, and proves properties about it.
It covers both revisions of `receive data`: cmd/receive.go, and the older
cmd/recieve.go it replaced.

- **`receive data`** (module `Receive`).
  - The delivery callback renders each message as a display string: nothing, a progress dot, a JSON line or the "pretty" layout.
  - It hands the string to a single decision stage.
  - The decision stage numbers every message it dequeues. Within the bound it acks the message and forwards the string to the writer; past the bound it nacks it. The bound is `--expect`, else `--count`, else none.
  - The stage stops after the message whose number reaches the bound. It also stops when cancelled, when the processing queue closes, or when the `--wait` idle timer fires.
  - With `--verbose` it first announces what it will receive.
  - At shutdown, an `--expect` that was not met exactly is fatal. A final newline ends the progress dots printed at a quiet level, and with `--verbose` a summary line follows.
  - The stage's `select` is modelled as a fold (`Run`) over a trace of events (`Delivery.Event`), so every property holds for every interleaving the trace can describe.
- **The older `receive data`** (module `ReceiveLegacy`).
  - The callback acks and counts every message it hands over, whatever the decision stage does with it.
  - A `--count` below one means no limit.
  - Module `Revisions` proves where the two revisions agree and where they differ.
- **Shared layout** (module `Delivery`). The message, the output formats, the pretty layout (header, rule lines, aligned attribute table, payload block, end glyph), the events and the flow-control clamp.
- **`publish data`** (modules `AttributeFlags`, `AttributeMap` and `Publish`).
  - It checks the topic and project, parses `--attr key=value` flags, and asks the backend whether the topic exists. These checks come in that order.
  - It then publishes every input `max(count, 1)` times and, without `--verbose`, prints one totals line.
  - The flag parser splits each flag at its first `=`, which must not be the first character, and trims both sides. A later flag with the same key wins.
  - The loop over the flags (`AttributeMap`) is stated for any flag parser. `publish data` instantiates it with `AttributeFlags.SplitAttribute`.
- **`publish avro`** (module `Publish`).
  - It publishes every decoded item of every input once.
  - Each item carries attributes taken from two named record fields.
  - The totals restart for each input.
- **Command lines** (module `Cli`). Both command groups look up their subcommand in the first argument, and run a subcommand's checks in a fixed order where the first failing check decides the error. `Cli` states both once, and each group's own functions are proved equal to them.
- **Helpers** (module `Util`). `stringer` and `dumpAttrs` from cmd/util.go.
- **Text** (module `Text`). Go's byte strings, UTF-8, `fmt`'s `%<w>s` padding, `strings.Index` and `strings.TrimSpace`.

Some modelling choices:

- **Output is bytes.** Display output is a byte sequence (`seq<byte>`). Go's `len` of a header counts bytes, so a rule line holds one three-byte glyph per byte of the header, not per character.
- **Attributes are one enumeration of the map.** A message's attribute map is modelled as a sequence of its pairs, in Go's unspecified map order. Results that must not depend on that order are proved for every permutation.
- **An attribute needs `=`.** A flag such as `--attr ts:123` has no `=` and is refused as an invalid attribute, as the flag's help text (`key=value`) implies. Only `ts=123` sets the attribute `ts` (`AttributeFlags.AttributeEdgeCases`).
- **Formatting is passed in.** Formatting done by library code comes in as function-valued parameters (`Delivery.Renderers`, and `encode`/`sprint` in `Publish`): `%v` of times and durations, the JSON encoder, `fmt.Sprint`, Avro binary encoding.

Where the code and its own help text or documentation disagree, the model follows the code:

- **A count of zero in the newer revision.**
  - The newer `--count` help text says a count below one means no limit (cmd/receive.go:55).
  - In the code, the flag defaults to -1, and any count `>= 0` is a bound. So `--count 0` nacks the first message and stops (`Receive.ZeroBoundRefusesFirst`).
  - The older revision does treat 0 as unlimited (`Revisions.ZeroCountDiverges`).
- **The final newline.**
  - The newer revision prints it only when dots were printed at a quiet level.
  - The older one prints it whenever `--quiet` is set, even when nothing arrived (`Revisions.QuietNewlineDiffers`).
- **The `--field:*` help texts.** The help texts of `--field:id` and `--field:timestamp` (cmd/publish.go:153-154) describe each other's field. The code uses `--field:id` for `--attr:id` and `--field:timestamp` for `--attr:timestamp`, and so does the model.

## Model

| member | source | states |
|---|---|---|
| `Delivery.FormatOf` | cmd/receive.go:21-27 | `--output none` and `--output json` select their formats; every other value, not only "pretty", takes the pretty branch |
| `Delivery.MaxKeyBytes` | cmd/receive.go:119-124 | the key column's raw width is the byte length of the longest key: no key is longer, one key attains it, and it is 0 with no attributes |
| `Delivery.KeyColumnAligned` | cmd/receive.go:119-131 | the key width never exceeds 40; when no key is longer than 40 bytes every key is padded to exactly that width, so the `": "` separators line up; a key of more than 40 is never truncated |
| `Delivery.KeyWidthOrderIndependent` | cmd/receive.go:119-127 | the key width is the same for every enumeration order of the attribute map |
| `Delivery.AttributeLinesOrderIndependent` | cmd/receive.go:128-132 | the attribute table has the same length in bytes for every enumeration order of the map |
| `Delivery.DataBlock` | cmd/receive.go:135-140 | the payload is kept as is and followed by a newline only if it is non-empty and does not already end in one; the block is empty iff the payload is |
| `Delivery.DataBlockIdempotent` | cmd/receive.go:135-140 | terminating an already terminated payload adds nothing |
| `Delivery.RuleLineLength` | cmd/receive.go:117 | a rule line holds one three-byte glyph per BYTE of the header, then a newline |
| `Delivery.PrettyStartsWithHeader` | cmd/receive.go:114-116 | the pretty display starts with the `<id> @ <time>` header line, and without `--verbose` it is only that line |
| `Delivery.PrettyVerboseEnding` | cmd/receive.go:135-141 | a verbose display ends with the payload block and then `◆` (bytes E2 97 86) on a line of its own |
| `Delivery.FlowSettings` | cmd/receive.go:75-79 | the outstanding-message limit is `--concurrency` when positive and exactly 1 otherwise; one delivery goroutine unless more than one message may be outstanding, else the library default |
| `Delivery.FlowSettingsSingleRoutine` | cmd/receive.go:75-79 | a single delivery goroutine iff `--concurrency` is at most 1 or the library's default pool is 1 |
| `Delivery.FlowSettingsIdempotent` | cmd/receive.go:75-79 | clamping the clamped settings again changes nothing |
| `Receive.OutputFlag` | cmd/receive.go:74 | the `--output` text decides the display when not quiet: exactly "none" gives a dot, "json" the JSON line, any other value the pretty layout |
| `Receive.Recv` | cmd/receive.go:106-143 | quiet level 2 or more shows nothing; level 1 or `--output none` shows a dot and counts it; otherwise the JSON line or the pretty layout |
| `Receive.Bound` | cmd/receive.go:207-239 | there is no bound iff both `--expect` and `--count` are negative; otherwise `--expect` when set, else `--count` |
| `Receive.Step` | cmd/receive.go:185-241 | a stopped stage stays stopped; a delivery to a running stage gets exactly one new decision about that message; any other event changes no acceptance counter, decision, call or output (a delivery to a stopped stage may still count a dot) |
| `Receive.DeliverAdmitted` | cmd/receive.go:206-238 | a delivery whose number the bound admits, to a running stage, is acked (unless `--no-ack`) and counted with its bytes, its display string is forwarded, and the stage stops iff the next number would exceed the bound |
| `Receive.Announce` | cmd/receive.go:161-177 | with `--verbose` only, a start-up line that states the bound the decision stage applies, speaks of expecting iff `--expect` is set, and names the idle timeout iff `--wait` is set |
| `Receive.Shutdown` | cmd/receive.go:274-282 | the run fails iff `--expect` is set and differs from the processed count; otherwise a newline follows iff dots were printed at a quiet level, and the summary line, shown iff `--verbose`, reports the acceptance counters |
| `Receive.RunConsistent` | cmd/receive.go:206-238 | every reachable state keeps the invariant: one decision per processed message, acked iff its number is within the bound; the writer holds the accepted messages' displays in order; calls and counters follow the decisions; the stage stops at the bound |
| `Receive.RunTakesDeliveredPrefix` | cmd/receive.go:145-158 | the processed messages are the first deliveries of the trace in order, and all of them while the stage runs |
| `Receive.RunDots` | cmd/receive.go:106-110 | the dot counter counts every delivery when messages are shown as dots, including deliveries dropped after the stop, and is 0 otherwise |
| `Receive.RunDecisions` | cmd/receive.go:206-239 | the `n`-th decision is about the `n`-th delivery and is an ack iff `n` is within the bound; the writer gets exactly the displays of the admitted deliveries; each decision makes one ack or nack call unless `--no-ack` |
| `Receive.AcceptanceCounters` | cmd/receive.go:148-156 | one backend call per processed message (none with `--no-ack`); the message and byte counters count exactly the admitted messages and their payload bytes, and stay 0 with `--no-ack` |
| `Receive.RunExtends` | cmd/receive.go:191-241 | later events never take back a decision, an output or a call; after the stop no decision, output, call, processed count or acceptance counter changes; the dot counter may still grow |
| `Receive.PrintedExtends` | cmd/receive.go:244-260 | the printed text only grows at its end, in forwarding order |
| `Receive.StopCause` | cmd/receive.go:191-235 | the stage has stopped iff a cancellation, a closed queue or (with `--wait`) the idle timer occurred, or the last processed number reached the bound |
| `Receive.PositiveBoundNeverRefuses` | cmd/receive.go:208-235 | with a bound `k >= 1` at most `k` messages are processed, all acked and forwarded, never nacked |
| `Receive.ZeroBoundRefusesFirst` | cmd/receive.go:208-221 | with a bound of 0 the first delivery is nacked, nothing is forwarded or counted, and the stage stops; `--expect 0` then fails at shutdown |
| `Receive.UnboundedAcceptsAll` | cmd/receive.go:236-238 | without a bound and without a halting event every delivery is acked and forwarded in order and the stage keeps running |
| `Receive.ExpectTakesPrecedence` | cmd/receive.go:207-222 | with `--expect` set, the value of `--count` changes neither the run nor the verdict |
| `Receive.ShutdownVerdict` | cmd/receive.go:274-279 | over any trace: failure iff `--expect` is set and unmet; otherwise the closing newline appears iff the quiet level is exactly 1 and something was delivered |
| `Receive.DeliveriesUpToBound` | cmd/receive.go:218-221 | `j <= k` consecutive deliveries under a bound `k` are all processed, and the stage stops exactly at the `k`-th |
| `Receive.ExpectMet` | cmd/receive.go:274-276 | when the first `k` events are deliveries, `--expect k` succeeds whatever follows, with exactly `k` processed and, without `--no-ack`, `k` accepted |
| `ReceiveLegacy.Dispatch` | cmd/recieve.go:36-53 | only `data` runs, with the remaining arguments; no arguments, `help` or anything else prints the usage |
| `ReceiveLegacy.DispatchLooksUp` | cmd/recieve.go:36-53 | the dispatch is the shared subcommand lookup (`Cli.Subcommand`) over the single name `data` |
| `ReceiveLegacy.Validate` | cmd/recieve.go:80-107 | a missing subscription, then a missing project, then a subscription the backend does not know are refused, in that order; otherwise receiving starts |
| `ReceiveLegacy.ValidateInOrder` | cmd/recieve.go:80-107 | the validation equals the shared reference `Cli.FirstFailure` over the three checks in source order |
| `ReceiveLegacy.ReceiveSettings` | cmd/recieve.go:71-78 | at least one outstanding message, and one delivery goroutine unless more than one may be outstanding; `Revisions.FlowSettingsAgree` proves it equal to the newer `max(1, concurrency)` clamp, which pins the limit down exactly |
| `ReceiveLegacy.Announce` | cmd/recieve.go:162-176 | with `--verbose` only, a start-up line that states the count iff it is positive and names the idle timeout iff `--wait` is set |
| `ReceiveLegacy.OutputFlag` | cmd/recieve.go:68 | the `-output` text decides the display when not quiet: "none" gives a dot, "json" the JSON line, any other value the pretty layout |
| `ReceiveLegacy.Recv` | cmd/recieve.go:116-150 | `--quiet` or `--output none` shows a dot; otherwise the JSON line or the pretty layout |
| `ReceiveLegacy.Step` | cmd/recieve.go:152-211 | a stopped stage ignores every event; a delivery to a running stage is processed exactly once; outputs and calls only grow |
| `ReceiveLegacy.DeliverForwarded` | cmd/recieve.go:152-210 | a delivery to a running stage within the count is forwarded, acked unless `--no-ack`, always counted with its bytes, and stops the stage iff its number reaches a positive count |
| `ReceiveLegacy.Shutdown` | cmd/recieve.go:243-249 | never fails; a final newline iff `--quiet`; the summary line, shown iff `--verbose`, reports the counters |
| `ReceiveLegacy.RunConsistent` | cmd/recieve.go:152-210 | every reachable state keeps the invariant: every processed message is counted (with its bytes) and acked unless `--no-ack`; the writer holds their displays, plus the idle notice when it fired with `--verbose`; a positive count is never exceeded and stops the stage when reached |
| `ReceiveLegacy.RunTakesDeliveredPrefix` | cmd/recieve.go:152-159 | the processed messages are the first deliveries of the trace, and all of them while the stage runs |
| `ReceiveLegacy.EveryProcessedIsAckedAndCounted` | cmd/recieve.go:152-159 | every processed message is acked (unless `--no-ack`), never nacked, and counted even with `--no-ack`; each one is forwarded |
| `ReceiveLegacy.StopRule` | cmd/recieve.go:207-210 | a positive count bounds the processed messages and stops the stage when reached; conversely, a stopped stage saw cancellation, a closed queue or the idle timer, or processed exactly a positive count, so with a count below one only a halting event stops it |
| `Revisions.FlowSettingsAgree` | cmd/recieve.go:71-78 | the older revision's if-based clamp gives the same receive settings as the newer `max(1, concurrency)` for every input |
| `Revisions.AnnounceAgree` | cmd/receive.go:161-177 | with a non-zero count and no `--expect` both revisions announce the same line; a count of 0 is announced as a bound of 0 by the newer one and as no limit by the older one |
| `Revisions.RecvAgree` | cmd/receive.go:106-143 | both revisions render a message the same way when the newer quiet level is 1 or 0 |
| `Revisions.SameBehaviour` | cmd/receive.go:222-238 | with a non-zero count, no `--expect`, and no verbose idle notice (not both `--verbose` and `--wait`, or no idle event in the trace), both revisions process, forward, ack and stop identically on every trace; they count alike except under `--no-ack`, where the newer counts nothing and the older counts everything |
| `Revisions.ZeroCountDiverges` | cmd/receive.go:222-235 | a count of 0 makes the newer revision nack the first message and stop, while the older one acks and shows it and runs on |
| `Revisions.QuietNewlineDiffers` | cmd/recieve.go:243-245 | with `--quiet` and no delivery, only the older revision prints the final newline |
| `AttributeFlags.SplitAttribute` | cmd/publish.go:74-78 | a flag is accepted iff its first `=` exists and is not its first character; a refused flag is reported verbatim |
| `AttributeFlags.ValidAttributeMeaning` | cmd/publish.go:74 | a flag is well formed iff it contains `=` and does not start with it |
| `AttributeFlags.SplitAtFirstEquals` | cmd/publish.go:74-75 | the key is the trimmed text before the first `=` and the value the trimmed text after it |
| `AttributeFlags.SplitAttributeRoundTrip` | cmd/publish.go:74-75 | `key=value` with any white space around either side parses back to the key and value, for any trimmed key without `=` and trimmed value, as long as a key or white space stands before the `=` |
| `AttributeFlags.AttributeEdgeCases` | cmd/publish.go:74-77 | ` =v` gives the empty key with value `v`; `=v` and `ts:123` are refused |
| `AttributeMap.ParseAttributes` | cmd/publish.go:69-79 | all flags parse iff the result is a success; no flags leave the attributes absent rather than empty; a failure is the error of the first flag that does not parse |
| `AttributeMap.LastFlagWins` | cmd/publish.go:70-75 | the parsed map's keys are exactly the flags' keys, and each flag's key maps to its value unless a later flag has the same key |
| `Publish.Dispatch` | cmd/publish.go:28-47 | `data` and `avro` run with the remaining arguments; no arguments, `help` or anything else prints the usage |
| `Publish.DispatchLooksUp` | cmd/publish.go:28-47 | the dispatch is the shared subcommand lookup (`Cli.Subcommand`) over the names `data` and `avro` |
| `Publish.CheckTarget` | cmd/publish.go:62-67 | a missing topic is refused first, then a missing project |
| `Publish.CheckTargetInOrder` | cmd/publish.go:62-67 | the checks equal the shared reference `Cli.FirstFailure` over topic, then project |
| `Publish.PublishData` | cmd/publish.go:49-138 | errors in the source's order (topic, project, first bad flag, unknown topic); on success each input is published `max(count, 1)` times in a row with the parsed attributes, one progress mark per publish, and the totals count each input once |
| `Publish.ExpandLayout` | cmd/publish.go:97-128 | `n` inputs repeated `c` times give `n * c` messages, the `j`-th copy of the `i`-th input at position `i * c + j` |
| `Publish.EachInputOnce` | cmd/publish.go:97 | a count of at most one publishes each input exactly once, in order |
| `Publish.ItemAttributes` | cmd/publish.go:215-227 | only records get attributes; a named non-nil identifier (timestamp) field sets the identifier (timestamp) attribute to its text; if both attributes share a name, the timestamp wins |
| `Publish.ItemAttributesOfText` | cmd/publish.go:215-227 | when the named fields hold nil, strings or string pointers, the attributes are the same whatever `fmt.Sprint` does |
| `Publish.DefaultsGiveNoAttributes` | cmd/publish.go:153-156 | with the flag defaults no field is named, so every message has an empty attribute map |
| `Publish.PublishItems` | cmd/publish.go:204-250 | each item of one input is encoded and published once in order with its field attributes; verbose progress lists non-empty attributes; the input's totals count its items and encoded bytes |
| `Publish.PublishAvro` | cmd/publish.go:140-257 | errors in the source's order (topic, project, unknown topic); on success every item of every input is published once in order and the totals restart for each input |
| `Cli.Subcommand` | cmd/publish.go:28-47 | a subcommand is found iff there is a first argument and it is one of the group's names, and the found name followed by its arguments is the whole argument list |
| `Cli.FirstFailure` | cmd/publish.go:62-67 | checks made in order pass iff every one holds; otherwise the error is that of a check that fails while every check before it holds |
| `Util.Stringer` | cmd/util.go:9-20 | nil is the empty string, a string is itself, a string pointer is its target, anything else is `fmt.Sprint`'s text |
| `Util.StringerText` | cmd/util.go:11-16 | the text of nil, a string or a string pointer does not depend on `fmt.Sprint`, and a pointer reads as the string it points to |
| `Util.DumpAttrs` | cmd/util.go:22-35 | the listing is the entries `k: v` of the enumeration joined by `, ` |
| `Util.JoinedLength` | cmd/util.go:22-35 | the listing's length is the sum of the entries' lengths plus two per separator |
| `Util.JoinedEntries` | cmd/util.go:25-32 | every entry appears at the offset where the earlier entries and separators end, preceded by `, ` unless it is the first |
| `Util.DumpLengthOrderIndependent` | cmd/util.go:22-35 | the listing has the same length for every enumeration order of the map |
| `Text.PadLeft` | cmd/receive.go:128-130 | `%<w>s` right-justifies in a field of `w` characters with spaces, keeps the string as its suffix and never truncates |
| `Text.Index` | cmd/publish.go:74 | the first position of the character, or -1 iff it does not occur |
| `Text.TrimSpace` | cmd/publish.go:75 | the result has no white space at either end and is what remains after dropping only leading and trailing white space |
| `Text.TrimSpaceIdempotent` | cmd/publish.go:75 | trimming twice is trimming once |

## Left out

- Goroutines, channels and the timer are not modelled as concurrent code. The decision stage is the only consumer of the processing queue, so a trace of `Deliver`, `Idle`, `Cancel` and `Closed` events stands for every schedule. The race in `wg.Add(1)`, which is called inside the goroutines it waits for, is not modelled.
- Deliveries that block forever after the stop are left out of the older revision. Once its decision stage has returned (cmd/recieve.go:207-210), a callback's send on the unbuffered queue (cmd/recieve.go:152) never completes, so that callback never returns and `Receive` may never return either: the command can hang after `--count` messages. The model records such a delivery as leaving no trace and does not model the hang.
- Calls to the messaging service are left out: the client, `Exists`, `Publish`/`Get` and `Receive`. The answer of `Exists` is the parameter `found`. Publishing always succeeds, so "Publish failed" and client-creation errors are not modelled.
- `Publish.PublishData` and `Publish.PublishAvro` do not model publish or I/O failures part-way through the inputs, because those come from the service and the file system.
- Reading files and standard input, and decoding Avro object container files, are left out. The models take the inputs' contents, or the decoded items, as parameters.
- Library formatting is left out: `%v` of times and durations, the JSON encoder, `fmt.Sprint`, `humanize.Bytes` and Avro binary encoding. They are uninterpreted function parameters. Because `encode` is total, the error return of `BinaryFromNative` (cmd/publish.go:210-213) is not modelled.
- The exact text of the verbose start-up and summary lines is not modelled: the subscription and topic names come from the service and the sizes from `humanize.Bytes`. `Receive.Announce`, `ReceiveLegacy.Announce` and both `Shutdown` members model when each line appears and the numbers it reports. The newer revision writes these lines, and the dots' closing newline, to standard error (cmd/util.go:37-47); the older one prints them to standard output (cmd/recieve.go:167-175, 244-248).
- The newer revision's verbose notices on standard error are not modelled: "Refused message" (cmd/receive.go:214-216, 228-230) and the idle timer's "Canceling after receiving for ..." (cmd/receive.go:196-198). `Receive.Step` turns a firing idle timer into a plain stop. The older revision sends its idle notice to the writer, which `ReceiveLegacy.Step` models; that is why `Revisions.SameBehaviour` excludes traces where it is written.
- The `recv` alias, cobra's `MarkFlagRequired` checks and the subscription-exists check of the newer revision (cmd/receive.go:93-97) are not modelled. They only make the command exit before receiving.
- `Receive.Shutdown` does not model the exit code or message of `cobra.CheckErr`. It returns the mismatch as a `Failure`, so nothing is printed after it.
- The int64/uint64 counters are unbounded integers. Overflow would need more than 2^63 messages or bytes.
- `Delivery.AttributeLinesOrderIndependent` states only that the table's length is order independent. The table's content depends on Go's map iteration order, which the source leaves unspecified.
- `Util.DumpLengthOrderIndependent` states only the length, for the same reason.
- `Util.Value` has no nil string pointer. `stringer` would panic on one when it dereferences it (cmd/util.go:15-16); the model assumes the Avro decoder never hands one over.
- Strings are sequences of Unicode scalar values. Invalid UTF-8 in keys, values or identifiers is not modelled, since the messaging service rejects it.
- cmd/topics.go, cmd/subscrs.go, cmd/flags.go and cmd/main.go are not part of this model. They cover administrative commands, flag plumbing and program start.
