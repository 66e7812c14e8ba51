# PI qdisc option codec, modelled in Dafny

This project models `tc/q_pi.c`, the part of iproute2's `tc` that handles the
PI (proportional-integral) queue discipline. It has three callbacks:

- `pi_parse_opt` reads the user's tokens (`limit`, `qref`, `w`, `a`, `b`,
  `ecn`/`noecn`, `bytemode`/`nobytemode`, `help`). It validates them and
  appends one `TCA_OPTIONS` nest of `TCA_PI_*` records to the netlink
  request.
- `pi_print_opt` renders such a nest back as text.
- `pi_print_xstats` checks the length of the kernel's statistics record and
  prints its fields.

Modules:

- `Wrappers`: `Option` and `Result`.
- `Netlink`: record tags, records, and the request message. The message is
  the class `NlMsg`, whose `AddNest`, `AddAttr` and `NestEnd` methods stand
  for `addattr_nest`, `addattr_l` and `addattr_nest_end`. The module also
  has the payload reads `rta_getattr_u32` and `rta_getattr_u64`, and `Find`,
  the lookup that `parse_rtattr_nested` gives a printer.
- `Text`: `%u` and `%d` as decimal spellings, with a digit reader that
  inverts `%u`.
- `TcUtil`: the utility-library helpers the codec calls (`get_unsigned`,
  `get_u64`, `get_time`, `sprint_time`, and the `%f` rendering of the
  probability). Each is a function-valued parameter, so nothing is assumed
  about them beyond their C result types. The module also defines the
  printers' result, `Printed`.
- `PiParse`: the token loop. `Walk` is its specification and is read left
  to right. `ParseOpt` is the imperative loop, with the C locals as
  variables, and is proved against `Walk`. `AddOptions` is the emission
  (lines 106-124) and is proved against `Emit`.
- `PiPrint`: `PrintOpt`, with the properties of its output.
- `PiXstats`: the statistics record's byte layout, `PrintXstats`, and the
  read-back of the counter line.
- `PiRoundTrip`: what the printer shows of the nest that the parser writes.

Conventions and departures from the code:

- The host is taken to be little-endian LP64. So `sizeof(unsigned long)` is
  8, and the `a`/`b` records written with `sizeof(a)` are 8 bytes wide,
  which the printer's `>= sizeof(__u64)` test accepts.
- Line 82 tests an undeclared `tmp` against `B_MAX`. As written it does not
  compile. The model checks the parsed `b` instead, as the `a` branch does
  on line 75.
- `qref` is read with `get_unsigned` (a packet count) but printed through
  `sprint_time`. The model keeps both as written. `ParseThenPrint` therefore
  states that the printed `qref` is `sprint_time` of the parsed count.
- `a` and `b` are stored as 64-bit values. The printer reads them with
  `rta_getattr_u64` into `unsigned int`, so it prints their low 32 bits
  (`Low32`). Parsed values are at most 10 and 1, so the narrowing never
  changes them.
- The nest is written in the order limit, w, qref, a, b, ecn, bytemode. It
  is printed in the order limit, qref, w, a, b, ecn, bytemode.
- `NEXT_ARG` with no token left exits the process. The model treats this as
  a failed parse (`MissingValue`) that appends nothing.

## Model

| member | source | states |
|---|---|---|
| Netlink.NlMsg.constructor | tc/q_pi.c:41-42 | the request starts with the caller's attributes and no open nest |
| Netlink.NlMsg.AddNest | tc/q_pi.c:106 | opening the nest leaves the attributes as they were and starts an empty nest |
| Netlink.NlMsg.AddAttr | tc/q_pi.c:107-121 | a record is appended at the end of the open nest; nothing else changes |
| Netlink.NlMsg.NestEnd | tc/q_pi.c:123 | closing the nest appends exactly one TCA_OPTIONS attribute holding the nest's records |
| Netlink.Low32 | tc/q_pi.c:162-163 | storing a 64-bit read in an unsigned int keeps its low 32 bits: the result is below 2^32 and congruent to the value modulo 2^32, so values below 2^32 are unchanged |
| Netlink.GetU32 | tc/q_pi.c:147 | a 32-bit read gives the payload's low 32 bits: congruent modulo 2^32, and unchanged when the value fits |
| Netlink.GetU64 | tc/q_pi.c:162 | a 64-bit read gives the payload's low 64 bits: congruent modulo 2^64, and unchanged when the value fits |
| Netlink.FindSpec | tc/q_pi.c:143 | the table lookup finds nothing exactly when no record of the nest has the tag, and otherwise the first record that has it |
| Netlink.FindUnique | tc/q_pi.c:143 | in a nest whose tags are distinct, the table lookup finds each record under its own tag |
| Text.Decimal | tc/q_pi.c:148 | `%u` prints at least one digit, only digits, and no leading zero unless the value is 0 |
| Text.DecimalRoundTrip | tc/q_pi.c:148 | reading the digits `%u` printed gives back the number |
| Text.DecimalInjective | tc/q_pi.c:163 | two numbers print the same `%u` text only if they are equal |
| Text.Int32Of | tc/q_pi.c:200-201 | `%d` of a 32-bit field reads it as a signed value in range, congruent to the field modulo 2^32 |
| Text.SignedDecimal | tc/q_pi.c:200-201 | `%d` prints a minus sign exactly for negatives, then the decimal magnitude |
| Text.SignedDecimalInjective | tc/q_pi.c:200-201 | two numbers print the same `%d` text only if they are equal |
| Text.DigitsPrefixUnique | tc/q_pi.c:202-204 | a digit run followed by a non-digit can be split off in only one way |
| PiParse.Classify | tc/q_pi.c:54-101 | the strcmp chain: a recognised token is the keyword's own name, and the fallthrough is taken exactly for tokens outside the ten option names |
| PiParse.Scan | tc/q_pi.c:55-85 | limit and qref take exactly what get_unsigned reads and w what get_time reads; `a`/`b` take what get_u64 reads exactly when it succeeds with a value at most A_MAX/B_MAX, and fail otherwise; every accepted value fits in 32 bits |
| PiParse.Walk | tc/q_pi.c:53-104 | the loop keeps `a` <= A_MAX and `b` <= B_MAX in every accepted outcome |
| PiParse.Parse | tc/q_pi.c:44-104 | from the initial locals, an accepted token list has `a` and `b` within bounds |
| PiParse.ParseOpt | tc/q_pi.c:41-125 | on an accepted list, returns 0, appends exactly one TCA_OPTIONS nest holding Emit of the parsed settings and leaves no nest open; on any failure, returns -1 with the reason and leaves the message (attributes and open nest) unchanged |
| PiParse.AddOptions | tc/q_pi.c:106-124 | the emission appends one nest whose records are Emit of the locals, and leaves no nest open |
| PiParse.Tri | tc/q_pi.c:117-119 | the C tri-state -1/0/1 is "unset" exactly at -1, and otherwise the value that is written |
| PiParse.EmitContents | tc/q_pi.c:106-121 | each numeric record is in the nest iff its value is non-zero, and each flag record iff its token was given, with the parsed value and width; records follow the order limit, w, qref, a, b, ecn, bytemode; no tag repeats |
| PiParse.EmptyArgs | tc/q_pi.c:53-124 | no tokens: accepted, and the nest is empty |
| PiParse.WalkAppend | tc/q_pi.c:53-104 | after an accepted prefix, the loop continues on the rest from the locals the prefix left |
| PiParse.RejectsUnrecognised | tc/q_pi.c:94-101 | `help` or any non-option token in key position fails the parse, whatever follows |
| PiParse.RejectsMissingValue | tc/q_pi.c:54-55 | a value key as the last token fails for want of its value |
| PiParse.RejectsOutOfBound | tc/q_pi.c:72-85 | `a` above 10 or `b` above 1 fails the parse, whatever follows |
| PiParse.WalkFrame | tc/q_pi.c:53-104 | tokens that do not name a local leave that local unchanged |
| PiParse.LastValueWins | tc/q_pi.c:54-85 | when a value key is repeated, the local holds the value read from its last occurrence |
| PiParse.LastFlagWins | tc/q_pi.c:86-93 | when a flag is repeated in either spelling, the last token decides: 1 for `ecn`/`bytemode`, 0 for `noecn`/`nobytemode` |
| PiParse.WalkErrorNamesToken | tc/q_pi.c:57-100 | a failure names a token of the input: the unknown non-option token, or the value key that is missing its value or has an illegal one |
| PiPrint.PrintOpt | tc/q_pi.c:127-185 | always returns 0; a null attribute prints nothing; otherwise prints the rendered fields in print order |
| PiPrint.RenderedTags | tc/q_pi.c:145-182 | one text per shown field, in order, each being that field's own text |
| PiPrint.ShownTagsSpec | tc/q_pi.c:145-182 | the printed fields are exactly the shown ones, each once, in print order |
| PiPrint.FieldTextLead | tc/q_pi.c:148-181 | every field's text starts with a two-character lead of its own |
| PiPrint.RenderedShows | tc/q_pi.c:145-182 | a shown field's text appears in the output |
| PiPrint.RenderedLeads | tc/q_pi.c:145-182 | any output text that starts like a field's text is that field's text, and the field is shown |
| PiPrint.RenderedOrdered | tc/q_pi.c:145-182 | output texts come in the order of their fields |
| PiPrint.PrintedFields | tc/q_pi.c:145-182 | a field is printed iff present with at least 4 bytes (8 for a/b), and for a flag non-zero; any text that starts like a field's is that field's; the order is limit, qref, w, a, b, ecn, bytemode |
| PiPrint.RenderedFlag | tc/q_pi.c:171-182 | a flag's bare name is printed iff the flag is shown, and it never prints any other text |
| PiPrint.FlagPrintedBare | tc/q_pi.c:171-182 | `ecn `/`bytemode ` is printed iff the record is present, at least 4 bytes wide and non-zero; a flag's text is only ever its bare name |
| PiXstats.EncodeU32 | tc/q_pi.c:198 | a 32-bit field occupies four bytes of the record |
| PiXstats.U32RoundTrip | tc/q_pi.c:198-204 | reading four little-endian bytes of an encoded value gives the value back |
| PiXstats.U32BytesRoundTrip | tc/q_pi.c:198-204 | any four bytes are the encoding of the value they read as |
| PiXstats.Encode | tc/q_pi.c:195-198 | the record is XSTATS_SIZE bytes long |
| PiXstats.DecodeEncode | tc/q_pi.c:198-204 | the record read from an encoded record, with any trailing bytes, is that record |
| PiXstats.EncodeDecode | tc/q_pi.c:198-204 | reading the first XSTATS_SIZE bytes loses nothing: re-encoding gives those bytes |
| PiXstats.PrintXstats | tc/q_pi.c:187-207 | null: 0 and no output; payload shorter than the record: -1 and no output; otherwise 0 and two lines |
| PiXstats.PrintsRecord | tc/q_pi.c:198-205 | for a record the kernel wrote, the lines show its own prob/qlen and its five counters |
| PiXstats.FieldInjective | tc/q_pi.c:202-204 | a `name value` pair followed by a delimiter fixes the value and the rest of the line |
| PiXstats.FieldDelimited | tc/q_pi.c:202 | each later pair starts with a non-digit, so it delimits the number before it |
| PiXstats.CounterLineInjective | tc/q_pi.c:202-204 | the counter line determines pkts_in, overlimit, dropped, maxq and ecn_mark: each is printed unchanged and in its own place |
| PiRoundTrip.ShownAfterEmit | tc/q_pi.c:106-182 | a field of the emitted nest is shown iff its setting is non-zero (a flag: switched on), and then as that setting's text |
| PiRoundTrip.PrintAfterEmit | tc/q_pi.c:106-182 | printing the emitted nest shows each printable setting's text and no other; a text that starts like a field's is that setting's |
| PiRoundTrip.SettingTextLead | tc/q_pi.c:148-181 | a setting's text starts with its field's lead |
| PiRoundTrip.PrintBounded | tc/q_pi.c:106-182 | with `a`/`b` in bounds, each parameter prints with its own value iff non-zero, and each flag prints iff switched on |
| PiRoundTrip.ParseThenPrint | tc/q_pi.c:41-182 | after an accepted parse, limit, qref, w, a and b print with the parsed values iff non-zero; ecn/bytemode print iff the last flag token switched them on |
| PiRoundTrip.SwitchedOffFlagSentButSilent | tc/q_pi.c:117-182 | `noecn`/`nobytemode` still sends a 4-byte record with value 0, yet nothing is printed for it |

## Left out

- `explain()` and the `fprintf(stderr, …)` diagnostics: the model returns
  the failure reason (`ParseError`) instead of writing text.
- The internals of `get_unsigned`, `get_u64`, `get_time` and `sprint_time`,
  and the `%f` rendering of `prob / 0xffffffff`. They are left
  uninterpreted, as parameters. The floating-point division is not
  modelled.
- The rtattr byte layout: headers, alignment padding and the 1024-byte
  limit of `addattr_l`. A record is modelled by its tag, payload width and
  value. A message that overflows its buffer is not modelled.
- `parse_rtattr_nested` on a nest with repeated tags: `Find` keeps the first
  record of a tag. The parser never writes a repeated tag (`EmitContents`).
- The `qdisc_util` registration table (lines 209-214) is a static
  initialiser with no behaviour.
- The `struct tc_pi_xstats` declaration is not part of this model. Its
  layout is taken to be seven 32-bit fields in the order the printer reads
  them (prob, qlen, packets_in, overlimit, dropped, maxq, ecn_mark), 28
  bytes in all.
- Record payloads are modelled as a value plus a width, not as bytes;
  `GetU32` and `GetU64` read the value's low 32 or 64 bits.
- `NEXT_ARG` after the last token calls `exit(-1)` in the C code. The model
  does not end the process: it returns -1 with `MissingValue`, appending
  nothing.
- Line 82 compares the undeclared `tmp` with `B_MAX` and does not compile
  as written. The model applies the bound to the parsed `b`, as line 75
  does for `a`.
