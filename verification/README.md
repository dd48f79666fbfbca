# Scatter-gather gatherer, modelled in Dafny

The gatherer of the scatter-gather demo receives three response messages from
the gather queue, completes each one, picks the best response, and sends a
one-line summary to the response queue. This project models that logic as
pure Dafny over immutable values:

- `Messages` (`messages.dfy`): a received message is a lock token plus its
  application properties, a map from property name to a boxed value
  (`IntValue` for a boxed `int`, `StringValue`, `NullValue`, `OtherValue`
  for any other CLR type). The module also holds the dictionary indexer
  (`Lookup`), the unboxing cast `(int)` (`UnboxInt`), and the `ToString`
  that string interpolation applies (`Render`).
- `Decimal` (`decimal.dfy`): the decimal text of an `int`, with a parser
  that reads it back.
- `Aggregation` (`aggregation.dfy`): `AgregateResponses`. It filters the
  messages on `Response`, orders them stably by the unboxed key, and takes
  the first one. The result is a stable argmin: the smallest key wins, and
  ties go to the earliest message in gather order. `Aggregate` fails instead
  when any `Response` is not a boxed `int`. `AggregationLaws`
  (`aggregation_laws.dfy`) proves that only the filtered messages matter.
- `Summary` (`summary.dfy`): the outbound text, plus `ReadSummary`, which
  recovers the recipient name and the response from that text.
- `Gatherer` (`gatherer.dfy`): the receive loop, with settlement recorded as
  an event log, and the whole flow `Run`. `Scenarios` holds two worked
  examples.

Ties go to the earliest message in gather order, because `OrderBy` is
stable; the code has no other tie-break.

## Model

| member | source | states |
|---|---|---|
| `Messages.Lookup` | Demos/scatter-gather/Gatherer/Program.cs:45 | The indexer yields the stored value when the key is present, and fails with KeyNotFound for that key otherwise |
| `Messages.UnboxInt` | Demos/scatter-gather/Gatherer/Program.cs:33 | `(int)` succeeds exactly on a boxed int and yields its value; `null` raises NullReference; every other type raises InvalidCast |
| `Messages.Render` | Demos/scatter-gather/Gatherer/Program.cs:45 | An int renders as its canonical decimal text (`Decimal.Format`), which parses back to the same number; a string renders as itself; `null` renders as the empty string; any other value renders as its `ToString` text |
| `Decimal.Format` | Demos/scatter-gather/Gatherer/Program.cs:45 | The text of an int is canonical: it starts with '-' exactly when the number is negative, zero is "0", and no leading zero follows the sign |
| `Decimal.ParseFormatRoundTrip` | Demos/scatter-gather/Gatherer/Program.cs:45 | Reading back the decimal text of any integer yields that integer |
| `Decimal.FormatInjective` | Demos/scatter-gather/Gatherer/Program.cs:45 | Distinct response values produce distinct texts |
| `Aggregation.SelectIndex` | Demos/scatter-gather/Gatherer/Program.cs:31-34 | Succeeds exactly when every Response unboxes to int; otherwise it fails with the exception of the first message whose cast fails. Returns no index exactly when no message carries a Response; otherwise it returns the index of the stable argmin |
| `Aggregation.Aggregate` | Demos/scatter-gather/Gatherer/Program.cs:28-35 | Fails exactly when some Response is not an int, with the first failing cast's exception. Returns null exactly when no message carries a Response. Otherwise the winner is an input message that carries a Response, has a key no greater than any other Response key, and is the earliest with that key. Conversely, whenever position w is the stable argmin, the result is exactly the message at w |
| `Aggregation.Responding` | Demos/scatter-gather/Gatherer/Program.cs:32 | The filter keeps only messages that carry a Response, never grows the list, and comes out empty exactly when no message carries a Response |
| `AggregationLaws.RespondingContents` | Demos/scatter-gather/Gatherer/Program.cs:32 | A message is in the filtered list exactly when it is in the gathered list and carries a Response |
| `AggregationLaws.RespondingAppend` | Demos/scatter-gather/Gatherer/Program.cs:32 | Filtering a concatenation is the concatenation of the filtered parts, so the filter keeps the order and multiplicity of the kept messages |
| `AggregationLaws.RespondingIdempotent` | Demos/scatter-gather/Gatherer/Program.cs:32 | Filtering an already filtered list changes nothing |
| `AggregationLaws.AggregateSameView` | Demos/scatter-gather/Gatherer/Program.cs:31-34 | Two gathered lists with the same Response-carrying messages in the same order aggregate to the same outcome, winner or exception |
| `AggregationLaws.AggregateSeesOnlyResponding` | Demos/scatter-gather/Gatherer/Program.cs:31-32 | Aggregating the filtered list gives the same outcome as aggregating the gathered list |
| `AggregationLaws.AggregateIgnoresSilent` | Demos/scatter-gather/Gatherer/Program.cs:32 | Inserting a message without a Response anywhere in the list, or removing one, leaves the outcome unchanged |
| `Summary.ReadWinnerText` | Demos/scatter-gather/Gatherer/Program.cs:45 | A winner text never reads as the no-response text, and it reads back as the recipient name and response inserted into it whenever the name holds no backtick |
| `Summary.Summary` | Demos/scatter-gather/Gatherer/Program.cs:43-45 | No winner gives exactly "No response received". A winner without RecipientName fails with KeyNotFound("RecipientName"); one without Response fails with KeyNotFound("Response"). Otherwise the text is exactly the interpolation of the rendered name and response, it never reads as the no-response text, and it reads back as that name and response when the name holds no backtick |
| `Gatherer.Gather` | Demos/scatter-gather/Gatherer/Program.cs:13-26 | Returns exactly the first three received messages in receive order. Each message is received, then completed, before the next one is received |
| `Gatherer.Reply` | Demos/scatter-gather/Gatherer/Program.cs:8-9 | When some Response is not an int, the reply fails with the exception of the first failing cast. It is the no-response text exactly when every cast succeeds and no message carries a Response. When position w is the stable argmin, the reply is exactly the winner text for w's rendered recipient and its key as canonical decimal text, and reads back as those two when the name holds no backtick; it fails with KeyNotFound("RecipientName") if w has none |
| `Gatherer.Run` | Demos/scatter-gather/Gatherer/Program.cs:7-9 | The program completes the first three incoming messages in order, and its outbound text is the reply computed from exactly those three |
| `Scenarios.LowestResponseWins` | Demos/scatter-gather/Gatherer/Program.cs:31-45 | Worked example: alice 120, bob 95, carol 150 gives "The best response was from `bob` with a response of `95`" |
| `Scenarios.EarliestOfTiedWins` | Demos/scatter-gather/Gatherer/Program.cs:31-45 | Worked example: with bob and carol tied at 95, the earlier message, bob, wins |

## Left out

- Service Bus client, receiver and sender construction, the connection string, and the queue names (lines 3-5, 16-17, 40-41): third-party I/O.
- `async`/`await`, and `SendMessageAsync`/`CompleteMessageAsync` as transport calls. Completion is an event in a log, and sending is the returned text.
- Gatherer.Gather: requires at least three incoming messages, and so does Gatherer.Run. What `ReceiveMessageAsync` does on an empty queue (waiting, returning `null` after its timeout) is library-defined and is not modelled.
- Console output and `Console.ReadKey` (lines 10-11, 15, 30, 39): no logic.
- Lines 50-54: they create an unused client, processor and sender, and have no logic.
- Messages.Render: other CLR types are kept only as the text their `ToString` gives. An int renders in the invariant culture, with '-' as the negative sign; culture-specific number formatting is not modelled.
- Summary.Summary: the read-back through `ReadSummary` is stated only for recipient names without a backtick. With a backtick in the name the exact text is still stated, but reading it back is ambiguous.
