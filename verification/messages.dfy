/** Received Service Bus messages, reduced to what the gatherer looks at: a lock
    token (what `CompleteMessageAsync` settles) and the application properties,
    a map from property name to a boxed value. */
module Messages {
  import opened Wrappers
  import Decimal

  /** .NET `int` (System.Int32). */
  newtype int32 = x: int | -0x8000_0000 <= x < 0x8000_0000

  /** A boxed application-property value. `IntValue` is a boxed `int`; every
      other CLR type (long, double, bool, ...) is `OtherValue`, kept only with
      the text its `ToString` produces. */
  datatype Value =
    | IntValue(n: int32)
    | StringValue(s: string)
    | NullValue
    | OtherValue(text: string)

  /** The exceptions the core can raise. */
  datatype Failure =
    | KeyNotFound(key: string)   // IReadOnlyDictionary indexer on a missing key
    | InvalidCast                // unboxing a non-int object to `int`
    | NullReference              // unboxing `null` to `int`

  datatype Message = Message(lockToken: nat, properties: map<string, Value>)

  const ResponseKey: string := "Response"
  const RecipientNameKey: string := "RecipientName"

  predicate HasResponse(m: Message) {
    ResponseKey in m.properties
  }

  /** The dictionary indexer `ApplicationProperties[key]`. */
  function Lookup(m: Message, key: string): (r: Result<Value, Failure>)
    ensures r.Success? <==> key in m.properties
    ensures r.Success? ==> r.value == m.properties[key]
    ensures r.Failure? ==> r.error == KeyNotFound(key)
  {
    if key in m.properties then Success(m.properties[key]) else Failure(KeyNotFound(key))
  }

  /** The unboxing cast `(int)obj`: succeeds only on a boxed `int`. */
  function UnboxInt(v: Value): (r: Result<int32, Failure>)
    ensures r.Success? <==> v.IntValue?
    ensures r.Success? ==> r.value == v.n
    ensures v.NullValue? <==> r == Failure(NullReference)
    ensures !v.IntValue? && !v.NullValue? ==> r == Failure(InvalidCast)
  {
    match v
    case IntValue(n) => Success(n)
    case NullValue => Failure(NullReference)
    case _ => Failure(InvalidCast)
  }

  /** The ordering key `(int)msg.ApplicationProperties["Response"]` of a message
      that carries a `Response` property. */
  function SortKey(m: Message): Result<int32, Failure>
    requires HasResponse(m)
  {
    UnboxInt(m.properties[ResponseKey])
  }

  /** The message's key casts without throwing (vacuously true without a `Response`). */
  predicate KeyCasts(m: Message) {
    HasResponse(m) ==> m.properties[ResponseKey].IntValue?
  }

  function Key(m: Message): int32
    requires HasResponse(m) && KeyCasts(m)
  {
    m.properties[ResponseKey].n
  }

  /** The text string interpolation inserts for a value: its `ToString`, and
      nothing for `null`. */
  function Render(v: Value): (r: string)
    ensures v.IntValue? ==> Decimal.Parse(r) == Some(v.n as int) && r == Decimal.Format(v.n as int)
    ensures v.StringValue? ==> r == v.s
    ensures v.NullValue? ==> r == ""
    ensures v.OtherValue? ==> r == v.text
  {
    match v
    case IntValue(n) =>
      Decimal.ParseFormatRoundTrip(n as int);
      Decimal.Format(n as int)
    case StringValue(s) => s
    case NullValue => ""
    case OtherValue(text) => text
  }
}
