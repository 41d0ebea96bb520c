/**
 * The reply decoders of `RedisClient` as functions from a position in the
 * reply stream to a decoded value and the position after it.
 *
 * The stream is the byte sequence the server sent; reading "one byte" yields -1
 * at the end, reading "a line" yields the bytes up to the next CR LF (or up to
 * the end) and skips the CR LF. A failed decode is an `Err`; after it the
 * position in the stream is not meaningful, as in the client, where the
 * exception leaves the socket stream wherever it stopped.
 */
module RespSpec {
  import opened Common
  import Numeric
  import Text

  /** Why `CreateResponseError` was raised; every one of these sets `HadExceptions`. */
  datatype ResponseReason =
    | NoMoreData
    | ZeroLengthResponse
    | ServerError(message: Bytes)
    | InvalidLength
    | UnexpectedEndOfStream
    | InvalidTermination
    | UnexpectedReply(line: Bytes)
    | UnknownIntegerReply(lead: int, line: Bytes)
    | UnknownMultiReply(lead: int, line: Bytes)
    | UnexpectedWord(expected: Bytes, got: Bytes)

  /** A .NET exception that the client code raises itself, without `CreateResponseError`. */
  datatype RuntimeFault =
    | NegativeArraySize       // `new T[n]` with n < 0 (OverflowException)
    | SubstringOutOfRange     // `Substring(k)` with k > Length
    | InvalidCast
    | IndexOutOfRange
    | NullReference
    | ArgumentNull(param: string)
    | ArgumentMismatch
    | InvalidFormat           // `string.Format` of a text with a stray brace (FormatException)

  /**
   * An exception of the client: a response error, a fault of its own code, or
   * the connection error `CreateConnectionError` raises when a command could
   * not be sent.
   */
  datatype Error = Response(reason: ResponseReason) | Runtime(fault: RuntimeFault) | ConnectionFailed

  datatype Result<+T> = Ok(value: T) | Err(error: Error)

  /** A decoded value and the stream position just after it. */
  datatype Step<+T> = Step(value: T, next: nat)

  /** What the nested decoder returns: a bulk value (possibly nil), a bare text line, or an array. */
  datatype Nested = Bulk(data: Option<Bytes>) | Line(text: Bytes) | Array(items: seq<Nested>)

  function Value<T>(d: Result<Step<T>>): Result<T> {
    match d
    case Ok(s) => Ok(s.value)
    case Err(e) => Err(e)
  }

  /** The length text `-1` that marks a nil bulk value. */
  const NIL_LENGTH: Bytes := [MINUS, DIGIT_ZERO + 1]

  // ---------------------------------------------------------------- reading

  /** Reading one byte: the byte at `pos`, or -1 at the end of the stream. */
  function ByteAt(input: Bytes, pos: nat): int {
    if pos < |input| then input[pos] else -1
  }

  /** Reading a line: the bytes up to the next CR LF, and the position after the CR LF. */
  function LineAt(input: Bytes, pos: nat): (r: Step<Bytes>)
    requires pos <= |input|
    ensures pos + |r.value| <= r.next <= |input|
    decreases |input| - pos
  {
    if pos == |input| then Step([], pos)
    else if pos + 1 < |input| && input[pos] == CR && input[pos + 1] == LF then Step([], pos + 2)
    else
      var rest := LineAt(input, pos + 1);
      Step([input[pos]] + rest.value, rest.next)
  }

  // ---------------------------------------------------------------- decoders

  /** `s.StartsWith("ERR") ? s.Substring(4) : s`, raised as a server error. */
  function ServerErrorOf(s: Bytes): Error {
    if Text.StartsWith(s, ERR) then
      if |s| >= 4 then Response(ServerError(s[4..])) else Runtime(SubstringOutOfRange)
    else Response(ServerError(s))
  }

  /**
   * `ParseSingleLine(r)`: decodes the reply line `r` (lead byte included); a
   * bulk payload is read from the stream at `pos`.
   */
  function SingleLine(r: Bytes, input: Bytes, pos: nat): (d: Result<Step<Option<Bytes>>>)
    requires pos <= |input|
    ensures d.Ok? ==> pos <= d.value.next <= |input|
  {
    if |r| == 0 then Err(Response(ZeroLengthResponse))
    else if r[0] == MINUS then
      if Text.StartsWith(r, [MINUS] + ERR) then
        if |r| >= 5 then Err(Response(ServerError(r[5..]))) else Err(Runtime(SubstringOutOfRange))
      else Err(Response(ServerError(r[1..])))
    else if r[0] == DOLLAR then
      if r[1..] == NIL_LENGTH then Ok(Step(None, pos))
      else
        match Numeric.TryParse(r[1..], Numeric.INT32_MIN, Numeric.INT32_MAX)
        case None => Err(Response(InvalidLength))
        case Some(n) => Payload(n, input, pos)
    else if r[0] == COLON then Ok(Step(Some(r[1..]), pos))
    else Err(Response(UnexpectedReply(r)))
  }

  /** Reading `n` payload bytes from `pos`: `None` when the stream ends first. */
  function ReadBytes(input: Bytes, pos: nat, n: nat): (r: Option<Bytes>)
    requires pos <= |input|
    ensures r.Some? <==> pos + n <= |input|
    ensures r.Some? ==> |r.value| == n
    decreases n
  {
    if n == 0 then Some([])
    else if pos == |input| then None
    else
      match ReadBytes(input, pos + 1, n - 1)
      case None => None
      case Some(rest) => Some([input[pos]] + rest)
  }

  /** The bulk payload of declared length `n` at `pos`, which must be followed by CR LF. */
  function Payload(n: int, input: Bytes, pos: nat): (d: Result<Step<Option<Bytes>>>)
    requires pos <= |input|
    ensures d.Ok? ==> pos <= d.value.next <= |input|
  {
    if n < 0 then Err(Runtime(NegativeArraySize))
    else
      match ReadBytes(input, pos, n)
      case None => Err(Response(UnexpectedEndOfStream))
      case Some(x) =>
        if ByteAt(input, pos + n) != CR || ByteAt(input, pos + n + 1) != LF then Err(Response(InvalidTermination))
        else Ok(Step(Some(x), pos + n + 2))
  }

  /** `ReadData`: a reply line and, for a bulk reply, its payload. */
  function ReadData(input: Bytes, pos: nat): (d: Result<Step<Option<Bytes>>>)
    requires pos <= |input|
    ensures d.Ok? ==> pos <= d.value.next <= |input|
  {
    var l := LineAt(input, pos);
    SingleLine(l.value, input, l.next)
  }

  /** `ReadMultiData`: a multi-bulk reply, or a bulk reply returned as `[null, value]`. */
  function MultiData(input: Bytes, pos: nat): (d: Result<Step<seq<Option<Bytes>>>>)
    requires pos <= |input|
    ensures d.Ok? ==> pos < d.value.next <= |input|
    ensures d.Ok? ==> ByteAt(input, pos) == DOLLAR || ByteAt(input, pos) == STAR
  {
    var c := ByteAt(input, pos);
    if c == -1 then Err(Response(NoMoreData))
    else
      var l := LineAt(input, pos + 1);
      if c == DOLLAR then
        match SingleLine([DOLLAR] + l.value, input, l.next)
        case Ok(s) => Ok(Step([None, s.value], s.next))
        case Err(e) => Err(e)
      else if c == MINUS then Err(ServerErrorOf(l.value))
      else if c == STAR then
        match Numeric.TryParse(l.value, Numeric.INT32_MIN, Numeric.INT32_MAX)
        case Some(count) =>
          if count == -1 then Ok(Step([], l.next))
          else if count < 0 then Err(Runtime(NegativeArraySize))
          else DataItems(input, l.next, count, [])
        case None => Err(Response(UnknownMultiReply(c, l.value)))
      else Err(Response(UnknownMultiReply(c, l.value)))
  }

  /** `n` more `ReadData` results appended to `acc`, in stream order. */
  function DataItems(input: Bytes, pos: nat, n: nat, acc: seq<Option<Bytes>>): (d: Result<Step<seq<Option<Bytes>>>>)
    requires pos <= |input|
    ensures d.Ok? ==> pos <= d.value.next <= |input|
    decreases n
  {
    if n == 0 then Ok(Step(acc, pos))
    else
      match ReadData(input, pos)
      case Err(e) => Err(e)
      case Ok(s) => DataItems(input, s.next, n - 1, acc + [s.value])
  }

  /** `ReadDeeplyNestedMultiDataItem`: one item of a reply whose arrays may nest. */
  function NestedItem(input: Bytes, pos: nat): (d: Result<Step<Nested>>)
    requires pos <= |input|
    ensures d.Ok? ==> pos < d.value.next <= |input|
    ensures d.Ok? ==> ByteAt(input, pos) != MINUS
    decreases |input| - pos, 0
  {
    var c := ByteAt(input, pos);
    if c == -1 then Err(Response(NoMoreData))
    else
      var l := LineAt(input, pos + 1);
      if c == DOLLAR then
        match SingleLine([DOLLAR] + l.value, input, l.next)
        case Ok(s) => Ok(Step(Bulk(s.value), s.next))
        case Err(e) => Err(e)
      else if c == MINUS then Err(ServerErrorOf(l.value))
      else if c == STAR then
        match Numeric.TryParse(l.value, Numeric.INT32_MIN, Numeric.INT32_MAX)
        case Some(count) =>
          if count < 0 then Err(Runtime(NegativeArraySize))
          else
            (match NestedItems(input, l.next, count, [])
             case Ok(s) => Ok(Step(Array(s.value), s.next))
             case Err(e) => Err(e))
        case None => Err(Response(UnknownMultiReply(c, l.value)))
      else Ok(Step(Line(l.value), l.next))
  }

  /** `n` more nested items appended to `acc`, in stream order. */
  function NestedItems(input: Bytes, pos: nat, n: nat, acc: seq<Nested>): (d: Result<Step<seq<Nested>>>)
    requires pos <= |input|
    ensures d.Ok? ==> pos <= d.value.next <= |input|
    decreases |input| - pos, n + 1
  {
    if n == 0 then Ok(Step(acc, pos))
    else
      match NestedItem(input, pos)
      case Err(e) => Err(e)
      case Ok(s) => NestedItems(input, s.next, n - 1, acc + [s.value])
  }

  /** `ReadDeeplyNestedMultiData`: the item cast to `object[]`; a nil bulk value casts to null. */
  function NestedMultiData(input: Bytes, pos: nat): (d: Result<Step<Option<seq<Nested>>>>)
    requires pos <= |input|
  {
    match NestedItem(input, pos)
    case Err(e) => Err(e)
    case Ok(s) =>
      match s.value
      case Array(items) => Ok(Step(Some(items), s.next))
      case Bulk(None) => Ok(Step(None, s.next))
      case _ => Err(Runtime(InvalidCast))
  }

  /** `ReadInt` (`lo..hi` the `int` range) and `ReadLong` (the `long` range). */
  function ReadInteger(input: Bytes, pos: nat, lo: int, hi: int): (d: Result<Step<int>>)
    requires pos <= |input|
    ensures d.Ok? ==> lo <= d.value.value <= hi
    ensures d.Ok? ==> ByteAt(input, pos) == COLON || ByteAt(input, pos) == DOLLAR
  {
    var c := ByteAt(input, pos);
    if c == -1 then Err(Response(NoMoreData))
    else
      var l := LineAt(input, pos + 1);
      var n := Numeric.TryParse(l.value, lo, hi);
      if c == MINUS then Err(ServerErrorOf(l.value))
      else if (c == COLON || c == DOLLAR) && n.Some? then Ok(Step(n.value, l.next))
      else Err(Response(UnknownIntegerReply(c, l.value)))
  }

  const OPEN_BRACE: byte := 123
  const CLOSE_BRACE: byte := 125

  /**
   * Whether `string.Format(text)` with no arguments succeeds: every brace must
   * be doubled, since a single `{` opens a format item that has no argument
   * to take and a single `}` closes nothing. The status readers log each line
   * read, lead byte included, as such a format string.
   */
  predicate FormatSafe(text: Bytes)
  {
    FormatSafeFrom(text, 0)
  }

  /** `FormatSafe` of `text[i..]`, read by index. */
  predicate FormatSafeFrom(text: Bytes, i: nat)
    requires i <= |text|
    decreases |text| - i
  {
    if i == |text| then true
    else if text[i] == OPEN_BRACE || text[i] == CLOSE_BRACE then
      i + 1 < |text| && text[i + 1] == text[i] && FormatSafeFrom(text, i + 2)
    else FormatSafeFrom(text, i + 1)
  }

  /** `ExpectSuccess`: any reply line that can be logged but an error; its `ERR` strip is guarded by a length check. */
  function ExpectSuccess(input: Bytes, pos: nat): (d: Result<Step<()>>)
    requires pos <= |input|
  {
    var c := ByteAt(input, pos);
    if c == -1 then Err(Response(NoMoreData))
    else
      var s := LineAt(input, pos + 1);
      if !FormatSafe([input[pos]] + s.value) then Err(Runtime(InvalidFormat))
      else if c == MINUS then
        Err(Response(ServerError(if Text.StartsWith(s.value, ERR) && |s.value| >= 4 then s.value[4..] else s.value)))
      else Ok(Step((), s.next))
  }

  /** `ExpectCode`: the text of any reply line but an error, once the line is logged. */
  function ExpectCode(input: Bytes, pos: nat): (d: Result<Step<Bytes>>)
    requires pos <= |input|
  {
    var c := ByteAt(input, pos);
    if c == -1 then Err(Response(NoMoreData))
    else
      var s := LineAt(input, pos + 1);
      if !FormatSafe([input[pos]] + s.value) then Err(Runtime(InvalidFormat))
      else if c == MINUS then Err(ServerErrorOf(s.value)) else Ok(Step(s.value, s.next))
  }

  /** `ExpectWord(word)`: a reply line, once logged, whose text is exactly `word`. */
  function ExpectWord(word: Bytes, input: Bytes, pos: nat): (d: Result<Step<()>>)
    requires pos <= |input|
  {
    var c := ByteAt(input, pos);
    if c == -1 then Err(Response(NoMoreData))
    else
      var s := LineAt(input, pos + 1);
      if !FormatSafe([input[pos]] + s.value) then Err(Runtime(InvalidFormat))
      else if c == MINUS then Err(ServerErrorOf(s.value))
      else if s.value != word then Err(Response(UnexpectedWord(word, s.value)))
      else Ok(Step((), s.next))
  }
}
