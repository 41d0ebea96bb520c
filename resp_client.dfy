/**
 * The reply readers of `RedisClient` as they run: a reply stream with a read
 * cursor, and client methods that consume it. Each method is proved to return
 * what the decoder specification in `RespSpec` gives for the position it
 * starts at, and to leave the cursor where that specification says the reply
 * ends.
 */
module RespClient {
  import opened Common
  import opened RespSpec
  import Numeric
  import Text
  import Utf8
  import Info

  /**
   * `d` (with the cursor at `pos` after it) is the outcome that `spec` describes.
   * After a failure the cursor is wherever the reader stopped.
   */
  ghost predicate Agrees<T>(spec: Result<Step<T>>, d: Result<T>, pos: nat) {
    match spec
    case Ok(s) => d == Ok(s.value) && pos == s.next
    case Err(e) => d == Err(e)
  }

  /** `HadExceptions` after a call: set by a response or connection error, kept otherwise. */
  predicate Marked<T>(before: bool, after: bool, d: Result<T>) {
    after == (before || (d.Err? && !d.error.Runtime?))
  }

  /** `FromUtf8Bytes`: the UTF-8 text of a bulk value, where a nil value is the empty text. */
  function ReplyText(b: Option<Bytes>): string {
    if b.None? then "" else Utf8.Decode(b.value)
  }

  /**
   * The reply to `INFO` as the `RedisInfo` getter takes it: a bulk value,
   * decoded as UTF-8 and parsed into a dictionary.
   */
  function InfoReply(input: Bytes, pos: nat): Result<Step<map<string, string>>>
    requires pos <= |input|
  {
    match RespSpec.ReadData(input, pos)
    case Err(e) => Err(e)
    case Ok(s) => Ok(Step(Info.InfoMap(Info.InfoLines(ReplyText(s.value))), s.next))
  }

  /**
   * A nil `INFO` reply splits into no lines, so the getter keeps an empty
   * dictionary; only a failed read keeps nothing.
   */
  lemma NilInfoReply(input: Bytes, pos: nat)
    requires pos <= |input|
    ensures RespSpec.ReadData(input, pos).Ok? && RespSpec.ReadData(input, pos).value.value.None? ==>
      InfoReply(input, pos) == Ok(Step(map[], RespSpec.ReadData(input, pos).value.next))
    ensures InfoReply(input, pos).Err? <==> RespSpec.ReadData(input, pos).Err?
  {
    assert Info.SplitOn("", Info.NEWLINE) == [""];
    assert [""][1..] == [];
    assert Info.NonEmpty([""]) == Info.NonEmpty([]) == [];
  }

  /** The payload bytes read from `pos` are the slice of the stream there, when it is long enough. */
  lemma {:induction false} ReadBytesSlice(input: Bytes, pos: nat, n: nat)
    requires pos <= |input|
    ensures ReadBytes(input, pos, n) == if pos + n <= |input| then Some(input[pos..pos + n]) else None
    decreases n
  {
    if n > 0 && pos < |input| {
      ReadBytesSlice(input, pos + 1, n - 1);
      if pos + n <= |input| {
        assert input[pos..pos + n] == [input[pos]] + input[pos + 1..pos + n];
      }
    } else if n == 0 {
      assert input[pos..pos] == [];
    }
  }

  /** The ASCII bytes of the status words `OK` and `QUEUED`. */
  const OK: Bytes := [79, 75]
  const QUEUED: Bytes := [81, 85, 69, 85, 69, 68]

  /**
   * The socket's reply stream: the bytes the server sent and how many of them
   * have been consumed so far.
   */
  class ReplyStream {
    const input: Bytes
    var pos: nat

    ghost predicate Valid()
      reads this
    {
      pos <= |input|
    }

    constructor (input: Bytes)
      ensures Valid() && this.input == input && pos == 0
    {
      this.input := input;
      pos := 0;
    }

    /** `SafeReadByte()`: the next byte, or -1 at the end of the stream. */
    method ReadByte() returns (c: int)
      requires Valid()
      modifies this
      ensures Valid()
      ensures c == ByteAt(input, old(pos))
      ensures pos == if old(pos) < |input| then old(pos) + 1 else old(pos)
    {
      if pos < |input| {
        c := input[pos];
        pos := pos + 1;
      } else {
        c := -1;
      }
    }

    /** `ReadLine()`: the bytes up to the next CR LF; the CR LF is consumed and not returned. */
    method ReadLine() returns (line: Bytes)
      requires Valid()
      modifies this
      ensures Valid()
      ensures line == LineAt(input, old(pos)).value && pos == LineAt(input, old(pos)).next
    {
      line := [];
      assert line + LineAt(input, pos).value == LineAt(input, pos).value;
      while pos < |input| && !(pos + 1 < |input| && input[pos] == CR && input[pos + 1] == LF)
        invariant Valid()
        invariant LineAt(input, old(pos)) == Step(line + LineAt(input, pos).value, LineAt(input, pos).next)
        decreases |input| - pos
      {
        var rest := LineAt(input, pos + 1);
        assert line + LineAt(input, pos).value == (line + [input[pos]]) + rest.value;
        line := line + [input[pos]];
        pos := pos + 1;
      }
      if pos < |input| {
        pos := pos + 2;
      }
    }

    /**
     * `SafeReadByte(buffer, offset, count)`: a block read. It delivers between one
     * and `count` bytes, as many as the socket happens to have, into
     * `buffer[offset..]`, and 0 at the end of the stream.
     */
    method ReadInto(buffer: array<byte>, offset: nat, count: nat) returns (n: nat)
      requires Valid() && 0 < count && offset + count <= buffer.Length
      modifies this, buffer
      ensures Valid()
      ensures n == 0 <==> old(pos) == |input|
      ensures n <= count && pos == old(pos) + n
      ensures buffer[..offset] == old(buffer[..offset])
      ensures buffer[offset..offset + n] == input[old(pos)..pos]
    {
      var available := |input| - pos;
      var most := if available < count then available else count;
      if most == 0 {
        n := 0;
      } else {
        n :| 1 <= n <= most;
      }
      forall i | 0 <= i < n {
        buffer[offset + i] := input[pos + i];
      }
      pos := pos + n;
    }
  }

  /** The reply-reading half of `RedisClient`, over its socket's reply stream. */
  class RedisClient {
    const stream: ReplyStream
    var hadExceptions: bool
    var redisInfo: Option<map<string, string>>

    ghost predicate Valid()
      reads this, stream
    {
      stream.Valid()
    }

    constructor (stream: ReplyStream)
      requires stream.Valid()
      ensures Valid() && this.stream == stream && !hadExceptions && redisInfo == None
    {
      this.stream := stream;
      hadExceptions := false;
      redisInfo := None;
    }

    /**
     * Raising `e`: `CreateResponseError` and `CreateConnectionError` mark the
     * client; a runtime fault does not.
     */
    method Raise<T>(e: Error) returns (d: Result<T>)
      modifies this
      ensures d == Err(e) && Marked(old(hadExceptions), hadExceptions, d)
      ensures redisInfo == old(redisInfo)
    {
      if !e.Runtime? {
        hadExceptions := true;
      }
      d := Err(e);
    }

    /** `ParseSingleLine(r)`: decodes the reply line `r`, reading a bulk payload from the stream. */
    method ParseSingleLine(r: Bytes) returns (d: Result<Option<Bytes>>)
      requires Valid()
      modifies this, stream
      ensures Valid()
      ensures Agrees(SingleLine(r, stream.input, old(stream.pos)), d, stream.pos)
      ensures Marked(old(hadExceptions), hadExceptions, d)
      ensures redisInfo == old(redisInfo)
    {
      if |r| == 0 {
        d := Raise(Response(ZeroLengthResponse));
        return;
      }
      var c := r[0];
      if c == MINUS {
        if Text.StartsWith(r, [MINUS] + ERR) {
          if |r| >= 5 {
            d := Raise(Response(ServerError(r[5..])));
          } else {
            d := Raise(Runtime(SubstringOutOfRange));
          }
        } else {
          d := Raise(Response(ServerError(r[1..])));
        }
        return;
      }
      if c == DOLLAR {
        assert r == [DOLLAR] + r[1..];
        if r == [DOLLAR] + NIL_LENGTH {
          d := Ok(None);
          return;
        }
        var parsed := Numeric.TryParse(r[1..], Numeric.INT32_MIN, Numeric.INT32_MAX);
        if parsed.None? {
          d := Raise(Response(InvalidLength));
          return;
        }
        var payload := ReadPayload(parsed.value);
        d := payload;
        return;
      }
      if c == COLON {
        d := Ok(Some(r[1..]));
        return;
      }
      d := Raise(Response(UnexpectedReply(r)));
    }

    /** The bulk branch of `ParseSingleLine`: `count` payload bytes read block by block, then CR LF. */
    method ReadPayload(count: int) returns (d: Result<Option<Bytes>>)
      requires Valid()
      modifies this, stream
      ensures Valid()
      ensures Agrees(Payload(count, stream.input, old(stream.pos)), d, stream.pos)
      ensures Marked(old(hadExceptions), hadExceptions, d)
      ensures redisInfo == old(redisInfo)
    {
      if count < 0 {
        d := Raise(Runtime(NegativeArraySize));
        return;
      }
      var start := stream.pos;
      ReadBytesSlice(stream.input, start, count);
      var retbuf := new byte[count];
      var offset := 0;
      var remaining := count;
      while remaining > 0
        invariant stream.Valid() && hadExceptions == old(hadExceptions) && redisInfo == old(redisInfo)
        invariant 0 <= offset <= count && remaining == count - offset
        invariant stream.pos == start + offset
        invariant retbuf[..offset] == stream.input[start..stream.pos]
        decreases remaining
      {
        var readCount := stream.ReadInto(retbuf, offset, remaining);
        if readCount <= 0 {
          d := Raise(Response(UnexpectedEndOfStream));
          return;
        }
        assert retbuf[..offset + readCount] == retbuf[..offset] + retbuf[offset..offset + readCount];
        offset := offset + readCount;
        remaining := remaining - readCount;
      }
      assert retbuf[..] == retbuf[..count];
      var cr := stream.ReadByte();
      if cr != CR {
        d := Raise(Response(InvalidTermination));
        return;
      }
      var lf := stream.ReadByte();
      if lf != LF {
        d := Raise(Response(InvalidTermination));
        return;
      }
      d := Ok(Some(retbuf[..]));
    }

    /** `ReadData`: a reply line and, for a bulk reply, its payload. */
    method ReadData() returns (d: Result<Option<Bytes>>)
      requires Valid()
      modifies this, stream
      ensures Valid()
      ensures Agrees(RespSpec.ReadData(stream.input, old(stream.pos)), d, stream.pos)
      ensures Marked(old(hadExceptions), hadExceptions, d)
      ensures redisInfo == old(redisInfo)
    {
      var r := stream.ReadLine();
      d := ParseSingleLine(r);
    }
      /** `ReadMultiData`: a multi-bulk reply filled item by item, or a bulk reply as `[null, value]`. */
    method ReadMultiData() returns (d: Result<seq<Option<Bytes>>>)
      requires Valid()
      modifies this, stream
      ensures Valid()
      ensures Agrees(MultiData(stream.input, old(stream.pos)), d, stream.pos)
      ensures Marked(old(hadExceptions), hadExceptions, d)
      ensures redisInfo == old(redisInfo)
    {
      var c := stream.ReadByte();
      if c == -1 {
        d := Raise(Response(NoMoreData));
        return;
      }
      var s := stream.ReadLine();
      if c == DOLLAR {
        var t := new Option<Bytes>[2](_ => None);
        var v := ParseSingleLine([DOLLAR] + s);
        if v.Err? {
          d := Err(v.error);
          return;
        }
        t[1] := v.value;
        assert t[..] == [None, v.value];
        d := Ok(t[..]);
        return;
      }
      if c == MINUS {
        d := Raise(ServerErrorOf(s));
        return;
      }
      if c == STAR {
        var parsed := Numeric.TryParse(s, Numeric.INT32_MIN, Numeric.INT32_MAX);
        if parsed.Some? {
          var count := parsed.value;
          if count == -1 {
            d := Ok([]);
            return;
          }
          if count < 0 {
            d := Raise(Runtime(NegativeArraySize));
            return;
          }
          d := ReadItems(count);
          return;
        }
      }
      d := Raise(Response(UnknownMultiReply(c, s)));
    }

    /** The `*count` branch of `ReadMultiData`: `count` results of `ReadData`, in stream order. */
    method ReadItems(count: nat) returns (d: Result<seq<Option<Bytes>>>)
      requires Valid()
      modifies this, stream
      ensures Valid()
      ensures Agrees(DataItems(stream.input, old(stream.pos), count, []), d, stream.pos)
      ensures Marked(old(hadExceptions), hadExceptions, d)
      ensures redisInfo == old(redisInfo)
    {
      var result := new Option<Bytes>[count](_ => None);
      var i := 0;
      while i < count
        invariant stream.Valid() && hadExceptions == old(hadExceptions) && redisInfo == old(redisInfo)
        invariant 0 <= i <= count
        invariant DataItems(stream.input, old(stream.pos), count, []) == DataItems(stream.input, stream.pos, count - i, result[..i])
      {
        var v := ReadData();
        if v.Err? {
          d := Err(v.error);
          return;
        }
        result[i] := v.value;
        assert result[..i + 1] == result[..i] + [v.value];
        i := i + 1;
      }
      assert result[..] == result[..count];
      d := Ok(result[..]);
    }

    /** `ReadDeeplyNestedMultiDataItem`: one item of a reply whose arrays may nest, read recursively. */
    method ReadNestedItem() returns (d: Result<Nested>)
      requires Valid()
      modifies this, stream
      ensures Valid()
      ensures Agrees(NestedItem(stream.input, old(stream.pos)), d, stream.pos)
      ensures Marked(old(hadExceptions), hadExceptions, d)
      ensures redisInfo == old(redisInfo)
      decreases |stream.input| - stream.pos, 0
    {
      var c := stream.ReadByte();
      if c == -1 {
        d := Raise(Response(NoMoreData));
        return;
      }
      var s := stream.ReadLine();
      if c == DOLLAR {
        var v := ParseSingleLine([DOLLAR] + s);
        if v.Err? {
          d := Err(v.error);
          return;
        }
        d := Ok(Bulk(v.value));
        return;
      }
      if c == MINUS {
        d := Raise(ServerErrorOf(s));
        return;
      }
      if c == STAR {
        var parsed := Numeric.TryParse(s, Numeric.INT32_MIN, Numeric.INT32_MAX);
        if parsed.Some? {
          if parsed.value < 0 {
            d := Raise(Runtime(NegativeArraySize));
            return;
          }
          var items := ReadNestedItems(parsed.value);
          if items.Err? {
            d := Err(items.error);
            return;
          }
          d := Ok(Array(items.value));
          return;
        }
        d := Raise(Response(UnknownMultiReply(c, s)));
        return;
      }
      d := Ok(Line(s));
    }

    /** The `*count` branch of the nested reader: `count` nested items, in stream order. */
    method ReadNestedItems(count: nat) returns (d: Result<seq<Nested>>)
      requires Valid()
      modifies this, stream
      ensures Valid()
      ensures Agrees(NestedItems(stream.input, old(stream.pos), count, []), d, stream.pos)
      ensures Marked(old(hadExceptions), hadExceptions, d)
      ensures redisInfo == old(redisInfo)
      decreases |stream.input| - stream.pos, count + 1
    {
      var children := new Nested[count](_ => Line([]));
      var i := 0;
      while i < count
        invariant stream.Valid() && hadExceptions == old(hadExceptions) && redisInfo == old(redisInfo)
        invariant 0 <= i <= count && old(stream.pos) <= stream.pos
        invariant NestedItems(stream.input, old(stream.pos), count, []) == NestedItems(stream.input, stream.pos, count - i, children[..i])
      {
        var v := ReadNestedItem();
        if v.Err? {
          d := Err(v.error);
          return;
        }
        children[i] := v.value;
        assert children[..i + 1] == children[..i] + [v.value];
        i := i + 1;
      }
      assert children[..] == children[..count];
      d := Ok(children[..]);
    }

    /** `ReadDeeplyNestedMultiData`: the nested item cast to an array; a nil bulk value casts to null. */
    method ReadNestedMultiData() returns (d: Result<Option<seq<Nested>>>)
      requires Valid()
      modifies this, stream
      ensures Valid()
      ensures Agrees(NestedMultiData(stream.input, old(stream.pos)), d, stream.pos)
      ensures Marked(old(hadExceptions), hadExceptions, d)
      ensures redisInfo == old(redisInfo)
    {
      var item := ReadNestedItem();
      if item.Err? {
        d := Err(item.error);
        return;
      }
      match item.value
      case Array(items) => d := Ok(Some(items));
      case Bulk(None) => d := Ok(None);
      case _ => d := Raise(Runtime(InvalidCast));
    }

    /** The body shared by `ReadInt` and `ReadLong`, whose result type holds `lo..hi`. */
    method ReadInteger(lo: int, hi: int) returns (d: Result<int>)
      requires Valid()
      modifies this, stream
      ensures Valid()
      ensures Agrees(RespSpec.ReadInteger(stream.input, old(stream.pos), lo, hi), d, stream.pos)
      ensures Marked(old(hadExceptions), hadExceptions, d)
      ensures redisInfo == old(redisInfo)
    {
      var c := stream.ReadByte();
      if c == -1 {
        d := Raise(Response(NoMoreData));
        return;
      }
      var s := stream.ReadLine();
      if c == MINUS {
        d := Raise(ServerErrorOf(s));
        return;
      }
      if c == COLON || c == DOLLAR {
        var parsed := Numeric.TryParse(s, lo, hi);
        if parsed.Some? {
          d := Ok(parsed.value);
          return;
        }
      }
      d := Raise(Response(UnknownIntegerReply(c, s)));
    }

    /** `ReadInt`: an integer reply that fits an `int`. */
    method ReadInt() returns (d: Result<int>)
      requires Valid()
      modifies this, stream
      ensures Valid()
      ensures Agrees(RespSpec.ReadInteger(stream.input, old(stream.pos), Numeric.INT32_MIN, Numeric.INT32_MAX), d, stream.pos)
      ensures Marked(old(hadExceptions), hadExceptions, d)
      ensures redisInfo == old(redisInfo)
    {
      d := ReadInteger(Numeric.INT32_MIN, Numeric.INT32_MAX);
    }

    /** `ReadLong`: an integer reply that fits a `long`. */
    method ReadLong() returns (d: Result<int>)
      requires Valid()
      modifies this, stream
      ensures Valid()
      ensures Agrees(RespSpec.ReadInteger(stream.input, old(stream.pos), Numeric.INT64_MIN, Numeric.INT64_MAX), d, stream.pos)
      ensures Marked(old(hadExceptions), hadExceptions, d)
      ensures redisInfo == old(redisInfo)
    {
      d := ReadInteger(Numeric.INT64_MIN, Numeric.INT64_MAX);
    }

    /** `ExpectSuccess`: any reply line but an error. */
    method ExpectSuccess() returns (d: Result<()>)
      requires Valid()
      modifies this, stream
      ensures Valid()
      ensures Agrees(RespSpec.ExpectSuccess(stream.input, old(stream.pos)), d, stream.pos)
      ensures Marked(old(hadExceptions), hadExceptions, d)
      ensures redisInfo == old(redisInfo)
    {
      var c := stream.ReadByte();
      if c == -1 {
        d := Raise(Response(NoMoreData));
        return;
      }
      var s := stream.ReadLine();
      if !FormatSafe([c as byte] + s) {
        d := Raise(Runtime(InvalidFormat));
        return;
      }
      if c == MINUS {
        d := Raise(Response(ServerError(if Text.StartsWith(s, ERR) && |s| >= 4 then s[4..] else s)));
        return;
      }
      d := Ok(());
    }

    /** `ExpectCode`: the text of a status reply. */
    method ExpectCode() returns (d: Result<Bytes>)
      requires Valid()
      modifies this, stream
      ensures Valid()
      ensures Agrees(RespSpec.ExpectCode(stream.input, old(stream.pos)), d, stream.pos)
      ensures Marked(old(hadExceptions), hadExceptions, d)
      ensures redisInfo == old(redisInfo)
    {
      var c := stream.ReadByte();
      if c == -1 {
        d := Raise(Response(NoMoreData));
        return;
      }
      var s := stream.ReadLine();
      if !FormatSafe([c as byte] + s) {
        d := Raise(Runtime(InvalidFormat));
        return;
      }
      if c == MINUS {
        d := Raise(ServerErrorOf(s));
        return;
      }
      d := Ok(s);
    }

    /** `ExpectWord(word)`: a reply line whose text is exactly `word`. */
    method ExpectWord(word: Bytes) returns (d: Result<()>)
      requires Valid()
      modifies this, stream
      ensures Valid()
      ensures Agrees(RespSpec.ExpectWord(word, stream.input, old(stream.pos)), d, stream.pos)
      ensures Marked(old(hadExceptions), hadExceptions, d)
      ensures redisInfo == old(redisInfo)
    {
      var c := stream.ReadByte();
      if c == -1 {
        d := Raise(Response(NoMoreData));
        return;
      }
      var s := stream.ReadLine();
      if !FormatSafe([c as byte] + s) {
        d := Raise(Runtime(InvalidFormat));
        return;
      }
      if c == MINUS {
        d := Raise(ServerErrorOf(s));
        return;
      }
      if s != word {
        d := Raise(Response(UnexpectedWord(word, s)));
        return;
      }
      d := Ok(());
    }

    /** `ExpectOk`: the status reply `OK`. */
    method ExpectOk() returns (d: Result<()>)
      requires Valid()
      modifies this, stream
      ensures Valid()
      ensures Agrees(RespSpec.ExpectWord(OK, stream.input, old(stream.pos)), d, stream.pos)
      ensures Marked(old(hadExceptions), hadExceptions, d)
      ensures redisInfo == old(redisInfo)
    {
      d := ExpectWord(OK);
    }

    /** `ExpectQueued`: the status reply `QUEUED` of a command queued in a transaction. */
    method ExpectQueued() returns (d: Result<()>)
      requires Valid()
      modifies this, stream
      ensures Valid()
      ensures Agrees(RespSpec.ExpectWord(QUEUED, stream.input, old(stream.pos)), d, stream.pos)
      ensures Marked(old(hadExceptions), hadExceptions, d)
      ensures redisInfo == old(redisInfo)
    {
      d := ExpectWord(QUEUED);
    }
    /**
     * The `RedisInfo` getter: on the first call the `INFO` command is sent
     * (`sent` says whether the socket client delivered it) and its reply is
     * read and parsed, and the dictionary is kept, empty for a nil reply; later
     * calls return the kept dictionary without reading. A command that could
     * not be sent raises the connection error; neither it nor a failed read
     * keeps anything.
     */
    method RedisInfo(sent: bool) returns (d: Result<map<string, string>>)
      requires Valid()
      modifies this, stream
      ensures Valid()
      ensures old(redisInfo).Some? ==>
        d == Ok(old(redisInfo).value) && redisInfo == old(redisInfo) && stream.pos == old(stream.pos)
        && hadExceptions == old(hadExceptions)
      ensures old(redisInfo).None? && !sent ==>
        d == Err(ConnectionFailed) && redisInfo == None && stream.pos == old(stream.pos) && hadExceptions
      ensures old(redisInfo).None? && sent ==>
        Agrees(InfoReply(stream.input, old(stream.pos)), d, stream.pos)
        && redisInfo == (if d.Ok? then Some(d.value) else None)
        && Marked(old(hadExceptions), hadExceptions, d)
    {
      if redisInfo.Some? {
        return Ok(redisInfo.value);
      }
      if !sent {
        d := Raise(ConnectionFailed);
        return;
      }
      var bytes := ReadData();
      if bytes.Err? {
        d := Err(bytes.error);
        return;
      }
      var text := if bytes.value.None? then "" else Utf8.Decode(bytes.value.value);
      var info := Info.ParseInfo(text);
      redisInfo := Some(info);
      d := Ok(info);
    }
  }
}
