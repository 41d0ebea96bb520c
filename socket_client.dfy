/**
 * `RedisSocketClient`: the connection state of a client (socket, buffered
 * stream, selected database, hourly request counter, last command text) and
 * the rules by which a command first makes sure a connection exists.
 *
 * The socket and stream are handles that are present or absent; whether a
 * connect attempt succeeds, whether an idle socket is still alive and the
 * current clock reading are inputs.
 */
module SocketClient {
  import opened Common
  import Numeric
  import Text
  import Utf8

  const DEFAULT_DB: int := 0
  /** The buffered stream laid over a connected socket holds 16 KiB. */
  const STREAM_BUFFER_SIZE: nat := 16 * 1024
  /** The command log keeps this many characters of a longer command ... */
  const LOG_LIMIT: nat := 100
  /** ... followed by this marker. */
  const ELLIPSIS: string := "..."

  /** A socket handle, and whether it reports itself connected. */
  datatype Socket = Socket(connected: bool)

  datatype Stream = BufferedStream(bufferSize: nat)

  /**
   * What a connect attempt does: it connects, it ends without a connection
   * (the wait timed out), or the socket call throws.
   */
  datatype ConnectOutcome = Established | NotEstablished | Refused

  /** The fields of a client that the connection logic reads and writes. */
  datatype Conn = Conn(
    socket: Option<Socket>,
    stream: Option<Stream>,
    usageTimer: bool,
    db: int,
    requestsPerHour: int,
    lastCommand: Option<string>,
    lastConnectedAt: int,
    hadExceptions: bool,
    isDisposed: bool)

  /** A state after an operation, and whether the operation ended by throwing. */
  datatype Next = Next(conn: Conn, threw: bool)

  /** A stream is only ever held together with a socket. */
  predicate Linked(c: Conn) {
    c.stream.Some? ==> c.socket.Some?
  }

  /** `Interlocked.Increment` of an `int`: wraps from the largest value to the smallest. */
  function Increment32(x: int): (r: int)
    requires Numeric.INT32_MIN <= x <= Numeric.INT32_MAX
    ensures Numeric.INT32_MIN <= r <= Numeric.INT32_MAX
    ensures x < Numeric.INT32_MAX ==> r == x + 1
    ensures x == Numeric.INT32_MAX ==> r == Numeric.INT32_MIN
  {
    if x == Numeric.INT32_MAX then Numeric.INT32_MIN else x + 1
  }

  /** Division of `long`s, which truncates toward zero. */
  function DivTrunc(a: int, b: int): (q: int)
    requires b > 0
    ensures a >= 0 ==> q * b <= a < q * b + b
    ensures a < 0 ==> q <= 0 && -q * b <= -a < -q * b + b
  {
    if a >= 0 then a / b else -((-a) / b)
  }

  // ---------------------------------------------------------------- the transitions

  /** `SafeConnectionClose`: stream and socket dropped; a close that throws is swallowed. */
  function Closed(c: Conn): (r: Conn)
    ensures r.socket.None? && r.stream.None? && Linked(r)
    ensures r.(socket := c.socket, stream := c.stream) == c
  {
    c.(socket := None, stream := None)
  }

  /**
   * `Connect`: starts the hourly usage timer if there is none, then makes a
   * new socket. Connected, it gets a buffered stream; not connected, it is
   * closed and dropped and `HadExceptions` is set, without throwing; when the
   * connect call itself throws, the exception leaves the new unconnected
   * socket in place.
   */
  function ConnectSpec(c: Conn, o: ConnectOutcome): (r: Next)
    ensures r.conn.usageTimer
    ensures r.threw <==> o == Refused
    ensures o == Established ==>
      r.conn.socket == Some(Socket(true)) && r.conn.stream == Some(BufferedStream(STREAM_BUFFER_SIZE))
    ensures o == NotEstablished ==>
      r.conn.socket.None? && r.conn.stream == c.stream && r.conn.hadExceptions
    ensures o == Refused ==> r.conn.socket == Some(Socket(false)) && r.conn.stream == c.stream
    ensures o != NotEstablished ==> r.conn.hadExceptions == c.hadExceptions
    ensures c.stream.None? ==> Linked(r.conn)
    ensures r.conn.(socket := c.socket, stream := c.stream, usageTimer := c.usageTimer, hadExceptions := c.hadExceptions) == c
  {
    var c := c.(usageTimer := true);
    match o
    case Established => Next(c.(socket := Some(Socket(true)), stream := Some(BufferedStream(STREAM_BUFFER_SIZE))), false)
    case NotEstablished => Next(c.(socket := None, hadExceptions := true), false)
    case Refused => Next(c.(socket := Some(Socket(false))), true)
  }

  /**
   * `ReConnect`: remembers the database, closes, connects again and puts a
   * non-default database back. A throwing connect skips the restore.
   */
  function ReConnectSpec(c: Conn, o: ConnectOutcome): (r: Next)
  {
    var previousDb := c.db;
    var n := ConnectSpec(Closed(c), o);
    if n.threw then n
    else if previousDb != DEFAULT_DB then Next(n.conn.(db := previousDb), false)
    else n
  }

  /**
   * `AssertConnectedSocket`: once a connection time has been recorded, a
   * missing socket, or one idle for longer than `idle` seconds that is no
   * longer alive, is reconnected; otherwise the time is refreshed. With no
   * recorded time a missing socket is connected. The answer is whether a
   * socket is then present.
   */
  function AssertSpec(c: Conn, now: int, frequency: int, idle: int, alive: bool, o: ConnectOutcome): (r: Next)
    requires frequency > 0
  {
    if c.lastConnectedAt > 0 then
      var elapsedSecs := DivTrunc(now - c.lastConnectedAt, frequency);
      if c.socket.None? || (elapsedSecs > idle && !alive) then ReConnectSpec(c, o)
      else Next(c.(lastConnectedAt := now), false)
    else if c.socket.None? then ConnectSpec(c, o)
    else Next(c, false)
  }

  /** The text of one argument: its UTF-8 characters; a null argument adds nothing. */
  function ArgText(arg: Option<Bytes>): string {
    if arg.Some? then Utf8.Decode(arg.value) else ""
  }

  function ArgTexts(args: seq<Option<Bytes>>): (r: seq<string>)
    ensures |r| == |args|
  {
    seq(|args|, i requires 0 <= i < |args| => ArgText(args[i]))
  }

  /** The command log's cut: at most `LOG_LIMIT` characters kept, and a marker when some were dropped. */
  function Truncated(s: string): string {
    if |s| > LOG_LIMIT then s[..LOG_LIMIT] + ELLIPSIS else s
  }

  /** `CmdLog`: the arguments' texts joined by single spaces in a string builder, then truncated. */
  function LogText(args: seq<Option<Bytes>>): string {
    Truncated(Text.BuilderJoin("", ArgTexts(args), " "))
  }

  /**
   * `SendCommand`: no connection means `false` and nothing more; otherwise
   * the request counter goes up by one, the command is logged and the answer
   * is `true`.
   */
  function SendSpec(c: Conn, args: seq<Option<Bytes>>, now: int, frequency: int, idle: int, alive: bool,
                    o: ConnectOutcome): (r: Next)
    requires frequency > 0
    requires Numeric.INT32_MIN <= c.requestsPerHour <= Numeric.INT32_MAX
  {
    var a := AssertSpec(c, now, frequency, idle, alive, o);
    if a.threw || a.conn.socket.None? then a
    else Next(a.conn.(requestsPerHour := Increment32(a.conn.requestsPerHour), lastCommand := Some(LogText(args))), false)
  }

  /** Whether an operation that returns `_redisSocket != null` answered `true`. */
  predicate Answered(n: Next) {
    !n.threw && n.conn.socket.Some?
  }

  /**
   * `DisposeConnection`: marks the client disposed the first time only and
   * then closes an existing connection; a `Quit` that throws is logged and the
   * close still happens.
   */
  function DisposedSpec(c: Conn): (r: Conn)
    ensures r.isDisposed
    ensures c.isDisposed ==> r == c
    ensures !c.isDisposed && c.socket.Some? ==> r == Closed(c).(isDisposed := true)
    ensures !c.isDisposed && c.socket.None? ==> r == c.(isDisposed := true)
  {
    if c.isDisposed then c
    else if c.socket.None? then c.(isDisposed := true)
    else Closed(c).(isDisposed := true)
  }

  // ---------------------------------------------------------------- what the transitions promise

  /**
   * A reconnect keeps the selected database whatever happens: `Connect` never
   * touches it, so the restore the comment promises is never needed.
   */
  lemma ReConnectKeepsDb(c: Conn, o: ConnectOutcome)
    ensures ReConnectSpec(c, o).conn.db == c.db
    ensures ReConnectSpec(c, o).threw <==> o == Refused
    ensures Answered(ReConnectSpec(c, o)) <==> o == Established
    ensures Linked(ReConnectSpec(c, o).conn)
  {
  }

  /**
   * With a recorded connection time and a present socket that is not
   * reported dead after the idle time, nothing is reconnected: the time is
   * refreshed and the answer is yes.
   */
  lemma AssertKeepsLiveSocket(c: Conn, now: int, frequency: int, idle: int, alive: bool, o: ConnectOutcome)
    requires frequency > 0 && c.lastConnectedAt > 0 && c.socket.Some?
    requires DivTrunc(now - c.lastConnectedAt, frequency) <= idle || alive
    ensures AssertSpec(c, now, frequency, idle, alive, o) == Next(c.(lastConnectedAt := now), false)
    ensures Answered(AssertSpec(c, now, frequency, idle, alive, o))
  {
  }

  /**
   * When a connection attempt is made, the answer is yes exactly when it
   * connected; with a present socket and no recorded time nothing happens.
   */
  lemma AssertAnswers(c: Conn, now: int, frequency: int, idle: int, alive: bool, o: ConnectOutcome)
    requires frequency > 0
    ensures var r := AssertSpec(c, now, frequency, idle, alive, o);
      (c.socket.None? ==> (Answered(r) <==> o == Established))
      && (c.lastConnectedAt <= 0 && c.socket.Some? ==> r == Next(c, false))
      && r.conn.db == c.db && r.conn.requestsPerHour == c.requestsPerHour && r.conn.isDisposed == c.isDisposed
  {
  }

  /**
   * `ReConnect`, `AssertConnectedSocket`, `SendCommand` and `DisposeConnection`
   * never separate a stream from its socket: each connect they make follows a
   * close. A direct `Connect` can, as `ConnectKeepsOldStream` shows.
   */
  lemma LinkedPreserved(c: Conn, args: seq<Option<Bytes>>, now: int, frequency: int, idle: int, alive: bool,
                        o: ConnectOutcome)
    requires frequency > 0 && Numeric.INT32_MIN <= c.requestsPerHour <= Numeric.INT32_MAX
    requires Linked(c)
    ensures Linked(ReConnectSpec(c, o).conn)
    ensures Linked(AssertSpec(c, now, frequency, idle, alive, o).conn)
    ensures Linked(SendSpec(c, args, now, frequency, idle, alive, o).conn)
    ensures Linked(DisposedSpec(c))
  {
    ReConnectKeepsDb(c, o);
  }

  /**
   * `Connect` called on a client that already has a stream, when the new
   * attempt does not connect: the new socket is dropped but the old stream
   * stays, so the stream is left without a socket.
   */
  lemma ConnectKeepsOldStream(c: Conn)
    requires c.stream.Some?
    ensures var r := ConnectSpec(c, NotEstablished).conn;
      r.stream == c.stream && r.socket.None? && !Linked(r)
  {
  }

  /**
   * A throwing connect leaves an unconnected socket behind, and the next
   * check (with no recorded time) answers yes for it without connecting.
   */
  lemma RefusedLeavesStaleSocket(c: Conn, now: int, frequency: int, idle: int, alive: bool, o: ConnectOutcome)
    requires frequency > 0 && c.socket.None? && c.lastConnectedAt <= 0
    ensures var first := AssertSpec(c, now, frequency, idle, alive, Refused);
      first.threw && first.conn.socket == Some(Socket(false))
      && AssertSpec(first.conn, now, frequency, idle, alive, o) == Next(first.conn, false)
  {
  }

  /**
   * A command is counted exactly when it is sent: the counter goes up by one
   * (wrapping at the `int` range) and the log is written; an unsent command
   * changes neither.
   */
  lemma SendCounts(c: Conn, args: seq<Option<Bytes>>, now: int, frequency: int, idle: int, alive: bool,
                   o: ConnectOutcome)
    requires frequency > 0 && Numeric.INT32_MIN <= c.requestsPerHour <= Numeric.INT32_MAX
    ensures var r := SendSpec(c, args, now, frequency, idle, alive, o);
      var a := AssertSpec(c, now, frequency, idle, alive, o);
      (Answered(r) <==> Answered(a))
      && (Answered(r) ==>
            r.conn.requestsPerHour == Increment32(c.requestsPerHour) && r.conn.lastCommand == Some(LogText(args))
            && r.conn.(requestsPerHour := a.conn.requestsPerHour, lastCommand := a.conn.lastCommand) == a.conn)
      && (!Answered(r) ==> r == a && r.conn.requestsPerHour == c.requestsPerHour && r.conn.lastCommand == c.lastCommand)
  {
    AssertAnswers(c, now, frequency, idle, alive, o);
  }

  /** Disposing twice is disposing once, and a disposed client holds no connection it held before. */
  lemma DisposeIdempotent(c: Conn)
    ensures DisposedSpec(DisposedSpec(c)) == DisposedSpec(c)
    ensures !c.isDisposed ==> DisposedSpec(c).socket.None? && (c.socket.Some? ==> DisposedSpec(c).stream.None?)
  {
  }

  /** Disposal does not stop a later command from connecting again and being sent. */
  lemma DisposedClientStillSends(c: Conn, args: seq<Option<Bytes>>, now: int, frequency: int, idle: int)
    requires frequency > 0 && Numeric.INT32_MIN <= c.requestsPerHour <= Numeric.INT32_MAX
    requires c.lastConnectedAt <= 0
    ensures Answered(SendSpec(DisposedSpec(c), args, now, frequency, idle, true, Established))
  {
  }

  /**
   * The logged command is at most 103 characters: the space-joined texts
   * themselves when they fit in 100, else their first 100 characters and "...".
   * Leading empty texts add nothing, not even a space.
   */
  lemma {:induction false} LogTextShape(args: seq<Option<Bytes>>)
    ensures var joined := Text.Join(Text.DropLeadingEmpty(ArgTexts(args)), " ");
      |LogText(args)| <= LOG_LIMIT + |ELLIPSIS|
      && (|joined| <= LOG_LIMIT ==> LogText(args) == joined)
      && (|joined| > LOG_LIMIT ==> LogText(args) == joined[..LOG_LIMIT] + ELLIPSIS)
  {
    Text.BuilderJoinIsJoin(ArgTexts(args), " ");
  }

  /** Arguments that are UTF-8 encoded strings are logged as those strings. */
  lemma {:induction false} LogTextOfStrings(strs: seq<string>)
    ensures LogText(seq(|strs|, i requires 0 <= i < |strs| => Some(Utf8.Encode(strs[i]))))
         == Truncated(Text.Join(Text.DropLeadingEmpty(strs), " "))
  {
    var args := seq(|strs|, i requires 0 <= i < |strs| => Some(Utf8.Encode(strs[i])));
    forall i | 0 <= i < |strs|
      ensures ArgTexts(args)[i] == strs[i]
    {
      Utf8.DecodeEncode(strs[i]);
    }
    assert ArgTexts(args) == strs;
    Text.BuilderJoinIsJoin(strs, " ");
  }

  // ---------------------------------------------------------------- the client

  class RedisSocketClient {
    var socket: Option<Socket>
    var stream: Option<Stream>
    var usageTimer: bool
    var requestsPerHour: int
    var lastCommand: Option<string>
    var lastConnectedAtTimestamp: int
    var db: int
    var hadExceptions: bool
    var isDisposed: bool
    var idleTimeOutSecs: int

    function State(): Conn
      reads this
    {
      Conn(socket, stream, usageTimer, db, requestsPerHour, lastCommand, lastConnectedAtTimestamp, hadExceptions,
           isDisposed)
    }

    ghost predicate Valid()
      reads this
    {
      Numeric.INT32_MIN <= requestsPerHour <= Numeric.INT32_MAX && Linked(State())
    }

    /** A new client: no socket, no timer, database 0, nothing counted or logged. */
    constructor (idleTimeOutSecs: int)
      ensures Valid()
      ensures State() == Conn(None, None, false, DEFAULT_DB, 0, None, 0, false, false)
      ensures this.idleTimeOutSecs == idleTimeOutSecs
    {
      socket, stream, usageTimer := None, None, false;
      requestsPerHour, lastCommand, lastConnectedAtTimestamp := 0, None, 0;
      db, hadExceptions, isDisposed := DEFAULT_DB, false, false;
      this.idleTimeOutSecs := idleTimeOutSecs;
    }

    /** `Connect`, with the attempt's outcome as an input. */
    method Connect(outcome: ConnectOutcome) returns (threw: bool)
      modifies this
      ensures State() == ConnectSpec(old(State()), outcome).conn
      ensures threw == ConnectSpec(old(State()), outcome).threw
      ensures idleTimeOutSecs == old(idleTimeOutSecs)
    {
      if !usageTimer {
        usageTimer := true;
      }
      socket := Some(Socket(outcome == Established));
      if outcome == Refused {
        return true;
      }
      if !socket.value.connected {
        socket := None;
        hadExceptions := true;
        return false;
      }
      stream := Some(BufferedStream(STREAM_BUFFER_SIZE));
      threw := false;
    }

    /** `SafeConnectionClose`. */
    method SafeConnectionClose()
      modifies this
      ensures State() == Closed(old(State()))
      ensures idleTimeOutSecs == old(idleTimeOutSecs)
    {
      stream := None;
      socket := None;
    }

    /** `ReConnect`: the answer is whether a socket is present afterwards. */
    method ReConnect(outcome: ConnectOutcome) returns (connected: bool, threw: bool)
      modifies this
      ensures State() == ReConnectSpec(old(State()), outcome).conn
      ensures threw == ReConnectSpec(old(State()), outcome).threw
      ensures !threw ==> connected == Answered(ReConnectSpec(old(State()), outcome))
      ensures idleTimeOutSecs == old(idleTimeOutSecs)
    {
      var previousDb := db;
      SafeConnectionClose();
      threw := Connect(outcome);
      if threw {
        return false, true;
      }
      if previousDb != DEFAULT_DB {
        db := previousDb;
      }
      connected := socket.Some?;
    }

    /** `AssertConnectedSocket` at clock reading `now` (`frequency` ticks a second). */
    method AssertConnectedSocket(now: int, frequency: int, alive: bool, outcome: ConnectOutcome)
      returns (connected: bool, threw: bool)
      requires frequency > 0
      modifies this
      ensures State() == AssertSpec(old(State()), now, frequency, idleTimeOutSecs, alive, outcome).conn
      ensures threw == AssertSpec(old(State()), now, frequency, idleTimeOutSecs, alive, outcome).threw
      ensures !threw ==> connected == Answered(AssertSpec(old(State()), now, frequency, idleTimeOutSecs, alive, outcome))
      ensures idleTimeOutSecs == old(idleTimeOutSecs)
    {
      if lastConnectedAtTimestamp > 0 {
        var elapsedSecs := DivTrunc(now - lastConnectedAtTimestamp, frequency);
        if socket.None? || (elapsedSecs > idleTimeOutSecs && !alive) {
          connected, threw := ReConnect(outcome);
          return;
        }
        lastConnectedAtTimestamp := now;
      }
      if socket.None? {
        threw := Connect(outcome);
        if threw {
          return false, true;
        }
      }
      connected := socket.Some?;
      threw := false;
    }

    /** `CmdLog`: the builder loop, then the cut to 100 characters. */
    method CmdLog(args: seq<Option<Bytes>>)
      modifies this
      ensures State() == old(State()).(lastCommand := Some(LogText(args)))
      ensures idleTimeOutSecs == old(idleTimeOutSecs)
    {
      ghost var texts := ArgTexts(args);
      var sb := "";
      for i := 0 to |args|
        invariant Text.BuilderJoin(sb, texts[i..], " ") == Text.BuilderJoin("", texts, " ")
      {
        assert texts[i..][1..] == texts[i + 1..];
        if |sb| > 0 {
          sb := sb + " ";
        }
        sb := sb + ArgText(args[i]);
      }
      assert texts[|args|..] == [];
      var text := sb;
      if |text| > LOG_LIMIT {
        text := text[..LOG_LIMIT] + ELLIPSIS;
      }
      lastCommand := Some(text);
    }

    /** `SendCommand`: the answer is whether the command went out. */
    method SendCommand(args: seq<Option<Bytes>>, now: int, frequency: int, alive: bool, outcome: ConnectOutcome)
      returns (sent: bool, threw: bool)
      requires Valid() && frequency > 0
      modifies this
      ensures Valid()
      ensures State() == SendSpec(old(State()), args, now, frequency, idleTimeOutSecs, alive, outcome).conn
      ensures threw == SendSpec(old(State()), args, now, frequency, idleTimeOutSecs, alive, outcome).threw
      ensures !threw ==> sent == Answered(SendSpec(old(State()), args, now, frequency, idleTimeOutSecs, alive, outcome))
    {
      ghost var c := State();
      LinkedPreserved(c, args, now, frequency, idleTimeOutSecs, alive, outcome);
      var connected;
      connected, threw := AssertConnectedSocket(now, frequency, alive, outcome);
      if threw || !connected {
        return false, threw;
      }
      requestsPerHour := Increment32(requestsPerHour);
      CmdLog(args);
      sent := true;
    }

    /** `DisposeConnection`. */
    method DisposeConnection()
      requires Valid()
      modifies this
      ensures Valid() && State() == DisposedSpec(old(State()))
      ensures idleTimeOutSecs == old(idleTimeOutSecs)
    {
      if isDisposed {
        return;
      }
      isDisposed := true;
      if socket.None? {
        return;
      }
      SafeConnectionClose();
    }

    /** `Dispose(disposing)`: only an explicit dispose releases the connection; the finalizer does not. */
    method Dispose(disposing: bool)
      requires Valid()
      modifies this
      ensures Valid()
      ensures State() == if disposing then DisposedSpec(old(State())) else old(State())
    {
      if disposing {
        DisposeConnection();
      }
    }

    /** The hourly usage timer firing: the request counter starts again from zero. */
    method UsageTimerElapsed()
      requires Valid() && usageTimer
      modifies this
      ensures Valid() && State() == old(State()).(requestsPerHour := 0)
    {
      requestsPerHour := 0;
    }
  }
}
