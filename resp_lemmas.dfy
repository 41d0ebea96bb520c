/**
 * What the reply decoders promise, stated against a reference writer of RESP
 * frames: every well-formed frame decodes to the value it was written from and
 * is consumed exactly, nil and empty stay apart, and the malformed inputs the
 * client names fail with the error it names.
 */
module RespLemmas {
  import opened Common
  import opened RespSpec
  import Numeric
  import Text

  const SPACE: byte := 32

  /** `f` occurs in `input` starting at `pos`. */
  predicate At(input: Bytes, pos: nat, f: Bytes) {
    pos + |f| <= |input| && forall i :: 0 <= i < |f| ==> input[pos + i] == f[i]
  }

  /** `At` is the statement that `f` is the slice of `input` starting at `pos`. */
  lemma AtSlice(input: Bytes, pos: nat, f: Bytes)
    ensures At(input, pos, f) <==> pos + |f| <= |input| && input[pos..pos + |f|] == f
  {
    if pos + |f| <= |input| {
      if At(input, pos, f) {
        assert forall i :: 0 <= i < |f| ==> input[pos..pos + |f|][i] == f[i];
      }
      if input[pos..pos + |f|] == f {
        forall i | 0 <= i < |f| ensures input[pos + i] == f[i] {
          assert input[pos..pos + |f|][i] == input[pos + i];
        }
      }
    }
  }

  /** The first byte of an occurrence, and the occurrence of the rest just after it. */
  lemma AtHead(input: Bytes, pos: nat, f: Bytes)
    requires At(input, pos, f) && |f| > 0
    ensures pos < |input| && input[pos] == f[0] && At(input, pos + 1, f[1..])
  {
    assert input[pos + 0] == f[0];
    forall i | 0 <= i < |f[1..]| ensures input[pos + 1 + i] == f[1..][i] {
      assert input[pos + (i + 1)] == f[i + 1];
    }
  }

  /** An occurrence that starts with `lead`: the byte at `pos` and the occurrence of the rest after it. */
  lemma AtLead(input: Bytes, pos: nat, lead: byte, rest: Bytes)
    requires At(input, pos, [lead] + rest)
    ensures pos < |input| && input[pos] == lead && At(input, pos + 1, rest)
  {
    AtHead(input, pos, [lead] + rest);
    assert ([lead] + rest)[1..] == rest;
  }

  /** No CR LF pair inside `s`, so `s` can be sent as one line. */
  predicate NoLineBreak(s: Bytes) {
    forall j :: 0 <= j < |s| ==> !Text.PairAt(s, j, CR, LF)
  }

  // ---------------------------------------------------------------- reference writer

  /** The frame of a bulk string; the frame of nil has the length `-1` and no payload. */
  function BulkFrame(v: Option<Bytes>): Bytes {
    match v
    case None => [DOLLAR] + NIL_LENGTH + CRLF
    case Some(x) => [DOLLAR] + Numeric.Decimal(|x|) + CRLF + x + CRLF
  }

  /** The pieces `fs[k..]`, one after the other. */
  function Concat(fs: seq<Bytes>, k: nat): Bytes
    requires k <= |fs|
    decreases |fs| - k
  {
    if k == |fs| then [] else fs[k] + Concat(fs, k + 1)
  }

  /** The frame of each element of `vs`, in order. */
  function BulkFrameList(vs: seq<Option<Bytes>>): seq<Bytes> {
    seq(|vs|, i requires 0 <= i < |vs| => BulkFrame(vs[i]))
  }

  /** The frame of a multi-bulk reply: its count, then each element as a bulk string. */
  function MultiBulkFrame(vs: seq<Option<Bytes>>): Bytes {
    [STAR] + ((Numeric.Decimal(|vs|) + CRLF) + Concat(BulkFrameList(vs), 0))
  }

  /** The frame of a nested reply; a text leaf is written as a simple string. */
  function NestedFrame(t: Nested): Bytes
    decreases t, 1
  {
    match t
    case Bulk(v) => BulkFrame(v)
    case Line(s) => [PLUS] + s + CRLF
    case Array(items) => [STAR] + ((Numeric.Decimal(|items|) + CRLF) + Concat(NestedFrameList(items), 0))
  }

  /** The frame of each child in `ts`, in order. */
  function NestedFrameList(ts: seq<Nested>): seq<Bytes>
    decreases ts, 0
  {
    seq(|ts|, i requires 0 <= i < |ts| => NestedFrame(ts[i]))
  }

  /** A bulk value whose length an `int` can state. */
  predicate Fits(v: Option<Bytes>) {
    v.Some? ==> |v.value| <= Numeric.INT32_MAX
  }

  /** A nested value the writer can frame: lengths fit an `int` and text leaves hold no line break. */
  predicate Encodable(t: Nested)
    decreases t
  {
    match t
    case Bulk(v) => Fits(v)
    case Line(s) => NoLineBreak(s)
    case Array(items) => |items| <= Numeric.INT32_MAX && forall i :: 0 <= i < |items| ==> Encodable(items[i])
  }

  // ---------------------------------------------------------------- reading lines

  lemma AtSplit(input: Bytes, pos: nat, a: Bytes, b: Bytes)
    requires At(input, pos, a + b)
    ensures At(input, pos, a) && At(input, pos + |a|, b)
  {
    forall i | 0 <= i < |a| ensures input[pos + i] == a[i] {
      assert input[pos + i] == (a + b)[i];
    }
    forall i | 0 <= i < |b| ensures input[pos + |a| + i] == b[i] {
      assert input[pos + (|a| + i)] == (a + b)[|a| + i];
    }
  }

  lemma NoLineBreakTail(s: Bytes)
    requires |s| > 0 && NoLineBreak(s)
    ensures NoLineBreak(s[1..])
    ensures |s| > 1 ==> !(s[0] == CR && s[1] == LF)
  {
    assert !Text.PairAt(s, 0, CR, LF);
    forall j | 0 <= j < |s[1..]| ensures !Text.PairAt(s[1..], j, CR, LF) {
      assert !Text.PairAt(s, j + 1, CR, LF);
    }
  }

  /** A line written with its CR LF terminator is read back whole, and the terminator is skipped. */
  lemma {:induction false} LineAtFramed(input: Bytes, pos: nat, s: Bytes)
    requires At(input, pos, s + CRLF) && NoLineBreak(s)
    ensures LineAt(input, pos) == Step(s, pos + |s| + 2)
    decreases |s|
  {
    var f := s + CRLF;
    AtHead(input, pos, f);
    AtHead(input, pos + 1, f[1..]);
    if |s| == 0 {
      assert f[1..] == [LF];
    } else {
      assert f[1..] == s[1..] + CRLF;
      NoLineBreakTail(s);
      LineAtFramed(input, pos + 1, s[1..]);
      assert s == [s[0]] + s[1..];
    }
  }

  /** The line read from a lead byte is that byte followed by the line read after it. */
  lemma LineAfterLead(input: Bytes, pos: nat)
    requires pos < |input| && input[pos] != CR
    ensures LineAt(input, pos).value == [input[pos]] + LineAt(input, pos + 1).value
    ensures LineAt(input, pos).next == LineAt(input, pos + 1).next
  {
  }

  lemma DecimalHasNoLineBreak(n: int)
    ensures NoLineBreak(Numeric.Decimal(n))
    ensures NoLineBreak([DOLLAR] + Numeric.Decimal(n))
  {
    var d := Numeric.Decimal(n);
    Numeric.DecimalChars(n);
    assert forall i :: 0 <= i < |d| ==> d[i] != CR;
    var h := [DOLLAR] + d;
    assert forall i :: 0 <= i < |h| ==> h[i] != CR;
  }

  lemma NatDecimalIsNotNil(n: nat)
    ensures Numeric.Decimal(n) != NIL_LENGTH
  {
    var d := Numeric.Decimal(n);
    Numeric.NatDigitsAreDigits(n);
    Numeric.AllDigitsAt(d, 0);
    assert !Numeric.IsDigit(NIL_LENGTH[0]);
  }

  lemma NilLengthParses()
    ensures Numeric.TryParse(NIL_LENGTH, Numeric.INT32_MIN, Numeric.INT32_MAX) == Some(-1)
  {
    assert Numeric.Decimal(-1) == NIL_LENGTH;
    Numeric.DecimalRoundTrip(-1, Numeric.INT32_MIN, Numeric.INT32_MAX);
  }

  // ---------------------------------------------------------------- bulk replies

  lemma ReadDataOfLine(input: Bytes, pos: nat, line: Bytes, q: nat)
    requires pos <= |input| && LineAt(input, pos) == Step(line, q)
    ensures ReadData(input, pos) == SingleLine(line, input, q)
  {
  }

  /** The header line `$n` followed by n payload bytes and CR LF gives the payload. */
  lemma SingleLineBulk(x: Bytes, input: Bytes, q: nat)
    requires |x| <= Numeric.INT32_MAX && At(input, q, x + CRLF)
    ensures SingleLine([DOLLAR] + Numeric.Decimal(|x|), input, q) == Ok(Step(Some(x), q + |x| + 2))
  {
    var line := [DOLLAR] + Numeric.Decimal(|x|);
    assert line[1..] == Numeric.Decimal(|x|);
    NatDecimalIsNotNil(|x|);
    Numeric.DecimalRoundTrip(|x|, Numeric.INT32_MIN, Numeric.INT32_MAX);
    AtSplit(input, q, x, CRLF);
    ReadBytesAt(input, q, x);
    AtHead(input, q + |x|, CRLF);
    assert CRLF[1..] == [LF];
    AtHead(input, q + |x| + 1, CRLF[1..]);
  }

  /** Payload bytes that are there are read back as they are. */
  lemma {:induction false} ReadBytesAt(input: Bytes, pos: nat, x: Bytes)
    requires At(input, pos, x)
    ensures pos <= |input| && ReadBytes(input, pos, |x|) == Some(x)
    decreases |x|
  {
    if |x| > 0 {
      AtHead(input, pos, x);
      ReadBytesAt(input, pos + 1, x[1..]);
      assert x == [x[0]] + x[1..];
    }
  }

  lemma ReadNilFrame(input: Bytes, pos: nat)
    requires At(input, pos, BulkFrame(None))
    ensures ReadData(input, pos) == Ok(Step(None, pos + 5))
  {
    var line := [DOLLAR] + NIL_LENGTH;
    assert NoLineBreak(line);
    assert BulkFrame(None) == line + CRLF;
    LineAtFramed(input, pos, line);
    assert line[1..] == NIL_LENGTH;
  }

  lemma ReadBulkFrame(x: Bytes, input: Bytes, pos: nat)
    requires |x| <= Numeric.INT32_MAX && At(input, pos, BulkFrame(Some(x)))
    ensures ReadData(input, pos) == Ok(Step(Some(x), pos + |BulkFrame(Some(x))|))
  {
    var line := [DOLLAR] + Numeric.Decimal(|x|);
    assert BulkFrame(Some(x)) == (line + CRLF) + (x + CRLF);
    AtSplit(input, pos, line + CRLF, x + CRLF);
    DecimalHasNoLineBreak(|x|);
    LineAtFramed(input, pos, line);
    var q := pos + |line| + 2;
    ReadDataOfLine(input, pos, line, q);
    SingleLineBulk(x, input, q);
  }

  /**
   * Bulk framing: a bulk frame is decoded to its value and consumed exactly; for
   * `$n` that is n payload bytes and the CR LF after them, for `$-1` it is nil
   * and nothing more.
   */
  lemma ReadDataFrame(v: Option<Bytes>, input: Bytes, pos: nat)
    requires Fits(v) && At(input, pos, BulkFrame(v))
    ensures ReadData(input, pos) == Ok(Step(v, pos + |BulkFrame(v)|))
  {
    match v
    case None => ReadNilFrame(input, pos);
    case Some(x) => ReadBulkFrame(x, input, pos);
  }

  /** Nil and empty stay distinct: `$-1` is nil, `$0` followed by an empty payload is the empty array. */
  lemma NilIsNotEmpty(rest: Bytes)
    ensures ReadData([DOLLAR, MINUS, DIGIT_ZERO + 1, CR, LF] + rest, 0) == Ok(Step(None, 5))
    ensures ReadData([DOLLAR, DIGIT_ZERO, CR, LF, CR, LF] + rest, 0) == Ok(Step(Some([]), 6))
  {
    var nil := [DOLLAR, MINUS, DIGIT_ZERO + 1, CR, LF];
    assert ReadData(nil + rest, 0) == Ok(Step(None, 5)) by {
      assert BulkFrame(None) == nil;
      assert At(nil + rest, 0, nil) by {
        AtSlice(nil + rest, 0, nil);
        assert (nil + rest)[0..|nil|] == nil;
      }
      ReadDataFrame(None, nil + rest, 0);
    }
    var empty := [DOLLAR, DIGIT_ZERO, CR, LF, CR, LF];
    assert ReadData(empty + rest, 0) == Ok(Step(Some([]), 6)) by {
      assert Numeric.Decimal(0) == [DIGIT_ZERO];
      assert BulkFrame(Some([])) == empty;
      assert At(empty + rest, 0, empty) by {
        AtSlice(empty + rest, 0, empty);
        assert (empty + rest)[0..|empty|] == empty;
      }
      ReadDataFrame(Some([]), empty + rest, 0);
    }
  }

  /**
   * A bulk header `$n` (n >= 0) whose payload is cut short fails with "Unexpected end
   * of Stream"; one whose n payload bytes are not followed by CR LF fails with
   * "Invalid termination".
   */
  lemma BulkPayloadFailures(n: nat, input: Bytes, pos: nat)
    requires n <= Numeric.INT32_MAX
    requires At(input, pos, [DOLLAR] + Numeric.Decimal(n) + CRLF)
    ensures var q := pos + |Numeric.Decimal(n)| + 3;
      q + n > |input| ==> ReadData(input, pos) == Err(Response(UnexpectedEndOfStream))
    ensures var q := pos + |Numeric.Decimal(n)| + 3;
      q + n <= |input| && !At(input, q + n, CRLF) ==> ReadData(input, pos) == Err(Response(InvalidTermination))
  {
    var line := [DOLLAR] + Numeric.Decimal(n);
    DecimalHasNoLineBreak(n);
    LineAtFramed(input, pos, line);
    assert line[1..] == Numeric.Decimal(n);
    NatDecimalIsNotNil(n);
    Numeric.DecimalRoundTrip(n, Numeric.INT32_MIN, Numeric.INT32_MAX);
    var q := pos + |line| + 2;
    if q + n + 2 <= |input| && input[q + n] == CR && input[q + n + 1] == LF {
      assert input[q + n..q + n + 2] == CRLF;
      AtSlice(input, q + n, CRLF);
    }
  }

  /** A single line starting `-ERR ` is a server error carrying the text after that prefix. */
  lemma ErrTaggedLine(m: Bytes, input: Bytes, pos: nat)
    requires pos <= |input|
    ensures SingleLine([MINUS] + ERR + [SPACE] + m, input, pos) == Err(Response(ServerError(m)))
  {
    var r := [MINUS] + ERR + [SPACE] + m;
    assert r[..4] == [MINUS] + ERR;
    assert r[5..] == m;
  }

  /** Any other `-` line is a server error carrying the line without its `-`. */
  lemma UntaggedErrorLine(m: Bytes, input: Bytes, pos: nat)
    requires pos <= |input| && !Text.StartsWith(m, ERR)
    ensures SingleLine([MINUS] + m, input, pos) == Err(Response(ServerError(m)))
  {
    var r := [MINUS] + m;
    if |m| >= 3 {
      assert r[..4] == [MINUS] + m[..3];
    }
    assert r[1..] == m;
  }

  /** As written: the line `-ERR` with nothing after it makes `Substring(5)` throw. */
  lemma BareErrLineThrows(input: Bytes, pos: nat)
    requires pos <= |input|
    ensures SingleLine([MINUS] + ERR, input, pos) == Err(Runtime(SubstringOutOfRange))
  {
    var r := [MINUS] + ERR;
    assert r[..4] == r;
  }

  /** A `:` line is returned as the bytes after the colon, with nothing read from the stream. */
  lemma ColonLine(s: Bytes, input: Bytes, pos: nat)
    requires pos <= |input|
    ensures SingleLine([COLON] + s, input, pos) == Ok(Step(Some(s), pos))
  {
    assert ([COLON] + s)[1..] == s;
  }

  /** A `$` line whose length is not an `int` fails with "Invalid length". */
  lemma UnparsableLength(s: Bytes, input: Bytes, pos: nat)
    requires pos <= |input|
    requires s != NIL_LENGTH && Numeric.TryParse(s, Numeric.INT32_MIN, Numeric.INT32_MAX).None?
    ensures SingleLine([DOLLAR] + s, input, pos) == Err(Response(InvalidLength))
  {
    assert ([DOLLAR] + s)[1..] == s;
  }

  /** As written: `$-2` (any negative length but -1) reaches `new byte[count]` and throws. */
  lemma NegativeBulkLength(n: int, input: Bytes, pos: nat)
    requires pos <= |input| && Numeric.INT32_MIN <= n < -1
    ensures SingleLine([DOLLAR] + Numeric.Decimal(n), input, pos) == Err(Runtime(NegativeArraySize))
  {
    var s := Numeric.Decimal(n);
    assert ([DOLLAR] + s)[1..] == s;
    Numeric.DecimalRoundTrip(n, Numeric.INT32_MIN, Numeric.INT32_MAX);
    NilLengthParses();
  }

  // ---------------------------------------------------------------- multi-bulk replies

  lemma DataItemsStep(input: Bytes, pos: nat, n: nat, acc: seq<Option<Bytes>>, s: Step<Option<Bytes>>)
    requires pos <= |input| && n > 0 && ReadData(input, pos) == Ok(s)
    ensures s.next <= |input|
    ensures DataItems(input, pos, n, acc) == DataItems(input, s.next, n - 1, acc + [s.value])
  {
  }

  lemma MultiDataOfCount(input: Bytes, pos: nat, d: Bytes, q: nat, count: nat, r: Result<Step<seq<Option<Bytes>>>>)
    requires pos < |input| && input[pos] == STAR
    requires LineAt(input, pos + 1) == Step(d, q)
    requires Numeric.TryParse(d, Numeric.INT32_MIN, Numeric.INT32_MAX) == Some(count)
    requires q <= |input| && DataItems(input, q, count, []) == r
    ensures MultiData(input, pos) == r
  {
  }

  /** `*-1` decodes to an empty array, not to nil. */
  lemma MultiDataNilCount(input: Bytes, pos: nat)
    requires At(input, pos, [STAR] + NIL_LENGTH + CRLF)
    ensures MultiData(input, pos) == Ok(Step([], pos + 5))
  {
    assert [STAR] + NIL_LENGTH + CRLF == [STAR] + (NIL_LENGTH + CRLF);
    AtLead(input, pos, STAR, NIL_LENGTH + CRLF);
    assert NoLineBreak(NIL_LENGTH);
    LineAtFramed(input, pos + 1, NIL_LENGTH);
    NilLengthParses();
  }

  /** A bulk reply read as a multi-bulk one is the pair `[nil, value]` of what `ReadData` decodes. */
  lemma MultiDataBulkIsPair(input: Bytes, pos: nat)
    requires pos <= |input| && ByteAt(input, pos) == DOLLAR
    ensures MultiData(input, pos) ==
      match ReadData(input, pos)
      case Ok(s) => Ok(Step([None, s.value], s.next))
      case Err(e) => Err(e)
  {
    LineAfterLead(input, pos);
  }

  // ---------------------------------------------------------------- nested replies

  lemma NestedItemsStep(input: Bytes, pos: nat, n: nat, acc: seq<Nested>, s: Step<Nested>)
    requires pos <= |input| && n > 0 && NestedItem(input, pos) == Ok(s)
    ensures s.next <= |input|
    ensures NestedItems(input, pos, n, acc) == NestedItems(input, s.next, n - 1, acc + [s.value])
  {
  }

  lemma NestedItemOfCount(input: Bytes, pos: nat, d: Bytes, q: nat, count: nat, items: seq<Nested>, e: nat)
    requires pos < |input| && input[pos] == STAR
    requires LineAt(input, pos + 1) == Step(d, q)
    requires Numeric.TryParse(d, Numeric.INT32_MIN, Numeric.INT32_MAX) == Some(count)
    requires q <= |input| && NestedItems(input, q, count, []) == Ok(Step(items, e))
    ensures NestedItem(input, pos) == Ok(Step(Array(items), e))
  {
  }

  lemma NestedItemOfLine(input: Bytes, pos: nat, s: Bytes, q: nat)
    requires pos < |input| && input[pos] == PLUS
    requires LineAt(input, pos + 1) == Step(s, q)
    ensures NestedItem(input, pos) == Ok(Step(Line(s), q))
  {
  }

  /** A bulk item of a nested reply is what `ReadData` decodes, as a bulk leaf. */
  lemma NestedBulkIsReadData(input: Bytes, pos: nat)
    requires pos <= |input| && ByteAt(input, pos) == DOLLAR
    ensures ReadData(input, pos).Ok? ==>
      NestedItem(input, pos) == Ok(Step(Bulk(ReadData(input, pos).value.value), ReadData(input, pos).value.next))
    ensures ReadData(input, pos).Err? ==> NestedItem(input, pos) == Err(ReadData(input, pos).error)
  {
    LineAfterLead(input, pos);
  }

  /** As written: the nested decoder has no `*-1` case, so a nil array reaches `new object[-1]`. */
  lemma NestedNilArrayThrows(input: Bytes, pos: nat)
    requires At(input, pos, [STAR] + NIL_LENGTH + CRLF)
    ensures NestedItem(input, pos) == Err(Runtime(NegativeArraySize))
  {
    assert [STAR] + NIL_LENGTH + CRLF == [STAR] + (NIL_LENGTH + CRLF);
    AtLead(input, pos, STAR, NIL_LENGTH + CRLF);
    assert NoLineBreak(NIL_LENGTH);
    LineAtFramed(input, pos + 1, NIL_LENGTH);
    NilLengthParses();
  }

  // ---------------------------------------------------------------- integer and status replies

  /** `:n` (and, as written, `$n`) decodes to n when n is in range, consuming the line. */
  lemma ReadIntegerFrame(lead: byte, n: int, input: Bytes, pos: nat, lo: int, hi: int)
    requires lead == COLON || lead == DOLLAR
    requires lo <= n <= hi
    requires At(input, pos, [lead] + Numeric.Decimal(n) + CRLF)
    ensures ReadInteger(input, pos, lo, hi) == Ok(Step(n, pos + |Numeric.Decimal(n)| + 3))
  {
    var d := Numeric.Decimal(n);
    assert [lead] + d + CRLF == [lead] + (d + CRLF);
    AtLead(input, pos, lead, d + CRLF);
    DecimalHasNoLineBreak(n);
    LineAtFramed(input, pos + 1, d);
    Numeric.DecimalRoundTrip(n, lo, hi);
  }

  /** Reads a status line `lead s CR LF`. */
  lemma StatusLine(lead: byte, s: Bytes, input: Bytes, pos: nat)
    requires NoLineBreak(s) && At(input, pos, [lead] + s + CRLF)
    ensures ByteAt(input, pos) == lead
    ensures LineAt(input, pos + 1) == Step(s, pos + |s| + 3)
  {
    assert [lead] + s + CRLF == [lead] + (s + CRLF);
    AtLead(input, pos, lead, s + CRLF);
    LineAtFramed(input, pos + 1, s);
  }

  /**
   * `ExpectWord` accepts a non-error status line if and only if its text is the
   * expected word and the line can be logged; a line with a stray brace throws.
   */
  lemma ExpectWordAcceptsOnlyWord(word: Bytes, lead: byte, s: Bytes, input: Bytes, pos: nat)
    requires lead != MINUS && NoLineBreak(s) && At(input, pos, [lead] + s + CRLF)
    ensures ExpectWord(word, input, pos).Ok? <==> s == word && FormatSafe([lead] + s)
    ensures s == word && FormatSafe([lead] + s) ==> ExpectWord(word, input, pos).value.next == pos + |s| + 3
    ensures s != word && FormatSafe([lead] + s) ==> ExpectWord(word, input, pos) == Err(Response(UnexpectedWord(word, s)))
    ensures !FormatSafe([lead] + s) ==> ExpectWord(word, input, pos) == Err(Runtime(InvalidFormat))
  {
    StatusLine(lead, s, input, pos);
  }

  /**
   * `ExpectCode` returns the text of a non-error status line and `ExpectSuccess`
   * accepts it, once the line can be logged; otherwise both throw.
   */
  lemma ExpectCodeFrame(lead: byte, s: Bytes, input: Bytes, pos: nat)
    requires lead != MINUS && NoLineBreak(s) && At(input, pos, [lead] + s + CRLF)
    ensures FormatSafe([lead] + s) ==> ExpectCode(input, pos) == Ok(Step(s, pos + |s| + 3))
    ensures FormatSafe([lead] + s) ==> ExpectSuccess(input, pos) == Ok(Step((), pos + |s| + 3))
    ensures !FormatSafe([lead] + s) ==> ExpectCode(input, pos) == Err(Runtime(InvalidFormat))
    ensures !FormatSafe([lead] + s) ==> ExpectSuccess(input, pos) == Err(Runtime(InvalidFormat))
  {
    StatusLine(lead, s, input, pos);
    assert input[pos] == lead;
  }

  lemma ExpectCodeOfLine(lead: byte, s: Bytes, input: Bytes, pos: nat, next: nat)
    requires pos < |input| && lead != MINUS && ByteAt(input, pos) == lead && LineAt(input, pos + 1) == Step(s, next)
    ensures FormatSafe([lead] + s) ==> ExpectCode(input, pos) == Ok(Step(s, next))
    ensures FormatSafe([lead] + s) ==> ExpectSuccess(input, pos) == Ok(Step((), next))
    ensures !FormatSafe([lead] + s) ==> ExpectCode(input, pos) == Err(Runtime(InvalidFormat))
    ensures !FormatSafe([lead] + s) ==> ExpectSuccess(input, pos) == Err(Runtime(InvalidFormat))
  {
    assert input[pos] == lead;
  }

  /** Reading past a prefix reads the rest as if on its own. */
  lemma {:induction false} FormatSafeShift(p: Bytes, m: Bytes, j: nat)
    requires j <= |m|
    ensures FormatSafeFrom(p + m, |p| + j) == FormatSafeFrom(m, j)
    decreases |m| - j
  {
    var t := p + m;
    if j < |m| {
      assert t[|p| + j] == m[j];
      if m[j] == OPEN_BRACE || m[j] == CLOSE_BRACE {
        if j + 1 < |m| {
          assert t[|p| + j + 1] == m[j + 1];
          FormatSafeShift(p, m, j + 2);
        }
      } else {
        FormatSafeShift(p, m, j + 1);
      }
    }
  }

  /** A prefix without braces does not change whether a text can be logged. */
  lemma {:induction false} FormatSafeAfterPlain(p: Bytes, m: Bytes, k: nat)
    requires k <= |p|
    requires forall i :: 0 <= i < |p| ==> p[i] != OPEN_BRACE && p[i] != CLOSE_BRACE
    ensures FormatSafeFrom(p + m, k) == FormatSafe(m)
    decreases |p| - k
  {
    if k < |p| {
      assert (p + m)[k] == p[k];
      FormatSafeAfterPlain(p, m, k + 1);
    } else {
      FormatSafeShift(p, m, 0);
    }
  }

  /**
   * An error line `-ERR m` fails every status and integer reader with the
   * server's message `m`, except that the status readers first log the line
   * and throw when `m` has a stray brace.
   */
  lemma ErrorLineFailsReaders(m: Bytes, input: Bytes, pos: nat, lo: int, hi: int)
    requires NoLineBreak(ERR + [SPACE] + m) && At(input, pos, [MINUS] + (ERR + [SPACE] + m) + CRLF)
    ensures FormatSafe(m) ==> ExpectCode(input, pos) == Err(Response(ServerError(m)))
    ensures FormatSafe(m) ==> ExpectSuccess(input, pos) == Err(Response(ServerError(m)))
    ensures !FormatSafe(m) ==> ExpectCode(input, pos) == Err(Runtime(InvalidFormat))
    ensures !FormatSafe(m) ==> ExpectSuccess(input, pos) == Err(Runtime(InvalidFormat))
    ensures ReadInteger(input, pos, lo, hi) == Err(Response(ServerError(m)))
    ensures MultiData(input, pos) == Err(Response(ServerError(m)))
    ensures NestedItem(input, pos) == Err(Response(ServerError(m)))
  {
    var s := ERR + [SPACE] + m;
    StatusLine(MINUS, s, input, pos);
    assert s[..3] == ERR;
    assert s[4..] == m;
    assert [MINUS] + s == ([MINUS] + ERR + [SPACE]) + m;
    FormatSafeAfterPlain([MINUS] + ERR + [SPACE], m, 0);
    assert input[pos] == MINUS;
  }

  /**
   * A status line with a single brace, such as `+{` or an error whose message
   * quotes `{0}`, throws from every status reader before its lead byte is
   * looked at, so it is never read as a server error.
   */
  lemma StrayBraceThrows(word: Bytes, lead: byte, s: Bytes, input: Bytes, pos: nat)
    requires NoLineBreak(s) && At(input, pos, [lead] + s + CRLF) && !FormatSafe([lead] + s)
    ensures ExpectSuccess(input, pos) == Err(Runtime(InvalidFormat))
    ensures ExpectCode(input, pos) == Err(Runtime(InvalidFormat))
    ensures ExpectWord(word, input, pos) == Err(Runtime(InvalidFormat))
  {
    StatusLine(lead, s, input, pos);
    assert input[pos] == lead;
  }

  /** `+{` cannot be logged; `+{{` can, as the literal text `+{`. */
  lemma StrayBraceExamples()
    ensures !FormatSafe([PLUS, OPEN_BRACE])
    ensures FormatSafe([PLUS, OPEN_BRACE, OPEN_BRACE])
    ensures !FormatSafe([MINUS, CLOSE_BRACE, 48])
  {
    assert !FormatSafeFrom([PLUS, OPEN_BRACE], 1);
    assert FormatSafeFrom([PLUS, OPEN_BRACE, OPEN_BRACE], 3);
    assert FormatSafeFrom([PLUS, OPEN_BRACE, OPEN_BRACE], 1);
    assert !FormatSafeFrom([MINUS, CLOSE_BRACE, 48], 1);
  }
}
