# Easy.RedisManager core, modelled in Dafny

Easy.RedisManager is a desktop Redis browser written in C#. This project models
the parts of it that carry logic, and proves what they promise:

- **The Redis reply decoder** (`RedisClient`). Reply lines and bulk payloads are
  read from a byte stream: `ParseSingleLine`, `ReadData`, `ReadMultiData`, the
  nested `ReadDeeplyNestedMultiDataItem`, `ReadInt`/`ReadLong` and the
  `Expect*` status readers. Each is an imperative method over a `ReplyStream`
  cursor. It is proved equal to a pure decoder (`RespSpec`), and the pure
  decoder is proved to read back every frame a RESP writer produces. It is also
  proved to keep nil and empty apart, and to fail with the source's errors on
  malformed input.
- **The command builders** (`Merge*`, `ConvertToBytes`) and **the `INFO`
  dictionary** with `GetRedisVersion` and the client ordering `CompareTo`.
- **`RedisSocketClient`**: connection upkeep (`Connect`'s failure path,
  `AssertConnectedSocket`, `ReConnect`, `SafeConnectionClose`,
  `DisposeConnection`), the hourly request counter of `SendCommand`, and the
  truncated command log `CmdLog`.
- **`BufferPool`**: the shared table of 1450-byte socket buffers.
- **`Node`**: the tree node with its equality and its ordering.
- **`LicenseUtils` with `EnumLicenseFeature`**: the feature flags, the features
  each license grants, the free quotas, and the nested access-token scopes.
- **`JsState`**: the serializer's registration sets.
- **`MapExtensions.Join`**.
- **`RedisConnectionDict`**: the connection list loaded from a configuration
  document, where the first element of a host wins.

Each mutable C# object is a Dafny `class`, and each of its methods is proved
against a specification function of the old state. Pure C# code is a
function, with lemmas about it. A .NET exception is a `Result`/`Outcome`
error value.

## Model

| member | source | states |
|---|---|---|
| RespSpec.LineAt | Easy.RedisManager.RedisAccess/RedisClient.cs:176 | A reply line is read within the stream and stops before its CR LF. `RespLemmas.LineAtFramed` shows that a line written with its CR LF reads back whole. |
| RespSpec.SingleLine | Easy.RedisManager.RedisAccess/RedisClient.cs:801-850 | `ParseSingleLine` as a function. A successful decode ends inside the stream, after where it started. The `RespLemmas` rows below give each branch its value: `ErrTaggedLine`, `UntaggedErrorLine`, `ColonLine`, `UnparsableLength`, `NegativeBulkLength` and `ReadDataFrame`. |
| RespSpec.ReadBytes | Easy.RedisManager.RedisAccess/RedisClient.cs:820-832 | The payload read succeeds exactly when n bytes remain, and then returns exactly n bytes. |
| RespSpec.Payload | Easy.RedisManager.RedisAccess/RedisClient.cs:818-841 | The bulk payload and its terminator are consumed within the stream. `RespLemmas.ReadDataFrame` shows that a written payload reads back exactly. `RespLemmas.BulkPayloadFailures` gives the short-stream and bad-terminator failures. |
| RespSpec.ReadData | Easy.RedisManager.RedisAccess/RedisClient.cs:562-566 | `ReadData` consumes a line and its payload within the stream. Its round trip is `RespLemmas.ReadDataFrame`, and `RespLemmas.NilIsNotEmpty` keeps nil and empty apart. |
| RespSpec.MultiData | Easy.RedisManager.RedisAccess/RedisClient.cs:623-664 | A successful multi-bulk read starts at a `$` or `*` lead byte and consumes at least that byte. What it returns is stated by `RespFrames.MultiDataFrame`, `RespLemmas.MultiDataNilCount` and `RespLemmas.MultiDataBulkIsPair`. |
| RespSpec.DataItems | Easy.RedisManager.RedisAccess/RedisClient.cs:653-658 | The item loop of `ReadMultiData` stays within the stream. `RespFrames.DataItemsReads` shows it collects the items in stream order. |
| RespSpec.NestedItem | Easy.RedisManager.RedisAccess/RedisClient.cs:727-763 | A successful nested item never starts with `-` and consumes at least its lead byte. Its round trip is `RespFrames.NestedItemFrame`. `RespLemmas.NestedBulkIsReadData` covers bulk items, and `RespLemmas.NestedNilArrayThrows` the `*-1` case. |
| RespSpec.NestedItems | Easy.RedisManager.RedisAccess/RedisClient.cs:748-754 | The item loop of the nested reader stays within the stream. `RespFrames.NestedItemsReads` shows it collects the items in order. |
| RespSpec.ReadInteger | Easy.RedisManager.RedisAccess/RedisClient.cs:490-546 | An integer reply is accepted only after a `:` or `$` lead byte, and only with a value in the type's range. |
| RespClient.RedisClient.constructor | Easy.RedisManager.RedisAccess/RedisClient.cs:132-143 | A new client over a stream has no exceptions recorded and no cached `INFO`. |
| RespClient.RedisClient.Raise | Easy.RedisManager.RedisAccess/RedisClient.cs:1106-1128 | `CreateResponseError` and `CreateConnectionError` fail with the given error and mark the client `HadExceptions`. A runtime fault does not mark it. |
| RespClient.RedisClient.ParseSingleLine | Easy.RedisManager.RedisAccess/RedisClient.cs:801-850 | The imperative decoder returns what `SingleLine` gives and leaves the stream where it says. `HadExceptions` is set exactly by response errors. |
| RespClient.RedisClient.ReadPayload | Easy.RedisManager.RedisAccess/RedisClient.cs:818-841 | The block-read loop (each read delivers any number of bytes from 1 up) agrees with `Payload` whatever the chunk sizes. |
| RespClient.RedisClient.ReadData | Easy.RedisManager.RedisAccess/RedisClient.cs:562-566 | Agrees with `RespSpec.ReadData`. |
| RespClient.RedisClient.ReadMultiData | Easy.RedisManager.RedisAccess/RedisClient.cs:623-664 | Agrees with `MultiData`: a bulk reply becomes `[null, value]`, `*-1` becomes an empty array, and `*n` becomes n items. The cached INFO dictionary is unchanged. |
| RespClient.RedisClient.ReadItems | Easy.RedisManager.RedisAccess/RedisClient.cs:653-658 | The `for` loop agrees with `DataItems` and leaves the cached INFO dictionary unchanged. |
| RespClient.RedisClient.ReadNestedItem | Easy.RedisManager.RedisAccess/RedisClient.cs:727-763 | The recursive reader agrees with `NestedItem` and leaves the cached INFO dictionary unchanged. |
| RespClient.RedisClient.ReadNestedItems | Easy.RedisManager.RedisAccess/RedisClient.cs:748-754 | The nested `for` loop agrees with `NestedItems` and leaves the cached INFO dictionary unchanged. |
| RespClient.RedisClient.ReadNestedMultiData | Easy.RedisManager.RedisAccess/RedisClient.cs:670-673 | The cast to `object[]` agrees with `NestedMultiData` and leaves the cached INFO dictionary unchanged. |
| RespClient.RedisClient.ReadInteger | Easy.RedisManager.RedisAccess/RedisClient.cs:490-546 | The shared body of the integer readers agrees with `RespSpec.ReadInteger` and leaves the cached INFO dictionary unchanged. |
| RespClient.RedisClient.ReadInt | Easy.RedisManager.RedisAccess/RedisClient.cs:490-511 | An integer reply in the `int` range. The cached INFO dictionary is unchanged. |
| RespClient.RedisClient.ReadLong | Easy.RedisManager.RedisAccess/RedisClient.cs:525-546 | An integer reply in the `long` range. The cached INFO dictionary is unchanged. |
| RespClient.RedisClient.ExpectSuccess | Easy.RedisManager.RedisAccess/RedisClient.cs:170-181 | Any reply line but an error. The line is first logged as a format string (`Log`, lines 1096-1099), and a stray brace throws a `FormatException` that does not set `HadExceptions`. The `ERR` strip is length-guarded. The cached INFO dictionary is unchanged. |
| RespClient.RedisClient.ExpectCode | Easy.RedisManager.RedisAccess/RedisClient.cs:187-200 | Returns the text of a non-error reply line. A line with a stray brace throws from the log call first. The cached INFO dictionary is unchanged. |
| RespClient.RedisClient.ExpectWord | Easy.RedisManager.RedisAccess/RedisClient.cs:206-220 | Accepts only a reply line whose text is the expected word. A line with a stray brace throws from the log call first. The cached INFO dictionary is unchanged. |
| RespClient.RedisClient.ExpectOk | Easy.RedisManager.RedisAccess/RedisClient.cs:225-228 | `ExpectWord("OK")`, including its format failure. The cached INFO dictionary is unchanged. |
| RespClient.RedisClient.ExpectQueued | Easy.RedisManager.RedisAccess/RedisClient.cs:233-236 | `ExpectWord("QUEUED")`, including its format failure. The cached INFO dictionary is unchanged. |
| RespClient.RedisClient.RedisInfo | Easy.RedisManager.RedisAccess/RedisClient.cs:106-126 | On the first call, a command that could not be sent raises the connection error and sets `HadExceptions`. Otherwise the reply is parsed and the dictionary is kept, and a nil reply is kept as an empty dictionary. Later calls return the kept dictionary without reading. |
| RespClient.NilInfoReply | Easy.RedisManager.RedisAccess/RedisClient.cs:110-124 | A nil `INFO` reply gives an empty dictionary. Only a failed read gives no dictionary. |
| RespLemmas.ReadDataFrame | Easy.RedisManager.RedisAccess/RedisClient.cs:812-839 | A bulk frame is decoded to its value and consumed exactly, and `$-1` is nil. |
| RespLemmas.NilIsNotEmpty | Easy.RedisManager.RedisAccess/RedisClient.cs:814-815 | `$-1` decodes to nil and `$0` to an empty array: the two stay distinct. |
| RespLemmas.BulkPayloadFailures | Easy.RedisManager.RedisAccess/RedisClient.cs:823-836 | A short payload fails with "Unexpected end of Stream". A payload without CR LF after it fails with "Invalid termination". |
| RespLemmas.ErrTaggedLine | Easy.RedisManager.RedisAccess/RedisClient.cs:809-810 | `-ERR m` raises a server error carrying `m`. |
| RespLemmas.UntaggedErrorLine | Easy.RedisManager.RedisAccess/RedisClient.cs:809-810 | Any other `-` line raises the line without its `-`. |
| RespLemmas.BareErrLineThrows | Easy.RedisManager.RedisAccess/RedisClient.cs:810 | A bare `-ERR` makes `Substring(5)` throw. |
| RespLemmas.ColonLine | Easy.RedisManager.RedisAccess/RedisClient.cs:844-848 | A `:` line returns the bytes after the colon and reads nothing more. |
| RespLemmas.UnparsableLength | Easy.RedisManager.RedisAccess/RedisClient.cs:818-841 | A `$` length that is not an `int` fails with "Invalid length". |
| RespLemmas.NegativeBulkLength | Easy.RedisManager.RedisAccess/RedisClient.cs:814-820 | `$-2` and below reach `new byte[count]` and throw. |
| RespLemmas.MultiDataNilCount | Easy.RedisManager.RedisAccess/RedisClient.cs:647-651 | `*-1` decodes to an empty array, not nil. |
| RespLemmas.MultiDataBulkIsPair | Easy.RedisManager.RedisAccess/RedisClient.cs:635-638 | A bulk reply read as multi-bulk is `[nil, ReadData value]`. |
| RespLemmas.NestedBulkIsReadData | Easy.RedisManager.RedisAccess/RedisClient.cs:738-739 | A nested bulk item is what `ReadData` decodes. |
| RespLemmas.NestedNilArrayThrows | Easy.RedisManager.RedisAccess/RedisClient.cs:744-748 | The nested reader has no `*-1` case, so a nil array reaches `new object[-1]` and throws. |
| RespLemmas.ReadIntegerFrame | Easy.RedisManager.RedisAccess/RedisClient.cs:503-508 | `:n` and `$n` decode to n when n is in range. |
| RespLemmas.ExpectWordAcceptsOnlyWord | Easy.RedisManager.RedisAccess/RedisClient.cs:206-220 | A non-error status line is accepted if and only if its text is the word and it has no stray brace. A mismatch gives `UnexpectedWord`, and a stray brace gives the runtime `InvalidFormat` fault. |
| RespLemmas.ExpectCodeFrame | Easy.RedisManager.RedisAccess/RedisClient.cs:170-200 | When the status line has no stray brace, `ExpectCode` returns its text and `ExpectSuccess` accepts it. Otherwise both throw `InvalidFormat`. |
| RespLemmas.ErrorLineFailsReaders | Easy.RedisManager.RedisAccess/RedisClient.cs:179-216 | `-ERR m` fails the integer and multi-bulk readers with `m`. It fails `ExpectCode` and `ExpectSuccess` with `m` when `m` has no stray brace, and with `InvalidFormat` when it has one. |
| RespLemmas.StrayBraceThrows | Easy.RedisManager.RedisAccess/RedisClient.cs:170-216 | A status line with a stray brace, whatever its lead byte, makes `ExpectSuccess`, `ExpectCode` and `ExpectWord` throw `InvalidFormat` rather than a server error. |
| RespLemmas.StrayBraceExamples | Easy.RedisManager.RedisAccess/RedisClient.cs:1096-1099 | `+{` and `-}0` cannot be logged, but `+{{` can. |
| RespLemmas.FormatSafeAfterPlain | Easy.RedisManager.RedisAccess/RedisClient.cs:1096-1099 | A prefix without braces, such as `-ERR `, does not change whether a line can be logged. |
| RespFrames.DataItemsReads | Easy.RedisManager.RedisAccess/RedisClient.cs:653-658 | Items that decode one after the other are collected in stream order. |
| RespFrames.BulkFramesRead | Easy.RedisManager.RedisAccess/RedisClient.cs:653-658 | Written bulk frames are read back one after the other. |
| RespFrames.MultiDataFrame | Easy.RedisManager.RedisAccess/RedisClient.cs:643-658 | `*n` and n bulk frames decode to exactly those n values in order, nils included. |
| RespFrames.NestedItemsReads | Easy.RedisManager.RedisAccess/RedisClient.cs:748-754 | Nested items that decode one after the other are collected in order. |
| RespFrames.NestedItemFrame | Easy.RedisManager.RedisAccess/RedisClient.cs:727-763 | The nested reader reads back every written nested value: arrays recursively, bulk and text leaves. |
| RespFrames.NestedFramesRead | Easy.RedisManager.RedisAccess/RedisClient.cs:748-754 | Written nested frames are read back one after the other. |
| Numeric.TryParse | Easy.RedisManager.RedisAccess/RedisClient.cs:506 | `TryParse` succeeds only with a value in the type's range. White space around the number is allowed, as in `NumberStyles.Integer`. |
| Numeric.WhiteAroundDecimal | Easy.RedisManager.RedisAccess/RedisClient.cs:818 | White space before and after a number's decimal text does not change what it parses to. |
| Numeric.DecimalRoundTrip | Easy.RedisManager.RedisAccess/RedisClient.cs:818 | Parsing a number's decimal text gives the number back when it is in range. |
| RespArgs.MergeCommandWithArgs | Easy.RedisManager.RedisAccess/RedisClient.cs:359-368 | The command, then the arguments in order. |
| RespArgs.MergeCommandWithStringArgs | Easy.RedisManager.RedisAccess/RedisClient.cs:347-351 | The command, then each string as its UTF-8 bytes, in order. Each decodes back to its string. |
| RespArgs.MergeCommandWithFirstArg | Easy.RedisManager.RedisAccess/RedisClient.cs:377-387 | The command, the first argument, then the rest in order. |
| RespArgs.MergeKeysAndValues | Easy.RedisManager.RedisAccess/RedisClient.cs:423-451 | Null or empty keys or values, and count mismatches, are rejected with their exceptions. Otherwise the result is the leading parameters then `k0 v0 k1 v1 …`. |
| RespArgs.FillMerged | Easy.RedisManager.RedisAccess/RedisClient.cs:433-450 | The array filling loops produce the prefix followed by the interleaving. |
| RespArgs.FillPairs | Easy.RedisManager.RedisAccess/RedisClient.cs:443-449 | The pair loop writes `k0 v0 k1 v1 …` after the prefix and leaves the prefix as it was. |
| RespArgs.InterleaveAt | Easy.RedisManager.RedisAccess/RedisClient.cs:444-449 | Key j lands at 2j and its value at 2j+1. |
| RespArgs.MergeCommandWithKeysAndValues | Easy.RedisManager.RedisAccess/RedisClient.cs:396-400 | Succeeds exactly for equal non-empty counts, with the command in front. |
| RespArgs.MergeCommandFirstArgWithKeysAndValues | Easy.RedisManager.RedisAccess/RedisClient.cs:410-414 | The same, with the command and first argument in front. |
| RespArgs.ConvertToBytes | Easy.RedisManager.RedisAccess/RedisClient.cs:857-866 | Each string becomes its UTF-8 bytes and a null one becomes empty. Decoding gives every string back. |
| RespArgs.MergeAndConvertToBytes | Easy.RedisManager.RedisAccess/RedisClient.cs:459-474 | Keys then args (a null array counts as empty), each converted to bytes. |
| RespArgs.AllBytesDecode | Easy.RedisManager.RedisAccess/RedisClient.cs:863 | Each converted argument decodes back to its string, or to "" for null. |
| Info.SplitOn | Easy.RedisManager.RedisAccess/RedisClient.cs:116 | `Split` always gives at least one piece. `Info.SplitOnJoin` shows the pieces join back to the text, and `Info.SplitOnPieces` that none holds the separator. |
| Info.SplitOnJoin | Easy.RedisManager.RedisAccess/RedisClient.cs:116 | Splitting loses nothing: joining the pieces gives the text back. |
| Info.SplitOnPieces | Easy.RedisManager.RedisAccess/RedisClient.cs:116 | No piece holds the separator. |
| Info.NonEmpty | Easy.RedisManager.RedisAccess/RedisClient.cs:116 | `RemoveEmptyEntries` keeps only non-empty pieces, taken from the input. |
| Info.Find | Easy.RedisManager.RedisAccess/RedisClient.cs:118 | `IndexOf` finds the first occurrence, or -1 when there is none. |
| Info.Entry | Easy.RedisManager.RedisAccess/RedisClient.cs:118-121 | A line is split at its first `:` into a key without `:` and the value. |
| Info.EntryOfLine | Easy.RedisManager.RedisAccess/RedisClient.cs:118-121 | `key:value` with a colon-free key gives exactly that key and value. |
| Info.InfoMapFirstWins | Easy.RedisManager.RedisAccess/RedisClient.cs:115-122 | `TryAdd` keeps the first value given for a key. |
| Info.ParseInfo | Easy.RedisManager.RedisAccess/RedisClient.cs:113-122 | The `foreach` builds the dictionary of first values. |
| Info.VersionOfText | Easy.RedisManager.RedisAccess/RedisClient.cs:1060-1075 | A version number maps to the version whose prefix it carries. |
| Info.GetRedisVersionAsWrittenFails | Easy.RedisManager.RedisAccess/RedisClient.cs:1054-1058 | As written, a value without `:` makes `versionInfos[1]` throw. |
| Info.InfoLineExample | Easy.RedisManager.RedisAccess/RedisClient.cs:118-121 | The line `redis_version:2.8.19` gives the value `2.8.19`. |
| Info.GetRedisVersionExample | Easy.RedisManager.RedisAccess/RedisClient.cs:1048-1076 | For `2.8.19` the code as written throws, while the corrected one gives 2.8. |
| Info.GetRedisVersion | Easy.RedisManager.RedisAccess/RedisClient.cs:1048-1076 | The version from the `redis_version` prefix, or 1.0 when the key is absent (corrected). |
| Info.GetRedisVersionReported | Easy.RedisManager.RedisAccess/RedisClient.cs:1060-1075 | The corrected version is the one the server reports. |
| Info.CompareTo | Easy.RedisManager.RedisAccess/RedisClient.cs:1083-1089 | A null client sorts after, and otherwise newer versions sort first. Zero exactly for the same version. |
| Info.CompareToAntisymmetric | Easy.RedisManager.RedisAccess/RedisClient.cs:1083-1089 | Swapping the clients flips the sign. |
| Info.CompareToTransitive | Easy.RedisManager.RedisAccess/RedisClient.cs:1083-1089 | The ordering is transitive. |
| Pool.FirstOccupied | Easy.Common/Pool/BufferPool.cs:46-50 | The lowest occupied slot, or -1 when all are empty. |
| Pool.FirstEmpty | Easy.Common/Pool/BufferPool.cs:93-104 | The lowest empty slot, or -1 when all are occupied. |
| Pool.Occupied | Easy.Common/Pool/BufferPool.cs:20 | The count of pooled buffers is at most the pool size. `Pool.TakeThenRelease` relates it across a take and a release. |
| Pool.TakeThenRelease | Easy.Common/Pool/BufferPool.cs:43-108 | Taking a buffer and releasing it keeps the pooled count when the pool had one. From an empty pool the fresh buffer is kept. |
| Pool.BufferPool.constructor | Easy.Common/Pool/BufferPool.cs:16-22 | 1000 empty slots. |
| Pool.BufferPool.Flush | Easy.Common/Pool/BufferPool.cs:27-37 | Every slot is emptied. |
| Pool.BufferPool.GetBuffer | Easy.Common/Pool/BufferPool.cs:43-52 | The lowest pooled buffer, whose slot is emptied. A new 1450-byte buffer when the pool is empty. |
| Pool.BufferPool.ReleaseBufferToPool | Easy.Common/Pool/BufferPool.cs:88-108 | A 1450-byte buffer fills the lowest empty slot, and any other is dropped. The reference is null afterwards. |
| Pool.BufferPool.ResizeAndFlushLeft | Easy.Common/Pool/BufferPool.cs:61-82 | A zeroed buffer of 32-bit-doubled or requested length holding the copied bytes. A pool-sized old buffer is released. |
| SocketClient.Increment32 | Easy.RedisManager.RedisAccess/Communication/RedisSocketClient.cs:255 | `Interlocked.Increment` wraps from `int.MaxValue` to `int.MinValue`. |
| SocketClient.DivTrunc | Easy.RedisManager.RedisAccess/Communication/RedisSocketClient.cs:181 | `long` division truncates toward zero. |
| SocketClient.Closed | Easy.RedisManager.RedisAccess/Communication/RedisSocketClient.cs:221-239 | Stream and socket are dropped, and nothing else changes. |
| SocketClient.ConnectSpec | Easy.RedisManager.RedisAccess/Communication/RedisSocketClient.cs:108-169 | The timer is started once. A connected socket gets a stream. An unconnected one is dropped with `HadExceptions`. A throwing connect leaves the new socket. |
| SocketClient.DisposedSpec | Easy.RedisManager.RedisAccess/Communication/RedisSocketClient.cs:298-317 | Disposed is marked once, and a held connection is closed. |
| SocketClient.ArgTexts | Easy.RedisManager.RedisAccess/Communication/RedisSocketClient.cs:330-336 | One text per argument. |
| SocketClient.ReConnectKeepsDb | Easy.RedisManager.RedisAccess/Communication/RedisSocketClient.cs:203-212 | A reconnect keeps the database whatever the outcome. |
| SocketClient.AssertKeepsLiveSocket | Easy.RedisManager.RedisAccess/Communication/RedisSocketClient.cs:177-189 | A present socket that is not idle and dead is kept, and its time is refreshed. |
| SocketClient.AssertAnswers | Easy.RedisManager.RedisAccess/Communication/RedisSocketClient.cs:175-197 | After a connection attempt the answer is yes exactly when it connected. |
| SocketClient.LinkedPreserved | Easy.RedisManager.RedisAccess/Communication/RedisSocketClient.cs:108-317 | `ReConnect`, `AssertConnectedSocket`, `SendCommand` and `DisposeConnection` never leave a stream without its socket. |
| SocketClient.ConnectKeepsOldStream | Easy.RedisManager.RedisAccess/Communication/RedisSocketClient.cs:131-157 | A direct `Connect` on a client that has a stream, when the attempt does not connect, leaves the old stream without a socket. |
| SocketClient.RefusedLeavesStaleSocket | Easy.RedisManager.RedisAccess/Communication/RedisSocketClient.cs:131-168 | A throwing connect leaves an unconnected socket, and the next check answers yes without connecting. |
| SocketClient.SendCounts | Easy.RedisManager.RedisAccess/Communication/RedisSocketClient.cs:251-269 | A command is counted (with wrap-around) and logged exactly when it is sent. |
| SocketClient.DisposeIdempotent | Easy.RedisManager.RedisAccess/Communication/RedisSocketClient.cs:298-317 | Disposing twice is disposing once. |
| SocketClient.DisposedClientStillSends | Easy.RedisManager.RedisAccess/Communication/RedisSocketClient.cs:251-317 | Disposal does not stop a later command from reconnecting and being sent. |
| SocketClient.LogTextShape | Easy.RedisManager.RedisAccess/Communication/RedisSocketClient.cs:327-342 | The log is at most 103 characters: the space-joined texts, or their first 100 characters and "...". Leading empty texts add no space. |
| SocketClient.LogTextOfStrings | Easy.RedisManager.RedisAccess/Communication/RedisSocketClient.cs:330-336 | UTF-8 encoded arguments are logged as their strings. |
| SocketClient.RedisSocketClient.constructor | Easy.RedisManager.RedisAccess/Communication/RedisSocketClient.cs:22-48 | No socket, no timer, database 0, nothing counted. |
| SocketClient.RedisSocketClient.Connect | Easy.RedisManager.RedisAccess/Communication/RedisSocketClient.cs:108-169 | The new state is `ConnectSpec` of the old one. |
| SocketClient.RedisSocketClient.SafeConnectionClose | Easy.RedisManager.RedisAccess/Communication/RedisSocketClient.cs:221-239 | The new state is `Closed` of the old one. |
| SocketClient.RedisSocketClient.ReConnect | Easy.RedisManager.RedisAccess/Communication/RedisSocketClient.cs:203-212 | The new state and the answer follow `ReConnectSpec`. |
| SocketClient.RedisSocketClient.AssertConnectedSocket | Easy.RedisManager.RedisAccess/Communication/RedisSocketClient.cs:175-197 | The new state and the answer follow `AssertSpec`. |
| SocketClient.RedisSocketClient.CmdLog | Easy.RedisManager.RedisAccess/Communication/RedisSocketClient.cs:327-342 | The builder loop stores `LogText` as the last command. |
| SocketClient.RedisSocketClient.SendCommand | Easy.RedisManager.RedisAccess/Communication/RedisSocketClient.cs:251-269 | The new state and the answer follow `SendSpec`. |
| SocketClient.RedisSocketClient.DisposeConnection | Easy.RedisManager.RedisAccess/Communication/RedisSocketClient.cs:298-317 | The new state is `DisposedSpec` of the old one. |
| SocketClient.RedisSocketClient.Dispose | Easy.RedisManager.RedisAccess/Communication/RedisSocketClient.cs:273-296 | Only an explicit dispose releases the connection. |
| SocketClient.RedisSocketClient.UsageTimerElapsed | Easy.RedisManager.RedisAccess/Communication/RedisSocketClient.cs:124-127 | The hourly timer resets the request counter. |
| Nodes.NewNode | Easy.RedisManager.Entity/Node.cs:74-78 | The five-argument constructor sorts ascending. |
| Nodes.CompareOrdinal | Easy.RedisManager.Entity/Node.cs:132 | The key comparison is -1, 0 or 1, and zero exactly for equal keys. |
| Nodes.CompareOrdinalAntisymmetric | Easy.RedisManager.Entity/Node.cs:132 | Swapping the keys negates the comparison. |
| Nodes.CompareOrdinalTransitive | Easy.RedisManager.Entity/Node.cs:132 | The key order is transitive. |
| Nodes.CompareKey | Easy.RedisManager.Entity/Node.cs:132 | A null receiver key throws, and every key sorts after null. |
| Nodes.Equals | Easy.RedisManager.Entity/Node.cs:85-97 | True exactly for a node with every field equal. |
| Nodes.CompareTo | Easy.RedisManager.Entity/Node.cs:118-139 | A null node sorts before an ascending receiver and after a descending one. Otherwise the comparison is by id, database, then key, negated for descending. |
| Nodes.CompareToObject | Easy.RedisManager.Entity/Node.cs:104-111 | Null and non-node arguments compare equal. |
| Nodes.CompareZeroIffSameKey | Easy.RedisManager.Entity/Node.cs:118-139 | Zero exactly for the same id, database and key. |
| Nodes.CompareSelf | Easy.RedisManager.Entity/Node.cs:85-139 | A node compares equal to itself and to any node it `Equals`. |
| Nodes.CompareToAntisymmetric | Easy.RedisManager.Entity/Node.cs:118-139 | With the same order, swapping nodes negates the result. |
| Nodes.MixedOrdersAgree | Easy.RedisManager.Entity/Node.cs:135-138 | An ascending node and a descending node each place the other on the same side. |
| Nodes.CompareToTransitive | Easy.RedisManager.Entity/Node.cs:118-139 | Among ascending nodes, "sorts before" is transitive. |
| LicenseFeature.And | Easy.Common/Enums/EnumLicenseFeature.cs:8-9 | `a & b` is no larger than either operand. |
| LicenseFeature.FeatureValues | Easy.Common/Enums/EnumLicenseFeature.cs:11-25 | The features are bits 1 to 512, `All` is 1023, the SKUs are 18 and 34, and `Free` is `None`. |
| LicenseFeature.DistinctBits | Easy.Common/Enums/EnumLicenseFeature.cs:16-25 | Two different feature bits share nothing. |
| LicenseFeature.AndSelf | Easy.Common/Enums/EnumLicenseFeature.cs:8-9 | `a & a == a`. |
| LicenseFeature.AndCommutes | Easy.Common/Enums/EnumLicenseFeature.cs:8-9 | `&` commutes. |
| LicenseFeature.IncludesTransitive | Easy.Common/Tools/LicenseUtils.cs:155 | Feature inclusion is transitive. |
| LicenseFeature.IncludesOrder | Easy.Common/Tools/LicenseUtils.cs:155 | Inclusion is reflexive and antisymmetric, and everything includes `None`. |
| LicenseFeature.AllIncludesFeatures | Easy.Common/Enums/EnumLicenseFeature.cs:12 | `All` includes a value exactly when the value has only bits 0 to 9. |
| LicenseFeature.SkuContents | Easy.Common/Enums/EnumLicenseFeature.cs:13-14 | Each SKU holds its product and `Text`, but not the other product. |
| LicenseUtils.GetLicensedFeatures | Easy.Common/Tools/LicenseUtils.cs:245-270 | Throws exactly for an unlisted license type. |
| LicenseUtils.LicensedFeaturesWithinAll | Easy.Common/Tools/LicenseUtils.cs:245-270 | Every license grants part of `All`. Exactly Indie, Business and Enterprise grant all of it, and only Free grants nothing. |
| LicenseUtils.ActivatedFeatures | Easy.Common/Tools/LicenseUtils.cs:147-150 | No license means `None`. |
| LicenseUtils.HasLicensedFeature | Easy.Common/Tools/LicenseUtils.cs:163-167 | True exactly when the activated features include the feature. |
| LicenseUtils.ApprovedUsage | Easy.Common/Tools/LicenseUtils.cs:152-161 | A licensed feature is never refused. Otherwise the use is refused exactly when it is over the allowance, with that message and allowance. |
| LicenseUtils.ValidUsage | Easy.Common/Tools/LicenseUtils.cs:169-243 | `All` or a covering scope allows anything. The "Unknown Quota Usage" error comes exactly when neither applies and the pair has no free quota. |
| LicenseUtils.FreeQuotaTable | Easy.Common/Tools/LicenseUtils.cs:89-98 | Unlicensed Text and Redis quotas are 20, 20 and 6000 an hour, and a pair without a quota is an error. |
| LicenseUtils.FreeQuotaTableRest | Easy.Common/Tools/LicenseUtils.cs:204-239 | The OrmLite and ServiceStack quotas are 10 each, and premium and Admin allow none. |
| LicenseUtils.LicensedFeatureUnlimited | Easy.Common/Tools/LicenseUtils.cs:152-161 | A license including the feature lifts its quota. |
| LicenseUtils.RedisSkuQuotas | Easy.Common/Tools/LicenseUtils.cs:193-212 | The Redis SKU lifts the Redis quota but not the OrmLite one. |
| LicenseUtils.AccessToken.constructor | Easy.Common/Tools/LicenseUtils.cs:308-313 | The token becomes the scope and remembers the previous one. |
| LicenseUtils.AccessToken.Dispose | Easy.Common/Tools/LicenseUtils.cs:315-318 | The previous scope is restored. |
| LicenseUtils.LicenseState.constructor | Easy.Common/Tools/LicenseUtils.cs:107 | No license and no scope. |
| LicenseUtils.LicenseState.ScopeFeatures | Easy.Common/Tools/LicenseUtils.cs:175-179 | There are scope features exactly when there is a token. |
| LicenseUtils.LicenseState.RemoveLicense | Easy.Common/Tools/LicenseUtils.cs:142-145 | Afterwards nothing is licensed, and the scope is kept. |
| LicenseUtils.LicenseState.AssertValidUsage | Easy.Common/Tools/LicenseUtils.cs:169-243 | The error thrown is `ValidUsage` of the activated features and the current scope. |
| LicenseUtils.LicenseState.NestedScopes | Easy.Common/Tools/LicenseUtils.cs:302-319 | Nested tokens are seen innermost first, and disposing both restores the outer scope. |
| LicenseUtils.Chain | Easy.Common/Tools/LicenseUtils.cs:292-300 | The chain starts at the exception itself. |
| LicenseUtils.ChainLinks | Easy.Common/Tools/LicenseUtils.cs:292-300 | Each chain element is the inner exception of the one before, and only the last has none. |
| LicenseUtils.GetInnerMostException | Easy.Common/Tools/LicenseUtils.cs:292-300 | The loop returns the end of the chain, which has no inner exception. |
| SerializerState.Register | Easy.Common/Entity/JsState.cs:30-36 | Registering creates the set. |
| SerializerState.Unregister | Easy.Common/Entity/JsState.cs:38-44 | A null set stays null. |
| SerializerState.RegisterAdds | Easy.Common/Entity/JsState.cs:30-49 | After registering u, exactly u and the earlier types are registered. |
| SerializerState.UnregisterRemoves | Easy.Common/Entity/JsState.cs:38-49 | After unregistering u, u is not registered and every other type is unchanged. |
| SerializerState.RegisterThenUnregister | Easy.Common/Entity/JsState.cs:30-49 | Registering then unregistering a new type restores the registrations. |
| SerializerState.JsState.constructor | Easy.Common/Entity/JsState.cs:27-28 | An empty serializer set and a null deserializer set. |
| SerializerState.JsState.RegisterSerializer | Easy.Common/Entity/JsState.cs:30-36 | The type is then in the serializer set, and the other set is untouched. |
| SerializerState.JsState.UnRegisterSerializer | Easy.Common/Entity/JsState.cs:38-44 | The type is then out of the serializer set. |
| SerializerState.JsState.RegisterDeserializer | Easy.Common/Entity/JsState.cs:54-60 | The type is then in the deserializer set. |
| SerializerState.JsState.UnRegisterDeserializer | Easy.Common/Entity/JsState.cs:62-68 | The type is then out of the deserializer set. |
| SerializerState.JsState.Reset | Easy.Common/Entity/JsState.cs:75-79 | No type is registered in either set. |
| MapExtensions.RenderedAll | Easy.Common/Extensions/MapExtensions.cs:23 | One rendered text per entry. |
| MapExtensions.JoinSeparatesEntries | Easy.Common/Extensions/MapExtensions.cs:15-26 | With a non-empty key separator, the item separator stands between every two entries. An empty map gives "". |
| MapExtensions.Join | Easy.Common/Extensions/MapExtensions.cs:15-26 | The builder loop gives the entries joined, with leading empty renderings adding no separator. |
| MapExtensions.JoinDefault | Easy.Common/Extensions/MapExtensions.cs:10-13 | `key:value` entries joined by `,`. |
| ConnectionDict.AttributeValue | Easy.RedisManager.Entity/Dictionary/BaseDict.cs:32-42 | A missing attribute reads as "". |
| ConnectionDict.Connections | Easy.RedisManager.Entity/Dictionary/RedisConnectionDict.cs:71 | Only `RedisConnection` elements of the document. |
| ConnectionDict.Load | Easy.RedisManager.Entity/Dictionary/RedisConnectionDict.cs:72-87 | Every stored config's host is its key. |
| ConnectionDict.LoadCompleteIff | Easy.RedisManager.Entity/Dictionary/RedisConnectionDict.cs:75 | The loop finishes exactly when every element has a `Host`. |
| ConnectionDict.LoadKeysFromElements | Easy.RedisManager.Entity/Dictionary/RedisConnectionDict.cs:79-86 | Every entry is read from an element of its host, so missing attributes are "". |
| ConnectionDict.LoadSize | Easy.RedisManager.Entity/Dictionary/RedisConnectionDict.cs:71-87 | There are no more entries than elements. |
| ConnectionDict.FirstHostWins | Easy.RedisManager.Entity/Dictionary/RedisConnectionDict.cs:76-77 | A host's entry is the configuration of its first element. |
| ConnectionDict.LoadStops | Easy.RedisManager.Entity/Dictionary/RedisConnectionDict.cs:75 | Elements after a missing `Host` change nothing. |
| ConnectionDict.RedisConnectionDict.constructor | Easy.RedisManager.Entity/Dictionary/RedisConnectionDict.cs:27-29 | Nothing loaded. |
| ConnectionDict.RedisConnectionDict.Init | Easy.RedisManager.Entity/Dictionary/RedisConnectionDict.cs:65-89 | A fresh dictionary equal to `Load` of the connection elements. It fails exactly when a `Host` is missing. |
| ConnectionDict.RedisConnectionDict.FromDocument | Easy.RedisManager.Entity/Dictionary/RedisConnectionDict.cs:36-59 | The path constructor loads the same way. No object is obtained when a `Host` is missing. |

## Left out

- Socket I/O. `SafeReadByte`, `ReadLine` and the socket writer are not part of this model. `ReplyStream` stands in for them: a byte sequence with a cursor, whose block read delivers any count from 1 up.
- Reply lines: each line is modelled as its bytes, not as a .NET string. So the line-text conversions in `ParseSingleLine` (the `:` branch's `r.Substring(1).ToUtf8Bytes()`), `ExpectSuccess`, `ExpectCode` and `ExpectWord` become identities. `StartsWith("ERR")` is a byte-prefix test (ASCII, not culture-sensitive), `Substring` indices count bytes, not UTF-16 units, and `ExpectWord`'s `!=` compares bytes.
- `FromUtf8Bytes(null)` is read as "" everywhere: in `CmdLog`, and in `SendExpectString` under the `RedisInfo` getter.
- RespArgs.MergeCommandWithArgs: a `params` array passed as an explicit null (which throws at `args.Length`) is not modelled, and neither is a null string in the string overload. `ToMultiByteArray` is not part of this model and is read as the UTF-8 encoding of each string.
- `Quit`, `WriteAllToSendBuffer`, `IsConnected` and the `RedisCommands` byte constants are not part of this model. Liveness and connect outcomes are inputs.
- Clocks and timers: `Stopwatch` readings are inputs, and the hourly `Timer` is the method `UsageTimerElapsed`.
- `Connect`: the blocking and the timed (`BeginConnect`) attempts are folded into one outcome input. The password branch does not compile as written and is left out.
- `Interlocked` atomicity, `[ThreadStatic]` per-thread state and all concurrency: each model is single-threaded.
- `ReadDouble`, `ParseDouble`, the `Eval`/`Script` commands and SHA1 are left out, because they are floating point and hashing.
- Log output is left out. The log call's `string.Format` is kept only as far as it can throw: `RespSpec.FormatSafe` says when a status line with no arguments formats without a `FormatException`. Error messages are structured reasons, not formatted strings.
- SocketClient.LogTextShape: counts characters, not the UTF-16 code units of .NET `Length`, and reads `FromUtf8Bytes(null)` as "".
- Nodes.CompareKey: `String.CompareTo` is culture-sensitive in .NET, and is modelled as ordinal comparison.
- `EnumLicenseType` and `LicenseKey` are not part of this model beyond the type cases `GetLicensedFeatures` names.
- `RegisterLicense`, `ToLicenseKey`, `GetHashKeyToSign`, `AssertEvaluationLicense` and the `ErrorMessages` texts are left out. They need signature checks, Base64 decoding, the clock and formatting.
- LicenseFeature.And: flags are unbounded naturals. The `long` values used are all below 1024, so no sign bit or width matters.
- `JsState`'s other thread-static fields (`Writer`, `QueryStringMode`, `Depth`, `IsWritingValue`…) carry no logic and are left out.
- MapExtensions.Join: the dictionary's enumeration order is the entry sequence's order. `ToString` of keys and values is their text, and the `JsWriter` separators are taken as `,` and `:`. A null dictionary is not modelled.
- `ToInt` is not part of this model: numeric configuration attributes are kept as text. `XElement.Load` file I/O is replaced by the parsed element sequence.
- Pool.BufferPool.ResizeAndFlushLeft: requires the copy range to lie within the old buffer, which `Buffer.BlockCopy` checks by throwing. The `Debug.Assert`s are preconditions.
- `Utf8` models .NET's UTF-8 encoder for scalar values only; unpaired surrogates are not modelled.

## Findings

| source | as written | input that shows it | evidently intended | confidence | as-written member | corrected member |
|---|---|---|---|---|---|---|
| Easy.RedisManager.RedisAccess/RedisClient.cs:1054-1058 | The `redis_version` value, already split at its first `:` by `RedisInfo`, is split on `:` again and piece 1 is taken. | `INFO` line `redis_version:2.8.19`: the value `2.8.19` splits into one piece, and `versionInfos[1]` throws `IndexOutOfRangeException`. | Match the version prefix of the value itself (here 2.8). | not executed | Info.GetRedisVersionExample | Info.GetRedisVersion |
