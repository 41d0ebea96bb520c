/**
 * The server information of `RedisClient`: the text of an `INFO` reply taken
 * apart into a key/value dictionary, the server version read from it, and the
 * ordering of clients by the version they support.
 */
module Info {
  import opened Common
  import opened RespSpec
  import Text

  // ---------------------------------------------------------------- splitting

  /** `sep` occurs in `s` at index `j`. */
  predicate SepAt(s: string, j: int, sep: string) {
    0 <= j && j + |sep| <= |s| && forall k :: 0 <= k < |sep| ==> s[j + k] == sep[k]
  }

  /** The first index at which `sep` occurs in `s`, or -1. */
  function Find(s: string, sep: string): (i: int)
    requires |sep| > 0
    ensures -1 <= i <= |s|
    ensures i >= 0 ==> SepAt(s, i, sep)
    ensures forall j :: 0 <= j < |s| && (i < 0 || j < i) ==> !SepAt(s, j, sep)
    decreases |s|
  {
    if |s| < |sep| then -1
    else if SepAt(s, 0, sep) then 0
    else
      var k := Find(s[1..], sep);
      assert forall j :: 1 <= j < |s| && SepAt(s, j, sep) ==> SepAt(s[1..], j - 1, sep) by {
        forall j, m | 1 <= j < |s| && SepAt(s, j, sep) && 0 <= m < |sep| ensures s[1..][j - 1 + m] == sep[m] {
          assert s[j + m] == sep[m];
        }
      }
      if k < 0 then -1
      else
        assert SepAt(s, k + 1, sep) by {
          forall m | 0 <= m < |sep| ensures s[k + 1 + m] == sep[m] {
            assert s[1..][k + m] == s[k + 1 + m];
          }
        }
        k + 1
  }

  /** `s.Split(sep)`: the pieces between the occurrences of `sep`, empty ones kept. */
  function SplitOn(s: string, sep: string): (r: seq<string>)
    requires |sep| > 0
    ensures |r| >= 1
    decreases |s|
  {
    var i := Find(s, sep);
    if i < 0 then [s] else [s[..i]] + SplitOn(s[i + |sep|..], sep)
  }

  /** One split step: the text is the first piece, the separator, and the rest. */
  lemma SplitOnStep(s: string, sep: string) returns (head: string, rest: string)
    requires |sep| > 0 && Find(s, sep) >= 0
    ensures SplitOn(s, sep) == [head] + SplitOn(rest, sep)
    ensures s == head + (sep + rest) && |rest| < |s|
  {
    var i := Find(s, sep);
    head, rest := s[..i], s[i + |sep|..];
    assert s[i..i + |sep|] == sep;
    assert s == s[..i] + s[i..i + |sep|] + rest;
  }

  /** Splitting loses nothing: joining the pieces with `sep` gives the text back. */
  lemma {:induction false} SplitOnJoin(s: string, sep: string)
    requires |sep| > 0
    ensures Text.Join(SplitOn(s, sep), sep) == s
    decreases |s|
  {
    if Find(s, sep) < 0 {
      assert SplitOn(s, sep) == [s];
      assert Text.Join([s], sep) == s + Text.Separated([], sep);
    } else {
      var head, rest := SplitOnStep(s, sep);
      SplitOnJoin(rest, sep);
      Text.JoinCons(head, SplitOn(rest, sep), sep);
    }
  }

  /** No piece holds the separator. */
  lemma {:induction false} SplitOnPieces(s: string, sep: string)
    requires |sep| > 0
    ensures forall k, j :: 0 <= k < |SplitOn(s, sep)| ==> !SepAt(SplitOn(s, sep)[k], j, sep)
    decreases |s|
  {
    var i := Find(s, sep);
    if i >= 0 {
      SplitOnPieces(s[i + |sep|..], sep);
      forall j | SepAt(s[..i], j, sep) ensures false {
        assert s[..i][j..j + |sep|] == s[j..j + |sep|];
        assert SepAt(s, j, sep);
      }
      assert SplitOn(s, sep) == [s[..i]] + SplitOn(s[i + |sep|..], sep);
    }
  }

  /** A one-character separator occurs exactly where that character does. */
  lemma SepAtOne(s: string, c: char)
    ensures forall j :: SepAt(s, j, [c]) ==> s[j] == c
  {
    forall j | SepAt(s, j, [c]) ensures s[j] == c {
      assert s[j + 0] == [c][0];
    }
  }

  /** `StringSplitOptions.RemoveEmptyEntries`: the non-empty pieces, in order. */
  function NonEmpty(pieces: seq<string>): (r: seq<string>)
    ensures forall k :: 0 <= k < |r| ==> r[k] != "" && r[k] in pieces
  {
    if |pieces| == 0 then []
    else if pieces[0] == "" then NonEmpty(pieces[1..])
    else [pieces[0]] + NonEmpty(pieces[1..])
  }

  const NEWLINE: string := "\r\n"

  /** The lines of an `INFO` reply: split on CR LF, empty lines dropped. */
  function InfoLines(text: string): seq<string> {
    NonEmpty(SplitOn(text, NEWLINE))
  }

  // ---------------------------------------------------------------- entries

  /** The key and value of an `INFO` line, split at its first `:`; none for a line without one. */
  function Entry(line: string): (e: Option<(string, string)>)
    ensures e.Some? ==> line == e.value.0 + [':'] + e.value.1 && ':' !in e.value.0
  {
    var p := Text.IndexOf(line, ':');
    if p == -1 then None
    else
      assert line == line[..p] + [':'] + line[p + 1..];
      Some((line[..p], line[p + 1..]))
  }

  /** The reference meaning of the dictionary: the value of the first line whose key is `key`. */
  function FirstValue(lines: seq<string>, key: string): Option<string> {
    if |lines| == 0 then None
    else
      var e := Entry(lines[0]);
      if e.Some? && e.value.0 == key then Some(e.value.1) else FirstValue(lines[1..], key)
  }

  /** The dictionary that `TryAdd` builds line by line: a key already present is not overwritten. */
  function InfoMap(lines: seq<string>): map<string, string> {
    if |lines| == 0 then map[]
    else
      var m := InfoMap(lines[..|lines| - 1]);
      var e := Entry(lines[|lines| - 1]);
      if e.Some? && e.value.0 !in m then m[e.value.0 := e.value.1] else m
  }

  /** Looking a key up in a prefix of the lines and then in the line after it. */
  lemma {:induction false} FirstValueSnoc(lines: seq<string>, line: string, key: string)
    ensures FirstValue(lines + [line], key) ==
      if FirstValue(lines, key).Some? then FirstValue(lines, key)
      else if Entry(line).Some? && Entry(line).value.0 == key then Some(Entry(line).value.1)
      else None
    decreases |lines|
  {
    if |lines| > 0 {
      assert (lines + [line])[1..] == lines[1..] + [line];
      FirstValueSnoc(lines[1..], line, key);
    } else {
      assert [line][1..] == [];
    }
  }

  /** First occurrence wins: the dictionary holds exactly the first value given for `key`. */
  lemma {:induction false} InfoMapFirstWins(lines: seq<string>, key: string)
    ensures key in InfoMap(lines) <==> FirstValue(lines, key).Some?
    ensures key in InfoMap(lines) ==> InfoMap(lines)[key] == FirstValue(lines, key).value
    decreases |lines|
  {
    if |lines| > 0 {
      var init := lines[..|lines| - 1];
      var last := lines[|lines| - 1];
      InfoMapFirstWins(init, key);
      assert lines == init + [last];
      FirstValueSnoc(init, last, key);
    }
  }

  /** The `foreach` of the `RedisInfo` getter: each line with a `:` adds its entry unless the key is there. */
  method ParseInfo(text: string) returns (info: map<string, string>)
    ensures info == InfoMap(InfoLines(text))
  {
    var lines := InfoLines(text);
    info := map[];
    for i := 0 to |lines|
      invariant info == InfoMap(lines[..i])
    {
      var line := lines[i];
      assert lines[..i + 1][..i] == lines[..i];
      var p := Text.IndexOf(line, ':');
      if p == -1 {
        continue;
      }
      var key, value := line[..p], line[p + 1..];
      if key !in info {
        info := info[key := value];
      }
    }
    assert lines[..|lines|] == lines;
  }

  // ---------------------------------------------------------------- versions

  /** `EnumRedisVersion`. */
  datatype RedisVersion = REDIS_1_0 | REDIS_1_2 | REDIS_2_0 | REDIS_2_2 | REDIS_2_4 | REDIS_2_6 | REDIS_2_8 | REDIS_3_0

  /** The underlying value of each version, 1 to 8. */
  function Code(v: RedisVersion): int {
    match v
    case REDIS_1_0 => 1
    case REDIS_1_2 => 2
    case REDIS_2_0 => 3
    case REDIS_2_2 => 4
    case REDIS_2_4 => 5
    case REDIS_2_6 => 6
    case REDIS_2_8 => 7
    case REDIS_3_0 => 8
  }

  /** The version-number prefix each version is recognised by. */
  function VersionText(v: RedisVersion): string {
    match v
    case REDIS_1_0 => "1.0"
    case REDIS_1_2 => "1.2"
    case REDIS_2_0 => "2.0"
    case REDIS_2_2 => "2.2"
    case REDIS_2_4 => "2.4"
    case REDIS_2_6 => "2.6"
    case REDIS_2_8 => "2.8"
    case REDIS_3_0 => "3.0"
  }

  /** The prefix tests of `GetRedisVersion`, newest first; anything unrecognised is 1.0. */
  function VersionOf(version: string): RedisVersion {
    if Text.StartsWith(version, "3.0") then REDIS_3_0
    else if Text.StartsWith(version, "2.8") then REDIS_2_8
    else if Text.StartsWith(version, "2.6") then REDIS_2_6
    else if Text.StartsWith(version, "2.4") then REDIS_2_4
    else if Text.StartsWith(version, "2.2") then REDIS_2_2
    else if Text.StartsWith(version, "2.0") then REDIS_2_0
    else if Text.StartsWith(version, "1.2") then REDIS_1_2
    else REDIS_1_0
  }

  /** A version number is mapped to the version whose prefix it carries, whatever follows. */
  lemma VersionOfText(v: RedisVersion, rest: string)
    ensures VersionOf(VersionText(v) + rest) == v
  {
    var s := VersionText(v) + rest;
    assert s[0] == VersionText(v)[0] && s[2] == VersionText(v)[2];
  }

  const REDIS_VERSION_KEY: string := "redis_version"

  /**
   * `GetRedisVersion` as written: the `redis_version` value is split on `:`
   * once more and piece 1 is taken, although only an empty split is guarded.
   */
  function GetRedisVersionAsWritten(info: map<string, string>): (r: Result<RedisVersion>) {
    if REDIS_VERSION_KEY !in info then Ok(REDIS_1_0)
    else
      var pieces := SplitOn(info[REDIS_VERSION_KEY], ":");
      if |pieces| == 0 then Ok(REDIS_1_0)
      else if |pieces| < 2 then Err(Runtime(IndexOutOfRange))
      else Ok(VersionOf(pieces[1]))
  }

  /** A version value without a `:` makes the split a single piece, and indexing piece 1 throws. */
  lemma GetRedisVersionAsWrittenFails(info: map<string, string>)
    requires REDIS_VERSION_KEY in info && ':' !in info[REDIS_VERSION_KEY]
    ensures GetRedisVersionAsWritten(info) == Err(Runtime(IndexOutOfRange))
  {
    SepAtOne(info[REDIS_VERSION_KEY], ':');
  }

  /** A line `key:value` whose key has no `:` is taken apart into exactly that key and value. */
  lemma EntryOfLine(key: string, value: string)
    requires ':' !in key
    ensures Entry(key + [':'] + value) == Some((key, value))
  {
    var line := key + [':'] + value;
    var p := Text.IndexOf(line, ':');
    assert line[|key|] == ':';
    assert forall j :: 0 <= j < |key| ==> line[j] == key[j];
    assert p == |key|;
    assert line[..p] == key && line[p + 1..] == value;
  }

  /** The line `redis_version:2.8.19` of a real `INFO` reply gives the value `2.8.19`. */
  lemma InfoLineExample()
    ensures Entry("redis_version:2.8.19") == Some((REDIS_VERSION_KEY, "2.8.19"))
  {
    var key := REDIS_VERSION_KEY;
    assert forall j :: 0 <= j < |key| ==> key[j] != ':';
    EntryOfLine(key, "2.8.19");
    assert key + [':'] + "2.8.19" == "redis_version:2.8.19";
  }

  /** For that value the code as written throws, where version 2.8 was meant. */
  lemma GetRedisVersionExample()
    ensures GetRedisVersionAsWritten(map[REDIS_VERSION_KEY := "2.8.19"]) == Err(Runtime(IndexOutOfRange))
    ensures GetRedisVersion(map[REDIS_VERSION_KEY := "2.8.19"]) == REDIS_2_8
  {
    var v := "2.8.19";
    assert forall j :: 0 <= j < |v| ==> v[j] != ':';
    GetRedisVersionAsWrittenFails(map[REDIS_VERSION_KEY := v]);
    assert VersionText(REDIS_2_8) + ".19" == v;
    GetRedisVersionReported(map[REDIS_VERSION_KEY := v], REDIS_2_8, ".19");
  }

  /** `GetRedisVersion` as intended: the prefix of the `redis_version` value itself; 1.0 when absent. */
  function GetRedisVersion(info: map<string, string>): (r: RedisVersion)
    ensures REDIS_VERSION_KEY !in info ==> r == REDIS_1_0
    ensures REDIS_VERSION_KEY in info ==> r == VersionOf(info[REDIS_VERSION_KEY])
  {
    if REDIS_VERSION_KEY !in info then REDIS_1_0 else VersionOf(info[REDIS_VERSION_KEY])
  }

  /** The intended version is the one whose number the server reports. */
  lemma GetRedisVersionReported(info: map<string, string>, v: RedisVersion, rest: string)
    requires REDIS_VERSION_KEY in info && info[REDIS_VERSION_KEY] == VersionText(v) + rest
    ensures GetRedisVersion(info) == v
  {
    VersionOfText(v, rest);
  }

  // ---------------------------------------------------------------- ordering

  /**
   * `CompareTo(other)` on the versions the two clients support: a null client
   * sorts after, and otherwise the newer version sorts first.
   */
  function CompareTo(mine: RedisVersion, other: Option<RedisVersion>): (r: int)
    ensures -1 <= r <= 1
    ensures other.None? ==> r == -1
    ensures other.Some? ==> (r < 0 <==> Code(mine) > Code(other.value))
    ensures other.Some? ==> (r == 0 <==> mine == other.value)
  {
    match other
    case None => -1
    case Some(o) =>
      var c := if Code(mine) < Code(o) then -1 else if Code(mine) == Code(o) then 0 else 1;
      c * -1
  }

  /** The ordering is antisymmetric: swapping the two clients flips the sign. */
  lemma CompareToAntisymmetric(a: RedisVersion, b: RedisVersion)
    ensures CompareTo(a, Some(b)) == -CompareTo(b, Some(a))
  {
  }

  /** The ordering is transitive. */
  lemma CompareToTransitive(a: RedisVersion, b: RedisVersion, c: RedisVersion)
    requires CompareTo(a, Some(b)) <= 0 && CompareTo(b, Some(c)) <= 0
    ensures CompareTo(a, Some(c)) <= 0
  {
  }
}
