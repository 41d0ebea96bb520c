/**
 * Sequence and string helpers shared by the decoders and by the two
 * StringBuilder joins of the repository (the command log of the socket client
 * and the dictionary join of the map extensions).
 */
module Text {

  /** `s` begins with `prefix`, compared element by element. */
  predicate StartsWith<T(==)>(s: seq<T>, prefix: seq<T>) {
    |prefix| <= |s| && forall i :: 0 <= i < |prefix| ==> s[i] == prefix[i]
  }

  /** `a` at index `j` of `s`, immediately followed by `b`. */
  predicate PairAt<T(==)>(s: seq<T>, j: int, a: T, b: T) {
    0 <= j && j + 1 < |s| && s[j] == a && s[j + 1] == b
  }

  /** `String.IndexOf(x)`: the first index holding `x`, or -1. */
  function IndexOf<T(==)>(s: seq<T>, x: T): (i: int)
    ensures -1 <= i < |s|
    ensures 0 <= i ==> s[i] == x && forall j :: 0 <= j < i ==> s[j] != x
    ensures i == -1 ==> forall j :: 0 <= j < |s| ==> s[j] != x
  {
    if |s| == 0 then -1
    else if s[0] == x then 0
    else
      var k := IndexOf(s[1..], x);
      if k == -1 then -1 else k + 1
  }

  /** The parts with `sep` between consecutive ones: the reference meaning of a join. */
  function Join(parts: seq<string>, sep: string): string {
    if |parts| == 0 then "" else parts[0] + Separated(parts[1..], sep)
  }

  /** Every part preceded by `sep`. */
  function Separated(parts: seq<string>, sep: string): string {
    if |parts| == 0 then "" else sep + parts[0] + Separated(parts[1..], sep)
  }

  /** Joining a part in front of a non-empty list puts one separator between them. */
  lemma JoinCons(head: string, parts: seq<string>, sep: string)
    requires |parts| > 0
    ensures Join([head] + parts, sep) == head + (sep + Join(parts, sep))
  {
    assert ([head] + parts)[1..] == parts;
    var rest := Separated(parts[1..], sep);
    assert sep + parts[0] + rest == sep + (parts[0] + rest);
  }

  function DropLeadingEmpty(parts: seq<string>): (r: seq<string>)
    ensures |r| <= |parts|
    ensures |r| > 0 ==> r[0] != ""
  {
    if |parts| > 0 && parts[0] == "" then DropLeadingEmpty(parts[1..]) else parts
  }

  /**
   * What a StringBuilder loop leaves in the builder when it starts from `acc`
   * and, for each part, appends `sep` only if the builder is non-empty and then
   * appends the part.
   */
  function BuilderJoin(acc: string, parts: seq<string>, sep: string): string
    decreases |parts|
  {
    if |parts| == 0 then acc
    else BuilderJoin(acc + (if |acc| > 0 then sep else "") + parts[0], parts[1..], sep)
  }

  lemma {:induction false} BuilderJoinFromNonEmpty(acc: string, parts: seq<string>, sep: string)
    requires |acc| > 0
    ensures BuilderJoin(acc, parts, sep) == acc + Separated(parts, sep)
    decreases |parts|
  {
    if |parts| > 0 {
      BuilderJoinFromNonEmpty(acc + sep + parts[0], parts[1..], sep);
      assert acc + sep + parts[0] + Separated(parts[1..], sep) == acc + Separated(parts, sep);
    }
  }

  /**
   * The builder loop is a join in which the leading empty parts contribute
   * nothing, not even a separator; every later part, empty or not, is preceded
   * by exactly one separator.
   */
  lemma {:induction false} BuilderJoinIsJoin(parts: seq<string>, sep: string)
    ensures BuilderJoin("", parts, sep) == Join(DropLeadingEmpty(parts), sep)
    decreases |parts|
  {
    if |parts| > 0 {
      if parts[0] == "" {
        assert "" + "" + parts[0] == "";
        BuilderJoinIsJoin(parts[1..], sep);
      } else {
        assert "" + "" + parts[0] == parts[0];
        BuilderJoinFromNonEmpty(parts[0], parts[1..], sep);
      }
    }
  }
}
