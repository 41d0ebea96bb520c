/**
 * `MapExtensions.Join`: a dictionary written as `key<keySep>value` entries
 * with `itemSep` between them, built in a string builder.
 */
module MapExtensions {
  import Text

  /**
   * The separators of the one-argument overload, `JsWriter.ItemSeperatorString`
   * and `JsWriter.MapKeySeperatorString`.
   */
  const ITEM_SEPARATOR: string := ","
  const MAP_KEY_SEPARATOR: string := ":"

  /** A dictionary entry, key and value as their `ToString` texts. */
  type Entry = (string, string)

  /** One entry as the builder appends it: the key, the key separator, the value. */
  function Rendered(e: Entry, keySep: string): string {
    e.0 + keySep + e.1
  }

  function RenderedAll(entries: seq<Entry>, keySep: string): (r: seq<string>)
    ensures |r| == |entries|
  {
    seq(|entries|, i requires 0 <= i < |entries| => Rendered(entries[i], keySep))
  }

  /**
   * What the builder loop produces: the rendered entries joined by `itemSep`,
   * except that entries rendered as nothing before the first non-empty one
   * are not followed by a separator.
   */
  function JoinText(entries: seq<Entry>, itemSep: string, keySep: string): string {
    Text.Join(Text.DropLeadingEmpty(RenderedAll(entries, keySep)), itemSep)
  }

  /** Nothing to drop when no part is empty. */
  lemma {:induction false} NoLeadingEmpty(parts: seq<string>)
    requires forall i :: 0 <= i < |parts| ==> parts[i] != ""
    ensures Text.DropLeadingEmpty(parts) == parts
  {
  }

  /**
   * With a non-empty key separator every entry renders as something, so the
   * item separator stands between every two consecutive entries and nowhere
   * else; an empty dictionary joins to the empty string.
   */
  lemma JoinSeparatesEntries(entries: seq<Entry>, itemSep: string, keySep: string)
    requires keySep != ""
    ensures JoinText(entries, itemSep, keySep) == Text.Join(RenderedAll(entries, keySep), itemSep)
    ensures |entries| == 0 ==> JoinText(entries, itemSep, keySep) == ""
    ensures |entries| == 1 ==> JoinText(entries, itemSep, keySep) == entries[0].0 + keySep + entries[0].1
  {
    NoLeadingEmpty(RenderedAll(entries, keySep));
  }

  /** `Join(values, itemSeperator, keySeperator)`. */
  method Join(values: seq<Entry>, itemSeperator: string, keySeperator: string) returns (s: string)
    ensures s == JoinText(values, itemSeperator, keySeperator)
  {
    ghost var parts := RenderedAll(values, keySeperator);
    var sb := "";
    for i := 0 to |values|
      invariant Text.BuilderJoin(sb, parts[i..], itemSeperator) == Text.BuilderJoin("", parts, itemSeperator)
    {
      assert parts[i..][1..] == parts[i + 1..];
      if |sb| > 0 {
        sb := sb + itemSeperator;
      }
      ghost var before := sb;
      sb := sb + values[i].0 + keySeperator + values[i].1;
      assert sb == before + parts[i];
    }
    assert parts[|values|..] == [];
    Text.BuilderJoinIsJoin(parts, itemSeperator);
    s := sb;
  }

  /** `Join(values)`: the same with `,` between entries and `:` between key and value. */
  method JoinDefault(values: seq<Entry>) returns (s: string)
    ensures s == Text.Join(RenderedAll(values, MAP_KEY_SEPARATOR), ITEM_SEPARATOR)
  {
    s := Join(values, ITEM_SEPARATOR, MAP_KEY_SEPARATOR);
    JoinSeparatesEntries(values, ITEM_SEPARATOR, MAP_KEY_SEPARATOR);
  }
}
