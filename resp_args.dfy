/**
 * The argument-array builders of `RedisClient`: a command and its arguments
 * are laid out as one array of binary-safe strings, the form in which a
 * request is sent.
 */
module RespArgs {
  import opened Common
  import opened RespSpec
  import Utf8

  /** One element of a `byte[][]`: a byte array, or null. */
  type Arg = Option<Bytes>

  /** A nullable array of arguments (`byte[][]` that may itself be null). */
  type Args = Option<seq<Arg>>

  // ---------------------------------------------------------------- reference layouts

  /** Keys and values paired up: `k0, v0, k1, v1, ...`. */
  function Interleave(keys: seq<Arg>, values: seq<Arg>): seq<Arg>
    requires |keys| == |values|
  {
    if |keys| == 0 then []
    else Interleave(keys[..|keys| - 1], values[..|values| - 1]) + [keys[|keys| - 1], values[|values| - 1]]
  }

  /** Where each key and value lands: key j at 2j, its value at 2j + 1, and nothing else. */
  lemma {:induction false} InterleaveAt(keys: seq<Arg>, values: seq<Arg>)
    requires |keys| == |values|
    ensures |Interleave(keys, values)| == 2 * |keys|
    ensures forall j :: 0 <= j < |keys| ==>
      Interleave(keys, values)[2 * j] == keys[j] && Interleave(keys, values)[2 * j + 1] == values[j]
    decreases |keys|
  {
    if |keys| > 0 {
      var n := |keys| - 1;
      InterleaveAt(keys[..n], values[..n]);
    }
  }

  /** A string argument as bytes: its UTF-8 encoding, and a null string as the empty array. */
  function ArgBytes(s: Option<string>): Bytes {
    match s
    case None => []
    case Some(t) => Utf8.Encode(t)
  }

  /** Every string argument as bytes, in order. */
  function AllBytes(keys: seq<Option<string>>): (r: seq<Bytes>) {
    seq(|keys|, i requires 0 <= i < |keys| => ArgBytes(keys[i]))
  }

  /** The strings are recovered from their bytes; a null string comes back empty. */
  lemma AllBytesDecode(keys: seq<Option<string>>)
    ensures |AllBytes(keys)| == |keys|
    ensures forall i :: 0 <= i < |keys| ==>
      Utf8.Decode(AllBytes(keys)[i]) == if keys[i].Some? then keys[i].value else ""
  {
    forall i | 0 <= i < |keys|
      ensures Utf8.Decode(AllBytes(keys)[i]) == if keys[i].Some? then keys[i].value else ""
    {
      if keys[i].Some? {
        Utf8.DecodeEncode(keys[i].value);
      } else {
        assert Utf8.Encode("") == [];
        assert Utf8.Decode([]) == "";
      }
    }
  }

  // ---------------------------------------------------------------- builders

  /** `MergeCommandWithArgs(cmd, args)`: the command followed by its arguments. */
  method MergeCommandWithArgs(cmd: Arg, args: seq<Arg>) returns (merged: seq<Arg>)
    ensures |merged| == 1 + |args| && merged[0] == cmd && merged[1..] == args
  {
    var a := new Arg[1 + |args|](_ => None);
    a[0] := cmd;
    for i := 0 to |args|
      invariant a[0] == cmd && forall k :: 0 <= k < i ==> a[k + 1] == args[k]
    {
      a[i + 1] := args[i];
    }
    merged := a[..];
  }

  /**
   * `MergeCommandWithArgs(cmd, params string[] args)`: the strings as their
   * UTF-8 bytes (`ToMultiByteArray`), merged behind the command; each
   * argument decodes back to its string.
   */
  method MergeCommandWithStringArgs(cmd: Arg, args: seq<string>) returns (merged: seq<Arg>)
    ensures |merged| == 1 + |args| && merged[0] == cmd
    ensures forall i :: 0 <= i < |args| ==> merged[i + 1] == Some(Utf8.Encode(args[i]))
    ensures forall i :: 0 <= i < |args| ==> merged[i + 1].Some? && Utf8.Decode(merged[i + 1].value) == args[i]
  {
    var byteArgs := seq(|args|, i requires 0 <= i < |args| => Some(Utf8.Encode(args[i])));
    merged := MergeCommandWithArgs(cmd, byteArgs);
    forall i | 0 <= i < |args|
      ensures Utf8.Decode(merged[i + 1].value) == args[i]
    {
      assert merged[1..][i] == byteArgs[i];
      Utf8.DecodeEncode(args[i]);
    }
  }

  /** `MergeCommandWithArgs(cmd, firstArg, args)`: the command, its first argument, then the rest. */
  method MergeCommandWithFirstArg(cmd: Arg, firstArg: Arg, args: seq<Arg>) returns (merged: seq<Arg>)
    ensures |merged| == 2 + |args| && merged[0] == cmd && merged[1] == firstArg && merged[2..] == args
  {
    var a := new Arg[2 + |args|](_ => None);
    a[0] := cmd;
    a[1] := firstArg;
    for i := 0 to |args|
      invariant a[0] == cmd && a[1] == firstArg && forall k :: 0 <= k < i ==> a[k + 2] == args[k]
    {
      a[i + 2] := args[i];
    }
    merged := a[..];
  }

  /**
   * `MergeCommandWithKeysAndValues(firstParams, keys, values)`: the leading
   * parameters (none when null) followed by the keys and values paired up.
   * Null or empty keys or values, and keys and values of different counts,
   * are rejected.
   */
  method MergeKeysAndValues(firstParams: Args, keys: Args, values: Args) returns (r: Result<seq<Arg>>)
    ensures (keys.None? || |keys.value| == 0) ==> r == Err(Runtime(ArgumentNull("keys")))
    ensures keys.Some? && |keys.value| > 0 && (values.None? || |values.value| == 0) ==>
      r == Err(Runtime(ArgumentNull("values")))
    ensures keys.Some? && values.Some? && |keys.value| > 0 && |values.value| > 0 && |keys.value| != |values.value| ==>
      r == Err(Runtime(ArgumentMismatch))
    ensures r.Ok? <==> keys.Some? && values.Some? && |keys.value| > 0 && |keys.value| == |values.value|
    ensures r.Ok? ==>
      var prefix := if firstParams.Some? then firstParams.value else [];
      r.value == prefix + Interleave(keys.value, values.value)
  {
    if keys.None? || |keys.value| == 0 {
      return Err(Runtime(ArgumentNull("keys")));
    }
    if values.None? || |values.value| == 0 {
      return Err(Runtime(ArgumentNull("values")));
    }
    var ks, vs := keys.value, values.value;
    if |ks| != |vs| {
      return Err(Runtime(ArgumentMismatch));
    }
    var prefix := if firstParams.Some? then firstParams.value else [];
    var merged := FillMerged(prefix, ks, vs);
    r := Ok(merged);
  }

  /** The array the builder fills: the leading parameters, then each key followed by its value. */
  method FillMerged(prefix: seq<Arg>, ks: seq<Arg>, vs: seq<Arg>) returns (merged: seq<Arg>)
    requires |ks| == |vs|
    ensures merged == prefix + Interleave(ks, vs)
  {
    var start := |prefix|;
    var a := new Arg[|ks| * 2 + start](_ => None);
    for i := 0 to start
      invariant a[..i] == prefix[..i]
    {
      a[i] := prefix[i];
    }
    FillPairs(a, start, ks, vs);
    assert a[..] == a[..start] + a[start..];
    merged := a[..];
  }

  /** The pairing loop: from `start` on, each key followed by its value; the cells before `start` are kept. */
  method FillPairs(a: array<Arg>, start: nat, ks: seq<Arg>, vs: seq<Arg>)
    requires |ks| == |vs| && a.Length == start + 2 * |ks|
    modifies a
    ensures a[..start] == old(a[..start])
    ensures a[start..] == Interleave(ks, vs)
  {
    var i, j := start, 0;
    while i < a.Length
      invariant 0 <= j <= |ks| && i == start + 2 * j
      invariant a[..start] == old(a[..start])
      invariant a[start..i] == Interleave(ks[..j], vs[..j])
      decreases a.Length - i
    {
      ghost var before := a[start..i];
      a[i] := ks[j];
      a[i + 1] := vs[j];
      assert a[start..i + 2] == before + [ks[j], vs[j]];
      assert Interleave(ks[..j + 1], vs[..j + 1]) == Interleave(ks[..j], vs[..j]) + [ks[j], vs[j]] by {
        assert ks[..j + 1][..j] == ks[..j] && vs[..j + 1][..j] == vs[..j];
      }
      i := i + 2;
      j := j + 1;
    }
    assert ks[..j] == ks && vs[..j] == vs;
    assert a[start..] == a[start..i];
  }

  /** `MergeCommandWithKeysAndValues(cmd, keys, values)`. */
  method MergeCommandWithKeysAndValues(cmd: Arg, keys: Args, values: Args) returns (r: Result<seq<Arg>>)
    ensures r.Ok? <==> keys.Some? && values.Some? && |keys.value| > 0 && |keys.value| == |values.value|
    ensures r.Ok? ==> r.value == [cmd] + Interleave(keys.value, values.value)
    ensures r.Err? ==> r.error.Runtime?
  {
    r := MergeKeysAndValues(Some([cmd]), keys, values);
  }

  /** `MergeCommandWithKeysAndValues(cmd, firstArg, keys, values)`. */
  method MergeCommandFirstArgWithKeysAndValues(cmd: Arg, firstArg: Arg, keys: Args, values: Args)
    returns (r: Result<seq<Arg>>)
    ensures r.Ok? <==> keys.Some? && values.Some? && |keys.value| > 0 && |keys.value| == |values.value|
    ensures r.Ok? ==> r.value == [cmd, firstArg] + Interleave(keys.value, values.value)
    ensures r.Err? ==> r.error.Runtime?
  {
    r := MergeKeysAndValues(Some([cmd, firstArg]), keys, values);
  }

  /** `ConvertToBytes(keys)`: each string as its UTF-8 bytes, a null string as an empty array. */
  method ConvertToBytes(keys: seq<Option<string>>) returns (keyBytes: seq<Bytes>)
    ensures keyBytes == AllBytes(keys)
  {
    var a := new Bytes[|keys|](_ => []);
    for i := 0 to |keys|
      invariant forall k :: 0 <= k < i ==> a[k] == ArgBytes(keys[k])
    {
      var key := keys[i];
      a[i] := if key.Some? then Utf8.Encode(key.value) else [];
    }
    keyBytes := a[..];
  }

  /** `MergeAndConvertToBytes(keys, args)`: keys then args (a null array counts as empty), as bytes. */
  method MergeAndConvertToBytes(keys: Option<seq<Option<string>>>, args: Option<seq<Option<string>>>)
    returns (r: seq<Bytes>)
    ensures var ks := if keys.Some? then keys.value else [];
            var xs := if args.Some? then args.value else [];
            r == AllBytes(ks + xs)
  {
    var ks := if keys.Some? then keys.value else [];
    var xs := if args.Some? then args.value else [];
    var keysLength := |ks|;
    var merged := new Option<string>[keysLength + |xs|](_ => None);
    for i := 0 to merged.Length
      invariant merged[..i] == (ks + xs)[..i]
    {
      merged[i] := if i < keysLength then ks[i] else xs[i - keysLength];
    }
    assert merged[..] == ks + xs;
    r := ConvertToBytes(merged[..]);
  }
}
