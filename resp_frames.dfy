/**
 * Round trips of whole multi-bulk and nested replies: a frame written by the
 * reference writer of `RespLemmas` decodes to the values it was written from,
 * in order, and is consumed exactly.
 */
module RespFrames {
  import opened Common
  import opened RespSpec
  import opened RespLemmas
  import Numeric

  // ---------------------------------------------------------------- count lines

  /** A count line `<lead>n` CR LF in front of `tail`: the line reads back as n and `tail` follows it. */
  lemma CountLine(lead: byte, n: nat, tail: Bytes, input: Bytes, pos: nat) returns (q: nat)
    requires n <= Numeric.INT32_MAX && At(input, pos, [lead] + ((Numeric.Decimal(n) + CRLF) + tail))
    ensures pos < |input| && input[pos] == lead
    ensures LineAt(input, pos + 1) == Step(Numeric.Decimal(n), q)
    ensures Numeric.TryParse(Numeric.Decimal(n), Numeric.INT32_MIN, Numeric.INT32_MAX) == Some(n)
    ensures At(input, q, tail) && q + |tail| == pos + |[lead] + ((Numeric.Decimal(n) + CRLF) + tail)|
  {
    var d := Numeric.Decimal(n);
    q := pos + 1 + |d| + 2;
    AtLead(input, pos, lead, (d + CRLF) + tail);
    AtSplit(input, pos + 1, d + CRLF, tail);
    DecimalHasNoLineBreak(n);
    LineAtFramed(input, pos + 1, d);
    Numeric.DecimalRoundTrip(n, Numeric.INT32_MIN, Numeric.INT32_MAX);
  }

  // ---------------------------------------------------------------- multi-bulk replies

  /**
   * `ReadData` from `p` decodes `vs[k]`, the next one from where that one
   * stopped decodes `vs[k + 1]`, and so on; the last one stops at `e`.
   */
  predicate ReadsFrom(input: Bytes, vs: seq<Option<Bytes>>, k: nat, p: nat, e: nat)
    requires k <= |vs| && p <= |input|
    decreases |vs| - k, 1
  {
    if k == |vs| then p == e else ReadsNext(input, vs, k, p, e)
  }

  /** The item at `p` decodes to `vs[k]`, and the rest from where it stops. */
  predicate ReadsNext(input: Bytes, vs: seq<Option<Bytes>>, k: nat, p: nat, e: nat)
    requires k < |vs| && p <= |input|
    decreases |vs| - k, 0
  {
    ReadData(input, p).Ok? && ReadData(input, p).value.value == vs[k] &&
    ReadsFrom(input, vs, k + 1, ReadData(input, p).value.next, e)
  }

  lemma ReadsFromCons(input: Bytes, vs: seq<Option<Bytes>>, k: nat, p: nat, p1: nat, e: nat)
    requires k < |vs| && p <= |input| && p1 <= |input|
    requires ReadData(input, p) == Ok(Step(vs[k], p1)) && ReadsFrom(input, vs, k + 1, p1, e)
    ensures ReadsFrom(input, vs, k, p, e)
  {
  }

  /** Items that decode one after the other are collected in order by `DataItems`. */
  lemma {:induction false} DataItemsReads(vs: seq<Option<Bytes>>, input: Bytes, k: nat, p: nat, e: nat)
    requires k <= |vs| && p <= |input| && ReadsFrom(input, vs, k, p, e)
    ensures DataItems(input, p, |vs| - k, vs[..k]) == Ok(Step(vs, e))
    decreases |vs| - k
  {
    if k == |vs| {
      assert vs[..k] == vs;
    } else {
      var s := ReadData(input, p).value;
      DataItemsStep(input, p, |vs| - k, vs[..k], s);
      assert vs[..k] + [s.value] == vs[..k + 1];
      DataItemsReads(vs, input, k + 1, s.next, e);
    }
  }

  // ---------------------------------------------------------------- pieces

  /** The pieces `fs[k..]` lie one after the other from `p`. */
  predicate PiecesAt(input: Bytes, p: nat, fs: seq<Bytes>, k: nat)
    requires k <= |fs|
    decreases |fs| - k
  {
    if k == |fs| then p <= |input|
    else At(input, p, fs[k]) && PiecesAt(input, p + |fs[k]|, fs, k + 1)
  }

  /** Where the concatenation of pieces lies, each piece lies in turn. */
  lemma {:induction false} ConcatAt(input: Bytes, p: nat, fs: seq<Bytes>, k: nat)
    requires k <= |fs| && At(input, p, Concat(fs, k))
    ensures PiecesAt(input, p, fs, k)
    decreases |fs| - k
  {
    if k < |fs| {
      AtSplit(input, p, fs[k], Concat(fs, k + 1));
      ConcatAt(input, p + |fs[k]|, fs, k + 1);
    }
  }

  /** The bulk frames of `vs[k..]`, written from `p`, are read back one after the other. */
  lemma {:induction false} BulkFramesRead(vs: seq<Option<Bytes>>, input: Bytes, k: nat, p: nat)
    requires k <= |vs| && (forall i :: k <= i < |vs| ==> Fits(vs[i]))
    requires PiecesAt(input, p, BulkFrameList(vs), k)
    ensures p <= |input| && ReadsFrom(input, vs, k, p, p + |Concat(BulkFrameList(vs), k)|)
    decreases |vs| - k
  {
    if k < |vs| {
      var fs := BulkFrameList(vs);
      BulkFramesRead(vs, input, k + 1, p + |fs[k]|);
      BulkFrameThenRest(vs, input, k, p, p + |fs[k]|, p + |Concat(fs, k)|);
    }
  }

  /** One bulk frame at `p`, and the rest decoding from where it ends, decode from `p`. */
  lemma BulkFrameThenRest(vs: seq<Option<Bytes>>, input: Bytes, k: nat, p: nat, p1: nat, e: nat)
    requires k < |vs| && Fits(vs[k]) && At(input, p, BulkFrame(vs[k])) && p1 == p + |BulkFrame(vs[k])|
    requires p1 <= |input| && ReadsFrom(input, vs, k + 1, p1, e)
    ensures ReadsFrom(input, vs, k, p, e)
  {
    ReadDataFrame(vs[k], input, p);
    ReadsFromCons(input, vs, k, p, p1, e);
  }

  /** `*n` followed by n bulk frames decodes to exactly those n values, in stream order, nil ones included. */
  lemma MultiDataFrame(vs: seq<Option<Bytes>>, input: Bytes, pos: nat)
    requires |vs| <= Numeric.INT32_MAX && forall i :: 0 <= i < |vs| ==> Fits(vs[i])
    requires At(input, pos, MultiBulkFrame(vs))
    ensures MultiData(input, pos) == Ok(Step(vs, pos + |MultiBulkFrame(vs)|))
  {
    var q := CountLine(STAR, |vs|, Concat(BulkFrameList(vs), 0), input, pos);
    var e := BulkFramesDecode(vs, input, q);
    MultiDataCollect(vs, input, pos, Numeric.Decimal(|vs|), q, e);
  }

  /** The bulk frames of `vs`, written from `q`, decode one after the other and end at `e`. */
  lemma BulkFramesDecode(vs: seq<Option<Bytes>>, input: Bytes, q: nat) returns (e: nat)
    requires forall i :: 0 <= i < |vs| ==> Fits(vs[i])
    requires At(input, q, Concat(BulkFrameList(vs), 0))
    ensures q <= |input| && e == q + |Concat(BulkFrameList(vs), 0)| && ReadsFrom(input, vs, 0, q, e)
  {
    ConcatAt(input, q, BulkFrameList(vs), 0);
    BulkFramesRead(vs, input, 0, q);
    e := q + |Concat(BulkFrameList(vs), 0)|;
  }

  /** A count line for n items, followed by n items that decode one after the other, is the whole reply. */
  lemma MultiDataCollect(vs: seq<Option<Bytes>>, input: Bytes, pos: nat, d: Bytes, q: nat, e: nat)
    requires pos < |input| && input[pos] == STAR && q <= |input|
    requires LineAt(input, pos + 1) == Step(d, q)
    requires Numeric.TryParse(d, Numeric.INT32_MIN, Numeric.INT32_MAX) == Some(|vs|)
    requires ReadsFrom(input, vs, 0, q, e)
    ensures MultiData(input, pos) == Ok(Step(vs, e))
  {
    DataItemsReads(vs, input, 0, q, e);
    assert vs[..0] == [];
    MultiDataOfCount(input, pos, d, q, |vs|, Ok(Step(vs, e)));
  }

  // ---------------------------------------------------------------- nested replies

  /**
   * `NestedItem` from `p` decodes `ts[k]`, the next one from where that one
   * stopped decodes `ts[k + 1]`, and so on; the last one stops at `e`.
   */
  predicate NestedReadsFrom(input: Bytes, ts: seq<Nested>, k: nat, p: nat, e: nat)
    requires k <= |ts| && p <= |input|
    decreases |ts| - k, 1
  {
    if k == |ts| then p == e else NestedReadsNext(input, ts, k, p, e)
  }

  /** The item at `p` decodes to `ts[k]`, and the rest from where it stops. */
  predicate NestedReadsNext(input: Bytes, ts: seq<Nested>, k: nat, p: nat, e: nat)
    requires k < |ts| && p <= |input|
    decreases |ts| - k, 0
  {
    NestedItem(input, p).Ok? && NestedItem(input, p).value.value == ts[k] &&
    NestedReadsFrom(input, ts, k + 1, NestedItem(input, p).value.next, e)
  }

  /** Items that decode one after the other are collected in order by `NestedItems`. */
  lemma {:induction false} NestedItemsReads(ts: seq<Nested>, input: Bytes, k: nat, p: nat, e: nat)
    requires k <= |ts| && p <= |input| && NestedReadsFrom(input, ts, k, p, e)
    ensures NestedItems(input, p, |ts| - k, ts[..k]) == Ok(Step(ts, e))
    decreases |ts| - k
  {
    if k == |ts| {
      assert ts[..k] == ts;
    } else {
      var s := NestedItem(input, p).value;
      NestedItemsStep(input, p, |ts| - k, ts[..k], s);
      assert ts[..k] + [s.value] == ts[..k + 1];
      NestedItemsReads(ts, input, k + 1, s.next, e);
    }
  }

  lemma NestedBulkFrame(t: Nested, input: Bytes, pos: nat)
    requires t.Bulk? && Encodable(t) && At(input, pos, NestedFrame(t))
    ensures NestedItem(input, pos) == Ok(Step(t, pos + |NestedFrame(t)|))
  {
    assert NestedFrame(t) == BulkFrame(t.data);
    assert input[pos] == BulkFrame(t.data)[0] == DOLLAR;
    ReadDataFrame(t.data, input, pos);
    NestedBulkIsReadData(input, pos);
  }

  lemma NestedLineFrame(t: Nested, input: Bytes, pos: nat)
    requires t.Line? && Encodable(t) && At(input, pos, NestedFrame(t))
    ensures NestedItem(input, pos) == Ok(Step(t, pos + |NestedFrame(t)|))
  {
    var s := t.text;
    assert NestedFrame(t) == [PLUS] + (s + CRLF);
    AtLead(input, pos, PLUS, s + CRLF);
    LineAtFramed(input, pos + 1, s);
    NestedItemOfLine(input, pos, s, pos + 1 + |s| + 2);
  }

  /**
   * The nested decoder reads back every frame of the writer: `*n` gives n
   * recursively decoded children in order, `$` a bulk leaf and `+` the rest
   * of its line as a text leaf.
   */
  lemma {:induction false} NestedItemFrame(t: Nested, input: Bytes, pos: nat)
    requires Encodable(t) && At(input, pos, NestedFrame(t))
    ensures NestedItem(input, pos) == Ok(Step(t, pos + |NestedFrame(t)|))
    decreases t, 2
  {
    if t.Bulk? {
      NestedBulkFrame(t, input, pos);
    } else if t.Line? {
      NestedLineFrame(t, input, pos);
    } else {
      NestedArrayFrame(t, input, pos);
    }
  }

  lemma {:induction false} NestedArrayFrame(t: Nested, input: Bytes, pos: nat)
    requires t.Array? && Encodable(t) && At(input, pos, NestedFrame(t))
    ensures NestedItem(input, pos) == Ok(Step(t, pos + |NestedFrame(t)|))
    decreases t, 1
  {
    assert t == Array(t.items);
    var q := CountLine(STAR, |t.items|, Concat(NestedFrameList(t.items), 0), input, pos);
    var e := NestedFramesDecode(t.items, input, q);
    NestedArrayCollect(t.items, input, pos, Numeric.Decimal(|t.items|), q, e);
  }

  /** The nested frames of `ts`, written from `q`, decode one after the other and end at `e`. */
  lemma {:induction false} NestedFramesDecode(ts: seq<Nested>, input: Bytes, q: nat) returns (e: nat)
    requires forall i :: 0 <= i < |ts| ==> Encodable(ts[i])
    requires At(input, q, Concat(NestedFrameList(ts), 0))
    ensures q <= |input| && e == q + |Concat(NestedFrameList(ts), 0)| && NestedReadsFrom(input, ts, 0, q, e)
    decreases ts, |ts| + 1, 0
  {
    ConcatAt(input, q, NestedFrameList(ts), 0);
    NestedFramesRead(ts, input, 0, q);
    e := q + |Concat(NestedFrameList(ts), 0)|;
  }

  /** A count line for n items, followed by n nested items that decode one after the other, is the whole array. */
  lemma NestedArrayCollect(ts: seq<Nested>, input: Bytes, pos: nat, d: Bytes, q: nat, e: nat)
    requires pos < |input| && input[pos] == STAR && q <= |input|
    requires LineAt(input, pos + 1) == Step(d, q)
    requires Numeric.TryParse(d, Numeric.INT32_MIN, Numeric.INT32_MAX) == Some(|ts|)
    requires NestedReadsFrom(input, ts, 0, q, e)
    ensures NestedItem(input, pos) == Ok(Step(Array(ts), e))
  {
    NestedItemsReads(ts, input, 0, q, e);
    assert ts[..0] == [];
    NestedItemOfCount(input, pos, d, q, |ts|, ts, e);
  }

  /** The nested frames of `ts[k..]`, written from `p`, are read back one after the other. */
  lemma {:induction false} NestedFramesRead(ts: seq<Nested>, input: Bytes, k: nat, p: nat)
    requires k <= |ts| && (forall i :: k <= i < |ts| ==> Encodable(ts[i]))
    requires PiecesAt(input, p, NestedFrameList(ts), k)
    ensures p <= |input| && NestedReadsFrom(input, ts, k, p, p + |Concat(NestedFrameList(ts), k)|)
    decreases ts, |ts| - k, 1
  {
    if k < |ts| {
      var p1 := p + |NestedFrameList(ts)[k]|;
      NestedFramesRead(ts, input, k + 1, p1);
      NestedFrameThenRest(ts, input, k, p, p1, p + |Concat(NestedFrameList(ts), k)|);
    }
  }

  /** One nested frame at `p`, and the rest decoding from where it ends, decode from `p`. */
  lemma {:induction false} NestedFrameThenRest(ts: seq<Nested>, input: Bytes, k: nat, p: nat, p1: nat, e: nat)
    requires k < |ts| && Encodable(ts[k]) && At(input, p, NestedFrame(ts[k])) && p1 == p + |NestedFrame(ts[k])|
    requires p1 <= |input| && NestedReadsFrom(input, ts, k + 1, p1, e)
    ensures NestedReadsFrom(input, ts, k, p, e)
    decreases ts, |ts| - k, 0
  {
    NestedItemFrame(ts[k], input, p);
    assert NestedReadsNext(input, ts, k, p, e);
  }
}
