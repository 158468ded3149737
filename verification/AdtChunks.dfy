/**
 The chunk layer of an ADT file: a file is a run of chunks, each a four-byte tag (held
 as the little-endian word those bytes spell), a payload length and the payload.
 */
module AdtChunks {
  import opened Bytes

  /** A parsed chunk: its tag, its payload and the file offset its header starts at. */
  datatype Chunk = Chunk(tag: uint32, data: bytes, pos: nat)

  /** The chunks of `b` from offset `p` on, or None where the original raises. */
  function ChunksFrom(b: bytes, p: nat): (r: Option<seq<Chunk>>)
    requires p <= |b|
    decreases |b| - p
  {
    if p == |b| then Some([])
    else if p + 8 > |b| then None
    else
      var n := U32(b, p + 4);
      if p + 8 + n > |b| then None
      else
        var rest := ChunksFrom(b, p + 8 + n);
        if rest.None? then None
        else Some([Chunk(U32(b, p), b[p + 8..p + 8 + n], p)] + rest.value)
  }

  function Chunks(b: bytes): (r: Option<seq<Chunk>>) {
    ChunksFrom(b, 0)
  }

  /** Every payload length fits its 32-bit field. */
  predicate Storable(cs: seq<Chunk>) {
    forall i :: 0 <= i < |cs| ==> |cs[i].data| < TWO32
  }

  function Encode(cs: seq<Chunk>): (b: bytes)
    requires Storable(cs)
  {
    if cs == [] then []
    else Pack32(cs[0].tag) + Pack32(|cs[0].data|) + cs[0].data + Encode(cs[1..])
  }

  lemma {:induction false} EncodeAppend(cs: seq<Chunk>, c: Chunk)
    requires Storable(cs) && |c.data| < TWO32
    ensures Storable(cs + [c])
    ensures Encode(cs + [c]) == Encode(cs) + (Pack32(c.tag) + Pack32(|c.data|) + c.data)
  {
    hide Pack32;
    var one := Pack32(c.tag) + Pack32(|c.data|) + c.data;
    if cs == [] {
      assert cs + [c] == [c];
      assert [c][1..] == [];
      assert one + [] == one;
    } else {
      var head, rest := Pack32(cs[0].tag) + Pack32(|cs[0].data|) + cs[0].data, Encode(cs[1..]);
      EncodeAppend(cs[1..], c);
      assert (cs + [c])[1..] == cs[1..] + [c];
      assert head + (rest + one) == head + rest + one;
    }
  }

  /** Bytes occupied by the first `k` chunks. */
  function Offset(cs: seq<Chunk>, k: nat): (n: nat)
    requires k <= |cs|
  {
    if k == 0 then 0 else Offset(cs, k - 1) + 8 + |cs[k - 1].data|
  }

  /** The same tags and payloads, each at the offset it has when written from `at` on. */
  function Placed(cs: seq<Chunk>, at: nat): (r: seq<Chunk>)
    ensures |r| == |cs|
  {
    if cs == [] then []
    else [Chunk(cs[0].tag, cs[0].data, at)] + Placed(cs[1..], at + 8 + |cs[0].data|)
  }

  lemma {:induction false} OffsetTail(cs: seq<Chunk>, k: nat)
    requires 0 < k <= |cs|
    ensures Offset(cs, k) == 8 + |cs[0].data| + Offset(cs[1..], k - 1)
  {
    if k > 1 {
      OffsetTail(cs, k - 1);
    }
  }

  lemma {:induction false} PlacedAt(cs: seq<Chunk>, at: nat, k: nat)
    requires k < |cs|
    ensures Placed(cs, at)[k] == Chunk(cs[k].tag, cs[k].data, at + Offset(cs, k))
  {
    if k > 0 {
      PlacedAt(cs[1..], at + 8 + |cs[0].data|, k - 1);
      OffsetTail(cs, k);
    }
  }

  lemma FirstChunk(pre: bytes, tag: uint32, data: bytes, rest: bytes)
    requires |data| < TWO32
    ensures var b, p := pre + (Pack32(tag) + Pack32(|data|) + data) + rest, |pre|;
            && U32(b, p) == tag
            && U32(b, p + 4) == |data|
            && b[p + 8..p + 8 + |data|] == data
  {
    hide Value, Digits;
    var b, p := pre + (Pack32(tag) + Pack32(|data|) + data) + rest, |pre|;
    assert b[p..p + 4] == Pack32(tag);
    assert b[p + 4..p + 8] == Pack32(|data|);
  }

  lemma ParseStep(b: bytes, c: Chunk, rest: seq<Chunk>)
    requires c.pos + 8 + |c.data| <= |b|
    requires U32(b, c.pos) == c.tag && U32(b, c.pos + 4) == |c.data|
    requires b[c.pos + 8..c.pos + 8 + |c.data|] == c.data
    requires ChunksFrom(b, c.pos + 8 + |c.data|) == Some(rest)
    ensures ChunksFrom(b, c.pos) == Some([c] + rest)
  {
    hide Value;
  }

  /** Parsing what was written gives back the chunks, numbered by their new offsets. */
  lemma {:induction false} ParseAfterEncode(pre: bytes, cs: seq<Chunk>, b: bytes)
    requires Storable(cs) && b == pre + Encode(cs)
    ensures ChunksFrom(b, |pre|) == Some(Placed(cs, |pre|))
    decreases |cs|
  {
    hide Value, Digits;
    if cs != [] {
      var c, tail := cs[0], cs[1..];
      var head := Pack32(c.tag) + Pack32(|c.data|) + c.data;
      var end := Encode(tail);
      assert b == pre + head + end;
      FirstChunk(pre, c.tag, c.data, end);
      var next := pre + head;
      ParseAfterEncode(next, tail, b);
      ParseStep(b, Chunk(c.tag, c.data, |pre|), Placed(tail, |next|));
    }
  }

  lemma ChunksOfEncode(cs: seq<Chunk>)
    requires Storable(cs)
    ensures Chunks(Encode(cs)) == Some(Placed(cs, 0))
  {
    ParseAfterEncode([], cs, Encode(cs));
  }

  /** Writing what was parsed gives back the file, and the recorded offsets are cumulative. */
  lemma {:induction false} EncodeAfterParse(b: bytes, p: nat)
    requires p <= |b| && ChunksFrom(b, p).Some?
    ensures Storable(ChunksFrom(b, p).value)
    ensures Encode(ChunksFrom(b, p).value) == b[p..]
    ensures Placed(ChunksFrom(b, p).value, p) == ChunksFrom(b, p).value
    decreases |b| - p
  {
    hide Value, Digits;
    if p < |b| {
      var n := U32(b, p + 4);
      EncodeAfterParse(b, p + 8 + n);
      DigitsValue(b[p..p + 4]);
      DigitsValue(b[p + 4..p + 8]);
      var cs := ChunksFrom(b, p).value;
      assert cs[1..] == ChunksFrom(b, p + 8 + n).value;
      assert b[p..] == b[p..p + 4] + b[p + 4..p + 8] + b[p + 8..p + 8 + n] + b[p + 8 + n..];
    }
  }

  lemma EncodeOfChunks(b: bytes)
    requires Chunks(b).Some?
    ensures Storable(Chunks(b).value)
    ensures Encode(Chunks(b).value) == b
    ensures Placed(Chunks(b).value, 0) == Chunks(b).value
  {
    EncodeAfterParse(b, 0);
    assert b[0..] == b;
  }

  lemma {:induction false} OffsetsIncrease(cs: seq<Chunk>, i: nat, j: nat)
    requires i < j <= |cs|
    ensures Offset(cs, i) + 8 + |cs[i].data| <= Offset(cs, j)
  {
    if i < j - 1 {
      OffsetsIncrease(cs, i, j - 1);
    }
  }

  /** The parsed offset of chunk `k` is the number of bytes before it. */
  lemma ParsedPos(b: bytes, k: nat)
    requires Chunks(b).Some? && k < |Chunks(b).value|
    ensures Chunks(b).value[k].pos == Offset(Chunks(b).value, k)
  {
    EncodeOfChunks(b);
    PlacedAt(Chunks(b).value, 0, k);
  }
}
