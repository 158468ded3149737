/**
 The file layer of the patcher: after payloads have grown, every offset held by the file
 header (MHDR) and by the cell index (MCIN) is rebased to the new position of its chunk.
 */
module AdtFile {
  import opened Bytes
  import opened AdtChunks
  import opened AdtMcnk

  const MHDR: uint32 := 0x4D48_4452   // tag bytes "RDHM"
  const MCIN: uint32 := 0x4D43_494E   // "NICM"
  const MCNK: uint32 := 0x4D43_4E4B   // "KNCM"

  /** range(4, 44, 4): the ten offset words of MHDR. */
  function HeaderWords(): (r: seq<nat>)
    ensures |r| == 10
    ensures forall i :: 0 <= i < 10 ==> r[i] == 4 + 4 * i
  {
    seq(10, i requires 0 <= i < 10 => 4 + 4 * i)
  }

  /** range(0, n, 16): the cells of an MCIN payload of `n` bytes. */
  function CellWords(n: nat): (r: seq<nat>)
    ensures |r| == (n + 15) / 16
    ensures forall i :: 0 <= i < |r| ==> r[i] == 16 * i
  {
    seq((n + 15) / 16, i requires 0 <= i < (n + 15) / 16 => 16 * i)
  }

  /** No two chunks were read from the same offset. */
  ghost predicate DistinctPos(cs: seq<Chunk>) {
    forall i, j :: 0 <= i < j < |cs| ==> cs[i].pos != cs[j].pos
  }

  /** New offset of each of the first `n` chunks, by the offset it was read from. */
  function NewOffsets(cs: seq<Chunk>, n: nat): (r: map<nat, nat>)
    requires n <= |cs|
    ensures forall t :: t in r ==> exists k :: 0 <= k < n && cs[k].pos == t && r[t] == Offset(cs, k)
  {
    if n == 0 then map[] else NewOffsets(cs, n - 1)[cs[n - 1].pos := Offset(cs, n - 1)]
  }

  lemma {:induction false} OffsetsKeys(cs: seq<Chunk>, n: nat, k: nat)
    requires k < n <= |cs|
    ensures cs[k].pos in NewOffsets(cs, n)
  {
    hide Offset;
    if k < n - 1 {
      OffsetsKeys(cs, n - 1, k);
    }
  }

  lemma {:induction false} OffsetsHave(cs: seq<Chunk>, k: nat)
    requires k < |cs| && DistinctPos(cs)
    ensures cs[k].pos in NewOffsets(cs, |cs|) && NewOffsets(cs, |cs|)[cs[k].pos] == Offset(cs, k)
  {
    hide Offset, NewOffsets;
    OffsetsKeys(cs, |cs|, k);
    var j :| 0 <= j < |cs| && cs[j].pos == cs[k].pos && NewOffsets(cs, |cs|)[cs[k].pos] == Offset(cs, j);
    assert j == k;
  }

  /** Size, with its header, of each map chunk among the first `n`, by the offset it was read from. */
  function CellSizes(cs: seq<Chunk>, n: nat): (r: map<nat, nat>)
    requires n <= |cs|
    ensures forall t :: t in r ==> exists k :: 0 <= k < n && cs[k].pos == t && cs[k].tag == MCNK && r[t] == |cs[k].data| + 8
  {
    if n == 0 then map[]
    else if cs[n - 1].tag == MCNK then CellSizes(cs, n - 1)[cs[n - 1].pos := |cs[n - 1].data| + 8]
    else CellSizes(cs, n - 1)
  }

  /** The rebased form of an MHDR word that counted from behind a header at `oldPos`, now at `newPos`. */
  function HeaderWord(offsets: map<nat, nat>, oldPos: nat, newPos: nat, v: uint32): (r: Option<bytes>)
    ensures r.Some? ==> |r.value| == 4
  {
    var t := v + (oldPos + 8);
    if t !in offsets then None
    else
      var n := offsets[t] - (newPos + 8);
      if 0 <= n < TWO32 then Some(Pack32(n)) else None
  }

  /** The rebased form (offset and size) of an MCIN cell that addressed the map chunk at `v`. */
  function CellWord(offsets: map<nat, nat>, sizes: map<nat, nat>, v: uint32): (r: Option<bytes>)
    ensures r.Some? ==> |r.value| == 8
  {
    if v !in offsets || v !in sizes || offsets[v] >= TWO32 || sizes[v] >= TWO32 then None
    else Some(Pack32(offsets[v]) + Pack32(sizes[v]))
  }

  function HeaderRebaser(offsets: map<nat, nat>, oldPos: nat, newPos: nat): (g: uint32 -> Option<bytes>)
    ensures Width(g, 4)
    ensures forall v :: g(v) == HeaderWord(offsets, oldPos, newPos, v)
  {
    (v: uint32) => HeaderWord(offsets, oldPos, newPos, v)
  }

  function CellRebaser(offsets: map<nat, nat>, sizes: map<nat, nat>): (g: uint32 -> Option<bytes>)
    ensures Width(g, 8)
    ensures forall v :: g(v) == CellWord(offsets, sizes, v)
  {
    (v: uint32) => CellWord(offsets, sizes, v)
  }

  /** The index of the last chunk tagged `tag`. */
  function LastOf(cs: seq<Chunk>, tag: uint32): (r: Option<nat>)
    ensures r.Some? ==> r.value < |cs| && cs[r.value].tag == tag
    ensures r.Some? ==> forall k :: r.value < k < |cs| ==> cs[k].tag != tag
    ensures r.None? ==> forall k :: 0 <= k < |cs| ==> cs[k].tag != tag
  {
    if cs == [] then None
    else if cs[|cs| - 1].tag == tag then Some(|cs| - 1)
    else LastOf(cs[..|cs| - 1], tag)
  }

  /** The index of the first chunk tagged `tag`. */
  function FirstOf(cs: seq<Chunk>, tag: uint32): (r: Option<nat>)
    ensures r.Some? ==> r.value < |cs| && cs[r.value].tag == tag
    ensures r.Some? ==> forall k :: 0 <= k < r.value ==> cs[k].tag != tag
    ensures r.None? ==> forall k :: 0 <= k < |cs| ==> cs[k].tag != tag
  {
    if cs == [] then None
    else if cs[0].tag == tag then Some(0)
    else
      var r := FirstOf(cs[1..], tag);
      if r.None? then None else Some(r.value + 1)
  }

  function WithData(cs: seq<Chunk>, k: nat, d: bytes): (r: seq<Chunk>)
    requires k < |cs|
    ensures |r| == |cs|
  {
    cs[k := cs[k].(data := d)]
  }

  /**
   The chunks with MHDR and MCIN rebased. The header rewritten is the last MHDR while the
   base its words count from is the first, and MCIN is the last one, as in the original.
   */
  function Rebase(cs: seq<Chunk>): (r: Option<seq<Chunk>>) {
    var h0, h, m := FirstOf(cs, MHDR), LastOf(cs, MHDR), LastOf(cs, MCIN);
    if h.None? || h0.None? || m.None? then None
    else
      var offsets, sizes := NewOffsets(cs, |cs|), CellSizes(cs, |cs|);
      var hdr := Rewrite(cs[h.value].data, HeaderWords(), 4, HeaderRebaser(offsets, cs[h0.value].pos, Offset(cs, h0.value)));
      var cells := Rewrite(cs[m.value].data, CellWords(|cs[m.value].data|), 8, CellRebaser(offsets, sizes));
      if hdr.None? || cells.None? then None
      else Some(WithData(WithData(cs, h.value, hdr.value), m.value, cells.value))
  }

  // ---- what rebasing preserves --------------------------------------------------------

  /** Chunk lists that agree in tags and payload lengths. */
  ghost predicate SameShape(a: seq<Chunk>, b: seq<Chunk>) {
    |a| == |b| && forall k :: 0 <= k < |a| ==> a[k].tag == b[k].tag && |a[k].data| == |b[k].data|
  }

  lemma {:induction false} SameOffsets(a: seq<Chunk>, b: seq<Chunk>, k: nat)
    requires SameShape(a, b) && k <= |a|
    ensures Offset(a, k) == Offset(b, k)
  {
    if k > 0 {
      SameOffsets(a, b, k - 1);
    }
  }

  /** MHDR and MCIN each occur once. */
  ghost predicate OneOf(cs: seq<Chunk>, tag: uint32, k: nat) {
    k < |cs| && forall i :: 0 <= i < |cs| ==> (cs[i].tag == tag <==> i == k)
  }

  lemma OneIsFirstAndLast(cs: seq<Chunk>, tag: uint32, k: nat)
    requires OneOf(cs, tag, k)
    ensures FirstOf(cs, tag) == Some(k) && LastOf(cs, tag) == Some(k)
  {
    assert cs[k].tag == tag;
  }

  lemma RebaseParts(cs: seq<Chunk>, rs: seq<Chunk>, h: nat, m: nat)
    requires OneOf(cs, MHDR, h) && OneOf(cs, MCIN, m) && Rebase(cs) == Some(rs)
    ensures SameShape(cs, rs) && h != m
    ensures Rewrite(cs[h].data, HeaderWords(), 4, HeaderRebaser(NewOffsets(cs, |cs|), cs[h].pos, Offset(cs, h))) == Some(rs[h].data)
    ensures Rewrite(cs[m].data, CellWords(|cs[m].data|), 8, CellRebaser(NewOffsets(cs, |cs|), CellSizes(cs, |cs|))) == Some(rs[m].data)
    ensures forall k :: 0 <= k < |cs| && k != h && k != m ==> rs[k].data == cs[k].data
  {
    hide Rewrite, HeaderRebaser, CellRebaser, Offset, LastOf, FirstOf, HeaderWords, CellWords;
    OneIsFirstAndLast(cs, MHDR, h);
    OneIsFirstAndLast(cs, MCIN, m);
    assert cs[h].tag != cs[m].tag;
  }

  /** A word of MHDR that addressed a chunk addresses the same chunk in the rebased list. */
  lemma {:induction false} HeaderRebased(cs: seq<Chunk>, rs: seq<Chunk>, h: nat, m: nat, i: nat) returns (k: nat)
    requires OneOf(cs, MHDR, h) && OneOf(cs, MCIN, m) && Rebase(cs) == Some(rs) && i < 10
    ensures |rs| == |cs| && 4 * i + 8 <= |cs[h].data| == |rs[h].data|
    ensures U32(cs[h].data, 4 + 4 * i) == 0 ==> U32(rs[h].data, 4 + 4 * i) == 0
    ensures U32(cs[h].data, 4 + 4 * i) != 0 ==>
              && k < |cs| && cs[k].pos == cs[h].pos + 8 + U32(cs[h].data, 4 + 4 * i)
              && Offset(rs, k) == Offset(rs, h) + 8 + U32(rs[h].data, 4 + 4 * i)
  {
    hide Rewrite, Value, Rebase, Offset, HeaderRebaser, NewOffsets;
    RebaseParts(cs, rs, h, m);
    k := 0;
    var g := HeaderRebaser(NewOffsets(cs, |cs|), cs[h].pos, Offset(cs, h));
    var offs := HeaderWords();
    RewriteAt(cs[h].data, offs, 4, g, i, rs[h].data);
    var v := U32(cs[h].data, offs[i]);
    if v != 0 {
      assert v + (cs[h].pos + 8) in NewOffsets(cs, |cs|);
      k :| 0 <= k < |cs| && cs[k].pos == v + (cs[h].pos + 8) && NewOffsets(cs, |cs|)[v + (cs[h].pos + 8)] == Offset(cs, k);
      SameOffsets(cs, rs, k);
      SameOffsets(cs, rs, h);
    }
  }

  lemma RewordedCell(cs: seq<Chunk>, v: uint32, w: bytes) returns (k: nat)
    requires DistinctPos(cs) && CellWord(NewOffsets(cs, |cs|), CellSizes(cs, |cs|), v) == Some(w)
    ensures k < |cs| && cs[k].tag == MCNK && cs[k].pos == v && |w| == 8
    ensures U32(w, 0) == Offset(cs, k) && U32(w, 4) == |cs[k].data| + 8
  {
    hide Value, Offset, Digits, NewOffsets, CellSizes;
    var offsets, sizes := NewOffsets(cs, |cs|), CellSizes(cs, |cs|);
    k :| 0 <= k < |cs| && cs[k].pos == v && offsets[v] == Offset(cs, k);
    var j :| 0 <= j < |cs| && cs[j].pos == v && cs[j].tag == MCNK && sizes[v] == |cs[j].data| + 8;
    assert j == k;
    assert w[0..4] == Pack32(offsets[v]) && w[4..8] == Pack32(sizes[v]);
  }

  /** A cell of MCIN that addressed a map chunk addresses the same map chunk, with its new size. */
  lemma {:induction false} CellRebased(cs: seq<Chunk>, rs: seq<Chunk>, h: nat, m: nat, i: nat) returns (k: nat)
    requires OneOf(cs, MHDR, h) && OneOf(cs, MCIN, m) && DistinctPos(cs) && Rebase(cs) == Some(rs)
    requires i < |CellWords(|cs[m].data|)|
    ensures |rs| == |cs| && 16 * i + 4 <= |cs[m].data| == |rs[m].data|
    ensures U32(cs[m].data, 16 * i) == 0 ==> U32(rs[m].data, 16 * i) == 0
    ensures U32(cs[m].data, 16 * i) != 0 ==>
              && k < |cs| && cs[k].tag == MCNK && cs[k].pos == U32(cs[m].data, 16 * i)
              && Offset(rs, k) == U32(rs[m].data, 16 * i)
              && 16 * i + 8 <= |rs[m].data| && U32(rs[m].data, 16 * i + 4) == |rs[k].data| + 8
  {
    hide Rewrite, Value, Rebase, Offset, CellRebaser, CellWord, NewOffsets, CellSizes, DistinctPos;
    RebaseParts(cs, rs, h, m);
    k := 0;
    var offs, d := CellWords(|cs[m].data|), rs[m].data;
    RewriteAt(cs[m].data, offs, 8, CellRebaser(NewOffsets(cs, |cs|), CellSizes(cs, |cs|)), i, d);
    var o := offs[i];
    var v := U32(cs[m].data, o);
    if v != 0 {
      k := RewordedCell(cs, v, d[o..o + 8]);
      SameOffsets(cs, rs, k);
      SliceOfSlice(d, o, 8, 0, 4);
      SliceOfSlice(d, o, 8, 4, 4);
    }
  }
}
