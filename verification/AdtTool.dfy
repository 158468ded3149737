/**
 The patcher as it runs: chunk records whose payloads are edited in place, reached both
 through the chunk list and through a dictionary by tag that shares the same records.
 */
module AdtTool {
  import opened Bytes
  import opened AdtChunks
  import opened AdtMcnk
  import opened AdtFile
  import opened AdtPatch

  class ChunkRec {
    const tag: uint32
    const pos: nat
    var data: bytes

    constructor (tag: uint32, data: bytes, pos: nat)
      ensures this.tag == tag && this.data == data && this.pos == pos
    {
      this.tag, this.data, this.pos := tag, data, pos;
    }
  }

  /** The values a list of records holds. */
  function View(cs: seq<ChunkRec>): (r: seq<Chunk>)
    reads cs
    ensures |r| == |cs|
    ensures forall i :: 0 <= i < |cs| ==> r[i] == Chunk(cs[i].tag, cs[i].data, cs[i].pos)
  {
    if cs == [] then []
    else
      var c := cs[|cs| - 1];
      View(cs[..|cs| - 1]) + [Chunk(c.tag, c.data, c.pos)]
  }

  /** Chunks already read, followed by the rest if that parses. */
  ghost function Join(done: seq<Chunk>, rest: Option<seq<Chunk>>): (r: Option<seq<Chunk>>) {
    if rest.None? then None else Some(done + rest.value)
  }

  lemma JoinStep(b: bytes, p: nat, done: seq<Chunk>)
    requires p + 8 <= |b| && p + 8 + U32(b, p + 4) <= |b|
    ensures var n := U32(b, p + 4);
            Join(done, ChunksFrom(b, p)) ==
            Join(done + [Chunk(U32(b, p), b[p + 8..p + 8 + n], p)], ChunksFrom(b, p + 8 + n))
  {
    hide U32;
    var n := U32(b, p + 4);
    var rest := ChunksFrom(b, p + 8 + n);
    var c := Chunk(U32(b, p), b[p + 8..p + 8 + n], p);
    if rest.Some? {
      assert done + ([c] + rest.value) == done + [c] + rest.value;
    }
  }

  lemma JoinEnds(b: bytes, p: nat, done: seq<Chunk>)
    requires p <= |b|
    ensures Chunks(b) == Join([], ChunksFrom(b, 0))
    ensures p == |b| ==> Join(done, ChunksFrom(b, p)) == Some(done)
    ensures p < |b| && (p + 8 > |b| || p + 8 + U32(b, p + 4) > |b|) ==> Join(done, ChunksFrom(b, p)).None?
  {
    hide U32;
    var all := ChunksFrom(b, 0);
    assert all.Some? ==> [] + all.value == all.value;
    assert done + [] == done;
  }

  lemma ViewAppend(cs: seq<ChunkRec>, c: ChunkRec)
    ensures View(cs + [c]) == View(cs) + [Chunk(c.tag, c.data, c.pos)]
  {
    assert (cs + [c])[..|cs|] == cs;
  }

  method ParseChunks(b: bytes) returns (ok: bool, cs: seq<ChunkRec>)
    ensures ok <==> Chunks(b).Some?
    ensures ok ==> View(cs) == Chunks(b).value
    ensures Distinct(cs) && fresh(cs)
  {
    hide U32, ChunksFrom, Join, Chunks;
    var p := 0;
    cs := [];
    JoinEnds(b, 0, []);
    while p < |b|
      invariant p <= |b| && Distinct(cs) && fresh(cs)
      invariant Chunks(b) == Join(View(cs), ChunksFrom(b, p))
      decreases |b| - p
    {
      JoinEnds(b, p, View(cs));
      if p + 8 > |b| {
        return false, cs;
      }
      var tag, n := U32(b, p), U32(b, p + 4);
      if p + 8 + n > |b| {
        return false, cs;
      }
      JoinStep(b, p, View(cs));
      var c := new ChunkRec(tag, b[p + 8..p + 8 + n], p);
      ViewAppend(cs, c);
      cs := cs + [c];
      p := p + 8 + n;
    }
    JoinEnds(b, p, View(cs));
    return true, cs;
  }

  /** The last record of each tag other than MCNK: not a copy, the record itself. */
  method IndexByTag(cs: seq<ChunkRec>) returns (byTag: map<uint32, ChunkRec>)
    ensures forall t :: t in byTag <==> t != MCNK && LastOf(View(cs), t).Some?
    ensures forall t :: t in byTag ==> byTag[t] == cs[LastOf(View(cs), t).value]
  {
    byTag := map[];
    for i := 0 to |cs|
      invariant forall t :: t in byTag <==> t != MCNK && LastOf(View(cs)[..i], t).Some?
      invariant forall t :: t in byTag ==> byTag[t] == cs[LastOf(View(cs)[..i], t).value]
    {
      assert View(cs)[..i + 1][..i] == View(cs)[..i];
      if cs[i].tag != MCNK {
        byTag := byTag[cs[i].tag := cs[i]];
      }
    }
    assert View(cs)[..|cs|] == View(cs);
  }

  /** Any of the passes over the words of a payload, in place. */
  method RewriteInPlace(c: ChunkRec, offs: seq<nat>, w: nat, g: uint32 -> Option<bytes>) returns (ok: bool)
    requires Width(g, w)
    modifies c
    ensures ok <==> Rewrite(old(c.data), offs, w, g).Some?
    ensures ok ==> c.data == Rewrite(old(c.data), offs, w, g).value
  {
    hide Value;
    for i := 0 to |offs|
      invariant Rewrite(old(c.data), offs, w, g) == Rewrite(c.data, offs[i..], w, g)
    {
      var o := offs[i];
      assert offs[i..][1..] == offs[i + 1..];
      if o + 4 > |c.data| {
        return false;
      }
      var v := U32(c.data, o);
      if v != 0 {
        if g(v).None? || o + w > |c.data| {
          return false;
        }
        c.data := Overwrite(c.data, o, g(v).value);
      }
    }
    return true;
  }

  /** Splices `refs` into the cell `c`. */
  method SpliceInPlace(c: ChunkRec, refs: seq<uint32>) returns (ok: bool)
    modifies c
    ensures ok <==> Splice(old(c.data), refs, FIELDS).Some?
    ensures ok ==> c.data == Splice(old(c.data), refs, FIELDS).value
  {
    hide U32, Rewrite, Stitch, PackAll, Mover;
    if |c.data| < 116 {
      return false;
    }
    if refs == [] {
      return true;
    }
    var nD: int, nW: int, o: int := U32(c.data, 16), U32(c.data, 56), U32(c.data, 32);
    var rf := o - 8;
    if rf < 0 || rf + 8 > |c.data| || U32(c.data, rf) != MCRF || U32(c.data, rf + 4) != 4 * (nD + nW) {
      return false;
    }
    if 4 * (nD + nW + |refs|) >= TWO32 {
      return false;
    }
    var at := if rf + 8 + 4 * nD <= |c.data| then rf + 8 + 4 * nD else |c.data|;
    c.data := Stitch(c.data, at, PackAll(refs), rf, Pack32(nD + |refs|), Pack32(4 * (nD + nW + |refs|)));
    ok := RewriteInPlace(c, FIELDS, 4, Mover(o + 4 * nD, 4 * |refs|));
  }

  /** The file the records spell, unless a payload is too long for its length field. */
  method Serialize(cs: seq<ChunkRec>) returns (out: Option<bytes>)
    ensures out == if Storable(View(cs)) then Some(Encode(View(cs))) else None
  {
    var b: bytes := [];
    for i := 0 to |cs|
      invariant Storable(View(cs)[..i]) && b == Encode(View(cs)[..i])
    {
      var c := cs[i];
      if |c.data| >= TWO32 {
        assert View(cs)[i].data == c.data;
        return None;
      }
      assert View(cs)[..i + 1] == View(cs)[..i] + [View(cs)[i]];
      EncodeAppend(View(cs)[..i], View(cs)[i]);
      b := b + (Pack32(c.tag) + Pack32(|c.data|) + c.data);
    }
    assert View(cs)[..|cs|] == View(cs);
    return Some(b);
  }

  /** `byTag` reaches the last record of each tag but MCNK. */
  ghost predicate Indexed(cs: seq<ChunkRec>, byTag: map<uint32, ChunkRec>)
    reads cs
  {
    && (forall t :: t in byTag <==> t != MCNK && LastOf(View(cs), t).Some?)
    && (forall t :: t in byTag ==> byTag[t] == cs[LastOf(View(cs), t).value])
  }

  lemma LastOfSameTags(a: seq<Chunk>, b: seq<Chunk>, t: uint32)
    requires |a| == |b| && forall k :: 0 <= k < |a| ==> a[k].tag == b[k].tag
    ensures LastOf(a, t) == LastOf(b, t)
  {
    hide LastOf;
    var x, y := LastOf(a, t), LastOf(b, t);
    if x.Some? {
      assert b[x.value].tag == t;
    }
    if y.Some? {
      assert a[y.value].tag == t;
    }
  }

  /** Assigning one record's payload changes one element of every list that holds it. */
  method Store(cs: seq<ChunkRec>, c: ChunkRec, ghost k: nat, d: bytes)
    requires Distinct(cs) && k < |cs| && cs[k] == c
    modifies c
    ensures View(cs) == WithData(old(View(cs)), k, d)
  {
    hide View;
    c.data := d;
  }

  method RewriteChunk(cs: seq<ChunkRec>, c: ChunkRec, ghost k: nat, offs: seq<nat>, w: nat, g: uint32 -> Option<bytes>) returns (ok: bool)
    requires Distinct(cs) && k < |cs| && cs[k] == c && Width(g, w)
    modifies c
    ensures ok <==> Rewrite(old(View(cs))[k].data, offs, w, g).Some?
    ensures ok ==> View(cs) == WithData(old(View(cs)), k, Rewrite(old(View(cs))[k].data, offs, w, g).value)
  {
    hide View, Rewrite;
    ok := RewriteInPlace(c, offs, w, g);
  }

  method SpliceChunk(cs: seq<ChunkRec>, c: ChunkRec, ghost k: nat, refs: seq<uint32>) returns (ok: bool)
    requires Distinct(cs) && k < |cs| && cs[k] == c
    modifies c
    ensures ok <==> Splice(old(View(cs))[k].data, refs, FIELDS).Some?
    ensures ok ==> View(cs) == WithData(old(View(cs)), k, Splice(old(View(cs))[k].data, refs, FIELDS).value)
  {
    hide View, Splice;
    ok := SpliceInPlace(c, refs);
  }

  method AddPlacementsInPlace(cs: seq<ChunkRec>, byTag: map<uint32, ChunkRec>, name: bytes, sel: seq<Placement>) returns (ok: bool)
    requires Distinct(cs) && Indexed(cs, byTag)
    modifies cs
    ensures ok <==> AddPlacements(old(View(cs)), name, sel).Some?
    ensures ok ==> View(cs) == AddPlacements(old(View(cs)), name, sel).value
  {
    hide View, LastOf, AppendName, Records, IdsFree;
    if MMID !in byTag || MMDX !in byTag || MDDF !in byTag {
      return false;
    }
    ghost var before := View(cs);
    ghost var d, x, f := LastOf(before, MMID).value, LastOf(before, MMDX).value, LastOf(before, MDDF).value;
    var mmid, mmdx, mddf := byTag[MMID], byTag[MMDX], byTag[MDDF];
    var index := |mmid.data| / 4;
    var names := AppendName(mmid.data, mmdx.data, name);
    if names.None? || index >= TWO32 || !IdsFree(mddf.data, sel) {
      return false;
    }
    Store(cs, mmid, d, names.value.0);
    Store(cs, mmdx, x, names.value.1);
    Store(cs, mddf, f, mddf.data + Records(index, sel));
    return true;
  }

  /** The list half-way: `i` chunks done, the others as they were. */
  ghost function HalfSpliced(cs: seq<Chunk>, i: nat, base: nat, hits: nat -> seq<nat>): (r: seq<Chunk>)
    requires i <= |cs| && SpliceCells(cs, i, base, hits).Some?
    ensures |r| == |cs| && forall k :: i <= k < |cs| ==> r[k] == cs[k]
  {
    SpliceCells(cs, i, base, hits).value + cs[i..]
  }

  lemma SpliceStep(cs: seq<Chunk>, i: nat, base: nat, hits: nat -> seq<nat>)
    requires i < |cs| && SpliceCells(cs, i, base, hits).Some?
    ensures cs[i].tag != MCNK ==>
              && SpliceCells(cs, i + 1, base, hits).Some?
              && HalfSpliced(cs, i + 1, base, hits) == HalfSpliced(cs, i, base, hits)
    ensures cs[i].tag == MCNK ==>
              && (SpliceCells(cs, i + 1, base, hits).Some? <==> SpliceCell(cs[i], base, hits(i)).Some?)
              && (SpliceCell(cs[i], base, hits(i)).Some? ==>
                    HalfSpliced(cs, i + 1, base, hits) ==
                    WithData(HalfSpliced(cs, i, base, hits), i, SpliceCell(cs[i], base, hits(i)).value))
  {
    hide SpliceCell;
  }

  method SpliceAllInPlace(cs: seq<ChunkRec>, base: nat, hits: nat -> seq<nat>) returns (ok: bool)
    requires Distinct(cs)
    modifies cs
    ensures ok <==> SpliceCells(old(View(cs)), |cs|, base, hits).Some?
    ensures ok ==> View(cs) == SpliceCells(old(View(cs)), |cs|, base, hits).value
  {
    hide View, Splice, RefsFor, SpliceCells, HalfSpliced;
    ghost var before := View(cs);
    SpliceStart(before, base, hits);
    for i := 0 to |cs|
      invariant SpliceCells(before, i, base, hits).Some?
      invariant View(cs) == HalfSpliced(before, i, base, hits)
    {
      SpliceStep(before, i, base, hits);
      var c := cs[i];
      if c.tag == MCNK {
        var refs := RefsFor(base, hits(i));
        if refs.None? {
          SpliceCellsFails(before, i + 1, base, hits);
          return false;
        }
        ok := SpliceChunk(cs, c, i, refs.value);
        if !ok {
          SpliceCellsFails(before, i + 1, base, hits);
          return;
        }
      }
    }
    return true;
  }

  lemma SpliceStart(cs: seq<Chunk>, base: nat, hits: nat -> seq<nat>)
    ensures SpliceCells(cs, 0, base, hits).Some? && HalfSpliced(cs, 0, base, hits) == cs
    ensures SpliceCells(cs, |cs|, base, hits).Some? ==>
              HalfSpliced(cs, |cs|, base, hits) == SpliceCells(cs, |cs|, base, hits).value
  {
  }

  lemma {:induction false} SpliceCellsFails(cs: seq<Chunk>, n: nat, base: nat, hits: nat -> seq<nat>)
    requires n <= |cs| && SpliceCells(cs, n, base, hits).None?
    ensures SpliceCells(cs, |cs|, base, hits).None?
    decreases |cs| - n
  {
    if n < |cs| {
      SpliceCellsFails(cs, n + 1, base, hits);
    }
  }

  /** New offsets and map-cell sizes by old offset, and the first file header. */
  method Layout(cs: seq<ChunkRec>) returns (offsets: map<nat, nat>, sizes: map<nat, nat>, h0: Option<nat>)
    ensures offsets == NewOffsets(View(cs), |cs|) && sizes == CellSizes(View(cs), |cs|)
    ensures h0 == FirstOf(View(cs), MHDR)
  {
    hide View;
    offsets, sizes, h0 := map[], map[], None;
    var at := 0;
    for i := 0 to |cs|
      invariant at == Offset(View(cs), i)
      invariant offsets == NewOffsets(View(cs), i) && sizes == CellSizes(View(cs), i)
      invariant if h0.None? then forall k :: 0 <= k < i ==> cs[k].tag != MHDR
                else h0.value < i && cs[h0.value].tag == MHDR && forall k :: 0 <= k < h0.value ==> cs[k].tag != MHDR
    {
      var c := cs[i];
      offsets := offsets[c.pos := at];
      if c.tag == MCNK {
        sizes := sizes[c.pos := |c.data| + 8];
      }
      if h0.None? && c.tag == MHDR {
        h0 := Some(i);
      }
      at := at + 8 + |c.data|;
    }
    var f := FirstOf(View(cs), MHDR);
    assert f.Some? ==> View(cs)[f.value].tag == MHDR && cs[f.value].tag == MHDR;
    assert h0.Some? ==> View(cs)[h0.value].tag == MHDR;
  }

  /** Rebasing, given the chunks it looks up. */
  lemma RebaseWith(cs: seq<Chunk>, h0: nat, h: nat, m: nat, hdr: Option<bytes>, cells: Option<bytes>)
    requires FirstOf(cs, MHDR) == Some(h0) && LastOf(cs, MHDR) == Some(h) && LastOf(cs, MCIN) == Some(m)
    requires hdr == Rewrite(cs[h].data, HeaderWords(), 4, HeaderRebaser(NewOffsets(cs, |cs|), cs[h0].pos, Offset(cs, h0)))
    requires cells == Rewrite(cs[m].data, CellWords(|cs[m].data|), 8, CellRebaser(NewOffsets(cs, |cs|), CellSizes(cs, |cs|)))
    ensures Rebase(cs) == if hdr.None? || cells.None? then None
                          else Some(WithData(WithData(cs, h, hdr.value), m, cells.value))
  {
    hide LastOf, FirstOf, Rewrite, NewOffsets, CellSizes, Offset, HeaderRebaser, CellRebaser, HeaderWords, CellWords;
  }

  method RebaseInPlace(cs: seq<ChunkRec>, byTag: map<uint32, ChunkRec>) returns (ok: bool)
    requires Distinct(cs) && Indexed(cs, byTag) && DistinctPos(View(cs))
    modifies cs
    ensures ok <==> Rebase(old(View(cs))).Some?
    ensures ok ==> View(cs) == Rebase(old(View(cs))).value
  {
    hide View, LastOf, FirstOf, Rewrite, NewOffsets, CellSizes, Offset, HeaderRebaser, CellRebaser, HeaderWords, CellWords;
    ghost var before := View(cs);
    var offsets, sizes, h0 := Layout(cs);
    if MHDR !in byTag || MCIN !in byTag || h0.None? {
      return false;
    }
    ghost var h, m := LastOf(before, MHDR).value, LastOf(before, MCIN).value;
    var hdr, index := byTag[MHDR], byTag[MCIN];
    assert hdr == cs[h] && index == cs[m] && hdr.tag == MHDR && index.tag == MCIN;
    OffsetsHave(before, h0.value);
    var oldPos := cs[h0.value].pos;
    var g, g' := HeaderRebaser(offsets, oldPos, offsets[oldPos]), CellRebaser(offsets, sizes);
    RebaseWith(before, h0.value, h, m, Rewrite(before[h].data, HeaderWords(), 4, g),
               Rewrite(before[m].data, CellWords(|before[m].data|), 8, g'));
    hide Rebase, Indexed, DistinctPos;
    ok := RewriteChunk(cs, hdr, h, HeaderWords(), 4, g);
    if !ok {
      return;
    }
    assert index.data == before[m].data;
    ok := RewriteChunk(cs, index, m, CellWords(|index.data|), 8, g');
  }

  lemma SameTouched(a: seq<Chunk>, b: seq<Chunk>, sel: seq<Placement>, hits: nat -> seq<nat>)
    requires SameSlots(a, b)
    ensures AllTouched(a, sel, hits) <==> AllTouched(b, sel, hits)
  {
    if AllTouched(a, sel, hits) {
      TouchedCarries(a, b, sel, hits);
    }
    if AllTouched(b, sel, hits) {
      TouchedCarries(b, a, sel, hits);
    }
  }

  lemma TouchedCarries(a: seq<Chunk>, b: seq<Chunk>, sel: seq<Placement>, hits: nat -> seq<nat>)
    requires SameSlots(a, b) && AllTouched(a, sel, hits)
    ensures AllTouched(b, sel, hits)
  {
    forall j | 0 <= j < |sel|
      ensures IdTouched(b, sel, sel[j].id, hits)
    {
      assert IdTouched(a, sel, sel[j].id, hits);
      var i :| 0 <= i < |sel| && sel[i].id == sel[j].id && Touched(a, i, hits);
      var k :| 0 <= k < |a| && a[k].tag == MCNK && i in hits(k);
      assert b[k].tag == MCNK && Touched(b, i, hits);
    }
  }

  /** All edits of a tile, through the shared records. */
  method EditInPlace(cs: seq<ChunkRec>, byTag: map<uint32, ChunkRec>, name: bytes, sel: seq<Placement>, hits: nat -> seq<nat>)
    returns (ok: bool, base: nat)
    requires Distinct(cs) && Indexed(cs, byTag)
    modifies cs
    ensures base == Base(old(View(cs)))
    ensures ok <==> Edit(old(View(cs)), name, sel, hits).Some?
    ensures ok ==> View(cs) == Edit(old(View(cs)), name, sel, hits).value && Indexed(cs, byTag)
  {
    hide View, LastOf, AddPlacements, SpliceCells;
    ghost var before := View(cs);
    base := if MDDF in byTag then |byTag[MDDF].data| / 36 else 0;
    ok := AddPlacementsInPlace(cs, byTag, name, sel);
    if ok {
      ok := SpliceAllInPlace(cs, base, hits);
      if ok {
        EditSlots(before, name, sel, hits, View(cs));
        forall t {
          LastOfSameTags(before, View(cs), t);
        }
      }
    }
  }

  /** One tile, from the bytes read to the bytes written. */
  method PatchTile(raw: bytes, name: bytes, sel: seq<Placement>, hits: nat -> seq<nat>) returns (out: Option<bytes>)
    ensures out == Patch(raw, name, sel, hits)
  {
    hide View, LastOf, Chunks, Edit, Rebase, Encode, AllTouched, SelfCheck, Storable, Base, Distinct, DistinctPos, SameSlots;
    var ok, cs := ParseChunks(raw);
    if !ok || sel == [] {
      return None;
    }
    ghost var before := View(cs);
    var byTag := IndexByTag(cs);
    var base;
    ok, base := EditInPlace(cs, byTag, name, sel, hits);
    if !ok {
      return None;
    }
    EditSlots(before, name, sel, hits, View(cs));
    SameTouched(before, View(cs), sel, hits);
    if !AllTouched(View(cs), sel, hits) {
      return None;
    }
    EditPosDistinct(raw, View(cs));
    ok := RebaseInPlace(cs, byTag);
    if !ok {
      return None;
    }
    out := Serialize(cs);
    if out.Some? && !SelfCheck(View(cs), out.value, base + |sel|) {
      return None;
    }
  }
}
