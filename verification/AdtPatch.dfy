/**
 The whole patch of one tile: new model name, new placements, spliced cells, rebased
 offsets; and what a reader of the file can rely on afterwards.
 */
module AdtPatch {
  import opened Bytes
  import opened AdtChunks
  import opened AdtMcnk
  import opened AdtFile
  import opened AdtCheck

  const MVER: uint32 := 0x4D56_4552   // tag bytes "REVM"
  const MMID: uint32 := 0x4D4D_4944   // "DIMM": offsets of the model names
  const MMDX: uint32 := 0x4D4D_4458   // "XDMM": the model names, NUL-terminated
  const MDDF: uint32 := 0x4D44_4446   // "FDDM": doodad placements of 36 bytes

  /** What stands behind model and id in an entry: position, rotation, scale and flags. */
  type Posture = r: bytes | |r| == 28 witness seq(28, i => 0)

  /** A doodad to place. */
  datatype Placement = Placement(id: uint32, rest: Posture)

  // ---- the model name table ----------------------------------------------------------

  /** The position of the first NUL at or behind `p`. */
  function NulFrom(x: bytes, p: nat): (r: Option<nat>)
    requires p <= |x|
    ensures r.Some? ==> p <= r.value < |x| && x[r.value] == 0
    ensures r.Some? ==> forall i :: p <= i < r.value ==> x[i] != 0
    ensures r.None? ==> forall i :: p <= i < |x| ==> x[i] != 0
    decreases |x| - p
  {
    if p == |x| then None
    else if x[p] == 0 then Some(p)
    else NulFrom(x, p + 1)
  }

  /** The NUL-terminated name that starts at `p`. */
  function NameAt(x: bytes, p: nat): (r: Option<bytes>)
    requires p <= |x|
  {
    var z := NulFrom(x, p);
    if z.None? then None else Some(x[p..z.value])
  }

  function Nuls(x: bytes): (n: nat) {
    if x == [] then 0 else Nuls(x[..|x| - 1]) + if x[|x| - 1] == 0 then 1 else 0
  }

  /** Where the last listed name ends, or None where the original raises. */
  function NamesEnd(mmid: bytes, mmdx: bytes): (r: Option<nat>)
    ensures r.Some? ==> 0 < r.value <= |mmdx| && mmdx[r.value - 1] == 0
  {
    if |mmid| == 0 || |mmid| % 4 != 0 then None
    else
      var last := U32(mmid, |mmid| - 4);
      if last > |mmdx| then None
      else
        var z := NulFrom(mmdx, last);
        if z.None? then None
        else
          var end := z.value + 1;
          if (exists i :: end <= i < |mmdx| && mmdx[i] != 0) || Nuls(mmdx[..end]) != |mmid| / 4 || end >= TWO32 then None
          else Some(end)
  }

  /** MMID and MMDX with one more name. */
  function AppendName(mmid: bytes, mmdx: bytes, name: bytes): (r: Option<(bytes, bytes)>) {
    var end := NamesEnd(mmid, mmdx);
    if end.None? then None
    else Some((mmid + Pack32(end.value), mmdx[..end.value] + name + [0]))
  }

  lemma NulUnique(x: bytes, p: nat, z: nat)
    requires p <= z < |x| && x[z] == 0 && forall i :: p <= i < z ==> x[i] != 0
    ensures NulFrom(x, p) == Some(z)
  {
  }

  /** Each listed name below the cut still resolves to the same name; the new id resolves to the new name. */
  lemma NamesResolve(mmid: bytes, mmdx: bytes, name: bytes, i: nat)
    requires AppendName(mmid, mmdx, name).Some? && 0 !in name && 4 * i + 4 <= |mmid|
    requires U32(mmid, 4 * i) < NamesEnd(mmid, mmdx).value
    ensures var (ids, names) := AppendName(mmid, mmdx, name).value;
            && |ids| == |mmid| + 4
            && U32(ids, 4 * i) == U32(mmid, 4 * i)
            && NameAt(names, U32(ids, 4 * i)) == NameAt(mmdx, U32(mmid, 4 * i))
            && NameAt(mmdx, U32(mmid, 4 * i)).Some?
  {
    hide Value, Digits;
    var (ids, names) := AppendName(mmid, mmdx, name).value;
    var o, end := 4 * i, NamesEnd(mmid, mmdx).value;
    assert ids[o..o + 4] == mmid[o..o + 4];
    var p := U32(mmid, o);
    var z := NulFrom(mmdx, p).value;
    assert z < end;
    NulUnique(names, p, z);
    assert names[p..z] == mmdx[p..z];
  }

  lemma NewNameResolves(mmid: bytes, mmdx: bytes, name: bytes)
    requires AppendName(mmid, mmdx, name).Some? && 0 !in name
    ensures var (ids, names) := AppendName(mmid, mmdx, name).value;
            && |ids| == |mmid| + 4
            && U32(ids, |mmid|) <= |names|
            && NameAt(names, U32(ids, |mmid|)) == Some(name)
  {
    hide Value, Digits;
    var (ids, names) := AppendName(mmid, mmdx, name).value;
    var end := NamesEnd(mmid, mmdx).value;
    assert ids[|mmid|..|mmid| + 4] == Pack32(end);
    NulUnique(names, end, end + |name|);
    assert names[end..end + |name|] == name;
  }

  // ---- the edits ------------------------------------------------------------------------

  /** One MDDF entry. */
  function Record(name: uint32, p: Placement): (r: bytes)
    ensures |r| == 36
  {
    Pack32(name) + Pack32(p.id) + p.rest
  }

  /** The MDDF entries of `sel`, all naming model `name`. */
  function Records(name: uint32, sel: seq<Placement>): (r: bytes)
    ensures |r| == 36 * |sel|
  {
    if sel == [] then [] else Records(name, sel[..|sel| - 1]) + Record(name, sel[|sel| - 1])
  }

  /** The MDDF indices a cell gains, or None if one does not fit its slot. */
  function RefsFor(base: nat, hit: seq<nat>): (r: Option<seq<uint32>>)
    ensures r.Some? ==> |r.value| == |hit| && forall i :: 0 <= i < |hit| ==> r.value[i] == base + hit[i]
  {
    if hit == [] then Some([])
    else
      var prev := RefsFor(base, hit[..|hit| - 1]);
      var last := base + hit[|hit| - 1];
      if prev.None? || last >= TWO32 then None else Some(prev.value + [last])
  }

  /** The cell `c` spliced with the references of the placements that touch it. */
  function SpliceCell(c: Chunk, base: nat, hit: seq<nat>): (r: Option<bytes>) {
    var refs := RefsFor(base, hit);
    if refs.None? then None else Splice(c.data, refs.value, FIELDS)
  }

  /** The first `n` chunks with every map cell spliced; `hits(k)` lists the placements touching chunk `k`. */
  function SpliceCells(cs: seq<Chunk>, n: nat, base: nat, hits: nat -> seq<nat>): (r: Option<seq<Chunk>>)
    requires n <= |cs|
    ensures r.Some? ==> |r.value| == n
    ensures r.Some? ==> forall k :: 0 <= k < n ==>
              && r.value[k].tag == cs[k].tag && r.value[k].pos == cs[k].pos
              && if cs[k].tag == MCNK then SpliceCell(cs[k], base, hits(k)) == Some(r.value[k].data)
                 else r.value[k].data == cs[k].data
  {
    if n == 0 then Some([])
    else
      var prev, c := SpliceCells(cs, n - 1, base, hits), cs[n - 1];
      if prev.None? then None
      else if c.tag != MCNK then Some(prev.value + [c])
      else
        var d := SpliceCell(c, base, hits(n - 1));
        if d.None? then None else Some(prev.value + [c.(data := d.value)])
  }

  /** Chunk lists that agree in tags and recorded offsets. */
  ghost predicate SameSlots(a: seq<Chunk>, b: seq<Chunk>) {
    |a| == |b| && forall k :: 0 <= k < |a| ==> a[k].tag == b[k].tag && a[k].pos == b[k].pos
  }

  /** No new placement reuses the id of an existing one. */
  predicate IdsFree(mddf: bytes, sel: seq<Placement>) {
    forall j :: 0 <= j < |sel| ==> IdFree(mddf, sel[j].id)
  }

  predicate IdFree(mddf: bytes, id: uint32) {
    forall i {:trigger U32(mddf, 36 * i + 4)} :: 0 <= i < |mddf| / 36 ==> U32(mddf, 36 * i + 4) != id
  }

  /** The chunks with the name table and the placements extended. */
  function AddPlacements(cs: seq<Chunk>, name: bytes, sel: seq<Placement>): (r: Option<seq<Chunk>>)
    ensures r.Some? ==> |r.value| == |cs|
  {
    var d, x, f := LastOf(cs, MMID), LastOf(cs, MMDX), LastOf(cs, MDDF);
    if d.None? || x.None? || f.None? then None
    else
      var names := AppendName(cs[d.value].data, cs[x.value].data, name);
      var mddf, index := cs[f.value].data, |cs[d.value].data| / 4;
      if names.None? || index >= TWO32 || !IdsFree(mddf, sel) then None
      else
        var c1 := WithData(WithData(cs, d.value, names.value.0), x.value, names.value.1);
        Some(WithData(c1, f.value, mddf + Records(index, sel)))
  }

  /** The number of placements before the patch. */
  function Base(cs: seq<Chunk>): (n: nat) {
    var f := LastOf(cs, MDDF);
    if f.None? then 0 else |cs[f.value].data| / 36
  }

  /** All edits of a tile; chunk offsets still record where each chunk was read. */
  function Edit(cs: seq<Chunk>, name: bytes, sel: seq<Placement>, hits: nat -> seq<nat>): (r: Option<seq<Chunk>>) {
    var c := AddPlacements(cs, name, sel);
    if c.None? then None else SpliceCells(c.value, |cs|, Base(cs), hits)
  }

  /** Every placement, or another one counted under the same id, touches some map cell. */
  predicate AllTouched(cs: seq<Chunk>, sel: seq<Placement>, hits: nat -> seq<nat>) {
    forall j :: 0 <= j < |sel| ==> IdTouched(cs, sel, sel[j].id, hits)
  }

  predicate IdTouched(cs: seq<Chunk>, sel: seq<Placement>, id: uint32, hits: nat -> seq<nat>) {
    exists j :: 0 <= j < |sel| && sel[j].id == id && Touched(cs, j, hits)
  }

  predicate Touched(cs: seq<Chunk>, j: nat, hits: nat -> seq<nat>) {
    exists k :: 0 <= k < |cs| && cs[k].tag == MCNK && j in hits(k)
  }

  /** Every offset of the header chunk `h`, counted from behind chunk `h0`, starts a chunk of `check`. */
  predicate HeaderCheck(rs: seq<Chunk>, h0: nat, h: nat, check: seq<Chunk>)
    requires h0 < |rs| && h < |rs|
  {
    && |rs[h].data| >= 44
    && forall i {:trigger U32(rs[h].data, 4 + 4 * i)} :: 0 <= i < 10 && U32(rs[h].data, 4 + 4 * i) != 0 ==>
         StartsChunk(check, U32(rs[h].data, 4 + 4 * i) + (Offset(rs, h0) + 8))
  }

  predicate CellsCheck(check: seq<Chunk>, limit: nat) {
    forall k :: 0 <= k < |check| && check[k].tag == MCNK ==> CellOk(check[k].data, limit)
  }

  /** The check the patcher runs over what it has written. */
  predicate SelfCheck(rs: seq<Chunk>, out: bytes, limit: nat) {
    var h0, h, check := FirstOf(rs, MHDR), LastOf(rs, MHDR), Chunks(out);
    && h0.Some? && h.Some? && check.Some?
    && HeaderCheck(rs, h0.value, h.value, check.value)
    && CellsCheck(check.value, limit)
  }

  predicate StartsChunk(cs: seq<Chunk>, p: nat) {
    exists k :: 0 <= k < |cs| && cs[k].pos == p
  }

  /** The patched file before the final check, or None where the original raises. */
  function Rebuilt(raw: bytes, name: bytes, sel: seq<Placement>, hits: nat -> seq<nat>): (r: Option<seq<Chunk>>) {
    var cs := Chunks(raw);
    if cs.None? then None
    else
      var ed := Edit(cs.value, name, sel, hits);
      if ed.None? || !AllTouched(cs.value, sel, hits) then None
      else
        var rs := Rebase(ed.value);
        if rs.None? || !Storable(rs.value) then None else rs
  }

  /** The patched file, or None when nothing is placed on this tile or the original raises. */
  function Patch(raw: bytes, name: bytes, sel: seq<Placement>, hits: nat -> seq<nat>): (r: Option<bytes>) {
    var rs := Rebuilt(raw, name, sel, hits);
    if sel == [] || rs.None? then None
    else
      var out := Encode(rs.value);
      if SelfCheck(rs.value, out, Base(Chunks(raw).value) + |sel|) then Some(out) else None
  }

  /** What the edits leave alone. */
  lemma EditSlots(cs: seq<Chunk>, name: bytes, sel: seq<Placement>, hits: nat -> seq<nat>, r: seq<Chunk>)
    requires Edit(cs, name, sel, hits) == Some(r)
    ensures SameSlots(cs, r)
    ensures forall k :: 0 <= k < |cs| && cs[k].tag !in {MMID, MMDX, MDDF, MCNK} ==> r[k].data == cs[k].data
    ensures forall k :: 0 <= k < |cs| && cs[k].tag == MCNK ==> SpliceCell(cs[k], Base(cs), hits(k)) == Some(r[k].data)
  {
    hide AppendName, Records, LastOf, SpliceCell, SpliceCells, IdsFree, Base;
    var c := AddPlacements(cs, name, sel).value;
    assert SameSlots(cs, c);
    assert forall k :: 0 <= k < |cs| && cs[k].tag !in {MMID, MMDX, MDDF} ==> c[k] == cs[k];
  }

  /** `out` is the patched form of the file `raw`, with `ed` its edited chunks. */
  ghost predicate Patched(raw: bytes, name: bytes, sel: seq<Placement>, hits: nat -> seq<nat>, ed: seq<Chunk>, out: bytes) {
    && Chunks(raw).Some?
    && Edit(Chunks(raw).value, name, sel, hits) == Some(ed)
    && Rebase(ed).Some? && Storable(Rebase(ed).value)
    && out == Encode(Rebase(ed).value)
  }

  // ---- the reader ----------------------------------------------------------------------

  /** Where the reader finds what word `i` of the MHDR chunk at `hdr` addresses. */
  function MhdrTarget(file: bytes, hdr: nat, i: nat): (p: nat)
    requires hdr + 8 + 4 * i + 8 <= |file|
  {
    hdr + 8 + U32(file, hdr + 8 + (4 + 4 * i))
  }

  /** Where the reader finds the map chunk of cell `i` of the MCIN chunk at `mcin`. */
  function McnkTarget(file: bytes, mcin: nat, i: nat): (p: int)
    requires mcin + 8 + 16 * i + 4 <= |file|
  {
    mcin + U32(file, mcin + 8 + 16 * i) - 84
  }

  /** A parsed chunk is where it says it is in the file. */
  lemma {:induction false} ChunkBytes(b: bytes, p: nat, k: nat)
    requires p <= |b| && ChunksFrom(b, p).Some? && k < |ChunksFrom(b, p).value|
    ensures var c := ChunksFrom(b, p).value[k];
            && c.pos + 8 + |c.data| <= |b|
            && U32(b, c.pos) == c.tag
            && b[c.pos + 8..c.pos + 8 + |c.data|] == c.data
    decreases k
  {
    hide Value;
    if k > 0 {
      ChunkBytes(b, p + 8 + U32(b, p + 4), k - 1);
    }
  }

  lemma ChunkWord(b: bytes, k: nat, c: Chunk, o: nat)
    requires Chunks(b).Some? && k < |Chunks(b).value| && c == Chunks(b).value[k] && o + 4 <= |c.data|
    ensures c.pos + 8 + o + 4 <= |b| && U32(b, c.pos + 8 + o) == U32(c.data, o)
  {
    hide Value, ChunksFrom;
    ChunkBytes(b, 0, k);
    SliceOfSlice(b, c.pos + 8, |c.data|, o, 4);
  }

  /** Reading the patched file gives the same chunks in the same order, at the rebased offsets. */
  lemma {:induction false} PatchedChunks(raw: bytes, name: bytes, sel: seq<Placement>, hits: nat -> seq<nat>, ed: seq<Chunk>, out: bytes,
                      h: nat, m: nat) returns (rs: seq<Chunk>)
    requires Patched(raw, name, sel, hits, ed, out)
    requires OneOf(Chunks(raw).value, MHDR, h) && OneOf(Chunks(raw).value, MCIN, m)
    ensures OneOf(ed, MHDR, h) && OneOf(ed, MCIN, m) && Rebase(ed) == Some(rs) && SameSlots(Chunks(raw).value, ed)
    ensures ed[h].data == Chunks(raw).value[h].data && ed[m].data == Chunks(raw).value[m].data
    ensures Chunks(out) == Some(Placed(rs, 0)) && |rs| == |ed|
    ensures forall k :: 0 <= k < |rs| ==>
              Placed(rs, 0)[k] == Chunk(rs[k].tag, rs[k].data, Offset(rs, k)) && rs[k].tag == ed[k].tag
  {
    hide Rewrite, Splice, Chunks, Rebase, Encode, Edit, Offset, Placed;
    EditSlots(Chunks(raw).value, name, sel, hits, ed);
    rs := Rebase(ed).value;
    RebaseParts(ed, rs, h, m);
    ChunksOfEncode(rs);
    forall k | 0 <= k < |rs|
      ensures Placed(rs, 0)[k] == Chunk(rs[k].tag, rs[k].data, Offset(rs, k))
    {
      PlacedAt(rs, 0, k);
    }
  }

  lemma EditPosDistinct(raw: bytes, ed: seq<Chunk>)
    requires Chunks(raw).Some? && SameSlots(Chunks(raw).value, ed)
    ensures DistinctPos(ed)
  {
    var cs := Chunks(raw).value;
    hide Chunks, Offset;
    forall i, j | 0 <= i < j < |ed|
      ensures ed[i].pos != ed[j].pos
    {
      ParsedPos(raw, i);
      ParsedPos(raw, j);
      OffsetsIncrease(cs, i, j);
    }
  }

  /** A patch that is written comes from edited and rebased chunks of the file read. */
  lemma {:induction false} PatchIsPatched(raw: bytes, name: bytes, sel: seq<Placement>, hits: nat -> seq<nat>, out: bytes) returns (ed: seq<Chunk>)
    requires Patch(raw, name, sel, hits) == Some(out)
    ensures Patched(raw, name, sel, hits, ed, out)
  {
    hide Rebuilt, SelfCheck, Encode, Patched, Rebase, Edit;
    ed := RebuiltStages(raw, name, sel, hits, Rebuilt(raw, name, sel, hits).value);
  }

  /** Positions `p` of `raw` and `q` of `out` are the starts of the same chunk, with the same tag. */
  ghost predicate SameChunk(raw: bytes, p: int, out: bytes, q: int, k: nat)
    requires Chunks(raw).Some? && Chunks(out).Some?
  {
    var was, now := Chunks(raw).value, Chunks(out).value;
    && k < |was| == |now|
    && p == was[k].pos && q == now[k].pos && was[k].tag == now[k].tag
    && p + 4 <= |raw| && q + 4 <= |out| && U32(raw, p) == U32(out, q)
  }

  lemma SameChunkIs(raw: bytes, out: bytes, k: nat)
    requires Chunks(raw).Some? && Chunks(out).Some? && k < |Chunks(raw).value| == |Chunks(out).value|
    requires Chunks(raw).value[k].tag == Chunks(out).value[k].tag
    ensures SameChunk(raw, Chunks(raw).value[k].pos, out, Chunks(out).value[k].pos, k)
  {
    hide U32, ChunksFrom;
    ChunkBytes(raw, 0, k);
    ChunkBytes(out, 0, k);
  }

  /**
   Relocation of the file header. Each nonzero MHDR word, resolved as the reader resolves it,
   addresses the start of the same chunk before and after; a zero word stays zero.
   */
  lemma {:induction false} HeaderKeepsMeaning(raw: bytes, name: bytes, sel: seq<Placement>, hits: nat -> seq<nat>, ed: seq<Chunk>, out: bytes,
                           h: nat, m: nat, i: nat) returns (k: nat)
    requires Patched(raw, name, sel, hits, ed, out) && i < 10
    requires OneOf(Chunks(raw).value, MHDR, h) && OneOf(Chunks(raw).value, MCIN, m)
    ensures Chunks(out).Some? && |Chunks(out).value| == |Chunks(raw).value|
    ensures var was, now := Chunks(raw).value[h], Chunks(out).value[h];
            && now.tag == MHDR
            && was.pos + 8 + 4 * i + 8 <= |raw| && now.pos + 8 + 4 * i + 8 <= |out|
            && (U32(raw, was.pos + 8 + (4 + 4 * i)) == 0 ==> U32(out, now.pos + 8 + (4 + 4 * i)) == 0)
            && (U32(raw, was.pos + 8 + (4 + 4 * i)) != 0 ==>
                  SameChunk(raw, MhdrTarget(raw, was.pos, i), out, MhdrTarget(out, now.pos, i), k))
  {
    hide U32, Rewrite, Splice, Chunks, Rebase, Encode, Edit, Offset, Placed, SameChunk;
    var rs := PatchedChunks(raw, name, sel, hits, ed, out, h, m);
    k := HeaderRebased(ed, rs, h, m, i);
    var was, now := Chunks(raw).value[h], Chunks(out).value[h];
    ChunkWord(raw, h, was, 4 + 4 * i);
    ChunkWord(out, h, now, 4 + 4 * i);
    if U32(was.data, 4 + 4 * i) != 0 {
      SameChunkIs(raw, out, k);
    }
  }

  /** The layout the reader counts on: MVER, MHDR and MCIN first, so that MCIN starts at offset 84. */
  ghost predicate StandardHead(cs: seq<Chunk>) {
    && |cs| >= 3
    && cs[0].tag == MVER && |cs[0].data| == 4
    && cs[1].tag == MHDR && |cs[1].data| == 64
    && cs[2].tag == MCIN
  }

  lemma McinAt84(cs: seq<Chunk>)
    requires |cs| >= 3 && |cs[0].data| == 4 && |cs[1].data| == 64
    ensures Offset(cs, 2) == 84
  {
    assert Offset(cs, 1) == 12;
  }

  /** MCIN stays at file offset 84, where `getMCNK` expects it. */
  lemma {:induction false} McinStaysAt84(raw: bytes, name: bytes, sel: seq<Placement>, hits: nat -> seq<nat>, ed: seq<Chunk>, out: bytes)
    requires Patched(raw, name, sel, hits, ed, out) && StandardHead(Chunks(raw).value)
    requires OneOf(Chunks(raw).value, MHDR, 1) && OneOf(Chunks(raw).value, MCIN, 2)
    ensures Chunks(out).Some? && |Chunks(out).value| == |Chunks(raw).value|
    ensures Chunks(raw).value[2].pos == 84 && Chunks(out).value[2].pos == 84 && Chunks(out).value[2].tag == MCIN
  {
    var cs := Chunks(raw).value;
    hide U32, Rewrite, Splice, Chunks, Rebase, Encode, Edit, Offset, Placed;
    ParsedPos(raw, 2);
    McinAt84(cs);
    var rs := PatchedChunks(raw, name, sel, hits, ed, out, 1, 2);
    EditSlots(cs, name, sel, hits, ed);
    RebaseParts(ed, rs, 1, 2);
    McinAt84(rs);
  }

  /**
   Relocation of the cell index. Each nonzero MCIN cell, resolved as the reader resolves it,
   addresses the start of the same map chunk before and after, with that chunk's new size.
   */
  lemma {:induction false} CellsKeepMeaning(raw: bytes, name: bytes, sel: seq<Placement>, hits: nat -> seq<nat>, ed: seq<Chunk>, out: bytes,
                         i: nat) returns (k: nat)
    requires Patched(raw, name, sel, hits, ed, out) && StandardHead(Chunks(raw).value)
    requires OneOf(Chunks(raw).value, MHDR, 1) && OneOf(Chunks(raw).value, MCIN, 2)
    requires 16 * i < |Chunks(raw).value[2].data|
    ensures Chunks(out).Some? && |Chunks(out).value| == |Chunks(raw).value|
    ensures 84 + 8 + 16 * i + 4 <= |raw| && 84 + 8 + 16 * i + 4 <= |out|
    ensures U32(raw, 84 + 8 + 16 * i) == 0 ==> U32(out, 84 + 8 + 16 * i) == 0
    ensures U32(raw, 84 + 8 + 16 * i) != 0 ==>
              && SameChunk(raw, McnkTarget(raw, 84, i), out, McnkTarget(out, 84, i), k)
              && Chunks(out).value[k].tag == MCNK
              && 84 + 8 + 16 * i + 8 <= |out|
              && U32(out, 84 + 8 + (16 * i + 4)) == 8 + |Chunks(out).value[k].data|
  {
    hide U32, Rewrite, Splice, Chunks, Rebase, Encode, Edit, Offset, Placed, SameChunk;
    McinStaysAt84(raw, name, sel, hits, ed, out);
    var rs := PatchedChunks(raw, name, sel, hits, ed, out, 1, 2);
    EditPosDistinct(raw, ed);
    k := CellRebased(ed, rs, 1, 2, i);
    var was, now := Chunks(raw).value[2], Chunks(out).value[2];
    ChunkWord(raw, 2, was, 16 * i);
    ChunkWord(out, 2, now, 16 * i);
    if U32(was.data, 16 * i) != 0 {
      ChunkWord(out, 2, now, 16 * i + 4);
      SameChunkIs(raw, out, k);
    }
  }

  // ---- the final check cannot fire ---------------------------------------------------

  /** A map cell the patch can splice: its subchunks lie clear of MCRF and pass the check already. */
  ghost predicate GoodCells(cs: seq<Chunk>) {
    forall k :: 0 <= k < |cs| && cs[k].tag == MCNK ==> WellPlaced(cs[k].data) && CellOk(cs[k].data, Base(cs))
  }

  ghost predicate HitsBelow(hits: nat -> seq<nat>, n: nat) {
    forall k, j :: 0 <= j < |hits(k)| ==> hits(k)[j] < n
  }

  lemma {:induction false} CellsPass(cs: seq<Chunk>, name: bytes, sel: seq<Placement>, hits: nat -> seq<nat>, ed: seq<Chunk>, k: nat)
    requires Edit(cs, name, sel, hits) == Some(ed) && GoodCells(cs) && HitsBelow(hits, |sel|)
    requires k < |cs| && cs[k].tag == MCNK
    ensures |ed| == |cs| && CellOk(ed[k].data, Base(cs) + |sel|)
  {
    hide Splice, CellOk, WellPlaced, Edit, Base;
    EditSlots(cs, name, sel, hits, ed);
    var refs := RefsFor(Base(cs), hits(k)).value;
    CheckSurvives(cs[k].data, refs, ed[k].data, Base(cs), Base(cs) + |sel|);
  }

  lemma {:induction false} HeaderPasses(ed: seq<Chunk>, rs: seq<Chunk>, h: nat, m: nat)
    requires OneOf(ed, MHDR, h) && OneOf(ed, MCIN, m) && Rebase(ed) == Some(rs)
    ensures |rs| == |ed| && HeaderCheck(rs, h, h, Placed(rs, 0))
  {
    hide U32, Rebase, Offset, Placed;
    var k0 := HeaderRebased(ed, rs, h, m, 9);
    forall i {:trigger U32(rs[h].data, 4 + 4 * i)} | 0 <= i < 10 && U32(rs[h].data, 4 + 4 * i) != 0
      ensures StartsChunk(Placed(rs, 0), U32(rs[h].data, 4 + 4 * i) + (Offset(rs, h) + 8))
    {
      var k := HeaderRebased(ed, rs, h, m, i);
      PlacedAt(rs, 0, k);
    }
  }

  lemma {:induction false} AllCellsPass(cs: seq<Chunk>, name: bytes, sel: seq<Placement>, hits: nat -> seq<nat>, ed: seq<Chunk>, rs: seq<Chunk>,
                     h: nat, m: nat)
    requires Edit(cs, name, sel, hits) == Some(ed) && GoodCells(cs) && HitsBelow(hits, |sel|) && SameSlots(cs, ed)
    requires OneOf(ed, MHDR, h) && OneOf(ed, MCIN, m) && Rebase(ed) == Some(rs)
    ensures CellsCheck(Placed(rs, 0), Base(cs) + |sel|)
  {
    hide Edit, Rebase, Offset, Placed, CellOk, Base, GoodCells;
    RebaseParts(ed, rs, h, m);
    forall k | 0 <= k < |rs| && Placed(rs, 0)[k].tag == MCNK
      ensures CellOk(Placed(rs, 0)[k].data, Base(cs) + |sel|)
    {
      PlacedAt(rs, 0, k);
      CellsPass(cs, name, sel, hits, ed, k);
    }
  }

  /**
   For a file whose cells pass the check beforehand, the check over the patched file passes:
   the patch of a tile is the rebuilt file.
   */
  lemma {:induction false} SelfCheckPasses(raw: bytes, name: bytes, sel: seq<Placement>, hits: nat -> seq<nat>, rs: seq<Chunk>, h: nat, m: nat)
    requires Rebuilt(raw, name, sel, hits) == Some(rs) && sel != [] && Chunks(raw).Some?
    requires OneOf(Chunks(raw).value, MHDR, h) && OneOf(Chunks(raw).value, MCIN, m)
    requires GoodCells(Chunks(raw).value) && HitsBelow(hits, |sel|)
    ensures Storable(rs)
    ensures Patch(raw, name, sel, hits) == Some(Encode(rs))
  {
    hide *;
    var ed := RebuiltStages(raw, name, sel, hits, rs);
    var rs' := PatchedChunks(raw, name, sel, hits, ed, Encode(rs), h, m);
    HeaderPasses(ed, rs, h, m);
    AllCellsPass(Chunks(raw).value, name, sel, hits, ed, rs, h, m);
    OneSurvives(ed, rs, h, m);
    OneIsFirstAndLast(rs, MHDR, h);
    CheckedIsPatch(raw, name, sel, hits, rs, h);
  }

  lemma {:induction false} CheckedIsPatch(raw: bytes, name: bytes, sel: seq<Placement>, hits: nat -> seq<nat>, rs: seq<Chunk>, h: nat)
    requires Rebuilt(raw, name, sel, hits) == Some(rs) && sel != [] && Storable(rs) && Chunks(raw).Some?
    requires FirstOf(rs, MHDR) == Some(h) && LastOf(rs, MHDR) == Some(h) && Chunks(Encode(rs)) == Some(Placed(rs, 0))
    requires HeaderCheck(rs, h, h, Placed(rs, 0)) && CellsCheck(Placed(rs, 0), Base(Chunks(raw).value) + |sel|)
    ensures Patch(raw, name, sel, hits) == Some(Encode(rs))
  {
    hide Rebuilt, FirstOf, LastOf, Chunks, Encode, Placed, Storable, HeaderCheck, CellsCheck, Base;
  }

  lemma {:induction false} RebuiltStages(raw: bytes, name: bytes, sel: seq<Placement>, hits: nat -> seq<nat>, rs: seq<Chunk>) returns (ed: seq<Chunk>)
    requires Rebuilt(raw, name, sel, hits) == Some(rs)
    ensures Storable(rs) && Rebase(ed) == Some(rs) && Chunks(raw).Some?
    ensures Edit(Chunks(raw).value, name, sel, hits) == Some(ed)
    ensures Patched(raw, name, sel, hits, ed, Encode(rs))
  {
    hide Chunks, Edit, Rebase, Encode, Storable, AllTouched;
    ed := Edit(Chunks(raw).value, name, sel, hits).value;
  }

  lemma OneSurvives(ed: seq<Chunk>, rs: seq<Chunk>, h: nat, m: nat)
    requires OneOf(ed, MHDR, h) && OneOf(ed, MCIN, m) && Rebase(ed) == Some(rs)
    ensures OneOf(rs, MHDR, h)
  {
    hide Rebase;
    RebaseParts(ed, rs, h, m);
  }
}
