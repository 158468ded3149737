/**
 What a written tile means to its reader: the new references lead to the new placements and
 their model, and everything that was there before is still there.
 */
module AdtMeaning {
  import opened Bytes
  import opened AdtChunks
  import opened AdtMcnk
  import opened AdtFile
  import opened AdtCheck
  import opened AdtPatch

  // ---- the tables -------------------------------------------------------------------------------

  lemma {:induction false} RecordAt(name: uint32, sel: seq<Placement>, j: nat, p: nat)
    requires j < |sel| && p == 36 * j
    ensures p + 36 <= |Records(name, sel)| && Records(name, sel)[p..p + 36] == Record(name, sel[j])
    decreases |sel|
  {
    hide Record;
    var all, most := Records(name, sel), Records(name, sel[..|sel| - 1]);
    assert all == most + Record(name, sel[|sel| - 1]);
    if j < |sel| - 1 {
      RecordAt(name, sel[..|sel| - 1], j, p);
      assert all[p..p + 36] == most[p..p + 36];
    }
  }

  lemma RecordFields(name: uint32, q: Placement)
    ensures U32(Record(name, q), 0) == name && U32(Record(name, q), 4) == q.id && Record(name, q)[8..] == q.rest
  {
    hide Value, Digits;
    var r := Record(name, q);
    assert r[0..4] == Pack32(name) && r[4..8] == Pack32(q.id);
  }

  /** The three tables of the edited tile. */
  lemma {:induction false} EditTables(cs: seq<Chunk>, name: bytes, sel: seq<Placement>, hits: nat -> seq<nat>, ed: seq<Chunk>, d: nat, x: nat, t: nat)
    requires Edit(cs, name, sel, hits) == Some(ed)
    requires OneOf(cs, MMID, d) && OneOf(cs, MMDX, x) && OneOf(cs, MDDF, t)
    ensures |ed| == |cs| && AppendName(cs[d].data, cs[x].data, name).Some? && |cs[d].data| / 4 < TWO32
    ensures ed[d].data == AppendName(cs[d].data, cs[x].data, name).value.0
    ensures ed[x].data == AppendName(cs[d].data, cs[x].data, name).value.1
    ensures ed[t].data == cs[t].data + Records(|cs[d].data| / 4, sel)
    ensures Base(cs) == |cs[t].data| / 36
  {
    hide AppendName, Records, LastOf, SpliceCell, SpliceCells, IdsFree;
    OneIsFirstAndLast(cs, MMID, d);
    OneIsFirstAndLast(cs, MMDX, x);
    OneIsFirstAndLast(cs, MDDF, t);
    assert cs[d].tag == MMID && cs[x].tag == MMDX && cs[t].tag == MDDF;
    var c := AddPlacements(cs, name, sel).value;
    assert d != x && x != t && d != t;
    assert c[d].tag == MMID && c[x].tag == MMDX && c[t].tag == MDDF;
  }

  /** Each chunk of a written file that is not rebased is the edited one. */
  lemma {:induction false} WrittenData(raw: bytes, name: bytes, sel: seq<Placement>, hits: nat -> seq<nat>, ed: seq<Chunk>, out: bytes,
                                       h: nat, m: nat, k: nat)
    requires Patched(raw, name, sel, hits, ed, out) && k < |Chunks(raw).value|
    requires OneOf(Chunks(raw).value, MHDR, h) && OneOf(Chunks(raw).value, MCIN, m)
    ensures Chunks(out).Some? && |Chunks(out).value| == |Chunks(raw).value| == |ed|
    ensures Chunks(out).value[k].tag == Chunks(raw).value[k].tag == ed[k].tag
    ensures k != h && k != m ==> Chunks(out).value[k].data == ed[k].data
  {
    hide Rewrite, Splice, Chunks, Rebase, Encode, Edit, Offset, Placed;
    var rs := PatchedChunks(raw, name, sel, hits, ed, out, h, m);
    RebaseParts(ed, rs, h, m);
  }

  // ---- the new references ------------------------------------------------------------------------

  /** The `ref`-th placement of a table, as the reader finds it. */
  ghost predicate ReadsAs(mddf: bytes, ref: nat, index: nat, q: Placement) {
    && 36 * ref + 36 <= |mddf|
    && U32(mddf, 36 * ref) == index && U32(mddf, 36 * ref + 4) == q.id
    && mddf[36 * ref + 8..36 * ref + 36] == q.rest
  }

  lemma {:induction false} NewRecordReads(before: bytes, index: uint32, sel: seq<Placement>, j: nat, ref: nat, p: nat)
    requires |before| % 36 == 0 && j < |sel| && ref == |before| / 36 + j && p == 36 * ref
    ensures ReadsAs(before + Records(index, sel), ref, index, sel[j])
  {
    hide Record, Value;
    var all := before + Records(index, sel);
    var o := |before|;
    RecordAt(index, sel, j, p - o);
    var r := Record(index, sel[j]);
    RecordFields(index, sel[j]);
    assert all[p..p + 36] == r;
    SliceOfSlice(all, p, 36, 0, 4);
    SliceOfSlice(all, p, 36, 4, 4);
    SliceOfSlice(all, p, 36, 8, 28);
    assert r[8..] == r[8..36];
  }

  /** The model a placement's index leads to. */
  ghost predicate NamedAs(mmid: bytes, mmdx: bytes, index: nat, name: bytes) {
    && 4 * index + 4 <= |mmid| && U32(mmid, 4 * index) <= |mmdx|
    && NameAt(mmdx, U32(mmid, 4 * index)) == Some(name)
  }

  /** The references a cell gains, one by one. */
  lemma {:induction false} NewReferenceReads(d: bytes, refs: seq<uint32>, r: bytes, i: nat)
    requires Cell(d) && i < |refs| && Splice(d, refs, FIELDS) == Some(r)
    ensures |r| == |d| + 4 * |refs|
    ensures U32(r, U32(d, 32) + 4 * (U32(d, 16) + i)) == refs[i]
  {
    hide U32, Splice, Words;
    FieldsAreHeaderFields();
    ReferencesSpliced(d, refs, FIELDS, r);
    var n := U32(d, 16) + |refs| + U32(d, 56);
    assert Words(r, U32(d, 32), n)[U32(d, 16) + i] == refs[i];
  }

  /**
   For every written tile and every reference a cell gained: the reader follows it to an entry of
   the placement table with the id and posture of the placement that touches the cell, and from
   there through the two name tables to the new model.
   */
  lemma {:induction false} NewReferencesResolve(raw: bytes, name: bytes, sel: seq<Placement>, hits: nat -> seq<nat>, ed: seq<Chunk>, out: bytes,
                                                h: nat, m: nat, d: nat, x: nat, t: nat, k: nat, i: nat)
    requires Patched(raw, name, sel, hits, ed, out) && 0 !in name && HitsBelow(hits, |sel|)
    requires var cs := Chunks(raw).value;
             && OneOf(cs, MHDR, h) && OneOf(cs, MCIN, m) && OneOf(cs, MMID, d) && OneOf(cs, MMDX, x) && OneOf(cs, MDDF, t)
             && |cs[t].data| % 36 == 0
             && k < |cs| && cs[k].tag == MCNK && Cell(cs[k].data) && i < |hits(k)|
    ensures Chunks(out).Some? && |Chunks(out).value| == |Chunks(raw).value|
    ensures var was, now := Chunks(raw).value[k].data, Chunks(out).value[k].data;
            var tables := Chunks(out).value;
            && |now| == |was| + 4 * |hits(k)|
            && exists ref, index ::
                 && U32(now, U32(was, 32) + 4 * (U32(was, 16) + i)) == ref
                 && ReadsAs(tables[t].data, ref, index, sel[hits(k)[i]])
                 && NamedAs(tables[d].data, tables[x].data, index, name)
  {
    hide U32, Chunks, Edit, Rebase, Encode, Splice, Records, AppendName, ReadsAs, Patched;
    EditOf(raw, name, sel, hits, ed, out);
    var cs := Chunks(raw).value;
    var index := |cs[d].data| / 4;
    EditTables(cs, name, sel, hits, ed, d, x, t);
    EditSlots(cs, name, sel, hits, ed);
    WrittenData(raw, name, sel, hits, ed, out, h, m, k);
    WrittenData(raw, name, sel, hits, ed, out, h, m, d);
    WrittenData(raw, name, sel, hits, ed, out, h, m, x);
    WrittenData(raw, name, sel, hits, ed, out, h, m, t);
    var refs := RefsFor(Base(cs), hits(k)).value;
    NewReferenceReads(cs[k].data, refs, ed[k].data, i);
    var ref: nat := refs[i];
    NewRecordReads(cs[t].data, index, sel, hits(k)[i], ref, 36 * ref);
    NewNameReads(cs[d].data, cs[x].data, name);
  }

  lemma EditOf(raw: bytes, name: bytes, sel: seq<Placement>, hits: nat -> seq<nat>, ed: seq<Chunk>, out: bytes)
    requires Patched(raw, name, sel, hits, ed, out)
    ensures Chunks(raw).Some? && Edit(Chunks(raw).value, name, sel, hits) == Some(ed)
  {
    hide Chunks, Edit, Rebase, Encode;
  }

  lemma NewNameReads(mmid: bytes, mmdx: bytes, name: bytes)
    requires AppendName(mmid, mmdx, name).Some? && 0 !in name
    ensures var (ids, names) := AppendName(mmid, mmdx, name).value;
            NamedAs(ids, names, |mmid| / 4, name)
  {
    NewNameResolves(mmid, mmdx, name);
    assert |mmid| % 4 == 0;
    hide U32, NameAt;
    var n := |mmid| / 4;
    assert 4 * n == |mmid|;
  }

  // ---- everything that was there before ------------------------------------------------------------

  /** A subchunk of `n` bytes that an offset field addresses, past the header and clear of MCRF. */
  ghost predicate Addresses(d: bytes, f: nat, n: nat)
    requires Cell(d) && f + 4 <= HEADER
  {
    && U32(d, f) - 8 >= HEADER && U32(d, f) - 8 + n <= |d|
    && (U32(d, f) - 8 + n <= U32(d, 32) - 8 || U32(d, f) - 8 >= U32(d, 32) + 4 * (U32(d, 16) + U32(d, 56)))
  }

  /** The field addresses the same bytes in `r`. */
  ghost predicate SameBytes(d: bytes, r: bytes, f: nat, n: nat)
    requires Cell(d) && f + 4 <= HEADER && Addresses(d, f, n)
  {
    && |r| >= HEADER && U32(r, f) - 8 >= HEADER && U32(r, f) - 8 + n <= |r|
    && r[U32(r, f) - 8..U32(r, f) - 8 + n] == d[U32(d, f) - 8..U32(d, f) - 8 + n]
  }

  /** Where the header of a cell holds an offset to one of its subchunks or lists. */
  ghost predicate OffsetAt(f: int) {
    f in {20, 24, 28, 32, 36, 44, 88, 96, 116}
  }

  /** A byte that is neither in the doodad count, nor in an offset of the header, nor in the size of the MCRF at `o`. */
  ghost predicate Spared(o: int, p: int) {
    && (p < 16 || 40 <= p < 44 || 48 <= p < 88 || 92 <= p < 96 || 100 <= p < 116 || 120 <= p)
    && !(o - 4 <= p < o)
  }

  /** The offset at `f` counts on by `4 * n` exactly if it is set and leads to position `at` or behind. */
  ghost predicate OffsetMoved(d: bytes, r: bytes, f: nat, at: nat, n: nat)
    requires f + 4 <= |d| && f + 4 <= |r|
  {
    U32(r, f) == if U32(d, f) != 0 && U32(d, f) - 8 >= at then U32(d, f) + 4 * n else U32(d, f)
  }

  /** Every spared byte is still there, behind `at` by `4 * n` further on. */
  ghost predicate BytesKept(d: bytes, r: bytes, o: nat, at: nat, n: nat) {
    && |r| == |d| + 4 * n
    && (forall p :: 0 <= p < |d| && Spared(o, p) && p < at ==> r[p] == d[p])
    && (forall p :: 0 <= p < |d| && Spared(o, p) && p >= at ==> r[p + 4 * n] == d[p])
  }

  /**
   A cell that gained `n` references: nothing else of it is lost, each of the nine offsets of its
   header counts on exactly if it leads past the new references, and leads to the same bytes.
   */
  ghost predicate CellKept(d: bytes, r: bytes, n: nat)
    requires Cell(d)
  {
    && BytesKept(d, r, U32(d, 32), U32(d, 32) + 4 * U32(d, 16), n)
    && (forall f: nat :: OffsetAt(f) ==> OffsetMoved(d, r, f, U32(d, 32) + 4 * U32(d, 16), n))
    && (forall f, m: nat :: OffsetAt(f) && Addresses(d, f, m) ==> SameBytes(d, r, f, m))
  }

  /** A chunk before and after the patch; `n` is the number of references a cell gained. */
  ghost predicate ChunkKept(was: Chunk, now: Chunk, n: nat) {
    && now.tag == was.tag
    && if was.tag == MCNK then (n == 0 ==> now.data == was.data) && (Cell(was.data) ==> CellKept(was.data, now.data, n))
       else if was.tag == MDDF || was.tag == MMID then was.data <= now.data
       else if was.tag == MMDX then NamesKept(was.data, now.data)
       else if was.tag == MHDR then WordsKept(was.data, now.data, HeaderWords(), 4)
       else if was.tag == MCIN then WordsKept(was.data, now.data, CellWords(|was.data|), 8)
       else now.data == was.data
  }

  /** All names are still there; at most NULs behind the last one went. */
  ghost predicate NamesKept(x: bytes, y: bytes) {
    exists end :: 0 <= end <= |x| && x[..end] <= y && forall i :: end <= i < |x| ==> x[i] == 0
  }

  /** Only the words at `offs` changed. */
  ghost predicate WordsKept(d: bytes, r: bytes, offs: seq<nat>, w: nat) {
    |r| == |d| && forall p :: 0 <= p < |d| && Outside(offs, w, p) ==> r[p] == d[p]
  }

  lemma {:induction false} WordsAreKept(d: bytes, r: bytes, offs: seq<nat>, w: nat, g: uint32 -> Option<bytes>)
    requires Width(g, w) && Rewrite(d, offs, w, g) == Some(r)
    ensures WordsKept(d, r, offs, w)
  {
    hide Rewrite, Outside;
    forall p | 0 <= p < |d| && Outside(offs, w, p)
      ensures r[p] == d[p]
    {
      RewriteElsewhere(d, offs, w, g, p);
    }
  }

  lemma PackAllSize(refs: seq<uint32>)
    ensures |PackAll(refs)| == 4 * |refs|
  {
  }

  lemma FieldsAreOffsets(f: nat)
    ensures f in FIELDS <==> OffsetAt(f)
  {
    FieldsAreHeaderFields();
  }

  lemma OffsetsFit()
    ensures forall f :: OffsetAt(f) ==> 20 <= f && f + 4 <= HEADER
  {
  }

  lemma SparedIsKept(o: nat, p: nat)
    requires Spared(o, p)
    ensures !Rewritten(FIELDS, o, p)
  {
  }

  lemma {:induction false} FrameKeepsBytes(d: bytes, r: bytes, o: nat, at: nat, n: nat)
    requires Framed(d, r, FIELDS, o, at, 4 * n)
    ensures BytesKept(d, r, o, at, n)
  {
    hide Rewritten, Spared;
    forall p | 0 <= p < |d| && Spared(o, p)
      ensures r[After(at, 4 * n, p)] == d[p]
    {
      SparedIsKept(o, p);
    }
  }

  lemma {:induction false} SplicedOffset(d: bytes, refs: seq<uint32>, r: bytes, f: nat)
    requires Cell(d) && Splice(d, refs, FIELDS) == Some(r) && refs != [] && OffsetAt(f)
    ensures |r| >= HEADER && f + 4 <= HEADER
    ensures OffsetMoved(d, r, f, U32(d, 32) + 4 * U32(d, 16), |refs|)
  {
    hide U32, Splice;
    FieldsAreHeaderFields();
    FieldsAreOffsets(f);
    SpliceField(d, refs, FIELDS, r, f);
  }

  lemma {:induction false} SplicedCellKept(d: bytes, refs: seq<uint32>, r: bytes)
    requires Cell(d) && Splice(d, refs, FIELDS) == Some(r)
    ensures refs == [] ==> r == d
    ensures CellKept(d, r, |refs|)
  {
    hide U32, Splice, PackAll, Framed, OffsetMoved, BytesKept, OffsetAt;
    if refs == [] {
      NothingSpliced(d, r);
      UnsplicedKept(d);
    } else {
      FieldsAreHeaderFields();
      PackAllSize(refs);
      SpliceFrame(d, refs, FIELDS, r);
      FrameKeepsBytes(d, r, U32(d, 32), InsertAt(d), |refs|);
      forall f: nat | OffsetAt(f)
        ensures f + 4 <= HEADER && |r| >= HEADER && OffsetMoved(d, r, f, U32(d, 32) + 4 * U32(d, 16), |refs|)
      {
        SplicedOffset(d, refs, r, f);
      }
      OffsetsFit();
      forall f, m: nat | OffsetAt(f) && Addresses(d, f, m)
        ensures SameBytes(d, r, f, m)
      {
        FieldsAreOffsets(f);
        SubchunkPreserved(d, refs, FIELDS, r, f, m);
      }
    }
  }

  lemma NothingSpliced(d: bytes, r: bytes)
    requires Splice(d, [], FIELDS) == Some(r)
    ensures r == d
  {
  }

  lemma UnsplicedKept(d: bytes)
    requires Cell(d)
    ensures CellKept(d, d, 0)
  {
    hide U32;
  }

  /** The edits keep every chunk. */
  lemma {:induction false} EditKeeps(cs: seq<Chunk>, name: bytes, sel: seq<Placement>, hits: nat -> seq<nat>, ed: seq<Chunk>, k: nat)
    requires Edit(cs, name, sel, hits) == Some(ed) && k < |cs| && cs[k].tag !in {MHDR, MCIN}
    ensures |ed| == |cs| && ChunkKept(cs[k], ed[k], if cs[k].tag == MCNK then |hits(k)| else 0)
  {
    hide U32, Splice, CellKept, NamesKept, Cell, AddPlacements;
    EditSlots(cs, name, sel, hits, ed);
    if cs[k].tag == MCNK {
      var refs := RefsFor(Base(cs), hits(k)).value;
      if refs == [] {
        NothingSpliced(cs[k].data, ed[k].data);
      }
      if Cell(cs[k].data) {
        SplicedCellKept(cs[k].data, refs, ed[k].data);
      }
    } else if cs[k].tag in {MMID, MMDX, MDDF} {
      TableKept(cs, name, sel, hits, ed, k);
    }
  }

  lemma {:induction false} TableKept(cs: seq<Chunk>, name: bytes, sel: seq<Placement>, hits: nat -> seq<nat>, ed: seq<Chunk>, k: nat)
    requires Edit(cs, name, sel, hits) == Some(ed) && k < |cs| && cs[k].tag in {MMID, MMDX, MDDF}
    ensures |ed| == |cs|
    ensures cs[k].tag == MDDF || cs[k].tag == MMID ==> cs[k].data <= ed[k].data
    ensures cs[k].tag == MMDX ==> NamesKept(cs[k].data, ed[k].data)
  {
    hide AppendName, Records, LastOf, SpliceCell, SpliceCells, IdsFree, NamesKept;
    var d, x, t := LastOf(cs, MMID).value, LastOf(cs, MMDX).value, LastOf(cs, MDDF).value;
    assert cs[d].tag == MMID && cs[x].tag == MMDX && cs[t].tag == MDDF;
    var c := AddPlacements(cs, name, sel).value;
    assert c[k].tag == cs[k].tag && ed[k].data == c[k].data;
    AppendKeeps(cs[d].data, cs[x].data, name);
    if k != x {
      SameNames(cs[k].data);
    }
  }

  lemma SameNames(x: bytes)
    ensures NamesKept(x, x)
  {
    assert x[..|x|] <= x;
  }

  lemma AppendKeeps(mmid: bytes, mmdx: bytes, name: bytes)
    requires AppendName(mmid, mmdx, name).Some?
    ensures mmid <= AppendName(mmid, mmdx, name).value.0
    ensures NamesKept(mmdx, AppendName(mmid, mmdx, name).value.1)
  {
    hide U32, NulFrom, Nuls, Pack32;
    var end := NamesEnd(mmid, mmdx).value;
    assert mmdx[..end] <= AppendName(mmid, mmdx, name).value.1;
  }

  /** For every written tile: all terrain, water and texture data and all existing placements are preserved, chunk by chunk. */
  lemma {:induction false} EverythingKept(raw: bytes, name: bytes, sel: seq<Placement>, hits: nat -> seq<nat>, ed: seq<Chunk>, out: bytes,
                                          h: nat, m: nat)
    requires Patched(raw, name, sel, hits, ed, out)
    requires OneOf(Chunks(raw).value, MHDR, h) && OneOf(Chunks(raw).value, MCIN, m)
    ensures Chunks(out).Some? && |Chunks(out).value| == |Chunks(raw).value|
    ensures forall k :: 0 <= k < |Chunks(raw).value| ==>
              ChunkKept(Chunks(raw).value[k], Chunks(out).value[k], if Chunks(raw).value[k].tag == MCNK then |hits(k)| else 0)
  {
    hide Chunks, Edit, Rebase, Encode, Patched, ChunkKept, Rewrite, HeaderRebaser, CellRebaser, Placed, Offset, HeaderWords, CellWords;
    EditOf(raw, name, sel, hits, ed, out);
    var was := Chunks(raw).value;
    var rs := PatchedChunks(raw, name, sel, hits, ed, out, h, m);
    RebaseParts(ed, rs, h, m);
    forall k | 0 <= k < |was|
      ensures ChunkKept(was[k], Chunks(out).value[k], if was[k].tag == MCNK then |hits(k)| else 0)
    {
      WrittenData(raw, name, sel, hits, ed, out, h, m, k);
      if k == h || k == m {
        RebasedKept(ed, rs, h, m, k, was[k], Chunks(out).value[k]);
      } else {
        EditKeeps(was, name, sel, hits, ed, k);
        KeptData(was[k], ed[k], Chunks(out).value[k], if was[k].tag == MCNK then |hits(k)| else 0);
      }
    }
  }

  lemma KeptData(was: Chunk, ed: Chunk, now: Chunk, n: nat)
    requires ChunkKept(was, ed, n) && now.data == ed.data && now.tag == ed.tag
    ensures ChunkKept(was, now, n)
  {
    hide CellKept, Cell;
  }

  lemma {:induction false} RebasedKept(ed: seq<Chunk>, rs: seq<Chunk>, h: nat, m: nat, k: nat, was: Chunk, now: Chunk)
    requires OneOf(ed, MHDR, h) && OneOf(ed, MCIN, m) && Rebase(ed) == Some(rs) && (k == h || k == m) && |rs| == |ed|
    requires was.tag == ed[k].tag && was.data == ed[k].data && now.tag == was.tag && now.data == rs[k].data
    ensures ChunkKept(was, now, 0)
  {
    hide Rebase, HeaderRebaser, CellRebaser, Rewrite, NewOffsets, CellSizes, HeaderWords, CellWords, WordsKept;
    RebaseParts(ed, rs, h, m);
    if k == h {
      WordsAreKept(was.data, now.data, HeaderWords(), 4, HeaderRebaser(NewOffsets(ed, |ed|), ed[h].pos, Offset(ed, h)));
    } else {
      WordsAreKept(was.data, now.data, CellWords(|was.data|), 8, CellRebaser(NewOffsets(ed, |ed|), CellSizes(ed, |ed|)));
    }
  }
}
