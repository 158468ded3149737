/** A tile the patch goes through on: one map cell, one model and one new placement, with all three layers of offsets in use. */
module AdtExample {
  import opened Bytes
  import opened AdtChunks
  import opened AdtMcnk
  import opened AdtFile
  import opened AdtCheck
  import opened AdtPatch
  import opened AdtMeaning

  function Zeros(n: nat): (d: bytes)
    ensures |d| == n
  {
    seq(n, i => 0)
  }

  lemma ZeroWord(n: nat, p: nat)
    requires p + 4 <= n
    ensures U32(Zeros(n), p) == 0
  {
    hide Value;
    ValueOfFour(Zeros(n)[p..p + 4]);
  }

  /** `n` zeros but for one byte. */
  function OneByteAt(n: nat, at: nat, b: byte): (d: bytes)
    ensures |d| == n
  {
    seq(n, i => if i == at then b else 0)
  }

  lemma OneByteWord(n: nat, at: nat, b: byte, p: nat)
    requires p + 4 <= n && (at == p || at < p || p + 4 <= at)
    ensures U32(OneByteAt(n, at, b), p) == if at == p then b else 0
  {
    hide Value;
    ValueOfFour(OneByteAt(n, at, b)[p..p + 4]);
  }

  /** Its chunks, as they are read: the header leads to the cell index, and that to the cell. */
  function TinyChunks(): (cs: seq<Chunk>)
    ensures |cs| == 7
  {
    [ Chunk(MVER, Zeros(4), 0), Chunk(MHDR, OneByteAt(64, 4, 64), 12), Chunk(MCIN, OneByteAt(16, 0, 138), 84), Chunk(MMDX, [65, 0], 108),
      Chunk(MMID, Zeros(4), 118), Chunk(MDDF, [], 130), Chunk(MCNK, SmallestCell(), 138) ]
  }

  function TinyTile(): bytes {
    Encode(TinyChunks())
  }

  const NAME: bytes := [66]

  function OnePlacement(): (sel: seq<Placement>)
    ensures |sel| == 1
  {
    [Placement(7, Zeros(28))]
  }

  function OneHit(k: nat): seq<nat> {
    if k == 6 then [0] else []
  }

  lemma TinyOffset(k: nat)
    requires k < 7
    ensures Offset(TinyChunks(), k) == TinyChunks()[k].pos
  {
    hide SmallestCell, OneByteAt, Zeros;
    var cs := TinyChunks();
    assert Offset(cs, 1) == 12 && Offset(cs, 2) == 84 && Offset(cs, 3) == 108;
    assert Offset(cs, 4) == 118 && Offset(cs, 5) == 130 && Offset(cs, 6) == 138;
  }

  lemma TinyPlaced(k: nat)
    requires k < 7
    ensures Placed(TinyChunks(), 0)[k] == TinyChunks()[k]
  {
    hide TinyChunks, Placed, Offset;
    PlacedAt(TinyChunks(), 0, k);
    TinyOffset(k);
  }

  lemma TinyStorable()
    ensures Storable(TinyChunks())
  {
  }

  lemma TinyParses()
    ensures Chunks(TinyTile()) == Some(TinyChunks())
  {
    hide Encode, TinyChunks, Placed;
    var cs := TinyChunks();
    assert Storable(cs) by { TinyStorable(); }
    ChunksOfEncode(cs);
    forall k | 0 <= k < 7
      ensures Placed(cs, 0)[k] == cs[k]
    {
      TinyPlaced(k);
    }
    assert Placed(cs, 0) == cs;
  }

  lemma TinyTags()
    ensures var cs := TinyChunks();
            && OneOf(cs, MHDR, 1) && OneOf(cs, MCIN, 2) && OneOf(cs, MMDX, 3) && OneOf(cs, MMID, 4) && OneOf(cs, MDDF, 5)
            && cs[6].tag == MCNK && cs[0].tag == MVER && StandardHead(cs) && DistinctPos(cs)
            && cs[3].data == [65, 0] && cs[4].data == Zeros(4) && cs[5].data == [] && cs[6].data == SmallestCell()
            && forall k :: 0 <= k < 7 ==> (cs[k].tag == MCNK <==> k == 6)
  {
    hide SmallestCell, OneByteAt, Zeros;
  }

  /** The name tables take the new name. */
  lemma TinyNames()
    ensures AppendName(Zeros(4), [65, 0], NAME).Some?
  {
    hide U32, Zeros;
    var x: bytes := [65, 0];
    ZeroWord(4, 0);
    assert NulFrom(x, 0) == Some(1) by { NulUnique(x, 0, 1); }
    assert x[..2] == x && x[..1] == [65] && [65][..0] == [];
    assert Nuls([65]) == 0;
    assert Nuls(x) == 1;
  }

  lemma TinyPlacements()
    ensures AddPlacements(TinyChunks(), NAME, OnePlacement()).Some?
    ensures var c := AddPlacements(TinyChunks(), NAME, OnePlacement()).value;
            && c[6] == TinyChunks()[6] && forall k :: 0 <= k < 7 ==> (c[k].tag == MCNK <==> k == 6)
  {
    hide AppendName, TinyChunks, LastOf, Records;
    TinyTags();
    var cs := TinyChunks();
    OneIsFirstAndLast(cs, MMID, 4);
    OneIsFirstAndLast(cs, MMDX, 3);
    OneIsFirstAndLast(cs, MDDF, 5);
    TinyNames();
  }

  /** A list of chunks whose map cells can all be spliced. */
  lemma {:induction false} AllSplice(cs: seq<Chunk>, n: nat, base: nat, hits: nat -> seq<nat>)
    requires n <= |cs| && forall k :: 0 <= k < n && cs[k].tag == MCNK ==> SpliceCell(cs[k], base, hits(k)).Some?
    ensures SpliceCells(cs, n, base, hits).Some?
  {
    hide SpliceCell;
    if n > 0 {
      AllSplice(cs, n - 1, base, hits);
    }
  }

  lemma OneRef()
    ensures RefsFor(0, [0]) == Some([0])
  {
    assert [0][..0] == [];
    assert RefsFor(0, []) == Some([]);
    var none: seq<uint32> := [];
    assert none + [0] == [0];
  }

  lemma TinyCellSplices(c: Chunk)
    requires c.data == SmallestCell()
    ensures SpliceCell(c, 0, [0]).Some? && SpliceCell(c, 0, [0]) == Splice(SmallestCell(), [0], FIELDS)
  {
    hide Splice, SmallestCell, RefsFor;
    OneRef();
    SmallestCellSplices([0]);
  }

  lemma TinyBase()
    ensures Base(TinyChunks()) == 0
  {
    hide LastOf, TinyChunks;
    TinyTags();
    OneIsFirstAndLast(TinyChunks(), MDDF, 5);
  }

  lemma TinyEdits()
    ensures Edit(TinyChunks(), NAME, OnePlacement(), OneHit).Some?
  {
    hide AddPlacements, TinyChunks, SpliceCells, SpliceCell, Base, SmallestCell;
    TinyTags();
    TinyPlacements();
    TinyBase();
    var cs := TinyChunks();
    var c := AddPlacements(cs, NAME, OnePlacement()).value;
    TinyCellSplices(c[6]);
    AllSplice(c, 7, 0, OneHit);
  }

  /** The edited chunks, as far as rebasing looks at them. */
  lemma TinyEdited(ed: seq<Chunk>)
    requires Edit(TinyChunks(), NAME, OnePlacement(), OneHit) == Some(ed)
    ensures |ed| == 7 && OneOf(ed, MHDR, 1) && OneOf(ed, MCIN, 2) && DistinctPos(ed) && SameSlots(TinyChunks(), ed)
    ensures ed[0].data == Zeros(4) && ed[1].data == OneByteAt(64, 4, 64) && ed[2].data == OneByteAt(16, 0, 138)
    ensures |ed[3].data| == 4 && |ed[4].data| == 8 && |ed[5].data| == 36 && |ed[6].data| == 140
    ensures ed[6].tag == MCNK && ed[6].pos == 138 && ed[2].pos == 84 && ed[1].pos == 12
  {
    hide AppendName, Records, SmallestCell, Splice, SpliceCell, OneByteAt, Edit, Zeros, Base;
    var cs := TinyChunks();
    TinyTags();
    TinyBase();
    EditSlots(cs, NAME, OnePlacement(), OneHit, ed);
    EditTables(cs, NAME, OnePlacement(), OneHit, ed, 4, 3, 5);
    TinyNameSizes();
    TinyCellSplices(cs[6]);
    TinyCellSize(ed[6].data);
  }

  lemma TinyNameSizes()
    ensures AppendName(Zeros(4), [65, 0], NAME).Some?
    ensures var (ids, names) := AppendName(Zeros(4), [65, 0], NAME).value;
            |ids| == 8 && |names| == 4
  {
    hide U32, Zeros;
    TinyNames();
  }

  lemma TinyCellSize(r: bytes)
    requires Splice(SmallestCell(), [0], FIELDS) == Some(r)
    ensures |r| == 140
  {
    hide Splice, U32;
    SmallestCellSplices([0]);
    FieldsAreHeaderFields();
    CountsSpliced(SmallestCell(), [0], FIELDS, r);
  }

  // ---- the three layers of offsets --------------------------------------------------------------------

  lemma TinyMoved(ed: seq<Chunk>)
    requires Edit(TinyChunks(), NAME, OnePlacement(), OneHit) == Some(ed)
    ensures |ed| == 7 && Offset(ed, 1) == 12 && Offset(ed, 2) == 84 && Offset(ed, 6) == 180
  {
    hide Edit, TinyChunks, OneByteAt;
    TinyEdited(ed);
    assert Offset(ed, 1) == 12 && Offset(ed, 2) == 84 && Offset(ed, 3) == 108;
    assert Offset(ed, 4) == 120 && Offset(ed, 5) == 136;
  }

  /** The header's only offset, to the cell index, has a place to go. */
  lemma TinyHeader(ed: seq<Chunk>)
    requires Edit(TinyChunks(), NAME, OnePlacement(), OneHit) == Some(ed)
    ensures |ed| == 7 && Rewrite(ed[1].data, HeaderWords(), 4, HeaderRebaser(NewOffsets(ed, 7), ed[1].pos, Offset(ed, 1))).Some?
  {
    hide Edit, TinyChunks, OneByteAt, U32, Rewrite, NewOffsets, Offset;
    TinyEdited(ed);
    TinyMoved(ed);
    OffsetsHave(ed, 2);
    var g := HeaderRebaser(NewOffsets(ed, 7), ed[1].pos, Offset(ed, 1));
    assert g(64).Some?;
    var offs := HeaderWords();
    forall i | 0 <= i < |offs|
      ensures U32(ed[1].data, offs[i]) == 0 || g(U32(ed[1].data, offs[i])).Some?
    {
      OneByteWord(64, 4, 64, offs[i]);
    }
    RewriteSucceeds(ed[1].data, offs, 4, g);
  }

  /** The index's only cell, too. */
  lemma TinyIndex(ed: seq<Chunk>)
    requires Edit(TinyChunks(), NAME, OnePlacement(), OneHit) == Some(ed)
    ensures |ed| == 7 && Rewrite(ed[2].data, CellWords(|ed[2].data|), 8, CellRebaser(NewOffsets(ed, 7), CellSizes(ed, 7))).Some?
  {
    hide Edit, TinyChunks, OneByteAt, U32, Rewrite, NewOffsets, Offset;
    TinyEdited(ed);
    TinyMoved(ed);
    OffsetsHave(ed, 6);
    assert CellSizes(ed, 7) == CellSizes(ed, 6)[138 := 148];
    var g := CellRebaser(NewOffsets(ed, 7), CellSizes(ed, 7));
    assert g(138).Some?;
    var offs := CellWords(16);
    OneByteWord(16, 0, 138, 0);
    RewriteSucceeds(ed[2].data, offs, 8, g);
  }

  lemma TinyRebases(ed: seq<Chunk>)
    requires Edit(TinyChunks(), NAME, OnePlacement(), OneHit) == Some(ed)
    ensures Rebase(ed).Some? && Storable(Rebase(ed).value)
  {
    hide Edit, TinyChunks, Rewrite, NewOffsets, CellSizes, Offset, HeaderRebaser, CellRebaser, HeaderWords, CellWords, OneByteAt;
    TinyEdited(ed);
    OneIsFirstAndLast(ed, MHDR, 1);
    OneIsFirstAndLast(ed, MCIN, 2);
    TinyHeader(ed);
    TinyIndex(ed);
  }

  lemma TinyTouched()
    ensures AllTouched(TinyChunks(), OnePlacement(), OneHit)
  {
    hide TinyChunks;
    TinyTags();
    assert Touched(TinyChunks(), 0, OneHit);
    assert IdTouched(TinyChunks(), OnePlacement(), 7, OneHit);
  }

  /** The cell passes the tool's check before the patch. */
  lemma TinyCellGood()
    ensures WellPlaced(SmallestCell()) && CellOk(SmallestCell(), 0)
  {
    hide U32, SmallestCell;
    TinySize();
    forall p | p in {16, 20, 24, 28, 32, 36, 44, 56, 88, 96, 128, 132}
      ensures U32(SmallestCell(), p) == if p == 32 then 136 else if p == 128 then MCRF else 0
    {
      SmallestCellWord(p);
    }
  }

  lemma TinySize()
    ensures |SmallestCell()| == 136
  {
  }

  /** The tool writes this tile, so what is proved of every written tile is proved of this one. */
  lemma TinyTilePatches() returns (ed: seq<Chunk>, out: bytes)
    ensures Patch(TinyTile(), NAME, OnePlacement(), OneHit) == Some(out)
    ensures Patched(TinyTile(), NAME, OnePlacement(), OneHit, ed, out)
    ensures var cs := TinyChunks();
            && Chunks(TinyTile()) == Some(cs) && StandardHead(cs) && OneOf(cs, MHDR, 1) && OneOf(cs, MCIN, 2)
            && U32(cs[1].data, 4) != 0 && U32(cs[2].data, 0) != 0 && cs[6].tag == MCNK && OneHit(6) == [0]
  {
    hide Edit, Rebase, TinyChunks, Encode, Chunks, OneByteAt, U32, AllTouched, WellPlaced, CellOk, Patch, SmallestCell;
    var cs, raw := TinyChunks(), TinyTile();
    TinyParses();
    TinyTags();
    TinyEdits();
    TinyTouched();
    TinyRebases(Edit(cs, NAME, OnePlacement(), OneHit).value);
    TinyBase();
    TinyCellGood();
    var rs := Rebuilt(raw, NAME, OnePlacement(), OneHit).value;
    SelfCheckPasses(raw, NAME, OnePlacement(), OneHit, rs, 1, 2);
    ed := RebuiltStages(raw, NAME, OnePlacement(), OneHit, rs);
    out := Encode(rs);
    TinyWords();
  }

  lemma TinyWords()
    ensures U32(TinyChunks()[1].data, 4) == 64 && U32(TinyChunks()[2].data, 0) == 138
  {
    hide U32, OneByteAt, SmallestCell;
    OneByteWord(64, 4, 64, 4);
    OneByteWord(16, 0, 138, 0);
  }
}
