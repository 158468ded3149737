/**
 The rules of the patcher, in the positions and tag bytes of the file format: what a word is,
 how the tags are spelled, when a name can be appended, what is checked of a tile before and
 after it is written, and where every chunk of the written file stands.
 */
module AdtRules {
  import opened Bytes
  import opened AdtChunks
  import opened AdtMcnk
  import opened AdtFile
  import opened AdtCheck
  import opened AdtPatch

  // ---- words and tags ------------------------------------------------------------------

  /** A word is four bytes, the lowest first. */
  lemma WordMeans(b: bytes, o: nat)
    requires o + 4 <= |b|
    ensures U32(b, o) == Spell(b[o], b[o + 1], b[o + 2], b[o + 3])
  {
    hide Value;
    ValueOfFour(b[o..o + 4]);
  }

  lemma PackMeans(v: uint32, w: bytes)
    requires |w| == 4 && v == Spell(w[0], w[1], w[2], w[3])
    ensures Pack32(v) == w
  {
    hide Value, Digits;
    ValueOfFour(w);
    DigitsValue(w);
    DigitsValue(Pack32(v));
  }

  /** The tags as they stand in a file: the letters of each name in reverse. */
  lemma TagsSpell()
    ensures Pack32(MVER) == [82, 69, 86, 77] && Pack32(MHDR) == [82, 68, 72, 77] && Pack32(MCIN) == [78, 73, 67, 77]
    ensures Pack32(MMDX) == [88, 68, 77, 77] && Pack32(MMID) == [68, 73, 77, 77] && Pack32(MDDF) == [70, 68, 68, 77]
    ensures Pack32(MCNK) == [75, 78, 67, 77]
  {
    hide Pack32;
    PackMeans(MVER, [82, 69, 86, 77]);
    PackMeans(MHDR, [82, 68, 72, 77]);
    PackMeans(MCIN, [78, 73, 67, 77]);
    PackMeans(MMDX, [88, 68, 77, 77]);
    PackMeans(MMID, [68, 73, 77, 77]);
    PackMeans(MDDF, [70, 68, 68, 77]);
    PackMeans(MCNK, [75, 78, 67, 77]);
  }

  lemma TagWord(b: bytes, p: nat, tag: uint32)
    requires p + 4 <= |b| && U32(b, p) == tag
    ensures b[p..p + 4] == Pack32(tag)
  {
    hide Value, Digits;
    DigitsValue(b[p..p + 4]);
    DigitsValue(Pack32(tag));
  }

  // ---- the file ------------------------------------------------------------------------

  /** `c` stands at position `p` of the file: its tag, the size of its data, its data. */
  ghost predicate StandsAt(b: bytes, p: nat, c: Chunk) {
    && p + 8 + |c.data| <= |b|
    && b[p..p + 4] == Pack32(c.tag)
    && Spell(b[p + 4], b[p + 5], b[p + 6], b[p + 7]) == |c.data|
    && b[p + 8..p + 8 + |c.data|] == c.data
  }

  lemma {:induction false} StandsFrom(b: bytes, p: nat, k: nat)
    requires p <= |b| && ChunksFrom(b, p).Some? && k < |ChunksFrom(b, p).value|
    ensures StandsAt(b, ChunksFrom(b, p).value[k].pos, ChunksFrom(b, p).value[k])
    ensures ChunksFrom(b, p).value[k].pos == if k == 0 then p else ChunksFrom(b, p).value[k - 1].pos + 8 + |ChunksFrom(b, p).value[k - 1].data|
    ensures k + 1 == |ChunksFrom(b, p).value| ==> ChunksFrom(b, p).value[k].pos + 8 + |ChunksFrom(b, p).value[k].data| == |b|
    decreases |b| - p
  {
    hide U32, Pack32, StandsAt;
    var n := U32(b, p + 4);
    var c, rest := Chunk(U32(b, p), b[p + 8..p + 8 + n], p), ChunksFrom(b, p + 8 + n).value;
    assert ChunksFrom(b, p).value == [c] + rest;
    if k > 0 {
      StandsFrom(b, p + 8 + n, k - 1);
    } else {
      StandsThere(b, p, c);
    }
  }

  lemma StandsThere(b: bytes, p: nat, c: Chunk)
    requires p + 8 + |c.data| <= |b| && c.tag == U32(b, p) && U32(b, p + 4) == |c.data|
    requires b[p + 8..p + 8 + |c.data|] == c.data
    ensures StandsAt(b, p, c)
  {
    hide U32, Pack32;
    TagWord(b, p, c.tag);
    WordMeans(b, p + 4);
  }

  /** A file that can be read is exactly its chunks: each starts where the one before it ends. */
  lemma FileIsItsChunks(b: bytes, k: nat)
    requires Chunks(b).Some? && k < |Chunks(b).value|
    ensures var cs := Chunks(b).value;
            && StandsAt(b, cs[k].pos, cs[k])
            && cs[k].pos == (if k == 0 then 0 else cs[k - 1].pos + 8 + |cs[k - 1].data|)
            && (k + 1 == |cs| ==> cs[k].pos + 8 + |cs[k].data| == |b|)
  {
    hide ChunksFrom, StandsAt;
    StandsFrom(b, 0, k);
  }

  // ---- the name table --------------------------------------------------------------------

  function NulsBefore(x: bytes, n: nat): (s: set<nat>)
    requires n <= |x|
  {
    set i: nat | i < n && x[i] == 0
  }

  lemma {:induction false} NulsCount(x: bytes, n: nat)
    requires n <= |x|
    ensures Nuls(x[..n]) == |NulsBefore(x, n)|
  {
    if n > 0 {
      NulsCount(x, n - 1);
      assert x[..n][..n - 1] == x[..n - 1];
      assert NulsBefore(x, n) == NulsBefore(x, n - 1) + if x[n - 1] == 0 then {n - 1} else {};
    } else {
      assert NulsBefore(x, 0) == {};
    }
  }

  /** The name that starts at `last` ends with the NUL at `z`, and nothing but NULs is behind it. */
  ghost predicate LastNameEnds(x: bytes, last: nat, z: nat) {
    && last <= z < |x| && x[z] == 0
    && (forall i :: last <= i < z ==> x[i] != 0)
    && (forall i :: z < i < |x| ==> x[i] == 0)
  }

  /**
   When a model name can be appended. The index must end in the start of the last name, that name
   must be the last thing in the table, and there must be as many names as index entries.
   */
  lemma {:induction false} AppendsExactly(mmid: bytes, mmdx: bytes, name: bytes, z: nat)
    requires |mmid| >= 4 && |mmid| % 4 == 0 && LastNameEnds(mmdx, U32(mmid, |mmid| - 4), z)
    ensures AppendName(mmid, mmdx, name).Some? <==> |NulsBefore(mmdx, z + 1)| == |mmid| / 4 && z + 1 < TWO32
    ensures AppendName(mmid, mmdx, name).Some? ==>
              AppendName(mmid, mmdx, name) == Some((mmid + Pack32(z + 1), mmdx[..z + 1] + name + [0]))
  {
    hide U32, Nuls, Pack32;
    NulUnique(mmdx, U32(mmid, |mmid| - 4), z);
    NulsCount(mmdx, z + 1);
  }

  /** Only there can one be appended. */
  lemma {:induction false} AppendsOnlyThere(mmid: bytes, mmdx: bytes, name: bytes) returns (z: nat)
    requires AppendName(mmid, mmdx, name).Some?
    ensures |mmid| >= 4 && |mmid| % 4 == 0
    ensures LastNameEnds(mmdx, U32(mmid, |mmid| - 4), z)
  {
    hide U32, Nuls, Pack32;
    z := NulFrom(mmdx, U32(mmid, |mmid| - 4)).value;
  }

  // ---- what a written tile passed -----------------------------------------------------------

  /** The offset at `f`, if set, leads to four bytes that spell `tag`. */
  ghost predicate LeadsTo(d: bytes, f: nat, tag: bytes)
    requires f + 4 <= |d|
  {
    U32(d, f) != 0 ==> 8 <= U32(d, f) && U32(d, f) - 4 <= |d| && d[U32(d, f) - 8..U32(d, f) - 4] == tag
  }

  /** A map cell as the patcher demands it of its own output; every doodad reference is below `limit`. */
  ghost predicate SoundCell(d: bytes, limit: nat) {
    && |d| >= 100
    && LeadsTo(d, 20, [84, 86, 67, 77]) && LeadsTo(d, 24, [82, 78, 67, 77]) && LeadsTo(d, 28, [89, 76, 67, 77])
    && LeadsTo(d, 32, [70, 82, 67, 77]) && LeadsTo(d, 36, [76, 65, 67, 77]) && LeadsTo(d, 44, [72, 83, 67, 77])
    && LeadsTo(d, 88, [69, 83, 67, 77]) && LeadsTo(d, 96, [81, 76, 67, 77])
    && 8 <= U32(d, 32) <= |d|
    && U32(d, U32(d, 32) - 4) == 4 * (U32(d, 16) + U32(d, 56))
    && U32(d, 32) + 4 * U32(d, 16) <= |d|
    && forall p :: U32(d, 32) <= p < U32(d, 32) + 4 * U32(d, 16) && (p - U32(d, 32)) % 4 == 0 ==> U32(d, p) < limit
  }

  lemma TaggedMeans(d: bytes, f: nat, tag: uint32, w: bytes)
    requires f + 4 <= |d| && |w| == 4 && tag == Spell(w[0], w[1], w[2], w[3])
    ensures Tagged(d, f, tag) <==> LeadsTo(d, f, w)
  {
    hide U32, Pack32;
    var v := U32(d, f);
    if v != 0 && 8 <= v && v - 4 <= |d| {
      PackMeans(tag, w);
      WordMeans(d, v - 8);
      if U32(d, v - 8) == tag {
        TagWord(d, v - 8, tag);
      }
    }
  }

  lemma TagsMean(d: bytes)
    requires |d| >= 100
    ensures Tagged(d, 20, MCVT) <==> LeadsTo(d, 20, [84, 86, 67, 77])
    ensures Tagged(d, 24, MCNR) <==> LeadsTo(d, 24, [82, 78, 67, 77])
    ensures Tagged(d, 28, MCLY) <==> LeadsTo(d, 28, [89, 76, 67, 77])
    ensures Tagged(d, 32, MCRF) <==> LeadsTo(d, 32, [70, 82, 67, 77])
    ensures Tagged(d, 36, MCAL) <==> LeadsTo(d, 36, [76, 65, 67, 77])
    ensures Tagged(d, 44, MCSH) <==> LeadsTo(d, 44, [72, 83, 67, 77])
    ensures Tagged(d, 88, MCSE) <==> LeadsTo(d, 88, [69, 83, 67, 77])
    ensures Tagged(d, 96, MCLQ) <==> LeadsTo(d, 96, [81, 76, 67, 77])
  {
    hide Tagged, LeadsTo;
    TaggedMeans(d, 20, MCVT, [84, 86, 67, 77]);
    TaggedMeans(d, 24, MCNR, [82, 78, 67, 77]);
    TaggedMeans(d, 28, MCLY, [89, 76, 67, 77]);
    TaggedMeans(d, 32, MCRF, [70, 82, 67, 77]);
    TaggedMeans(d, 36, MCAL, [76, 65, 67, 77]);
    TaggedMeans(d, 44, MCSH, [72, 83, 67, 77]);
    TaggedMeans(d, 88, MCSE, [69, 83, 67, 77]);
    TaggedMeans(d, 96, MCLQ, [81, 76, 67, 77]);
  }

  /** `limit` bounds each of the `n` words from `o` on. */
  ghost predicate WordsBelow(d: bytes, o: nat, n: nat, limit: nat)
    requires o + 4 * n <= |d|
  {
    forall p :: o <= p < o + 4 * n && (p - o) % 4 == 0 ==> U32(d, p) < limit
  }

  lemma BelowMeans(d: bytes, o: nat, n: nat, limit: nat)
    requires o + 4 * n <= |d|
    ensures AllBelow(Words(d, o, n), limit) <==> WordsBelow(d, o, n, limit)
  {
    hide U32, Words;
    if AllBelow(Words(d, o, n), limit) {
      forall p | o <= p < o + 4 * n && (p - o) % 4 == 0
        ensures U32(d, p) < limit
      {
        var i := (p - o) / 4;
        assert p == o + 4 * i;
        assert Words(d, o, n)[i] == U32(d, o + 4 * i);
      }
    }
    if WordsBelow(d, o, n, limit) {
      forall i | 0 <= i < n
        ensures Words(d, o, n)[i] < limit
      {
        assert Words(d, o, n)[i] == U32(d, o + 4 * i);
        assert (o + 4 * i - o) % 4 == 0;
      }
    }
  }

  /** The patcher's check, field by field. */
  lemma CheckMeans(d: bytes, limit: nat)
    ensures CellOk(d, limit) <==> SoundCell(d, limit)
  {
    hide U32, Words, Tagged, LeadsTo, AllBelow;
    if |d| >= 100 {
      TagsMean(d);
      if 8 <= U32(d, 32) && U32(d, 32) + 4 * U32(d, 16) <= |d| {
        BelowMeans(d, U32(d, 32), U32(d, 16), limit);
      }
    }
  }

  /** No entry of the placement table has the id `id`. */
  ghost predicate Unused(mddf: bytes, id: uint32) {
    forall p: nat :: p % 36 == 4 && p + 32 <= |mddf| ==> U32(mddf, p) != id
  }

  /** Some map cell refers to a placement with the id `id`. */
  ghost predicate Refers(cs: seq<Chunk>, sel: seq<Placement>, hits: nat -> seq<nat>, id: uint32) {
    exists k, j :: 0 <= k < |cs| && cs[k].tag == MCNK && j in hits(k) && 0 <= j < |sel| && sel[j].id == id
  }

  /** Every offset of the file header, if set, leads from behind that header to the start of a chunk. */
  ghost predicate HeaderLeads(cs: seq<Chunk>, h: nat)
    requires h < |cs|
  {
    && |cs[h].data| >= 44
    && forall o :: o in {4, 8, 12, 16, 20, 24, 28, 32, 36, 40} && U32(cs[h].data, o) != 0 ==>
         exists k :: 0 <= k < |cs| && cs[k].pos == cs[h].pos + 8 + U32(cs[h].data, o)
  }

  lemma FreeMeans(mddf: bytes, id: uint32)
    ensures IdFree(mddf, id) <==> Unused(mddf, id)
  {
    hide U32;
    if IdFree(mddf, id) {
      forall p: nat | p % 36 == 4 && p + 32 <= |mddf|
        ensures U32(mddf, p) != id
      {
        var i := p / 36;
        assert p == 36 * i + 4;
        assert U32(mddf, 36 * i + 4) != id;
      }
    }
  }

  /** When placements can be added: the name can be appended, its number fits, and no id is used already. */
  lemma {:induction false} AddsExactly(cs: seq<Chunk>, name: bytes, sel: seq<Placement>, d: nat, x: nat, t: nat)
    requires OneOf(cs, MMID, d) && OneOf(cs, MMDX, x) && OneOf(cs, MDDF, t)
    ensures AddPlacements(cs, name, sel).Some? <==>
              && AppendName(cs[d].data, cs[x].data, name).Some? && |cs[d].data| / 4 < TWO32
              && forall j :: 0 <= j < |sel| ==> Unused(cs[t].data, sel[j].id)
  {
    hide AppendName, Records, IdFree, Unused, LastOf;
    OneIsFirstAndLast(cs, MMID, d);
    OneIsFirstAndLast(cs, MMDX, x);
    OneIsFirstAndLast(cs, MDDF, t);
    forall j | 0 <= j < |sel|
      ensures IdFree(cs[t].data, sel[j].id) <==> Unused(cs[t].data, sel[j].id)
    {
      FreeMeans(cs[t].data, sel[j].id);
    }
  }

  lemma TouchedMeans(cs: seq<Chunk>, sel: seq<Placement>, id: uint32, hits: nat -> seq<nat>)
    ensures IdTouched(cs, sel, id, hits) <==> Refers(cs, sel, hits, id)
  {
    if Refers(cs, sel, hits, id) {
      var k, j :| 0 <= k < |cs| && cs[k].tag == MCNK && j in hits(k) && 0 <= j < |sel| && sel[j].id == id;
      assert Touched(cs, j, hits);
    }
  }

  /** When a tile can be rebuilt: its edits and the rebasing go through, and some cell refers to each new id. */
  lemma {:induction false} RebuildsExactly(raw: bytes, name: bytes, sel: seq<Placement>, hits: nat -> seq<nat>)
    ensures Rebuilt(raw, name, sel, hits).Some? <==>
              && Chunks(raw).Some? && Edit(Chunks(raw).value, name, sel, hits).Some?
              && (forall j :: 0 <= j < |sel| ==> Refers(Chunks(raw).value, sel, hits, sel[j].id))
              && Rebase(Edit(Chunks(raw).value, name, sel, hits).value).Some?
              && Storable(Rebase(Edit(Chunks(raw).value, name, sel, hits).value).value)
  {
    hide Chunks, Edit, Rebase, IdTouched, Refers, Storable;
    if Chunks(raw).Some? {
      forall j | 0 <= j < |sel|
        ensures IdTouched(Chunks(raw).value, sel, sel[j].id, hits) <==> Refers(Chunks(raw).value, sel, hits, sel[j].id)
      {
        TouchedMeans(Chunks(raw).value, sel, sel[j].id, hits);
      }
    }
  }

  lemma {:induction false} HeaderCheckMeans(rs: seq<Chunk>, h: nat, check: seq<Chunk>)
    requires h < |rs| && |check| == |rs| && check[h].data == rs[h].data && check[h].pos == Offset(rs, h)
    ensures HeaderCheck(rs, h, h, check) <==> HeaderLeads(check, h)
  {
    hide U32, Offset;
    if HeaderCheck(rs, h, h, check) {
      forall o | o in {4, 8, 12, 16, 20, 24, 28, 32, 36, 40} && U32(check[h].data, o) != 0
        ensures exists k :: 0 <= k < |check| && check[k].pos == check[h].pos + 8 + U32(check[h].data, o)
      {
        var i := (o - 4) / 4;
        assert o == 4 + 4 * i;
        assert StartsChunk(check, U32(rs[h].data, 4 + 4 * i) + (Offset(rs, h) + 8));
      }
    }
    if HeaderLeads(check, h) {
      forall i {:trigger U32(rs[h].data, 4 + 4 * i)} | 0 <= i < 10 && U32(rs[h].data, 4 + 4 * i) != 0
        ensures StartsChunk(check, U32(rs[h].data, 4 + 4 * i) + (Offset(rs, h) + 8))
      {
        assert 4 + 4 * i in {4, 8, 12, 16, 20, 24, 28, 32, 36, 40};
      }
    }
  }

  ghost predicate SoundCells(cs: seq<Chunk>, limit: nat) {
    forall k :: 0 <= k < |cs| && cs[k].tag == MCNK ==> SoundCell(cs[k].data, limit)
  }

  lemma CellsCheckMeans(cs: seq<Chunk>, limit: nat)
    ensures CellsCheck(cs, limit) <==> SoundCells(cs, limit)
  {
    hide CellOk, SoundCell;
    forall k | 0 <= k < |cs|
      ensures CellOk(cs[k].data, limit) <==> SoundCell(cs[k].data, limit)
    {
      CheckMeans(cs[k].data, limit);
    }
  }

  /**
   When a rebuilt tile is written. Something is placed on it, every offset of its header leads to
   the start of a chunk, and every cell is sound, with each doodad reference below the number of
   placements there now are.
   */
  lemma {:induction false} WritesExactly(raw: bytes, name: bytes, sel: seq<Placement>, hits: nat -> seq<nat>, rs: seq<Chunk>,
                                         h: nat, m: nat, t: nat)
    requires Chunks(raw).Some? && Rebuilt(raw, name, sel, hits) == Some(rs)
    requires OneOf(Chunks(raw).value, MHDR, h) && OneOf(Chunks(raw).value, MCIN, m) && OneOf(Chunks(raw).value, MDDF, t)
    ensures Storable(rs) && Chunks(Encode(rs)).Some? && |Chunks(Encode(rs)).value| == |Chunks(raw).value|
    ensures Patch(raw, name, sel, hits) ==
              if && sel != []
                 && HeaderLeads(Chunks(Encode(rs)).value, h)
                 && SoundCells(Chunks(Encode(rs)).value, |Chunks(raw).value[t].data| / 36 + |sel|)
              then Some(Encode(rs)) else None
  {
    hide *;
    BaseMeans(Chunks(raw).value, t);
    var ed := RebuiltStages(raw, name, sel, hits, rs);
    var rs' := PatchedChunks(raw, name, sel, hits, ed, Encode(rs), h, m);
    OneSurvives(ed, rs, h, m);
    OneIsFirstAndLast(rs, MHDR, h);
    OneInside(rs, MHDR, h);
    HeaderCheckMeans(rs, h, Placed(rs, 0));
    CellsCheckMeans(Placed(rs, 0), |Chunks(raw).value[t].data| / 36 + |sel|);
    SameLength(Chunks(raw).value, ed);
    PatchMeans(raw, name, sel, hits, rs, h);
  }

  lemma OneInside(cs: seq<Chunk>, tag: uint32, k: nat)
    requires OneOf(cs, tag, k)
    ensures k < |cs|
  {
  }

  lemma BaseMeans(cs: seq<Chunk>, t: nat)
    requires OneOf(cs, MDDF, t)
    ensures t < |cs| && Base(cs) == |cs[t].data| / 36
  {
    OneIsFirstAndLast(cs, MDDF, t);
  }

  lemma SameLength(a: seq<Chunk>, b: seq<Chunk>)
    requires SameSlots(a, b)
    ensures |a| == |b|
  {
  }

  lemma {:induction false} PatchMeans(raw: bytes, name: bytes, sel: seq<Placement>, hits: nat -> seq<nat>, rs: seq<Chunk>, h: nat)
    requires Rebuilt(raw, name, sel, hits) == Some(rs) && Storable(rs) && Chunks(raw).Some?
    requires FirstOf(rs, MHDR) == Some(h) && LastOf(rs, MHDR) == Some(h) && Chunks(Encode(rs)) == Some(Placed(rs, 0))
    ensures h < |rs|
    ensures Patch(raw, name, sel, hits) ==
              if sel != [] && HeaderCheck(rs, h, h, Placed(rs, 0)) && CellsCheck(Placed(rs, 0), Base(Chunks(raw).value) + |sel|)
              then Some(Encode(rs)) else None
  {
    hide Rebuilt, FirstOf, LastOf, Chunks, Encode, Placed, Storable, HeaderCheck, CellsCheck, Base;
  }

  // ---- where the patcher raises ---------------------------------------------------------------

  /** The word `v` of the file header leads to a chunk whose new distance from the header fits a word. */
  ghost predicate WordRebases(cs: seq<Chunk>, h: nat, v: uint32)
    requires h < |cs|
  {
    exists k :: 0 <= k < |cs| && cs[k].pos == cs[h].pos + 8 + v && 0 <= Offset(cs, k) - Offset(cs, h) - 8 < 0x1_0000_0000
  }

  /** The word `v` of the cell index leads to a map chunk whose new position and size fit words. */
  ghost predicate CellRebases(cs: seq<Chunk>, v: uint32) {
    exists k :: 0 <= k < |cs| && cs[k].tag == MCNK && cs[k].pos == v
                && Offset(cs, k) < 0x1_0000_0000 && |cs[k].data| + 8 < 0x1_0000_0000
  }

  lemma HeaderWordRebases(cs: seq<Chunk>, h: nat, v: uint32)
    requires h < |cs| && DistinctPos(cs)
    ensures HeaderWord(NewOffsets(cs, |cs|), cs[h].pos, Offset(cs, h), v).Some? <==> WordRebases(cs, h, v)
  {
    hide Offset, NewOffsets, Pack32;
    var t, all := v + (cs[h].pos + 8), NewOffsets(cs, |cs|);
    if t in all {
      var k :| 0 <= k < |cs| && cs[k].pos == t && all[t] == Offset(cs, k);
    }
    forall k | 0 <= k < |cs| && cs[k].pos == t
      ensures t in all && all[t] == Offset(cs, k)
    {
      OffsetsHave(cs, k);
    }
  }

  lemma {:induction false} SizesKeys(cs: seq<Chunk>, n: nat, k: nat)
    requires k < n <= |cs| && cs[k].tag == MCNK
    ensures cs[k].pos in CellSizes(cs, n)
  {
    if k < n - 1 {
      SizesKeys(cs, n - 1, k);
    }
  }

  lemma SizesHave(cs: seq<Chunk>, k: nat)
    requires k < |cs| && cs[k].tag == MCNK && DistinctPos(cs)
    ensures cs[k].pos in CellSizes(cs, |cs|) && CellSizes(cs, |cs|)[cs[k].pos] == |cs[k].data| + 8
  {
    hide CellSizes;
    SizesKeys(cs, |cs|, k);
    var j :| 0 <= j < |cs| && cs[j].pos == cs[k].pos && CellSizes(cs, |cs|)[cs[k].pos] == |cs[j].data| + 8;
    assert j == k;
  }

  lemma CellWordRebases(cs: seq<Chunk>, v: uint32)
    requires DistinctPos(cs)
    ensures CellWord(NewOffsets(cs, |cs|), CellSizes(cs, |cs|), v).Some? <==> CellRebases(cs, v)
  {
    hide Offset, NewOffsets, CellSizes, Pack32;
    var all, sizes := NewOffsets(cs, |cs|), CellSizes(cs, |cs|);
    forall k | 0 <= k < |cs| && cs[k].tag == MCNK && cs[k].pos == v
      ensures v in all && all[v] == Offset(cs, k) && v in sizes && sizes[v] == |cs[k].data| + 8
    {
      OffsetsHave(cs, k);
      SizesHave(cs, k);
    }
    if v in all && v in sizes {
      var j :| 0 <= j < |cs| && cs[j].pos == v && cs[j].tag == MCNK && sizes[v] == |cs[j].data| + 8;
    }
  }

  lemma RebaseIs(cs: seq<Chunk>, h: nat, m: nat)
    requires OneOf(cs, MHDR, h) && OneOf(cs, MCIN, m)
    ensures h < |cs| && m < |cs|
    ensures Rebase(cs).Some? <==>
              && Rewrite(cs[h].data, HeaderWords(), 4, HeaderRebaser(NewOffsets(cs, |cs|), cs[h].pos, Offset(cs, h))).Some?
              && Rewrite(cs[m].data, CellWords(|cs[m].data|), 8, CellRebaser(NewOffsets(cs, |cs|), CellSizes(cs, |cs|))).Some?
  {
    hide Rewrite, HeaderRebaser, CellRebaser, HeaderWords, CellWords, NewOffsets, CellSizes, Offset, FirstOf, LastOf;
    OneIsFirstAndLast(cs, MHDR, h);
    OneIsFirstAndLast(cs, MCIN, m);
  }

  ghost predicate HeaderRebases(cs: seq<Chunk>, h: nat)
    requires h < |cs| && |cs[h].data| >= 44
  {
    forall o :: o in {4, 8, 12, 16, 20, 24, 28, 32, 36, 40} && U32(cs[h].data, o) != 0 ==> WordRebases(cs, h, U32(cs[h].data, o))
  }

  ghost predicate IndexRebases(cs: seq<Chunk>, m: nat)
    requires m < |cs| && |cs[m].data| % 16 == 0
  {
    forall o :: 0 <= o < |cs[m].data| && o % 16 == 0 && U32(cs[m].data, o) != 0 ==> CellRebases(cs, U32(cs[m].data, o))
  }

  lemma {:induction false} HeaderRebasesExactly(cs: seq<Chunk>, h: nat)
    requires h < |cs| && |cs[h].data| >= 44 && DistinctPos(cs)
    ensures Rewrite(cs[h].data, HeaderWords(), 4, HeaderRebaser(NewOffsets(cs, |cs|), cs[h].pos, Offset(cs, h))).Some? <==> HeaderRebases(cs, h)
  {
    hide U32, Rewrite, Offset, NewOffsets, WordRebases, HeaderWord, DistinctPos;
    var d, offs, g := cs[h].data, HeaderWords(), HeaderRebaser(NewOffsets(cs, |cs|), cs[h].pos, Offset(cs, h));
    RewriteSucceeds(d, offs, 4, g);
    forall v: uint32
      ensures g(v).Some? <==> WordRebases(cs, h, v)
    {
      HeaderWordRebases(cs, h, v);
    }
    if HeaderRebases(cs, h) {
      forall i | 0 <= i < |offs|
        ensures U32(d, offs[i]) == 0 || g(U32(d, offs[i])).Some?
      {
        assert offs[i] in {4, 8, 12, 16, 20, 24, 28, 32, 36, 40};
      }
    }
    if forall i :: 0 <= i < |offs| ==> U32(d, offs[i]) == 0 || g(U32(d, offs[i])).Some? {
      forall o | o in {4, 8, 12, 16, 20, 24, 28, 32, 36, 40} && U32(d, o) != 0
        ensures WordRebases(cs, h, U32(d, o))
      {
        assert offs[(o - 4) / 4] == o;
      }
    }
  }

  lemma {:induction false} IndexRebasesExactly(cs: seq<Chunk>, m: nat)
    requires m < |cs| && |cs[m].data| % 16 == 0 && DistinctPos(cs)
    ensures Rewrite(cs[m].data, CellWords(|cs[m].data|), 8, CellRebaser(NewOffsets(cs, |cs|), CellSizes(cs, |cs|))).Some? <==> IndexRebases(cs, m)
  {
    hide U32, Rewrite, Offset, NewOffsets, CellSizes, CellRebases, CellWord, DistinctPos;
    var d, offs, g := cs[m].data, CellWords(|cs[m].data|), CellRebaser(NewOffsets(cs, |cs|), CellSizes(cs, |cs|));
    RewriteSucceeds(d, offs, 8, g);
    forall v: uint32
      ensures g(v).Some? <==> CellRebases(cs, v)
    {
      CellWordRebases(cs, v);
    }
    if IndexRebases(cs, m) {
      forall i | 0 <= i < |offs|
        ensures U32(d, offs[i]) == 0 || g(U32(d, offs[i])).Some?
      {
        assert offs[i] == 16 * i && 16 * i % 16 == 0;
      }
    }
    if forall i :: 0 <= i < |offs| ==> U32(d, offs[i]) == 0 || g(U32(d, offs[i])).Some? {
      forall o | 0 <= o < |d| && o % 16 == 0 && U32(d, o) != 0
        ensures CellRebases(cs, U32(d, o))
      {
        assert offs[o / 16] == o;
      }
    }
  }

  /**
   When the offsets of a tile can be rebased: every set word of the file header leads to a chunk and
   every set cell of the index to a map chunk, whose new distance, position and size fit 32 bits.
   */
  lemma {:induction false} RebasesExactly(cs: seq<Chunk>, h: nat, m: nat)
    requires OneOf(cs, MHDR, h) && OneOf(cs, MCIN, m) && DistinctPos(cs)
    requires |cs[h].data| >= 44 && |cs[m].data| % 16 == 0
    ensures Rebase(cs).Some? <==> HeaderRebases(cs, h) && IndexRebases(cs, m)
  {
    hide *;
    RebaseIs(cs, h, m);
    HeaderRebasesExactly(cs, h);
    IndexRebasesExactly(cs, m);
  }

  /** Cell `k` takes the references to the placements that touch it. */
  ghost predicate Takes(cs: seq<Chunk>, k: nat, base: nat, hits: nat -> seq<nat>)
    requires k < |cs|
  {
    && (forall j :: 0 <= j < |hits(k)| ==> base + hits(k)[j] < 0x1_0000_0000)
    && exists refs: seq<uint32> ::
         && |refs| == |hits(k)| && (forall j :: 0 <= j < |refs| ==> refs[j] == base + hits(k)[j])
         && Splice(cs[k].data, refs, FIELDS).Some?
  }

  lemma {:induction false} RefsExactly(base: nat, hit: seq<nat>)
    ensures RefsFor(base, hit).Some? <==> forall j :: 0 <= j < |hit| ==> base + hit[j] < TWO32
  {
    if hit != [] {
      var most := hit[..|hit| - 1];
      RefsExactly(base, most);
      assert forall j :: 0 <= j < |most| ==> most[j] == hit[j];
    }
  }

  lemma TakesExactly(cs: seq<Chunk>, k: nat, base: nat, hits: nat -> seq<nat>)
    requires k < |cs|
    ensures SpliceCell(cs[k], base, hits(k)).Some? <==> Takes(cs, k, base, hits)
  {
    hide Splice, RefsFor;
    RefsExactly(base, hits(k));
    var r := RefsFor(base, hits(k));
    if Takes(cs, k, base, hits) {
      var refs: seq<uint32> :| |refs| == |hits(k)| && (forall j :: 0 <= j < |refs| ==> refs[j] == base + hits(k)[j])
                               && Splice(cs[k].data, refs, FIELDS).Some?;
      assert r.value == refs;
    }
  }

  lemma {:induction false} SplicesExactly(cs: seq<Chunk>, n: nat, base: nat, hits: nat -> seq<nat>)
    requires n <= |cs|
    ensures SpliceCells(cs, n, base, hits).Some? <==> forall k :: 0 <= k < n && cs[k].tag == MCNK ==> Takes(cs, k, base, hits)
  {
    hide SpliceCell, Takes;
    if n > 0 {
      SplicesExactly(cs, n - 1, base, hits);
      TakesExactly(cs, n - 1, base, hits);
    }
  }

  /** When a tile can be edited: the placements can be added, and every cell takes its references. */
  lemma {:induction false} EditsExactly(cs: seq<Chunk>, name: bytes, sel: seq<Placement>, hits: nat -> seq<nat>, t: nat)
    requires OneOf(cs, MDDF, t)
    ensures Edit(cs, name, sel, hits).Some? <==>
              && AddPlacements(cs, name, sel).Some?
              && forall k :: 0 <= k < |cs| && cs[k].tag == MCNK ==> Takes(cs, k, |cs[t].data| / 36, hits)
  {
    hide Takes, AddPlacements, SpliceCells;
    BaseMeans(cs, t);
    if AddPlacements(cs, name, sel).Some? {
      var c := AddPlacements(cs, name, sel).value;
      CellsStay(cs, name, sel, c);
      SplicesExactly(c, |cs|, Base(cs), hits);
      forall k | 0 <= k < |cs| && cs[k].tag == MCNK
        ensures Takes(c, k, Base(cs), hits) <==> Takes(cs, k, Base(cs), hits)
      {
        SameTakes(c, cs, k, Base(cs), hits);
      }
    }
  }

  lemma SameTakes(a: seq<Chunk>, b: seq<Chunk>, k: nat, base: nat, hits: nat -> seq<nat>)
    requires k < |a| && k < |b| && a[k] == b[k]
    ensures Takes(a, k, base, hits) <==> Takes(b, k, base, hits)
  {
    hide Splice;
  }

  lemma CellsStay(cs: seq<Chunk>, name: bytes, sel: seq<Placement>, c: seq<Chunk>)
    requires AddPlacements(cs, name, sel) == Some(c)
    ensures |c| == |cs| && forall k :: 0 <= k < |cs| ==> c[k].tag == cs[k].tag && (cs[k].tag == MCNK ==> c[k] == cs[k])
  {
    hide AppendName, Records, LastOf, IdsFree;
  }
}
