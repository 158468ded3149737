/**
 One map cell (an MCNK payload): the splice that adds doodad references to its MCRF
 subchunk and moves every subchunk offset that lies behind the insertion.
 */
module AdtMcnk {
  import opened Bytes

  /** Every word a rewriter produces has the width its pass overwrites. */
  ghost predicate Width(g: uint32 -> Option<bytes>, w: nat) {
    forall v :: g(v).Some? ==> |g(v).value| == w
  }

  /**
   One in-place pass over the words of `d` at `offs`: a zero word stays, any other is
   replaced, with the bytes behind it, by the `w` bytes `g` gives for it.
   */
  function Rewrite(d: bytes, offs: seq<nat>, w: nat, g: uint32 -> Option<bytes>): (r: Option<bytes>)
    requires Width(g, w)
    ensures r.Some? ==> |r.value| == |d|
    decreases |offs|
  {
    if offs == [] then Some(d)
    else if offs[0] + 4 > |d| then None
    else
      var v := U32(d, offs[0]);
      if v == 0 then Rewrite(d, offs[1..], w, g)
      else if g(v).None? || offs[0] + w > |d| then None
      else Rewrite(Overwrite(d, offs[0], g(v).value), offs[1..], w, g)
  }

  /** The rewritten words do not overlap. */
  ghost predicate Apart(offs: seq<nat>, w: nat) {
    forall i, j :: 0 <= i < j < |offs| ==> offs[i] + w <= offs[j]
  }

  ghost predicate Outside(offs: seq<nat>, w: nat, p: nat) {
    forall i :: 0 <= i < |offs| ==> p < offs[i] || offs[i] + w <= p
  }

  lemma {:induction false} RewriteElsewhere(d: bytes, offs: seq<nat>, w: nat, g: uint32 -> Option<bytes>, p: nat)
    requires Width(g, w) && Rewrite(d, offs, w, g).Some?
    requires p < |d| && Outside(offs, w, p)
    ensures Rewrite(d, offs, w, g).value[p] == d[p]
    decreases |offs|
  {
    if offs != [] {
      var v := U32(d, offs[0]);
      assert p < offs[0] || offs[0] + w <= p;
      RewriteElsewhere(if v == 0 then d else Overwrite(d, offs[0], g(v).value), offs[1..], w, g, p);
    }
  }

  lemma {:induction false} RewriteReads(d: bytes, offs: seq<nat>, w: nat, g: uint32 -> Option<bytes>, k: nat)
    requires w >= 4 && Width(g, w) && k < |offs|
    requires Rewrite(d, offs, w, g).Some?
    ensures offs[k] + 4 <= |d|
    decreases |offs|
  {
    if k > 0 {
      var v := U32(d, offs[0]);
      RewriteReads(if v == 0 then d else Overwrite(d, offs[0], g(v).value), offs[1..], w, g, k - 1);
    }
  }

  lemma {:induction false} RewriteFirst(d: bytes, offs: seq<nat>, w: nat, g: uint32 -> Option<bytes>, r: bytes)
    requires w >= 4 && Width(g, w) && Apart(offs, w) && offs != []
    requires Rewrite(d, offs, w, g) == Some(r)
    ensures U32(d, offs[0]) == 0 ==> U32(r, offs[0]) == 0
    ensures U32(d, offs[0]) != 0 ==>
              && offs[0] + w <= |d| && g(U32(d, offs[0])).Some?
              && r[offs[0]..offs[0] + w] == g(U32(d, offs[0])).value
  {
    hide Value, Rewrite;
    var o := offs[0];
    var d1 := RewriteStep(d, offs, w, g, r);
    forall p | o <= p < o + w && p < |d|
      ensures r[p] == d1[p]
    {
      RewriteElsewhere(d1, offs[1..], w, g, p);
    }
    assert r[o..o + 4] == d1[o..o + 4];
    if U32(d, o) != 0 {
      assert r[o..o + w] == d1[o..o + w] == g(U32(d, o)).value;
    }
  }

  /** The payload after the first word of a pass is dealt with. */
  ghost function Stepped(d: bytes, o: nat, w: nat, g: uint32 -> Option<bytes>): (r: bytes)
    requires Width(g, w) && o + 4 <= |d| && (U32(d, o) != 0 ==> g(U32(d, o)).Some? && o + w <= |d|)
    ensures |r| == |d|
  {
    if U32(d, o) == 0 then d else Overwrite(d, o, g(U32(d, o)).value)
  }

  lemma RewriteStep(d: bytes, offs: seq<nat>, w: nat, g: uint32 -> Option<bytes>, r: bytes) returns (d1: bytes)
    requires Width(g, w) && offs != [] && Rewrite(d, offs, w, g) == Some(r)
    ensures offs[0] + 4 <= |d| && (U32(d, offs[0]) != 0 ==> g(U32(d, offs[0])).Some? && offs[0] + w <= |d|)
    ensures d1 == Stepped(d, offs[0], w, g) && Rewrite(d1, offs[1..], w, g) == Some(r)
  {
    hide U32, Overwrite;
    d1 := Stepped(d, offs[0], w, g);
  }

  lemma SteppedWord(d: bytes, o: nat, w: nat, g: uint32 -> Option<bytes>, p: nat)
    requires Width(g, w) && o + 4 <= |d| && (U32(d, o) != 0 ==> g(U32(d, o)).Some? && o + w <= |d|)
    requires o + w <= p && p + 4 <= |d|
    ensures U32(Stepped(d, o, w, g), p) == U32(d, p)
  {
    hide Value;
    if U32(d, o) != 0 {
      OverwriteElsewhere(d, o, g(U32(d, o)).value, p, 4);
    }
  }

  /** What a pass leaves at its `k`-th word. */
  lemma {:induction false} RewriteAt(d: bytes, offs: seq<nat>, w: nat, g: uint32 -> Option<bytes>, k: nat, r: bytes)
    requires w >= 4 && Width(g, w) && Apart(offs, w) && k < |offs|
    requires Rewrite(d, offs, w, g) == Some(r)
    ensures offs[k] + 4 <= |d|
    ensures U32(d, offs[k]) == 0 ==> U32(r, offs[k]) == 0
    ensures U32(d, offs[k]) != 0 ==>
              && offs[k] + w <= |d| && g(U32(d, offs[k])).Some?
              && r[offs[k]..offs[k] + w] == g(U32(d, offs[k])).value
    decreases |offs|
  {
    hide U32, Stepped, Rewrite;
    RewriteReads(d, offs, w, g, k);
    if k == 0 {
      RewriteFirst(d, offs, w, g, r);
    } else {
      var d1 := RewriteStep(d, offs, w, g, r);
      SteppedWord(d, offs[0], w, g, offs[k]);
      RewriteAt(d1, offs[1..], w, g, k - 1, r);
    }
  }

  // ---- the splice ------------------------------------------------------------------

  const MCRF: uint32 := 0x4D43_5246   // the tag bytes "FRCM": tags are stored reversed
  const HEADER: nat := 128            // bytes of MCNK fields before its subchunks

  /** Offset fields of an MCNK header, by position in the payload. */
  const FIELDS: seq<nat> := [20, 24, 28, 32, 36, 44, 88, 96, 116]

  /** A list of offset fields: words of the header, in order, that contain `offsMCRF`. */
  ghost predicate HeaderFields(fields: seq<nat>) {
    && Apart(fields, 4)
    && (forall i :: 0 <= i < |fields| ==> 20 <= fields[i] <= 116 && fields[i] != 56)
    && (forall i :: 0 <= i < |fields| ==> fields[i] + 4 <= 56 || 60 <= fields[i])
    && 32 in fields
  }

  lemma FieldsAreHeaderFields()
    ensures HeaderFields(FIELDS)
    ensures forall f :: f in FIELDS <==> f in {20, 24, 28, 32, 36, 44, 88, 96, 116}
  {
    assert FIELDS[3] == 32;
    TheNineFields();
  }

  lemma TheNineFields()
    ensures forall f :: f in FIELDS <==> f in {20, 24, 28, 32, 36, 44, 88, 96, 116}
  {
    assert FIELDS[0] == 20 && FIELDS[1] == 24 && FIELDS[2] == 28 && FIELDS[3] == 32 && FIELDS[4] == 36;
    assert FIELDS[5] == 44 && FIELDS[6] == 88 && FIELDS[7] == 96 && FIELDS[8] == 116;
  }

  function PackAll(refs: seq<uint32>): (r: bytes)
    ensures |r| == 4 * |refs|
  {
    if refs == [] then [] else Pack32(refs[0]) + PackAll(refs[1..])
  }

  /** Where an offset field goes when `delta` bytes are inserted at payload position `at`. */
  function Move(at: nat, delta: nat, v: uint32): (r: Option<bytes>)
    ensures r.Some? ==> |r.value| == 4
  {
    if v - 8 < at then Some(Pack32(v))
    else if v + delta < TWO32 then Some(Pack32(v + delta))
    else None
  }

  function Mover(at: nat, delta: nat): (g: uint32 -> Option<bytes>)
    ensures Width(g, 4)
    ensures forall v :: g(v) == Move(at, delta, v)
  {
    (v: uint32) => Move(at, delta, v)
  }

  /** `ins` inserted at `at`, then the doodad count and the MCRF size overwritten. */
  function Stitch(d: bytes, at: nat, ins: bytes, rf: nat, count: bytes, size: bytes): (r: bytes)
    requires at <= |d| && 20 <= |d| && rf + 8 <= |d| && |count| == 4 && |size| == 4
  {
    Overwrite(Overwrite(d[..at] + ins + d[at..], 16, count), rf + 4, size)
  }

  /** The cell with the words `refs` spliced in behind its doodad references, fields not yet moved. */
  function Inserted(d: bytes, refs: seq<uint32>): (r: Option<bytes>) {
    if |d| < 116 then None
    else
      var nD: int, nW: int, o: int := U32(d, 16), U32(d, 56), U32(d, 32);
      var rf := o - 8;
      if rf < 0 || rf + 8 > |d| || U32(d, rf) != MCRF || U32(d, rf + 4) != 4 * (nD + nW) then None
      else if 4 * (nD + nW + |refs|) >= TWO32 then None
      else
        var at := if rf + 8 + 4 * nD <= |d| then rf + 8 + 4 * nD else |d|;
        Some(Stitch(d, at, PackAll(refs), rf, Pack32(nD + |refs|), Pack32(4 * (nD + nW + |refs|))))
  }

  /** The payload of a cell after `refs` are spliced in, or None where the original raises. */
  function Splice(d: bytes, refs: seq<uint32>, fields: seq<nat>): (r: Option<bytes>) {
    if |d| < 116 then None
    else if refs == [] then Some(d)
    else
      var d1 := Inserted(d, refs);
      if d1.None? then None
      else Rewrite(d1.value, fields, 4, Mover(U32(d, 32) + 4 * U32(d, 16), 4 * |refs|))
  }

  /** The whole MCRF subchunk of a cell lies behind the header and inside the payload. */
  ghost predicate Cell(d: bytes) {
    && |d| >= HEADER
    && HEADER + 8 <= U32(d, 32)
    && U32(d, 32) + 4 * (U32(d, 16) + U32(d, 56)) <= |d|
  }

  /** Payload position at which new references go: behind the doodad references. */
  ghost function InsertAt(d: bytes): (n: nat)
    requires |d| >= HEADER
  {
    U32(d, 32) + 4 * U32(d, 16)
  }

  ghost function After(at: nat, delta: nat, p: nat): (q: nat) {
    if p < at then p else p + delta
  }

  /** A word the splice rewrites: the doodad count, an offset field, or the MCRF size. */
  ghost predicate Rewritten(fields: seq<nat>, o: nat, p: nat) {
    16 <= p < 20 || !Outside(fields, 4, p) || o - 4 <= p < o
  }

  /**
   Every byte of `d` that is not in a rewritten word is in `r`, at its old position or
   `delta` further on.
   */
  ghost predicate Framed(d: bytes, r: bytes, fields: seq<nat>, o: nat, at: nat, delta: nat) {
    && |r| == |d| + delta
    && forall p :: 0 <= p < |d| && !Rewritten(fields, o, p) ==> r[After(at, delta, p)] == d[p]
  }

  /** `ins` stands in `r` at position `p`. */
  ghost predicate Holds(r: bytes, p: nat, ins: bytes) {
    p + |ins| <= |r| && r[p..p + |ins|] == ins
  }

  lemma StitchFrame(d: bytes, at: nat, ins: bytes, o: nat, count: bytes, size: bytes, r: bytes)
    requires HEADER + 8 <= o <= at <= |d| && |count| == 4 && |size| == 4
    requires r == Stitch(d, at, ins, o - 8, count, size)
    ensures Holds(r, at, ins)
    ensures Framed(d, r, [], o, at, |ins|)
  {
  }

  lemma StitchBytes(d: bytes, at: nat, ins: bytes, o: nat, count: uint32, size: uint32)
    requires HEADER + 8 <= o <= at <= |d|
    ensures var r := Stitch(d, at, ins, o - 8, Pack32(count), Pack32(size));
            && |r| == |d| + |ins|
            && U32(r, 16) == count && U32(r, o - 4) == size && Holds(r, at, ins)
            && Framed(d, r, [], o, at, |ins|)
  {
    var r := Stitch(d, at, ins, o - 8, Pack32(count), Pack32(size));
    assert r[16..20] == Pack32(count);
    assert r[o - 4..o] == Pack32(size);
    hide Value, Stitch, Holds;
    StitchFrame(d, at, ins, o, Pack32(count), Pack32(size), r);
  }

  lemma InsertedIsStitch(d: bytes, refs: seq<uint32>, r: bytes)
    requires Cell(d) && Inserted(d, refs) == Some(r)
    ensures U32(d, U32(d, 32) - 8) == MCRF
    ensures 4 * (U32(d, 16) + U32(d, 56) + |refs|) < TWO32
    ensures r == Stitch(d, InsertAt(d), PackAll(refs), U32(d, 32) - 8,
                        Pack32(U32(d, 16) + |refs|), Pack32(4 * (U32(d, 16) + U32(d, 56) + |refs|)))
  {
    hide U32, Stitch, Pack32, PackAll;
  }

  lemma InsertedBytes(d: bytes, refs: seq<uint32>, r: bytes)
    requires Cell(d) && Inserted(d, refs) == Some(r)
    ensures Framed(d, r, [], U32(d, 32), InsertAt(d), |PackAll(refs)|)
    ensures U32(r, 16) == U32(d, 16) + |refs|
    ensures U32(r, U32(d, 32) - 4) == 4 * (U32(d, 16) + U32(d, 56) + |refs|)
    ensures Holds(r, InsertAt(d), PackAll(refs))
  {
    hide U32, Stitch, Pack32, PackAll, Inserted, Framed, Holds;
    InsertedIsStitch(d, refs, r);
    StitchBytes(d, InsertAt(d), PackAll(refs), U32(d, 32), U32(d, 16) + |refs|, 4 * (U32(d, 16) + U32(d, 56) + |refs|));
  }

  /** The moved offset fields leave every other byte of the stitched cell alone. */
  lemma {:induction false} MovedElsewhere(s: bytes, fields: seq<nat>, at: nat, delta: nat, r: bytes, p: nat)
    requires Rewrite(s, fields, 4, Mover(at, delta)) == Some(r)
    requires p < |s| && Outside(fields, 4, p)
    ensures r[p] == s[p]
  {
    RewriteElsewhere(s, fields, 4, Mover(at, delta), p);
  }

  lemma FrameCompose(d: bytes, s: bytes, fields: seq<nat>, r: bytes, o: nat, at: nat, delta: nat)
    requires HeaderFields(fields) && HEADER + 8 <= o <= at && |d| >= HEADER
    requires Framed(d, s, [], o, at, delta)
    requires Rewrite(s, fields, 4, Mover(at, delta)) == Some(r)
    ensures Framed(d, r, fields, o, at, delta)
  {
    hide Rewrite, Mover;
    forall p | 0 <= p < |d| && !Rewritten(fields, o, p)
      ensures r[After(at, delta, p)] == d[p]
    {
      MovedElsewhere(s, fields, at, delta, r, After(at, delta, p));
    }
  }

  lemma {:induction false} WordPastHeader(s: bytes, fields: seq<nat>, at: nat, delta: nat, r: bytes, p: nat)
    requires HeaderFields(fields) && (HEADER <= p || p == 16) && p + 4 <= |s|
    requires Rewrite(s, fields, 4, Mover(at, delta)) == Some(r)
    ensures U32(r, p) == U32(s, p)
  {
    hide Rewrite, Mover, Value;
    forall i | p <= i < p + 4
      ensures r[i] == s[i]
    {
      MovedElsewhere(s, fields, at, delta, r, i);
    }
    assert r[p..p + 4] == s[p..p + 4];
  }

  lemma {:induction false} HoldsPastHeader(s: bytes, fields: seq<nat>, at: nat, delta: nat, r: bytes, p: nat, ins: bytes)
    requires HeaderFields(fields) && HEADER <= p && Holds(s, p, ins)
    requires Rewrite(s, fields, 4, Mover(at, delta)) == Some(r)
    ensures Holds(r, p, ins)
  {
    hide Rewrite, Mover;
    forall i | p <= i < p + |ins|
      ensures r[i] == s[i]
    {
      MovedElsewhere(s, fields, at, delta, r, i);
    }
    assert r[p..p + |ins|] == s[p..p + |ins|];
  }

  /** The two stages of a splice: insert, then move the offset fields. */
  lemma SpliceStages(d: bytes, refs: seq<uint32>, fields: seq<nat>, r: bytes) returns (s: bytes)
    requires Cell(d) && refs != [] && Splice(d, refs, fields) == Some(r)
    ensures Inserted(d, refs) == Some(s)
    ensures Rewrite(s, fields, 4, Mover(InsertAt(d), |PackAll(refs)|)) == Some(r)
  {
    hide U32, Inserted, Rewrite, PackAll;
    s := Inserted(d, refs).value;
  }

  /** Outside the rewritten words the splice only moves bytes. */
  lemma {:induction false} SpliceFrame(d: bytes, refs: seq<uint32>, fields: seq<nat>, r: bytes)
    requires Cell(d) && refs != [] && HeaderFields(fields) && Splice(d, refs, fields) == Some(r)
    ensures Framed(d, r, fields, U32(d, 32), InsertAt(d), |PackAll(refs)|)
  {
    hide U32, Inserted, PackAll, Rewrite, Mover, Holds, Framed, Splice;
    var s := SpliceStages(d, refs, fields, r);
    InsertedBytes(d, refs, s);
    FrameCompose(d, s, fields, r, U32(d, 32), InsertAt(d), |PackAll(refs)|);
  }

  /** The gap holds the new references, and the two size fields count them. */
  lemma {:induction false} SpliceGap(d: bytes, refs: seq<uint32>, fields: seq<nat>, r: bytes)
    requires Cell(d) && refs != [] && HeaderFields(fields) && Splice(d, refs, fields) == Some(r)
    ensures Holds(r, InsertAt(d), PackAll(refs)) && |r| >= |d|
    ensures U32(r, 16) == U32(d, 16) + |refs|
    ensures U32(r, U32(d, 32) - 4) == 4 * (U32(d, 16) + U32(d, 56) + |refs|)
  {
    hide U32, Inserted, PackAll, Rewrite, Mover, Holds, Framed, Splice;
    var s := SpliceStages(d, refs, fields, r);
    InsertedBytes(d, refs, s);
    assert |s| >= |d| by { FramedSize(d, s, [], U32(d, 32), InsertAt(d), |PackAll(refs)|); }
    HoldsPastHeader(s, fields, InsertAt(d), |PackAll(refs)|, r, InsertAt(d), PackAll(refs));
    WordPastHeader(s, fields, InsertAt(d), |PackAll(refs)|, r, 16);
    WordPastHeader(s, fields, InsertAt(d), |PackAll(refs)|, r, U32(d, 32) - 4);
  }

  lemma FramedSize(d: bytes, r: bytes, fields: seq<nat>, o: nat, at: nat, delta: nat)
    requires Framed(d, r, fields, o, at, delta)
    ensures |r| == |d| + delta
  {
  }

  /** A header word outside the ones the splice rewrites, before the offset fields are moved. */
  lemma FieldBeforeMove(d: bytes, s: bytes, o: nat, at: nat, delta: nat, f: nat)
    requires Framed(d, s, [], o, at, delta) && HEADER + 8 <= o <= at && |d| >= HEADER
    requires 20 <= f <= HEADER - 4
    ensures U32(s, f) == U32(d, f)
  {
    hide Value;
    forall i | f <= i < f + 4
      ensures s[i] == d[i]
    {
      assert !Rewritten([], o, i) && After(at, delta, i) == i;
    }
    assert s[f..f + 4] == d[f..f + 4];
  }

  /** Each offset field is zero if it was, and otherwise moves exactly when it points past the insertion. */
  lemma SpliceField(d: bytes, refs: seq<uint32>, fields: seq<nat>, r: bytes, f: nat)
    requires Cell(d) && refs != [] && HeaderFields(fields) && Splice(d, refs, fields) == Some(r)
    requires f in fields
    ensures |r| >= |d| && 20 <= f <= 116
    ensures U32(r, f) == if U32(d, f) == 0 || U32(d, f) - 8 < InsertAt(d) then U32(d, f) else U32(d, f) + 4 * |refs|
  {
    hide Inserted, PackAll, Outside, Rewrite, Value, Splice, Holds;
    var s := SpliceStages(d, refs, fields, r);
    InsertedBytes(d, refs, s);
    var k :| 0 <= k < |fields| && fields[k] == f;
    FieldBeforeMove(d, s, U32(d, 32), InsertAt(d), |PackAll(refs)|, f);
    RewriteAt(s, fields, 4, Mover(InsertAt(d), |PackAll(refs)|), k, r);
  }

  lemma ShiftedSlice(d: bytes, r: bytes, fields: seq<nat>, o: nat, at: nat, delta: nat, p: nat, n: nat)
    requires HeaderFields(fields) && HEADER + 8 <= o <= at && p + n <= |d|
    requires Framed(d, r, fields, o, at, delta)
    requires (p == 56 && n == 4) || (HEADER <= p && (p + n <= o - 4 || o <= p))
    requires p + n <= at || at <= p
    ensures After(at, delta, p) + n <= |r|
    ensures r[After(at, delta, p)..After(at, delta, p) + n] == d[p..p + n]
    ensures n == 4 ==> U32(r, After(at, delta, p)) == U32(d, p)
  {
    hide Value;
    var q := After(at, delta, p);
    forall i | p <= i < p + n
      ensures r[i + (q - p)] == d[i]
    {
      assert !Rewritten(fields, o, i);
      assert After(at, delta, i) == i + (q - p);
    }
  }

  /**
   Relocation inside a cell. Whatever `n` bytes an offset field addressed, past the header
   and clear of MCRF, the moved field addresses the same bytes.
   */
  lemma {:induction false} SubchunkPreserved(d: bytes, refs: seq<uint32>, fields: seq<nat>, r: bytes, f: nat, n: nat)
    requires Cell(d) && refs != [] && HeaderFields(fields) && Splice(d, refs, fields) == Some(r)
    requires f in fields && f <= 116 && U32(d, f) - 8 >= HEADER && U32(d, f) - 8 + n <= |d|
    requires || U32(d, f) - 8 + n <= U32(d, 32) - 8
             || U32(d, f) - 8 >= U32(d, 32) + 4 * (U32(d, 16) + U32(d, 56))
    ensures |r| >= HEADER && U32(r, f) - 8 >= HEADER && U32(r, f) - 8 + n <= |r|
    ensures r[U32(r, f) - 8..U32(r, f) - 8 + n] == d[U32(d, f) - 8..U32(d, f) - 8 + n]
  {
    hide U32, Splice, PackAll, Framed, Holds;
    SpliceFrame(d, refs, fields, r);
    SpliceField(d, refs, fields, r, f);
    ShiftedSlice(d, r, fields, U32(d, 32), InsertAt(d), |PackAll(refs)|, U32(d, f) - 8, n);
  }

  /** `n` words from position `o` on. */
  function Words(d: bytes, o: nat, n: nat): (r: seq<uint32>)
    requires o + 4 * n <= |d|
    ensures |r| == n
    ensures forall i :: 0 <= i < n ==> r[i] == U32(d, o + 4 * i)
  {
    if n == 0 then [] else Words(d, o, n - 1) + [U32(d, o + 4 * (n - 1))]
  }

  lemma {:induction false} PackAllAt(refs: seq<uint32>, i: nat, p: nat)
    requires i < |refs| && p == 4 * i
    ensures p + 4 <= |PackAll(refs)| && Value(PackAll(refs)[p..p + 4]) == refs[i]
  {
    hide Value, Digits;
    var a, b := PackAll(refs), PackAll(refs[1..]);
    if i > 0 {
      PackAllAt(refs[1..], i - 1, p - 4);
      assert a[p..p + 4] == b[p - 4..p];
    } else {
      assert a[0..4] == Pack32(refs[0]);
    }
  }

  lemma HoldsSlice(r: bytes, at: nat, ins: bytes, p: nat)
    requires Holds(r, at, ins) && p + 4 <= |ins|
    ensures at + p + 4 <= |r| && U32(r, at + p) == Value(ins[p..p + 4])
  {
    hide Value;
    SliceOfSlice(r, at, |ins|, p, 4);
  }

  lemma {:induction false} NewReferenceAt(r: bytes, refs: seq<uint32>, at: nat, j: nat, p: nat)
    requires Holds(r, at, PackAll(refs)) && j < |refs| && p == 4 * j
    ensures at + p + 4 <= |r| && U32(r, at + p) == refs[j]
  {
    hide Value, PackAll, Holds, U32;
    PackAllAt(refs, j, p);
    HoldsSlice(r, at, PackAll(refs), p);
  }

  lemma ReferenceAt(d: bytes, refs: seq<uint32>, fields: seq<nat>, r: bytes, o: nat, nD: nat, nW: nat, i: nat)
    requires HeaderFields(fields) && HEADER + 8 <= o && o + 4 * (nD + nW) <= |d|
    requires Framed(d, r, fields, o, o + 4 * nD, |PackAll(refs)|)
    requires Holds(r, o + 4 * nD, PackAll(refs))
    requires i < nD + |refs| + nW
    ensures U32(r, o + 4 * i) == (Words(d, o, nD) + refs + Words(d, o + 4 * nD, nW))[i]
  {
    hide U32, PackAll, Holds;
    var at, delta := o + 4 * nD, |PackAll(refs)|;
    if i < nD {
      ShiftedSlice(d, r, fields, o, at, delta, o + 4 * i, 4);
    } else if i < nD + |refs| {
      NewReferenceAt(r, refs, at, i - nD, 4 * (i - nD));
    } else {
      ShiftedSlice(d, r, fields, o, at, delta, o + 4 * (i - |refs|), 4);
    }
  }

  lemma AllReferences(d: bytes, refs: seq<uint32>, fields: seq<nat>, r: bytes, o: nat, nD: nat, nW: nat)
    requires HeaderFields(fields) && HEADER + 8 <= o && o + 4 * (nD + nW) <= |d|
    requires Framed(d, r, fields, o, o + 4 * nD, |PackAll(refs)|)
    requires Holds(r, o + 4 * nD, PackAll(refs))
    ensures Words(r, o, nD + |refs| + nW) == Words(d, o, nD) + refs + Words(d, o + 4 * nD, nW)
  {
    hide U32, PackAll, Words, Holds;
    forall i | 0 <= i < nD + |refs| + nW
      ensures U32(r, o + 4 * i) == (Words(d, o, nD) + refs + Words(d, o + 4 * nD, nW))[i]
    {
      ReferenceAt(d, refs, fields, r, o, nD, nW, i);
    }
  }

  /** The counts and sizes of a spliced cell agree with each other and with the old ones. */
  lemma {:induction false} CountsSpliced(d: bytes, refs: seq<uint32>, fields: seq<nat>, r: bytes)
    requires Cell(d) && refs != [] && HeaderFields(fields) && Splice(d, refs, fields) == Some(r)
    ensures |r| == |d| + 4 * |refs|
    ensures U32(r, 32) == U32(d, 32) && U32(r, 56) == U32(d, 56)
    ensures U32(r, 16) == U32(d, 16) + |refs|
    ensures U32(r, U32(r, 32) - 4) == 4 * (U32(r, 16) + U32(r, 56))
  {
    hide U32, Splice, PackAll, Holds;
    SpliceFrame(d, refs, fields, r);
    SpliceGap(d, refs, fields, r);
    SpliceField(d, refs, fields, r, 32);
    ShiftedSlice(d, r, fields, U32(d, 32), InsertAt(d), |PackAll(refs)|, 56, 4);
  }

  /** MCRF becomes the old doodad references, the new ones, then the old map-object references. */
  lemma {:induction false} ReferencesSpliced(d: bytes, refs: seq<uint32>, fields: seq<nat>, r: bytes)
    requires Cell(d) && refs != [] && HeaderFields(fields) && Splice(d, refs, fields) == Some(r)
    ensures |r| == |d| + 4 * |refs|
    ensures Words(r, U32(d, 32), U32(d, 16) + |refs| + U32(d, 56))
         == Words(d, U32(d, 32), U32(d, 16)) + refs + Words(d, U32(d, 32) + 4 * U32(d, 16), U32(d, 56))
  {
    hide U32, Splice, PackAll, Words, Holds;
    SpliceFrame(d, refs, fields, r);
    SpliceGap(d, refs, fields, r);
    AllReferences(d, refs, fields, r, U32(d, 32), U32(d, 16), U32(d, 56));
  }

  // ---- when the splice goes through --------------------------------------------------

  /** A pass over words inside the payload goes through exactly if every nonzero word has a replacement. */
  lemma {:induction false} RewriteSucceeds(d: bytes, offs: seq<nat>, w: nat, g: uint32 -> Option<bytes>)
    requires w >= 4 && Width(g, w) && Apart(offs, w) && forall i :: 0 <= i < |offs| ==> offs[i] + w <= |d|
    ensures Rewrite(d, offs, w, g).Some? <==> forall i :: 0 <= i < |offs| ==> U32(d, offs[i]) == 0 || g(U32(d, offs[i])).Some?
    decreases |offs|
  {
    hide U32;
    if offs != [] && (U32(d, offs[0]) == 0 || g(U32(d, offs[0])).Some?) {
      var d1 := Stepped(d, offs[0], w, g);
      RewriteSucceeds(d1, offs[1..], w, g);
      forall i | 0 < i < |offs|
        ensures U32(d1, offs[1..][i - 1]) == U32(d, offs[i])
      {
        SteppedWord(d, offs[0], w, g, offs[i]);
      }
      assert Rewrite(d, offs, w, g) == Rewrite(d1, offs[1..], w, g);
      assert forall i :: 0 < i < |offs| ==> offs[i] == offs[1..][i - 1];
    }
  }

  /** The tag and the sizes of MCRF agree, and no count, size or moved offset outgrows 32 bits. */
  ghost predicate Spliceable(d: bytes, refs: seq<uint32>, fields: seq<nat>)
    requires Cell(d) && HeaderFields(fields)
  {
    && U32(d, U32(d, 32) - 8) == MCRF && U32(d, U32(d, 32) - 4) == 4 * (U32(d, 16) + U32(d, 56))
    && 4 * (U32(d, 16) + U32(d, 56) + |refs|) < 0x1_0000_0000
    && forall i :: 0 <= i < |fields| ==> Moves(d, refs, fields[i])
  }

  ghost predicate Moves(d: bytes, refs: seq<uint32>, f: nat)
    requires Cell(d) && f + 4 <= |d|
  {
    U32(d, f) == 0 || U32(d, f) - 8 < InsertAt(d) || U32(d, f) + 4 * |refs| < 0x1_0000_0000
  }

  lemma InsertedSucceeds(d: bytes, refs: seq<uint32>)
    requires Cell(d)
    ensures Inserted(d, refs).Some? <==>
              && U32(d, U32(d, 32) - 8) == MCRF && U32(d, U32(d, 32) - 4) == 4 * (U32(d, 16) + U32(d, 56))
              && 4 * (U32(d, 16) + U32(d, 56) + |refs|) < TWO32
  {
    hide U32, Stitch, Pack32, PackAll;
  }

  lemma SpliceIs(d: bytes, refs: seq<uint32>, fields: seq<nat>)
    requires Cell(d) && refs != []
    ensures Splice(d, refs, fields) ==
              if Inserted(d, refs).None? then None
              else Rewrite(Inserted(d, refs).value, fields, 4, Mover(InsertAt(d), 4 * |refs|))
  {
    hide U32, Inserted, Rewrite, Mover;
  }

  /** Where the original goes through and where it raises. */
  lemma {:induction false} SpliceSucceeds(d: bytes, refs: seq<uint32>, fields: seq<nat>)
    requires Cell(d) && refs != [] && HeaderFields(fields)
    ensures Splice(d, refs, fields).Some? <==> Spliceable(d, refs, fields)
  {
    hide U32, Inserted, Rewrite, PackAll, Splice, Framed, Holds;
    InsertedSucceeds(d, refs);
    SpliceIs(d, refs, fields);
    if Inserted(d, refs).Some? {
      var s := Inserted(d, refs).value;
      var at := InsertAt(d);
      InsertedBytes(d, refs, s);
      FramedSize(d, s, [], U32(d, 32), at, |PackAll(refs)|);
      RewriteSucceeds(s, fields, 4, Mover(at, 4 * |refs|));
      forall i | 0 <= i < |fields|
        ensures U32(s, fields[i]) == U32(d, fields[i])
      {
        FieldBeforeMove(d, s, U32(d, 32), at, |PackAll(refs)|, fields[i]);
      }
    }
  }

  function Spell(a: int, b: int, c: int, e: int): int {
    a + 0x100 * b + 0x1_0000 * c + 0x100_0000 * e
  }

  lemma ValueOfFour(w: bytes)
    requires |w| == 4
    ensures Value(w) == Spell(w[0], w[1], w[2], w[3])
  {
    var w1, w2, w3 := w[1..], w[2..], w[3..];
    assert Value(w3) == w3[0] by { assert w3[1..] == []; }
    assert w2[1..] == w3 && w1[1..] == w2;
    var v3: int, v2: int, v1: int := Value(w3), Value(w2), Value(w1);
    assert v2 == w[2] + 256 * v3 && v1 == w[1] + 256 * v2 && Value(w) == w[0] + 256 * v1;
  }

  /** The smallest cell: an empty MCRF behind the header, and no other subchunk. */
  function SmallestCell(): (d: bytes) {
    seq(136, i => if i == 32 then 136 else if i == 128 then 0x46 else if i == 129 then 0x52
                  else if i == 130 then 0x43 else if i == 131 then 0x4D else 0)
  }

  /** Its words are zero but for offsMCRF and the tag of MCRF. */
  lemma SmallestCellWord(p: nat)
    requires p <= 132 && p % 4 == 0
    ensures U32(SmallestCell(), p) == if p == 32 then 136 else if p == 128 then MCRF else 0
  {
    hide Value;
    var w := SmallestCell()[p..p + 4];
    ValueOfFour(w);
  }

  /** It takes any number of references that fits. */
  lemma SmallestCellSplices(refs: seq<uint32>)
    requires refs != [] && 4 * |refs| < TWO32
    ensures Cell(SmallestCell()) && Splice(SmallestCell(), refs, FIELDS).Some?
  {
    hide U32, Splice;
    var d := SmallestCell();
    SmallestCellWord(16);
    SmallestCellWord(32);
    SmallestCellWord(56);
    SmallestCellWord(128);
    SmallestCellWord(132);
    FieldsAreHeaderFields();
    forall i | 0 <= i < |FIELDS|
      ensures Moves(d, refs, FIELDS[i])
    {
      assert FIELDS[i] % 4 == 0 && FIELDS[i] <= 116;
      SmallestCellWord(FIELDS[i]);
    }
    SpliceSucceeds(d, refs, FIELDS);
  }
}
