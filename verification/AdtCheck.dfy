/** The patcher's own check of a map cell, and why a splice cannot make it fail. */
module AdtCheck {
  import opened Bytes
  import opened AdtMcnk

  // Subchunk tags, as the little-endian words their reversed bytes spell.
  const MCVT: uint32 := 0x4D43_5654
  const MCNR: uint32 := 0x4D43_4E52
  const MCLY: uint32 := 0x4D43_4C59
  const MCAL: uint32 := 0x4D43_414C
  const MCSH: uint32 := 0x4D43_5348
  const MCSE: uint32 := 0x4D43_5345
  const MCLQ: uint32 := 0x4D43_4C51

  /** The offset field `f`, if set, addresses a subchunk tagged `tag`. */
  predicate Tagged(d: bytes, f: nat, tag: uint32)
    requires f + 4 <= |d|
  {
    U32(d, f) == 0 || (8 <= U32(d, f) && U32(d, f) - 4 <= |d| && U32(d, U32(d, f) - 8) == tag)
  }

  predicate AllBelow(s: seq<uint32>, limit: nat) {
    forall i :: 0 <= i < |s| ==> s[i] < limit
  }

  /** What the patcher asserts of every map cell it has written; `limit` bounds the doodad references. */
  predicate CellOk(d: bytes, limit: nat) {
    && |d| >= 100
    && Tagged(d, 20, MCVT) && Tagged(d, 24, MCNR) && Tagged(d, 28, MCLY) && Tagged(d, 32, MCRF)
    && Tagged(d, 36, MCAL) && Tagged(d, 44, MCSH) && Tagged(d, 88, MCSE) && Tagged(d, 96, MCLQ)
    && 8 <= U32(d, 32) <= |d| && U32(d, U32(d, 32) - 4) == 4 * (U32(d, 16) + U32(d, 56))
    && U32(d, 32) + 4 * U32(d, 16) <= |d|
    && AllBelow(Words(d, U32(d, 32), U32(d, 16)), limit)
  }

  /** The subchunk header field `f` addresses lies past the cell header and clear of MCRF. */
  ghost predicate Clear(d: bytes, f: nat)
    requires |d| >= HEADER && f + 4 <= HEADER
  {
    U32(d, f) == 0 ||
    (U32(d, f) - 8 >= HEADER && U32(d, f) - 4 <= |d| &&
     (U32(d, f) - 4 <= U32(d, 32) - 8 || U32(d, f) - 8 >= U32(d, 32) + 4 * (U32(d, 16) + U32(d, 56))))
  }

  ghost predicate WellPlaced(d: bytes) {
    && Cell(d)
    && Clear(d, 20) && Clear(d, 24) && Clear(d, 28)
    && Clear(d, 36) && Clear(d, 44) && Clear(d, 88) && Clear(d, 96)
  }

  lemma {:induction false} TaggedSurvives(d: bytes, refs: seq<uint32>, fields: seq<nat>, r: bytes, f: nat, tag: uint32)
    requires Cell(d) && refs != [] && HeaderFields(fields) && Splice(d, refs, fields) == Some(r)
    requires f in fields && f + 4 <= HEADER && Clear(d, f) && Tagged(d, f, tag)
    ensures f + 4 <= |r| && Tagged(r, f, tag)
  {
    hide Value, Splice;
    SpliceField(d, refs, fields, r, f);
    if U32(d, f) != 0 {
      SubchunkPreserved(d, refs, fields, r, f, 4);
      var v, v' := U32(d, f), U32(r, f);
      assert U32(r, v' - 8) == U32(d, v - 8);
    }
  }

  lemma {:induction false} McrfTagged(d: bytes, refs: seq<uint32>, fields: seq<nat>, r: bytes)
    requires Cell(d) && refs != [] && HeaderFields(fields) && Splice(d, refs, fields) == Some(r)
    ensures |r| >= HEADER && Tagged(r, 32, MCRF)
  {
    hide U32, Splice, Framed, PackAll, Value;
    assert U32(d, U32(d, 32) - 8) == MCRF by { SpliceSucceeds(d, refs, fields); }
    CountsSpliced(d, refs, fields, r);
    SpliceFrame(d, refs, fields, r);
    ShiftedSlice(d, r, fields, U32(d, 32), InsertAt(d), |PackAll(refs)|, U32(d, 32) - 8, 4);
  }

  lemma BelowSplit(few: seq<uint32>, all: seq<uint32>, a: seq<uint32>, refs: seq<uint32>, b: seq<uint32>, was: nat, limit: nat)
    requires all == a + refs + b && |few| == |a| + |refs|
    requires forall i :: 0 <= i < |few| ==> few[i] == all[i]
    requires AllBelow(a, was) && was <= limit && AllBelow(refs, limit)
    ensures AllBelow(few, limit)
  {
  }

  lemma FewerWords(d: bytes, o: nat, n: nat, total: nat)
    requires n <= total && o + 4 * total <= |d|
    ensures forall i :: 0 <= i < n ==> Words(d, o, n)[i] == Words(d, o, total)[i]
  {
    hide U32, Words;
    forall i | 0 <= i < n
      ensures Words(d, o, n)[i] == Words(d, o, total)[i]
    {
      assert Words(d, o, n)[i] == U32(d, o + 4 * i) == Words(d, o, total)[i];
    }
  }

  lemma {:induction false} DoodadRefs(d: bytes, refs: seq<uint32>, fields: seq<nat>, r: bytes, was: nat, limit: nat)
    requires Cell(d) && refs != [] && HeaderFields(fields) && Splice(d, refs, fields) == Some(r)
    requires AllBelow(Words(d, U32(d, 32), U32(d, 16)), was)
    requires was <= limit && AllBelow(refs, limit)
    ensures |r| == |d| + 4 * |refs|
    ensures AllBelow(Words(r, U32(d, 32), U32(d, 16) + |refs|), limit)
  {
    hide U32, Splice, Words, AllBelow;
    ReferencesSpliced(d, refs, fields, r);
    FewerWords(r, U32(d, 32), U32(d, 16) + |refs|, U32(d, 16) + |refs| + U32(d, 56));
    BelowSplit(Words(r, U32(d, 32), U32(d, 16) + |refs|), Words(r, U32(d, 32), U32(d, 16) + |refs| + U32(d, 56)),
               Words(d, U32(d, 32), U32(d, 16)), refs, Words(d, U32(d, 32) + 4 * U32(d, 16), U32(d, 56)), was, limit);
  }

  lemma {:induction false} TagsSurvive(d: bytes, refs: seq<uint32>, fields: seq<nat>, r: bytes, was: nat)
    requires WellPlaced(d) && CellOk(d, was) && HeaderFields(fields) && refs != [] && Splice(d, refs, fields) == Some(r)
    requires {20, 24, 28, 36, 44, 88, 96} <= set f | f in fields
    ensures |r| >= HEADER
    ensures Tagged(r, 20, MCVT) && Tagged(r, 24, MCNR) && Tagged(r, 28, MCLY)
    ensures Tagged(r, 36, MCAL) && Tagged(r, 44, MCSH) && Tagged(r, 88, MCSE) && Tagged(r, 96, MCLQ)
  {
    hide U32, Splice, Words, AllBelow, Tagged, Clear;
    CountsSpliced(d, refs, fields, r);
    TaggedSurvives(d, refs, fields, r, 20, MCVT);
    TaggedSurvives(d, refs, fields, r, 24, MCNR);
    TaggedSurvives(d, refs, fields, r, 28, MCLY);
    TaggedSurvives(d, refs, fields, r, 36, MCAL);
    TaggedSurvives(d, refs, fields, r, 44, MCSH);
    TaggedSurvives(d, refs, fields, r, 88, MCSE);
    TaggedSurvives(d, refs, fields, r, 96, MCLQ);
  }

  lemma FieldsContained()
    ensures {20, 24, 28, 36, 44, 88, 96} <= set f | f in FIELDS
  {
    assert FIELDS[0] == 20 && FIELDS[1] == 24 && FIELDS[2] == 28 && FIELDS[4] == 36;
    assert FIELDS[5] == 44 && FIELDS[6] == 88 && FIELDS[7] == 96;
  }

  lemma {:induction false} CheckAfterSplice(d: bytes, refs: seq<uint32>, fields: seq<nat>, r: bytes, was: nat, limit: nat)
    requires WellPlaced(d) && CellOk(d, was) && HeaderFields(fields) && refs != [] && Splice(d, refs, fields) == Some(r)
    requires {20, 24, 28, 36, 44, 88, 96} <= set f | f in fields
    requires was <= limit && AllBelow(refs, limit)
    ensures CellOk(r, limit)
  {
    hide U32, Splice, Words, Tagged, AllBelow, Clear;
    TagsSurvive(d, refs, fields, r, was);
    McrfTagged(d, refs, fields, r);
    CountsSpliced(d, refs, fields, r);
    DoodadRefs(d, refs, fields, r, was, limit);
  }

  /** A cell that passed the check before the splice passes it after, for the larger limit. */
  lemma {:induction false} CheckSurvives(d: bytes, refs: seq<uint32>, r: bytes, was: nat, limit: nat)
    requires WellPlaced(d) && CellOk(d, was)
    requires was <= limit && AllBelow(refs, limit) && Splice(d, refs, FIELDS) == Some(r)
    ensures CellOk(r, limit)
  {
    if refs != [] {
      hide Splice, U32, Words, Tagged;
      FieldsAreHeaderFields();
      FieldsContained();
      CheckAfterSplice(d, refs, FIELDS, r, was, limit);
    }
  }
}
