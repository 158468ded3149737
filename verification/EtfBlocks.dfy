/**
 Which values come back, empty arrays included. An empty array is written as a nil and then a
 list, of which only the nil is read for it: what follows is read out of step. The module
 counts the empty arrays that are left over.
 */
module EtfBlocks {
  import opened Bytes
  import opened Etf
  import opened EtfProof

  // ---- left-over empty arrays ------------------------------------------------------------------

  const EMPTY_LIST: bytes := [LIST, 0, 0, 0, 0, NIL]

  /** Empty arrays in a row: `true` for a nil, `false` for a list. */
  function Blocks(bs: seq<bool>): bytes {
    if bs == [] then [] else (if bs[0] then [NIL] else EMPTY_LIST) + Blocks(bs[1..])
  }

  lemma {:induction false} BlocksAppend(a: seq<bool>, b: seq<bool>)
    ensures Blocks(a + b) == Blocks(a) + Blocks(b)
  {
    if a == [] {
      assert a + b == b;
    } else {
      assert (a + b)[1..] == a[1..] + b;
      BlocksAppend(a[1..], b);
      Assoc(if a[0] then [NIL] else EMPTY_LIST, Blocks(a[1..]), Blocks(b));
    }
  }

  // ---- when a value comes back -------------------------------------------------------------------

  /** The blocks left over when a value comes back as itself; `None` when it does not. */
  function Back(v: Json): Option<seq<bool>>
    decreases v, 1
  {
    match v
    case Arr(items) =>
      if items == [] then Some([false])
      else
        var left := BackAll([], items);
        if left.None? then None
        else if left.value == [] then left
        else if left.value[0] then Some(left.value[1..] + [true])
        else None
    case Obj(fields) => if fields == [] then None else BackFields(fields)
    case Int(n) => if -TWO31 <= n < TWO31 then Some([]) else None
    case _ => Some([])
  }

  /**
   The same for elements in a row that are read behind blocks `bs`: one block is read in place of
   each, so it must be an empty array, and its own two blocks are added.
   */
  function BackAll(bs: seq<bool>, items: seq<Json>): Option<seq<bool>>
    decreases items, 0
  {
    if items == [] then Some(bs)
    else if bs == [] then
      var first := Back(items[0]);
      if first.None? then None else BackAll(first.value, items[1..])
    else if items[0] == Arr([]) then BackAll(bs[1..] + [true, false], items[1..])
    else None
  }

  /** The same for fields: a block is no key, so only the last value may leave any. */
  function BackFields(fields: seq<Field>): Option<seq<bool>>
    decreases fields, 0
  {
    if fields == [] then Some([])
    else
      var first := Back(fields[0].value);
      if first.None? then None
      else if first.value == [] then BackFields(fields[1..])
      else if |fields| == 1 then first
      else None
  }

  // ---- which values leave nothing ---------------------------------------------------------------------------

  /** A value comes back with nothing left over exactly if it survives and holds no empty array. */
  lemma {:induction false} BackClean(v: Json)
    ensures Back(v) == Some([]) <==> NoEmptyArray(v) && Survives(v)
    decreases v, 1
  {
    match v
    case Arr(items) => AllClean(items);
    case Obj(fields) => FieldsClean(fields);
    case _ =>
  }

  lemma {:induction false} AllClean(items: seq<Json>)
    ensures BackAll([], items) == Some([]) <==> forall i :: 0 <= i < |items| ==> NoEmptyArray(items[i]) && Survives(items[i])
    decreases items, 0
  {
    if items != [] {
      hide NoEmptyArray, Survives, Back;
      BackClean(items[0]);
      AllClean(items[1..]);
      if Back(items[0]).Some? && Back(items[0]).value != [] {
        BlocksStay(Back(items[0]).value, items[1..]);
      }
      assert forall i :: 0 < i < |items| ==> items[i] == items[1..][i - 1];
    }
  }

  /** Behind one empty array there is always another. */
  lemma {:induction false} BlocksStay(bs: seq<bool>, items: seq<Json>)
    requires bs != []
    ensures BackAll(bs, items) != Some([])
    decreases items
  {
    if items != [] && items[0] == Arr([]) {
      BlocksStay(bs[1..] + [true, false], items[1..]);
    }
  }

  lemma {:induction false} FieldsClean(fields: seq<Field>)
    ensures BackFields(fields) == Some([]) <==> forall i :: 0 <= i < |fields| ==> NoEmptyArray(fields[i].value) && Survives(fields[i].value)
    decreases fields, 0
  {
    if fields != [] {
      hide NoEmptyArray, Survives, Back;
      BackClean(fields[0].value);
      FieldsClean(fields[1..]);
      assert forall i :: 0 < i < |fields| ==> fields[i] == fields[1..][i - 1];
    }
  }

  // ---- empty arrays in a row --------------------------------------------------------------------------------

  /** `n` empty arrays. */
  function Empties(n: nat): (r: seq<Json>)
    ensures |r| == n
  {
    if n == 0 then [] else [Arr([])] + Empties(n - 1)
  }

  /** The blocks left behind `n` of them: a nil first exactly if `n` is even. */
  lemma {:induction false} EmptiesLeave(bs: seq<bool>, n: nat)
    requires bs != [] && forall i :: 0 <= i < |bs| ==> bs[i] == (bs[0] == (i % 2 == 0))
    requires !bs[|bs| - 1]
    ensures var left := BackAll(bs, Empties(n));
            left.Some? && left.value != [] && (left.value[0] <==> bs[0] == (n % 2 == 0))
    decreases n
  {
    if n > 0 {
      var next := bs[1..] + [true, false];
      assert Empties(n)[1..] == Empties(n - 1);
      EmptiesLeave(next, n - 1);
    }
  }

  lemma EmptiesBack(n: nat)
    requires n > 0
    ensures var left := BackAll([], Empties(n));
            left.Some? && left.value != [] && (left.value[0] <==> n % 2 == 0)
  {
    assert Empties(n)[1..] == Empties(n - 1);
    assert Back(Arr([])) == Some([false]);
    EmptiesLeave([false], n - 1);
  }
}
