/**
 Condition trees kept in a table by number: the loader that throws out invalid entries, the
 evaluation that relies on what the loader leaves, and the plain formula it computes.
 */
module Conditions {
  import opened Bytes

  type int32 = x: int | -0x8000_0000 <= x < 0x8000_0000 witness 0

  /** Which parameters a condition needs. */
  datatype Requirement =
    | ReqNone
    | ReqTarget(kind: Kind)
    | ReqSource(kind: Kind)
    | ReqAnyObject
    | ReqMapOrObject
    | ReqBoth(kind: Kind)

  datatype Kind = AnyKind | IsGameObject | IsUnit | IsCreature | IsPlayer

  /** A world object, or none. */
  datatype Thing = Nobody | GameObject(id: nat) | Creature(id: nat) | Player(id: nat) | Other(id: nat)

  datatype Condition = Not | Or | And | Always | Leaf(req: Requirement)

  /** An entry; its number is its place in the table. */
  datatype Entry = Entry(condition: Condition, value1: int32, value2: int32, value3: int32, value4: int32, reverse: bool, swap: bool)

  type Table = seq<Option<Entry>>

  /** Who a condition is asked about. */
  datatype Params = Params(target: Thing, map_: Option<nat>, source: Thing)

  /** What a leaf decides about its parameters. */
  type Decide = (nat, Params) -> bool

  function Swapped(p: Params, swap: bool): Params {
    if swap then p.(target := p.source, source := p.target) else p
  }

  /** A signed value used as an entry number. */
  function Id(v: int32): nat {
    v % TWO32
  }

  predicate Lookup(t: Table, id: nat) {
    id < |t| && t[id].Some?
  }

  // ---- parameters -----------------------------------------------------------------------------------

  predicate Fits(x: Thing, kind: Kind) {
    match kind
    case AnyKind => !x.Nobody?
    case IsGameObject => x.GameObject?
    case IsUnit => x.Creature? || x.Player?
    case IsCreature => x.Creature?
    case IsPlayer => x.Player?
  }

  predicate CheckParams(req: Requirement, p: Params) {
    match req
    case ReqNone => true
    case ReqTarget(kind) => Fits(p.target, kind)
    case ReqSource(kind) => Fits(p.source, kind)
    case ReqAnyObject => !p.source.Nobody? || !p.target.Nobody?
    case ReqMapOrObject => p.map_.Some? || !p.source.Nobody? || !p.target.Nobody?
    case ReqBoth(kind) => Fits(p.source, kind) && Fits(p.target, kind)
  }

  function RequirementOf(c: Condition): Requirement {
    if c.Leaf? then c.req else ReqNone
  }

  // ---- what makes evaluation well founded ------------------------------------------------------------

  /** A child is a lower entry that exists. */
  predicate Child(t: Table, i: nat, v: int32) {
    Id(v) < i && Lookup(t, Id(v))
  }

  predicate OptionalChild(t: Table, i: nat, v: int32) {
    v == 0 || Child(t, i, v)
  }

  predicate Sound(t: Table, i: nat, e: Entry) {
    match e.condition
    case Not => Child(t, i, e.value1) && OptionalChild(t, i, e.value3) && OptionalChild(t, i, e.value4)
    case Or | And =>
      && Child(t, i, e.value1) && Child(t, i, e.value2)
      && OptionalChild(t, i, e.value3) && OptionalChild(t, i, e.value4)
    case Always => true
    case Leaf(_) => true
  }

  predicate SoundAt(t: Table, i: nat) {
    Lookup(t, i) ==> Sound(t, i, t[i].value)
  }

  predicate WellFounded(t: Table) {
    forall i {:trigger SoundAt(t, i)} :: 0 <= i < |t| ==> SoundAt(t, i)
  }

  // ---- evaluation -------------------------------------------------------------------------------------

  /** `Meets`: swap, check the parameters, evaluate, reverse. */
  function Meets(t: Table, i: nat, p: Params, decide: Decide): bool
    requires WellFounded(t) && Lookup(t, i)
    decreases i, 1
  {
    var e := t[i].value;
    var q := Swapped(p, e.swap);
    if !CheckParams(RequirementOf(e.condition), q) then false
    else
      var result := Evaluate(t, i, q, decide);
      if e.reverse then !result else result
  }

  function Evaluate(t: Table, i: nat, p: Params, decide: Decide): bool
    requires WellFounded(t) && Lookup(t, i)
    decreases i, 0
  {
    var e := t[i].value;
    assert SoundAt(t, i);
    match e.condition
    case Not =>
      if e.value3 != 0 && Meets(t, Id(e.value3), p, decide) then true
      else if e.value4 != 0 && Meets(t, Id(e.value4), p, decide) then true
      else !Meets(t, Id(e.value1), p, decide)
    case Or =>
      if e.value3 != 0 && Meets(t, Id(e.value3), p, decide) then true
      else if e.value4 != 0 && Meets(t, Id(e.value4), p, decide) then true
      else Meets(t, Id(e.value1), p, decide) || Meets(t, Id(e.value2), p, decide)
    case And =>
      var extra3 := e.value3 != 0 ==> Meets(t, Id(e.value3), p, decide);
      var extra4 := if e.value4 != 0 then extra3 && Meets(t, Id(e.value4), p, decide) else extra3;
      extra4 && Meets(t, Id(e.value1), p, decide) && Meets(t, Id(e.value2), p, decide)
    case Always => true
    case Leaf(_) => decide(i, p)
  }

  // ---- the plain formula --------------------------------------------------------------------------------

  /**
   Negation and swapping only at the literals. A literal is a leaf entry with its own reverse
   flag; `negated` is a negation from outside, which a failed parameter check does not escape.
   */
  datatype Formula =
    | Literal(entry: nat, swapped: bool, negated: bool)
    | All(parts: seq<Formula>)
    | Any(parts: seq<Formula>)

  predicate Holds(t: Table, f: Formula, p: Params, decide: Decide) {
    match f
    case All(fs) => forall k :: 0 <= k < |fs| ==> Holds(t, fs[k], p, decide)
    case Any(fs) => exists k :: 0 <= k < |fs| && Holds(t, fs[k], p, decide)
    case Literal(i, swapped, negated) => LiteralHolds(t, i, Swapped(p, swapped), decide) != negated
  }

  /** A leaf with bad parameters is false whatever its reverse flag. */
  predicate LiteralHolds(t: Table, i: nat, p: Params, decide: Decide) {
    Lookup(t, i) && CheckParams(RequirementOf(t[i].value.condition), p) && decide(i, p) != t[i].value.reverse
  }

  function OptionalId(v: int32): seq<nat> {
    if v == 0 then [] else [Id(v)]
  }

  /** The children that count alike: two to four of a conjunction or disjunction. */
  function Children(e: Entry): seq<nat> {
    [Id(e.value1), Id(e.value2)] + OptionalId(e.value3) + OptionalId(e.value4)
  }

  function Extras(e: Entry): seq<nat> {
    OptionalId(e.value3) + OptionalId(e.value4)
  }

  /** The formula of entry `i` under `swapped` and `negated`. */
  function Formulate(t: Table, i: nat, swapped: bool, negated: bool): Formula
    requires WellFounded(t) && Lookup(t, i)
    decreases i, 2
  {
    var e := t[i].value;
    if e.condition.Leaf? then Literal(i, swapped != e.swap, negated)
    else Combine(t, i, swapped != e.swap, negated != e.reverse)
  }

  /** A combinator, or under a negation its dual, of the children's formulas. */
  function Combine(t: Table, i: nat, s: bool, n: bool): Formula
    requires WellFounded(t) && Lookup(t, i) && !t[i].value.condition.Leaf?
    decreases i, 1
  {
    var e := t[i].value;
    assert SoundAt(t, i);
    match e.condition
    case Always => if n then Any([]) else All([])
    case And =>
      var fs := FormulateAll(t, i, Children(e), s, n);
      if n then Any(fs) else All(fs)
    case Or =>
      var fs := FormulateAll(t, i, Children(e), s, n);
      if n then All(fs) else Any(fs)
    case Not =>
      var fs := [Formulate(t, Id(e.value1), s, !n)] + FormulateAll(t, i, Extras(e), s, n);
      if n then All(fs) else Any(fs)
  }

  function FormulateAll(t: Table, i: nat, ids: seq<nat>, swapped: bool, negated: bool): (r: seq<Formula>)
    requires WellFounded(t) && forall k :: 0 <= k < |ids| ==> ids[k] < i && Lookup(t, ids[k])
    ensures |r| == |ids|
    ensures forall k :: 0 <= k < |ids| ==> r[k] == Formulate(t, ids[k], swapped, negated)
    decreases i, 0, |ids|
  {
    if ids == [] then []
    else [Formulate(t, ids[0], swapped, negated)] + FormulateAll(t, i, ids[1..], swapped, negated)
  }

  lemma SwappedTwice(p: Params, a: bool, b: bool)
    ensures Swapped(Swapped(p, a), b) == Swapped(p, a != b)
  {
  }

  lemma {:induction false} ChildrenExist(t: Table, i: nat)
    requires WellFounded(t) && Lookup(t, i)
    ensures var e := t[i].value;
            && (e.condition.And? || e.condition.Or? ==> forall k :: 0 <= k < |Children(e)| ==> Children(e)[k] < i && Lookup(t, Children(e)[k]))
            && (e.condition.Not? ==> Id(e.value1) < i && Lookup(t, Id(e.value1)))
            && (e.condition.Not? ==> forall k :: 0 <= k < |Extras(e)| ==> Extras(e)[k] < i && Lookup(t, Extras(e)[k]))
  {
    hide Id;
    assert SoundAt(t, i);
  }

  /** A conjunction is all of its two to four children. */
  lemma {:induction false} AndIsAll(t: Table, i: nat, p: Params, decide: Decide)
    requires WellFounded(t) && Lookup(t, i) && t[i].value.condition.And?
    ensures var ids := Children(t[i].value);
            && (forall k :: 0 <= k < |ids| ==> Lookup(t, ids[k]))
            && (Evaluate(t, i, p, decide) <==> forall k :: 0 <= k < |ids| ==> Meets(t, ids[k], p, decide))
  {
    hide Meets, Id, WellFounded, Sound;
    ChildrenExist(t, i);
    var e := t[i].value;
    var ids := Children(e);
    assert ids[0] == Id(e.value1) && ids[1] == Id(e.value2);
    assert e.value3 != 0 ==> ids[2] == Id(e.value3);
    assert e.value4 != 0 ==> ids[|ids| - 1] == Id(e.value4);
  }

  /** A disjunction is any of its two to four children. */
  lemma {:induction false} OrIsAny(t: Table, i: nat, p: Params, decide: Decide)
    requires WellFounded(t) && Lookup(t, i) && t[i].value.condition.Or?
    ensures var ids := Children(t[i].value);
            && (forall k :: 0 <= k < |ids| ==> Lookup(t, ids[k]))
            && (Evaluate(t, i, p, decide) <==> exists k :: 0 <= k < |ids| && Meets(t, ids[k], p, decide))
  {
    hide Meets, Id, WellFounded, Sound;
    ChildrenExist(t, i);
    var e := t[i].value;
    var ids := Children(e);
    assert ids[0] == Id(e.value1) && ids[1] == Id(e.value2);
    assert e.value3 != 0 ==> ids[2] == Id(e.value3);
    assert e.value4 != 0 ==> ids[|ids| - 1] == Id(e.value4);
  }

  /** A negation is also true if one of its undocumented extra children is. */
  lemma {:induction false} NotIsAny(t: Table, i: nat, p: Params, decide: Decide)
    requires WellFounded(t) && Lookup(t, i) && t[i].value.condition.Not?
    ensures var e, ids := t[i].value, Extras(t[i].value);
            && Lookup(t, Id(e.value1)) && (forall k :: 0 <= k < |ids| ==> Lookup(t, ids[k]))
            && (Evaluate(t, i, p, decide) <==>
                !Meets(t, Id(e.value1), p, decide) || exists k :: 0 <= k < |ids| && Meets(t, ids[k], p, decide))
  {
    hide Meets, Id, WellFounded, Sound;
    ChildrenExist(t, i);
    var e := t[i].value;
    var ids := Extras(e);
    assert e.value3 != 0 ==> ids[0] == Id(e.value3);
    assert e.value4 != 0 ==> ids[|ids| - 1] == Id(e.value4);
  }

  /** Evaluation of the table is evaluation of the formula. */
  lemma {:induction false} MeetsIsFormula(t: Table, i: nat, p: Params, swapped: bool, negated: bool, decide: Decide)
    requires WellFounded(t) && Lookup(t, i)
    ensures Holds(t, Formulate(t, i, swapped, negated), p, decide) <==> Meets(t, i, Swapped(p, swapped), decide) != negated
    decreases i, 2
  {
    hide Evaluate, Meets, Id, CheckParams, WellFounded, Sound, RequirementOf, Combine;
    var e := t[i].value;
    SwappedTwice(p, swapped, e.swap);
    MeetsIs(t, i, Swapped(p, swapped), decide);
    if !e.condition.Leaf? {
      CombineIs(t, i, p, swapped != e.swap, negated != e.reverse, decide);
    }
  }

  lemma {:induction false} CombineIs(t: Table, i: nat, p: Params, s: bool, n: bool, decide: Decide)
    requires WellFounded(t) && Lookup(t, i) && !t[i].value.condition.Leaf?
    ensures Holds(t, Combine(t, i, s, n), p, decide) <==> Evaluate(t, i, Swapped(p, s), decide) != n
    decreases i, 1
  {
    hide Meets, Formulate, FormulateAll, Id, WellFounded, Sound, Children, Extras;
    ChildrenExist(t, i);
    var e, q := t[i].value, Swapped(p, s);
    match e.condition
    case Always =>
    case And =>
      hide Evaluate;
      AndIsAll(t, i, q, decide);
      PartsHold(t, i, Children(e), p, s, n, decide);
    case Or =>
      hide Evaluate;
      OrIsAny(t, i, q, decide);
      PartsHold(t, i, Children(e), p, s, n, decide);
    case Not =>
      hide Evaluate, Holds;
      NotIsAny(t, i, q, decide);
      PartsHold(t, i, Extras(e), p, s, n, decide);
      MeetsIsFormula(t, Id(e.value1), p, s, !n, decide);
      FirstPart(t, Formulate(t, Id(e.value1), s, !n), FormulateAll(t, i, Extras(e), s, n), p, decide);
  }

  lemma FirstPart(t: Table, f: Formula, fs: seq<Formula>, p: Params, decide: Decide)
    ensures Holds(t, All([f] + fs), p, decide) <==> Holds(t, f, p, decide) && forall k :: 0 <= k < |fs| ==> Holds(t, fs[k], p, decide)
    ensures Holds(t, Any([f] + fs), p, decide) <==> Holds(t, f, p, decide) || exists k :: 0 <= k < |fs| && Holds(t, fs[k], p, decide)
  {
    var all := [f] + fs;
    assert all[0] == f && forall k :: 0 <= k < |fs| ==> all[k + 1] == fs[k];
  }

  lemma {:induction false} MeetsIs(t: Table, i: nat, p: Params, decide: Decide)
    requires WellFounded(t) && Lookup(t, i)
    ensures var e := t[i].value;
            var q := Swapped(p, e.swap);
            && Meets(t, i, p, decide) == (CheckParams(RequirementOf(e.condition), q) && Evaluate(t, i, q, decide) != e.reverse)
            && (!e.condition.Leaf? ==> CheckParams(RequirementOf(e.condition), q))
            && (e.condition.Leaf? ==> Evaluate(t, i, q, decide) == decide(i, q))
            && (e.condition.Always? ==> Evaluate(t, i, q, decide))
  {
  }

  lemma {:induction false} PartsHold(t: Table, i: nat, ids: seq<nat>, p: Params, swapped: bool, negated: bool, decide: Decide)
    requires WellFounded(t) && forall k :: 0 <= k < |ids| ==> ids[k] < i && Lookup(t, ids[k])
    ensures var fs := FormulateAll(t, i, ids, swapped, negated);
            forall k :: 0 <= k < |ids| ==>
              (Holds(t, fs[k], p, decide) <==> Meets(t, ids[k], Swapped(p, swapped), decide) != negated)
    decreases i, 0
  {
    hide Meets, Holds, Formulate;
    forall k | 0 <= k < |ids|
      ensures Holds(t, FormulateAll(t, i, ids, swapped, negated)[k], p, decide) <==> Meets(t, ids[k], Swapped(p, swapped), decide) != negated
    {
      MeetsIsFormula(t, ids[k], p, swapped, negated, decide);
    }
  }
}
