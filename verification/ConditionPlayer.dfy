/** The check for conditions that can be used without a player, and what it overlooks. */
module ConditionPlayer {
  import opened Bytes
  import opened Conditions

  /** The requirements the check lets through; it looks at nothing else of a leaf. */
  predicate NeedsNoTarget(req: Requirement) {
    match req
    case ReqNone => true
    case ReqSource(kind) => kind != IsPlayer
    case ReqAnyObject => true
    case ReqMapOrObject => true
    case ReqTarget(_) => false
    case ReqBoth(_) => false
  }

  predicate CanBeUsedWithoutPlayer(t: Table, id: nat)
    requires WellFounded(t)
    decreases id
  {
    if !Lookup(t, id) then false
    else
      var e := t[id].value;
      assert SoundAt(t, id);
      match e.condition
      case Not => CanBeUsedWithoutPlayer(t, Id(e.value1))
      case And | Or => CanBeUsedWithoutPlayer(t, Id(e.value1)) && CanBeUsedWithoutPlayer(t, Id(e.value2))
      case Always => true
      case Leaf(req) => NeedsNoTarget(req)
  }

  // ---- what it is for ---------------------------------------------------------------------------

  /** With any source present, the parameter check of `req` gives the same answer with and without the target. */
  ghost predicate Blind(req: Requirement, swapped: bool) {
    forall p: Params :: !p.source.Nobody? ==>
      (CheckParams(req, Swapped(p, swapped)) <==> CheckParams(req, Swapped(p.(target := Nobody), swapped)))
  }

  /** So do all parameter checks that evaluation of a formula can make. */
  ghost predicate AllBlind(t: Table, f: Formula) {
    match f
    case Literal(i, swapped, _) => Lookup(t, i) && Blind(RequirementOf(t[i].value.condition), swapped)
    case All(fs) => forall k :: 0 <= k < |fs| ==> AllBlind(t, fs[k])
    case Any(fs) => forall k :: 0 <= k < |fs| ==> AllBlind(t, fs[k])
  }

  /** All leaves of a formula, each with its orientation, get the parameters they need. */
  predicate ParamsGood(t: Table, f: Formula, p: Params) {
    match f
    case Literal(i, swapped, _) => Lookup(t, i) && CheckParams(RequirementOf(t[i].value.condition), Swapped(p, swapped))
    case All(fs) => forall k :: 0 <= k < |fs| ==> ParamsGood(t, fs[k], p)
    case Any(fs) => forall k :: 0 <= k < |fs| ==> ParamsGood(t, fs[k], p)
  }

  lemma {:induction false} BlindParams(t: Table, f: Formula, p: Params)
    requires AllBlind(t, f) && !p.source.Nobody?
    ensures ParamsGood(t, f, p) <==> ParamsGood(t, f, p.(target := Nobody))
  {
    hide CheckParams;
    match f
    case Literal(i, swapped, _) =>
    case All(fs) =>
      forall k | 0 <= k < |fs| ensures ParamsGood(t, fs[k], p) <==> ParamsGood(t, fs[k], p.(target := Nobody)) {
        BlindParams(t, fs[k], p);
      }
    case Any(fs) =>
      forall k | 0 <= k < |fs| ensures ParamsGood(t, fs[k], p) <==> ParamsGood(t, fs[k], p.(target := Nobody)) {
        BlindParams(t, fs[k], p);
      }
  }

  // ---- a walk that decides it ---------------------------------------------------------------------

  /** Whether a requirement looks at what is the target before any swap. */
  predicate LooksAtTarget(req: Requirement, swapped: bool) {
    match req
    case ReqTarget(_) => !swapped
    case ReqSource(_) => swapped
    case ReqBoth(_) => true
    case ReqNone => false
    case ReqAnyObject => false
    case ReqMapOrObject => false
  }

  /** All children, with their orientation, down to leaves that do not look at the target. */
  predicate TargetFree(t: Table, id: nat, swapped: bool)
    requires WellFounded(t) && Lookup(t, id)
    decreases id, 1
  {
    var e := t[id].value;
    assert SoundAt(t, id);
    var s := swapped != e.swap;
    match e.condition
    case Leaf(req) => !LooksAtTarget(req, s)
    case Always => true
    case Not => TargetFree(t, Id(e.value1), s) && ExtraFree(t, id, e.value3, s) && ExtraFree(t, id, e.value4, s)
    case And | Or =>
      && TargetFree(t, Id(e.value1), s) && TargetFree(t, Id(e.value2), s)
      && ExtraFree(t, id, e.value3, s) && ExtraFree(t, id, e.value4, s)
  }

  predicate ExtraFree(t: Table, id: nat, v: int32, swapped: bool)
    requires WellFounded(t) && OptionalChild(t, id, v)
    decreases id, 0
  {
    v == 0 || TargetFree(t, Id(v), swapped)
  }

  /** A present object of a kind. */
  function Example(kind: Kind): (x: Thing)
    ensures Fits(x, kind) && !x.Nobody?
  {
    match kind
    case AnyKind => Other(0)
    case IsGameObject => GameObject(0)
    case IsUnit => Creature(0)
    case IsCreature => Creature(0)
    case IsPlayer => Player(0)
  }

  lemma BlindExactly(req: Requirement, swapped: bool)
    ensures Blind(req, swapped) <==> !LooksAtTarget(req, swapped)
  {
    if LooksAtTarget(req, swapped) {
      var x := Example(req.kind);
      var p := Params(x, None, x);
      assert CheckParams(req, Swapped(p, swapped)) && !CheckParams(req, Swapped(p.(target := Nobody), swapped));
    }
  }

  /** The walk finds exactly whether every parameter check evaluation can make is independent of the target. */
  lemma {:induction false} TargetFreeExactly(t: Table, id: nat, swapped: bool, negated: bool)
    requires WellFounded(t) && Lookup(t, id)
    ensures AllBlind(t, Formulate(t, id, swapped, negated)) <==> TargetFree(t, id, swapped)
    decreases id, 1
  {
    hide Blind, LooksAtTarget, FormulateAll, Id, Children, Extras, OptionalId;
    var e := t[id].value;
    assert SoundAt(t, id);
    ChildrenExist(t, id);
    var s, n := swapped != e.swap, negated != e.reverse;
    match e.condition
    case Leaf(req) => BlindExactly(req, s);
    case Always =>
    case And => ChildrenFree(t, id, s, n);
    case Or => ChildrenFree(t, id, s, n);
    case Not =>
      TargetFreeExactly(t, Id(e.value1), s, !n);
      ExtrasFree(t, id, s, n);
      FirstBlind(t, Formulate(t, Id(e.value1), s, !n), FormulateAll(t, id, Extras(e), s, n));
  }

  lemma FirstBlind(t: Table, f: Formula, fs: seq<Formula>)
    ensures var all := [f] + fs;
            (forall k :: 0 <= k < |all| ==> AllBlind(t, all[k])) <==> AllBlind(t, f) && forall k :: 0 <= k < |fs| ==> AllBlind(t, fs[k])
  {
    var all := [f] + fs;
    assert all[0] == f && forall k :: 0 <= k < |fs| ==> all[k + 1] == fs[k];
  }

  lemma ChildrenFree(t: Table, id: nat, s: bool, n: bool)
    requires WellFounded(t) && Lookup(t, id) && (t[id].value.condition.And? || t[id].value.condition.Or?)
    requires forall k :: 0 <= k < |Children(t[id].value)| ==> Children(t[id].value)[k] < id && Lookup(t, Children(t[id].value)[k])
    ensures var e, fs := t[id].value, FormulateAll(t, id, Children(t[id].value), s, n);
            && Sound(t, id, e)
            && ((forall k :: 0 <= k < |fs| ==> AllBlind(t, fs[k])) <==>
                TargetFree(t, Id(e.value1), s) && TargetFree(t, Id(e.value2), s) && ExtraFree(t, id, e.value3, s) && ExtraFree(t, id, e.value4, s))
    decreases id, 0
  {
    hide AllBlind, TargetFree, Formulate, Id;
    assert SoundAt(t, id);
    var e := t[id].value;
    var ids := Children(e);
    PartsFree(t, id, ids, s, n);
    assert ids[0] == Id(e.value1) && ids[1] == Id(e.value2);
    assert e.value3 != 0 ==> ids[2] == Id(e.value3);
    assert e.value4 != 0 ==> ids[|ids| - 1] == Id(e.value4);
  }

  lemma ExtrasFree(t: Table, id: nat, s: bool, n: bool)
    requires WellFounded(t) && Lookup(t, id) && t[id].value.condition.Not?
    requires forall k :: 0 <= k < |Extras(t[id].value)| ==> Extras(t[id].value)[k] < id && Lookup(t, Extras(t[id].value)[k])
    ensures var e, fs := t[id].value, FormulateAll(t, id, Extras(t[id].value), s, n);
            && Sound(t, id, e)
            && ((forall k :: 0 <= k < |fs| ==> AllBlind(t, fs[k])) <==> ExtraFree(t, id, e.value3, s) && ExtraFree(t, id, e.value4, s))
    decreases id, 0
  {
    hide AllBlind, TargetFree, Formulate, Id;
    assert SoundAt(t, id);
    var e := t[id].value;
    var ids := Extras(e);
    PartsFree(t, id, ids, s, n);
    assert e.value3 != 0 ==> ids[0] == Id(e.value3);
    assert e.value4 != 0 ==> ids[|ids| - 1] == Id(e.value4);
  }

  lemma PartsFree(t: Table, id: nat, ids: seq<nat>, s: bool, n: bool)
    requires WellFounded(t) && forall k :: 0 <= k < |ids| ==> ids[k] < id && Lookup(t, ids[k])
    ensures var fs := FormulateAll(t, id, ids, s, n);
            forall k :: 0 <= k < |ids| ==> (AllBlind(t, fs[k]) <==> TargetFree(t, ids[k], s))
    decreases id, 0, 0
  {
    hide AllBlind, TargetFree, Formulate;
    forall k | 0 <= k < |ids|
      ensures AllBlind(t, FormulateAll(t, id, ids, s, n)[k]) <==> TargetFree(t, ids[k], s)
    {
      TargetFreeExactly(t, ids[k], s, n);
    }
  }

  // ---- what the check overlooks ---------------------------------------------------------------------

  /**
   A leaf that looks at the target after a swap, or any that does behind a third or fourth
   child: the two things the check does not see.
   */
  predicate Overlooked(t: Table, id: nat, swapped: bool)
    requires WellFounded(t) && Lookup(t, id)
    decreases id
  {
    var e := t[id].value;
    assert SoundAt(t, id);
    var s := swapped != e.swap;
    match e.condition
    case Leaf(req) => s && LooksAtTarget(req, s)
    case Always => false
    case Not => Overlooked(t, Id(e.value1), s) || !ExtraFree(t, id, e.value3, s) || !ExtraFree(t, id, e.value4, s)
    case And | Or =>
      || Overlooked(t, Id(e.value1), s) || Overlooked(t, Id(e.value2), s)
      || !ExtraFree(t, id, e.value3, s) || !ExtraFree(t, id, e.value4, s)
  }

  /** For every table, a condition the check accepts needs no target exactly if nothing was overlooked. */
  lemma {:induction false} AcceptedExactly(t: Table, id: nat, swapped: bool)
    requires WellFounded(t) && CanBeUsedWithoutPlayer(t, id)
    ensures Lookup(t, id)
    ensures TargetFree(t, id, swapped) <==> !Overlooked(t, id, swapped)
    decreases id
  {
    hide Id, ExtraFree;
    var e := t[id].value;
    assert SoundAt(t, id);
    var s := swapped != e.swap;
    match e.condition
    case Leaf(req) =>
    case Always =>
    case Not => AcceptedExactly(t, Id(e.value1), s);
    case And =>
      AcceptedExactly(t, Id(e.value1), s);
      AcceptedExactly(t, Id(e.value2), s);
    case Or =>
      AcceptedExactly(t, Id(e.value1), s);
      AcceptedExactly(t, Id(e.value2), s);
  }

  /** Of the entries that can be reached from `id`, none swaps and no combinator has a third or fourth child. */
  predicate Plain(t: Table, id: nat)
    requires WellFounded(t) && Lookup(t, id)
    decreases id
  {
    var e := t[id].value;
    assert SoundAt(t, id);
    !e.swap &&
    match e.condition
    case Leaf(_) => true
    case Always => true
    case Not => e.value3 == 0 && e.value4 == 0 && Plain(t, Id(e.value1))
    case And | Or => e.value3 == 0 && e.value4 == 0 && Plain(t, Id(e.value1)) && Plain(t, Id(e.value2))
  }

  /** A leaf of a plain condition asks for a source that is a player, which the check refuses without need. */
  predicate WantsPlayerSource(t: Table, id: nat)
    requires WellFounded(t) && Lookup(t, id)
    decreases id
  {
    var e := t[id].value;
    assert SoundAt(t, id);
    match e.condition
    case Leaf(req) => req == ReqSource(IsPlayer)
    case Always => false
    case Not => WantsPlayerSource(t, Id(e.value1))
    case And | Or => WantsPlayerSource(t, Id(e.value1)) || WantsPlayerSource(t, Id(e.value2))
  }

  /** On plain conditions the check is right, but for sources that must be players. */
  lemma {:induction false} PlainExactly(t: Table, id: nat)
    requires WellFounded(t) && Lookup(t, id) && Plain(t, id)
    ensures CanBeUsedWithoutPlayer(t, id) <==> TargetFree(t, id, false) && !WantsPlayerSource(t, id)
    decreases id
  {
    hide Id;
    var e := t[id].value;
    assert SoundAt(t, id);
    match e.condition
    case Leaf(req) =>
    case Always =>
    case Not => PlainExactly(t, Id(e.value1));
    case And =>
      PlainExactly(t, Id(e.value1));
      PlainExactly(t, Id(e.value2));
    case Or =>
      PlainExactly(t, Id(e.value1));
      PlainExactly(t, Id(e.value2));
  }

  /**
   A condition the check accepts, with nothing overlooked, gets its parameters without a target
   exactly if it does with one, for any present source.
   */
  lemma {:induction false} UsableWithoutTarget(t: Table, id: nat, negated: bool, p: Params)
    requires WellFounded(t) && Lookup(t, id) && CanBeUsedWithoutPlayer(t, id) && !Overlooked(t, id, false)
    requires !p.source.Nobody?
    ensures ParamsGood(t, Formulate(t, id, false, negated), p) <==> ParamsGood(t, Formulate(t, id, false, negated), p.(target := Nobody))
  {
    hide Formulate, TargetFree, Overlooked, AllBlind, ParamsGood, CanBeUsedWithoutPlayer;
    AcceptedExactly(t, id, false);
    TargetFreeExactly(t, id, false, negated);
    BlindParams(t, Formulate(t, id, false, negated), p);
  }

  /** No leaf verdict of a formula looks at what is the target before any swap. */
  ghost predicate VerdictsBlind(f: Formula, decide: Decide) {
    match f
    case Literal(i, swapped, _) =>
      forall p: Params :: decide(i, Swapped(p, swapped)) == decide(i, Swapped(p.(target := Nobody), swapped))
    case All(fs) => forall k :: 0 <= k < |fs| ==> VerdictsBlind(fs[k], decide)
    case Any(fs) => forall k :: 0 <= k < |fs| ==> VerdictsBlind(fs[k], decide)
  }

  lemma {:induction false} BlindHolds(t: Table, f: Formula, p: Params, decide: Decide)
    requires AllBlind(t, f) && VerdictsBlind(f, decide) && !p.source.Nobody?
    ensures Holds(t, f, p, decide) <==> Holds(t, f, p.(target := Nobody), decide)
  {
    hide CheckParams;
    match f
    case Literal(i, swapped, _) =>
    case All(fs) =>
      forall k | 0 <= k < |fs| ensures Holds(t, fs[k], p, decide) <==> Holds(t, fs[k], p.(target := Nobody), decide) {
        BlindHolds(t, fs[k], p, decide);
      }
    case Any(fs) =>
      forall k | 0 <= k < |fs| ensures Holds(t, fs[k], p, decide) <==> Holds(t, fs[k], p.(target := Nobody), decide) {
        BlindHolds(t, fs[k], p, decide);
      }
  }

  /**
   And it is met without a target exactly if it is met with one, for any present source, as long as
   the leaf verdicts do not look at the target either.
   */
  lemma {:induction false} MetWithoutTarget(t: Table, id: nat, p: Params, decide: Decide)
    requires WellFounded(t) && Lookup(t, id) && CanBeUsedWithoutPlayer(t, id) && !Overlooked(t, id, false)
    requires !p.source.Nobody? && VerdictsBlind(Formulate(t, id, false, false), decide)
    ensures Meets(t, id, p, decide) <==> Meets(t, id, p.(target := Nobody), decide)
  {
    hide Formulate, TargetFree, Overlooked, AllBlind, VerdictsBlind, CanBeUsedWithoutPlayer, Meets, Holds;
    var q := p.(target := Nobody);
    AcceptedExactly(t, id, false);
    TargetFreeExactly(t, id, false, false);
    BlindHolds(t, Formulate(t, id, false, false), p, decide);
    MeetsIsFormula(t, id, p, false, false, decide);
    MeetsIsFormula(t, id, q, false, false, decide);
  }

  /** The check does not see a swap: here a condition on the source passes it and asks the target. */
  lemma SwapIsNotSeen()
    ensures var e := Entry(Leaf(ReqSource(IsCreature)), 0, 0, 0, 0, false, true);
            var t := [Some(e)];
            var p := Params(Creature(2), None, Creature(1));
            && WellFounded(t) && CanBeUsedWithoutPlayer(t, 0)
            && ParamsGood(t, Formulate(t, 0, false, false), p)
            && !ParamsGood(t, Formulate(t, 0, false, false), p.(target := Nobody))
  {
  }

  function ThirdChildTable(): (t: Table) {
    [ Some(Entry(Always, 0, 0, 0, 0, false, false)),
      Some(Entry(Leaf(ReqTarget(AnyKind)), 0, 0, 0, 0, false, false)),
      Some(Entry(And, 0, 0, 1, 0, false, false)) ]
  }

  /** Nor does it see a third child: here a conjunction passes it that is met with a target and not without. */
  lemma ThirdChildIsNotSeen(p: Params)
    requires !p.target.Nobody?
    ensures var t, yes := ThirdChildTable(), (i: nat, q: Params) => true;
            && WellFounded(t) && CanBeUsedWithoutPlayer(t, 2)
            && Meets(t, 2, p, yes) && !Meets(t, 2, p.(target := Nobody), yes)
  {
    var t := ThirdChildTable();
    assert Id(0) == 0 && Id(1) == 1;
    assert SoundAt(t, 0) && SoundAt(t, 1) && SoundAt(t, 2);
    var yes := (i: nat, q: Params) => true;
    assert Meets(t, 1, p, yes) && !Meets(t, 1, p.(target := Nobody), yes) && Meets(t, 0, p, yes);
  }
}
