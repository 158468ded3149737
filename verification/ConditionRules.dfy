/** What the parts of a condition mean, entry by entry: its parameters, its leaves, its loading. */
module ConditionRules {
  import opened Bytes
  import opened Conditions
  import opened ConditionTable

  /** Parameters of some kind are there exactly if target and source are such objects. */
  lemma ParamsMean(p: Params)
    ensures CheckParams(ReqNone, p)
    ensures CheckParams(ReqTarget(AnyKind), p) <==> p.target != Nobody
    ensures CheckParams(ReqTarget(IsGameObject), p) <==> p.target.GameObject?
    ensures CheckParams(ReqTarget(IsUnit), p) <==> p.target.Creature? || p.target.Player?
    ensures CheckParams(ReqTarget(IsCreature), p) <==> p.target.Creature?
    ensures CheckParams(ReqTarget(IsPlayer), p) <==> p.target.Player?
    ensures CheckParams(ReqSource(AnyKind), p) <==> p.source != Nobody
    ensures CheckParams(ReqSource(IsGameObject), p) <==> p.source.GameObject?
    ensures CheckParams(ReqSource(IsUnit), p) <==> p.source.Creature? || p.source.Player?
    ensures CheckParams(ReqSource(IsCreature), p) <==> p.source.Creature?
    ensures CheckParams(ReqSource(IsPlayer), p) <==> p.source.Player?
    ensures CheckParams(ReqAnyObject, p) <==> p.source != Nobody || p.target != Nobody
    ensures CheckParams(ReqMapOrObject, p) <==> p.map_ != None || p.source != Nobody || p.target != Nobody
    ensures forall kind :: CheckParams(ReqBoth(kind), p) <==> CheckParams(ReqTarget(kind), p) && CheckParams(ReqSource(kind), p)
  {
  }

  /** A leaf is met if its parameters, changed over if it says so, are good and its own verdict is not the reversed one. */
  lemma {:induction false} LeafMeets(t: Table, i: nat, p: Params, decide: Decide)
    requires WellFounded(t) && Lookup(t, i) && t[i].value.condition.Leaf?
    ensures var e := t[i].value;
            var q := if e.swap then Params(p.source, p.map_, p.target) else p;
            Meets(t, i, p, decide) <==> CheckParams(e.condition.req, q) && decide(i, q) != e.reverse
  {
    hide CheckParams;
  }

  /** Any other entry passes its parameters on, changed over if it says so, and reverses the answer if it says so. */
  lemma {:induction false} NodeMeets(t: Table, i: nat, p: Params, decide: Decide)
    requires WellFounded(t) && Lookup(t, i) && !t[i].value.condition.Leaf?
    ensures var e := t[i].value;
            var q := if e.swap then Params(p.source, p.map_, p.target) else p;
            && Meets(t, i, p, decide) == (Evaluate(t, i, q, decide) != e.reverse)
            && (e.condition.Always? ==> Evaluate(t, i, q, decide))
  {
    hide CheckParams;
    MeetsIs(t, i, p, decide);
  }

  /** The value names an entry of the loaded table with a lower number; a negative one counts as an unsigned 32-bit number. */
  ghost predicate Lower(r: Table, i: nat, v: int32)
    requires i <= |r|
  {
    var k := if v < 0 then v + 0x1_0000_0000 else v;
    k < i && r[k] != None
  }

  lemma LowerMeans(r: Table, i: nat, v: int32)
    requires i <= |r|
    ensures Lower(r, i, v) <==> Child(r, i, v)
  {
  }

  /**
   Which entries are left. A conjunction or disjunction stays exactly if its two to four children
   are lower entries that are left, a negation exactly if its first child is, an unconditional entry
   always; a leaf as its own check says, and a disabled one turns unconditional with its answer reversed.
   */
  lemma {:induction false} KeptExactly(t: Table, i: nat, judge: Judge)
    requires i < |t| && t[i].Some?
    ensures var e, r := t[i].value, Checked(t, |t|, judge);
            && |r| == |t|
            && (e.condition.And? || e.condition.Or? ==>
                  r[i] == if && Lower(r, i, e.value1) && Lower(r, i, e.value2)
                             && (e.value3 == 0 || Lower(r, i, e.value3)) && (e.value4 == 0 || Lower(r, i, e.value4))
                          then Some(e) else None)
            && (e.condition.Not? ==> r[i] == if Lower(r, i, e.value1) then Some(e) else None)
            && (e.condition.Always? ==> r[i] == Some(e))
            && (e.condition.Leaf? && judge(e).Accept? ==> r[i] == Some(e))
            && (e.condition.Leaf? && judge(e).Reject? ==> r[i] == None)
            && (e.condition.Leaf? && judge(e).Disable? ==>
                  r[i] == Some(Entry(Always, e.value1, e.value2, e.value3, e.value4, !e.reverse, e.swap)))
  {
    hide Checked, Lower, Id;
    LoadedExactly(t, i, judge);
    var r, e := Checked(t, |t|, judge), t[i].value;
    LowerMeans(r, i, e.value1);
    LowerMeans(r, i, e.value2);
    LowerMeans(r, i, e.value3);
    LowerMeans(r, i, e.value4);
  }

  /** A number without an entry stays without one. */
  lemma {:induction false} NothingAppears(t: Table, i: nat, judge: Judge)
    requires i < |t| && t[i].None?
    ensures Checked(t, |t|, judge)[i].None?
  {
    hide Checked;
    LoadedExactly(t, i, judge);
  }
}
