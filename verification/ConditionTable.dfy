/** Loading the condition table, and which tables evaluation ends on. */
module ConditionTable {
  import opened Bytes
  import opened Conditions

  // ---- the loader -------------------------------------------------------------------------------

  /** What the check of a leaf's own values says; a disabled leaf refers to data this build lacks. */
  datatype Verdict = Accept | Reject | Disable

  type Judge = Entry -> Verdict

  /** A disabled condition counts as one that is not met. */
  function DisableCondition(e: Entry): Entry {
    e.(condition := Always, reverse := !e.reverse)
  }

  /** `IsValid` of entry `i`: `None` where it is false, else the entry as it may have changed. */
  function IsValid(t: Table, i: nat, e: Entry, judge: Judge): Option<Entry> {
    match e.condition
    case Not => if Child(t, i, e.value1) then Some(e) else None
    case Or | And =>
      if Id(e.value1) >= i || Id(e.value2) >= i then None
      else if !Lookup(t, Id(e.value1)) || !Lookup(t, Id(e.value2)) then None
      else if e.value3 != 0 && (Id(e.value3) >= i || !Lookup(t, Id(e.value3))) then None
      else if e.value4 != 0 && (Id(e.value4) >= i || !Lookup(t, Id(e.value4))) then None
      else Some(e)
    case Always => Some(e)
    case Leaf(_) =>
      match judge(e)
      case Accept => Some(e)
      case Reject => None
      case Disable => Some(DisableCondition(e))
  }

  /** The table when the entries below `n` were checked, in ascending order. */
  function Checked(t: Table, n: nat, judge: Judge): (r: Table)
    requires n <= |t|
    ensures |r| == |t| && r[n..] == t[n..]
  {
    if n == 0 then t
    else
      var u := Checked(t, n - 1, judge);
      assert u[n - 1..][0] == t[n - 1..][0] && u[n - 1..][1..] == t[n - 1..][1..];
      u[n - 1 := if u[n - 1].Some? then IsValid(u, n - 1, u[n - 1].value, judge) else None]
  }

  /** `LoadConditions`: one pass over the index, erasing what is invalid in place. */
  method LoadConditions(index: array<Option<Entry>>, judge: Judge)
    modifies index
    ensures index[..] == Checked(old(index[..]), index.Length, judge)
  {
    hide IsValid;
    ghost var before := index[..];
    for i := 0 to index.Length
      invariant index[..] == Checked(before, i, judge)
    {
      if index[i].Some? {
        index[i] := IsValid(index[..], i, index[i].value, judge);
      }
    }
  }

  lemma {:induction false} CheckedKeeps(t: Table, m: nat, n: nat, judge: Judge)
    requires m <= n <= |t|
    ensures Checked(t, n, judge)[..m] == Checked(t, m, judge)[..m]
  {
    if m < n {
      CheckedKeeps(t, m, n - 1, judge);
    }
  }

  lemma IsValidPrefix(t: Table, u: Table, i: nat, e: Entry, judge: Judge)
    requires i <= |t| && i <= |u| && t[..i] == u[..i]
    ensures IsValid(t, i, e, judge) == IsValid(u, i, e, judge)
    ensures Sound(t, i, e) == Sound(u, i, e)
  {
    assert forall k :: 0 <= k < i ==> t[k] == t[..i][k] == u[k];
  }

  /**
   What is left: exactly the entries that are valid in the loaded table itself, each as
   `IsValid` left it.
   */
  lemma {:induction false} LoadedExactly(t: Table, i: nat, judge: Judge)
    requires i < |t|
    ensures var r := Checked(t, |t|, judge);
            r[i] == if t[i].None? then None else IsValid(r, i, t[i].value, judge)
  {
    hide IsValid;
    var r := Checked(t, |t|, judge);
    var u := Checked(t, i, judge);
    CheckedKeeps(t, i + 1, |t|, judge);
    CheckedKeeps(t, i, |t|, judge);
    assert r[i] == r[..i + 1][i] == Checked(t, i + 1, judge)[i];
    assert u[i] == u[i..][0] == t[i..][0];
    if t[i].Some? {
      IsValidPrefix(r, u, i, t[i].value, judge);
    }
  }

  /** The extra children of negations, which `IsValid` does not look at. */
  predicate NotExtras(t: Table) {
    forall i {:trigger NotExtrasAt(t, i)} :: 0 <= i < |t| ==> NotExtrasAt(t, i)
  }

  predicate NotExtrasAt(t: Table, i: nat) {
    Lookup(t, i) && t[i].value.condition.Not? ==> OptionalChild(t, i, t[i].value.value3) && OptionalChild(t, i, t[i].value.value4)
  }

  /** Evaluation of the loaded table is well founded exactly if the extra children of its negations are. */
  lemma {:induction false} LoadedWellFounded(t: Table, judge: Judge)
    ensures WellFounded(Checked(t, |t|, judge)) <==> NotExtras(Checked(t, |t|, judge))
  {
    hide Checked;
    var r := Checked(t, |t|, judge);
    forall i | 0 <= i < |r|
      ensures SoundAt(r, i) <==> NotExtrasAt(r, i)
    {
      LoadedExactly(t, i, judge);
    }
  }

  // ---- evaluation that ends --------------------------------------------------------------------------

  /** A child's answer where there is a child; a missing one counts as an answer that never comes. */
  function ChildIn(t: Table, v: int32, p: Params, decide: Decide, n: nat): Option<bool>
    decreases n, 1
  {
    if Lookup(t, Id(v)) then MeetsIn(t, Id(v), p, decide, n) else None
  }

  /** `Meets` on any table, at most `n` calls deep: `None` if that was not enough. */
  function MeetsIn(t: Table, i: nat, p: Params, decide: Decide, n: nat): Option<bool>
    requires Lookup(t, i)
    decreases n, 0
  {
    if n == 0 then None
    else
      var e := t[i].value;
      var q := Swapped(p, e.swap);
      if !CheckParams(RequirementOf(e.condition), q) then Some(false)
      else
        var r := EvaluateIn(t, i, q, decide, n - 1);
        if r.None? then None else Some(r.value != e.reverse)
  }

  /** `first`, unless it is the answer that settles it; then what comes next. */
  function Settles(first: Option<bool>, settled: bool, next: Option<bool>): Option<bool> {
    if first.None? then None else if first.value == settled then first else next
  }

  function EvaluateIn(t: Table, i: nat, p: Params, decide: Decide, n: nat): Option<bool>
    requires Lookup(t, i)
    decreases n, 2
  {
    var e := t[i].value;
    if e.condition.Always? then Some(true)
    else if e.condition.Leaf? then Some(decide(i, p))
    else
      Combined(e, ChildIn(t, e.value1, p, decide, n), ChildIn(t, e.value2, p, decide, n),
               ChildIn(t, e.value3, p, decide, n), ChildIn(t, e.value4, p, decide, n))
  }

  /** A combinator's answer from its children's, of which it asks for no more than it needs. */
  function Combined(e: Entry, one: Option<bool>, two: Option<bool>, three: Option<bool>, four: Option<bool>): Option<bool> {
    if e.condition.Not? then ExtrasFirst(e, three, four, true, if one.None? then None else Some(!one.value))
    else if e.condition.Or? then ExtrasFirst(e, three, four, true, Settles(one, true, two))
    else ExtrasFirst(e, three, four, false, Settles(one, false, two))
  }

  /** The optional children come first; one of them may settle the answer. */
  function ExtrasFirst(e: Entry, three: Option<bool>, four: Option<bool>, settled: bool, rest: Option<bool>): Option<bool> {
    var last := if e.value4 == 0 then rest else Settles(four, settled, rest);
    if e.value3 == 0 then last else Settles(three, settled, last)
  }

  /** All entries that can be reached from `i` exist, and no path from it is longer than `n`: no cycle. */
  predicate Within(t: Table, i: nat, n: nat)
    decreases n
  {
    n > 0 && Lookup(t, i) &&
    var e := t[i].value;
    match e.condition
    case Leaf(_) => true
    case Always => true
    case Not => Within(t, Id(e.value1), n - 1) && ExtraWithin(t, e.value3, n) && ExtraWithin(t, e.value4, n)
    case And | Or =>
      && Within(t, Id(e.value1), n - 1) && Within(t, Id(e.value2), n - 1)
      && ExtraWithin(t, e.value3, n) && ExtraWithin(t, e.value4, n)
  }

  predicate ExtraWithin(t: Table, v: int32, n: nat)
    requires n > 0
    decreases n, 0
  {
    v == 0 || Within(t, Id(v), n - 1)
  }

  /** On such an entry, whatever its number, evaluation ends for all parameters and leaf verdicts. */
  lemma {:induction false} WithinEnds(t: Table, i: nat, p: Params, decide: Decide, n: nat)
    requires Within(t, i, n)
    ensures MeetsIn(t, i, p, decide, n).Some?
    decreases n
  {
    hide Id, CheckParams, Swapped;
    var e := t[i].value;
    var q := Swapped(p, e.swap);
    if !e.condition.Leaf? && !e.condition.Always? {
      WithinEnds(t, Id(e.value1), q, decide, n - 1);
      if !e.condition.Not? {
        WithinEnds(t, Id(e.value2), q, decide, n - 1);
      }
      if e.value3 != 0 {
        WithinEnds(t, Id(e.value3), q, decide, n - 1);
      }
      if e.value4 != 0 {
        WithinEnds(t, Id(e.value4), q, decide, n - 1);
      }
      assert EvaluateIn(t, i, q, decide, n - 1).Some?;
    }
  }

  /** In a well-founded table an entry's number bounds the paths from it. */
  lemma {:induction false} WellFoundedWithin(t: Table, i: nat, n: nat)
    requires WellFounded(t) && Lookup(t, i) && i < n
    ensures Within(t, i, n)
    decreases n
  {
    hide Id;
    assert SoundAt(t, i);
    var e := t[i].value;
    if !e.condition.Leaf? && !e.condition.Always? {
      WellFoundedWithin(t, Id(e.value1), n - 1);
      if !e.condition.Not? {
        WellFoundedWithin(t, Id(e.value2), n - 1);
      }
      if e.value3 != 0 {
        WellFoundedWithin(t, Id(e.value3), n - 1);
      }
      if e.value4 != 0 {
        WellFoundedWithin(t, Id(e.value4), n - 1);
      }
    }
  }

  /** And evaluation with that many calls is evaluation. */
  lemma {:induction false} MeetsInIsMeets(t: Table, i: nat, p: Params, decide: Decide, n: nat)
    requires WellFounded(t) && Lookup(t, i) && i < n
    ensures MeetsIn(t, i, p, decide, n) == Some(Meets(t, i, p, decide))
    decreases n
  {
    hide Id, CheckParams, Swapped;
    assert SoundAt(t, i);
    var e := t[i].value;
    var q := Swapped(p, e.swap);
    if !e.condition.Leaf? && !e.condition.Always? {
      MeetsInIsMeets(t, Id(e.value1), q, decide, n - 1);
      if !e.condition.Not? {
        MeetsInIsMeets(t, Id(e.value2), q, decide, n - 1);
      }
      if e.value3 != 0 {
        MeetsInIsMeets(t, Id(e.value3), q, decide, n - 1);
      }
      if e.value4 != 0 {
        MeetsInIsMeets(t, Id(e.value4), q, decide, n - 1);
      }
      assert EvaluateIn(t, i, q, decide, n - 1) == Some(Evaluate(t, i, q, decide));
    }
  }

  function SelfNegation(): Table {
    [Some(Entry(Always, 0, 0, 0, 0, false, false)), Some(Entry(Not, 0, 0, 1, 0, false, false))]
  }

  /** A negation that asks itself is loaded. */
  lemma SelfNegationLoads(judge: Judge)
    ensures var t := SelfNegation();
            Checked(t, |t|, judge) == t && !WellFounded(t)
  {
    var t := SelfNegation();
    assert Checked(t, 0, judge) == t;
    assert Checked(t, 1, judge) == t;
    assert Checked(t, 2, judge) == t;
    assert t[1].value.value3 == 1 && Id(1) == 1;
    assert !SoundAt(t, 1);
  }

  /** Evaluating it does not end: no number of calls is enough. */
  lemma {:induction false} SelfNegationNeverEnds(p: Params, decide: Decide, n: nat)
    ensures MeetsIn(SelfNegation(), 1, p, decide, n) == None
  {
    if n > 0 {
      assert Id(1) == 1;
      SelfNegationNeverEnds(p, decide, n - 1);
      assert EvaluateIn(SelfNegation(), 1, p, decide, n - 1) == None;
    }
  }

  function ShieldedCycle(): Table {
    [ Some(Entry(Always, 0, 0, 0, 0, false, false)),
      Some(Entry(Always, 0, 0, 0, 0, false, false)),
      Some(Entry(Not, 0, 0, 1, 2, false, false)) ]
  }

  lemma NextChecked(t: Table, n: nat, judge: Judge)
    requires n < |t| && Checked(t, n, judge) == t && t[n].Some? && IsValid(t, n, t[n].value, judge) == t[n]
    ensures Checked(t, n + 1, judge) == t
  {
    hide IsValid;
  }

  lemma ShieldedCycleLoads(judge: Judge)
    ensures var t := ShieldedCycle();
            Checked(t, |t|, judge) == t
  {
    var t := ShieldedCycle();
    assert Checked(t, 0, judge) == t;
    hide Checked;
    assert Id(0) == 0;
    NextChecked(t, 0, judge);
    NextChecked(t, 1, judge);
    NextChecked(t, 2, judge);
  }

  /** A cycle alone does not keep a loaded entry from ending: here the child before it always settles the answer. */
  lemma ShieldedCycleEnds(judge: Judge, p: Params, decide: Decide, n: nat)
    ensures var t := ShieldedCycle();
            && Checked(t, |t|, judge) == t && MeetsIn(t, 2, p, decide, 2) == Some(true) && !Within(t, 2, n)
  {
    hide Checked, Within;
    ShieldedCycleLoads(judge);
    assert Id(1) == 1 && Id(2) == 2;
    assert MeetsIn(ShieldedCycle(), 1, p, decide, 1) == Some(true);
    ShieldedCycleIsOne(n);
  }

  lemma {:induction false} ShieldedCycleIsOne(n: nat)
    ensures !Within(ShieldedCycle(), 2, n)
  {
    if n > 0 {
      assert Id(2) == 2;
      ShieldedCycleIsOne(n - 1);
    }
  }

  /** A disabled entry is met exactly if it was reversed, as an unmet leaf with good parameters is. */
  lemma DisabledIsUnmet(t: Table, i: nat, e: Entry, p: Params, decide: Decide)
    requires WellFounded(t) && i < |t| && t[i] == Some(DisableCondition(e))
    ensures Meets(t, i, p, decide) <==> e.reverse
  {
  }
}
