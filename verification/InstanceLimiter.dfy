/** How many different instances an account may enter in an hour. */
module InstanceLimiter {

  const WINDOW: int := 3600

  /** Last enter time of each instance that is still remembered. */
  type Times = map<nat, int>

  predicate Expired(t: int, now: int) {
    t + WINDOW < now
  }

  function Remember(m: Times, id: nat, now: int): Times {
    map k | k in m.Keys + {id} :: if k == id then now else m[k]
  }

  ghost predicate Forgettable(m: Times, id: nat, now: int) {
    id in m && Expired(m[id], now) && forall j :: j in m && Expired(m[j], now) ==> id <= j
  }

  ghost predicate SomeExpired(m: Times, now: int) {
    exists j :: j in m && Expired(m[j], now)
  }

  /** The answer to a request for instance `id`, and what is remembered after it. */
  ghost predicate Checked(m: Times, id: nat, now: int, max: nat, ok: bool, after: Times) {
    if id in m || |m| < max then ok && after == m
    else if SomeExpired(m, now) then ok && exists j :: Forgettable(m, j, now) && after == m - {j}
    else !ok && after == m
  }

  // ---- the account manager ---------------------------------------------------------------------

  class AccountMgr {
    var enterTimes: map<nat, Times>

    ghost function Of(account: nat): Times
      reads this
    {
      if account in enterTimes then enterTimes[account] else map[]
    }

    method CheckInstanceCount(account: nat, id: nat, max: nat, now: int) returns (ok: bool)
      requires max >= 1
      modifies this
      ensures Checked(old(Of(account)), id, now, max, ok, Of(account))
      ensures forall a :: a != account ==> Of(a) == old(Of(a))
    {
      if account !in enterTimes {
        return true;
      }
      var times := enterTimes[account];
      if id in times || |times| < max {
        return true;
      }
      var left := times.Keys;
      while left != {}
        invariant left <= times.Keys && enterTimes == old(enterTimes)
        invariant forall j :: j in times && j !in left ==> !Expired(times[j], now) && forall k :: k in left ==> j < k
      {
        ghost var low := Lowest(left);
        var j :| j in left && forall k :: k in left ==> j <= k;
        if Expired(times[j], now) {
          assert Forgettable(times, j, now);
          enterTimes := enterTimes[account := times - {j}];
          return true;
        }
        left := left - {j};
      }
      return false;
    }

    method AddInstanceEnterTime(account: nat, id: nat, now: int)
      modifies this
      ensures Of(account) == Remember(old(Of(account)), id, now)
      ensures forall a :: a != account ==> Of(a) == old(Of(a))
    {
      var times: Times := if account in enterTimes then enterTimes[account] else map[];
      enterTimes := enterTimes[account := Remember(times, id, now)];
    }
  }

  lemma {:induction false} Lowest(s: set<nat>) returns (low: nat)
    requires s != {}
    ensures low in s && forall k :: k in s ==> low <= k
    decreases |s|
  {
    var x :| x in s;
    var rest := s - {x};
    assert s == rest + {x};
    low := x;
    if rest != {} {
      var l := Lowest(rest);
      low := if l < x then l else x;
    }
  }

  // ---- runs for one account ---------------------------------------------------------------------------

  /** A check at some time, followed by entering the instance or not. */
  datatype Request = Request(id: nat, now: int, enters: bool)

  /** An instance entered at a time. */
  datatype Visit = Visit(id: nat, time: int)

  /** Instances entered from `from` on, up to `till`. */
  ghost function Visited(h: seq<Visit>, from: int, till: int): set<nat> {
    set k | 0 <= k < |h| && from <= h[k].time <= till :: h[k].id
  }

  /** Instances entered within the hour that starts at `from`. */
  ghost function Hour(h: seq<Visit>, from: int): set<nat> {
    Visited(h, from, from + 3600)
  }

  /** One step of a run: the check, and the enter time added if it said yes and the player goes in. */
  ghost predicate Step(m: Times, h: seq<Visit>, r: Request, max: nat, ok: bool, m': Times, h': seq<Visit>) {
    exists checked :: Checked(m, r.id, r.now, max, ok, checked) &&
      m' == (if ok && r.enters then Remember(checked, r.id, r.now) else checked) &&
      h' == (if ok && r.enters then h + [Visit(r.id, r.now)] else h)
  }

  /** A state of a run so far. */
  datatype State = State(times: Times, visits: seq<Visit>)

  /** A run: its states, one more than its requests, and the answers. */
  ghost predicate Run(rs: seq<Request>, max: nat, states: seq<State>, oks: seq<bool>) {
    && |states| == |rs| + 1 && |oks| == |rs|
    && states[0] == State(map[], [])
    && (forall i, j :: 0 <= i < j < |rs| ==> rs[i].now <= rs[j].now)
    && forall i :: 0 <= i < |rs| ==> StepAt(rs, max, states, oks, i)
  }

  ghost predicate StepAt(rs: seq<Request>, max: nat, states: seq<State>, oks: seq<bool>, i: nat)
    requires i < |rs| && i + 1 < |states| && i < |oks|
  {
    Step(states[i].times, states[i].visits, rs[i], max, oks[i], states[i + 1].times, states[i + 1].visits)
  }

  /** Visits come in order, none after `now`; what is remembered was visited, and what was visited lately is remembered. */
  ghost predicate Remembers(m: Times, h: seq<Visit>, now: int) {
    && (forall k :: 0 <= k < |h| ==> h[k].time <= now)
    && (forall k :: 0 <= k < |h| && !Expired(h[k].time, now) ==> h[k].id in m && h[k].time <= m[h[k].id])
    && (forall j :: j in m ==> m[j] <= now && exists k :: 0 <= k < |h| && h[k] == Visit(j, m[j]))
  }

  /** And no more than `max` are remembered, or were ever entered within an hour. */
  ghost predicate Inv(m: Times, h: seq<Visit>, max: nat, now: int) {
    && Remembers(m, h, now)
    && |m| <= max
    && (forall from: int :: |Hour(h, from)| <= max)
  }

  lemma InvLater(m: Times, h: seq<Visit>, max: nat, now: int, later: int)
    requires Inv(m, h, max, now) && now <= later
    ensures Inv(m, h, max, later)
  {
  }

  /** An instance that would be refused is not among the visited ones of the last window, and those are `max`. */
  lemma RefusedExactly(m: Times, h: seq<Visit>, max: nat, id: nat, now: int, ok: bool, after: Times)
    requires Inv(m, h, max, now) && max >= 1 && Checked(m, id, now, max, ok, after)
    ensures var recent := Hour(h, now - 3600);
            !ok <==> id !in recent && |recent| == max
  {
    var recent := Hour(h, now - WINDOW);
    assert recent <= m.Keys;
    if !ok {
      assert forall j :: j in m ==> j in recent;
      assert recent == m.Keys;
    } else if |recent| == max {
      SameSize(recent, m.Keys);
      assert recent == m.Keys;
    }
  }

  lemma {:induction false} SameSize(a: set<nat>, b: set<nat>)
    requires a <= b && |b| <= |a|
    ensures a == b
    decreases |a|
  {
    if a != {} {
      var x :| x in a;
      SameSize(a - {x}, b - {x});
      assert a == (a - {x}) + {x} == (b - {x}) + {x} == b;
    }
  }

  /** Instances of a window that is not over are all remembered. */
  lemma LateHours(m: Times, h: seq<Visit>, now: int, from: int)
    requires Remembers(m, h, now) && now <= from + WINDOW
    ensures Hour(h, from) <= m.Keys
  {
  }

  lemma SubsetSize(a: set<nat>, b: set<nat>)
    requires a <= b
    ensures |a| <= |b|
  {
    assert b == a + (b - a);
  }

  /** What a check takes out is expired, and with room made there is room. */
  lemma CheckedKeeps(m: Times, h: seq<Visit>, id: nat, now: int, max: nat, ok: bool, after: Times)
    requires Inv(m, h, max, now) && max >= 1 && Checked(m, id, now, max, ok, after)
    ensures Inv(after, h, max, now)
    ensures ok ==> id in after || |after| < max
  {
    hide Hour;
  }

  lemma EnterRemembers(m: Times, h: seq<Visit>, id: nat, now: int)
    requires Remembers(m, h, now)
    ensures Remembers(Remember(m, id, now), h + [Visit(id, now)], now)
  {
    var m', h' := Remember(m, id, now), h + [Visit(id, now)];
    forall j | j in m'
      ensures m'[j] <= now && exists k :: 0 <= k < |h'| && h'[k] == Visit(j, m'[j])
    {
      if j == id {
        assert h'[|h|] == Visit(j, m'[j]);
      } else {
        var k :| 0 <= k < |h| && h[k] == Visit(j, m[j]);
        assert h'[k] == Visit(j, m'[j]);
      }
    }
  }

  lemma EnterCounts(m: Times, id: nat, now: int, max: nat)
    requires |m| <= max && (id in m || |m| < max)
    ensures |Remember(m, id, now)| <= max
  {
    var m' := Remember(m, id, now);
    assert m'.Keys == m.Keys + {id};
    assert id in m ==> m.Keys + {id} == m.Keys;
  }

  lemma EnterKeeps(m: Times, h: seq<Visit>, id: nat, now: int, max: nat)
    requires Inv(m, h, max, now) && (id in m || |m| < max)
    ensures Inv(Remember(m, id, now), h + [Visit(id, now)], max, now)
  {
    hide Hour, Remember;
    var m', h' := Remember(m, id, now), h + [Visit(id, now)];
    EnterRemembers(m, h, id, now);
    EnterCounts(m, id, now, max);
    forall from: int
      ensures |Hour(h', from)| <= max
    {
      if now <= from + WINDOW {
        LateHours(m', h', now, from);
        SubsetSize(Hour(h', from), m'.Keys);
      } else {
        SameHour(h, Visit(id, now), from);
      }
    }
  }

  lemma SameHour(h: seq<Visit>, v: Visit, from: int)
    requires v.time > from + WINDOW
    ensures Hour(h + [v], from) == Hour(h, from)
  {
    assert forall k :: 0 <= k < |h| ==> (h + [v])[k] == h[k];
  }

  lemma {:induction false} StepKeeps(m: Times, h: seq<Visit>, r: Request, max: nat, ok: bool, m': Times, h': seq<Visit>)
    requires Inv(m, h, max, r.now) && max >= 1 && Step(m, h, r, max, ok, m', h')
    ensures Inv(m', h', max, r.now)
  {
    hide Inv, Checked;
    var checked :| Checked(m, r.id, r.now, max, ok, checked) &&
      m' == (if ok && r.enters then Remember(checked, r.id, r.now) else checked) &&
      h' == (if ok && r.enters then h + [Visit(r.id, r.now)] else h);
    CheckedKeeps(m, h, r.id, r.now, max, ok, checked);
    if ok && r.enters {
      EnterKeeps(checked, h, r.id, r.now, max);
    }
  }

  /** The state before request `i` keeps the invariant at the time of the request. */
  lemma {:induction false} RunKeeps(rs: seq<Request>, max: nat, states: seq<State>, oks: seq<bool>, i: nat, now: int)
    requires Run(rs, max, states, oks) && max >= 1 && i <= |rs|
    requires if i < |rs| then now == rs[i].now else forall k :: 0 <= k < |rs| ==> rs[k].now <= now
    ensures Inv(states[i].times, states[i].visits, max, now)
  {
    hide Step, Inv;
    if i == 0 {
      Start(max, now);
    } else {
      assert StepAt(rs, max, states, oks, i - 1);
      RunKeeps(rs, max, states, oks, i - 1, rs[i - 1].now);
      StepKeeps(states[i - 1].times, states[i - 1].visits, rs[i - 1], max, oks[i - 1], states[i].times, states[i].visits);
      InvLater(states[i].times, states[i].visits, max, rs[i - 1].now, now);
    }
  }

  lemma Start(max: nat, now: int)
    ensures Inv(map[], [], max, now)
  {
    forall from: int
      ensures Hour([], from) == {}
    {
    }
  }

  /**
   In every run no hour sees more than `max` different instances entered, and a request is
   refused exactly if `max` others were all entered within the last hour.
   */
  lemma AtMostInAnHour(rs: seq<Request>, max: nat, states: seq<State>, oks: seq<bool>)
    requires Run(rs, max, states, oks) && max >= 1
    ensures forall i, from: int :: 0 <= i <= |rs| ==> |Hour(states[i].visits, from)| <= max
    ensures forall i :: 0 <= i < |rs| ==>
              (!oks[i] <==>
               rs[i].id !in Hour(states[i].visits, rs[i].now - 3600) && |Hour(states[i].visits, rs[i].now - 3600)| == max)
  {
    hide Hour, Checked;
    forall i, from: int | 0 <= i <= |rs|
      ensures |Hour(states[i].visits, from)| <= max
    {
      RunKeeps(rs, max, states, oks, i, if i < |rs| then rs[i].now else if rs == [] then 0 else rs[|rs| - 1].now);
    }
    forall i | 0 <= i < |rs|
      ensures !oks[i] <==>
              rs[i].id !in Hour(states[i].visits, rs[i].now - 3600) && |Hour(states[i].visits, rs[i].now - 3600)| == max
    {
      RunKeeps(rs, max, states, oks, i, rs[i].now);
      assert StepAt(rs, max, states, oks, i);
      var checked :| Checked(states[i].times, rs[i].id, rs[i].now, max, oks[i], checked);
      RefusedExactly(states[i].times, states[i].visits, max, rs[i].id, rs[i].now, oks[i], checked);
    }
  }
}
