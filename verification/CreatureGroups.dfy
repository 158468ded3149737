/** Creature groups: who leads, which options hold, and respawning together through re-entrant callbacks. */
module CreatureGroups {
  import opened Bytes

  const FORMATION_MOVE: bv32 := 1
  const RESPAWN_TOGETHER: bv32 := 8

  datatype DeathState = Alive | Corpse | Dead

  /** What the respawn of a creature makes others call on its group. */
  datatype Callback = CallOnRespawn(guid: nat) | CallRespawnAll(except: nat)

  /** The fields of a creature that respawning reads or changes. */
  datatype Being = Being(inWorld: bool, mayRespawn: bool, state: DeathState, respawnTime: nat)

  predicate Awaiting(b: Being, now: nat) {
    b.inWorld && b.respawnTime > now && b.mayRespawn
  }

  lemma AwaitingFields(now: nat)
    ensures forall b: Being :: Awaiting(b, now) <==> b.inWorld && b.respawnTime > now && b.mayRespawn
  {
  }

  /** What becomes of everyone when the creatures in `done` are told to respawn. */
  function Respawned(all: map<nat, Being>, done: seq<nat>, now: nat): map<nat, Being> {
    map g <- all :: if g in done then all[g].(state := Dead, respawnTime := now) else all[g]
  }

  lemma RespawnedTwice(all: map<nat, Being>, a: seq<nat>, b: seq<nat>, now: nat)
    ensures Respawned(Respawned(all, a, now), b, now) == Respawned(all, a + b, now)
    ensures Respawned(all, [], now) == all
  {
  }

  /** The creatures that a round of respawns over `ms` has told, each once. */
  ghost predicate Round(ms: seq<Member>, except: nat, before: map<nat, Being>, done: seq<nat>, now: nat) {
    && Distinct(done)
    && forall g :: g in done <==> g in before && g != except && Has(ms, g) && Awaiting(before[g], now)
  }

  /** One more member, which was told if it still waited. */
  lemma RoundStep(ms: seq<Member>, m: Member, except: nat, before: map<nat, Being>, done: seq<nat>, one: seq<nat>, now: nat)
    requires Round(ms, except, before, done, now)
    requires one == if m.guid != except && m.guid in before && Awaiting(Respawned(before, done, now)[m.guid], now) then [m.guid] else []
    ensures Round(ms + [m], except, before, done + one, now)
  {
    var g := m.guid;
    assert forall x: nat :: Has(ms + [m], x) <==> Has(ms, x) || x == g by {
      HasAppend(ms, m);
    }
    assert g in before && g in done ==> !Awaiting(Respawned(before, done, now)[g], now);
    assert forall x: nat :: x in done + one <==> x in done || x in one;
  }

  lemma RoundDone(ms: seq<Member>, m: Member, except: nat, before: map<nat, Being>, done: seq<nat>, now: nat)
    requires Round(ms + [m], except, before, done, now)
    ensures Distinct(done)
    ensures forall g :: g in done <==> g in before && g != except && (Has(ms, g) || g == m.guid) && Awaiting(before[g], now)
  {
    HasAppend(ms, m);
  }

  /** Nobody was told before the round. */
  lemma RoundStart(except: nat, before: map<nat, Being>, now: nat)
    ensures Round([], except, before, [], now)
  {
  }

  lemma HasAppend(ms: seq<Member>, m: Member)
    ensures forall x: nat :: Has(ms + [m], x) <==> Has(ms, x) || x == m.guid
  {
    var all := ms + [m];
    assert all[|ms|] == m && forall i :: 0 <= i < |ms| ==> all[i] == ms[i];
  }

  class Creature {
    const guid: nat
    const waypoints: bool               // moves along a path by default
    const callbacks: seq<Callback>
    var inWorld: bool
    var mayRespawn: bool                // no battleground forbids it
    var state: DeathState
    var respawnTime: nat

    predicate Valid()
      reads this
    {
      state.Alive? ==> respawnTime == 0
    }

    function Value(): Being
      reads this
    {
      Being(inWorld, mayRespawn, state, respawnTime)
    }

    predicate Up()
      reads this
    {
      inWorld && state.Alive?
    }

    /** The corpse goes; a creature that is despawned will come back at the next tick. */
    method Respawn(now: nat)
      requires Valid()
      modifies this`state, this`respawnTime
      ensures Valid()
      ensures !old(state).Alive? ==> state.Dead? && respawnTime == now
      ensures old(state).Alive? ==> state == old(state) && respawnTime == old(respawnTime)
    {
      if state.Corpse? {
        state := Dead;
      }
      if state.Dead? {
        respawnTime := now;
      }
    }
  }

  datatype Member = Member(guid: nat, flags: bv32)

  // ---- the member table: a map ordered by guid ---------------------------------------------------

  predicate Sorted(ms: seq<Member>) {
    forall i, j :: 0 <= i < j < |ms| ==> ms[i].guid < ms[j].guid
  }

  predicate Has(ms: seq<Member>, guid: nat) {
    exists i :: 0 <= i < |ms| && ms[i].guid == guid
  }

  function Put(ms: seq<Member>, m: Member): seq<Member> {
    if ms == [] || m.guid < ms[0].guid then [m] + ms
    else if ms[0].guid == m.guid then [m] + ms[1..]
    else [ms[0]] + Put(ms[1..], m)
  }

  function Drop(ms: seq<Member>, guid: nat): seq<Member> {
    if ms == [] then [] else if ms[0].guid == guid then ms[1..] else [ms[0]] + Drop(ms[1..], guid)
  }

  lemma {:induction false} PutHas(ms: seq<Member>, m: Member)
    requires Sorted(ms)
    ensures forall x :: x in Put(ms, m) <==> x == m || (x in ms && x.guid != m.guid)
  {
    if ms != [] {
      assert ms == [ms[0]] + ms[1..];
      if m.guid > ms[0].guid {
        PutHas(ms[1..], m);
      }
    }
  }

  lemma {:induction false} PutSorted(ms: seq<Member>, m: Member)
    requires Sorted(ms)
    ensures Sorted(Put(ms, m))
  {
    if ms != [] && m.guid > ms[0].guid {
      PutSorted(ms[1..], m);
      PutHas(ms[1..], m);
      var r := Put(ms[1..], m);
      assert forall j :: 0 <= j < |r| ==> r[j] in r;
    }
  }

  lemma {:induction false} DropIs(ms: seq<Member>, guid: nat)
    requires Sorted(ms)
    ensures Sorted(Drop(ms, guid))
    ensures forall x :: x in Drop(ms, guid) <==> x in ms && x.guid != guid
  {
    if ms != [] {
      assert ms == [ms[0]] + ms[1..];
      if ms[0].guid != guid {
        DropIs(ms[1..], guid);
        var r := Drop(ms[1..], guid);
        assert forall j :: 0 <= j < |r| ==> r[j] in r;
      }
    }
  }

  ghost predicate CoveredBy(ms: seq<Member>, options: bv32) {
    forall m <- ms :: m.flags & options == m.flags
  }

  lemma PutKeeps(ms: seq<Member>, m: Member, other: nat)
    requires Sorted(ms) && Has(ms, other)
    ensures Has(Put(ms, m), other)
  {
    hide Sorted;
    PutHas(ms, m);
    var i :| 0 <= i < |ms| && ms[i].guid == other;
    var x := if other == m.guid then m else ms[i];
    assert ms[i] in ms && x in Put(ms, m);
  }

  /** `m_options |= memberFlags`. */
  function Joined(options: bv32, flags: bv32): bv32 {
    options | flags
  }

  lemma JoinedBits(options: bv32, flags: bv32)
    ensures Joined(options, flags) == options | flags
  {
  }

  lemma OneMoreFlag(f: bv32, flags: bv32, options: bv32)
    ensures f & options == f ==> f & (options | flags) == f
    ensures flags & (options | flags) == flags
  {
  }

  lemma FlagsAfter(ms: seq<Member>, m: Member, options: bv32)
    requires Sorted(ms) && CoveredBy(ms, options)
    ensures CoveredBy(Put(ms, m), Joined(options, m.flags))
  {
    hide Sorted;
    PutHas(ms, m);
    forall x <- Put(ms, m)
      ensures x.flags & Joined(options, m.flags) == x.flags
    {
      OneMoreFlag(x.flags, m.flags, options);
    }
  }

  // ---- the group ---------------------------------------------------------------------------------

  class CreatureGroup {
    const original: nat
    const creatures: map<nat, Creature>     // who can be looked up on the map
    ghost const everyone: set<Creature>
    var leader: nat
    var options: bv32
    var respawnGuard: bool
    var members: seq<Member>
    ghost var called: seq<nat>              // creatures told to respawn

    /** The leader is the original one or a member, and the options cover every member's flags. */
    ghost predicate Roster()
      reads this`members, this`leader, this`options
    {
      && Sorted(members)
      && (leader == original || Has(members, leader))
      && FlagsCovered()
    }

    ghost predicate FlagsCovered()
      reads this`members, this`options
    {
      CoveredBy(members, options)
    }

    ghost predicate Lookup()
      reads everyone
    {
      forall g <- creatures :: creatures[g] in everyone && creatures[g].guid == g && creatures[g].Valid()
    }

    ghost predicate Valid()
      reads this`members, this`leader, this`options, everyone
    {
      Roster() && Lookup()
    }

    constructor (leader: nat, creatures: map<nat, Creature>)
      requires forall g <- creatures :: creatures[g].guid == g && creatures[g].Valid()
      ensures Valid() && !respawnGuard && members == [] && called == []
      ensures this.leader == original == leader && this.creatures == creatures
    {
      this.original, this.leader, this.creatures := leader, leader, creatures;
      everyone := creatures.Values;
      options, respawnGuard, members, called := 0, false, [], [];
    }

    predicate IsFormation()
      reads this`options
    {
      options & FORMATION_MOVE != 0
    }

    /** Nobody is added as the member that currently leads. */
    method AddMember(guid: nat, flags: bv32) returns (added: bool)
      requires Valid()
      modifies this`members, this`options
      ensures Valid() && added == (guid != leader)
      ensures if added then forall x :: x in members <==> x == Member(guid, flags) || (x in old(members) && x.guid != guid)
              else members == old(members) && options == old(options)
      ensures added ==> options == old(options) | flags
    {
      if guid == leader {
        return false;
      }
      hide Sorted, CoveredBy, Has, Put, Lookup, Joined;
      if leader != original {
        PutKeeps(members, Member(guid, flags), leader);
      }
      FlagsAfter(members, Member(guid, flags), options);
      PutSorted(members, Member(guid, flags));
      PutHas(members, Member(guid, flags));
      JoinedBits(options, flags);
      members := Put(members, Member(guid, flags));
      options := Joined(options, flags);
      return true;
    }

    // Respawning. `now` is the clock, which does not move during a call.

    /** The guard cuts re-entrant calls short: their depth below an unguarded call is bounded. */
    ghost function Depth(): nat
      reads this`respawnGuard
    {
      if respawnGuard then 0 else 1
    }

    ghost function World(): (all: map<nat, Being>)
      requires Lookup()
      reads everyone
      ensures all.Keys == creatures.Keys
    {
      map g <- creatures :: creatures[g].Value()
    }

    /** Respawns one creature if it waits for it, unless a respawn is going on already. */
    method Respawn(g: nat, now: nat) returns (ghost done: seq<nat>)
      requires Valid() && g in creatures
      modifies this`leader, this`respawnGuard, this`called, everyone`state, everyone`respawnTime
      ensures Valid() && respawnGuard == old(respawnGuard) && (leader == old(leader) || leader == original)
      ensures var b := old(World())[g];
              done == if !old(respawnGuard) && b.inWorld && b.respawnTime > now && b.mayRespawn then [g] else []
      ensures World() == Respawned(old(World()), done, now) && called == old(called) + done
      decreases Depth(), 1
    {
      hide Roster, Lookup, World, Respawned;
      done := [];
      RespawnedTwice(World(), [], [], now);
      if respawnGuard {
        return;
      }
      respawnGuard := true;
      WorldAt(g);
      var c := creatures[g];
      if c.inWorld && c.respawnTime > now && c.mayRespawn {
        done := [g];
        Tell(g, c, now);
        RunCallbacks(c.callbacks, now);
      }
      respawnGuard := false;
    }

    lemma WorldAt(g: nat)
      requires Lookup() && g in creatures
      ensures World()[g] == creatures[g].Value() && creatures[g] in everyone
    {
    }

    /** The creature's own respawn. */
    method Tell(g: nat, c: Creature, now: nat)
      requires Lookup() && g in creatures && c == creatures[g] && Awaiting(c.Value(), now)
      modifies this`called, c`state, c`respawnTime
      ensures Lookup() && World() == Respawned(old(World()), [g], now) && called == old(called) + [g]
    {
      called := called + [g];
      c.Respawn(now);
    }

    /** Respawns a creature by number, if it can be looked up and is not `except`. */
    method RespawnOther(g: nat, except: nat, now: nat) returns (ghost one: seq<nat>)
      requires Valid()
      modifies this`leader, this`respawnGuard, this`called, everyone`state, everyone`respawnTime
      ensures Valid() && respawnGuard == old(respawnGuard) && (leader == old(leader) || leader == original)
      ensures one == if !old(respawnGuard) && g != except && g in creatures && Awaiting(old(World())[g], now) then [g] else []
      ensures World() == Respawned(old(World()), one, now) && called == old(called) + one
      decreases Depth(), 2, 0
    {
      hide Roster, Lookup, World, Respawned;
      one := [];
      RespawnedTwice(World(), [], [], now);
      if g != except && g in creatures {
        one := Respawn(g, now);
      }
    }

    /** What the respawn of a creature sets off; the guard is up. */
    method RunCallbacks(cs: seq<Callback>, now: nat)
      requires Valid() && respawnGuard
      modifies this`leader, this`respawnGuard, this`called, everyone`state, everyone`respawnTime
      ensures Valid() && respawnGuard && (leader == old(leader) || leader == original)
      ensures World() == old(World()) && called == old(called)
      decreases Depth(), 4
    {
      hide Roster, Lookup, World, Respawned;
      for i := 0 to |cs|
        invariant Valid() && respawnGuard && (leader == old(leader) || leader == original)
        invariant World() == old(World()) && called == old(called)
      {
        RespawnedTwice(World(), [], [], now);
        match cs[i]
        case CallOnRespawn(guid) => ghost var none := OnRespawn(guid, now);
        case CallRespawnAll(except) => ghost var none := RespawnAll(except, now);
      }
    }

    /** Whether a round of respawns that leaves out `except` covers creature `g`. */
    ghost predicate Covered(g: nat, except: nat)
      reads this`members
    {
      g in creatures && g != except && (Has(members, g) || g == original)
    }

    /**
     Respawns everyone but `except`: with the guard down each creature of the group that waits
     for it exactly once, whatever the respawns set off; with the guard up nobody.
     */
    method RespawnAll(except: nat, now: nat) returns (ghost done: seq<nat>)
      requires Valid()
      modifies this`leader, this`respawnGuard, this`called, everyone`state, everyone`respawnTime
      ensures Valid() && respawnGuard == old(respawnGuard) && (leader == old(leader) || leader == original)
      ensures World() == Respawned(old(World()), done, now) && called == old(called) + done
      ensures respawnGuard ==> done == []
      ensures !respawnGuard ==>
                && Distinct(done)
                && forall g :: g in done <==> Covered(g, except) && (var b := old(World())[g]; b.inWorld && b.respawnTime > now && b.mayRespawn)
      decreases Depth(), 2
    {
      hide Roster, Lookup, World, Respawned, Has, Round, Distinct, Awaiting;
      done := [];
      RoundStart(except, World(), now);
      RespawnedTwice(World(), [], [], now);
      for i := 0 to |members|
        invariant Valid() && respawnGuard == old(respawnGuard) && (leader == old(leader) || leader == original)
        invariant World() == Respawned(old(World()), done, now) && called == old(called) + done
        invariant if respawnGuard then done == [] else Round(members[..i], except, old(World()), done, now)
      {
        var g := members[i].guid;
        ghost var one := RespawnOther(g, except, now);
        RespawnedTwice(old(World()), done, one, now);
        Assoc(old(called), done, one);
        if !respawnGuard {
          RoundStep(members[..i], members[i], except, old(World()), done, one, now);
        }
        assert members[..i + 1] == members[..i] + [members[i]];
        done := done + one;
      }
      assert members[..|members|] == members;
      ghost var one := RespawnOther(original, except, now);
      RespawnedTwice(old(World()), done, one, now);
      Assoc(old(called), done, one);
      if !respawnGuard {
        RoundStep(members, Member(original, 0), except, old(World()), done, one, now);
        RoundDone(members, Member(original, 0), except, old(World()), done + one, now);
        AwaitingFields(now);
      }
      done := done + one;
    }

    /** The original leader leads again when it is back; some groups respawn as one. */
    method OnRespawn(guid: nat, now: nat) returns (ghost done: seq<nat>)
      requires Valid()
      modifies this`leader, this`respawnGuard, this`called, everyone`state, everyone`respawnTime
      ensures Valid() && respawnGuard == old(respawnGuard) && (leader == old(leader) || leader == original)
      ensures guid == original ==> leader == original
      ensures World() == Respawned(old(World()), done, now) && called == old(called) + done
      ensures respawnGuard || options & 8 == 0 ==> done == []
      ensures !respawnGuard && options & 8 != 0 ==>
                Distinct(done) && forall g :: g in done <==> Covered(g, guid) && (var b := old(World())[g]; b.inWorld && b.respawnTime > now && b.mayRespawn)
      decreases Depth(), 3
    {
      hide World, Lookup, Respawned, Has, Distinct, Sorted;
      done := [];
      RespawnedTwice(World(), [], [], now);
      if leader != original && guid == original {
        leader := original;
      }
      if options & RESPAWN_TOGETHER == 0 {
        return;
      }
      done := RespawnAll(guid, now);
    }

    // Leaders.

    predicate MayLead(m: Member, dead: nat)
      requires Lookup()
      reads everyone
    {
      m.guid != dead && m.guid in creatures && creatures[m.guid].Up()
    }

    /** The member `g`, other than `dead`, is in the world and alive. */
    ghost predicate Stands(g: nat, dead: nat)
      requires Lookup()
      reads this`members, everyone
    {
      && (exists m <- members :: m.guid == g)
      && g != dead && g in creatures && creatures[g].inWorld && creatures[g].state == Alive
    }

    ghost predicate NoHeir(dead: nat)
      requires Lookup()
      reads this`members, everyone
    {
      forall g :: !Stands(g, dead)
    }

    /** The member `g` may lead after `dead`, and none with a lower guid may. */
    ghost predicate Heir(dead: nat, g: nat)
      requires Lookup()
      reads this`members, everyone
    {
      Stands(g, dead) && forall x :: Stands(x, dead) ==> g <= x
    }

    lemma MemberStands(dead: nat, i: nat)
      requires Valid() && i < |members|
      ensures MayLead(members[i], dead) <==> Stands(members[i].guid, dead)
    {
    }

    /** With none standing before it, member `k` is the heir. */
    lemma FirstIsHeir(dead: nat, k: nat)
      requires Valid() && k <= |members|
      requires forall i :: 0 <= i < k ==> !MayLead(members[i], dead)
      ensures k == |members| ==> NoHeir(dead)
      ensures k < |members| && MayLead(members[k], dead) ==> Heir(dead, members[k].guid) && !NoHeir(dead)
    {
      hide MayLead, FlagsCovered, Has;
      forall g | Stands(g, dead)
        ensures k < |members| && (MayLead(members[k], dead) ==> members[k].guid <= g)
      {
        var i :| 0 <= i < |members| && members[i].guid == g;
        MemberStands(dead, i);
      }
      if k < |members| {
        MemberStands(dead, k);
      }
    }

    /** Index of the first living member other than `dead`, or the number of members. */
    method FirstLiving(dead: nat) returns (k: nat)
      requires Valid()
      ensures k <= |members|
      ensures k < |members| ==> Heir(dead, members[k].guid) && !NoHeir(dead)
      ensures k == |members| ==> NoHeir(dead)
    {
      hide MayLead, Heir, NoHeir, Roster;
      k := 0;
      while k < |members| && !MayLead(members[k], dead)
        invariant k <= |members|
        invariant forall i :: 0 <= i < k ==> !MayLead(members[i], dead)
      {
        k := k + 1;
      }
      FirstIsHeir(dead, k);
    }

    /** Whether a death calls for another leader: of a formation on a path, the one who leads. */
    predicate LosesLeader(member: nat, waypoints: bool)
      reads this`leader, this`options
    {
      member == leader && IsFormation() && (if member == original then waypoints else original in creatures && creatures[original].waypoints)
    }

    /**
     A member has died; `waypoints` says whether it moves along a path by default. If it led a
     formation whose original leader, which may be the dead one, moves along a path, the living
     member with the lowest guid leads next, and without one the original leader does.
     */
    method OnMemberDied(member: nat, waypoints: bool)
      requires Valid()
      modifies this`leader
      ensures Valid()
      ensures var path := if member == original then waypoints else original in creatures && creatures[original].waypoints;
              if member == old(leader) && options & 1 != 0 && path
              then (if NoHeir(member) then leader == original else Heir(member, leader))
              else leader == old(leader)
    {
      hide MayLead, Lookup, Heir, NoHeir, FlagsCovered, Sorted;
      if LosesLeader(member, waypoints) {
        var k := FirstLiving(member);
        leader := if k < |members| then members[k].guid else original;
      }
    }

    method RemoveMember(guid: nat)
      requires Valid() && (guid == leader ==> guid == original)
      modifies this`members
      ensures Valid() && forall m :: m in members <==> m in old(members) && m.guid != guid
    {
      DropIs(members, guid);
      if leader != original {
        DropHas(members, guid, leader);
      }
      members := Drop(members, guid);
    }

    /** A temporary leader goes: the original one leads again. */
    method RemoveTemporaryLeader(guid: nat)
      requires Valid()
      modifies this`leader, this`members
      ensures Valid() && leader == original
      ensures forall m :: m in members <==> m in old(members) && m.guid != guid
    {
      leader := original;
      RemoveMember(guid);
    }

    /** A creature other than the original leader leaves its group. */
    method Leave(guid: nat)
      requires Valid() && guid != original
      modifies this`leader, this`members
      ensures Valid() && leader == if old(leader) == guid then original else old(leader)
      ensures forall m :: m in members <==> m in old(members) && m.guid != guid
    {
      if leader == guid {
        RemoveTemporaryLeader(guid);
      } else {
        RemoveMember(guid);
      }
    }
  }

  lemma DropHas(ms: seq<Member>, guid: nat, other: nat)
    requires Sorted(ms) && Has(ms, other) && other != guid
    ensures Has(Drop(ms, guid), other)
  {
    var i :| 0 <= i < |ms| && ms[i].guid == other;
    DropIs(ms, guid);
    var r := Drop(ms, guid);
    assert ms[i] in r;
    var j :| 0 <= j < |r| && r[j] == ms[i];
  }
}
