/** What a guild member may do: role permissions, channel overwrites and their order of precedence. */
module Permissions {
  import opened Bytes

  type bit = b: int | 0 <= b < 64 witness 0

  /** A 64-bit mask, as the set of its bits. */
  type Mask = set<bit>

  const ADMINISTRATOR: bit := 3

  function AllBits(): (m: Mask)
    ensures forall b: bit :: b in m
  {
    BitsBelow(64)
  }

  function BitsBelow(n: nat): (m: Mask)
    requires n <= 64
    ensures forall b: bit :: b in m <==> b < n
  {
    if n == 0 then {} else BitsBelow(n - 1) + {n - 1}
  }

  /** A channel overwrite for a role or, if `ofRole` is false, for a member. */
  datatype Overwrite = Overwrite(id: nat, ofRole: bool, allow: Mask, deny: Mask)

  datatype Member = Member(userId: nat, roles: seq<nat>)

  /** A guild; `roles` are the cached roles' permissions, and the guild's own number is that of the role everyone has. */
  datatype Guild = Guild(id: nat, ownerId: nat, members: map<nat, Member>, roles: map<nat, Mask>)

  type Channel = seq<Overwrite>

  // ---- the rule, bit by bit ---------------------------------------------------------------------

  /** Granted by the role everyone has or by a role of the member. */
  predicate RoleGrants(g: Guild, m: Member, b: bit)
    requires g.id in g.roles
  {
    b in g.roles[g.id] || exists k :: 0 <= k < |m.roles| && m.roles[k] in g.roles && b in g.roles[m.roles[k]]
  }

  /** The owner may do everything, and so may who is granted administrator, bit 3. */
  predicate MayInGuild(g: Guild, m: Member, b: bit) {
    g.ownerId == m.userId || (g.id in g.roles && (RoleGrants(g, m, 3) || RoleGrants(g, m, b)))
  }

  /** Over the roles that count, which are everyone's and the member's cached ones, in any order. */
  lemma GrantsExactly(g: Guild, m: Member, b: bit)
    ensures MayInGuild(g, m, b) <==>
              || g.ownerId == m.userId
              || (g.id in g.roles && exists r :: (r == g.id || r in m.roles) && r in g.roles && (b in g.roles[r] || 3 in g.roles[r]))
  {
    if r :| (r == g.id || r in m.roles) && r in g.roles && (b in g.roles[r] || 3 in g.roles[r]) {
      if r != g.id {
        var k :| 0 <= k < |m.roles| && m.roles[k] == r;
      }
    }
  }

  function GuildMask(g: Guild, m: Member): (p: Mask)
    ensures forall b: bit :: b in p <==> MayInGuild(g, m, b)
  {
    set b: bit | b in AllBits() && MayInGuild(g, m, b)
  }

  /** The overwrite that counts for a role or member: the first. */
  function Find(c: Channel, id: nat, ofRole: bool): (r: Option<Overwrite>)
    ensures r.Some? ==> r.value in c && r.value.id == id && r.value.ofRole == ofRole
    ensures r.None? ==> forall o :: o in c ==> o.id != id || o.ofRole != ofRole
  {
    if c == [] then None
    else if c[0].id == id && c[0].ofRole == ofRole then Some(c[0])
    else Find(c[1..], id, ofRole)
  }

  /** Of several overwrites for one role or member the first counts, and one for the other kind never does. */
  lemma {:induction false} FirstCounts(c: Channel, id: nat, ofRole: bool, k: nat)
    requires k < |c| && c[k].id == id && c[k].ofRole == ofRole
    requires forall i :: 0 <= i < k ==> !(c[i].id == id && c[i].ofRole == ofRole)
    ensures Find(c, id, ofRole) == Some(c[k])
    decreases k
  {
    if k > 0 {
      FirstCounts(c[1..], id, ofRole, k - 1);
    }
  }

  predicate Allows(o: Option<Overwrite>, b: bit) {
    o.Some? && b in o.value.allow
  }

  predicate Denies(o: Option<Overwrite>, b: bit) {
    o.Some? && b in o.value.deny
  }

  /** A role of the member, other than everyone's, whose overwrite allows the bit. */
  predicate RoleAllows(g: Guild, m: Member, c: Channel, b: bit) {
    exists k :: 0 <= k < |m.roles| && m.roles[k] != g.id && Allows(Find(c, m.roles[k], true), b)
  }

  predicate RoleDenies(g: Guild, m: Member, c: Channel, b: bit) {
    exists k :: 0 <= k < |m.roles| && m.roles[k] != g.id && Denies(Find(c, m.roles[k], true), b)
  }

  /** Member before roles before everyone before the base; at each level allowing before denying. */
  predicate MayInChannel(g: Guild, base: Mask, m: Member, c: Channel, b: bit) {
    if 3 in base then true
    else if Allows(Find(c, m.userId, false), b) then true
    else if Denies(Find(c, m.userId, false), b) then false
    else if RoleAllows(g, m, c, b) then true
    else if RoleDenies(g, m, c, b) then false
    else if Allows(Find(c, g.id, true), b) then true
    else if Denies(Find(c, g.id, true), b) then false
    else b in base
  }

  // ---- the computation -----------------------------------------------------------------------------

  method BasePermissions(g: Guild, m: Member) returns (p: Mask)
    ensures forall b: bit :: b in p <==> MayInGuild(g, m, b)
  {
    if g.ownerId == m.userId {
      return AllBits();
    }
    if g.id !in g.roles {
      return {};
    }
    p := g.roles[g.id];
    for i := 0 to |m.roles|
      invariant forall b: bit :: b in p <==> RoleGrants(g, Member(m.userId, m.roles[..i]), b)
    {
      ghost var before := p;
      if m.roles[i] in g.roles {
        p := p + g.roles[m.roles[i]];
      }
      forall b: bit
        ensures b in p <==> RoleGrants(g, Member(m.userId, m.roles[..i + 1]), b)
      {
        GrantsMore(g, m, i, b);
      }
    }
    assert m.roles[..|m.roles|] == m.roles;
    if ADMINISTRATOR in p {
      return AllBits();
    }
  }

  lemma GrantsMore(g: Guild, m: Member, i: nat, b: bit)
    requires i < |m.roles| && g.id in g.roles
    ensures RoleGrants(g, Member(m.userId, m.roles[..i + 1]), b) <==>
              RoleGrants(g, Member(m.userId, m.roles[..i]), b) || (m.roles[i] in g.roles && b in g.roles[m.roles[i]])
  {
    var more, less := m.roles[..i + 1], m.roles[..i];
    assert more[i] == m.roles[i] && forall k :: 0 <= k < i ==> more[k] == less[k];
  }

  /** The search loop for an overwrite. */
  method FindOverwrite(c: Channel, id: nat, ofRole: bool) returns (r: Option<Overwrite>)
    ensures r == Find(c, id, ofRole)
  {
    for i := 0 to |c|
      invariant Find(c, id, ofRole) == Find(c[i..], id, ofRole)
    {
      if c[i].id == id && c[i].ofRole == ofRole {
        return Some(c[i]);
      }
    }
    r := None;
  }

  function Apply(p: Mask, o: Option<Overwrite>): Mask {
    if o.None? then p else p - o.value.deny + o.value.allow
  }

  /** Overwrites of the member's roles, added up. */
  method RoleOverwrites(g: Guild, m: Member, c: Channel) returns (allow: Mask, deny: Mask)
    ensures forall b: bit :: b in allow <==> RoleAllows(g, m, c, b)
    ensures forall b: bit :: b in deny <==> RoleDenies(g, m, c, b)
  {
    allow, deny := {}, {};
    for i := 0 to |m.roles|
      invariant forall b: bit :: b in allow <==> RoleAllows(g, Member(m.userId, m.roles[..i]), c, b)
      invariant forall b: bit :: b in deny <==> RoleDenies(g, Member(m.userId, m.roles[..i]), c, b)
    {
      if m.roles[i] != g.id {
        var o := FindOverwrite(c, m.roles[i], true);
        if o.Some? {
          deny := deny + o.value.deny;
          allow := allow + o.value.allow;
        }
      }
      forall b: bit
        ensures b in allow <==> RoleAllows(g, Member(m.userId, m.roles[..i + 1]), c, b)
        ensures b in deny <==> RoleDenies(g, Member(m.userId, m.roles[..i + 1]), c, b)
      {
        RolesMore(g, m, c, i, b);
      }
    }
    assert m.roles[..|m.roles|] == m.roles;
  }

  lemma RolesMore(g: Guild, m: Member, c: Channel, i: nat, b: bit)
    requires i < |m.roles|
    ensures RoleAllows(g, Member(m.userId, m.roles[..i + 1]), c, b) <==>
              RoleAllows(g, Member(m.userId, m.roles[..i]), c, b) || (m.roles[i] != g.id && Allows(Find(c, m.roles[i], true), b))
    ensures RoleDenies(g, Member(m.userId, m.roles[..i + 1]), c, b) <==>
              RoleDenies(g, Member(m.userId, m.roles[..i]), c, b) || (m.roles[i] != g.id && Denies(Find(c, m.roles[i], true), b))
  {
    hide Allows, Denies;
    var more, less := m.roles[..i + 1], m.roles[..i];
    assert more[i] == m.roles[i] && forall k :: 0 <= k < i ==> more[k] == less[k];
  }

  /** The overload for a user: nothing without a user or channel, or for one who is no member. */
  method OverwritesOfUser(g: Guild, base: Mask, user: Option<nat>, channel: Option<Channel>) returns (p: Mask)
    ensures user.None? || channel.None? ==> p == {}
    ensures user.Some? && channel.Some? && user.value in g.members ==>
              forall b: bit :: b in p <==> MayInChannel(g, base, g.members[user.value], channel.value, b)
    ensures user.Some? && channel.Some? && user.value !in g.members ==> forall b: bit :: b in p <==> 3 in base
  {
    if user.None? || channel.None? {
      return {};
    }
    if ADMINISTRATOR in base {
      return AllBits();
    }
    var everyone := FindOverwrite(channel.value, g.id, true);
    p := Apply(base, everyone);
    if user.value !in g.members {
      return {};
    }
    var m := g.members[user.value];
    var allow, deny := RoleOverwrites(g, m, channel.value);
    p := p - deny + allow;
    var own := FindOverwrite(channel.value, m.userId, false);
    p := Apply(p, own);
  }

  /** The overload for a member works out the base permissions itself. */
  method OverwritesOfMember(g: Guild, m: Member, channel: Channel) returns (p: Mask)
    ensures forall b: bit :: b in p <==> MayInChannel(g, GuildMask(g, m), m, channel, b)
  {
    var base := BasePermissions(g, m);
    assert base == GuildMask(g, m);
    if ADMINISTRATOR in base {
      return AllBits();
    }
    var everyone := FindOverwrite(channel, g.id, true);
    p := Apply(base, everyone);
    var allow, deny := RoleOverwrites(g, m, channel);
    p := p - deny + allow;
    var own := FindOverwrite(channel, m.userId, false);
    p := Apply(p, own);
  }

  // ---- what the rule says ----------------------------------------------------------------------------

  /** Given a cached member's base permissions, both overloads agree. */
  method BothAgree(g: Guild, user: nat, c: Channel) returns (p: Mask, q: Mask)
    requires user in g.members
    ensures p == q
  {
    var m := g.members[user];
    var base := BasePermissions(g, m);
    p := OverwritesOfUser(g, base, Some(user), Some(c));
    q := OverwritesOfMember(g, m, c);
    assert base == GuildMask(g, m);
    assert forall b: bit :: b in p <==> b in q;
  }

  /** Order and repetition of a member's roles do not matter. */
  lemma RolesAreASet(g: Guild, base: Mask, m: Member, n: Member, c: Channel, b: bit)
    requires m.userId == n.userId && forall r :: r in m.roles <==> r in n.roles
    ensures MayInGuild(g, m, b) <==> MayInGuild(g, n, b)
    ensures MayInChannel(g, base, m, c, b) <==> MayInChannel(g, base, n, c, b)
  {
    RolesCarry(g, m, n, c, b);
    RolesCarry(g, n, m, c, b);
    RolesCarry(g, m, n, c, ADMINISTRATOR);
    RolesCarry(g, n, m, c, ADMINISTRATOR);
  }

  lemma RolesCarry(g: Guild, m: Member, n: Member, c: Channel, b: bit)
    requires forall r :: r in m.roles ==> r in n.roles
    ensures g.id in g.roles && RoleGrants(g, m, b) ==> RoleGrants(g, n, b)
    ensures RoleAllows(g, m, c, b) ==> RoleAllows(g, n, c, b)
    ensures RoleDenies(g, m, c, b) ==> RoleDenies(g, n, c, b)
  {
    hide Allows, Denies;
    forall k | 0 <= k < |m.roles|
      ensures exists l :: 0 <= l < |n.roles| && n.roles[l] == m.roles[k]
    {
      assert m.roles[k] in n.roles;
    }
  }
}
