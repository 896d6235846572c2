/**
  The guild directory cache of pkg/cache/discord.go.

  Two maps are published: role name to role ID, and parsed nickname to guild
  member. A refresh builds a fresh map from a fetched list and replaces the
  published one in a single assignment; a failed fetch leaves it alone. Maps
  are values here, so a map handed out by `ListAllRoles` or
  `ListAllMembersNicknameMap` cannot be changed by a later refresh.

  Go's map iteration order is unspecified; the loops that walk a map pick the
  next key with `:|`, so every proof holds for every iteration order.
*/
module Directory {
  import opened Text
  import LevelParser

  datatype Role = Role(id: string, name: string)

  /** The fields of a guild member the bot reads. */
  datatype Member = Member(userId: string, nick: string, roleIds: seq<string>, isBot: bool)

  /**
    The guild's record of a member (`model.MemberInfo`), as far as the bot
    reads it: in-game nickname, main and sub job, and Discord mention.
  */
  datatype MemberInfo = MemberInfo(nickname: string, mainRoleName: string, subRoleName: string, mention: string)

  /** `roleList`: the ten job roles that make a member a player. */
  const RoleList: seq<string> :=
    ["다크나이트", "히어로", "팔라딘", "보우마스터", "신궁",
     "아크메이지(썬,콜)", "아크메이지(불,독)", "비숍", "나이트로드", "섀도어"]

  /** The role map a successful refresh publishes: later roles with the same name win. */
  function RoleMapOf(rs: seq<Role>): map<string, string>
  {
    if rs == [] then map[]
    else RoleMapOf(rs[..|rs| - 1])[rs[|rs| - 1].name := rs[|rs| - 1].id]
  }

  /** Every role name the map sends to `id`. */
  function NamesOf(roles: map<string, string>, id: string): set<string>
  {
    set n | n in roles && roles[n] == id
  }

  /** Some role name in the allow-list is mapped to `id`. */
  predicate ListedRoleId(roles: map<string, string>, id: string)
  {
    exists n :: n in roles && roles[n] == id && n in RoleList
  }

  /** One of the member's role IDs belongs to a listed job role. */
  predicate HoldsListedRole(roles: map<string, string>, m: Member)
  {
    exists j :: 0 <= j < |m.roleIds| && ListedRoleId(roles, m.roleIds[j])
  }

  /** No two role names share an ID (Discord role IDs are unique). */
  predicate RoleIdsUnique(roles: map<string, string>)
  {
    forall a, b :: a in roles && b in roles && roles[a] == roles[b] ==> a == b
  }

  /** Admission to the member map: a listed job role and a nickname that parses. */
  predicate Eligible(roles: map<string, string>, m: Member)
  {
    HoldsListedRole(roles, m) && LevelParser.Extract(m.nick).level != 0
  }

  /** The key a member is published under: its parsed nickname. */
  function Key(m: Member): string
  {
    LevelParser.Extract(m.nick).nickname
  }

  /**
    A map built by walking `xs` in order and storing each admitted element
    under its key, so that a later element with the same key overwrites an
    earlier one.
  */
  function IndexBy<T>(xs: seq<T>, admit: T -> bool, key: T -> string): map<string, T>
  {
    if xs == [] then map[]
    else
      var prev := IndexBy(xs[..|xs| - 1], admit, key);
      var x := xs[|xs| - 1];
      if admit(x) then prev[key(x) := x] else prev
  }

  /** The member map a successful refresh publishes. */
  function MemberMapOf(roles: map<string, string>, ms: seq<Member>): map<string, Member>
  {
    IndexBy(ms, m => Eligible(roles, m), Key)
  }

  /** Position of the last role named `name`, or -1 when there is none. */
  function LastNamed(rs: seq<Role>, name: string): (i: int)
    ensures -1 <= i < |rs|
    ensures i >= 0 ==> rs[i].name == name
    ensures forall j :: i < j < |rs| ==> rs[j].name != name
  {
    if rs == [] then -1
    else if rs[|rs| - 1].name == name then |rs| - 1
    else LastNamed(rs[..|rs| - 1], name)
  }

  /**
    A name is in the refreshed role map exactly when some fetched role has that
    name, and it maps to the ID of the LAST such role.
  */
  lemma {:induction false} RoleMapOfLookup(rs: seq<Role>, name: string)
    ensures name in RoleMapOf(rs) <==> LastNamed(rs, name) >= 0
    ensures name in RoleMapOf(rs) ==> RoleMapOf(rs)[name] == rs[LastNamed(rs, name)].id
  {
    if rs != [] {
      RoleMapOfLookup(rs[..|rs| - 1], name);
    }
  }

  /** Position of the last admitted element with key `k`, or -1 when there is none. */
  function LastAdmitted<T>(xs: seq<T>, admit: T -> bool, key: T -> string, k: string): (i: int)
    ensures -1 <= i < |xs|
    ensures i >= 0 ==> admit(xs[i]) && key(xs[i]) == k
    ensures forall j :: i < j < |xs| ==> !(admit(xs[j]) && key(xs[j]) == k)
  {
    if xs == [] then -1
    else if admit(xs[|xs| - 1]) && key(xs[|xs| - 1]) == k then |xs| - 1
    else LastAdmitted(xs[..|xs| - 1], admit, key, k)
  }

  /**
    A key is in the index exactly when some admitted element has that key, and
    it holds the LAST such element.
  */
  lemma {:induction false} IndexByLast<T>(xs: seq<T>, admit: T -> bool, key: T -> string, k: string)
    ensures k in IndexBy(xs, admit, key) <==> LastAdmitted(xs, admit, key, k) >= 0
    ensures k in IndexBy(xs, admit, key) ==> IndexBy(xs, admit, key)[k] == xs[LastAdmitted(xs, admit, key, k)]
  {
    if xs != [] {
      IndexByLast(xs[..|xs| - 1], admit, key, k);
    }
  }

  /** Every indexed element comes from `xs`, is admitted and sits under its own key. */
  lemma {:induction false} IndexBySound<T>(xs: seq<T>, admit: T -> bool, key: T -> string)
    ensures forall k :: k in IndexBy(xs, admit, key) ==>
      IndexBy(xs, admit, key)[k] in xs && admit(IndexBy(xs, admit, key)[k]) &&
      key(IndexBy(xs, admit, key)[k]) == k
  {
    if xs != [] {
      IndexBySound(xs[..|xs| - 1], admit, key);
      assert forall x :: x in xs[..|xs| - 1] ==> x in xs;
    }
  }

  /** The member map after one more fetched member. */
  lemma MemberMapStep(roles: map<string, string>, ms: seq<Member>, i: nat)
    requires i < |ms|
    ensures MemberMapOf(roles, ms[..i + 1]) ==
      if Eligible(roles, ms[i]) then MemberMapOf(roles, ms[..i])[Key(ms[i]) := ms[i]]
      else MemberMapOf(roles, ms[..i])
  {
    assert ms[..i + 1][..i] == ms[..i];
  }

  /** With unique role IDs, the one name an ID resolves to decides whether the ID is a listed job. */
  lemma NotListed(roles: map<string, string>, id: string, name: string)
    requires RoleIdsUnique(roles)
    requires NamesOf(roles, id) == {} || name in NamesOf(roles, id)
    requires name !in RoleList
    ensures !ListedRoleId(roles, id)
  {
    forall n | n in roles && roles[n] == id
      ensures n == name
    {
      assert n in NamesOf(roles, id);
    }
  }

  /** The two package-level caches. */
  class DirectoryCache {
    /** roleNameIDCache */
    var roles: map<string, string>
    /** guildMembersCache */
    var members: map<string, Member>

    constructor ()
      ensures roles == map[] && members == map[]
    {
      roles := map[];
      members := map[];
    }

    /** renewRoleMap (lines 42-53). */
    method RefreshRoles(fetched: Result<seq<Role>, string>)
      modifies this`roles
      ensures fetched.Err? ==> roles == old(roles)
      ensures fetched.Ok? ==> roles == RoleMapOf(fetched.value)
    {
      if fetched.Err? {
        return;
      }
      var rs := fetched.value;
      var newRoleMap: map<string, string> := map[];
      var i := 0;
      while i < |rs|
        invariant 0 <= i <= |rs|
        invariant newRoleMap == RoleMapOf(rs[..i])
      {
        assert rs[..i + 1][..i] == rs[..i];
        newRoleMap := newRoleMap[rs[i].name := rs[i].id];
        i := i + 1;
      }
      assert rs[..i] == rs;
      roles := newRoleMap;
    }

    /** GetRoleID (lines 83-90): the ID of a role name, or "" when the name is unknown. */
    function GetRoleID(roleName: string): (id: string)
      reads this
      ensures roleName in roles ==> id == roles[roleName]
      ensures roleName !in roles ==> id == ""
    {
      if roleName in roles then roles[roleName] else ""
    }

    /**
      GetRoleNameByID (lines 92-101): walks the role map in an unspecified
      order and returns the first name mapped to `roleId`, or "" when none is.
    */
    method GetRoleNameByID(roleId: string) returns (name: string)
      ensures NamesOf(roles, roleId) == {} ==> name == ""
      ensures NamesOf(roles, roleId) != {} ==> name in NamesOf(roles, roleId)
    {
      var unvisited := roles.Keys;
      while unvisited != {}
        invariant unvisited <= roles.Keys
        invariant forall n :: n in roles && n !in unvisited ==> roles[n] != roleId
        decreases |unvisited|
      {
        var n :| n in unvisited;
        if roles[n] == roleId {
          assert n in NamesOf(roles, roleId);
          return n;
        }
        unvisited := unvisited - {n};
      }
      name := "";
    }

    /** The inner loop of renewMemberMap (lines 63-69): does some role ID resolve to a listed job? */
    method IsGamer(m: Member) returns (gamer: bool)
      ensures gamer ==> HoldsListedRole(roles, m)
      ensures RoleIdsUnique(roles) ==> gamer == HoldsListedRole(roles, m)
    {
      gamer := false;
      var j := 0;
      while j < |m.roleIds|
        invariant 0 <= j <= |m.roleIds|
        invariant RoleIdsUnique(roles) ==> forall jj :: 0 <= jj < j ==> !ListedRoleId(roles, m.roleIds[jj])
      {
        var name := GetRoleNameByID(m.roleIds[j]);
        if name in RoleList {
          assert name != "";
          assert ListedRoleId(roles, m.roleIds[j]);
          return true;
        }
        if RoleIdsUnique(roles) {
          NotListed(roles, m.roleIds[j], name);
        }
        j := j + 1;
      }
    }

    /**
      renewMemberMap (lines 55-81). Every published member was fetched, is
      eligible and sits under its parsed nickname; when role IDs are unique
      (so the role-name lookup is deterministic) the new map is exactly
      MemberMapOf of the fetched list.
    */
    method RefreshMembers(fetched: Result<seq<Member>, string>)
      modifies this`members
      ensures fetched.Err? ==> members == old(members)
      ensures fetched.Ok? ==> forall k :: k in members ==>
        members[k] in fetched.value && Eligible(roles, members[k]) && Key(members[k]) == k
      ensures fetched.Ok? && RoleIdsUnique(roles) ==> members == MemberMapOf(roles, fetched.value)
    {
      if fetched.Err? {
        return;
      }
      var ms := fetched.value;
      var newMemberMap: map<string, Member> := map[];
      var i := 0;
      while i < |ms|
        invariant 0 <= i <= |ms|
        invariant forall k :: k in newMemberMap ==>
          newMemberMap[k] in ms[..i] && Eligible(roles, newMemberMap[k]) && Key(newMemberMap[k]) == k
        invariant RoleIdsUnique(roles) ==> newMemberMap == MemberMapOf(roles, ms[..i])
      {
        newMemberMap := AdmitMember(ms, i, newMemberMap);
        i := i + 1;
      }
      assert ms[..i] == ms;
      members := newMemberMap;
    }

    /** One turn of the loop of renewMemberMap (lines 63-79), on the member at position `i`. */
    method AdmitMember(ms: seq<Member>, i: nat, prior: map<string, Member>) returns (next: map<string, Member>)
      requires i < |ms|
      requires forall k :: k in prior ==> prior[k] in ms[..i] && Eligible(roles, prior[k]) && Key(prior[k]) == k
      requires RoleIdsUnique(roles) ==> prior == MemberMapOf(roles, ms[..i])
      ensures forall k :: k in next ==> next[k] in ms[..i + 1] && Eligible(roles, next[k]) && Key(next[k]) == k
      ensures RoleIdsUnique(roles) ==> next == MemberMapOf(roles, ms[..i + 1])
    {
      assert forall x :: x in ms[..i] ==> x in ms[..i + 1];
      MemberMapStep(roles, ms, i);
      next := prior;
      var m := ms[i];
      var gamer := IsGamer(m);
      if gamer {
        var p := LevelParser.Extract(m.nick);
        if p.level != 0 {
          next := next[p.nickname := m];
        }
      }
    }

    /** ListAllRoles (lines 103-108): the published role map itself. */
    function ListAllRoles(): (r: map<string, string>)
      reads this
      ensures r == roles
    {
      roles
    }

    /** GetGuildMember (lines 110-119): a cached member with this user ID, or None. */
    method GetGuildMember(memberId: string) returns (r: Option<Member>)
      ensures r.Some? ==> r.value in members.Values && r.value.userId == memberId
      ensures r.None? ==> forall k :: k in members ==> members[k].userId != memberId
    {
      var unvisited := members.Keys;
      while unvisited != {}
        invariant unvisited <= members.Keys
        invariant forall k :: k in members && k !in unvisited ==> members[k].userId != memberId
        decreases |unvisited|
      {
        var k :| k in unvisited;
        if members[k].userId == memberId {
          return Some(members[k]);
        }
        unvisited := unvisited - {k};
      }
      r := None;
    }

    /**
      ListAllMembers (lines 121-130): the map's values flattened in an
      unspecified order; `order` is the key order the walk took.
    */
    method ListAllMembers() returns (r: seq<Member>, ghost order: seq<string>)
      ensures |r| == |order| == |members.Keys|
      ensures forall i :: 0 <= i < |order| ==> order[i] in members && r[i] == members[order[i]]
      ensures forall i, j :: 0 <= i < j < |order| ==> order[i] != order[j]
      ensures forall k :: k in members ==> k in order
      ensures forall x :: x in r <==> x in members.Values
    {
      r := [];
      order := [];
      var unvisited := members.Keys;
      while unvisited != {}
        invariant unvisited <= members.Keys
        invariant |r| == |order| && |order| + |unvisited| == |members.Keys|
        invariant forall i :: 0 <= i < |order| ==> order[i] in members && order[i] !in unvisited && r[i] == members[order[i]]
        invariant forall i, j :: 0 <= i < j < |order| ==> order[i] != order[j]
        invariant forall k :: k in members ==> k in unvisited || k in order
        decreases |unvisited|
      {
        var k :| k in unvisited;
        r := r + [members[k]];
        order := order + [k];
        unvisited := unvisited - {k};
      }
      forall x | x in members.Values
        ensures x in r
      {
        var k :| k in members && members[k] == x;
        var i :| 0 <= i < |order| && order[i] == k;
        assert r[i] == x;
      }
    }

    /** ListAllMembersNicknameMap (lines 132-137): the published member map itself. */
    function ListAllMembersNicknameMap(): (r: map<string, Member>)
      reads this
      ensures r == members
    {
      members
    }
  }

  /**
    A snapshot taken before a refresh keeps its contents: the refresh replaces
    the field and never writes into the map that was handed out.
  */
  method SnapshotAcrossRefresh(c: DirectoryCache, fetched: Result<seq<Role>, string>)
    returns (before: map<string, string>, after: map<string, string>)
    modifies c
    ensures before == old(c.roles) && after == c.roles
    ensures fetched.Ok? ==> after == RoleMapOf(fetched.value)
    ensures fetched.Err? ==> after == before
    ensures c.members == old(c.members)
  {
    before := c.ListAllRoles();
    c.RefreshRoles(fetched);
    after := c.ListAllRoles();
  }
}
