/**
  The role roster (`UpdateMessageWithRoles`): every guild member's mention is
  filed under each role ID the member holds, and the roster message lists,
  for each role whose name is one of ten job names, the number of mentions
  and the mentions themselves, followed by the total.

  The Discord calls are inputs: the member fetch is a `Result`, the state's
  role lookup is a map from role ID to role name (a missing ID is the state's
  "not found" error), the edit's failure is an `Option`, and the formatted
  time of the header is a string.
*/
module RoleInfo {
  import opened Text
  import opened Directory

  /** The local `roleList` of the roster: the ten job names it prints. */
  const LocalRoles: seq<string> :=
    ["용기사", "크루세이더", "나이트", "레인저", "저격수", "썬콜", "불독", "프리스트", "허밋", "시프마스터"]

  /** The message of discordgo's ErrStateNotFound. */
  const StateNotFound: string := "state cache not found"

  /** fmt.Sprintf("<@%s>", id) */
  function Mention(id: string): string
  {
    "<@" + id + ">"
  }

  /** Different users get different mentions. */
  lemma MentionInjective(a: string, b: string)
    requires Mention(a) == Mention(b)
    ensures a == b
  {
    assert a == Mention(a)[2..|Mention(a)| - 1];
    assert b == Mention(b)[2..|Mention(b)| - 1];
  }

  /** The mentions one member adds under role `r`: one per occurrence of `r` among its role IDs. */
  function MentionsIn(id: string, roleIds: seq<string>, r: string): seq<string>
  {
    if roleIds == [] then []
    else MentionsIn(id, roleIds[..|roleIds| - 1], r) + (if roleIds[|roleIds| - 1] == r then [Mention(id)] else [])
  }

  /** `roleMembers[r]` after the grouping loop: the mentions filed under `r`, in member order. */
  function Mentions(ms: seq<Member>, r: string): seq<string>
  {
    if ms == [] then []
    else Mentions(ms[..|ms| - 1], r) + MentionsIn(ms[|ms| - 1].userId, ms[|ms| - 1].roleIds, r)
  }

  /** The role IDs of one member, as a set. */
  function IdSet(ids: seq<string>): set<string>
  {
    set k | 0 <= k < |ids| :: ids[k]
  }

  /** Every role ID some member holds. */
  function RoleIdsOf(ms: seq<Member>): set<string>
  {
    if ms == [] then {}
    else RoleIdsOf(ms[..|ms| - 1]) + IdSet(ms[|ms| - 1].roleIds)
  }

  lemma {:induction false} MentionsInOutside(id: string, roleIds: seq<string>, r: string)
    requires r !in roleIds
    ensures MentionsIn(id, roleIds, r) == []
  {
    if roleIds != [] {
      MentionsInOutside(id, roleIds[..|roleIds| - 1], r);
    }
  }

  lemma {:induction false} MentionsOutside(ms: seq<Member>, r: string)
    requires r !in RoleIdsOf(ms)
    ensures Mentions(ms, r) == []
  {
    if ms != [] {
      MentionsOutside(ms[..|ms| - 1], r);
      MentionsInOutside(ms[|ms| - 1].userId, ms[|ms| - 1].roleIds, r);
    }
  }

  /** A member's mention is filed under `r` exactly when some member with that ID holds `r`. */
  lemma {:induction false} MentionsLookup(ms: seq<Member>, r: string, id: string)
    ensures Mention(id) in Mentions(ms, r) <==> exists m :: m in ms && m.userId == id && r in m.roleIds
  {
    if ms != [] {
      var init := ms[..|ms| - 1];
      var last := ms[|ms| - 1];
      assert ms == init + [last];
      MentionsLookup(init, r, id);
      MentionsInLookup(last.userId, last.roleIds, r, id);
    }
  }

  lemma {:induction false} MentionsInLookup(owner: string, roleIds: seq<string>, r: string, id: string)
    ensures Mention(id) in MentionsIn(owner, roleIds, r) <==> owner == id && r in roleIds
  {
    if roleIds != [] {
      var init := roleIds[..|roleIds| - 1];
      MentionsInLookup(owner, init, r, id);
      if Mention(id) == Mention(owner) {
        MentionInjective(id, owner);
      }
      assert r in roleIds <==> r in init || roleIds[|roleIds| - 1] == r;
    }
  }

  /** The loop at lines 22-31: `roleMembers[roleID] = append(roleMembers[roleID], mention)`. */
  method GroupMentions(ms: seq<Member>) returns (roleMembers: map<string, seq<string>>)
    ensures roleMembers.Keys == RoleIdsOf(ms)
    ensures forall r :: r in roleMembers ==> roleMembers[r] == Mentions(ms, r)
  {
    roleMembers := map[];
    var i := 0;
    while i < |ms|
      invariant 0 <= i <= |ms|
      invariant roleMembers.Keys == RoleIdsOf(ms[..i])
      invariant forall r :: r in roleMembers ==> roleMembers[r] == Mentions(ms[..i], r)
    {
      assert ms[..i + 1][..i] == ms[..i];
      roleMembers := FileMember(ms[..i], ms[i], roleMembers);
      i := i + 1;
    }
    assert ms[..i] == ms;
  }

  /** The grouping after the first `j` role IDs of a member appended after `done`. */
  ghost predicate FiledUpTo(roleMembers: map<string, seq<string>>, done: seq<Member>, m: Member, j: nat)
    requires j <= |m.roleIds|
  {
    (forall r :: r in roleMembers <==> r in RoleIdsOf(done) || r in m.roleIds[..j]) &&
    forall r :: r in roleMembers ==> roleMembers[r] == Mentions(done, r) + MentionsIn(m.userId, m.roleIds[..j], r)
  }

  /** Filing the member's next role ID keeps the grouping exact. */
  lemma FileOne(roleMembers: map<string, seq<string>>, done: seq<Member>, m: Member, j: nat)
    requires j < |m.roleIds| && FiledUpTo(roleMembers, done, m, j)
    ensures var roleId := m.roleIds[j];
      var filed := if roleId in roleMembers then roleMembers[roleId] else [];
      FiledUpTo(roleMembers[roleId := filed + [Mention(m.userId)]], done, m, j + 1)
  {
    var roleId := m.roleIds[j];
    var before := m.roleIds[..j];
    var after := m.roleIds[..j + 1];
    assert after == before + [roleId];
    assert after[..j] == before;
    var filed := if roleId in roleMembers then roleMembers[roleId] else [];
    if roleId !in roleMembers {
      MentionsOutside(done, roleId);
      MentionsInOutside(m.userId, before, roleId);
    }
    var next := roleMembers[roleId := filed + [Mention(m.userId)]];
    forall r | r in next
      ensures next[r] == Mentions(done, r) + MentionsIn(m.userId, after, r)
    {
      if r != roleId {
        assert MentionsIn(m.userId, after, r) == MentionsIn(m.userId, before, r);
      }
    }
  }

  lemma FiledAll(roleMembers: map<string, seq<string>>, done: seq<Member>, m: Member)
    requires FiledUpTo(roleMembers, done, m, |m.roleIds|)
    ensures roleMembers.Keys == RoleIdsOf(done + [m])
    ensures forall r :: r in roleMembers ==> roleMembers[r] == Mentions(done + [m], r)
  {
    assert (done + [m])[..|done|] == done;
    assert m.roleIds[..|m.roleIds|] == m.roleIds;
    forall r | r in RoleIdsOf(done + [m])
      ensures r in roleMembers
    {
      if r !in RoleIdsOf(done) {
        var k :| 0 <= k < |m.roleIds| && m.roleIds[k] == r;
      }
    }
  }

  /** The inner loop at lines 28-30, for one member appended after `done`. */
  method FileMember(done: seq<Member>, m: Member, prior: map<string, seq<string>>)
    returns (roleMembers: map<string, seq<string>>)
    requires prior.Keys == RoleIdsOf(done)
    requires forall r :: r in prior ==> prior[r] == Mentions(done, r)
    ensures roleMembers.Keys == RoleIdsOf(done + [m])
    ensures forall r :: r in roleMembers ==> roleMembers[r] == Mentions(done + [m], r)
  {
    var mention := Mention(m.userId);
    roleMembers := prior;
    var j := 0;
    while j < |m.roleIds|
      invariant 0 <= j <= |m.roleIds|
      invariant FiledUpTo(roleMembers, done, m, j)
    {
      var roleId := m.roleIds[j];
      var filed := if roleId in roleMembers then roleMembers[roleId] else [];
      FileOne(roleMembers, done, m, j);
      roleMembers := roleMembers[roleId := filed + [mention]];
      j := j + 1;
    }
    FiledAll(roleMembers, done, m);
  }

  /** A role is printed when the state knows it and its name is one of the ten job names. */
  predicate Listed(roleNames: map<string, string>, r: string)
  {
    r in roleNames && roleNames[r] in LocalRoles
  }

  /** Lines 45-47: one role's heading, count and mentions. */
  function Section(name: string, mentions: seq<string>): string
  {
    "\n**" + name + "** (" + Decimal(|mentions|) + "명): " + Join(mentions, " ") + "\n"
  }

  /** The sections printed when the roles are visited in `order`. */
  function Sections(ms: seq<Member>, roleNames: map<string, string>, order: seq<string>): string
  {
    if order == [] then ""
    else
      var r := order[|order| - 1];
      Sections(ms, roleNames, order[..|order| - 1]) +
        (if Listed(roleNames, r) then Section(roleNames[r], Mentions(ms, r)) else "")
  }

  /** `memberCount` after visiting the roles in `order`. */
  function Total(ms: seq<Member>, roleNames: map<string, string>, order: seq<string>): nat
  {
    if order == [] then 0
    else
      var r := order[|order| - 1];
      Total(ms, roleNames, order[..|order| - 1]) + (if Listed(roleNames, r) then |Mentions(ms, r)| else 0)
  }

  /** Sections and Total after visiting one more role. */
  lemma VisitStep(ms: seq<Member>, roleNames: map<string, string>, order: seq<string>, r: string)
    ensures Sections(ms, roleNames, order + [r]) ==
      Sections(ms, roleNames, order) + (if Listed(roleNames, r) then Section(roleNames[r], Mentions(ms, r)) else "")
    ensures Total(ms, roleNames, order + [r]) ==
      Total(ms, roleNames, order) + (if Listed(roleNames, r) then |Mentions(ms, r)| else 0)
  {
    assert (order + [r])[..|order|] == order;
  }

  function Header(stamp: string): string
  {
    "**[\U{2692}\U{FE0F} 길드원 목록 \U{2692}\U{FE0F}]** (" + stamp + " 기준)\n"
  }

  function Footer(count: nat): string
  {
    "\n**[총 인원: " + Decimal(count) + "명]**\n"
  }

  /** The roster text for the roles visited in `order`. */
  function Roster(stamp: string, ms: seq<Member>, roleNames: map<string, string>, order: seq<string>): string
  {
    Header(stamp) + Sections(ms, roleNames, order) + Footer(Total(ms, roleNames, order))
  }

  /** How many of the role IDs in `roleIds` are printed roles. */
  function ListedHeld(roleNames: map<string, string>, roleIds: seq<string>): nat
  {
    if roleIds == [] then 0
    else ListedHeld(roleNames, roleIds[..|roleIds| - 1]) + (if Listed(roleNames, roleIds[|roleIds| - 1]) then 1 else 0)
  }

  /** The number of (member, printed role) pairs: a member holding two printed roles counts twice. */
  function Held(roleNames: map<string, string>, ms: seq<Member>): nat
  {
    if ms == [] then 0
    else Held(roleNames, ms[..|ms| - 1]) + ListedHeld(roleNames, ms[|ms| - 1].roleIds)
  }

  /** How many printed roles of `order` are `x`. */
  function Hits(roleNames: map<string, string>, order: seq<string>, x: string): nat
  {
    if order == [] then 0
    else Hits(roleNames, order[..|order| - 1], x) + (if order[|order| - 1] == x && Listed(roleNames, x) then 1 else 0)
  }

  lemma {:induction false} HitsDistinct(roleNames: map<string, string>, order: seq<string>, x: string)
    requires Distinct(order)
    ensures Hits(roleNames, order, x) == if x in order && Listed(roleNames, x) then 1 else 0
  {
    if order != [] {
      var init := order[..|order| - 1];
      HitsDistinct(roleNames, init, x);
      assert x in order <==> x in init || order[|order| - 1] == x;
      if order[|order| - 1] == x {
        assert x !in init;
      }
    }
  }

  /** The printed mentions one member with role IDs `roleIds` adds, over the roles of `order`. */
  function Added(roleNames: map<string, string>, id: string, roleIds: seq<string>, order: seq<string>): nat
  {
    if order == [] then 0
    else
      var r := order[|order| - 1];
      Added(roleNames, id, roleIds, order[..|order| - 1]) + (if Listed(roleNames, r) then |MentionsIn(id, roleIds, r)| else 0)
  }

  lemma {:induction false} TotalAppend(ms: seq<Member>, m: Member, roleNames: map<string, string>, order: seq<string>)
    ensures Total(ms + [m], roleNames, order) == Total(ms, roleNames, order) + Added(roleNames, m.userId, m.roleIds, order)
  {
    assert (ms + [m])[..|ms|] == ms;
    if order != [] {
      TotalAppend(ms, m, roleNames, order[..|order| - 1]);
    }
  }

  lemma {:induction false} AddedAppend(roleNames: map<string, string>, id: string, roleIds: seq<string>, x: string,
                                       order: seq<string>)
    ensures Added(roleNames, id, roleIds + [x], order) ==
      Added(roleNames, id, roleIds, order) + Hits(roleNames, order, x)
  {
    assert (roleIds + [x])[..|roleIds|] == roleIds;
    if order != [] {
      AddedAppend(roleNames, id, roleIds, x, order[..|order| - 1]);
    }
  }

  lemma {:induction false} AddedHeld(roleNames: map<string, string>, id: string, roleIds: seq<string>, order: seq<string>)
    requires Distinct(order)
    requires forall x :: x in roleIds ==> x in order
    ensures Added(roleNames, id, roleIds, order) == ListedHeld(roleNames, roleIds)
  {
    if roleIds == [] {
      AddedEmpty(roleNames, id, order);
    } else {
      var init := roleIds[..|roleIds| - 1];
      var x := roleIds[|roleIds| - 1];
      assert roleIds == init + [x];
      AddedHeld(roleNames, id, init, order);
      AddedAppend(roleNames, id, init, x, order);
      HitsDistinct(roleNames, order, x);
    }
  }

  lemma {:induction false} AddedEmpty(roleNames: map<string, string>, id: string, order: seq<string>)
    ensures Added(roleNames, id, [], order) == 0
  {
    if order != [] {
      AddedEmpty(roleNames, id, order[..|order| - 1]);
    }
  }

  lemma {:induction false} TotalEmpty(roleNames: map<string, string>, order: seq<string>)
    ensures Total([], roleNames, order) == 0
  {
    if order != [] {
      TotalEmpty(roleNames, order[..|order| - 1]);
    }
  }

  /**
    The printed total counts every (member, printed role) pair: when the
    visited roles are distinct and cover every role a member holds, the total
    is the number of printed roles summed over the members.
  */
  lemma {:induction false} TotalCountsHoldings(ms: seq<Member>, roleNames: map<string, string>, order: seq<string>)
    requires Distinct(order)
    requires RoleIdsOf(ms) <= set r | r in order
    ensures Total(ms, roleNames, order) == Held(roleNames, ms)
  {
    if ms == [] {
      TotalEmpty(roleNames, order);
    } else {
      var init := ms[..|ms| - 1];
      var m := ms[|ms| - 1];
      assert ms == init + [m];
      TotalCountsHoldings(init, roleNames, order);
      TotalAppend(init, m, roleNames, order);
      assert forall x :: x in m.roleIds ==> x in RoleIdsOf(ms);
      AddedHeld(roleNames, m.userId, m.roleIds, order);
    }
  }

  /** Some role a member holds is unknown to the state: the roster stops with an error. */
  predicate AnyUnknown(ms: seq<Member>, roleNames: map<string, string>)
  {
    exists r :: r in RoleIdsOf(ms) && r !in roleNames
  }

  /**
    UpdateMessageWithRoles: `content` is the text sent to the edit, if the
    edit is reached; `order` is the order the role map was visited in.
  */
  method UpdateMessageWithRoles(fetched: Result<seq<Member>, string>, roleNames: map<string, string>,
                                stamp: string, editErr: Option<string>)
    returns (content: Option<string>, err: Option<string>, ghost order: seq<string>)
    ensures fetched.Err? ==> content.None? && err == Some("failed to fetch guild members: " + fetched.error)
    ensures fetched.Ok? && AnyUnknown(fetched.value, roleNames) ==>
      content.None? && err == Some("failed to fetch role: " + StateNotFound)
    ensures fetched.Ok? && !AnyUnknown(fetched.value, roleNames) ==>
      Distinct(order) && (set r | r in order) == RoleIdsOf(fetched.value) &&
      content == Some(Roster(stamp, fetched.value, roleNames, order)) &&
      err == (if editErr.Some? then Some("failed to edit message: " + editErr.value) else None)
  {
    order := [];
    if fetched.Err? {
      return None, Some("failed to fetch guild members: " + fetched.error), order;
    }
    var ms := fetched.value;
    var roleMembers := GroupMentions(ms);
    var body, memberCount;
    body, memberCount, order := Visit(ms, roleMembers, roleNames);
    if body.None? {
      return None, Some("failed to fetch role: " + StateNotFound), order;
    }
    content := Some(Header(stamp) + body.value + Footer(memberCount));
    if editErr.Some? {
      return content, Some("failed to edit message: " + editErr.value), order;
    }
    err := None;
  }

  /** The loop at lines 36-48, over the role map in Go's unspecified order. */
  method Visit(ms: seq<Member>, roleMembers: map<string, seq<string>>, roleNames: map<string, string>)
    returns (body: Option<string>, memberCount: nat, ghost order: seq<string>)
    requires roleMembers.Keys == RoleIdsOf(ms)
    requires forall r :: r in roleMembers ==> roleMembers[r] == Mentions(ms, r)
    ensures body.None? <==> AnyUnknown(ms, roleNames)
    ensures body.Some? ==>
      Distinct(order) && (set r | r in order) == RoleIdsOf(ms) &&
      body.value == Sections(ms, roleNames, order) && memberCount == Total(ms, roleNames, order)
  {
    var sb := "";
    memberCount := 0;
    order := [];
    var unvisited := roleMembers.Keys;
    while unvisited != {}
      invariant unvisited <= roleMembers.Keys
      invariant forall r :: r in order <==> r in roleMembers && r !in unvisited
      invariant Distinct(order)
      invariant forall r :: r in order ==> r in roleNames
      invariant sb == Sections(ms, roleNames, order) && memberCount == Total(ms, roleNames, order)
      decreases |unvisited|
    {
      var roleId :| roleId in unvisited;
      if roleId !in roleNames {
        return None, memberCount, order;
      }
      var name := roleNames[roleId];
      var mentions := roleMembers[roleId];
      VisitStep(ms, roleNames, order, roleId);
      if name in LocalRoles {
        memberCount := memberCount + |mentions|;
        sb := sb + Section(name, mentions);
      }
      order := order + [roleId];
      unvisited := unvisited - {roleId};
    }
    assert forall r :: r in RoleIdsOf(ms) ==> r in order;
    body := Some(sb);
  }
}
