/**
  Who a poll is sent to (pkg/handler/poller.go): `filterPollTarget` resolves
  the poll's target list against the published role and member maps, the
  already-voted members are dropped before notifying, and `u_` targets are
  redacted from the audience line shown to the notified members.
*/
module PollTargets {
  import opened Text
  import opened Directory

  const Everyone: string := "전체"
  const UserPrefix: string := "u_"

  /** Non-bot members (the `전체` target). */
  function NonBots(users: map<string, Member>): set<string>
  {
    set k | k in users && !users[k].isBot
  }

  /** Non-bot members holding the role ID (a role-name target). */
  function WithRole(users: map<string, Member>, roleId: string): set<string>
  {
    set k | k in users && !users[k].isBot && roleId in users[k].roleIds
  }

  function UserNotFound(nick: string): string
  {
    "'" + nick + "' 님을 찾을 수 없습니다"
  }

  function RoleNotFound(role: string): string
  {
    "'" + role + "' 직업을 찾을 수 없습니다"
  }

  /** Adds `acc` to a successful resolution, passes an error through. */
  function Lift(acc: set<string>, r: Result<set<string>, string>): Result<set<string>, string>
  {
    match r
    case Ok(s) => Ok(acc + s)
    case Err(e) => Err(e)
  }

  lemma LiftEmpty(r: Result<set<string>, string>)
    ensures Lift({}, r) == r
  {
    if r.Ok? {
      assert {} + r.value == r.value;
    }
  }

  lemma LiftLift(a: set<string>, b: set<string>, r: Result<set<string>, string>)
    ensures Lift(a, Lift(b, r)) == Lift(a + b, r)
  {
    if r.Ok? {
      assert a + (b + r.value) == (a + b) + r.value;
    }
  }

  /**
    The nicknames the targets select, in the order the targets are read: `전체`
    selects every non-bot member and ends the list, `u_<nick>` selects that
    member (bots too) or fails, any other target must be a known role name.
  */
  function ResolveKeys(targets: seq<string>, roles: map<string, string>, users: map<string, Member>)
    : (r: Result<set<string>, string>)
    ensures r.Ok? ==> r.value <= users.Keys
  {
    if targets == [] then Ok({})
    else
      var t := targets[0];
      if t == Everyone then Ok(NonBots(users))
      else if HasPrefix(t, UserPrefix) then
        var nick := TrimPrefix(t, UserPrefix);
        if nick !in users then Err(UserNotFound(nick))
        else Lift({nick}, ResolveKeys(targets[1..], roles, users))
      else if t !in roles then Err(RoleNotFound(t))
      else Lift(WithRole(users, roles[t]), ResolveKeys(targets[1..], roles, users))
  }

  /** What a single target selects, read on its own. */
  predicate Selects(t: string, roles: map<string, string>, users: map<string, Member>, k: string)
  {
    if t == Everyone then k in NonBots(users)
    else if HasPrefix(t, UserPrefix) then k == TrimPrefix(t, UserPrefix)
    else t in roles && k in WithRole(users, roles[t])
  }

  /** A target that cannot be resolved. */
  predicate Unresolvable(t: string, roles: map<string, string>, users: map<string, Member>)
  {
    t != Everyone &&
    if HasPrefix(t, UserPrefix) then TrimPrefix(t, UserPrefix) !in users else t !in roles
  }

  /** Target `i` is read: no `전체` comes before it. */
  predicate Reached(targets: seq<string>, i: int)
    requires 0 <= i < |targets|
  {
    forall j :: 0 <= j < i ==> targets[j] != Everyone
  }

  /**
    A successful resolution is the union of what every reached target
    selects: targets after the first `전체` are ignored.
  */
  lemma {:induction false} ResolveMembership(targets: seq<string>, roles: map<string, string>,
                                             users: map<string, Member>, k: string)
    requires ResolveKeys(targets, roles, users).Ok?
    ensures k in ResolveKeys(targets, roles, users).value <==>
      exists i :: 0 <= i < |targets| && Reached(targets, i) && Selects(targets[i], roles, users, k)
  {
    if targets != [] {
      var t := targets[0];
      assert Reached(targets, 0);
      if t != Everyone {
        var rest := targets[1..];
        ResolveMembership(rest, roles, users, k);
        if exists i :: 0 <= i < |rest| && Reached(rest, i) && Selects(rest[i], roles, users, k) {
          var i :| 0 <= i < |rest| && Reached(rest, i) && Selects(rest[i], roles, users, k);
          assert targets[i + 1] == rest[i];
          assert Reached(targets, i + 1) by {
            forall j | 0 <= j < i + 1 ensures targets[j] != Everyone {
              if j > 0 { assert targets[j] == rest[j - 1]; }
            }
          }
        }
        if exists i :: 0 <= i < |targets| && Reached(targets, i) && Selects(targets[i], roles, users, k) {
          var i :| 0 <= i < |targets| && Reached(targets, i) && Selects(targets[i], roles, users, k);
          if i > 0 {
            assert rest[i - 1] == targets[i];
            assert Reached(rest, i - 1) by {
              forall j | 0 <= j < i - 1 ensures rest[j] != Everyone {
                assert rest[j] == targets[j + 1];
              }
            }
          }
        }
      }
    }
  }

  /** Resolution fails exactly when some reached target cannot be resolved. */
  lemma {:induction false} ResolveFails(targets: seq<string>, roles: map<string, string>, users: map<string, Member>)
    ensures ResolveKeys(targets, roles, users).Err? <==>
      exists i :: 0 <= i < |targets| && Reached(targets, i) && Unresolvable(targets[i], roles, users)
  {
    if targets != [] {
      var t := targets[0];
      var rest := targets[1..];
      assert Reached(targets, 0);
      if t != Everyone {
        ResolveFails(rest, roles, users);
        if exists i :: 0 <= i < |rest| && Reached(rest, i) && Unresolvable(rest[i], roles, users) {
          var i :| 0 <= i < |rest| && Reached(rest, i) && Unresolvable(rest[i], roles, users);
          assert targets[i + 1] == rest[i];
          assert Reached(targets, i + 1) by {
            forall j | 0 <= j < i + 1 ensures targets[j] != Everyone {
              if j > 0 { assert targets[j] == rest[j - 1]; }
            }
          }
        }
        if exists i :: 0 <= i < |targets| && Reached(targets, i) && Unresolvable(targets[i], roles, users) {
          var i :| 0 <= i < |targets| && Reached(targets, i) && Unresolvable(targets[i], roles, users);
          if i > 0 {
            assert rest[i - 1] == targets[i];
            assert Reached(rest, i - 1) by {
              forall j | 0 <= j < i - 1 ensures rest[j] != Everyone {
                assert rest[j] == targets[j + 1];
              }
            }
          }
        }
      } else {
        forall i | 0 < i < |targets|
          ensures !Reached(targets, i)
        {
          assert targets[0] == Everyone;
        }
      }
    }
  }

  /** The members an inner loop adds: every non-bot member, or those holding `roleId`. */
  function Wanted(users: map<string, Member>, roleId: Option<string>): set<string>
  {
    if roleId.None? then NonBots(users) else WithRole(users, roleId.value)
  }

  /**
    The inner loops of filterPollTarget (lines 612-617 and 637-644): walk the
    member map in an unspecified order and add the wanted members.
  */
  method AddMembers(acc: map<string, Member>, users: map<string, Member>, roleId: Option<string>)
    returns (r: map<string, Member>)
    ensures r.Keys == acc.Keys + Wanted(users, roleId)
    ensures forall k :: k in r ==> r[k] == if k in Wanted(users, roleId) then users[k] else acc[k]
  {
    var wanted := Wanted(users, roleId);
    r := acc;
    var unvisited := users.Keys;
    while unvisited != {}
      invariant unvisited <= users.Keys
      invariant forall x :: x in r <==> x in acc || (x in wanted && x !in unvisited)
      invariant forall k :: k in r ==> r[k] == if k in wanted && k !in unvisited then users[k] else acc[k]
      decreases |unvisited|
    {
      var k :| k in unvisited;
      var v := users[k];
      assert k in wanted <==> !v.isBot && (roleId.None? || roleId.value in v.roleIds);
      if !v.isBot && (roleId.None? || roleId.value in v.roleIds) {
        r := r[k := v];
      }
      unvisited := unvisited - {k};
    }
    assert r.Keys == acc.Keys + wanted;
  }

  /**
    filterPollTarget (lines 607-647): the resolved nickname map, or the error
    of the first target that cannot be resolved.
  */
  method FilterPollTarget(targets: seq<string>, roles: map<string, string>, users: map<string, Member>)
    returns (r: Result<map<string, Member>, string>)
    ensures ResolveKeys(targets, roles, users).Err? ==> r == Err(ResolveKeys(targets, roles, users).error)
    ensures ResolveKeys(targets, roles, users).Ok? ==>
      r.Ok? && r.value.Keys == ResolveKeys(targets, roles, users).value
    ensures r.Ok? ==> forall k :: k in r.value ==> k in users && r.value[k] == users[k]
  {
    var acc: map<string, Member> := map[];
    var i := 0;
    assert targets[0..] == targets && acc.Keys == {};
    LiftEmpty(ResolveKeys(targets, roles, users));
    while i < |targets|
      invariant 0 <= i <= |targets|
      invariant forall k :: k in acc ==> k in users && acc[k] == users[k]
      invariant ResolveKeys(targets, roles, users) == Lift(acc.Keys, ResolveKeys(targets[i..], roles, users))
    {
      var t := targets[i];
      assert targets[i..][0] == t && targets[i..][1..] == targets[i + 1..];
      if t == Everyone {
        acc := AddMembers(acc, users, None);
        return Ok(acc);
      }
      if HasPrefix(t, UserPrefix) {
        var nick := TrimPrefix(t, UserPrefix);
        if nick !in users {
          return Err(UserNotFound(nick));
        }
        assert ResolveKeys(targets[i..], roles, users) == Lift({nick}, ResolveKeys(targets[i + 1..], roles, users));
        LiftLift(acc.Keys, {nick}, ResolveKeys(targets[i + 1..], roles, users));
        ghost var before := acc.Keys;
        acc := acc[nick := users[nick]];
        assert acc.Keys == before + {nick};
        i := i + 1;
        continue;
      }
      if t !in roles {
        return Err(RoleNotFound(t));
      }
      assert ResolveKeys(targets[i..], roles, users) == Lift(WithRole(users, roles[t]), ResolveKeys(targets[i + 1..], roles, users));
      LiftLift(acc.Keys, WithRole(users, roles[t]), ResolveKeys(targets[i + 1..], roles, users));
      ghost var before := acc.Keys;
      acc := AddMembers(acc, users, Some(roles[t]));
      assert acc.Keys == before + WithRole(users, roles[t]);
      i := i + 1;
    }
    return Ok(acc);
  }

  /**
    Lines 544-548: delete from the target map, in place, every member whose
    user ID has already voted.
  */
  method RemoveVoted(targets: map<string, Member>, voted: seq<string>) returns (r: map<string, Member>)
    ensures forall k :: k in r <==> k in targets && targets[k].userId !in voted
    ensures forall k :: k in r ==> r[k] == targets[k]
  {
    r := targets;
    var unvisited := targets.Keys;
    while unvisited != {}
      invariant unvisited <= targets.Keys
      invariant forall k :: k in r ==> k in targets && r[k] == targets[k]
      invariant forall k :: k in targets && k in unvisited ==> k in r
      invariant forall k :: k in targets && k !in unvisited ==> (k in r <==> targets[k].userId !in voted)
      decreases |unvisited|
    {
      var k :| k in unvisited;
      if r[k].userId in voted {
        r := r - {k};
      }
      unvisited := unvisited - {k};
    }
  }

  /** The targets that are listed by name: everything but `u_` targets, in order. */
  function ListedTargets(targets: seq<string>): (r: seq<string>)
    ensures forall k :: 0 <= k < |r| ==> !HasPrefix(r[k], UserPrefix)
    ensures |r| <= |targets|
  {
    if targets == [] then []
    else
      var rest := ListedTargets(targets[..|targets| - 1]);
      var t := targets[|targets| - 1];
      if HasPrefix(t, UserPrefix) then rest else rest + [t]
  }

  /** The number of `u_` targets. */
  function UserTargetCount(targets: seq<string>): nat
  {
    if targets == [] then 0
    else UserTargetCount(targets[..|targets| - 1]) + (if HasPrefix(targets[|targets| - 1], UserPrefix) then 1 else 0)
  }

  /** The line that replaces the `u_` targets: "외 특정 길드원 N명" after named targets, "특정 길드원 N명" alone. */
  function UserCountLine(afterOthers: bool, n: nat): string
  {
    (if afterOthers then "외 특정 길드원 " else "특정 길드원 ") + Decimal(n) + "명"
  }

  /** The redaction loop of sendPolls (lines 556-572). */
  method RedactTargets(targets: seq<string>) returns (r: seq<string>)
    ensures UserTargetCount(targets) == 0 ==> r == ListedTargets(targets)
    ensures UserTargetCount(targets) > 0 ==>
      r == ListedTargets(targets) + [UserCountLine(|ListedTargets(targets)| > 0, UserTargetCount(targets))]
  {
    r := [];
    var count := 0;
    var i := 0;
    while i < |targets|
      invariant 0 <= i <= |targets|
      invariant r == ListedTargets(targets[..i]) && count == UserTargetCount(targets[..i])
    {
      assert targets[..i + 1][..i] == targets[..i];
      if HasPrefix(targets[i], UserPrefix) {
        count := count + 1;
      } else {
        r := r + [targets[i]];
      }
      i := i + 1;
    }
    assert targets[..i] == targets;
    if count > 0 {
      if |r| > 0 {
        r := r + [UserCountLine(true, count)];
      } else {
        r := r + [UserCountLine(false, count)];
      }
    }
  }

  /** Every target is either listed by name or counted, never both. */
  lemma {:induction false} RedactionAccounts(targets: seq<string>)
    ensures |ListedTargets(targets)| + UserTargetCount(targets) == |targets|
  {
    if targets != [] {
      RedactionAccounts(targets[..|targets| - 1]);
    }
  }

  /** The audience line never names a `u_` target: the count line itself starts with neither "u" nor "_". */
  lemma RedactionHidesUsers(targets: seq<string>, shown: seq<string>)
    requires UserTargetCount(targets) == 0 ==> shown == ListedTargets(targets)
    requires UserTargetCount(targets) > 0 ==>
      shown == ListedTargets(targets) + [UserCountLine(|ListedTargets(targets)| > 0, UserTargetCount(targets))]
    ensures forall k :: 0 <= k < |shown| ==> !HasPrefix(shown[k], UserPrefix)
  {
    if UserTargetCount(targets) > 0 {
      var line := UserCountLine(|ListedTargets(targets)| > 0, UserTargetCount(targets));
      assert line[0] == '외' || line[0] == '특';
      assert shown[|shown| - 1] == line;
    }
  }
}
