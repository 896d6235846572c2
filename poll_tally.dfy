/**
  Result tallying of pkg/handler/poller.go: `printPollResult` counts the
  stored choice texts, groups the voters' member records by choice through
  `getPollMemberMap`, and reports, choice by choice in the poll's own order,
  either the count with main-role statistics (anonymous polls) or the count
  with "nickname/sub-role" of every voter (identifiable polls).

  The lookup of a member's record (`GetMemberInfoFromMember`) is not part of
  this model; it is the map `infoOf` from user ID to record, a missing entry
  being its failure.
*/
module PollTally {
  import opened Text
  import opened Directory
  import opened PollModel

  /** Number of results carrying choice text `v`. */
  function Occurrences(results: seq<PollResult>, v: string): (n: nat)
    ensures n <= |results|
  {
    if results == [] then 0
    else Occurrences(results[..|results| - 1], v) + (if results[|results| - 1].value == v then 1 else 0)
  }

  /** Lines 738-741: `counts[r.Value]++` for every result. */
  method CountVotes(results: seq<PollResult>) returns (counts: map<string, nat>)
    ensures forall v :: v in counts <==> Occurrences(results, v) > 0
    ensures forall v :: v in counts ==> counts[v] == Occurrences(results, v)
  {
    counts := map[];
    var i := 0;
    while i < |results|
      invariant 0 <= i <= |results|
      invariant forall v :: v in counts <==> Occurrences(results[..i], v) > 0
      invariant forall v :: v in counts ==> counts[v] == Occurrences(results[..i], v)
    {
      assert results[..i + 1][..i] == results[..i];
      var v := results[i].value;
      var c := if v in counts then counts[v] else 0;
      counts := counts[v := c + 1];
      i := i + 1;
    }
    assert results[..i] == results;
  }

  /** The count a Go map lookup gives: zero for a choice nobody took. */
  function CountOf(counts: map<string, nat>, v: string): nat
  {
    if v in counts then counts[v] else 0
  }

  /** Sum of the counts of the listed choices. */
  function SumOver(results: seq<PollResult>, values: seq<string>): nat
  {
    if values == [] then 0 else Occurrences(results, values[0]) + SumOver(results, values[1..])
  }

  lemma {:induction false} SumOverAppend(results: seq<PollResult>, r: PollResult, values: seq<string>)
    requires Distinct(values)
    ensures SumOver(results + [r], values) == SumOver(results, values) + (if r.value in values then 1 else 0)
  {
    var rs := results + [r];
    assert rs[..|rs| - 1] == results;
    if values != [] {
      assert Distinct(values[1..]) by {
        forall i, j | 0 <= i < j < |values[1..]| ensures values[1..][i] != values[1..][j] {
          assert values[1..][i] == values[i + 1] && values[1..][j] == values[j + 1];
        }
      }
      SumOverAppend(results, r, values[1..]);
      if r.value == values[0] {
        assert r.value !in values[1..] by {
          forall k | 0 <= k < |values[1..]| ensures values[1..][k] != r.value {
            assert values[1..][k] == values[k + 1];
          }
        }
      }
      assert r.value in values <==> r.value == values[0] || r.value in values[1..] by {
        assert values == [values[0]] + values[1..];
      }
    }
  }

  /**
    The printed participant count is the number of results, and when the
    choices are distinct and every stored choice is one of them (which
    accepting a response guarantees) it is also the sum of the per-choice counts.
  */
  lemma {:induction false} CountsAddUp(results: seq<PollResult>, values: seq<string>)
    requires Distinct(values)
    requires forall k :: 0 <= k < |results| ==> results[k].value in values
    ensures SumOver(results, values) == |results|
  {
    if results == [] {
      SumOverNone(values);
    } else {
      var init := results[..|results| - 1];
      CountsAddUp(init, values);
      SumOverAppend(init, results[|results| - 1], values);
      assert init + [results[|results| - 1]] == results;
    }
  }

  lemma {:induction false} SumOverNone(values: seq<string>)
    ensures SumOver([], values) == 0
  {
    if values != [] {
      SumOverNone(values[1..]);
    }
  }

  /** `cache.GetGuildMember(id) != nil`. */
  predicate InGuild(users: map<string, Member>, id: string)
  {
    exists k :: k in users && users[k].userId == id
  }

  /**
    getPollMemberMap (lines 794-812) as a fold over the results: voters no
    longer in the guild are skipped, a voter without a member record makes
    the whole grouping fail.
  */
  function MembersByValue(results: seq<PollResult>, users: map<string, Member>, infoOf: map<string, MemberInfo>)
    : (r: Option<map<string, seq<MemberInfo>>>)
    ensures r.Some? ==> forall v, x :: v in r.value && x in r.value[v] ==>
      exists k :: 0 <= k < |results| && results[k].value == v && InGuild(users, results[k].userId) &&
                  results[k].userId in infoOf && infoOf[results[k].userId] == x
  {
    if results == [] then Some(map[])
    else
      match MembersByValue(results[..|results| - 1], users, infoOf)
      case None => None
      case Some(m) =>
        var r := results[|results| - 1];
        if !InGuild(users, r.userId) then Some(m)
        else if r.userId !in infoOf then None
        else Some(m[r.value := Group(m, r.value) + [infoOf[r.userId]]])
  }

  /** The voters grouped under a choice: an absent key is an empty group. */
  function Group(m: map<string, seq<MemberInfo>>, v: string): seq<MemberInfo>
  {
    if v in m then m[v] else []
  }

  /** Number of results for `v` whose voter is still a guild member. */
  function GuildVotes(results: seq<PollResult>, users: map<string, Member>, v: string): (n: nat)
    ensures n <= Occurrences(results, v)
  {
    if results == [] then 0
    else
      var r := results[|results| - 1];
      GuildVotes(results[..|results| - 1], users, v) + (if r.value == v && InGuild(users, r.userId) then 1 else 0)
  }

  /**
    The grouping fails exactly when some voter still in the guild has no
    member record; otherwise each choice groups exactly its voters who are
    still guild members.
  */
  lemma {:induction false} GroupSizes(results: seq<PollResult>, users: map<string, Member>,
                                      infoOf: map<string, MemberInfo>, v: string)
    ensures MembersByValue(results, users, infoOf).None? <==>
      exists k :: 0 <= k < |results| && InGuild(users, results[k].userId) && results[k].userId !in infoOf
    ensures MembersByValue(results, users, infoOf).Some? ==>
      |Group(MembersByValue(results, users, infoOf).value, v)| == GuildVotes(results, users, v)
  {
    if results != [] {
      var init := results[..|results| - 1];
      var r := results[|results| - 1];
      GroupSizes(init, users, infoOf, v);
      assert forall k :: 0 <= k < |init| ==> results[k] == init[k];
    }
  }

  /** getPollMemberMap as the loop it is. */
  method GetPollMemberMap(results: seq<PollResult>, users: map<string, Member>, infoOf: map<string, MemberInfo>)
    returns (r: Option<map<string, seq<MemberInfo>>>)
    ensures r == MembersByValue(results, users, infoOf)
  {
    var m: map<string, seq<MemberInfo>> := map[];
    var i := 0;
    while i < |results|
      invariant 0 <= i <= |results|
      invariant MembersByValue(results[..i], users, infoOf) == Some(m)
    {
      assert results[..i + 1][..i] == results[..i];
      var res := results[i];
      if !InGuild(users, res.userId) {
        i := i + 1;
        continue;
      }
      if res.userId !in infoOf {
        assert MembersByValue(results[..i + 1], users, infoOf) == None;
        assert results[..i + 1] + results[i + 1..] == results;
        NoneStays(results[..i + 1], results[i + 1..], users, infoOf);
        return None;
      }
      m := m[res.value := Group(m, res.value) + [infoOf[res.userId]]];
      i := i + 1;
    }
    assert results[..i] == results;
    return Some(m);
  }

  lemma {:induction false} NoneStays(a: seq<PollResult>, b: seq<PollResult>, users: map<string, Member>,
                                     infoOf: map<string, MemberInfo>)
    requires MembersByValue(a, users, infoOf) == None
    ensures MembersByValue(a + b, users, infoOf) == None
  {
    if b == [] {
      assert a + b == a;
    } else {
      var ab := a + b;
      assert ab[..|ab| - 1] == a + b[..|b| - 1];
      NoneStays(a, b[..|b| - 1], users, infoOf);
      assert MembersByValue(ab[..|ab| - 1], users, infoOf) == None;
    }
  }

  /** How many records in `infos` have this main role. */
  function RoleCount(infos: seq<MemberInfo>, role: string): (n: nat)
    ensures n <= |infos|
  {
    if infos == [] then 0
    else RoleCount(infos[..|infos| - 1], role) + (if infos[|infos| - 1].mainRoleName == role then 1 else 0)
  }

  /** Lines 769-772: `roleCounts[member.MainRoleName]++` over a choice's voters. */
  method CountRoles(infos: seq<MemberInfo>) returns (stats: map<string, nat>)
    ensures forall role :: role in stats <==> RoleCount(infos, role) > 0
    ensures forall role :: role in stats ==> stats[role] == RoleCount(infos, role)
  {
    stats := map[];
    var i := 0;
    while i < |infos|
      invariant 0 <= i <= |infos|
      invariant forall role :: role in stats <==> RoleCount(infos[..i], role) > 0
      invariant forall role :: role in stats ==> stats[role] == RoleCount(infos[..i], role)
    {
      assert infos[..i + 1][..i] == infos[..i];
      var role := infos[i].mainRoleName;
      var c := if role in stats then stats[role] else 0;
      stats := stats[role := c + 1];
      i := i + 1;
    }
    assert infos[..i] == infos;
  }

  /** "nickname/sub-role" for every voter of a choice, in voting order. */
  function VoterLabels(infos: seq<MemberInfo>): (r: seq<string>)
    ensures |r| == |infos|
    ensures forall k :: 0 <= k < |r| ==> r[k] == infos[k].nickname + "/" + infos[k].subRoleName
  {
    if infos == [] then [] else [infos[0].nickname + "/" + infos[0].subRoleName] + VoterLabels(infos[1..])
  }

  /** One line of the report per choice. */
  datatype ChoiceLine =
    | AnonymousLine(value: string, count: nat, roleStats: map<string, nat>)
    | NamedLine(value: string, count: nat, voters: seq<string>)

  /** The result message: title, participant count, one line per choice in the poll's order. */
  datatype PollReport = PollReport(title: string, participants: nat, lines: seq<ChoiceLine>)

  /** printPollResult (lines 736-792): the report, or an error when the grouping fails (nothing is sent then). */
  method PrintPollResult(poll: Poll, results: seq<PollResult>, users: map<string, Member>,
                         infoOf: map<string, MemberInfo>) returns (r: Result<PollReport, string>)
    ensures r.Err? <==> MembersByValue(results, users, infoOf).None?
    ensures r.Ok? ==> r.value.title == poll.title && r.value.participants == |results|
    ensures r.Ok? ==> |r.value.lines| == |poll.values|
    ensures r.Ok? ==> forall k :: 0 <= k < |poll.values| ==>
      var line := r.value.lines[k];
      var group := Group(MembersByValue(results, users, infoOf).value, poll.values[k]);
      && line.value == poll.values[k]
      && line.count == Occurrences(results, poll.values[k])
      && (poll.identifiable ==> line == NamedLine(poll.values[k], line.count, VoterLabels(group)))
      && (!poll.identifiable ==> (line.AnonymousLine? &&
            forall role :: (role in line.roleStats <==> RoleCount(group, role) > 0) &&
              (role in line.roleStats ==> line.roleStats[role] == RoleCount(group, role))))
  {
    var counts := CountVotes(results);
    var grouped := GetPollMemberMap(results, users, infoOf);
    if grouped.None? {
      return Err("failed to get identifiable users");
    }
    var m := grouped.value;
    var lines: seq<ChoiceLine> := [];
    var i := 0;
    while i < |poll.values|
      invariant 0 <= i <= |poll.values|
      invariant |lines| == i
      invariant forall k :: 0 <= k < i ==>
        var line := lines[k];
        var group := Group(m, poll.values[k]);
        && line.value == poll.values[k]
        && line.count == Occurrences(results, poll.values[k])
        && (poll.identifiable ==> line == NamedLine(poll.values[k], line.count, VoterLabels(group)))
        && (!poll.identifiable ==> (line.AnonymousLine? &&
              forall role :: (role in line.roleStats <==> RoleCount(group, role) > 0) &&
                (role in line.roleStats ==> line.roleStats[role] == RoleCount(group, role))))
    {
      var value := poll.values[i];
      var group := Group(m, value);
      var line;
      if !poll.identifiable {
        var stats: map<string, nat> := map[];
        if |group| > 0 {
          stats := CountRoles(group);
        }
        line := AnonymousLine(value, CountOf(counts, value), stats);
      } else {
        var nicks: seq<string> := [];
        var j := 0;
        while j < |group|
          invariant 0 <= j <= |group|
          invariant nicks == VoterLabels(group[..j])
        {
          VoterLabelsAppend(group[..j], group[j]);
          assert group[..j + 1] == group[..j] + [group[j]];
          nicks := nicks + [group[j].nickname + "/" + group[j].subRoleName];
          j := j + 1;
        }
        assert group[..j] == group;
        line := NamedLine(value, CountOf(counts, value), nicks);
      }
      lines := lines + [line];
      i := i + 1;
    }
    return Ok(PollReport(poll.title, |results|, lines));
  }

  lemma VoterLabelsAppend(infos: seq<MemberInfo>, x: MemberInfo)
    ensures VoterLabels(infos + [x]) == VoterLabels(infos) + [x.nickname + "/" + x.subRoleName]
  {
  }
}
