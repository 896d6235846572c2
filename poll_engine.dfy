/**
  The poll engine of pkg/handler/poller.go as one stateful object: the Poll
  and PollResult tables, the primary key the next poll gets, and every
  message handed to Discord, oldest first. The direct-message handler
  records answers, the guild-channel handler creates, describes, starts and
  reports polls, and the periodic sweep closes them.

  The bot's own user ID, the guild ID and the poll channel ID are fixed when
  the engine is made; the member and role caches are read from a
  DirectoryCache. Messages whose text embeds a formatted time are kept as
  their parts (the poll, the report, the lists).
*/
module PollEngine {
  import opened Text
  import opened Directory
  import opened PollArgs
  import opened PollModel
  import opened PollTargets
  import opened PollTally

  const ResponsePrefix: string := "!투표 응답 "
  const NotInGuild: string := "길드에 가입하지 않은 유저는 사용할 수 없습니다."
  const CreatePrefix: string := "!투표 생성 "
  const StartPrefix: string := "!투표 시작 "
  const EndPrefix: string := "!투표 종료 "
  const ResendPrefix: string := "!투표 재발송 "
  const ListPrefix: string := "!투표 목록"
  const ResultPrefix: string := "!투표 결과 "
  const InfoPrefix: string := "!투표 정보 "

  /** A message handed to Discord. */
  datatype Outgoing =
    | Direct(userId: string, text: string)
    | Guild(text: string)
    | Notice(userId: string, nickname: string, pollId: nat, audience: seq<string>)
    | Report(report: PollReport)
    | Listing(active: seq<Poll>, inactive: seq<Poll>, ended: seq<Poll>)
    | Info(poll: Poll)
    | Help

  // ------------------------------------------------------------ invariant

  /** A stored result names an existing poll and one of its choices. */
  predicate Answers(polls: seq<Poll>, r: PollResult)
  {
    exists i :: 0 <= i < |polls| && polls[i].id == r.pollId && r.value in polls[i].values
  }

  /** No user has two results for the same poll. */
  predicate OneVoteEach(results: seq<PollResult>)
  {
    forall i, j :: 0 <= i < j < |results| && results[i].pollId == results[j].pollId ==>
      results[i].userId != results[j].userId
  }

  /**
    What the handlers keep true of the tables: primary keys are positive,
    below the next key and increasing; titles are unique; every result
    answers an existing poll with one of its choices, once per user.
  */
  predicate Consistent(polls: seq<Poll>, results: seq<PollResult>, nextId: nat)
  {
    && (forall i :: 0 <= i < |polls| ==> 0 < polls[i].id < nextId)
    && (forall i, j :: 0 <= i < j < |polls| ==> polls[i].id < polls[j].id)
    && TitlesUnique(polls)
    && (forall k :: 0 <= k < |results| ==> Answers(polls, results[k]))
    && OneVoteEach(results)
  }

  /** Two versions of the Poll table with the same polls under the same keys, titles and choices. */
  predicate SameIdentity(a: seq<Poll>, b: seq<Poll>)
  {
    |a| == |b| &&
    forall i :: 0 <= i < |a| ==> a[i].id == b[i].id && a[i].title == b[i].title && a[i].values == b[i].values
  }

  /** Starting, describing or closing a poll changes none of what the invariant is about. */
  lemma IdentityKeepsConsistent(a: seq<Poll>, b: seq<Poll>, results: seq<PollResult>, nextId: nat)
    requires Consistent(a, results, nextId) && SameIdentity(a, b)
    ensures Consistent(b, results, nextId)
  {
    forall k | 0 <= k < |results|
      ensures Answers(b, results[k])
    {
      var i :| 0 <= i < |a| && a[i].id == results[k].pollId && results[k].value in a[i].values;
      assert b[i].id == results[k].pollId && results[k].value in b[i].values;
    }
  }

  /** A created poll takes the next key, and its title is new. */
  lemma CreateKeepsConsistent(polls: seq<Poll>, results: seq<PollResult>, nextId: nat, argsRaw: string)
    requires Consistent(polls, results, nextId) && nextId > 0
    requires DecideCreate(polls, argsRaw, nextId).Ok?
    ensures Consistent(polls + [DecideCreate(polls, argsRaw, nextId).value], results, nextId + 1)
  {
    var ps := polls + [DecideCreate(polls, argsRaw, nextId).value];
    CreateKeepsTitlesUnique(polls, argsRaw, nextId);
    forall k | 0 <= k < |results|
      ensures Answers(ps, results[k])
    {
      assert Answers(polls, results[k]);
      var i :| 0 <= i < |polls| && polls[i].id == results[k].pollId && results[k].value in polls[i].values;
      assert ps[i] == polls[i];
    }
    forall i, j | 0 <= i < j < |ps|
      ensures ps[i].id < ps[j].id
    {
      assert ps[i] == polls[i];
    }
  }

  /**
    An accepted answer keeps the invariant: the duplicate check that comes
    first in the handler is what keeps one result per user and poll.
  */
  lemma ResponseKeepsConsistent(polls: seq<Poll>, results: seq<PollResult>, nextId: nat,
                                user: string, argsRaw: string, now: int)
    requires Consistent(polls, results, nextId)
    requires DecideResponse(polls, results, user, argsRaw, now).Accepted?
    ensures Consistent(polls, results + [DecideResponse(polls, results, user, argsRaw, now).result], nextId)
  {
    var r := DecideResponse(polls, results, user, argsRaw, now).result;
    AcceptedResponse(polls, results, user, argsRaw, now);
    var rs := results + [r];
    forall k | 0 <= k < |rs|
      ensures Answers(polls, rs[k])
    {
      if k < |results| {
        assert rs[k] == results[k];
      }
    }
    forall i, j | 0 <= i < j < |rs| && rs[i].pollId == rs[j].pollId
      ensures rs[i].userId != rs[j].userId
    {
      assert rs[i] == results[i];
      if j < |results| {
        assert rs[j] == results[j];
      }
    }
  }

  // --------------------------------------------------------- notifications

  /** The audience line of the notification: named targets, then a count of the `u_` ones. */
  function Audience(targets: seq<string>): seq<string>
  {
    var listed := ListedTargets(targets);
    var n := UserTargetCount(targets);
    if n == 0 then listed else listed + [UserCountLine(|listed| > 0, n)]
  }

  /** The members sendPolls notifies: resolved targets without a result for the poll. */
  function ToNotify(p: Poll, results: seq<PollResult>, roles: map<string, string>, users: map<string, Member>)
    : (r: Result<set<string>, string>)
    ensures r.Ok? ==> r.value <= users.Keys
  {
    match ResolveKeys(p.targets, roles, users)
    case Err(e) => Err(e)
    case Ok(keys) => Ok(set k | k in keys && k in users && users[k].userId !in VotedIds(results, p.id))
  }

  /** One invitation per nickname, in the order given. */
  function Invitations(p: Poll, users: map<string, Member>, nicks: seq<string>, audience: seq<string>): seq<Outgoing>
    requires forall k :: k in nicks ==> k in users
  {
    if nicks == [] then []
    else
      var last := nicks[|nicks| - 1];
      Invitations(p, users, nicks[..|nicks| - 1], audience) + [Notice(users[last].userId, last, p.id, audience)]
  }

  /** The report sendPolls posts to the channel: the nicknames for a named poll, their number otherwise. */
  function Summary(p: Poll, nicks: seq<string>): Outgoing
  {
    if p.identifiable then Guild("투표 알림이 다음 인원에게 발송되었습니다: " + Join(nicks, ", "))
    else Guild("투표 알림이 다음 인원에게 발송되었습니다. (" + Decimal(|nicks|) + " 명)")
  }

  /**
    What sendPolls sends: the resolution error alone, or one invitation per
    pending member (each once, in some order) and then the summary.
  */
  ghost predicate Notified(sent: seq<Outgoing>, p: Poll, results: seq<PollResult>, roles: map<string, string>,
                     users: map<string, Member>, nicks: seq<string>)
  {
    match ToNotify(p, results, roles, users)
    case Err(e) => sent == [Guild(e)]
    case Ok(todo) =>
      && (forall k :: k in nicks <==> k in todo)
      && (forall i, j :: 0 <= i < j < |nicks| ==> nicks[i] != nicks[j])
      && sent == Invitations(p, users, nicks, Audience(p.targets)) + [Summary(p, nicks)]
  }

  /** Every invitation goes to a target member who has not answered, and its audience names no `u_` target. */
  lemma {:induction false} InvitationsReachOnlyPending(p: Poll, users: map<string, Member>, nicks: seq<string>,
                                                       results: seq<PollResult>, todo: set<string>)
    requires forall k :: k in nicks ==> k in todo
    requires forall k :: k in todo ==> k in users && users[k].userId !in VotedIds(results, p.id)
    ensures forall m :: m in Invitations(p, users, nicks, Audience(p.targets)) ==>
      && m.Notice? && m.nickname in todo && m.userId == users[m.nickname].userId
      && m.userId !in VotedIds(results, p.id) && m.pollId == p.id
      && forall t :: t in m.audience ==> !HasPrefix(t, UserPrefix)
  {
    if nicks != [] {
      var init := nicks[..|nicks| - 1];
      assert forall k :: k in init ==> k in nicks;
      InvitationsReachOnlyPending(p, users, init, results, todo);
      RedactionHidesUsers(p.targets, Audience(p.targets));
    }
  }

  /** The invitations are notices to the nicknames in order. */
  lemma {:induction false} InvitationsNicknames(p: Poll, users: map<string, Member>, nicks: seq<string>,
                                                audience: seq<string>)
    requires forall x :: x in nicks ==> x in users
    ensures var sent := Invitations(p, users, nicks, audience);
      |sent| == |nicks| && forall i :: 0 <= i < |sent| ==> sent[i].Notice? && sent[i].nickname == nicks[i]
  {
    if nicks != [] {
      var init := nicks[..|nicks| - 1];
      assert forall x :: x in init ==> x in nicks;
      InvitationsNicknames(p, users, init, audience);
    }
  }

  /** The targets that resolve and have all answered: the sweep's quorum (false when they do not resolve). */
  predicate Quorum(p: Poll, results: seq<PollResult>, roles: map<string, string>, users: map<string, Member>)
  {
    ToNotify(p, results, roles, users) == Ok({})
  }

  /** The quorum holds exactly when the targets resolve and every resolved guild member has a result for the poll. */
  lemma QuorumIff(p: Poll, results: seq<PollResult>, roles: map<string, string>, users: map<string, Member>)
    ensures Quorum(p, results, roles, users) <==>
      && ResolveKeys(p.targets, roles, users).Ok?
      && forall k :: k in ResolveKeys(p.targets, roles, users).value && k in users ==>
           users[k].userId in VotedIds(results, p.id)
  {
    if ResolveKeys(p.targets, roles, users).Ok? {
      var keys := ResolveKeys(p.targets, roles, users).value;
      var todo := set k | k in keys && k in users && users[k].userId !in VotedIds(results, p.id);
      assert ToNotify(p, results, roles, users) == Ok(todo);
      if todo != {} {
        var k :| k in todo;
        assert k in keys && k in users && users[k].userId !in VotedIds(results, p.id);
      } else {
        forall k | k in keys && k in users
          ensures users[k].userId in VotedIds(results, p.id)
        {
          assert k !in todo;
        }
      }
    }
  }

  /** The sweep closes the poll now, by the intended decision. */
  predicate Closes(p: Poll, now: int, results: seq<PollResult>, roles: map<string, string>, users: map<string, Member>)
  {
    SweepDecision(p, now, Quorum(p, results, roles, users)).Some?
  }

  /** The poll after the sweep has looked at it: closed when the intended decision closes it. */
  function Swept(p: Poll, now: int, results: seq<PollResult>, roles: map<string, string>, users: map<string, Member>)
    : (r: Poll)
    ensures r == p.(closed := r.closed)
    ensures r.closed <==> p.closed || Expired(p, now) || (p.startedAt.Some? && Quorum(p, results, roles, users))
  {
    if Closes(p, now, results, roles, users) then p.(closed := true) else p
  }

  /** printPollResult fails on `p`: some guild member who answered has no member info. */
  predicate ReportFails(p: Poll, results: seq<PollResult>, users: map<string, Member>, infoOf: map<string, MemberInfo>)
  {
    MembersByValue(ResultsOf(results, p.id), users, infoOf).None?
  }

  /**
    The quorum check of the sweep (lines 686-727) ends in an error: the
    targets do not resolve, or they have all answered and the report cannot
    be printed.
  */
  predicate QuorumCheckFails(p: Poll, results: seq<PollResult>, roles: map<string, string>,
                             users: map<string, Member>, infoOf: map<string, MemberInfo>)
  {
    ResolveKeys(p.targets, roles, users).Err? || (Quorum(p, results, roles, users) && ReportFails(p, results, users, infoOf))
  }

  /**
    The sweep's turn on `p` (lines 657-729) ends in an error: a started,
    open poll whose timeout report cannot be printed, or whose quorum check
    fails.
  */
  predicate SweepFails(p: Poll, now: int, results: seq<PollResult>, roles: map<string, string>,
                       users: map<string, Member>, infoOf: map<string, MemberInfo>)
  {
    && p.startedAt.Some? && !p.closed
    && ((Expired(p, now) && ReportFails(p, results, users, infoOf)) || QuorumCheckFails(p, results, roles, users, infoOf))
  }

  /** The first failing turn is the one after a run of turns that do not fail. */
  lemma FirstFailureIs(ps: seq<Poll>, k: nat, now: int, results: seq<PollResult>, roles: map<string, string>,
                       users: map<string, Member>, infoOf: map<string, MemberInfo>)
    requires k <= |ps|
    requires forall j :: 0 <= j < k ==> !SweepFails(ps[j], now, results, roles, users, infoOf)
    requires k < |ps| ==> SweepFails(ps[k], now, results, roles, users, infoOf)
    ensures FirstFailure(ps, now, results, roles, users, infoOf) == k
  {
  }

  /** `qs` is `ps` with the turns before `i` taken, none of them failing, and the polls from `i` on untouched. */
  predicate SweptBefore(ps: seq<Poll>, qs: seq<Poll>, i: nat, now: int, results: seq<PollResult>,
                        roles: map<string, string>, users: map<string, Member>, infoOf: map<string, MemberInfo>)
  {
    && i <= |ps| == |qs|
    && (forall j :: 0 <= j < i ==>
          qs[j] == Swept(ps[j], now, results, roles, users) && !SweepFails(ps[j], now, results, roles, users, infoOf))
    && (forall j :: i <= j < |qs| ==> qs[j] == ps[j])
  }

  /** A turn that does not fail extends the swept prefix by one poll. */
  lemma SweptBeforeStep(ps: seq<Poll>, qs: seq<Poll>, i: nat, now: int, results: seq<PollResult>,
                        roles: map<string, string>, users: map<string, Member>, infoOf: map<string, MemberInfo>)
    requires SweptBefore(ps, qs, i, now, results, roles, users, infoOf) && i < |ps|
    requires !SweepFails(ps[i], now, results, roles, users, infoOf)
    ensures SweptBefore(ps, qs[i := Swept(ps[i], now, results, roles, users)], i + 1, now, results, roles, users, infoOf)
  {
  }

  /**
    The table after the sweep stops at `k`: the first failing turn when it
    `failed`, which leaves poll `k` after its timeout step, or the end of the
    table otherwise. The polls before `k` are swept and the rest untouched.
  */
  lemma SweptUntil(ps: seq<Poll>, prev: seq<Poll>, qs: seq<Poll>, k: nat, failed: bool, now: int,
                   results: seq<PollResult>, roles: map<string, string>, users: map<string, Member>,
                   infoOf: map<string, MemberInfo>)
    requires SweptBefore(ps, prev, k, now, results, roles, users, infoOf)
    requires failed <==> k < |ps|
    requires failed ==> SweepFails(ps[k], now, results, roles, users, infoOf) &&
                        qs == prev[k := AfterTimeout(ps[k], now, results, users, infoOf)]
    requires !failed ==> qs == prev
    ensures |qs| == |ps|
    ensures forall i :: 0 <= i < |qs| ==> qs[i] == ps[i] || qs[i] == Swept(ps[i], now, results, roles, users)
    ensures !failed ==> forall i :: 0 <= i < |qs| ==> qs[i] == Swept(ps[i], now, results, roles, users)
    ensures !failed <==> forall i :: 0 <= i < |ps| ==> !SweepFails(ps[i], now, results, roles, users, infoOf)
    ensures var f := FirstFailure(ps, now, results, roles, users, infoOf);
      && (!failed <==> f == |ps|)
      && (forall j :: 0 <= j < f ==> qs[j] == Swept(ps[j], now, results, roles, users))
      && (f < |qs| ==> qs[f] == AfterTimeout(ps[f], now, results, users, infoOf))
      && (forall j :: f < j < |qs| ==> qs[j] == ps[j])
  {
    FirstFailureIs(ps, k, now, results, roles, users, infoOf);
  }

  /** The poll after the timeout step of its turn: closed when it expired and its report printed. */
  function AfterTimeout(p: Poll, now: int, results: seq<PollResult>, users: map<string, Member>,
                        infoOf: map<string, MemberInfo>): Poll
  {
    if Expired(p, now) && !ReportFails(p, results, users, infoOf) then p.(closed := true) else p
  }

  /** The position of the first poll whose turn fails, which ends the sweep, or `|ps|` when none fails. */
  function FirstFailure(ps: seq<Poll>, now: int, results: seq<PollResult>, roles: map<string, string>,
                        users: map<string, Member>, infoOf: map<string, MemberInfo>): (k: nat)
    ensures k <= |ps|
    ensures forall j :: 0 <= j < k ==> !SweepFails(ps[j], now, results, roles, users, infoOf)
    ensures k < |ps| ==> SweepFails(ps[k], now, results, roles, users, infoOf)
  {
    if ps == [] || SweepFails(ps[0], now, results, roles, users, infoOf) then 0
    else 1 + FirstFailure(ps[1..], now, results, roles, users, infoOf)
  }

  /** filterPollTarget followed by the removal of members who answered leaves exactly the pending members. */
  lemma ToNotifyKeys(p: Poll, results: seq<PollResult>, roles: map<string, string>, users: map<string, Member>,
                    filtered: map<string, Member>, todo: map<string, Member>)
    requires ResolveKeys(p.targets, roles, users).Ok?
    requires filtered.Keys == ResolveKeys(p.targets, roles, users).value
    requires forall k :: k in filtered ==> k in users && filtered[k] == users[k]
    requires forall k :: k in todo <==> k in filtered && filtered[k].userId !in VotedIds(results, p.id)
    requires forall k :: k in todo ==> todo[k] == filtered[k]
    ensures ToNotify(p, results, roles, users) == Ok(todo.Keys)
    ensures forall k :: k in todo ==> todo[k] == users[k]
  {
    var keys := ResolveKeys(p.targets, roles, users).value;
    var pending := set k | k in keys && k in users && users[k].userId !in VotedIds(results, p.id);
    assert pending == todo.Keys by {
      forall k
        ensures k in pending <==> k in todo
      {
        if k in todo {
          assert k in filtered;
        }
      }
    }
  }

  /**
    The invitation loop of sendPolls (lines 574-599): one notice per member
    still to be asked, walking the map in an unspecified order.
  */
  method InviteAll(p: Poll, users: map<string, Member>, todo: set<string>, audience: seq<string>)
    returns (nicks: seq<string>, notices: seq<Outgoing>)
    requires todo <= users.Keys
    ensures forall k :: k in nicks <==> k in todo
    ensures forall i, j :: 0 <= i < j < |nicks| ==> nicks[i] != nicks[j]
    ensures notices == Invitations(p, users, nicks, audience)
  {
    nicks := [];
    notices := [];
    var unvisited := todo;
    while unvisited != {}
      invariant unvisited <= todo
      invariant forall k :: k in nicks ==> k in todo && k !in unvisited
      invariant forall k :: k in todo ==> k in unvisited || k in nicks
      invariant forall i, j :: 0 <= i < j < |nicks| ==> nicks[i] != nicks[j]
      invariant notices == Invitations(p, users, nicks, audience)
      decreases |unvisited|
    {
      var k :| k in unvisited;
      assert (nicks + [k])[..|nicks|] == nicks;
      nicks := nicks + [k];
      notices := notices + [Notice(users[k].userId, k, p.id, audience)];
      unvisited := unvisited - {k};
    }
  }

  // ---------------------------------------------------------------- dispatch

  /** The guild commands, by the prefix that selects them. */
  datatype Command =
    | CreateCmd(argsRaw: string)
    | StartCmd(argsRaw: string)
    | EndCmd
    | DescribeCmd
    | ResendCmd(argsRaw: string)
    | ListCmd
    | ResultCmd(argsRaw: string)
    | InfoCmd(argsRaw: string)
    | HelpCmd

  /** The prefix chain of guildPollManageHandler (lines 202-520): the first prefix that matches wins. */
  function CommandOf(content: string): (c: Command)
    ensures c.HelpCmd? <==>
      (!HasPrefix(content, CreatePrefix) && !HasPrefix(content, StartPrefix) &&
       !HasPrefix(content, EndPrefix) && !HasPrefix(content, DescribePrefix) && !HasPrefix(content, ResendPrefix) &&
       !HasPrefix(content, ListPrefix) && !HasPrefix(content, ResultPrefix) && !HasPrefix(content, InfoPrefix))
    ensures c.CreateCmd? ==> content == CreatePrefix + c.argsRaw
    ensures c.StartCmd? ==> content == StartPrefix + c.argsRaw
    ensures c.ResendCmd? ==> content == ResendPrefix + c.argsRaw
    ensures c.ResultCmd? ==> content == ResultPrefix + c.argsRaw
    ensures c.InfoCmd? ==> content == InfoPrefix + c.argsRaw
  {
    if HasPrefix(content, CreatePrefix) then CreateCmd(TrimPrefix(content, CreatePrefix))
    else if HasPrefix(content, StartPrefix) then StartCmd(TrimPrefix(content, StartPrefix))
    else if HasPrefix(content, EndPrefix) then EndCmd
    else if HasPrefix(content, DescribePrefix) then DescribeCmd
    else if HasPrefix(content, ResendPrefix) then ResendCmd(TrimPrefix(content, ResendPrefix))
    else if HasPrefix(content, ListPrefix) then ListCmd
    else if HasPrefix(content, ResultPrefix) then ResultCmd(TrimPrefix(content, ResultPrefix))
    else if HasPrefix(content, InfoPrefix) then InfoCmd(TrimPrefix(content, InfoPrefix))
    else HelpCmd
  }

  // ------------------------------------------------------------------ engine

  class Poller {
    /** s.State.User.ID: messages from the bot itself are ignored. */
    const botId: string
    /** environment.DiscordGuildID */
    const guildId: string
    /** environment.DiscordGuildPollChannelID */
    const pollChannelId: string
    /** The Poll table, in primary-key order. */
    var polls: seq<Poll>
    /** The PollResult table, in insertion order. */
    var results: seq<PollResult>
    /** The primary key the next created poll gets. */
    var nextId: nat
    /** Every message handed to Discord, oldest first. */
    var outbox: seq<Outgoing>

    ghost predicate Valid()
      reads this
    {
      nextId > 0 && Consistent(polls, results, nextId)
    }

    /** Empty tables; the store numbers polls from 1. */
    constructor (botId: string, guildId: string, pollChannelId: string)
      ensures this.botId == botId && this.guildId == guildId && this.pollChannelId == pollChannelId
      ensures polls == [] && results == [] && nextId == 1 && outbox == []
      ensures Valid()
    {
      this.botId := botId;
      this.guildId := guildId;
      this.pollChannelId := pollChannelId;
      polls := [];
      results := [];
      nextId := 1;
      outbox := [];
    }

    /**
      The duplicate query of lines 129-139: does a result of this user match
      the poll number (any poll when the number is 0)?
    */
    method FindResult(pollId: nat, user: string) returns (found: bool)
      ensures found == HasVoted(results, pollId, user)
    {
      var i := 0;
      while i < |results|
        invariant 0 <= i <= |results|
        invariant forall j :: 0 <= j < i ==> !(results[j].userId == user && (pollId == 0 || results[j].pollId == pollId))
      {
        if results[i].userId == user && (pollId == 0 || results[i].pollId == pollId) {
          return true;
        }
        i := i + 1;
      }
      return false;
    }

    /**
      The `!투표 응답` branch of userDMPollHandler (lines 110-178): the checks
      in the handler's order, storing the chosen value when all pass.
    */
    method Respond(argsRaw: string, user: string, now: int) returns (reply: ResponseReply)
      requires Valid()
      modifies this`results
      ensures Valid()
      ensures reply == DecideResponse(polls, old(results), user, argsRaw, now)
      ensures results == old(results) + (if reply.Accepted? then [reply.result] else [])
    {
      var args := ParseArguments(argsRaw);
      if |args| != 2 {
        return ResponseUsage;
      }
      var pollNumber := Atoi(args[0]);
      if pollNumber.Err? {
        return BadPollNumber;
      }
      var pollId := pollNumber.value;
      var voted := FindResult(AsUint(pollId), user);
      if voted {
        return AlreadyVoted;
      }
      var found := FindById(polls, pollId);
      if found.None? {
        return PollUnavailable;
      }
      var p := polls[found.value];
      if p.startedAt.None? {
        return PollUnavailable;
      }
      if now > Deadline(p) {
        return PollUnavailable;
      }
      var choice := Atoi(args[1]);
      if choice.Err? || choice.value < 1 || choice.value > |p.values| {
        return BadChoice;
      }
      var r := PollResult(user, p.values[choice.value - 1], AsUint(pollId));
      reply := Accepted(r);
      ResponseKeepsConsistent(polls, results, nextId, user, argsRaw, now);
      results := results + [r];
    }

    /**
      userDMPollHandler (lines 92-179): the bot's own messages and messages
      in a guild are ignored, a sender the member cache does not know is
      turned away, and a `!투표 응답` command is answered by Respond.
    */
    method HandleDirect(author: string, guild: string, content: string, now: int, dir: DirectoryCache)
      requires Valid()
      modifies this`results, this`outbox
      ensures Valid()
      ensures author == botId || guild != "" ==> results == old(results) && outbox == old(outbox)
      ensures author != botId && guild == "" && !InGuild(dir.members, author) ==>
        results == old(results) && outbox == old(outbox) + [Direct(author, NotInGuild)]
      ensures author != botId && guild == "" && InGuild(dir.members, author) && !HasPrefix(content, ResponsePrefix) ==>
        results == old(results) && outbox == old(outbox)
      ensures author != botId && guild == "" && InGuild(dir.members, author) && HasPrefix(content, ResponsePrefix) ==>
        var reply := DecideResponse(polls, old(results), author, TrimPrefix(content, ResponsePrefix), now);
        && results == old(results) + (if reply.Accepted? then [reply.result] else [])
        && outbox == old(outbox) + [Direct(author, ResponseText(reply))]
    {
      if author == botId {
        return;
      }
      if guild != "" {
        return;
      }
      var member := dir.GetGuildMember(author);
      if member.None? {
        outbox := outbox + [Direct(author, NotInGuild)];
        return;
      }
      assert InGuild(dir.members, author) by {
        var k :| k in dir.members && dir.members[k] == member.value;
      }
      if HasPrefix(content, ResponsePrefix) {
        var reply := Respond(TrimPrefix(content, ResponsePrefix), author, now);
        outbox := outbox + [Direct(author, ResponseText(reply))];
      }
    }

    /**
      sendPolls (lines 525-605): resolve the targets, drop those who have
      answered, invite each remaining member in map order and post a summary.
      `nicks` is the order the invitations went out in.
    */
    method SendPolls(p: Poll, dir: DirectoryCache) returns (nicks: seq<string>, ghost sent: seq<Outgoing>)
      modifies this`outbox
      ensures outbox == old(outbox) + sent
      ensures Notified(sent, p, results, dir.roles, dir.members, nicks)
    {
      var roles := dir.ListAllRoles();
      var users := dir.ListAllMembersNicknameMap();
      var filtered := FilterPollTarget(p.targets, roles, users);
      if filtered.Err? {
        outbox := outbox + [Guild(filtered.error)];
        return [], [Guild(filtered.error)];
      }
      var todo := RemoveVoted(filtered.value, VotedIds(results, p.id));
      ToNotifyKeys(p, results, roles, users, filtered.value, todo);
      var audience := RedactTargets(p.targets);
      assert audience == Audience(p.targets);
      var notices;
      nicks, notices := InviteAll(p, users, todo.Keys, audience);
      sent := notices + [Summary(p, nicks)];
      outbox := outbox + notices + [Summary(p, nicks)];
    }

    /** `!투표 생성` (lines 202-240): the poll DecideCreate builds is stored under the next key. */
    method Create(argsRaw: string)
      requires Valid()
      modifies this`polls, this`nextId, this`outbox
      ensures Valid()
      ensures var d := DecideCreate(old(polls), argsRaw, old(nextId));
        && (d.Ok? ==> polls == old(polls) + [d.value] && nextId == old(nextId) + 1 &&
                      outbox == old(outbox) + [Guild(GuildText(Created(d.value.title)))])
        && (d.Err? ==> polls == old(polls) && nextId == old(nextId) &&
                       outbox == old(outbox) + [Guild(GuildText(d.error))])
    {
      var d := DecideCreate(polls, argsRaw, nextId);
      if d.Err? {
        outbox := outbox + [Guild(GuildText(d.error))];
        return;
      }
      CreateKeepsConsistent(polls, results, nextId, argsRaw);
      polls := polls + [d.value];
      nextId := nextId + 1;
      outbox := outbox + [Guild(GuildText(Created(d.value.title)))];
    }

    /** `!투표 시작` (lines 242-270): the start time is set, announced, and the invitations go out. */
    method Start(argsRaw: string, now: int, dir: DirectoryCache) returns (nicks: seq<string>, ghost sent: seq<Outgoing>)
      requires Valid()
      modifies this`polls, this`outbox
      ensures Valid() && SameIdentity(old(polls), polls)
      ensures var g := DecideStart(old(polls), argsRaw);
        && (g.Refuse? ==> polls == old(polls) && outbox == old(outbox) + [Guild(GuildText(g.reply))])
        && (g.Proceed? ==>
              && polls == old(polls)[g.index := old(polls)[g.index].(startedAt := Some(now))]
              && outbox == old(outbox) + [Guild(GuildText(StartedNotice(polls[g.index].title)))] + sent
              && Notified(sent, polls[g.index], results, dir.roles, dir.members, nicks))
    {
      var g := DecideStart(polls, argsRaw);
      if g.Refuse? {
        outbox := outbox + [Guild(GuildText(g.reply))];
        return [], [];
      }
      var p := polls[g.index].(startedAt := Some(now));
      IdentityKeepsConsistent(polls, polls[g.index := p], results, nextId);
      polls := polls[g.index := p];
      outbox := outbox + [Guild(GuildText(StartedNotice(p.title)))];
      nicks, sent := SendPolls(p, dir);
    }

    /** `!투표 설명` (lines 296-327): the text after the first line becomes the description. */
    method Describe(content: string)
      requires Valid()
      modifies this`polls, this`outbox
      ensures Valid() && SameIdentity(old(polls), polls)
      ensures var g := DecideDescribe(old(polls), content);
        && (g.Refuse? ==> polls == old(polls) && outbox == old(outbox) + [Guild(GuildText(g.reply))])
        && (g.Proceed? ==>
              && polls == old(polls)[g.index := old(polls)[g.index].(description := SplitFirstLine(content).value.1)]
              && outbox == old(outbox) + [Guild(GuildText(Described(polls[g.index].title)))])
    {
      var g := DecideDescribe(polls, content);
      if g.Refuse? {
        outbox := outbox + [Guild(GuildText(g.reply))];
        return;
      }
      var p := polls[g.index].(description := SplitFirstLine(content).value.1);
      IdentityKeepsConsistent(polls, polls[g.index := p], results, nextId);
      polls := polls[g.index := p];
      outbox := outbox + [Guild(GuildText(Described(p.title)))];
    }

    /** `!투표 재발송` (lines 328-355): the invitations go out again, then the notice. */
    method Resend(argsRaw: string, now: int, dir: DirectoryCache) returns (nicks: seq<string>, ghost sent: seq<Outgoing>)
      modifies this`outbox
      ensures var g := DecideResend(polls, argsRaw, now);
        && (g.Refuse? ==> outbox == old(outbox) + [Guild(GuildText(g.reply))])
        && (g.Proceed? ==>
              && outbox == old(outbox) + sent + [Guild(GuildText(Resent(polls[g.index].title)))]
              && Notified(sent, polls[g.index], results, dir.roles, dir.members, nicks))
    {
      var g := DecideResend(polls, argsRaw, now);
      if g.Refuse? {
        outbox := outbox + [Guild(GuildText(g.reply))];
        return [], [];
      }
      nicks, sent := SendPolls(polls[g.index], dir);
      outbox := outbox + [Guild(GuildText(Resent(polls[g.index].title)))];
    }

    /** `!투표 목록` (lines 356-422): the polls listed as active, not started and ended. */
    method List(now: int)
      modifies this`outbox
      ensures outbox == old(outbox) +
        [Listing(PollsWith(polls, now, Active), PollsWith(polls, now, Inactive), PollsWith(polls, now, Ended))]
    {
      var active, inactive, ended := ClassifyPolls(polls, now);
      outbox := outbox + [Listing(active, inactive, ended)];
    }

    /**
      `!투표 결과` (lines 423-458): the report of a started poll that is closed
      or past its deadline; nothing is sent when the grouping fails.
    */
    method ShowResult(argsRaw: string, now: int, dir: DirectoryCache, infoOf: map<string, MemberInfo>)
      returns (report: Option<PollReport>)
      modifies this`outbox
      ensures var g := DecideResult(polls, argsRaw, now);
        && (g.Refuse? ==> outbox == old(outbox) + [Guild(GuildText(g.reply))])
        && (g.Proceed? ==>
              var rs := ResultsOf(results, polls[g.index].id);
              && (report.Some? <==> MembersByValue(rs, dir.members, infoOf).Some?)
              && (report.Some? ==> report.value.title == polls[g.index].title && report.value.participants == |rs|)
              && outbox == old(outbox) + (if report.Some? then [Report(report.value)] else []))
    {
      var g := DecideResult(polls, argsRaw, now);
      if g.Refuse? {
        outbox := outbox + [Guild(GuildText(g.reply))];
        return None;
      }
      var p := polls[g.index];
      var printed := PrintPollResult(p, ResultsOf(results, p.id), dir.members, infoOf);
      if printed.Err? {
        return None;
      }
      outbox := outbox + [Report(printed.value)];
      return Some(printed.value);
    }

    /** `!투표 정보` (lines 459-491): the stored poll, looked up by title. */
    method ShowInfo(argsRaw: string)
      modifies this`outbox
      ensures var g := LookupTitle(polls, argsRaw, "정보");
        && (g.Refuse? ==> outbox == old(outbox) + [Guild(GuildText(g.reply))])
        && (g.Proceed? ==> outbox == old(outbox) + [Info(polls[g.index])])
    {
      var g := LookupTitle(polls, argsRaw, "정보");
      if g.Refuse? {
        outbox := outbox + [Guild(GuildText(g.reply))];
        return;
      }
      outbox := outbox + [Info(polls[g.index])];
    }

    /**
      guildPollManageHandler (lines 181-523): only messages from others, in
      the configured guild's poll channel, are handled; the first matching
      prefix picks the command, and anything else gets the help text.
    */
    method HandleGuild(author: string, guild: string, channel: string, content: string, now: int,
                       dir: DirectoryCache, infoOf: map<string, MemberInfo>)
      requires Valid()
      modifies this`polls, this`nextId, this`outbox
      ensures Valid()
      ensures author == botId || guild == "" || guild != guildId || channel != pollChannelId ==>
        polls == old(polls) && nextId == old(nextId) && outbox == old(outbox)
      ensures !CommandOf(content).CreateCmd? ==> nextId == old(nextId) && SameIdentity(old(polls), polls)
      ensures CommandOf(content) == EndCmd && author != botId && guild == guildId && guild != "" && channel == pollChannelId ==>
        polls == old(polls) && outbox == old(outbox) + [Guild(GuildText(ForceEndUnsupported))]
      ensures CommandOf(content) == HelpCmd && author != botId && guild == guildId && guild != "" && channel == pollChannelId ==>
        polls == old(polls) && outbox == old(outbox) + [Help]
    {
      if author == botId {
        return;
      }
      if guild == "" {
        return;
      }
      if guild != guildId {
        return;
      }
      if channel != pollChannelId {
        return;
      }
      match CommandOf(content)
      case CreateCmd(argsRaw) =>
        Create(argsRaw);
      case StartCmd(argsRaw) =>
        var _, _ := Start(argsRaw, now, dir);
      case EndCmd =>
        outbox := outbox + [Guild(GuildText(ForceEndUnsupported))];
      case DescribeCmd =>
        Describe(content);
      case ResendCmd(argsRaw) =>
        var _, _ := Resend(argsRaw, now, dir);
      case ListCmd =>
        List(now);
      case ResultCmd(argsRaw) =>
        var _ := ShowResult(argsRaw, now, dir, infoOf);
      case InfoCmd(argsRaw) =>
        ShowInfo(argsRaw);
      case HelpCmd =>
        outbox := outbox + [Help];
    }

    /**
      Closing poll `i` (lines 673-682 and 712-727): the report is posted, the
      poll is saved closed, and the reason is announced.
    */
    method Close(i: nat, report: PollReport, notice: string)
      requires Valid() && i < |polls|
      modifies this`polls, this`outbox
      ensures Valid()
      ensures polls == old(polls)[i := old(polls)[i].(closed := true)]
      ensures outbox == old(outbox) + [Report(report), Guild(notice)]
    {
      var p := polls[i].(closed := true);
      IdentityKeepsConsistent(polls, polls[i := p], results, nextId);
      outbox := outbox + [Report(report)];
      polls := polls[i := p];
      outbox := outbox + [Guild(notice)];
    }

    /**
      One turn of the loop of PollFinishChecker (lines 656-730) on poll `i`,
      as written. A started, open poll past its deadline is closed by timeout
      and, with no `continue` after that, goes on to the quorum check: when
      all its resolved targets have answered it is closed, and a report
      posted, a second time; when the targets do not resolve, the error ends
      the sweep after the timeout close. Either way the poll ends closed
      exactly when the intended decision closes it; the outbox gets a report
      and a notice per closing of SweepAsWritten. A failure to print a report
      leaves the poll as it was at that point.
    */
    method SweepPoll(i: nat, now: int, dir: DirectoryCache, infoOf: map<string, MemberInfo>) returns (err: Option<string>)
      requires Valid() && i < |polls|
      modifies this`polls, this`outbox
      ensures Valid()
      ensures err.None? ==> polls == old(polls)[i := Swept(old(polls)[i], now, results, dir.roles, dir.members)]
      ensures err.None? ==> (|outbox| == |old(outbox)| +
        2 * |SweepAsWritten(old(polls)[i], now, Quorum(old(polls)[i], results, dir.roles, dir.members))|)
      ensures err.Some? <==> SweepFails(old(polls)[i], now, results, dir.roles, dir.members, infoOf)
      ensures err.Some? ==> polls == old(polls)[i := AfterTimeout(old(polls)[i], now, results, dir.members, infoOf)]
      ensures |old(outbox)| <= |outbox| && outbox[..|old(outbox)|] == old(outbox)
    {
      var p := polls[i];
      if p.startedAt.None? || p.closed {
        assert !SweepFails(p, now, results, dir.roles, dir.members, infoOf);
        return None;
      }
      err := SweepOpen(i, p, now, dir, infoOf);
    }

    /** SweepPoll on a started, open poll `p`: the timeout close, then the quorum check. */
    method SweepOpen(i: nat, p: Poll, now: int, dir: DirectoryCache, infoOf: map<string, MemberInfo>)
      returns (err: Option<string>)
      requires Valid() && i < |polls| && polls[i] == p && p.startedAt.Some? && !p.closed
      modifies this`polls, this`outbox
      ensures Valid()
      ensures err.None? ==> polls == old(polls)[i := Swept(p, now, results, dir.roles, dir.members)]
      ensures err.None? ==> (|outbox| == |old(outbox)| +
        2 * ((if Expired(p, now) then 1 else 0) + (if Quorum(p, results, dir.roles, dir.members) then 1 else 0)))
      ensures err.Some? <==> SweepFails(p, now, results, dir.roles, dir.members, infoOf)
      ensures err.Some? ==> polls == old(polls)[i := AfterTimeout(p, now, results, dir.members, infoOf)]
      ensures |old(outbox)| <= |outbox| && outbox[..|old(outbox)|] == old(outbox)
    {
      if now > Deadline(p) {
        err := SweepExpired(i, p, now, dir, infoOf);
      } else {
        err := CloseIfAllVoted(i, p, now, dir, infoOf);
      }
    }

    /** SweepOpen on a poll past its deadline: closed by timeout, and then, with no `continue`, the quorum check. */
    method SweepExpired(i: nat, p: Poll, now: int, dir: DirectoryCache, infoOf: map<string, MemberInfo>)
      returns (err: Option<string>)
      requires Valid() && i < |polls| && polls[i] == p && Expired(p, now) && !p.closed
      modifies this`polls, this`outbox
      ensures Valid()
      ensures err.None? ==> polls == old(polls)[i := p.(closed := true)]
      ensures err.None? ==> (|outbox| == |old(outbox)| +
        2 * (1 + (if Quorum(p, results, dir.roles, dir.members) then 1 else 0)))
      ensures err.Some? <==> (ReportFails(p, results, dir.members, infoOf) ||
                              QuorumCheckFails(p, results, dir.roles, dir.members, infoOf))
      ensures err.Some? ==> polls == old(polls)[i := if ReportFails(p, results, dir.members, infoOf) then p else p.(closed := true)]
      ensures |old(outbox)| <= |outbox| && outbox[..|old(outbox)|] == old(outbox)
    {
      err := CloseExpired(i, now, dir, infoOf);
      if err.Some? {
        return;
      }
      ghost var mid := outbox;
      err := CloseIfAllVoted(i, p, now, dir, infoOf);
      assert outbox[..|old(outbox)|] == mid[..|old(outbox)|];
      if err.None? && Quorum(p, results, dir.roles, dir.members) {
        assert polls == old(polls)[i := p.(closed := true)];
      }
    }

    /** Lines 666-684: the report of an expired poll is printed and the poll closed by timeout. */
    method CloseExpired(i: nat, now: int, dir: DirectoryCache, infoOf: map<string, MemberInfo>) returns (err: Option<string>)
      requires Valid() && i < |polls|
      modifies this`polls, this`outbox
      ensures Valid()
      ensures err.None? ==> polls == old(polls)[i := old(polls)[i].(closed := true)] && |outbox| == |old(outbox)| + 2
      ensures err.Some? <==> ReportFails(old(polls)[i], results, dir.members, infoOf)
      ensures err.Some? ==> polls == old(polls) && outbox == old(outbox)
      ensures |old(outbox)| <= |outbox| && outbox[..|old(outbox)|] == old(outbox)
    {
      var p := polls[i];
      var printed := PrintPollResult(p, ResultsOf(results, p.id), dir.members, infoOf);
      if printed.Err? {
        return Some("failed to print poll result: " + printed.error);
      }
      Close(i, printed.value, "투표('" + p.title + "')가 기간 도래로 종료되었습니다.");
      return None;
    }

    /**
      Lines 686-729 on the poll `p` read at the start of the turn: when all
      its resolved targets have answered, its report is printed and it is
      closed; targets that do not resolve are an error.
    */
    method CloseIfAllVoted(i: nat, p: Poll, now: int, dir: DirectoryCache, infoOf: map<string, MemberInfo>)
      returns (err: Option<string>)
      requires Valid() && i < |polls|
      modifies this`polls, this`outbox
      ensures Valid()
      ensures err.None? ==> (if Quorum(p, results, dir.roles, dir.members)
                             then polls == old(polls)[i := old(polls)[i].(closed := true)] && |outbox| == |old(outbox)| + 2
                             else polls == old(polls) && outbox == old(outbox))
      ensures err.Some? <==> QuorumCheckFails(p, results, dir.roles, dir.members, infoOf)
      ensures err.Some? ==> polls == old(polls)
      ensures |old(outbox)| <= |outbox| && outbox[..|old(outbox)|] == old(outbox)
    {
      var roles := dir.ListAllRoles();
      var users := dir.ListAllMembersNicknameMap();
      var filtered := FilterPollTarget(p.targets, roles, users);
      if filtered.Err? {
        return Some("failed to filter poll target: " + filtered.error);
      }
      var todo := RemoveVoted(filtered.value, VotedIds(results, p.id));
      ToNotifyKeys(p, results, roles, users, filtered.value, todo);
      if |todo| != 0 {
        assert !Quorum(p, results, roles, users);
        return None;
      }
      assert todo.Keys == {};
      var printed := PrintPollResult(p, ResultsOf(results, p.id), dir.members, infoOf);
      if printed.Err? {
        return Some("failed to print poll result: " + printed.error);
      }
      Close(i, printed.value, "투표('" + p.title + "')가 전원 투표로 조기 종료되었습니다.");
      return None;
    }

    /**
      PollFinishChecker (lines 649-731): every poll of the table read at the
      start is swept in key order, as SweepPoll states; the first error ends
      the sweep, leaving the polls after that one untouched.
    */
    method Sweep(now: int, dir: DirectoryCache, infoOf: map<string, MemberInfo>) returns (err: Option<string>)
      requires Valid()
      modifies this`polls, this`outbox
      ensures Valid()
      ensures |polls| == |old(polls)|
      ensures forall i :: 0 <= i < |polls| ==>
        polls[i] == old(polls)[i] || polls[i] == Swept(old(polls)[i], now, results, dir.roles, dir.members)
      ensures err.None? ==> forall i :: 0 <= i < |polls| ==>
        polls[i] == Swept(old(polls)[i], now, results, dir.roles, dir.members)
      ensures err.None? <==> forall i :: 0 <= i < |old(polls)| ==>
        !SweepFails(old(polls)[i], now, results, dir.roles, dir.members, infoOf)
      ensures var k := FirstFailure(old(polls), now, results, dir.roles, dir.members, infoOf);
        && (err.None? <==> k == |old(polls)|)
        && (forall j :: 0 <= j < k ==> polls[j] == Swept(old(polls)[j], now, results, dir.roles, dir.members))
        && (k < |polls| ==> polls[k] == AfterTimeout(old(polls)[k], now, results, dir.members, infoOf))
        && (forall j :: k < j < |polls| ==> polls[j] == old(polls)[j])
      ensures |old(outbox)| <= |outbox| && outbox[..|old(outbox)|] == old(outbox)
    {
      var snapshot := polls;
      var i := 0;
      while i < |snapshot|
        invariant snapshot == old(polls) && Valid()
        invariant SweptBefore(snapshot, polls, i, now, results, dir.roles, dir.members, infoOf)
        invariant |old(outbox)| <= |outbox| && outbox[..|old(outbox)|] == old(outbox)
      {
        ghost var before := outbox;
        ghost var prev := polls;
        err := SweepPoll(i, now, dir, infoOf);
        assert outbox[..|old(outbox)|] == before[..|old(outbox)|];
        if err.Some? {
          SweptUntil(snapshot, prev, polls, i, true, now, results, dir.roles, dir.members, infoOf);
          return;
        }
        SweptBeforeStep(snapshot, prev, i, now, results, dir.roles, dir.members, infoOf);
        i := i + 1;
      }
      SweptUntil(snapshot, polls, polls, i, false, now, results, dir.roles, dir.members, infoOf);
      return None;
    }
  }
}
