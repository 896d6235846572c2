/**
  The poll records of pkg/handler/poller.go and the validation the handlers
  run before they touch them: each handler is a chain of checks with early
  returns, modelled here as a pure decision over the stored polls and results.

  Times are whole seconds; a poll that was started at `s` with a duration of
  `d` hours is open until `s + d * 3600`. "After" and "Before" are strict, so
  at the deadline itself a poll still accepts responses and already shows
  its result.
*/
module PollModel {
  import opened Text
  import opened PollArgs

  /** `Poll`; the zero `StartedAt` is `None`. `id` is the primary key the store assigns. */
  datatype Poll = Poll(
    id: nat,
    title: string,
    identifiable: bool,
    targets: seq<string>,
    values: seq<string>,
    description: string,
    duration: int,
    closed: bool,
    startedAt: Option<int>)

  /** `PollResult`: the stored choice is the choice text, not its number. */
  datatype PollResult = PollResult(userId: string, value: string, pollId: nat)

  function Deadline(p: Poll): int
    requires p.startedAt.Some?
  {
    p.startedAt.value + p.duration * 3600
  }

  /** `time.Now().After(deadline)` for a started poll. */
  predicate Expired(p: Poll, now: int)
  {
    p.startedAt.Some? && now > Deadline(p)
  }

  /** Go's `uint(n)` of a 64-bit int: negative values wrap around. */
  function AsUint(n: int): (u: nat)
    requires MinInt64 <= n <= MaxInt64
    ensures n >= 0 ==> u == n
    ensures n < 0 ==> u > MaxInt64
  {
    if n < 0 then n + 0x1_0000_0000_0000_0000 else n
  }

  /**
    The duplicate check `Where(&PollResult{PollID: uint(pollID), DiscordUserID: ...})`:
    a struct condition leaves out zero fields, so poll number 0 matches a result
    of that user for any poll.
  */
  predicate HasVoted(results: seq<PollResult>, pollId: nat, user: string)
  {
    exists i :: 0 <= i < |results| && results[i].userId == user && (pollId == 0 || results[i].pollId == pollId)
  }

  /** The first poll (in primary-key order) with this ID. */
  function FindById(polls: seq<Poll>, id: int): (r: Option<nat>)
    ensures r.Some? ==> (r.value < |polls| && polls[r.value].id == id &&
                         forall j :: 0 <= j < r.value ==> polls[j].id != id)
    ensures r.None? ==> forall i :: 0 <= i < |polls| ==> polls[i].id != id
  {
    if polls == [] then None
    else if polls[0].id == id then Some(0)
    else match FindById(polls[1..], id)
      case None => None
      case Some(i) => Some(i + 1)
  }

  /** `Where("title = ?", title).First(&poll)`: the first poll with this title. */
  function FindByTitle(polls: seq<Poll>, title: string): (r: Option<nat>)
    ensures r.Some? ==> (r.value < |polls| && polls[r.value].title == title &&
                         forall j :: 0 <= j < r.value ==> polls[j].title != title)
    ensures r.None? ==> forall i :: 0 <= i < |polls| ==> polls[i].title != title
  {
    if polls == [] then None
    else if polls[0].title == title then Some(0)
    else match FindByTitle(polls[1..], title)
      case None => None
      case Some(i) => Some(i + 1)
  }

  predicate TitlesUnique(polls: seq<Poll>)
  {
    forall i, j :: 0 <= i < j < |polls| ==> polls[i].title != polls[j].title
  }

  // ---------------------------------------------------------------- responses

  /** The replies of the `!투표 응답` direct-message command. */
  datatype ResponseReply =
    | ResponseUsage
    | BadPollNumber
    | AlreadyVoted
    | PollUnavailable
    | BadChoice
    | Accepted(result: PollResult)

  function ResponseText(r: ResponseReply): string
  {
    match r
    case ResponseUsage => "투표 응답 명령어 사용법이 잘못되었습니다."
    case BadPollNumber => "투표 번호가 올바르지 않습니다."
    case AlreadyVoted => "이미 투표에 응답하셨습니다."
    case PollUnavailable => "해당 투표를 찾을 수 없거나 이미 종료된 투표입니다."
    case BadChoice => "응답 번호가 올바르지 않습니다."
    case Accepted(res) => "투표에 '" + res.value + "' 선택지로 응답하셨습니다. 감사합니다."
  }

  /**
    userDMPollHandler (pkg/handler/poller.go:116-172), in its order: argument
    count, poll number, duplicate vote, poll lookup, started, expired, choice
    number. `argsRaw` is the text after "!투표 응답 ".
  */
  function DecideResponse(polls: seq<Poll>, results: seq<PollResult>, user: string, argsRaw: string, now: int)
    : (r: ResponseReply)
    ensures r == ResponseUsage <==> |ParseArguments(argsRaw)| != 2
    ensures r == BadPollNumber <==> |ParseArguments(argsRaw)| == 2 && Atoi(ParseArguments(argsRaw)[0]).Err?
    ensures r.Accepted? ==> r.result.userId == user && Atoi(ParseArguments(argsRaw)[0]).Ok? &&
                            r.result.pollId == AsUint(Atoi(ParseArguments(argsRaw)[0]).value)
  {
    var args := ParseArguments(argsRaw);
    if |args| != 2 then ResponseUsage
    else match Atoi(args[0])
      case Err(_) => BadPollNumber
      case Ok(pollId) =>
        if HasVoted(results, AsUint(pollId), user) then AlreadyVoted
        else match FindById(polls, pollId)
          case None => PollUnavailable
          case Some(i) =>
            var p := polls[i];
            if p.startedAt.None? || now > Deadline(p) then PollUnavailable
            else match Atoi(args[1])
              case Err(_) => BadChoice
              case Ok(k) =>
                if k < 1 || k > |p.values| then BadChoice
                else Accepted(PollResult(user, p.values[k - 1], AsUint(pollId)))
  }

  /**
    An accepted response stores the text of the chosen value for a poll that
    exists, has started and has not passed its deadline, and the user had
    no result for that poll yet.
  */
  lemma AcceptedResponse(polls: seq<Poll>, results: seq<PollResult>, user: string, argsRaw: string, now: int)
    requires DecideResponse(polls, results, user, argsRaw, now).Accepted?
    ensures var r := DecideResponse(polls, results, user, argsRaw, now).result;
      && r.userId == user
      && !HasVoted(results, r.pollId, user)
      && exists i :: 0 <= i < |polls| && polls[i].id == r.pollId && polls[i].startedAt.Some? &&
           now <= Deadline(polls[i]) && r.value in polls[i].values
  {
    var args := ParseArguments(argsRaw);
    var pollId := Atoi(args[0]).value;
    var i := FindById(polls, pollId).value;
    var k := Atoi(args[1]).value;
    assert polls[i].values[k - 1] in polls[i].values;
  }

  /**
    A response of two arguments, from a user with no result for the poll
    number, naming the first poll with that ID, started and not past its
    deadline, with a choice number between 1 and the number of values, is
    stored as the text of that choice.
  */
  lemma ValidResponseAccepted(polls: seq<Poll>, results: seq<PollResult>, user: string, argsRaw: string, now: int,
                              i: nat, k: int)
    requires |ParseArguments(argsRaw)| == 2
    requires i < |polls| && Atoi(ParseArguments(argsRaw)[0]) == Ok(polls[i].id)
    requires forall j :: 0 <= j < i ==> polls[j].id != polls[i].id
    requires !HasVoted(results, AsUint(polls[i].id), user)
    requires polls[i].startedAt.Some? && now <= Deadline(polls[i])
    requires Atoi(ParseArguments(argsRaw)[1]) == Ok(k) && 1 <= k <= |polls[i].values|
    ensures DecideResponse(polls, results, user, argsRaw, now) ==
            Accepted(PollResult(user, polls[i].values[k - 1], AsUint(polls[i].id)))
  {
    assert FindById(polls, polls[i].id) == Some(i);
  }

  /** The duplicate check comes first: a user who already voted is told so even if the poll no longer qualifies. */
  lemma DuplicateCheckedFirst(polls: seq<Poll>, results: seq<PollResult>, user: string, argsRaw: string, now: int)
    requires |ParseArguments(argsRaw)| == 2 && Atoi(ParseArguments(argsRaw)[0]).Ok?
    requires HasVoted(results, AsUint(Atoi(ParseArguments(argsRaw)[0]).value), user)
    ensures DecideResponse(polls, results, user, argsRaw, now) == AlreadyVoted
  {
  }

  /** Once a response is stored, every later response of that user to that poll number is refused as a duplicate. */
  lemma NoDoubleVote(polls: seq<Poll>, results: seq<PollResult>, user: string, argsRaw: string, now: int,
                     polls2: seq<Poll>, argsRaw2: string, now2: int)
    requires DecideResponse(polls, results, user, argsRaw, now).Accepted?
    requires |ParseArguments(argsRaw2)| == 2
    requires Atoi(ParseArguments(argsRaw2)[0]) == Atoi(ParseArguments(argsRaw)[0])
    ensures DecideResponse(polls2, results + [DecideResponse(polls, results, user, argsRaw, now).result],
                           user, argsRaw2, now2) == AlreadyVoted
  {
    var r := DecideResponse(polls, results, user, argsRaw, now).result;
    var results2 := results + [r];
    assert results2[|results|] == r;
    assert HasVoted(results2, r.pollId, user);
  }

  /** A poll past its deadline accepts no response. */
  lemma ExpiredRefusesResponses(polls: seq<Poll>, results: seq<PollResult>, user: string, argsRaw: string, now: int)
    requires |ParseArguments(argsRaw)| == 2 && Atoi(ParseArguments(argsRaw)[0]).Ok?
    requires FindById(polls, Atoi(ParseArguments(argsRaw)[0]).value).Some?
    requires Expired(polls[FindById(polls, Atoi(ParseArguments(argsRaw)[0]).value).value], now)
    ensures !DecideResponse(polls, results, user, argsRaw, now).Accepted?
  {
  }

  /** Poll number 0 is answered "already voted" as soon as the user has voted in any poll. */
  lemma ZeroPollNumberMatchesAnyResult(polls: seq<Poll>, results: seq<PollResult>, user: string, choice: string, now: int, i: nat)
    requires NoSpace(choice) && choice != [] && choice[0] != '"'
    requires i < |results| && results[i].userId == user
    ensures DecideResponse(polls, results, user, "0 " + choice, now) == AlreadyVoted
  {
    ParsePlain("0", " " + choice);
    ParseSpace(' ', choice);
    ParsePlain(choice, "");
    assert "0 " + choice == "0" + (" " + choice);
    assert " " + choice == [' '] + choice;
    assert choice + "" == choice;
    assert ParseArguments("0 " + choice) == ["0", choice];
    AtoiUnsigned("0");
  }

  // ----------------------------------------------------------- guild commands

  /** The replies of the `!투표 ...` guild-channel commands. */
  datatype GuildReply =
    | Usage(command: string)
    | TitleTaken
    | BadDuration
    | Created(title: string)
    | NotFound
    | AlreadyStarted
    | StartedNotice(title: string)
    | ForceEndUnsupported
    | DescribeAfterStart
    | Described(title: string)
    | NotStarted
    | AlreadyEnded
    | Resent(title: string)
    | NotYetEnded

  function GuildText(r: GuildReply): string
  {
    match r
    case Usage(c) => "투표 " + c + " 명령어 사용법이 잘못되었습니다."
    case TitleTaken => "이미 생성된 투표가 있습니다."
    case BadDuration => "투표 기간이 올바르지 않습니다."
    case Created(t) => "투표('" + t + "')가 생성되었습니다."
    case NotFound => "해당 투표를 찾을 수 없습니다."
    case AlreadyStarted => "이미 시작된 투표입니다."
    case StartedNotice(t) => "투표('" + t + "')가 시작되었습니다."
    case ForceEndUnsupported => "투표 강제 종료 기능은 아직 지원하지 않습니다."
    case DescribeAfterStart => "투표가 이미 시작되었습니다."
    case Described(t) => "투표('" + t + "')에 설명이 추가되었습니다."
    case NotStarted => "투표가 시작되지 않았습니다."
    case AlreadyEnded => "투표가 이미 종료되었습니다."
    case Resent(t) => "투표('" + t + "') 알림이 재발송되었습니다."
    case NotYetEnded => "투표가 아직 종료되지 않았습니다."
  }

  /** Outcome of a command that works on one poll: refused with a reply, or go ahead on `polls[index]`. */
  datatype Gate = Refuse(reply: GuildReply) | Proceed(index: nat)

  /**
    `!투표 생성` (lines 202-240): five arguments, a title no poll has, a
    duration Atoi accepts (no range is enforced). Targets and values are the
    comma-separated pieces; the poll is identifiable exactly when the first
    argument is "기명".
  */
  function DecideCreate(polls: seq<Poll>, argsRaw: string, nextId: nat): (r: Result<Poll, GuildReply>)
    ensures r == Err(Usage("생성")) <==> |ParseArguments(argsRaw)| != 5
    ensures r == Err(TitleTaken) <==>
      |ParseArguments(argsRaw)| == 5 && FindByTitle(polls, ParseArguments(argsRaw)[2]).Some?
    ensures r == Err(BadDuration) <==>
      (|ParseArguments(argsRaw)| == 5 && FindByTitle(polls, ParseArguments(argsRaw)[2]).None? &&
       Atoi(ParseArguments(argsRaw)[4]).Err?)
    ensures r.Ok? ==> FindByTitle(polls, r.value.title) == None
    ensures r.Ok? ==> (|ParseArguments(argsRaw)| == 5 &&
                       r.value.title == ParseArguments(argsRaw)[2] &&
                       r.value.duration == Atoi(ParseArguments(argsRaw)[4]).value &&
                       r.value.identifiable == (ParseArguments(argsRaw)[0] == "기명"))
    ensures r.Ok? ==> r.value.startedAt.None? && !r.value.closed && r.value.id == nextId && r.value.description == ""
  {
    var args := ParseArguments(argsRaw);
    if |args| != 5 then Err(Usage("생성"))
    else if FindByTitle(polls, args[2]).Some? then Err(TitleTaken)
    else match Atoi(args[4])
      case Err(_) => Err(BadDuration)
      case Ok(d) =>
        Ok(Poll(nextId, args[2], args[0] == "기명", Split(args[1], ','), Split(args[3], ','), "", d, false, None))
  }

  /** The stored targets and values join back, with commas, to the arguments they came from. */
  lemma CreateSplitsLists(polls: seq<Poll>, argsRaw: string, nextId: nat)
    requires DecideCreate(polls, argsRaw, nextId).Ok?
    ensures Join(DecideCreate(polls, argsRaw, nextId).value.targets, [',']) == ParseArguments(argsRaw)[1]
    ensures Join(DecideCreate(polls, argsRaw, nextId).value.values, [',']) == ParseArguments(argsRaw)[3]
    ensures |DecideCreate(polls, argsRaw, nextId).value.values| >= 1
  {
    var args := ParseArguments(argsRaw);
    JoinSplit(args[1], ',');
    JoinSplit(args[3], ',');
  }

  /** Creating keeps titles unique, so every title lookup afterwards finds the one poll with that title. */
  lemma CreateKeepsTitlesUnique(polls: seq<Poll>, argsRaw: string, nextId: nat)
    requires TitlesUnique(polls)
    requires DecideCreate(polls, argsRaw, nextId).Ok?
    ensures TitlesUnique(polls + [DecideCreate(polls, argsRaw, nextId).value])
  {
    var p := DecideCreate(polls, argsRaw, nextId).value;
    var ps := polls + [p];
    forall i, j | 0 <= i < j < |ps|
      ensures ps[i].title != ps[j].title
    {
      if j == |polls| {
        assert ps[i] == polls[i];
      } else {
        assert ps[i] == polls[i] && ps[j] == polls[j];
      }
    }
  }

  /**
    The help text (line 502) promises a duration of 1 to 168 hours, but the
    code stores any duration Atoi accepts: a poll created with a duration of
    0 or less has passed its deadline one second after it starts, so it
    refuses every response from then on.
  */
  lemma CreateAcceptsNonPositiveDuration(polls: seq<Poll>, argsRaw: string, nextId: nat, s: int)
    requires |ParseArguments(argsRaw)| == 5 && FindByTitle(polls, ParseArguments(argsRaw)[2]).None?
    requires Atoi(ParseArguments(argsRaw)[4]).Ok? && Atoi(ParseArguments(argsRaw)[4]).value <= 0
    ensures DecideCreate(polls, argsRaw, nextId).Ok?
    ensures Expired(DecideCreate(polls, argsRaw, nextId).value.(startedAt := Some(s)), s + 1)
  {
    var p := DecideCreate(polls, argsRaw, nextId).value;
    assert p.duration * 3600 <= 0;
  }

  /** The duration range of the help text: 1 to 168 hours. */
  predicate DurationInRange(d: int)
  {
    1 <= d <= 168
  }

  /** `!투표 생성` as the help text describes it: a duration outside 1 to 168 hours is refused as bad. */
  function DecideCreateInRange(polls: seq<Poll>, argsRaw: string, nextId: nat): (r: Result<Poll, GuildReply>)
    ensures r.Ok? <==> DecideCreate(polls, argsRaw, nextId).Ok? &&
                       DurationInRange(DecideCreate(polls, argsRaw, nextId).value.duration)
    ensures r.Ok? ==> r == DecideCreate(polls, argsRaw, nextId)
    ensures r.Err? && DecideCreate(polls, argsRaw, nextId).Ok? ==> r == Err(BadDuration)
  {
    match DecideCreate(polls, argsRaw, nextId)
    case Err(e) => Err(e)
    case Ok(p) => if DurationInRange(p.duration) then Ok(p) else Err(BadDuration)
  }

  /** A poll created within the range and started at `s` takes responses for its first hour and has ended after a week. */
  lemma InRangePollOpensForAnHour(polls: seq<Poll>, argsRaw: string, nextId: nat, s: int, now: int)
    requires DecideCreateInRange(polls, argsRaw, nextId).Ok?
    ensures var p := DecideCreateInRange(polls, argsRaw, nextId).value.(startedAt := Some(s));
      && (now <= s + 3600 ==> !Expired(p, now))
      && (now > s + 168 * 3600 ==> Expired(p, now))
  {
    var d := DecideCreateInRange(polls, argsRaw, nextId).value.duration;
    assert 3600 <= d * 3600 <= 168 * 3600;
  }

  /** The single-title commands: exactly one argument, naming an existing poll. */
  function LookupTitle(polls: seq<Poll>, argsRaw: string, command: string): (g: Gate)
    ensures g == Refuse(Usage(command)) <==> |ParseArguments(argsRaw)| != 1
    ensures g.Proceed? <==> (|ParseArguments(argsRaw)| == 1 &&
                             exists i :: 0 <= i < |polls| && polls[i].title == ParseArguments(argsRaw)[0])
    ensures g.Proceed? ==> (g.index < |polls| && polls[g.index].title == ParseArguments(argsRaw)[0] &&
                            forall j :: 0 <= j < g.index ==> polls[j].title != ParseArguments(argsRaw)[0])
    ensures g.Refuse? ==> g.reply == Usage(command) || g.reply == NotFound
  {
    var args := ParseArguments(argsRaw);
    if |args| != 1 then Refuse(Usage(command))
    else match FindByTitle(polls, args[0])
      case None => Refuse(NotFound)
      case Some(i) => Proceed(i)
  }

  /** `!투표 시작` (lines 242-260): refused once the poll has started. */
  function DecideStart(polls: seq<Poll>, argsRaw: string): (g: Gate)
    ensures var l := LookupTitle(polls, argsRaw, "시작"); l.Refuse? ==> g == l
    ensures var l := LookupTitle(polls, argsRaw, "시작");
      l.Proceed? ==> (g == Refuse(AlreadyStarted) <==> polls[l.index].startedAt.Some?)
    ensures var l := LookupTitle(polls, argsRaw, "시작");
      g.Proceed? <==> l.Proceed? && polls[l.index].startedAt.None?
    ensures g.Proceed? ==> g == LookupTitle(polls, argsRaw, "시작")
  {
    match LookupTitle(polls, argsRaw, "시작")
    case Refuse(r) => Refuse(r)
    case Proceed(i) => if polls[i].startedAt.Some? then Refuse(AlreadyStarted) else Proceed(i)
  }

  /** `strings.SplitN(content, "\n", 2)`: the command line and the description after the first newline. */
  function SplitFirstLine(content: string): (r: Option<(string, string)>)
    ensures r.None? <==> '\n' !in content
    ensures r.Some? ==> content == r.value.0 + "\n" + r.value.1 && '\n' !in r.value.0
  {
    if content == [] then None
    else if content[0] == '\n' then Some(("", content[1..]))
    else match SplitFirstLine(content[1..])
      case None => None
      case Some((head, tail)) => Some(([content[0]] + head, tail))
  }

  const DescribePrefix: string := "!투표 설명 "

  /** `!투표 설명` (lines 296-320): needs a second line, and is refused once the poll has started. */
  function DecideDescribe(polls: seq<Poll>, content: string): (g: Gate)
    ensures SplitFirstLine(content).None? ==> g == Refuse(Usage("설명"))
    ensures SplitFirstLine(content).Some? ==>
      var l := LookupTitle(polls, TrimPrefix(SplitFirstLine(content).value.0, DescribePrefix), "설명");
      && (l.Refuse? ==> g == l)
      && (l.Proceed? ==> (g == Refuse(DescribeAfterStart) <==> polls[l.index].startedAt.Some?))
      && (g.Proceed? <==> l.Proceed? && polls[l.index].startedAt.None?)
      && (g.Proceed? ==> g == l)
  {
    match SplitFirstLine(content)
    case None => Refuse(Usage("설명"))
    case Some((head, _)) =>
      match LookupTitle(polls, TrimPrefix(head, DescribePrefix), "설명")
      case Refuse(r) => Refuse(r)
      case Proceed(i) => if polls[i].startedAt.Some? then Refuse(DescribeAfterStart) else Proceed(i)
  }

  /** `!투표 재발송` (lines 328-351): only while the poll is started and not past its deadline. */
  function DecideResend(polls: seq<Poll>, argsRaw: string, now: int): (g: Gate)
    ensures var l := LookupTitle(polls, argsRaw, "재발송"); l.Refuse? ==> g == l
    ensures var l := LookupTitle(polls, argsRaw, "재발송");
      l.Proceed? ==> (g == Refuse(NotStarted) <==> polls[l.index].startedAt.None?)
    ensures var l := LookupTitle(polls, argsRaw, "재발송");
      l.Proceed? ==> (g == Refuse(AlreadyEnded) <==> polls[l.index].startedAt.Some? && now > Deadline(polls[l.index]))
    ensures var l := LookupTitle(polls, argsRaw, "재발송");
      g.Proceed? <==> l.Proceed? && polls[l.index].startedAt.Some? && now <= Deadline(polls[l.index])
    ensures g.Proceed? ==> g == LookupTitle(polls, argsRaw, "재발송")
  {
    match LookupTitle(polls, argsRaw, "재발송")
    case Refuse(r) => Refuse(r)
    case Proceed(i) =>
      if polls[i].startedAt.None? then Refuse(NotStarted)
      else if now > Deadline(polls[i]) then Refuse(AlreadyEnded)
      else Proceed(i)
  }

  /** `!투표 결과` (lines 423-446): only for a started poll that is closed or has reached its deadline. */
  function DecideResult(polls: seq<Poll>, argsRaw: string, now: int): (g: Gate)
    ensures var l := LookupTitle(polls, argsRaw, "결과"); l.Refuse? ==> g == l
    ensures var l := LookupTitle(polls, argsRaw, "결과");
      l.Proceed? ==> (g == Refuse(NotStarted) <==> polls[l.index].startedAt.None?)
    ensures var l := LookupTitle(polls, argsRaw, "결과");
      l.Proceed? ==> (g == Refuse(NotYetEnded) <==>
                      polls[l.index].startedAt.Some? && !polls[l.index].closed && now < Deadline(polls[l.index]))
    ensures var l := LookupTitle(polls, argsRaw, "결과");
      g.Proceed? <==> (l.Proceed? && polls[l.index].startedAt.Some? &&
                       (polls[l.index].closed || now >= Deadline(polls[l.index])))
    ensures g.Proceed? ==> g == LookupTitle(polls, argsRaw, "결과")
  {
    match LookupTitle(polls, argsRaw, "결과")
    case Refuse(r) => Refuse(r)
    case Proceed(i) =>
      if polls[i].startedAt.None? then Refuse(NotStarted)
      else if !polls[i].closed && now < Deadline(polls[i]) then Refuse(NotYetEnded)
      else Proceed(i)
  }

  /**
    The result of an open poll and a reminder for it can only both be
    granted at the very deadline.
  */
  lemma ResultAndResendMeetAtDeadline(polls: seq<Poll>, argsRaw: string, now: int)
    requires DecideResult(polls, argsRaw, now).Proceed? && DecideResend(polls, argsRaw, now).Proceed?
    requires !polls[DecideResult(polls, argsRaw, now).index].closed
    ensures DecideResult(polls, argsRaw, now).index == DecideResend(polls, argsRaw, now).index
    ensures now == Deadline(polls[DecideResult(polls, argsRaw, now).index])
  {
  }

  // ----------------------------------------------------------------- listing

  datatype Status = Inactive | Active | Ended

  /** The `!투표 목록` classification (lines 364-377). */
  function StatusOf(p: Poll, now: int): (s: Status)
    ensures s == Inactive <==> p.startedAt.None?
    ensures s == Ended <==> Expired(p, now) || (p.startedAt.Some? && p.closed)
    ensures s == Active <==> p.startedAt.Some? && !p.closed && !Expired(p, now)
  {
    if p.startedAt.None? then Inactive
    else if now > Deadline(p) || p.closed then Ended
    else Active
  }

  function PollsWith(polls: seq<Poll>, now: int, st: Status): (r: seq<Poll>)
    ensures forall k :: 0 <= k < |r| ==> r[k] in polls && StatusOf(r[k], now) == st
  {
    if polls == [] then []
    else
      var rest := PollsWith(polls[..|polls| - 1], now, st);
      assert forall x :: x in polls[..|polls| - 1] ==> x in polls;
      if StatusOf(polls[|polls| - 1], now) == st then rest + [polls[|polls| - 1]] else rest
  }

  /** The three lists split the polls: every poll is in exactly one, in stored order. */
  lemma {:induction false} ListPartitions(polls: seq<Poll>, now: int)
    ensures multiset(PollsWith(polls, now, Active)) + multiset(PollsWith(polls, now, Inactive)) +
            multiset(PollsWith(polls, now, Ended)) == multiset(polls)
  {
    if polls != [] {
      var init, last := polls[..|polls| - 1], polls[|polls| - 1];
      ListPartitions(init, now);
      assert polls == init + [last];
      assert multiset(polls) == multiset(init) + multiset{last};
      var a, i, e := PollsWith(init, now, Active), PollsWith(init, now, Inactive), PollsWith(init, now, Ended);
      match StatusOf(last, now)
      case Active =>
        assert multiset(PollsWith(polls, now, Active)) == multiset(a) + multiset{last};
        assert PollsWith(polls, now, Inactive) == i && PollsWith(polls, now, Ended) == e;
      case Inactive =>
        assert multiset(PollsWith(polls, now, Inactive)) == multiset(i) + multiset{last};
        assert PollsWith(polls, now, Active) == a && PollsWith(polls, now, Ended) == e;
      case Ended =>
        assert multiset(PollsWith(polls, now, Ended)) == multiset(e) + multiset{last};
        assert PollsWith(polls, now, Active) == a && PollsWith(polls, now, Inactive) == i;
    }
  }

  /** The classification loop of `!투표 목록`: one pass appending each poll to its list. */
  method ClassifyPolls(polls: seq<Poll>, now: int) returns (active: seq<Poll>, inactive: seq<Poll>, ended: seq<Poll>)
    ensures active == PollsWith(polls, now, Active)
    ensures inactive == PollsWith(polls, now, Inactive)
    ensures ended == PollsWith(polls, now, Ended)
  {
    active, inactive, ended := [], [], [];
    var i := 0;
    while i < |polls|
      invariant 0 <= i <= |polls|
      invariant active == PollsWith(polls[..i], now, Active)
      invariant inactive == PollsWith(polls[..i], now, Inactive)
      invariant ended == PollsWith(polls[..i], now, Ended)
    {
      assert polls[..i + 1][..i] == polls[..i];
      var p := polls[i];
      if p.startedAt.None? {
        inactive := inactive + [p];
        i := i + 1;
        continue;
      }
      if now > Deadline(p) || p.closed {
        ended := ended + [p];
        i := i + 1;
        continue;
      }
      active := active + [p];
      i := i + 1;
    }
    assert polls[..i] == polls;
  }

  // ------------------------------------------------------------ finish sweep

  /** Why the sweep closes a poll. */
  datatype Closing = ByTimeout | ByQuorum

  /**
    The per-poll body of PollFinishChecker (lines 656-730) AS WRITTEN, given
    whether every resolved target has voted: the timeout branch has no
    `continue`, so an expired poll goes on to the quorum check.
  */
  function SweepAsWritten(p: Poll, now: int, allVoted: bool): (r: seq<Closing>)
    ensures ByTimeout in r <==> Expired(p, now) && !p.closed
    ensures ByQuorum in r <==> p.startedAt.Some? && !p.closed && allVoted
    ensures r != [] ==> r[0] == (if Expired(p, now) then ByTimeout else ByQuorum)
  {
    if p.startedAt.None? || p.closed then []
    else (if now > Deadline(p) then [ByTimeout] else []) + (if allVoted then [ByQuorum] else [])
  }

  /** An expired poll whose targets have all voted is closed, and its result published, twice in one pass. */
  lemma SweepAsWrittenClosesTwice()
    ensures SweepAsWritten(Poll(1, "점검", false, ["전체"], ["네", "아니오"], "", 1, false, Some(0)), 3601, true)
      == [ByTimeout, ByQuorum]
  {
  }

  /** The intended per-poll decision: a timed-out poll is closed once, and only open polls are checked for quorum. */
  function SweepDecision(p: Poll, now: int, allVoted: bool): (c: Option<Closing>)
    ensures c.Some? <==> p.startedAt.Some? && !p.closed && (now > Deadline(p) || allVoted)
    ensures c == Some(ByTimeout) <==> p.startedAt.Some? && !p.closed && now > Deadline(p)
  {
    if p.startedAt.None? || p.closed then None
    else if now > Deadline(p) then Some(ByTimeout)
    else if allVoted then Some(ByQuorum)
    else None
  }

  /**
    The two agree except in the double case: the intended decision is the
    first closing the code performs, and the code performs a second one
    exactly when the poll is both expired and fully voted.
  */
  lemma SweepDecisionIsFirstClosing(p: Poll, now: int, allVoted: bool)
    ensures SweepDecision(p, now, allVoted).None? <==> SweepAsWritten(p, now, allVoted) == []
    ensures SweepDecision(p, now, allVoted).Some? ==>
      SweepDecision(p, now, allVoted).value == SweepAsWritten(p, now, allVoted)[0]
    ensures |SweepAsWritten(p, now, allVoted)| == 2 <==> Expired(p, now) && !p.closed && allVoted
  {
  }

  /** Lines 541-543: the user IDs of a poll's results. */
  function VotedIds(results: seq<PollResult>, pollId: nat): (r: seq<string>)
    ensures forall u :: u in r <==> exists i :: 0 <= i < |results| && results[i].pollId == pollId && results[i].userId == u
  {
    if results == [] then []
    else
      var init := results[..|results| - 1];
      var last := results[|results| - 1];
      var rest := VotedIds(init, pollId);
      assert forall i :: 0 <= i < |init| ==> results[i] == init[i];
      if last.pollId == pollId then rest + [last.userId] else rest
  }

  /** `Where("poll_id = ?", id).Find(&results)`: a poll's results in stored order. */
  function ResultsOf(results: seq<PollResult>, pollId: nat): (r: seq<PollResult>)
    ensures forall k :: 0 <= k < |r| ==> r[k] in results && r[k].pollId == pollId
    ensures forall x :: multiset(r)[x] == if x.pollId == pollId then multiset(results)[x] else 0
    ensures |r| <= |results|
  {
    if results == [] then []
    else
      var init := results[..|results| - 1];
      var rest := ResultsOf(init, pollId);
      assert forall x :: x in init ==> x in results;
      assert results == init + [results[|results| - 1]];
      if results[|results| - 1].pollId == pollId then rest + [results[|results| - 1]] else rest
  }
}
