# eternity-bot core, modelled in Dafny

eternity-bot is a Discord bot for a MapleStory guild. This project models the
logic at its core and proves what that logic promises. Discord, SQLite and
Notion are left outside: their inputs become parameters and their effects
become appended records.

- **Level/nickname parser** (`LevelParser`, over `Text`). A guild nickname
  looks like "Lv 120 홍길동". `Extract` strips the "Lv"/"lv"/"LV" markers in
  that order and drops every space and period. It then reads at most three
  leading ASCII digits and takes the longest digit prefix that is a playable
  level (85 to 200). Level 0 together with the untouched input means "could not
  parse".
- **Directory cache** (`Directory.DirectoryCache`). There are two published
  maps: role name → role ID, and parsed nickname → member. A refresh builds a
  new map and replaces the field, or leaves it alone when the fetch failed.
  Members are admitted only when one of their role IDs resolves, through the
  current role map, to one of the ten job roles, and their nickname parses.
- **Poll engine**:
  - `PollArgs` is the command tokenizer and `strconv.Atoi`.
  - `PollModel` decides every command and every response, classifies the polls
    and makes the per-poll sweep decision.
  - `PollTargets` resolves the `전체`, role-name and `u_<nick>` targets,
    removes members who voted, and redacts user targets from the notice.
  - `PollTally` counts the votes and groups the voters.
  - `PollSplit` is the 2000-byte message splitter with code-fence repair,
    under the code's cut rule (`AsWritten`) and the intended one (`Intended`).
  - `PollEngine.Poller` is the stateful part. The Poll and PollResult tables are
    sequences of records, and every message sent is appended to an outbox.
- **Nickname normaliser** (`GeneralizeName`). Every member whose nickname
  starts with "lv" in any case is renamed to "Lv <level> <name>", unless it
  already reads so. The pass stops at the first nickname that does not parse,
  or at the first refused rename.
- **Role roster** (`RoleInfo`). Member mentions are grouped by role ID. Only
  the ten job roles are printed, and the total counts one mention per
  (member, printed role).
- **Raid board** (`Raid.RaidBoard`, with `RaidOrder` for Go's string order and
  the in-place sort). Each schedule's roster has attendees grouped under sorted
  sub-role headings. A message is edited only when its text changed. The model
  also covers the ±3-day remove and edit menus, the attend menu, and the
  sign-up step that refuses a duplicate.

Times are whole seconds. A poll's deadline is `startedAt + duration * 3600`.
Go's `len` on strings is the UTF-8 byte count `Text.ByteLen`. Go's map
iteration order is unspecified, so loops over maps pick their next key with
`:|`. Where the output depends on that order, the contracts say "for some
order of the keys".

## Model

| member | source | states |
|---|---|---|
| Text.JoinSplit | pkg/handler/poller.go:232-233 | splitting on a separator and joining again with it gives the text back |
| Text.SplitJoin | pkg/handler/poller.go:232-233 | separator-free pieces joined and split again come back as the same list |
| LevelParser.Extract | pkg/cache/util.go:9-33 | the level is 0 or in 85..200; on failure the nickname is the original input; on success it has no space, period or newline |
| LevelParser.LeadingDigits | pkg/cache/util.go:16-17 | the digit group is the longest run of at most three leading ASCII digits |
| LevelParser.UpToNewline | pkg/cache/util.go:16-17 | the name group stops at the first newline, and is the whole rest when there is none |
| LevelParser.FirstInRange | pkg/cache/util.go:21-29 | the accepted prefix length is a level and no longer prefix is one; none is accepted only when no prefix is a level |
| LevelParser.StripNoSpaceOrPeriod | pkg/cache/util.go:13-14 | after stripping, no space and no period remain |
| LevelParser.StripPlain | pkg/cache/util.go:10-12 | a single "Lv" marker followed by text that is not another marker is removed |
| LevelParser.ExtractFails | pkg/cache/util.go:16-32 | parsing fails exactly when no one-to-three-digit prefix of the stripped text is a level |
| LevelParser.ExtractReconstructs | pkg/cache/util.go:19-27 | on success 1 to 3 digits are consumed, their value is the level, and for newline-free input the digits followed by the nickname are the stripped text |
| LevelParser.ExtractLongestFirst | pkg/cache/util.go:21-29 | on success no longer digit prefix would have been a level |
| LevelParser.ExtractOfCanonical | pkg/cache/util.go:9-33 | "Lv <level> <name>" parses back to that level and name |
| LevelParser.ExampleLevel200 | pkg/cache/util.go:9-33 | "Lv200홍길동" parses to (200, "홍길동") |
| LevelParser.ExampleSpacedLevel | pkg/cache/util.go:13-14 | "Lv. 99 바람" parses to (99, "바람") |
| LevelParser.ExampleLevelTooLow | pkg/cache/util.go:31-32 | "Lv7일반유저" fails and comes back untouched with level 0 |
| LevelParser.ExampleTwoMarkers | pkg/cache/util.go:10-12 | "Lv" and then "LV" are both trimmed from "LvLV150a" |
| LevelParser.ExampleMixedCaseMarker | pkg/cache/util.go:10-12 | a mixed-case "lV" marker is never trimmed, so "lV150a" fails |
| LevelParser.ExampleSurplusDigit | pkg/cache/util.go:21-27 | of "999" only "99" is a level, and the surplus digit goes back to the nickname |
| Directory.LastNamed | pkg/cache/discord.go:49-51 | the position of the last fetched role with a name, and no later one has it |
| Directory.RoleMapOfLookup | pkg/cache/discord.go:49-51 | a name is in the refreshed map iff some fetched role has it, and it maps to the ID of the last such role |
| Directory.IndexByLast | pkg/cache/discord.go:74-78 | a key is in the member map iff some admitted member has it, and it holds the last such member |
| Directory.IndexBySound | pkg/cache/discord.go:62-78 | every stored member was fetched, is admitted and sits under its own parsed nickname |
| Directory.MemberMapStep | pkg/cache/discord.go:62-79 | one more fetched member overwrites its key exactly when it is admitted |
| Directory.NotListed | pkg/cache/discord.go:63-72 | with unique role IDs, the name an ID resolves to decides whether the ID is a job role |
| Directory.DirectoryCache.RefreshRoles | pkg/cache/discord.go:42-53 | a failed fetch keeps the published role map; a successful one publishes the map of the fetched roles |
| Directory.DirectoryCache.GetRoleID | pkg/cache/discord.go:83-90 | the ID of a known name, "" for an unknown one |
| Directory.DirectoryCache.GetRoleNameByID | pkg/cache/discord.go:92-101 | a name mapped to the ID, or "" when no name is |
| Directory.DirectoryCache.IsGamer | pkg/cache/discord.go:62-72 | true only for a member holding a job role; with unique role IDs, exactly for those members |
| Directory.DirectoryCache.RefreshMembers | pkg/cache/discord.go:55-81 | a failed fetch keeps the member map; a successful one stores only fetched, eligible members under their parsed nicknames, and exactly MemberMapOf when role IDs are unique |
| Directory.DirectoryCache.AdmitMember | pkg/cache/discord.go:63-79 | one loop turn keeps the map sound and, with unique role IDs, equal to the map of the prefix seen |
| Directory.DirectoryCache.ListAllRoles | pkg/cache/discord.go:103-108 | the published role map itself |
| Directory.DirectoryCache.GetGuildMember | pkg/cache/discord.go:110-119 | a cached member with that user ID, or none when no cached member has it |
| Directory.DirectoryCache.ListAllMembers | pkg/cache/discord.go:121-130 | exactly the map's members, each key once, in some order of the keys |
| Directory.DirectoryCache.ListAllMembersNicknameMap | pkg/cache/discord.go:132-137 | the published member map itself |
| Directory.SnapshotAcrossRefresh | pkg/cache/discord.go:42-53 | a role map returned before a refresh is the old map, unchanged; the refresh publishes a new one or keeps the old; the member map is untouched |
| GeneralizeName.DecideCases | pkg/handler/generalizename.go:15-50 | a member fails iff its nickname starts with "lv" in any case and does not parse; it is renamed iff it parses and its canonical form differs, and then to that form |
| GeneralizeName.RenameIsStable | pkg/handler/generalizename.go:24-29 | a renamed nickname parses to the same level and name, and is then skipped: normalising is idempotent |
| GeneralizeName.CanonicalIsSkipped | pkg/handler/generalizename.go:24-29 | a nickname already in canonical form is neither renamed nor failed |
| GeneralizeName.MixedCaseFails | pkg/handler/generalizename.go:15-21 | an "lV…" nickname passes the prefix check but fails to parse, with the source's error text |
| GeneralizeName.PassRenamesOnlyNeeded | pkg/handler/generalizename.go:11-53 | every rename issued is the one the decision asks for, for a member of the pass |
| GeneralizeName.PassCompletes | pkg/handler/generalizename.go:11-53 | the pass ends without error exactly when no member fails to parse and no needed rename is refused |
| GeneralizeName.PassRenamesAll | pkg/handler/generalizename.go:11-53 | a pass that completes renames every member that needs it |
| GeneralizeName.CachedMembersParse | pkg/handler/generalizename.go:16-21 | a member the cache admitted never makes the pass fail |
| GeneralizeName.PassStep | pkg/handler/generalizename.go:25-50 | one member skips, stops the pass with its error, stops it on a refused rename, or adds its rename |
| GeneralizeName.Visit | pkg/handler/generalizename.go:14-51 | one loop turn agrees with the pass over the remaining members |
| GeneralizeName.RenameAll | pkg/handler/generalizename.go:14-51 | the loop issues exactly the renames of the pass and stops with its error |
| GeneralizeName.GeneralizeUsername | pkg/handler/generalizename.go:11-53 | the pass runs over exactly the cached members |
| RoleInfo.MentionInjective | pkg/handler/roleinfo.go:23 | different users get different mentions |
| RoleInfo.MentionsLookup | pkg/handler/roleinfo.go:23-30 | a mention is filed under a role iff a member with that ID holds the role |
| RoleInfo.GroupMentions | pkg/handler/roleinfo.go:22-31 | the grouping has a key for every held role ID, holding one mention per holding, in member order |
| RoleInfo.FileMember | pkg/handler/roleinfo.go:28-30 | filing one member's role IDs extends the grouping exactly |
| RoleInfo.HitsDistinct | pkg/handler/roleinfo.go:36-43 | a role visited once is counted once when it is printed, and not at all otherwise |
| RoleInfo.TotalCountsHoldings | pkg/handler/roleinfo.go:44-55 | the printed total is the number of (member, printed role) pairs: a member with two printed roles counts twice |
| RoleInfo.Visit | pkg/handler/roleinfo.go:36-48 | the loop stops with an error iff some held role is unknown; otherwise it prints the listed roles' sections and counts their mentions, for some order of the role IDs |
| RoleInfo.UpdateMessageWithRoles | pkg/handler/roleinfo.go:11-63 | a fetch failure or an unknown role gives its error and no message; otherwise the roster is header, sections and total, and an edit failure is reported |
| Raid.AttendsOf | pkg/handler/raid.go:29 | exactly the schedule's attend records |
| Raid.RolesOfLookup | pkg/handler/raid.go:32-39 | a heading exists iff some attend has that sub-role |
| Raid.EveryAttendOnce | pkg/handler/raid.go:32-59 | under distinct headings covering the sub-roles, every attend's bullet appears exactly once |
| Raid.BulletsBelong | pkg/handler/raid.go:32-39 | every bullet under a heading is the mention of an attend with that sub-role |
| Raid.RosterHeadings | pkg/handler/raid.go:41-59 | the headings are the schedule's sub-roles in ascending order, each once, and every attend appears once under them |
| Raid.EditsAppend | pkg/handler/raid.go:26-79 | the edits of two runs of schedules are the edits of each, in order |
| Raid.FailureIsLocal | pkg/handler/raid.go:63-78 | a schedule whose message cannot be read or edited is skipped without affecting the others |
| Raid.EditsAreChanges | pkg/handler/raid.go:63-78 | every edit carries a schedule's rebuilt roster to a message that held something else |
| Raid.RemoveMapExact | pkg/handler/raid.go:331-349 | the remove menu offers exactly the schedules starting strictly within three days of now |
| Raid.EditListExact | pkg/handler/raid.go:365-378 | the edit menu's options are exactly the schedules starting strictly within three days of now |
| Raid.AttendListExact | pkg/handler/raid.go:587-621 | the attend menu offers exactly the schedules the member is not on whose sign-up ends after now |
| Raid.FindSchedule | pkg/handler/raid.go:676-679 | a schedule whose ID prints as the chosen value, or none when no schedule's does |
| Raid.OptionFindsSchedule | pkg/handler/raid.go:676-679 | choosing an offered option finds the schedule it was offered for |
| Raid.RaidBoard.RaidSubscriptionRefresh | pkg/handler/raid.go:21-82 | the edits made are those of the rebuilt rosters (see EditsAreChanges, FailureIsLocal) |
| Raid.RaidBoard.RemoveMenu | pkg/handler/raid.go:331-349 | the label map of the near schedules |
| Raid.RaidBoard.EditMenu | pkg/handler/raid.go:350-389 | the near schedules' options, or the "nothing to edit" notice when there are none |
| Raid.RaidBoard.AttendMenu | pkg/handler/raid.go:576-643 | nothing without member info; otherwise the open schedules not attended, or the "nothing to attend" notice |
| Raid.RaidBoard.ExcludedIds | pkg/handler/raid.go:587-597 | a schedule ID is excluded iff the member has an attend record on it |
| Raid.RaidBoard.SelectSchedule | pkg/handler/raid.go:667-722 | several values, an unknown schedule or missing member info do nothing; a second sign-up is refused without a record; otherwise one record is added and confirmed |
| Raid.RaidBoard.FindAttend | pkg/handler/raid.go:692-697 | whether the member already has a record on the schedule |
| Raid.BuildRoster | pkg/handler/raid.go:26-60 | the roster is the header, one block per sub-role in sorted order, then the footer |
| Raid.AppendBlocks | pkg/handler/raid.go:55-59 | the blocks are appended in the order of the keys |
| Raid.GroupByRole | pkg/handler/raid.go:32-39 | one key per sub-role, holding its bullets in table order |
| Raid.SortedKeys | pkg/handler/raid.go:41-46 | the map's keys, ascending, each once |
| RaidOrder.LessTransitive | pkg/handler/raid.go:46 | Go's string order is transitive |
| RaidOrder.LessTotal | pkg/handler/raid.go:46 | any two different strings are ordered one way |
| RaidOrder.SortedOf | pkg/handler/raid.go:41-46 | the elements of a set, in ascending order |
| RaidOrder.AscendingUnique | pkg/handler/raid.go:41-46 | one ascending sequence lists a given set, so the headings are determined by the sub-roles |
| RaidOrder.Sort | pkg/handler/raid.go:46 | the array ends in order and is a permutation of what it held |
| RaidOrder.Insert | pkg/handler/raid.go:46 | one insertion step extends the sorted prefix and permutes the array |
| PollArgs.IndexOf | pkg/handler/poller.go:909 | the first position of a character, or -1 when it is absent |
| PollArgs.RunLength | pkg/handler/poller.go:909 | the `\S+` run at the start of the input is maximal |
| PollArgs.ParseArgumentsBare | pkg/handler/poller.go:907-921 | without quotes every token is a non-empty run of non-whitespace characters |
| PollArgs.ParsePlain | pkg/handler/poller.go:907-921 | a bare token ended by whitespace or the end is read back whole |
| PollArgs.ParseQuoted | pkg/handler/poller.go:907-921 | a quoted segment becomes one token with the quotes removed |
| PollArgs.ParseQuotedAll | pkg/handler/poller.go:907-921 | quote-free tokens, spaces and empty ones included, survive quoting and parsing |
| PollArgs.ParseSpacedAll | pkg/handler/poller.go:907-921 | whitespace-separated bare tokens are read back in order |
| PollArgs.ParseCreateShape | pkg/handler/poller.go:907-921 | bare arguments around one quoted title parse to exactly those arguments |
| PollArgs.ExampleChoices | pkg/handler/poller.go:907-921 | "네,아니오,모르겠음 1" parses to the two arguments of the create example |
| PollArgs.Atoi | pkg/handler/poller.go:123 | a number read is an int64, and only a signed digit string is read |
| PollArgs.AtoiItoa | pkg/handler/poller.go:123 | formatting an int64 and reading it back gives the number |
| PollArgs.AtoiRejects | pkg/handler/poller.go:123 | text with a non-digit past the sign is refused |
| PollModel.AsUint | pkg/handler/poller.go:131 | `uint(n)` keeps a non-negative n and wraps a negative one above the int64 range |
| PollModel.FindById | pkg/handler/poller.go:143 | the poll with that ID, or none when no poll has it |
| PollModel.FindByTitle | pkg/handler/poller.go:216 | the first poll with that title, or none when no poll has it |
| PollModel.AcceptedResponse | pkg/handler/poller.go:110-178 | an accepted response is the user's, for a started poll not past its deadline, with no earlier result, and stores one of the poll's choices |
| PollModel.DuplicateCheckedFirst | pkg/handler/poller.go:129-139 | a user who already answered is told so before the poll is looked up |
| PollModel.NoDoubleVote | pkg/handler/poller.go:129-177 | once a response is stored, every later one for the same poll number is refused |
| PollModel.ExpiredRefusesResponses | pkg/handler/poller.go:155-158 | a poll past its deadline accepts no response |
| PollModel.ZeroPollNumberMatchesAnyResult | pkg/handler/poller.go:131 | poll number 0 matches any result of the user |
| PollModel.DecideResponse | pkg/handler/poller.go:116-172 | the usage reply iff there are not two arguments; the bad-number reply iff the first is not a number; an accepted response is the user's, for the poll number given |
| PollModel.ValidResponseAccepted | pkg/handler/poller.go:116-172 | a two-argument response from a user with no result for the poll, to a started poll not past its deadline, with a choice number in range, is accepted and stores the text of that choice |
| PollModel.DecideCreate | pkg/handler/poller.go:202-240 | the usage reply iff there are not five arguments; "title taken" iff a poll has the third argument as title; "bad duration" iff Atoi rejects the fifth; otherwise a poll with that title and duration, the next key, no description, not started or closed, named iff the first argument is "기명" |
| PollModel.CreateSplitsLists | pkg/handler/poller.go:232-233 | the stored targets and choices join back, with commas, to their arguments |
| PollModel.CreateKeepsTitlesUnique | pkg/handler/poller.go:216-240 | creating keeps titles unique |
| PollModel.CreateAcceptsNonPositiveDuration | pkg/handler/poller.go:222-226 | a duration of 0 or less is accepted, and the poll has expired one second after it starts |
| PollModel.DecideCreateInRange | pkg/handler/poller.go:502 | the create the help text describes: accepted iff the code accepts and the duration is 1 to 168 hours, the bad-duration reply otherwise |
| PollModel.InRangePollOpensForAnHour | pkg/handler/poller.go:502 | a poll created within that range takes responses for its first hour and has ended after a week |
| PollModel.LookupTitle | pkg/handler/poller.go:246-255 | proceeds iff there is exactly one argument and some poll has it as title, to the first such poll; the usage reply iff the argument count is not one; "not found" otherwise |
| PollModel.DecideStart | pkg/handler/poller.go:242-260 | the lookup's refusal is passed on; for the poll found, "already started" iff it has started, and it proceeds iff it has not |
| PollModel.SplitFirstLine | pkg/handler/poller.go:297 | the command line and the rest after the first newline, or none without a newline |
| PollModel.DecideDescribe | pkg/handler/poller.go:296-320 | the usage reply without a second line; otherwise the lookup's refusal, or for the poll found "already started" iff it has started, and it proceeds iff it has not |
| PollModel.DecideResend | pkg/handler/poller.go:328-351 | the lookup's refusal is passed on; for the poll found, "not started" iff it has not started, "already ended" iff it is past its deadline, and it proceeds iff it is started and not past its deadline |
| PollModel.DecideResult | pkg/handler/poller.go:423-446 | the lookup's refusal is passed on; for the poll found, "not started" iff it has not started, "not yet ended" iff it is open and before its deadline, and it proceeds iff it is started and closed or at its deadline |
| PollModel.ResultAndResendMeetAtDeadline | pkg/handler/poller.go:438-446 | an open poll both resendable and reportable is exactly at its deadline |
| PollModel.PollsWith | pkg/handler/poller.go:364-377 | each list holds only polls of its status |
| PollModel.StatusOf | pkg/handler/poller.go:364-377 | not started iff there is no start time; ended iff past the deadline or started and closed; active iff started, open and not past the deadline |
| PollModel.ListPartitions | pkg/handler/poller.go:364-377 | the active, not-started and ended lists together hold every poll exactly once |
| PollModel.ClassifyPolls | pkg/handler/poller.go:364-377 | the loop builds exactly the three lists |
| PollModel.SweepAsWrittenClosesTwice | pkg/handler/poller.go:656-731 | the sweep as written closes an expired poll that everyone answered twice |
| PollModel.SweepAsWritten | pkg/handler/poller.go:656-730 | as written: a timeout closing iff the poll is expired and open, a quorum closing iff it is started, open and fully answered, the timeout one first |
| PollModel.SweepDecision | pkg/handler/poller.go:656-731 | a started open poll is closed iff it timed out or everyone answered, by timeout iff it timed out |
| PollModel.SweepDecisionIsFirstClosing | pkg/handler/poller.go:666-730 | the corrected decision is the first closing of the code as written, and the code closes twice exactly for expired, open, fully answered polls |
| PollModel.VotedIds | pkg/handler/poller.go:541-543 | exactly the users with a result for the poll |
| PollModel.ResultsOf | pkg/handler/poller.go:450 | every result of that poll, as many times as the table holds it, and no other result |
| PollTargets.ResolveKeys | pkg/handler/poller.go:607-647 | resolved targets are guild members |
| PollTargets.ResolveMembership | pkg/handler/poller.go:607-647 | a member is a target iff some target read before any `전체` selects it |
| PollTargets.ResolveFails | pkg/handler/poller.go:607-647 | resolution fails iff some target read is an unknown role or an absent `u_` nickname |
| PollTargets.AddMembers | pkg/handler/poller.go:612-617 | the inner loop adds exactly the wanted members and keeps the rest |
| PollTargets.FilterPollTarget | pkg/handler/poller.go:607-647 | the error of the resolution, or the members it resolves to, as cached |
| PollTargets.RemoveVoted | pkg/handler/poller.go:541-548 | exactly the targets without a result remain, unchanged |
| PollTargets.ListedTargets | pkg/handler/poller.go:556-572 | no listed target is a `u_` target |
| PollTargets.RedactTargets | pkg/handler/poller.go:556-572 | the named targets in order, then one count line when there are `u_` targets |
| PollTargets.RedactionAccounts | pkg/handler/poller.go:556-572 | every target is listed or counted, never both |
| PollTargets.RedactionHidesUsers | pkg/handler/poller.go:556-572 | the audience line never names a `u_` target |
| PollTally.CountVotes | pkg/handler/poller.go:738-741 | one count per choice taken, equal to its number of results |
| PollTally.CountsAddUp | pkg/handler/poller.go:738-763 | when every result is one of the choices, the counts add up to the participants |
| PollTally.GroupSizes | pkg/handler/poller.go:794-812 | the grouping fails iff a voter in the guild has no member info; each group has one entry per vote by a guild member |
| PollTally.MembersByValue | pkg/handler/poller.go:794-812 | every member grouped under a choice voted for it, is still in the guild, and has that member information |
| PollTally.GetPollMemberMap | pkg/handler/poller.go:794-812 | the loop builds exactly the grouping |
| PollTally.CountRoles | pkg/handler/poller.go:769-772 | one count per main role, equal to its number of voters |
| PollTally.VoterLabels | pkg/handler/poller.go:781-784 | "nickname/sub-role" for every voter, in order |
| PollTally.PrintPollResult | pkg/handler/poller.go:736-792 | an error iff the grouping fails; otherwise title, participants and one line per choice in order, with voter labels for a named poll and role counts for an anonymous one |
| PollSplit.SplitProperties | pkg/handler/poller.go:827-901 | under either cut rule: every message is the rendering of the lines it carries, with balanced fences; a block left open is closed at the end of a message and reopened at the start of the next; the messages carry every line but a trailing run of empty ones, in order; a message is cut only when the next line overflows under the rule; with lines of at most 1992 bytes no message passes the rule's limit |
| PollSplit.RunBound | pkg/handler/poller.go:861-898 | with lines of at most 1992 bytes every message stays within the rule's limit: 2000 bytes for the intended cut, 2004 for the code's |
| PollSplit.AsWrittenOverflow | pkg/handler/poller.go:865-872 | as the code cuts, a line opening a code block can fill a message to 2000 bytes before its closing fence, which then goes out at 2004 |
| PollSplit.SendChunk | pkg/handler/poller.go:834-859 | an empty buffer sends nothing; otherwise it is sent with a closing fence inside a block, and the next buffer starts with the reopening fence |
| PollSplit.FencesJoin | pkg/handler/poller.go:886-890 | fences counted line by line add up across the newline joining the lines |
| PollSplit.FlushRecord | pkg/handler/poller.go:834-859 | a message sent is the rendering of the buffered lines with balanced fences, closes a block exactly when its buffer leaves one open, and reopens one exactly when the previous message closed one |
| PollSplit.FlushFlatten | pkg/handler/poller.go:834-859 | sending the buffer loses no line, and leaves an empty buffer or no buffered line |
| PollSplit.CutBound | pkg/handler/poller.go:865-877 | after the cut, the line, its newline and the fence the rule reserves fit in 2000 bytes, and the messages sent stay within the rule's limit |
| PollSplit.WriteKeeps | pkg/handler/poller.go:881-890 | after writing, the buffer holds the reopening fence and the buffered lines, and its fence parity is the block state |
| PollSplit.WriteBytes | pkg/handler/poller.go:881-884 | writing adds a newline and the line, or only the line to an empty buffer |
| PollSplit.RunFlatten | pkg/handler/poller.go:861-898 | after n lines, those lines are, in order, in the messages sent and then the buffer |
| PollSplit.RunRecord | pkg/handler/poller.go:861-898 | after every prefix of the lines, the messages sent are rendered, balanced and linked by their fences |
| PollSplit.RunCuts | pkg/handler/poller.go:861-898 | every message after the first was cut because its first line overflowed the one before under the rule |
| PollSplit.GlueText | pkg/handler/poller.go:881-884 | the buffer text: after a reopening fence every line follows a newline; in an empty buffer the leading empty lines leave no trace and the rest are joined by newlines |
| PollSplit.MessageText | pkg/handler/poller.go:834-884 | a message that reopens a block shows every line it carries; one that does not shows all but the empty lines it starts with |
| PollSplit.BlankLineDropped | pkg/handler/poller.go:881-884 | an empty first line followed by x goes out as the message x alone |
| PollSplit.IntendedWithinLimit | pkg/handler/poller.go:865-872 | with the intended cut and lines of at most 1992 bytes, every message is within 2000 bytes |
| PollSplit.CutIfFull | pkg/handler/poller.go:865-877 | as the code does: the buffer is sent first exactly when the line, a newline and, while a block is open before the line, a closing fence would pass 2000 bytes |
| PollSplit.WriteLine | pkg/handler/poller.go:881-890 | the line is appended and each fence in it toggles the block state |
| PollSplit.TakeLine | pkg/handler/poller.go:861-898 | one loop turn is one step of the splitter under the code's cut rule |
| PollSplit.SendLines | pkg/handler/poller.go:861-898 | the loop sends exactly the messages of the splitter under the code's cut rule |
| PollSplit.SendSplitMessage | pkg/handler/poller.go:827-901 | the text is cut at newlines; every message renders its lines with balanced fences, closing and reopening an open block; every line but a trailing run of empty ones is sent, in order; a message is cut only when the code's overflow test fires; with lines of at most 1992 bytes no message passes 2004 bytes |
| PollSplit.SendMessage | pkg/handler/poller.go:814-825 | nothing goes out when the channel cannot be opened; otherwise a text within 2000 bytes goes out whole, and a longer one goes out as exactly the splitter's messages under the code's rule, each with balanced code fences |
| PollEngine.IdentityKeepsConsistent | pkg/handler/poller.go:242-327 | starting, describing and closing keep the tables' invariant |
| PollEngine.CreateKeepsConsistent | pkg/handler/poller.go:202-240 | creating keeps the invariant: new key, new title |
| PollEngine.ResponseKeepsConsistent | pkg/handler/poller.go:110-178 | an accepted response keeps every result pointing at a poll and a choice, one per user and poll |
| PollEngine.ToNotify | pkg/handler/poller.go:537-548 | the members to notify are guild members |
| PollEngine.ToNotifyKeys | pkg/handler/poller.go:537-548 | target resolution followed by the removal of voters leaves exactly the pending members |
| PollEngine.InvitationsReachOnlyPending | pkg/handler/poller.go:574-599 | every invitation goes to a pending member, about this poll, and its audience names no `u_` target |
| PollEngine.InvitationsNicknames | pkg/handler/poller.go:574-599 | one invitation per nickname, in order |
| PollEngine.InviteAll | pkg/handler/poller.go:574-599 | every pending member is invited once |
| PollEngine.QuorumIff | pkg/handler/poller.go:686-713 | the quorum holds iff the targets resolve and every resolved guild member has a result for the poll |
| PollEngine.Swept | pkg/handler/poller.go:656-730 | only the closed flag changes, and the poll ends closed iff it was closed, expired, or started and answered by all its targets |
| PollEngine.CommandOf | pkg/handler/poller.go:202-520 | the first matching command prefix wins, with its arguments after it; anything else gets the help text |
| PollEngine.Poller.FindResult | pkg/handler/poller.go:129-139 | whether the user has a result for the poll number |
| PollEngine.Poller.Respond | pkg/handler/poller.go:110-178 | the reply is the decision, and only an accepted response is stored |
| PollEngine.Poller.HandleDirect | pkg/handler/poller.go:92-179 | the bot's own and guild messages are ignored; a user outside the guild is told so; a response is decided, stored if accepted, and answered |
| PollEngine.Poller.SendPolls | pkg/handler/poller.go:525-605 | the messages sent are the invitations to the pending members and the summary |
| PollEngine.Poller.Create | pkg/handler/poller.go:202-240 | a created poll is stored under the next key and announced; a refusal stores nothing |
| PollEngine.Poller.Start | pkg/handler/poller.go:242-270 | only the start time of the poll is set, and the invitations go out |
| PollEngine.Poller.Describe | pkg/handler/poller.go:296-327 | only the description of the poll changes |
| PollEngine.Poller.Resend | pkg/handler/poller.go:328-355 | the invitations go out again, then the notice |
| PollEngine.Poller.List | pkg/handler/poller.go:356-422 | the listing holds the three status lists |
| PollEngine.Poller.ShowResult | pkg/handler/poller.go:423-458 | the report of a reportable poll, with its title and number of results, unless the grouping fails |
| PollEngine.Poller.ShowInfo | pkg/handler/poller.go:459-491 | the stored poll, looked up by title |
| PollEngine.Poller.HandleGuild | pkg/handler/poller.go:181-523 | messages outside the poll channel change nothing; only create adds a poll; the end command only replies that it is unsupported |
| PollEngine.Poller.Close | pkg/handler/poller.go:673-682 | only the poll's closed flag is set, and the report and notice go out |
| PollEngine.Poller.SweepPoll | pkg/handler/poller.go:656-730 | as written: an error exactly when the poll is started and open and either its timeout report cannot be printed or its quorum check fails (`SweepFails`); without an error the poll becomes what the intended decision makes of it, and the outbox gains a report and a notice for each closing the code makes, two for an expired poll everyone answered; after an error the poll is as the timeout step left it |
| PollEngine.Poller.SweepOpen | pkg/handler/poller.go:665-729 | the same, for a started, open poll: an error iff `SweepFails`, and the closings counted by expiry and quorum |
| PollEngine.Poller.SweepExpired | pkg/handler/poller.go:665-729 | an expired poll: an error iff its report cannot be printed or its quorum check fails; it ends closed unless the timeout report failed, and a second report goes out under quorum |
| PollEngine.Poller.CloseExpired | pkg/handler/poller.go:666-684 | an error iff a guild member who answered has no member info; otherwise the poll is closed and its report and notice appended; on the error nothing changes |
| PollEngine.Poller.CloseIfAllVoted | pkg/handler/poller.go:686-729 | an error iff the targets do not resolve or, all having answered, the report cannot be printed; when all resolved targets answered, the poll is closed and its report and notice appended, otherwise nothing changes; an error changes no poll |
| PollEngine.FirstFailure | pkg/handler/poller.go:656-730 | the position of the first poll whose turn fails: every earlier turn succeeds, and the one there fails |
| PollEngine.SweptUntil | pkg/handler/poller.go:649-734 | a sweep that stops at its first failing turn leaves the polls before it swept, that poll after its timeout step and the later ones untouched; it fails iff some turn fails |
| PollEngine.Poller.Sweep | pkg/handler/poller.go:649-734 | an error iff some poll's turn fails; the polls before the first failing one are swept, that poll is left as its timeout step made it, and every poll after it is untouched; with no error all are swept |

## Left out

- Discord calls (sending, editing, reading messages, renaming, creating DM channels) are not modelled as calls: their results are parameters (`editErr`, `editFails`, `messages`, `failures`) and what they send is appended to an outbox.
- SQLite through GORM is in-memory sequences; database errors, soft deletes and `StringSlice` JSON encoding are left out. GORM's lookup of a schedule by a string primary key is modelled as an exact match of its decimal ID.
- Time formatting (`In(loc).Format`) is a `Clock` parameter; `AddDate(0, 0, ±3)` is ±259200 seconds, ignoring daylight-saving changes.
- `model.MemberInfo` and `GetMemberInfoFromMember` are not part of this model: member information is an `Option` or a map given as input, a missing key standing for the lookup error.
- Concurrency is left out: the cache's tickers, goroutine and mutexes, and the main loop. Refreshes and lookups are sequential.
- activity.go, counsel.go, counsel2.go, moduser.go, interaction.go and env.go are not part of this model; neither are the raid UI branches, the help text of the poll commands (its duration range is the intended one of a Finding) and `RaidInfoRefresh`, which does nothing.
- The member-count hours computation in roleinfo.go (line 24) is unused by the code and left out.
- The label map built at raid.go:356-362 is never read and is left out.
- RoleInfo uses its own ten-name role list (roleinfo.go:17), which is a different list from the cache's `roleList` (discord.go:17); both are modelled as written.
- The nickname parser follows Go's `.` in not matching a newline: the name ends at the first newline (`UpToNewline`); the reconstruction property is stated for newline-free input.
- Go's 64-bit overflow of `Duration * time.Hour` is not modelled: durations are unbounded integers.
- PollEngine.Poller.Respond: it does not check `Closed`, as the code does not; a closed poll still accepts responses until its deadline.
- PollEngine.Poller.Sweep: the outbox is stated only to grow by appending, not message by message; SweepPoll and Close state what is sent for one poll.
- PollEngine.Poller.SweepPoll: the messages sent for one poll are stated by their number, a report and a notice per closing, not by their text.
- PollEngine.Poller.HandleGuild: it states the channel filter, that only create adds polls, and the end and help replies; the other commands' effects are stated by Create, Start, Describe, Resend, List, ShowResult and ShowInfo.
- PollEngine.Poller.ShowResult: it states the title and participant count of the report; the lines are stated by PollTally.PrintPollResult.
- Directory.DirectoryCache.RefreshMembers: the map is equal to `MemberMapOf` only when role IDs are unique; otherwise only its soundness is stated, because Go's map order picks the name an ID resolves to.
- Directory.DirectoryCache.GetRoleNameByID: when two names share an ID it returns one of them, not a determined one, because the code walks the map in Go's unspecified order.
- Raid.RaidBoard.SelectSchedule: an empty list of selected values makes the code panic; the model requires a non-empty list.
- PollSplit.SplitProperties: the byte bound is stated for lines of at most 1992 bytes; a longer line is never split, so it can go over the limit.
- PollTally.PrintPollResult: the report is stated as its parts (title, participant count, one line per choice); its text layout is not modelled, including the missing newline before `"  * "` on a named poll's voter line (lines 785-786) and the possibly empty `"%s\n"` line after each anonymous choice (lines 778-779).
- PollSplit.SendSplitMessage: a failed send ends `sendSplitMessage` early in the code (lines 845-848); the model sends every message.

## Findings

| source | as written | input that shows it | evidently intended | confidence | as-written member | corrected member |
|---|---|---|---|---|---|---|
| pkg/handler/poller.go:684 | after closing a timed-out poll the loop has no `continue`, so the same poll goes on to the quorum check and, when everyone has answered, is closed and its result published a second time; when its targets then fail to resolve, the error ends the sweep (lines 689-692) and the polls after it go unswept | a started, open poll with duration 1, started at 0, swept at 3601, all of whose targets answered | a poll is closed once per sweep: by timeout, or else by quorum | not executed | PollModel.SweepAsWrittenClosesTwice | PollModel.SweepDecisionIsFirstClosing |
| pkg/handler/poller.go:865-872 | room for the closing fence is reserved from the code-block state before the line, so a line that opens a block is admitted without it | lines "xxxxxxxx" (8 bytes), 1988 "a" followed by "```" (1991 bytes), then "b": the first message is 2004 bytes | every message is within 2000 bytes, the fence included | not executed | PollSplit.AsWrittenOverflow | PollSplit.IntendedWithinLimit |
| pkg/handler/poller.go:222-226 | the duration is any number Atoi accepts, while the help text (line 502) allows 1 to 168 hours | the arguments `기명 전체 점검 네,아니오 0` with no poll titled 점검: the poll is created and has expired one second after it starts | a duration outside 1 to 168 hours is refused | not executed | PollModel.CreateAcceptsNonPositiveDuration | PollModel.DecideCreateInRange |
