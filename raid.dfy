/**
  The raid sign-up board of pkg/handler/raid.go: the roster message kept for
  every raid schedule, and the schedule lists and sign-up check of the raid
  menu.

  The `raid_schedules` and `raid_attends` tables are the fields of a
  `RaidBoard`.  Discord is an input: the current text of each roster message
  (a missing message ID is a failed read), the message IDs whose edit fails,
  and the member's guild record (`None` when the member is not cached or the
  record lookup fails).  Times are seconds; the renderings of an instant in
  the bot's time zone are a `Clock`.
*/
module Raid {
  import opened Text
  import opened Directory
  import opened RaidOrder

  datatype Schedule = Schedule(id: nat, raidName: string, tryCount: int, subscriptionEnd: int, start: int,
                               messageId: string)

  datatype Attend = Attend(info: MemberInfo, scheduleId: nat, canceled: bool)

  /** The renderings "01월 02일", "15:04" and "2006-01-02 15:04" of an instant. */
  datatype Clock = Clock(day: int -> string, time: int -> string, stamp: int -> string)

  /** What a menu handler answers: nothing, a notice, or a selection of (label, value) options. */
  datatype Reply = Silent | Notice(content: string) | Menu(options: seq<(string, string)>)

  // ---------------------------------------------------------------------------
  // The roster message (lines 21-82)

  /** fmt.Sprintf("* %s", a.Mention) */
  function Bullet(a: Attend): string
  {
    "* " + a.info.mention
  }

  /** `memberListByRole[role]`: the bullets of the attends with that sub-role, in table order. */
  function Bullets(attends: seq<Attend>, role: string): seq<string>
  {
    if attends == [] then []
    else
      var a := attends[|attends| - 1];
      Bullets(attends[..|attends| - 1], role) + (if a.info.subRoleName == role then [Bullet(a)] else [])
  }

  /** The sub-roles present among the attends: the keys of `memberListByRole`. */
  function RolesOf(attends: seq<Attend>): set<string>
  {
    if attends == [] then {}
    else RolesOf(attends[..|attends| - 1]) + {attends[|attends| - 1].info.subRoleName}
  }

  /** `rdb.Where("raid_schedule_id = ?", id)`: every attend of the schedule, cancelled or not. */
  function AttendsOf(attends: seq<Attend>, id: nat): (r: seq<Attend>)
    ensures forall a :: a in r <==> a in attends && a.scheduleId == id
  {
    if attends == [] then []
    else
      var a := attends[|attends| - 1];
      AttendsOf(attends[..|attends| - 1], id) + (if a.scheduleId == id then [a] else [])
  }

  function Header(sc: Schedule, clock: Clock): string
  {
    "**[" + sc.raidName + "] " + clock.day(sc.start) + " - " + Itoa(sc.tryCount) + "트라이 (" +
      clock.time(sc.start) + " 출발) 신청인원**\n\n"
  }

  /** The strikethrough rule closing every roster: two tildes, forty spaces, two tildes. */
  const Footer: string := "~~                                        ~~"

  /** One heading and its bullets. */
  function Block(role: string, bullets: seq<string>): string
  {
    "**" + role + "**\n" + Join(bullets, "\n") + "\n\n"
  }

  /** The blocks for the roles of `keys`, in that order. */
  function Blocks(attends: seq<Attend>, keys: seq<string>): string
  {
    if keys == [] then ""
    else Blocks(attends, keys[..|keys| - 1]) + Block(keys[|keys| - 1], Bullets(attends, keys[|keys| - 1]))
  }

  /** The roster of a schedule: header, one block per sub-role in sorted order, footer. */
  ghost function Roster(sc: Schedule, attends: seq<Attend>, clock: Clock): string
  {
    var mine := AttendsOf(attends, sc.id);
    Header(sc, clock) + Blocks(mine, SortedOf(RolesOf(mine))) + Footer
  }

  lemma {:induction false} RolesOfLookup(attends: seq<Attend>, role: string)
    ensures role in RolesOf(attends) <==> exists a :: a in attends && a.info.subRoleName == role
  {
    if attends != [] {
      var init := attends[..|attends| - 1];
      RolesOfLookup(init, role);
      assert attends == init + [attends[|attends| - 1]];
    }
  }

  lemma {:induction false} BulletsOutside(attends: seq<Attend>, role: string)
    requires role !in RolesOf(attends)
    ensures Bullets(attends, role) == []
  {
    if attends != [] {
      BulletsOutside(attends[..|attends| - 1], role);
    }
  }

  /** The bullets of every attend, in table order. */
  function AllBullets(attends: seq<Attend>): (r: seq<string>)
    ensures |r| == |attends|
  {
    if attends == [] then [] else AllBullets(attends[..|attends| - 1]) + [Bullet(attends[|attends| - 1])]
  }

  /** The bullets under the headings of `keys`, one block after the other. */
  function Grouped(attends: seq<Attend>, keys: seq<string>): seq<string>
  {
    if keys == [] then [] else Grouped(attends, keys[..|keys| - 1]) + Bullets(attends, keys[|keys| - 1])
  }

  /** How many headings of `keys` are `role`. */
  function Count(keys: seq<string>, role: string): nat
  {
    if keys == [] then 0 else Count(keys[..|keys| - 1], role) + (if keys[|keys| - 1] == role then 1 else 0)
  }

  lemma {:induction false} CountDistinct(keys: seq<string>, role: string)
    requires Distinct(keys)
    ensures Count(keys, role) == if role in keys then 1 else 0
  {
    if keys != [] {
      var init := keys[..|keys| - 1];
      CountDistinct(init, role);
      assert role in keys <==> role in init || keys[|keys| - 1] == role;
      if keys[|keys| - 1] == role {
        assert role !in init;
      }
    }
  }

  /** Repeating one bullet `n` times. */
  function Copies(x: string, n: nat): multiset<string>
  {
    if n == 0 then multiset{} else Copies(x, n - 1) + multiset{x}
  }

  lemma BulletsAppend(attends: seq<Attend>, a: Attend, role: string)
    ensures Bullets(attends + [a], role) ==
      Bullets(attends, role) + (if a.info.subRoleName == role then [Bullet(a)] else [])
  {
    assert (attends + [a])[..|attends|] == attends;
  }

  lemma {:induction false} GroupedAppend(attends: seq<Attend>, a: Attend, keys: seq<string>)
    ensures multiset(Grouped(attends + [a], keys)) ==
      multiset(Grouped(attends, keys)) + Copies(Bullet(a), Count(keys, a.info.subRoleName))
  {
    if keys != [] {
      var init := keys[..|keys| - 1];
      var r := keys[|keys| - 1];
      GroupedAppend(attends, a, init);
      BulletsAppend(attends, a, r);
      var n := Count(init, a.info.subRoleName);
      var g, b := multiset(Grouped(attends, init)), multiset(Bullets(attends, r));
      var c := Copies(Bullet(a), n);
      var extra := if a.info.subRoleName == r then multiset{Bullet(a)} else multiset{};
      assert multiset(Grouped(attends + [a], keys)) == (g + c) + (b + extra);
      assert Copies(Bullet(a), Count(keys, a.info.subRoleName)) == c + extra;
      Shuffle(g, c, b, extra);
    }
  }

  lemma Shuffle(g: multiset<string>, c: multiset<string>, b: multiset<string>, e: multiset<string>)
    ensures (g + c) + (b + e) == (g + b) + (c + e)
  {
  }

  lemma {:induction false} GroupedEmpty(keys: seq<string>)
    ensures Grouped([], keys) == []
  {
    if keys != [] {
      GroupedEmpty(keys[..|keys| - 1]);
    }
  }

  /**
    Every attend is listed exactly once: under distinct headings that cover
    every sub-role, the bullets are a permutation of the attends' bullets.
  */
  lemma {:induction false} EveryAttendOnce(attends: seq<Attend>, keys: seq<string>)
    requires Distinct(keys)
    requires forall r :: r in RolesOf(attends) ==> r in keys
    ensures multiset(Grouped(attends, keys)) == multiset(AllBullets(attends))
  {
    if attends == [] {
      GroupedEmpty(keys);
    } else {
      var init := attends[..|attends| - 1];
      var a := attends[|attends| - 1];
      assert attends == init + [a];
      EveryAttendOnce(init, keys);
      GroupedAppend(init, a, keys);
      CountDistinct(keys, a.info.subRoleName);
      assert Copies(Bullet(a), 1) == multiset{Bullet(a)};
    }
  }

  /** Every bullet under a heading belongs to an attend with that sub-role. */
  lemma {:induction false} BulletsBelong(attends: seq<Attend>, role: string)
    ensures forall x :: x in Bullets(attends, role) ==>
      exists a :: a in attends && a.info.subRoleName == role && x == Bullet(a)
  {
    if attends != [] {
      var init := attends[..|attends| - 1];
      BulletsBelong(init, role);
      assert attends == init + [attends[|attends| - 1]];
    }
  }

  /** The roster's headings are the schedule's sub-roles in ascending order, each once. */
  lemma RosterHeadings(sc: Schedule, attends: seq<Attend>)
    ensures var mine := AttendsOf(attends, sc.id);
      var keys := SortedOf(RolesOf(mine));
      Ascending(keys) && multiset(Grouped(mine, keys)) == multiset(AllBullets(mine))
  {
    var mine := AttendsOf(attends, sc.id);
    var keys := SortedOf(RolesOf(mine));
    forall i, j | 0 <= i < j < |keys|
      ensures keys[i] != keys[j]
    {
      LessIrreflexive(keys[i]);
    }
    EveryAttendOnce(mine, keys);
  }

  /** An edit the refresh makes: a message ID and its new text. */
  predicate Edited(sc: Schedule, messages: map<string, string>, editFails: set<string>, roster: string)
  {
    sc.messageId in messages && messages[sc.messageId] != roster && sc.messageId !in editFails
  }

  /** The edits a refresh makes, schedule after schedule. */
  ghost function Edits(schedules: seq<Schedule>, attends: seq<Attend>, messages: map<string, string>,
                       editFails: set<string>, clock: Clock): seq<(string, string)>
  {
    if schedules == [] then []
    else
      var sc := schedules[|schedules| - 1];
      var roster := Roster(sc, attends, clock);
      Edits(schedules[..|schedules| - 1], attends, messages, editFails, clock) +
        (if Edited(sc, messages, editFails, roster) then [(sc.messageId, roster)] else [])
  }

  lemma {:induction false} EditsAppend(s1: seq<Schedule>, s2: seq<Schedule>, attends: seq<Attend>,
                                       messages: map<string, string>, editFails: set<string>, clock: Clock)
    ensures Edits(s1 + s2, attends, messages, editFails, clock) ==
      Edits(s1, attends, messages, editFails, clock) + Edits(s2, attends, messages, editFails, clock)
  {
    if s2 != [] {
      assert (s1 + s2)[..|s1 + s2| - 1] == s1 + s2[..|s2| - 1];
      EditsAppend(s1, s2[..|s2| - 1], attends, messages, editFails, clock);
    } else {
      assert s1 + s2 == s1;
    }
  }

  /**
    A schedule whose message cannot be read, or whose edit fails, is skipped
    without affecting the others.
  */
  lemma FailureIsLocal(before: seq<Schedule>, sc: Schedule, after: seq<Schedule>, attends: seq<Attend>,
                       messages: map<string, string>, editFails: set<string>, clock: Clock)
    requires sc.messageId !in messages || sc.messageId in editFails
    ensures Edits(before + [sc] + after, attends, messages, editFails, clock) ==
      Edits(before, attends, messages, editFails, clock) + Edits(after, attends, messages, editFails, clock)
  {
    var e := Edits(before, attends, messages, editFails, clock);
    EditsAppend(before, [sc], attends, messages, editFails, clock);
    NoEdit(sc, attends, messages, editFails, clock);
    assert e + [] == e;
    EditsAppend(before + [sc], after, attends, messages, editFails, clock);
  }

  lemma NoEdit(sc: Schedule, attends: seq<Attend>, messages: map<string, string>, editFails: set<string>,
               clock: Clock)
    requires sc.messageId !in messages || sc.messageId in editFails
    ensures Edits([sc], attends, messages, editFails, clock) == []
  {
    assert [sc][..0] == [];
  }

  /** Every edit carries the rebuilt roster of a schedule whose message held something else. */
  lemma {:induction false} EditsAreChanges(schedules: seq<Schedule>, attends: seq<Attend>,
                                           messages: map<string, string>, editFails: set<string>, clock: Clock)
    ensures forall e :: e in Edits(schedules, attends, messages, editFails, clock) ==>
      exists sc :: sc in schedules && e == (sc.messageId, Roster(sc, attends, clock)) &&
        e.0 in messages && messages[e.0] != e.1
  {
    if schedules != [] {
      var init := schedules[..|schedules| - 1];
      EditsAreChanges(init, attends, messages, editFails, clock);
      assert schedules == init + [schedules[|schedules| - 1]];
    }
  }

  // ---------------------------------------------------------------------------
  // The schedule menus (lines 331-378, 576-621)

  const ThreeDays: int := 3 * 24 * 3600

  /** `StartTime.Before(now + 3 days) && StartTime.After(now - 3 days)`. */
  predicate Near(now: int, start: int)
  {
    now - ThreeDays < start < now + ThreeDays
  }

  /** fmt.Sprintf("[%s] %s (%d트라이)", …) */
  function Label(sc: Schedule, clock: Clock): string
  {
    "[" + sc.raidName + "] " + clock.stamp(sc.start) + " (" + Itoa(sc.tryCount) + "트라이)"
  }

  const RemovePrefix: string := "admin-remove-schedule-select-schedule_"

  const NoEditable: string := "수정 할 레이드 일정이 없습니다."

  const NoAttendable: string :=
    "참가 신청 가능한 레이드 일정이 없습니다.\n이미 모든 일정에 참가하고 있거나, 참가신청 기한이 마감되었을 수 있으니 참가를 원하시면 공대장에게 문의해 주세요."

  /** The remove menu's label map: a later schedule with the same label replaces an earlier one. */
  function RemoveMap(schedules: seq<Schedule>, now: int, clock: Clock): map<string, string>
  {
    if schedules == [] then map[]
    else
      var sc := schedules[|schedules| - 1];
      var prev := RemoveMap(schedules[..|schedules| - 1], now, clock);
      if Near(now, sc.start) then prev[Label(sc, clock) := RemovePrefix + Decimal(sc.id)] else prev
  }

  /** The remove menu offers exactly the schedules starting within three days of now. */
  lemma {:induction false} RemoveMapExact(schedules: seq<Schedule>, now: int, clock: Clock)
    ensures forall l :: l in RemoveMap(schedules, now, clock) ==>
      exists sc :: sc in schedules && Near(now, sc.start) && Label(sc, clock) == l &&
        RemoveMap(schedules, now, clock)[l] == RemovePrefix + Decimal(sc.id)
    ensures forall sc :: sc in schedules && Near(now, sc.start) ==> Label(sc, clock) in RemoveMap(schedules, now, clock)
  {
    if schedules != [] {
      var init := schedules[..|schedules| - 1];
      RemoveMapExact(init, now, clock);
      assert schedules == init + [schedules[|schedules| - 1]];
    }
  }

  /** The edit menu's options: (label, ID) of the schedules near now, in table order. */
  function EditList(schedules: seq<Schedule>, now: int, clock: Clock): seq<(string, string)>
  {
    if schedules == [] then []
    else
      var sc := schedules[|schedules| - 1];
      EditList(schedules[..|schedules| - 1], now, clock) +
        (if Near(now, sc.start) then [(Label(sc, clock), Decimal(sc.id))] else [])
  }

  lemma {:induction false} EditListExact(schedules: seq<Schedule>, now: int, clock: Clock, o: (string, string))
    ensures o in EditList(schedules, now, clock) <==>
      exists sc :: sc in schedules && Near(now, sc.start) && o == (Label(sc, clock), Decimal(sc.id))
  {
    if schedules != [] {
      var init := schedules[..|schedules| - 1];
      EditListExact(init, now, clock, o);
      assert schedules == init + [schedules[|schedules| - 1]];
    }
  }

  /** Whether `nickname` has an attend record (cancelled or not) on schedule `id`. */
  predicate Attending(attends: seq<Attend>, nickname: string, id: nat)
  {
    exists a :: a in attends && a.info.nickname == nickname && a.scheduleId == id
  }

  /** The attend menu's options: schedules the member is not on whose sign-up is still open. */
  function AttendList(schedules: seq<Schedule>, attends: seq<Attend>, nickname: string, now: int, clock: Clock)
    : seq<(string, string)>
  {
    if schedules == [] then []
    else
      var sc := schedules[|schedules| - 1];
      AttendList(schedules[..|schedules| - 1], attends, nickname, now, clock) +
        (if !Attending(attends, nickname, sc.id) && sc.subscriptionEnd > now
         then [(Label(sc, clock), Decimal(sc.id))] else [])
  }

  lemma {:induction false} AttendListExact(schedules: seq<Schedule>, attends: seq<Attend>, nickname: string,
                                           now: int, clock: Clock, o: (string, string))
    ensures o in AttendList(schedules, attends, nickname, now, clock) <==>
      exists sc :: sc in schedules && !Attending(attends, nickname, sc.id) && sc.subscriptionEnd > now &&
        o == (Label(sc, clock), Decimal(sc.id))
  {
    if schedules != [] {
      var init := schedules[..|schedules| - 1];
      AttendListExact(init, attends, nickname, now, clock, o);
      assert schedules == init + [schedules[|schedules| - 1]];
    }
  }

  lemma DecimalInjective(a: nat, b: nat)
    requires Decimal(a) == Decimal(b)
    ensures a == b
  {
    DecimalValue(a);
    DecimalValue(b);
  }

  /** `First(&schedule, value)`: the schedule whose ID prints as `value`. */
  function FindSchedule(schedules: seq<Schedule>, value: string): (r: Option<Schedule>)
    ensures r.Some? ==> r.value in schedules && Decimal(r.value.id) == value
    ensures r.None? ==> forall sc :: sc in schedules ==> Decimal(sc.id) != value
  {
    if schedules == [] then None
    else if Decimal(schedules[0].id) == value then Some(schedules[0])
    else FindSchedule(schedules[1..], value)
  }

  /** Schedule IDs are the table's primary key. */
  predicate KeysUnique(schedules: seq<Schedule>)
  {
    forall i, j :: 0 <= i < |schedules| && 0 <= j < |schedules| && schedules[i].id == schedules[j].id ==> i == j
  }

  /** Choosing an offered option finds the schedule it was offered for. */
  lemma OptionFindsSchedule(schedules: seq<Schedule>, sc: Schedule)
    requires KeysUnique(schedules) && sc in schedules
    ensures FindSchedule(schedules, Decimal(sc.id)) == Some(sc)
  {
    var r := FindSchedule(schedules, Decimal(sc.id));
    DecimalInjective(r.value.id, sc.id);
  }

  /** The replies of the sign-up step. */
  function AlreadyAttending(sc: Schedule, clock: Clock): string
  {
    "[" + sc.raidName + "] " + clock.stamp(sc.start) + " (" + Itoa(sc.tryCount) + " 트라이) 에 이미 참가하고 있습니다."
  }

  function Attended(sc: Schedule, clock: Clock): string
  {
    "[" + sc.raidName + "] " + clock.stamp(sc.start) + " (" + Itoa(sc.tryCount) + " 트라이) 참가 신청이 완료되었습니다."
  }

  /** No member is signed up twice for the same schedule. */
  predicate SignedUpOnce(attends: seq<Attend>)
  {
    forall i, j :: 0 <= i < |attends| && 0 <= j < |attends| && i != j ==>
      !(attends[i].info.nickname == attends[j].info.nickname && attends[i].scheduleId == attends[j].scheduleId)
  }

  class RaidBoard {
    var schedules: seq<Schedule>
    var attends: seq<Attend>

    ghost predicate Valid()
      reads this
    {
      KeysUnique(schedules) && SignedUpOnce(attends)
    }

    constructor(schedules: seq<Schedule>)
      requires KeysUnique(schedules)
      ensures this.schedules == schedules && attends == []
      ensures Valid()
    {
      this.schedules := schedules;
      attends := [];
    }

    /** RaidSubscriptionRefresh: rebuilds every schedule's roster and edits the messages that changed. */
    method RaidSubscriptionRefresh(messages: map<string, string>, editFails: set<string>, clock: Clock)
      returns (edits: seq<(string, string)>)
      ensures edits == Edits(schedules, attends, messages, editFails, clock)
    {
      edits := [];
      var i := 0;
      while i < |schedules|
        invariant 0 <= i <= |schedules|
        invariant edits == Edits(schedules[..i], attends, messages, editFails, clock)
      {
        var sc := schedules[i];
        assert schedules[..i + 1][..i] == schedules[..i];
        var msg := BuildRoster(sc, AttendsOf(attends, sc.id), clock);
        if sc.messageId in messages && messages[sc.messageId] != msg && sc.messageId !in editFails {
          edits := edits + [(sc.messageId, msg)];
        }
        i := i + 1;
      }
      assert schedules[..i] == schedules;
    }

    /** The admin remove menu's label map. */
    method RemoveMenu(now: int, clock: Clock) returns (selection: map<string, string>)
      ensures selection == RemoveMap(schedules, now, clock)
    {
      selection := map[];
      var i := 0;
      while i < |schedules|
        invariant 0 <= i <= |schedules|
        invariant selection == RemoveMap(schedules[..i], now, clock)
      {
        var sc := schedules[i];
        assert schedules[..i + 1][..i] == schedules[..i];
        if sc.start < now + ThreeDays && sc.start > now - ThreeDays {
          selection := selection[Label(sc, clock) := RemovePrefix + Decimal(sc.id)];
        }
        i := i + 1;
      }
      assert schedules[..i] == schedules;
    }

    /** The admin edit menu: the near schedules, or a notice when there are none. */
    method EditMenu(now: int, clock: Clock) returns (reply: Reply)
      ensures var options := EditList(schedules, now, clock);
        reply == if options == [] then Notice(NoEditable) else Menu(options)
    {
      var options := [];
      var i := 0;
      while i < |schedules|
        invariant 0 <= i <= |schedules|
        invariant options == EditList(schedules[..i], now, clock)
      {
        var sc := schedules[i];
        assert schedules[..i + 1][..i] == schedules[..i];
        if sc.start < now + ThreeDays && sc.start > now - ThreeDays {
          options := options + [(Label(sc, clock), Decimal(sc.id))];
        }
        i := i + 1;
      }
      assert schedules[..i] == schedules;
      if options == [] {
        return Notice(NoEditable);
      }
      reply := Menu(options);
    }

    /** The member's attend menu: open schedules it is not already on. */
    method AttendMenu(info: Option<MemberInfo>, now: int, clock: Clock) returns (reply: Reply)
      ensures info.None? ==> reply == Silent
      ensures info.Some? ==>
        var options := AttendList(schedules, attends, info.value.nickname, now, clock);
        reply == if options == [] then Notice(NoAttendable) else Menu(options)
    {
      if info.None? {
        return Silent;
      }
      var m := info.value;
      var exclude := ExcludedIds(m.nickname);
      var options := [];
      var i := 0;
      while i < |schedules|
        invariant 0 <= i <= |schedules|
        invariant options == AttendList(schedules[..i], attends, m.nickname, now, clock)
      {
        var sc := schedules[i];
        assert schedules[..i + 1][..i] == schedules[..i];
        if Decimal(sc.id) in exclude {
          i := i + 1;
          continue;
        }
        if sc.subscriptionEnd > now {
          options := options + [(Label(sc, clock), Decimal(sc.id))];
        }
        i := i + 1;
      }
      assert schedules[..i] == schedules;
      if options == [] {
        return Notice(NoAttendable);
      }
      reply := Menu(options);
    }

    /** `excludeRaidScheduleIDs`: the printed schedule IDs of the member's attends. */
    method ExcludedIds(nickname: string) returns (exclude: seq<string>)
      ensures forall id: nat :: Decimal(id) in exclude <==> Attending(attends, nickname, id)
    {
      var mine := [];
      var i := 0;
      while i < |attends|
        invariant 0 <= i <= |attends|
        invariant forall a :: a in mine <==> a in attends[..i] && a.info.nickname == nickname
      {
        assert attends[..i + 1] == attends[..i] + [attends[i]];
        if attends[i].info.nickname == nickname {
          mine := mine + [attends[i]];
        }
        i := i + 1;
      }
      assert attends[..i] == attends;
      exclude := [];
      var j := 0;
      while j < |mine|
        invariant 0 <= j <= |mine|
        invariant |exclude| == j
        invariant forall k :: 0 <= k < j ==> exclude[k] == Decimal(mine[k].scheduleId)
      {
        exclude := exclude + [Decimal(mine[j].scheduleId)];
        j := j + 1;
      }
      forall id: nat
        ensures Decimal(id) in exclude <==> Attending(attends, nickname, id)
      {
        if Decimal(id) in exclude {
          var k :| 0 <= k < |exclude| && exclude[k] == Decimal(id);
          DecimalInjective(mine[k].scheduleId, id);
          assert mine[k] in mine;
        }
        if Attending(attends, nickname, id) {
          var a :| a in attends && a.info.nickname == nickname && a.scheduleId == id;
          var k :| 0 <= k < |mine| && mine[k] == a;
          assert exclude[k] == Decimal(id);
        }
      }
    }

    /**
      The sign-up step: a single chosen schedule; a member already on it is
      told so and nothing is stored; otherwise a new attend is stored.
    */
    method SelectSchedule(values: seq<string>, info: Option<MemberInfo>, clock: Clock) returns (reply: Reply)
      requires values != []
      requires Valid()
      modifies this`attends
      ensures Valid()
      ensures var found := FindSchedule(schedules, values[0]);
        if |values| > 1 || found.None? || info.None? then reply == Silent && attends == old(attends)
        else if Attending(old(attends), info.value.nickname, found.value.id) then
          reply == Notice(AlreadyAttending(found.value, clock)) && attends == old(attends)
        else
          reply == Notice(Attended(found.value, clock)) &&
          attends == old(attends) + [Attend(info.value, found.value.id, false)]
    {
      if |values| > 1 {
        return Silent;
      }
      var found := FindSchedule(schedules, values[0]);
      if found.None? || info.None? {
        return Silent;
      }
      var schedule := found.value;
      var m := info.value;
      var existing := FindAttend(m.nickname, schedule.id);
      if existing {
        return Notice(AlreadyAttending(schedule, clock));
      }
      attends := attends + [Attend(m, schedule.id, false)];
      reply := Notice(Attended(schedule, clock));
    }

    /** `Where("nickname = ? AND raid_schedule_id = ?").First`: whether such a record exists. */
    method FindAttend(nickname: string, id: nat) returns (found: bool)
      ensures found == Attending(attends, nickname, id)
    {
      var i := 0;
      while i < |attends|
        invariant 0 <= i <= |attends|
        invariant !Attending(attends[..i], nickname, id)
      {
        if attends[i].info.nickname == nickname && attends[i].scheduleId == id {
          assert attends[i] in attends;
          return true;
        }
        assert attends[..i + 1] == attends[..i] + [attends[i]];
        i := i + 1;
      }
      assert attends[..i] == attends;
      found := false;
    }
  }

  /** The roster text of one schedule, built as the loop body at lines 26-60 builds it. */
  method BuildRoster(sc: Schedule, mine: seq<Attend>, clock: Clock) returns (msg: string)
    ensures msg == Header(sc, clock) + Blocks(mine, SortedOf(RolesOf(mine))) + Footer
  {
    var byRole, keys := Headings(mine);
    msg := AppendBlocks(Header(sc, clock), mine, byRole, keys);
    msg := msg + Footer;
  }

  /** Lines 55-59: one block per heading, appended to `msg` in the order of `keys`. */
  method AppendBlocks(header: string, mine: seq<Attend>, byRole: map<string, seq<string>>, keys: seq<string>)
    returns (msg: string)
    requires forall r :: r in keys ==> r in byRole && byRole[r] == Bullets(mine, r)
    ensures msg == header + Blocks(mine, keys)
  {
    msg := header;
    var i := 0;
    while i < |keys|
      invariant 0 <= i <= |keys|
      invariant msg == header + Blocks(mine, keys[..i])
    {
      var block := Block(keys[i], byRole[keys[i]]);
      BlocksStep(mine, keys, i);
      Associative(header, Blocks(mine, keys[..i]), block);
      msg := msg + block;
      i := i + 1;
    }
    assert keys[..i] == keys;
  }

  lemma BlocksStep(mine: seq<Attend>, keys: seq<string>, i: nat)
    requires i < |keys|
    ensures Blocks(mine, keys[..i + 1]) == Blocks(mine, keys[..i]) + Block(keys[i], Bullets(mine, keys[i]))
  {
    assert keys[..i + 1][..i] == keys[..i];
  }

  lemma Associative(a: string, b: string, c: string)
    ensures (a + b) + c == a + (b + c)
  {
  }

  /** Lines 32-46: the attends grouped by sub-role, and the sub-roles in sorted order. */
  method Headings(mine: seq<Attend>) returns (byRole: map<string, seq<string>>, keys: seq<string>)
    ensures keys == SortedOf(RolesOf(mine))
    ensures forall r :: r in keys ==> r in byRole && byRole[r] == Bullets(mine, r)
  {
    byRole := GroupByRole(mine);
    keys := SortedKeys(byRole);
    AscendingUnique(keys, SortedOf(RolesOf(mine)));
  }

  /** Lines 32-39: `memberListByRole[role] = append(memberListByRole[role], "* " + mention)`. */
  method GroupByRole(attends: seq<Attend>) returns (byRole: map<string, seq<string>>)
    ensures byRole.Keys == RolesOf(attends)
    ensures forall r :: r in byRole ==> byRole[r] == Bullets(attends, r)
  {
    byRole := map[];
    var i := 0;
    while i < |attends|
      invariant 0 <= i <= |attends|
      invariant byRole.Keys == RolesOf(attends[..i])
      invariant forall r :: r in byRole ==> byRole[r] == Bullets(attends[..i], r)
    {
      var a := attends[i];
      assert attends[..i + 1][..i] == attends[..i];
      var role := a.info.subRoleName;
      var filed := if role in byRole then byRole[role] else [];
      if role !in byRole {
        BulletsOutside(attends[..i], role);
      }
      byRole := byRole[role := filed + [Bullet(a)]];
      i := i + 1;
    }
    assert attends[..i] == attends;
  }

  /** Lines 41-46: the map's keys, collected in Go's unspecified order, then sorted in place. */
  method SortedKeys(byRole: map<string, seq<string>>) returns (keys: seq<string>)
    ensures Ascending(keys)
    ensures forall k :: k in keys <==> k in byRole
  {
    var collected: seq<string> := [];
    var unvisited := byRole.Keys;
    while unvisited != {}
      invariant unvisited <= byRole.Keys
      invariant forall k :: k in collected <==> k in byRole && k !in unvisited
      invariant Distinct(collected)
      decreases |unvisited|
    {
      var k :| k in unvisited;
      collected := collected + [k];
      unvisited := unvisited - {k};
    }
    var a := new string[|collected|](i requires 0 <= i < |collected| => collected[i]);
    assert a[..] == collected;
    Sort(a);
    keys := a[..];
    PermutationDistinct(collected, keys);
    OrderedDistinctAscending(keys);
    assert forall k :: k in keys <==> k in multiset(keys);
    assert forall k :: k in collected <==> k in multiset(collected);
  }
}
