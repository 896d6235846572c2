/**
  The nickname normaliser (`GeneralizeUsername`): every cached member whose
  nickname starts with "lv" in any letter case is renamed to the canonical
  "Lv <level> <name>" built from the level parser's result, unless the
  nickname already has that form.  The Discord rename request is an input:
  `failures` maps the user IDs whose request is refused to the error returned.
*/
module GeneralizeName {
  import opened Text
  import opened LevelParser
  import opened Directory

  /**
    strings.HasPrefix(strings.ToLower(s), "lv").  Lower-casing works rune by
    rune, and the only runes that lower-case to 'l' and 'v' are 'L' and 'V',
    so only the first two characters matter.
  */
  predicate LvPrefixed(s: string)
  {
    |s| >= 2 && (s[0] == 'l' || s[0] == 'L') && (s[1] == 'v' || s[1] == 'V')
  }

  /** fmt.Sprintf("Lv %d %s", lv, nickname) */
  function Canonical(level: nat, name: string): string
  {
    "Lv " + Decimal(level) + " " + name
  }

  /** What the pass does with one member's nickname. */
  datatype Step = Skip | Rename(nick: string) | Fail(error: string)

  function Decide(nick: string): Step
  {
    if !LvPrefixed(nick) then Skip
    else
      var p := Extract(nick);
      if p.level == 0 then Fail("cannot separate level and nickname: " + nick)
      else if Canonical(p.level, p.nickname) == nick then Skip
      else Rename(Canonical(p.level, p.nickname))
  }

  /** The steps, stated outright: which members fail, which are renamed, and to what. */
  lemma DecideCases(nick: string)
    ensures Decide(nick).Fail? <==> LvPrefixed(nick) && Extract(nick).level == 0
    ensures Decide(nick).Rename? <==>
      LvPrefixed(nick) && Extract(nick).level != 0 &&
      Canonical(Extract(nick).level, Extract(nick).nickname) != nick
    ensures Decide(nick).Rename? ==>
      Decide(nick).nick != nick && InRange(Extract(nick).level) &&
      Decide(nick).nick == Canonical(Extract(nick).level, Extract(nick).nickname)
  {
  }

  /**
    A rename keeps the member's parsed level and name, and the new nickname
    is left alone by a second pass: normalising is idempotent.
  */
  lemma RenameIsStable(nick: string)
    requires Decide(nick).Rename?
    ensures Extract(Decide(nick).nick) == Extract(nick)
    ensures Decide(Decide(nick).nick) == Skip
  {
    var p := Extract(nick);
    ExtractOfCanonical(p.level, p.nickname);
  }

  /** A nickname already in the canonical form is never renamed and never fails. */
  lemma CanonicalIsSkipped(level: nat, name: string)
    requires InRange(level)
    requires ' ' !in name && '.' !in name && '\n' !in name
    ensures Decide(Canonical(level, name)) == Skip
  {
    ExtractOfCanonical(level, name);
  }

  /**
    "lV…" passes the lower-cased check but the parser trims only "Lv", "lv"
    and "LV", so the leading 'l' is left in front of the digits and the
    parse fails: such a nickname stops the pass with an error.
  */
  lemma MixedCaseFails(nick: string)
    requires |nick| >= 2 && nick[0] == 'l' && nick[1] == 'V'
    ensures Decide(nick) == Fail("cannot separate level and nickname: " + nick)
  {
    NoMarker(nick, "Lv");
    NoMarker(nick, "lv");
    NoMarker(nick, "LV");
    var s := Strip(nick);
    assert nick == [nick[0]] + nick[1..];
    RemoveCharAppend([nick[0]], nick[1..], ' ');
    var r4 := RemoveChar(nick, ' ');
    assert r4 == [nick[0]] + RemoveChar(nick[1..], ' ');
    RemoveCharAppend([nick[0]], RemoveChar(nick[1..], ' '), '.');
    assert s[0] == 'l';
    ExtractFailure(nick, s, LeadingDigits(s));
  }

  /** The result of a pass: the renames issued, in order, and the error that stopped it. */
  datatype Outcome = Outcome(renames: seq<(string, string)>, error: Option<string>)

  /** A pass over `ms` in order, stopping at the first failure. */
  function Pass(ms: seq<Member>, failures: map<string, string>): Outcome
  {
    if ms == [] then Outcome([], None)
    else
      match Decide(ms[0].nick)
      case Skip => Pass(ms[1..], failures)
      case Fail(e) => Outcome([], Some(e))
      case Rename(n) =>
        if ms[0].userId in failures then Outcome([], Some(failures[ms[0].userId]))
        else
          var rest := Pass(ms[1..], failures);
          Outcome([(ms[0].userId, n)] + rest.renames, rest.error)
  }

  /** Every rename issued is the one `Decide` asks for, for a member of the pass. */
  lemma {:induction false} PassRenamesOnlyNeeded(ms: seq<Member>, failures: map<string, string>)
    ensures forall r :: r in Pass(ms, failures).renames ==>
      exists k :: 0 <= k < |ms| && ms[k].userId == r.0 && Decide(ms[k].nick) == Rename(r.1)
  {
    if ms != [] {
      PassRenamesOnlyNeeded(ms[1..], failures);
      forall r | r in Pass(ms, failures).renames
        ensures exists k :: 0 <= k < |ms| && ms[k].userId == r.0 && Decide(ms[k].nick) == Rename(r.1)
      {
        if r !in Pass(ms[1..], failures).renames {
          assert ms[0].userId == r.0 && Decide(ms[0].nick) == Rename(r.1);
        } else {
          var k :| 0 <= k < |ms[1..]| && ms[1..][k].userId == r.0 && Decide(ms[1..][k].nick) == Rename(r.1);
          assert ms[k + 1] == ms[1..][k];
        }
      }
    }
  }

  /** The pass goes on past `m`: its nickname parses, or needs no rename, and its rename is not refused. */
  predicate Proceeds(m: Member, failures: map<string, string>)
  {
    !Decide(m.nick).Fail? && (Decide(m.nick).Rename? ==> m.userId !in failures)
  }

  /** Nothing fails when no member needs a refused rename and every "lv" nickname parses. */
  predicate Clean(ms: seq<Member>, failures: map<string, string>)
  {
    forall k :: 0 <= k < |ms| ==> Proceeds(ms[k], failures)
  }

  lemma CleanCons(ms: seq<Member>, failures: map<string, string>)
    requires ms != []
    ensures Clean(ms, failures) <==> Proceeds(ms[0], failures) && Clean(ms[1..], failures)
  {
    assert forall k :: 1 <= k < |ms| ==> ms[k] == ms[1..][k - 1];
  }

  /** The pass completes exactly when no member stops it. */
  lemma {:induction false} PassCompletes(ms: seq<Member>, failures: map<string, string>)
    ensures Pass(ms, failures).error.None? <==> Clean(ms, failures)
  {
    if ms != [] {
      PassCompletes(ms[1..], failures);
      CleanCons(ms, failures);
    }
  }

  /** A pass that completes renames every member that needs it. */
  lemma {:induction false} PassRenamesAll(ms: seq<Member>, failures: map<string, string>)
    requires Clean(ms, failures)
    ensures forall k :: 0 <= k < |ms| && Decide(ms[k].nick).Rename? ==>
      (ms[k].userId, Decide(ms[k].nick).nick) in Pass(ms, failures).renames
  {
    if ms != [] {
      CleanCons(ms, failures);
      PassRenamesAll(ms[1..], failures);
      assert forall k :: 1 <= k < |ms| ==> ms[k] == ms[1..][k - 1];
    }
  }

  /**
    Cached members always parse (the cache admits only parsing nicknames), so
    over the cache a pass can stop only on a refused rename.
  */
  lemma CachedMembersParse(roles: map<string, string>, ms: seq<Member>, k: nat)
    requires k < |ms| && Eligible(roles, ms[k])
    ensures !Decide(ms[k].nick).Fail?
  {
  }

  /** One step of a pass, from position `i`. */
  lemma PassStep(ms: seq<Member>, i: nat, failures: map<string, string>)
    requires i < |ms|
    ensures var step := Decide(ms[i].nick);
      var rest := Pass(ms[i + 1..], failures);
      Pass(ms[i..], failures) ==
        if step.Skip? then rest
        else if step.Fail? then Outcome([], Some(step.error))
        else if ms[i].userId in failures then Outcome([], Some(failures[ms[i].userId]))
        else Outcome([(ms[i].userId, step.nick)] + rest.renames, rest.error)
  {
    assert ms[i..][1..] == ms[i + 1..];
  }

  /** The outcome of a pass that has already issued `done` and stopped with `err`, or goes on as `rest`. */
  function Then(done: seq<(string, string)>, err: Option<string>, rest: Outcome): Outcome
  {
    if err.Some? then Outcome(done, err) else Outcome(done + rest.renames, rest.error)
  }

  lemma RenamesAppend(done: seq<(string, string)>, r: (string, string), rest: seq<(string, string)>)
    ensures done + ([r] + rest) == (done + [r]) + rest
  {
  }

  /** One turn of the loop of GeneralizeUsername, on the member at position `i`. */
  method Visit(members: seq<Member>, i: nat, failures: map<string, string>, renames: seq<(string, string)>)
    returns (renames': seq<(string, string)>, err: Option<string>)
    requires i < |members|
    ensures Then(renames', err, Pass(members[i + 1..], failures)) == Then(renames, None, Pass(members[i..], failures))
  {
    var member := members[i];
    PassStep(members, i, failures);
    var step := Decide(member.nick);
    renames', err := renames, None;
    if step.Fail? {
      err := Some(step.error);
    } else if step.Rename? {
      if member.userId in failures {
        err := Some(failures[member.userId]);
      } else {
        RenamesAppend(renames, (member.userId, step.nick), Pass(members[i + 1..], failures).renames);
        renames' := renames + [(member.userId, step.nick)];
      }
    }
  }

  /** The loop of GeneralizeUsername: renames as `Decide` says, returning at the first error. */
  method RenameAll(members: seq<Member>, failures: map<string, string>)
    returns (renames: seq<(string, string)>, err: Option<string>)
    ensures Outcome(renames, err) == Pass(members, failures)
  {
    renames, err := [], None;
    var i := 0;
    while i < |members| && err.None?
      invariant 0 <= i <= |members|
      invariant Pass(members, failures) == Then(renames, err, Pass(members[i..], failures))
      decreases |members| - i
    {
      renames, err := Visit(members, i, failures, renames);
      i := i + 1;
    }
  }

  /**
    GeneralizeUsername: walks the cached members in the order the cache lists
    them, renaming as `Decide` says and returning at the first error.
  */
  method GeneralizeUsername(dir: DirectoryCache, failures: map<string, string>)
    returns (members: seq<Member>, renames: seq<(string, string)>, err: Option<string>)
    ensures |members| == |dir.members|
    ensures forall x :: x in members <==> x in dir.members.Values
    ensures Outcome(renames, err) == Pass(members, failures)
  {
    ghost var order;
    members, order := dir.ListAllMembers();
    renames, err := RenameAll(members, failures);
  }
}
