/**
  The level/nickname parser of pkg/cache/util.go.

  A guild nickname looks like "Lv 120 홍길동": an optional "Lv" marker, the
  character's level and the in-game name. The parser strips the marker, drops
  every space and period, reads at most three leading ASCII digits and accepts
  the longest digit prefix whose value is a playable level (85 to 200). Level 0
  is the "could not parse" sentinel, returned together with the untouched input.
*/
module LevelParser {
  import opened Text

  datatype Parsed = Parsed(level: int, nickname: string)

  const MinLevel: nat := 85
  const MaxLevel: nat := 200

  predicate InRange(n: int)
  {
    MinLevel <= n <= MaxLevel
  }

  /** Lines 10-14: the three prefix trims, in this fixed order, then the two removals. */
  function Strip(text: string): string
  {
    var r1 := TrimPrefix(text, "Lv");
    var r2 := TrimPrefix(r1, "lv");
    var r3 := TrimPrefix(r2, "LV");
    RemoveChar(RemoveChar(r3, ' '), '.')
  }

  /** The `(\d{1,3})` group: the longest run of at most three leading ASCII digits. */
  function LeadingDigits(s: string): (d: string)
    ensures |d| <= 3 && |d| <= |s| && d == s[..|d|] && AllDigits(d)
    ensures |d| < 3 && |d| < |s| ==> !IsDigit(s[|d|])
  {
    if |s| >= 1 && IsDigit(s[0]) then
      if |s| >= 2 && IsDigit(s[1]) then
        if |s| >= 3 && IsDigit(s[2]) then s[..3] else s[..2]
      else s[..1]
    else []
  }

  /** The `(.*)` group: Go's `.` does not match a newline, so the group ends at the first one. */
  function UpToNewline(s: string): (r: string)
    ensures |r| <= |s| && r == s[..|r|] && '\n' !in r
    ensures |r| < |s| ==> s[|r|] == '\n'
    ensures '\n' !in s ==> r == s
  {
    if s == [] || s[0] == '\n' then [] else [s[0]] + UpToNewline(s[1..])
  }

  /**
    The loop at line 21: try the prefixes of `d` of length `i`, `i - 1`, ..., 1
    and return the length of the first one whose value is a playable level.
  */
  function FirstInRange(d: string, i: nat): (r: Option<nat>)
    requires AllDigits(d) && i <= |d|
    ensures r.Some? ==> 1 <= r.value <= i && InRange(DigitsValue(d[..r.value]))
    ensures r.Some? ==> forall j :: r.value < j <= i ==> !InRange(DigitsValue(d[..j]))
    ensures r.None? ==> forall j :: 1 <= j <= i ==> !InRange(DigitsValue(d[..j]))
  {
    if i == 0 then None
    else if InRange(DigitsValue(d[..i])) then Some(i)
    else FirstInRange(d, i - 1)
  }

  /** How many leading digits of the stripped text `s` the accepted level consumes (0 when parsing fails). */
  function Consumed(s: string): nat
  {
    var d := LeadingDigits(s);
    match FirstInRange(d, |d|)
    case Some(i) => i
    case None => 0
  }

  /** The nickname left after `i` of the leading digits `d` of `s` were read as the level. */
  lemma NicknameClean(s: string, d: string, i: nat)
    requires ' ' !in s && '.' !in s
    requires LeadingDigits(s) == d && i <= |d|
    ensures var n := d[i..] + UpToNewline(s[|d|..]);
      ' ' !in n && '.' !in n && '\n' !in n
  {
    var rest := UpToNewline(s[|d|..]);
    assert forall k :: 0 <= k < |rest| ==> rest[k] == s[|d| + k];
    assert forall k :: i <= k < |d| ==> IsDigit(d[k]);
  }

  /** Lines 16-32, on the stripped text `s` of `text`. */
  function Parse(s: string, text: string): (p: Parsed)
    requires ' ' !in s && '.' !in s
    ensures p.level == 0 || InRange(p.level)
    ensures p.level == 0 ==> p.nickname == text
    ensures p.level != 0 ==> ' ' !in p.nickname && '.' !in p.nickname && '\n' !in p.nickname
  {
    var d := LeadingDigits(s);
    match FirstInRange(d, |d|)
    case Some(i) =>
      NicknameClean(s, d, i);
      Parsed(DigitsValue(d[..i]), d[i..] + UpToNewline(s[|d|..]))
    case None => Parsed(0, text)
  }

  lemma StripNoSpaceOrPeriod(text: string)
    ensures ' ' !in Strip(text) && '.' !in Strip(text)
  {
  }

  /** ExtractLevelAndNickname (pkg/cache/util.go:9-33). */
  function Extract(text: string): (p: Parsed)
    ensures p.level == 0 || InRange(p.level)
    ensures p.level == 0 ==> p.nickname == text
    ensures p.level != 0 ==> ' ' !in p.nickname && '.' !in p.nickname && '\n' !in p.nickname
  {
    StripNoSpaceOrPeriod(text);
    Parse(Strip(text), text)
  }

  /** A two-character marker is not trimmed from text that differs from it in one of its two positions. */
  lemma NoMarker(s: string, p: string)
    requires |p| == 2 && |s| >= 2 && (s[0] != p[0] || s[1] != p[1])
    ensures TrimPrefix(s, p) == s
  {
    assert s[..2][0] == s[0] && s[..2][1] == s[1];
  }

  /** Strip on a text that starts with "Lv" followed by a character other than l/L and has no space or period. */
  lemma StripPlain(s: string)
    requires |s| >= 1 && s[0] != 'l' && s[0] != 'L'
    requires ' ' !in s && '.' !in s
    ensures Strip("Lv" + s) == s
  {
    var t := "Lv" + s;
    assert HasPrefix(t, "Lv") by { assert t[..2] == "Lv"; }
    assert TrimPrefix(t, "Lv") == s;
    if |s| >= 2 {
      NoMarker(s, "lv");
      NoMarker(s, "LV");
    } else {
      assert !HasPrefix(s, "lv") && !HasPrefix(s, "LV");
    }
    RemoveCharAbsent(s, ' ');
    RemoveCharAbsent(s, '.');
  }

  /** Splitting a sequence at two points and joining the pieces gives it back. */
  lemma Rejoin<T>(s: seq<T>, k: nat, m: nat)
    requires k <= m <= |s|
    ensures s[..k] + (s[k..m] + s[m..]) == s
  {
  }

  lemma {:induction false} ParseReconstructs(s: string, text: string)
    requires ' ' !in s && '.' !in s && Parse(s, text).level != 0
    ensures var k := Consumed(s);
      && 1 <= k <= 3 && k <= |s| && AllDigits(s[..k])
      && DigitsValue(s[..k]) == Parse(s, text).level
      && ('\n' !in s ==> s[..k] + Parse(s, text).nickname == s)
    ensures var d := LeadingDigits(s);
      forall j :: Consumed(s) < j <= |d| ==> !InRange(DigitsValue(d[..j]))
  {
    var d := LeadingDigits(s);
    var k := Consumed(s);
    assert FirstInRange(d, |d|) == Some(k);
    assert d[..k] == s[..k];
    if '\n' !in s {
      assert s[|d|..] == UpToNewline(s[|d|..]) by {
        assert forall x :: x in s[|d|..] ==> x in s;
      }
      assert d[k..] == s[k..|d|];
      Rejoin(s, k, |d|);
    }
  }

  /**
    On success, the consumed digits followed by the returned nickname give back
    the stripped text (for a nickname without a newline), the consumed digits
    spell the level, and no longer digit prefix would have been a level.
  */
  lemma ExtractReconstructs(text: string)
    requires Extract(text).level != 0
    ensures var s, k := Strip(text), Consumed(Strip(text));
      && 1 <= k <= 3 && k <= |s| && AllDigits(s[..k])
      && DigitsValue(s[..k]) == Extract(text).level
      && ('\n' !in text ==> s[..k] + Extract(text).nickname == s)
  {
    var s := Strip(text);
    StripNoSpaceOrPeriod(text);
    ParseReconstructs(s, text);
    if '\n' !in text {
      StripKeepsNewlineFree(text);
    }
  }

  /** On success, no longer prefix of the leading digits would have been a level: the longest wins. */
  lemma ExtractLongestFirst(text: string)
    requires Extract(text).level != 0
    ensures var d := LeadingDigits(Strip(text));
      forall j :: Consumed(Strip(text)) < j <= |d| ==> !InRange(DigitsValue(d[..j]))
  {
    StripNoSpaceOrPeriod(text);
    ParseReconstructs(Strip(text), text);
  }

  lemma TrimKeeps(s: string, p: string)
    ensures forall x :: x in TrimPrefix(s, p) ==> x in s
  {
    if HasPrefix(s, p) {
      assert s == p + TrimPrefix(s, p);
    }
  }

  /** Stripping adds no character: a newline-free text strips to a newline-free text. */
  lemma StripKeepsNewlineFree(text: string)
    requires '\n' !in text
    ensures '\n' !in Strip(text)
  {
    var r1 := TrimPrefix(text, "Lv");
    var r2 := TrimPrefix(r1, "lv");
    TrimKeeps(text, "Lv");
    TrimKeeps(r1, "lv");
    TrimKeeps(r2, "LV");
  }

  lemma ParseFails(s: string, text: string)
    requires ' ' !in s && '.' !in s
    ensures Parse(s, text).level == 0 <==>
      forall j :: 1 <= j <= |LeadingDigits(s)| ==> !InRange(DigitsValue(LeadingDigits(s)[..j]))
  {
    var d := LeadingDigits(s);
    var r := FirstInRange(d, |d|);
    if r.Some? {
      assert InRange(DigitsValue(d[..r.value]));
    }
  }

  /** Parsing fails exactly when no one-to-three-digit prefix of the stripped text is a level. */
  lemma ExtractFails(text: string)
    ensures Extract(text).level == 0 <==>
      forall j :: 1 <= j <= |LeadingDigits(Strip(text))| ==>
        !InRange(DigitsValue(LeadingDigits(Strip(text))[..j]))
  {
    StripNoSpaceOrPeriod(text);
    ParseFails(Strip(text), text);
  }

  /**
    Normalising is stable: the text "Lv <level> <name>" built from a successful
    parse parses back to the same level and name.
  */
  lemma StripCanonical(n: string, name: string)
    requires |n| >= 1 && AllDigits(n)
    requires ' ' !in name && '.' !in name
    ensures Strip("Lv " + n + " " + name) == n + name
  {
    var text := "Lv " + n + " " + name;
    assert ' ' !in n && '.' !in n by {
      forall k | 0 <= k < |n| ensures IsDigit(n[k]) { }
    }
    assert HasPrefix(text, "Lv") by { assert text[..2] == "Lv"; }
    var r1 := TrimPrefix(text, "Lv");
    assert r1 == (" " + n) + (" " + name);
    NoMarker(r1, "lv");
    NoMarker(r1, "LV");
    RemoveCharAppend(" " + n, " " + name, ' ');
    RemoveCharAppend(" ", n, ' ');
    RemoveCharAppend(" ", name, ' ');
    RemoveCharAbsent(n, ' ');
    RemoveCharAbsent(name, ' ');
    assert RemoveChar(" ", ' ') == "";
    assert RemoveChar(r1, ' ') == n + name;
    RemoveCharAbsent(n + name, '.');
  }

  /** The digits of a level followed by a name parse back to that level and name. */
  lemma ParseCanonical(level: nat, name: string, text: string)
    requires InRange(level)
    requires ' ' !in name && '.' !in name && '\n' !in name
    requires ' ' !in Decimal(level) + name && '.' !in Decimal(level) + name
    ensures Parse(Decimal(level) + name, text) == Parsed(level, name)
  {
    var n := Decimal(level);
    DecimalValue(level);
    DecimalLength(level);
    var s := n + name;
    var d := LeadingDigits(s);
    assert s[..|n|] == n;
    if |n| == 3 {
      assert d == n && d[..3] == d;
      assert FirstInRange(d, 3) == Some(3);
      assert s[|d|..] == name;
      ParseSuccess(s, text, d, 3, level, name);
    } else {
      assert |n| == 2;
      assert d[..2] == n;
      if |d| == 3 {
        assert d[..2] == d[..|d| - 1] && d[..3] == d;
        assert DigitsValue(d) >= 850;
        assert FirstInRange(d, 3) == FirstInRange(d, 2);
        assert d[2..] + s[3..] == name;
      } else {
        assert s[2..] == name;
      }
      assert FirstInRange(d, 2) == Some(2);
      ParseSuccess(s, text, d, 2, level, name);
    }
  }

  lemma ParseSuccess(s: string, text: string, d: string, i: nat, level: int, nick: string)
    requires ' ' !in s && '.' !in s
    requires LeadingDigits(s) == d && FirstInRange(d, |d|) == Some(i)
    requires DigitsValue(d[..i]) == level && d[i..] + UpToNewline(s[|d|..]) == nick
    ensures Parse(s, text) == Parsed(level, nick)
  {
  }

  /**
    Normalising is stable: the text "Lv <level> <name>" built from a successful
    parse parses back to the same level and name.
  */
  lemma ExtractOfCanonical(level: nat, name: string)
    requires InRange(level)
    requires ' ' !in name && '.' !in name && '\n' !in name
    ensures Extract("Lv " + Decimal(level) + " " + name) == Parsed(level, name)
  {
    var text := "Lv " + Decimal(level) + " " + name;
    DecimalValue(level);
    StripCanonical(Decimal(level), name);
    StripNoSpaceOrPeriod(text);
    ParseCanonical(level, name, text);
  }

  /** Extract, unfolded once for a text whose parse is known piece by piece. */
  lemma ExtractSuccess(text: string, s: string, d: string, i: nat, level: int, nick: string)
    requires Strip(text) == s && LeadingDigits(s) == d && FirstInRange(d, |d|) == Some(i)
    requires DigitsValue(d[..i]) == level && d[i..] + UpToNewline(s[|d|..]) == nick
    ensures Extract(text) == Parsed(level, nick)
  {
  }

  lemma ExtractFailure(text: string, s: string, d: string)
    requires Strip(text) == s && LeadingDigits(s) == d && FirstInRange(d, |d|) == None
    ensures Extract(text) == Parsed(0, text)
  {
  }

  lemma DigitsLevel200()
    ensures LeadingDigits("200홍길동") == "200" && FirstInRange("200", 3) == Some(3)
    ensures DigitsValue("200"[..3]) == 200 && "200"[3..] + UpToNewline("200홍길동"[3..]) == "홍길동"
  {
    assert "200"[..3] == "200" && "200"[..2] == "20" && "20"[..1] == "2" && "2"[..0] == [];
    assert "200홍길동"[3..] == "홍길동" && "200"[3..] == [];
    assert UpToNewline("홍길동") == "홍길동";
  }

  /** "Lv200홍길동" parses to level 200 and the name "홍길동". */
  lemma ExampleLevel200()
    ensures Extract("Lv200홍길동") == Parsed(200, "홍길동")
  {
    assert "Lv200홍길동" == "Lv" + "200홍길동";
    StripPlain("200홍길동");
    DigitsLevel200();
    ExtractSuccess("Lv200홍길동", "200홍길동", "200", 3, 200, "홍길동");
  }

  lemma TrimSpacedLevel()
    ensures TrimPrefix(TrimPrefix(TrimPrefix("Lv. 99 바람", "Lv"), "lv"), "LV") == ". 99 바람"
  {
    var t := "Lv. 99 바람";
    var r1 := ". 99 바람";
    assert t == "Lv" + r1;
    assert HasPrefix(t, "Lv") by { assert t[..2] == "Lv"; }
    assert TrimPrefix(t, "Lv") == r1;
    NoMarker(r1, "lv");
    NoMarker(r1, "LV");
  }

  lemma RemoveSpacesSpacedLevel()
    ensures RemoveChar(". 99 바람", ' ') == ".99바람"
  {
    var r1 := ". 99 바람";
    assert r1 == ". " + "99" + " " + "바람";
    RemoveCharAppend(". " + "99" + " ", "바람", ' ');
    RemoveCharAppend(". " + "99", " ", ' ');
    RemoveCharAppend(". ", "99", ' ');
    RemoveCharAbsent("99", ' ');
    RemoveCharAbsent("바람", ' ');
    assert RemoveChar(". ", ' ') == ".";
    assert RemoveChar(" ", ' ') == "";
  }

  lemma RemovePeriodsSpacedLevel()
    ensures RemoveChar(".99바람", '.') == "99바람"
  {
    assert ".99바람" == "." + "99바람";
    RemoveCharAppend(".", "99바람", '.');
    RemoveCharAbsent("99바람", '.');
  }

  lemma StripSpacedLevel()
    ensures Strip("Lv. 99 바람") == "99바람"
  {
    TrimSpacedLevel();
    RemoveSpacesSpacedLevel();
    RemovePeriodsSpacedLevel();
  }

  lemma DigitsSpacedLevel()
    ensures LeadingDigits("99바람") == "99" && FirstInRange("99", 2) == Some(2)
    ensures DigitsValue("99"[..2]) == 99 && "99"[2..] + UpToNewline("99바람"[2..]) == "바람"
  {
    assert "99"[..2] == "99" && "99"[..1] == "9" && "9"[..0] == [];
    assert "99바람"[2..] == "바람" && "99"[2..] == [];
    assert UpToNewline("바람") == "바람";
  }

  /** "Lv. 99 바람" loses its period and spaces and parses to level 99 and "바람". */
  lemma ExampleSpacedLevel()
    ensures Extract("Lv. 99 바람") == Parsed(99, "바람")
  {
    StripSpacedLevel();
    DigitsSpacedLevel();
    ExtractSuccess("Lv. 99 바람", "99바람", "99", 2, 99, "바람");
  }

  lemma DigitsLevelTooLow()
    ensures LeadingDigits("7일반유저") == "7" && FirstInRange("7", 1) == None
  {
    assert "7"[..1] == "7" && "7"[..0] == [];
    assert DigitsValue("7") == 7;
  }

  /** "Lv7일반유저": 7 is below every playable level, so the input comes back untouched with level 0. */
  lemma ExampleLevelTooLow()
    ensures Extract("Lv7일반유저") == Parsed(0, "Lv7일반유저")
  {
    assert "Lv7일반유저" == "Lv" + "7일반유저";
    StripPlain("7일반유저");
    DigitsLevelTooLow();
    ExtractFailure("Lv7일반유저", "7일반유저", "7");
  }

  lemma StripTwoMarkers()
    ensures Strip("LvLV150a") == "150a"
  {
    var u := "LvLV150a";
    assert HasPrefix(u, "Lv") by { assert u[..2] == "Lv"; }
    assert TrimPrefix(u, "Lv") == "LV150a";
    NoMarker("LV150a", "lv");
    assert HasPrefix("LV150a", "LV") by { assert "LV150a"[..2] == "LV"; }
    assert TrimPrefix("LV150a", "LV") == "150a";
    RemoveCharAbsent("150a", ' ');
    RemoveCharAbsent("150a", '.');
  }

  lemma DigitsTwoMarkers()
    ensures LeadingDigits("150a") == "150" && FirstInRange("150", 3) == Some(3)
    ensures DigitsValue("150"[..3]) == 150 && "150"[3..] + UpToNewline("150a"[3..]) == "a"
  {
    assert "150"[..3] == "150" && "150"[..2] == "15" && "15"[..1] == "1" && "1"[..0] == [];
    assert "150a"[3..] == "a" && "150"[3..] == [];
    assert UpToNewline("a") == "a";
  }

  /** The markers are trimmed once each, in the order "Lv", "lv", "LV": "LvLV150a" loses both. */
  lemma ExampleTwoMarkers()
    ensures Extract("LvLV150a") == Parsed(150, "a")
  {
    StripTwoMarkers();
    DigitsTwoMarkers();
    ExtractSuccess("LvLV150a", "150a", "150", 3, 150, "a");
  }

  lemma StripMixedCaseMarker()
    ensures Strip("lV150a") == "lV150a" && LeadingDigits("lV150a") == []
  {
    var w := "lV150a";
    NoMarker(w, "Lv");
    NoMarker(w, "lv");
    NoMarker(w, "LV");
    RemoveCharAbsent(w, ' ');
    RemoveCharAbsent(w, '.');
  }

  /** A mixed-case "lV" marker is never trimmed, so the text does not start with a digit. */
  lemma ExampleMixedCaseMarker()
    ensures Extract("lV150a") == Parsed(0, "lV150a")
  {
    StripMixedCaseMarker();
    ExtractFailure("lV150a", "lV150a", []);
  }

  lemma DigitsSurplusDigit()
    ensures LeadingDigits("999a") == "999" && FirstInRange("999", 3) == Some(2)
    ensures DigitsValue("999"[..2]) == 99 && "999"[2..] + UpToNewline("999a"[3..]) == "9a"
  {
    assert "999"[..3] == "999" && "999"[..2] == "99" && "99"[..1] == "9" && "9"[..0] == [];
    assert DigitsValue("999") == 999;
    assert "999a"[3..] == "a" && "999"[2..] == "9";
    assert UpToNewline("a") == "a";
  }

  /** Of "999" only "99" is a level; the surplus digit goes back to the front of the nickname. */
  lemma ExampleSurplusDigit()
    ensures Extract("Lv999a") == Parsed(99, "9a")
  {
    assert "Lv999a" == "Lv" + "999a";
    StripPlain("999a");
    DigitsSurplusDigit();
    ExtractSuccess("Lv999a", "999a", "999", 2, 99, "9a");
  }
}
