/**
  Command-line helpers of the poll handlers in pkg/handler/poller.go:
  `parseArguments`, the tokenizer built on the regular expression
  `"([^"]*)"|(\S+)`, and Go's `strconv.Atoi`, which the handlers use to read
  poll numbers, choice numbers and durations.
*/
module PollArgs {
  import opened Text

  /** RE2's `\s`: tab, newline, form feed, carriage return and space. */
  predicate IsSpace(c: char)
  {
    c == '\t' || c == '\n' || c == '\U{000C}' || c == '\r' || c == ' '
  }

  predicate NoSpace(s: string)
  {
    forall k :: 0 <= k < |s| ==> !IsSpace(s[k])
  }

  /** Position of the first `c` in `s`, or -1. */
  function IndexOf(s: string, c: char): (k: int)
    ensures -1 <= k < |s|
    ensures k >= 0 ==> s[k] == c && c !in s[..k]
    ensures k == -1 ==> c !in s
  {
    if s == [] then -1
    else if s[0] == c then 0
    else
      var k := IndexOf(s[1..], c);
      if k == -1 then -1
      else
        assert s[..k + 1] == [s[0]] + s[1..][..k];
        k + 1
  }

  /** Length of the `\S+` run at the start of `s`. */
  function RunLength(s: string): (n: nat)
    ensures n <= |s| && NoSpace(s[..n])
    ensures n < |s| ==> IsSpace(s[n])
  {
    if s == [] || IsSpace(s[0]) then 0
    else
      var n := RunLength(s[1..]);
      assert s[..n + 1] == [s[0]] + s[1..][..n];
      n + 1
  }

  /**
    parseArguments (pkg/handler/poller.go:907-921). Matches are found left to
    right; at each position the quoted alternative is tried first. A quoted
    match yields its inside (the empty group of `""` yields "" through the
    other, non-participating group), otherwise the maximal non-whitespace run
    is the token, quotes and all.
  */
  function ParseArguments(s: string): seq<string>
    decreases |s|
  {
    if s == [] then []
    else if IsSpace(s[0]) then ParseArguments(s[1..])
    else if s[0] == '"' && IndexOf(s[1..], '"') >= 0 then
      var q := IndexOf(s[1..], '"');
      [s[1..q + 1]] + ParseArguments(s[q + 2..])
    else
      var n := RunLength(s);
      [s[..n]] + ParseArguments(s[n..])
  }

  /** Without quotes in the input every argument is a non-empty run of non-whitespace characters of the input. */
  lemma {:induction false} ParseArgumentsBare(s: string)
    requires '"' !in s
    ensures forall k :: 0 <= k < |ParseArguments(s)| ==>
      ParseArguments(s)[k] != [] && NoSpace(ParseArguments(s)[k]) && '"' !in ParseArguments(s)[k]
    decreases |s|
  {
    if s == [] {
    } else if IsSpace(s[0]) {
      assert forall x :: x in s[1..] ==> x in s;
      ParseArgumentsBare(s[1..]);
    } else {
      var n := RunLength(s);
      assert s[..n] != [] && s[0] in s[..n];
      assert forall x :: x in s[..n] ==> x in s;
      assert forall x :: x in s[n..] ==> x in s;
      ParseArgumentsBare(s[n..]);
    }
  }

  /** Leading whitespace produces no token. */
  lemma ParseSpace(c: char, rest: string)
    requires IsSpace(c)
    ensures ParseArguments([c] + rest) == ParseArguments(rest)
  {
    assert ([c] + rest)[1..] == rest;
  }

  lemma {:induction false} RunLengthOfToken(t: string, rest: string)
    requires NoSpace(t)
    requires rest == [] || IsSpace(rest[0])
    ensures RunLength(t + rest) == |t|
  {
    if t == [] {
      assert t + rest == rest;
    } else {
      assert (t + rest)[1..] == t[1..] + rest;
      RunLengthOfToken(t[1..], rest);
    }
  }

  /** A bare token ended by whitespace or by the end of the input is read back whole. */
  lemma ParsePlain(t: string, rest: string)
    requires t != [] && NoSpace(t) && t[0] != '"'
    requires rest == [] || IsSpace(rest[0])
    ensures ParseArguments(t + rest) == [t] + ParseArguments(rest)
  {
    var s := t + rest;
    RunLengthOfToken(t, rest);
    assert s[..|t|] == t;
    assert s[|t|..] == rest;
  }

  /** A quoted segment without inner quotes is read back as one token, quotes removed. */
  lemma ParseQuoted(t: string, rest: string)
    requires '"' !in t
    ensures ParseArguments("\"" + t + "\"" + rest) == [t] + ParseArguments(rest)
  {
    var s := "\"" + t + "\"" + rest;
    assert s[1..] == t + "\"" + rest;
    assert (t + "\"" + rest)[|t|] == '"';
    assert (t + "\"" + rest)[..|t|] == t;
    assert IndexOf(s[1..], '"') == |t|;
    assert s[1..|t| + 1] == t;
    assert s[|t| + 2..] == rest;
  }

  /** Every token wrapped in quotes and followed by a single space. */
  function Quoted(ts: seq<string>): string
  {
    if ts == [] then "" else "\"" + ts[0] + "\"" + " " + Quoted(ts[1..])
  }

  lemma QuotedCons(ts: seq<string>, rest: string)
    requires ts != []
    ensures Quoted(ts) + rest == "\"" + ts[0] + "\"" + ([' '] + (Quoted(ts[1..]) + rest))
  {
  }

  /** Quote-free tokens, spaces and empty strings included, survive quoting and parsing. */
  lemma {:induction false} ParseQuotedAll(ts: seq<string>, rest: string)
    requires forall k :: 0 <= k < |ts| ==> '"' !in ts[k]
    ensures ParseArguments(Quoted(ts) + rest) == ts + ParseArguments(rest)
  {
    if ts == [] {
      assert Quoted(ts) + rest == rest;
    } else {
      var tail := Quoted(ts[1..]) + rest;
      QuotedCons(ts, rest);
      ParseQuoted(ts[0], [' '] + tail);
      ParseSpace(' ', tail);
      ParseQuotedAll(ts[1..], rest);
      Recons(ts, ParseArguments(rest));
    }
  }

  /** Every token followed by a single space. */
  function Spaced(ts: seq<string>): string
  {
    if ts == [] then "" else ts[0] + " " + Spaced(ts[1..])
  }

  /** Bare tokens (non-empty, no whitespace, not opening a quote) are read back as the whitespace-separated runs. */
  lemma {:induction false} ParseSpacedAll(ts: seq<string>, rest: string)
    requires forall k :: 0 <= k < |ts| ==> ts[k] != [] && NoSpace(ts[k]) && ts[k][0] != '"'
    ensures ParseArguments(Spaced(ts) + rest) == ts + ParseArguments(rest)
  {
    if ts == [] {
      assert Spaced(ts) + rest == rest;
    } else {
      var tail := Spaced(ts[1..]) + rest;
      SpacedCons(ts, rest);
      ParsePlain(ts[0], [' '] + tail);
      ParseSpace(' ', tail);
      ParseSpacedAll(ts[1..], rest);
      Recons(ts, ParseArguments(rest));
    }
  }

  lemma Recons<T>(xs: seq<T>, ys: seq<T>)
    requires xs != []
    ensures [xs[0]] + (xs[1..] + ys) == xs + ys
  {
    assert xs == [xs[0]] + xs[1..];
  }

  lemma SpacedCons(ts: seq<string>, rest: string)
    requires ts != []
    ensures Spaced(ts) + rest == ts[0] + ([' '] + (Spaced(ts[1..]) + rest))
  {
  }

  /**
    The shape of the `!투표 생성` usage example: bare words, then a quoted
    title holding a space, then more bare words, give one argument each.
  */
  lemma ParseCreateShape(before: seq<string>, title: string, after: seq<string>)
    requires forall k :: 0 <= k < |before| ==> before[k] != [] && NoSpace(before[k]) && before[k][0] != '"'
    requires '"' !in title
    requires forall k :: 0 <= k < |after| ==> after[k] != [] && NoSpace(after[k]) && after[k][0] != '"'
    ensures ParseArguments(Spaced(before) + Quoted([title]) + Spaced(after)) == before + [title] + after
  {
    var sa, q := Spaced(after), Quoted([title]);
    ParseSpacedAll(after, "");
    AppendNil(sa);
    assert ParseArguments("") == [];
    AppendNil(after);
    ParseQuotedAll([title], sa);
    ParseSpacedAll(before, q + sa);
    Assoc(Spaced(before), q, sa);
    Assoc(before, [title], after);
  }

  lemma AppendNil<T>(xs: seq<T>)
    ensures xs + [] == xs
  {
  }

  lemma Assoc<T>(xs: seq<T>, ys: seq<T>, zs: seq<T>)
    ensures xs + ys + zs == xs + (ys + zs)
  {
  }

  /** The last two arguments of the `!투표 생성` usage example. */
  lemma ExampleChoices()
    ensures ParseArguments("네,아니오,모르겠음 1") == ["네,아니오,모르겠음", "1"]
  {
    var w := "네,아니오,모르겠음";
    ParsePlain("1", "");
    assert "1" + "" == "1";
    ParseSpace(' ', "1");
    ParsePlain(w, [' '] + "1");
    assert w + ([' '] + "1") == "네,아니오,모르겠음 1";
  }

  const MaxInt64: int := 0x7fff_ffff_ffff_ffff
  const MinInt64: int := -0x8000_0000_0000_0000

  datatype NumError = ErrSyntax | ErrRange

  /**
    strconv.Atoi: an optional sign followed by one or more ASCII digits, whose
    value must fit in a 64-bit int.
  */
  function Atoi(s: string): (r: Result<int, NumError>)
    ensures r.Ok? ==> MinInt64 <= r.value <= MaxInt64
    ensures r.Ok? ==> s != [] && (IsDigit(s[0]) || s[0] == '+' || s[0] == '-')
  {
    var body := if s != [] && (s[0] == '+' || s[0] == '-') then s[1..] else s;
    if body == [] || !AllDigits(body) then Err(ErrSyntax)
    else
      var v: int := if s[0] == '-' then -(DigitsValue(body) as int) else DigitsValue(body);
      if v < MinInt64 || v > MaxInt64 then Err(ErrRange) else Ok(v)
  }

  lemma AtoiUnsigned(d: string)
    requires d != [] && AllDigits(d) && DigitsValue(d) <= MaxInt64
    ensures Atoi(d) == Ok(DigitsValue(d))
  {
    assert IsDigit(d[0]);
  }

  lemma AtoiNegative(d: string)
    requires d != [] && AllDigits(d) && DigitsValue(d) <= -MinInt64
    ensures Atoi("-" + d) == Ok(-(DigitsValue(d) as int))
  {
    assert ("-" + d)[1..] == d;
  }

  /** Formatting an int64 and reading it back with Atoi gives the number. */
  lemma AtoiItoa(n: int)
    requires MinInt64 <= n <= MaxInt64
    ensures Atoi(Itoa(n)) == Ok(n)
  {
    if n < 0 {
      DecimalValue(-n);
      AtoiNegative(Decimal(-n));
    } else {
      DecimalValue(n);
      AtoiUnsigned(Decimal(n));
    }
  }

  /** Text that is not a signed run of digits is refused, whatever its value. */
  lemma AtoiRejects(s: string, k: nat)
    requires 0 <= k < |s| && !IsDigit(s[k])
    requires k == 0 ==> s[0] != '+' && s[0] != '-'
    ensures Atoi(s).Err?
  {
    var body := if s[0] == '+' || s[0] == '-' then s[1..] else s;
    if k == 0 {
      assert body[0] == s[0];
    } else if s[0] == '+' || s[0] == '-' {
      assert body[k - 1] == s[k];
    } else {
      assert body[k] == s[k];
    }
  }
}
