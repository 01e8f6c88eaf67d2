/**
 * `datetime.datetime.strptime(s, '%Y-%m-%d')` as CPython's `_strptime` computes it: the
 * format is turned into the regular expression
 *   `(\d\d\d\d)-(1[0-2]|0[1-9]|[1-9])-(3[01]|[12]\d|0[1-9]|[1-9]| [1-9])`
 * which is matched with `re.match`; text left over after the match raises
 * "unconverted data remains"; the captures are read with `int()`, and `datetime` then
 * rejects a year below `MINYEAR` or a day past the end of its month. Every failure is a
 * `ValueError`.
 */
module Strptime {
  import opened Wrappers
  import opened Regex
  import opened Calendar

  const YearGroup: Group := [[Digit, Digit, Digit, Digit]]
  const DashGroup: Group := [[Lit('-')]]
  const MonthGroup: Group := [[Lit('1'), CharRange('0', '2')], [Lit('0'), CharRange('1', '9')], [CharRange('1', '9')]]
  const DayGroup: Group :=
    [[Lit('3'), CharRange('0', '1')], [CharRange('1', '2'), Digit], [Lit('0'), CharRange('1', '9')],
     [CharRange('1', '9')], [Lit(' '), CharRange('1', '9')]]
  const YmdPattern: Pattern := [YearGroup, DashGroup, MonthGroup, DashGroup, DayGroup]

  /** The three ways the parse raises `ValueError`. */
  datatype ValueError =
    | DoesNotMatchFormat       // `re.match` found no match
    | UnconvertedDataRemains   // the match stopped before the end of the string
    | OutOfRange               // `datetime` refused the year or the day

  /** The text `int()` is given: digits, or the blank-padded single digit of a day. */
  predicate IsIntText(t: string)
  {
    AllDigits(t) || (|t| > 0 && t[0] == ' ' && AllDigits(t[1..]))
  }

  /** Python's `int()` on a capture; it ignores leading blanks. */
  function IntOf(t: string): nat
    requires IsIntText(t)
  {
    if |t| > 0 && t[0] == ' ' then DigitsValue(t[1..]) else DigitsValue(t)
  }

  lemma YearSpelled(t: string)
    requires Spelled(YearGroup, t)
    ensures |t| == 4 && AllDigits(t)
  {
    var b :| b in YearGroup && FullMatch(b, t);
    assert ClassMatches(b[0], t[0]) && ClassMatches(b[1], t[1]) && ClassMatches(b[2], t[2]) && ClassMatches(b[3], t[3]);
  }

  lemma DashSpelled(t: string)
    requires Spelled(DashGroup, t)
    ensures t == "-"
  {
    var b :| b in DashGroup && FullMatch(b, t);
    assert ClassMatches(b[0], t[0]);
  }

  lemma MatchesHead(p: Pattern, s: string, i: nat, caps: seq<string>)
    requires p != [] && Matches(p, s, i, caps)
    ensures |caps| > 0 && Spelled(p[0], caps[0]) && Matches(p[1..], s, i + |caps[0]|, caps[1..])
  {
  }

  lemma Concat5(caps: seq<string>)
    requires |caps| == 5
    ensures Concat(caps) == caps[0] + caps[1] + caps[2] + caps[3] + caps[4]
  {
    assert Concat(caps[4..]) == caps[4] by {
      assert caps[4..][1..] == [];
    }
    assert Concat(caps[3..]) == caps[3] + Concat(caps[4..]) by {
      assert caps[3..][1..] == caps[4..];
    }
    assert Concat(caps[2..]) == caps[2] + Concat(caps[3..]) by {
      assert caps[2..][1..] == caps[3..];
    }
    assert Concat(caps[1..]) == caps[1] + Concat(caps[2..]) by {
      assert caps[1..][1..] == caps[2..];
    }
  }

  /** Each capture of a match of the year-month-day pattern is spelled by its own group. */
  lemma YmdGroups(s: string, caps: seq<string>)
    requires Matches(YmdPattern, s, 0, caps)
    ensures |caps| == 5 && caps[1] == "-" && caps[3] == "-"
    ensures Spelled(YearGroup, caps[0]) && Spelled(MonthGroup, caps[2]) && Spelled(DayGroup, caps[4])
  {
    var p0 := YmdPattern;
    var p1 := [DashGroup, MonthGroup, DashGroup, DayGroup];
    var p2 := [MonthGroup, DashGroup, DayGroup];
    var p3 := [DashGroup, DayGroup];
    var p4 := [DayGroup];
    assert p0[1..] == p1 && p1[1..] == p2 && p2[1..] == p3 && p3[1..] == p4;
    var i1 := |caps[0]|;
    MatchesHead(p0, s, 0, caps);
    var i2 := i1 + |caps[1]|;
    MatchesHead(p1, s, i1, caps[1..]);
    var i3 := i2 + |caps[2]|;
    MatchesHead(p2, s, i2, caps[2..]);
    var i4 := i3 + |caps[3]|;
    MatchesHead(p3, s, i3, caps[3..]);
    MatchesHead(p4, s, i4, caps[4..]);
    DashSpelled(caps[1]);
    DashSpelled(caps[3]);
  }

  /** The match of the whole pattern splits into year, dash, month, dash and day. */
  lemma YmdCaptures(s: string, caps: seq<string>)
    requires Matches(YmdPattern, s, 0, caps)
    ensures |caps| == 5 && caps[1] == "-" && caps[3] == "-"
    ensures Spelled(YearGroup, caps[0]) && Spelled(MonthGroup, caps[2]) && Spelled(DayGroup, caps[4])
    ensures Concat(caps) == caps[0] + "-" + caps[2] + "-" + caps[4]
    ensures |Concat(caps)| <= |s| && s[..|Concat(caps)|] == Concat(caps)
  {
    MatchesConsume(YmdPattern, s, 0, caps);
    YmdGroups(s, caps);
    Concat5(caps);
  }

  /** `strptime(s, '%Y-%m-%d')`: the date `s` denotes, or the `ValueError` it raises. */
  function StrptimeYmd(s: string): (r: Result<Date, ValueError>)
    ensures r.Ok? ==> IsCalendarDate(r.value)
  {
    match MatchAt(YmdPattern, s, 0)
    case None => Err(DoesNotMatchFormat)
    case Some(caps) =>
      YmdCaptures(s, caps);
      YearSpelled(caps[0]);
      MonthSpelled(caps[2]);
      DaySpelled(caps[4]);
      if |Concat(caps)| != |s| then Err(UnconvertedDataRemains)
      else
        var dt := Date(IntOf(caps[0]), IntOf(caps[2]), IntOf(caps[4]));
        if IsCalendarDate(dt) then Ok(dt) else Err(OutOfRange)
  }

  // ---------------------------------------------------------------------------------
  // The accepted spellings of a date, defined independently of the regular expression.

  /** A month is written with two digits, or with one when it is below 10. */
  function MonthSpellings(m: nat): set<string>
    requires 1 <= m <= 12
  {
    {Pad2(m)} + (if m < 10 then {[DigitChar(m)]} else {})
  }

  /** A day is written with two digits, or with one (bare or after a blank) when it is below 10. */
  function DaySpellings(d: nat): set<string>
    requires 1 <= d <= 31
  {
    {Pad2(d)} + (if d < 10 then {[DigitChar(d)], [' ', DigitChar(d)]} else {})
  }

  /** Every text that names the date `dt` in the form year-month-day with a four-digit year. */
  function Spellings(dt: Date): set<string>
    requires IsCalendarDate(dt)
  {
    set mt, dd | mt in MonthSpellings(dt.month) && dd in DaySpellings(dt.day) :: Pad4(dt.year) + "-" + mt + "-" + dd
  }

  /** `date.isoformat()`: the zero-padded spelling. */
  function IsoFormat(dt: Date): (s: string)
    requires IsCalendarDate(dt)
    ensures s in Spellings(dt) && |s| == 10
  {
    assert Pad2(dt.month) in MonthSpellings(dt.month) && Pad2(dt.day) in DaySpellings(dt.day);
    Pad4(dt.year) + "-" + Pad2(dt.month) + "-" + Pad2(dt.day)
  }

  /** What the month group captures is a spelling of the month it denotes. */
  lemma MonthSpelled(t: string)
    requires Spelled(MonthGroup, t)
    ensures AllDigits(t) && 1 <= IntOf(t) <= 12 && t in MonthSpellings(IntOf(t))
  {
    var b :| b in MonthGroup && FullMatch(b, t);
    assert ClassMatches(b[0], t[0]);
    if |t| == 2 {
      assert ClassMatches(b[1], t[1]);
      DigitsValue2(t);
      Pad2RoundTrip(0, t);
    } else {
      DigitsValue1(t[0]);
      assert t == [DigitChar(DigitValue(t[0]))];
    }
  }

  /** What the day group captures is a spelling of the day it denotes. */
  lemma DaySpelled(t: string)
    requires Spelled(DayGroup, t)
    ensures IsIntText(t) && 1 <= IntOf(t) <= 31 && t in DaySpellings(IntOf(t))
  {
    var b :| b in DayGroup && FullMatch(b, t);
    assert ClassMatches(b[0], t[0]);
    if |t| == 2 && t[0] == ' ' {
      assert ClassMatches(b[1], t[1]);
      assert t[1..] == [t[1]];
      DigitsValue1(t[1]);
      assert t == [' ', DigitChar(DigitValue(t[1]))];
    } else if |t| == 2 {
      assert ClassMatches(b[1], t[1]);
      DigitsValue2(t);
      Pad2RoundTrip(0, t);
    } else {
      DigitsValue1(t[0]);
      assert t == [DigitChar(DigitValue(t[0]))];
    }
  }

  /** Each spelling reads back as the number it spells. */
  lemma SpellingValues(m: nat, mt: string, d: nat, dd: string)
    requires 1 <= m <= 12 && mt in MonthSpellings(m)
    requires 1 <= d <= 31 && dd in DaySpellings(d)
    ensures AllDigits(mt) && IntOf(mt) == m
    ensures IsIntText(dd) && IntOf(dd) == d
  {
    Pad2RoundTrip(m, []);
    Pad2RoundTrip(d, []);
    if mt != Pad2(m) {
      DigitsValue1(mt[0]);
    }
    if dd != Pad2(d) {
      if dd[0] == ' ' {
        assert dd[1..] == [DigitChar(d)];
        DigitsValue1(dd[1]);
      } else {
        DigitsValue1(dd[0]);
      }
    }
  }

  /** On a two-digit day spelling, `re.match` takes branch 0, 1 or 2 of the day group: every earlier one fails. */
  lemma PaddedDayBranch(s: string, j: nat, d: nat) returns (k: nat)
    requires j <= |s| && 1 <= d <= 31 && s[j..] == Pad2(d)
    ensures k < |DayGroup| && |DayGroup[k]| == |s| - j && BranchMatchesAt(DayGroup[k], s, j)
    ensures forall i :: 0 <= i < k ==> !BranchMatchesAt(DayGroup[i], s, j)
  {
    var dd := s[j..];
    var g := DayGroup;
    assert s[j] == dd[0] && s[j + 1] == dd[1];
    if d >= 30 {
      k := 0;
    } else if d >= 10 {
      k := 1;
      BranchRejects(g[0], s, j, 0);
    } else {
      k := 2;
      BranchRejects(g[0], s, j, 0);
      BranchRejects(g[1], s, j, 0);
    }
    assert BranchMatchesAt(g[k], s, j) by {
      assert s[j..j + |g[k]|] == dd;
    }
  }

  /** On a one-digit day spelling, bare or after a blank, `re.match` takes branch 3 or 4 of the day group. */
  lemma ShortDayBranch(s: string, j: nat, d: nat) returns (k: nat)
    requires j <= |s| && 1 <= d < 10 && (s[j..] == [DigitChar(d)] || s[j..] == [' ', DigitChar(d)])
    ensures k < |DayGroup| && |DayGroup[k]| == |s| - j && BranchMatchesAt(DayGroup[k], s, j)
    ensures forall i :: 0 <= i < k ==> !BranchMatchesAt(DayGroup[i], s, j)
  {
    var dd := s[j..];
    var g := DayGroup;
    assert s[j] == dd[0];
    if dd[0] != ' ' {
      k := 3;
    } else {
      k := 4;
      BranchRejects(g[0], s, j, 0);
      BranchRejects(g[1], s, j, 0);
      BranchRejects(g[2], s, j, 0);
      BranchRejects(g[3], s, j, 0);
    }
    assert BranchMatchesAt(g[k], s, j) by {
      assert s[j..j + |g[k]|] == dd;
    }
  }

  /** At the end of the string, the day group takes exactly a day spelling. */
  lemma DayMatch(s: string, j: nat, d: nat)
    requires j <= |s| && 1 <= d <= 31 && s[j..] in DaySpellings(d)
    ensures MatchAt([DayGroup], s, j) == Some([s[j..]])
  {
    var dd := s[j..];
    var g := DayGroup;
    var k: nat;
    if dd == Pad2(d) {
      k := PaddedDayBranch(s, j, d);
    } else {
      k := ShortDayBranch(s, j, d);
    }
    assert [DayGroup][1..] == [];
    TryBranchesPicksFirst(g, [], s, j, k, []);
    assert s[j..j + |g[k]|] == dd;
    assert [s[j..j + |g[k]|]] + [] == [dd];
    assert TryBranches(g, [], s, j) == Some([dd]);
    assert MatchAt([DayGroup], s, j) == TryBranches(g, [], s, j);
  }

  /** A dash followed by a day spelling that ends the string. */
  lemma DashDayMatch(s: string, j: nat, d: nat)
    requires j < |s| && s[j] == '-' && 1 <= d <= 31 && s[j + 1..] in DaySpellings(d)
    ensures MatchAt([DashGroup, DayGroup], s, j) == Some(["-", s[j + 1..]])
  {
    DayMatch(s, j + 1, d);
    assert [DashGroup, DayGroup][1..] == [DayGroup];
    assert BranchMatchesAt(DashGroup[0], s, j) by {
      assert s[j..j + 1] == "-";
    }
    TryBranchesPicksFirst(DashGroup, [DayGroup], s, j, 0, [s[j + 1..]]);
    assert s[j..j + 1] == "-";
    assert [s[j..j + 1]] + [s[j + 1..]] == ["-", s[j + 1..]];
    assert MatchAt([DashGroup, DayGroup], s, j) == TryBranches(DashGroup, [DayGroup], s, j);
  }

  /** Which branch of the month group takes a month spelling that a dash follows. */
  lemma MonthBranch(s: string, m: nat, mt: string) returns (k: nat)
    requires 1 <= m <= 12 && mt in MonthSpellings(m)
    requires 5 + |mt| < |s| && s[5..5 + |mt|] == mt && s[5 + |mt|] == '-'
    ensures k < |MonthGroup| && |MonthGroup[k]| == |mt| && BranchMatchesAt(MonthGroup[k], s, 5)
    ensures forall j :: 0 <= j < k ==> !BranchMatchesAt(MonthGroup[j], s, 5)
  {
    var g := MonthGroup;
    assert forall i :: 0 <= i < |mt| ==> s[5 + i] == mt[i] by {
      forall i | 0 <= i < |mt| ensures s[5 + i] == mt[i] {
        assert s[5..5 + |mt|][i] == s[5 + i];
      }
    }
    if mt == Pad2(m) && m >= 10 {
      k := 0;
    } else if mt == Pad2(m) {
      k := 1;
      BranchRejects(g[0], s, 5, 0);
    } else {
      k := 2;
      if s[5] == '1' {
        BranchRejects(g[0], s, 5, 1);
      } else {
        BranchRejects(g[0], s, 5, 0);
      }
      BranchRejects(g[1], s, 5, 0);
    }
    assert BranchMatchesAt(g[k], s, 5);
  }

  /** Text `mt + "-" + dd` from position `i` on falls apart at the dash after `mt`. */
  lemma SplitAtDash(s: string, i: nat, mt: string, dd: string)
    requires i <= |s| && s[i..] == mt + "-" + dd
    ensures i + |mt| < |s| && s[i..i + |mt|] == mt && s[i + |mt|] == '-' && s[i + |mt| + 1..] == dd
  {
    assert s[i..][..|mt|] == mt;
    assert (mt + "-" + dd)[|mt|] == '-';
    assert (mt + "-" + dd)[|mt| + 1..] == dd;
  }

  /** From position 5: a month spelling, a dash and a day spelling that ends the string. */
  lemma MonthDayMatch(s: string, m: nat, mt: string, d: nat, dd: string)
    requires 1 <= m <= 12 && mt in MonthSpellings(m) && 1 <= d <= 31 && dd in DaySpellings(d)
    requires |s| >= 5 && s[5..] == mt + "-" + dd
    ensures MatchAt([MonthGroup, DashGroup, DayGroup], s, 5) == Some([mt, "-", dd])
  {
    var j := 5 + |mt|;
    SplitAtDash(s, 5, mt, dd);
    DashDayMatch(s, j, d);
    var k := MonthBranch(s, m, mt);
    MatchAtTakes(MonthGroup, [DashGroup, DayGroup], s, 5, k, ["-", dd]);
    assert [MonthGroup] + [DashGroup, DayGroup] == [MonthGroup, DashGroup, DayGroup];
    assert [s[5..5 + |MonthGroup[k]|]] + ["-", dd] == [mt, "-", dd];
  }

  /** From position 4: a dash, a month spelling, a dash and a day spelling that ends the string. */
  lemma DashMonthDayMatch(s: string, m: nat, mt: string, d: nat, dd: string)
    requires 1 <= m <= 12 && mt in MonthSpellings(m) && 1 <= d <= 31 && dd in DaySpellings(d)
    requires |s| >= 5 && s[4] == '-' && s[5..] == mt + "-" + dd
    ensures MatchAt([DashGroup, MonthGroup, DashGroup, DayGroup], s, 4) == Some(["-", mt, "-", dd])
  {
    var p2 := [MonthGroup, DashGroup, DayGroup];
    MonthDayMatch(s, m, mt, d, dd);
    assert s[4..5] == "-";
    assert BranchMatchesAt(DashGroup[0], s, 4);
    MatchAtTakes(DashGroup, p2, s, 4, 0, [mt, "-", dd]);
    assert [DashGroup] + p2 == [DashGroup, MonthGroup, DashGroup, DayGroup];
    assert [s[4..5]] + [mt, "-", dd] == ["-", mt, "-", dd];
  }

  /** The whole pattern takes a spelling apart into its year, month and day texts. */
  lemma SpellingMatch(y: nat, m: nat, mt: string, d: nat, dd: string)
    requires y < 10000 && 1 <= m <= 12 && mt in MonthSpellings(m) && 1 <= d <= 31 && dd in DaySpellings(d)
    ensures MatchAt(YmdPattern, Pad4(y) + "-" + mt + "-" + dd, 0) == Some([Pad4(y), "-", mt, "-", dd])
  {
    var yt := Pad4(y);
    var s := yt + "-" + mt + "-" + dd;
    Pad4RoundTrip(y, []);
    assert s[..4] == yt && s[4] == '-' && s[5..] == mt + "-" + dd;
    var p1 := [DashGroup, MonthGroup, DashGroup, DayGroup];
    DashMonthDayMatch(s, m, mt, d, dd);
    assert YmdPattern[1..] == p1;
    assert BranchMatchesAt(YearGroup[0], s, 0) by {
      assert s[0..4] == yt;
      forall k | 0 <= k < 4 ensures ClassMatches(YearGroup[0][k], yt[k]) {
        assert IsDigit(yt[k]);
      }
    }
    TryBranchesPicksFirst(YearGroup, p1, s, 0, 0, ["-", mt, "-", dd]);
    assert s[0..4] == yt;
    assert [s[0..4]] + ["-", mt, "-", dd] == [yt, "-", mt, "-", dd];
    assert MatchAt(YmdPattern, s, 0) == TryBranches(YearGroup, p1, s, 0);
  }

  /**
   * Any text shaped like a spelling (four-digit year, month 1-12, day 1-31) is taken apart
   * into those numbers; `datetime` then decides whether they form a calendar date.
   */
  lemma StrptimeOfSpelling(y: nat, m: nat, mt: string, d: nat, dd: string)
    requires y < 10000 && 1 <= m <= 12 && mt in MonthSpellings(m) && 1 <= d <= 31 && dd in DaySpellings(d)
    ensures StrptimeYmd(Pad4(y) + "-" + mt + "-" + dd) ==
      if IsCalendarDate(Date(y, m, d)) then Ok(Date(y, m, d)) else Err(OutOfRange)
  {
    var caps := [Pad4(y), "-", mt, "-", dd];
    SpellingMatch(y, m, mt, d, dd);
    Concat5(caps);
    Pad4RoundTrip(y, []);
    SpellingValues(m, mt, d, dd);
  }

  /** `strptime` reads every spelling of a calendar date back as that date. */
  lemma StrptimeReadsSpelling(dt: Date, mt: string, dd: string)
    requires IsCalendarDate(dt) && mt in MonthSpellings(dt.month) && dd in DaySpellings(dt.day)
    ensures StrptimeYmd(Pad4(dt.year) + "-" + mt + "-" + dd) == Ok(dt)
  {
    StrptimeOfSpelling(dt.year, dt.month, mt, dt.day, dd);
  }

  /** Everything `strptime` accepts is a spelling of the date it returns. */
  lemma StrptimeOnlyReadsSpellings(s: string)
    requires StrptimeYmd(s).Ok?
    ensures s in Spellings(StrptimeYmd(s).value)
  {
    var caps := MatchAt(YmdPattern, s, 0).value;
    YmdCaptures(s, caps);
    YearSpelled(caps[0]);
    MonthSpelled(caps[2]);
    DaySpelled(caps[4]);
    Pad4RoundTrip(0, caps[0]);
    var dt := StrptimeYmd(s).value;
    assert s == Pad4(dt.year) + "-" + caps[2] + "-" + caps[4] by {
      assert s[..|s|] == s;
    }
  }

  /** `strptime` inverts `date.isoformat()`. */
  lemma StrptimeIsoRoundTrip(dt: Date)
    requires IsCalendarDate(dt)
    ensures StrptimeYmd(IsoFormat(dt)) == Ok(dt)
  {
    StrptimeReadsSpelling(dt, Pad2(dt.month), Pad2(dt.day));
  }

  /** A spelling is eight to ten characters long. */
  lemma SpellingLength(dt: Date, s: string)
    requires IsCalendarDate(dt) && s in Spellings(dt)
    ensures 8 <= |s| <= 10
  {
    var mt, dd :| mt in MonthSpellings(dt.month) && dd in DaySpellings(dt.day) && s == Pad4(dt.year) + "-" + mt + "-" + dd;
  }
}
