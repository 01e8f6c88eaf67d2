/**
 * The two format checks of papers.py: `valid_passport_format`, a regular-expression prefix
 * match, and `valid_date_format`, a `strptime` parse whose `ValueError` becomes `False`.
 */
module Validators {
  import opened Regex
  import opened Calendar
  import opened Strptime

  const AnyFive: Group := [[AnyButNewline, AnyButNewline, AnyButNewline, AnyButNewline, AnyButNewline]]

  /** `.{5}-.{5}-.{5}-.{5}-.{5}` */
  const PassportPattern: Pattern := [AnyFive, DashGroup, AnyFive, DashGroup, AnyFive, DashGroup, AnyFive, DashGroup, AnyFive]

  /** `valid_passport_format`: `re.match` of the pattern succeeds at the start of the string. */
  predicate ValidPassportFormat(passportNumber: string)
    ensures ValidPassportFormat(passportNumber) ==> |passportNumber| >= 29
  {
    PassportPieces(passportNumber);
    AnyFiveAt(passportNumber, 24);
    MatchAt(PassportPattern, passportNumber, 0).Some?
  }

  /** `valid_date_format`: `strptime(date, '%Y-%m-%d')` returns; each `ValueError` it raises gives false. */
  predicate ValidDateFormat(dateString: string)
    ensures ValidDateFormat(dateString) ==> 8 <= |dateString| <= 10
  {
    if StrptimeYmd(dateString).Ok? then
      StrptimeOnlyReadsSpellings(dateString);
      SpellingLength(StrptimeYmd(dateString).value, dateString);
      true
    else
      false
  }

  lemma AnyFiveAt(s: string, i: nat)
    ensures BranchMatchesAt(AnyFive[0], s, i) <==> i + 5 <= |s| && forall k :: i <= k < i + 5 ==> s[k] != '\n'
  {
    if i + 5 <= |s| {
      var t := s[i..i + 5];
      assert forall k :: 0 <= k < 5 ==> t[k] == s[i + k];
      if forall k :: i <= k < i + 5 ==> s[k] != '\n' {
        assert forall k :: 0 <= k < 5 ==> ClassMatches(AnyFive[0][k], t[k]);
      }
      if BranchMatchesAt(AnyFive[0], s, i) {
        forall k | i <= k < i + 5 ensures s[k] != '\n' {
          assert ClassMatches(AnyFive[0][k - i], t[k - i]);
        }
      }
    }
  }

  lemma DashAt(s: string, i: nat)
    ensures BranchMatchesAt(DashGroup[0], s, i) <==> i < |s| && s[i] == '-'
  {
    if i < |s| {
      assert s[i..i + 1][0] == s[i];
    }
  }

  lemma JoinPair(g: Group, h: Group, rest: Pattern)
    requires |g| == 1 && |h| == 1
    ensures Join([g, h] + rest) == g[0] + (h[0] + Join(rest))
  {
    var q := [g, h] + rest;
    assert q[0] == g && q[1..] == [h] + rest;
    assert q[1..][0] == h && q[1..][1..] == rest;
  }

  /** Two single-branch groups in front of `rest`: each is matched in turn, then `rest`. */
  lemma PairThen(g: Group, h: Group, rest: Pattern, s: string, i: nat)
    requires |g| == 1 && |h| == 1
    ensures BranchMatchesAt(Join([g, h] + rest), s, i) <==>
      BranchMatchesAt(g[0], s, i) && BranchMatchesAt(h[0], s, i + |g[0]|) &&
      BranchMatchesAt(Join(rest), s, i + |g[0]| + |h[0]|)
  {
    JoinPair(g, h, rest);
    BranchMatchesAtConcat(h[0], Join(rest), s, i + |g[0]|);
    BranchMatchesAtConcat(g[0], h[0] + Join(rest), s, i);
  }

  /**
   * Any pattern shaped like the passport pattern, with a five-character group `f` and a
   * one-character group `d`, is matched group by group at offsets 0, 5, 6, 11, ..., 24.
   */
  lemma AlternatingPieces(f: Group, d: Group, s: string)
    requires |f| == 1 && |d| == 1 && |f[0]| == 5 && |d[0]| == 1
    ensures var fd := [f, d];
      BranchMatchesAt(Join(fd + (fd + (fd + (fd + [f])))), s, 0) <==>
      BranchMatchesAt(f[0], s, 0) && BranchMatchesAt(d[0], s, 5) &&
      BranchMatchesAt(f[0], s, 6) && BranchMatchesAt(d[0], s, 11) &&
      BranchMatchesAt(f[0], s, 12) && BranchMatchesAt(d[0], s, 17) &&
      BranchMatchesAt(f[0], s, 18) && BranchMatchesAt(d[0], s, 23) &&
      BranchMatchesAt(f[0], s, 24)
  {
    var fd := [f, d];
    var p4: Pattern := [f];
    var p3 := fd + p4;
    var p2 := fd + p3;
    var p1 := fd + p2;
    assert p4[1..] == [] && Join(p4) == f[0];
    PairThen(f, d, p4, s, 18);
    PairThen(f, d, p3, s, 12);
    PairThen(f, d, p2, s, 6);
    PairThen(f, d, p1, s, 0);
  }

  /** The pattern is four five-and-dash pairs in front of a last five-character group. */
  lemma PassportShape()
    ensures NoAlternation(PassportPattern)
    ensures var fd := [AnyFive, DashGroup];
      PassportPattern == fd + (fd + (fd + (fd + [AnyFive])))
  {
  }

  /**
   * The pattern is checked group by group: five non-newline characters, a dash, and so on,
   * over the first 29 characters.
   */
  lemma PassportPieces(s: string)
    ensures MatchAt(PassportPattern, s, 0).Some? <==>
      BranchMatchesAt(AnyFive[0], s, 0) && BranchMatchesAt(DashGroup[0], s, 5) &&
      BranchMatchesAt(AnyFive[0], s, 6) && BranchMatchesAt(DashGroup[0], s, 11) &&
      BranchMatchesAt(AnyFive[0], s, 12) && BranchMatchesAt(DashGroup[0], s, 17) &&
      BranchMatchesAt(AnyFive[0], s, 18) && BranchMatchesAt(DashGroup[0], s, 23) &&
      BranchMatchesAt(AnyFive[0], s, 24)
  {
    PassportShape();
    MatchAtNoAlternation(PassportPattern, s, 0);
    AlternatingPieces(AnyFive, DashGroup, s);
  }

  /**
   * A passport number is accepted iff it has at least 29 characters, dashes at positions
   * 5, 11, 17 and 23, and no newline among its first 29 characters. The other characters
   * are unrestricted and whatever follows position 28 is ignored.
   */
  lemma PassportFormatCharacterisation(s: string)
    ensures ValidPassportFormat(s) <==>
      |s| >= 29 && s[5] == '-' && s[11] == '-' && s[17] == '-' && s[23] == '-' &&
      forall k :: 0 <= k < 29 ==> s[k] != '\n'
  {
    PassportPieces(s);
    AnyFiveAt(s, 0);
    AnyFiveAt(s, 6);
    AnyFiveAt(s, 12);
    AnyFiveAt(s, 18);
    AnyFiveAt(s, 24);
    DashAt(s, 5);
    DashAt(s, 11);
    DashAt(s, 17);
    DashAt(s, 23);
  }

  /** `re.match` is not anchored at the end: text after the 29th character never matters. */
  lemma PassportIgnoresSuffix(s: string, t: string)
    ensures |s| >= 29 ==> (ValidPassportFormat(s + t) <==> ValidPassportFormat(s))
  {
    PassportFormatCharacterisation(s);
    PassportFormatCharacterisation(s + t);
    if |s| >= 29 {
      assert forall k :: 0 <= k < 29 ==> (s + t)[k] == s[k];
    }
  }

  /** The groups are not restricted to letters and digits: 29 dashes pass the check. */
  lemma TwentyNineDashesAccepted()
    ensures ValidPassportFormat(seq(29, _ => '-'))
  {
    PassportFormatCharacterisation(seq(29, _ => '-'));
  }

  /** A shorter string, or one with a character other than a dash at position 5, is refused. */
  lemma PassportNeedsDashAndLength(s: string)
    ensures |s| < 29 || s[5] != '-' ==> !ValidPassportFormat(s)
  {
    PassportFormatCharacterisation(s);
  }

  /**
   * A date string is accepted iff it spells a calendar date: a four-digit year of at least 1,
   * a dash, a month 1-12 in one or two digits, a dash, and a day of that month in two digits,
   * one digit, or one digit after a blank, with nothing after it.
   */
  lemma DateFormatCharacterisation(s: string)
    ensures ValidDateFormat(s) <==> exists dt :: IsCalendarDate(dt) && s in Spellings(dt)
  {
    if ValidDateFormat(s) {
      StrptimeOnlyReadsSpellings(s);
      var dt := StrptimeYmd(s).value;
      assert IsCalendarDate(dt) && s in Spellings(dt);
    }
    if exists dt :: IsCalendarDate(dt) && s in Spellings(dt) {
      var dt :| IsCalendarDate(dt) && s in Spellings(dt);
      var mt, dd :| mt in MonthSpellings(dt.month) && dd in DaySpellings(dt.day) && s == Pad4(dt.year) + "-" + mt + "-" + dd;
      StrptimeReadsSpelling(dt, mt, dd);
    }
  }

  /** The zero-padded form of every calendar date is accepted. */
  lemma IsoDateAccepted(dt: Date)
    requires IsCalendarDate(dt)
    ensures ValidDateFormat(IsoFormat(dt))
  {
    StrptimeIsoRoundTrip(dt);
  }

  /** 29 February is accepted exactly in leap years; year 0000 is refused. */
  lemma LeapDayAccepted(y: nat)
    requires y < 10000
    ensures ValidDateFormat(Pad4(y) + "-02-29") <==> y >= 1 && IsLeapYear(y)
  {
    assert "02" == Pad2(2) && "29" == Pad2(29);
    assert "02" in MonthSpellings(2) && "29" in DaySpellings(29);
    StrptimeOfSpelling(y, 2, "02", 29, "29");
    assert Pad4(y) + "-" + "02" + "-" + "29" == Pad4(y) + "-02-29";
  }

  /** Nothing may follow the zero-padded form: `strptime` reports unconverted data. */
  lemma TrailingTextRejected(dt: Date, t: string)
    requires IsCalendarDate(dt) && t != []
    ensures !ValidDateFormat(IsoFormat(dt) + t)
  {
    assert |IsoFormat(dt) + t| > 10;
  }
}
