/**
 * The per-traveller rule chain of `decide` in papers.py, over already-parsed inputs.
 * Each traveller meets the origin medical check, the transit (`via`) medical check and
 * the passport and birth-date format check, in that order; a check either appends one
 * label to `return_list` and moves on to the next traveller, or falls through. A key the
 * code looks up without a handler raises `KeyError`, which ends the whole call.
 */
module Immigration {
  import opened Wrappers
  import opened Validators
  import Calendar
  import Strptime

  /** A location record; `country` is the only field the rule chain reads. */
  datatype Location = Location(country: Option<string>)

  /** A traveller record; a key absent from the JSON object is `None`. */
  datatype Person = Person(
    from: Option<Location>,
    via: Option<Location>,
    passport: Option<string>,
    birthDate: Option<string>)

  /** A country's entry in the countries table; `medical_advisory` is the only field read. */
  datatype Policy = Policy(medicalAdvisory: Option<string>)

  type Countries = map<string, Policy>

  /** An exception that escapes `decide`. */
  datatype Exception = KeyError(key: string)

  const QUARANTINE: string := "Quarantine"
  const REJECT: string := "Reject"

  predicate IsLowerAscii(c: char) { 'a' <= c <= 'z' }

  function UpperChar(c: char): char
  {
    if IsLowerAscii(c) then (c as int - 'a' as int + 'A' as int) as char else c
  }

  /**
   * `str.upper()` on ASCII text: a lower-case letter becomes the capital at the same place
   * in the alphabet, every other character is kept, and no lower-case letter is left.
   */
  function Upper(s: string): (r: string)
    ensures |r| == |s|
    ensures forall k :: 0 <= k < |s| && !IsLowerAscii(s[k]) ==> r[k] == s[k]
    ensures forall k :: 0 <= k < |s| && IsLowerAscii(s[k]) ==>
      'A' <= r[k] <= 'Z' && r[k] as int - 'A' as int == s[k] as int - 'a' as int
    ensures forall k :: 0 <= k < |r| ==> !IsLowerAscii(r[k])
  {
    seq(|s|, k requires 0 <= k < |s| => UpperChar(s[k]))
  }

  /** Upper-casing twice is upper-casing once. */
  lemma UpperIdempotent(s: string)
    ensures Upper(Upper(s)) == Upper(s)
  {
    UpperOfUpperCase(Upper(s));
  }

  /** A code with no lower-case letter, such as "KAN", is its own upper case. */
  lemma UpperOfUpperCase(code: string)
    requires forall k :: 0 <= k < |code| ==> !IsLowerAscii(code[k])
    ensures Upper(code) == code
  {
  }

  /** `countries[code]["medical_advisory"]`; `None` where either key is missing. */
  function Advisory(countries: Countries, code: string): Option<string>
  {
    if code in countries then countries[code].medicalAdvisory else None
  }

  /** The advisory of the origin country, looked up with the upper-cased code; `None` on any `KeyError`. */
  function OriginAdvisory(p: Person, countries: Countries): (r: Option<string>)
    ensures r.Some? ==>
      p.from.Some? && p.from.value.country.Some? && Upper(p.from.value.country.value) in countries &&
      r == countries[Upper(p.from.value.country.value)].medicalAdvisory
  {
    match p.from
    case None => None
    case Some(loc) =>
      match loc.country
      case None => None
      case Some(code) => Advisory(countries, Upper(code))
  }

  /** The advisory of the transit country, looked up with the code as given; `None` on any `KeyError`. */
  function ViaAdvisory(p: Person, countries: Countries): (r: Option<string>)
    ensures r.Some? ==> p.via.Some? && p.via.value.country.Some? && p.via.value.country.value in countries
  {
    match p.via
    case None => None
    case Some(loc) =>
      match loc.country
      case None => None
      case Some(code) => Advisory(countries, code)
  }

  /** What one pass of the loop body does for one traveller. */
  datatype Step =
    | Appended(outcome: string)    // one label appended, then `continue`
    | NoLabel                    // all three checks passed
    | Raised(error: Exception)   // an uncaught `KeyError` ends `decide`

  /** The rule chain for one traveller. */
  function TravellerStep(p: Person, countries: Countries): (r: Step)
    ensures r.Appended? ==> r.outcome == QUARANTINE || r.outcome == REJECT
  {
    match OriginAdvisory(p, countries)
    case None => Appended(REJECT)
    case Some(advisory) =>
      if advisory != "" then Appended(QUARANTINE)
      else if ViaAdvisory(p, countries).Some? && ViaAdvisory(p, countries).value != "" then Appended(QUARANTINE)
      else if p.passport.None? then Raised(KeyError("passport"))
      else if p.birthDate.None? then Raised(KeyError("birth_date"))
      else if !(ValidPassportFormat(p.passport.value) && ValidDateFormat(p.birthDate.value)) then Appended(REJECT)
      else NoLabel
  }

  /**
   * `return_list` after the loop has run over `travellers` in order, or the exception
   * that stopped it.
   */
  function RuleChain(travellers: seq<Person>, countries: Countries): (r: Result<seq<string>, Exception>)
    ensures r.Ok? ==> |r.value| <= |travellers|
    ensures r.Ok? ==> forall k :: 0 <= k < |r.value| ==> r.value[k] == QUARANTINE || r.value[k] == REJECT
    decreases |travellers|
  {
    if travellers == [] then Ok([])
    else
      match RuleChain(travellers[..|travellers| - 1], countries)
      case Err(e) => Err(e)
      case Ok(labels) =>
        match TravellerStep(travellers[|travellers| - 1], countries)
        case Appended(outcome) => Ok(labels + [outcome])
        case NoLabel => Ok(labels)
        case Raised(e) => Err(e)
  }

  /** Once a traveller has raised, the loop never resumes: the exception is the result. */
  lemma {:induction false} RuleChainErrorPersists(travellers: seq<Person>, countries: Countries, n: nat, e: Exception)
    requires n <= |travellers| && RuleChain(travellers[..n], countries) == Err(e)
    ensures RuleChain(travellers, countries) == Err(e)
    decreases |travellers| - n
  {
    if n < |travellers| {
      var next := travellers[..n + 1];
      assert next[..n] == travellers[..n];
      RuleChainErrorPersists(travellers, countries, n + 1, e);
    } else {
      assert travellers[..n] == travellers;
    }
  }

  /** Lines 32-50: the loop that fills `return_list`. */
  method BuildReturnList(travellers: seq<Person>, countries: Countries) returns (r: Result<seq<string>, Exception>)
    ensures r == RuleChain(travellers, countries)
  {
    var returnList: seq<string> := [];
    for n := 0 to |travellers|
      invariant RuleChain(travellers[..n], countries) == Ok(returnList)
    {
      var person := travellers[n];
      assert travellers[..n + 1][..n] == travellers[..n] && travellers[..n + 1][n] == person;
      var origin := OriginAdvisory(person, countries);
      if origin.None? {
        returnList := returnList + [REJECT];
        continue;
      }
      if origin.value != "" {
        returnList := returnList + [QUARANTINE];
        continue;
      }
      var via := ViaAdvisory(person, countries);
      if via.Some? && via.value != "" {
        returnList := returnList + [QUARANTINE];
        continue;
      }
      if person.passport.None? {
        RuleChainErrorPersists(travellers, countries, n + 1, KeyError("passport"));
        return Err(KeyError("passport"));
      }
      var passportOk := ValidPassportFormat(person.passport.value);
      if person.birthDate.None? {
        RuleChainErrorPersists(travellers, countries, n + 1, KeyError("birth_date"));
        return Err(KeyError("birth_date"));
      }
      var birthDateOk := ValidDateFormat(person.birthDate.value);
      if !(passportOk && birthDateOk) {
        returnList := returnList + [REJECT];
        continue;
      }
    }
    assert travellers[..|travellers|] == travellers;
    r := Ok(returnList);
  }

  /** Line 64: whatever the loop collected, `decide` returns `["Reject"]` unless a `KeyError` escaped. */
  method Decide(travellers: seq<Person>, countries: Countries) returns (r: Result<seq<string>, Exception>)
    ensures r.Err? <==> exists i :: 0 <= i < |travellers| && TravellerStep(travellers[i], countries).Raised?
    ensures r.Err? ==> r == RuleChain(travellers, countries)
    ensures r.Ok? ==> r.value == [REJECT]
  {
    var returnList := BuildReturnList(travellers, countries);
    RuleChainRaisesIff(travellers, countries);
    if returnList.Err? {
      return Err(returnList.error);
    }
    return Ok([REJECT]);
  }

  // ---------------------------------------------------------------------------------
  // The priority of the three checks for one traveller.

  /** An origin advisory means quarantine, whatever the transit country, passport and birth date. */
  lemma OriginAdvisoryQuarantines(p: Person, countries: Countries)
    requires OriginAdvisory(p, countries).Some? && OriginAdvisory(p, countries).value != ""
    ensures forall via, passport, birthDate ::
      TravellerStep(p.(via := via, passport := passport, birthDate := birthDate), countries) == Appended(QUARANTINE)
  {
  }

  /**
   * Stated on the table: a non-empty advisory under the upper-cased origin code means
   * quarantine, whatever the transit country, passport and birth date.
   */
  lemma OriginTableAdvisoryQuarantines(p: Person, countries: Countries, code: string, advisory: string)
    requires p.from == Some(Location(Some(code)))
    requires Upper(code) in countries && countries[Upper(code)].medicalAdvisory == Some(advisory) && advisory != ""
    ensures forall via, passport, birthDate ::
      TravellerStep(p.(via := via, passport := passport, birthDate := birthDate), countries) == Appended(QUARANTINE)
  {
    OriginLookupUppercases(p, countries, code);
    OriginAdvisoryQuarantines(p, countries);
  }

  /**
   * A missing `from`, `country`, country code or `medical_advisory` at the origin check means
   * reject, whatever the rest of the record holds.
   */
  lemma OriginLookupFailureRejects(p: Person, countries: Countries)
    requires OriginAdvisory(p, countries).None?
    ensures forall via, passport, birthDate ::
      TravellerStep(p.(via := via, passport := passport, birthDate := birthDate), countries) == Appended(REJECT)
  {
  }

  /** The origin code is upper-cased before the lookup; a code missing from the table rejects. */
  lemma OriginLookupUppercases(p: Person, countries: Countries, code: string)
    requires p.from == Some(Location(Some(code)))
    ensures OriginAdvisory(p, countries).Some? <==>
      Upper(code) in countries && countries[Upper(code)].medicalAdvisory.Some?
    ensures OriginAdvisory(p, countries).Some? ==> OriginAdvisory(p, countries) == countries[Upper(code)].medicalAdvisory
    ensures Upper(code) !in countries ==> TravellerStep(p, countries) == Appended(REJECT)
  {
  }

  /** The transit lookup uses the code exactly as given, with no upper-casing. */
  lemma ViaLookupAsGiven(p: Person, countries: Countries, code: string)
    requires p.via == Some(Location(Some(code)))
    ensures ViaAdvisory(p, countries).Some? <==> code in countries && countries[code].medicalAdvisory.Some?
    ensures ViaAdvisory(p, countries).Some? ==> ViaAdvisory(p, countries) == countries[code].medicalAdvisory
  {
  }

  /** A transit advisory means quarantine once the origin check has passed, whatever the passport and birth date. */
  lemma ViaAdvisoryQuarantines(p: Person, countries: Countries)
    requires OriginAdvisory(p, countries) == Some("")
    requires ViaAdvisory(p, countries).Some? && ViaAdvisory(p, countries).value != ""
    ensures forall passport, birthDate ::
      TravellerStep(p.(passport := passport, birthDate := birthDate), countries) == Appended(QUARANTINE)
  {
  }

  /** An absent `via`, an unknown transit code or a missing field behaves exactly as no transit at all. */
  lemma ViaLookupFailureFallsThrough(p: Person, countries: Countries)
    requires ViaAdvisory(p, countries).None?
    ensures TravellerStep(p, countries) == TravellerStep(p.(via := None), countries)
  {
  }

  /** After both medical checks pass, the two formats decide between reject and no label. */
  lemma FormatCheckDecides(p: Person, countries: Countries, passport: string, birthDate: string)
    requires OriginAdvisory(p, countries) == Some("")
    requires !(ViaAdvisory(p, countries).Some? && ViaAdvisory(p, countries).value != "")
    requires p.passport == Some(passport) && p.birthDate == Some(birthDate)
    ensures TravellerStep(p, countries) ==
      if ValidPassportFormat(passport) && ValidDateFormat(birthDate) then NoLabel else Appended(REJECT)
  {
  }

  /**
   * `&` does not short-circuit: a missing birth date raises even when the passport is
   * already malformed, and a missing passport raises before the birth date is looked at.
   */
  lemma MissingFieldRaises(p: Person, countries: Countries)
    requires OriginAdvisory(p, countries) == Some("")
    requires !(ViaAdvisory(p, countries).Some? && ViaAdvisory(p, countries).value != "")
    requires p.passport.None? || p.birthDate.None?
    ensures TravellerStep(p, countries) ==
      Raised(KeyError(if p.passport.None? then "passport" else "birth_date"))
  {
  }

  // ---------------------------------------------------------------------------------
  // The whole loop.

  /** The label one traveller receives, as a sequence of zero or one labels. */
  function LabelOf(p: Person, countries: Countries): seq<string>
  {
    match TravellerStep(p, countries)
    case Appended(outcome) => [outcome]
    case _ => []
  }

  /** The labels the travellers receive, head first: at most one each, in input order. */
  function LabelsOf(travellers: seq<Person>, countries: Countries): seq<string>
  {
    if travellers == [] then [] else LabelOf(travellers[0], countries) + LabelsOf(travellers[1..], countries)
  }

  /** Labels of a concatenation are the labels of the parts, in order. */
  lemma {:induction false} LabelsOfAppend(a: seq<Person>, b: seq<Person>, countries: Countries)
    ensures LabelsOf(a + b, countries) == LabelsOf(a, countries) + LabelsOf(b, countries)
    decreases |a|
  {
    if a != [] {
      assert (a + b)[0] == a[0] && (a + b)[1..] == a[1..] + b;
      LabelsOfAppend(a[1..], b, countries);
    } else {
      assert a + b == b;
    }
  }

  /** `return_list` holds only the two labels, at most one per traveller. */
  lemma {:induction false} LabelsOfBounds(travellers: seq<Person>, countries: Countries)
    ensures |LabelsOf(travellers, countries)| <= |travellers|
    ensures forall x :: x in LabelsOf(travellers, countries) ==> x == QUARANTINE || x == REJECT
    ensures |LabelsOf(travellers, countries)| == |travellers| <==>
      forall i :: 0 <= i < |travellers| ==> TravellerStep(travellers[i], countries).Appended?
    decreases |travellers|
  {
    if travellers != [] {
      LabelsOfBounds(travellers[1..], countries);
      if forall i :: 0 <= i < |travellers| ==> TravellerStep(travellers[i], countries).Appended? {
        forall i | 0 <= i < |travellers| - 1
          ensures TravellerStep(travellers[1..][i], countries).Appended?
        {
          assert travellers[1..][i] == travellers[i + 1];
        }
      }
      if |LabelsOf(travellers, countries)| == |travellers| {
        forall i | 0 <= i < |travellers|
          ensures TravellerStep(travellers[i], countries).Appended?
        {
          if i > 0 {
            assert travellers[1..][i - 1] == travellers[i];
          }
        }
      }
    }
  }

  /** With no traveller raising, the loop leaves exactly their labels in order. */
  lemma {:induction false} RuleChainNoRaise(travellers: seq<Person>, countries: Countries)
    requires forall i :: 0 <= i < |travellers| ==> !TravellerStep(travellers[i], countries).Raised?
    ensures RuleChain(travellers, countries) == Ok(LabelsOf(travellers, countries))
    decreases |travellers|
  {
    if travellers != [] {
      var n := |travellers| - 1;
      var front := travellers[..n];
      assert travellers == front + [travellers[n]];
      RuleChainNoRaise(front, countries);
      LabelsOfAppend(front, [travellers[n]], countries);
      assert [travellers[n]][1..] == [];
      assert LabelsOf([travellers[n]], countries) == LabelOf(travellers[n], countries);
      assert !TravellerStep(travellers[n], countries).Raised?;
      assert LabelsOf(travellers, countries) == LabelsOf(front, countries) + LabelOf(travellers[n], countries);
      if TravellerStep(travellers[n], countries).NoLabel? {
        assert LabelsOf(front, countries) + [] == LabelsOf(front, countries);
      }
    }
  }

  /** The first traveller to raise decides the exception; the travellers after it are never examined. */
  lemma RuleChainFirstRaise(travellers: seq<Person>, countries: Countries, i: nat)
    requires i < |travellers| && TravellerStep(travellers[i], countries).Raised?
    requires forall j :: 0 <= j < i ==> !TravellerStep(travellers[j], countries).Raised?
    ensures RuleChain(travellers, countries) == Err(TravellerStep(travellers[i], countries).error)
  {
    var front := travellers[..i];
    forall j | 0 <= j < i ensures !TravellerStep(front[j], countries).Raised? {
      assert front[j] == travellers[j];
    }
    RuleChainNoRaise(front, countries);
    assert travellers[..i + 1][..i] == front;
    RuleChainErrorPersists(travellers, countries, i + 1, TravellerStep(travellers[i], countries).error);
  }

  /** The loop raises iff some traveller's checks raise. */
  lemma RuleChainRaisesIff(travellers: seq<Person>, countries: Countries)
    ensures RuleChain(travellers, countries).Err? <==>
      exists i :: 0 <= i < |travellers| && TravellerStep(travellers[i], countries).Raised?
  {
    if exists i :: 0 <= i < |travellers| && TravellerStep(travellers[i], countries).Raised? {
      var i := FirstRaise(travellers, countries);
      RuleChainFirstRaise(travellers, countries, i);
    } else {
      RuleChainNoRaise(travellers, countries);
    }
  }

  /** The position of the first traveller whose checks raise. */
  lemma FirstRaise(travellers: seq<Person>, countries: Countries) returns (i: nat)
    requires exists i :: 0 <= i < |travellers| && TravellerStep(travellers[i], countries).Raised?
    ensures i < |travellers| && TravellerStep(travellers[i], countries).Raised?
    ensures forall j :: 0 <= j < i ==> !TravellerStep(travellers[j], countries).Raised?
  {
    i := 0;
    while !TravellerStep(travellers[i], countries).Raised?
      invariant i < |travellers|
      invariant forall j :: 0 <= j < i ==> !TravellerStep(travellers[j], countries).Raised?
      decreases |travellers| - i
    {
      i := i + 1;
    }
  }

  // ---------------------------------------------------------------------------------
  // Concrete travellers.

  const WellFormedPassport: string := "T1234-56789-A1234-BCDEF-GHIJK"
  const WellFormedBirthDate: string := "1990-01-01"

  function Citizen(fromCode: string, viaCode: Option<string>): Person
  {
    Person(
      Some(Location(Some(fromCode))),
      match viaCode case None => None case Some(code) => Some(Location(Some(code))),
      Some(WellFormedPassport),
      Some(WellFormedBirthDate))
  }

  lemma WellFormedFieldsAccepted()
    ensures ValidPassportFormat(WellFormedPassport) && ValidDateFormat(WellFormedBirthDate)
  {
    PassportFormatCharacterisation(WellFormedPassport);
    WellFormedBirthDateIsIso();
    IsoDateAccepted(Calendar.Date(1990, 1, 1));
  }

  lemma WellFormedBirthDateIsIso()
    ensures Calendar.IsCalendarDate(Calendar.Date(1990, 1, 1))
    ensures Strptime.IsoFormat(Calendar.Date(1990, 1, 1)) == WellFormedBirthDate
  {
    assert Calendar.Pad4(1990) == "1990";
  }

  /**
   * A well-formed traveller from a country without advisory gets no label, so `return_list`
   * is shorter than the batch; `decide` still answers `["Reject"]`.
   */
  lemma PassingTravellerGetsNoLabel()
    ensures TravellerStep(Citizen("KAN", None), map["KAN" := Policy(Some(""))]) == NoLabel
    ensures RuleChain([Citizen("KAN", None)], map["KAN" := Policy(Some(""))]) == Ok([])
  {
    WellFormedFieldsAccepted();
    UpperOfUpperCase("KAN");
    var ts := [Citizen("KAN", None)];
    assert ts[..0] == [];
  }

  /** The home country has no exemption, and its code is upper-cased before the lookup. */
  lemma HomeCountryNotExempt()
    ensures TravellerStep(Citizen("kan", None), map["KAN" := Policy(Some("Medical advisory"))]) == Appended(QUARANTINE)
  {
    assert Upper("kan") == "KAN";
  }

  /** The transit code is looked up as given: a lower-case code misses the upper-case entry. */
  lemma ViaCodeNotUppercased()
    ensures TravellerStep(Citizen("KAN", Some("xyz")), map["KAN" := Policy(Some("")), "XYZ" := Policy(Some("Medical advisory"))]) == NoLabel
    ensures TravellerStep(Citizen("KAN", Some("XYZ")), map["KAN" := Policy(Some("")), "XYZ" := Policy(Some("Medical advisory"))]) == Appended(QUARANTINE)
  {
    WellFormedFieldsAccepted();
    UpperOfUpperCase("KAN");
  }
}
