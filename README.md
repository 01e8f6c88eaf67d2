# Kanadia immigration prototype — a Dafny model of papers.py

`papers.py` is the prototype of an immigration office for Kanadia. It holds a decision
routine, `decide`, and two format checks, `valid_passport_format` and `valid_date_format`.
This project models the logic that the code actually contains. It does not model the
design the office was meant to have.

- **The passport check** is `re.match('.{5}-.{5}-.{5}-.{5}-.{5}', s)`. The match is anchored
  only at the start, and `.` accepts every character except a newline. So a passport number
  passes iff it has at least 29 characters, dashes at positions 5, 11, 17 and 23, and no
  newline among its first 29 characters (`Validators.PassportFormatCharacterisation`). The
  docstring promises letters and digits, but 29 dashes pass.
- **The date check** is `datetime.strptime(s, '%Y-%m-%d')`, with every `ValueError` turned
  into `False`. It is modelled the way CPython's `_strptime` works: a regular expression
  (module `Strptime`) matched by `re.match`, which tries alternatives leftmost-first (module
  `Regex`). Leftover text raises "unconverted data remains". Then `datetime` checks the year
  and the length of the month. The check accepts exactly the spellings of a Gregorian
  date: a four-digit year of at least 1, a month 1–12 in one or two digits, and a day
  within that month in two digits, one digit, or one digit after a blank.
- **The rule chain of `decide`** runs once per traveller, in input order (module
  `Immigration`):
  1. The origin medical advisory, looked up with the upper-cased `from.country`. A missing
     key here appends `"Reject"`. A non-empty advisory appends `"Quarantine"`.
  2. The transit advisory, looked up with the `via.country` code as given. A missing key
     here appends nothing. A non-empty advisory appends `"Quarantine"`.
  3. The passport and birth-date formats. If either is malformed, `"Reject"` is appended.

  Each check either appends one label and moves on to the next traveller, or falls through.
  A traveller who passes all three checks gets no label.
  `passport` and `birth_date` are looked up outside any `try`, so a missing key raises
  `KeyError` out of `decide`. Line 48 joins the two checks with `&`, which does not
  short-circuit, and evaluates left to right: the passport is looked up and checked, then
  the birth date is looked up and checked. A missing key raises at its own lookup, and
  nothing after it on the line is evaluated.
  The list the loop builds is discarded: `decide` returns `["Reject"]` whenever it returns.

Inputs are taken as already parsed. A traveller is a `Person` with `Option` fields, and the
countries table is a `map<string, Policy>`. A Python `KeyError` on a missing key becomes
`None`.

As written, `papers.py` does not parse. The handler `except KeyError:` at line 46 has no
body, and line 48 is dedented to the level of that `except`. The model follows the evident
structure: the handler does nothing and control falls through to line 48. The code has no
watchlist, visa, completeness or "Accept" rule. It has no exemption for Kanadia's own
country code, and the intended design's outcome list of one label per traveller does not
hold. The model follows the code on each of these points.

## Model

| member | source | states |
|---|---|---|
| `Regex.MatchAt` | papers.py:73-75 | what `re.match` returns is a genuine match: one capture per group, each spelled by a branch of its group, laid end to end from the start position |
| `Regex.TryBranches` | papers.py:88 | the branches of a group are tried in the order written, each followed by the rest of the pattern; whatever it returns is a genuine match of the group and then the rest (which branch is taken: `Regex.TryBranchesPicksFirst`) |
| `Regex.MatchAtComplete` | papers.py:73-75 | `re.match` succeeds whenever some match exists |
| `Regex.TryBranchesPicksFirst` | papers.py:88 | alternatives are tried in the order written; the first one that leads to a match is the one taken |
| `Regex.MatchesConsume` | papers.py:88 | a match never reads past the end of the string, and its captures spell exactly the text consumed |
| `Regex.MatchAtNoAlternation` | papers.py:73-75 | for a pattern without alternation, `re.match` succeeds iff the concatenated branch matches at the start |
| `Calendar.Pad4RoundTrip` | papers.py:88 | four digits read back as a number and written again give the same text, and conversely |
| `Calendar.DaysInMonth` | papers.py:88 | months have 28 to 31 days, and 29 exactly for February of a Gregorian leap year |
| `Calendar.YearLength` | papers.py:88 | the twelve month lengths `datetime` checks against add up to 365 days, or 366 in a Gregorian leap year |
| `Strptime.StrptimeYmd` | papers.py:88 | every date `strptime` returns is a calendar date between years 1 and 9999 |
| `Strptime.YmdCaptures` | papers.py:88 | a match of `%Y-%m-%d` splits into year digits, a dash, a month, a dash and a day |
| `Strptime.StrptimeOfSpelling` | papers.py:88 | text shaped as year-month-day is read as those numbers; it is accepted iff they form a calendar date, and otherwise raises the out-of-range error |
| `Strptime.StrptimeReadsSpelling` | papers.py:88 | every spelling of a calendar date is parsed back as that date |
| `Strptime.StrptimeOnlyReadsSpellings` | papers.py:88 | every string `strptime` accepts is a spelling of the date it returns |
| `Strptime.StrptimeIsoRoundTrip` | papers.py:88 | `strptime` inverts the zero-padded `isoformat` |
| `Strptime.SpellingLength` | papers.py:88 | an accepted spelling has 8 to 10 characters |
| `Validators.ValidPassportFormat` | papers.py:67-78 | `valid_passport_format`: true iff `re.match` of `.{5}-.{5}-.{5}-.{5}-.{5}` succeeds at position 0; a number that passes has at least 29 characters (exact condition: `Validators.PassportFormatCharacterisation`) |
| `Validators.ValidDateFormat` | papers.py:81-91 | `valid_date_format`: true iff `strptime(s, '%Y-%m-%d')` returns, false on each of its `ValueError`s; a string that passes has 8 to 10 characters (exact condition: `Validators.DateFormatCharacterisation`) |
| `Validators.PassportFormatCharacterisation` | papers.py:73-78 | a passport number passes iff it has at least 29 characters, dashes at positions 5, 11, 17 and 23, and no newline in its first 29 characters |
| `Validators.PassportPieces` | papers.py:73-75 | the pattern is checked as five non-newline characters, a dash, and so on, over the first 29 positions |
| `Validators.PassportIgnoresSuffix` | papers.py:73-75 | anything after the 29th character never changes the verdict |
| `Validators.TwentyNineDashesAccepted` | papers.py:69-75 | the groups are not limited to letters and digits: 29 dashes pass |
| `Validators.PassportNeedsDashAndLength` | papers.py:73-78 | a string shorter than 29 characters, or without a dash at position 5, fails |
| `Validators.DateFormatCharacterisation` | papers.py:81-91 | a date string passes iff it spells a calendar date (year 1-9999, month 1-12, day within the month) in the accepted form, with nothing after it; every parse failure gives false |
| `Validators.IsoDateAccepted` | papers.py:87-89 | every zero-padded calendar date passes |
| `Validators.LeapDayAccepted` | papers.py:87-91 | `YYYY-02-29` passes exactly when YYYY is a leap year of at least 1 |
| `Validators.TrailingTextRejected` | papers.py:87-91 | a zero-padded date followed by any text fails |
| `Immigration.Upper` | papers.py:36 | upper-casing keeps the length and every character that is not a lower-case ASCII letter, turns each lower-case letter into the capital at the same place in the alphabet, and leaves no lower-case letter |
| `Immigration.UpperIdempotent` | papers.py:36 | upper-casing an upper-cased code changes nothing |
| `Immigration.UpperOfUpperCase` | papers.py:36 | a code with no lower-case ASCII letter is its own upper case |
| `Immigration.OriginAdvisory` | papers.py:35-41 | the origin advisory is found only when `from`, its `country` and the table entry for the upper-cased code all exist, and it is that entry's `medical_advisory`; any missing key is the caught `KeyError` (exact condition: `Immigration.OriginLookupUppercases`) |
| `Immigration.ViaAdvisory` | papers.py:42-46 | the transit advisory is found only when `via`, its `country` and the table entry for the code as given all exist; any missing key is the swallowed `KeyError` |
| `Immigration.ViaLookupAsGiven` | papers.py:42-43 | for every transit code, an advisory is found iff the code itself, not upper-cased, is a key with a `medical_advisory`, and that advisory is what is read |
| `Immigration.TravellerStep` | papers.py:34-50 | for one traveller, a label is appended only as `"Quarantine"` or `"Reject"` |
| `Immigration.OriginAdvisoryQuarantines` | papers.py:35-38 | a non-empty origin advisory gives `"Quarantine"`, whatever the transit country, passport and birth date |
| `Immigration.OriginLookupFailureRejects` | papers.py:35-41 | a missing `from`, `country`, country entry or `medical_advisory` gives exactly `"Reject"`, whatever the rest of the record |
| `Immigration.OriginLookupUppercases` | papers.py:36-41 | for every origin code, an advisory is found iff the upper-cased code is a key with a `medical_advisory`, and that advisory is what is read; a code missing from the table gives `"Reject"` |
| `Immigration.OriginTableAdvisoryQuarantines` | papers.py:36-38 | a non-empty `medical_advisory` under the upper-cased origin code gives `"Quarantine"`, whatever the transit country, passport and birth date |
| `Immigration.HomeCountryNotExempt` | papers.py:36-38 | a traveller from "kan" is quarantined when the `KAN` entry has an advisory; there is no exemption for the home country |
| `Immigration.ViaAdvisoryQuarantines` | papers.py:42-45 | after the origin check passes, a non-empty transit advisory gives `"Quarantine"`, whatever the passport and birth date |
| `Immigration.ViaLookupFailureFallsThrough` | papers.py:42-46 | an absent `via`, an unknown transit code or a missing field behaves exactly as no transit at all |
| `Immigration.ViaCodeNotUppercased` | papers.py:43 | the transit code is not upper-cased: "xyz" misses the `XYZ` advisory that "XYZ" hits |
| `Immigration.FormatCheckDecides` | papers.py:48-50 | after both medical checks pass, the traveller gets `"Reject"` iff the passport or the birth date is malformed, and otherwise no label |
| `Immigration.MissingFieldRaises` | papers.py:48 | after both medical checks pass, a missing passport or birth date raises `KeyError` (passport first), even when the other field is malformed |
| `Immigration.RuleChain` | papers.py:32-50 | `return_list` after the loop over the travellers in input order, or the `KeyError` that stopped it; a finished list holds only `"Quarantine"` and `"Reject"`, at most one per traveller (computed by `Immigration.BuildReturnList`, characterised by `Immigration.RuleChainNoRaise` and `Immigration.RuleChainFirstRaise`) |
| `Immigration.BuildReturnList` | papers.py:32-50 | the loop leaves in `return_list` what the rule chain specifies, or stops with the first `KeyError` |
| `Immigration.RuleChainErrorPersists` | papers.py:34-50 | once a traveller raises, no later traveller is examined and the exception is the result |
| `Immigration.LabelsOfAppend` | papers.py:32-50 | the labels of a batch are the labels of its parts, in input order |
| `Immigration.LabelsOfBounds` | papers.py:32-50 | `return_list` holds only `"Quarantine"` and `"Reject"`, at most one per traveller; it is as long as the batch iff every traveller gets a label |
| `Immigration.RuleChainNoRaise` | papers.py:32-50 | when no traveller raises, `return_list` is exactly the travellers' labels in input order |
| `Immigration.RuleChainFirstRaise` | papers.py:34-50 | the exception that escapes is the one raised by the first traveller who raises |
| `Immigration.RuleChainRaisesIff` | papers.py:34-50 | the loop raises iff some traveller's checks raise |
| `Immigration.Decide` | papers.py:32-64 | `decide` raises iff some traveller's checks raise, and otherwise returns `["Reject"]`, discarding `return_list` |
| `Immigration.PassingTravellerGetsNoLabel` | papers.py:32-64 | a well-formed traveller from a country without advisory gets no label, so `return_list` can be shorter than the batch |

## Left out

- Reading and parsing the three JSON files (papers.py:29-31) is I/O. The inputs are taken as parsed values. The watchlist is read but never used, so it is not a parameter.
- The bare lookups at papers.py:57-62 are unreachable and are not modelled.
- Fields the reachable code never reads are not modelled: names, `home`, `entry_reason`, `visa`, and the visa flags of a country.
- JSON values of the wrong type are not modelled: the model types the codes, the passport, the birth date and the advisories as strings and the locations as records. In the code these cases go different ways:
  - a non-string `from.country` raises `AttributeError` at `.upper()` (papers.py:36), which escapes `decide`;
  - a numeric `via.country` is a key the string-keyed table lacks, so line 43 raises a `KeyError` that line 46 swallows and the traveller falls through to the format check;
  - a `null` `medical_advisory`, origin or transit, is `None != ""`, which is true, so the traveller gets `"Quarantine"`;
  - a `null` `from` or `via` location raises `TypeError` when indexed, and a non-string passport or birth date raises `TypeError` in `re.match` or `strptime`; neither is caught.
- Non-ASCII input is not modelled. Python's `\d` also accepts non-ASCII decimal digits, and `str.upper()` maps non-ASCII letters. The model treats only ASCII digits as digits and upper-cases only ASCII letters.
- `re.IGNORECASE`, which `_strptime` compiles its pattern with, is left out. It has no effect on digits, dashes and blanks.
- `Immigration.Upper`: only ASCII letters are upper-cased, because full Unicode case mapping (which can change the length) is outside the model.
- test_papers.py is not modelled. Its expected `"Accept"` and `"Secondary"` results come from no code in papers.py, it passes file names where `decide` reads file objects, and it depends on JSON fixture files that are not part of the code.
