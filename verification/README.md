# Resume-to-profile pipeline, modelled in Dafny

This project models the resume parser of the jobseeker demo. `extract_profile`
in `resume_nlp.py` turns the raw text of a resume into a structured profile.
It runs these stages in order:

- it normalises whitespace and hyphenated line breaks;
- it splits the text into sections under recognised headers;
- it runs independent extractors for the email, the phone number, the skills,
  the highest qualification with branch and institute, the employment status,
  the dated experience entries and the candidate's name;
- it builds the warning list;
- it renders a copy-ready `profile_text`.

Beside the pipeline, the project models two more files:

- `utils.py`: the whitespace cleaner `clean_text` and the `extract_text`
  dispatch on file extension;
- `deet-schema/validation.py`: the email, phone and year validators and the
  error list of `validate_profile`.

Every regular expression of the core is modelled over ASCII text, in one of
three ways:

- `EMAIL_RE`, `PHONE_RE`, the years and months patterns of
  `extract_employment`, the date-range pattern of
  `extract_experience_details` and the email pattern of `validate_email` are
  explicit scanners. Each has a declarative match predicate, and each scanner
  is proved sound and complete against it. For the `re.search` calls, the
  result is also proved to be the leftmost match.
- The `QUAL_RANKS` patterns are written as pattern terms: literals, optional
  characters, space runs and word boundaries. One interpreter matches them,
  ignoring case as `re.IGNORECASE` does.
- Every other pattern is written as a predicate or a recursive function and
  is described by the properties it keeps and by examples, with no separate
  match description. These are the substitutions of `normalize_text`, the
  section-header test, the `"91+ "` rewrite of `find_phone`, `_digits_only`,
  the separator split, bracket and rule-line substitutions and the filters of
  `clean_skill` (its year test among them), the whole-word keyword
  lookarounds of the skill and branch searches, the institute pattern, the
  digit test and the character and whitespace substitutions of the name
  lines and of `_title_case_name`, and the `\s{2,}` squash of the experience
  lines.

Confidences are integers in hundredths (0.98 is 98). Functions that loop in
the source are methods with loop invariants. Each is proved equal to a
recursive specification function, and the lemmas state what that function
means.

Modules (one file each): `Text` (shared string helpers), `Normalize`,
`Contact`, `Sections`, `Skills`, `Sorting`, `Education`, `Employment`,
`Experience`, `Names`, `Profile`, `Utils`, `Validation`.

Three behaviours of the code are worth stating:

- `normalize_text` is not idempotent. `Normalize.NormalizeNotIdempotent`
  exhibits `"a-\nb-\nc"`.
- An empty resume draws eight warnings: the five missing fields, then low
  confidence for name, email and phone, since every personal confidence is
  then 0 (`Profile.EmptyResumeWarnings`).
- `validate_email` also accepts an address followed by one final line break,
  because `$` matches just before a trailing newline
  (`Validation.EmailExamples`).

## Model

| member | source | states |
|---|---|---|
| Normalize.NormalizeShape | resume_nlp.py:109-115 | the empty text normalises to ""; the result holds no carriage return and no tab, no two adjacent spaces, no three consecutive newlines, and has no whitespace at either end |
| Normalize.Substituted | resume_nlp.py:110-114 | after the four substitutions there is no `\r` or tab, no double space and no triple newline |
| Normalize.CollapseBlanksNoDouble | resume_nlp.py:111 | replacing runs of spaces and tabs by one space leaves no two spaces side by side |
| Normalize.DehyphenNoDouble | resume_nlp.py:113 | joining hyphenated line breaks creates no double space |
| Normalize.CollapseNewlinesNoTriple | resume_nlp.py:114 | after collapsing, no three newlines are adjacent |
| Normalize.CollapseNewlinesNoDouble | resume_nlp.py:114 | collapsing newline runs keeps the text free of double spaces |
| Normalize.NormalizeNotIdempotent | resume_nlp.py:113 | `"a-\nb-\nc"` normalises to `"ab-\nc"`, and that normalises again to `"abc"`: non-overlapping matches make a second pass change the text |
| Normalize.NormalizeOnlyDehyphens | resume_nlp.py:109-115 | on text that is already clean except for hyphen breaks, normalising is exactly the hyphen join |
| Normalize.EmptyNormalized | resume_nlp.py:109-115 | the empty text normalises to "" |
| Text.DigitsOnlyAppend | resume_nlp.py:118-119 | `_digits_only` distributes over concatenation |
| Text.DigitsOnlyOfDigits | resume_nlp.py:118-119 | `_digits_only` leaves an all-digit string unchanged |
| Contact.EmailAtSound | resume_nlp.py:18 | a match found by the email scanner at a position has the shape of `EMAIL_RE`, with word boundaries at both ends |
| Contact.EmailAtComplete | resume_nlp.py:18 | whenever `EMAIL_RE` matches at a position, the scanner finds a match there |
| Contact.EmailAtLongest | resume_nlp.py:18 | the scanner's match at a position reaches at least as far as every match of `EMAIL_RE` there, so it is the longest one |
| Contact.FindEmailFound | resume_nlp.py:122-126 | a found email (confidence 98) is a slice matching `EMAIL_RE`, with no match starting earlier and no longer match from the same start |
| Contact.FindEmailNotFound | resume_nlp.py:122-126 | otherwise the result is ("", 0) and no position of the text starts a match |
| Contact.FindEmailOneAt | resume_nlp.py:122-126 | a found email holds exactly one "@" |
| Contact.FixPlusKeepsDigits | resume_nlp.py:131 | the `"91+ "` to `"+91 "` rewrite keeps the digits of the text in order |
| Contact.FixPlusExample | resume_nlp.py:130-131 | `"91+ 784274592"` becomes `"+91 784274592"` |
| Contact.FixPlusNoPlus | resume_nlp.py:131 | text without a "+" is left unchanged |
| Contact.PhoneAtGreedy | resume_nlp.py:21 | the phone scanner returns the longest match of `PHONE_RE` at a position: no longer end matches |
| Contact.CandidatesUnpadded | resume_nlp.py:131-133 | every candidate from `findall` has at least 9 characters and no whitespace at either end |
| Contact.BestCandidate | resume_nlp.py:134-143 | the selection loop computes the best candidate and its digit count |
| Contact.BestPhoneCount | resume_nlp.py:137-143 | the best count is 0 exactly when no candidate has 9 to 13 digits, and is otherwise in 9..13 and no plausible candidate has more digits |
| Contact.BestPhoneFirst | resume_nlp.py:141-143 | the chosen phone is the stripped first candidate with the best count: ties keep the earliest (strict `>`) |
| Contact.PhoneResultNone | resume_nlp.py:145-146 | the phone is "" exactly when no candidate is plausible, and then the confidence is 0 |
| Contact.PhoneResultFound | resume_nlp.py:145-149 | a found phone is the first candidate with the dominating digit count; its confidence is 92 for 10, 12 or 13 digits and 85 otherwise |
| Contact.FindPhone | resume_nlp.py:129-149 | `find_phone` computes the rewrite, the candidate scan and the selection |
| Contact.EmptyContact | resume_nlp.py:122-149 | the empty text yields no email and no phone, each with confidence 0 |
| Sections.KnownIsCanonOfHeaders | resume_nlp.py:163-175 | the known canonical headers are the canonical forms of `SECTION_HEADERS`, and each is its own canonical form |
| Sections.ColonLineIsContent | resume_nlp.py:161-182 | a line holding ":" never matches `header_re`, so it is never a header |
| Sections.LinesShape | resume_nlp.py:157 | the split lines hold no newline and are stripped |
| Sections.SplitSections | resume_nlp.py:152-189 | the loop that moves the section cursor computes the declarative section map |
| Sections.SectionKeys | resume_nlp.py:158-189 | the map always holds `"__top__"`, and every other key is a known canonical header |
| Sections.HeaderOpensSection | resume_nlp.py:182-185 | every header line opens its section, so its canonical name is a key |
| Sections.BodyLines | resume_nlp.py:177-187 | every line of a section body is a line of the text that is neither blank nor a header |
| Sections.SectionText | resume_nlp.py:187-189 | a section's text is "" when its body is empty, and otherwise splits on newlines back into its body lines, in order |
| Sections.ScanAllIsBody | resume_nlp.py:177-187 | the scan state after any prefix of the lines holds exactly the body of every key and the current section |
| Sections.EmptySections | resume_nlp.py:152-189 | the empty text gives only the top section, empty, so every section lookup gives "" |
| Skills.Lookup | resume_nlp.py:302-306 | a lookup in the skill table returns a value stored under the key, and fails only when no entry has that key |
| Skills.KeptSkillShape | resume_nlp.py:195-278 | a kept token is non-empty and not all digits, has no year word, no ":" and no "&", has at most four words, is no rule line, is not rejected exactly or by substring, and is in the allow-list when it is a capitalised phrase |
| Skills.CleanSkillIgnoresPadding | resume_nlp.py:196 | the filter gives the same answer for a token and its stripped form |
| Skills.CleanSkillRejectsExamples | resume_nlp.py:202-212 | "2019" and "Skills: Python" are rejected |
| Skills.CleanSkillKeepsJs | resume_nlp.py:195-278 | the short keyword "js" passes every filter |
| Skills.TokenSkillJs | resume_nlp.py:288-306 | a section token "js" is cleaned to itself, kept, and recorded under its canonical name "JavaScript" |
| Skills.SplitRunsPieces | resume_nlp.py:289 | no piece of the token split holds a separator character |
| Skills.CollectAre | resume_nlp.py:288-306 | a skill is collected from the tokens exactly when some token maps to it |
| Skills.KeywordHitsAre | resume_nlp.py:309-311 | a canonical skill is added by the keyword scan exactly when one of its keys occurs as a whole word in the haystack |
| Skills.CPlusPlusAlsoC | resume_nlp.py:309-311 | in "c++" the keyword scan finds both "C++" and "C", since "+" is no word character |
| Skills.CollectTokens | resume_nlp.py:290-306 | the token loop collects the declarative token skill set |
| Skills.ScanKeywords | resume_nlp.py:309-311 | the keyword loop adds exactly the keyword hits |
| Skills.ExtractSkills | resume_nlp.py:281-316 | the skills are strictly sorted and are exactly the found set; the confidence is 0 with none, else 85 with a skills section and 65 without |
| Skills.NoSkillsMeansNothingFound | resume_nlp.py:313-315 | the list is empty exactly when nothing was found |
| Skills.EmptyTextSkills | resume_nlp.py:281-316 | with the empty text and no skills section, no skill is found |
| Sorting.SortSet | resume_nlp.py:313 | `sorted(found)` is strictly increasing in code-point order and holds exactly the set's elements |
| Sorting.SortedUnique | resume_nlp.py:313 | two strictly sorted lists with the same elements are equal, so the sorted list is determined by the set |
| Sorting.SortDedup | resume_nlp.py:313 | sorting a list yields a strictly sorted list of its elements |
| Education.DetectHighestQualification | resume_nlp.py:332-344 | the loop over `QUAL_RANKS`, matching each pattern without regard to case, computes the rank-maximum output |
| Education.HighestWins | resume_nlp.py:337-344 | with no pattern matching the result is (-1, ""); otherwise it is the rank and output of a matching entry that no matching entry outranks, the first among equals |
| Education.QualificationIsHighestRank | resume_nlp.py:322-344 | the qualification is "" exactly when no pattern matches, ignoring case, and is otherwise the output of a matching entry of maximal rank |
| Education.QualRanksShape | resume_nlp.py:322-330 | every rank is non-negative and every output non-empty |
| Education.TwelfthAndBTech | resume_nlp.py:326-344 | "12th B.Tech" gives BACHELORS although the intermediate pattern also matches; case does not matter |
| Education.BranchOrderPermutes | resume_nlp.py:356 | the branch order used is a permutation of `BRANCH_KEYWORDS` |
| Education.BranchOrderSorted | resume_nlp.py:356 | that order is by decreasing length, stable among equal lengths |
| Education.FirstBranchIsFirst | resume_nlp.py:355-359 | the branch is "" exactly when no keyword occurs as a whole word; otherwise it is the upper-cased first keyword in that order that occurs |
| Education.Institute | resume_nlp.py:363-365 | a found institute holds no newline or comma and starts, in any case, with one of the institution words, followed by at most 80 characters |
| Education.InstituteIsLeftmost | resume_nlp.py:363-365 | the institute is found exactly when an institution word occurs, and it is then the stripped span from the leftmost occurrence to the first line break or comma, at most 80 characters on |
| Education.EducationOf | resume_nlp.py:347-375 | the confidence is 0 exactly when all three fields are empty, 85 exactly when something was found with an education section and 65 otherwise; without a section the institute is "" |
| Education.ExtractEducation | resume_nlp.py:347-375 | `extract_education` computes that record |
| Education.NoQualificationInEmpty | resume_nlp.py:322-330 | no qualification pattern matches the empty text |
| Education.EmptyTextEducation | resume_nlp.py:347-375 | with the empty text and no education section, the record is empty and the confidence 0 |
| Employment.RoundTenths | resume_nlp.py:397-398 | months/12 rounded to tenths is within half a tenth of the exact value, with ties to an even tenth |
| Employment.TenthsText | resume_nlp.py:398 | the rendered figure is digits, a point and one digit, as `str()` writes a float below 10^16 |
| Employment.YearsFigure | resume_nlp.py:389-398 | the years figure is "" exactly when neither the years nor the months pattern matches, and is otherwise a decimal number (for a months figure below 12·10^16, where `str()` of the float is not in exponent form) |
| Employment.FigureAtSound | resume_nlp.py:389-394 | whatever the figure scanner reports at a position is the group of a years or months match from there |
| Employment.FigureAtComplete | resume_nlp.py:389-394 | whenever the years or months pattern matches from a position with some group, the scanner reports that group there |
| Employment.FirstFigureIsLeftmost | resume_nlp.py:389-394 | `re.search` finds nothing exactly when the pattern matches nowhere, and otherwise the group of the leftmost match |
| Employment.YearsFigureIsLeftmost | resume_nlp.py:389-398 | the years figure is the group of the leftmost years match; failing one, the leftmost months match converted to years; failing both, "" |
| Employment.EmploymentOf | resume_nlp.py:378-415 | the status is Experienced or Fresher; a Fresher has no years; the confidence is 90 exactly when years were found, and one of 90, 80, 65, 75 |
| Employment.FirstRuleWins | resume_nlp.py:403-415 | the four rules decide in order: a figure gives Experienced/90, else a signal gives Fresher/80, else a non-blank experience section gives Experienced/65, else Fresher/75 |
| Employment.EighteenMonths | resume_nlp.py:395-398 | 18 months render as "1.5" |
| Employment.ThreeMonths | resume_nlp.py:398 | 3 months render as "0.2" (0.25 rounds half to even) |
| Employment.NoDigitNoFigure | resume_nlp.py:390-398 | a haystack without digits yields no figure |
| Employment.SignalInsideWord | resume_nlp.py:401-410 | a substring signal fires inside a longer word: "International" counts as "intern" |
| Experience.DateShape | resume_nlp.py:426-429 | a date-range match starts with a month-year and ends with "Present" in any case or another month-year |
| Experience.DateAtSound | resume_nlp.py:426-429 | whatever the date scanner reports at a position is the group pair of a match there, the one with "Present" when that alternative closes |
| Experience.DateAtComplete | resume_nlp.py:426-429 | whenever the date pattern matches at a position, preferring "Present" as the alternation does, the scanner reports its groups |
| Experience.DateMatchPreferred | resume_nlp.py:426-429 | every match at a position gives the preferred one there, so the scanner fails only where no match starts |
| Experience.DateFromIsLeftmost | resume_nlp.py:426-432 | `date_re.search` finds nothing exactly when the pattern matches nowhere in the line, and otherwise the groups of the preferred match at the leftmost start |
| Experience.SquashRuns | resume_nlp.py:450-451 | collapsing runs of two or more whitespace characters leaves no two adjacent whitespace characters and adds only spaces |
| Experience.ExtractExperienceDetails | resume_nlp.py:417-461 | the entry loop computes the declarative entry list and confidence |
| Experience.ExperienceOf | resume_nlp.py:417-461 | without an experience section the result is ([], 0); with one the confidence is 80 exactly when an entry exists and 40 exactly when none does |
| Experience.EntriesFollowDatedLines | resume_nlp.py:431-459 | there is one entry per line holding a date range, in line order, and each is the entry built from its line |
| Experience.EntryAtSome | resume_nlp.py:432-434 | a line yields an entry exactly when it holds a date range |
| Experience.EntryDates | resume_nlp.py:436-438 | the tenure is start + " - " + end; the start is a month-year and the end is "Present" or a month-year |
| Experience.EntryNeighbours | resume_nlp.py:440-451 | the role is the squashed, stripped previous line and the company the line two above; each is "" when missing or when that line holds a date range |
| Names.CleanName | resume_nlp.py:494-495 | the cleaned line holds only letters, space, ".", "'" and "-" and is single-spaced |
| Names.TitleCaseSpec | resume_nlp.py:467-471 | `_title_case_name` collapses whitespace and strips, then capitalises each word exactly when the text is all upper case |
| Names.JoinCapitalized | resume_nlp.py:470 | joining the capitalised words of single-spaced text equals capitalising it character by character |
| Names.TitleCaseOfName | resume_nlp.py:467-471 | title-casing a cleaned name keeps its length and its character class |
| Names.Candidate | resume_nlp.py:491-517 | an accepted line holds no "@", no digit and, in the second tier, no noise word; the name is the cleaned line, with 2 to 5 words, not a bad title |
| Names.FirstSomeIsFirst | resume_nlp.py:491-518 | the early-return scan returns nothing exactly when no line qualifies, and otherwise the first qualifying line's result |
| Names.ScanFirst | resume_nlp.py:491-518 | the scanning loop computes that first result |
| Names.ExtractName | resume_nlp.py:474-527 | `extract_name` computes the three-tier result |
| Names.NameConfidences | resume_nlp.py:474-527 | the confidence is 90, 80, 55 or 0; at 0 the name is ""; without the recogniser it is never 55 |
| Names.FirstTier | resume_nlp.py:489-499 | the confidence is 90 exactly when one of the first 8 non-blank lines qualifies, and the name then comes from the first such line |
| Names.SecondTier | resume_nlp.py:501-518 | the confidence is 80 exactly when no first-tier line qualifies and one of the first 15 top-section lines does, and the name then comes from the first such line |
| Names.LineTierNameChars | resume_nlp.py:489-518 | a name from either line tier holds only name characters |
| Names.EmptyTextName | resume_nlp.py:474-527 | the empty text with an empty top section and a recogniser that finds nobody gives no name and confidence 0 |
| Profile.BuildWarnings | resume_nlp.py:530-574 | the warning loop and the `seen`-set loop compute the de-duplicated raised warnings |
| Profile.DropRepeats | resume_nlp.py:567-574 | the `seen`-set loop keeps the first occurrence of each warning, in order |
| Profile.MessageInjective | resume_nlp.py:533-565 | two warnings with the same message text are the same warning |
| Profile.DedupTexts | resume_nlp.py:567-574 | de-duplicating the warnings and taking their texts equals de-duplicating the texts, as the source does |
| Profile.DedupFacts | resume_nlp.py:567-574 | de-duplication keeps exactly the warnings of its input and leaves no repeat |
| Profile.DedupNoop | resume_nlp.py:567-574 | a list without repeats is left unchanged |
| Profile.UnsureCritical | resume_nlp.py:548-559 | the low-confidence warnings are raised for name, email and phone in that order, each when its confidence is below 50 |
| Profile.RaisedDistinct | resume_nlp.py:533-565 | the raised warnings never repeat and come in the fixed order of the checks: each comes strictly before every later check's warning |
| Profile.WarningsAreRaised | resume_nlp.py:530-574 | de-duplication never changes the raised list, since no rule fires twice |
| Profile.WarningConditions | resume_nlp.py:533-565 | a warning is in the list exactly when its condition holds |
| Profile.NothingFoundWarnings | resume_nlp.py:533-565 | a profile where nothing was found, and no experience without years, gets eight warnings: five missing fields, then low confidence for name, email and phone |
| Profile.ExperienceTextEmpty | resume_nlp.py:629-636 | the experience text is empty exactly when there are no entries |
| Profile.BlockText | resume_nlp.py:647 | the experience block renders as a header line followed by one line per entry |
| Profile.ProfileTextLines | resume_nlp.py:638-648 | when no field holds a line break, `profile_text` splits into the eight labelled field lines, then the experience block when entries exist, each line ended by a newline |
| Profile.RunStages | resume_nlp.py:585-623 | the stages run on the normalised text and its sections, and the record holds their outputs, before warnings and text are filled in |
| Profile.OutputsKeep | resume_nlp.py:626-648 | filling in the warnings and the text changes neither the warnings nor the text computed from the record |
| Profile.ExtractProfile | resume_nlp.py:580-650 | the profile holds the stage outputs, its warnings are the warning rules applied to it, and its text renders it |
| Profile.EmptyStages | resume_nlp.py:585-623 | a resume that normalises to "", with no recogniser or one that finds nobody in "", gets empty personal fields, skills and education, personal confidences 0, and no experienced status without years |
| Profile.EmptyResumeWarnings | resume_nlp.py:580-650 | a resume that normalises to "", with no recogniser or one that finds nobody in "", draws exactly the eight warnings, in that order |
| Utils.CleanText | utils.py:65-76 | the cleaned text keeps only the text's non-whitespace characters and plain spaces, and starts and ends with no space |
| Utils.CleanShape | utils.py:74-76 | the cleaned text has no two adjacent spaces, no whitespace at either end and no whitespace but the plain space |
| Utils.CleanIdempotent | utils.py:71-76 | cleaning twice equals cleaning once |
| Utils.CleanWords | utils.py:74-76 | the cleaned text has the same `str.split()` words as the text |
| Utils.FormatOf | utils.py:91-98 | the extension lower-cased and without leading dots selects PDF for "pdf", DOCX for "docx" and OCR for png, jpg and jpeg |
| Utils.ExtractText | utils.py:79-101 | an empty path, an empty extension or an unsupported format gives ""; otherwise "pdf" gives the PDF extractor's output, "docx" the DOCX extractor's and png, jpg or jpeg the OCR extractor's |
| Utils.FormatIgnoresDot | utils.py:91 | a leading dot does not change the format |
| Utils.FormatIgnoresCase | utils.py:91 | upper case does not change the format |
| Utils.RoutingExamples | utils.py:88-101 | ".PDF" goes to the PDF extractor, "JPEG" to OCR and "tiff" gives "" |
| Validation.ScanEmailIsShape | deet-schema/validation.py:23 | the deterministic email scanner accepts exactly the strings spanned by `[\w\.-]+@[\w\.-]+\.\w+` |
| Validation.ValidEmailMatches | deet-schema/validation.py:22-26 | `validate_email` holds exactly for strings that `re.match` accepts: the pattern spans the string, or the string minus one final newline |
| Validation.EmailExamples | deet-schema/validation.py:22-26 | "a@b.io" and "a@b.io\n" are valid; "a@b" and a number are not |
| Validation.ValidPhone | deet-schema/validation.py:28-29 | a phone is valid exactly when it is a string of ten digits |
| Validation.YearRange | deet-schema/validation.py:31-32 | a year written in decimal is valid exactly when it lies in 1900..2100 |
| Validation.YearExamples | deet-schema/validation.py:31-32 | "02000" is valid since `int` ignores leading zeros; "" and a number are not |
| Validation.ValidateProfile | deet-schema/validation.py:34-51 | the append sequence computes the error list |
| Validation.ErrorsReported | deet-schema/validation.py:39-49 | a message is reported exactly when its check fails |
| Validation.ErrorsDistinct | deet-schema/validation.py:34-51 | no message is reported twice |
| Validation.NoErrorsIffValid | deet-schema/validation.py:34-51 | the list is empty exactly when the name is truthy and email, phone and year are valid |
| Validation.OuterIgnored | deet-schema/validation.py:37 | with a "profile" key present only the nested record is checked; other top-level entries do not matter |

## Left out

- Floating point: confidences are integers in hundredths. `round(c, 2)`
  changes none of the constants. A confidence that is not a number cannot
  arise from `extract_profile`, so the `except` path of `build_warnings` is
  not modelled.
- Employment.RoundTenths: rounds the exact value 5m/6 tenths half to even,
  where Python rounds the binary float `months / 12`. The ties are the odd
  multiples of 3 months (x.25 and x.75 years), which binary floats hold
  exactly, so Python also rounds them to even. Away from ties, float error
  is not modelled, and neither is the float range: from about 310 digits
  `months / 12` raises `OverflowError` (and from 4300 digits `int()` raises
  `ValueError` on Python 3.11 and later), so `extract_profile` raises where
  the model still returns a figure.
- TenthsText: always writes whole digits, a point and one tenth. `str()` of
  a float of 10^16 or more uses exponent form (`"1e+16"` for
  "120000000000000000 months"), which the model does not produce.
- YearsFigure: a months figure of 12·10^16 or more is rendered without
  exponent form, and one past the float range gives a figure where the
  source raises (see the two lines above); below those sizes the rendering
  is the source's.
- Unicode: `\w`, `\s`, `\d`, `lower()`, `upper()`, `isdigit()` and `strip()`
  are ASCII only. Python's Unicode-aware versions accept more characters, and
  under `re.IGNORECASE` `[A-Za-z]` also matches a few non-ASCII letters. Three
  non-ASCII characters are modelled: the en dash (U+2013) of the date
  pattern, the bullet (U+2022) among the skill separators and the em dash
  (U+2014) in the warning texts.
- spaCy: the recogniser is a parameter. It is an optional function from the
  joined first 15 lines to the texts of the PERSON entities. The loading code
  is not part of this model.
- File extractors: `extract_pdf_text`, `extract_docx_text` and
  `extract_image_text` read files and call pdfplumber, python-docx and
  Tesseract. They are parameters of `Utils.ExtractText`, and their failure
  paths are inside them.
- `validate_with_schema` reads a schema file and calls jsonschema. It is not
  part of this model.
- Validation.ValidateProfile: the lookups that would raise `KeyError` or
  `TypeError` are a precondition (`Keyed`) instead of an error path. JSON
  numbers are integers only.
- HTTP routes, the batch driver and the front end sit outside the pipeline
  and are not part of this model.
