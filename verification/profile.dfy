/** extract_profile of resume_nlp.py: the stages run one after the other
    on the normalised text, the warnings are derived from the assembled
    record, and a copy-ready text is rendered from it. */
module Profile {
  import opened Text
  import opened Sorting
  import Normalize
  import Sections
  import Contact
  import Skills
  import Education
  import Employment
  import Experience
  import Names

  datatype Personal = Personal(fullName: string, email: string, phone: string)

  /** The confidences, in hundredths. round(c, 2) leaves every value the
      stages produce unchanged. */
  datatype Confidence = Confidence(fullName: int, email: int, phone: int, education: int,
                                   skills: int, employment: int, experienceDetails: int)

  /** The nine warnings build_warnings can raise, in the order it raises
      them; Message gives the text of each. */
  datatype Warning =
    | NameMissing | EmailMissing | PhoneMissing | SkillsMissing | EducationMissing
    | NameUnsure | EmailUnsure | PhoneUnsure | EmploymentUnsure

  datatype Profile = Profile(personal: Personal, education: Education.Education,
                             employment: Employment.Employment, skills: seq<string>,
                             experienceDetails: seq<Experience.Entry>, confidence: Confidence,
                             warnings: seq<Warning>, profileText: string)

  // ---------------------------------------------------------------------
  // Warnings

  /** The text of each warning. */
  function Message(w: Warning): string {
    match w
    case NameMissing => "Full name not found \U{2014} please enter manually."
    case EmailMissing => "Email not found \U{2014} please verify/enter."
    case PhoneMissing => "Phone not found \U{2014} please verify/enter."
    case SkillsMissing => "Skills not detected \U{2014} add skills manually."
    case EducationMissing => "Education not detected \U{2014} please fill highest qualification."
    case NameUnsure => "Low confidence for name \U{2014} please verify."
    case EmailUnsure => "Low confidence for email \U{2014} please verify."
    case PhoneUnsure => "Low confidence for phone \U{2014} please verify."
    case EmploymentUnsure => "Employment looks experienced but years not detected \U{2014} please verify."
  }

  /** The nine texts differ: a warning is known by its text. */
  lemma MessageInjective(w: Warning, v: Warning)
    requires Message(w) == Message(v)
    ensures w == v
  {
    MessageRank(w);
    MessageRank(v);
    assert Rank(w) == Rank(v);
    RankInjective(w, v);
  }

  /** Each check has its own place. */
  lemma RankInjective(w: Warning, v: Warning)
    ensures Rank(w) == Rank(v) <==> w == v
  {
  }

  /** Which check a text comes from, told by its length, and by its first
      or its twentieth character where two texts have the same length. */
  function RankOfMessage(m: string): nat {
    if |m| == 44 then 0
    else if |m| == 38 then (if m[0] == 'E' then 1 else 2)
    else if |m| == 42 then 3
    else if |m| == 59 then 4
    else if |m| == 40 then 5
    else if |m| == 41 then (if m[19] == 'e' then 6 else 7)
    else 8
  }

  /** The text of a warning tells which check raised it. */
  lemma MessageRank(w: Warning)
    ensures RankOfMessage(Message(w)) == Rank(w)
  {
    if Rank(w) < 5 {
      MissingMessageRank(w);
    } else {
      UnsureMessageRank(w);
    }
  }

  /** MessageRank for the empty checks. */
  lemma MissingMessageRank(w: Warning)
    requires Rank(w) < 5
    ensures RankOfMessage(Message(w)) == Rank(w)
  {
  }

  /** MessageRank for the confidence checks. */
  lemma UnsureMessageRank(w: Warning)
    requires Rank(w) >= 5
    ensures RankOfMessage(Message(w)) == Rank(w)
  {
  }

  /** The texts of a list of warnings. */
  function Texts(ws: seq<Warning>): (ts: seq<string>)
    ensures |ts| == |ws|
  {
    seq(|ws|, i requires 0 <= i < |ws| => Message(ws[i]))
  }

  /** build_warnings drops repeated texts; since the texts differ exactly
      when the warnings do, dropping repeated warnings gives the same
      texts. */
  lemma {:induction false} DedupTexts(ws: seq<Warning>)
    ensures Texts(Dedup(ws)) == Dedup(Texts(ws))
    decreases |ws|
  {
    if ws != [] {
      var init := ws[..|ws| - 1];
      var w := ws[|ws| - 1];
      DedupTexts(init);
      TextsSnoc(init, w);
      assert init + [w] == ws;
      var d := Dedup(init);
      TextsHas(d, w);
      TextsSnoc(d, w);
    }
  }

  /** The texts of a longer list. */
  lemma TextsSnoc(ws: seq<Warning>, w: Warning)
    ensures Texts(ws + [w]) == Texts(ws) + [Message(w)]
  {
  }

  /** A warning is in a list exactly when its text is among the texts. */
  lemma TextsHas(ws: seq<Warning>, w: Warning)
    ensures w in ws <==> Message(w) in Texts(ws)
  {
    if w in ws {
      var i :| 0 <= i < |ws| && ws[i] == w;
      assert Texts(ws)[i] == Message(w);
    } else {
      TextNotFound(ws, w);
    }
  }

  /** A text among the texts comes from a warning of the list. */
  lemma TextNotFound(ws: seq<Warning>, w: Warning)
    requires w !in ws
    ensures Message(w) !in Texts(ws)
  {
    forall i | 0 <= i < |ws| ensures Texts(ws)[i] != Message(w) {
      if Texts(ws)[i] == Message(w) {
        MessageInjective(ws[i], w);
      }
    }
  }

  /** No two elements are equal. */
  predicate Distinct<T(==)>(xs: seq<T>) {
    forall i, j | 0 <= i < j < |xs| :: xs[i] != xs[j]
  }

  /** The warning when the flag is raised, else nothing. */
  function When(flag: bool, w: Warning): seq<Warning> {
    if flag then [w] else []
  }

  /** The empty checks, always made. */
  function Missing(p: Profile): seq<Warning> {
    When(p.personal.fullName == "", NameMissing)
      + When(p.personal.email == "", EmailMissing)
      + When(p.personal.phone == "", PhoneMissing)
      + When(p.skills == [], SkillsMissing)
      + When(p.education == Education.NoEducation, EducationMissing)
  }

  /** The critical fields with their confidences. */
  function Critical(p: Profile): seq<(int, Warning)> {
    [(p.confidence.fullName, NameUnsure), (p.confidence.email, EmailUnsure), (p.confidence.phone, PhoneUnsure)]
  }

  /** The loop over the critical fields: a warning for each confidence
      below 0.5. */
  function Unsure(cs: seq<(int, Warning)>): seq<Warning>
    decreases |cs|
  {
    if cs == [] then []
    else Unsure(cs[..|cs| - 1]) + When(cs[|cs| - 1].0 < 50, cs[|cs| - 1].1)
  }

  /** The employment warning: Experienced, no years, confidence below 0.7. */
  function Ambiguous(p: Profile): seq<Warning> {
    When(p.employment.status == "Experienced" && p.employment.years == "" && p.confidence.employment < 70,
         EmploymentUnsure)
  }

  /** The warnings in the order build_warnings raises them, before the
      repeats are dropped. */
  function Raised(p: Profile): seq<Warning> {
    Missing(p) + Unsure(Critical(p)) + Ambiguous(p)
  }

  /** Drops every element equal to an earlier one, keeping the order. */
  function Dedup<T(==)>(ws: seq<T>): seq<T>
    decreases |ws|
  {
    if ws == [] then []
    else
      var d := Dedup(ws[..|ws| - 1]);
      if ws[|ws| - 1] in d then d else d + [ws[|ws| - 1]]
  }

  /** build_warnings */
  method BuildWarnings(p: Profile) returns (out: seq<Warning>)
    ensures out == Dedup(Raised(p))
  {
    var warnings: seq<Warning> := [];
    if p.personal.fullName == "" {
      warnings := warnings + [NameMissing];
    }
    ghost var m := When(p.personal.fullName == "", NameMissing);
    assert warnings == m;
    if p.personal.email == "" {
      warnings := warnings + [EmailMissing];
    }
    m := m + When(p.personal.email == "", EmailMissing);
    assert warnings == m;
    if p.personal.phone == "" {
      warnings := warnings + [PhoneMissing];
    }
    m := m + When(p.personal.phone == "", PhoneMissing);
    assert warnings == m;
    if p.skills == [] {
      warnings := warnings + [SkillsMissing];
    }
    m := m + When(p.skills == [], SkillsMissing);
    assert warnings == m;
    var edu := p.education;
    if !(edu.qualification != "" || edu.branch != "" || edu.institute != "") {
      warnings := warnings + [EducationMissing];
    }
    m := m + When(edu == Education.NoEducation, EducationMissing);
    assert warnings == m == Missing(p);
    var critical := Critical(p);
    for k := 0 to |critical|
      invariant warnings == Missing(p) + Unsure(critical[..k])
    {
      assert critical[..k + 1] == critical[..k] + [critical[k]];
      UnsureSnoc(critical[..k], critical[k]);
      ghost var before := warnings;
      var (conf, w) := critical[k];
      if conf < 50 {
        warnings := warnings + [w];
      }
      assert warnings == before + When(conf < 50, w);
      AppendAssoc(Missing(p), Unsure(critical[..k]), When(conf < 50, w));
    }
    assert critical[..|critical|] == critical;
    ghost var raised := warnings;
    if p.employment.status == "Experienced" && p.employment.years == "" && p.confidence.employment < 70 {
      warnings := warnings + [EmploymentUnsure];
    }
    assert warnings == raised + Ambiguous(p);
    out := DropRepeats(warnings);
  }

  /** The de-duplication loop of build_warnings: a warning is kept unless
      an equal one was already kept. */
  method DropRepeats(warnings: seq<Warning>) returns (out: seq<Warning>)
    ensures out == Dedup(warnings)
  {
    var seen: set<Warning> := {};
    out := [];
    for i := 0 to |warnings|
      invariant out == Dedup(warnings[..i])
      invariant seen == set w | w in out
    {
      assert warnings[..i + 1][..i] == warnings[..i];
      var w := warnings[i];
      if w !in seen {
        out := out + [w];
        seen := seen + {w};
      }
    }
    assert warnings[..|warnings|] == warnings;
  }

  /** Unsure grows by the check of the last critical field. */
  lemma UnsureSnoc(cs: seq<(int, Warning)>, c: (int, Warning))
    ensures Unsure(cs + [c]) == Unsure(cs) + When(c.0 < 50, c.1)
  {
    assert (cs + [c])[..|cs|] == cs;
  }

  /** The loop over the three critical fields, written out. */
  lemma UnsureCritical(p: Profile)
    ensures Unsure(Critical(p)) == When(p.confidence.fullName < 50, NameUnsure)
      + When(p.confidence.email < 50, EmailUnsure) + When(p.confidence.phone < 50, PhoneUnsure)
  {
    var cs := Critical(p);
    UnsureSnoc([], cs[0]);
    UnsureSnoc([cs[0]], cs[1]);
    UnsureSnoc([cs[0], cs[1]], cs[2]);
    assert [] + [cs[0]] == [cs[0]] && [cs[0]] + [cs[1]] == [cs[0], cs[1]] && [cs[0], cs[1]] + [cs[2]] == cs;
  }

  /** Dedup keeps exactly the elements of its argument, once each. */
  lemma {:induction false} DedupFacts<T>(ws: seq<T>)
    ensures forall w :: w in Dedup(ws) <==> w in ws
    ensures Distinct(Dedup(ws))
    decreases |ws|
  {
    if ws != [] {
      var init := ws[..|ws| - 1];
      DedupFacts(init);
      assert ws == init + [ws[|ws| - 1]];
    }
  }

  /** On a sequence without repeats, Dedup changes nothing. */
  lemma {:induction false} DedupNoop<T>(ws: seq<T>)
    requires Distinct(ws)
    ensures Dedup(ws) == ws
    decreases |ws|
  {
    if ws != [] {
      var init := ws[..|ws| - 1];
      assert Distinct(init);
      DedupNoop(init);
      assert ws[|ws| - 1] !in init;
      assert ws == init + [ws[|ws| - 1]];
    }
  }

  /** Dedup keeps the order of first occurrences: what it makes of a prefix
      is a prefix of what it makes of the whole. */
  lemma {:induction false} DedupPrefix<T>(ws: seq<T>, i: nat)
    requires i <= |ws|
    ensures Dedup(ws[..i]) <= Dedup(ws)
    decreases |ws| - i
  {
    if i < |ws| {
      DedupPrefix(ws, i + 1);
      assert ws[..i + 1][..i] == ws[..i];
    } else {
      assert ws[..i] == ws;
    }
  }

  /** The check of build_warnings that raises each warning. */
  predicate Raises(p: Profile, w: Warning) {
    match w
    case NameMissing => p.personal.fullName == ""
    case EmailMissing => p.personal.email == ""
    case PhoneMissing => p.personal.phone == ""
    case SkillsMissing => p.skills == []
    case EducationMissing => p.education.qualification == "" && p.education.branch == "" && p.education.institute == ""
    case NameUnsure => p.confidence.fullName < 50
    case EmailUnsure => p.confidence.email < 50
    case PhoneUnsure => p.confidence.phone < 50
    case EmploymentUnsure =>
      p.employment.status == "Experienced" && p.employment.years == "" && p.confidence.employment < 70
  }

  /** The outcome of the nine checks of build_warnings. */
  datatype Checks = Checks(noName: bool, noEmail: bool, noPhone: bool, noSkills: bool, noEducation: bool,
                           nameUnsure: bool, emailUnsure: bool, phoneUnsure: bool, employmentUnsure: bool)

  function ChecksOf(p: Profile): Checks {
    Checks(p.personal.fullName == "", p.personal.email == "", p.personal.phone == "", p.skills == [],
           p.education == Education.NoEducation,
           p.confidence.fullName < 50, p.confidence.email < 50, p.confidence.phone < 50,
           p.employment.status == "Experienced" && p.employment.years == "" && p.confidence.employment < 70)
  }

  /** The warnings of the empty checks. */
  function MissingOf(f: Checks): seq<Warning> {
    When(f.noName, NameMissing) + When(f.noEmail, EmailMissing) + When(f.noPhone, PhoneMissing)
      + When(f.noSkills, SkillsMissing) + When(f.noEducation, EducationMissing)
  }

  /** The warnings of the confidence checks. */
  function UnsureOf(f: Checks): seq<Warning> {
    When(f.nameUnsure, NameUnsure) + When(f.emailUnsure, EmailUnsure) + When(f.phoneUnsure, PhoneUnsure)
  }

  /** The warnings the checks raise, in order. */
  function Fired(f: Checks): seq<Warning> {
    MissingOf(f) + UnsureOf(f) + When(f.employmentUnsure, EmploymentUnsure)
  }

  /** The check that raises w. */
  predicate Fires(f: Checks, w: Warning) {
    match w
    case NameMissing => f.noName
    case EmailMissing => f.noEmail
    case PhoneMissing => f.noPhone
    case SkillsMissing => f.noSkills
    case EducationMissing => f.noEducation
    case NameUnsure => f.nameUnsure
    case EmailUnsure => f.emailUnsure
    case PhoneUnsure => f.phoneUnsure
    case EmploymentUnsure => f.employmentUnsure
  }

  /** The raised warnings are those of the nine checks. */
  lemma RaisedFired(p: Profile)
    ensures Raised(p) == Fired(ChecksOf(p))
  {
    UnsureCritical(p);
  }

  /** The place of each check in build_warnings. */
  function Rank(w: Warning): nat {
    match w
    case NameMissing => 0
    case EmailMissing => 1
    case PhoneMissing => 2
    case SkillsMissing => 3
    case EducationMissing => 4
    case NameUnsure => 5
    case EmailUnsure => 6
    case PhoneUnsure => 7
    case EmploymentUnsure => 8
  }

  /** The warnings of xs come in the order of their checks. */
  predicate InRankOrder(xs: seq<Warning>) {
    forall i, j | 0 <= i < j < |xs| :: Rank(xs[i]) < Rank(xs[j])
  }

  /** Every warning in xs comes from a check placed in [lo, hi). */
  predicate Within(xs: seq<Warning>, lo: nat, hi: nat) {
    forall y | y in xs :: lo <= Rank(y) < hi
  }

  /** What appending When(flag, x) adds. */
  lemma SnocHas(xs: seq<Warning>, flag: bool, x: Warning, w: Warning)
    ensures w in xs + When(flag, x) <==> w in xs || (flag && x == w)
  {
  }

  /** Appending the warning of a later check keeps a sequence without
      repeats. */
  lemma SnocDistinct(xs: seq<Warning>, flag: bool, x: Warning, lo: nat)
    requires Distinct(xs) && InRankOrder(xs) && lo <= Rank(x) && Within(xs, lo, Rank(x))
    ensures Distinct(xs + When(flag, x)) && InRankOrder(xs + When(flag, x)) && Within(xs + When(flag, x), lo, Rank(x) + 1)
  {
  }

  /** The empty checks raise their own warnings. */
  lemma MissingHas(f: Checks, w: Warning)
    ensures w in MissingOf(f) <==> Rank(w) < 5 && Fires(f, w)
  {
    var m1 := When(f.noName, NameMissing);
    var m2 := m1 + When(f.noEmail, EmailMissing);
    var m3 := m2 + When(f.noPhone, PhoneMissing);
    var m4 := m3 + When(f.noSkills, SkillsMissing);
    SnocHas(m1, f.noEmail, EmailMissing, w);
    SnocHas(m2, f.noPhone, PhoneMissing, w);
    SnocHas(m3, f.noSkills, SkillsMissing, w);
    SnocHas(m4, f.noEducation, EducationMissing, w);
  }

  /** The confidence checks raise their own warnings. */
  lemma UnsureHas(f: Checks, w: Warning)
    ensures w in UnsureOf(f) <==> 5 <= Rank(w) < 8 && Fires(f, w)
  {
    var u1 := When(f.nameUnsure, NameUnsure);
    SnocHas(u1, f.emailUnsure, EmailUnsure, w);
    SnocHas(u1 + When(f.emailUnsure, EmailUnsure), f.phoneUnsure, PhoneUnsure, w);
  }

  /** A warning is raised exactly when its check fires. */
  lemma FiredHas(f: Checks, w: Warning)
    ensures w in Fired(f) <==> Fires(f, w)
  {
    MissingHas(f, w);
    UnsureHas(f, w);
    SnocHas(MissingOf(f) + UnsureOf(f), f.employmentUnsure, EmploymentUnsure, w);
  }

  /** The empty checks raise no warning twice. */
  lemma MissingDistinct(f: Checks)
    ensures Distinct(MissingOf(f)) && InRankOrder(MissingOf(f)) && Within(MissingOf(f), 0, 5)
  {
    var m3 := When(f.noName, NameMissing) + When(f.noEmail, EmailMissing) + When(f.noPhone, PhoneMissing);
    var m4 := m3 + When(f.noSkills, SkillsMissing);
    ContactMissingDistinct(f);
    SnocDistinct(m3, f.noSkills, SkillsMissing, 0);
    SnocDistinct(m4, f.noEducation, EducationMissing, 0);
  }

  /** The first three empty checks raise no warning twice. */
  lemma ContactMissingDistinct(f: Checks)
    ensures var m3 := When(f.noName, NameMissing) + When(f.noEmail, EmailMissing) + When(f.noPhone, PhoneMissing);
      Distinct(m3) && InRankOrder(m3) && Within(m3, 0, 3)
  {
    var m1 := When(f.noName, NameMissing);
    var m2 := m1 + When(f.noEmail, EmailMissing);
    SnocDistinct([], f.noName, NameMissing, 0);
    assert [] + m1 == m1;
    SnocDistinct(m1, f.noEmail, EmailMissing, 0);
    SnocDistinct(m2, f.noPhone, PhoneMissing, 0);
  }

  /** The confidence checks raise no warning twice. */
  lemma UnsureDistinct(f: Checks)
    ensures Distinct(UnsureOf(f)) && InRankOrder(UnsureOf(f)) && Within(UnsureOf(f), 5, 8)
  {
    var u1 := When(f.nameUnsure, NameUnsure);
    var u2 := u1 + When(f.emailUnsure, EmailUnsure);
    SnocDistinct([], f.nameUnsure, NameUnsure, 5);
    assert [] + u1 == u1;
    SnocDistinct(u1, f.emailUnsure, EmailUnsure, 5);
    SnocDistinct(u2, f.phoneUnsure, PhoneUnsure, 5);
  }

  /** Two sequences without repeats, the first from earlier checks than
      the second, join without repeats. */
  lemma JoinDistinct(a: seq<Warning>, b: seq<Warning>, lo: nat, mid: nat, hi: nat)
    requires lo <= mid <= hi
    requires Distinct(a) && Distinct(b) && InRankOrder(a) && InRankOrder(b) && Within(a, lo, mid) && Within(b, mid, hi)
    ensures Distinct(a + b) && InRankOrder(a + b) && Within(a + b, lo, hi)
  {
    forall i, j | 0 <= i < j < |a + b| ensures (a + b)[i] != (a + b)[j] && Rank((a + b)[i]) < Rank((a + b)[j]) {
      if i < |a| <= j {
        assert (a + b)[i] in a && (a + b)[j] in b;
      } else if j < |a| {
        assert (a + b)[i] == a[i] && (a + b)[j] == a[j];
      } else {
        assert (a + b)[i] == b[i - |a|] && (a + b)[j] == b[j - |a|];
      }
    }
  }

  /** The checks raise no warning twice, and in the order of the checks. */
  lemma FiredDistinct(f: Checks)
    ensures Distinct(Fired(f)) && InRankOrder(Fired(f))
  {
    MissingDistinct(f);
    UnsureDistinct(f);
    JoinDistinct(MissingOf(f), UnsureOf(f), 0, 5, 8);
    SnocDistinct(MissingOf(f) + UnsureOf(f), f.employmentUnsure, EmploymentUnsure, 0);
  }

  /** The raised warnings hold no repeats and come in the fixed order of
      the checks. */
  lemma RaisedDistinct(p: Profile)
    ensures Distinct(Raised(p))
    ensures forall i, j | 0 <= i < j < |Raised(p)| :: Rank(Raised(p)[i]) < Rank(Raised(p)[j])
  {
    RaisedFired(p);
    FiredDistinct(ChecksOf(p));
  }

  /** The warnings of a profile: each raised once, in order. */
  function Warnings(p: Profile): seq<Warning> {
    Dedup(Raised(p))
  }

  /** The de-duplication never drops anything: each check raises its own
      warning, and the nine texts differ. */
  lemma WarningsAreRaised(p: Profile)
    ensures Warnings(p) == Raised(p)
  {
    RaisedDistinct(p);
    DedupNoop(Raised(p));
  }

  /** A warning is present exactly when its check fires. */
  lemma WarningConditions(p: Profile, w: Warning)
    ensures w in Warnings(p) <==> Raises(p, w)
  {
    WarningsAreRaised(p);
    RaisedFired(p);
    FiredHas(ChecksOf(p), w);
    assert Raises(p, w) == Fires(ChecksOf(p), w);
  }

  /** A record in which nothing was found, and no experience guessed
      without a figure, draws exactly eight warnings: the five empty checks
      and the three low confidences. */
  lemma NothingFoundWarnings(p: Profile)
    requires p.personal == Personal("", "", "") && p.skills == [] && p.education == Education.NoEducation
    requires p.confidence.fullName == 0 && p.confidence.email == 0 && p.confidence.phone == 0
    requires !(p.employment.status == "Experienced" && p.employment.years == "")
    ensures Warnings(p) == [NameMissing, EmailMissing, PhoneMissing, SkillsMissing, EducationMissing,
                            NameUnsure, EmailUnsure, PhoneUnsure]
  {
    WarningsAreRaised(p);
    UnsureCritical(p);
  }

  // ---------------------------------------------------------------------
  // The copy-ready text

  /** One experience line: "- role | company | tenure", stripped. */
  function ExperienceLine(e: Experience.Entry): string {
    Strip("- " + e.role + " | " + e.company + " | " + e.tenure)
  }

  /** The experience lines, one per entry. */
  function ExperienceLines(es: seq<Experience.Entry>): (ls: seq<string>)
    ensures |ls| == |es|
  {
    seq(|es|, i requires 0 <= i < |es| => ExperienceLine(es[i]))
  }

  /** The experience lines joined by newlines; "" without entries. */
  function ExperienceText(es: seq<Experience.Entry>): string {
    if es == [] then "" else JoinWith(ExperienceLines(es), "\n")
  }

  /** Each line followed by a newline. */
  function Terminated(ls: seq<string>): string
    decreases |ls|
  {
    if ls == [] then "" else ls[0] + "\n" + Terminated(ls[1..])
  }

  /** The eight labelled lines, always present. */
  function FieldLines(p: Profile): seq<string> {
    ["Full Name: " + p.personal.fullName,
     "Email: " + p.personal.email,
     "Phone: " + p.personal.phone,
     "Highest Qualification: " + p.education.qualification,
     "Branch/Major: " + p.education.branch,
     "Institute: " + p.education.institute,
     "Employment: " + p.employment.status + " " + p.employment.years,
     "Skills: " + JoinWith(p.skills, ", ")]
  }

  /** profile_text: the labelled lines, then an experience block when the
      experience text is not empty. */
  function ProfileText(p: Profile): string {
    var x := ExperienceText(p.experienceDetails);
    Terminated(FieldLines(p)) + (if x != "" then "Experience:\n" + x + "\n" else "")
  }

  /** The lines of the experience block: the header and one line per
      entry, or nothing without entries. */
  function ExperienceBlock(es: seq<Experience.Entry>): seq<string> {
    if es == [] then [] else ["Experience:"] + ExperienceLines(es)
  }

  /** The experience text is empty exactly when there are no entries: every
      line starts with "-". */
  lemma ExperienceTextEmpty(es: seq<Experience.Entry>)
    ensures ExperienceText(es) == "" <==> es == []
  {
    if es != [] {
      var s := "- " + es[0].role + " | " + es[0].company + " | " + es[0].tenure;
      assert s[0] == '-';
      TrimOfNonEmpty(s, IsSpace, 0);
      assert ExperienceLines(es)[0] != "";
    }
  }

  lemma {:induction false} TerminatedAppend(a: seq<string>, b: seq<string>)
    ensures Terminated(a + b) == Terminated(a) + Terminated(b)
    decreases |a|
  {
    if a != [] {
      TerminatedAppend(a[1..], b);
      assert (a + b)[0] == a[0] && (a + b)[1..] == a[1..] + b;
    } else {
      assert a + b == b;
    }
  }

  /** Terminating every line is joining them with a final empty line. */
  lemma {:induction false} TerminatedJoin(ls: seq<string>)
    ensures Terminated(ls) == JoinWith(ls + [""], "\n")
    decreases |ls|
  {
    if ls != [] {
      TerminatedJoin(ls[1..]);
      assert (ls + [""])[1..] == ls[1..] + [""];
    }
  }

  /** Joining with a final empty line adds one separator. */
  lemma {:induction false} JoinSnoc(ls: seq<string>)
    requires ls != []
    ensures JoinWith(ls + [""], "\n") == JoinWith(ls, "\n") + "\n"
    decreases |ls|
  {
    if |ls| > 1 {
      JoinSnoc(ls[1..]);
      assert (ls + [""])[1..] == ls[1..] + [""];
    }
  }

  /** The experience block is the header and the lines, each terminated. */
  lemma BlockText(es: seq<Experience.Entry>)
    requires es != []
    ensures "Experience:\n" + ExperienceText(es) + "\n" == Terminated(ExperienceBlock(es))
  {
    var ls := ExperienceLines(es);
    TerminatedJoin(ls);
    JoinSnoc(ls);
    assert ExperienceBlock(es)[1..] == ls;
  }

  /** No field holds a line break. */
  predicate SingleLineFields(p: Profile) {
    && '\n' !in p.personal.fullName && '\n' !in p.personal.email && '\n' !in p.personal.phone
    && '\n' !in p.education.qualification && '\n' !in p.education.branch && '\n' !in p.education.institute
    && '\n' !in p.employment.status && '\n' !in p.employment.years
    && (forall s | s in p.skills :: '\n' !in s)
    && (forall e | e in p.experienceDetails :: '\n' !in e.role && '\n' !in e.company && '\n' !in e.tenure)
  }

  /** Joining single-line strings with a separator without a line break
      gives a single line. */
  lemma {:induction false} JoinSingleLine(xs: seq<string>, sep: string)
    requires '\n' !in sep
    requires forall x | x in xs :: '\n' !in x
    ensures '\n' !in JoinWith(xs, sep)
    decreases |xs|
  {
    if |xs| > 1 {
      assert forall x | x in xs[1..] :: x in xs;
      JoinSingleLine(xs[1..], sep);
    }
  }

  /** A label without a line break before a single-line value. */
  lemma LabelledLine(head: string, v: string)
    requires '\n' !in head && '\n' !in v
    ensures '\n' !in head + v
  {
  }

  /** The labels of the first four lines hold no line break. */
  lemma FirstLabels()
    ensures '\n' !in "Full Name: " && '\n' !in "Email: " && '\n' !in "Phone: "
      && '\n' !in "Highest Qualification: "
  {
  }

  /** The labels of the last four lines hold no line break. */
  lemma LastLabels()
    ensures '\n' !in "Branch/Major: " && '\n' !in "Institute: " && '\n' !in "Employment: "
      && '\n' !in "Skills: " && '\n' !in " " && '\n' !in ", "
  {
  }

  /** With single-line fields, no labelled line holds a line break. */
  lemma FieldLinesSingle(p: Profile)
    requires SingleLineFields(p)
    ensures forall x | x in FieldLines(p) :: '\n' !in x
  {
    FirstLabels();
    LastLabels();
    JoinSingleLine(p.skills, ", ");
    LabelledLine("Full Name: ", p.personal.fullName);
    LabelledLine("Email: ", p.personal.email);
    LabelledLine("Phone: ", p.personal.phone);
    LabelledLine("Highest Qualification: ", p.education.qualification);
    LabelledLine("Branch/Major: ", p.education.branch);
    LabelledLine("Institute: ", p.education.institute);
    LabelledLine("Employment: ", p.employment.status);
    LabelledLine("Employment: " + p.employment.status, " ");
    LabelledLine("Employment: " + p.employment.status + " ", p.employment.years);
    LabelledLine("Skills: ", JoinWith(p.skills, ", "));
  }

  /** With single-line entries, no line of the experience block holds a
      line break. */
  lemma BlockSingle(es: seq<Experience.Entry>)
    requires forall e | e in es :: '\n' !in e.role && '\n' !in e.company && '\n' !in e.tenure
    ensures forall x | x in ExperienceBlock(es) :: '\n' !in x
  {
    forall k | 0 <= k < |es| ensures '\n' !in ExperienceLines(es)[k] {
      var e := es[k];
      assert e in es;
      LabelledLine("- ", e.role);
      LabelledLine("- " + e.role, " | ");
      LabelledLine("- " + e.role + " | ", e.company);
      LabelledLine("- " + e.role + " | " + e.company, " | ");
      LabelledLine("- " + e.role + " | " + e.company + " | ", e.tenure);
      StripFacts("- " + e.role + " | " + e.company + " | " + e.tenure);
    }
  }

  /** With single-line fields, the lines of the profile text are the eight
      labelled lines, then the experience header and one line per entry
      when there are entries; the text ends with a line break. */
  lemma ProfileTextLines(p: Profile)
    requires SingleLineFields(p)
    ensures SplitOn(ProfileText(p), '\n') == FieldLines(p) + ExperienceBlock(p.experienceDetails) + [""]
  {
    var es := p.experienceDetails;
    var ls := FieldLines(p) + ExperienceBlock(es);
    assert Terminated(ls) == ProfileText(p) by {
      TerminatedAppend(FieldLines(p), ExperienceBlock(es));
      ExperienceTextEmpty(es);
      if es != [] {
        BlockText(es);
      }
    }
    TerminatedJoin(ls);
    FieldLinesSingle(p);
    BlockSingle(es);
    assert forall x | x in ls + [""] :: '\n' !in x;
    SplitJoin(ls + [""], '\n');
  }

  // ---------------------------------------------------------------------
  // extract_profile

  /** The fields extract_profile fills from its stages, all run on the
      normalised text and its sections. The skills list is the sorted list
      of what the skill stage found. */
  predicate StagesGive(resumeText: string, nlp: Names.Recogniser, personal: Personal,
                       education: Education.Education, employment: Employment.Employment, skills: seq<string>,
                       details: seq<Experience.Entry>, confidence: Confidence)
  {
    var text := Normalize.NormalizeText(resumeText);
    var sections := Sections.SectionsOf(text);
    var (email, cEmail) := Contact.FindEmail(text);
    var (phone, cPhone) := Contact.PhoneOf(text);
    var (edu, cEdu) := Education.EducationOf(text, sections);
    var (emp, cEmp) := Employment.EmploymentOf(text, sections);
    var (name, cName) := Names.NameOf(text, sections, nlp);
    var (entries, cDetails) := Experience.ExperienceOf(text, sections);
    var cSkills := if skills == [] then 0 else if Skills.RawSkills(sections) != "" then 85 else 65;
    && personal == Personal(name, email, phone)
    && education == edu
    && employment == emp
    && StrictlySorted(skills) && Elems(skills) == Skills.FoundSkills(text, sections)
    && details == entries
    && confidence == Confidence(cName, cEmail, cPhone, cEdu, cSkills, cEmp, cDetails)
  }

  /** The record's stage fields are what the stages give. */
  predicate FromStages(resumeText: string, nlp: Names.Recogniser, p: Profile) {
    StagesGive(resumeText, nlp, p.personal, p.education, p.employment, p.skills, p.experienceDetails,
               p.confidence)
  }

  /** The stage calls of extract_profile and the record they fill, with
      the warnings and the text still empty. The recogniser stands for
      spaCy's model, absent when it is not installed. */
  method RunStages(resumeText: string, nlp: Names.Recogniser) returns (p: Profile)
    ensures FromStages(resumeText, nlp, p)
    ensures p.warnings == [] && p.profileText == ""
  {
    var text := Normalize.NormalizeText(resumeText);
    var sections := Sections.SplitSections(text);
    var (email, cEmail) := Contact.FindEmail(text);
    var phone, cPhone := Contact.FindPhone(text);
    var skills, cSkills := Skills.ExtractSkills(text, sections);
    var education, cEdu := Education.ExtractEducation(text, sections);
    var (employment, cEmp) := Employment.EmploymentOf(text, sections);
    var name, cName := Names.ExtractName(text, sections, nlp);
    var details, cDetails := Experience.ExtractExperienceDetails(text, sections);
    p := Profile(Personal(name, email, phone), education, employment, skills, details,
                 Confidence(cName, cEmail, cPhone, cEdu, cSkills, cEmp, cDetails), [], "");
    StagesFrom(resumeText, nlp, text, sections, p);
  }

  /** The stage outputs, field by field, make up a record FromStages
      describes. */
  lemma StagesFrom(resumeText: string, nlp: Names.Recogniser, text: string, sections: map<string, string>, p: Profile)
    requires text == Normalize.NormalizeText(resumeText) && sections == Sections.SectionsOf(text)
    requires (p.personal.email, p.confidence.email) == Contact.FindEmail(text)
    requires (p.personal.phone, p.confidence.phone) == Contact.PhoneOf(text)
    requires StrictlySorted(p.skills) && Elems(p.skills) == Skills.FoundSkills(text, sections)
    requires p.confidence.skills == (if p.skills == [] then 0 else if Skills.RawSkills(sections) != "" then 85 else 65)
    requires (p.education, p.confidence.education) == Education.EducationOf(text, sections)
    requires (p.employment, p.confidence.employment) == Employment.EmploymentOf(text, sections)
    requires (p.personal.fullName, p.confidence.fullName) == Names.NameOf(text, sections, nlp)
    requires (p.experienceDetails, p.confidence.experienceDetails) == Experience.ExperienceOf(text, sections)
    ensures FromStages(resumeText, nlp, p)
  {
  }

  /** A blank resume (one that normalises to the empty text, as the empty
      resume does by Normalize.EmptyNormalized): every stage finds
      nothing, so with a recogniser that finds no person in the empty
      text (or none installed) the record draws the eight warnings of
      NothingFoundWarnings. */
  lemma EmptyResumeWarnings(resumeText: string, nlp: Names.Recogniser, p: Profile)
    requires FromStages(resumeText, nlp, p) && Normalize.NormalizeText(resumeText) == ""
    requires nlp.None? || nlp.value("") == []
    ensures Warnings(p) == [NameMissing, EmailMissing, PhoneMissing, SkillsMissing, EducationMissing,
                            NameUnsure, EmailUnsure, PhoneUnsure]
  {
    EmptyStages(resumeText, nlp, p);
    NothingFoundWarnings(p);
  }

  /** What the stages give for a blank resume. */
  lemma EmptyStages(resumeText: string, nlp: Names.Recogniser, p: Profile)
    requires FromStages(resumeText, nlp, p) && Normalize.NormalizeText(resumeText) == ""
    requires nlp.None? || nlp.value("") == []
    ensures p.personal == Personal("", "", "") && p.skills == [] && p.education == Education.NoEducation
    ensures p.confidence.fullName == 0 && p.confidence.email == 0 && p.confidence.phone == 0
    ensures !(p.employment.status == "Experienced" && p.employment.years == "")
  {
    Sections.EmptySections();
    var sections := Sections.SectionsOf("");
    Contact.EmptyContact();
    Skills.EmptyTextSkills(sections);
    ElemsEmpty(p.skills);
    Education.EmptyTextEducation(sections);
    Employment.NoSectionNoGuess("", sections);
    Names.EmptyTextName(sections, nlp);
  }

  /** Filling in the warnings and the text changes nothing the warnings
      and the text are computed from. */
  lemma OutputsKeep(p: Profile, ws: seq<Warning>, t: string)
    ensures var q := p.(warnings := ws, profileText := t);
      Warnings(q) == Warnings(p) && ProfileText(q) == ProfileText(p)
  {
    var q := p.(warnings := ws, profileText := t);
    assert Raised(q) == Raised(p);
    assert FieldLines(q) == FieldLines(p);
  }

  /** extract_profile: the stages, then the warnings, then the copy-ready
      text. */
  method ExtractProfile(resumeText: string, nlp: Names.Recogniser) returns (p: Profile)
    ensures FromStages(resumeText, nlp, p)
    ensures p.warnings == Warnings(p)
    ensures p.profileText == ProfileText(p)
  {
    p := RunStages(resumeText, nlp);
    ghost var stages := p;
    var warnings := BuildWarnings(p);
    p := p.(warnings := warnings);
    var x := "";
    if p.experienceDetails != [] {
      x := ExperienceText(p.experienceDetails);
    }
    assert x == ExperienceText(p.experienceDetails) by {
      ExperienceTextEmpty(p.experienceDetails);
    }
    p := p.(profileText := Terminated(FieldLines(p)) + (if x != "" then "Experience:\n" + x + "\n" else ""));
    OutputsKeep(stages, warnings, p.profileText);
  }
}
