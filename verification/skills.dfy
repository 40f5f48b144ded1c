/** Skill extraction of resume_nlp.py: the token filter clean_skill and
    extract_skills, which parses the skills section and scans the text for
    the keywords of SKILL_CANONICAL. */
module Skills {
  import opened Text
  import opened Sorting

  /** SKILL_CANONICAL, in the order written: lower-case keyword and the
      display name it stands for. */
  const SkillTable: seq<(string, string)> := [
    ("python", "Python"), ("sql", "SQL"), ("mysql", "MySQL"),
    ("postgres", "PostgreSQL"), ("postgresql", "PostgreSQL"),
    ("java", "Java"), ("c++", "C++"), ("c#", "C#"), ("c", "C"),
    ("javascript", "JavaScript"), ("js", "JavaScript"),
    ("typescript", "TypeScript"), ("html", "HTML"), ("css", "CSS"),
    ("php", "PHP"),
    ("django", "Django"), ("react", "React"), ("next.js", "Next.js"),
    ("nextjs", "Next.js"), ("mern", "MERN Stack"),
    ("spark", "Apache Spark"), ("pyspark", "PySpark"),
    ("databricks", "Databricks"), ("delta", "Delta Lake"),
    ("delta lake", "Delta Lake"), ("airflow", "Airflow"), ("dbt", "dbt"),
    ("kafka", "Kafka"),
    ("tensorflow", "TensorFlow"), ("scikit-learn", "Scikit-learn"),
    ("sklearn", "Scikit-learn"), ("opencv", "OpenCV"),
    ("mediapipe", "MediaPipe"),
    ("azure", "Azure"), ("adf", "Azure Data Factory"),
    ("azure data factory", "Azure Data Factory"),
    ("synapse", "Azure Synapse"), ("aws", "AWS"), ("gcp", "GCP"),
    ("git", "Git"), ("docker", "Docker"), ("linux", "Linux"),
    ("excel", "Excel")
  ]

  /** SKILL_CANONICAL.get(key): the first entry with that keyword. */
  function Lookup(table: seq<(string, string)>, key: string): (r: Option<string>)
    ensures r.Some? ==> exists i | 0 <= i < |table| :: table[i] == (key, r.value)
    ensures r.None? ==> forall i | 0 <= i < |table| :: table[i].0 != key
    decreases |table|
  {
    if table == [] then None
    else if table[0].0 == key then Some(table[0].1)
    else
      var r := Lookup(table[1..], key);
      assert forall i | 1 <= i < |table| :: table[i] == table[1..][i - 1];
      r
  }

  // ---------------------------------------------------------------------
  // clean_skill

  /** re.search(r"\b(19|20)\d{2}\b", t) */
  predicate HasYear(t: string) {
    exists i | 0 <= i <= |t| - 4 :: YearAt(t, i)
  }

  predicate YearAt(t: string, i: nat) {
    && i + 4 <= |t|
    && WordBoundary(t, i) && WordBoundary(t, i + 4)
    && (t[i..i + 2] == "19" || t[i..i + 2] == "20")
    && IsDigit(t[i + 2]) && IsDigit(t[i + 3])
  }

  predicate IsRule(c: char) { c == '_' || c == '=' || c == '-' }

  /** re.fullmatch(r"[_=\-]{3,}", t) */
  predicate IsRuleLine(t: string) {
    |t| >= 3 && forall k | 0 <= k < |t| :: IsRule(t[k])
  }

  /** Mostly underscores: at least ten characters, no digit, and more than
      60 percent underscores. count / len > 0.6 is written without division
      as 5 * count > 3 * len. */
  predicate MostlyUnderscores(t: string) {
    |t| >= 10 && DigitsOnly(t) == "" && 5 * CountChar(t, '_') > 3 * |t|
  }

  const RejectExact: set<string> := {
    "learning", "self learning", "self-learning", "teamwork",
    "communication", "leadership"
  }

  const RejectContains: seq<string> := [
    "relevant coursework", "secondary school", "secured", "award",
    "board examinations", "current gpa", "education", "about me",
    "discipline", "punctuality", "anchoring", "school", "college",
    "institute", "cloud platform"
  ]

  const AllowedPhrases: set<string> := {
    "Machine Learning", "Artificial Intelligence", "Data Science",
    "Statistics for Data Science"
  }

  /** [A-Z][a-z]+ */
  predicate IsCapWord(w: string) {
    |w| >= 2 && IsUpper(w[0]) && forall k | 1 <= k < |w| :: IsLower(w[k])
  }

  /** re.fullmatch(r"[A-Z][a-z]+(?:\s+[A-Z][a-z]+)+", t): no outer
      whitespace, at least two words, and every word capitalised. */
  predicate IsCapPhrase(t: string) {
    && t != [] && !IsSpace(t[0]) && !IsSpace(t[|t| - 1])
    && |Words(t)| >= 2
    && forall k | 0 <= k < |Words(t)| :: IsCapWord(Words(t)[k])
  }

  /** clean_skill: whether a token is kept as a skill. */
  function CleanSkill(token: string): bool {
    var t := Strip(token);
    var low := Lower(t);
    if t == "" then false
    else if IsDigits(t) then false
    else if HasYear(t) then false
    else if ':' in t then false
    else if |Words(t)| > 4 then false
    else if IsRuleLine(t) then false
    else if MostlyUnderscores(t) then false
    else if low in RejectExact then false
    else if exists k | 0 <= k < |RejectContains| :: Contains(low, RejectContains[k]) then false
    else if '&' in t then false
    else if IsCapPhrase(t) && t !in AllowedPhrases then false
    else true
  }

  /** What a kept token looks like once stripped. */
  lemma KeptSkillShape(token: string)
    requires CleanSkill(token)
    ensures var t := Strip(token);
      && t != "" && !IsDigits(t) && !HasYear(t)
      && ':' !in t && '&' !in t
      && |Words(t)| <= 4
      && !IsRuleLine(t) && !MostlyUnderscores(t)
      && Lower(t) !in RejectExact
      && (forall k | 0 <= k < |RejectContains| :: !Contains(Lower(t), RejectContains[k]))
      && (IsCapPhrase(t) ==> t in AllowedPhrases)
  {
  }

  /** clean_skill strips first, so surrounding whitespace never matters. */
  lemma CleanSkillIgnoresPadding(token: string)
    ensures CleanSkill(Strip(token)) == CleanSkill(token)
  {
    StripFacts(token);
  }

  /** A token without digits never looks like a year. */
  lemma NoDigitNoYear(t: string)
    requires forall k | 0 <= k < |t| :: !IsDigit(t[k])
    ensures !HasYear(t)
  {
    forall i | 0 <= i <= |t| - 4 ensures !YearAt(t, i) {
      assert !IsDigit(t[i + 2]);
    }
  }

  /** Pure numbers and labels are rejected. */
  lemma CleanSkillRejectsExamples()
    ensures !CleanSkill("2019")
    ensures !CleanSkill("Skills: Python")
  {
    StripNoop("2019");
    assert IsDigits("2019");
    var t := "Skills: Python";
    StripNoop(t);
    NoDigitNoYear(t);
    assert t[6] == ':';
  }

  /** A short lower-case keyword passes every filter. */
  lemma CleanSkillKeepsJs()
    ensures CleanSkill("js")
  {
    var t := "js";
    StripNoop(t);
    assert !IsDigit(t[0]);
    NoDigitNoYear(t);
    assert Words(t) == [t] by {
      assert TrimLeft(t, IsSpace) == t;
      RunEndIs(t, 0, NotSpace, 2);
      assert t[..2] == t && t[2..] == [];
      assert Words([]) == [];
    }
    assert !IsCapWord(t);
  }

  // ---------------------------------------------------------------------
  // Cleaning one token of the skills section

  predicate IsSkillSep(c: char) {
    c == ',' || c == '\n' || c == '\U{2022}' || c == '|' || c == '/'
  }

  /** re.split(r"[,\n•|/]+", s): the pieces between maximal runs of
      separators; a leading or trailing run gives an empty piece. */
  function SplitRuns(s: string): (r: seq<string>)
    ensures |r| >= 1
    decreases |s|
  {
    if s == [] then [[]]
    else if IsSkillSep(s[0]) then [[]] + SplitRuns(s[RunEnd(s, 0, IsSkillSep)..])
    else
      var rest := SplitRuns(s[1..]);
      [[s[0]] + rest[0]] + rest[1..]
  }

  /** No piece holds a separator. */
  lemma {:induction false} SplitRunsPieces(s: string)
    ensures forall k | 0 <= k < |SplitRuns(s)| :: forall j | 0 <= j < |SplitRuns(s)[k]| :: !IsSkillSep(SplitRuns(s)[k][j])
    decreases |s|
  {
    if s != [] {
      if IsSkillSep(s[0]) {
        SplitRunsPieces(s[RunEnd(s, 0, IsSkillSep)..]);
      } else {
        SplitRunsPieces(s[1..]);
      }
    }
  }

  predicate IsParen(c: char) { c == '(' || c == ')' }

  /** re.sub(r"[()]+", "", s) */
  function DropParens(s: string): (r: string)
    ensures forall k | 0 <= k < |r| :: !IsParen(r[k])
    decreases |s|
  {
    if s == [] then []
    else (if IsParen(s[0]) then [] else [s[0]]) + DropParens(s[1..])
  }

  /** s.replace(p, ""): removes non-overlapping occurrences, left to right. */
  function RemoveAll(s: string, p: string): string
    requires p != []
    decreases |s|
  {
    if |s| < |p| then s
    else if s[..|p|] == p then RemoveAll(s[|p|..], p)
    else [s[0]] + RemoveAll(s[1..], p)
  }

  /** re.sub(r"[_=\-]{3,}", "", s): drops every run of three or more of
      _ = - ; shorter runs stay. */
  function DropRules(s: string): string
    decreases |s|
  {
    if s == [] then []
    else
      var n := RunEnd(s, 0, IsRule);
      if n >= 3 then DropRules(s[n..]) else [s[0]] + DropRules(s[1..])
  }

  predicate IsTokenPunct(c: char) {
    c == ' ' || c == ',' || c == '.' || c == ';' || c == ':' || c == '_' || c == '-'
  }

  /** The cleaning of one token in extract_skills. */
  function CleanToken(t: string): string {
    var a := Strip(t);
    var b := Strip(DropParens(a));
    var c := Strip(RemoveAll(b, ".js"));
    var d := Strip(DropRules(c));
    Trim(d, IsTokenPunct)
  }

  /** The name a kept token is recorded under: its canonical name when its
      lower-case form is a keyword, else the token itself. */
  function Canonical(tt: string): string {
    match Lookup(SkillTable, Lower(tt))
    case Some(c) => c
    case None => tt
  }

  /** The skill one token of the section contributes, if any. */
  function TokenSkill(token: string): Option<string> {
    var tt := CleanToken(token);
    if CleanSkill(tt) then Some(Canonical(tt)) else None
  }

  /** A section token "js" is recorded as JavaScript. */
  lemma TokenSkillJs()
    ensures TokenSkill("js") == Some("JavaScript")
  {
    CleanTokenJs();
    CleanSkillKeepsJs();
    LookupJs();
  }

  lemma CleanTokenJs()
    ensures CleanToken("js") == "js"
  {
    var t := "js";
    StripNoop(t);
    assert DropParens(t) == t by { assert DropParens(t[1..]) == t[1..]; }
    assert RemoveAll(t, ".js") == t;
    assert DropRules(t) == t by {
      RunEndIs(t, 0, IsRule, 0);
      RunEndIs(t[1..], 0, IsRule, 0);
      assert DropRules(t[1..]) == t[1..] by { assert t[1..][1..] == []; }
    }
    TrimNoop(t, IsTokenPunct);
  }

  lemma LookupJs()
    ensures Lookup(SkillTable, Lower("js")) == Some("JavaScript")
  {
    assert Lower("js") == "js";
    var rest := SkillTable[10..];
    assert rest[0] == ("js", "JavaScript");
    LookupSkips(SkillTable, 10, "js");
  }

  /** Lookup passes over entries whose keyword is not the key. */
  lemma {:induction false} LookupSkips(table: seq<(string, string)>, n: nat, key: string)
    requires n <= |table| && forall i | 0 <= i < n :: table[i].0 != key
    ensures Lookup(table, key) == Lookup(table[n..], key)
    decreases n
  {
    if n > 0 {
      assert table[1..][n - 1..] == table[n..];
      LookupSkips(table[1..], n - 1, key);
    }
  }

  /** The values f gives the tokens, collected in a set. */
  function Collect(tokens: seq<string>, f: string -> Option<string>): set<string>
    decreases |tokens|
  {
    if tokens == [] then {}
    else
      var s := f(tokens[|tokens| - 1]);
      Collect(tokens[..|tokens| - 1], f) + (if s.Some? then {s.value} else {})
  }

  /** A value is collected exactly when f gives it for some token. */
  lemma {:induction false} CollectAre(tokens: seq<string>, f: string -> Option<string>, c: string)
    ensures c in Collect(tokens, f) <==> exists i | 0 <= i < |tokens| :: f(tokens[i]) == Some(c)
    decreases |tokens|
  {
    if tokens != [] {
      var init := tokens[..|tokens| - 1];
      CollectAre(init, f, c);
      assert forall i | 0 <= i < |init| :: init[i] == tokens[i];
    }
  }

  /** The keywords of table found in hay as whole words, by display name. */
  function KeywordHits(table: seq<(string, string)>, hay: string): set<string>
    decreases |table|
  {
    if table == [] then {}
    else
      var e := table[|table| - 1];
      KeywordHits(table[..|table| - 1], hay) + (if WholeWord(hay, e.0) then {e.1} else {})
  }

  /** A display name is a hit exactly when one of its keywords occurs in
      hay with no word character on either side. */
  lemma {:induction false} KeywordHitsAre(table: seq<(string, string)>, hay: string, c: string)
    ensures c in KeywordHits(table, hay) <==>
      exists i | 0 <= i < |table| :: table[i].1 == c && WholeWord(hay, table[i].0)
    decreases |table|
  {
    if table != [] {
      var init := table[..|table| - 1];
      KeywordHitsAre(init, hay, c);
      assert forall i | 0 <= i < |init| :: init[i] == table[i];
    }
  }

  /** "c++" in the text brings in both C++ and C: the keyword "c" is
      followed by '+', which is not a word character. */
  lemma CPlusPlusAlsoC()
    ensures "C++" in KeywordHits(SkillTable, "c++")
    ensures "C" in KeywordHits(SkillTable, "c++")
  {
    assert SkillTable[6] == ("c++", "C++");
    assert SkillTable[8] == ("c", "C");
    assert WholeWordAt("c++", "c++", 0);
    assert WholeWordAt("c++", "c", 0);
    KeywordHitsAre(SkillTable, "c++", "C++");
    KeywordHitsAre(SkillTable, "c++", "C");
  }

  /** The text that is searched for keywords and the raw skills section. */
  function RawSkills(sections: map<string, string>): string {
    GetOr(sections, "skills", "")
  }

  function Haystack(text: string, sections: map<string, string>): string {
    var raw := RawSkills(sections);
    Lower(if raw != "" then raw else text)
  }

  /** The set `found` at the end of extract_skills. */
  function FoundSkills(text: string, sections: map<string, string>): set<string> {
    var raw := RawSkills(sections);
    (if raw != "" then Collect(SplitRuns(raw), TokenSkill) else {}) + KeywordHits(SkillTable, Haystack(text, sections))
  }

  /** The token loop of extract_skills: each token's skill, if any, is
      added to the set. */
  method CollectTokens(tokens: seq<string>, f: string -> Option<string>) returns (found: set<string>)
    ensures found == Collect(tokens, f)
  {
    found := {};
    var i := 0;
    while i < |tokens|
      invariant 0 <= i <= |tokens|
      invariant found == Collect(tokens[..i], f)
    {
      assert tokens[..i + 1][..i] == tokens[..i];
      var skill := f(tokens[i]);
      if skill.Some? {
        found := found + {skill.value};
      }
      i := i + 1;
    }
    assert tokens[..i] == tokens;
  }

  /** The keyword loop of extract_skills: each keyword found as a whole
      word adds its display name to base. */
  method ScanKeywords(table: seq<(string, string)>, hay: string, base: set<string>) returns (found: set<string>)
    ensures found == base + KeywordHits(table, hay)
  {
    found := base;
    var j := 0;
    while j < |table|
      invariant 0 <= j <= |table|
      invariant found == base + KeywordHits(table[..j], hay)
    {
      assert table[..j + 1][..j] == table[..j];
      if WholeWord(hay, table[j].0) {
        found := found + {table[j].1};
      }
      j := j + 1;
    }
    assert table[..j] == table;
  }

  /** extract_skills */
  method ExtractSkills(text: string, sections: map<string, string>) returns (skills: seq<string>, conf: int)
    ensures StrictlySorted(skills) && Elems(skills) == FoundSkills(text, sections)
    ensures conf == (if skills == [] then 0 else if RawSkills(sections) != "" then 85 else 65)
  {
    var raw := GetOr(sections, "skills", "");
    var haystack := Lower(if raw != "" then raw else text);
    var found: set<string> := {};
    if raw != "" {
      found := CollectTokens(SplitRuns(raw), TokenSkill);
    }
    found := ScanKeywords(SkillTable, haystack, found);
    skills := SortSet(found);
    if skills == [] {
      return [], 0;
    }
    conf := if raw != "" then 85 else 65;
  }

  /** extract_skills returns ([], 0) exactly when nothing was found. */
  lemma NoSkillsMeansNothingFound(skills: seq<string>, text: string, sections: map<string, string>)
    requires StrictlySorted(skills) && Elems(skills) == FoundSkills(text, sections)
    ensures skills == [] <==> FoundSkills(text, sections) == {}
  {
    ElemsEmpty(skills);
  }

  /** No skill keyword occurs in an empty haystack. */
  lemma EmptyHaystackHits()
    ensures KeywordHits(SkillTable, "") == {}
  {
    forall c ensures c !in KeywordHits(SkillTable, "") {
      KeywordHitsAre(SkillTable, "", c);
    }
  }

  /** Without a skills section, an empty text yields no skill. */
  lemma EmptyTextSkills(sections: map<string, string>)
    requires RawSkills(sections) == ""
    ensures FoundSkills("", sections) == {}
  {
    EmptyHaystackHits();
  }
}
