/** The name finder of resume_nlp.py: the first plausible line among the
    first lines of the text, then among the top section, then the first
    person an optional named-entity recogniser reports. */
module Names {
  import opened Text

  /** The characters a cleaned name keeps: `[A-Za-z .'-]`. */
  predicate IsNameChar(c: char) {
    IsAlpha(c) || c == ' ' || c == '.' || c == '\'' || c == '-'
  }

  /** re.sub(r"[^A-Za-z .'-]", "", s) */
  function KeepNameChars(s: string): (r: string)
    ensures forall c :: c in r ==> IsNameChar(c)
    decreases |s|
  {
    if s == [] then []
    else (if IsNameChar(s[0]) then [s[0]] else []) + KeepNameChars(s[1..])
  }

  /** No whitespace but single spaces, none at either end. */
  predicate SingleSpaced(t: string) {
    && (t == [] || (t[0] != ' ' && t[|t| - 1] != ' '))
    && OnlySpaces(t)
    && NoDoubleSpace(t)
  }

  /** A slice keeps both spacing properties. */
  lemma SliceSpacing(c: string, a: nat, b: nat)
    requires a <= b <= |c| && OnlySpaces(c) && NoDoubleSpace(c)
    ensures OnlySpaces(c[a..b]) && NoDoubleSpace(c[a..b])
  {
    var t := c[a..b];
    NoDoubleSpaceSlice(c, a, b);
    forall i | 0 <= i < |t| ensures IsSpace(t[i]) ==> t[i] == ' ' {
      assert t[i] == c[a + i];
    }
  }

  /** Collapsing whitespace runs and stripping leaves a single-spaced
      string made of the characters of s and spaces. */
  lemma CollapsedIsSingleSpaced(s: string)
    ensures SingleSpaced(Strip(CollapseSpace(s)))
    ensures forall ch :: ch in Strip(CollapseSpace(s)) ==> ch == ' ' || ch in s
  {
    var c := CollapseSpace(s);
    CollapseNoDouble(s);
    assert OnlySpaces(c) by {
      forall i | 0 <= i < |c| ensures IsSpace(c[i]) ==> c[i] == ' ' {
        assert c[i] in c;
      }
    }
    TrimIsSlice(c, IsSpace);
    var a, b :| 0 <= a <= b <= |c| && Strip(c) == c[a..b];
    SliceSpacing(c, a, b);
    TrimChars(c, IsSpace);
  }

  /** The cleaned line of extract_name: only name characters, whitespace
      runs collapsed, stripped. */
  function CleanName(ln: string): (r: string)
    ensures forall c :: c in r ==> IsNameChar(c)
    ensures SingleSpaced(r)
  {
    var kept := Strip(KeepNameChars(ln));
    TrimChars(KeepNameChars(ln), IsSpace);
    CollapsedIsSingleSpaced(kept);
    Strip(CollapseSpace(kept))
  }

  /** str.capitalize() */
  function Capitalize(w: string): string {
    if w == [] then [] else [UpperChar(w[0])] + Lower(w[1..])
  }

  function CapitalizeAll(ws: seq<string>): (r: seq<string>)
    ensures |r| == |ws|
    decreases |ws|
  {
    if ws == [] then [] else [Capitalize(ws[0])] + CapitalizeAll(ws[1..])
  }

  /** _title_case_name */
  function TitleCase(s: string): string {
    var t := Strip(CollapseSpace(s));
    if t != "" && Upper(t) == t then JoinWith(CapitalizeAll(Words(t)), " ") else t
  }

  /** Title case by position: upper case at the start of every word,
      lower case elsewhere. */
  function TitleRef(t: string): (r: string)
    ensures |r| == |t|
  {
    seq(|t|, i requires 0 <= i < |t| => if i == 0 || t[i - 1] == ' ' then UpperChar(t[i]) else LowerChar(t[i]))
  }

  /** A string starting with a word: that word, then the words of the rest. */
  lemma WordsHead(t: string)
    requires t != [] && !IsSpace(t[0])
    ensures var n := RunEnd(t, 0, NotSpace);
      0 < n && Words(t) == [t[..n]] + Words(t[n..])
  {
    assert NotSpace(t[0]);
    assert TrimLeft(t, IsSpace) == t;
  }

  /** A single space before a word adds no word. */
  lemma WordsAfterSpace(u: string)
    requires 1 < |u| && IsSpace(u[0]) && !IsSpace(u[1])
    ensures Words(u) == Words(u[1..])
  {
    assert TrimLeft(u[1..], IsSpace) == u[1..];
    assert TrimLeft(u, IsSpace) == TrimLeft(u[1..], IsSpace);
  }

  /** In a single-spaced string the first word ends at the end or at a
      space that a further word follows. */
  lemma FirstWordEnd(t: string)
    requires SingleSpaced(t) && t != []
    ensures var n := RunEnd(t, 0, NotSpace);
      && 0 < n
      && (forall i | 0 <= i < n :: t[i] != ' ')
      && (n < |t| ==> t[n] == ' ' && n + 1 < |t| && !IsSpace(t[n + 1]))
  {
    var n := RunEnd(t, 0, NotSpace);
    RunEndAll(t, 0, NotSpace);
    assert NotSpace(t[0]);
    if n < |t| {
      assert IsSpace(t[n]) && t[n] == ' ';
      assert n + 1 < |t|;
      assert !SpacePair(t, n);
    }
  }

  /** The rest after the first word and its space is single-spaced. */
  lemma RestSingleSpaced(t: string, n: nat)
    requires SingleSpaced(t) && 0 < n + 1 < |t| && !IsSpace(t[n + 1])
    ensures SingleSpaced(t[n + 1..]) && t[n + 1..] != []
  {
    SliceSpacing(t, n + 1, |t|);
    assert t[n + 1..|t|] == t[n + 1..];
    var u := t[n + 1..];
    assert u[0] == t[n + 1] && u[|u| - 1] == t[|t| - 1];
  }

  /** The first word of a single-spaced string, and the rest after the
      space that ends it. */
  lemma WordsStep(t: string)
    requires SingleSpaced(t) && t != []
    ensures var n := RunEnd(t, 0, NotSpace);
      && 0 < n
      && (forall i | 0 <= i < n :: t[i] != ' ')
      && (n < |t| ==> t[n] == ' ' && n + 1 < |t| && SingleSpaced(t[n + 1..]) && t[n + 1..] != [])
      && Words(t) == [t[..n]] + (if n == |t| then [] else Words(t[n + 1..]))
  {
    FirstWordEnd(t);
    WordsHead(t);
    var n := RunEnd(t, 0, NotSpace);
    if n < |t| {
      RestSingleSpaced(t, n);
      var u := t[n..];
      assert u[0] == t[n] && u[1] == t[n + 1];
      WordsAfterSpace(u);
      assert u[1..] == t[n + 1..];
    } else {
      assert t[n..] == [];
    }
  }

  /** A word without spaces is title-cased by capitalising it. */
  lemma CapitalizeWord(w: string)
    requires forall i | 0 <= i < |w| :: w[i] != ' '
    ensures Capitalize(w) == TitleRef(w)
  {
    if w != [] {
      var c := Capitalize(w);
      var r := TitleRef(w);
      var tail := Lower(w[1..]);
      assert c == [UpperChar(w[0])] + tail;
      forall i | 0 < i < |w| ensures c[i] == r[i] {
        assert w[i - 1] != ' ';
        assert w[1..][i - 1] == w[i];
        assert c[i] == tail[i - 1] == LowerChar(w[i]);
      }
      assert c[0] == r[0];
    }
  }

  /** Title case by position splits at a space. */
  lemma TitleRefSplit(t: string, n: nat)
    requires n + 1 < |t| && t[n] == ' '
    ensures TitleRef(t) == TitleRef(t[..n]) + " " + TitleRef(t[n + 1..])
  {
    var w := t[..n];
    var rest := t[n + 1..];
    forall i | 0 <= i < |t| ensures TitleRef(t)[i] == (TitleRef(w) + " " + TitleRef(rest))[i] {
      if i > n + 1 {
        assert t[i - 1] == rest[i - n - 2];
      }
    }
  }

  /** Joining the capitalised words of a word followed by more words. */
  lemma JoinCons(w: string, ws: seq<string>)
    requires ws != []
    ensures JoinWith(CapitalizeAll([w] + ws), " ") == Capitalize(w) + " " + JoinWith(CapitalizeAll(ws), " ")
  {
    assert ([w] + ws)[1..] == ws;
    assert CapitalizeAll([w] + ws) == [Capitalize(w)] + CapitalizeAll(ws);
    assert ([Capitalize(w)] + CapitalizeAll(ws))[1..] == CapitalizeAll(ws);
  }

  /** Capitalising every word and joining with single spaces is title
      case by position, on single-spaced text. */
  lemma {:induction false} JoinCapitalized(t: string)
    requires SingleSpaced(t)
    ensures JoinWith(CapitalizeAll(Words(t)), " ") == TitleRef(t)
    decreases |t|
  {
    if t == [] {
      assert Words(t) == [];
    } else {
      WordsStep(t);
      var n := RunEnd(t, 0, NotSpace);
      var w := t[..n];
      CapitalizeWord(w);
      if n == |t| {
        assert w == t;
        assert CapitalizeAll([w]) == [Capitalize(w)];
      } else {
        var rest := t[n + 1..];
        JoinCapitalized(rest);
        WordsStep(rest);
        JoinCons(w, Words(rest));
        TitleRefSplit(t, n);
      }
    }
  }

  /** _title_case_name collapses whitespace and strips; a result with no
      lower-case letter is then put in title case, anything else is kept. */
  lemma TitleCaseSpec(s: string)
    ensures var t := Strip(CollapseSpace(s));
      TitleCase(s) == if t != "" && Upper(t) == t then TitleRef(t) else t
  {
    CollapsedIsSingleSpaced(s);
    JoinCapitalized(Strip(CollapseSpace(s)));
  }

  /** On single-spaced text, _title_case_name is title case by position
      when the text has no lower-case letter, and the identity otherwise. */
  lemma TitleCaseOfSingleSpaced(c: string)
    requires SingleSpaced(c)
    ensures TitleCase(c) == if c != "" && Upper(c) == c then TitleRef(c) else c
  {
    CollapseNoop(c);
    StripNoop(c);
    JoinCapitalized(c);
  }

  /** A title-cased name keeps to the name characters. */
  lemma TitleCaseOfName(c: string)
    requires SingleSpaced(c) && forall ch :: ch in c ==> IsNameChar(ch)
    ensures forall ch :: ch in TitleCase(c) ==> IsNameChar(ch)
    ensures |TitleCase(c)| == |c|
  {
    TitleCaseOfSingleSpaced(c);
    if c != "" && Upper(c) == c {
      TitleRefNameChars(c);
    }
  }

  /** Changing the case of name characters keeps them name characters. */
  lemma TitleRefNameChars(c: string)
    requires forall ch :: ch in c ==> IsNameChar(ch)
    ensures forall ch :: ch in TitleRef(c) ==> IsNameChar(ch)
  {
    var r := TitleRef(c);
    forall i | 0 <= i < |r| ensures IsNameChar(r[i]) {
      assert c[i] in c;
    }
  }

  const BadTitles: set<string> := {
    "data analyst", "software developer", "developer",
    "engineer", "student", "intern", "summary", "objective"}

  /** is_bad_name */
  predicate IsBadName(s: string) {
    Strip(Lower(s)) in BadTitles
  }

  const NoiseWords: seq<string> := ["linkedin", "github", "portfolio", "resume", "email", "phone", "www", "http"]

  predicate HasNoise(low: string) {
    exists k | 0 <= k < |NoiseWords| :: Contains(low, NoiseWords[k])
  }

  /** The cleaned line, if the line qualifies as a name: no `@`, no
      digit, and two to five words that are not a listed job title. The
      top-section tier also skips lines holding a contact word. */
  function Candidate(ln: string, skipNoise: bool): (r: Option<string>)
    ensures r.Some? ==> '@' !in ln && !HasDigit(ln) && (skipNoise ==> !HasNoise(Lower(ln)))
    ensures r.Some? ==> r.value == CleanName(ln) && 2 <= |Words(r.value)| <= 5 && !IsBadName(r.value)
  {
    if skipNoise && HasNoise(Lower(ln)) then None
    else if '@' in ln || HasDigit(ln) then None
    else
      var cleaned := CleanName(ln);
      if 2 <= |Words(cleaned)| <= 5 && !IsBadName(cleaned) then Some(cleaned) else None
  }

  /** The test of the first tier, over the opening lines of the text. */
  function LineName(ln: string): Option<string> {
    Candidate(ln, false)
  }

  /** The test of the second tier, over the lines of the top section. */
  function TopName(ln: string): Option<string> {
    Candidate(ln, true)
  }

  /** The value of the first element of xs that f accepts. */
  function FirstSome<T, U>(xs: seq<T>, f: T -> Option<U>): Option<U>
    decreases |xs|
  {
    if xs == [] then None
    else if f(xs[0]).Some? then f(xs[0])
    else FirstSome(xs[1..], f)
  }

  /** The scan returns f of the first accepted element, and nothing when
      f accepts no element. */
  lemma {:induction false} FirstSomeIsFirst<T, U>(xs: seq<T>, f: T -> Option<U>)
    ensures FirstSome(xs, f).None? <==> forall i | 0 <= i < |xs| :: f(xs[i]).None?
    ensures FirstSome(xs, f).Some? ==>
      exists i | 0 <= i < |xs| :: f(xs[i]) == FirstSome(xs, f) && forall j | 0 <= j < i :: f(xs[j]).None?
    decreases |xs|
  {
    if xs != [] && f(xs[0]).None? {
      FirstSomeIsFirst(xs[1..], f);
      assert forall i | 1 <= i < |xs| :: xs[1..][i - 1] == xs[i];
      if FirstSome(xs, f).Some? {
        var i :| 0 <= i < |xs[1..]| && f(xs[1..][i]) == FirstSome(xs, f)
          && forall j | 0 <= j < i :: f(xs[1..][j]).None?;
        assert f(xs[i + 1]) == FirstSome(xs, f);
      }
    }
  }

  /** A property every accepted value has, the first accepted value has. */
  lemma {:induction false} FirstSomeKeeps<T, U>(xs: seq<T>, f: T -> Option<U>, P: U -> bool)
    requires forall i | 0 <= i < |xs| :: f(xs[i]).Some? ==> P(f(xs[i]).value)
    ensures FirstSome(xs, f).Some? ==> P(FirstSome(xs, f).value)
    decreases |xs|
  {
    if xs != [] && f(xs[0]).None? {
      assert forall i | 0 <= i < |xs[1..]| :: xs[1..][i] == xs[i + 1];
      FirstSomeKeeps(xs[1..], f, P);
    }
  }

  /** The loop of each line tier: the first accepted element, scanning in
      order and stopping there. */
  method ScanFirst<T, U>(xs: seq<T>, f: T -> Option<U>) returns (r: Option<U>)
    ensures r == FirstSome(xs, f)
  {
    var i := 0;
    while i < |xs|
      invariant 0 <= i <= |xs|
      invariant FirstSome(xs, f) == FirstSome(xs[i..], f)
    {
      assert xs[i..][1..] == xs[i + 1..];
      var c := f(xs[i]);
      if c.Some? {
        return c;
      }
      i := i + 1;
    }
    return None;
  }

  /** xs[:n] */
  function Take<T>(xs: seq<T>, n: nat): (r: seq<T>)
    ensures |r| == (if |xs| <= n then |xs| else n)
    ensures r == xs[..|r|]
  {
    if |xs| <= n then xs else xs[..n]
  }

  /** The named-entity recogniser: given a text, the texts of the PERSON
      entities it finds, in order. Absent when no model is installed. */
  type Recogniser = Option<string -> seq<string>>

  /** The third tier: the first PERSON entity the recogniser finds in
      the first 15 lines, stripped. */
  function PersonName(allLines: seq<string>, nlp: Recogniser): Option<string> {
    if nlp.None? then None
    else
      var persons := nlp.value(JoinWith(Take(allLines, 15), "\n"));
      if persons == [] then None else Some(Strip(persons[0]))
  }

  /** The name extract_name settles on before title-casing it, and its
      confidence. */
  function RawName(text: string, sections: map<string, string>, nlp: Recogniser): (string, int) {
    var allLines := NonBlankLines(text);
    match FirstSome(Take(allLines, 8), LineName)
    case Some(c) => (c, 90)
    case None =>
      match FirstSome(Take(NonBlankLines(Strip(GetOr(sections, "__top__", ""))), 15), TopName)
      case Some(c) => (c, 80)
      case None =>
        match PersonName(allLines, nlp)
        case Some(p) => (p, 55)
        case None => ("", 0)
  }

  /** extract_name, as a function: the name and its confidence. Every
      tier title-cases what it found, and TitleCase("") is "". */
  function NameOf(text: string, sections: map<string, string>, nlp: Recogniser): (string, int) {
    var (raw, conf) := RawName(text, sections, nlp);
    (TitleCase(raw), conf)
  }

  /** extract_name. Each tier title-cases what it found; here the
      title-casing is done once, after the tier that found the name. */
  method ExtractName(text: string, sections: map<string, string>, nlp: Recogniser) returns (name: string, conf: int)
    ensures (name, conf) == NameOf(text, sections, nlp)
  {
    var raw := "";
    conf := 0;
    var allLines := NonBlankLines(text);
    var hit := ScanFirst(Take(allLines, 8), LineName);
    if hit.Some? {
      raw, conf := hit.value, 90;
    } else {
      var topLines := NonBlankLines(Strip(GetOr(sections, "__top__", "")));
      hit := ScanFirst(Take(topLines, 15), TopName);
      if hit.Some? {
        raw, conf := hit.value, 80;
      } else if nlp.Some? {
        var persons := nlp.value(JoinWith(Take(allLines, 15), "\n"));
        if persons != [] {
          raw, conf := Strip(persons[0]), 55;
        }
      }
    }
    assert (raw, conf) == RawName(text, sections, nlp);
    name := TitleCase(raw);
  }

  /** The confidences extract_name reports: 0.90 and 0.80 for the two
      line tiers, 0.55 for the recogniser, 0 with an empty name when
      nothing is found; without a recogniser there is no third tier. */
  lemma NameConfidences(text: string, sections: map<string, string>, nlp: Recogniser)
    ensures var (name, conf) := NameOf(text, sections, nlp);
      && conf in {90, 80, 55, 0}
      && (conf == 0 ==> name == "")
      && (nlp.None? ==> conf != 55)
  {
    assert TitleCase("") == "" by {
      assert CollapseSpace("") == "";
    }
  }

  /** The first tier: the name (before title-casing) is the cleaned
      first qualifying line among the first 8 lines of the text, at 0.90,
      exactly when one of them qualifies. */
  lemma FirstTier(text: string, sections: map<string, string>, nlp: Recogniser)
    ensures var (name, conf) := RawName(text, sections, nlp);
      var first := Take(NonBlankLines(text), 8);
      && (conf == 90 <==> exists i | 0 <= i < |first| :: LineName(first[i]).Some?)
      && (conf == 90 ==> exists i | 0 <= i < |first| ::
            && LineName(first[i]).Some? && name == LineName(first[i]).value
            && forall j | 0 <= j < i :: LineName(first[j]).None?)
  {
    FirstSomeIsFirst(Take(NonBlankLines(text), 8), LineName);
  }

  /** The second tier: when no line of the first tier qualifies, the name
      (before title-casing) is the cleaned first qualifying line among the
      first 15 lines of the top section, at 0.80. */
  lemma SecondTier(text: string, sections: map<string, string>, nlp: Recogniser)
    ensures var (name, conf) := RawName(text, sections, nlp);
      var first := Take(NonBlankLines(text), 8);
      var top := Take(NonBlankLines(Strip(GetOr(sections, "__top__", ""))), 15);
      && (conf == 80 <==>
            (forall i | 0 <= i < |first| :: LineName(first[i]).None?)
            && exists i | 0 <= i < |top| :: TopName(top[i]).Some?)
      && (conf == 80 ==> exists i | 0 <= i < |top| ::
            && TopName(top[i]).Some? && name == TopName(top[i]).value
            && forall j | 0 <= j < i :: TopName(top[j]).None?)
  {
    FirstSomeIsFirst(Take(NonBlankLines(text), 8), LineName);
    FirstSomeIsFirst(Take(NonBlankLines(Strip(GetOr(sections, "__top__", ""))), 15), TopName);
  }

  /** What a line tier accepts: a single-spaced string of name
      characters. */
  predicate IsCleanName(c: string) {
    SingleSpaced(c) && forall ch | ch in c :: IsNameChar(ch)
  }

  /** A name found by either line tier is made of name characters only. */
  lemma LineTierNameChars(text: string, sections: map<string, string>, nlp: Recogniser)
    ensures var (name, conf) := NameOf(text, sections, nlp);
      conf == 90 || conf == 80 ==> forall ch :: ch in name ==> IsNameChar(ch)
  {
    var first := Take(NonBlankLines(text), 8);
    var top := Take(NonBlankLines(Strip(GetOr(sections, "__top__", ""))), 15);
    FirstSomeKeeps(first, LineName, IsCleanName);
    FirstSomeKeeps(top, TopName, IsCleanName);
    var (raw, conf) := RawName(text, sections, nlp);
    if conf == 90 || conf == 80 {
      assert IsCleanName(raw);
      TitleCaseOfName(raw);
    }
  }

  /** An empty text with an empty top section and a recogniser that
      finds no person (or none at all) yields no name, confidence 0. */
  lemma EmptyTextName(sections: map<string, string>, nlp: Recogniser)
    requires GetOr(sections, "__top__", "") == ""
    requires nlp.None? || nlp.value("") == []
    ensures NameOf("", sections, nlp) == ("", 0)
  {
    assert NonBlankLines("") == [];
    assert Strip("") == "";
    assert JoinWith([], "\n") == "";
    assert TitleCase("") == "";
  }
}
