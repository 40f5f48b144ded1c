/** split_sections of resume_nlp.py: cuts the normalised resume into named
    sections at lines that look like known headers. */
module Sections {
  import opened Text

  const Top: string := "__top__"

  /** SECTION_HEADERS, as written. */
  const SectionHeaders: seq<string> := [
    "skills", "technical skills", "skills summary",
    "education",
    "experience", "work experience", "professional experience",
    "projects",
    "summary", "profile", "objective",
    "certifications", "certificates"
  ]

  /** The canonical names of SECTION_HEADERS. */
  const Known: set<string> := {
    "skills", "education", "experience", "projects",
    "summary", "profile", "objective", "certifications"
  }

  predicate IsColon(c: char) { c == ':' }

  /** header_map.get(h, h) */
  function HeaderMap(h: string): string {
    if h == "work experience" || h == "professional experience" then "experience"
    else if h == "skills summary" || h == "technical skills" then "skills"
    else if h == "certificates" then "certifications"
    else h
  }

  /** canon: lower-case, strip colons, then whitespace, then map synonyms. */
  function Canon(h: string): string {
    HeaderMap(Strip(Trim(Lower(h), IsColon)))
  }

  /** Lower-case text without colons or outer whitespace is its own
      canonical form up to the synonym map. */
  lemma CanonOfPlain(h: string)
    requires Lower(h) == h
    requires h == [] || (!IsColon(h[0]) && !IsColon(h[|h| - 1]))
    requires h == [] || (!IsSpace(h[0]) && !IsSpace(h[|h| - 1]))
    ensures Canon(h) == HeaderMap(h)
  {
    TrimNoop(h, IsColon);
    StripNoop(h);
  }

  /** known = {canon(h) for h in SECTION_HEADERS}: every header maps into
      Known, and every name in Known is a header that maps to itself. */
  lemma KnownIsCanonOfHeaders()
    ensures forall h | h in SectionHeaders :: HeaderMap(h) in Known
    ensures forall k | k in Known :: k in SectionHeaders && HeaderMap(k) == k
  {
  }

  predicate HeaderTail(c: char) {
    IsAlpha(c) || c == ' ' || c == '&' || c == '/'
  }

  /** header_re = ^[A-Za-z][A-Za-z &/]{2,40}$ on a stripped line. */
  predicate LooksLikeHeader(ln: string) {
    3 <= |ln| <= 41 && IsAlpha(ln[0]) && forall k | 1 <= k < |ln| :: HeaderTail(ln[k])
  }

  /** A line that switches the current section. */
  predicate IsSectionHeader(ln: string) {
    ln != "" && LooksLikeHeader(ln) && Canon(ln) in Known
  }

  /** A line that is added to the current section. */
  predicate IsContent(ln: string) {
    ln != "" && !IsSectionHeader(ln)
  }

  /** A line holding a colon ("Skills:") never looks like a header. */
  lemma ColonLineIsContent(ln: string)
    requires ':' in ln
    ensures !LooksLikeHeader(ln)
  {
  }

  /** [ln.strip() for ln in text.split("\n")] */
  function Lines(text: string): seq<string> {
    var parts := SplitOn(text, '\n');
    seq(|parts|, k requires 0 <= k < |parts| => Strip(parts[k]))
  }

  /** The lines are stripped and hold no newline. */
  lemma LinesShape(text: string)
    ensures forall x | x in Lines(text) :: '\n' !in x && Strip(x) == x
  {
    var parts := SplitOn(text, '\n');
    var ls := Lines(text);
    forall x | x in ls ensures '\n' !in x && Strip(x) == x {
      var k :| 0 <= k < |ls| && ls[k] == x;
      assert parts[k] in parts;
      StripFacts(parts[k]);
    }
  }

  /** The state of the loop of split_sections after some lines: the lines
      gathered per section and the current section. */
  datatype Scan = Scan(groups: map<string, seq<string>>, current: string)

  /** One turn of the loop. */
  function Step(st: Scan, ln: string): Scan {
    if ln == "" then st
    else if LooksLikeHeader(ln) && Canon(ln) in Known then
      var low := Canon(ln);
      Scan(if low in st.groups then st.groups else st.groups[low := []], low)
    else
      var cur := st.current;
      Scan(st.groups[cur := (if cur in st.groups then st.groups[cur] else []) + [ln]], cur)
  }

  /** The loop run over all of ls. */
  function ScanAll(ls: seq<string>): Scan
    decreases |ls|
  {
    if ls == [] then Scan(map[Top := []], Top)
    else Step(ScanAll(ls[..|ls| - 1]), ls[|ls| - 1])
  }

  /** {k: "\n".join(v).strip() for k, v in sections.items()} */
  function Joined(groups: map<string, seq<string>>): map<string, string> {
    map k | k in groups :: Strip(JoinWith(groups[k], "\n"))
  }

  /** split_sections, as a function of the text. */
  function SectionsOf(text: string): map<string, string> {
    Joined(ScanAll(Lines(text)).groups)
  }

  /** split_sections */
  method SplitSections(text: string) returns (sections: map<string, string>)
    ensures sections == SectionsOf(text)
  {
    var lines := Lines(text);
    var groups: map<string, seq<string>> := map[Top := []];
    var current := Top;
    var i := 0;
    while i < |lines|
      invariant 0 <= i <= |lines|
      invariant Scan(groups, current) == ScanAll(lines[..i])
    {
      var ln := lines[i];
      assert ScanAll(lines[..i + 1]) == Step(ScanAll(lines[..i]), ln) by {
        assert lines[..i + 1][..i] == lines[..i];
      }
      i := i + 1;
      if ln == "" {
        continue;
      }
      var low := Canon(ln);
      if LooksLikeHeader(ln) && low in Known {
        current := low;
        if low !in groups {
          groups := groups[low := []];
        }
        continue;
      }
      groups := groups[current := (if current in groups then groups[current] else []) + [ln]];
    }
    assert lines[..i] == lines;
    sections := map k | k in groups :: Strip(JoinWith(groups[k], "\n"));
  }

  // ---------------------------------------------------------------------
  // A reference description of the result

  /** The section a line after ls belongs to: the canonical name of the
      last header in ls, or the top section. */
  function Owner(ls: seq<string>): string
    decreases |ls|
  {
    if ls == [] then Top
    else if IsSectionHeader(ls[|ls| - 1]) then Canon(ls[|ls| - 1])
    else Owner(ls[..|ls| - 1])
  }

  /** The top section and the canonical name of every header line. */
  function Keys(ls: seq<string>): set<string>
    decreases |ls|
  {
    if ls == [] then {Top}
    else Keys(ls[..|ls| - 1]) + (if IsSectionHeader(ls[|ls| - 1]) then {Canon(ls[|ls| - 1])} else {})
  }

  /** The content lines of ls whose owner is k, in order. */
  function Body(ls: seq<string>, k: string): seq<string>
    decreases |ls|
  {
    if ls == [] then []
    else
      var init := ls[..|ls| - 1];
      var ln := ls[|ls| - 1];
      Body(init, k) + (if IsContent(ln) && Owner(init) == k then [ln] else [])
  }

  lemma {:induction false} OwnerIsKey(ls: seq<string>)
    ensures Owner(ls) in Keys(ls)
    decreases |ls|
  {
    if ls != [] {
      OwnerIsKey(ls[..|ls| - 1]);
    }
  }

  /** Every section is the top one or a known one. */
  lemma {:induction false} KeysKnown(ls: seq<string>)
    ensures forall k | k in Keys(ls) :: k == Top || k in Known
    decreases |ls|
  {
    if ls != [] {
      KeysKnown(ls[..|ls| - 1]);
    }
  }

  /** A section that no header has opened yet holds no line. */
  lemma {:induction false} BodyOfNewKey(ls: seq<string>, k: string)
    requires k !in Keys(ls)
    ensures Body(ls, k) == []
    decreases |ls|
  {
    if ls != [] {
      var init := ls[..|ls| - 1];
      OwnerIsKey(init);
      BodyOfNewKey(init, k);
    }
  }

  /** The loop keeps exactly the top section and the opened sections, the
      current section is the owner of the next line, and each section holds
      its body. */
  predicate Describes(st: Scan, ls: seq<string>) {
    && st.current == Owner(ls)
    && st.groups.Keys == Keys(ls)
    && forall k | k in st.groups :: st.groups[k] == Body(ls, k)
  }

  lemma {:induction false} ScanAllIsBody(ls: seq<string>)
    ensures Describes(ScanAll(ls), ls)
    decreases |ls|
  {
    if ls != [] {
      var init := ls[..|ls| - 1];
      ScanAllIsBody(init);
      StepDescribes(ScanAll(init), init, ls[|ls| - 1]);
      assert init + [ls[|ls| - 1]] == ls;
    }
  }

  /** One turn of the loop keeps the description. */
  lemma StepDescribes(st: Scan, init: seq<string>, ln: string)
    requires Describes(st, init)
    ensures Describes(Step(st, ln), init + [ln])
  {
    var ls := init + [ln];
    assert ls[..|ls| - 1] == init;
    var st' := Step(st, ln);
    OwnerIsKey(init);
    if ln == "" {
      assert !IsContent(ln) && !IsSectionHeader(ln);
      assert forall k :: Body(ls, k) == Body(init, k);
    } else if LooksLikeHeader(ln) && Canon(ln) in Known {
      var low := Canon(ln);
      assert IsSectionHeader(ln) && !IsContent(ln);
      assert forall k :: Body(ls, k) == Body(init, k);
      if low !in st.groups {
        BodyOfNewKey(init, low);
      }
    } else {
      assert IsContent(ln) && !IsSectionHeader(ln);
      var cur := st.current;
      assert forall k :: Body(ls, k) == Body(init, k) + (if cur == k then [ln] else []);
      assert Keys(ls) == Keys(init);
    }
  }

  /** split_sections always has the top section, and every other section
      is one of the known names. */
  lemma SectionKeys(text: string)
    ensures Top in SectionsOf(text)
    ensures forall k | k in SectionsOf(text) :: k == Top || k in Known
  {
    var ls := Lines(text);
    ScanAllIsBody(ls);
    KeysKnown(ls);
    assert Top in Keys(ls) by { TopIsKey(ls); }
  }

  lemma {:induction false} TopIsKey(ls: seq<string>)
    ensures Top in Keys(ls)
    decreases |ls|
  {
    if ls != [] {
      TopIsKey(ls[..|ls| - 1]);
    }
  }

  /** A header line with a known name opens its section. */
  lemma {:induction false} HeaderOpensSection(ls: seq<string>, i: nat)
    requires i < |ls| && IsSectionHeader(ls[i])
    ensures Canon(ls[i]) in Keys(ls)
    decreases |ls|
  {
    if i < |ls| - 1 {
      assert ls[..|ls| - 1][i] == ls[i];
      HeaderOpensSection(ls[..|ls| - 1], i);
    }
  }

  /** Lines in a body are content lines of the text: never blank, never a
      header. */
  lemma {:induction false} BodyLines(ls: seq<string>, k: string)
    ensures forall x | x in Body(ls, k) :: x in ls && IsContent(x)
    decreases |ls|
  {
    if ls != [] {
      var init := ls[..|ls| - 1];
      BodyLines(init, k);
      assert forall x | x in init :: x in ls;
    }
  }

  /** The text of a section splits back into the lines gathered for it,
      and a section that gathered nothing is the empty string. */
  lemma SectionText(text: string, k: string)
    requires k in SectionsOf(text)
    ensures var body := Body(Lines(text), k);
      && (body == [] ==> SectionsOf(text)[k] == "")
      && (body != [] ==> SplitOn(SectionsOf(text)[k], '\n') == body)
  {
    var ls := Lines(text);
    ScanAllIsBody(ls);
    var body := Body(ls, k);
    BodyLines(ls, k);
    if body != [] {
      LinesShape(text);
      JoinUnpadded(body);
      SplitJoin(body, '\n');
    }
  }

  /** Joining stripped non-empty lines leaves nothing to strip. */
  lemma JoinUnpadded(xs: seq<string>)
    requires xs != []
    requires forall x | x in xs :: x != [] && Strip(x) == x
    ensures Strip(JoinWith(xs, "\n")) == JoinWith(xs, "\n")
  {
    assert xs[0] in xs && xs[|xs| - 1] in xs;
    JoinEnds(xs);
    var j := JoinWith(xs, "\n");
    StripNoop(j);
  }

  /** The join starts with the first line and ends with the last one. */
  lemma {:induction false} JoinEnds(xs: seq<string>)
    requires xs != [] && xs[0] != [] && xs[|xs| - 1] != []
    requires forall x | x in xs :: x != []
    ensures var j := JoinWith(xs, "\n");
      |j| > 0 && j[0] == xs[0][0] && j[|j| - 1] == xs[|xs| - 1][|xs[|xs| - 1]| - 1]
    decreases |xs|
  {
    assert xs[0] in xs && xs[|xs| - 1] in xs;
    if |xs| > 1 {
      assert forall x | x in xs[1..] :: x in xs;
      assert xs[1..][0] in xs;
      JoinEnds(xs[1..]);
    }
  }

  /** An empty text has only the top section, and it is empty: looking
      up any section gives the empty text. */
  lemma EmptySections()
    ensures SectionsOf("") == map[Top := ""]
    ensures forall k :: GetOr(SectionsOf(""), k, "") == ""
  {
    assert Lines("") == [""];
    assert ScanAll([""]) == Scan(map[Top := []], Top);
  }
}
