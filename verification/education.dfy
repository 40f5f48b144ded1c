/** The qualification picker and the education extractor of resume_nlp.py. */
module Education {
  import opened Text

  /** The pieces the qualification patterns are built from: a literal
      character, an optional one (`\.?`, `s?`), `\s*` and `\b`. */
  datatype Atom = Lit(c: char) | OptLit(c: char) | Spaces | Bound

  type Pattern = seq<Atom>

  /** Pattern p matches s from position i onwards, ignoring case (the
      literals of the patterns are lower-case), by some choice of the
      optional pieces and of the length of each `\s*`: Python's
      backtracking tries every such choice before giving up. */
  predicate MatchAt(p: Pattern, s: string, i: nat)
    requires i <= |s|
    decreases |s| - i, |p|
  {
    if p == [] then true
    else match p[0]
      case Lit(c) => i < |s| && LowerChar(s[i]) == c && MatchAt(p[1..], s, i + 1)
      case OptLit(c) => (i < |s| && LowerChar(s[i]) == c && MatchAt(p[1..], s, i + 1)) || MatchAt(p[1..], s, i)
      case Spaces => MatchAt(p[1..], s, i) || (i < |s| && IsSpace(s[i]) && MatchAt(p, s, i + 1))
      case Bound => WordBoundary(s, i) && MatchAt(p[1..], s, i)
  }

  /** Some alternative matches from position i. */
  predicate MatchesAt(alts: seq<Pattern>, s: string, i: nat)
    requires i <= |s|
  {
    exists k | 0 <= k < |alts| :: MatchAt(alts[k], s, i)
  }

  /** re.search with an alternation: some alternative matches somewhere. */
  predicate Search(alts: seq<Pattern>, s: string) {
    exists i | 0 <= i <= |s| :: MatchesAt(alts, s, i)
  }

  /** A literal word. */
  function W(w: string): (p: Pattern)
    ensures |p| == |w| && forall i :: 0 <= i < |w| ==> p[i] == Lit(w[i])
  {
    seq(|w|, i requires 0 <= i < |w| => Lit(w[i]))
  }

  /** `x\.?\s*` followed by the literal rest. */
  function Dotted(x: char, rest: string): Pattern {
    [Lit(x), OptLit('.'), Spaces] + W(rest)
  }

  /** `\b(a1|a2|...)\b`, one pattern per alternative. */
  function Grouped(alts: seq<Pattern>): (r: seq<Pattern>)
    ensures |r| == |alts|
    ensures forall k :: 0 <= k < |alts| ==> r[k] == [Bound] + alts[k] + [Bound]
  {
    seq(|alts|, k requires 0 <= k < |alts| => [Bound] + alts[k] + [Bound])
  }

  /** An entry of QUAL_RANKS: label, rank, pattern and output. */
  datatype Qual = Qual(name: string, rank: int, alts: seq<Pattern>, out: string)

  const PhdAlts: seq<Pattern> := Grouped([W("ph") + [OptLit('.')] + W("d"), W("doctorate")])

  const MastersAlts: seq<Pattern> := Grouped([
    Dotted('m', "tech"), W("mtech"), Dotted('m', "e") + [Bound], W("me") + [Bound],
    W("mba"), Dotted('m', "sc"), W("msc"), W("mca"), W("master") + [OptLit('s')]])

  const BachelorsAlts: seq<Pattern> := Grouped([
    Dotted('b', "tech"), W("btech"), Dotted('b', "e") + [Bound], W("be") + [Bound],
    Dotted('b', "sc"), W("bsc"), W("bca"), W("bcom"), Dotted('b', "com"), W("bba"), W("ba"),
    W("bachelor") + [OptLit('s')]])

  const DiplomaAlts: seq<Pattern> := Grouped([W("diploma"), W("polytechnic")])

  const IntermediateAlts: seq<Pattern> := Grouped([
    W("intermediate"), W("12th"), W("xii"), W("higher") + [Spaces] + W("secondary"), W("hsc")])

  const SscAlts: seq<Pattern> := Grouped([
    W("ssc"), W("10th"), W("x") + [Bound], W("secondary") + [Spaces] + W("school")])

  /** QUAL_RANKS, in source order (highest rank first). */
  const QualRanks: seq<Qual> := [
    Qual("phd", 7, PhdAlts, "PHD"),
    Qual("masters", 6, MastersAlts, "MASTERS"),
    Qual("bachelors", 5, BachelorsAlts, "BACHELORS"),
    Qual("diploma", 4, DiplomaAlts, "DIPLOMA"),
    Qual("intermediate", 3, IntermediateAlts, "INTERMEDIATE"),
    Qual("ssc", 2, SscAlts, "SSC")
  ]

  /** (best_rank, best_out) after the loop of detect_highest_qualification
      has seen the entries qs. */
  function Highest(qs: seq<Qual>, hay: string): (int, string)
    decreases |qs|
  {
    if qs == [] then (-1, "")
    else
      var best := Highest(qs[..|qs| - 1], hay);
      var q := qs[|qs| - 1];
      if q.rank > best.0 && Search(q.alts, hay) then (q.rank, q.out) else best
  }

  /** Entry k of qs matches hay and beats every other matching entry:
      strictly those before it, weakly those after it. */
  predicate Wins(qs: seq<Qual>, hay: string, k: nat)
    requires k < |qs|
  {
    && Search(qs[k].alts, hay)
    && (forall j | 0 <= j < k :: Search(qs[j].alts, hay) ==> qs[j].rank < qs[k].rank)
    && (forall j | k < j < |qs| :: Search(qs[j].alts, hay) ==> qs[j].rank <= qs[k].rank)
  }

  predicate NoneMatch(qs: seq<Qual>, hay: string) {
    forall j | 0 <= j < |qs| :: !Search(qs[j].alts, hay)
  }

  /** The loop keeps the first entry of highest rank among those that
      match, or (-1, "") when none matches. */
  lemma {:induction false} HighestWins(qs: seq<Qual>, hay: string)
    requires forall j | 0 <= j < |qs| :: qs[j].rank >= 0
    ensures NoneMatch(qs, hay) ==> Highest(qs, hay) == (-1, "")
    ensures !NoneMatch(qs, hay) ==>
      exists k: nat | k < |qs| :: Wins(qs, hay, k) && Highest(qs, hay) == (qs[k].rank, qs[k].out)
    decreases |qs|
  {
    if qs != [] {
      var init := qs[..|qs| - 1];
      var q := qs[|qs| - 1];
      HighestWins(init, hay);
      assert forall j | 0 <= j < |init| :: init[j] == qs[j];
      if NoneMatch(init, hay) {
        if Search(q.alts, hay) {
          assert Wins(qs, hay, |qs| - 1);
        }
      } else {
        var k: nat :| k < |init| && Wins(init, hay, k) && Highest(init, hay) == (init[k].rank, init[k].out);
        if q.rank > init[k].rank && Search(q.alts, hay) {
          assert Wins(qs, hay, |qs| - 1);
        } else {
          assert Wins(qs, hay, k);
        }
      }
    }
  }

  /** detect_highest_qualification, as a function. */
  function HighestQualification(hay: string): string {
    Highest(QualRanks, hay).1
  }

  /** detect_highest_qualification */
  method DetectHighestQualification(hay: string) returns (bestOut: string)
    ensures bestOut == HighestQualification(hay)
  {
    var bestRank := -1;
    bestOut := "";
    var i := 0;
    while i < |QualRanks|
      invariant 0 <= i <= |QualRanks|
      invariant (bestRank, bestOut) == Highest(QualRanks[..i], hay)
    {
      assert QualRanks[..i + 1][..i] == QualRanks[..i];
      var q := QualRanks[i];
      if Search(q.alts, hay) {
        if q.rank > bestRank {
          bestRank := q.rank;
          bestOut := q.out;
        }
      }
      i := i + 1;
    }
    assert QualRanks[..i] == QualRanks;
  }

  /** The qualification is "" when no pattern matches, and otherwise the
      output of the matching entry of highest rank. */
  lemma QualificationIsHighestRank(hay: string)
    ensures NoneMatch(QualRanks, hay) <==> HighestQualification(hay) == ""
    ensures !NoneMatch(QualRanks, hay) ==>
      exists k: nat | k < |QualRanks| ::
        && Search(QualRanks[k].alts, hay)
        && HighestQualification(hay) == QualRanks[k].out
        && forall j | 0 <= j < |QualRanks| :: Search(QualRanks[j].alts, hay) ==> QualRanks[j].rank <= QualRanks[k].rank
  {
    QualRanksShape();
    HighestOutput(QualRanks, hay);
  }

  /** Every entry of QUAL_RANKS has a rank of at least 0 and an output. */
  lemma QualRanksShape()
    ensures forall j | 0 <= j < |QualRanks| :: QualRanks[j].rank >= 0 && QualRanks[j].out != ""
  {
  }

  /** HighestWins, read off the output. */
  lemma HighestOutput(qs: seq<Qual>, hay: string)
    requires forall j | 0 <= j < |qs| :: qs[j].rank >= 0 && qs[j].out != ""
    ensures NoneMatch(qs, hay) <==> Highest(qs, hay).1 == ""
    ensures !NoneMatch(qs, hay) ==>
      exists k: nat | k < |qs| ::
        && Search(qs[k].alts, hay)
        && Highest(qs, hay).1 == qs[k].out
        && forall j | 0 <= j < |qs| :: Search(qs[j].alts, hay) ==> qs[j].rank <= qs[k].rank
  {
    HighestWins(qs, hay);
    if !NoneMatch(qs, hay) {
      var k: nat :| k < |qs| && Wins(qs, hay, k) && Highest(qs, hay) == (qs[k].rank, qs[k].out);
      assert qs[k].out != "";
    }
  }

  /** A pattern that starts with `\b` and a literal needs that literal at
      the match position. */
  lemma LeadingLiteral(p: Pattern, s: string, i: nat)
    requires i <= |s| && |p| >= 2 && p[0] == Bound && p[1].Lit?
    requires MatchAt(p, s, i)
    ensures i < |s| && LowerChar(s[i]) == p[1].c
  {
    assert MatchAt(p[1..], s, i);
    assert p[1..][0] == p[1];
  }

  /** Alternatives that all start with `\b` and a character absent from s,
      in either case, never match it. */
  lemma AbsentLeadingLiterals(alts: seq<Pattern>, s: string)
    requires forall k | 0 <= k < |alts| :: |alts[k]| >= 2 && alts[k][0] == Bound && alts[k][1].Lit? && alts[k][1].c !in Lower(s)
    ensures !Search(alts, s)
  {
    forall i | 0 <= i <= |s| ensures !MatchesAt(alts, s, i) {
      forall k | 0 <= k < |alts| ensures !MatchAt(alts[k], s, i) {
        if MatchAt(alts[k], s, i) {
          LeadingLiteral(alts[k], s, i);
        }
      }
    }
  }

  /** "12th" and "B.Tech" together give BACHELORS: case does not matter,
      and the higher rank wins whatever the order of the lines. */
  lemma TwelfthAndBTech()
    ensures HighestQualification(TwelfthBTech) == "BACHELORS"
  {
    var s := TwelfthBTech;
    TwelfthAndBTechMatches();
    var q := QualRanks;
    assert q[..1][..0] == [] && q[..2][..1] == q[..1] && q[..3][..2] == q[..2];
    assert q[..4][..3] == q[..3] && q[..5][..4] == q[..4] && q[..6][..5] == q[..5];
    assert Highest(q[..1], s) == (-1, "");
    assert Highest(q[..2], s) == (-1, "");
    assert Highest(q[..3], s) == (5, "BACHELORS");
    assert Highest(q[..4], s) == (5, "BACHELORS");
    assert Highest(q[..5], s) == (5, "BACHELORS");
    assert q[..6] == q;
  }

  lemma TwelfthAndBTechMatches()
    ensures !Search(QualRanks[0].alts, TwelfthBTech)
    ensures !Search(QualRanks[1].alts, TwelfthBTech)
    ensures Search(QualRanks[2].alts, TwelfthBTech)
  {
    NoPhdNoMasters();
    BTechMatches();
  }

  lemma NoPhdNoMasters()
    ensures !Search(PhdAlts, TwelfthBTech)
    ensures !Search(MastersAlts, TwelfthBTech)
  {
    var s := TwelfthBTech;
    AbsentLeadingLiterals(PhdAlts, s);
    AbsentLeadingLiterals(MastersAlts, s);
  }

  lemma BTechMatches()
    ensures Search(BachelorsAlts, TwelfthBTech)
  {
    BTechHead();
    assert MatchesAt(BachelorsAlts, TwelfthBTech, 5);
  }

  const TwelfthBTech: string := "12th B.Tech"

  /** `b.tech` as written, first alternative of the bachelors pattern. */
  const BTechPattern: Pattern := [Bound, Lit('b'), OptLit('.'), Spaces, Lit('t'), Lit('e'), Lit('c'), Lit('h'), Bound]

  /** The first alternative matches at "b.tech". */
  lemma BTechHead()
    ensures MatchAt(BachelorsAlts[0], TwelfthBTech, 5)
  {
    var s := TwelfthBTech;
    var p := BTechPattern;
    BTechTail();
    assert MatchAt(p[3..], s, 7);
    assert MatchAt(p[2..], s, 6);
    assert MatchAt(p[1..], s, 5);
    assert MatchAt(p, s, 5);
    assert BachelorsAlts[0] == p;
  }

  /** "tech" and the closing `\b` match at the end of the line. */
  lemma BTechTail()
    ensures MatchAt(BTechPattern[4..], TwelfthBTech, 7)
  {
    var s := TwelfthBTech;
    var p := BTechPattern;
    assert MatchAt(p[9..], s, 11);
    assert MatchAt(p[8..], s, 11);
    assert MatchAt(p[7..], s, 10);
    assert MatchAt(p[6..], s, 9);
    assert MatchAt(p[5..], s, 8);
  }

  /** BRANCH_KEYWORDS, in source order. */
  const BranchKeywords: seq<string> := [
    "computer science", "cse", "information technology", "it",
    "ece", "eee", "mechanical", "civil",
    "ai", "artificial intelligence",
    "data science", "machine learning", "electronics"]

  /** sorted(BRANCH_KEYWORDS, key=len, reverse=True): longest first, and
      Python's sort is stable, so equal lengths keep their source order. */
  const BranchesByLength: seq<string> := [
    "artificial intelligence", "information technology", "computer science",
    "machine learning", "data science", "electronics", "mechanical", "civil",
    "cse", "ece", "eee", "it", "ai"]

  /** Where each entry of BranchesByLength sits in BranchKeywords. */
  const ByLengthOrigin: seq<nat> := [9, 2, 0, 11, 10, 12, 6, 7, 1, 4, 5, 3, 8]

  /** The constant is a reordering of the keywords: every entry is the
      keyword at its origin, and no origin is used twice. */
  lemma BranchOrderPermutes()
    ensures |BranchesByLength| == |ByLengthOrigin| == |BranchKeywords|
    ensures forall i | 0 <= i < |ByLengthOrigin| ::
      ByLengthOrigin[i] < |BranchKeywords| && BranchesByLength[i] == BranchKeywords[ByLengthOrigin[i]]
    ensures forall i, j | 0 <= i < j < |ByLengthOrigin| :: ByLengthOrigin[i] != ByLengthOrigin[j]
  {
  }

  /** The constant is what the stable descending sort by length gives:
      lengths never increase, and keywords of equal length keep their
      source order. */
  lemma BranchOrderSorted()
    ensures forall i | 0 < i < |BranchesByLength| :: |BranchesByLength[i - 1]| >= |BranchesByLength[i]|
    ensures forall i | 0 < i < |BranchesByLength| && i < |ByLengthOrigin| ::
      |BranchesByLength[i - 1]| == |BranchesByLength[i]| ==> ByLengthOrigin[i - 1] < ByLengthOrigin[i]
  {
  }

  /** The first keyword of ks found in hay as a whole word, upper-cased,
      or "" when there is none. */
  function FirstBranch(ks: seq<string>, hay: string): (r: string)
    decreases |ks|
  {
    if ks == [] then ""
    else if WholeWord(hay, ks[0]) then Upper(ks[0])
    else FirstBranch(ks[1..], hay)
  }

  /** The branch is the upper-cased form of the first keyword in the list
      that occurs as a whole word, or "" when none occurs. */
  lemma {:induction false} FirstBranchIsFirst(ks: seq<string>, hay: string)
    requires forall k | 0 <= k < |ks| :: ks[k] != ""
    ensures FirstBranch(ks, hay) == "" <==> forall k | 0 <= k < |ks| :: !WholeWord(hay, ks[k])
    ensures FirstBranch(ks, hay) != "" ==>
      exists k | 0 <= k < |ks| ::
        && WholeWord(hay, ks[k])
        && FirstBranch(ks, hay) == Upper(ks[k])
        && forall j | 0 <= j < k :: !WholeWord(hay, ks[j])
    decreases |ks|
  {
    if ks != [] {
      FirstBranchIsFirst(ks[1..], hay);
      assert forall k | 1 <= k < |ks| :: ks[1..][k - 1] == ks[k];
      if !WholeWord(hay, ks[0]) && FirstBranch(ks, hay) != "" {
        var k :| 0 <= k < |ks[1..]| && WholeWord(hay, ks[1..][k]) && FirstBranch(ks[1..], hay) == Upper(ks[1..][k])
          && forall j | 0 <= j < k :: !WholeWord(hay, ks[1..][j]);
        assert WholeWord(hay, ks[k + 1]);
      }
    }
  }

  /** The alternatives of the institute pattern, in source order. */
  const InstituteWords: seq<string> := ["university", "college", "institute", "iit", "nit"]

  /** Keyword w matches s at i, ignoring case, and is followed by `\b`. */
  predicate KeyAt(s: string, i: nat, w: string)
    requires i <= |s|
  {
    i + |w| <= |s| && Lower(s[i..i + |w|]) == w && WordBoundary(s, i + |w|)
  }

  /** The length of the first alternative among ws that matches at i, or 0. */
  function KeyLen(s: string, i: nat, ws: seq<string>): (n: nat)
    requires i <= |s|
    ensures i + n <= |s|
    decreases |ws|
  {
    if ws == [] then 0
    else if KeyAt(s, i, ws[0]) && ws[0] != "" then |ws[0]|
    else KeyLen(s, i, ws[1..])
  }

  /** A positive length is that of an alternative matching at i; 0 means
      that no non-empty alternative matches there. */
  lemma {:induction false} KeyLenIs(s: string, i: nat, ws: seq<string>)
    requires i <= |s|
    ensures KeyLen(s, i, ws) > 0 ==> exists k | 0 <= k < |ws| :: KeyAt(s, i, ws[k]) && KeyLen(s, i, ws) == |ws[k]|
    ensures KeyLen(s, i, ws) == 0 ==> forall k | 0 <= k < |ws| :: !KeyAt(s, i, ws[k]) || ws[k] == ""
    decreases |ws|
  {
    if ws != [] && !(KeyAt(s, i, ws[0]) && ws[0] != "") {
      KeyLenIs(s, i, ws[1..]);
      assert forall k | 1 <= k < |ws| :: ws[1..][k - 1] == ws[k];
      if KeyLen(s, i, ws) > 0 {
        var k :| 0 <= k < |ws[1..]| && KeyAt(s, i, ws[1..][k]) && KeyLen(s, i, ws) == |ws[1..][k]|;
        assert KeyAt(s, i, ws[k + 1]);
      }
    }
  }

  predicate NotLineOrComma(c: char) { c != '\n' && c != ',' }

  /** The end of `[^\n,]{0,80}` from j: greedy, at most 80 characters. */
  function TailEnd(s: string, j: nat): (e: nat)
    requires j <= |s|
    ensures j <= e <= |s| && e <= j + 80
    ensures forall k | j <= k < e :: NotLineOrComma(s[k])
  {
    var r := RunEnd(s, j, NotLineOrComma);
    RunEndAll(s, j, NotLineOrComma);
    if r <= j + 80 then r else j + 80
  }

  /** The leftmost match at or after i of the pattern whose alternatives
      are ws, as the pair (start, end), or None. */
  function KeyFrom(s: string, i: nat, ws: seq<string>): (m: Option<(nat, nat)>)
    requires i <= |s|
    ensures m.Some? ==> i <= m.value.0 <= |s| && KeyLen(s, m.value.0, ws) > 0
    ensures m.Some? ==> m.value.1 == TailEnd(s, m.value.0 + KeyLen(s, m.value.0, ws))
    ensures m.Some? ==> forall k | i <= k < m.value.0 :: KeyLen(s, k, ws) == 0
    ensures m.None? ==> forall k | i <= k <= |s| :: KeyLen(s, k, ws) == 0
    decreases |s| - i
  {
    var n := KeyLen(s, i, ws);
    if n > 0 then
      KeyLenIs(s, i, ws);
      Some((i, TailEnd(s, i + n)))
    else if i == |s| then None
    else KeyFrom(s, i + 1, ws)
  }

  /** A non-empty lower-case word. */
  predicate LowerWord(w: string) {
    w != [] && forall k | 0 <= k < |w| :: IsLower(w[k])
  }

  /** The institute of extract_education: "" when no keyword occurs in
      the education section (in any case, followed by `\b`); otherwise
      the stripped span from the leftmost keyword to the end of the tail
      of at most 80 characters other than newline and comma. That span
      starts with the keyword and holds no newline or comma. */
  function Institute(edu: string): (r: string)
    ensures r != "" ==> '\n' !in r && ',' !in r
    ensures r != "" ==> exists k | 0 <= k < |InstituteWords| ::
      |InstituteWords[k]| <= |r| <= |InstituteWords[k]| + 80 && Lower(r[..|InstituteWords[k]|]) == InstituteWords[k]
  {
    match KeyFrom(edu, 0, InstituteWords)
    case None => ""
    case Some((a, e)) =>
      var n := KeyLen(edu, a, InstituteWords);
      KeyLenIs(edu, a, InstituteWords);
      var k :| 0 <= k < |InstituteWords| && KeyAt(edu, a, InstituteWords[k]) && n == |InstituteWords[k]|;
      InstituteWordsLower();
      InstituteShape(edu, a, e, InstituteWords[k]);
      Strip(edu[a..e])
  }

  /** Institution word k, in any case and followed by `\b`, starts at i. */
  predicate InstituteWordAt(edu: string, i: nat, k: nat)
    requires i <= |edu|
  {
    k < |InstituteWords| && KeyAt(edu, i, InstituteWords[k])
  }

  /** Some institution word starts at i. */
  predicate InstituteAt(edu: string, i: nat)
    requires i <= |edu|
  {
    exists k: nat | k < |InstituteWords| :: InstituteWordAt(edu, i, k)
  }

  /** re.search read declaratively: an institute is found exactly when an
      institution word occurs, and it is then the stripped span from the
      leftmost occurrence to the end of its tail. */
  lemma InstituteIsLeftmost(edu: string)
    ensures Institute(edu) != "" <==> exists i | 0 <= i <= |edu| :: InstituteAt(edu, i)
    ensures Institute(edu) != "" ==> exists a: nat, k: nat :: LeftmostInstitute(edu, a, k)
  {
    match KeyFrom(edu, 0, InstituteWords)
    case None =>
      assert Institute(edu) == "";
      NoKeys(edu, 0, |edu| + 1);
    case Some((a, e)) =>
      var k := InstituteFound(edu, a, e);
      SpanNotBlank(edu, a, e, k);
      NoKeys(edu, 0, a);
      assert InstituteWordAt(edu, a, k);
      assert InstituteAt(edu, a);
      assert LeftmostInstitute(edu, a, k);
  }

  /** Word k starts at a, no institution word starts before a, and the
      institute is the stripped span from a to the end of the tail. */
  predicate LeftmostInstitute(edu: string, a: nat, k: nat) {
    && a <= |edu| && InstituteWordAt(edu, a, k)
    && (forall j | 0 <= j < a :: !InstituteAt(edu, j))
    && Institute(edu) == Strip(edu[a..TailEnd(edu, a + |InstituteWords[k]|)])
  }

  /** The institute when the search succeeds at a, with word k. */
  lemma InstituteFound(edu: string, a: nat, e: nat) returns (k: nat)
    requires KeyFrom(edu, 0, InstituteWords) == Some((a, e))
    ensures a <= |edu| && k < |InstituteWords| && KeyAt(edu, a, InstituteWords[k])
    ensures e == TailEnd(edu, a + |InstituteWords[k]|) && Institute(edu) == Strip(edu[a..e])
  {
    var n := KeyLen(edu, a, InstituteWords);
    KeyLenIs(edu, a, InstituteWords);
    k :| 0 <= k < |InstituteWords| && KeyAt(edu, a, InstituteWords[k]) && n == |InstituteWords[k]|;
  }

  /** The span from an institution word to the end of its tail is not
      blank. */
  lemma SpanNotBlank(edu: string, a: nat, e: nat, k: nat)
    requires a <= |edu| && k < |InstituteWords| && KeyAt(edu, a, InstituteWords[k])
    requires e == TailEnd(edu, a + |InstituteWords[k]|)
    ensures Strip(edu[a..e]) != ""
  {
    InstituteWordsLower();
    InstituteShape(edu, a, e, InstituteWords[k]);
  }

  /** Where the first-alternative length is 0, no institute keyword matches. */
  lemma NoKeys(s: string, lo: nat, hi: nat)
    requires hi <= |s| + 1
    requires forall j | lo <= j < hi :: KeyLen(s, j, InstituteWords) == 0
    ensures forall j | lo <= j < hi :: !InstituteAt(s, j)
  {
    InstituteWordsLower();
    forall j | lo <= j < hi ensures !InstituteAt(s, j) {
      KeyLenIs(s, j, InstituteWords);
      forall m: nat | m < |InstituteWords| ensures !InstituteWordAt(s, j, m) {
        assert InstituteWords[m] != "";
      }
    }
  }

  lemma InstituteWordsLower()
    ensures forall k | 0 <= k < |InstituteWords| :: LowerWord(InstituteWords[k])
  {
  }

  /** A keyword in lower-case letters matches only letters. */
  lemma KeyLetters(s: string, a: nat, w: string)
    requires a <= |s| && KeyAt(s, a, w) && LowerWord(w)
    ensures forall k | a <= k < a + |w| :: IsAlpha(s[k])
  {
    forall k | a <= k < a + |w| ensures IsAlpha(s[k]) {
      assert Lower(s[a..a + |w|])[k - a] == LowerChar(s[k]) == w[k - a];
    }
  }

  /** Stripping a text that starts with n letters keeps them. */
  lemma StripKeepsLetters(t: string, n: nat)
    requires 0 < n <= |t|
    requires forall k | 0 <= k < n :: IsAlpha(t[k])
    ensures n <= |Strip(t)| && Strip(t) == t[..|Strip(t)|]
  {
    var l := TrimLeft(t, IsSpace);
    assert l == t;
    var r := TrimRight(l, IsSpace);
    assert r == Trim(t, IsSpace) == Strip(t);
    TrimRightIsPrefix(l, IsSpace);
    assert IsAlpha(t[n - 1]) && !IsSpace(t[n - 1]);
    assert n <= |r|;
  }

  /** A match that starts with a keyword and goes on with a tail of at
      most 80 characters other than newline and comma loses nothing of
      the keyword to the strip. */
  lemma InstituteShape(s: string, a: nat, e: nat, w: string)
    requires a <= e <= |s| && KeyAt(s, a, w) && LowerWord(w)
    requires e == TailEnd(s, a + |w|)
    ensures var r := Strip(s[a..e]);
      && '\n' !in r && ',' !in r && |w| <= |r| <= |w| + 80
      && Lower(r[..|w|]) == w
  {
    var t := s[a..e];
    KeyLetters(s, a, w);
    assert forall k | 0 <= k < |t| :: t[k] == s[a + k];
    StripKeepsLetters(t, |w|);
    var r := Strip(t);
    assert forall k | 0 <= k < |r| :: r[k] == s[a + k];
    assert forall k | 0 <= k < |r| :: r[k] != '\n' && r[k] != ',' by {
      forall k | 0 <= k < |r| ensures r[k] != '\n' && r[k] != ',' {
        if k >= |w| {
          assert NotLineOrComma(s[a + k]);
        } else {
          assert IsAlpha(s[a + k]);
        }
      }
    }
    assert r[..|w|] == s[a..a + |w|];
  }

  /** The education record. */
  datatype Education = Education(qualification: string, branch: string, institute: string)

  const NoEducation := Education("", "", "")

  /** extract_education, as a function: the record and its confidence.
      Confidence 0 with all fields empty exactly when nothing was found;
      otherwise 0.85 with an education section and 0.65 without; and no
      institute is ever reported without an education section. */
  function EducationOf(text: string, sections: map<string, string>): (r: (Education, int))
    ensures r.1 == 0 <==> r.0 == NoEducation
    ensures r.1 == 0 || r.1 == 85 || r.1 == 65
    ensures r.1 == 85 <==> r.0 != NoEducation && GetOr(sections, "education", "") != ""
    ensures GetOr(sections, "education", "") == "" ==> r.0.institute == ""
  {
    var edu := GetOr(sections, "education", "");
    var hay := Lower(if edu != "" then edu else text);
    var found := Education(HighestQualification(hay), FirstBranch(BranchesByLength, hay),
                           if edu != "" then Institute(edu) else "");
    if found == NoEducation then (NoEducation, 0)
    else (found, if edu != "" then 85 else 65)
  }

  /** extract_education */
  method ExtractEducation(text: string, sections: map<string, string>) returns (record: Education, conf: int)
    ensures (record, conf) == EducationOf(text, sections)
  {
    var edu := GetOr(sections, "education", "");
    var hay := Lower(if edu != "" then edu else text);
    var degree := DetectHighestQualification(hay);
    var branch := "";
    var i := 0;
    while i < |BranchesByLength|
      invariant 0 <= i <= |BranchesByLength|
      invariant FirstBranch(BranchesByLength, hay) == FirstBranch(BranchesByLength[i..], hay)
      invariant branch == ""
    {
      var b := BranchesByLength[i];
      assert BranchesByLength[i..][1..] == BranchesByLength[i + 1..];
      if WholeWord(hay, b) {
        branch := Upper(b);
        break;
      }
      i := i + 1;
    }
    var institute := "";
    if edu != "" {
      institute := Institute(edu);
    }
    record := Education(degree, branch, institute);
    if record == NoEducation {
      return NoEducation, 0;
    }
    conf := if edu != "" then 85 else 65;
  }

  /** Without an education section, an empty text yields no education
      and confidence 0. */
  lemma EmptyTextEducation(sections: map<string, string>)
    requires GetOr(sections, "education", "") == ""
    ensures EducationOf("", sections) == (NoEducation, 0)
  {
    assert Lower("") == "";
    NoQualificationInEmpty();
    QualificationIsHighestRank("");
    BranchesWholeWords();
    FirstBranchIsFirst(BranchesByLength, "");
  }

  /** No qualification pattern matches the empty text. */
  lemma NoQualificationInEmpty()
    ensures NoneMatch(QualRanks, "")
  {
    AbsentLeadingLiterals(PhdAlts, "");
    AbsentLeadingLiterals(MastersAlts, "");
    AbsentLeadingLiterals(BachelorsAlts, "");
    AbsentLeadingLiterals(DiplomaAlts, "");
    AbsentLeadingLiterals(IntermediateAlts, "");
    AbsentLeadingLiterals(SscAlts, "");
  }

  lemma BranchesWholeWords()
    ensures forall k | 0 <= k < |BranchesByLength| :: BranchesByLength[k] != "" && !WholeWord("", BranchesByLength[k])
  {
  }
}
