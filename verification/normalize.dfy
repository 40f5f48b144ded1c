/** The normaliser of resume_nlp.py: line endings, blanks, words broken
    across a line, runs of blank lines and the outer whitespace. */
module Normalize {
  import opened Text

  predicate IsBlank(c: char) { c == ' ' || c == '\t' }
  predicate IsNewline(c: char) { c == '\n' }

  /** Three newlines side by side at i. */
  predicate NewlineRun(t: string, i: nat)
    requires i + 2 < |t|
  {
    t[i] == '\n' && t[i + 1] == '\n' && t[i + 2] == '\n'
  }

  /** No three newlines in a row. */
  predicate NoTripleNewline(t: string) {
    forall i: nat | i + 2 < |t| :: !NewlineRun(t, i)
  }

  /** text.replace("\r", "\n") */
  function ReplaceCR(s: string): (r: string)
    ensures |r| == |s|
    ensures '\r' !in r
    ensures forall c :: c in r ==> c == '\n' || c in s
  {
    seq(|s|, i requires 0 <= i < |s| => if s[i] == '\r' then '\n' else s[i])
  }

  /** re.sub(r"[ \t]+", " ", s): each run of spaces and tabs becomes one
      space. */
  function CollapseBlanks(s: string): (r: string)
    ensures forall c :: c in r ==> c == ' ' || (c in s && !IsBlank(c))
    ensures s != [] ==> r != [] && (r[0] == ' ' <==> IsBlank(s[0]))
    decreases |s|
  {
    if s == [] then []
    else if IsBlank(s[0]) then
      var n := RunEnd(s, 0, IsBlank);
      [' '] + CollapseBlanks(s[n..])
    else [s[0]] + CollapseBlanks(s[1..])
  }

  /** After collapsing no two spaces are side by side. */
  lemma {:induction false} CollapseBlanksNoDouble(s: string)
    ensures NoDoubleSpace(CollapseBlanks(s))
    decreases |s|
  {
    if s != [] {
      var n := if IsBlank(s[0]) then RunEnd(s, 0, IsBlank) else 1;
      var rest := CollapseBlanks(s[n..]);
      CollapseBlanksNoDouble(s[n..]);
      if IsBlank(s[0]) {
        assert n < |s| ==> !IsBlank(s[n..][0]);
      }
      NoDoubleSpaceAppend([CollapseBlanks(s)[0]], rest);
      assert CollapseBlanks(s) == [CollapseBlanks(s)[0]] + rest;
    }
  }

  /** A match of the word-break pattern `(\w)-\n(\w)` at the start. */
  predicate BrokenWord(s: string) {
    |s| >= 4 && IsWord(s[0]) && s[1] == '-' && s[2] == '\n' && IsWord(s[3])
  }

  /** re.sub(r"(\w)-\n(\w)", r"\1\2", s). Matches do not overlap: after a
      match the scan resumes behind its second word character. */
  function Dehyphen(s: string): (r: string)
    ensures forall c :: c in r ==> c in s
    ensures s != [] ==> r != [] && r[0] == s[0]
    decreases |s|
  {
    if BrokenWord(s) then [s[0], s[3]] + Dehyphen(s[4..])
    else if s == [] then []
    else [s[0]] + Dehyphen(s[1..])
  }

  /** Joining broken words creates no double space. */
  lemma {:induction false} DehyphenNoDouble(s: string)
    requires NoDoubleSpace(s)
    ensures NoDoubleSpace(Dehyphen(s))
    decreases |s|
  {
    if s != [] {
      var n := if BrokenWord(s) then 4 else 1;
      var head := if BrokenWord(s) then [s[0], s[3]] else [s[0]];
      NoDoubleSpaceSlice(s, n, |s|);
      assert s[n..|s|] == s[n..];
      DehyphenNoDouble(s[n..]);
      if !BrokenWord(s) && 1 < |s| {
        assert !SpacePair(s, 0);
      }
      assert NoDoubleSpace(head) by {
        if BrokenWord(s) {
          assert IsWord(s[0]);
        }
      }
      NoDoubleSpaceAppend(head, Dehyphen(s[n..]));
    }
  }

  /** re.sub(r"\n{3,}", "\n\n", s): each run of three or more newlines
      becomes two. */
  function CollapseNewlines(s: string): (r: string)
    ensures forall c :: c in r ==> c in s
    ensures s != [] ==> r != [] && r[0] == s[0]
    decreases |s|
  {
    if s == [] then []
    else
      var (head, n) := NewlineHead(s);
      head + CollapseNewlines(s[n..])
  }

  /** What CollapseNewlines writes for the start of s and how much of s it
      consumes: a run of newlines, cut to two, or a single other character. */
  function NewlineHead(s: string): (r: (string, nat))
    requires s != []
    ensures 0 < r.1 <= |s|
    ensures 1 <= |r.0| <= 2 && r.0[0] == s[0]
    ensures forall c :: c in r.0 ==> c == s[0]
    ensures s[0] == '\n' ==> r.1 == |s| || s[r.1] != '\n'
    ensures s[0] == '\n' && 3 <= r.1 ==> s[1] == '\n' && s[2] == '\n'
    ensures s[0] != '\n' ==> r == ([s[0]], 1)
    ensures r.1 < 3 ==> r.0 == s[..r.1]
  {
    if s[0] == '\n' then
      var n := RunEnd(s, 0, IsNewline);
      RunEndAll(s, 0, IsNewline);
      if n >= 3 then ("\n\n", n)
      else
        assert forall k | 0 <= k < n :: s[..n][k] == '\n';
        (s[..n], n)
    else ([s[0]], 1)
  }

  /** Collapsing newline runs creates no double space. */
  lemma {:induction false} CollapseNewlinesNoDouble(s: string)
    requires NoDoubleSpace(s)
    ensures NoDoubleSpace(CollapseNewlines(s))
    decreases |s|
  {
    if s != [] {
      var (head, n) := NewlineHead(s);
      NoDoubleSpaceSlice(s, n, |s|);
      assert s[n..|s|] == s[n..];
      CollapseNewlinesNoDouble(s[n..]);
      assert head[|head| - 1] in head;
      if s[0] == ' ' && 1 < |s| {
        assert n == 1 && !SpacePair(s, 0);
        assert s[n..][0] == s[1];
      }
      assert NoDoubleSpace(head) by {
        if |head| == 2 {
          assert head[1] in head;
          assert s[0] == '\n';
        }
      }
      NoDoubleSpaceAppend(head, CollapseNewlines(s[n..]));
    }
  }

  /** After collapsing no three newlines are side by side. */
  lemma {:induction false} CollapseNewlinesNoTriple(s: string)
    ensures NoTripleNewline(CollapseNewlines(s))
    decreases |s|
  {
    if s != [] {
      var (head, n) := NewlineHead(s);
      var rest := CollapseNewlines(s[n..]);
      CollapseNewlinesNoTriple(s[n..]);
      var r := head + rest;
      assert rest != [] ==> rest[0] != '\n' || s[0] != '\n';
      forall i: nat | i + 2 < |r| ensures !NewlineRun(r, i) {
        if i >= |head| {
          assert !NewlineRun(rest, i - |head|);
          assert r[i] == rest[i - |head|] && r[i + 1] == rest[i - |head| + 1] && r[i + 2] == rest[i - |head| + 2];
        } else if s[0] == '\n' {
          assert r[|head|] == rest[0];
        } else {
          assert r[0] == s[0];
        }
      }
    }
  }

  /** The four substitutions of normalize_text, before the final strip. */
  function Substituted(text: string): (r: string)
    ensures '\r' !in r && '\t' !in r
    ensures NoDoubleSpace(r)
    ensures NoTripleNewline(r)
  {
    var a := ReplaceCR(text);
    var b := CollapseBlanks(a);
    CollapseBlanksNoDouble(a);
    assert '\r' !in b && '\t' !in b;
    var c := Dehyphen(b);
    DehyphenNoDouble(b);
    assert '\r' !in c && '\t' !in c;
    CollapseNewlinesNoDouble(c);
    CollapseNewlinesNoTriple(c);
    CollapseNewlines(c)
  }

  /** normalize_text */
  function NormalizeText(text: string): string {
    Strip(Substituted(text))
  }

  /** A slice of a text without triple newlines has none either. */
  lemma NoTripleSlice(t: string, a: nat, b: nat)
    requires a <= b <= |t| && NoTripleNewline(t)
    ensures NoTripleNewline(t[a..b])
  {
    var u := t[a..b];
    forall i: nat | i + 2 < |u| ensures !NewlineRun(u, i) {
      assert !NewlineRun(t, a + i);
      assert u[i] == t[a + i] && u[i + 1] == t[a + i + 1] && u[i + 2] == t[a + i + 2];
    }
  }

  /** Without carriage returns, ReplaceCR changes nothing. */
  lemma ReplaceCRNoop(s: string)
    requires '\r' !in s
    ensures ReplaceCR(s) == s
  {
    assert forall i | 0 <= i < |s| :: ReplaceCR(s)[i] == s[i];
  }

  /** Without blanks, CollapseBlanks changes nothing. */
  lemma {:induction false} CollapseBlanksNoop(s: string)
    requires forall c :: c in s ==> !IsBlank(c)
    ensures CollapseBlanks(s) == s
    decreases |s|
  {
    if s != [] {
      assert forall c :: c in s[1..] ==> c in s;
      CollapseBlanksNoop(s[1..]);
      assert [s[0]] + s[1..] == s;
    }
  }

  /** Without three newlines in a row, CollapseNewlines changes nothing. */
  lemma {:induction false} CollapseNewlinesNoop(s: string)
    requires NoTripleNewline(s)
    ensures CollapseNewlines(s) == s
    decreases |s|
  {
    if s != [] {
      var (head, n) := NewlineHead(s);
      var tail := s[n..];
      NewlineHeadNoop(s);
      NoTripleSlice(s, n, |s|);
      assert s[n..|s|] == tail;
      CollapseNewlinesNoop(tail);
      PrefixRest(s, n);
    }
  }

  /** Without three newlines in a row, the head is copied unchanged. */
  lemma NewlineHeadNoop(s: string)
    requires s != [] && NoTripleNewline(s)
    ensures NewlineHead(s).0 == s[..NewlineHead(s).1]
  {
    if s[0] == '\n' && 2 < |s| {
      assert !NewlineRun(s, 0);
    }
  }

  /** What the normaliser guarantees about its output: no carriage return,
      no tab, no double space, no triple newline, nothing to strip at either
      end, and the empty text maps to itself. */
  lemma NormalizeShape(text: string)
    ensures text == "" ==> NormalizeText(text) == ""
    ensures '\r' !in NormalizeText(text) && '\t' !in NormalizeText(text)
    ensures NoDoubleSpace(NormalizeText(text))
    ensures NoTripleNewline(NormalizeText(text))
    ensures Strip(NormalizeText(text)) == NormalizeText(text)
  {
    var d := Substituted(text);
    TrimIsSlice(d, IsSpace);
    var i, j :| 0 <= i <= j <= |d| && Strip(d) == d[i..j];
    NoDoubleSpaceSlice(d, i, j);
    NoTripleSlice(d, i, j);
    StripFacts(d);
  }

  lemma DehyphenFirstPass()
    ensures Dehyphen("a-\nb-\nc") == "ab-\nc"
  {
    var s := "a-\nb-\nc";
    assert s[4..] == "-\nc";
    assert Dehyphen("c") == "c";
    assert Dehyphen("\nc") == "\nc";
    assert Dehyphen("-\nc") == "-\nc";
  }

  lemma DehyphenSecondPass()
    ensures Dehyphen("ab-\nc") == "abc"
  {
    var t := "ab-\nc";
    assert t[1..] == "b-\nc";
    assert Dehyphen("c") == "c";
    assert Dehyphen("b-\nc") == "bc";
  }

  /** On text without carriage returns, blanks or triple newlines and with
      nothing to strip, normalize_text only joins broken words. */
  lemma NormalizeOnlyDehyphens(s: string)
    requires forall c :: c in s ==> c != '\r' && !IsBlank(c)
    requires NoTripleNewline(Dehyphen(s))
    requires Dehyphen(s) == [] || (!IsSpace(Dehyphen(s)[0]) && !IsSpace(Dehyphen(s)[|Dehyphen(s)| - 1]))
    ensures NormalizeText(s) == Dehyphen(s)
  {
    ReplaceCRNoop(s);
    CollapseBlanksNoop(s);
    CollapseNewlinesNoop(Dehyphen(s));
    TrimNoop(Dehyphen(s), IsSpace);
  }

  lemma NormalizeFirstPass()
    ensures NormalizeText("a-\nb-\nc") == "ab-\nc"
  {
    var s := "a-\nb-\nc";
    var t := "ab-\nc";
    DehyphenFirstPass();
    assert forall c :: c in s ==> c in {'a', 'b', 'c', '-', '\n'};
    assert NoTripleNewline(t) by {
      forall i: nat | i + 2 < |t| ensures !NewlineRun(t, i) {
        assert t[i + 1] != '\n' || t[i + 2] != '\n';
      }
    }
    NormalizeOnlyDehyphens(s);
  }

  lemma NormalizeSecondPass()
    ensures NormalizeText("ab-\nc") == "abc"
  {
    var t := "ab-\nc";
    var u := "abc";
    DehyphenSecondPass();
    assert forall c :: c in t ==> c in {'a', 'b', 'c', '-', '\n'};
    assert NoTripleNewline(u) by {
      forall i: nat | i + 2 < |u| ensures !NewlineRun(u, i) {
        assert u[i] != '\n';
      }
    }
    NormalizeOnlyDehyphens(t);
  }

  /** The normaliser is not idempotent: the substitution that joins broken
      words takes non-overlapping matches, so "a-\nb-\nc" needs two passes. */
  lemma NormalizeNotIdempotent()
    ensures NormalizeText("a-\nb-\nc") == "ab-\nc"
    ensures NormalizeText(NormalizeText("a-\nb-\nc")) == "abc"
  {
    NormalizeFirstPass();
    NormalizeSecondPass();
  }

  /** An empty resume normalises to the empty text. */
  lemma EmptyNormalized()
    ensures NormalizeText("") == ""
  {
    assert Substituted("") == "";
  }
}
