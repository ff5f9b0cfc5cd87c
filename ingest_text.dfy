/**
  Page-text utilities of the corpus builder (packages/ingest/ingest.py):
  Roman-numeral decoding, whole-line header/footer stripping, hyphen and
  whitespace normalisation, and the letter-spacing tolerant pattern builder.
  The header/footer regular expressions are an abstract predicate on a
  stripped line.
*/
module IngestText {
  import opened Wrappers
  import opened Text

  // ---------- roman_to_int ----------

  predicate IsRomanLetter(c: char) {
    c == 'I' || c == 'V' || c == 'X' || c == 'L' || c == 'C' || c == 'D' || c == 'M'
  }

  predicate AllRoman(s: string) {
    forall i :: 0 <= i < |s| ==> IsRomanLetter(s[i])
  }

  /** ROMAN_MAP. */
  function RomanDigit(c: char): nat
    requires IsRomanLetter(c)
  {
    match c
    case 'I' => 1
    case 'V' => 5
    case 'X' => 10
    case 'L' => 50
    case 'C' => 100
    case 'D' => 500
    case 'M' => 1000
  }

  /** The largest letter value in `t` (0 for the empty string). */
  function MaxValue(t: string): nat
    requires AllRoman(t)
  {
    if t == [] then 0
    else
      var m := MaxValue(t[1..]);
      if RomanDigit(t[0]) > m then RomanDigit(t[0]) else m
  }

  /** Reference reading of a Roman numeral: a letter counts negatively exactly
      when its value is below the largest value written to its right. */
  function RomanSum(t: string): int
    requires AllRoman(t)
  {
    if t == [] then 0
    else
      var v: int := RomanDigit(t[0]);
      (if v < MaxValue(t[1..]) then -v else v) + RomanSum(t[1..])
  }

  /** What roman_to_int returns: None unless the upper-cased text is a non-empty
      run of I, V, X, L, C, D, M. */
  function RomanValue(s: string): (r: Option<int>)
    ensures r.None? <==> (s == [] || exists i :: 0 <= i < |s| && !IsRomanLetter(ToUpper(s[i])))
  {
    var u := Upper(s);
    assert forall i :: 0 <= i < |s| ==> u[i] == ToUpper(s[i]);
    if u != [] && AllRoman(u) then Some(RomanSum(u)) else None
  }

  /** roman_to_int: scans the upper-cased text right to left, subtracting a letter
      below the largest value seen so far. */
  method RomanToInt(s: string) returns (r: Option<int>)
    ensures r == RomanValue(s)
  {
    var u := Upper(s);
    if !(u != [] && AllRoman(u)) {
      return None;
    }
    var total: int, prev: nat := 0, 0;
    var j := |u|;
    while j > 0
      invariant 0 <= j <= |u|
      invariant total == RomanSum(u[j..])
      invariant prev == MaxValue(u[j..])
    {
      j := j - 1;
      assert u[j..][1..] == u[j + 1..];
      var v := RomanDigit(u[j]);
      if v < prev {
        total := total - v;
      } else {
        total := total + v;
        prev := v;
      }
    }
    assert u[0..] == u;
    r := Some(total);
  }

  /** The readings the numerals of chapter headings rely on. */
  lemma RomanExamples()
    ensures RomanValue("III") == Some(3)
    ensures RomanValue("IV") == Some(4)
    ensures RomanValue("IX") == Some(9)
  {
    assert Upper("III") == "III";
    assert Upper("IV") == "IV";
    assert Upper("IX") == "IX";
  }

  /** Longer numerals, in upper or lower case. */
  lemma RomanLongerExamples()
    ensures RomanValue("XIV") == Some(14)
    ensures RomanValue("xiv") == Some(14)
    ensures RomanValue("XL") == Some(40)
  {
    assert Upper("XIV") == "XIV";
    assert Upper("xiv") == "XIV";
    assert Upper("XL") == "XL";
    assert "XIV"[1..] == "IV" && "IV"[1..] == "V";
  }

  /** Non-canonical numerals are still summed; a space or an empty token gives None. */
  lemma RomanOddInputs()
    ensures RomanValue("IIC") == Some(98)
    ensures RomanValue("I V") == None
    ensures RomanValue("") == None
  {
    assert Upper("IIC") == "IIC";
    assert "IIC"[1..] == "IC" && "IC"[1..] == "C";
    assert !IsRomanLetter(ToUpper("I V"[1]));
  }

  /** Roman numerals are read case-insensitively. */
  lemma RomanValueIgnoresCase(s: string)
    ensures RomanValue(s) == RomanValue(Upper(s))
  {
    assert Upper(Upper(s)) == Upper(s);
  }

  // ---------- strip_headers_footers ----------

  /** A line survives when its stripped text is non-blank and no boilerplate pattern matches it. */
  predicate KeepLine(ln: string, isBoilerplate: string -> bool) {
    var t := Strip(ln);
    t != [] && !isBoilerplate(t)
  }

  /** The surviving lines, unmodified and in their original order. */
  function KeptLines(lines: seq<string>, isBoilerplate: string -> bool): seq<string> {
    if lines == [] then []
    else
      var last := lines[|lines| - 1];
      KeptLines(lines[..|lines| - 1], isBoilerplate) + (if KeepLine(last, isBoilerplate) then [last] else [])
  }

  /** Never more lines than the input; every one of them is a line of the
      input and survives. */
  lemma {:induction false} KeptLinesSurvive(lines: seq<string>, isBoilerplate: string -> bool)
    ensures var kept := KeptLines(lines, isBoilerplate);
      && |kept| <= |lines|
      && forall i :: 0 <= i < |kept| ==> kept[i] in lines && KeepLine(kept[i], isBoilerplate)
  {
    if lines != [] {
      var init, last := lines[..|lines| - 1], lines[|lines| - 1];
      KeptLinesSurvive(init, isBoilerplate);
      var kept0 := KeptLines(init, isBoilerplate);
      var kept := KeptLines(lines, isBoilerplate);
      assert lines == init + [last];
      forall i | 0 <= i < |kept|
        ensures kept[i] in lines && KeepLine(kept[i], isBoilerplate)
      {
        if i < |kept0| {
          assert kept[i] == kept0[i] && kept0[i] in init;
        } else {
          assert kept[i] == last;
        }
      }
    }
  }

  /** The text strip_headers_footers returns. */
  function HeaderFreeText(text: string, isBoilerplate: string -> bool): string {
    JoinWith("\n", KeptLines(SplitLines(text), isBoilerplate))
  }

  /** strip_headers_footers: drops blank lines and whole lines a boilerplate pattern matches. */
  method StripHeadersFooters(text: string, isBoilerplate: string -> bool) returns (r: string)
    ensures r == HeaderFreeText(text, isBoilerplate)
  {
    var lines := SplitLines(text);
    var out: seq<string> := [];
    var i := 0;
    while i < |lines|
      invariant 0 <= i <= |lines|
      invariant out == KeptLines(lines[..i], isBoilerplate)
    {
      var ln := lines[i];
      KeptLinesSnoc(lines, i, isBoilerplate);
      var lnStripped := Strip(ln);
      if lnStripped != [] && !isBoilerplate(lnStripped) {
        out := out + [ln];
      }
      i := i + 1;
    }
    assert lines[..|lines|] == lines;
    r := JoinWith("\n", out);
  }

  lemma KeptLinesSnoc(lines: seq<string>, i: nat, isBoilerplate: string -> bool)
    requires i < |lines|
    ensures KeptLines(lines[..i + 1], isBoilerplate)
      == KeptLines(lines[..i], isBoilerplate) + (if KeepLine(lines[i], isBoilerplate) then [lines[i]] else [])
  {
    assert lines[..i + 1][..i] == lines[..i];
  }

  /** Every one of `lines` survives the filter. */
  predicate AllKept(lines: seq<string>, isBoilerplate: string -> bool) {
    lines == [] || (AllKept(lines[..|lines| - 1], isBoilerplate) && KeepLine(lines[|lines| - 1], isBoilerplate))
  }

  /** The output of the filter survives it. */
  lemma {:induction false} KeptLinesAllKept(lines: seq<string>, isBoilerplate: string -> bool)
    ensures AllKept(KeptLines(lines, isBoilerplate), isBoilerplate)
  {
    if lines != [] {
      var init, last := lines[..|lines| - 1], lines[|lines| - 1];
      var kept0 := KeptLines(init, isBoilerplate);
      KeptLinesAllKept(init, isBoilerplate);
      if KeepLine(last, isBoilerplate) {
        var kept := kept0 + [last];
        assert KeptLines(lines, isBoilerplate) == kept;
        assert kept[..|kept| - 1] == kept0;
        assert AllKept(kept, isBoilerplate);
      } else {
        assert KeptLines(lines, isBoilerplate) == kept0 + [];
        assert kept0 + [] == kept0;
      }
    }
  }

  /** Filtering lines that all survive changes nothing. */
  lemma {:induction false} KeptLinesOfKept(lines: seq<string>, isBoilerplate: string -> bool)
    requires AllKept(lines, isBoilerplate)
    ensures KeptLines(lines, isBoilerplate) == lines
  {
    if lines != [] {
      var init, last := lines[..|lines| - 1], lines[|lines| - 1];
      KeptLinesOfKept(init, isBoilerplate);
      assert KeptLines(lines, isBoilerplate) == init + [last];
    }
  }

  /** `splitlines` undoes `"\n".join` on non-empty lines without line breaks. */
  lemma {:induction false} SplitLinesOfJoin(ls: seq<string>)
    requires forall i :: 0 <= i < |ls| ==> ls[i] != [] && NoLineBreak(ls[i])
    ensures SplitLines(JoinWith("\n", ls)) == ls
  {
    if |ls| == 1 {
      assert FirstLineBreak(ls[0]) == |ls[0]|;
    } else if |ls| > 1 {
      var rest := JoinWith("\n", ls[1..]);
      var s := ls[0] + ("\n" + rest);
      assert JoinWith("\n", ls) == s;
      FirstLineBreakOfLine(ls[0], "\n" + rest);
      assert s[|ls[0]|] == '\n';
      assert s[..|ls[0]|] == ls[0];
      assert s[|ls[0]| + 1..] == rest;
      SplitLinesOfJoin(ls[1..]);
    }
  }

  lemma {:induction false} FirstLineBreakOfLine(a: string, rest: string)
    requires NoLineBreak(a)
    requires rest != [] && rest[0] == '\n'
    ensures FirstLineBreak(a + rest) == |a|
  {
    if a != [] {
      assert (a + rest)[1..] == a[1..] + rest;
      FirstLineBreakOfLine(a[1..], rest);
    }
  }

  /** The lines of the stripped text are exactly the surviving lines of the input. */
  lemma HeaderFreeLines(text: string, isBoilerplate: string -> bool)
    ensures SplitLines(HeaderFreeText(text, isBoilerplate)) == KeptLines(SplitLines(text), isBoilerplate)
  {
    var lines := SplitLines(text);
    var kept := KeptLines(lines, isBoilerplate);
    KeptLinesSurvive(lines, isBoilerplate);
    forall i | 0 <= i < |kept|
      ensures kept[i] != [] && NoLineBreak(kept[i])
    {
      assert Strip(kept[i]) != [];
      var j :| 0 <= j < |lines| && lines[j] == kept[i];
    }
    SplitLinesOfJoin(kept);
  }

  /** Stripping headers and footers twice is the same as stripping them once. */
  lemma HeaderFreeIdempotent(text: string, isBoilerplate: string -> bool)
    ensures HeaderFreeText(HeaderFreeText(text, isBoilerplate), isBoilerplate) == HeaderFreeText(text, isBoilerplate)
  {
    var kept := KeptLines(SplitLines(text), isBoilerplate);
    HeaderFreeLines(text, isBoilerplate);
    KeptLinesAllKept(SplitLines(text), isBoilerplate);
    KeptLinesOfKept(kept, isBoilerplate);
  }

  // ---------- normalize_hyphens_and_spaces ----------

  /** regex.sub(r"(\p{L})-\n(\p{L})", r"\1\2", s): scanning left to right, a
      letter, hyphen, newline, letter becomes the two letters; matches do not overlap. */
  function JoinHyphenated(s: string): (r: string)
    ensures |r| <= |s|
    decreases |s|
  {
    if s == [] then []
    else if |s| >= 4 && IsAlpha(s[0]) && s[1] == '-' && s[2] == '\n' && IsAlpha(s[3]) then
      [s[0], s[3]] + JoinHyphenated(s[4..])
    else [s[0]] + JoinHyphenated(s[1..])
  }

  /** s.replace(" ", " "). */
  function NbspToSpace(s: string): string {
    seq(|s|, i requires 0 <= i < |s| => if s[i] == '\U{A0}' then ' ' else s[i])
  }

  predicate IsBlankOrTab(c: char) { c == ' ' || c == '\t' }

  /** Length of the leading run of spaces and tabs. */
  function BlankRun(s: string): (n: nat)
    ensures n <= |s|
    ensures n < |s| ==> !IsBlankOrTab(s[n])
  {
    if s != [] && IsBlankOrTab(s[0]) then 1 + BlankRun(s[1..]) else 0
  }

  /** regex.sub(r"[ \t]*\n[ \t]*", " ", s): every newline, with the spaces and
      tabs around it, becomes one space. */
  function CollapseNewlines(s: string): string
    decreases |s|
  {
    if s == [] then []
    else
      var j := BlankRun(s);
      if j < |s| && s[j] == '\n' then
        var rest := s[j + 1..];
        [' '] + CollapseNewlines(rest[BlankRun(rest)..])
      else [s[0]] + CollapseNewlines(s[1..])
  }

  /** Length of the leading run of whitespace. */
  function SpaceRun(s: string): (n: nat)
    ensures n <= |s|
    ensures n < |s| ==> !IsSpace(s[n])
    ensures forall i :: 0 <= i < n ==> IsSpace(s[i])
  {
    if s != [] && IsSpace(s[0]) then 1 + SpaceRun(s[1..]) else 0
  }

  /** No two neighbouring characters are both whitespace. */
  ghost predicate NoDoubleSpace(s: string) {
    forall i, j :: 0 <= i < j < |s| && j == i + 1 ==> !(IsSpace(s[i]) && IsSpace(s[j]))
  }

  /** regex.sub(r"\s{2,}", " ", s): a run of two or more whitespace characters
      becomes one space; the result has no two neighbouring whitespace characters. */
  function CollapseSpaces(s: string): (r: string)
    ensures s != [] ==> r != [] && (IsSpace(r[0]) <==> IsSpace(s[0]))
    ensures NoDoubleSpace(r)
    decreases |s|
  {
    if s == [] then []
    else
      var j := SpaceRun(s);
      if j >= 2 then [' '] + CollapseSpaces(s[j..])
      else [s[0]] + CollapseSpaces(s[1..])
  }

  /** normalize_hyphens_and_spaces. */
  function Normalize(text: string): string {
    Strip(CollapseSpaces(CollapseNewlines(NbspToSpace(JoinHyphenated(text)))))
  }

  predicate Lacks(s: string, c: char) {
    forall i :: 0 <= i < |s| ==> s[i] != c
  }

  lemma LacksAppend(a: string, b: string, c: char)
    requires Lacks(a, c) && Lacks(b, c)
    ensures Lacks(a + b, c)
  {
  }

  /** One step of CollapseNewlines: either a newline (with its blanks) became a
      space and scanning resumes at `next`, or the first character was copied. */
  lemma CollapseNewlinesStep(s: string) returns (head: char, next: string)
    requires s != []
    ensures |next| < |s|
    ensures CollapseNewlines(s) == [head] + CollapseNewlines(next)
    ensures head == ' ' || (head == s[0] && head != '\n')
    ensures forall c :: c != ' ' && Lacks(s, c) ==> Lacks(next, c)
  {
    var j := BlankRun(s);
    if j < |s| && s[j] == '\n' {
      var rest := s[j + 1..];
      head, next := ' ', rest[BlankRun(rest)..];
      assert forall k :: 0 <= k < |next| ==> next[k] == s[j + 1 + BlankRun(rest) + k];
    } else {
      assert s[0] == '\n' ==> j == 0;
      head, next := s[0], s[1..];
    }
  }

  lemma {:induction false} CollapseNewlinesRemovesNewlines(s: string)
    ensures Lacks(CollapseNewlines(s), '\n')
    decreases |s|
  {
    if s != [] {
      var head, next := CollapseNewlinesStep(s);
      CollapseNewlinesRemovesNewlines(next);
      LacksAppend([head], CollapseNewlines(next), '\n');
    }
  }

  lemma {:induction false} CollapseNewlinesKeepsLack(s: string, c: char)
    requires c != ' ' && Lacks(s, c)
    ensures Lacks(CollapseNewlines(s), c)
    decreases |s|
  {
    if s != [] {
      var head, next := CollapseNewlinesStep(s);
      CollapseNewlinesKeepsLack(next, c);
      LacksAppend([head], CollapseNewlines(next), c);
    }
  }

  lemma {:induction false} CollapseSpacesKeepsLack(s: string, c: char)
    requires c != ' ' && Lacks(s, c)
    ensures Lacks(CollapseSpaces(s), c)
    decreases |s|
  {
    if s != [] {
      var j := SpaceRun(s);
      if j >= 2 {
        CollapseSpacesKeepsLack(s[j..], c);
      } else {
        CollapseSpacesKeepsLack(s[1..], c);
      }
    }
  }

  /** No newline, no no-break space, no two neighbouring whitespace characters. */
  ghost predicate Collapsed(s: string) {
    Lacks(s, '\n') && Lacks(s, '\U{A0}') && NoDoubleSpace(s)
  }

  /** A piece of a collapsed text is collapsed. */
  lemma SliceKeepsCollapsed(c: string, i: nat, j: nat)
    requires Collapsed(c) && i <= j <= |c|
    ensures Collapsed(c[i..j])
  {
    var r := c[i..j];
    assert forall k :: 0 <= k < |r| ==> r[k] == c[i + k];
  }

  /** The normalised page text has no newline, no no-break space, no two
      neighbouring whitespace characters and no whitespace at either end. */
  lemma NormalizedTextIsClean(text: string)
    ensures Collapsed(Normalize(text))
    ensures var r := Normalize(text); r == [] || (!IsSpace(r[0]) && !IsSpace(r[|r| - 1]))
  {
    var c := CollapseSpaces(CollapseNewlines(NbspToSpace(JoinHyphenated(text))));
    CollapsedBeforeStrip(text);
    StripOfCollapsed(c);
    var r := Strip(c);
    assert r == [] || (!IsSpace(r[0]) && !IsSpace(r[|r| - 1]));
    assert Normalize(text) == r;
  }

  /** Stripping a collapsed text leaves it collapsed. */
  lemma StripOfCollapsed(c: string)
    requires Collapsed(c)
    ensures Collapsed(Strip(c))
  {
    var i := StripSlice(c);
    CollapsedAt(c, Strip(c), i);
  }

  /** A stretch of a collapsed text at offset `i` is collapsed. */
  lemma CollapsedAt(c: string, r: string, i: nat)
    requires Collapsed(c) && i + |r| <= |c| && r == c[i..i + |r|]
    ensures Collapsed(r)
  {
    SliceKeepsCollapsed(c, i, i + |r|);
  }

  /** The text before the final strip is already collapsed. */
  lemma CollapsedBeforeStrip(text: string)
    ensures Collapsed(CollapseSpaces(CollapseNewlines(NbspToSpace(JoinHyphenated(text)))))
  {
    var a := NbspToSpace(JoinHyphenated(text));
    var b := CollapseNewlines(a);
    NbspReplaced(JoinHyphenated(text));
    CollapseNewlinesRemovesNewlines(a);
    CollapseNewlinesKeepsLack(a, '\U{A0}');
    CollapseSpacesKeepsLack(b, '\n');
    CollapseSpacesKeepsLack(b, '\U{A0}');
  }

  lemma NbspReplaced(s: string)
    ensures Lacks(NbspToSpace(s), '\U{A0}')
  {
    var r := NbspToSpace(s);
    forall i | 0 <= i < |r|
      ensures r[i] != '\U{A0}'
    {
      assert r[i] == if s[i] == '\U{A0}' then ' ' else s[i];
    }
  }

  /** A letter, hyphen, newline, letter after newline-free text loses its
      hyphen and newline; the text before it and the break's letters are kept. */
  lemma HyphenatedBreakJoined(p: string, x: char, y: char, rest: string)
    requires Lacks(p, '\n') && IsAlpha(x) && IsAlpha(y)
    ensures JoinHyphenated(p + [x, '-', '\n', y] + rest) == p + [x, y] + JoinHyphenated(rest)
  {
    var q := [x, '-', '\n', y] + rest;
    JoinHyphenatedAfter(p, q);
    assert q[4..] == rest;
    assert p + [x, '-', '\n', y] + rest == p + q;
  }

  /** Newline-free text followed by a letter passes through unchanged: no
      match can start inside it. */
  lemma {:induction false} JoinHyphenatedAfter(p: string, q: string)
    requires Lacks(p, '\n') && (q == [] || IsAlpha(q[0]))
    ensures JoinHyphenated(p + q) == p + JoinHyphenated(q)
    decreases |p|
  {
    if p != [] {
      var tail := p[1..];
      calc {
        JoinHyphenated(p + q);
      == { NoBreakAtStart(p, q); }
        [p[0]] + JoinHyphenated((p + q)[1..]);
      == { assert (p + q)[1..] == tail + q; }
        [p[0]] + JoinHyphenated(tail + q);
      == { JoinHyphenatedAfter(tail, q); }
        [p[0]] + (tail + JoinHyphenated(q));
      == { StringsAssociate([p[0]], tail, JoinHyphenated(q)); assert [p[0]] + tail == p; }
        p + JoinHyphenated(q);
      }
    } else {
      assert p + q == q;
    }
  }

  lemma NoBreakAtStart(p: string, q: string)
    requires p != [] && Lacks(p, '\n') && (q == [] || IsAlpha(q[0]))
    ensures JoinHyphenated(p + q) == [p[0]] + JoinHyphenated((p + q)[1..])
  {
    var s := p + q;
    if |p| >= 3 {
      assert s[2] == p[2];
    } else if |p| == 2 && q != [] {
      assert s[2] == q[0];
    } else if q != [] {
      assert s[1] == q[0];
    }
  }

  /** Text without newlines has nothing to rejoin. */
  lemma {:induction false} JoinHyphenatedWithoutNewline(s: string)
    requires Lacks(s, '\n')
    ensures JoinHyphenated(s) == s
    decreases |s|
  {
    if s != [] {
      JoinHyphenatedWithoutNewline(s[1..]);
    }
  }

  // ---------- fuzzy_caps ----------

  /** The characters Python's re.escape prefixes with a backslash. */
  predicate IsRegexSpecial(c: char) {
    || c == '(' || c == ')' || c == '[' || c == ']' || c == '{' || c == '}'
    || c == '?' || c == '*' || c == '+' || c == '-' || c == '|' || c == '^'
    || c == '$' || c == '\\' || c == '.' || c == '&' || c == '~' || c == '#'
    || c == ' ' || c == '\t' || c == '\n' || c == '\r' || c == '\U{B}' || c == '\U{C}'
  }

  function Escape(c: char): string {
    if IsRegexSpecial(c) then ['\\', c] else [c]
  }

  /** The pattern fuzzy_caps emits for one character. */
  function FuzzyPiece(c: char): string {
    if IsAlpha(c) then Escape(c) + "\\s*"
    else if IsSpace(c) then "\\s+"
    else "\\s*" + Escape(c) + "\\s*"
  }

  /** The pattern fuzzy_caps emits for a whole title. */
  function FuzzyPattern(s: string): string {
    if s == [] then [] else FuzzyPattern(s[..|s| - 1]) + FuzzyPiece(s[|s| - 1])
  }

  /** fuzzy_caps: letters may be followed by whitespace, whitespace becomes
      `\s+`, other characters are escaped and may be surrounded by whitespace. */
  method FuzzyCaps(s: string) returns (p: string)
    ensures p == FuzzyPattern(s)
  {
    p := "";
    var i := 0;
    while i < |s|
      invariant 0 <= i <= |s|
      invariant p == FuzzyPattern(s[..i])
    {
      var ch := s[i];
      assert s[..i + 1][..i] == s[..i];
      assert FuzzyPattern(s[..i + 1]) == p + FuzzyPiece(ch);
      if IsAlpha(ch) {
        StringsAssociate(p, Escape(ch), "\\s*");
        p := p + Escape(ch) + "\\s*";
      } else if IsSpace(ch) {
        p := p + "\\s+";
      } else {
        StringsAssociate(p + "\\s*", Escape(ch), "\\s*");
        StringsAssociate(p, "\\s*", Escape(ch));
        StringsAssociate(p, "\\s*" + Escape(ch), "\\s*");
        p := p + "\\s*" + Escape(ch) + "\\s*";
      }
      i := i + 1;
    }
    assert s[..|s|] == s;
  }

  /** Reads a pattern built by fuzzy_caps back as text: `\s*` reads as nothing,
      `\s+` as one space, a backslash-escaped character as that character. */
  function PatternText(p: string): string
    decreases |p|
  {
    if p == [] then []
    else if |p| >= 3 && p[0] == '\\' && p[1] == 's' && (p[2] == '*' || p[2] == '+') then
      (if p[2] == '+' then " " else "") + PatternText(p[3..])
    else if |p| >= 2 && p[0] == '\\' then [p[1]] + PatternText(p[2..])
    else [p[0]] + PatternText(p[1..])
  }

  /** The text a pattern should match when letter spacing is ignored: the title
      with each whitespace character read as one space. */
  function SpacesAsBlank(s: string): string {
    seq(|s|, i requires 0 <= i < |s| => if IsSpace(s[i]) then ' ' else s[i])
  }

  lemma SpacesAsBlankCons(s: string)
    requires s != []
    ensures SpacesAsBlank(s) == [if IsSpace(s[0]) then ' ' else s[0]] + SpacesAsBlank(s[1..])
  {
    var a := SpacesAsBlank(s);
    var b := [if IsSpace(s[0]) then ' ' else s[0]] + SpacesAsBlank(s[1..]);
    assert |a| == |b|;
    forall k | 0 <= k < |a| ensures a[k] == b[k] {
      if k > 0 {
        assert b[k] == SpacesAsBlank(s[1..])[k - 1];
      }
    }
  }

  lemma PatternTextOfOptionalSpace(rest: string)
    ensures PatternText("\\s*" + rest) == PatternText(rest)
  {
    assert ("\\s*" + rest)[3..] == rest;
  }

  lemma PatternTextOfPiece(c: char, rest: string)
    ensures PatternText(FuzzyPiece(c) + rest) == [if IsSpace(c) then ' ' else c] + PatternText(rest)
  {
    if IsAlpha(c) {
      PatternTextOfLetter(c, rest);
    } else if IsSpace(c) {
      assert (FuzzyPiece(c) + rest)[3..] == rest;
    } else {
      PatternTextOfOther(c, rest);
    }
  }

  lemma PatternTextOfPlain(c: char, t: string)
    requires c != '\\'
    ensures PatternText([c] + t) == [c] + PatternText(t)
  {
    assert ([c] + t)[1..] == t;
  }

  lemma PatternTextOfLetter(c: char, rest: string)
    requires IsAlpha(c)
    ensures PatternText(FuzzyPiece(c) + rest) == [c] + PatternText(rest)
  {
    var tail := "\\s*" + rest;
    assert Escape(c) == [c];
    assert FuzzyPiece(c) + rest == [c] + tail;
    PatternTextOfPlain(c, tail);
    PatternTextOfOptionalSpace(rest);
  }

  lemma PatternTextOfOther(c: char, rest: string)
    requires !IsAlpha(c) && !IsSpace(c)
    ensures PatternText(FuzzyPiece(c) + rest) == [c] + PatternText(rest)
  {
    var tail := "\\s*" + rest;
    var q := Escape(c) + tail;
    StringsAssociate("\\s*" + Escape(c), "\\s*", rest);
    StringsAssociate("\\s*", Escape(c), tail);
    PatternTextOfOptionalSpace(q);
    PatternTextOfEscaped(c, tail);
    PatternTextOfOptionalSpace(rest);
  }

  lemma PatternTextOfEscaped(c: char, t: string)
    requires !IsAlpha(c)
    ensures PatternText(Escape(c) + t) == [c] + PatternText(t)
  {
    if IsRegexSpecial(c) {
      var q := ['\\', c] + t;
      assert q[0] == '\\' && q[1] == c && q[2..] == t;
    } else {
      PatternTextOfPlain(c, t);
    }
  }

  lemma {:induction false} FuzzyPatternCons(s: string)
    requires s != []
    ensures FuzzyPattern(s) == FuzzyPiece(s[0]) + FuzzyPattern(s[1..])
  {
    if |s| > 1 {
      var init := s[..|s| - 1];
      FuzzyPatternCons(init);
      assert init[1..] == s[1..][..|s| - 2];
      StringsAssociate(FuzzyPiece(s[0]), FuzzyPattern(init[1..]), FuzzyPiece(s[|s| - 1]));
    } else {
      assert s[..0] == [];
    }
  }

  lemma StringsAssociate(a: string, b: string, c: string)
    ensures (a + b) + c == a + (b + c)
  {
  }

  /** The pattern spells out its title letter for letter: reading it back gives the title. */
  lemma {:induction false} FuzzyPatternSpellsTitle(s: string)
    ensures PatternText(FuzzyPattern(s)) == SpacesAsBlank(s)
  {
    if s != [] {
      FuzzyPatternCons(s);
      PatternTextOfPiece(s[0], FuzzyPattern(s[1..]));
      FuzzyPatternSpellsTitle(s[1..]);
      SpacesAsBlankCons(s);
    }
  }
}
