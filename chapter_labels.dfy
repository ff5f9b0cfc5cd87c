/**
  Chapter and section labels of a page (extract_chapter_and_section in
  packages/ingest/ingest.py). The chapter regular expression is abstracted
  as a function that yields the stripped numeral token of its first match;
  each section pattern is abstracted as a match predicate on (title, page).
*/
module ChapterLabels {
  import opened Wrappers
  import opened Text
  import opened IngestText

  /** The regular-expression searches of the corpus builder, as inputs. */
  datatype Detectors = Detectors(
    /** Some boilerplate pattern matches this stripped line (HEADER_FOOTER_PATTERNS). */
    isBoilerplate: string -> bool,
    /** The stripped `num` group of the first chapter-heading match on a raw page, if any. */
    chapterToken: string -> Option<string>,
    /** The fuzzy pattern of section title `title` matches raw page `page`. */
    sectionMatches: (string, string) -> bool)

  /** WORD_NUM_MAP. */
  function WordNumber(w: string): Option<int> {
    if w == "one" then Some(1) else if w == "two" then Some(2)
    else if w == "three" then Some(3) else if w == "four" then Some(4)
    else if w == "five" then Some(5) else if w == "six" then Some(6)
    else if w == "seven" then Some(7) else if w == "eight" then Some(8)
    else if w == "nine" then Some(9) else if w == "ten" then Some(10)
    else if w == "eleven" then Some(11) else if w == "twelve" then Some(12)
    else if w == "thirteen" then Some(13) else if w == "fourteen" then Some(14)
    else if w == "fifteen" then Some(15) else if w == "sixteen" then Some(16)
    else if w == "seventeen" then Some(17) else if w == "eighteen" then Some(18)
    else if w == "nineteen" then Some(19) else if w == "twenty" then Some(20)
    else None
  }

  /** The section titles, in the order they are tried. */
  const SectionTitles: seq<string> := [
    "PREFACE", "IMPORTANT TERMS", "SPECIFICITY", "OVERLOAD", "FATIGUE MANAGEMENT",
    "STIMULUS RECOVERY ADAPTATION", "VARIATION", "PHASE POTENTIATION",
    "INDIVIDUAL DIFFERENCE", "PERIODIZATION FOR POWERLIFTING",
    "MYTHS, FALLACIES & FADS IN POWERLIFTING"]

  /** Python's `str.title()` from a state that says whether the previous
      character was a cased letter. */
  function TitleFrom(s: string, afterLetter: bool): string {
    if s == [] then []
    else if IsAlpha(s[0]) then [if afterLetter then ToLower(s[0]) else ToUpper(s[0])] + TitleFrom(s[1..], true)
    else [s[0]] + TitleFrom(s[1..], false)
  }

  /** `s.title()`: each run of letters starts upper-case and continues lower-case. */
  function Title(s: string): string {
    TitleFrom(s, false)
  }

  lemma {:induction false} TitleFromIdempotent(s: string, afterLetter: bool)
    ensures TitleFrom(TitleFrom(s, afterLetter), afterLetter) == TitleFrom(s, afterLetter)
  {
    if s != [] {
      var t := TitleFrom(s, afterLetter);
      TitleFromIdempotent(s[1..], IsAlpha(s[0]));
      assert t[1..] == TitleFrom(s[1..], IsAlpha(s[0]));
      assert IsAlpha(t[0]) == IsAlpha(s[0]);
    }
  }

  /** Title-casing a title-cased string changes nothing. */
  lemma TitleIdempotent(s: string)
    ensures Title(Title(s)) == Title(s)
  {
    TitleFromIdempotent(s, false);
  }

  /** The chapter number a token resolves to: a digit string is read as a
      decimal; otherwise the token without spaces, lower-cased, is looked up
      among one..twenty; otherwise it is read as a Roman numeral. */
  function ChapterNumber(tok: string): Option<int> {
    if tok != [] && AllDigits(tok) then Some(ParseDecimal(tok))
    else
      var word := RemoveChar(tok, ' ');
      match WordNumber(Lower(word))
      case Some(n) => Some(n)
      case None => RomanValue(word)
  }

  /** The chapter label of a heading token: "Chapter <n>" when the number
      resolves to a non-zero value, else "Chapter " and the title-cased token. */
  function ChapterLabel(tok: string): (r: string)
    ensures |r| >= 8 && r[..8] == "Chapter "
  {
    var n := ChapterNumber(tok);
    if n.Some? && n.value != 0 then "Chapter " + IntToString(n.value)
    else "Chapter " + Title(tok)
  }

  /** Index of the first title that `matches` accepts, trying titles in order. */
  function FirstMatch(titles: seq<string>, page: string, matches: (string, string) -> bool): (r: Option<nat>)
    ensures r.Some? ==> (r.value < |titles| && matches(titles[r.value], page)
                         && forall j :: 0 <= j < r.value ==> !matches(titles[j], page))
    ensures r.None? ==> forall j :: 0 <= j < |titles| ==> !matches(titles[j], page)
  {
    if titles == [] then None
    else if matches(titles[0], page) then Some(0)
    else
      match FirstMatch(titles[1..], page, matches)
      case None => None
      case Some(i) => Some(i + 1)
  }

  /** The section label of a raw page: the first matching title, title-cased. */
  function SectionLabel(raw: string, det: Detectors): Option<string> {
    match FirstMatch(SectionTitles, raw, det.sectionMatches)
    case None => None
    case Some(i) => Some(Title(SectionTitles[i]))
  }

  /** extract_chapter_and_section: (chapter label, section label) of a raw page. */
  function ExtractChapterAndSection(raw: string, det: Detectors): (Option<string>, Option<string>) {
    var chap := match det.chapterToken(raw)
      case None => None
      case Some(tok) => Some(ChapterLabel(tok));
    (chap, SectionLabel(raw, det))
  }

  /** The number words one to twenty, in order: word n is at index n - 1. */
  const NumberWords: seq<string> := [
    "one", "two", "three", "four", "five", "six", "seven", "eight", "nine", "ten",
    "eleven", "twelve", "thirteen", "fourteen", "fifteen", "sixteen", "seventeen",
    "eighteen", "nineteen", "twenty"]

  /** WORD_NUM_MAP maps word n of the list to n. */
  lemma WordOfNumber(n: nat)
    requires 1 <= n <= 20
    ensures WordNumber(NumberWords[n - 1]) == Some(n)
  {
    if n <= 5 {
      WordsOneToFive(n);
    } else if n <= 10 {
      WordsSixToTen(n);
    } else if n <= 15 {
      WordsElevenToFifteen(n);
    } else {
      WordsSixteenToTwenty(n);
    }
  }

  lemma WordsOneToFive(n: nat)
    requires 1 <= n <= 5
    ensures WordNumber(NumberWords[n - 1]) == Some(n)
  {
    if n == 1 {
      assert NumberWords[0] == "one";
    } else if n == 2 {
      assert NumberWords[1] == "two";
    } else if n == 3 {
      assert NumberWords[2] == "three";
    } else if n == 4 {
      assert NumberWords[3] == "four";
    } else {
      assert NumberWords[4] == "five";
    }
  }

  lemma WordsSixToTen(n: nat)
    requires 6 <= n <= 10
    ensures WordNumber(NumberWords[n - 1]) == Some(n)
  {
    if n == 6 {
      assert NumberWords[5] == "six";
    } else if n == 7 {
      assert NumberWords[6] == "seven";
    } else if n == 8 {
      assert NumberWords[7] == "eight";
    } else if n == 9 {
      assert NumberWords[8] == "nine";
    } else {
      assert NumberWords[9] == "ten";
    }
  }

  lemma WordsElevenToFifteen(n: nat)
    requires 11 <= n <= 15
    ensures WordNumber(NumberWords[n - 1]) == Some(n)
  {
    if n == 11 {
      assert NumberWords[10] == "eleven";
    } else if n == 12 {
      assert NumberWords[11] == "twelve";
    } else if n == 13 {
      assert NumberWords[12] == "thirteen";
    } else if n == 14 {
      assert NumberWords[13] == "fourteen";
    } else {
      assert NumberWords[14] == "fifteen";
    }
  }

  lemma WordsSixteenToTwenty(n: nat)
    requires 16 <= n <= 20
    ensures WordNumber(NumberWords[n - 1]) == Some(n)
  {
    if n == 16 {
      assert NumberWords[15] == "sixteen";
    } else if n == 17 {
      assert NumberWords[16] == "seventeen";
    } else if n == 18 {
      assert NumberWords[17] == "eighteen";
    } else if n == 19 {
      assert NumberWords[18] == "nineteen";
    } else {
      assert NumberWords[19] == "twenty";
    }
  }

  /** WORD_NUM_MAP knows no word outside the list. */
  lemma WordNumberIn(w: string)
    requires WordNumber(w).Some?
    ensures w in NumberWords
  {
  }

  /** A heading token that is not a digit string and spells number word n
      (in any case, with any letter spacing) is labelled "Chapter n". */
  lemma SpelledChapterLabel(tok: string, n: nat)
    requires !(tok != [] && AllDigits(tok))
    requires 1 <= n <= 20 && Lower(RemoveChar(tok, ' ')) == NumberWords[n - 1]
    ensures ChapterLabel(tok) == "Chapter " + NatToString(n)
  {
    WordOfNumber(n);
  }

  /** A heading token that is neither a digit string nor a number word, and
      whose letters without spaces read as a non-zero Roman numeral, is
      labelled with that value. */
  lemma RomanChapterLabel(tok: string, v: int)
    requires !(tok != [] && AllDigits(tok))
    requires Lower(RemoveChar(tok, ' ')) !in NumberWords
    requires RomanValue(RemoveChar(tok, ' ')) == Some(v) && v != 0
    ensures ChapterLabel(tok) == "Chapter " + IntToString(v)
  {
    if WordNumber(Lower(RemoveChar(tok, ' '))).Some? {
      WordNumberIn(Lower(RemoveChar(tok, ' ')));
    }
  }

  /** A token that resolves to no number, or to zero, is labelled with its
      own title-cased text. */
  lemma UnresolvedChapterLabel(tok: string)
    requires !(tok != [] && AllDigits(tok))
    requires Lower(RemoveChar(tok, ' ')) !in NumberWords
    requires RomanValue(RemoveChar(tok, ' ')) in {None, Some(0)}
    ensures ChapterLabel(tok) == "Chapter " + Title(tok)
  {
    if WordNumber(Lower(RemoveChar(tok, ' '))).Some? {
      WordNumberIn(Lower(RemoveChar(tok, ' ')));
    }
  }

  /** A heading written with digits, a spelled-out number (letter-spaced or not)
      or a Roman numeral (either case) gives the same label. */
  lemma ChapterNumeralForms()
    ensures ChapterLabel("3") == "Chapter 3"
    ensures ChapterLabel("THREE") == "Chapter 3"
    ensures ChapterLabel("T H R E E") == "Chapter 3"
    ensures ChapterLabel("III") == "Chapter 3"
    ensures ChapterLabel("iii") == "Chapter 3"
  {
    assert NatToString(3) == "3";
    DecimalChapterLabel(3);
    SpelledThree("THREE");
    SpelledThree("T H R E E");
    RomanThree("III");
    RomanThree("iii");
  }

  lemma SpelledThree(tok: string)
    requires tok == "THREE" || tok == "T H R E E"
    ensures ChapterLabel(tok) == "Chapter " + NatToString(3)
  {
    ThreeWord(tok);
    SpelledChapterLabel(tok, 3);
  }

  lemma ThreeWord(tok: string)
    requires tok == "THREE" || tok == "T H R E E"
    ensures !(tok != [] && AllDigits(tok)) && Lower(RemoveChar(tok, ' ')) == NumberWords[2]
  {
    assert !IsDigit(tok[0]);
    if tok == "THREE" {
      ThreeUnspaced();
    } else {
      SpacedThreeJoined();
    }
    LowerThree();
  }

  lemma LowerThree()
    ensures Lower("THREE") == NumberWords[2]
  {
    assert Lower("THREE") == "three";
  }

  lemma ThreeUnspaced()
    ensures RemoveChar("THREE", ' ') == "THREE"
  {
    assert "THREE"[1..] == "HREE";
    assert "HREE"[1..] == "REE";
    assert "REE"[1..] == "EE";
    assert "EE"[1..] == "E";
  }

  lemma SpacedThreeJoined()
    ensures RemoveChar("T H R E E", ' ') == "THREE"
  {
    SpacedTail();
    assert "T H R E E"[1..] == " H R E E";
    assert " H R E E"[1..] == "H R E E";
    assert "H R E E"[1..] == " R E E";
  }

  lemma SpacedTail()
    ensures RemoveChar(" R E E", ' ') == "REE"
  {
    assert " R E E"[1..] == "R E E";
    assert "R E E"[1..] == " E E";
    assert " E E"[1..] == "E E";
    assert "E E"[1..] == " E";
    assert " E"[1..] == "E";
  }

  lemma RomanThree(tok: string)
    requires tok == "III" || tok == "iii"
    ensures ChapterLabel(tok) == "Chapter 3"
  {
    RomanThreeParts(tok);
    RomanChapterLabel(tok, 3);
  }

  lemma RomanThreeParts(tok: string)
    requires tok == "III" || tok == "iii"
    ensures !(tok != [] && AllDigits(tok)) && Lower(RemoveChar(tok, ' ')) !in NumberWords
    ensures RomanValue(RemoveChar(tok, ' ')) == Some(3)
  {
    NoSpacesInThree(tok);
    RomanThreeValue(tok);
    RomanThreeNotAWord(tok);
    assert !IsDigit(tok[0]);
  }

  lemma RomanThreeNotAWord(tok: string)
    requires tok == "III" || tok == "iii"
    ensures Lower(tok) !in NumberWords
  {
    assert Lower(tok) == "iii";
    assert "iii" !in NumberWords;
  }

  lemma RomanThreeValue(tok: string)
    requires tok == "III" || tok == "iii"
    ensures RomanValue(tok) == Some(3)
  {
    assert Upper(tok) == "III";
    RomanValueIgnoresCase(tok);
    RomanExamples();
  }

  lemma NoSpacesInThree(tok: string)
    requires tok == "III" || tok == "iii"
    ensures RemoveChar(tok, ' ') == tok
  {
    assert tok[1..][1..] == [tok[2]];
    assert [tok[2]][1..] == [];
    assert RemoveChar([tok[2]], ' ') == [tok[2]];
    assert RemoveChar(tok[1..], ' ') == [tok[1]] + [tok[2]];
    assert tok == [tok[0]] + [tok[1]] + [tok[2]];
  }

  /** A decimal heading number n >= 1 yields "Chapter n". */
  lemma DecimalChapterLabel(n: nat)
    requires n >= 1
    ensures ChapterLabel(NatToString(n)) == "Chapter " + NatToString(n)
  {
    ParseNatToString(n);
  }

  /** A zero chapter number is falsy, so the label falls back to the token itself. */
  lemma ZeroChapterLabel()
    ensures ChapterLabel("0") == "Chapter 0"
  {
    assert ParseDecimal("0") == 0 by { assert "0"[..0] == []; }
  }
}
