/** Choosing which chapters to download: the comma-separated chapter numbers typed
    at the console and the filter `download_manga` applies with them. */
module Selection {
  import opened Wrappers
  import opened Text
  import opened Sequences
  import opened ChapterNumber
  import opened ChapterLinks

  /** `s` is the numeral `w`, `w.` or `w.f`, with at least one digit in all. */
  ghost predicate NumeralForm(s: string, w: string, f: string) {
    && AllDigits(w) && AllDigits(f) && w + f != []
    && (s == w + "." + f || (s == w && f == []))
  }

  /** `s.replace('.', '', 1).isdigit()`. */
  predicate IsNumeral(s: string) {
    var u := RemoveFirst(s, '.');
    u != [] && AllDigits(u)
  }

  /** `x.strip().replace('.', '', 1).isdigit()`: the token is kept. */
  predicate IsNumericToken(t: string) {
    IsNumeral(Strip(t))
  }

  /** The digits before and after the first `.` (all of `s` when there is none). */
  function Decompose(s: string): (string, string) {
    match IndexOf(s, '.')
    case None => (s, [])
    case Some(k) => (s[..k], s[k + 1..])
  }

  lemma DecomposeSound(s: string)
    requires IsNumeral(s)
    ensures NumeralForm(s, Decompose(s).0, Decompose(s).1)
  {
    match IndexOf(s, '.')
    case None => assert RemoveFirst(s, '.') == s;
    case Some(k) => DecomposeAtDot(s, k);
  }

  lemma DecomposeAtDot(s: string, k: nat)
    requires IsNumeral(s) && IndexOf(s, '.') == Some(k)
    ensures NumeralForm(s, s[..k], s[k + 1..])
  {
    var w := s[..k];
    var f := s[k + 1..];
    assert s == w + "." + f;
    assert RemoveFirst(s, '.') == w + f;
    DigitsOfConcat(w, f);
  }

  lemma DigitsOfConcat(w: string, f: string)
    requires AllDigits(w + f)
    ensures AllDigits(w) && AllDigits(f)
  {
    assert forall i :: 0 <= i < |w| ==> w[i] == (w + f)[i];
    assert forall i :: 0 <= i < |f| ==> f[i] == (w + f)[|w| + i];
  }

  lemma NumeralSplit(s: string, w: string, f: string)
    requires NumeralForm(s, w, f)
    ensures IsNumeral(s) && Decompose(s) == (w, f)
  {
    assert '.' !in w;
    if s == w + "." + f {
      assert s[..|w|] == w;
      assert s[|w|] == '.';
      var k := IndexOf(s, '.').value;
      assert k == |w| by {
        assert k <= |w|;
        assert '.' !in s[..k];
      }
      assert s[k + 1..] == f;
      assert RemoveFirst(s, '.') == w + f;
      assert forall i :: 0 <= i < |w + f| ==> IsDigit((w + f)[i]);
    } else {
      assert IndexOf(s, '.') == None;
    }
  }

  /** The corrected conversion: the value of the stripped numeral, `float(x.strip())`,
      for a token the test above accepts; `None` for a token it drops. */
  function ParseToken(t: string): (r: Option<real>)
    ensures r.Some? <==> IsNumericToken(t)
  {
    var s := Strip(t);
    if IsNumeral(s) then
      DecomposeSound(s);
      var (w, f) := Decompose(s);
      Some(Decimal(w, f).Value())
    else
      None
  }

  /** A token is kept exactly when, once stripped, it reads `w`, `w.` or `w.f` with
      digit strings `w` and `f`, not both empty; its value is then `w.f`. */
  lemma ParseTokenValue(t: string)
    ensures ParseToken(t).Some? <==> exists w, f :: NumeralForm(Strip(t), w, f)
    ensures forall w, f :: NumeralForm(Strip(t), w, f) ==> ParseToken(t) == Some(Decimal(w, f).Value())
  {
    var s := Strip(t);
    if IsNumeral(s) {
      DecomposeSound(s);
      var (w, f) := Decompose(s);
      assert NumeralForm(s, w, f);
      forall w', f' | NumeralForm(s, w', f') ensures (w', f') == (w, f) {
        NumeralSplit(s, w', f');
      }
    } else {
      forall w, f | NumeralForm(s, w, f) ensures false {
        NumeralSplit(s, w, f);
      }
    }
  }

  /** Superscript digits: `str.isdigit()` is true for them although they are not
      decimal digits, and `float()` rejects them. These are a sample of the characters
      with Unicode property Numeric_Type=Digit, not the whole class. */
  predicate IsSuperscriptDigit(c: char) {
    c == '\U{B2}' || c == '\U{B3}' || c == '\U{B9}' || c == '\U{2070}' || '\U{2074}' <= c <= '\U{2079}'
  }

  /** The token test as the console code writes it, where `isdigit()` also accepts
      superscript digits. */
  predicate IsNumericTokenAsWritten(t: string) {
    var u := RemoveFirst(Strip(t), '.');
    u != [] && forall i :: 0 <= i < |u| ==> IsDigit(u[i]) || IsSuperscriptDigit(u[i])
  }

  /** The information separators U+001C to U+001F: `str.isspace()` is true for them,
      so `strip()` removes them, but `float()` trims only `\t\n\v\f\r` and space (and
      non-ASCII whitespace) and rejects a string that still holds one. */
  predicate IsSeparatorControl(c: char) {
    '\U{1C}' <= c <= '\U{1F}'
  }

  predicate HasSeparatorControl(t: string) {
    exists i :: 0 <= i < |t| && IsSeparatorControl(t[i])
  }

  /** What the list comprehension does with one token as written: it skips the token,
      converts it, or `float()` raises and the program stops. The test looks at
      `x.strip()`, but `float()` is given `x` itself. */
  datatype TokenOutcome = Converted(value: real) | Skipped | Raises

  function ParseTokenAsWritten(t: string): (r: TokenOutcome)
    ensures r.Skipped? <==> !IsNumericTokenAsWritten(t)
    ensures r.Converted? <==> IsNumericToken(t) && !HasSeparatorControl(t)
    ensures r.Converted? ==> ParseToken(t) == Some(r.value)
  {
    if !IsNumericTokenAsWritten(t) then Skipped
    else if HasSeparatorControl(t) then Raises
    else match ParseToken(t)
      case Some(v) => Converted(v)
      case None => Raises
  }

  /** `2\x1c` passes the test, since `strip()` removes the separator, and
      `float("2\x1c")` raises. */
  lemma SeparatorTokenRaises()
    ensures ParseTokenAsWritten("2\U{1C}") == Raises
  {
    SeparatorTokenPassesTest();
    assert IsSeparatorControl("2\U{1C}"[1]);
  }

  lemma SeparatorTokenPassesTest()
    ensures Strip("2\U{1C}") == "2" && IsNumericTokenAsWritten("2\U{1C}")
  {
    StripOneTrailingSpace("2\U{1C}");
    assert "2\U{1C}"[..1] == "2";
    assert RemoveFirst("2", '.') == "2";
  }

  /** The corrected test keeps `2\x1c` and reads it as 2, as `float(x.strip())` does. */
  lemma SeparatorTokenKept()
    ensures ParseToken("2\U{1C}") == Some(2.0)
  {
    SeparatorTokenPassesTest();
    ParseTokenOfStrip("2\U{1C}");
    TwoToken();
  }

  /** The conversion reads only the stripped token. */
  lemma ParseTokenOfStrip(t: string)
    ensures ParseToken(Strip(t)) == ParseToken(t)
  {
    StripIdempotent(t);
  }

  lemma TwoToken()
    ensures ParseToken("2") == Some(2.0)
  {
    StripUnchanged("2");
    assert IndexOf("2", '.') == None;
    assert Decompose("2") == ("2", "");
    TwoValue();
  }

  lemma TwoValue()
    ensures Decimal("2", "").Value() == 2.0
  {
    assert DigitsValue("2") == 2;
  }

  /** `²` passes the test, and `float("²")` raises. */
  lemma SuperscriptTokenRaises()
    ensures ParseTokenAsWritten("\U{B2}") == Raises
  {
    SuperscriptPassesTest();
    SuperscriptIsNotANumeral();
  }

  lemma SuperscriptPassesTest()
    ensures Strip("\U{B2}") == "\U{B2}" && IsNumericTokenAsWritten("\U{B2}")
  {
    StripUnchanged("\U{B2}");
    SuperscriptHasNoDot();
  }

  lemma SuperscriptHasNoDot()
    ensures RemoveFirst("\U{B2}", '.') == "\U{B2}"
  {
    assert '.' !in "\U{B2}";
  }

  lemma SuperscriptIsNotANumeral()
    ensures !IsNumeral("\U{B2}")
  {
    SuperscriptHasNoDot();
    assert !IsDigit("\U{B2}"[0]);
  }

  /** `[float(x) for x in tokens if <x is kept>]`. */
  function ParseTokens(tokens: seq<string>): (r: seq<real>)
    ensures |r| <= |tokens|
    ensures forall v :: v in r <==> exists k :: 0 <= k < |tokens| && ParseToken(tokens[k]) == Some(v)
  {
    FilterSomeMembers(tokens, ParseToken);
    FilterSome(tokens, ParseToken)
  }

  /** Kept tokens keep their input order: parsing distributes over concatenation. */
  lemma ParseTokensAppend(a: seq<string>, b: seq<string>)
    ensures ParseTokens(a + b) == ParseTokens(a) + ParseTokens(b)
  {
    FilterSomeAppend(a, b, ParseToken);
  }

  /** The console input for the chapter filter: `None` when it is blank, otherwise the
      numbers of the kept comma-separated tokens in input order. */
  function ParseSelection(input: string): (r: Option<seq<real>>)
    ensures r.None? <==> Strip(input) == []
    ensures r.Some? ==> forall v :: v in r.value <==>
              exists t :: t in Split(Strip(input), ',') && ParseToken(t) == Some(v)
  {
    var p := Strip(input);
    if p == [] then None
    else
      var tokens := Split(p, ',');
      assert forall t :: t in tokens <==> exists k :: 0 <= k < |tokens| && tokens[k] == t;
      Some(ParseTokens(tokens))
  }

  /** `if selected:`: a missing or empty list means every chapter. */
  predicate Filtering(selected: Option<seq<real>>) {
    selected.Some? && selected.value != []
  }

  /** The selection step of `download_manga`: with a non-empty selection, the
      chapters whose number is in it, in their order; otherwise all of them. */
  function SelectChapters(chapters: seq<string>, selected: Option<seq<real>>): (r: seq<string>)
    ensures IsSubsequence(r, chapters)
    ensures !Filtering(selected) ==> r == chapters
    ensures Filtering(selected) ==>
              forall c :: c in r <==> c in chapters && ExtractChapterNum(c) in selected.value
  {
    if Filtering(selected) then
      FilterIsSubsequence(chapters, c => ExtractChapterNum(c) in selected.value);
      Filter(chapters, c => ExtractChapterNum(c) in selected.value)
    else
      assert Embedding(seq(|chapters|, i => i), chapters, chapters);
      chapters
  }

  /** The chapters `download_manga(manga_url, selected)` downloads, in the order it
      downloads them: ascending chapter number, each once, exactly the selected ones
      among the links of the page. */
  function ChaptersToDownload(resolve: (string, string) -> string, page: string, hrefs: seq<string>,
                              selected: Option<seq<real>>): (r: seq<string>)
    ensures SortedByChapter(r) && NoDuplicates(r)
    ensures forall u :: u in r <==>
              && Produces(hrefs, Kept, h => LinkOf(resolve, page, h), u)
              && (Filtering(selected) ==> ExtractChapterNum(u) in selected.value)
  {
    var all := GetChapterLinks(resolve, page, hrefs);
    var r := SelectChapters(all, selected);
    SubsequenceKeepsSorted(r, all, ExtractChapterNum);
    SubsequenceKeepsDistinct(r, all);
    r
  }

  /** Typing only tokens that are dropped (`abc`, `.`, `1.2.3`) filters nothing: every
      chapter is downloaded. */
  lemma AllTokensInvalidSelectsAll(chapters: seq<string>, input: string)
    requires Strip(input) != []
    requires forall t :: t in Split(Strip(input), ',') ==> !IsNumericToken(t)
    ensures SelectChapters(chapters, ParseSelection(input)) == chapters
  {
    var tokens := Split(Strip(input), ',');
    forall k | 0 <= k < |tokens| ensures ParseToken(tokens[k]).None? {
      assert tokens[k] in tokens;
    }
    NothingKept(tokens);
  }

  lemma NothingKept(tokens: seq<string>)
    requires forall k :: 0 <= k < |tokens| ==> ParseToken(tokens[k]).None?
    ensures ParseTokens(tokens) == []
  {
    FilterSomeNone(tokens, ParseToken);
  }

  /** The example input `3, abc, 5.5` selects chapters 3 and 5.5, in that order. */
  lemma ExampleSelection()
    ensures ParseSelection("3, abc, 5.5") == Some([3.0, 5.5])
  {
    var input := "3, abc, 5.5";
    StripExampleInput();
    SplitExampleInput();
    ParseExampleTokens();
  }

  lemma StripExampleInput()
    ensures Strip("3, abc, 5.5") == "3, abc, 5.5"
  {
    StripUnchanged("3, abc, 5.5");
  }

  lemma SplitExampleInput()
    ensures Split("3, abc, 5.5", ',') == ["3", " abc", " 5.5"]
  {
    SplitExampleFirst();
    SplitExampleRest();
  }

  lemma SplitExampleRest()
    ensures Split(" abc, 5.5", ',') == [" abc", " 5.5"]
  {
    SplitExampleSecond();
    SplitExampleLast();
  }

  lemma SplitExampleFirst()
    ensures Split("3, abc, 5.5", ',') == ["3"] + Split(" abc, 5.5", ',')
  {
    var s := "3, abc, 5.5";
    IndexOfAt(s, ',', 1);
    SplitAt(s, ',', 1);
    assert s[..1] == "3" && s[2..] == " abc, 5.5";
  }

  lemma SplitExampleSecond()
    ensures Split(" abc, 5.5", ',') == [" abc"] + Split(" 5.5", ',')
  {
    var s := " abc, 5.5";
    IndexOfAt(s, ',', 4);
    SplitAt(s, ',', 4);
    assert s[..4] == " abc" && s[5..] == " 5.5";
  }

  lemma SplitExampleLast()
    ensures Split(" 5.5", ',') == [" 5.5"]
  {
    assert ',' !in " 5.5";
  }

  lemma ParseExampleTokens()
    ensures ParseTokens(["3", " abc", " 5.5"]) == [3.0, 5.5]
  {
    TokenExamples();
    InvalidTokenDropped("3", " abc", " 5.5", 3.0, 5.5);
  }

  /** A token that does not parse is skipped; its neighbours keep their order. */
  lemma InvalidTokenDropped(x: string, y: string, z: string, a: real, b: real)
    requires ParseToken(x) == Some(a) && ParseToken(y) == None && ParseToken(z) == Some(b)
    ensures ParseTokens([x, y, z]) == [a, b]
  {
    FilterSomeDropsMiddle(x, y, z, ParseToken, a, b);
  }

  lemma TokenExamples()
    ensures ParseToken("3") == Some(3.0)
    ensures ParseToken(" abc") == None
    ensures ParseToken(" 5.5") == Some(5.5)
  {
    WholeToken();
    DroppedToken();
    FractionToken();
  }

  lemma WholeToken()
    ensures ParseToken("3") == Some(3.0)
  {
    StripUnchanged("3");
    assert IndexOf("3", '.') == None;
    assert Decompose("3") == ("3", "");
    ThreeValue();
  }

  lemma ThreeValue()
    ensures Decimal("3", "").Value() == 3.0
  {
    assert DigitsValue("3") == 3;
  }

  lemma DroppedToken()
    ensures ParseToken(" abc") == None
  {
    StripLetters();
    LettersAreNotANumeral();
  }

  lemma StripLetters()
    ensures Strip(" abc") == "abc"
  {
    StripOneLeadingSpace(" abc");
  }

  lemma LettersAreNotANumeral()
    ensures !IsNumeral("abc")
  {
    assert '.' !in "abc";
    assert RemoveFirst("abc", '.') == "abc";
    assert !IsDigit("abc"[0]);
  }

  lemma FractionToken()
    ensures ParseToken(" 5.5") == Some(5.5)
  {
    StripLeadingSpace();
    FiveAndAHalf();
    DecomposeFiveAndAHalf();
  }

  lemma DecomposeFiveAndAHalf()
    ensures IsNumeral("5.5") && Decompose("5.5") == ("5", "5")
  {
    var s := "5.5";
    IndexOfAt(s, '.', 1);
    assert s[..1] == "5" && s[2..] == "5";
    assert RemoveFirst(s, '.') == "55";
  }

  lemma StripLeadingSpace()
    ensures Strip(" 5.5") == "5.5"
  {
    StripOneLeadingSpace(" 5.5");
  }

  lemma FiveAndAHalf()
    ensures Decimal("5", "5").Value() == 5.5
  {
    assert DigitsValue("5") == 5;
    assert Pow10(1) == 10;
  }
}
