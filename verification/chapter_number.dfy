/** `extract_chapter_num`: the number after the leftmost `chapter-` that is followed
    by a digit, read by the pattern `chapter-([0-9]+(?:\.[0-9]+)?)`, or 0 without one. */
module ChapterNumber {
  import opened Wrappers
  import opened Text

  /** The literal part of the pattern. Case-sensitive: `Chapter-` does not match. */
  const Marker: string := "chapter-"

  /** The pattern can start at `i`: the marker, then at least one digit. */
  predicate MatchAt(s: string, i: int) {
    OccursAt(s, Marker, i) && i + |Marker| < |s| && IsDigit(s[i + |Marker|])
  }

  /** `i` is where a left-to-right search (`re.search`) finds the pattern. */
  ghost predicate LeftmostMatch(s: string, i: int) {
    MatchAt(s, i) && forall j :: 0 <= j < i ==> !MatchAt(s, j)
  }

  /** The first position at or after `from` where the pattern can start. */
  function FirstMatch(s: string, from: nat): (r: Option<nat>)
    requires from <= |s|
    ensures r.Some? ==> from <= r.value && MatchAt(s, r.value)
    ensures forall j :: from <= j && (r.None? || j < r.value) ==> !MatchAt(s, j)
    decreases |s| - from
  {
    if MatchAt(s, from) then Some(from)
    else if from == |s| then None
    else FirstMatch(s, from + 1)
  }

  /** The length of the maximal run of digits at the start of `s` (greedy `[0-9]*`). */
  function LeadingDigits(s: string): (n: nat)
    ensures n <= |s| && AllDigits(s[..n])
    ensures n == |s| || !IsDigit(s[n])
  {
    if s != [] && IsDigit(s[0]) then
      var n := 1 + LeadingDigits(s[1..]);
      assert s[..n] == [s[0]] + s[1..][..n - 1];
      n
    else 0
  }

  /** A decimal numeral `whole` or `whole.frac`, kept as its digit strings. */
  datatype Decimal = Decimal(whole: string, frac: string) {

    predicate Valid() {
      AllDigits(whole) && AllDigits(frac)
    }

    /** The exact value `float()` reads from the numeral (without binary rounding). */
    function Value(): (v: real)
      requires Valid()
      ensures v >= 0.0
    {
      DigitsValue(whole) as real + DigitsValue(frac) as real / Pow10(|frac|) as real
    }
  }

  /** The numeral the group `([0-9]+(?:\.[0-9]+)?)` captures when it starts at `p`:
      all the digits, then `.` and all the digits after it only if at least one follows. */
  function NumeralAt(s: string, p: nat): (d: Decimal)
    requires p < |s| && IsDigit(s[p])
    ensures d.Valid() && |d.whole| >= 1
    ensures OccursAt(s, d.whole, p)
    ensures p + |d.whole| == |s| || !IsDigit(s[p + |d.whole|])
    ensures var q := p + |d.whole|;
            if q + 1 < |s| && s[q] == '.' && IsDigit(s[q + 1]) then
              |d.frac| >= 1 && OccursAt(s, d.frac, q + 1)
              && (q + 1 + |d.frac| == |s| || !IsDigit(s[q + 1 + |d.frac|]))
            else d.frac == []
  {
    var rest := s[p..];
    var n := LeadingDigits(rest);
    var whole := rest[..n];
    assert whole == s[p..p + n];
    var q := p + n;
    if q + 1 < |s| && s[q] == '.' && IsDigit(s[q + 1]) then
      var after := s[q + 1..];
      var m := LeadingDigits(after);
      assert after[..m] == s[q + 1..q + 1 + m];
      Decimal(whole, after[..m])
    else
      Decimal(whole, [])
  }

  /** `extract_chapter_num(url)`. */
  function ExtractChapterNum(url: string): (r: real)
    ensures r >= 0.0
    ensures (forall i :: !MatchAt(url, i)) ==> r == 0.0
    ensures forall i :: LeftmostMatch(url, i) ==> r == NumeralAt(url, i + |Marker|).Value()
  {
    match FirstMatch(url, 0)
    case None => 0.0
    case Some(i) =>
      assert LeftmostMatch(url, i);
      LeftmostUnique(url, i);
      NumeralAt(url, i + |Marker|).Value()
  }

  lemma LeftmostUnique(s: string, i: int)
    requires LeftmostMatch(s, i)
    ensures forall j :: LeftmostMatch(s, j) ==> j == i
  {
  }

  /** A zero result means either no `chapter-<digit>` at all or a numeral of value
      zero at the leftmost one: the parser cannot tell "chapter-0" from no number. */
  lemma {:induction false} ZeroMeansNoneOrZero(url: string)
    ensures ExtractChapterNum(url) == 0.0 <==>
            (forall i :: !MatchAt(url, i))
            || (exists i :: LeftmostMatch(url, i) && NumeralAt(url, i + |Marker|).Value() == 0.0)
  {
    match FirstMatch(url, 0)
    case None =>
    case Some(i) =>
      assert LeftmostMatch(url, i);
      LeftmostUnique(url, i);
  }

  /** Appending a zero to the fraction does not change the value: "5.50" reads as 5.5. */
  lemma TrailingZero(whole: string, frac: string)
    requires AllDigits(whole) && AllDigits(frac)
    ensures Decimal(whole, frac + "0").Valid()
    ensures Decimal(whole, frac + "0").Value() == Decimal(whole, frac).Value()
  {
    var f' := frac + "0";
    assert f'[..|f'| - 1] == frac;
    assert DigitsValue(f') == 10 * DigitsValue(frac);
    assert Pow10(|f'|) == 10 * Pow10(|frac|);
    ScaledFraction(DigitsValue(frac) as real, Pow10(|frac|) as real);
  }

  lemma ScaledFraction(a: real, b: real)
    requires b > 0.0
    ensures (10.0 * a) / (10.0 * b) == a / b
  {
    var q := a / b;
    assert a == q * b;
    assert 10.0 * a == q * (10.0 * b);
  }

  /** Leading zeros do not change the value: "007" reads as 7. */
  lemma LeadingZerosValue(z: nat, whole: string, frac: string)
    requires AllDigits(whole) && AllDigits(frac)
    ensures Decimal(Repeat('0', z) + whole, frac).Valid()
    ensures Decimal(Repeat('0', z) + whole, frac).Value() == Decimal(whole, frac).Value()
  {
    LeadingZeros(z, whole);
  }

  /** The match is case-sensitive. */
  lemma CapitalisedMarkerIsNotANumber()
    ensures ExtractChapterNum("Chapter-5") == 0.0
  {
    var s := "Chapter-5";
    forall i ensures !MatchAt(s, i) {
      if 0 <= i && i + |Marker| < |s| {
        assert i == 0;
        assert s[0] != Marker[0];
        assert s[i..i + |Marker|] != Marker;
      }
    }
  }

  /** The fraction is part of the number. */
  lemma FractionalChapter()
    ensures ExtractChapterNum("x-chapter-12.5") == 12.5
  {
    var s := "x-chapter-12.5";
    ExampleLeftmost();
    ExampleNumeral();
    assert DigitsValue("12") == 12;
    assert DigitsValue("5") == 5;
    assert Decimal("12", "5").Value() == 12.5;
  }

  lemma ExampleLeftmost()
    ensures LeftmostMatch("x-chapter-12.5", 2)
  {
    var s := "x-chapter-12.5";
    forall j | 0 <= j < 2 ensures !MatchAt(s, j) {
      assert s[j] != 'c' && Marker[0] == 'c';
      assert s[j..j + |Marker|][0] == s[j];
    }
    assert s[2..10] == Marker;
  }

  lemma ExampleNumeral()
    ensures NumeralAt("x-chapter-12.5", 10) == Decimal("12", "5")
  {
    var s := "x-chapter-12.5";
    var d := NumeralAt(s, 10);
    assert s[10] == '1' && s[11] == '2' && s[12] == '.' && s[13] == '5';
    assert d.whole == s[10..10 + |d.whole|];
    assert |d.whole| == 2;
    assert d.whole == "12";
    assert d.frac == s[13..13 + |d.frac|];
    assert |d.frac| == 1;
    assert d.frac == "5";
  }
}
