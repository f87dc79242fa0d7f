/** Worked inputs for the normaliser. Each fact about a literal text is its own
    small lemma, so that the solver evaluates one step at a time. */
module PlateTextExamples {
  import opened PlateText

  /** The clean-up of a text without white space at its ends, given the
      result of each ignored-word pass. */
  lemma CleanByPasses(raw: string, a: string, b: string, c: string, f: string)
    requires Trim(raw) == raw
    requires DeleteAll(raw, "BRASIL") == a && DeleteAll(a, "BR") == b && DeleteAll(b, "MERCOSUL") == c
    requires UpperCase(KeepPlateChars(c)) == f
    ensures Clean(raw) == f
  {
    assert IgnoredWords[0] == "BRASIL" && IgnoredWords[1..][0] == "BR";
    assert IgnoredWords[1..][1..][0] == "MERCOSUL" && |IgnoredWords[1..][1..][1..]| == 0;
    assert DeleteWords(raw, IgnoredWords) == c;
  }

  /** The last step, once the cleaned text is known. */
  lemma NormaliseOfClean(raw: string, c: string)
    requires Clean(raw) == c
    ensures |c| >= CodeLength && IsPlateCode(c[..CodeLength]) ==> Normalise(raw) == c[..CodeLength]
    ensures |c| < CodeLength ==> Normalise(raw) == c
  {
  }

  // "BRASILABC1D23": the printed word is deleted and a new-format code remains.

  lemma FirstIsNewFormat()
    ensures FitsAt("ABC1D23", 0, NewFormat) && !FitsAt("ABC1D23", 0, OldFormat)
    ensures IsPlateCode("ABC1D23")
  {
    assert !InClass("ABC1D23"[0 + 4], OldFormat[4]);
  }

  lemma FirstHasNoBr() ensures !Occurs("ABC1D23", "BR") {
    forall i | 0 <= i <= 5
      ensures !MatchesAt("ABC1D23", i, "BR")
    {
      if i == 0 {
        assert ToUpper("ABC1D23"[0 + 0]) != ToUpper("BR"[0]);
      } else {
        assert ToUpper("ABC1D23"[i + 1]) != ToUpper("BR"[1]);
      }
    }
  }

  lemma NewFormatAfterBrasil()
    ensures Normalise("BRASILABC1D23") == "ABC1D23"
  {
    FirstIsNewFormat();
    FirstHasNoBr();
    CodeAfterBrasil("ABC1D23");
    assert "BRASIL" + "ABC1D23" == "BRASILABC1D23";
  }

  // "XYZ99999Q": an old-format prefix is cut out of a longer reading.

  lemma SecondClean() ensures Clean("XYZ99999Q") == "XYZ99999Q" {
    var s := "XYZ99999Q";
    assert forall i :: 0 <= i < |s| ==> IsPlateChar(s[i]) && s[i] != 'B' && s[i] != 'M';
    AbsentFirstLetter(s, IgnoredWords[0]);
    AbsentFirstLetter(s, IgnoredWords[1]);
    AbsentFirstLetter(s, IgnoredWords[2]);
    CleanOfPlateText(s);
  }

  lemma SecondPrefixIsOldFormat()
    ensures FitsAt("XYZ99999Q"[..CodeLength], 0, OldFormat) && !FitsAt("XYZ99999Q"[..CodeLength], 0, NewFormat)
    ensures IsPlateCode("XYZ99999Q"[..CodeLength])
  {
    assert "XYZ99999Q"[..CodeLength] == "XYZ9999";
    assert !InClass("XYZ9999"[0 + 4], NewFormat[4]);
  }

  lemma OldFormatPrefixIsCut()
    ensures Normalise("XYZ99999Q") == "XYZ9999"
  {
    SecondClean();
    SecondPrefixIsOldFormat();
    NormaliseOfClean("XYZ99999Q", "XYZ99999Q");
    assert "XYZ99999Q"[..CodeLength] == "XYZ9999";
    assert !InClass("XYZ9999"[0 + 4], NewFormat[4]);
  }

  // "abc1d23": lower-case letters are filtered out, not upper-cased.

  lemma ThirdTrim() ensures Trim("abc1d23") == "abc1d23" { }

  lemma ThirdBrPass() ensures DeleteAll("abc1d23", "BR") == "abc1d23" { }

  lemma ThirdFilter() ensures UpperCase(KeepPlateChars("abc1d23")) == "123" { }

  lemma ThirdClean() ensures Clean("abc1d23") == "123" {
    ThirdTrim();
    assert |"BRASIL"| > 0 && |"MERCOSUL"| > 0;
    assert DeleteAll("abc1d23", "BRASIL") == "abc1d23";
    ThirdBrPass();
    assert DeleteAll("abc1d23", "MERCOSUL") == "abc1d23";
    ThirdFilter();
    CleanByPasses("abc1d23", "abc1d23", "abc1d23", "abc1d23", "123");
  }

  lemma LowerCaseIsDropped()
    ensures Normalise("abc1d23") == "123"
  {
    ThirdClean();
    NormaliseOfClean("abc1d23", "123");
  }

  // Deletion can create a new copy of a word, which the same pass does not
  // revisit; hence the normaliser is not idempotent.

  lemma DeletionCanCreateWord()
    ensures DeleteAll("BBRR", "BR") == "BR"
  {
  }

  /** One pass deletes every copy, in any case, not only the first. */
  lemma EveryCopyGoes()
    ensures DeleteAll("XbrBR", "BR") == "X"
  {
    assert |"BR"| > 0;
    assert !MatchesAt("XbrBR", 0, "BR") by {
      assert ToUpper("XbrBR"[0 + 0]) != ToUpper("BR"[0]);
    }
    DeleteAllFirstMatch("XbrBR", "BR", 1);
    assert "XbrBR"[1 + |"BR"|..] == "BR";
    DeleteAllFirstMatch("BR", "BR", 0);
  }

  lemma FourthClean() ensures Clean("BBRR") == "BR" {
    assert Trim("BBRR") == "BBRR";
    assert |"BRASIL"| > 0 && |"MERCOSUL"| > 0;
    assert DeleteAll("BBRR", "BRASIL") == "BBRR";
    DeletionCanCreateWord();
    assert DeleteAll("BR", "MERCOSUL") == "BR";
    assert UpperCase(KeepPlateChars("BR")) == "BR";
    CleanByPasses("BBRR", "BBRR", "BR", "BR", "BR");
  }

  lemma FifthClean() ensures Clean("BR") == "" {
    assert Trim("BR") == "BR";
    assert |"BRASIL"| > 0 && |"BR"| > 0 && |"MERCOSUL"| > 0;
    assert DeleteAll("BR", "BRASIL") == "BR";
    assert DeleteAll("BR", "BR") == "";
    assert DeleteAll("", "MERCOSUL") == "";
    assert UpperCase(KeepPlateChars("")) == "";
    CleanByPasses("BR", "BR", "", "", "");
  }

  lemma NormaliseIsNotIdempotent()
    ensures Normalise("BBRR") == "BR"
    ensures Normalise(Normalise("BBRR")) == ""
  {
    FourthClean();
    NormaliseOfClean("BBRR", "BR");
    FifthClean();
    NormaliseOfClean("BR", "");
  }
}
