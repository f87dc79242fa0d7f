/** The clean-up of the OCR engine's raw text into a plate code, as done at the
    end of `processPlateFrame`: trim, delete the words printed on the plate,
    keep `[A-Z0-9]`, upper-case, and cut to seven characters when the prefix
    is a plate in the old (`AAA0000`) or the new (`AAA0A00`) format. */
module PlateText {

  /** Words printed on the plate that the engine reads along with the code;
      deleted in this order, one pass each. */
  const IgnoredWords: seq<Word> := ["BRASIL", "BR", "MERCOSUL"]

  /** A non-empty search word (an empty pattern would match everywhere). */
  type Word = w: string | |w| > 0 witness "A"

  /** Length of a plate code. */
  const CodeLength: nat := 7

  // ---------------------------------------------------------------------
  // Character classes

  predicate IsUpper(c: char) { 'A' <= c <= 'Z' }

  predicate IsLower(c: char) { 'a' <= c <= 'z' }

  predicate IsDigit(c: char) { '0' <= c <= '9' }

  /** The class `[A-Z0-9]` kept by the filter. */
  predicate IsPlateChar(c: char) { IsUpper(c) || IsDigit(c) }

  /** The code points `String.prototype.trim` removes: ECMAScript white space
      and line terminators. */
  predicate IsTrimmable(c: char) {
    var n := c as int;
    (9 <= n <= 13) || n == 0x20 || n == 0xA0 || n == 0x1680
    || (0x2000 <= n <= 0x200A) || n == 0x2028 || n == 0x2029
    || n == 0x202F || n == 0x205F || n == 0x3000 || n == 0xFEFF
  }

  /** ASCII upper-casing of one character: what `toUpperCase` does to the
      characters that survive the filter, and also the character a
      case-insensitive (`i` flag) match compares. Without the `u` flag a
      non-ASCII character never folds to an ASCII letter, so only `a`-`z`
      matter for the ASCII words matched here. */
  function ToUpper(c: char): (u: char)
    ensures IsLower(c) ==> IsUpper(u) && u as int == c as int - 32
    ensures !IsLower(c) ==> u == c
  {
    if IsLower(c) then (c as int - 32) as char else c
  }

  // ---------------------------------------------------------------------
  // Subsequences: the normaliser only ever deletes characters

  /** `a` is obtained from `b` by deleting characters. */
  predicate IsSubsequence(a: string, b: string)
    decreases |b|
  {
    if |a| == 0 then true
    else if |b| == 0 then false
    else (a[0] == b[0] && IsSubsequence(a[1..], b[1..])) || IsSubsequence(a, b[1..])
  }

  lemma {:induction false} SubsequenceRefl(s: string)
    ensures IsSubsequence(s, s)
    decreases |s|
  {
    if |s| > 0 {
      SubsequenceRefl(s[1..]);
    }
  }

  /** Dropping a prefix of the longer string keeps a subsequence one. */
  lemma {:induction false} SubsequenceOfSuffix(a: string, b: string, k: nat)
    requires k <= |b|
    requires IsSubsequence(a, b[k..])
    ensures IsSubsequence(a, b)
    decreases k
  {
    if k > 0 {
      assert b[k..] == b[1..][k - 1..];
      SubsequenceOfSuffix(a, b[1..], k - 1);
      if |a| > 0 {
        assert IsSubsequence(a, b[1..]);
      }
    }
  }

  /** Keeping the first character of both strings keeps a subsequence one. */
  lemma SubsequenceCons(c: char, a: string, b: string)
    requires IsSubsequence(a, b)
    ensures IsSubsequence([c] + a, [c] + b)
  {
    assert ([c] + a)[1..] == a;
    assert ([c] + b)[1..] == b;
  }

  lemma {:induction false} SubsequenceTrans(a: string, b: string, c: string)
    requires IsSubsequence(a, b) && IsSubsequence(b, c)
    ensures IsSubsequence(a, c)
    decreases |c|
  {
    if |a| > 0 {
      assert |b| > 0 && |c| > 0;
      if IsSubsequence(b, c[1..]) {
        SubsequenceTrans(a, b, c[1..]);
      } else {
        assert b[0] == c[0] && IsSubsequence(b[1..], c[1..]);
        if a[0] == b[0] && IsSubsequence(a[1..], b[1..]) {
          SubsequenceTrans(a[1..], b[1..], c[1..]);
        } else {
          SubsequenceTrans(a, b[1..], c[1..]);
        }
      }
    }
  }

  lemma {:induction false} SubsequenceOfPrefix(s: string, k: nat)
    requires k <= |s|
    ensures IsSubsequence(s[..k], s)
    decreases k
  {
    if k > 0 {
      SubsequenceOfPrefix(s[1..], k - 1);
      assert s[..k][1..] == s[1..][..k - 1];
    }
  }

  /** Deleting characters never adds a copy of any character. */
  lemma {:induction false} SubsequenceCounts(a: string, b: string, c: char)
    requires IsSubsequence(a, b)
    ensures multiset(a)[c] <= multiset(b)[c]
    decreases |b|
  {
    if |a| > 0 {
      assert b == [b[0]] + b[1..];
      if a[0] == b[0] && IsSubsequence(a[1..], b[1..]) {
        SubsequenceCounts(a[1..], b[1..], c);
        assert a == [a[0]] + a[1..];
      } else {
        SubsequenceCounts(a, b[1..], c);
      }
    }
  }

  // ---------------------------------------------------------------------
  // Step 1: `text.trim()`

  function TrimStart(s: string): (t: string)
    decreases |s|
  {
    if |s| > 0 && IsTrimmable(s[0]) then TrimStart(s[1..]) else s
  }

  function TrimEnd(s: string): (t: string)
    decreases |s|
  {
    if |s| > 0 && IsTrimmable(s[|s| - 1]) then TrimEnd(s[..|s| - 1]) else s
  }

  function Trim(s: string): (t: string) {
    TrimEnd(TrimStart(s))
  }

  /** `TrimStart` removes exactly the white space in front. */
  lemma {:induction false} TrimStartSpec(s: string)
    ensures var r := TrimStart(s);
      && |r| <= |s| && r == s[|s| - |r|..]
      && (forall i :: 0 <= i < |s| - |r| ==> IsTrimmable(s[i]))
      && (|r| > 0 ==> !IsTrimmable(r[0]))
    decreases |s|
  {
    if |s| > 0 && IsTrimmable(s[0]) {
      TrimStartSpec(s[1..]);
    }
  }

  /** `TrimEnd` removes exactly the white space behind. */
  lemma {:induction false} TrimEndSpec(s: string)
    ensures var r := TrimEnd(s);
      && |r| <= |s| && r == s[..|r|]
      && (forall i :: |r| <= i < |s| ==> IsTrimmable(s[i]))
      && (|r| > 0 ==> !IsTrimmable(r[|r| - 1]))
    decreases |s|
  {
    if |s| > 0 && IsTrimmable(s[|s| - 1]) {
      TrimEndSpec(s[..|s| - 1]);
    }
  }

  lemma TrimIsDeletion(s: string)
    ensures IsSubsequence(Trim(s), s)
  {
    var t := TrimStart(s);
    TrimStartSpec(s);
    TrimEndSpec(t);
    SubsequenceOfPrefix(t, |Trim(s)|);
    SubsequenceRefl(t);
    SubsequenceOfSuffix(t, s, |s| - |t|);
    SubsequenceTrans(Trim(s), t, s);
  }

  // ---------------------------------------------------------------------
  // Step 2: delete every copy of each ignored word, ignoring case

  /** `w` occurs in `s` at position `i`, ignoring ASCII case. */
  predicate MatchesAt(s: string, i: int, w: string) {
    0 <= i && i + |w| <= |s|
    && forall k :: 0 <= k < |w| ==> ToUpper(s[i + k]) == ToUpper(w[k])
  }

  predicate Occurs(s: string, w: string) {
    exists i :: 0 <= i <= |s| - |w| && MatchesAt(s, i, w)
  }

  /** The regular expression matches at the start of `s`, compared character
      by character. */
  predicate StartsWith(s: string, w: string)
    decreases |w|
  {
    |w| == 0 || (|s| > 0 && ToUpper(s[0]) == ToUpper(w[0]) && StartsWith(s[1..], w[1..]))
  }

  lemma {:induction false} StartsWithIsMatchAtZero(s: string, w: string)
    ensures StartsWith(s, w) <==> MatchesAt(s, 0, w)
    decreases |w|
  {
    if |w| > 0 && |s| > 0 {
      StartsWithIsMatchAtZero(s[1..], w[1..]);
      if MatchesAt(s[1..], 0, w[1..]) && ToUpper(s[0]) == ToUpper(w[0]) {
        forall k | 0 <= k < |w|
          ensures ToUpper(s[k]) == ToUpper(w[k])
        {
          if k > 0 {
            assert s[1..][k - 1] == s[k] && w[1..][k - 1] == w[k];
          }
        }
      }
      if MatchesAt(s, 0, w) {
        forall k | 0 <= k < |w| - 1
          ensures ToUpper(s[1..][k]) == ToUpper(w[1..][k])
        {
          assert s[1..][k] == s[k + 1] && w[1..][k] == w[k + 1];
        }
      }
    }
  }

  /** A global replace by the empty string: scan left to right; at a match,
      delete it and resume after it; otherwise keep the character. */
  function DeleteAll(s: string, w: Word): (r: string)
    ensures |r| <= |s|
    decreases |s|
  {
    if |s| < |w| then s
    else if StartsWith(s, w) then DeleteAll(s[|w|..], w)
    else [s[0]] + DeleteAll(s[1..], w)
  }

  lemma {:induction false} DeleteAllIsDeletion(s: string, w: Word)
    ensures IsSubsequence(DeleteAll(s, w), s)
    decreases |s|
  {
    if |s| < |w| {
      SubsequenceRefl(s);
    } else if StartsWith(s, w) {
      DeleteAllIsDeletion(s[|w|..], w);
      SubsequenceOfSuffix(DeleteAll(s, w), s, |w|);
    } else {
      DeleteAllIsDeletion(s[1..], w);
      SubsequenceCons(s[0], DeleteAll(s[1..], w), s[1..]);
      assert [s[0]] + s[1..] == s;
    }
  }

  lemma MatchesAtShift(s: string, i: int, w: string)
    requires |s| > 0 && 0 <= i
    ensures MatchesAt(s[1..], i, w) <==> MatchesAt(s, i + 1, w)
  {
  }

  /** One pass changes the text exactly when the word occurs in it. */
  lemma {:induction false} DeleteAllUnchangedIff(s: string, w: Word)
    ensures DeleteAll(s, w) == s <==> !Occurs(s, w)
    decreases |s|
  {
    if Occurs(s, w) {
      DeleteAllShrinks(s, w);
    } else if |s| >= |w| {
      StartsWithIsMatchAtZero(s, w);
      assert !MatchesAt(s, 0, w);
      forall i ensures !MatchesAt(s[1..], i, w) {
        if 0 <= i {
          MatchesAtShift(s, i, w);
        }
      }
      DeleteAllUnchangedIff(s[1..], w);
      assert [s[0]] + s[1..] == s;
    }
  }

  /** The leftmost match goes: everything before the first position where the
      word occurs is kept, that copy is deleted, and the pass resumes right
      after it. With `DeleteAllUnchangedIff` for a text in which the word no
      longer occurs, this fixes the result of a pass on every input, so a
      pass deletes every leftmost non-overlapping copy, as the `g` flag does. */
  lemma {:induction false} DeleteAllFirstMatch(s: string, w: Word, i: nat)
    requires MatchesAt(s, i, w)
    requires forall j :: 0 <= j < i ==> !MatchesAt(s, j, w)
    ensures DeleteAll(s, w) == s[..i] + DeleteAll(s[i + |w|..], w)
    decreases i
  {
    if i == 0 {
      DeleteAllDrops(s, w);
      assert s[..0] == [];
    } else {
      NoEarlierMatchShift(s, w, i);
      DeleteAllFirstMatch(s[1..], w, i - 1);
      DeleteAllKeepsPrefix(s, w, i);
    }
  }

  /** The step of `DeleteAllFirstMatch` past a first character that does
      not start a copy. */
  lemma DeleteAllKeepsPrefix(s: string, w: Word, i: nat)
    requires 0 < i && i + |w| <= |s| && !MatchesAt(s, 0, w)
    requires DeleteAll(s[1..], w) == s[1..][..i - 1] + DeleteAll(s[1..][i - 1 + |w|..], w)
    ensures DeleteAll(s, w) == s[..i] + DeleteAll(s[i + |w|..], w)
  {
    var t := s[1..];
    var rest := DeleteAll(s[i + |w|..], w);
    DeleteAllKeeps(s, w);
    assert t[i - 1 + |w|..] == s[i + |w|..];
    calc {
      DeleteAll(s, w);
      [s[0]] + DeleteAll(t, w);
      [s[0]] + (t[..i - 1] + rest);
      ([s[0]] + t[..i - 1]) + rest;
      { assert [s[0]] + t[..i - 1] == s[..i]; }
      s[..i] + rest;
    }
  }

  /** A pass deletes a copy at the front and goes on after it. */
  lemma DeleteAllDrops(s: string, w: Word)
    requires MatchesAt(s, 0, w)
    ensures DeleteAll(s, w) == DeleteAll(s[|w|..], w)
  {
    StartsWithIsMatchAtZero(s, w);
  }

  /** A pass keeps a first character that does not start a copy. */
  lemma DeleteAllKeeps(s: string, w: Word)
    requires |s| >= |w| && !MatchesAt(s, 0, w)
    ensures DeleteAll(s, w) == [s[0]] + DeleteAll(s[1..], w)
  {
    StartsWithIsMatchAtZero(s, w);
  }

  /** The hypotheses of `DeleteAllFirstMatch`, one character further on. */
  lemma NoEarlierMatchShift(s: string, w: Word, i: nat)
    requires 0 < i && MatchesAt(s, i, w)
    requires forall j :: 0 <= j < i ==> !MatchesAt(s, j, w)
    ensures MatchesAt(s[1..], i - 1, w)
    ensures forall j :: 0 <= j < i - 1 ==> !MatchesAt(s[1..], j, w)
  {
    MatchesAtShift(s, i - 1, w);
    forall j | 0 <= j < i - 1
      ensures !MatchesAt(s[1..], j, w)
    {
      MatchesAtShift(s, j, w);
    }
  }

  /** Every pass over a text containing the word deletes at least one copy. */
  lemma {:induction false} DeleteAllShrinks(s: string, w: Word)
    requires Occurs(s, w)
    ensures |DeleteAll(s, w)| <= |s| - |w|
    decreases |s|
  {
    var i :| 0 <= i <= |s| - |w| && MatchesAt(s, i, w);
    StartsWithIsMatchAtZero(s, w);
    if !MatchesAt(s, 0, w) {
      assert i > 0;
      MatchesAtShift(s, i - 1, w);
      DeleteAllShrinks(s[1..], w);
    }
  }

  /** Deletes the ignored words one after the other, as the `forEach` does. */
  function DeleteWords(s: string, words: seq<Word>): (r: string)
    decreases |words|
  {
    if |words| == 0 then s else DeleteWords(DeleteAll(s, words[0]), words[1..])
  }

  lemma {:induction false} DeleteWordsIsDeletion(s: string, words: seq<Word>)
    ensures IsSubsequence(DeleteWords(s, words), s)
    decreases |words|
  {
    if |words| == 0 {
      SubsequenceRefl(s);
    } else {
      var t := DeleteAll(s, words[0]);
      DeleteAllIsDeletion(s, words[0]);
      DeleteWordsIsDeletion(t, words[1..]);
      SubsequenceTrans(DeleteWords(s, words), t, s);
    }
  }

  // ---------------------------------------------------------------------
  // Step 3: drop every character outside `[A-Z0-9]`, then upper-case

  function KeepPlateChars(s: string): (r: string)
    decreases |s|
  {
    if |s| == 0 then []
    else (if IsPlateChar(s[0]) then [s[0]] else []) + KeepPlateChars(s[1..])
  }

  lemma {:induction false} KeepPlateCharsAlphabet(s: string)
    ensures forall i :: 0 <= i < |KeepPlateChars(s)| ==> IsPlateChar(KeepPlateChars(s)[i])
    decreases |s|
  {
    if |s| > 0 {
      KeepPlateCharsAlphabet(s[1..]);
    }
  }

  lemma {:induction false} KeepPlateCharsIsDeletion(s: string)
    ensures IsSubsequence(KeepPlateChars(s), s)
    decreases |s|
  {
    if |s| > 0 {
      var t := KeepPlateChars(s[1..]);
      KeepPlateCharsIsDeletion(s[1..]);
      assert s == [s[0]] + s[1..];
      if IsPlateChar(s[0]) {
        SubsequenceCons(s[0], t, s[1..]);
      } else {
        assert KeepPlateChars(s) == t;
        SubsequenceOfSuffix(t, s, 1);
      }
    }
  }

  /** The filter keeps every `[A-Z0-9]` character as often as it occurs and
      nothing else; in particular it drops lower-case letters instead of
      upper-casing them. */
  lemma {:induction false} KeepPlateCharsCounts(s: string)
    ensures forall c :: multiset(KeepPlateChars(s))[c] == if IsPlateChar(c) then multiset(s)[c] else 0
    decreases |s|
  {
    if |s| > 0 {
      KeepPlateCharsCounts(s[1..]);
      assert s == [s[0]] + s[1..];
    }
  }

  /** `toUpperCase`, for the ASCII characters it is ever applied to here. */
  function UpperCase(s: string): (u: string)
    decreases |s|
  {
    if |s| == 0 then [] else [ToUpper(s[0])] + UpperCase(s[1..])
  }

  /** Upper-casing comes after the filter, so it has nothing left to change. */
  lemma {:induction false} UpperCaseOfPlateChars(s: string)
    requires forall i :: 0 <= i < |s| ==> IsPlateChar(s[i])
    ensures UpperCase(s) == s
    decreases |s|
  {
    if |s| > 0 {
      UpperCaseOfPlateChars(s[1..]);
      assert [s[0]] + s[1..] == s;
    }
  }

  /** The text after steps 1 to 3. */
  function Clean(raw: string): (c: string)
  {
    UpperCase(KeepPlateChars(DeleteWords(Trim(raw), IgnoredWords)))
  }

  /** The cleaned text is made of `[A-Z0-9]` characters only. */
  lemma CleanAlphabet(raw: string)
    ensures forall i :: 0 <= i < |Clean(raw)| ==> IsPlateChar(Clean(raw)[i])
  {
    var d := DeleteWords(Trim(raw), IgnoredWords);
    KeepPlateCharsAlphabet(d);
    UpperCaseOfPlateChars(KeepPlateChars(d));
  }

  lemma CleanIsDeletion(raw: string)
    ensures IsSubsequence(Clean(raw), raw)
  {
    var t := Trim(raw);
    var d := DeleteWords(t, IgnoredWords);
    TrimIsDeletion(raw);
    DeleteWordsIsDeletion(t, IgnoredWords);
    KeepPlateCharsIsDeletion(d);
    KeepPlateCharsAlphabet(d);
    UpperCaseOfPlateChars(KeepPlateChars(d));
    SubsequenceTrans(d, t, raw);
    SubsequenceTrans(Clean(raw), d, raw);
  }

  // ---------------------------------------------------------------------
  // Step 4: the plate formats

  /** A regular-expression atom: `[A-Z]` or `[0-9]`. */
  datatype CharClass = Letter | Digit

  /** `[A-Z]{3}[0-9][A-Z][0-9]{2}` */
  const NewFormat: seq<CharClass> := [Letter, Letter, Letter, Digit, Letter, Digit, Digit]

  /** `[A-Z]{3}[0-9]{4}` */
  const OldFormat: seq<CharClass> := [Letter, Letter, Letter, Digit, Digit, Digit, Digit]

  predicate InClass(c: char, k: CharClass) {
    match k
    case Letter => IsUpper(c)
    case Digit => IsDigit(c)
  }

  predicate FitsAt(s: string, i: int, pattern: seq<CharClass>) {
    0 <= i && i + |pattern| <= |s|
    && forall k :: 0 <= k < |pattern| ==> InClass(s[i + k], pattern[k])
  }

  /** The pattern matches at the start of `s`, atom by atom. */
  predicate Fits(s: string, pattern: seq<CharClass>)
    decreases |pattern|
  {
    |pattern| == 0 || (|s| > 0 && InClass(s[0], pattern[0]) && Fits(s[1..], pattern[1..]))
  }

  /** `RegExp.prototype.test`: try every start position from the left. */
  predicate Test(pattern: seq<CharClass>, s: string)
    decreases |s|
  {
    Fits(s, pattern) || (|s| > 0 && Test(pattern, s[1..]))
  }

  /** A seven-character plate code in either format, read as a whole. */
  predicate IsPlateCode(p: string) {
    |p| == CodeLength && (FitsAt(p, 0, NewFormat) || FitsAt(p, 0, OldFormat))
  }

  lemma {:induction false} FitsIsFitsAtZero(s: string, pattern: seq<CharClass>)
    ensures Fits(s, pattern) <==> FitsAt(s, 0, pattern)
    decreases |pattern|
  {
    if |pattern| > 0 && |s| > 0 {
      FitsIsFitsAtZero(s[1..], pattern[1..]);
      if FitsAt(s[1..], 0, pattern[1..]) && InClass(s[0], pattern[0]) {
        forall k | 0 <= k < |pattern|
          ensures InClass(s[k], pattern[k])
        {
          if k > 0 {
            assert s[1..][k - 1] == s[k] && pattern[1..][k - 1] == pattern[k];
          }
        }
      }
      if FitsAt(s, 0, pattern) {
        forall k | 0 <= k < |pattern| - 1
          ensures InClass(s[1..][k], pattern[1..][k])
        {
          assert s[1..][k] == s[k + 1] && pattern[1..][k] == pattern[k + 1];
        }
      }
    }
  }

  /** A search for a non-empty pattern in text shorter than it fails. */
  lemma {:induction false} TestOnShortText(pattern: seq<CharClass>, s: string)
    requires |pattern| > |s|
    ensures !Test(pattern, s)
    decreases |s|
  {
    FitsIsFitsAtZero(s, pattern);
    if |s| > 0 {
      TestOnShortText(pattern, s[1..]);
    }
  }

  /** Both patterns are seven atoms long and are searched for in seven
      characters, so the unanchored search is a full match. */
  lemma TestOnSevenIsFullMatch(p: string)
    requires |p| == CodeLength
    ensures (Test(NewFormat, p) || Test(OldFormat, p)) <==> IsPlateCode(p)
  {
    FitsIsFitsAtZero(p, NewFormat);
    FitsIsFitsAtZero(p, OldFormat);
    TestOnShortText(NewFormat, p[1..]);
    TestOnShortText(OldFormat, p[1..]);
  }

  // ---------------------------------------------------------------------
  // Text that is already clean

  lemma KeepPlateCharsOfPlateText(s: string)
    requires forall i :: 0 <= i < |s| ==> IsPlateChar(s[i])
    ensures KeepPlateChars(s) == s
    decreases |s|
  {
    if |s| > 0 {
      KeepPlateCharsOfPlateText(s[1..]);
      assert [s[0]] + s[1..] == s;
    }
  }

  /** Text of `[A-Z0-9]` characters in which no ignored word occurs comes
      through the clean-up unchanged. */
  lemma CleanOfPlateText(s: string)
    requires forall i :: 0 <= i < |s| ==> IsPlateChar(s[i])
    requires forall k :: 0 <= k < |IgnoredWords| ==> !Occurs(s, IgnoredWords[k])
    ensures Clean(s) == s
  {
    assert TrimStart(s) == s;
    assert TrimEnd(s) == s;
    DeleteAllUnchangedIff(s, IgnoredWords[0]);
    DeleteAllUnchangedIff(s, IgnoredWords[1]);
    DeleteAllUnchangedIff(s, IgnoredWords[2]);
    assert DeleteWords(s, IgnoredWords) == s by {
      assert IgnoredWords[1..][0] == IgnoredWords[1] && IgnoredWords[1..][1..][0] == IgnoredWords[2];
      assert |IgnoredWords[1..][1..][1..]| == 0;
    }
    KeepPlateCharsOfPlateText(s);
    UpperCaseOfPlateChars(s);
  }

  /** A word cannot occur in a text that lacks its first letter. */
  lemma AbsentFirstLetter(s: string, w: Word)
    requires forall i :: 0 <= i < |s| ==> ToUpper(s[i]) != ToUpper(w[0])
    ensures !Occurs(s, w)
  {
    forall i | 0 <= i <= |s| - |w|
      ensures !MatchesAt(s, i, w)
    {
      assert ToUpper(s[i + 0]) != ToUpper(w[0]);
    }
  }

  /** A leading occurrence of the word goes, and the search goes on after it. */
  lemma DeleteLeadingWord(w: Word, s: string)
    ensures DeleteAll(w + s, w) == DeleteAll(s, w)
  {
    StartsWithPrefix(w, s);
    assert (w + s)[|w|..] == s;
  }

  lemma {:induction false} StartsWithPrefix(w: string, s: string)
    ensures StartsWith(w + s, w)
    decreases |w|
  {
    if |w| > 0 {
      assert (w + s)[1..] == w[1..] + s;
      StartsWithPrefix(w[1..], s);
    }
  }

  /** Every character of a plate code is kept by the filter, and the fourth
      is a digit in both formats. */
  lemma PlateCodeChars(p: string)
    requires IsPlateCode(p)
    ensures forall i :: 0 <= i < |p| ==> IsPlateChar(p[i])
    ensures IsDigit(p[3])
  {
    var pattern := if FitsAt(p, 0, NewFormat) then NewFormat else OldFormat;
    assert FitsAt(p, 0, pattern);
    forall i | 0 <= i < |p|
      ensures IsPlateChar(p[i])
    {
      assert InClass(p[0 + i], pattern[i]);
    }
    assert InClass(p[0 + 3], pattern[3]);
  }

  /** A plate code printed after the word BRASIL is read back as the code,
      provided the code does not itself contain the word BR. */
  lemma CodeAfterBrasil(p: string)
    requires IsPlateCode(p) && !Occurs(p, "BR")
    ensures Normalise("BRASIL" + p) == p
  {
    var s := "BRASIL" + p;
    PlateCodeChars(p);
    assert !Occurs(p, "BRASIL") by {
      forall i | 0 <= i <= |p| - 6
        ensures !MatchesAt(p, i, "BRASIL")
      {
        if i == 0 {
          assert ToUpper(p[0 + 3]) != ToUpper("BRASIL"[3]);
        } else {
          assert i == 1;
          assert ToUpper(p[1 + 2]) != ToUpper("BRASIL"[2]);
        }
      }
    }
    assert !Occurs(p, "MERCOSUL");
    CleanOfPlateText(p);
    assert TrimStart(s) == s;
    assert TrimEnd(s) == s by {
      assert s[|s| - 1] == p[6];
    }
    DeleteLeadingWord("BRASIL", p);
    DeleteAllUnchangedIff(p, "BRASIL");
    assert DeleteWords(s, IgnoredWords) == DeleteWords(p, IgnoredWords[1..]);
    assert DeleteWords(p, IgnoredWords) == DeleteWords(p, IgnoredWords[1..]);
    assert Clean(s) == Clean(p);
    assert p[..CodeLength] == p;
  }

  /** The whole normaliser. The result is a plate code cut from the front of
      the cleaned text when that text starts with one, and otherwise the whole
      cleaned text, never padded. */
  function Normalise(raw: string): (r: string)
    ensures forall i :: 0 <= i < |r| ==> IsPlateChar(r[i])
    ensures r <= Clean(raw)
    ensures |Clean(raw)| >= CodeLength && IsPlateCode(Clean(raw)[..CodeLength]) ==> r == Clean(raw)[..CodeLength]
    ensures !(|Clean(raw)| >= CodeLength && IsPlateCode(Clean(raw)[..CodeLength])) ==> r == Clean(raw)
  {
    var c := Clean(raw);
    CleanAlphabet(raw);
    if |c| >= CodeLength then
      var prefix := c[0..CodeLength];
      var isNewFormat := Test(NewFormat, prefix);
      var isOldFormat := Test(OldFormat, prefix);
      TestOnSevenIsFullMatch(prefix);
      if isNewFormat || isOldFormat then prefix else c
    else
      c
  }

  /** The output is either a plate code or the cleaned text itself. */
  lemma NormaliseShape(raw: string)
    ensures var r := Normalise(raw); IsPlateCode(r) || r == Clean(raw)
    ensures Normalise(raw) != Clean(raw) ==> IsPlateCode(Normalise(raw)) && |Clean(raw)| > CodeLength
  {
  }

  /** Nothing is inserted: the output is the raw text with characters deleted. */
  lemma NormaliseIsDeletion(raw: string)
    ensures IsSubsequence(Normalise(raw), raw)
  {
    var c := Clean(raw);
    var r := Normalise(raw);
    CleanIsDeletion(raw);
    assert r == c[..|r|];
    SubsequenceOfPrefix(c, |r|);
    SubsequenceTrans(r, c, raw);
  }

  /** No lower-case letter ever reaches the output, and none is turned into
      an upper-case one either: every character of the output, upper-case
      letters included, occurs in the raw text at least as often. The filter
      runs before upper-casing, so `"abc"` gives the empty text, not `"ABC"`. */
  lemma NormaliseHasNoLowerCase(raw: string)
    ensures forall i :: 0 <= i < |Normalise(raw)| ==> !IsLower(Normalise(raw)[i])
    ensures forall c :: multiset(Normalise(raw))[c] <= multiset(raw)[c]
  {
    NormaliseIsDeletion(raw);
    forall c
      ensures multiset(Normalise(raw))[c] <= multiset(raw)[c]
    {
      SubsequenceCounts(Normalise(raw), raw, c);
    }
  }
}
