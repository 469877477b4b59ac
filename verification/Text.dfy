/** Characters and words, as the two query languages and their lexers share them. */
module Text {
  predicate IsIdentStart(c: char) {
    'a' <= c <= 'z' || 'A' <= c <= 'Z' || c == '_'
  }

  predicate IsDigit(c: char) {
    '0' <= c <= '9'
  }

  predicate IsIdentPart(c: char) {
    IsIdentStart(c) || IsDigit(c)
  }

  // unicode.IsSpace
  predicate IsSpace(c: char) {
    || '\t' <= c <= '\r' || c == ' ' || c == '\U{0085}' || c == '\U{00A0}' || c == '\U{1680}'
    || '\U{2000}' <= c <= '\U{200A}' || c == '\U{2028}' || c == '\U{2029}' || c == '\U{202F}'
    || c == '\U{205F}' || c == '\U{3000}'
  }

  // Unicode's white space, and the characters of ASCII identifiers and numbers.
  const WHITE_SPACE: set<int> := {
    0x9, 0xA, 0xB, 0xC, 0xD, 0x20, 0x85, 0xA0, 0x1680, 0x2000, 0x2001, 0x2002, 0x2003, 0x2004, 0x2005, 0x2006,
    0x2007, 0x2008, 0x2009, 0x200A, 0x2028, 0x2029, 0x202F, 0x205F, 0x3000}

  const SMALL_LETTERS: string := "abcdefghijklmnopqrstuvwxyz"

  const CAPITAL_LETTERS: string := "ABCDEFGHIJKLMNOPQRSTUVWXYZ"

  const NUMERALS: string := "0123456789"

  /** The character classes, character by character. */
  lemma {:induction false} CharacterClasses(c: char)
    ensures IsSpace(c) <==> c as int in WHITE_SPACE
    ensures IsIdentStart(c) <==> c in SMALL_LETTERS || c in CAPITAL_LETTERS || c == '_'
    ensures IsDigit(c) <==> c in NUMERALS
  {
    SpaceClass(c);
    LowerClass(c);
    UpperClass(c);
    DigitClass(c);
  }

  lemma {:induction false} SpaceClass(c: char)
    ensures IsSpace(c) <==> c as int in WHITE_SPACE
  {
  }

  lemma {:induction false} LowerClass(c: char)
    ensures 'a' <= c <= 'z' <==> c in SMALL_LETTERS
  {
    assert forall i :: 0 <= i < 26 ==> SMALL_LETTERS[i] as int == 'a' as int + i;
    if 'a' <= c <= 'z' {
      assert SMALL_LETTERS[c as int - 'a' as int] == c;
    }
  }

  lemma {:induction false} UpperClass(c: char)
    ensures 'A' <= c <= 'Z' <==> c in CAPITAL_LETTERS
  {
    assert forall i :: 0 <= i < 26 ==> CAPITAL_LETTERS[i] as int == 'A' as int + i;
    if 'A' <= c <= 'Z' {
      assert CAPITAL_LETTERS[c as int - 'A' as int] == c;
    }
  }

  lemma {:induction false} DigitClass(c: char)
    ensures '0' <= c <= '9' <==> c in NUMERALS
  {
    assert forall i :: 0 <= i < 10 ==> NUMERALS[i] as int == '0' as int + i;
    if '0' <= c <= '9' {
      assert NUMERALS[c as int - '0' as int] == c;
    }
  }

  /** Words of a text: the maximal runs of characters that are no separators. */
  function Fields(s: string, isSeparator: char -> bool): seq<string>
    decreases |s|
  {
    if s == "" then []
    else if isSeparator(s[0]) then Fields(s[1..], isSeparator)
    else
      var n := WordLength(s, isSeparator);
      [s[..n]] + Fields(s[n..], isSeparator)
  }

  function WordLength(s: string, isSeparator: char -> bool): (n: nat)
    ensures n <= |s| && forall i :: 0 <= i < n ==> !isSeparator(s[i])
    ensures n < |s| ==> isSeparator(s[n])
    ensures s != "" && !isSeparator(s[0]) ==> n > 0
  {
    if s == "" || isSeparator(s[0]) then 0 else 1 + WordLength(s[1..], isSeparator)
  }

  // A maximal run of characters that are no separators, from i to j.
  ghost predicate IsRun(s: string, i: nat, j: nat, isSeparator: char -> bool) {
    && i < j <= |s| && (forall k :: i <= k < j ==> !isSeparator(s[k]))
    && (i == 0 || isSeparator(s[i - 1])) && (j == |s| || isSeparator(s[j]))
  }

  ghost predicate WordIn(s: string, word: string, isSeparator: char -> bool) {
    exists i: nat, j: nat :: IsRun(s, i, j, isSeparator) && word == s[i..j]
  }

  lemma {:induction false} RunShifts(s: string, n: nat, i: nat, j: nat, isSeparator: char -> bool)
    requires n < |s| && isSeparator(s[n])
    ensures IsRun(s[n + 1..], i, j, isSeparator) <==> IsRun(s, i + n + 1, j + n + 1, isSeparator)
    ensures i <= j <= |s| - n - 1 ==> s[n + 1..][i..j] == s[i + n + 1..j + n + 1]
  {
    var rest := s[n + 1..];
    assert forall k :: 0 <= k < |rest| ==> rest[k] == s[k + n + 1];
    if IsRun(s, i + n + 1, j + n + 1, isSeparator) {
      forall k | i <= k < j ensures !isSeparator(rest[k]) {
        assert !isSeparator(s[k + n + 1]);
      }
    }
  }

  lemma {:induction false} RunsAfter(s: string, n: nat, word: string, isSeparator: char -> bool)
    requires n < |s| && isSeparator(s[n])
    ensures WordIn(s[n + 1..], word, isSeparator)
       <==> exists i: nat, j: nat :: n < i && IsRun(s, i, j, isSeparator) && word == s[i..j]
  {
    hide IsRun;
    RunBounds(s, isSeparator);
    var rest := s[n + 1..];
    RunBounds(rest, isSeparator);
    if WordIn(rest, word, isSeparator) {
      var i: nat, j: nat :| IsRun(rest, i, j, isSeparator) && word == rest[i..j];
      RunShifts(s, n, i, j, isSeparator);
      var k, m: nat := i + n + 1, j + n + 1;
      assert n < k && IsRun(s, k, m, isSeparator) && word == s[k..m];
    }
    if i: nat, j: nat :| n < i && IsRun(s, i, j, isSeparator) && word == s[i..j] {
      var k: nat, m: nat := i - n - 1, j - n - 1;
      RunShifts(s, n, k, m, isSeparator);
      assert IsRun(rest, k, m, isSeparator) && word == rest[k..m];
    }
  }

  lemma {:induction false} RunBounds(s: string, isSeparator: char -> bool)
    ensures forall i: nat, j: nat :: IsRun(s, i, j, isSeparator) ==> i < j <= |s|
  {
  }

  /** The fields of a text are exactly its maximal runs. */
  lemma {:induction false} FieldsAreRuns(s: string, isSeparator: char -> bool)
    ensures forall word :: word in Fields(s, isSeparator) <==> WordIn(s, word, isSeparator)
    decreases |s|
  {
    if s != "" {
      var n := WordLength(s, isSeparator);
      forall word ensures word in Fields(s, isSeparator) <==> WordIn(s, word, isSeparator) {
        if n == |s| {
          assert Fields(s[n..], isSeparator) == [] && s[..n] == s[0..n];
          assert IsRun(s, 0, n, isSeparator);
        } else {
          FieldsAreRuns(s[n + 1..], isSeparator);
          RunsAfter(s, n, word, isSeparator);
          FieldsSkip(s, isSeparator);
          if n > 0 {
            assert IsRun(s, 0, n, isSeparator) && s[..n] == s[0..n];
          }
        }
      }
    }
  }

  lemma {:induction false} FieldsSkip(s: string, isSeparator: char -> bool)
    requires WordLength(s, isSeparator) < |s|
    ensures var n := WordLength(s, isSeparator);
      Fields(s, isSeparator) == (if n == 0 then [] else [s[..n]]) + Fields(s[n + 1..], isSeparator)
  {
    var n := WordLength(s, isSeparator);
    assert isSeparator(s[n..][0]) && s[n..][1..] == s[n + 1..];
    assert [] + Fields(s[n + 1..], isSeparator) == Fields(s[n + 1..], isSeparator);
  }
}
