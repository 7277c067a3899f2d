/** Wildcard matching with one remembered star: strmatch in kernel/src/stdlib.c and, word for
    word the same, in userspace/programs/system/modprobe/main.cpp. */
module Wildcard {

  /** The meaning of a pattern: `*` stands for any string, `?` for any one character, everything
      else for itself. */
  ghost predicate Matches(pattern: string, text: string)
    decreases |pattern|
  {
    if pattern == "" then text == ""
    else if pattern[0] == '*' then exists k | 0 <= k <= |text| :: Matches(pattern[1..], text[k..])
    else text != "" && (pattern[0] == '?' || pattern[0] == text[0]) && Matches(pattern[1..], text[1..])
  }

  predicate CString(s: string) {
    forall i | 0 <= i < |s| :: s[i] != '\0'
  }

  /** The character a C pointer at offset `i` reads. */
  function At(s: string, i: nat): char {
    if i < |s| then s[i] else '\0'
  }

  /** Some way to match `pattern` from a text position after `from`. */
  ghost predicate MatchesLater(pattern: string, text: string, from: nat) {
    exists k | from < k <= |text| :: Matches(pattern, text[k..])
  }

  predicate NoStar(pattern: string, from: nat, to: nat)
    requires from <= to <= |pattern|
  {
    forall i | from <= i < to :: pattern[i] != '*'
  }

  /** A stretch of the pattern without a star consumes exactly as many characters. */
  lemma {:induction false} ConsumeStretch(pattern: string, text: string, from: nat, to: nat, k: nat)
    requires from <= to <= |pattern| && k <= |text| && NoStar(pattern, from, to)
    requires Matches(pattern[from..], text[k..])
    ensures k + (to - from) <= |text| && Matches(pattern[to..], text[k + (to - from)..])
    decreases |pattern| - from
  {
    if from < to {
      assert pattern[from..][1..] == pattern[from + 1..];
      assert text[k..] != "" && text[k..][1..] == text[k + 1..];
      ConsumeStretch(pattern, text, from + 1, to, k + 1);
    }
  }

  /** A star matches from an earlier position whatever it matches from a later one. */
  lemma StarReachesBack(pattern: string, text: string, i: nat, m: nat)
    requires pattern != "" && pattern[0] == '*' && i <= m <= |text| && Matches(pattern, text[m..])
    ensures Matches(pattern, text[i..])
  {
    var k :| 0 <= k <= |text[m..]| && Matches(pattern[1..], text[m..][k..]);
    assert text[m..][k..] == text[i..][m - i + k..];
  }

  lemma StarSplits(pattern: string, text: string, i: nat)
    requires pattern != "" && pattern[0] == '*' && i <= |text|
    ensures Matches(pattern, text[i..]) <==> Matches(pattern[1..], text[i..]) || MatchesLater(pattern[1..], text, i)
  {
    if Matches(pattern, text[i..]) {
      var k :| 0 <= k <= |text[i..]| && Matches(pattern[1..], text[i..][k..]);
      assert text[i..][k..] == text[i + k..];
      if k == 0 { assert Matches(pattern[1..], text[i..]); }
    }
    if Matches(pattern[1..], text[i..]) { assert text[i..][0..] == text[i..]; }
    if MatchesLater(pattern[1..], text, i) {
      var k :| i < k <= |text| && Matches(pattern[1..], text[k..]);
      assert text[i..][k - i..] == text[k..];
    }
  }

  /** Forgetting an earlier star for a new one loses no match: whatever the earlier star could
      still do, the new one can do. */
  lemma NewStarSubsumesOld(pattern: string, text: string, wild: nat, back: nat, j: nat, i: nat)
    requires wild <= j < |pattern| && pattern[j] == '*' && NoStar(pattern, wild, j)
    requires back + (j - wild) == i <= |text|
    requires MatchesLater(pattern[wild..], text, back)
    ensures Matches(pattern[j..], text[i..])
  {
    var k :| back < k <= |text| && Matches(pattern[wild..], text[k..]);
    ConsumeStretch(pattern, text, wild, j, k);
    StarReachesBack(pattern[j..], text, i, k + (j - wild));
  }

  lemma NoLaterMatchAtEnd(pattern: string, text: string, wild: nat, back: nat, j: nat)
    requires wild <= j <= |pattern| && NoStar(pattern, wild, j) && back + (j - wild) == |text|
    ensures !MatchesLater(pattern[wild..], text, back)
  {
    if MatchesLater(pattern[wild..], text, back) {
      var k :| back < k <= |text| && Matches(pattern[wild..], text[k..]);
      ConsumeStretch(pattern, text, wild, j, k);
    }
  }

  /** The loop invariant: positions `i` and `j`, and the last star (`wild` is -1 if none). The
      text matches exactly if the rest matches here or after giving the last star more. */
  ghost predicate Searching(pattern: string, text: string, i: int, j: int, back: int, wild: int) {
    && 0 <= i <= |text| && 0 <= j <= |pattern| && -1 <= wild <= j
    && (if wild >= 0 then 0 <= back && back + (j - wild) == i && NoStar(pattern, wild, j) else back == 0)
    && (Matches(pattern, text) <==>
        Matches(pattern[j..], text[i..]) || (wild >= 0 && MatchesLater(pattern[wild..], text, back)))
  }

  lemma OnStar(pattern: string, text: string, i: int, j: int, back: int, wild: int)
    requires Searching(pattern, text, i, j, back, wild) && At(pattern, j) == '*'
    ensures Searching(pattern, text, i, j + 1, i, j + 1)
  {
    if wild >= 0 && MatchesLater(pattern[wild..], text, back) { NewStarSubsumesOld(pattern, text, wild, back, j, i); }
    StarSplits(pattern[j..], text, i);
    assert pattern[j..][1..] == pattern[j + 1..];
  }

  lemma OnSame(pattern: string, text: string, i: int, j: int, back: int, wild: int)
    requires Searching(pattern, text, i, j, back, wild) && i < |text| && CString(text)
    requires At(pattern, j) != '*' && (At(pattern, j) == '?' || At(pattern, j) == text[i])
    ensures Searching(pattern, text, i + 1, j + 1, back, wild)
  {
    assert pattern[j..][1..] == pattern[j + 1..] && text[i..][1..] == text[i + 1..];
  }

  lemma AtEnd(pattern: string, text: string, j: int, back: int, wild: int)
    requires Searching(pattern, text, |text|, j, back, wild)
    ensures Matches(pattern, text) <==> Matches(pattern[j..], "")
  {
    if wild >= 0 { NoLaterMatchAtEnd(pattern, text, wild, back, j); }
  }

  /** strmatch terminates and answers 1 exactly when the text matches, although it remembers
      only the last star. */
  method Strmatch(wildcard: string, str: string) returns (result: int)
    requires CString(wildcard) && CString(str)
    ensures result == if Matches(wildcard, str) then 1 else 0
  {
    var i, j := 0, 0;
    var textBackup, wildBackup := 0, -1;
    assert wildcard[0..] == wildcard && str[0..] == str;
    while At(str, i) != '\0'
      invariant Searching(wildcard, str, i, j, textBackup, wildBackup)
      decreases |wildcard| - wildBackup, |str| - textBackup, |str| - i
    {
      if At(wildcard, j) == '*' {
        OnStar(wildcard, str, i, j, textBackup, wildBackup);
        textBackup := i;
        j := j + 1;
        wildBackup := j;
      } else if At(wildcard, j) == '?' || At(wildcard, j) == At(str, i) {
        OnSame(wildcard, str, i, j, textBackup, wildBackup);
        i := i + 1;
        j := j + 1;
      } else {
        if wildBackup < 0 { return 0; }
        textBackup := textBackup + 1;
        i := textBackup;
        j := wildBackup;
      }
    }
    AtEnd(wildcard, str, j, textBackup, wildBackup);
    result := SkipStars(wildcard, j);
  }

  /** The end of strmatch: the text is used up, and only stars may be left of the pattern. */
  method SkipStars(wildcard: string, start: int) returns (result: int)
    requires CString(wildcard) && 0 <= start <= |wildcard|
    ensures result == if Matches(wildcard[start..], "") then 1 else 0
  {
    var j := start;
    while At(wildcard, j) == '*'
      invariant 0 <= j <= |wildcard|
      invariant Matches(wildcard[start..], "") <==> Matches(wildcard[j..], "")
      decreases |wildcard| - j
    {
      assert wildcard[j..][1..] == wildcard[j + 1..] && ""[0..] == "";
      j := j + 1;
    }
    result := if At(wildcard, j) == '\0' then 1 else 0;
  }
}
