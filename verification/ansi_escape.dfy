/** `ansi_escape`: deletes terminal escape sequences from a line of build output.
    Two kinds are recognised, both introduced by ESC (0x1B): the two-character
    ESC Fe sequences of section 5.3 of ECMA-48, and the control sequences of
    section 5.4 of ECMA-48, `ESC [` followed by parameter bytes (0x30-0x3F),
    intermediate bytes (0x20-0x2F) and one final byte (0x40-0x7E). */
module Ansi {

  const ESC: char := '\U{1B}'

  /** A character in the range `lo`..`hi`. */
  predicate InRange(c: char, lo: char, hi: char) {
    lo <= c <= hi
  }

  /** Every character of `s` lies in `lo`..`hi`. */
  predicate AllInRange(s: string, lo: char, hi: char) {
    forall i | 0 <= i < |s| :: InRange(s[i], lo, hi)
  }

  /** The byte after ESC in an ESC Fe sequence: 0x40-0x5A or 0x5C-0x5F (0x5B, `[`,
      introduces a control sequence instead). */
  predicate IsFe(c: char) {
    InRange(c, '@', 'Z') || InRange(c, '\\', '_')
  }

  predicate IsFinal(c: char) {
    InRange(c, '@', '~')
  }

  /** The strings the pattern `\x1B(?:[@-Z\\-_]|\[[0-?]*[ -/]*[@-~])` matches. */
  ghost predicate IsEscapeSequence(t: string) {
    || (|t| == 2 && t[0] == ESC && IsFe(t[1]))
    || (&& |t| >= 3 && t[0] == ESC && t[1] == '[' && IsFinal(t[|t| - 1])
        && exists k :: 2 <= k < |t| && AllInRange(t[2..k], '0', '?') && AllInRange(t[k..|t| - 1], ' ', '/'))
  }

  /** Length of the longest prefix of `s` whose characters lie in `lo`..`hi`. */
  function Span(s: string, lo: char, hi: char): (n: nat)
    ensures n <= |s| && AllInRange(s[..n], lo, hi)
    ensures n < |s| ==> !InRange(s[n], lo, hi)
  {
    if s != [] && InRange(s[0], lo, hi) then
      var n := 1 + Span(s[1..], lo, hi);
      assert s[..n] == [s[0]] + s[1..][..n - 1];
      n
    else
      0
  }

  /** A prefix all in range that stops before an out-of-range character (or at
      the end) is the longest such prefix. */
  lemma {:induction false} SpanUnique(s: string, lo: char, hi: char, m: nat)
    requires m <= |s| && AllInRange(s[..m], lo, hi)
    requires m < |s| ==> !InRange(s[m], lo, hi)
    ensures Span(s, lo, hi) == m
    decreases m
  {
    if m > 0 {
      assert s[..m][0] == s[0];
      assert s[1..][..m - 1] == s[..m][1..];
      SpanUnique(s[1..], lo, hi, m - 1);
    }
  }

  /** Length of the escape sequence that starts `s`, or 0 when none does; the
      regular expression's leftmost alternative is tried first, and the greedy
      repetitions never need to give characters back because the parameter,
      intermediate and final classes are disjoint. */
  function MatchLength(s: string): (n: nat)
    ensures n <= |s|
    ensures n > 0 ==> IsEscapeSequence(s[..n])
  {
    if |s| >= 2 && s[0] == ESC && IsFe(s[1]) then 2
    else if |s| >= 2 && s[0] == ESC && s[1] == '[' then
      var p := Span(s[2..], '0', '?');
      var q := Span(s[2 + p..], ' ', '/');
      if 2 + p + q < |s| && IsFinal(s[2 + p + q]) then
        var t := s[..3 + p + q];
        assert t[2..2 + p] == s[2..][..p];
        assert t[2 + p..|t| - 1] == s[2 + p..][..q];
        3 + p + q
      else
        0
    else
      0
  }

  /** Any prefix of `s` that is an escape sequence is the one `MatchLength`
      finds: the match at a position is unique, and the scan misses none. */
  lemma MatchLengthComplete(s: string, k: nat)
    requires 0 < k <= |s| && IsEscapeSequence(s[..k])
    ensures MatchLength(s) == k
  {
    var t := s[..k];
    if |t| == 2 && t[0] == ESC && IsFe(t[1]) {
    } else {
      var j :| 2 <= j < k && AllInRange(t[2..j], '0', '?') && AllInRange(t[j..k - 1], ' ', '/');
      ControlSequenceFound(s, k, j);
    }
  }

  /** A control sequence of length `k` whose parameter bytes end at `j` is the
      one `MatchLength` finds. */
  lemma ControlSequenceFound(s: string, k: nat, j: nat)
    requires 3 <= k <= |s| && s[0] == ESC && s[1] == '[' && IsFinal(s[k - 1])
    requires 2 <= j < k && AllInRange(s[..k][2..j], '0', '?') && AllInRange(s[..k][j..k - 1], ' ', '/')
    ensures MatchLength(s) == k
  {
    var t := s[..k];
    assert s[2..][..j - 2] == t[2..j];
    assert s[2..][j - 2] == t[j];
    assert !InRange(t[j], '0', '?') by {
      if j < k - 1 {
        assert t[j..k - 1][0] == t[j];
      }
    }
    SpanUnique(s[2..], '0', '?', j - 2);
    assert s[j..][..k - 1 - j] == t[j..k - 1];
    assert s[j..][k - 1 - j] == t[k - 1];
    SpanUnique(s[j..], ' ', '/', k - 1 - j);
  }

  /** `ansi_escape_rx.sub("", text)`: a left-to-right scan that deletes each
      escape sequence it meets and keeps every other character. */
  function AnsiEscape(s: string): (r: string)
    ensures |r| <= |s|
    ensures IsSubsequence(r, s)
    ensures ESC !in s ==> r == s
    decreases |s|
  {
    if s == [] then []
    else
      var n := MatchLength(s);
      if n > 0 then
        var r := AnsiEscape(s[n..]);
        SubsequenceOfSuffix(r, s, n);
        r
      else
        [s[0]] + AnsiEscape(s[1..])
  }

  /** `r` can be obtained from `s` by deleting characters. */
  ghost predicate IsSubsequence(r: string, s: string)
    decreases |s|
  {
    if r == [] then true
    else if s == [] then false
    else (r[0] == s[0] && IsSubsequence(r[1..], s[1..])) || IsSubsequence(r, s[1..])
  }

  lemma {:induction false} SubsequenceOfSuffix(r: string, s: string, n: nat)
    requires n <= |s| && IsSubsequence(r, s[n..])
    ensures IsSubsequence(r, s)
    decreases n
  {
    if n > 0 {
      assert s[1..][n - 1..] == s[n..];
      SubsequenceOfSuffix(r, s[1..], n - 1);
    }
  }

  /** An escape sequence at the front of the text is deleted whole. */
  lemma EscapeSequenceDeleted(t: string, rest: string)
    requires IsEscapeSequence(t)
    ensures AnsiEscape(t + rest) == AnsiEscape(rest)
  {
    assert (t + rest)[..|t|] == t;
    MatchLengthComplete(t + rest, |t|);
    assert (t + rest)[|t|..] == rest;
  }

  /** A character other than ESC is always kept. */
  lemma OtherCharacterKept(c: char, rest: string)
    requires c != ESC
    ensures AnsiEscape([c] + rest) == [c] + AnsiEscape(rest)
  {
    assert ([c] + rest)[1..] == rest;
  }

  /** An ESC that does not begin an escape sequence is kept too. */
  lemma LoneEscapeKept(rest: string)
    requires forall k | 0 < k <= |rest| + 1 :: !IsEscapeSequence(([ESC] + rest)[..k])
    ensures AnsiEscape([ESC] + rest) == [ESC] + AnsiEscape(rest)
  {
    var s := [ESC] + rest;
    assert s[1..] == rest;
    if MatchLength(s) > 0 {
      assert false;
    }
  }
}
