/** The Python `str` operations the build-output parser relies on, written out on
    `seq<char>`: whitespace stripping and splitting, separator splits, `replace`,
    slicing past the end, `"".join` and `int()` of a decimal literal. */
module PyStr {

  datatype Option<+T> = None | Some(value: T)

  /** Python's whitespace class (`str.isspace`), which `split()` and `strip()` use. */
  predicate IsSpace(c: char) {
    || c == ' '
    || ('\t' <= c <= '\r')
    || ('\U{1C}' <= c <= '\U{1F}')
    || c == '\U{85}' || c == '\U{A0}' || c == '\U{1680}'
    || ('\U{2000}' <= c <= '\U{200A}')
    || c == '\U{2028}' || c == '\U{2029}' || c == '\U{202F}' || c == '\U{205F}' || c == '\U{3000}'
  }

  predicate AllSpace(s: string) {
    forall i | 0 <= i < |s| :: IsSpace(s[i])
  }

  predicate NoSpace(s: string) {
    forall i | 0 <= i < |s| :: !IsSpace(s[i])
  }

  /** Neither end of `s` is whitespace: what `strip()` leaves behind. */
  predicate Trimmed(s: string) {
    s == [] || (!IsSpace(s[0]) && !IsSpace(s[|s| - 1]))
  }

  /** `s.startswith(p)` */
  predicate StartsWith(s: string, p: string) {
    |p| <= |s| && s[..|p|] == p
  }

  lemma StartsWithTrans(a: string, b: string, c: string)
    requires StartsWith(a, b) && StartsWith(b, c)
    ensures StartsWith(a, c)
  {
    assert a[..|c|] == a[..|b|][..|c|];
  }

  /** `s.lstrip()` */
  function StripLeft(s: string): (r: string)
    ensures |r| <= |s| && r == s[|s| - |r|..]
    ensures AllSpace(s[..|s| - |r|])
    ensures r == [] || !IsSpace(r[0])
  {
    if s != [] && IsSpace(s[0]) then
      var r := StripLeft(s[1..]);
      var k := |s| - |r|;
      assert s[1..][k - 1..] == s[k..];
      assert s[..k] == [s[0]] + s[1..][..k - 1];
      r
    else
      s
  }

  /** `s.rstrip()` */
  function StripRight(s: string): (r: string)
    ensures |r| <= |s| && r == s[..|r|]
    ensures AllSpace(s[|r|..])
    ensures r == [] || !IsSpace(r[|r| - 1])
  {
    if s != [] && IsSpace(s[|s| - 1]) then
      var r := StripRight(s[..|s| - 1]);
      assert s[|r|..] == s[..|s| - 1][|r|..] + [s[|s| - 1]];
      r
    else
      s
  }

  /** `s.strip()`: empty exactly when `s` is all whitespace; a string with no
      whitespace margin comes back unchanged. */
  function Strip(s: string): (r: string)
    ensures Trimmed(r)
    ensures |r| <= |s|
    ensures r == [] <==> AllSpace(s)
    ensures Trimmed(s) ==> r == s
  {
    var l := StripLeft(s);
    var r := StripRight(l);
    StripEnds(s, l, r);
    r
  }

  /** `lstrip` then `rstrip` leave a trimmed string, empty exactly when `s` is all
      whitespace, and all of `s` when `s` is already trimmed. */
  lemma StripEnds(s: string, l: string, r: string)
    requires |l| <= |s| && l == s[|s| - |l|..] && AllSpace(s[..|s| - |l|]) && (l == [] || !IsSpace(l[0]))
    requires |r| <= |l| && r == l[..|r|] && AllSpace(l[|r|..]) && (r == [] || !IsSpace(r[|r| - 1]))
    ensures Trimmed(r) && |r| <= |s|
    ensures r == [] <==> AllSpace(s)
    ensures Trimmed(s) ==> r == s
  {
    StripPieces(s, l, r);
    MarginFacts(s, |s| - |l|, |r|);
  }

  /** What `lstrip` then `rstrip` keep, as a slice of `s` between two runs of
      whitespace, with a non-whitespace character at each end of the slice. */
  lemma StripPieces(s: string, l: string, r: string)
    requires |l| <= |s| && l == s[|s| - |l|..] && AllSpace(s[..|s| - |l|]) && (l == [] || !IsSpace(l[0]))
    requires |r| <= |l| && r == l[..|r|] && AllSpace(l[|r|..]) && (r == [] || !IsSpace(r[|r| - 1]))
    ensures var k := |s| - |l|;
      && k + |r| <= |s| && r == s[k..k + |r|]
      && AllSpace(s[..k]) && AllSpace(s[k + |r|..])
      && (k < |s| ==> !IsSpace(s[k]))
      && (|r| > 0 ==> !IsSpace(s[k + |r| - 1]))
  {
    var k := |s| - |l|;
    assert s[k..][..|r|] == s[k..k + |r|];
    assert l[|r|..] == s[k + |r|..];
    if k < |s| {
      assert l[0] == s[k];
    }
    if |r| > 0 {
      assert r[|r| - 1] == s[k + |r| - 1];
    }
  }

  /** A slice `s[k..k + n]` between two whitespace margins, whose ends are not
      whitespace, is trimmed; it is empty exactly when `s` is all whitespace,
      and it is all of `s` when `s` is itself trimmed. */
  lemma MarginFacts(s: string, k: nat, n: nat)
    requires k + n <= |s| && AllSpace(s[..k]) && AllSpace(s[k + n..])
    requires k < |s| ==> !IsSpace(s[k])
    requires n > 0 ==> !IsSpace(s[k + n - 1])
    ensures Trimmed(s[k..k + n])
    ensures n == 0 <==> AllSpace(s)
    ensures Trimmed(s) ==> s[k..k + n] == s
  {
    SpacePrefixFirst(s, k);
    SpaceSuffixLast(s, k + n);
    if n == 0 {
      assert s == s[..k] + s[k..];
    } else {
      assert s[k..k + n][0] == s[k];
      assert s[k..k + n][n - 1] == s[k + n - 1];
    }
    assert k == 0 && k + n == |s| ==> s[k..k + n] == s;
  }

  /** A non-empty all-whitespace prefix puts whitespace at the start of the string. */
  lemma SpacePrefixFirst(s: string, k: nat)
    requires k <= |s| && AllSpace(s[..k])
    ensures k > 0 ==> IsSpace(s[0])
  {
    if k > 0 {
      assert s[..k][0] == s[0];
    }
  }

  /** `r` is a slice of `s` with nothing but whitespace on either side of it. */
  ghost predicate IsMiddle(s: string, r: string) {
    exists i :: 0 <= i <= |s| - |r| && r == s[i..i + |r|] && AllSpace(s[..i]) && AllSpace(s[i + |r|..])
  }

  /** What `strip()` keeps is the middle of `s` between two whitespace margins. */
  lemma StripMargins(s: string)
    ensures IsMiddle(s, Strip(s))
  {
    LeftRightMargins(s);
  }

  lemma LeftRightMargins(s: string)
    ensures IsMiddle(s, StripRight(StripLeft(s)))
  {
    var l := StripLeft(s);
    var r := StripRight(l);
    MiddleOfPieces(s, l, r);
  }

  lemma MiddleOfPieces(s: string, l: string, r: string)
    requires |l| <= |s| && l == s[|s| - |l|..] && AllSpace(s[..|s| - |l|]) && (l == [] || !IsSpace(l[0]))
    requires |r| <= |l| && r == l[..|r|] && AllSpace(l[|r|..]) && (r == [] || !IsSpace(r[|r| - 1]))
    ensures IsMiddle(s, r)
  {
    StripPieces(s, l, r);
    MiddleSlice(s, r, |s| - |l|);
  }

  lemma MiddleSlice(s: string, r: string, i: nat)
    requires i + |r| <= |s| && r == s[i..i + |r|] && AllSpace(s[..i]) && AllSpace(s[i + |r|..])
    ensures IsMiddle(s, r)
  {
  }

  /** The longest whitespace-free prefix of `s`. */
  function Token(s: string): (w: string)
    ensures StartsWith(s, w) && NoSpace(w)
    ensures |w| < |s| ==> IsSpace(s[|w|])
    ensures s != [] && !IsSpace(s[0]) ==> w != []
    ensures NoSpace(s) ==> w == s
  {
    if s == [] || IsSpace(s[0]) then [] else [s[0]] + Token(s[1..])
  }

  /** A non-empty run of non-whitespace characters. */
  predicate IsWord(w: string) {
    w != [] && NoSpace(w)
  }

  /** `s.split()`: the maximal runs of non-whitespace characters, in order. */
  function Words(s: string): (ws: seq<string>)
    decreases |s|
  {
    var t := StripLeft(s);
    if t == [] then []
    else
      var w := Token(t);
      assert w != [];
      [w] + Words(t[|w|..])
  }

  /** Every part `split()` gives is a word. */
  lemma {:induction false} WordsAreWords(s: string, i: nat)
    requires i < |Words(s)|
    ensures IsWord(Words(s)[i])
    decreases |s|
  {
    var t := StripLeft(s);
    var w := Token(t);
    var ws := Words(t[|w|..]);
    if i > 0 {
      assert Words(s)[i] == ws[i - 1];
      WordsAreWords(t[|w|..], i - 1);
    } else {
      assert Words(s)[0] == w;
    }
  }

  /** A string of whitespace only has no words. */
  lemma WordsOfSpace(s: string)
    requires AllSpace(s)
    ensures Words(s) == []
  {
    StripLeftOfGap(s, []);
    assert s + [] == s;
  }

  /** Whitespace, then a word that runs up to whitespace or the end: `split()`
      gives that word first, then the words of what follows it. */
  lemma WordsCons(gap: string, w: string, rest: string)
    requires AllSpace(gap) && IsWord(w) && (rest == [] || IsSpace(rest[0]))
    ensures Words(gap + w + rest) == [w] + Words(rest)
  {
    var s := gap + w + rest;
    AppendAssoc(gap, w, rest);
    StripLeftOfGap(gap, w + rest);
    TokenOfWord(w, rest);
    assert (w + rest)[|w|..] == rest;
  }

  /** `s.split(maxsplit=1)`: the first word and, when more text follows it, that
      text with its leading whitespace removed (trailing whitespace is kept). */
  function SplitOnce(s: string): (parts: seq<string>)
    ensures |parts| <= 2
    ensures |parts| >= 1 ==> parts[0] != [] && NoSpace(parts[0])
    ensures |parts| == 2 ==> parts[1] != [] && !IsSpace(parts[1][0])
  {
    var t := StripLeft(s);
    if t == [] then []
    else
      var w := Token(t);
      assert w != [];
      var rest := StripLeft(t[|w|..]);
      if rest == [] then [w] else [w, rest]
  }

  /** A non-empty all-whitespace suffix puts whitespace at the end of the string. */
  lemma SpaceSuffixLast(s: string, k: nat)
    requires k <= |s| && AllSpace(s[k..])
    ensures k < |s| ==> IsSpace(s[|s| - 1])
  {
    if k < |s| {
      assert s[k..][|s| - 1 - k] == s[|s| - 1];
    }
  }

  /** `split(maxsplit=1)` of a string that does not start with whitespace: its
      token and what follows the token, left-stripped. */
  lemma SplitOnceOfUnstripped(s: string)
    requires s != [] && !IsSpace(s[0])
    ensures var w := Token(s); var rest := StripLeft(s[|w|..]);
      SplitOnce(s) == if rest == [] then [w] else [w, rest]
  {
    assert StripLeft(s) == s;
  }

  /** On a stripped string, `split(maxsplit=1)` gives one part, the string
      itself, exactly when the string holds no whitespace. */
  lemma SplitOnceWhole(s: string)
    requires s != [] && Trimmed(s)
    ensures |SplitOnce(s)| != 2 <==> NoSpace(s)
    ensures NoSpace(s) ==> SplitOnce(s) == [s]
  {
    SplitOnceOfUnstripped(s);
    var w := Token(s);
    if StripLeft(s[|w|..]) == [] {
      TokenIsWhole(s);
    } else {
      assert IsSpace(s[|w|]);
    }
  }

  /** On a stripped string, a token followed only by whitespace is the whole string. */
  lemma TokenIsWhole(s: string)
    requires s != [] && Trimmed(s) && StripLeft(s[|Token(s)|..]) == []
    ensures Token(s) == s
  {
    var w := Token(s);
    var after := s[|w|..];
    assert AllSpace(after) by { assert after[..|after|] == after; }
    TrimmedPrefix(s, w);
  }

  /** A prefix of a trimmed string followed only by whitespace is all of it. */
  lemma TrimmedPrefix(s: string, w: string)
    requires s != [] && Trimmed(s) && StartsWith(s, w) && AllSpace(s[|w|..])
    ensures w == s
  {
    SpaceSuffixLast(s, |w|);
    assert s[..|s|] == s;
  }

  /** When `split(maxsplit=1)` gives two parts of a string that does not start
      with whitespace, the string is the first part, a run of whitespace and the
      second part, in that order. */
  lemma SplitOnceRejoin(s: string)
    requires s != [] && !IsSpace(s[0]) && |SplitOnce(s)| == 2
    ensures exists gap :: gap != [] && AllSpace(gap) && s == SplitOnce(s)[0] + gap + SplitOnce(s)[1]
  {
    var w := Token(s);
    var after := s[|w|..];
    var rest := StripLeft(after);
    assert SplitOnce(s) == [w, rest] by {
      assert StripLeft(s) == s;
    }
    var gap := after[..|after| - |rest|];
    GapBetween(s, |w|, |after| - |rest|);
    assert s == SplitOnce(s)[0] + gap + SplitOnce(s)[1];
  }

  /** A string cut at `i` and, after `i`, at `k` more characters, where the
      first character after `i` is whitespace and the one after the `k`
      characters is not: the middle piece is not empty. */
  lemma GapBetween(s: string, i: nat, k: nat)
    requires i + k < |s| && IsSpace(s[i]) && !IsSpace(s[i + k])
    ensures var after := s[i..]; k > 0 && s == s[..i] + after[..k] + after[k..]
  {
    var after := s[i..];
    assert after == after[..k] + after[k..];
  }

  /** A space-free word followed by a space (or nothing) is the token. */
  lemma {:induction false} TokenOfWord(w: string, t: string)
    requires NoSpace(w) && (t == [] || IsSpace(t[0]))
    ensures Token(w + t) == w
    decreases |w|
  {
    if w != [] {
      assert (w + t)[1..] == w[1..] + t;
      TokenOfWord(w[1..], t);
    }
  }

  /** Leading spaces in front of a text that starts with a non-space are what
      `lstrip` removes. */
  lemma {:induction false} StripLeftOfGap(gap: string, t: string)
    requires AllSpace(gap) && (t == [] || !IsSpace(t[0]))
    ensures StripLeft(gap + t) == t
    decreases |gap|
  {
    if gap != [] {
      assert (gap + t)[1..] == gap[1..] + t;
      StripLeftOfGap(gap[1..], t);
    }
  }

  /** The converse of `SplitOnceRejoin`: a word, a run of spaces and a text that
      starts with a non-space split into the word and the text. */
  lemma SplitOnceOf(w: string, gap: string, rest: string)
    requires w != [] && NoSpace(w) && gap != [] && AllSpace(gap) && rest != [] && !IsSpace(rest[0])
    ensures SplitOnce(w + gap + rest) == [w, rest]
  {
    var s := w + gap + rest;
    assert s == w + (gap + rest);
    StripLeftOfGap([], s);
    assert [] + s == s;
    TokenOfWord(w, gap + rest);
    assert s[|w|..] == gap + rest;
    StripLeftOfGap(gap, rest);
  }

  /** `s.split(c, maxsplit=1)` / `s.partition(c)` on a one-character separator:
      the text before and after the first `c`, or `None` when `c` does not occur. */
  function SplitFirst(s: string, c: char): (r: Option<(string, string)>)
    ensures r.None? <==> c !in s
    ensures r.Some? ==> s == r.value.0 + [c] + r.value.1 && c !in r.value.0
  {
    if s == [] then None
    else if s[0] == c then Some(([], s[1..]))
    else
      match SplitFirst(s[1..], c)
      case None => None
      case Some(pair) => Some(([s[0]] + pair.0, pair.1))
  }

  /** `s.partition(c)[2]`: the text after the first `c`, empty when there is none. */
  function AfterFirst(s: string, c: char): (t: string)
    ensures c !in s ==> t == []
    ensures c in s ==>
      |t| < |s| && s[|s| - |t| - 1] == c && s[|s| - |t|..] == t && c !in s[..|s| - |t| - 1]
  {
    match SplitFirst(s, c)
    case None => []
    case Some(parts) =>
      var before := parts.0;
      assert s[..|before|] == before && s[|before|] == c && s[|before| + 1..] == parts.1;
      parts.1
  }

  /** `s.split(sep)`: cut `s` at every non-overlapping occurrence of `sep`,
      scanning left to right. */
  function SplitOn(s: string, sep: string): (parts: seq<string>)
    requires sep != []
    ensures parts != []
    decreases |s|
  {
    if StartsWith(s, sep) then [[]] + SplitOn(s[|sep|..], sep)
    else if s == [] then [[]]
    else
      var p := SplitOn(s[1..], sep);
      [[s[0]] + p[0]] + p[1..]
  }

  /** `sep.join(parts)` */
  function JoinWith(parts: seq<string>, sep: string): string {
    if parts == [] then []
    else if |parts| == 1 then parts[0]
    else parts[0] + sep + JoinWith(parts[1..], sep)
  }

  /** `"".join(x + p)` is `x` followed by `"".join(p)`. */
  lemma JoinNoSeparatorCons(x: string, p: seq<string>)
    ensures JoinWith([x] + p, []) == x + JoinWith(p, [])
  {
    ConsParts(x, p);
    if p == [] {
      assert x + [] == x;
    }
  }

  /** `"".join` of two lists concatenated is the two joins concatenated. */
  lemma {:induction false} JoinNoSeparatorAppend(a: seq<string>, b: seq<string>)
    ensures JoinWith(a + b, []) == JoinWith(a, []) + JoinWith(b, [])
    decreases |a|
  {
    if a == [] {
      assert a + b == b;
    } else {
      JoinNoSeparatorAppend(a[1..], b);
      JoinNoSeparatorCons(a[0], a[1..] + b);
      JoinNoSeparatorCons(a[0], a[1..]);
      AppendAssoc([a[0]], a[1..], b);
      assert [a[0]] + a[1..] == a;
      AppendAssoc(a[0], JoinWith(a[1..], []), JoinWith(b, []));
    }
  }

  /** `s.replace(pat, rep)` for a non-empty `pat`. */
  function Replace(s: string, pat: string, rep: string): string
    requires pat != []
    decreases |s|
  {
    if StartsWith(s, pat) then rep + Replace(s[|pat|..], pat, rep)
    else if s == [] then []
    else [s[0]] + Replace(s[1..], pat, rep)
  }

  /** `pat in s` */
  predicate Occurs(s: string, pat: string) {
    exists i | 0 <= i <= |s| :: StartsWith(s[i..], pat)
  }

  /** With no occurrence of `pat`, `replace` leaves the string as it is. */
  lemma {:induction false} ReplaceAbsent(s: string, pat: string, rep: string)
    requires pat != [] && !Occurs(s, pat)
    ensures Replace(s, pat, rep) == s
    decreases |s|
  {
    assert !StartsWith(s[0..], pat) && s[0..] == s;
    if s != [] {
      AbsentFromTail(s, pat);
      ReplaceAbsent(s[1..], pat, rep);
    }
  }

  lemma AbsentFromTail(s: string, pat: string)
    requires s != [] && !Occurs(s, pat)
    ensures !Occurs(s[1..], pat)
  {
    forall i | 0 <= i <= |s[1..]| ensures !StartsWith(s[1..][i..], pat) {
      assert s[1..][i..] == s[i + 1..];
    }
  }

  /** With no occurrence of `sep`, `s.split(sep)` is `[s]`. */
  lemma {:induction false} SplitOnAbsent(s: string, sep: string)
    requires sep != [] && !Occurs(s, sep)
    ensures SplitOn(s, sep) == [s]
    decreases |s|
  {
    assert !StartsWith(s[0..], sep) && s[0..] == s;
    if s != [] {
      AbsentFromTail(s, sep);
      SplitOnAbsent(s[1..], sep);
      assert [s[0]] + s[1..] == s;
    }
  }

  /** The first occurrence of `pat` in `s` starts at `i`. */
  predicate FirstAt(s: string, pat: string, i: nat) {
    && i + |pat| <= |s| && StartsWith(s[i..], pat)
    && forall j {:trigger StartsWith(s[j..], pat)} | 0 <= j < i :: !StartsWith(s[j..], pat)
  }

  /** Moving past the first character of a string whose first occurrence of
      `pat` is not at its start. */
  lemma FirstAtTail(s: string, pat: string, i: nat)
    requires i > 0 && FirstAt(s, pat, i)
    ensures FirstAt(s[1..], pat, i - 1) && !StartsWith(s, pat)
    ensures s[1..][i - 1 + |pat|..] == s[i + |pat|..]
  {
    assert s[0..] == s;
    assert s[1..][i - 1..] == s[i..];
    forall j | 0 <= j < i - 1 ensures !StartsWith(s[1..][j..], pat) {
      assert s[1..][j..] == s[j + 1..];
    }
  }

  /** `s.split(sep)` cuts at the first occurrence of `sep`, then splits the rest:
      the pieces are the text between successive non-overlapping occurrences,
      found left to right. */
  lemma {:induction false} SplitOnFirst(s: string, sep: string, i: nat)
    requires sep != [] && FirstAt(s, sep, i)
    ensures SplitOn(s, sep) == [s[..i]] + SplitOn(s[i + |sep|..], sep)
    decreases i
  {
    if i == 0 {
      FirstAtStart(s, sep);
      SplitOnAtStart(s, sep);
    } else {
      var t := s[1..];
      assert !StartsWith(s, sep) && SplitOn(t, sep) == [t[..i - 1]] + SplitOn(t[i - 1 + |sep|..], sep) by {
        FirstAtTail(s, sep, i);
        SplitOnFirst(t, sep, i - 1);
      }
      SplitOnPastFirst(s, sep, i);
    }
  }

  /** Putting `x` in front of `a + b + c` regroups as `([x] + a) + b + c`. */
  lemma ConsRegroup<T>(r: seq<T>, x: T, r': seq<T>, a: seq<T>, b: seq<T>, c: seq<T>, p: seq<T>)
    requires r == [x] + r' && r' == a + b + c && p == [x] + a
    ensures r == p + b + c
  {
  }

  /** `s[:i]` is the first character followed by `s[1:i]`. */
  lemma ConsSlice<T>(s: seq<T>, i: nat)
    requires 0 < i <= |s|
    ensures [s[0]] + s[1..][..i - 1] == s[..i]
  {
  }

  lemma FirstAtStart(s: string, pat: string)
    requires FirstAt(s, pat, 0)
    ensures StartsWith(s, pat)
  {
    assert s[0..] == s;
  }

  /** `split` at an occurrence at the start gives an empty first piece. */
  lemma SplitOnAtStart(s: string, sep: string)
    requires sep != [] && StartsWith(s, sep)
    ensures SplitOn(s, sep) == [s[..0]] + SplitOn(s[0 + |sep|..], sep)
  {
    assert s[..0] == [];
  }

  /** `replace` at an occurrence at the start puts `rep` first. */
  lemma ReplaceAtStart(s: string, pat: string, rep: string)
    requires pat != [] && StartsWith(s, pat)
    ensures Replace(s, pat, rep) == s[..0] + rep + Replace(s[0 + |pat|..], pat, rep)
  {
    assert s[..0] + rep == rep;
  }

  /** `replace` keeps a first character where no occurrence starts. */
  lemma ReplaceStep(s: string, pat: string, rep: string)
    requires pat != [] && s != [] && !StartsWith(s, pat)
    ensures Replace(s, pat, rep) == [s[0]] + Replace(s[1..], pat, rep)
  {
  }

  /** `split` adds a first character where no occurrence starts to the first piece. */
  lemma SplitOnStep(s: string, sep: string)
    requires sep != [] && s != [] && !StartsWith(s, sep)
    ensures var p := SplitOn(s[1..], sep); SplitOn(s, sep) == [[s[0]] + p[0]] + p[1..]
  {
  }

  /** One step of `SplitOnFirst`: a first character where no occurrence starts
      joins the first piece of the split of the rest. */
  lemma SplitOnPastFirst(s: string, sep: string, i: nat)
    requires sep != [] && 0 < i && i + |sep| <= |s| && !StartsWith(s, sep)
    requires SplitOn(s[1..], sep) == [s[1..][..i - 1]] + SplitOn(s[1..][i - 1 + |sep|..], sep)
    ensures SplitOn(s, sep) == [s[..i]] + SplitOn(s[i + |sep|..], sep)
  {
    var t := s[1..];
    assert t[i - 1 + |sep|..] == s[i + |sep|..];
    SplitOnStep(s, sep);
    ConsSlice(s, i);
    HeadJoined(SplitOn(s, sep), s[0], SplitOn(t, sep), t[..i - 1], SplitOn(s[i + |sep|..], sep), s[..i]);
  }

  /** A list whose first element gained a prefix `x`, when the old list was
      `[a] + rest`, is `[[x] + a] + rest`. */
  lemma HeadJoined<T>(r: seq<seq<T>>, x: T, p: seq<seq<T>>, a: seq<T>, rest: seq<seq<T>>, h: seq<T>)
    requires p == [a] + rest && r == [[x] + p[0]] + p[1..] && h == [x] + a
    ensures r == [h] + rest
  {
    ConsParts(a, rest);
  }

  /** `s.replace(pat, rep)` replaces the first occurrence of `pat`, keeps the
      text before it, and goes on with the text after it. */
  lemma {:induction false} ReplaceFirst(s: string, pat: string, rep: string, i: nat)
    requires pat != [] && FirstAt(s, pat, i)
    ensures Replace(s, pat, rep) == s[..i] + rep + Replace(s[i + |pat|..], pat, rep)
    decreases i
  {
    if i == 0 {
      FirstAtStart(s, pat);
      ReplaceAtStart(s, pat, rep);
    } else {
      var t := s[1..];
      FirstAtTail(s, pat, i);
      ReplaceFirst(t, pat, rep, i - 1);
      ReplaceStep(s, pat, rep);
      ConsSlice(s, i);
      ConsRegroup(Replace(s, pat, rep), s[0], Replace(t, pat, rep), t[..i - 1], rep, Replace(s[i + |pat|..], pat, rep), s[..i]);
    }
  }

  /** `s.replace(pat, "")`; an empty `pat` leaves `s` as it is. */
  function RemoveAll(s: string, pat: string): string {
    if pat == [] then s else Replace(s, pat, [])
  }

  /** `s[n:]`: slicing past the end gives the empty string. */
  function Drop(s: string, n: nat): (r: string)
    ensures |r| == if n <= |s| then |s| - n else 0
    ensures n <= |s| ==> s == s[..n] + r
  {
    if n <= |s| then s[n..] else []
  }

  /** One element shorter, a prefix's prefix is the shorter prefix; stated for
      any element type, like `AppendAssoc`. */
  lemma PrefixOfLonger<T>(s: seq<T>, i: nat)
    requires i < |s|
    ensures s[..i + 1][..i] == s[..i] && s[..i + 1][i] == s[i]
  {
  }

  lemma WholePrefix<T>(s: seq<T>)
    ensures s[..|s|] == s
  {
  }

  /** Concatenation regroups; stated for any element type so that the
      solver never compares the elements themselves. */
  lemma AppendAssoc<T>(a: seq<T>, b: seq<T>, c: seq<T>)
    ensures a + b + c == a + (b + c)
  {
  }

  /** `s[:-1]` */
  function DropLast(s: string): (r: string)
    ensures |r| == if s == [] then 0 else |s| - 1
    ensures StartsWith(s, r)
  {
    if s == [] then [] else s[..|s| - 1]
  }

  lemma JoinWithCons(x: string, p: seq<string>, sep: string)
    requires p != []
    ensures JoinWith([x + p[0]] + p[1..], sep) == x + JoinWith(p, sep)
  {
    var q := [x + p[0]] + p[1..];
    if |p| > 1 {
      assert q[1..] == p[1..];
    }
  }

  /** Joining the pieces of a split with the same separator gives back the
      original string. */
  lemma {:induction false} JoinSplit(s: string, sep: string)
    requires sep != []
    ensures JoinWith(SplitOn(s, sep), sep) == s
    decreases |s|
  {
    if StartsWith(s, sep) {
      var t := s[|sep|..];
      JoinSplit(t, sep);
      SplitOnAtStart(s, sep);
      JoinWithHead(s[..0], SplitOn(t, sep), sep);
      assert s == s[..0] + sep + t;
    } else if s == [] {
    } else {
      var t := s[1..];
      JoinSplit(t, sep);
      SplitOnStep(s, sep);
      JoinWithCons([s[0]], SplitOn(t, sep), sep);
      assert s == [s[0]] + t;
    }
  }

  /** Joining a first part and a non-empty rest puts `sep` between them. */
  lemma JoinWithHead(x: string, rest: seq<string>, sep: string)
    requires rest != []
    ensures JoinWith([x] + rest, sep) == x + sep + JoinWith(rest, sep)
  {
    ConsParts(x, rest);
  }

  /** Head and tail of a sequence built by putting `x` in front of `r`. */
  lemma ConsParts<T>(x: T, r: seq<T>)
    ensures ([x] + r)[0] == x && ([x] + r)[1..] == r
  {
  }

  /** `s.replace(pat, rep)` is `rep.join(s.split(pat))`. */
  lemma {:induction false} ReplaceIsJoinOfSplit(s: string, pat: string, rep: string)
    requires pat != []
    ensures Replace(s, pat, rep) == JoinWith(SplitOn(s, pat), rep)
    decreases |s|
  {
    if StartsWith(s, pat) {
      var rest := SplitOn(s[|pat|..], pat);
      ReplaceIsJoinOfSplit(s[|pat|..], pat, rep);
      ConsParts([], rest);
    } else if s == [] {
    } else {
      var p := SplitOn(s[1..], pat);
      ReplaceIsJoinOfSplit(s[1..], pat, rep);
      JoinWithCons([s[0]], p, rep);
    }
  }

  /** Splitting on a single character leaves that character in no piece. */
  lemma {:induction false} SplitOnCharPieces(s: string, c: char)
    ensures forall i | 0 <= i < |SplitOn(s, [c])| :: c !in SplitOn(s, [c])[i]
    decreases |s|
  {
    if StartsWith(s, [c]) {
      SplitOnCharPieces(s[1..], c);
      assert SplitOn(s, [c]) == [[]] + SplitOn(s[1..], [c]);
    } else if s == [] {
    } else {
      SplitOnCharPieces(s[1..], c);
      assert s[0] != c;
    }
  }

  // ---- int() of a base-10 literal ----

  predicate IsDigit(c: char) {
    '0' <= c <= '9'
  }

  /** The body of a Python decimal integer literal: digits, with single
      underscores allowed between two digits. */
  predicate IsDigitBody(s: string) {
    && s != []
    && IsDigit(s[0]) && IsDigit(s[|s| - 1])
    && DigitsOrUnderscores(s)
    && (forall i | 0 <= i < |s| - 1 :: !DoubleUnderscoreAt(s, i))
  }

  predicate DoubleUnderscoreAt(s: string, i: nat)
    requires i + 1 < |s|
  {
    s[i] == '_' && s[i + 1] == '_'
  }

  predicate DigitsOrUnderscores(s: string) {
    forall i | 0 <= i < |s| :: IsDigit(s[i]) || s[i] == '_'
  }

  predicate AllDigits(s: string) {
    forall i | 0 <= i < |s| :: IsDigit(s[i])
  }

  /** The digits of `s`, underscores left out. */
  function DigitsOnly(s: string): (d: string)
    ensures forall i | 0 <= i < |d| :: d[i] != '_'
    ensures DigitsOrUnderscores(s) ==> AllDigits(d)
    ensures (forall i | 0 <= i < |s| :: s[i] != '_') ==> d == s
  {
    if s == [] then []
    else if s[0] == '_' then DigitsOnly(s[1..])
    else [s[0]] + DigitsOnly(s[1..])
  }

  function DigitValue(c: char): nat
    requires IsDigit(c)
  {
    c as int - '0' as int
  }

  /** The value of a run of decimal digits, most significant first. */
  function DigitsValue(d: string): nat
    requires AllDigits(d)
  {
    if d == [] then 0 else DigitsValue(d[..|d| - 1]) * 10 + DigitValue(d[|d| - 1])
  }

  /** `int(s)`: optional surrounding whitespace, an optional sign, then a digit
      body; anything else is a `ValueError` (here `None`). */
  function ParseInt(s: string): (r: Option<int>)
    ensures r.Some? ==> Strip(s) != [] && (IsDigit(Strip(s)[0]) || Strip(s)[0] == '-' || Strip(s)[0] == '+')
    ensures r.Some? && r.value < 0 ==> Strip(s)[0] == '-'
    ensures IsDigitBody(s) ==> r == Some(DigitsValue(DigitsOnly(s)))
  {
    DigitBodyUnsigned(s);
    var t := Strip(s);
    var k := SignLength(t);
    SignParts(t);
    if IsDigitBody(t[k..]) then Some(SignedValue(t[..k], t[k..])) else None
  }

  /** What `int()` accepts is exactly a stripped text made of an optional sign
      and a digit body (`ParseIntOfLiteral` is the converse), read as the
      signed value of the body. */
  lemma ParseIntShape(s: string)
    requires ParseInt(s).Some?
    ensures var t := Strip(s); var k := SignLength(t);
      && t == t[..k] + t[k..] && IsSign(t[..k]) && IsDigitBody(t[k..])
      && ParseInt(s).value == SignedValue(t[..k], t[k..])
  {
    var t := Strip(s);
    var k := SignLength(t);
    Rejoined(t, k);
  }

  lemma Rejoined<T>(s: seq<T>, k: nat)
    requires k <= |s|
    ensures s == s[..k] + s[k..]
  {
  }

  /** The optional sign of an integer literal. */
  predicate IsSign(sign: string) {
    sign == [] || sign == "+" || sign == "-"
  }

  /** The length of the sign at the front of `t`: 1 for `+` or `-`, else 0. */
  function SignLength(t: string): (k: nat)
    ensures k <= |t| && IsSign(t[..k])
    ensures k == 0 ==> t == [] || (t[0] != '-' && t[0] != '+')
  {
    if t != [] && (t[0] == '-' || t[0] == '+') then 1 else 0
  }

  /** What is left around the sign `SignLength` finds. */
  lemma SignParts(t: string)
    ensures SignLength(t) == 0 ==> t[0..] == t
    ensures SignLength(t) == 1 ==> t[..1] == [t[0]] && (t[0] == '-' || t[0] == '+')
  {
  }

  /** The value of a signed decimal literal. */
  function SignedValue(sign: string, body: string): (v: int)
    requires IsDigitBody(body)
    ensures v < 0 ==> sign == "-"
    ensures sign != "-" ==> v == DigitsValue(DigitsOnly(body))
    ensures sign == "-" ==> v == -(DigitsValue(DigitsOnly(body)) as int)
  {
    var n := DigitsValue(DigitsOnly(body));
    if sign == "-" then -(n as int) else n
  }

  /** Conversely, whitespace, an optional sign, a digit body and whitespace are
      what `int()` accepts, and it gives the signed value of the body. */
  lemma ParseIntOfLiteral(pad: string, sign: string, body: string, pad': string)
    requires AllSpace(pad) && AllSpace(pad') && IsSign(sign) && IsDigitBody(body)
    ensures ParseInt(pad + sign + body + pad') == Some(SignedValue(sign, body))
  {
    var t := sign + body;
    SignedLiteral(sign, body);
    AppendAssoc(pad, sign, body);
    StripOfPadded(pad, t, pad');
    assert Strip(pad + sign + body + pad') == t;
  }

  /** A sign followed by a digit body: trimmed, and the sign is what
      `SignLength` finds. */
  lemma SignedLiteral(sign: string, body: string)
    requires IsSign(sign) && IsDigitBody(body)
    ensures var t := sign + body;
      t != [] && Trimmed(t) && SignLength(t) == |sign| && t[..|sign|] == sign && t[|sign|..] == body
  {
    var t := sign + body;
    assert t[|sign|..] == body && t[..|sign|] == sign;
    assert t[|t| - 1] == body[|body| - 1];
    if sign == [] {
      assert t[0] == body[0];
    } else {
      assert t[0] == sign[0];
    }
  }

  /** `strip()` of a trimmed non-empty text between two runs of whitespace is
      that text. */
  lemma StripOfPadded(pad: string, x: string, pad': string)
    requires AllSpace(pad) && AllSpace(pad') && x != [] && Trimmed(x)
    ensures Strip(pad + x + pad') == x
  {
    AppendAssoc(pad, x, pad');
    StripLeftOfGap(pad, x + pad');
    StripRightOfGap(x, pad');
  }

  /** Trailing spaces after a text that ends with a non-space are what
      `rstrip` removes. */
  lemma {:induction false} StripRightOfGap(x: string, pad: string)
    requires AllSpace(pad) && (x == [] || !IsSpace(x[|x| - 1]))
    ensures StripRight(x + pad) == x
    decreases |pad|
  {
    if pad == [] {
      assert x + pad == x;
    } else {
      var q := pad[..|pad| - 1];
      assert (x + pad)[..|x + pad| - 1] == x + q;
      StripRightOfGap(x, q);
    }
  }

  /** A digit body has no whitespace margin and no sign. */
  lemma DigitBodyUnsigned(s: string)
    ensures IsDigitBody(s) ==> Trimmed(s) && s[0] != '-' && s[0] != '+'
  {
  }

  function DigitChar(d: nat): (c: char)
    requires d < 10
    ensures IsDigit(c) && DigitValue(c) == d
  {
    ('0' as int + d) as char
  }

  /** `str(n)` for a natural number. */
  function Decimal(n: nat): (s: string)
    ensures s != [] && forall i | 0 <= i < |s| :: IsDigit(s[i])
    decreases n
  {
    if n < 10 then [DigitChar(n)] else Decimal(n / 10) + [DigitChar(n % 10)]
  }

  lemma {:induction false} DecimalValue(n: nat)
    ensures DigitsValue(Decimal(n)) == n
    decreases n
  {
    var s := Decimal(n);
    if n >= 10 {
      DecimalValue(n / 10);
      assert s[..|s| - 1] == Decimal(n / 10);
    }
  }

  lemma DecimalIsBody(n: nat)
    ensures IsDigitBody(Decimal(n)) && DigitsOnly(Decimal(n)) == Decimal(n)
    ensures Trimmed(Decimal(n)) && Decimal(n)[0] != '-' && Decimal(n)[0] != '+'
  {
    var s := Decimal(n);
    assert forall i | 0 <= i < |s| :: s[i] != '_';
  }

  /** `int(str(n)) == n` */
  lemma ParseIntDecimal(n: nat)
    ensures ParseInt(Decimal(n)) == Some(n)
  {
    DecimalIsBody(n);
    DecimalValue(n);
  }
}
