/**
 * The Python `str` operations the galaxy parser relies on, on `seq<char>`:
 * `strip`, `lower`/`casefold` (ASCII letters), `split()` on whitespace,
 * `split(sep)`, `startswith`, the `in` substring test and the code-point
 * ordering `sorted` uses.
 */
module Strings {
  import opened Wrappers

  // ---------------------------------------------------------------- characters

  /** The characters Python's `str.isspace` accepts; `split()` and `strip()` use them. */
  predicate IsSpace(c: char) {
    || c == ' '
    || ('\t' <= c <= '\r')
    || ('\U{1c}' <= c <= '\U{1f}')
    || c == '\U{85}' || c == '\U{a0}' || c == '\U{1680}'
    || ('\U{2000}' <= c <= '\U{200a}')
    || c == '\U{2028}' || c == '\U{2029}' || c == '\U{202f}' || c == '\U{205f}' || c == '\U{3000}'
  }

  predicate IsUpper(c: char) { 'A' <= c <= 'Z' }

  /** The class `[a-zA-Z0-9]` of the normaliser's regular expression. */
  predicate IsAsciiAlnum(c: char) { 'a' <= c <= 'z' || 'A' <= c <= 'Z' || '0' <= c <= '9' }

  predicate IsLowerAlnum(c: char) { 'a' <= c <= 'z' || '0' <= c <= '9' }

  function LowerChar(c: char): char {
    if IsUpper(c) then (c as int + 32) as char else c
  }

  predicate NoUpper(s: string) {
    forall i :: 0 <= i < |s| ==> !IsUpper(s[i])
  }

  /** `str.lower()` and `str.casefold()` on ASCII letters. */
  function Lower(s: string): string {
    seq(|s|, i requires 0 <= i < |s| => LowerChar(s[i]))
  }

  lemma LowerNoUpper(s: string)
    ensures NoUpper(Lower(s))
  {}

  lemma LowerIdempotent(s: string)
    ensures Lower(Lower(s)) == Lower(s)
  {}

  lemma LowerOfNoUpper(s: string)
    requires NoUpper(s)
    ensures Lower(s) == s
  {}

  lemma LowerAppend(a: string, b: string)
    ensures Lower(a + b) == Lower(a) + Lower(b)
  {}

  // ------------------------------------------------------------------- strip

  function StripLeft(s: string): string {
    if |s| > 0 && IsSpace(s[0]) then StripLeft(s[1..]) else s
  }

  function StripRight(s: string): string {
    if |s| > 0 && IsSpace(s[|s| - 1]) then StripRight(s[..|s| - 1]) else s
  }

  /** `str.strip()`: drop leading and trailing whitespace. */
  function Strip(s: string): string {
    StripRight(StripLeft(s))
  }

  function StripLeftSpaces(s: string): string {
    if |s| > 0 && s[0] == ' ' then StripLeftSpaces(s[1..]) else s
  }

  function StripRightSpaces(s: string): string {
    if |s| > 0 && s[|s| - 1] == ' ' then StripRightSpaces(s[..|s| - 1]) else s
  }

  /** `str.strip(" ")`: drop leading and trailing blanks only. */
  function StripSpaces(s: string): string {
    StripRightSpaces(StripLeftSpaces(s))
  }

  lemma {:induction false} StripLeftLower(s: string)
    ensures StripLeft(Lower(s)) == Lower(StripLeft(s))
    decreases |s|
  {
    if |s| > 0 && IsSpace(s[0]) {
      assert Lower(s)[1..] == Lower(s[1..]);
      StripLeftLower(s[1..]);
    }
  }

  lemma {:induction false} StripRightLower(s: string)
    ensures StripRight(Lower(s)) == Lower(StripRight(s))
    decreases |s|
  {
    if |s| > 0 && IsSpace(s[|s| - 1]) {
      assert Lower(s)[..|s| - 1] == Lower(s[..|s| - 1]);
      StripRightLower(s[..|s| - 1]);
    }
  }

  /** Lower-casing and stripping commute: `s.strip().lower() == s.lower().strip()`. */
  lemma StripLower(s: string)
    ensures Strip(Lower(s)) == Lower(Strip(s))
  {
    StripLeftLower(s);
    StripRightLower(StripLeft(s));
  }

  /** Stripping a word followed by one blank leaves the word. */
  lemma StripTrailingBlank(s: string)
    requires s != [] && !IsSpace(s[0]) && !IsSpace(s[|s| - 1])
    ensures Strip(s + " ") == s
  {
    var t := s + " ";
    assert t[0] == s[0] && t[|t| - 1] == ' ';
    assert t[..|t| - 1] == s;
    assert StripLeft(t) == t;
    assert StripRight(t) == StripRight(s) == s;
  }

  // -------------------------------------------------------- split on whitespace

  function Flush(cur: string): seq<string> {
    if cur == [] then [] else [cur]
  }

  /** Splits `s` on runs of whitespace, `cur` being the word read so far. */
  function SplitFrom(s: string, cur: string): seq<string>
    decreases |s|
  {
    if s == [] then Flush(cur)
    else if IsSpace(s[0]) then Flush(cur) + SplitFrom(s[1..], [])
    else SplitFrom(s[1..], cur + [s[0]])
  }

  /** `str.split()` with no argument: the maximal runs of non-whitespace characters. */
  function SplitWs(s: string): seq<string> {
    SplitFrom(s, [])
  }

  lemma {:induction false} SplitFromAppend(x: string, c: char, y: string, cur: string)
    requires IsSpace(c)
    ensures SplitFrom(x + [c] + y, cur) == SplitFrom(x, cur) + SplitFrom(y, [])
    decreases |x|
  {
    if x == [] {
      assert x + [c] + y == [c] + y;
      assert ([c] + y)[1..] == y;
    } else {
      assert (x + [c] + y)[0] == x[0];
      assert (x + [c] + y)[1..] == x[1..] + [c] + y;
      if IsSpace(x[0]) {
        SplitFromAppend(x[1..], c, y, []);
      } else {
        SplitFromAppend(x[1..], c, y, cur + [x[0]]);
      }
    }
  }

  /** Whitespace separates words: `(x + c + y).split() == x.split() + y.split()`. */
  lemma SplitWsAppend(x: string, c: char, y: string)
    requires IsSpace(c)
    ensures SplitWs(x + [c] + y) == SplitWs(x) + SplitWs(y)
  {
    SplitFromAppend(x, c, y, []);
  }

  lemma {:induction false} SplitFromWord(w: string, cur: string)
    requires forall i :: 0 <= i < |w| ==> !IsSpace(w[i])
    ensures SplitFrom(w, cur) == Flush(cur + w)
    decreases |w|
  {
    if w == [] {
      assert cur + w == cur;
    } else {
      SplitFromWord(w[1..], cur + [w[0]]);
      assert cur + [w[0]] + w[1..] == cur + w;
    }
  }

  /** A non-empty string without whitespace is one word. */
  lemma SplitWsWord(w: string)
    requires w != [] && forall i :: 0 <= i < |w| ==> !IsSpace(w[i])
    ensures SplitWs(w) == [w]
  {
    SplitFromWord(w, []);
    assert [] + w == w;
  }

  lemma {:induction false} SplitFromLeadingSpace(s: string)
    ensures SplitFrom(StripLeft(s), []) == SplitFrom(s, [])
    decreases |s|
  {
    if |s| > 0 && IsSpace(s[0]) {
      SplitFromLeadingSpace(s[1..]);
    }
  }

  lemma {:induction false} SplitFromTrailingSpace(s: string, cur: string)
    ensures SplitFrom(StripRight(s), cur) == SplitFrom(s, cur)
    decreases |s|
  {
    if |s| > 0 && IsSpace(s[|s| - 1]) {
      var t := s[..|s| - 1];
      SplitFromTrailingSpace(t, cur);
      assert s == t + [s[|s| - 1]] + [];
      SplitFromAppend(t, s[|s| - 1], [], cur);
    }
  }

  /** Stripping does not change the words: `s.strip().split() == s.split()`. */
  lemma SplitWsStrip(s: string)
    ensures SplitWs(Strip(s)) == SplitWs(s)
  {
    SplitFromTrailingSpace(StripLeft(s), []);
    SplitFromLeadingSpace(s);
  }

  lemma {:induction false} SplitFromNoUpper(s: string, cur: string)
    requires NoUpper(s) && NoUpper(cur)
    ensures forall t :: t in SplitFrom(s, cur) ==> NoUpper(t)
    decreases |s|
  {
    if s != [] {
      if IsSpace(s[0]) {
        SplitFromNoUpper(s[1..], []);
      } else {
        SplitFromNoUpper(s[1..], cur + [s[0]]);
      }
    }
  }

  // -------------------------------------------------------------------- join

  /** `sep.join(parts)`. */
  function Join(sep: string, parts: seq<string>): string {
    if parts == [] then []
    else if |parts| == 1 then parts[0]
    else parts[0] + sep + Join(sep, parts[1..])
  }

  lemma {:induction false} JoinNoUpper(sep: string, parts: seq<string>)
    requires NoUpper(sep) && forall t :: t in parts ==> NoUpper(t)
    ensures NoUpper(Join(sep, parts))
  {
    if |parts| > 1 {
      JoinNoUpper(sep, parts[1..]);
      NoUpperAppend(parts[0], sep);
      NoUpperAppend(parts[0] + sep, Join(sep, parts[1..]));
    }
  }

  lemma NoUpperAppend(a: string, b: string)
    requires NoUpper(a) && NoUpper(b)
    ensures NoUpper(a + b)
  {
    forall i | 0 <= i < |a + b| ensures !IsUpper((a + b)[i]) {
      if i >= |a| { assert (a + b)[i] == b[i - |a|]; }
    }
  }

  // ------------------------------------------------------ alphanumerics only

  /** The normaliser's regular-expression removal of everything but ASCII letters and digits. */
  function AlnumOnly(s: string): string {
    if s == [] then []
    else (if IsAsciiAlnum(s[0]) then [s[0]] else []) + AlnumOnly(s[1..])
  }

  lemma {:induction false} AlnumOnlyAppend(a: string, b: string)
    ensures AlnumOnly(a + b) == AlnumOnly(a) + AlnumOnly(b)
  {
    if a != [] {
      assert (a + b)[1..] == a[1..] + b;
      AlnumOnlyAppend(a[1..], b);
    } else {
      assert a + b == b;
    }
  }

  lemma {:induction false} AlnumOnlyLowerAlnum(s: string)
    requires NoUpper(s)
    ensures forall i :: 0 <= i < |AlnumOnly(s)| ==> IsLowerAlnum(AlnumOnly(s)[i])
  {
    if s != [] {
      AlnumOnlyLowerAlnum(s[1..]);
    }
  }

  // ------------------------------------------------- prefixes and substrings

  /** `s.startswith(p)`. */
  predicate StartsWith(s: string, p: string) {
    |p| <= |s| && s[..|p|] == p
  }

  predicate OccursAt(s: string, sub: string, i: int) {
    0 <= i && i + |sub| <= |s| && s[i..i + |sub|] == sub
  }

  /** The first position at which `sub` occurs in `s` (`s.find(sub)`), if any. */
  function IndexOf(s: string, sub: string): (r: Option<nat>)
    ensures r.Some? ==> OccursAt(s, sub, r.value) && forall j :: 0 <= j < r.value ==> !OccursAt(s, sub, j)
    ensures r.None? ==> forall j :: !OccursAt(s, sub, j)
    decreases |s|
  {
    if |s| < |sub| then None
    else if s[..|sub|] == sub then Some(0)
    else
      match IndexOf(s[1..], sub)
      case None =>
        assert forall j :: 1 <= j ==> (OccursAt(s, sub, j) <==> OccursAt(s[1..], sub, j - 1));
        None
      case Some(i) =>
        assert forall j :: 1 <= j ==> (OccursAt(s, sub, j) <==> OccursAt(s[1..], sub, j - 1));
        Some(i + 1)
  }

  /** `sub in s`. */
  predicate Contains(s: string, sub: string) {
    IndexOf(s, sub).Some?
  }

  /** `s.split(sep)` for a non-empty separator: cut at each occurrence, left to right. */
  function SplitOn(s: string, sep: string): (r: seq<string>)
    requires |sep| > 0
    ensures |r| >= 1
    decreases |s|
  {
    match IndexOf(s, sep)
    case None => [s]
    case Some(i) => [s[..i]] + SplitOn(s[i + |sep|..], sep)
  }

  function Last<T>(s: seq<T>): T
    requires |s| > 0
  {
    s[|s| - 1]
  }

  /** Splitting and joining back with the same separator gives the string back. */
  lemma {:induction false} JoinSplitOn(s: string, sep: string)
    requires |sep| > 0
    ensures Join(sep, SplitOn(s, sep)) == s
    decreases |s|
  {
    match IndexOf(s, sep)
    case None =>
    case Some(i) =>
      var rest := s[i + |sep|..];
      JoinSplitOn(rest, sep);
      JoinCons(sep, s[..i], SplitOn(rest, sep));
      ThreeParts(s, i, i + |sep|);
  }

  /** A string is its three slices at two cut points, put back together. */
  lemma ThreeParts(s: string, i: nat, j: nat)
    requires i <= j <= |s|
    ensures s == s[..i] + s[i..j] + s[j..]
  {
  }

  /** Joining a list of two or more pieces: the first piece, the separator, then the rest joined. */
  lemma JoinCons(sep: string, a: string, rest: seq<string>)
    requires |rest| >= 1
    ensures Join(sep, [a] + rest) == a + sep + Join(sep, rest)
  {
    assert ([a] + rest)[1..] == rest;
  }

  /** `s.endswith(x)`. */
  predicate EndsWith(s: string, x: string) {
    |x| <= |s| && s[|s| - |x|..] == x
  }

  /** A joined list ends with its last piece. */
  lemma {:induction false} JoinEndsWithLast(sep: string, parts: seq<string>)
    requires |parts| >= 1
    ensures EndsWith(Join(sep, parts), Last(parts))
  {
    if |parts| > 1 {
      var rest := parts[1..];
      JoinEndsWithLast(sep, rest);
      var j := Join(sep, rest);
      var whole := parts[0] + sep + j;
      assert Join(sep, parts) == whole;
      assert Last(rest) == Last(parts);
      assert whole[|whole| - |j|..] == j;
      assert whole[|whole| - |Last(parts)|..] == j[|j| - |Last(parts)|..];
    }
  }
  /** `s.split(sep)[-1]`. */
  function LastSegment(s: string, sep: string): string
    requires |sep| > 0
  {
    Last(SplitOn(s, sep))
  }

  /** The last segment is a suffix of the string, and free of the separator. */
  lemma LastSegmentSuffix(s: string, sep: string)
    requires |sep| > 0
    ensures EndsWith(s, LastSegment(s, sep))
    ensures !Contains(LastSegment(s, sep), sep)
  {
    var parts := SplitOn(s, sep);
    JoinSplitOn(s, sep);
    JoinEndsWithLast(sep, parts);
    SplitOnPiecesFree(s, sep);
    assert Last(parts) in parts;
  }

  /** The last segment is the whole string exactly when the separator does not occur. */
  lemma LastSegmentWhole(s: string, sep: string)
    requires |sep| > 0
    ensures LastSegment(s, sep) == s <==> !Contains(s, sep)
  {
    match IndexOf(s, sep)
    case None =>
    case Some(i) =>
      var rest := s[i + |sep|..];
      assert LastSegment(s, sep) == LastSegment(rest, sep);
      LastSegmentSuffix(rest, sep);
  }

  /** Past an occurrence of the separator, the last segment is that of the rest. */
  lemma LastSegmentRest(s: string, sep: string, i: nat)
    requires |sep| > 0 && IndexOf(s, sep) == Some(i)
    ensures LastSegment(s, sep) == LastSegment(s[i + |sep|..], sep)
  {
    var t := SplitOn(s[i + |sep|..], sep);
    assert SplitOn(s, sep) == [s[..i]] + t;
    LastCons(s[..i], t);
  }

  lemma LastCons<T>(x: T, t: seq<T>)
    requires |t| > 0
    ensures Last([x] + t) == Last(t)
  {
  }

  /** Dropping part of the first of three pieces. */
  lemma DropInFirst(a: string, m: string, b: string, k: nat)
    requires k <= |a|
    ensures (a + m + b)[k..] == a[k..] + m + b
  {
  }

  /** The last piece cut off by a one-character separator that does not occur after it. */
  lemma {:induction false} LastSegmentAfter(a: string, sep: string, b: string)
    requires |sep| == 1 && sep[0] !in b
    ensures LastSegment(a + sep + b, sep) == b
    decreases |a|
  {
    var s := a + sep + b;
    assert OccursAt(s, sep, |a|) by { assert s[|a|..|a| + 1] == sep; }
    var i := IndexOf(s, sep).value;
    assert i <= |a|;
    LastSegmentRest(s, sep, i);
    if i == |a| {
      DropInFirst(a, sep, b, |a|);
      assert s[i + 1..] == b;
      SplitOnCharAbsent(b, sep);
    } else {
      DropInFirst(a, sep, b, i + 1);
      LastSegmentAfter(a[i + 1..], sep, b);
    }
  }

  /** No piece of a split contains the separator. */
  lemma {:induction false} SplitOnPiecesFree(s: string, sep: string)
    requires |sep| > 0
    ensures forall t :: t in SplitOn(s, sep) ==> !Contains(t, sep)
    decreases |s|
  {
    match IndexOf(s, sep)
    case None =>
    case Some(i) =>
      SplitOnPiecesFree(s[i + |sep|..], sep);
      var head := s[..i];
      forall j | 0 <= j && j + |sep| <= |head|
        ensures !OccursAt(head, sep, j)
      {
        assert head[j..j + |sep|] == s[j..j + |sep|];
        assert !OccursAt(s, sep, j);
      }
      assert !Contains(head, sep);
  }

  /** With a one-character separator absent from `a`, the first piece of `a + sep + b` is `a`. */
  lemma SplitOnCharPrefix(a: string, sep: string, b: string)
    requires |sep| == 1 && sep[0] !in a
    ensures SplitOn(a + sep + b, sep) == [a] + SplitOn(b, sep)
  {
    var s := a + sep + b;
    assert OccursAt(s, sep, |a|) by { assert s[|a|..|a| + 1] == sep; }
    forall j | 0 <= j < |a| ensures !OccursAt(s, sep, j) {
      assert s[j] == a[j];
    }
    var i := IndexOf(s, sep).value;
    assert i == |a|;
    assert s[..i] == a;
    assert s[i + 1..] == b;
  }

  /** A string without the one-character separator splits into itself. */
  lemma SplitOnCharAbsent(s: string, sep: string)
    requires |sep| == 1 && sep[0] !in s
    ensures SplitOn(s, sep) == [s]
  {
  }

  /** A one-character substring test is a membership test. */
  lemma ContainsChar(s: string, c: char)
    ensures Contains(s, [c]) <==> c in s
  {
    if Contains(s, [c]) {
      var i := IndexOf(s, [c]).value;
      assert s[i] == s[i..i + 1][0];
    }
    if c in s {
      var j :| 0 <= j < |s| && s[j] == c;
      assert OccursAt(s, [c], j);
    }
  }

  /** With a one-character separator, the first piece runs up to the first separator or the end. */
  lemma SplitOnCharFirst(s: string, sep: string)
    requires |sep| == 1
    ensures var h := SplitOn(s, sep)[0];
      StartsWith(s, h) && sep[0] !in h && (|h| == |s| || s[|h|] == sep[0])
  {
    var h := SplitOn(s, sep)[0];
    match IndexOf(s, sep)
    case None =>
      assert h == s;
      if sep[0] in s {
        var j :| 0 <= j < |s| && s[j] == sep[0];
        assert OccursAt(s, sep, j);
      }
    case Some(i) =>
      assert h == s[..i];
      if sep[0] in h {
        var j :| 0 <= j < |h| && h[j] == sep[0];
        assert OccursAt(s, sep, j);
      }
  }

  // ------------------------------------------------------- code-point order

  /** Python's `<` on strings: lexicographic by code point, a proper prefix first. */
  predicate LexLess(a: string, b: string) {
    if a == [] then b != []
    else if b == [] then false
    else a[0] < b[0] || (a[0] == b[0] && LexLess(a[1..], b[1..]))
  }

  lemma {:induction false} LexLessIrreflexive(a: string)
    ensures !LexLess(a, a)
  {
    if a != [] {
      LexLessIrreflexive(a[1..]);
    }
  }

  lemma {:induction false} LexLessTotal(a: string, b: string)
    requires a != b
    ensures LexLess(a, b) || LexLess(b, a)
  {
    if a != [] && b != [] && a[0] == b[0] {
      assert a == [a[0]] + a[1..] && b == [b[0]] + b[1..];
      LexLessTotal(a[1..], b[1..]);
    }
  }

  lemma {:induction false} LexLessAsymmetric(a: string, b: string)
    requires LexLess(a, b)
    ensures !LexLess(b, a)
  {
    if a != [] && b != [] && a[0] == b[0] {
      LexLessAsymmetric(a[1..], b[1..]);
    }
  }

  /** Strictly increasing, hence also free of duplicates. */
  predicate StrictlySorted(s: seq<string>) {
    forall i, j :: 0 <= i < j < |s| ==> LexLess(s[i], s[j])
  }

  /** Inserts a new element into a strictly sorted sequence at its place. */
  function InsertSorted(s: seq<string>, x: string): (r: seq<string>)
    requires StrictlySorted(s) && x !in s
    ensures StrictlySorted(r)
    ensures forall y :: y in r <==> y in s || y == x
    ensures |r| == |s| + 1
  {
    if s == [] then [x]
    else if LexLess(x, s[0]) then
      assert forall j :: 0 <= j < |s| ==> LexLess(x, s[j]) by {
        forall j | 0 <= j < |s| ensures LexLess(x, s[j]) {
          if j > 0 { LexLessTransitive(x, s[0], s[j]); }
        }
      }
      [x] + s
    else
      LexLessTotal(x, s[0]);
      var rest := InsertSorted(s[1..], x);
      assert forall y :: y in rest ==> LexLess(s[0], y);
      [s[0]] + rest
  }

  lemma {:induction false} LexLessTransitive(a: string, b: string, c: string)
    requires LexLess(a, b) && LexLess(b, c)
    ensures LexLess(a, c)
  {
    if a != [] && a[0] == b[0] && b[0] == c[0] {
      LexLessTransitive(a[1..], b[1..], c[1..]);
    }
  }

  /**
   * Two strictly sorted lists with the same elements are the same list: a
   * strictly sorted list is determined by its set of elements.
   */
  lemma {:induction false} SortedUnique(a: seq<string>, b: seq<string>)
    requires StrictlySorted(a) && StrictlySorted(b)
    requires forall x :: x in a <==> x in b
    ensures a == b
  {
    if a != [] && b != [] {
      assert b[0] in a && a[0] in b;
      assert a[0] == b[0] || LexLess(b[0], a[0]);
      assert b[0] == a[0] || LexLess(a[0], b[0]);
      if LexLess(a[0], b[0]) {
        LexLessAsymmetric(a[0], b[0]);
      }
      forall x | x in a[1..]
        ensures x in b[1..]
      {
        var i :| 1 <= i < |a| && a[i] == x;
        assert LexLess(a[0], x);
        LexLessIrreflexive(x);
        assert x in b;
        var j :| 0 <= j < |b| && b[j] == x;
        assert j != 0 && b[1..][j - 1] == x;
      }
      forall x | x in b[1..]
        ensures x in a[1..]
      {
        var i :| 1 <= i < |b| && b[i] == x;
        assert LexLess(b[0], x);
        LexLessIrreflexive(x);
        assert x in a;
        var j :| 0 <= j < |a| && a[j] == x;
        assert j != 0 && a[1..][j - 1] == x;
      }
      SortedUnique(a[1..], b[1..]);
      assert a == [a[0]] + a[1..] && b == [b[0]] + b[1..];
    } else {
      SameElementsEmpty(a, b);
    }
  }

  /** Lists with the same elements are both empty or both not. */
  lemma SameElementsEmpty(a: seq<string>, b: seq<string>)
    requires forall x :: x in a <==> x in b
    ensures a == [] <==> b == []
  {
    if a != [] {
      assert a[0] in b;
    }
    if b != [] {
      assert b[0] in a;
    }
  }
}
