/**
 * The java.lang.String, java.util.regex and Integer primitives that the task tracker's
 * parser and codec are built from, each with the exact behaviour the Java library gives it:
 * `trim`, `isBlank`, `toLowerCase` (ASCII letters), `startsWith`, `contains`, `split` on the
 * three regular expressions the code uses, `String.join`, `Integer.parseInt` and decimal
 * rendering.
 *
 * Scanning is written with explicit positions (`SkipSpaces(s, i)` rather than a recursion on
 * `s[1..]`), so that the proofs reason about one string and its indices.
 */
module JavaString {
  import opened Wrappers

  const IntMin: int := -0x8000_0000
  const IntMax: int := 0x7fff_ffff

  // ---------------------------------------------------------------------------------------------
  // Character classes

  /** The characters `String.trim()` strips: every code point up to U+0020. */
  predicate IsTrimmable(c: char) { c <= ' ' }

  /** The regular-expression class `\s`: space, tab, newline, vertical tab, form feed, return. */
  predicate IsRegexSpace(c: char) { c == ' ' || 9 <= c as int <= 13 }

  /** `Character.isWhitespace`, the test `String.isBlank()` applies to every character. */
  predicate IsJavaWhitespace(c: char) {
    var n := c as int;
    (9 <= n <= 13) || (28 <= n <= 32) || n == 0x1680 || (0x2000 <= n <= 0x2006)
    || (0x2008 <= n <= 0x200A) || n == 0x2028 || n == 0x2029 || n == 0x205F || n == 0x3000
  }

  /** `String.isBlank()`. */
  predicate IsBlank(s: string) { forall i :: 0 <= i < |s| ==> IsJavaWhitespace(s[i]) }

  /** The condition `s.trim().isEmpty()` written out: every character is trimmable. */
  predicate IsTrimBlank(s: string) { forall i :: 0 <= i < |s| ==> IsTrimmable(s[i]) }

  predicate HasNoRegexSpace(s: string) { forall i :: 0 <= i < |s| ==> !IsRegexSpace(s[i]) }

  predicate AllRegexSpace(s: string) { forall i :: 0 <= i < |s| ==> IsRegexSpace(s[i]) }

  /** s does not contain c. */
  predicate Lacks(s: string, c: char) { forall i :: 0 <= i < |s| ==> s[i] != c }

  // ---------------------------------------------------------------------------------------------
  // trim

  /** The first position at or after i that holds a character `trim` keeps. */
  function SkipTrimmable(s: string, i: nat): (j: nat)
    requires i <= |s|
    ensures i <= j <= |s|
    ensures forall m :: i <= m < j ==> IsTrimmable(s[m])
    ensures j < |s| ==> !IsTrimmable(s[j])
    decreases |s| - i
  {
    if i < |s| && IsTrimmable(s[i]) then SkipTrimmable(s, i + 1) else i
  }

  /** The end of s[lo..j] once its trimmable suffix is removed. */
  function BackTrimmable(s: string, lo: nat, j: nat): (k: nat)
    requires lo <= j <= |s|
    ensures lo <= k <= j
    ensures forall m :: k <= m < j ==> IsTrimmable(s[m])
    ensures k > lo ==> !IsTrimmable(s[k - 1])
    decreases j - lo
  {
    if j > lo && IsTrimmable(s[j - 1]) then BackTrimmable(s, lo, j - 1) else j
  }

  /** `String.trim()`: s without its trimmable prefix and suffix. */
  function Trim(s: string): (r: string)
    ensures r != [] ==> !IsTrimmable(r[0]) && !IsTrimmable(r[|r| - 1])
  {
    var a := SkipTrimmable(s, 0);
    s[a..BackTrimmable(s, a, |s|)]
  }

  /** `trim()` is a contiguous part of its input and removes only trimmable characters. */
  lemma TrimIsInfix(s: string)
    ensures exists a, b :: 0 <= a <= b <= |s| && Trim(s) == s[a..b]
                           && (forall i :: 0 <= i < a ==> IsTrimmable(s[i]))
                           && (forall i :: b <= i < |s| ==> IsTrimmable(s[i]))
  {
    var a := SkipTrimmable(s, 0);
    var b := BackTrimmable(s, a, |s|);
    assert Trim(s) == s[a..b];
  }

  /** `s.trim().isEmpty()` holds exactly when every character of s is trimmable. */
  lemma TrimEmptyIff(s: string)
    ensures Trim(s) == [] <==> IsTrimBlank(s)
  {
    var a := SkipTrimmable(s, 0);
    var b := BackTrimmable(s, a, |s|);
    if Trim(s) == [] {
      assert a == b;
    }
    if IsTrimBlank(s) {
      assert a == |s|;
    }
  }

  /** A string with no trimmable character at either end is its own trim. */
  lemma TrimOfTrimmed(s: string)
    requires s != [] ==> !IsTrimmable(s[0]) && !IsTrimmable(s[|s| - 1])
    ensures Trim(s) == s
  {
    var a := SkipTrimmable(s, 0);
    var b := BackTrimmable(s, a, |s|);
    if s != [] {
      assert a == 0;
      assert b == |s|;
    }
  }

  lemma TrimIdempotent(s: string)
    ensures Trim(Trim(s)) == Trim(s)
  {
    TrimOfTrimmed(Trim(s));
  }

  /** Trimmable padding on either side of a trimmed string is exactly what `trim` removes. */
  lemma TrimPadded(s: string, p: string, t: string, q: string)
    requires s == p + t + q && IsTrimBlank(p) && IsTrimBlank(q)
    requires t != [] && !IsTrimmable(t[0]) && !IsTrimmable(t[|t| - 1])
    ensures Trim(s) == t
  {
    var a := SkipTrimmable(s, 0);
    var b := BackTrimmable(s, a, |s|);
    assert s[|p|] == t[0];
    assert a == |p|;
    assert s[|p| + |t| - 1] == t[|t| - 1];
    assert b == |p| + |t|;
    assert s[a..b] == t;
  }

  // ---------------------------------------------------------------------------------------------
  // toLowerCase, startsWith, contains

  /** `Character.toLowerCase` on the ASCII letters; every other character is kept. */
  function LowerChar(c: char): (r: char)
    ensures 'A' <= c <= 'Z' ==> r as int == c as int + 32
    ensures !('A' <= c <= 'Z') ==> r == c
  {
    if 'A' <= c <= 'Z' then (c as int + 32) as char else c
  }

  function ToLower(s: string): (r: string)
    ensures |r| == |s| && forall i :: 0 <= i < |s| ==> r[i] == LowerChar(s[i])
  {
    seq(|s|, i requires 0 <= i < |s| => LowerChar(s[i]))
  }

  predicate StartsWith(s: string, prefix: string) {
    |prefix| <= |s| && s[..|prefix|] == prefix
  }

  /** Whether `needle` occurs in `hay` starting at index i. */
  predicate OccursAt(hay: string, needle: string, i: int) {
    0 <= i && i + |needle| <= |hay| && hay[i..i + |needle|] == needle
  }

  /** Whether `needle` occurs in `hay` at some index from i on. */
  function ContainsFrom(hay: string, needle: string, i: nat): (b: bool)
    ensures b <==> exists j :: i <= j && OccursAt(hay, needle, j)
    decreases |hay| - i
  {
    if i + |needle| > |hay| then false
    else OccursAt(hay, needle, i) || ContainsFrom(hay, needle, i + 1)
  }

  /** `String.contains`: some infix of `hay` equals `needle`. */
  function Contains(hay: string, needle: string): (b: bool)
    ensures b <==> exists i :: OccursAt(hay, needle, i)
  {
    ContainsFrom(hay, needle, 0)
  }

  // ---------------------------------------------------------------------------------------------
  // Runs of `\s` characters, and searching

  /** The first position at or after i that does not hold a `\s` character. */
  function SkipSpaces(s: string, i: nat): (j: nat)
    requires i <= |s|
    ensures i <= j <= |s|
    ensures j < |s| ==> !IsRegexSpace(s[j])
    ensures i < |s| && IsRegexSpace(s[i]) ==> i < j
    decreases |s| - i
  {
    if i < |s| && IsRegexSpace(s[i]) then SkipSpaces(s, i + 1) else i
  }

  /** The end of s[lo..j] once its `\s` suffix is removed. */
  function BackSpaces(s: string, lo: nat, j: nat): (k: nat)
    requires lo <= j <= |s|
    ensures lo <= k <= j
    ensures k > lo ==> !IsRegexSpace(s[k - 1])
    decreases j - lo
  {
    if j > lo && IsRegexSpace(s[j - 1]) then BackSpaces(s, lo, j - 1) else j
  }

  /** The first `\s` character at or after i, or |s| if there is none. */
  function FirstSpaceFrom(s: string, i: nat): (k: nat)
    requires i <= |s|
    ensures i <= k <= |s|
    ensures k < |s| ==> IsRegexSpace(s[k])
    decreases |s| - i
  {
    if i == |s| || IsRegexSpace(s[i]) then i else FirstSpaceFrom(s, i + 1)
  }

  /** The first c at or after i, or |s| if there is none. */
  function IndexFrom(s: string, c: char, i: nat): (k: nat)
    requires i <= |s|
    ensures i <= k <= |s|
    ensures k < |s| ==> s[k] == c
    decreases |s| - i
  {
    if i == |s| || s[i] == c then i else IndexFrom(s, c, i + 1)
  }

  /** Everything SkipSpaces passes over is `\s`. */
  lemma {:induction false} SkipSpacesAll(s: string, i: nat)
    requires i <= |s|
    ensures forall m :: i <= m < SkipSpaces(s, i) ==> IsRegexSpace(s[m])
    decreases |s| - i
  {
    if i < |s| && IsRegexSpace(s[i]) {
      SkipSpacesAll(s, i + 1);
    }
  }

  /** Everything IndexFrom passes over differs from c. */
  lemma {:induction false} IndexFromAll(s: string, c: char, i: nat)
    requires i <= |s|
    ensures forall m :: i <= m < IndexFrom(s, c, i) ==> s[m] != c
    decreases |s| - i
  {
    if i < |s| && s[i] != c {
      IndexFromAll(s, c, i + 1);
    }
  }

  /** `String.indexOf(c)`, with |s| standing for "not found". */
  function IndexOf(s: string, c: char): (k: nat)
    ensures k <= |s|
    ensures k == |s| <==> Lacks(s, c)
    ensures k < |s| ==> s[k] == c && Lacks(s[..k], c)
  {
    IndexFromAll(s, c, 0);
    IndexFrom(s, c, 0)
  }

  /** The scans above stop exactly where their defining property says. */
  lemma {:induction false} SkipSpacesAt(s: string, i: nat, j: nat)
    requires i <= j <= |s| && (forall m :: i <= m < j ==> IsRegexSpace(s[m]))
    requires j < |s| ==> !IsRegexSpace(s[j])
    ensures SkipSpaces(s, i) == j
    decreases j - i
  {
    if i < j {
      SkipSpacesAt(s, i + 1, j);
    }
  }

  lemma {:induction false} BackSpacesAt(s: string, lo: nat, k: nat, j: nat)
    requires lo <= k <= j <= |s| && (forall m :: k <= m < j ==> IsRegexSpace(s[m]))
    requires k > lo ==> !IsRegexSpace(s[k - 1])
    ensures BackSpaces(s, lo, j) == k
    decreases j - k
  {
    if k < j {
      BackSpacesAt(s, lo, k, j - 1);
    }
  }

  lemma {:induction false} FirstSpaceFromAt(s: string, i: nat, k: nat)
    requires i <= k <= |s| && (forall m :: i <= m < k ==> !IsRegexSpace(s[m]))
    requires k < |s| ==> IsRegexSpace(s[k])
    ensures FirstSpaceFrom(s, i) == k
    decreases k - i
  {
    if i < k {
      FirstSpaceFromAt(s, i + 1, k);
    }
  }

  lemma {:induction false} IndexFromAt(s: string, c: char, i: nat, k: nat)
    requires i <= k <= |s| && (forall m :: i <= m < k ==> s[m] != c)
    requires k < |s| ==> s[k] == c
    ensures IndexFrom(s, c, i) == k
    decreases k - i
  {
    if i < k {
      IndexFromAt(s, c, i + 1, k);
    }
  }

  // ---------------------------------------------------------------------------------------------
  // String.split

  /** Drops the trailing empty strings, as `split` with no limit does. */
  function StripTrailingEmpty(parts: seq<string>): (r: seq<string>)
    ensures |r| <= |parts| && r == parts[..|r|]
    ensures r != [] ==> r[|r| - 1] != []
    ensures forall i :: |r| <= i < |parts| ==> parts[i] == []
  {
    if |parts| > 0 && parts[|parts| - 1] == [] then StripTrailingEmpty(parts[..|parts| - 1]) else parts
  }

  /** The pieces of s[i..] between the maximal runs of `\s`, trailing empty pieces included. */
  function SplitSpacesFrom(s: string, i: nat): (parts: seq<string>)
    requires i <= |s|
    ensures |parts| >= 1
    decreases |s| - i
  {
    var p := FirstSpaceFrom(s, i);
    if p == |s| then [s[i..]] else [s[i..p]] + SplitSpacesFrom(s, SkipSpaces(s, p))
  }

  /** `s.split("\\s+")`: a leading empty piece is kept, trailing empty pieces are dropped,
      and a string without any match is returned whole. */
  function SplitOnSpaces(s: string): seq<string> {
    if FirstSpaceFrom(s, 0) == |s| then [s] else StripTrailingEmpty(SplitSpacesFrom(s, 0))
  }

  /** Two space-free words with one space between them split into those words. */
  lemma SplitOnSpacesTwoWords(a: string, b: string)
    requires a != [] && b != [] && HasNoRegexSpace(a) && HasNoRegexSpace(b)
    ensures SplitOnSpaces(a + " " + b) == [a, b]
  {
    var s := a + " " + b;
    var n := |a|;
    forall m | 0 <= m < n ensures s[m] == a[m] && !IsRegexSpace(s[m]) {
    }
    forall m | n + 1 <= m < |s| ensures s[m] == b[m - n - 1] && !IsRegexSpace(s[m]) {
    }
    FirstSpaceFromAt(s, 0, n);
    SkipSpacesAt(s, n, n + 1);
    FirstSpaceFromAt(s, n + 1, |s|);
    assert s[..n] == a;
    assert s[n + 1..] == b;
    assert SplitSpacesFrom(s, 0) == [a, b];
  }

  /** A string without `\s` does not split. */
  lemma SplitOnSpacesNoSpace(s: string)
    requires HasNoRegexSpace(s)
    ensures SplitOnSpaces(s) == [s]
  {
    FirstSpaceFromAt(s, 0, |s|);
  }

  /** A space-free word followed only by spaces splits into that single word. */
  lemma SplitOnSpacesOneWord(a: string, pad: string)
    requires a != [] && HasNoRegexSpace(a) && pad != [] && AllRegexSpace(pad)
    ensures SplitOnSpaces(a + pad) == [a]
  {
    var s := a + pad;
    var n := |a|;
    forall m | 0 <= m < n ensures s[m] == a[m] && !IsRegexSpace(s[m]) {
    }
    forall m | n <= m < |s| ensures s[m] == pad[m - n] && IsRegexSpace(s[m]) {
    }
    FirstSpaceFromAt(s, 0, n);
    SkipSpacesAt(s, n, |s|);
    FirstSpaceFromAt(s, |s|, |s|);
    assert s[..n] == a && s[|s|..] == [];
    assert SplitSpacesFrom(s, |s|) == [[]];
    assert SplitSpacesFrom(s, 0) == [a, []];
    assert [a, []][..1] == [a];
    assert StripTrailingEmpty([a]) == [a];
  }

  /** The pieces of s[i..] around each `\s*\|\s*`, trailing empty pieces included. The match
      takes the whole run of `\s` before the first bar and the whole run after it. */
  function SplitPipesFrom(s: string, i: nat): (parts: seq<string>)
    requires i <= |s|
    ensures |parts| >= 1
    decreases |s| - i
  {
    var p := IndexFrom(s, '|', i);
    if p == |s| then [s[i..]]
    else [s[i..BackSpaces(s, i, p)]] + SplitPipesFrom(s, SkipSpaces(s, p + 1))
  }

  /** `s.split("\\s*\\|\\s*")`. */
  function SplitOnPipes(s: string): seq<string> {
    if IndexOf(s, '|') == |s| then [s] else StripTrailingEmpty(SplitPipesFrom(s, 0))
  }

  lemma ConcatAssoc(a: string, b: string, c: string)
    ensures (a + b) + c == a + (b + c)
  {
  }

  /** `String.join(sep, fields)`. */
  function Join(fields: seq<string>, sep: string): string
  {
    if |fields| == 0 then "" else if |fields| == 1 then fields[0] else fields[0] + sep + Join(fields[1..], sep)
  }

  /** A field that survives `\s*\|\s*` splitting: no bar, no `\s` at either end, not empty. */
  predicate IsPipeField(f: string) {
    f != [] && Lacks(f, '|') && !IsRegexSpace(f[0]) && !IsRegexSpace(f[|f| - 1])
  }

  predicate AllPipeFields(fields: seq<string>) {
    forall i :: 0 <= i < |fields| ==> IsPipeField(fields[i])
  }

  lemma JoinStartsWithFirst(fields: seq<string>, sep: string)
    requires |fields| >= 1 && fields[0] != []
    ensures Join(fields, sep) != [] && Join(fields, sep)[0] == fields[0][0]
  {
  }

  lemma {:induction false} JoinEndsWithLast(fields: seq<string>, sep: string)
    requires |fields| >= 1 && fields[|fields| - 1] != []
    ensures var s, f := Join(fields, sep), fields[|fields| - 1]; s != [] && s[|s| - 1] == f[|f| - 1]
    decreases |fields|
  {
    if |fields| > 1 {
      assert fields[1..][|fields| - 2] == fields[|fields| - 1];
      JoinEndsWithLast(fields[1..], sep);
    }
  }

  /** Where the characters of `f + sep + tail` sit when it starts at position i of s; p is the
      position of the bar and q the position where tail starts. */
  lemma PipeStepChars(s: string, i: nat, p: nat, q: nat, f: string, left: string, right: string, tail: string)
    requires tail != []
    requires i <= |s| && s[i..] == f + (left + "|" + right) + tail
    requires p == i + |f| + |left| && q == p + 1 + |right|
    ensures q < |s| && s[p] == '|' && s[q] == tail[0]
    ensures forall m :: i <= m < i + |f| ==> s[m] == f[m - i]
    ensures forall m :: i + |f| <= m < p ==> s[m] == left[m - i - |f|]
    ensures forall m :: p + 1 <= m < q ==> s[m] == right[m - p - 1]
    ensures s[i..i + |f|] == f && s[q..] == tail
  {
    var t := f + (left + "|" + right) + tail;
    forall m | 0 <= m < |t| ensures s[i + m] == t[m] {
      assert s[i..][m] == t[m];
    }
    forall m | i <= m < i + |f| ensures s[m] == f[m - i] {
      assert s[m] == t[m - i];
    }
    forall m | i + |f| <= m < p ensures s[m] == left[m - i - |f|] {
      assert s[m] == t[m - i];
    }
    assert s[p] == t[|f| + |left|];
    forall m | p + 1 <= m < q ensures s[m] == right[m - p - 1] {
      assert s[m] == t[m - i];
    }
    assert s[q] == t[q - i];
    assert s[i..i + |f|] == f by {
      forall m | 0 <= m < |f| ensures s[i..i + |f|][m] == f[m] {
        assert s[i + m] == f[m];
      }
    }
    assert s[q..] == tail by {
      assert s[q..] == s[i..][q - i..];
      assert t[q - i..] == tail;
    }
  }

  /** Where the scans of SplitPipesFrom stop when `f + sep + tail` starts at position i. */
  lemma PipeStepLayout(s: string, i: nat, p: nat, q: nat, f: string, left: string, right: string, tail: string)
    requires IsPipeField(f) && AllRegexSpace(left) && AllRegexSpace(right)
    requires tail != [] && !IsRegexSpace(tail[0])
    requires i <= |s| && s[i..] == f + (left + "|" + right) + tail
    requires p == i + |f| + |left| && q == p + 1 + |right|
    ensures p < |s| && IndexFrom(s, '|', i) == p
    ensures BackSpaces(s, i, p) == i + |f| && SkipSpaces(s, p + 1) == q
    ensures s[i..i + |f|] == f && q <= |s| && s[q..] == tail
  {
    PipeStepChars(s, i, p, q, f, left, right, tail);
    forall m | i <= m < p ensures s[m] != '|' {
      if m < i + |f| {
        assert s[m] == f[m - i];
      } else {
        assert IsRegexSpace(left[m - i - |f|]);
      }
    }
    IndexFromAt(s, '|', i, p);
    assert s[i + |f| - 1] == f[|f| - 1];
    BackSpacesAt(s, i, i + |f|, p);
    SkipSpacesAt(s, p + 1, q);
  }

  /** One step of splitting from position i: the piece up to the padding before the first bar
      comes off, and the scan resumes after the padding that follows it. */
  lemma SplitPipesFromStep(s: string, i: nat, p: nat, q: nat, f: string)
    requires i <= p < |s| && IndexFrom(s, '|', i) == p
    requires BackSpaces(s, i, p) == i + |f| && SkipSpaces(s, p + 1) == q
    requires s[i..i + |f|] == f
    ensures SplitPipesFrom(s, i) == [f] + SplitPipesFrom(s, q)
  {
  }

  /** Joined fields lose their first field and its separator in one step of splitting. */
  lemma SplitPipesFromJoinStep(s: string, i: nat, q: nat, fields: seq<string>, left: string, right: string)
    requires |fields| > 1 && AllPipeFields(fields)
    requires AllRegexSpace(left) && AllRegexSpace(right)
    requires i <= |s| && s[i..] == Join(fields, left + "|" + right)
    requires q == i + |fields[0]| + |left| + 1 + |right|
    ensures q <= |s| && s[q..] == Join(fields[1..], left + "|" + right)
    ensures SplitPipesFrom(s, i) == [fields[0]] + SplitPipesFrom(s, q)
  {
    var sep := left + "|" + right;
    var tail := Join(fields[1..], sep);
    var p := i + |fields[0]| + |left|;
    JoinStartsWithFirst(fields[1..], sep);
    PipeStepLayout(s, i, p, q, fields[0], left, right, tail);
    SplitPipesFromStep(s, i, p, q, fields[0]);
  }

  /** Splitting fields joined by a bar padded with any `\s` gives the fields back, raw. */
  lemma {:induction false} SplitPipesFromJoin(s: string, i: nat, fields: seq<string>, left: string, right: string)
    requires |fields| >= 1 && AllPipeFields(fields)
    requires AllRegexSpace(left) && AllRegexSpace(right)
    requires i <= |s| && s[i..] == Join(fields, left + "|" + right)
    ensures SplitPipesFrom(s, i) == fields
    decreases |fields|
  {
    if |fields| > 1 {
      var q := i + |fields[0]| + |left| + 1 + |right|;
      SplitPipesFromJoinStep(s, i, q, fields, left, right);
      SplitPipesFromJoin(s, q, fields[1..], left, right);
      assert fields == [fields[0]] + fields[1..];
    } else {
      SplitPipesFromLast(s, i, fields[0]);
    }
  }

  /** The last field, with no bar after it, is the last piece. */
  lemma SplitPipesFromLast(s: string, i: nat, f: string)
    requires i <= |s| && s[i..] == f && Lacks(f, '|')
    ensures SplitPipesFrom(s, i) == [f]
  {
    forall m | i <= m < |s| ensures s[m] != '|' {
      assert s[m] == s[i..][m - i];
    }
    IndexFromAt(s, '|', i, |s|);
  }

  /** `split("\\s*\\|\\s*")` inverts `String.join` with " | ", "|", or any other padding. */
  lemma SplitOnPipesJoin(fields: seq<string>, left: string, right: string)
    requires |fields| >= 1 && AllPipeFields(fields)
    requires AllRegexSpace(left) && AllRegexSpace(right)
    ensures SplitOnPipes(Join(fields, left + "|" + right)) == fields
  {
    var s := Join(fields, left + "|" + right);
    if |fields| > 1 {
      assert s[0..] == s;
      SplitPipesFromJoin(s, 0, fields, left, right);
      assert StripTrailingEmpty(fields) == fields;
    }
  }

  /** Joining one more field appends the separator and the field. */
  lemma {:induction false} JoinSnoc(fields: seq<string>, f: string, sep: string)
    requires |fields| >= 1
    ensures Join(fields + [f], sep) == Join(fields, sep) + sep + f
    decreases |fields|
  {
    if |fields| > 1 {
      assert (fields + [f])[1..] == fields[1..] + [f];
      JoinSnoc(fields[1..], f, sep);
      ConcatAssoc(fields[0] + sep, Join(fields[1..], sep) + sep, f);
      ConcatAssoc(fields[0] + sep, Join(fields[1..], sep), sep);
    }
  }

  /** A last field followed by padding and a bar, then nothing: the field and an empty piece. */
  lemma SplitPipesFromBarEnd(s: string, i: nat, f: string, left: string)
    requires IsPipeField(f) && AllRegexSpace(left)
    requires i <= |s| && s[i..] == f + left + "|"
    ensures SplitPipesFrom(s, i) == [f, []]
  {
    var p := i + |f| + |left|;
    var t := f + left + "|";
    assert |s| == p + 1;
    forall m | 0 <= m < |t| ensures s[i + m] == t[m] {
      assert s[i..][m] == t[m];
    }
    forall m | i <= m < p ensures s[m] != '|' && (m >= i + |f| ==> IsRegexSpace(s[m])) {
      assert s[m] == t[m - i];
      if m < i + |f| {
        assert t[m - i] == f[m - i];
      } else {
        assert t[m - i] == left[m - i - |f|];
      }
    }
    assert s[p] == t[p - i];
    IndexFromAt(s, '|', i, p);
    assert s[i + |f| - 1] == t[|f| - 1] == f[|f| - 1];
    BackSpacesAt(s, i, i + |f|, p);
    assert s[i..i + |f|] == f by {
      forall m | 0 <= m < |f| ensures s[i..i + |f|][m] == f[m] {
        assert s[i + m] == t[m];
      }
    }
    SplitPipesFromStep(s, i, p, |s|, f);
    assert s[|s|..] == [];
  }

  /** Splitting joined fields followed by a padded bar gives the fields and an empty piece. */
  lemma {:induction false} SplitPipesFromJoinBar(s: string, i: nat, fields: seq<string>, left: string, right: string)
    requires |fields| >= 1 && AllPipeFields(fields)
    requires AllRegexSpace(left) && AllRegexSpace(right)
    requires i <= |s| && s[i..] == Join(fields, left + "|" + right) + left + "|"
    ensures SplitPipesFrom(s, i) == fields + [[]]
    decreases |fields|
  {
    var sep := left + "|" + right;
    if |fields| > 1 {
      var rest := Join(fields[1..], sep);
      var tail := rest + left + "|";
      var p := i + |fields[0]| + |left|;
      var q := p + 1 + |right|;
      ConcatAssoc(fields[0] + sep, rest, left);
      ConcatAssoc(fields[0] + sep, rest + left, "|");
      assert s[i..] == fields[0] + sep + tail;
      JoinStartsWithFirst(fields[1..], sep);
      PipeStepLayout(s, i, p, q, fields[0], left, right, tail);
      SplitPipesFromStep(s, i, p, q, fields[0]);
      SplitPipesFromJoinBar(s, q, fields[1..], left, right);
      assert fields + [[]] == [fields[0]] + (fields[1..] + [[]]);
    } else {
      SplitPipesFromBarEnd(s, i, fields[0], left);
    }
  }

  /** A bar at the very end of the line adds an empty piece, which `split` drops. */
  lemma SplitOnPipesJoinBar(fields: seq<string>, left: string, right: string)
    requires |fields| >= 1 && AllPipeFields(fields)
    requires AllRegexSpace(left) && AllRegexSpace(right)
    ensures SplitOnPipes(Join(fields, left + "|" + right) + left + "|") == fields
  {
    var s := Join(fields, left + "|" + right) + left + "|";
    assert s[0..] == s;
    SplitPipesFromJoinBar(s, 0, fields, left, right);
    assert s[|s| - 1] == '|';
    assert (fields + [[]])[..|fields|] == fields;
    assert StripTrailingEmpty(fields) == fields;
  }

  // ---------------------------------------------------------------------------------------------
  // split(regex, 2) around a marker word such as "/by"

  /** If `\s+<marker>\s+` matches at position i of s, the end of that match. The marker must
      not start with `\s`, so both runs of `\s` are maximal. */
  function MarkerMatchEnd(s: string, marker: string, i: nat): (r: Option<nat>)
    requires i <= |s|
    ensures r.Some? ==> i < r.value <= |s|
  {
    var j := SkipSpaces(s, i);
    var k := j + |marker|;
    if j > i && k < |s| && s[j..k] == marker && IsRegexSpace(s[k]) then Some(SkipSpaces(s, k))
    else None
  }

  /** The leftmost match of `\s+<marker>\s+` at or after position i. */
  function FindMarker(s: string, marker: string, i: nat): (r: Option<(nat, nat)>)
    requires i <= |s|
    ensures r.Some? ==> i <= r.value.0 < r.value.1 <= |s|
    decreases |s| - i
  {
    if i == |s| then None
    else
      match MarkerMatchEnd(s, marker, i)
      case Some(e) => Some((i, e))
      case None => FindMarker(s, marker, i + 1)
  }

  /** The search stops at the first position where the marker matches. */
  lemma {:induction false} FindMarkerFirst(s: string, marker: string, i: nat, n: nat, e: nat)
    requires i <= n < |s|
    requires forall m :: i <= m < n ==> MarkerMatchEnd(s, marker, m).None?
    requires MarkerMatchEnd(s, marker, n) == Some(e)
    ensures FindMarker(s, marker, i) == Some((n, e))
    decreases n - i
  {
    if i < n {
      FindMarkerFirst(s, marker, i + 1, n, e);
    }
  }

  /** `s.split("\\s+" + marker + "\\s+", 2)`: at most two pieces, around the first match. */
  function SplitAroundMarker(s: string, marker: string): (parts: seq<string>)
    ensures |parts| == 1 || |parts| == 2
  {
    match FindMarker(s, marker, 0)
    case None => [s]
    case Some((i, e)) => [s[..i], s[e..]]
  }

  /** No match of the marker starts inside a prefix of s that ends in a non-space and never
      contains the marker's first character. */
  lemma NoMarkerInside(s: string, marker: string, n: nat, m: nat)
    requires m < n <= |s| && !IsRegexSpace(s[n - 1])
    requires marker != [] && forall i :: 0 <= i < n ==> s[i] != marker[0]
    ensures MarkerMatchEnd(s, marker, m).None?
  {
    var j := SkipSpaces(s, m);
    SkipSpacesAll(s, m);
    if j > m && j + |marker| < |s| {
      assert j < n;
      assert s[j..j + |marker|][0] == s[j];
    }
  }

  /** The marker between two single spaces matches at n when a non-space follows. */
  lemma MarkerAt(s: string, marker: string, n: nat)
    requires marker != [] && !IsRegexSpace(marker[0])
    requires n + |marker| + 2 < |s| && !IsRegexSpace(s[n + |marker| + 2])
    requires s[n] == ' ' && s[n + 1..n + 1 + |marker|] == marker && s[n + 1 + |marker|] == ' '
    ensures MarkerMatchEnd(s, marker, n) == Some(n + |marker| + 2)
  {
    assert s[n + 1] == s[n + 1..n + 1 + |marker|][0];
    SkipSpacesAt(s, n, n + 1);
    SkipSpacesAt(s, n + 1 + |marker|, n + |marker| + 2);
  }

  /** Where the pieces of `a + " " + marker + " " + b` sit. */
  lemma MarkerJoinLayout(s: string, a: string, marker: string, b: string)
    requires marker != [] && b != [] && Lacks(a, marker[0])
    requires s == a + " " + marker + " " + b
    ensures forall i :: 0 <= i < |a| ==> s[i] != marker[0]
    ensures |a| > 0 ==> s[|a| - 1] == a[|a| - 1]
    ensures s[|a|] == ' ' && s[|a| + 1..|a| + 1 + |marker|] == marker && s[|a| + 1 + |marker|] == ' '
    ensures s[|a| + |marker| + 2] == b[0]
    ensures s[..|a|] == a && s[|a| + |marker| + 2..] == b
  {
    forall i | 0 <= i < |a| ensures s[i] == a[i] {
    }
  }

  /** A match found at n, with nothing before it, splits s at that match. */
  lemma SplitAroundMarkerAt(s: string, marker: string, n: nat)
    requires marker != [] && !IsRegexSpace(marker[0])
    requires 0 < n && n + |marker| + 2 < |s| && !IsRegexSpace(s[n - 1])
    requires forall i :: 0 <= i < n ==> s[i] != marker[0]
    requires s[n] == ' ' && s[n + 1..n + 1 + |marker|] == marker && s[n + 1 + |marker|] == ' '
    requires !IsRegexSpace(s[n + |marker| + 2])
    ensures SplitAroundMarker(s, marker) == [s[..n], s[n + |marker| + 2..]]
  {
    MarkerAt(s, marker, n);
    forall m | 0 <= m < n ensures MarkerMatchEnd(s, marker, m).None? {
      NoMarkerInside(s, marker, n, m);
    }
    FindMarkerFirst(s, marker, 0, n, n + |marker| + 2);
  }

  /** `a + " " + marker + " " + b` splits back into a and b when a cannot contain a match:
      its last character is not `\s` and it never contains the marker's first character. */
  lemma SplitAroundMarkerJoin(a: string, marker: string, b: string)
    requires a != [] && !IsRegexSpace(a[|a| - 1])
    requires marker != [] && !IsRegexSpace(marker[0]) && Lacks(a, marker[0])
    requires b != [] && !IsRegexSpace(b[0])
    ensures SplitAroundMarker(a + " " + marker + " " + b, marker) == [a, b]
  {
    var s := a + " " + marker + " " + b;
    MarkerJoinLayout(s, a, marker, b);
    SplitAroundMarkerAt(s, marker, |a|);
  }

  /** The search finds nothing in a stretch where no match starts. */
  lemma {:induction false} NoMatchFrom(s: string, marker: string, i: nat)
    requires i <= |s|
    requires forall m :: i <= m < |s| ==> MarkerMatchEnd(s, marker, m).None?
    ensures FindMarker(s, marker, i).None?
    decreases |s| - i
  {
    if i < |s| {
      NoMatchFrom(s, marker, i + 1);
    }
  }

  /** Without any `\s` in it, s holds no match and comes back whole. */
  lemma SplitAroundMarkerNoSpace(s: string, marker: string)
    requires HasNoRegexSpace(s)
    ensures SplitAroundMarker(s, marker) == [s]
  {
    forall m | 0 <= m < |s| ensures MarkerMatchEnd(s, marker, m).None? {
      SkipSpacesAt(s, m, m);
    }
    NoMatchFrom(s, marker, 0);
  }

  // ---------------------------------------------------------------------------------------------
  // Decimal numbers

  predicate IsDigit(c: char) { '0' <= c <= '9' }

  predicate AllDigits(s: string) { forall i :: 0 <= i < |s| ==> IsDigit(s[i]) }

  function DigitChar(d: nat): (c: char)
    requires d < 10
    ensures IsDigit(c) && c as int - '0' as int == d
  {
    ('0' as int + d) as char
  }

  /** The value of a string of decimal digits. */
  function DigitsValue(s: string): nat
    requires AllDigits(s)
    decreases |s|
  {
    if |s| == 0 then 0 else 10 * DigitsValue(s[..|s| - 1]) + (s[|s| - 1] as int - '0' as int)
  }

  /** `Integer.toString` of a non-negative value. */
  function NatToString(n: nat): (s: string)
    ensures s != [] && AllDigits(s)
    decreases n
  {
    if n < 10 then [DigitChar(n)] else NatToString(n / 10) + [DigitChar(n % 10)]
  }

  /** `Integer.toString` (string concatenation of an int). */
  function IntToString(n: int): (s: string)
    ensures s != []
  {
    if n < 0 then "-" + NatToString(-n) else NatToString(n)
  }

  lemma {:induction false} NatToStringValue(n: nat)
    ensures DigitsValue(NatToString(n)) == n
    decreases n
  {
    if n >= 10 {
      var s := NatToString(n);
      assert s[..|s| - 1] == NatToString(n / 10);
      NatToStringValue(n / 10);
    }
  }

  /** `Integer.parseInt(s)`: an optional sign, one or more decimal digits, and a value that fits
      in 32 bits; anything else is a NumberFormatException (here None). Only ASCII digits are
      modelled. */
  function ParseInt(s: string): (r: Option<int>)
    ensures r.Some? ==> IntMin <= r.value <= IntMax
    ensures r.Some? ==> s != [] && AllDigits(if s[0] == '-' || s[0] == '+' then s[1..] else s)
  {
    if |s| == 0 then None
    else
      var digits := if s[0] == '-' || s[0] == '+' then s[1..] else s;
      if |digits| == 0 || !AllDigits(digits) then None
      else
        var v: int := if s[0] == '-' then 0 - DigitsValue(digits) else DigitsValue(digits);
        if IntMin <= v <= IntMax then Some(v) else None
  }

  /** An unsigned run of digits parses to its value when that value fits. */
  lemma ParseIntOfDigits(s: string)
    requires s != [] && AllDigits(s) && DigitsValue(s) <= IntMax
    ensures ParseInt(s) == Some(DigitsValue(s))
  {
  }

  /** A minus sign before a run of digits parses to minus its value when that value fits. */
  lemma ParseIntOfNegated(s: string, t: string)
    requires t != [] && AllDigits(t) && DigitsValue(t) <= -IntMin
    requires s == "-" + t
    ensures ParseInt(s) == Some(0 - DigitsValue(t))
  {
    assert s[1..] == t;
  }

  /** `Integer.parseInt` inverts `Integer.toString` on every 32-bit value. */
  lemma ParseIntOfToString(n: int)
    requires IntMin <= n <= IntMax
    ensures ParseInt(IntToString(n)) == Some(n)
  {
    if n < 0 {
      NatToStringValue(-n);
      ParseIntOfNegated(IntToString(n), NatToString(-n));
    } else {
      NatToStringValue(n);
      ParseIntOfDigits(NatToString(n));
    }
  }
}
