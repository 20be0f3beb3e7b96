/**
 * The behaviour of the Python string operations the slideshow script relies on:
 * `str.isspace`, `str.split()` and `str.split(sep)`, `str.strip()`,
 * `str.replace`, `str.endswith`, and the decimal text of an `int` in an f-string.
 */
module Text {

  /** Python's `str.isspace()` for one character. */
  predicate IsSpace(c: char) {
    ('\t' <= c <= '\r') || ('\U{1C}' <= c <= '\U{1F}') || c == ' '
    || c == '\U{85}' || c == '\U{A0}' || c == '\U{1680}'
    || ('\U{2000}' <= c <= '\U{200A}') || c == '\U{2028}' || c == '\U{2029}'
    || c == '\U{202F}' || c == '\U{205F}' || c == '\U{3000}'
  }

  /** A non-empty string without whitespace: what `str.split()` can return as one element. */
  predicate IsWord(w: string) {
    w != [] && forall i :: 0 <= i < |w| ==> !IsSpace(w[i])
  }

  /** Every character is whitespace (so also the empty string). */
  predicate IsBlank(s: string) {
    forall i :: 0 <= i < |s| ==> IsSpace(s[i])
  }

  // ---------------------------------------------------------------------------
  // str.split() without a separator
  // ---------------------------------------------------------------------------

  /** The length of the leading run of non-whitespace characters. */
  function WordEnd(s: string): (k: nat)
    ensures k <= |s|
    ensures forall i :: 0 <= i < k ==> !IsSpace(s[i])
    ensures k < |s| ==> IsSpace(s[k])
  {
    if s == [] || IsSpace(s[0]) then 0 else 1 + WordEnd(s[1..])
  }

  /** `s.split()`: the maximal runs of non-whitespace characters, left to right. */
  function Words(s: string): (ws: seq<string>)
    ensures forall w :: w in ws ==> IsWord(w)
    decreases |s|
  {
    if s == [] then []
    else if IsSpace(s[0]) then Words(s[1..])
    else
      var k := WordEnd(s);
      [s[..k]] + Words(s[k..])
  }

  /** The words of every string of `lines`, flattened in order. */
  function WordsOf(lines: seq<string>): seq<string> {
    if lines == [] then [] else Words(lines[0]) + WordsOf(lines[1..])
  }

  lemma {:induction false} WordsOfAppend(a: seq<string>, b: seq<string>)
    ensures WordsOf(a + b) == WordsOf(a) + WordsOf(b)
  {
    if a != [] {
      assert (a + b)[1..] == a[1..] + b;
      WordsOfAppend(a[1..], b);
    } else {
      assert a + b == b;
    }
  }

  lemma {:induction false} WordEndThroughSpace(a: string, c: char, b: string)
    requires IsSpace(c)
    ensures WordEnd(a + [c] + b) == WordEnd(a)
  {
    if a != [] && !IsSpace(a[0]) {
      assert (a + [c] + b)[1..] == a[1..] + [c] + b;
      WordEndThroughSpace(a[1..], c, b);
    }
  }

  /** A whitespace character separates words: splitting around it splits the two sides apart. */
  lemma {:induction false} WordsSpaceJoin(a: string, c: char, b: string)
    requires IsSpace(c)
    ensures Words(a + [c] + b) == Words(a) + Words(b)
    decreases |a|
  {
    var s := a + [c] + b;
    if a == [] {
      assert s[1..] == b;
    } else if IsSpace(a[0]) {
      assert s[1..] == a[1..] + [c] + b;
      WordsSpaceJoin(a[1..], c, b);
    } else {
      WordEndThroughSpace(a, c, b);
      var k := WordEnd(a);
      assert s[..k] == a[..k];
      assert s[k..] == a[k..] + [c] + b;
      WordsSpaceJoin(a[k..], c, b);
    }
  }

  /** A word splits into itself. */
  lemma WordsOfWord(w: string)
    requires IsWord(w)
    ensures Words(w) == [w]
  {
    var k := WordEnd(w);
    assert k == |w|;
    assert w[..k] == w && w[k..] == [];
  }

  /** Joining with a space in between concatenates the words: `(a + " " + w).split() == a.split() + [w]`. */
  lemma WordsAppendWord(a: string, w: string)
    requires IsWord(w)
    ensures Words(a + " " + w) == Words(a) + [w]
  {
    assert a + " " + w == a + [' '] + w;
    WordsSpaceJoin(a, ' ', w);
    WordsOfWord(w);
  }

  // ---------------------------------------------------------------------------
  // str.split(sep) and sep.join
  // ---------------------------------------------------------------------------

  /** `s.split(sep)` for a one-character separator: the pieces between separators, never empty. */
  function Split(s: string, sep: char): (parts: seq<string>)
    ensures |parts| >= 1
    ensures forall p :: p in parts ==> sep !in p
    decreases |s|
  {
    if s == [] then [""]
    else
      var init := Split(s[..|s| - 1], sep);
      if s[|s| - 1] == sep then init + [""]
      else init[..|init| - 1] + [init[|init| - 1] + [s[|s| - 1]]]
  }

  /** `[sep].join(parts)`: the pieces with one separator between neighbours. */
  function Join(parts: seq<string>, sep: char): string
    requires |parts| >= 1
  {
    if |parts| == 1 then parts[0]
    else Join(parts[..|parts| - 1], sep) + [sep] + parts[|parts| - 1]
  }

  /** Joining the pieces of a split gives back the string. */
  lemma {:induction false} JoinSplit(s: string, sep: char)
    ensures Join(Split(s, sep), sep) == s
    decreases |s|
  {
    if s != [] {
      var front := s[..|s| - 1];
      var c := s[|s| - 1];
      var init := Split(front, sep);
      JoinSplit(front, sep);
      assert s == front + [c];
      if c == sep {
        JoinEmptyLast(init, sep);
      } else {
        JoinGrowLast(init, c, sep);
      }
    }
  }

  lemma JoinEmptyLast(parts: seq<string>, sep: char)
    requires |parts| >= 1
    ensures Join(parts + [""], sep) == Join(parts, sep) + [sep]
  {
    assert (parts + [""])[..|parts|] == parts;
  }

  lemma JoinGrowLast(parts: seq<string>, c: char, sep: char)
    requires |parts| >= 1
    ensures var n := |parts|;
      Join(parts[..n - 1] + [parts[n - 1] + [c]], sep) == Join(parts, sep) + [c]
  {
    var n := |parts|;
    var grown := parts[..n - 1] + [parts[n - 1] + [c]];
    if n > 1 {
      assert grown[..n - 1] == parts[..n - 1];
    }
  }

  lemma {:induction false} SplitPiece(t: string, sep: char, p: string)
    requires sep !in p
    ensures Split(t + [sep] + p, sep) == Split(t, sep) + [p]
    decreases |p|
  {
    var s := t + [sep] + p;
    if p == [] {
      assert s[..|s| - 1] == t;
    } else {
      var q := p[..|p| - 1];
      assert s[..|s| - 1] == t + [sep] + q;
      SplitPiece(t, sep, q);
      assert q + [p[|p| - 1]] == p;
    }
  }

  lemma {:induction false} SplitNoSeparator(p: string, sep: char)
    requires sep !in p
    ensures Split(p, sep) == [p]
    decreases |p|
  {
    if p != [] {
      var q := p[..|p| - 1];
      SplitNoSeparator(q, sep);
      assert q + [p[|p| - 1]] == p;
    }
  }

  /** Splitting a join of separator-free pieces gives back the pieces. */
  lemma {:induction false} SplitJoin(parts: seq<string>, sep: char)
    requires |parts| >= 1
    requires forall p :: p in parts ==> sep !in p
    ensures Split(Join(parts, sep), sep) == parts
    decreases |parts|
  {
    var n := |parts|;
    if n == 1 {
      SplitNoSeparator(parts[0], sep);
    } else {
      var init := parts[..n - 1];
      assert forall p :: p in init ==> p in parts;
      SplitJoin(init, sep);
      SplitPiece(Join(init, sep), sep, parts[n - 1]);
      assert init + [parts[n - 1]] == parts;
    }
  }

  lemma WordsOfSingle(line: string)
    ensures WordsOf([line]) == Words(line)
  {
    assert [line][1..] == [];
  }

  /** Words do not care whether text is cut at a whitespace character first. */
  lemma {:induction false} WordsOfJoin(parts: seq<string>, sep: char)
    requires |parts| >= 1
    requires IsSpace(sep)
    ensures Words(Join(parts, sep)) == WordsOf(parts)
    decreases |parts|
  {
    var n := |parts|;
    if n == 1 {
      WordsOfSingle(parts[0]);
      assert parts == [parts[0]];
    } else {
      var init := parts[..n - 1];
      var last := parts[n - 1];
      assert Join(parts, sep) == Join(init, sep) + [sep] + last;
      WordsOfJoin(init, sep);
      WordsSpaceJoin(Join(init, sep), sep, last);
      assert parts == init + [last];
      WordsOfAppend(init, [last]);
      WordsOfSingle(last);
    }
  }

  /** The words of the pieces of `s.split(sep)`, for a whitespace separator, are the words of `s`. */
  lemma WordsOfSplit(s: string, sep: char)
    requires IsSpace(sep)
    ensures WordsOf(Split(s, sep)) == Words(s)
  {
    JoinSplit(s, sep);
    WordsOfJoin(Split(s, sep), sep);
  }

  // ---------------------------------------------------------------------------
  // str.strip()
  // ---------------------------------------------------------------------------

  /** `s.lstrip()`. */
  function TrimStart(s: string): (r: string)
    ensures |r| <= |s| && r == s[|s| - |r|..]
    ensures forall i :: 0 <= i < |s| - |r| ==> IsSpace(s[i])
    ensures r == [] || !IsSpace(r[0])
  {
    if s != [] && IsSpace(s[0]) then TrimStart(s[1..]) else s
  }

  /** `s.rstrip()`. */
  function TrimEnd(s: string): (r: string)
    ensures |r| <= |s| && r == s[..|r|]
    ensures forall i :: |r| <= i < |s| ==> IsSpace(s[i])
    ensures r == [] || !IsSpace(r[|r| - 1])
  {
    if s != [] && IsSpace(s[|s| - 1]) then TrimEnd(s[..|s| - 1]) else s
  }

  /** `s.strip()`: empty exactly for all-whitespace strings, otherwise framed by non-whitespace. */
  function Strip(s: string): (r: string)
    ensures r == [] <==> IsBlank(s)
    ensures r != [] ==> !IsSpace(r[0]) && !IsSpace(r[|r| - 1])
  {
    var t := TrimStart(s);
    var r := TrimEnd(t);
    assert r != [] ==> r[0] == t[0] == s[|s| - |t|];
    assert r == [] ==> t == [];
    r
  }

  // ---------------------------------------------------------------------------
  // str.endswith, `in` and str.replace
  // ---------------------------------------------------------------------------

  predicate StartsWith(s: string, prefix: string) {
    |prefix| <= |s| && s[..|prefix|] == prefix
  }

  /** `s.endswith(suffix)`. */
  predicate EndsWith(s: string, suffix: string) {
    |suffix| <= |s| && s[|s| - |suffix|..] == suffix
  }

  /** `pat in s`. */
  predicate Contains(s: string, pat: string) {
    exists i :: 0 <= i <= |s| && StartsWith(s[i..], pat)
  }

  /** `s.replace(pat, rep)`: non-overlapping occurrences of pat, found left to right, become rep. */
  function Replace(s: string, pat: string, rep: string): (r: string)
    requires pat != []
    decreases |s|
  {
    if |s| < |pat| then s
    else if s[..|pat|] == pat then rep + Replace(s[|pat|..], pat, rep)
    else [s[0]] + Replace(s[1..], pat, rep)
  }

  /** A string without an occurrence is left as it is. */
  lemma {:induction false} ReplaceAbsent(s: string, pat: string, rep: string)
    requires pat != []
    requires !Contains(s, pat)
    ensures Replace(s, pat, rep) == s
    decreases |s|
  {
    if |s| >= |pat| {
      assert s[0..] == s;
      assert !StartsWith(s[0..], pat);
      forall i | 0 <= i <= |s[1..]| ensures !StartsWith(s[1..][i..], pat) {
        assert s[1..][i..] == s[i + 1..];
      }
      ReplaceAbsent(s[1..], pat, rep);
    }
  }

  /**
   * A pattern whose first character occurs nowhere else in it cannot overlap itself,
   * so at most one occurrence fits in a window of its length.
   */
  predicate FirstCharUnique(pat: string) {
    pat != [] && forall i :: 0 < i < |pat| ==> pat[i] != pat[0]
  }

  /**
   * A replacement that cannot form a new occurrence of the pattern together
   * with the text around it. Both replacements of the script satisfy it.
   */
  predicate SafeRewrite(pat: string, rep: string) {
    && |pat| >= 2 && FirstCharUnique(pat)
    && rep != []
    && (forall i :: 0 < i < |pat| ==> rep[0] != pat[i])
    && (forall i :: 0 < i < |rep| ==> rep[i] != pat[0])
    && (rep[0] == pat[0] ==> |rep| >= 2 && rep[1] != pat[1])
  }

  lemma FirstDiffers(w: string, rep: string)
    ensures w != [] && rep != [] && rep[0] !in w ==> w[0] != rep[0]
  {
  }

  /** What the replaced text starts with, the original started with, for text free of both pivots. */
  lemma {:induction false} ReplacedPrefix(t: string, pat: string, rep: string, w: string)
    requires SafeRewrite(pat, rep)
    requires pat[0] !in w && rep[0] !in w
    requires StartsWith(Replace(t, pat, rep), w)
    ensures StartsWith(t, w)
    decreases |t|
  {
    if w != [] && |t| >= |pat| {
      if t[..|pat|] == pat {
        FirstDiffers(w, rep);
        assert false;
      } else {
        var r' := Replace(t[1..], pat, rep);
        assert Replace(t, pat, rep) == [t[0]] + r';
        assert ([t[0]] + r')[..|w|] == [t[0]] + r'[..|w| - 1];
        assert StartsWith(r', w[1..]);
        ReplacedPrefix(t[1..], pat, rep, w[1..]);
      }
    }
  }

  /** After a safe replacement no occurrence of the pattern is left. */
  lemma {:induction false} ReplaceLeavesNone(s: string, pat: string, rep: string)
    requires SafeRewrite(pat, rep)
    ensures !Contains(Replace(s, pat, rep), pat)
    decreases |s|
  {
    var r := Replace(s, pat, rep);
    if |s| < |pat| {
      assert r == s;
    } else if s[..|pat|] == pat {
      var rest := Replace(s[|pat|..], pat, rep);
      ReplaceLeavesNone(s[|pat|..], pat, rep);
      assert r == rep + rest;
      forall i | 0 <= i <= |r| ensures !StartsWith(r[i..], pat) {
        if i >= |rep| {
          assert r[i..] == rest[i - |rep|..];
        } else if i > 0 {
          assert r[i..][0] == rep[i];
        } else if rep[0] == pat[0] {
          assert r[i..][1] == rep[1];
        } else {
          assert r[i..][0] == rep[0];
        }
      }
    } else {
      var rest := Replace(s[1..], pat, rep);
      ReplaceLeavesNone(s[1..], pat, rep);
      assert r == [s[0]] + rest;
      forall i | 0 <= i <= |r| ensures !StartsWith(r[i..], pat) {
        if i > 0 {
          assert r[i..] == rest[i - 1..];
        } else if StartsWith(r, pat) {
          var w := pat[1..];
          assert pat[0] !in w;
          assert rep[0] !in w;
          assert StartsWith(rest, w);
          ReplacedPrefix(s[1..], pat, rep, w);
        }
      }
    }
  }

  /** A string that ends with the pattern ends with the replacement afterwards. */
  lemma {:induction false} ReplaceSuffix(s: string, pat: string, rep: string)
    requires FirstCharUnique(pat)
    requires EndsWith(s, pat)
    ensures EndsWith(Replace(s, pat, rep), rep)
    decreases |s|
  {
    var r := Replace(s, pat, rep);
    if s[..|pat|] == pat {
      var t := s[|pat|..];
      if |t| == 0 {
        assert r == rep + t;
      } else if |t| < |pat| {
        assert false;
      } else {
        assert t[|t| - |pat|..] == s[|s| - |pat|..];
        ReplaceSuffix(t, pat, rep);
      }
    } else {
      assert |s| > |pat|;
      assert s[1..][|s| - 1 - |pat|..] == s[|s| - |pat|..];
      ReplaceSuffix(s[1..], pat, rep);
    }
  }

  /** Replacing safely twice is replacing once. */
  lemma ReplaceIdempotent(s: string, pat: string, rep: string)
    requires SafeRewrite(pat, rep)
    ensures Replace(Replace(s, pat, rep), pat, rep) == Replace(s, pat, rep)
  {
    ReplaceLeavesNone(s, pat, rep);
    ReplaceAbsent(Replace(s, pat, rep), pat, rep);
  }

  // ---------------------------------------------------------------------------
  // Decimal text of a natural number, as an f-string renders an int
  // ---------------------------------------------------------------------------

  predicate IsDigits(s: string) {
    forall i :: 0 <= i < |s| ==> '0' <= s[i] <= '9'
  }

  function DigitChar(d: nat): (c: char)
    requires d < 10
    ensures '0' <= c <= '9'
  {
    (d + '0' as int) as char
  }

  /** `f"{n}"` for n >= 0: the shortest decimal representation. */
  function Decimal(n: nat): (s: string)
    ensures s != [] && IsDigits(s)
  {
    if n < 10 then [DigitChar(n)] else Decimal(n / 10) + [DigitChar(n % 10)]
  }

  /** The value of a string of decimal digits (`int(s)`, with 0 for the empty string). */
  function DecimalValue(s: string): nat
    requires IsDigits(s)
  {
    if s == [] then 0
    else 10 * DecimalValue(s[..|s| - 1]) + (s[|s| - 1] as int - '0' as int)
  }

  /** Reading the decimal text back gives the number. */
  lemma {:induction false} DecimalRoundTrip(n: nat)
    ensures DecimalValue(Decimal(n)) == n
  {
    var s := Decimal(n);
    if n >= 10 {
      DecimalRoundTrip(n / 10);
      assert s[..|s| - 1] == Decimal(n / 10);
    }
  }

  /** Different numbers have different decimal texts. */
  lemma DecimalInjective(m: nat, n: nat)
    requires Decimal(m) == Decimal(n)
    ensures m == n
  {
    DecimalRoundTrip(m);
    DecimalRoundTrip(n);
  }
}
