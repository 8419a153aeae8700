/** String helpers with the meaning Python's `str` methods give them:
    whitespace stripping, joining and splitting on a separator, substring
    tests, case folding and repetition. Strings are sequences of Unicode code
    points, as Python's are. */
module Strings {
  import opened Sums

  /** Python's `str.isspace()` set: the code points `str.strip()` removes. */
  predicate IsSpace(c: char)
  {
    || ('\t' <= c <= '\r')
    || ('\U{1C}' <= c <= '\U{1F}')
    || c == ' ' || c == '\U{85}' || c == '\U{A0}' || c == '\U{1680}'
    || ('\U{2000}' <= c <= '\U{200A}')
    || c == '\U{2028}' || c == '\U{2029}' || c == '\U{202F}' || c == '\U{205F}'
    || c == '\U{3000}'
  }

  /** `s` with its longest whitespace prefix removed. */
  function TrimStart(s: string): (r: string)
    ensures |r| <= |s| && r == s[|s| - |r|..]
    ensures forall i :: 0 <= i < |s| - |r| ==> IsSpace(s[i])
    ensures r == [] || !IsSpace(r[0])
    decreases |s|
  {
    if s != [] && IsSpace(s[0]) then TrimStart(s[1..]) else s
  }

  /** `s` with its longest whitespace suffix removed. */
  function TrimEnd(s: string): (r: string)
    ensures |r| <= |s| && r == s[..|r|]
    ensures forall i :: |r| <= i < |s| ==> IsSpace(s[i])
    ensures r == [] || !IsSpace(r[|r| - 1])
    decreases |s|
  {
    if s != [] && IsSpace(s[|s| - 1]) then TrimEnd(s[..|s| - 1]) else s
  }

  /** Python's `s.strip()`: the slice of `s` left once the whitespace at both
      ends is gone; it neither starts nor ends with whitespace. */
  function Strip(s: string): (r: string)
    ensures var lead := |s| - |TrimStart(s)|;
      && lead + |r| <= |s|
      && r == s[lead..lead + |r|]
      && (forall i :: 0 <= i < lead ==> IsSpace(s[i]))
      && (forall i :: lead + |r| <= i < |s| ==> IsSpace(s[i]))
    ensures r == [] || (!IsSpace(r[0]) && !IsSpace(r[|r| - 1]))
  {
    TrimEnd(TrimStart(s))
  }

  /** A string with no whitespace at either end is its own strip. */
  lemma StripUnchanged(s: string)
    requires s == [] || (!IsSpace(s[0]) && !IsSpace(s[|s| - 1]))
    ensures Strip(s) == s
  {
  }

  /** Strip removes exactly the whitespace around a text that neither starts
      nor ends with whitespace, however much there is on either side. */
  lemma StripSurrounded(a: string, t: string, b: string)
    requires t != [] && !IsSpace(t[0]) && !IsSpace(t[|t| - 1])
    requires forall i :: 0 <= i < |a| ==> IsSpace(a[i])
    requires forall i :: 0 <= i < |b| ==> IsSpace(b[i])
    ensures Strip(a + t + b) == t
  {
    var s := a + t + b;
    var r := Strip(s);
    var lead := |s| - |TrimStart(s)|;
    assert s[|a|] == t[0];
    assert s[|a| + |t| - 1] == t[|t| - 1];
    assert r != [];
    assert r[0] == s[lead];
    assert lead == |a|;
    assert r[|r| - 1] == s[lead + |r| - 1];
    assert |r| == |t|;
    assert s[|a|..|a| + |t|] == t;
  }

  /** `n` copies of `c`; Python's `c * n`, empty for `n <= 0`. */
  function Repeat(c: char, n: int): (r: string)
    ensures |r| == if n <= 0 then 0 else n
    ensures forall i :: 0 <= i < |r| ==> r[i] == c
  {
    if n <= 0 then "" else seq(n, _ => c)
  }

  /** Trailing padding spaces are exactly what strip removes again. */
  lemma StripPadded(t: string, n: int)
    requires t == [] || (!IsSpace(t[0]) && !IsSpace(t[|t| - 1]))
    ensures Strip(t + Repeat(' ', n)) == t
  {
    if t != [] {
      assert t + Repeat(' ', n) == [] + t + Repeat(' ', n);
      StripSurrounded([], t, Repeat(' ', n));
    }
  }

  /** Python's `s.replace("\n", " ")`. */
  function ReplaceNewlines(s: string): (r: string)
    ensures |r| == |s|
    ensures '\n' !in r
    ensures forall i :: 0 <= i < |s| && s[i] != '\n' ==> r[i] == s[i]
    ensures forall i :: 0 <= i < |s| && s[i] == '\n' ==> r[i] == ' '
  {
    seq(|s|, i requires 0 <= i < |s| => if s[i] == '\n' then ' ' else s[i])
  }

  /** Text without a newline (`\n`) is left as it is. */
  lemma ReplaceNewlinesNoop(s: string)
    requires '\n' !in s
    ensures ReplaceNewlines(s) == s
  {
    assert forall i :: 0 <= i < |s| ==> s[i] in s;
  }

  /** Python's `sep.join(parts)`. */
  function Join(parts: seq<string>, sep: string): (r: string)
  {
    if |parts| == 0 then ""
    else if |parts| == 1 then parts[0]
    else Join(parts[..|parts| - 1], sep) + sep + parts[|parts| - 1]
  }

  function Lengths(parts: seq<string>): (r: seq<int>)
    ensures |r| == |parts|
    ensures forall i :: 0 <= i < |parts| ==> r[i] == |parts[i]|
  {
    seq(|parts|, i requires 0 <= i < |parts| => |parts[i]|)
  }

  /** A join of `n >= 1` parts is as long as the parts plus `n - 1` separators. */
  lemma {:induction false} JoinLength(parts: seq<string>, sep: string)
    requires |parts| >= 1
    ensures |Join(parts, sep)| == SumInt(Lengths(parts)) + |sep| * (|parts| - 1)
  {
    var k := |parts| - 1;
    assert Lengths(parts)[..k] == Lengths(parts[..k]);
    if k == 0 {
      assert SumInt(Lengths(parts)[..0]) == 0;
    } else {
      JoinLength(parts[..k], sep);
    }
  }

  /** Every character of a join comes from a part or from the separator. */
  lemma {:induction false} JoinKeeps(P: char -> bool, parts: seq<string>, sep: string)
    requires forall c :: c in sep ==> P(c)
    requires forall i, c :: 0 <= i < |parts| && c in parts[i] ==> P(c)
    ensures forall c :: c in Join(parts, sep) ==> P(c)
  {
    if |parts| > 1 {
      JoinKeeps(P, parts[..|parts| - 1], sep);
    }
  }

  /** Python's `s.split(c)` for a one-character separator. */
  function SplitOn(s: string, c: char): (r: seq<string>)
    ensures |r| >= 1
  {
    if s == [] then [""]
    else
      var init := SplitOn(s[..|s| - 1], c);
      if s[|s| - 1] == c then init + [""]
      else init[..|init| - 1] + [init[|init| - 1] + [s[|s| - 1]]]
  }

  /** Splitting a text free of the separator yields that text alone. */
  lemma {:induction false} SplitOnNone(s: string, c: char)
    requires c !in s
    ensures SplitOn(s, c) == [s]
  {
    if s != [] {
      var k := |s| - 1;
      SplitOnNone(s[..k], c);
      assert s[k] in s;
      assert s[..k] + [s[k]] == s;
    }
  }

  /** Appending a separator and a separator-free piece appends one piece. */
  lemma {:induction false} SplitOnAppend(a: string, c: char, b: string)
    requires c !in b
    ensures SplitOn(a + [c] + b, c) == SplitOn(a, c) + [b]
    decreases |b|
  {
    if b == [] {
      assert a + [c] + b == a + [c];
      assert (a + [c])[..|a + [c]| - 1] == a;
    } else {
      var k := |b| - 1;
      var u := a + [c] + b;
      assert u[..|u| - 1] == a + [c] + b[..k];
      SplitOnAppend(a, c, b[..k]);
      assert b[..k] + [b[k]] == b;
    }
  }

  /** Splitting undoes joining, when no part holds the separator. */
  lemma {:induction false} SplitJoin(lines: seq<string>, c: char)
    requires |lines| >= 1
    requires forall i :: 0 <= i < |lines| ==> c !in lines[i]
    ensures SplitOn(Join(lines, [c]), c) == lines
  {
    var k := |lines| - 1;
    if k == 0 {
      SplitOnNone(lines[0], c);
    } else {
      SplitJoin(lines[..k], c);
      SplitOnAppend(Join(lines[..k], [c]), c, lines[k]);
      assert lines[..k] + [lines[k]] == lines;
    }
  }

  /** Python's `s.startswith(p)`. */
  predicate StartsWith(s: string, p: string)
  {
    |p| <= |s| && s[..|p|] == p
  }

  /** Python's `needle in hay`. */
  predicate Contains(hay: string, needle: string)
    decreases |hay|
  {
    StartsWith(hay, needle) || (hay != [] && Contains(hay[1..], needle))
  }

  /** `needle` occurs in `hay` starting at offset `k`. */
  predicate OccursAt(hay: string, needle: string, k: int)
  {
    0 <= k && k + |needle| <= |hay| && hay[k..k + |needle|] == needle
  }

  /** `needle in hay` holds exactly when `needle` occurs at some offset. */
  lemma {:induction false} ContainsExists(hay: string, needle: string)
    ensures Contains(hay, needle) <==> exists k :: OccursAt(hay, needle, k)
    decreases |hay|
  {
    if exists k :: OccursAt(hay, needle, k) {
      var k :| OccursAt(hay, needle, k);
      ContainsAt(hay, needle, k);
    }
    if Contains(hay, needle) {
      if StartsWith(hay, needle) {
        assert OccursAt(hay, needle, 0);
      } else {
        ContainsExists(hay[1..], needle);
        var k :| OccursAt(hay[1..], needle, k);
        assert hay[k + 1..k + 1 + |needle|] == hay[1..][k..k + |needle|];
        assert OccursAt(hay, needle, k + 1);
      }
    }
  }

  lemma {:induction false} ContainsAt(hay: string, needle: string, k: int)
    requires OccursAt(hay, needle, k)
    ensures Contains(hay, needle)
    decreases k
  {
    if k > 0 {
      assert hay[1..][k - 1..k - 1 + |needle|] == hay[k..k + |needle|];
      assert OccursAt(hay[1..], needle, k - 1);
      ContainsAt(hay[1..], needle, k - 1);
    }
  }

  /** Case folding of one character: ASCII capitals become lower case. */
  function FoldChar(c: char): (r: char)
    ensures 'A' <= c <= 'Z' ==> r as int == c as int + 32
    ensures !('A' <= c <= 'Z') ==> r == c
  {
    if 'A' <= c <= 'Z' then (c as int + 32) as char else c
  }

  /** Python's `s.casefold()`, restricted to ASCII letters. */
  function CaseFold(s: string): (r: string)
    ensures |r| == |s|
    ensures forall i :: 0 <= i < |s| ==> r[i] == FoldChar(s[i])
  {
    seq(|s|, i requires 0 <= i < |s| => FoldChar(s[i]))
  }

  /** Text without capitals folds to itself. */
  lemma CaseFoldLower(s: string)
    requires forall i :: 0 <= i < |s| ==> !('A' <= s[i] <= 'Z')
    ensures CaseFold(s) == s
  {
  }

  /** Folding commutes with taking a prefix. */
  lemma CaseFoldPrefix(s: string, m: int)
    requires 0 <= m <= |s|
    ensures CaseFold(s)[..m] == CaseFold(s[..m])
  {
  }

  /** Folding twice is folding once. */
  lemma CaseFoldIdempotent(s: string)
    ensures CaseFold(CaseFold(s)) == CaseFold(s)
  {
  }
}
