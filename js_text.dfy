/** The pieces of JavaScript's string handling that the rate extraction relies on:
    the character classes of its regular expressions, `replace` with a character class,
    `lastIndexOf`, `replace` of the first occurrence, `trim`, `join` and `split`. */
module JsText {

  /** A value or JavaScript's `null`, as `String.prototype.match` returns. */
  datatype Option<T> = None | Some(value: T)

  /** `\s` in a JavaScript regular expression, which is also what `String.prototype.trim`
      removes: the WhiteSpace and LineTerminator code points of ECMAScript. */
  predicate IsSpace(c: char)
  {
    var n := c as int;
    n == 0x09 || n == 0x0A || n == 0x0B || n == 0x0C || n == 0x0D || n == 0x20 || n == 0xA0 ||
    n == 0x1680 || 0x2000 <= n <= 0x200A || n == 0x2028 || n == 0x2029 || n == 0x202F ||
    n == 0x205F || n == 0x3000 || n == 0xFEFF
  }

  predicate NotSpace(c: char) { !IsSpace(c) }

  /** The separators of `split(/\n|\r/)`. */
  predicate IsLineBreak(c: char) { c == '\n' || c == '\r' }

  /** `\d`, which is ASCII only. */
  predicate IsDigit(c: char) { '0' <= c <= '9' }

  predicate IsUpper(c: char) { 'A' <= c <= 'Z' }

  /** `\w`: the characters that `\b` tells apart from the rest. */
  predicate IsWordChar(c: char) { IsDigit(c) || IsUpper(c) || 'a' <= c <= 'z' || c == '_' }

  predicate AllDigits(s: string) { forall k :: 0 <= k < |s| ==> IsDigit(s[k]) }

  /** Deleting every character that a class rejects, as `s.replace(/[^...]/g, '')` does. */
  function Filter(s: string, keep: char -> bool): (r: string)
    ensures |r| <= |s|
    ensures forall k :: 0 <= k < |r| ==> keep(r[k])
  {
    if s == [] then [] else (if keep(s[0]) then [s[0]] else []) + Filter(s[1..], keep)
  }

  /** Filtering keeps exactly the characters of `s` that the class accepts. */
  lemma {:induction false} FilterMembers(s: string, keep: char -> bool)
    ensures forall c :: c in Filter(s, keep) <==> c in s && keep(c)
  {
    if s != [] {
      FilterMembers(s[1..], keep);
      assert s == [s[0]] + s[1..];
    }
  }

  lemma {:induction false} FilterConcat(a: string, b: string, keep: char -> bool)
    ensures Filter(a + b, keep) == Filter(a, keep) + Filter(b, keep)
  {
    if a == [] {
      assert a + b == b;
    } else {
      assert (a + b)[0] == a[0];
      assert (a + b)[1..] == a[1..] + b;
      FilterConcat(a[1..], b, keep);
    }
  }

  /** Filtering changes nothing when every character passes. */
  lemma {:induction false} FilterKeepsAll(s: string, keep: char -> bool)
    requires forall k :: 0 <= k < |s| ==> keep(s[k])
    ensures Filter(s, keep) == s
  {
    if s != [] {
      FilterKeepsAll(s[1..], keep);
    }
  }

  /** Two classes that agree on the characters of `s` filter it alike. */
  lemma {:induction false} FilterAgree(s: string, keep: char -> bool, keep': char -> bool)
    requires forall k :: 0 <= k < |s| ==> keep(s[k]) == keep'(s[k])
    ensures Filter(s, keep) == Filter(s, keep')
  {
    if s != [] {
      FilterAgree(s[1..], keep, keep');
    }
  }

  /** Filtering with the same class twice is filtering once. */
  lemma FilterIdempotent(s: string, keep: char -> bool)
    ensures Filter(Filter(s, keep), keep) == Filter(s, keep)
  {
    FilterKeepsAll(Filter(s, keep), keep);
  }

  /** `s.lastIndexOf(c)`: the position of the last `c`, or -1. */
  function LastIndexOf(s: string, c: char): (r: int)
    ensures -1 <= r < |s|
    ensures r == -1 <==> c !in s
    ensures 0 <= r ==> s[r] == c
    ensures forall j :: r < j < |s| ==> s[j] != c
  {
    if s == [] then -1
    else if s[|s| - 1] == c then |s| - 1
    else
      assert s == s[..|s| - 1] + [s[|s| - 1]];
      LastIndexOf(s[..|s| - 1], c)
  }

  /** `s.replace(c, d)` with a one-character string pattern: only the first `c` is replaced. */
  function ReplaceFirst(s: string, c: char, d: char): (r: string)
    ensures |r| == |s|
    ensures c !in s ==> r == s
  {
    if s == [] then []
    else if s[0] == c then [d] + s[1..]
    else
      assert s == [s[0]] + s[1..];
      [s[0]] + ReplaceFirst(s[1..], c, d)
  }

  /** Replacing brings in no character but `d`. */
  lemma {:induction false} ReplaceFirstMembers(s: string, c: char, d: char)
    ensures forall x :: x in ReplaceFirst(s, c, d) ==> x in s || x == d
  {
    if s != [] && s[0] != c {
      ReplaceFirstMembers(s[1..], c, d);
      assert s == [s[0]] + s[1..];
    }
  }

  /** Where the first `c` is, `d` takes its place and everything else stays. */
  lemma {:induction false} ReplaceFirstAt(p: string, c: char, d: char, t: string)
    requires c !in p
    ensures ReplaceFirst(p + [c] + t, c, d) == p + [d] + t
  {
    if p != [] {
      assert (p + [c] + t)[1..] == p[1..] + [c] + t;
      ReplaceFirstAt(p[1..], c, d, t);
    }
  }

  /** A prefix without `c` is left as it is. */
  lemma {:induction false} ReplaceFirstSkips(p: string, c: char, d: char, t: string)
    requires c !in p
    ensures ReplaceFirst(p + t, c, d) == p + ReplaceFirst(t, c, d)
  {
    if p == [] {
      assert p + t == t;
    } else {
      assert (p + t)[0] == p[0];
      assert (p + t)[1..] == p[1..] + t;
      ReplaceFirstSkips(p[1..], c, d, t);
    }
  }

  function TrimStart(s: string): (r: string)
    ensures |r| <= |s| && r == s[|s| - |r|..]
    ensures forall k :: 0 <= k < |s| - |r| ==> IsSpace(s[k])
    ensures r != [] ==> !IsSpace(r[0])
  {
    if s != [] && IsSpace(s[0]) then TrimStart(s[1..]) else s
  }

  function TrimEnd(s: string): (r: string)
    ensures |r| <= |s| && r == s[..|r|]
    ensures forall k :: |r| <= k < |s| ==> IsSpace(s[k])
    ensures r != [] ==> !IsSpace(r[|r| - 1])
  {
    if s != [] && IsSpace(s[|s| - 1]) then TrimEnd(s[..|s| - 1]) else s
  }

  /** `s.trim()`: the text between the leading and the trailing white space. */
  function Trim(s: string): (r: string)
    ensures r != [] ==> !IsSpace(r[0]) && !IsSpace(r[|r| - 1])
    ensures r == [] <==> forall k :: 0 <= k < |s| ==> IsSpace(s[k])
  {
    TrimEnd(TrimStart(s))
  }

  /** Trimming brings in no character. */
  lemma TrimMembers(s: string)
    ensures forall c :: c in Trim(s) ==> c in s
  {
    var t := TrimStart(s);
    var r := TrimEnd(t);
    assert forall c :: c in r ==> c in t;
  }

  /** A string with nothing to trim at either end is its own trim. */
  lemma TrimUntouched(s: string)
    requires s != [] ==> !IsSpace(s[0]) && !IsSpace(s[|s| - 1])
    ensures Trim(s) == s
  {
    assert TrimStart(s) == s;
    assert TrimEnd(s) == s;
  }

  /** `parts.join(sep)`. */
  function Join(parts: seq<string>, sep: string): string
  {
    if |parts| == 0 then []
    else if |parts| == 1 then parts[0]
    else Join(parts[..|parts| - 1], sep) + sep + parts[|parts| - 1]
  }

  /** Every character of a joined text comes from a part or from the separator. */
  lemma {:induction false} JoinMembers(parts: seq<string>, sep: string)
    ensures forall c :: c in Join(parts, sep) ==> c in sep || exists k :: 0 <= k < |parts| && c in parts[k]
  {
    if |parts| > 1 {
      var front := parts[..|parts| - 1];
      JoinMembers(front, sep);
      forall c | c in Join(parts, sep) ensures c in sep || exists k :: 0 <= k < |parts| && c in parts[k] {
        if c in Join(front, sep) && c !in sep {
          var k :| 0 <= k < |front| && c in front[k];
          assert c in parts[k];
        } else if c !in sep {
          assert c in parts[|parts| - 1];
        }
      }
    }
  }

  /** A word none of whose characters occurs in a non-empty separator cannot straddle a
      separator: wherever it occurs in the joined text, it lies inside one part. */
  lemma {:induction false} JoinStraddle(parts: seq<string>, sep: string, w: string, i: int)
    requires |sep| > 0
    requires |w| > 0 && forall k :: 0 <= k < |w| ==> w[k] !in sep
    requires OccursAt(Join(parts, sep), w, i)
    ensures exists k :: 0 <= k < |parts| && Contains(parts[k], w)
  {
    if |parts| == 1 {
      assert OccursAt(parts[0], w, i);
    } else if |parts| > 1 {
      var front, last := parts[..|parts| - 1], parts[|parts| - 1];
      var a := Join(front, sep);
      var s := Join(parts, sep);
      assert s == a + sep + last;
      if i + |w| <= |a| {
        assert s[i..i + |w|] == a[i..i + |w|];
        JoinStraddle(front, sep, w, i);
        var k :| 0 <= k < |front| && Contains(front[k], w);
        assert parts[k] == front[k];
      } else if i >= |a| + |sep| {
        var j := i - |a| - |sep|;
        assert s[i..i + |w|] == last[j..j + |w|];
        assert OccursAt(last, w, j);
      } else {
        SeparatorCovered(a, sep, last, w, i);
        assert false;
      }
    }
  }

  /** An occurrence that starts before the end of the separator and ends after its start
      covers one of its characters. */
  lemma SeparatorCovered(a: string, sep: string, last: string, w: string, i: int)
    requires |sep| > 0 && |w| > 0 && 0 <= i && i < |a| + |sep|
    requires |a| < i + |w| && i + |w| <= |a| + |sep| + |last|
    requires (a + sep + last)[i..i + |w|] == w
    ensures exists k :: 0 <= k < |w| && w[k] in sep
  {
    var j := if i < |a| then |a| else i;
    assert (a + sep + last)[j] == w[j - i];
    assert w[j - i] == sep[j - |a|];
  }

  /** The text with every `\r` read as `\n`. */
  function UnifyBreaks(s: string): (r: string)
    ensures |r| == |s|
  {
    seq(|s|, k requires 0 <= k < |s| => if s[k] == '\r' then '\n' else s[k])
  }

  /** `s.split(/\n|\r/)`: the pieces between line-break characters; a `\r\n` pair leaves an
      empty piece between its two characters. */
  function SplitLines(s: string): (r: seq<string>)
    ensures |r| >= 1
    ensures forall k :: 0 <= k < |r| ==> forall c :: c in r[k] ==> !IsLineBreak(c)
  {
    if s == [] then [[]]
    else
      var pieces := SplitLines(s[..|s| - 1]);
      var c := s[|s| - 1];
      if IsLineBreak(c) then pieces + [[]]
      else pieces[..|pieces| - 1] + [pieces[|pieces| - 1] + [c]]
  }

  /** Splitting loses only which line-break character stood where: joining the pieces
      with `\n` gives the text back with `\r` read as `\n`. */
  lemma {:induction false} SplitLinesJoin(s: string)
    ensures Join(SplitLines(s), "\n") == UnifyBreaks(s)
  {
    if s != [] {
      var init := s[..|s| - 1];
      var c := s[|s| - 1];
      SplitLinesJoin(init);
      var pieces := SplitLines(init);
      assert UnifyBreaks(s) == UnifyBreaks(init) + [if c == '\r' then '\n' else c];
      if IsLineBreak(c) {
        var r := pieces + [[]];
        assert r[..|r| - 1] == pieces;
      } else {
        var r := pieces[..|pieces| - 1] + [pieces[|pieces| - 1] + [c]];
        if |pieces| > 1 {
          assert r[..|r| - 1] == pieces[..|pieces| - 1];
        }
      }
    }
  }

  /** A text without line-break characters is one piece. */
  lemma {:induction false} SplitLinesSingle(s: string)
    requires forall k :: 0 <= k < |s| ==> !IsLineBreak(s[k])
    ensures SplitLines(s) == [s]
  {
    if s != [] {
      var init := s[..|s| - 1];
      SplitLinesSingle(init);
      assert SplitLines(init) == [init];
      assert !IsLineBreak(s[|s| - 1]);
      assert init + [s[|s| - 1]] == s;
      assert [init][..0] + [init + [s[|s| - 1]]] == [s];
    }
  }

  /** Splitting brings in no character. */
  lemma {:induction false} SplitLinesMembers(s: string)
    ensures forall k, c :: 0 <= k < |SplitLines(s)| && c in SplitLines(s)[k] ==> c in s
  {
    if s != [] {
      var init := s[..|s| - 1];
      var last := s[|s| - 1];
      SplitLinesMembers(init);
      assert s == init + [last];
      var pieces := SplitLines(init);
      forall k, c | 0 <= k < |SplitLines(s)| && c in SplitLines(s)[k] ensures c in s {
        if !IsLineBreak(last) && k == |pieces| - 1 {
          assert c in pieces[k] || c == last;
        } else if k < |pieces| {
          assert c in pieces[k];
        }
      }
    }
  }

  /** `w` occurs in `s` starting at position `i`. */
  predicate OccursAt(s: string, w: string, i: int)
  {
    0 <= i <= |s| - |w| && s[i..i + |w|] == w
  }

  /** `w` occurs in `s` somewhere. */
  predicate Contains(s: string, w: string)
  {
    exists i :: 0 <= i <= |s| - |w| && OccursAt(s, w, i)
  }

  /** A text containing `w + x` contains `w`. */
  lemma ContainsPrefix(s: string, w: string, x: string)
    requires Contains(s, w + x)
    ensures Contains(s, w)
  {
    var i :| 0 <= i <= |s| - |w + x| && OccursAt(s, w + x, i);
    assert s[i..i + |w|] == (w + x)[..|w|] == w;
    assert OccursAt(s, w, i);
  }

  /** The lower-case letters in alphabetical order. */
  const LowerAlphabet := "abcdefghijklmnopqrstuvwxyz"

  /** A capital becomes the lower-case letter at the same place in the alphabet. */
  function LowerChar(c: char): (r: char)
    ensures IsUpper(c) ==> r == LowerAlphabet[c as int - 'A' as int]
    ensures !IsUpper(c) ==> r == c
  {
    if IsUpper(c) then (c as int + 32) as char else c
  }

  /** `toLowerCase()` on the ASCII letters: each capital becomes its own lower-case letter,
      and every other character stays. */
  function ToLower(s: string): (r: string)
    ensures |r| == |s|
    ensures forall k :: 0 <= k < |r| ==> !IsUpper(r[k])
    ensures forall k :: 0 <= k < |s| && IsUpper(s[k]) ==> r[k] == LowerAlphabet[s[k] as int - 'A' as int]
    ensures forall k :: 0 <= k < |s| && !IsUpper(s[k]) ==> r[k] == s[k]
  {
    seq(|s|, k requires 0 <= k < |s| => LowerChar(s[k]))
  }
}
