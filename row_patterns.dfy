/** The three regular expressions the DNB proxy matches against text, each written out as
    the scan a backtracking JavaScript engine performs: the currency code `\b([A-Z]{3})\b`,
    the numeric token `-?\d{1,3}(?:[.,\s]\d{3})*(?:[.,]\d+)?` under the `g` flag, and the
    two date patterns `\d{4}-\d{2}-\d{2}` and `\d{2}\.\d{2}\.\d{4}`. */
module RowPatterns {
  import opened JsText
  import opened NumberParser

  // ---------------------------------------------------------------------------------
  // Currency code: \b([A-Z]{3})\b

  /** Three capitals at `i`, with a word boundary before and after them. */
  predicate CodeAt(s: string, i: int)
  {
    && 0 <= i && i + 3 <= |s|
    && IsUpper(s[i]) && IsUpper(s[i + 1]) && IsUpper(s[i + 2])
    && (i == 0 || !IsWordChar(s[i - 1]))
    && (i + 3 == |s| || !IsWordChar(s[i + 3]))
  }

  /** A key of the `rates` map: three capital letters. */
  predicate IsCurrencyCode(c: string)
  {
    |c| == 3 && IsUpper(c[0]) && IsUpper(c[1]) && IsUpper(c[2])
  }

  /** The first position from `i` on where a code stands. */
  function FirstCodeFrom(s: string, i: nat): (r: Option<nat>)
    requires i <= |s|
    ensures r.Some? ==> i <= r.value && CodeAt(s, r.value)
    ensures r.Some? ==> forall j :: i <= j < r.value ==> !CodeAt(s, j)
    ensures r.None? ==> forall j :: i <= j < |s| ==> !CodeAt(s, j)
    decreases |s| - i
  {
    if i + 3 > |s| then None
    else if CodeAt(s, i) then Some(i)
    else FirstCodeFrom(s, i + 1)
  }

  /** `s.match(/\b([A-Z]{3})\b/)`, reduced to its capture group. */
  function FindCode(s: string): (r: Option<string>)
    ensures r.Some? ==> IsCurrencyCode(r.value)
  {
    match FirstCodeFrom(s, 0)
    case None => None
    case Some(i) => Some(s[i..i + 3])
  }

  /** The code found is the one at the leftmost position where a code stands, and there is
      none exactly when no position holds a code. */
  lemma FindCodeLeftmost(s: string, i: nat)
    ensures CodeAt(s, i) && (forall j :: 0 <= j < i ==> !CodeAt(s, j)) ==> FindCode(s) == Some(s[i..i + 3])
    ensures FindCode(s) == None <==> forall j :: 0 <= j < |s| ==> !CodeAt(s, j)
  {
    if CodeAt(s, i) && (forall j :: 0 <= j < i ==> !CodeAt(s, j)) {
      var r := FirstCodeFrom(s, 0);
      assert r.Some?;
      assert r.value == i;
    }
    if FindCode(s) != None {
      var r := FirstCodeFrom(s, 0);
      assert CodeAt(s, r.value);
    }
  }

  /** A text that opens with a word-bounded code yields that code. */
  lemma LeadingCode(s: string)
    requires CodeAt(s, 0)
    ensures FindCode(s) == Some(s[..3])
  {
    FindCodeLeftmost(s, 0);
  }

  /** The code found is a substring of the text. */
  lemma FindCodeVerbatim(s: string)
    requires FindCode(s).Some?
    ensures exists i :: 0 <= i <= |s| - 3 && OccursAt(s, FindCode(s).value, i)
  {
    var i := FirstCodeFrom(s, 0).value;
    assert OccursAt(s, FindCode(s).value, i);
  }

  // ---------------------------------------------------------------------------------
  // Numeric token: -?\d{1,3}(?:[.,\s]\d{3})*(?:[.,]\d+)? with the g flag

  /** `[.,\s]`: what may stand between two groups of three digits. */
  predicate IsGroupSeparator(c: char) { c == '.' || c == ',' || IsSpace(c) }

  /** `[.,]`: what may stand before the trailing digits. */
  predicate IsPoint(c: char) { c == '.' || c == ',' }

  /** A match can begin at `p`: `-?\d` matches there. */
  predicate TokenStart(s: string, p: int)
  {
    0 <= p < |s| && (IsDigit(s[p]) || (s[p] == '-' && p + 1 < |s| && IsDigit(s[p + 1])))
  }

  /** Where the run of digits from `q` ends. */
  function RunEnd(s: string, q: nat): (e: nat)
    requires q <= |s|
    ensures q <= e <= |s|
    ensures forall k :: q <= k < e ==> IsDigit(s[k])
    ensures e < |s| ==> !IsDigit(s[e])
    decreases |s| - q
  {
    if q < |s| && IsDigit(s[q]) then RunEnd(s, q + 1) else q
  }

  /** `[.,\s]\d{3}` matches at `q`. */
  predicate GroupAt(s: string, q: int)
  {
    0 <= q && q + 4 <= |s| && IsGroupSeparator(s[q]) && IsDigit(s[q + 1]) && IsDigit(s[q + 2]) && IsDigit(s[q + 3])
  }

  /** `-?\d{1,3}` from a start: the sign if there is one, then as many digits as there
      are, up to three. */
  function LeadEnd(s: string, p: nat): (e: nat)
    requires TokenStart(s, p)
    ensures p < e <= |s|
  {
    var q := if s[p] == '-' then p + 1 else p;
    var run := RunEnd(s, q);
    if run - q > 3 then q + 3 else run
  }

  /** `(?:[.,\s]\d{3})*`, greedily: as many groups as follow one another. */
  function GroupsEnd(s: string, q: nat): (e: nat)
    requires q <= |s|
    ensures q <= e <= |s| && !GroupAt(s, e)
    decreases |s| - q
  {
    if GroupAt(s, q) then GroupsEnd(s, q + 4) else q
  }

  /** `(?:[.,]\d+)?`, greedily: a point and every digit after it, if a digit follows. */
  function FractionEnd(s: string, q: nat): (e: nat)
    requires q <= |s|
    ensures q <= e <= |s|
  {
    if q + 1 < |s| && IsPoint(s[q]) && IsDigit(s[q + 1]) then RunEnd(s, q + 1) else q
  }

  /** Where the match that begins at `p` ends. Every part after `\d{1,3}` may match
      nothing, so the engine never backtracks into an earlier choice: each part takes as
      much as it can. */
  function TokenEnd(s: string, p: nat): (e: nat)
    requires TokenStart(s, p)
    ensures p < e <= |s|
  {
    FractionEnd(s, GroupsEnd(s, LeadEnd(s, p)))
  }

  /** The first position from `p` on where a match can begin, or `|s|`. */
  function NextStart(s: string, p: nat): (r: nat)
    requires p <= |s|
    ensures p <= r <= |s|
    ensures r < |s| ==> TokenStart(s, r)
    ensures forall j :: p <= j < r ==> !TokenStart(s, j)
    decreases |s| - p
  {
    if p == |s| || TokenStart(s, p) then p else NextStart(s, p + 1)
  }

  /** The matches from position `p` on: each search resumes where the last match ended. */
  function TokensFrom(s: string, p: nat): (r: seq<string>)
    requires p <= |s|
    decreases |s| - p
  {
    var q := NextStart(s, p);
    if q == |s| then [] else [s[q..TokenEnd(s, q)]] + TokensFrom(s, TokenEnd(s, q))
  }

  /** `s.match(/-?\d{1,3}(?:[.,\s]\d{3})*(?:[.,]\d+)?/g)`, with `null` as the empty list:
      every token matches the pattern as a whole and starts a number. */
  function NumericTokens(s: string): (r: seq<string>)
    ensures forall t :: t in r ==> MatchesNumberPattern(t) && StartsWithNumber(t)
  {
    TokensFromWellFormed(s, 0);
    TokensFrom(s, 0)
  }

  /** The pattern as a description of a whole string: optional minus, one to three digits
      up to `m`, groups of a separator and three digits up to `g`, and an optional point
      and digits after `g`. */
  predicate IsGroups(t: string)
    decreases |t|
  {
    t == [] || (|t| >= 4 && IsGroupSeparator(t[0]) && IsDigit(t[1]) && IsDigit(t[2]) && IsDigit(t[3]) && IsGroups(t[4..]))
  }

  predicate IsFraction(t: string)
  {
    t == [] || (|t| >= 2 && IsPoint(t[0]) && AllDigits(t[1..]))
  }

  predicate ShapeAt(t: string, m: int, g: int)
  {
    var q := if t != [] && t[0] == '-' then 1 else 0;
    && q < m <= q + 3 && m <= g <= |t|
    && AllDigits(t[q..m]) && IsGroups(t[m..g]) && IsFraction(t[g..])
  }

  /** `t` matches `-?\d{1,3}(?:[.,\s]\d{3})*(?:[.,]\d+)?` as a whole. */
  predicate MatchesNumberPattern(t: string)
  {
    exists m, g :: 0 <= m <= g <= |t| && ShapeAt(t, m, g)
  }

  lemma {:induction false} GroupsShape(s: string, q: nat)
    requires q <= |s|
    ensures IsGroups(s[q..GroupsEnd(s, q)])
    decreases |s| - q
  {
    if GroupAt(s, q) {
      GroupsShape(s, q + 4);
      var t := s[q..GroupsEnd(s, q)];
      assert t[4..] == s[q + 4..GroupsEnd(s, q + 4)];
    } else {
      assert s[q..q] == [];
    }
  }

  lemma FractionShape(s: string, q: nat)
    requires q <= |s|
    ensures IsFraction(s[q..FractionEnd(s, q)])
  {
    var t := s[q..FractionEnd(s, q)];
    if q + 1 < |s| && IsPoint(s[q]) && IsDigit(s[q + 1]) {
      assert forall k :: 1 <= k < |t| ==> t[k] == s[q + k];
    } else {
      assert t == [];
    }
  }

  lemma LeadShape(s: string, p: nat)
    requires TokenStart(s, p)
    ensures var q := if s[p] == '-' then 1 else 0;
      q < LeadEnd(s, p) - p <= q + 3 && AllDigits(s[p..LeadEnd(s, p)][q..])
  {
    var q := if s[p] == '-' then p + 1 else p;
    var m := LeadEnd(s, p);
    assert m <= RunEnd(s, q);
    forall k | 0 <= k < m - q ensures IsDigit(s[q..m][k]) {
      assert s[q..m][k] == s[q + k];
    }
    SliceOfSlice(s, p, m, q, m);
    assert s[p..m][q - p..] == s[p..m][q - p..m - p];
  }

  lemma SliceOfSlice(s: string, p: nat, e: nat, a: nat, b: nat)
    requires p <= a <= b <= e <= |s|
    ensures s[p..e][a - p..b - p] == s[a..b]
  {
    forall k | 0 <= k < b - a ensures s[p..e][a - p..b - p][k] == s[a..b][k] {
    }
  }

  /** Every token the scan returns matches the pattern as a whole. */
  lemma TokenMatchesPattern(s: string, p: nat)
    requires TokenStart(s, p)
    ensures MatchesNumberPattern(s[p..TokenEnd(s, p)])
  {
    var e := TokenEnd(s, p);
    var t := s[p..e];
    var m := LeadEnd(s, p);
    var g := GroupsEnd(s, m);
    assert t[0] == s[p];
    LeadShape(s, p);
    GroupsShape(s, m);
    FractionShape(s, g);
    assert p < m <= g <= e;
    SliceOfSlice(s, p, e, p, m);
    assert t[..m - p] == t[0..m - p];
    SliceOfSlice(s, p, e, m, g);
    SliceOfSlice(s, p, e, g, e);
    assert t[g - p..] == t[g - p..e - p];
    assert ShapeAt(t, m - p, g - p);
  }

  /** A token starts with a digit, or with a minus sign and a digit. */
  lemma TokenStartsWithNumber(s: string, p: nat)
    requires TokenStart(s, p)
    ensures StartsWithNumber(s[p..TokenEnd(s, p)])
  {
    var t := s[p..TokenEnd(s, p)];
    assert t[0] == s[p];
    if !IsDigit(s[p]) {
      assert TokenEnd(s, p) >= p + 2;
      assert t[1] == s[p + 1];
    }
  }

  /** The tokens from `p` on are the matches that begin at or after `p`; each one matches
      the pattern and starts a number. */
  lemma {:induction false} TokensFromWellFormed(s: string, p: nat)
    requires p <= |s|
    ensures forall t :: t in TokensFrom(s, p) ==> MatchesNumberPattern(t) && StartsWithNumber(t)
    decreases |s| - p
  {
    var q := NextStart(s, p);
    if q < |s| {
      TokenMatchesPattern(s, q);
      TokenStartsWithNumber(s, q);
      TokensFromWellFormed(s, TokenEnd(s, q));
    }
  }

  /** Every token of a text parses to a finite number, so the `Number.isFinite` check on the
      parsed token never fails in exact arithmetic. */
  lemma TokensParse(s: string)
    ensures forall t :: t in NumericTokens(s) ==> MatchesNumberPattern(t) && ParseNumber(t).Finite?
  {
    TokensFromWellFormed(s, 0);
    forall t | t in NumericTokens(s) ensures ParseNumber(t).Finite? {
      LeadingDigitParses(t);
    }
  }

  /** A text has a numeric token exactly when it has a digit. */
  lemma TokensExistIff(s: string)
    ensures NumericTokens(s) != [] <==> exists k :: 0 <= k < |s| && IsDigit(s[k])
  {
    var q := NextStart(s, 0);
    if q < |s| {
      if IsDigit(s[q]) {
        assert 0 <= q < |s| && IsDigit(s[q]);
      } else {
        assert 0 <= q + 1 < |s| && IsDigit(s[q + 1]);
      }
    } else {
      forall k | 0 <= k < |s| ensures !IsDigit(s[k]) {
        assert !TokenStart(s, k);
      }
    }
  }

  /** A substring that matches the pattern as a whole begins where a match can begin. */
  lemma MatchBeginsToken(s: string, j: nat, e: nat)
    requires j <= e <= |s| && MatchesNumberPattern(s[j..e])
    ensures TokenStart(s, j)
  {
    var t := s[j..e];
    var m, g :| 0 <= m <= g <= |t| && ShapeAt(t, m, g);
    var q := if t != [] && t[0] == '-' then 1 else 0;
    assert t[q..m][0] == t[q] == s[j + q];
  }

  /** The scan passes over no match: no substring starting at a skipped position matches
      the pattern, so every match the engine would find from `p` on starts at or after the
      next token. */
  lemma NoMatchSkipped(s: string, p: nat, j: nat, e: nat)
    requires p <= |s| && p <= j < NextStart(s, p) && j <= e <= |s|
    ensures !MatchesNumberPattern(s[j..e])
  {
    if MatchesNumberPattern(s[j..e]) {
      MatchBeginsToken(s, j, e);
      assert false;
    }
  }

  /** Where the matches from `p` on begin: each at a position where a match can begin, each
      after the end of the one before; `TokenPositionsFirst` adds that none is passed over. */
  function TokenPositions(s: string, p: nat): (r: seq<nat>)
    requires p <= |s|
    ensures forall i :: 0 <= i < |r| ==> p <= r[i] && TokenStart(s, r[i])
    ensures forall i :: 0 <= i < |r| - 1 ==> TokenEnd(s, r[i]) <= r[i + 1]
    decreases |s| - p
  {
    var q := NextStart(s, p);
    if q == |s| then [] else [q] + TokenPositions(s, TokenEnd(s, q))
  }

  /** The first position is the first place from `p` on where a match can begin. */
  lemma TokenPositionsStart(s: string, p: nat)
    requires p <= |s|
    ensures var r := TokenPositions(s, p);
      forall j :: p <= j < (if r == [] then |s| else r[0]) ==> !TokenStart(s, j)
  {
  }

  /** Between the end of one match and the next position no match can begin. */
  lemma {:induction false} TokenPositionsGaps(s: string, p: nat)
    requires p <= |s|
    ensures var r := TokenPositions(s, p);
      forall i, j :: 0 <= i < |r| - 1 && TokenEnd(s, r[i]) <= j < r[i + 1] ==> !TokenStart(s, j)
    decreases |s| - p
  {
    var q := NextStart(s, p);
    if q < |s| {
      var e := TokenEnd(s, q);
      TokenPositionsGaps(s, e);
      TokenPositionsStart(s, e);
      var r, rest := TokenPositions(s, p), TokenPositions(s, e);
      assert r == [q] + rest;
      forall i, j | 0 <= i < |r| - 1 && TokenEnd(s, r[i]) <= j < r[i + 1]
        ensures !TokenStart(s, j)
      {
        if i > 0 {
          assert r[i] == rest[i - 1] && r[i + 1] == rest[i];
        }
      }
    }
  }

  /** After the end of the last match no match can begin. */
  lemma {:induction false} TokenPositionsEnd(s: string, p: nat)
    requires p <= |s|
    ensures var r := TokenPositions(s, p);
      r != [] ==> forall j :: TokenEnd(s, r[|r| - 1]) <= j < |s| ==> !TokenStart(s, j)
    decreases |s| - p
  {
    var q := NextStart(s, p);
    if q < |s| {
      var e := TokenEnd(s, q);
      TokenPositionsEnd(s, e);
      TokenPositionsStart(s, e);
      var r, rest := TokenPositions(s, p), TokenPositions(s, e);
      assert r == [q] + rest;
      if rest != [] {
        assert r[|r| - 1] == rest[|rest| - 1];
      }
    }
  }

  /** Each position is the first place a match can begin, counting from `p` for the first and
      from the end of the match before for the others, and no match can begin after the end
      of the last. */
  lemma TokenPositionsFirst(s: string, p: nat)
    requires p <= |s|
    ensures var r := TokenPositions(s, p);
      forall j :: p <= j < (if r == [] then |s| else r[0]) ==> !TokenStart(s, j)
    ensures var r := TokenPositions(s, p);
      forall i, j :: 0 <= i < |r| - 1 && TokenEnd(s, r[i]) <= j < r[i + 1] ==> !TokenStart(s, j)
    ensures var r := TokenPositions(s, p);
      r != [] ==> forall j :: TokenEnd(s, r[|r| - 1]) <= j < |s| ==> !TokenStart(s, j)
  {
    TokenPositionsStart(s, p);
    TokenPositionsGaps(s, p);
    TokenPositionsEnd(s, p);
  }

  /** The tokens are the text between each position and the end of its match, in text
      order. */
  lemma {:induction false} TokensAtPositions(s: string, p: nat)
    requires p <= |s|
    ensures |TokensFrom(s, p)| == |TokenPositions(s, p)|
    ensures forall i :: 0 <= i < |TokensFrom(s, p)| ==>
      TokensFrom(s, p)[i] == s[TokenPositions(s, p)[i]..TokenEnd(s, TokenPositions(s, p)[i])]
    decreases |s| - p
  {
    var q := NextStart(s, p);
    if q < |s| {
      var e := TokenEnd(s, q);
      TokensAtPositions(s, e);
      var ts, ps := TokensFrom(s, p), TokenPositions(s, p);
      assert ts == [s[q..e]] + TokensFrom(s, e);
      assert ps == [q] + TokenPositions(s, e);
      forall i | 0 <= i < |ts| ensures ts[i] == s[ps[i]..TokenEnd(s, ps[i])] {
        if i > 0 {
          assert ts[i] == TokensFrom(s, e)[i - 1];
          assert ps[i] == TokenPositions(s, e)[i - 1];
        }
      }
    }
  }

  /** No substring from `p` on that begins at or after the end of the last token matches
      the pattern; with no token, none from `p` on does. */
  lemma {:induction false} LastTokenFrom(s: string, p: nat)
    requires p <= |s|
    ensures TokensFrom(s, p) == [] ==> forall j, e :: p <= j <= e <= |s| ==> !MatchesNumberPattern(s[j..e])
    ensures TokensFrom(s, p) != [] ==>
      exists q: nat ::
        && p <= q && TokenStart(s, q)
        && TokensFrom(s, p)[|TokensFrom(s, p)| - 1] == s[q..TokenEnd(s, q)]
        && forall j, e :: TokenEnd(s, q) <= j <= e <= |s| ==> !MatchesNumberPattern(s[j..e])
    decreases |s| - p
  {
    var q := NextStart(s, p);
    if q == |s| {
      forall j, e | p <= j <= e <= |s| ensures !MatchesNumberPattern(s[j..e]) {
        if MatchesNumberPattern(s[j..e]) {
          MatchBeginsToken(s, j, e);
          assert false;
        }
      }
    } else {
      var end := TokenEnd(s, q);
      LastTokenFrom(s, end);
      var rest := TokensFrom(s, end);
      assert TokensFrom(s, p) == [s[q..end]] + rest;
      if rest == [] {
        assert TokensFrom(s, p)[|TokensFrom(s, p)| - 1] == s[q..end];
      } else {
        var q' :|
          && end <= q' && TokenStart(s, q')
          && rest[|rest| - 1] == s[q'..TokenEnd(s, q')]
          && forall j, e :: TokenEnd(s, q') <= j <= e <= |s| ==> !MatchesNumberPattern(s[j..e]);
        assert TokensFrom(s, p)[|TokensFrom(s, p)| - 1] == rest[|rest| - 1];
      }
    }
  }

  /** The last token of a text is its rightmost match: it stands in the text, and nothing
      after it matches the pattern. */
  lemma LastTokenRightmost(s: string)
    ensures NumericTokens(s) != [] ==>
      exists q: nat ::
        && TokenStart(s, q)
        && NumericTokens(s)[|NumericTokens(s)| - 1] == s[q..TokenEnd(s, q)]
        && forall j, e :: TokenEnd(s, q) <= j <= e <= |s| ==> !MatchesNumberPattern(s[j..e])
  {
    LastTokenFrom(s, 0);
  }

  /** `"1.2345"`: the engine prefers a thousands group to a fraction, so the match is
      `"1.234"` and not the longer `"1.2345"`, and the `5` left over is a token of its own. */
  lemma GroupBeforeFraction()
    ensures NumericTokens("1.2345") == ["1.234", "5"]
  {
    var s := "1.2345";
    assert LeadEnd(s, 0) == 1;
    assert GroupAt(s, 1) && !GroupAt(s, 5);
    assert GroupsEnd(s, 1) == 5;
    assert FractionEnd(s, 5) == 5;
    assert TokenEnd(s, 0) == 5;
    assert TokenStart(s, 5) && TokenEnd(s, 5) == 6;
    assert TokensFrom(s, 6) == [];
    assert TokensFrom(s, 5) == [s[5..6]];
    assert TokensFrom(s, 0) == [s[0..5]] + TokensFrom(s, 5);
    assert s[0..5] == "1.234" && s[5..6] == "5";
  }

  /** `"12345"`: at most three digits lead a token, so a long run splits. */
  lemma LongRunSplits()
    ensures NumericTokens("12345") == ["123", "45"]
  {
    var s := "12345";
    assert LeadEnd(s, 0) == 3;
    assert TokenEnd(s, 0) == 3;
    assert TokenEnd(s, 3) == 5;
    assert TokensFrom(s, 5) == [];
    assert TokensFrom(s, 3) == [s[3..5]];
    assert TokensFrom(s, 0) == [s[0..3]] + TokensFrom(s, 3);
    assert s[0..3] == "123" && s[3..5] == "45";
  }

  /** `"5-3"`: the minus sign starts a second, negative token. */
  lemma MinusStartsToken()
    ensures NumericTokens("5-3") == ["5", "-3"]
  {
    var s := "5-3";
    assert TokenEnd(s, 0) == 1;
    assert TokenStart(s, 1);
    assert TokenEnd(s, 1) == 3;
    assert TokensFrom(s, 3) == [];
    assert TokensFrom(s, 1) == [s[1..3]];
    assert TokensFrom(s, 0) == [s[0..1]] + TokensFrom(s, 1);
    assert s[0..1] == "5" && s[1..3] == "-3";
  }

  /** `"1 234,56"`: a space separates thousands like a point or a comma does. */
  lemma SpaceGroupsThousands()
    ensures NumericTokens("1 234,56") == ["1 234,56"]
  {
    var s := "1 234,56";
    assert LeadEnd(s, 0) == 1;
    assert GroupAt(s, 1) && !GroupAt(s, 5);
    assert GroupsEnd(s, 1) == 5;
    assert FractionEnd(s, 5) == 8;
    assert TokenEnd(s, 0) == 8;
    assert TokensFrom(s, 8) == [];
    assert s[0..8] == s;
  }

  // ---------------------------------------------------------------------------------
  // Date: (\d{4}-\d{2}-\d{2}) and (\d{2}\.\d{2}\.\d{4})

  datatype DateForm = Iso | Dotted

  /** The ten characters at `i` have the form `dddd-dd-dd` or `dd.dd.dddd`. */
  predicate DateAt(s: string, form: DateForm, i: int)
  {
    && 0 <= i && i + 10 <= |s|
    && match form
       case Iso =>
         && IsDigit(s[i]) && IsDigit(s[i + 1]) && IsDigit(s[i + 2]) && IsDigit(s[i + 3])
         && s[i + 4] == '-' && IsDigit(s[i + 5]) && IsDigit(s[i + 6])
         && s[i + 7] == '-' && IsDigit(s[i + 8]) && IsDigit(s[i + 9])
       case Dotted =>
         && IsDigit(s[i]) && IsDigit(s[i + 1]) && s[i + 2] == '.'
         && IsDigit(s[i + 3]) && IsDigit(s[i + 4]) && s[i + 5] == '.'
         && IsDigit(s[i + 6]) && IsDigit(s[i + 7]) && IsDigit(s[i + 8]) && IsDigit(s[i + 9])
  }

  /** The first position from `i` on where a date of the given form stands. */
  function FirstDateFrom(s: string, form: DateForm, i: nat): (r: Option<nat>)
    requires i <= |s|
    ensures r.Some? ==> i <= r.value && DateAt(s, form, r.value)
    ensures r.Some? ==> forall j :: i <= j < r.value ==> !DateAt(s, form, j)
    ensures r.None? ==> forall j :: i <= j < |s| ==> !DateAt(s, form, j)
    decreases |s| - i
  {
    if i + 10 > |s| then None
    else if DateAt(s, form, i) then Some(i)
    else FirstDateFrom(s, form, i + 1)
  }

  /** `text.match` with the pattern of the given form, reduced to its capture group: a
      date of that form taken verbatim from the text, or nothing exactly when no position
      holds one. */
  function MatchDate(s: string, form: DateForm): (r: Option<string>)
    ensures r.Some? ==> exists i :: 0 <= i <= |s| - 10 && DateAt(s, form, i) && OccursAt(s, r.value, i)
    ensures r.None? <==> forall j :: 0 <= j < |s| ==> !DateAt(s, form, j)
  {
    match FirstDateFrom(s, form, 0)
    case None => None
    case Some(i) => Some(s[i..i + 10])
  }

  /** `foundDate`: the ISO match if there is one, else the dotted match, else `null`. A
      date found stands verbatim in the text in one of the two forms, and the date is `null`
      exactly when neither form occurs. */
  function FindDate(s: string): (r: Option<string>)
    ensures r.Some? ==> exists i, form :: 0 <= i <= |s| - 10 && DateAt(s, form, i) && OccursAt(s, r.value, i)
    ensures r.None? <==>
      (forall j :: 0 <= j < |s| ==> !DateAt(s, Iso, j)) && (forall j :: 0 <= j < |s| ==> !DateAt(s, Dotted, j))
  {
    match MatchDate(s, Iso)
    case Some(d) => Some(d)
    case None => MatchDate(s, Dotted)
  }

  /** The match of a form is the date at the leftmost position where that form stands. */
  lemma MatchDateLeftmost(s: string, form: DateForm, i: nat)
    requires DateAt(s, form, i) && forall j :: 0 <= j < i ==> !DateAt(s, form, j)
    ensures MatchDate(s, form) == Some(s[i..i + 10])
  {
    var r := FirstDateFrom(s, form, 0);
    assert r.Some?;
    assert r.value == i;
  }

  /** An ISO date anywhere wins, even when a dotted date comes earlier in the text: the
      date is the first ISO one. */
  lemma IsoDateWins(s: string, i: nat)
    requires DateAt(s, Iso, i) && forall j :: 0 <= j < i ==> !DateAt(s, Iso, j)
    ensures FindDate(s) == Some(s[i..i + 10])
  {
    MatchDateLeftmost(s, Iso, i);
  }

  /** Without an ISO date, the date is the first dotted one. */
  lemma DottedDateFallback(s: string, i: nat)
    requires forall j :: 0 <= j < |s| ==> !DateAt(s, Iso, j)
    requires DateAt(s, Dotted, i) && forall j :: 0 <= j < i ==> !DateAt(s, Dotted, j)
    ensures FindDate(s) == Some(s[i..i + 10])
  {
    MatchDateLeftmost(s, Dotted, i);
  }

  lemma NoEarlyIso(s: string)
    requires s == "01.05.2024 2024-05-01"
    ensures forall j :: 0 <= j < 11 ==> !DateAt(s, Iso, j)
  {
    forall j | 0 <= j < 11 ensures !DateAt(s, Iso, j) {
      assert !IsDigit(s[j + 4]) || !IsDigit(s[j + 3]) || !IsDigit(s[j + 2]) || !IsDigit(s[j + 1]) || !IsDigit(s[j]) || s[j + 4] != '-';
    }
  }

  lemma BothDates(s: string)
    requires s == "01.05.2024 2024-05-01"
    ensures DateAt(s, Dotted, 0) && DateAt(s, Iso, 11)
  {
  }

  lemma IsoSlice(s: string)
    requires s == "01.05.2024 2024-05-01"
    ensures s[11..21] == "2024-05-01"
  {
    forall k | 0 <= k < 10 ensures s[11..21][k] == "2024-05-01"[k] {
    }
  }

  /** `"01.05.2024 2024-05-01"`: the dotted date comes first, but the ISO date is taken. */
  lemma IsoAfterDottedExample(s: string)
    requires s == "01.05.2024 2024-05-01"
    ensures DateAt(s, Dotted, 0)
    ensures FindDate(s) == Some("2024-05-01")
  {
    NoEarlyIso(s);
    BothDates(s);
    IsoDateWins(s, 11);
    IsoSlice(s);
  }
}
