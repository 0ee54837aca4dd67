/**
 * Character-level helpers the shader compiler takes from its string library
 * (strLTrimSpace, strWord, strFind, strFindNl, fromString, strCmp with a length
 * limit) and from its own helper nextWord. A text is the content of a C string,
 * held as a `string`; a cursor into it is an index.
 */
module Text {

  datatype Option<+T> = None | Some(value: T)

  type byte = x: int | 0 <= x < 0x100
  type u16 = x: int | 0 <= x < 0x1_0000
  type u32 = x: int | 0 <= x < 0x1_0000_0000

  /** The library's isSpace: blank, tab, newline, vertical tab, form feed, carriage return. */
  predicate IsSpace(c: char) {
    c == ' ' || c == '\t' || c == '\n' || c == '\r' || c as int == 11 || c as int == 12
  }

  predicate IsDigit(c: char) { '0' <= c <= '9' }

  /** A character strWord keeps: a letter, a digit or an underscore. */
  predicate IsWordChar(c: char) {
    ('a' <= c <= 'z') || ('A' <= c <= 'Z') || IsDigit(c) || c == '_'
  }

  /** strCmp(word, lit, |lit|) == 0: the word starts with the literal. */
  predicate HasPrefix(word: string, lit: string) {
    |lit| <= |word| && word[..|lit|] == lit
  }

  /** The literal `f` occurs in `s` at position `i`. */
  predicate MatchAt(s: string, i: int, f: string) {
    0 <= i && i + |f| <= |s| && s[i..i + |f|] == f
  }

  /** `s` holds no occurrence of `f` anywhere. */
  ghost predicate NoMatch(s: string, f: string) {
    forall q :: !MatchAt(s, q, f)
  }

  /** strLTrimSpace: the first position at or after `i` that is not a space. */
  function SkipSpace(s: string, i: nat): (r: nat)
    requires i <= |s|
    ensures i <= r <= |s|
    ensures forall k :: i <= k < r ==> IsSpace(s[k])
    ensures r == |s| || !IsSpace(s[r])
    decreases |s| - i
  {
    if i == |s| || !IsSpace(s[i]) then i else SkipSpace(s, i + 1)
  }

  /** strWord: the end of the run of word characters that starts at `i`. */
  function WordEnd(s: string, i: nat): (r: nat)
    requires i <= |s|
    ensures i <= r <= |s|
    ensures forall k :: i <= k < r ==> IsWordChar(s[k])
    ensures r == |s| || !IsWordChar(s[r])
    decreases |s| - i
  {
    if i == |s| || !IsWordChar(s[i]) then i else WordEnd(s, i + 1)
  }

  /** A word found by nextWord: it spans [start, end) and the cursor moves to `next`. */
  datatype Word = Word(start: nat, end: nat, next: nat)

  /** nextWord: skip spaces, take a word, skip the spaces after it. */
  function NextWord(s: string, i: nat): (w: Word)
    requires i <= |s|
    ensures i <= w.start <= w.end <= w.next <= |s|
    ensures forall k :: i <= k < w.start ==> IsSpace(s[k])
    ensures w.start == |s| || !IsSpace(s[w.start])
    ensures forall k :: w.start <= k < w.end ==> IsWordChar(s[k])
    ensures w.end == |s| || !IsWordChar(s[w.end])
    ensures forall k :: w.end <= k < w.next ==> IsSpace(s[k])
    ensures w.next == |s| || !IsSpace(s[w.next])
  {
    var b := SkipSpace(s, i);
    var e := WordEnd(s, b);
    Word(b, e, SkipSpace(s, e))
  }

  /** strFind for one character: the first position at or after `i` holding `c`. */
  function FindChar(s: string, i: nat, c: char): (r: Option<nat>)
    requires i <= |s|
    ensures r.Some? ==> i <= r.value < |s| && s[r.value] == c
    ensures r.Some? ==> forall k :: i <= k < r.value ==> s[k] != c
    ensures r.None? ==> forall k :: i <= k < |s| ==> s[k] != c
    decreases |s| - i
  {
    if i == |s| then None
    else if s[i] == c then Some(i)
    else FindChar(s, i + 1, c)
  }

  /** strFind for a literal: the first position at or after `i` where `f` occurs. */
  function FindStr(s: string, i: nat, f: string): (r: Option<nat>)
    requires i <= |s|
    ensures r.Some? ==> i <= r.value && MatchAt(s, r.value, f)
    ensures r.Some? ==> forall k :: i <= k < r.value ==> !MatchAt(s, k, f)
    ensures r.None? ==> forall k :: i <= k ==> !MatchAt(s, k, f)
    decreases |s| - i
  {
    if i + |f| > |s| then None
    else if s[i..i + |f|] == f then Some(i)
    else FindStr(s, i + 1, f)
  }

  /** strFindNl: the position just past the first newline at or after `i`, or the end. */
  function FindNl(s: string, i: nat): (r: nat)
    requires i <= |s|
    ensures i <= r <= |s|
    ensures r == |s| || (i < r && s[r - 1] == '\n')
    ensures forall k :: i <= k < r - 1 ==> s[k] != '\n'
    ensures r == |s| && (|s| == i || s[|s| - 1] != '\n') ==> forall k :: i <= k < |s| ==> s[k] != '\n'
  {
    match FindChar(s, i, '\n')
    case Some(k) => k + 1
    case None => |s|
  }

  /** The number written in decimal by the digits of `d`. */
  function DecimalValue(d: string): (v: nat)
    requires forall k :: 0 <= k < |d| ==> IsDigit(d[k])
    ensures d == [] ==> v == 0
  {
    if d == [] then 0
    else
      var c := d[|d| - 1];
      assert IsDigit(c);
      DecimalValue(d[..|d| - 1]) * 10 + (c as int - '0' as int)
  }

  /** The end of the run of decimal digits that starts at `i`. */
  function DigitsEnd(s: string, i: nat): (r: nat)
    requires i <= |s|
    ensures i <= r <= |s|
    ensures forall k :: i <= k < r ==> IsDigit(s[k])
    ensures r == |s| || !IsDigit(s[r])
    decreases |s| - i
  {
    if i == |s| || !IsDigit(s[i]) then i else DigitsEnd(s, i + 1)
  }

  /** An unsigned number read from a text, and the position just after its last digit. */
  datatype Number = Number(value: nat, end: nat)

  /**
   * The unsigned conversion shared by fromString and sscanf's %u: leading spaces
   * are skipped, then at least one decimal digit is read. No digit reads nothing.
   */
  function ScanUnsigned(s: string, i: nat): (r: Option<Number>)
    requires i <= |s|
    ensures r.Some? ==> i < r.value.end <= |s|
    ensures r.Some? ==>
      var b := SkipSpace(s, i);
      && b < r.value.end
      && (forall k :: b <= k < r.value.end ==> IsDigit(s[k]))
      && r.value.value == DecimalValue(s[b..r.value.end])
    ensures r.Some? ==> r.value.end == |s| || !IsDigit(s[r.value.end])
    ensures r.None? <==> SkipSpace(s, i) == |s| || !IsDigit(s[SkipSpace(s, i)])
  {
    var b := SkipSpace(s, i);
    var e := DigitsEnd(s, b);
    if e == b then None else Some(Number(DecimalValue(s[b..e]), e))
  }

  /** `r` padded with blanks to `n` characters, as strReplace pads its replacement. */
  function Pad(r: string, n: nat): (p: string)
    requires |r| <= n
    ensures |p| == n && p[..|r|] == r
    ensures forall k :: |r| <= k < n ==> p[k] == ' '
    decreases n - |r|
  {
    if |r| == n then r else Pad(r + " ", n)
  }

  /**
   * Literal, left-to-right, non-overlapping replacement of every `f` in `s` by `r`:
   * a match is replaced and the search resumes after it. This is what the
   * library's regex_replace does with a literal pattern, and what strReplace
   * does once its replacement is padded to the pattern's length.
   */
  function ReplaceAll(s: string, f: string, r: string): (t: string)
    requires |f| > 0
    ensures |r| == |f| ==> |t| == |s|
    decreases |s|
  {
    if |s| < |f| then s
    else if s[..|f|] == f then r + ReplaceAll(s[|f|..], f, r)
    else [s[0]] + ReplaceAll(s[1..], f, r)
  }

  /** An occurrence in a suffix is an occurrence in the whole text, shifted. */
  lemma MatchInSuffix(s: string, d: nat, f: string)
    requires d <= |s|
    ensures forall q :: MatchAt(s[d..], q, f) ==> MatchAt(s, q + d, f)
  {
    forall q | MatchAt(s[d..], q, f) ensures MatchAt(s, q + d, f) {
      assert s[q + d..q + d + |f|] == s[d..][q..q + |f|];
    }
  }

  /** An occurrence in `a + b` that starts inside `a` begins with a character of `a`;
      one that starts after `a` is an occurrence in `b`. */
  lemma MatchInConcat(a: string, b: string, g: string)
    requires |g| > 0
    ensures forall q :: MatchAt(a + b, q, g) && q < |a| ==> g[0] == a[q]
    ensures forall q :: MatchAt(a + b, q, g) && q >= |a| ==> MatchAt(b, q - |a|, g)
  {
    forall q | MatchAt(a + b, q, g) && q < |a| ensures g[0] == a[q] {
      assert (a + b)[q..q + |g|][0] == (a + b)[q];
    }
    forall q | MatchAt(a + b, q, g) && q >= |a| ensures MatchAt(b, q - |a|, g) {
      assert (a + b)[q..q + |g|] == b[q - |a|..q - |a| + |g|];
    }
  }

  /** Text that holds no `f` is left as it is. */
  lemma {:induction false} ReplaceAllNoMatch(s: string, f: string, r: string)
    requires |f| > 0 && NoMatch(s, f)
    ensures ReplaceAll(s, f, r) == s
    decreases |s|
  {
    if |s| >= |f| {
      assert !MatchAt(s, 0, f);
      MatchInSuffix(s, 1, f);
      ReplaceAllNoMatch(s[1..], f, r);
    }
  }

  /** Before the first match, ReplaceAll copies the text. */
  lemma {:induction false} ReplaceAllUnmatchedPrefix(s: string, f: string, r: string, m: nat)
    requires |f| > 0 && m <= |s|
    requires forall q :: 0 <= q < m ==> !MatchAt(s, q, f)
    ensures ReplaceAll(s, f, r) == s[..m] + ReplaceAll(s[m..], f, r)
    decreases m
  {
    if m == 0 {
      assert s[..0] == [] && s[0..] == s;
    } else if |s| < |f| {
      assert |s[m..]| < |f|;
    } else {
      assert !MatchAt(s, 0, f);
      MatchInSuffix(s, 1, f);
      ReplaceAllUnmatchedPrefix(s[1..], f, r, m - 1);
      assert s[1..][m - 1..] == s[m..];
      assert [s[0]] + s[1..][..m - 1] == s[..m];
    }
  }

  /**
   * A replaced text differs from `s` at a position only where that position lies
   * inside an occurrence of `f` in `s` (replacements of equal length).
   */
  lemma {:induction false} ReplaceAllChangesOnlyMatches(s: string, f: string, p: string, i: nat)
    requires |f| > 0 && |p| == |f| && i < |s|
    requires ReplaceAll(s, f, p)[i] != s[i]
    ensures exists j :: j <= i < j + |f| && MatchAt(s, j, f)
    decreases |s|
  {
    if s[..|f|] == f && i < |f| {
      assert MatchAt(s, 0, f);
    } else {
      var d := if s[..|f|] == f then |f| else 1;
      var rest := s[d..];
      assert ReplaceAll(s, f, p)[i] == ReplaceAll(rest, f, p)[i - d];
      ReplaceAllChangesOnlyMatches(rest, f, p, i - d);
      var j :| j <= i - d < j + |f| && MatchAt(rest, j, f);
      MatchInSuffix(s, d, f);
      assert MatchAt(s, j + d, f);
    }
  }

  /**
   * The first character of ReplaceAll(s, f, r) does not start an occurrence of `g`
   * when `s` does not start with `f`, provided `r` cannot overlap an occurrence of `g`.
   */
  lemma FirstPositionAvoids(s: string, f: string, r: string, g: string)
    requires |f| > 0 && |g| > 0 && |r| > 0
    requires g[0] !in r && r[0] !in g[1..]
    requires g == f || NoMatch(s, g)
    requires !MatchAt(s, 0, f)
    ensures !MatchAt(ReplaceAll(s, f, r), 0, g)
  {
    var k := if |g| < |s| then |g| else |s|;
    var next := if |s| >= 1 then FindStr(s, 1, f) else None;
    if next.Some? && next.value < k {
      EarlyMatchAvoids(s, f, r, g, next.value);
    } else {
      assert forall q :: 0 <= q < k ==> !MatchAt(s, q, f);
      NoEarlyMatchAvoids(s, f, r, g, k);
    }
  }

  /** Helper of FirstPositionAvoids: no match of `f` starts in the first |g| characters. */
  lemma NoEarlyMatchAvoids(s: string, f: string, r: string, g: string, k: nat)
    requires |f| > 0 && |g| > 0
    requires g == f || NoMatch(s, g)
    requires k == |g| <= |s| || k == |s| < |g|
    requires forall q :: 0 <= q < k ==> !MatchAt(s, q, f)
    ensures !MatchAt(ReplaceAll(s, f, r), 0, g)
  {
    var t := ReplaceAll(s, f, r);
    ReplaceAllUnmatchedPrefix(s, f, r, k);
    if k == |s| {
      assert |s[k..]| < |f|;
      assert t == s;
    } else {
      assert t[..|g|] == s[..|g|];
      assert !MatchAt(s, 0, g);
    }
  }

  /** Helper of FirstPositionAvoids: the first match of `f` lies inside the first |g| characters. */
  lemma EarlyMatchAvoids(s: string, f: string, r: string, g: string, m: nat)
    requires |f| > 0 && |g| > 0 && |r| > 0
    requires r[0] !in g[1..]
    requires 0 < m < |g| && MatchAt(s, m, f)
    requires forall q :: 0 <= q < m ==> !MatchAt(s, q, f)
    ensures !MatchAt(ReplaceAll(s, f, r), 0, g)
  {
    var t := ReplaceAll(s, f, r);
    ReplaceAllUnmatchedPrefix(s, f, r, m);
    var u := s[m..];
    assert u[..|f|] == f;
    assert ReplaceAll(u, f, r) == r + ReplaceAll(u[|f|..], f, r);
    assert t == s[..m] + ReplaceAll(u, f, r);
    assert t[m] == r[0];
    assert g[1..][m - 1] == g[m];
    assert g[m] != t[m];
    if |g| <= |t| {
      assert t[..|g|][m] == t[m];
    }
  }

  /**
   * Replacing `f` by `r` leaves no occurrence of `g`, where `g` is `f` itself or
   * was absent before, when `r` cannot take part in an occurrence of `g`: the first
   * character of `g` is not in `r`, and the first character of `r` is not in the
   * rest of `g`.
   */
  lemma {:induction false} ReplaceAllAvoids(s: string, f: string, r: string, g: string)
    requires |f| > 0 && |g| > 0 && |r| > 0
    requires g[0] !in r && r[0] !in g[1..]
    requires g == f || NoMatch(s, g)
    ensures NoMatch(ReplaceAll(s, f, r), g)
    decreases |s|
  {
    var t := ReplaceAll(s, f, r);
    if |s| < |f| {
      assert t == s;
    } else {
      var head := if s[..|f|] == f then r else [s[0]];
      var d := if s[..|f|] == f then |f| else 1;
      var rest := s[d..];
      MatchInSuffix(s, d, g);
      ReplaceAllAvoids(rest, f, r, g);
      var tr := ReplaceAll(rest, f, r);
      assert t == head + tr;
      MatchInConcat(head, tr, g);
      if s[..|f|] != f {
        FirstPositionAvoids(s, f, r, g);
      }
    }
  }

  /**
   * A padded replacement `p` and a literal `g` that cannot overlap: `p` ends in
   * a blank, `g` holds no blank, and neither of the last two characters of `g`
   * occurs in `p`.
   */
  predicate Apart(g: string, p: string) {
    2 <= |g| && 0 < |p| && p[|p| - 1] == ' ' && ' ' !in g
    && g[|g| - 2] !in p && g[|g| - 1] !in p
  }

  /** No occurrence of `g` overlaps a stretch of `t` that holds `p`. */
  lemma ApartNoOverlap(t: string, m: nat, p: string, q: nat, g: string)
    requires Apart(g, p)
    requires m + |p| <= |t| && t[m..m + |p|] == p
    requires q < m + |p| && m < q + |g|
    ensures !MatchAt(t, q, g)
  {
    if q + |g| <= |t| {
      var last := q + |g| - 1;
      if m <= last < m + |p| {
        assert t[last] == p[last - m];
        MismatchAt(t, q, g, last);
      } else if m <= last - 1 < m + |p| {
        assert t[last - 1] == p[last - 1 - m];
        MismatchAt(t, q, g, last - 1);
      } else {
        var e := m + |p| - 1;
        assert t[e] == p[|p| - 1] == ' ';
        assert g[e - q] in g;
        MismatchAt(t, q, g, e);
      }
    }
  }

  /** Helper of FirstPositionApart: the first match of `f` lies inside the first |g| characters. */
  lemma EarlyMatchApart(s: string, f: string, p: string, g: string, m: nat)
    requires |f| > 0 && Apart(g, p)
    requires 0 < m < |g| && MatchAt(s, m, f)
    requires forall q :: 0 <= q < m ==> !MatchAt(s, q, f)
    ensures !MatchAt(ReplaceAll(s, f, p), 0, g)
  {
    var t := ReplaceAll(s, f, p);
    ReplaceAllUnmatchedPrefix(s, f, p, m);
    var u := s[m..];
    assert u[..|f|] == f;
    var tail := ReplaceAll(u[|f|..], f, p);
    assert ReplaceAll(u, f, p) == p + tail;
    assert t == s[..m] + p + tail;
    assert t[m..m + |p|] == p;
    ApartNoOverlap(t, m, p, 0, g);
  }

  /** The first character of the replaced text does not start a `g`, when `s` does not start with `f`. */
  lemma FirstPositionApart(s: string, f: string, p: string, g: string)
    requires |f| > 0 && Apart(g, p)
    requires g == f || NoMatch(s, g)
    requires !MatchAt(s, 0, f)
    ensures !MatchAt(ReplaceAll(s, f, p), 0, g)
  {
    var k := if |g| < |s| then |g| else |s|;
    var next := if |s| >= 1 then FindStr(s, 1, f) else None;
    if next.Some? && next.value < k {
      EarlyMatchApart(s, f, p, g, next.value);
    } else {
      assert forall q :: 0 <= q < k ==> !MatchAt(s, q, f);
      NoEarlyMatchAvoids(s, f, p, g, k);
    }
  }

  /**
   * Replacing `f` by a padded replacement `p` that cannot overlap `g` leaves no
   * occurrence of `g`, where `g` is `f` itself or was absent before.
   */
  lemma {:induction false} ReplaceAllApart(s: string, f: string, p: string, g: string)
    requires |f| > 0 && Apart(g, p)
    requires g == f || NoMatch(s, g)
    ensures NoMatch(ReplaceAll(s, f, p), g)
    decreases |s|
  {
    var t := ReplaceAll(s, f, p);
    if |s| < |f| {
      assert t == s;
    } else {
      var d := if s[..|f|] == f then |f| else 1;
      var rest := s[d..];
      MatchInSuffix(s, d, g);
      ReplaceAllApart(rest, f, p, g);
      var tr := ReplaceAll(rest, f, p);
      if s[..|f|] == f {
        assert t == p + tr;
        forall q
          ensures !MatchAt(t, q, g)
        {
          if 0 <= q < |p| {
            assert t[0..|p|] == p;
            ApartNoOverlap(t, 0, p, q, g);
          } else if q >= |p| {
            MatchShift(p, tr, q - |p|, g);
          }
        }
      } else {
        assert t == [s[0]] + tr;
        FirstPositionApart(s, f, p, g);
        forall q
          ensures !MatchAt(t, q, g)
        {
          if q >= 1 {
            MatchShift([s[0]], tr, q - 1, g);
          }
        }
      }
    }
  }

  /** ReplaceAll from a position where `f` occurs: the replacement, then the rest. */
  lemma ReplaceAllAtMatch(s: string, i: nat, f: string, r: string)
    requires |f| > 0 && MatchAt(s, i, f)
    ensures ReplaceAll(s[i..], f, r) == r + ReplaceAll(s[i + |f|..], f, r)
  {
    assert s[i..][..|f|] == f;
    assert s[i..][|f|..] == s[i + |f|..];
  }

  /** A replace-all brings in no character that is neither in the text nor in the replacement. */
  lemma {:induction false} ReplaceAllWithout(s: string, f: string, r: string, c: char)
    requires |f| > 0 && c !in s && c !in r
    ensures c !in ReplaceAll(s, f, r)
    decreases |s|
  {
    if |s| < |f| {
    } else if s[..|f|] == f {
      assert c !in s[|f|..];
      ReplaceAllWithout(s[|f|..], f, r, c);
    } else {
      assert c !in s[1..];
      ReplaceAllWithout(s[1..], f, r, c);
    }
  }

  /** ReplaceAll from a position where `f` does not occur: that character, then the rest. */
  lemma ReplaceAllAtMismatch(s: string, i: nat, f: string, r: string)
    requires |f| > 0 && i + |f| <= |s| && !MatchAt(s, i, f)
    ensures ReplaceAll(s[i..], f, r) == [s[i]] + ReplaceAll(s[i + 1..], f, r)
  {
    assert s[i..][..|f|] != f;
    assert s[i..][1..] == s[i + 1..];
  }

  /** SkipSpace is pinned down by its contract: a run of spaces ending at a non-space or the end. */
  lemma SkipSpaceIs(s: string, i: nat, r: nat)
    requires i <= r <= |s|
    requires forall k :: i <= k < r ==> IsSpace(s[k])
    requires r == |s| || !IsSpace(s[r])
    ensures SkipSpace(s, i) == r
  {
  }

  /** WordEnd is pinned down by its contract. */
  lemma WordEndIs(s: string, i: nat, r: nat)
    requires i <= r <= |s|
    requires forall k :: i <= k < r ==> IsWordChar(s[k])
    requires r == |s| || !IsWordChar(s[r])
    ensures WordEnd(s, i) == r
  {
  }

  /** DigitsEnd is pinned down by its contract. */
  lemma DigitsEndIs(s: string, i: nat, r: nat)
    requires i <= r <= |s|
    requires forall k :: i <= k < r ==> IsDigit(s[k])
    requires r == |s| || !IsDigit(s[r])
    ensures DigitsEnd(s, i) == r
  {
  }

  /** nextWord from a word's first character: the word spans [i, e), the spaces after it [e, n). */
  lemma NextWordIs(s: string, i: nat, e: nat, n: nat)
    requires i <= e <= n <= |s|
    requires i == |s| || !IsSpace(s[i])
    requires forall k :: i <= k < e ==> IsWordChar(s[k])
    requires e == |s| || !IsWordChar(s[e])
    requires forall k :: e <= k < n ==> IsSpace(s[k])
    requires n == |s| || !IsSpace(s[n])
    ensures NextWord(s, i) == Word(i, e, n)
  {
    SkipSpaceIs(s, i, i);
    WordEndIs(s, i, e);
    SkipSpaceIs(s, e, n);
  }

  /** A run of digits `d` at `i`, ended by a non-digit, reads as the number `d` writes. */
  lemma ScanUnsignedIs(s: string, i: nat, d: string)
    requires |d| > 0 && forall k :: 0 <= k < |d| ==> IsDigit(d[k])
    requires i + |d| <= |s| && s[i..i + |d|] == d
    requires i + |d| == |s| || !IsDigit(s[i + |d|])
    ensures ScanUnsigned(s, i) == Some(Number(DecimalValue(d), i + |d|))
  {
    assert forall k :: i <= k < i + |d| ==> s[k] == s[i..i + |d|][k - i];
    assert !IsSpace(s[i]) by {
      assert s[i] == d[0];
    }
    SkipSpaceIs(s, i, i);
    DigitsEndIs(s, i, i + |d|);
    assert s[SkipSpace(s, i)..DigitsEnd(s, SkipSpace(s, i))] == d;
  }

  /** A literal does not occur at `i` when a character it covers differs. */
  lemma MismatchAt(s: string, i: nat, f: string, b: nat)
    requires i <= b < i + |f| && b < |s| && s[b] != f[b - i]
    ensures !MatchAt(s, i, f)
  {
    if i + |f| <= |s| {
      assert s[i..i + |f|][b - i] == s[b];
    }
  }

  /** FindChar finds `c` at `r` when `r` holds the first `c` from `i` on. */
  lemma FindCharIs(s: string, i: nat, c: char, r: nat)
    requires i <= r < |s| && s[r] == c
    requires forall k :: i <= k < r ==> s[k] != c
    ensures FindChar(s, i, c) == Some(r)
  {
  }

  /** The scanners look only forward: skipping spaces in `b` inside `a + b` ends at the same place, shifted by |a|. */
  lemma SkipSpaceShift(a: string, b: string, i: nat)
    requires i <= |b|
    ensures SkipSpace(a + b, |a| + i) == |a| + SkipSpace(b, i)
  {
    var s := a + b;
    assert forall k :: 0 <= k < |b| ==> s[|a| + k] == b[k];
    SkipSpaceIs(s, |a| + i, |a| + SkipSpace(b, i));
  }

  lemma WordEndShift(a: string, b: string, i: nat)
    requires i <= |b|
    ensures WordEnd(a + b, |a| + i) == |a| + WordEnd(b, i)
  {
    var s := a + b;
    assert forall k :: 0 <= k < |b| ==> s[|a| + k] == b[k];
    WordEndIs(s, |a| + i, |a| + WordEnd(b, i));
  }

  lemma DigitsEndShift(a: string, b: string, i: nat)
    requires i <= |b|
    ensures DigitsEnd(a + b, |a| + i) == |a| + DigitsEnd(b, i)
  {
    var s := a + b;
    assert forall k :: 0 <= k < |b| ==> s[|a| + k] == b[k];
    DigitsEndIs(s, |a| + i, |a| + DigitsEnd(b, i));
  }

  lemma NextWordShift(a: string, b: string, i: nat, j: nat)
    requires i <= |b| && j == |a| + i
    ensures NextWord(a + b, j) ==
      var w := NextWord(b, i); Word(|a| + w.start, |a| + w.end, |a| + w.next)
  {
    var w := NextWord(b, i);
    SkipSpaceShift(a, b, i);
    WordEndShift(a, b, w.start);
    SkipSpaceShift(a, b, w.end);
  }

  lemma MatchShift(a: string, b: string, i: nat, f: string)
    ensures MatchAt(a + b, |a| + i, f) <==> MatchAt(b, i, f)
  {
    if i + |f| <= |b| {
      assert (a + b)[|a| + i..|a| + i + |f|] == b[i..i + |f|];
    }
  }

  lemma FindCharShift(a: string, b: string, i: nat, c: char)
    requires i <= |b|
    ensures FindChar(a + b, |a| + i, c) ==
      match FindChar(b, i, c) case None => None case Some(k) => Some(|a| + k)
  {
    var s := a + b;
    assert forall k :: 0 <= k < |b| ==> s[|a| + k] == b[k];
    match FindChar(b, i, c)
    case None =>
    case Some(k) => FindCharIs(s, |a| + i, c, |a| + k);
  }

  lemma FindNlShift(a: string, b: string, i: nat)
    requires i <= |b|
    ensures FindNl(a + b, |a| + i) == |a| + FindNl(b, i)
  {
    FindCharShift(a, b, i, '\n');
  }

  lemma ScanUnsignedShift(a: string, b: string, i: nat)
    requires i <= |b|
    ensures ScanUnsigned(a + b, |a| + i) ==
      match ScanUnsigned(b, i) case None => None case Some(n) => Some(Number(n.value, |a| + n.end))
  {
    var s := a + b;
    var d := SkipSpace(b, i);
    SkipSpaceShift(a, b, i);
    DigitsEndShift(a, b, d);
    var e := DigitsEnd(b, d);
    assert s[|a| + d..|a| + e] == b[d..e];
  }

  /** Scanning that stops inside `a` is not affected by what follows `a`. */
  lemma SkipSpaceExtend(a: string, b: string, i: nat)
    requires i <= |a| && SkipSpace(a, i) < |a|
    ensures SkipSpace(a + b, i) == SkipSpace(a, i)
  {
    SkipSpaceIs(a + b, i, SkipSpace(a, i));
  }

  lemma WordEndExtend(a: string, b: string, i: nat)
    requires i <= |a| && WordEnd(a, i) < |a|
    ensures WordEnd(a + b, i) == WordEnd(a, i)
  {
    WordEndIs(a + b, i, WordEnd(a, i));
  }

  lemma NextWordExtend(a: string, b: string, i: nat)
    requires i <= |a| && NextWord(a, i).next < |a|
    ensures NextWord(a + b, i) == NextWord(a, i)
  {
    var w := NextWord(a, i);
    SkipSpaceExtend(a, b, i);
    WordEndExtend(a, b, w.start);
    SkipSpaceExtend(a, b, w.end);
  }

  lemma FindCharExtend(a: string, b: string, i: nat, c: char)
    requires i <= |a| && FindChar(a, i, c).Some?
    ensures FindChar(a + b, i, c) == FindChar(a, i, c)
  {
    FindCharIs(a + b, i, c, FindChar(a, i, c).value);
  }

  lemma MatchExtend(a: string, b: string, i: nat, f: string)
    requires i + |f| <= |a|
    ensures MatchAt(a + b, i, f) <==> MatchAt(a, i, f)
  {
    assert (a + b)[i..i + |f|] == a[i..i + |f|];
  }
  /** A literal whose first character does not occur from `i` on is not found. */
  lemma {:induction false} FindStrAbsent(s: string, i: nat, f: string)
    requires i <= |s| && 0 < |f|
    requires forall k :: i <= k < |s| ==> s[k] != f[0]
    ensures FindStr(s, i, f) == None
    decreases |s| - i
  {
    if i + |f| <= |s| {
      MismatchAt(s, i, f, i);
      FindStrAbsent(s, i + 1, f);
    }
  }

  /** FindStr finds `f` at `r` when `f` occurs there and its first character does not occur in [i, r). */
  lemma {:induction false} FindStrIs(s: string, i: nat, f: string, r: nat)
    requires i <= r && 0 < |f| && MatchAt(s, r, f)
    requires forall k :: i <= k < r ==> s[k] != f[0]
    ensures FindStr(s, i, f) == Some(r)
    decreases r - i
  {
    if i < r {
      MismatchAt(s, i, f, i);
      FindStrIs(s, i + 1, f, r);
    }
  }
}
