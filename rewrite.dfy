/**
 * The text passes between the optimizer and the scanners: leading directive
 * lines are dropped, deprecated extension function names are rewritten in
 * place, and vertex shaders for GL targets are forced to high precision.
 */
module Rewrite {
  import opened Text
  import opened Dialect

  /** A line of `s` starts at `j`. */
  predicate LineStart(s: string, j: int) {
    0 <= j <= |s| && (j == 0 || s[j - 1] == '\n')
  }

  /**
   * Where directive trimming stops when it starts at line start `i`: at the
   * first line from `i` on that does not start with '#', or at the end of the
   * text; every line start passed over holds a '#'.
   */
  function DirectiveEndFrom(s: string, i: nat): (k: nat)
    requires i <= |s|
    ensures i <= k <= |s|
    ensures k == |s| || s[k] != '#'
    ensures k == i || k == |s| || s[k - 1] == '\n'
    ensures forall j :: i <= j < k && (j == i || s[j - 1] == '\n') ==> s[j] == '#'
    decreases |s| - i
  {
    if i < |s| && s[i] == '#' then
      var n := FindNl(s, i);
      DirectiveEndFrom(s, n)
    else i
  }

  /** The position of the text that is kept once the directive lines are dropped. */
  function DirectiveEnd(s: string): nat
  {
    DirectiveEndFrom(s, 0)
  }

  /**
   * Trimming stops at the first line that does not start with '#': every line
   * dropped is a directive, the kept text starts at a line boundary (or is empty)
   * and does not start with '#'.
   */
  lemma {:induction false} DirectiveEndFromIsFirstPlainLine(s: string, i: nat)
    requires i <= |s| && (LineStart(s, i) || i == |s|)
    requires forall j :: 0 <= j < i && LineStart(s, j) ==> s[j] == '#'
    ensures var k := DirectiveEndFrom(s, i);
      && (LineStart(s, k) || k == |s|)
      && (k == |s| || s[k] != '#')
      && forall j :: 0 <= j < k && LineStart(s, j) ==> s[j] == '#'
    decreases |s| - i
  {
    if i < |s| && s[i] == '#' {
      var n := FindNl(s, i);
      assert forall j :: i < j < n ==> !LineStart(s, j);
      DirectiveEndFromIsFirstPlainLine(s, n);
    }
  }

  /**
   * The trimming loop: while the text starts with '#', move past the next newline.
   * The result is the first line start whose line is not a directive.
   */
  method TrimDirectives(s: string) returns (k: nat)
    ensures k == DirectiveEnd(s)
    ensures k <= |s| && (LineStart(s, k) || k == |s|)
    ensures k == |s| || s[k] != '#'
    ensures forall j :: 0 <= j < k && LineStart(s, j) ==> s[j] == '#'
  {
    k := 0;
    while k < |s| && s[k] == '#'
      invariant k <= |s| && (LineStart(s, k) || k == |s|)
      invariant DirectiveEndFrom(s, k) == DirectiveEnd(s)
      invariant forall j :: 0 <= j < k && LineStart(s, j) ==> s[j] == '#'
      decreases |s| - k
    {
      var n := FindNl(s, k);
      assert forall j :: k < j < n ==> !LineStart(s, j);
      k := n;
    }
  }

  /** The deprecated names rewritten on every target, each with its canonical name. */
  const LegacyNames: seq<(string, string)> := [
    ("gl_FragDepthEXT", "gl_FragDepth"),
    ("textureLodEXT", "texture2DLod"),
    ("textureGradEXT", "texture2DGrad"),
    ("texture2DLodARB", "texture2DLod"),
    ("texture2DLodEXT", "texture2DLod"),
    ("texture2DGradARB", "texture2DGrad"),
    ("texture2DGradEXT", "texture2DGrad"),
    ("textureCubeLodARB", "textureCubeLod"),
    ("textureCubeLodEXT", "textureCubeLod"),
    ("textureCubeGradARB", "textureCubeGrad"),
    ("textureCubeGradEXT", "textureCubeGrad"),
    ("texture2DProjLodARB", "texture2DProjLod"),
    ("texture2DProjLodEXT", "texture2DProjLod"),
    ("texture2DProjGradARB", "texture2DProjGrad"),
    ("texture2DProjGradEXT", "texture2DProjGrad"),
    ("shadow2DARB", "shadow2D"),
    ("shadow2DEXT", "shadow2D"),
    ("shadow2DProjARB", "shadow2DProj"),
    ("shadow2DProjEXT", "shadow2DProj")
  ]

  /** Every deprecated name is non-empty and longer than its replacement. */
  predicate ShrinkingTable(table: seq<(string, string)>) {
    forall i :: 0 <= i < |table| ==> 0 < |table[i].1| < |table[i].0|
  }

  lemma LegacyNamesShrink()
    ensures ShrinkingTable(LegacyNames)
  {
  }

  /** A text without the character at position `j` of `f` holds no occurrence of `f`. */
  lemma AbsentCharNoMatch(s: string, f: string, j: nat)
    requires j < |f| && forall k :: 0 <= k < |s| ==> s[k] != f[j]
    ensures NoMatch(s, f)
  {
    forall q
      ensures !MatchAt(s, q, f)
    {
      if 0 <= q && q + |f| <= |s| {
        assert s[q..q + |f|][j] == s[q + j] != f[j];
      }
    }
  }

  /** Every deprecated name ends in "EXT" or "ARB": its last but one character is 'X' or 'R'. */
  lemma LegacyNamesMarked(i: nat)
    requires i < |LegacyNames|
    ensures 2 <= |LegacyNames[i].0|
    ensures LegacyNames[i].0[|LegacyNames[i].0| - 2] in "XR"
  {
  }

  /** The last character of every deprecated name is 'T' or 'B'. */
  lemma LegacyNamesTailed(i: nat)
    requires i < |LegacyNames|
    ensures 2 <= |LegacyNames[i].0|
    ensures LegacyNames[i].0[|LegacyNames[i].0| - 1] in "TB"
  {
  }

  /** No deprecated name holds a blank. */
  lemma LegacyNamesUnblanked(i: nat)
    requires i < |LegacyNames|
    ensures ' ' !in LegacyNames[i].0
  {
    if i < 10 {
      FirstNamesUnblanked(i);
    } else {
      LastNamesUnblanked(i);
    }
  }

  lemma FirstNamesUnblanked(i: nat)
    requires i < 10
    ensures ' ' !in LegacyNames[i].0
  {
  }

  lemma LastNamesUnblanked(i: nat)
    requires 10 <= i < |LegacyNames|
    ensures ' ' !in LegacyNames[i].0
  {
  }

  /** No replacement holds an 'X' or an 'R'. */
  lemma ReplacementsUnmarked(i: nat)
    requires i < |LegacyNames|
    ensures 'X' !in LegacyNames[i].1 && 'R' !in LegacyNames[i].1
  {
  }

  /** No replacement holds a 'T' or a 'B'. */
  lemma ReplacementsUntailed(i: nat)
    requires i < |LegacyNames|
    ensures 'T' !in LegacyNames[i].1 && 'B' !in LegacyNames[i].1
  {
  }

  /** No replacement holds a NUL. */
  lemma ReplacementsWithoutNul(i: nat)
    requires i < |LegacyNames|
    ensures '\0' !in LegacyNames[i].1
  {
  }

  /** Padding brings in blanks only. */
  lemma PadWithout(r: string, n: nat, c: char)
    requires |r| <= n && c !in r && c != ' '
    ensures c !in Pad(r, n)
  {
    var p := Pad(r, n);
    forall k | 0 <= k < n
      ensures p[k] != c
    {
      if k < |r| {
        assert p[k] == p[..|r|][k] == r[k];
      }
    }
  }

  /**
   * A deprecated name cannot overlap a padded replacement: the replacement ends
   * in a blank, which no name holds, and holds neither of the last two
   * characters of any name.
   */
  lemma LegacyApart(i: nat, j: nat)
    requires i < |LegacyNames| && j < |LegacyNames|
    ensures Apart(LegacyNames[i].0, Pad(LegacyNames[j].1, |LegacyNames[j].0|))
  {
    var g := LegacyNames[i].0;
    var r := LegacyNames[j].1;
    var n := |LegacyNames[j].0|;
    LegacyNamesShrink();
    LegacyNamesMarked(i);
    LegacyNamesTailed(i);
    LegacyNamesUnblanked(i);
    ReplacementsUnmarked(j);
    ReplacementsUntailed(j);
    PadWithout(r, n, g[|g| - 2]);
    PadWithout(r, n, g[|g| - 1]);
  }

  /**
   * No replacement contains any of the deprecated names, so a rewrite never
   * brings in a name that the table would rewrite.
   */
  lemma ReplacementsAvoidNames(i: nat, j: nat)
    requires i < |LegacyNames| && j < |LegacyNames|
    ensures NoMatch(LegacyNames[i].1, LegacyNames[j].0)
  {
    var f := LegacyNames[j].0;
    LegacyNamesMarked(j);
    ReplacementsUnmarked(i);
    assert forall k :: 0 <= k < |LegacyNames[i].1| ==> LegacyNames[i].1[k] != f[|f| - 2];
    AbsentCharNoMatch(LegacyNames[i].1, f, |f| - 2);
  }

  /** strReplace: every `find` replaced by `replace` padded with blanks to the same length. */
  function ReplaceInPlace(s: string, find: string, replace: string): (t: string)
    requires 0 < |find| && |replace| <= |find|
    ensures |t| == |s|
  {
    ReplaceAll(s, find, Pad(replace, |find|))
  }

  /** The text after the first `n` replacements of `table`, in table order. */
  function RewriteWith(s: string, table: seq<(string, string)>, n: nat): (t: string)
    requires ShrinkingTable(table) && n <= |table|
    ensures |t| == |s|
  {
    if n == 0 then s
    else ReplaceInPlace(RewriteWith(s, table, n - 1), table[n - 1].0, table[n - 1].1)
  }

  /** The legacy rewrite: the nineteen replacements in table order. None of the deprecated names is left. */
  function LegacyRewritten(s: string): (t: string)
    ensures |t| == |s|
    ensures forall i :: 0 <= i < |LegacyNames| ==> NoMatch(t, LegacyNames[i].0)
  {
    LegacyNamesShrink();
    LegacyRewriteRemovesNames(s, |LegacyNames|);
    RewriteWith(s, LegacyNames, |LegacyNames|)
  }

  /**
   * After the first `n` replacements none of the first `n` names is left: each
   * replacement removes its own name and, since a padded replacement cannot
   * overlap a name, brings back none of the earlier ones.
   */
  lemma {:induction false} LegacyRewriteRemovesNames(s: string, n: nat)
    requires n <= |LegacyNames|
    ensures ShrinkingTable(LegacyNames)
    ensures forall i :: 0 <= i < n ==> NoMatch(RewriteWith(s, LegacyNames, n), LegacyNames[i].0)
  {
    LegacyNamesShrink();
    if n > 0 {
      LegacyRewriteRemovesNames(s, n - 1);
      var prev := RewriteWith(s, LegacyNames, n - 1);
      var f := LegacyNames[n - 1].0;
      var p := Pad(LegacyNames[n - 1].1, |f|);
      assert RewriteWith(s, LegacyNames, n) == ReplaceAll(prev, f, p);
      forall i | 0 <= i < n
        ensures NoMatch(ReplaceAll(prev, f, p), LegacyNames[i].0)
      {
        LegacyApart(i, n - 1);
        ReplaceAllApart(prev, f, p, LegacyNames[i].0);
      }
    }
  }

  /** Rewriting a rewritten text changes nothing. */
  lemma LegacyRewriteIdempotent(s: string)
    ensures LegacyRewritten(LegacyRewritten(s)) == LegacyRewritten(s)
  {
    var t := LegacyRewritten(s);
    LegacyNamesShrink();
    RewriteWithoutNames(t, LegacyNames, |LegacyNames|);
  }

  /** Shrinking replacements bring in no character but blanks and those of the replacements. */
  lemma {:induction false} RewriteWithWithout(s: string, table: seq<(string, string)>, n: nat, c: char)
    requires ShrinkingTable(table) && n <= |table|
    requires c !in s && c != ' '
    requires forall i :: 0 <= i < |table| ==> c !in table[i].1
    ensures c !in RewriteWith(s, table, n)
  {
    if n > 0 {
      var (f, r) := table[n - 1];
      RewriteWithWithout(s, table, n - 1, c);
      PadWithout(r, |f|, c);
      ReplaceAllWithout(RewriteWith(s, table, n - 1), f, Pad(r, |f|), c);
    }
  }

  /** The rewrite of a C string, one without NUL, is still a C string. */
  lemma LegacyRewriteKeepsCString(s: string)
    requires '\0' !in s
    ensures '\0' !in LegacyRewritten(s)
  {
    LegacyNamesShrink();
    forall i | 0 <= i < |LegacyNames|
      ensures '\0' !in LegacyNames[i].1
    {
      ReplacementsWithoutNul(i);
    }
    RewriteWithWithout(s, LegacyNames, |LegacyNames|, '\0');
  }

  /** memCopy of `src` into the buffer at `at`. */
  method CopyInto(buf: array<char>, at: nat, src: string)
    requires at + |src| <= buf.Length
    modifies buf
    ensures buf[..at] == old(buf[..at])
    ensures buf[at..at + |src|] == src
    ensures forall k :: at + |src| <= k < buf.Length ==> buf[k] == old(buf[k])
  {
    forall k | at <= k < at + |src| {
      buf[k] := src[k - at];
    }
  }

  /**
   * One step of strReplace at position `i`: a match is overwritten with the padded
   * replacement and skipped, any other character is kept and skipped.
   */
  method ReplaceStep(buf: array<char>, i: nat, find: string, padded: string, ghost orig: string) returns (next: nat)
    requires 0 < |find| == |padded| && i + |find| <= buf.Length == |orig|
    requires forall k :: i <= k < buf.Length ==> buf[k] == orig[k]
    modifies buf
    ensures i < next <= buf.Length
    ensures buf[..i] == old(buf[..i])
    ensures forall k :: next <= k < buf.Length ==> buf[k] == orig[k]
    ensures MatchAt(orig, i, find) ==> next == i + |find| && buf[i..next] == padded
    ensures !MatchAt(orig, i, find) ==> next == i + 1 && buf[i..next] == orig[i..next]
  {
    var m := |find|;
    assert buf[i..i + m] == orig[i..i + m];
    if buf[i..i + m] == find {
      CopyInto(buf, i, padded);
      next := i + m;
    } else {
      next := i + 1;
    }
  }

  /** What one step writes, followed by the replacement of the rest, is the replacement from `i`. */
  lemma ReplaceAllStep(s: string, i: nat, f: string, r: string, next: nat, written: string)
    requires 0 < |f| && i + |f| <= |s|
    requires MatchAt(s, i, f) ==> next == i + |f| && written == r
    requires !MatchAt(s, i, f) ==> next == i + 1 && written == s[i..next]
    ensures ReplaceAll(s[i..], f, r) == written + ReplaceAll(s[next..], f, r)
  {
    if MatchAt(s, i, f) {
      ReplaceAllAtMatch(s, i, f, r);
    } else {
      ReplaceAllAtMismatch(s, i, f, r);
      assert written == [s[i]];
    }
  }

  /** The output so far grows by what one step writes. */
  lemma ReplacedPrefix(whole: string, prefix: string, step: string, rest: string, after: string)
    requires whole == prefix + rest && rest == step + after
    ensures whole == (prefix + step) + after
  {
  }

  /**
   * strReplace on the text buffer: scan for `find`, overwrite each match with the
   * padded replacement, resume the search after the match.
   */
  method StrReplace(buf: array<char>, find: string, replace: string)
    requires 0 < |find| && |replace| <= |find|
    modifies buf
    ensures buf[..] == ReplaceInPlace(old(buf[..]), find, replace)
  {
    var m := |find|;
    var padded := Pad(replace, m);
    ghost var orig := buf[..];
    var i := 0;
    while i + m <= buf.Length
      invariant 0 <= i <= buf.Length
      invariant forall k :: i <= k < buf.Length ==> buf[k] == orig[k]
      invariant ReplaceAll(orig, find, padded) == buf[..i] + ReplaceAll(orig[i..], find, padded)
      decreases buf.Length - i
    {
      ghost var prefix := buf[..i];
      var next := ReplaceStep(buf, i, find, padded, orig);
      assert buf[..next] == prefix + buf[i..next];
      ReplaceAllStep(orig, i, find, padded, next, buf[i..next]);
      ReplacedPrefix(ReplaceAll(orig, find, padded), prefix, buf[i..next], ReplaceAll(orig[i..], find, padded), ReplaceAll(orig[next..], find, padded));
      i := next;
    }
    assert buf[i..] == orig[i..];
    assert |orig[i..]| < m;
    assert buf[..] == buf[..i] + buf[i..];
  }

  /** The legacy rewrite of the output buffer: each table entry in turn, in place. */
  method LegacyRewrite(buf: array<char>)
    modifies buf
    ensures buf[..] == LegacyRewritten(old(buf[..]))
  {
    LegacyNamesShrink();
    var n := 0;
    while n < |LegacyNames|
      invariant n <= |LegacyNames|
      invariant buf[..] == RewriteWith(old(buf[..]), LegacyNames, n)
    {
      StrReplace(buf, LegacyNames[n].0, LegacyNames[n].1);
      n := n + 1;
    }
  }

  /** A text holding none of the deprecated names is left as it is. */
  lemma {:induction false} RewriteWithoutNames(s: string, table: seq<(string, string)>, n: nat)
    requires ShrinkingTable(table) && n <= |table|
    requires forall i :: 0 <= i < n ==> NoMatch(s, table[i].0)
    ensures RewriteWith(s, table, n) == s
  {
    if n > 0 {
      RewriteWithoutNames(s, table, n - 1);
      ReplaceAllNoMatch(s, table[n - 1].0, Pad(table[n - 1].1, |table[n - 1].0|));
    }
  }

  /**
   * Only deprecated names change: a character the rewrite changed lies inside an
   * occurrence of one of the table's names, in the text as that entry found it.
   */
  lemma {:induction false} RewriteChangesOnlyNames(s: string, table: seq<(string, string)>, n: nat, i: nat)
    requires ShrinkingTable(table) && 0 < n <= |table| && i < |s|
    requires RewriteWith(s, table, n)[i] != s[i]
    ensures exists e, j :: 0 <= e < n && j <= i < j + |table[e].0| && MatchAt(RewriteWith(s, table, e), j, table[e].0)
  {
    var prev := RewriteWith(s, table, n - 1);
    if prev[i] != s[i] {
      RewriteChangesOnlyNames(s, table, n - 1, i);
      var e, j :| 0 <= e < n - 1 && j <= i < j + |table[e].0| && MatchAt(RewriteWith(s, table, e), j, table[e].0);
      assert 0 <= e < n;
    } else {
      var f := table[n - 1].0;
      ReplaceAllChangesOnlyMatches(prev, f, Pad(table[n - 1].1, |f|), i);
      var j :| j <= i < j + |f| && MatchAt(prev, j, f);
      assert MatchAt(RewriteWith(s, table, n - 1), j, table[n - 1].0);
    }
  }

  /**
   * Vertex-shader precision forcing: for a shader type of exactly 'v' on a
   * target other than Metal, every "lowp" and then every "mediump" becomes
   * "highp", so the result holds neither anywhere, not even inside an
   * identifier; any other text is passed on unchanged.
   */
  function ForcePrecision(s: string, shaderType: char, target: Target): (r: string)
    ensures target != Metal && shaderType == 'v' ==> NoMatch(r, "lowp") && NoMatch(r, "mediump")
    ensures target == Metal || shaderType != 'v' ==> r == s
  {
    if target != Metal && shaderType == 'v' then
      var s1 := ReplaceAll(s, "lowp", "highp");
      ReplaceAllAvoids(s, "lowp", "highp", "lowp");
      ReplaceAllAvoids(s1, "mediump", "highp", "lowp");
      ReplaceAllAvoids(s1, "mediump", "highp", "mediump");
      ReplaceAll(s1, "mediump", "highp")
    else s
  }

  /** Forcing precision keeps a C string a C string. */
  lemma ForcePrecisionKeepsCString(s: string, shaderType: char, target: Target)
    requires '\0' !in s
    ensures '\0' !in ForcePrecision(s, shaderType, target)
  {
    if target != Metal && shaderType == 'v' {
      ReplaceAllWithout(s, "lowp", "highp", '\0');
      ReplaceAllWithout(ReplaceAll(s, "lowp", "highp"), "mediump", "highp", '\0');
    }
  }
}
