/**
 * The uniform-header scanner for the GL targets. The optimizer prints the
 * uniform declarations first; the scanner walks the text one `;`-terminated
 * statement at a time, skips precision, varying and temporary statements,
 * turns each `uniform` statement into a descriptor and stops at the first
 * statement of any other kind.
 */
module GlScanner {
  import opened Text
  import opened Uniforms

  /** The characters of word `w` in `s`. */
  function Lexeme(s: string, w: Word): string
    requires w.start <= w.end <= |s|
  {
    s[w.start..w.end]
  }

  /** First words of statements the scanner passes over (prefix tests, as strCmp with a limit). */
  predicate SkippedQualifier(word: string): (b: bool)
    ensures b ==> 2 <= |word| && !HasPrefix(word, "uniform")
  {
    assert forall n :: 0 < n <= |word| ==> word[..n][0] == word[0];
    || HasPrefix(word, "precision")
    || HasPrefix(word, "attribute")
    || HasPrefix(word, "varying")
    || HasPrefix(word, "in")
    || HasPrefix(word, "out")
    || HasPrefix(word, "flat")
    || HasPrefix(word, "smooth")
    || HasPrefix(word, "noperspective")
    || HasPrefix(word, "centroid")
  }

  /** The optional precision word in front of a uniform's type. */
  predicate PrecisionWord(word: string) {
    HasPrefix(word, "lowp") || HasPrefix(word, "mediump") || HasPrefix(word, "highp")
  }

  /** Sampler types of every flavour are described as "int". */
  predicate SamplerType(word: string) {
    HasPrefix(word, "sampler") || HasPrefix(word, "isampler") || HasPrefix(word, "usampler")
  }

  /**
   * The name handed to the type table: "int" for a sampler, otherwise the type
   * word as it fits the 256-byte buffer (at most 255 characters and the NUL).
   */
  function TypeName(word: string): (n: string)
    ensures |n| <= 255
    ensures SamplerType(word) ==> n == "int"
    ensures !SamplerType(word) ==> |n| == (if |word| <= 255 then |word| else 255) && n == word[..|n|]
  {
    if SamplerType(word) then "int"
    else if |word| <= 255 then word
    else word[..255]
  }

  /**
   * The element count after a uniform's name at `at`: 1 without a '[', else
   * the number after the '[' cut to 8 bits. None when the '[' is followed by
   * no digit (fromString then leaves its result unset).
   */
  function ArraySize(s: string, at: nat): (r: Option<byte>)
    requires at <= |s|
    ensures (at == |s| || s[at] != '[') ==> r == Some(1)
    ensures at < |s| && s[at] == '[' ==>
      (r.None? <==> ScanUnsigned(s, at + 1).None?) &&
      (r.Some? ==> r.value == ScanUnsigned(s, at + 1).value.value % 0x100)
  {
    if at < |s| && s[at] == '[' then
      match ScanUnsigned(s, at + 1)
      case None => None
      case Some(n) => Some(n.value % 0x100)
    else Some(1)
  }

  /** What one pass of the scan loop decides. */
  datatype Step =
    | Stop                                         // the loop ends
    | Next(entry: Option<Uniform>, cursor: nat)    // maybe a descriptor; go on at `cursor`
    | BadArraySize                                 // '[' without a number

  /** The type word of a declaration, past the optional precision word. */
  function TypeWord(s: string, after: nat): (t: Word)
    requires after <= |s|
    ensures after <= t.start <= t.end <= t.next <= |s|
    ensures forall k :: t.start <= k < t.end ==> IsWordChar(s[k])
    ensures t.end == |s| || !IsWordChar(s[t.end])
    ensures t.next == |s| || !IsSpace(s[t.next])
  {
    var t0 := NextWord(s, after);
    if PrecisionWord(Lexeme(s, t0)) then NextWord(s, t0.next) else t0
  }

  /** The name word of a declaration, after its type. */
  function NameWord(s: string, after: nat): (w: Word)
    requires after <= |s|
    ensures after <= w.start <= w.end <= w.next <= |s|
  {
    NextWord(s, TypeWord(s, after).next)
  }

  /**
   * The descriptor for a declared type, name and element count: nothing for a
   * type the table does not know, an error for an unreadable count.
   */
  function Describe(table: TypeTable, typeName: string, name: string, size: Option<byte>, next: nat): (r: Step)
    requires ValidTable(table)
  {
    var utype := table.lookup(typeName);
    if utype == table.count then Next(None, next)
    else if size.None? then BadArraySize
    else Next(Some(NewUniform(name, utype, size.value, 0, RegCount(table, utype, size.value))), next)
  }

  /**
   * A `uniform` statement whose keyword ends before `after` and whose ';' is at
   * `eol`: optional precision, type, name, optional [N]. A type the table does
   * not know adds nothing; either way the scan goes on at the line after the ';'.
   */
  function Declaration(s: string, after: nat, eol: nat, table: TypeTable): (r: Step)
    requires ValidTable(table) && after <= |s| && eol < |s|
    ensures r.Stop? == false
    ensures r.Next? ==> eol < r.cursor <= |s|
  {
    var nm := NameWord(s, after);
    Describe(table, TypeName(Lexeme(s, TypeWord(s, after))), Lexeme(s, nm), ArraySize(s, nm.next), SkipSpace(s, FindNl(s, eol)))
  }

  /**
   * The statement that starts at `p` and ends at the ';' at `eol`, classified by
   * its first word: skipped (and so is a statement whose next word starts with
   * "tmpvar"), a uniform declaration, or the end of the header.
   */
  function Statement(s: string, p: nat, eol: nat, table: TypeTable): (r: Step)
    requires ValidTable(table) && p <= eol < |s|
    ensures r.Next? ==> p < r.cursor <= |s|
  {
    var q := NextWord(s, p);
    var qualifier := Lexeme(s, q);
    if SkippedQualifier(qualifier) || MatchAt(s, q.next, "tmpvar") then Next(None, eol + 1)
    else if !HasPrefix(qualifier, "uniform") then Stop
    else Declaration(s, q.next, eol, table)
  }

  /** strLTrimSpace on a view: the text from its first non-space character on. */
  function Trimmed(t: string): (u: string)
    ensures |u| <= |t| && u == t[|t| - |u|..]
    ensures u == [] || !IsSpace(u[0])
  {
    t[SkipSpace(t, 0)..]
  }

  /**
   * The scan of the remaining text `t` (the `parse` view): trim it, then scan
   * the statements of the trimmed view. Every descriptor it produces has a
   * known type, register index 0, the register count its type and element
   * count call for, untouched texture fields and a name of word characters.
   */
  function ScanText(t: string, table: TypeTable): (r: Scan)
    requires ValidTable(table)
    ensures r.Scanned? ==> AllGlDescriptors(table, r.uniforms)
    decreases |t|, 1
  {
    ScanView(Trimmed(t), table)
  }

  /**
   * The scan of a trimmed view: find the statement's ';', classify the
   * statement, and go on with the view after it. Non-blank text without a ';'
   * ends the scan here; the loop as written never ends on it (see PassAsWritten).
   */
  function ScanView(u: string, table: TypeTable): (r: Scan)
    requires ValidTable(table)
    ensures r.Scanned? ==> AllGlDescriptors(table, r.uniforms)
    decreases |u|, 0
  {
    match FindChar(u, 0, ';')
    case None => Scanned([])
    case Some(eol) =>
      StatementDescriptor(u, 0, eol, table);
      match Statement(u, 0, eol, table)
      case Stop => Scanned([])
      case BadArraySize => Malformed
      case Next(e, c) =>
        PrependDescriptors(table, e, ScanText(u[c..], table));
        Prepend(Entries(e), ScanText(u[c..], table))
  }

  /** Trimming a trimmed view changes nothing. */
  lemma TrimmedTwice(t: string)
    ensures Trimmed(Trimmed(t)) == Trimmed(t)
  {
    var u := Trimmed(t);
    SkipSpaceIs(u, 0, 0);
  }

  /** The scan trims first, so leading blanks do not matter. */
  lemma ScanTrimmed(t: string, table: TypeTable)
    requires ValidTable(table)
    ensures ScanText(Trimmed(t), table) == ScanText(t, table)
  {
    TrimmedTwice(t);
  }

  /** A view that does not start with a blank is scanned as it is. */
  lemma TrimmedView(t: string, table: TypeTable)
    requires ValidTable(table) && (t == [] || !IsSpace(t[0]))
    ensures ScanText(t, table) == ScanView(t, table)
  {
    SkipSpaceIs(t, 0, 0);
  }

  /**
   * The scan loop: the view is trimmed, the statement up to its ';' is read,
   * each descriptor found is appended to the table and the view moves on.
   */
  method ScanUniforms(s: string, table: TypeTable) returns (r: Scan)
    requires ValidTable(table)
    ensures r == ScanText(s, table)
  {
    var uniforms: seq<Uniform> := [];
    var parse := s;
    while |parse| > 0
      invariant ScanText(s, table) == Prepend(uniforms, ScanText(parse, table))
      decreases |parse|
    {
      ScanTrimmed(parse, table);
      parse := parse[SkipSpace(parse, 0)..];
      TrimmedView(parse, table);
      var eol := FindChar(parse, 0, ';');
      if eol.None? {
        break;
      }
      var step := Statement(parse, 0, eol.value, table);
      match step {
        case Stop =>
          assert uniforms + [] == uniforms;
          return Scanned(uniforms);
        case BadArraySize =>
          return Malformed;
        case Next(e, c) =>
          ScanViewNext(parse, eol.value, e, c, table);
          PrependTwice(uniforms, Entries(e), ScanText(parse[c..], table));
          uniforms := uniforms + Entries(e);
          parse := parse[c..];
      }
    }
    assert uniforms + [] == uniforms;
    return Scanned(uniforms);
  }

  /** A descriptor as the GL scan builds it. */
  predicate GlDescriptor(table: TypeTable, u: Uniform)
    requires ValidTable(table)
  {
    && u.utype != table.count
    && u.regIndex == 0
    && u.regCount == RegCount(table, u.utype, u.num)
    && u.texComponent == 0 && u.texDimension == 0 && u.texFormat == 0
    && forall k :: 0 <= k < |u.name| ==> IsWordChar(u.name[k])
  }

  /** The entry Describe builds is a well-formed GL descriptor whenever its name is a word. */
  lemma DescribeDescriptor(table: TypeTable, typeName: string, name: string, size: Option<byte>, next: nat)
    requires ValidTable(table)
    requires forall k :: 0 <= k < |name| ==> IsWordChar(name[k])
    ensures var step := Describe(table, typeName, name, size, next);
      step.Next? && step.entry.Some? ==> GlDescriptor(table, step.entry.value)
  {
  }

  /** The name of a declaration is a run of word characters. */
  lemma NameIsWord(u: string, after: nat)
    requires after <= |u|
    ensures var name := Lexeme(u, NameWord(u, after));
      forall k :: 0 <= k < |name| ==> IsWordChar(name[k])
  {
    var w := NameWord(u, after);
    assert forall k :: w.start <= k < w.end ==> IsWordChar(u[k]);
  }

  /** The descriptor a single statement yields is well formed. */
  lemma StatementDescriptor(u: string, p: nat, eol: nat, table: TypeTable)
    requires ValidTable(table) && p <= eol < |u|
    ensures var step := Statement(u, p, eol, table);
      step.Next? && step.entry.Some? ==> GlDescriptor(table, step.entry.value)
  {
    var q := NextWord(u, p);
    var qualifier := Lexeme(u, q);
    if !SkippedQualifier(qualifier) && !MatchAt(u, q.next, "tmpvar") && HasPrefix(qualifier, "uniform") {
      DeclarationDescriptor(u, q.next, eol, table);
    }
  }

  /** The descriptor a declaration yields is well formed. */
  lemma DeclarationDescriptor(u: string, after: nat, eol: nat, table: TypeTable)
    requires ValidTable(table) && after <= |u| && eol < |u|
    ensures var step := Declaration(u, after, eol, table);
      step.Next? && step.entry.Some? ==> GlDescriptor(table, step.entry.value)
  {
    var nm := NameWord(u, after);
    NameIsWord(u, after);
    DescribeDescriptor(table, TypeName(Lexeme(u, TypeWord(u, after))), Lexeme(u, nm),
      ArraySize(u, nm.next), SkipSpace(u, FindNl(u, eol)));
  }

  /** Every descriptor of a table is as the GL scan builds it. */
  predicate AllGlDescriptors(table: TypeTable, us: seq<Uniform>)
    requires ValidTable(table)
  {
    forall k :: 0 <= k < |us| ==> GlDescriptor(table, us[k])
  }

  lemma PrependDescriptors(table: TypeTable, e: Option<Uniform>, rest: Scan)
    requires ValidTable(table)
    requires e.Some? ==> GlDescriptor(table, e.value)
    requires rest.Scanned? ==> AllGlDescriptors(table, rest.uniforms)
    ensures Prepend(Entries(e), rest).Scanned? ==> AllGlDescriptors(table, Prepend(Entries(e), rest).uniforms)
  {
    if rest.Scanned? {
      var us := Entries(e) + rest.uniforms;
      forall k | 0 <= k < |us| ensures GlDescriptor(table, us[k]) {
        if k >= |Entries(e)| {
          assert us[k] == rest.uniforms[k - |Entries(e)|];
        }
      }
    }
  }

  /**
   * One pass of the loop as the code has it, from the view at the top of the
   * loop to the view at the top of the next pass; None once the loop has ended.
   * When the trimmed view is not empty but holds no ';', nothing moves.
   * A '[' with no number after it also ends the loop here, where the code
   * (tools/shaderc/shaderc_glsl.cpp:211-214) goes on with an undefined element
   * count; the runs below are over texts without ';', which never reach it.
   */
  function PassAsWritten(t: string, table: TypeTable): Option<string>
    requires ValidTable(table)
  {
    if t == [] then None
    else
      var u := Trimmed(t);
      match FindChar(u, 0, ';')
      case None => Some(u)
      case Some(eol) =>
        match Statement(u, 0, eol, table)
        case Next(_, c) => Some(u[c..])
        case _ => None
  }

  /** The view after `n` passes of the loop as written, or None if it ended sooner. */
  function RunAsWritten(t: string, table: TypeTable, n: nat): Option<string>
    requires ValidTable(table)
    decreases n, 1
  {
    if n == 0 then Some(t) else PassThen(t, table, n)
  }

  /** One pass, then the remaining `n - 1`. */
  function PassThen(t: string, table: TypeTable, n: nat): Option<string>
    requires ValidTable(table) && 0 < n
    decreases n, 0
  {
    match PassAsWritten(t, table)
    case None => None
    case Some(v) => RunAsWritten(v, table, n - 1)
  }

  /** Trimming keeps a text free of ';'. */
  lemma NoSemicolonTrimmed(t: string)
    requires forall k :: 0 <= k < |t| ==> t[k] != ';'
    ensures FindChar(Trimmed(t), 0, ';') == None
  {
    var u := Trimmed(t);
    var d := |t| - |u|;
    assert forall k :: 0 <= k < |u| ==> u[k] == t[d + k];
  }

  /** A pass over non-blank text without a ';' leaves the cursor at the trimmed view. */
  lemma PassStays(t: string, table: TypeTable)
    requires ValidTable(table)
    requires Trimmed(t) != [] && FindChar(Trimmed(t), 0, ';') == None
    ensures PassAsWritten(t, table) == Some(Trimmed(t))
    ensures Trimmed(Trimmed(t)) == Trimmed(t)
    ensures forall n :: 0 < n ==> RunAsWritten(t, table, n) == RunAsWritten(Trimmed(t), table, n - 1)
  {
    assert t != [];
    TrimmedTwice(t);
  }

  /**
   * Non-blank text without a ';' keeps the loop as written running for ever:
   * after any number of passes it is still at the same trimmed view.
   */
  lemma {:induction false} AsWrittenNeverEnds(t: string, table: TypeTable, n: nat)
    requires ValidTable(table)
    requires Trimmed(t) != [] && FindChar(Trimmed(t), 0, ';') == None
    ensures n > 0 ==> RunAsWritten(t, table, n) == Some(Trimmed(t))
    decreases n
  {
    var u := Trimmed(t);
    PassStays(t, table);
    if n > 1 {
      AsWrittenNeverEnds(u, table, n - 1);
    }
  }

  /** With the fix the same text simply ends the scan, keeping what was collected. */
  lemma UnterminatedEndsScan(t: string, table: TypeTable)
    requires ValidTable(table)
    requires forall k :: 0 <= k < |t| ==> t[k] != ';'
    ensures ScanText(t, table) == Scanned([])
  {
    NoSemicolonTrimmed(t);
  }

  /**
   * A fragment shader whose body holds no statement, as the optimizer prints an
   * empty main: the loop as written never ends on it, the fixed scan finds no
   * uniform.
   */
  lemma EmptyMainHangs(table: TypeTable, n: nat)
    requires ValidTable(table)
    ensures n > 0 ==> RunAsWritten("void main ()\n{\n}\n", table, n).Some?
    ensures ScanText("void main ()\n{\n}\n", table) == Scanned([])
  {
    var s := "void main ()\n{\n}\n";
    SkipSpaceIs(s, 0, 0);
    assert Trimmed(s) == s;
    NoSemicolonTrimmed(s);
    AsWrittenNeverEnds(s, table, n);
    UnterminatedEndsScan(s, table);
  }

  /**
   * A statement as the scan meets it: it starts at its first word, and its only
   * ';' is its last character.
   */
  predicate Terminated(stmt: string) {
    && |stmt| > 0
    && !IsSpace(stmt[0])
    && stmt[|stmt| - 1] == ';'
    && forall k :: 0 <= k < |stmt| - 1 ==> stmt[k] != ';'
  }

  /** The first word of a statement. */
  function FirstWord(stmt: string): string
    requires |stmt| > 0
  {
    Lexeme(stmt, NextWord(stmt, 0))
  }

  /** The statement is followed at once by "tmpvar" after its first word. */
  predicate Temporary(stmt: string)
    requires |stmt| > 0
  {
    MatchAt(stmt, NextWord(stmt, 0).next, "tmpvar")
  }

  /**
   * A literal without `c` is found at `i` before the `c` that ends `a` exactly
   * when it is found there in `a`: what follows `a` cannot complete it.
   */
  lemma MatchBeforeTerminator(a: string, b: string, i: nat, f: string)
    requires i < |a| && a[|a| - 1] == ';'
    requires forall k :: 0 <= k < |f| ==> f[k] != ';'
    ensures MatchAt(a + b, i, f) <==> MatchAt(a, i, f)
  {
    if i + |f| <= |a| {
      MatchExtend(a, b, i, f);
    } else {
      var k := |a| - 1 - i;
      assert k < |f| && (a + b)[i + k] == ';';
      if MatchAt(a + b, i, f) {
        assert false;
      }
    }
  }

  /**
   * How the scan reads a terminated statement followed by any text: the view
   * needs no trimming, the ';' found is the statement's own, and the first word
   * and the "tmpvar" test see only the statement.
   */
  lemma ReadsStatement(stmt: string, rest: string)
    requires Terminated(stmt)
    ensures var s := stmt + rest;
      && Trimmed(s) == s
      && FindChar(s, 0, ';') == Some(|stmt| - 1)
      && NextWord(stmt, 0).next < |stmt|
      && NextWord(s, 0) == NextWord(stmt, 0)
      && Lexeme(s, NextWord(s, 0)) == FirstWord(stmt)
      && (MatchAt(s, NextWord(s, 0).next, "tmpvar") <==> Temporary(stmt))
  {
    var s := stmt + rest;
    SkipSpaceIs(s, 0, 0);
    FindCharIs(s, 0, ';', |stmt| - 1);
    var q := NextWord(stmt, 0);
    assert q.next < |stmt|;
    NextWordExtend(stmt, rest, 0);
    assert s[q.start..q.end] == stmt[q.start..q.end];
    MatchBeforeTerminator(stmt, rest, q.next, "tmpvar");
  }

  /**
   * A precision, attribute, varying, interpolation or temporary statement adds
   * nothing: the scan of what follows it is the scan of the whole.
   */
  lemma GlSkipsStatement(stmt: string, rest: string, table: TypeTable)
    requires ValidTable(table) && Terminated(stmt)
    requires SkippedQualifier(FirstWord(stmt)) || Temporary(stmt)
    ensures ScanText(stmt + rest, table) == ScanText(rest, table)
  {
    var s := stmt + rest;
    ReadsStatement(stmt, rest);
    var eol := |stmt| - 1;
    var q := NextWord(s, 0);
    assert SkippedQualifier(Lexeme(s, q)) || MatchAt(s, q.next, "tmpvar");
    var step := Statement(s, 0, eol, table);
    assert step == Next(None, |stmt|);
    assert s[|stmt|..] == rest;
    assert ScanView(s, table) == Prepend([], ScanText(rest, table));
  }

  /**
   * A statement of any other kind that is not a uniform declaration ends the
   * header: nothing after it is scanned.
   */
  lemma GlStopsAtStatement(stmt: string, rest: string, table: TypeTable)
    requires ValidTable(table) && Terminated(stmt)
    requires !SkippedQualifier(FirstWord(stmt)) && !Temporary(stmt)
    requires !HasPrefix(FirstWord(stmt), "uniform")
    ensures ScanText(stmt + rest, table) == Scanned([])
  {
    var s := stmt + rest;
    ReadsStatement(stmt, rest);
    assert Statement(s, 0, |stmt| - 1, table) == Stop;
  }

  /** A non-empty run of word characters. */
  predicate IsWord(w: string) {
    |w| > 0 && forall k :: 0 <= k < |w| ==> IsWordChar(w[k])
  }

  /** A non-empty run of decimal digits. */
  predicate IsDigits(d: string) {
    |d| > 0 && forall k :: 0 <= k < |d| ==> IsDigit(d[k])
  }

  /** The optional precision word of a declaration, with the blank after it. */
  function PrecisionText(precision: Option<string>): string {
    if precision.Some? then precision.value + " " else ""
  }

  /** The optional array size of a declaration, in brackets. */
  function SizeText(size: Option<string>): string {
    if size.Some? then "[" + size.value + "]" else ""
  }

  /** The element count a declaration states: its size cut to 8 bits, or 1 without one. */
  function ElementCount(size: Option<string>): byte
    requires size.Some? ==> IsDigits(size.value)
  {
    if size.Some? then DecimalValue(size.value) % 0x100 else 1
  }

  /**
   * A text that starts with the declaration "uniform [precision] <type> <name>[[N]];"
   * on a line of its own and goes on with `rest`.
   */
  function UniformText(precision: Option<string>, typ: string, name: string, size: Option<string>,
                       rest: string): string {
    "uniform " + (PrecisionText(precision) + (typ + (" " + (name + (SizeText(size) + (";" + ("\n" + rest)))))))
  }

  /** The parts of a declaration the scan reads. */
  predicate WellFormedParts(precision: Option<string>, typ: string, name: string, size: Option<string>) {
    && (precision.Some? ==> IsWord(precision.value) && PrecisionWord(precision.value))
    && IsWord(typ) && IsWord(name)
    && (size.Some? ==> IsDigits(size.value))
  }

  /** `s` holds a uniform line's parts at the positions `t`, `a`, `n`, `e`, and then `rest`. */
  predicate LineParts(s: string, precision: Option<string>, typ: string, name: string, size: Option<string>,
                      rest: string, t: nat, a: nat, n: nat, e: nat) {
    && t == 8 + |PrecisionText(precision)| && a == t + |typ|
    && n == a + 1 + |name| && e == n + |SizeText(size)| && e + 2 <= |s|
    && s[..8] == "uniform " && s[8..t] == PrecisionText(precision)
    && s[t..a] == typ && s[a] == ' ' && s[a + 1..n] == name
    && s[n..e] == SizeText(size) && s[e] == ';' && s[e + 1] == '\n'
    && s[e + 2..] == rest
  }

  /** Splitting the text after `i` into `w` and what follows it. */
  lemma Peel(s: string, i: nat, w: string, r: string)
    requires i <= |s| && s[i..] == w + r
    ensures i + |w| <= |s| && s[i..i + |w|] == w && s[i + |w|..] == r
    ensures |w| > 0 ==> s[i] == w[0]
  {
    assert s[i..i + |w|] == s[i..][..|w|];
    assert s[i + |w|..] == s[i..][|w|..];
  }

  /** Peel with the end of `w` given as `j`. */
  lemma PeelTo(s: string, i: nat, j: nat, w: string, r: string)
    requires j == i + |w| && i <= |s| && s[i..] == w + r
    ensures j <= |s| && s[i..j] == w && s[j..] == r
  {
    Peel(s, i, w, r);
  }

  /** The end of a uniform line: its ';' and its newline, then `rest`. */
  lemma EndPart(s: string, e: nat, rest: string)
    requires e <= |s| && s[e..] == ";" + ("\n" + rest)
    ensures e + 2 <= |s| && s[e] == ';' && s[e + 1] == '\n' && s[e + 2..] == rest
  {
    Peel(s, e, ";", "\n" + rest);
    Peel(s, e + 1, "\n", rest);
  }

  /** The optional size of a uniform line, then its end. */
  lemma SizePart(s: string, n: nat, size: Option<string>, rest: string, e: nat)
    requires e == n + |SizeText(size)|
    requires n <= |s| && s[n..] == SizeText(size) + (";" + ("\n" + rest))
    ensures e + 2 <= |s| && s[n..e] == SizeText(size)
    ensures s[e] == ';' && s[e + 1] == '\n' && s[e + 2..] == rest
  {
    PeelTo(s, n, e, SizeText(size), ";" + ("\n" + rest));
    EndPart(s, e, rest);
  }

  /** The blank and the name of a uniform line, then its size and end. */
  lemma NamePart(s: string, a: nat, name: string, size: Option<string>, rest: string, n: nat, e: nat)
    requires n == a + 1 + |name| && e == n + |SizeText(size)|
    requires a <= |s| && s[a..] == " " + (name + (SizeText(size) + (";" + ("\n" + rest))))
    ensures e + 2 <= |s| && s[a] == ' ' && s[a + 1..n] == name && s[n..e] == SizeText(size)
    ensures s[e] == ';' && s[e + 1] == '\n' && s[e + 2..] == rest
  {
    var sizeOn := SizeText(size) + (";" + ("\n" + rest));
    Peel(s, a, " ", name + sizeOn);
    PeelTo(s, a + 1, n, name, sizeOn);
    SizePart(s, n, size, rest, e);
  }

  /** The type of a uniform line, then its name, size and end. */
  lemma TypePart(s: string, t: nat, typ: string, name: string, size: Option<string>, rest: string,
                 a: nat, n: nat, e: nat)
    requires a == t + |typ| && n == a + 1 + |name| && e == n + |SizeText(size)|
    requires t <= |s| && s[t..] == typ + (" " + (name + (SizeText(size) + (";" + ("\n" + rest)))))
    ensures e + 2 <= |s| && s[t..a] == typ
    ensures s[a] == ' ' && s[a + 1..n] == name && s[n..e] == SizeText(size)
    ensures s[e] == ';' && s[e + 1] == '\n' && s[e + 2..] == rest
  {
    Peel(s, t, typ, " " + (name + (SizeText(size) + (";" + ("\n" + rest)))));
    NamePart(s, a, name, size, rest, n, e);
  }

  /** The parts of a uniform line after its keyword, where the text puts them. */
  lemma PartsAfterKeyword(s: string, precision: Option<string>, typ: string, name: string, size: Option<string>,
                          rest: string, t: nat, a: nat, n: nat, e: nat)
    requires t == 8 + |PrecisionText(precision)| && a == t + |typ|
    requires n == a + 1 + |name| && e == n + |SizeText(size)|
    requires 8 <= |s| && s[..8] == "uniform "
    requires s[8..] == PrecisionText(precision) + (typ + (" " + (name + (SizeText(size) + (";" + ("\n" + rest))))))
    ensures LineParts(s, precision, typ, name, size, rest, t, a, n, e)
  {
    Peel(s, 8, PrecisionText(precision), typ + (" " + (name + (SizeText(size) + (";" + ("\n" + rest))))));
    TypePart(s, t, typ, name, size, rest, a, n, e);
  }

  /** The parts of a uniform line, where the text puts them. */
  lemma UniformTextParts(s: string, precision: Option<string>, typ: string, name: string, size: Option<string>,
                         rest: string, t: nat, a: nat, n: nat, e: nat)
    requires s == UniformText(precision, typ, name, size, rest)
    requires t == 8 + |PrecisionText(precision)| && a == t + |typ|
    requires n == a + 1 + |name| && e == n + |SizeText(size)|
    ensures LineParts(s, precision, typ, name, size, rest, t, a, n, e)
  {
    var after := PrecisionText(precision) + (typ + (" " + (name + (SizeText(size) + (";" + ("\n" + rest))))));
    assert s[0..] == "uniform " + after;
    Peel(s, 0, "uniform ", after);
    PartsAfterKeyword(s, precision, typ, name, size, rest, t, a, n, e);
  }

  /** Where a run `w` sits in `s` from `i` on, every character of `s` there is the run's. */
  lemma RunAt(s: string, i: nat, w: string)
    requires i + |w| <= |s| && s[i..i + |w|] == w
    ensures forall k :: i <= k < i + |w| ==> s[k] == w[k - i]
  {
    assert forall k :: i <= k < i + |w| ==> s[k] == s[i..i + |w|][k - i];
  }

  /** The words and blanks of a uniform line, up to the end of the name at `n`. */
  lemma UniformLineWords(s: string, precision: Option<string>, typ: string, name: string, size: Option<string>,
                         rest: string, t: nat, a: nat, n: nat, e: nat)
    requires LineParts(s, precision, typ, name, size, rest, t, a, n, e)
    requires WellFormedParts(precision, typ, name, size)
    ensures e + 2 <= |s| && 8 <= t < a < n <= e
    ensures forall k :: 0 <= k < 7 ==> IsWordChar(s[k])
    ensures s[7] == ' '
    ensures precision.None? ==> t == 8
    ensures precision.Some? ==> t == 8 + |precision.value| + 1 && s[t - 1] == ' '
    ensures precision.Some? ==> forall k :: 8 <= k < t - 1 ==> IsWordChar(s[k])
    ensures forall k :: t <= k < a ==> IsWordChar(s[k])
    ensures s[a] == ' '
    ensures forall k :: a + 1 <= k < n ==> IsWordChar(s[k])
  {
    KeywordAt(s);
    WordAt(s, t, typ);
    WordAt(s, a + 1, name);
    if precision.Some? {
      PrecisionAt(s, precision.value, t);
    }
  }

  /** A line that starts with "uniform ": seven word characters, then a blank. */
  lemma KeywordAt(s: string)
    requires 8 <= |s| && s[..8] == "uniform "
    ensures forall k :: 0 <= k < 7 ==> IsWordChar(s[k])
    ensures s[7] == ' '
  {
    RunAt(s, 0, "uniform ");
  }

  /** A word copied into `s` at `i` leaves word characters there. */
  lemma WordAt(s: string, i: nat, w: string)
    requires i + |w| <= |s| && s[i..i + |w|] == w && IsWord(w)
    ensures forall k :: i <= k < i + |w| ==> IsWordChar(s[k])
  {
    RunAt(s, i, w);
  }

  /** The precision word after the keyword, and the blank that ends it at `t - 1`. */
  lemma PrecisionAt(s: string, p: string, t: nat)
    requires t == 8 + |p| + 1 <= |s| && s[8..t] == p + " " && IsWord(p)
    ensures s[t - 1] == ' '
    ensures forall k :: 8 <= k < t - 1 ==> IsWordChar(s[k])
  {
    RunAt(s, 8, p + " ");
    assert forall k :: 8 <= k < t - 1 ==> s[k] == p[k - 8];
  }

  /** The optional size of a uniform line and the ';' and newline that end it. */
  lemma UniformLineEnd(s: string, precision: Option<string>, typ: string, name: string, size: Option<string>,
                       rest: string, t: nat, a: nat, n: nat, e: nat)
    requires LineParts(s, precision, typ, name, size, rest, t, a, n, e)
    requires WellFormedParts(precision, typ, name, size)
    ensures n <= e && e + 2 <= |s|
    ensures size.None? ==> n == e
    ensures size.Some? ==> s[n] == '[' && s[e - 1] == ']' && e == n + |size.value| + 2
    ensures size.Some? ==> forall k :: n + 1 <= k < e - 1 ==> IsDigit(s[k])
    ensures s[e] == ';' && s[e + 1] == '\n'
  {
    if size.Some? {
      var d := size.value;
      RunAt(s, n, "[" + d + "]");
      assert forall k :: n + 1 <= k < e - 1 ==> s[k] == d[k - n - 1];
    }
  }

  /** No ';' comes before the one that ends a uniform line. */
  lemma UniformLineNoSemicolon(s: string, precision: Option<string>, typ: string, name: string, size: Option<string>,
                               rest: string, t: nat, a: nat, n: nat, e: nat)
    requires LineParts(s, precision, typ, name, size, rest, t, a, n, e)
    requires WellFormedParts(precision, typ, name, size)
    ensures e + 2 <= |s| && s[e] == ';' && s[e + 1] == '\n'
    ensures forall k :: 0 <= k < e ==> s[k] != ';'
  {
    UniformLineWords(s, precision, typ, name, size, rest, t, a, n, e);
    UniformLineEnd(s, precision, typ, name, size, rest, t, a, n, e);
    forall k | 0 <= k < e
      ensures s[k] != ';'
    {
      if k < 8 || (t <= k < a) || (a + 1 <= k < n) {
      } else if precision.Some? && k < t {
      } else if k == a {
      } else {
        assert size.Some? && n <= k < e;
      }
    }
  }

  /** The first ';' of a uniform line is the one that ends it, and the newline follows it. */
  lemma UniformLineFinds(s: string, precision: Option<string>, typ: string, name: string, size: Option<string>,
                         rest: string, t: nat, a: nat, n: nat, e: nat)
    requires LineParts(s, precision, typ, name, size, rest, t, a, n, e)
    requires WellFormedParts(precision, typ, name, size)
    ensures e + 2 <= |s|
    ensures FindChar(s, 0, ';') == Some(e) && FindNl(s, e) == e + 2
  {
    UniformLineNoSemicolon(s, precision, typ, name, size, rest, t, a, n, e);
    LineEndFound(s, e);
  }

  /** A line whose first ';' sits at `e`, followed by a newline. */
  lemma LineEndFound(s: string, e: nat)
    requires e + 2 <= |s| && s[e] == ';' && s[e + 1] == '\n'
    requires forall k :: 0 <= k < e ==> s[k] != ';'
    ensures FindChar(s, 0, ';') == Some(e) && FindNl(s, e) == e + 2
  {
    FindCharIs(s, 0, ';', e);
    FindCharIs(s, e, '\n', e + 1);
  }

  /** The first word of a uniform line is the keyword. */
  lemma UniformLineKeyword(s: string, precision: Option<string>, typ: string, name: string, size: Option<string>,
                           rest: string, t: nat, a: nat, n: nat, e: nat)
    requires LineParts(s, precision, typ, name, size, rest, t, a, n, e)
    requires WellFormedParts(precision, typ, name, size)
    ensures 8 <= |s|
    ensures NextWord(s, 0) == Word(0, 7, 8) && Lexeme(s, Word(0, 7, 8)) == "uniform"
  {
    UniformLineWords(s, precision, typ, name, size, rest, t, a, n, e);
    NextWordIs(s, 0, 7, 8);
    assert s[0..7] == s[..8][..7];
  }

  /** The type word the scan reads, past the optional precision. */
  lemma UniformLineType(s: string, precision: Option<string>, typ: string, name: string, size: Option<string>,
                        rest: string, t: nat, a: nat, n: nat, e: nat)
    requires LineParts(s, precision, typ, name, size, rest, t, a, n, e)
    requires WellFormedParts(precision, typ, name, size)
    requires precision.None? ==> !PrecisionWord(typ)
    ensures a + 1 <= |s|
    ensures TypeWord(s, 8) == Word(t, a, a + 1) && Lexeme(s, Word(t, a, a + 1)) == typ
  {
    UniformLineWords(s, precision, typ, name, size, rest, t, a, n, e);
    NextWordIs(s, t, a, a + 1);
    if precision.Some? {
      NextWordIs(s, 8, t - 1, t);
      assert Lexeme(s, Word(8, t - 1, t)) == precision.value by {
        assert s[8..t] == precision.value + " ";
        assert s[8..t - 1] == s[8..t][..t - 9];
      }
    }
  }

  /** The name word the scan reads, up to the size or the ';'. */
  lemma UniformLineName(s: string, precision: Option<string>, typ: string, name: string, size: Option<string>,
                        rest: string, t: nat, a: nat, n: nat, e: nat)
    requires LineParts(s, precision, typ, name, size, rest, t, a, n, e)
    requires WellFormedParts(precision, typ, name, size)
    ensures n < |s|
    ensures NextWord(s, a + 1) == Word(a + 1, n, n) && Lexeme(s, Word(a + 1, n, n)) == name
  {
    UniformLineWords(s, precision, typ, name, size, rest, t, a, n, e);
    UniformLineEnd(s, precision, typ, name, size, rest, t, a, n, e);
    assert s[n] == '[' || s[n] == ';';
    NextWordIs(s, a + 1, n, n);
  }

  /** Bytes that hold "[d]" at `n` hold `d` one past `n`, followed by the ']'. */
  lemma Bracketed(s: string, n: nat, e: nat, d: string)
    requires n <= e <= |s| && s[n..e] == "[" + d + "]"
    ensures e == n + |d| + 2 && s[n] == '[' && s[e - 1] == ']'
    ensures s[n + 1..n + 1 + |d|] == d
  {
    var inner := s[n..e];
    assert forall k :: 0 <= k < |inner| ==> inner[k] == s[n + k];
    assert forall k :: 0 <= k < |d| ==> s[n + 1 + k] == inner[1 + k] == d[k];
  }

  /** "[d]" at `n` gives the element count `d` cut to 8 bits. */
  lemma BracketedSize(s: string, n: nat, e: nat, d: string)
    requires n <= e <= |s| && s[n..e] == "[" + d + "]" && IsDigits(d)
    ensures ArraySize(s, n) == Some(DecimalValue(d) % 0x100)
  {
    Bracketed(s, n, e, d);
    ScanUnsignedIs(s, n + 1, d);
  }

  /** The element count the scan reads after the name. */
  lemma UniformLineSize(s: string, precision: Option<string>, typ: string, name: string, size: Option<string>,
                        rest: string, t: nat, a: nat, n: nat, e: nat)
    requires LineParts(s, precision, typ, name, size, rest, t, a, n, e)
    requires WellFormedParts(precision, typ, name, size)
    ensures n <= |s|
    ensures ArraySize(s, n) == Some(ElementCount(size))
  {
    if size.Some? {
      BracketedSize(s, n, e, size.value);
    } else {
      assert n == e && s[n] == ';';
    }
  }

  /** The word after the keyword does not start with "tmpvar" unless that word does. */
  lemma UniformLineNoTemporary(s: string, precision: Option<string>, typ: string, name: string, size: Option<string>,
                               rest: string, t: nat, a: nat, n: nat, e: nat)
    requires LineParts(s, precision, typ, name, size, rest, t, a, n, e)
    requires WellFormedParts(precision, typ, name, size)
    requires precision.None? ==> !HasPrefix(typ, "tmpvar")
    ensures !MatchAt(s, 8, "tmpvar")
  {
    var w := if precision.Some? then precision.value else typ;
    if precision.Some? {
      PrecisionNotTemporary(w);
    }
    var b := 8 + |w|;
    assert s[8..b] == w && s[b] == ' ' by {
      if precision.Some? {
        assert s[8..t] == w + " ";
        assert s[8..b] == s[8..t][..|w|];
        assert s[b] == s[8..t][|w|];
      } else {
        assert t == 8 && b == a;
      }
    }
    if |w| >= 6 {
      assert s[8..14] == s[8..b][..6];
    } else {
      MismatchAt(s, 8, "tmpvar", b);
    }
  }

  /** A word does not start with a literal whose first character it lacks. */
  lemma FirstCharDiffers(word: string, lit: string)
    requires |word| > 0 && |lit| > 0 && word[0] != lit[0]
    ensures !HasPrefix(word, lit)
  {
    if |lit| <= |word| {
      assert word[..|lit|][0] == word[0];
    }
  }

  /** A precision word does not start with "tmpvar". */
  lemma PrecisionNotTemporary(w: string)
    requires PrecisionWord(w)
    ensures !HasPrefix(w, "tmpvar")
  {
    assert w[0] == 'l' || w[0] == 'm' || w[0] == 'h' by {
      if HasPrefix(w, "lowp") {
        assert w[..4][0] == w[0];
      } else if HasPrefix(w, "mediump") {
        assert w[..7][0] == w[0];
      } else {
        assert w[..5][0] == w[0];
      }
    }
    FirstCharDiffers(w, "tmpvar");
  }

  /** The keyword "uniform" is not skipped and starts a declaration. */
  lemma UniformKeyword()
    ensures !SkippedQualifier("uniform") && HasPrefix("uniform", "uniform")
  {
    var w := "uniform";
    FirstCharDiffers(w, "precision");
    FirstCharDiffers(w, "attribute");
    FirstCharDiffers(w, "varying");
    FirstCharDiffers(w, "in");
    FirstCharDiffers(w, "out");
    FirstCharDiffers(w, "flat");
    FirstCharDiffers(w, "smooth");
    FirstCharDiffers(w, "noperspective");
    FirstCharDiffers(w, "centroid");
  }

  /** The view after a uniform line: the rest of the text, trimmed. */
  lemma AfterUniformLine(s: string, precision: Option<string>, typ: string, name: string, size: Option<string>,
                         rest: string, t: nat, a: nat, n: nat, e: nat)
    requires LineParts(s, precision, typ, name, size, rest, t, a, n, e)
    ensures e + 2 <= |s| && s[SkipSpace(s, e + 2)..] == Trimmed(rest)
  {
    var b := SkipSpace(rest, 0);
    assert forall k :: e + 2 <= k < |s| ==> s[k] == rest[k - e - 2];
    SkipSpaceIs(s, e + 2, e + 2 + b);
    assert s[e + 2 + b..] == s[e + 2..][b..];
  }

  /** A statement that starts with "uniform", not followed by "tmpvar", is a declaration. */
  lemma UniformStatement(s: string, e: nat, table: TypeTable)
    requires ValidTable(table) && 8 <= e < |s|
    requires NextWord(s, 0) == Word(0, 7, 8) && Lexeme(s, Word(0, 7, 8)) == "uniform"
    requires !MatchAt(s, 8, "tmpvar")
    ensures Statement(s, 0, e, table) == Declaration(s, 8, e, table)
  {
    UniformKeyword();
  }

  /** A declaration is described by its type word, its name word and its element count. */
  lemma DeclarationIs(s: string, typ: string, name: string, num: byte, t: nat, a: nat, n: nat, e: nat,
                      table: TypeTable)
    requires ValidTable(table) && 8 <= t < a < n <= e && e + 2 <= |s|
    requires TypeWord(s, 8) == Word(t, a, a + 1) && Lexeme(s, Word(t, a, a + 1)) == typ
    requires NextWord(s, a + 1) == Word(a + 1, n, n) && Lexeme(s, Word(a + 1, n, n)) == name
    requires ArraySize(s, n) == Some(num) && FindNl(s, e) == e + 2
    ensures Declaration(s, 8, e, table) == Describe(table, TypeName(typ), name, Some(num), SkipSpace(s, e + 2))
  {
    assert NameWord(s, 8) == Word(a + 1, n, n);
  }

  /** One pass of the scan over a view whose statement moves on to `c`. */
  lemma ScanViewNext(u: string, eol: nat, e: Option<Uniform>, c: nat, table: TypeTable)
    requires ValidTable(table) && eol < |u| && FindChar(u, 0, ';') == Some(eol)
    requires Statement(u, 0, eol, table) == Next(e, c)
    ensures c <= |u|
    ensures ScanView(u, table) == Prepend(Entries(e), ScanText(u[c..], table))
  {
  }

  /**
   * The scan of a text that starts with a declaration, from the facts the scan
   * reads off it: the ';' at `e`, the newline after it and what it declares.
   */
  lemma DeclarationScan(s: string, typ: string, name: string, num: byte, rest: string, e: nat, table: TypeTable)
    requires ValidTable(table) && e + 2 <= |s|
    requires SkipSpace(s, 0) == 0 && FindChar(s, 0, ';') == Some(e) && FindNl(s, e) == e + 2
    requires Statement(s, 0, e, table) == Describe(table, TypeName(typ), name, Some(num), SkipSpace(s, e + 2))
    requires s[SkipSpace(s, e + 2)..] == Trimmed(rest)
    ensures var utype := table.lookup(TypeName(typ));
      ScanText(s, table) ==
        if utype == table.count then ScanText(rest, table)
        else Prepend([NewUniform(name, utype, num, 0, RegCount(table, utype, num))], ScanText(rest, table))
  {
    var utype := table.lookup(TypeName(typ));
    var c := SkipSpace(s, e + 2);
    var entry := if utype == table.count then None
      else Some(NewUniform(name, utype, num, 0, RegCount(table, utype, num)));
    assert Statement(s, 0, e, table) == Next(entry, c);
    ScanViewNext(s, e, entry, c, table);
    ScanTrimmed(rest, table);
    assert Trimmed(s) == s;
  }

  /** The statement of a uniform line is a declaration. */
  lemma LineIsDeclaration(s: string, precision: Option<string>, typ: string, name: string, size: Option<string>,
                          rest: string, t: nat, a: nat, n: nat, e: nat, table: TypeTable)
    requires LineParts(s, precision, typ, name, size, rest, t, a, n, e)
    requires ValidTable(table) && WellFormedParts(precision, typ, name, size)
    requires precision.None? ==> !HasPrefix(typ, "tmpvar")
    ensures e < |s|
    ensures Statement(s, 0, e, table) == Declaration(s, 8, e, table)
  {
    UniformLineKeyword(s, precision, typ, name, size, rest, t, a, n, e);
    UniformLineNoTemporary(s, precision, typ, name, size, rest, t, a, n, e);
    UniformStatement(s, e, table);
  }

  /** The declaration of a uniform line describes its type, name and element count. */
  lemma LineDeclaration(s: string, precision: Option<string>, typ: string, name: string, size: Option<string>,
                        rest: string, t: nat, a: nat, n: nat, e: nat, table: TypeTable)
    requires LineParts(s, precision, typ, name, size, rest, t, a, n, e)
    requires ValidTable(table) && WellFormedParts(precision, typ, name, size)
    requires precision.None? ==> !PrecisionWord(typ)
    ensures e + 2 <= |s|
    ensures Declaration(s, 8, e, table) ==
      Describe(table, TypeName(typ), name, Some(ElementCount(size)), SkipSpace(s, e + 2))
  {
    UniformLineType(s, precision, typ, name, size, rest, t, a, n, e);
    UniformLineName(s, precision, typ, name, size, rest, t, a, n, e);
    UniformLineSize(s, precision, typ, name, size, rest, t, a, n, e);
    UniformLineFinds(s, precision, typ, name, size, rest, t, a, n, e);
    DeclarationIs(s, typ, name, ElementCount(size), t, a, n, e, table);
  }

  /** A uniform line starts with no blank. */
  lemma LineStartsWord(s: string, precision: Option<string>, typ: string, name: string, size: Option<string>,
                       rest: string, t: nat, a: nat, n: nat, e: nat)
    requires LineParts(s, precision, typ, name, size, rest, t, a, n, e)
    requires WellFormedParts(precision, typ, name, size)
    ensures SkipSpace(s, 0) == 0
  {
    UniformLineWords(s, precision, typ, name, size, rest, t, a, n, e);
    assert IsWordChar(s[0]);
    SkipSpaceIs(s, 0, 0);
  }

  /** A uniform line starts its text and its statement describes its type, name and element count. */
  lemma LineStatement(s: string, precision: Option<string>, typ: string, name: string, size: Option<string>,
                      rest: string, t: nat, a: nat, n: nat, e: nat, table: TypeTable)
    requires LineParts(s, precision, typ, name, size, rest, t, a, n, e)
    requires ValidTable(table) && WellFormedParts(precision, typ, name, size)
    requires precision.None? ==> !PrecisionWord(typ) && !HasPrefix(typ, "tmpvar")
    ensures e + 2 <= |s| && SkipSpace(s, 0) == 0
    ensures Statement(s, 0, e, table) ==
      Describe(table, TypeName(typ), name, Some(ElementCount(size)), SkipSpace(s, e + 2))
  {
    LineIsDeclaration(s, precision, typ, name, size, rest, t, a, n, e, table);
    LineDeclaration(s, precision, typ, name, size, rest, t, a, n, e, table);
    LineStartsWord(s, precision, typ, name, size, rest, t, a, n, e);
  }

  /** The scan of a text that holds a uniform line's parts, then `rest`. */
  lemma DeclaredLine(s: string, precision: Option<string>, typ: string, name: string, size: Option<string>,
                     rest: string, t: nat, a: nat, n: nat, e: nat, table: TypeTable)
    requires LineParts(s, precision, typ, name, size, rest, t, a, n, e)
    requires ValidTable(table) && WellFormedParts(precision, typ, name, size)
    requires precision.None? ==> !PrecisionWord(typ) && !HasPrefix(typ, "tmpvar")
    ensures var utype := table.lookup(TypeName(typ));
      var num := ElementCount(size);
      ScanText(s, table) ==
        if utype == table.count then ScanText(rest, table)
        else Prepend([NewUniform(name, utype, num, 0, RegCount(table, utype, num))], ScanText(rest, table))
  {
    UniformLineFinds(s, precision, typ, name, size, rest, t, a, n, e);
    LineStatement(s, precision, typ, name, size, rest, t, a, n, e, table);
    AfterUniformLine(s, precision, typ, name, size, rest, t, a, n, e);
    DeclarationScan(s, typ, name, ElementCount(size), rest, e, table);
  }

  /**
   * A uniform line "uniform [precision] T name[[N]];" adds the descriptor its
   * type, name and size give in front of what the rest of the text yields:
   * `num` is N cut to 8 bits (1 without a size), `regIndex` is 0 and `regCount`
   * the type's register count. A type the table does not know adds nothing,
   * and the scan still moves past the line.
   */
  lemma GlDeclaresUniform(precision: Option<string>, typ: string, name: string, size: Option<string>,
                          rest: string, table: TypeTable)
    requires ValidTable(table) && WellFormedParts(precision, typ, name, size)
    requires precision.None? ==> !PrecisionWord(typ) && !HasPrefix(typ, "tmpvar")
    ensures var utype := table.lookup(TypeName(typ));
      var num := ElementCount(size);
      ScanText(UniformText(precision, typ, name, size, rest), table) ==
        if utype == table.count then ScanText(rest, table)
        else Prepend([NewUniform(name, utype, num, 0, RegCount(table, utype, num))], ScanText(rest, table))
  {
    var s := UniformText(precision, typ, name, size, rest);
    var t := 8 + |PrecisionText(precision)|;
    var a := t + |typ|;
    var n := a + 1 + |name|;
    var e := n + |SizeText(size)|;
    UniformTextParts(s, precision, typ, name, size, rest, t, a, n, e);
    DeclaredLine(s, precision, typ, name, size, rest, t, a, n, e, table);
  }
}
