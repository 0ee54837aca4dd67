/**
 * The Metal branch of the uniform scan. Two passes read the optimizer's Metal
 * output: the first walks the members of the uniform struct, the second the
 * `[[texture(n)]]` parameters of the entry point. The struct entries come first.
 */
module MetalScanner {
  import opened Text
  import opened Uniforms

  const StructMarker: string := "struct xlatMtlShaderUniform {"
  const StructClose: string := "};"
  const EntryMarker: string := "xlatMtlShaderOutput xlatMtlMain ("
  const EntryClose: string := "{"
  const TextureMark: string := "[[texture("

  /** The stretch of text a pass walks: it starts at `start` and runs while the cursor is before `end`. */
  datatype Span = Span(start: nat, end: nat)

  /**
   * From just after `marker` to the first `closer` after it, or to the end of
   * the text when there is none. Without the marker both ends are the same, so
   * the pass does not run.
   */
  function PassSpan(s: string, marker: string, closer: string): (r: Span)
    ensures r.start <= |s| && r.end <= |s|
    ensures FindStr(s, 0, marker).None? ==> r.start == r.end
    ensures FindStr(s, 0, marker).Some? ==>
      && r.start == FindStr(s, 0, marker).value + |marker|
      && r.start <= r.end
      && (r.end == |s| || MatchAt(s, r.end, closer))
      && forall k :: r.start <= k < r.end ==> !MatchAt(s, k, closer)
  {
    match FindStr(s, 0, marker)
    case None => Span(|s|, |s|)
    case Some(m) =>
      var start := m + |marker|;
      match FindStr(s, start, closer)
      case None => Span(start, |s|)
      case Some(e) => Span(start, e)
  }

  function StructSpan(s: string): Span { PassSpan(s, StructMarker, StructClose) }

  function EntrySpan(s: string): Span { PassSpan(s, EntryMarker, EntryClose) }

  // ---------------------------------------------------------------------------
  // The struct pass
  // ---------------------------------------------------------------------------

  /** A struct member as the pass reads it: its type word, its name and the text between its brackets. */
  datatype Field = Field(typeName: string, name: string, size: Option<string>)

  /**
   * The member that starts at `p` and ends at the ';' at `eol`: the type is the
   * word at `p`; the name starts after the blanks that follow it and runs to the
   * first '[' before `eol`, or to `eol`; the size runs from that '[' to the first
   * ']' after it, or to `eol`.
   */
  function FieldAt(s: string, p: nat, eol: nat): (f: Field)
    requires p <= eol < |s| && s[eol] == ';'
    requires forall k :: p <= k < eol ==> s[k] != ';'
    ensures forall k :: 0 <= k < |f.typeName| ==> IsWordChar(f.typeName[k])
    ensures forall k :: 0 <= k < |f.name| ==> f.name[k] != '[' && f.name[k] != ';'
    ensures f.size.Some? ==> forall k :: 0 <= k < |f.size.value| ==> f.size.value[k] != ']' && f.size.value[k] != ';'
  {
    var we := WordEnd(s, p);
    var n := SkipSpace(s, we);
    assert n <= eol by {
      assert !IsWordChar(s[eol]) && !IsSpace(s[eol]);
    }
    var line := s[..eol];
    WordSlice(s, p, we);
    FindInLine(s, eol, n, '[');
    match FindChar(line, n, '[')
    case None =>
      SliceAvoids(s, n, eol, '[', ';');
      Field(s[p..we], s[n..eol], None)
    case Some(b) =>
      FindInLine(s, eol, b, ']');
      var ce := match FindChar(line, b, ']') case None => eol case Some(c) => c;
      SliceAvoids(s, n, b, '[', ';');
      SliceAvoids(s, b + 1, ce, ']', ';');
      Field(s[p..we], s[n..b], Some(s[b + 1..ce]))
  }

  /** The word [p, we) as a string is made of word characters. */
  lemma WordSlice(s: string, p: nat, we: nat)
    requires p <= we <= |s| && forall k :: p <= k < we ==> IsWordChar(s[k])
    ensures forall k :: 0 <= k < |s[p..we]| ==> IsWordChar(s[p..we][k])
  {
  }

  /** A search for `c` in the text before `eol` finds what a search of the whole text would, or nothing before `eol`. */
  lemma FindInLine(s: string, eol: nat, i: nat, c: char)
    requires i <= eol <= |s|
    ensures var r := FindChar(s[..eol], i, c);
      && (r.Some? ==> i <= r.value < eol && s[r.value] == c && forall k :: i <= k < r.value ==> s[k] != c)
      && (r.None? ==> forall k :: i <= k < eol ==> s[k] != c)
  {
    assert forall k :: 0 <= k < eol ==> s[..eol][k] == s[k];
  }

  /** A stretch holding neither `c` nor `d` gives a string holding neither. */
  lemma SliceAvoids(s: string, i: nat, j: nat, c: char, d: char)
    requires i <= j <= |s| && forall k :: i <= k < j ==> s[k] != c && s[k] != d
    ensures forall k :: 0 <= k < |s[i..j]| ==> s[i..j][k] != c && s[i..j][k] != d
  {
  }

  /**
   * What one member adds: nothing when its type is not a uniform type, otherwise
   * one entry with the low eight bits of its array size (1 without brackets),
   * register index 0 and as many registers as elements. A size with no digit
   * leaves the count undefined and reports the scan malformed.
   */
  function FieldScan(f: Field, table: TypeTable): (r: Scan)
    ensures r == Scanned([]) <==> table.lookup(f.typeName) == table.count
    ensures r.Scanned? ==> |r.uniforms| <= 1
    ensures r.Scanned? && |r.uniforms| == 1 ==>
      r.uniforms[0].name == f.name && r.uniforms[0].utype == table.lookup(f.typeName)
    ensures (forall k :: 0 <= k < |f.name| ==> f.name[k] != '[' && f.name[k] != ';') ==> AllStruct(r, table)
  {
    var utype := table.lookup(f.typeName);
    if utype == table.count then Scanned([])
    else match f.size
      case None => Scanned([NewUniform(f.name, utype, 1, 0, 1)])
      case Some(d) =>
        match ScanUnsigned(d, 0)
        case None => Malformed
        case Some(v) =>
          var num: byte := v.value % 0x100;
          Scanned([NewUniform(f.name, utype, num, 0, num)])
  }

  /**
   * The struct loop from cursor `pos`: while the cursor is before `end`, skip
   * blanks, read the member up to the next ';' (searched to the end of the text)
   * and continue after it. With no ';' left the scan stops.
   */
  function StructScan(s: string, pos: nat, end: nat, table: TypeTable): (r: Scan)
    requires pos <= |s|
    ensures AllStruct(r, table)
    decreases |s| - pos, 1
  {
    if end <= pos || pos == |s| then Scanned([])
    else
      var p := SkipSpace(s, pos);
      match FindChar(s, p, ';')
      case None => Scanned([])
      case Some(eol) => MemberThen(s, p, eol, end, table)
  }

  /** The member that starts at `p` and ends at the ';' at `eol`, then the scan after it. */
  function MemberThen(s: string, p: nat, eol: nat, end: nat, table: TypeTable): (r: Scan)
    requires p <= eol < |s| && s[eol] == ';'
    requires forall k :: p <= k < eol ==> s[k] != ';'
    ensures AllStruct(r, table)
    decreases |s| - eol, 0
  {
    ConcatStruct(FieldScan(FieldAt(s, p, eol), table), StructScan(s, eol + 1, end, table), table);
    Concat(FieldScan(FieldAt(s, p, eol), table), StructScan(s, eol + 1, end, table))
  }

  /** The struct pass over the whole text. */
  function StructEntries(s: string, table: TypeTable): Scan
  {
    StructScan(s, StructSpan(s).start, StructSpan(s).end, table)
  }

  /**
   * One member: read its field, look its type up and, for a uniform type, push
   * the entry with the element count read from the brackets.
   */
  method ReadMember(s: string, p: nat, eol: nat, table: TypeTable) returns (entry: Scan)
    requires p <= eol < |s| && s[eol] == ';'
    requires forall k :: p <= k < eol ==> s[k] != ';'
    ensures entry == FieldScan(FieldAt(s, p, eol), table)
  {
    var field := FieldAt(s, p, eol);
    var utype := table.lookup(field.typeName);
    if utype == table.count {
      return Scanned([]);
    }
    var num: byte := 1;
    if field.size.Some? {
      var size := ScanUnsigned(field.size.value, 0);
      if size.None? {
        return Malformed;
      }
      num := size.value.value % 0x100;
    }
    entry := Scanned([NewUniform(field.name, utype, num, 0, num)]);
  }

  /**
   * One turn of the struct loop: skip blanks, find the member's ';' and read the
   * member; `done` when no ';' is left.
   */
  method StructTurn(s: string, pos: nat, end: nat, table: TypeTable) returns (entry: Scan, next: nat, done: bool)
    requires pos < end && pos < |s|
    ensures done ==> StructScan(s, pos, end, table) == Scanned([])
    ensures !done ==> pos < next <= |s| && StructScan(s, pos, end, table) == Concat(entry, StructScan(s, next, end, table))
  {
    var p := SkipSpace(s, pos);
    var eol := FindChar(s, p, ';');
    if eol.None? {
      return Scanned([]), pos, true;
    }
    var semicolon := eol.value;
    entry := ReadMember(s, p, semicolon, table);
    StructScanTurn(s, pos, end, table, p, semicolon);
    next, done := semicolon + 1, false;
  }

  /** The struct pass: walk the members between the marker and the closing "};". */
  method StructPass(s: string, table: TypeTable) returns (r: Scan)
    ensures r == StructEntries(s, table)
  {
    var span := PassSpan(s, StructMarker, StructClose);
    var pos := span.start;
    r := Scanned([]);
    while pos < span.end && pos < |s|
      invariant pos <= |s|
      invariant Concat(r, StructScan(s, pos, span.end, table)) == StructEntries(s, table)
      decreases |s| - pos
    {
      var entry, next, done := StructTurn(s, pos, span.end, table);
      if done {
        break;
      }
      ConcatShift(r, entry, StructScan(s, next, span.end, table), StructScan(s, pos, span.end, table), StructEntries(s, table));
      r := Concat(r, entry);
      pos := next;
    }
    assert StructScan(s, pos, span.end, table) == Scanned([]);
    assert r.Scanned? ==> r.uniforms + [] == r.uniforms;
  }

  // ---------------------------------------------------------------------------
  // The texture pass
  // ---------------------------------------------------------------------------

  /** The last blank in [i, j), looked for from the end. Only ' ' counts, not tabs or newlines. */
  function LastSpace(s: string, i: nat, j: nat): (r: Option<nat>)
    requires i <= j <= |s|
    ensures r.Some? ==> i <= r.value < j && s[r.value] == ' '
    ensures r.Some? ==> forall k :: r.value < k < j ==> s[k] != ' '
    ensures r.None? ==> forall k :: i <= k < j ==> s[k] != ' '
    decreases j - i
  {
    if j == i then None
    else if s[j - 1] == ' ' then Some(j - 1)
    else LastSpace(s, i, j - 1)
  }

  /** The backward loop over the parameter text. */
  method FindLastSpace(s: string, i: nat, j: nat) returns (r: Option<nat>)
    requires i <= j <= |s|
    ensures r == LastSpace(s, i, j)
  {
    var ii: int := j - i - 1;
    while 0 <= ii
      invariant -1 <= ii < j - i
      invariant LastSpace(s, i, j) == LastSpace(s, i, i + ii + 1)
      decreases ii + 1
    {
      if s[i + ii] == ' ' {
        return Some(i + ii);
      }
      ii := ii - 1;
    }
    return None;
  }

  /**
   * The name of the texture parameter whose mark is at `tn`, the cursor at `p`:
   * the text [p, tn - 2) is searched backwards for a blank; after one the name
   * runs from it to just before the mark (tn - 1), without one it is [p, tn - 2).
   * A mark closer than two characters to the cursor gives an empty name.
   */
  function TextureName(s: string, p: nat, tn: nat): (n: string)
    requires p <= tn <= |s|
    ensures tn < p + 2 ==> n == ""
    ensures p + 2 <= tn ==>
      || (n == s[p..tn - 2] && forall k :: p <= k < tn - 2 ==> s[k] != ' ')
      || (p + 1 + |n| <= tn - 1 && s[tn - 2 - |n|] == ' ' && n == s[tn - 1 - |n|..tn - 1])
    ensures forall j :: 0 <= j < |n| - 1 ==> n[j] != ' '
  {
    if tn < p + 2 then ""
    else match LastSpace(s, p, tn - 2)
      case None => s[p..tn - 2]
      case Some(k) => s[k + 1..tn - 1]
  }

  /** Where the register index of the mark at `tn` ends: the first ')' after the mark, or the end of the text. */
  function IndexEnd(s: string, tn: nat): (c: nat)
    requires tn + |TextureMark| <= |s|
    ensures tn + |TextureMark| <= c <= |s|
  {
    match FindChar(s, tn + |TextureMark|, ')')
    case None => |s|
    case Some(c) => c
  }

  /**
   * The entry for the mark at `tn`: of type "int", one element, one register,
   * at the low sixteen bits of the number between the mark and the ')'. It is
   * added whatever the table says of "int"; no digit there reports the scan
   * malformed.
   */
  function TextureEntry(s: string, p: nat, tn: nat, table: TypeTable): (r: Scan)
    requires p <= tn && tn + |TextureMark| <= |s|
    ensures AllTexture(r, table)
    ensures r.Scanned? ==> |r.uniforms| == 1 && r.uniforms[0].name == TextureName(s, p, tn)
  {
    var ib := tn + |TextureMark|;
    match ScanUnsigned(s[ib..IndexEnd(s, tn)], 0)
    case None => Malformed
    case Some(v) => Scanned([NewUniform(TextureName(s, p, tn), table.lookup("int"), 1, v.value % 0x1_0000, 1)])
  }

  /**
   * The texture loop from cursor `pos`: while the cursor is before `end`, skip
   * blanks, find the next mark (searched to the end of the text), add its entry
   * and continue one character after the mark. With no mark left the pass ends.
   */
  function TextureScan(s: string, pos: nat, end: nat, table: TypeTable): (r: Scan)
    requires pos <= |s|
    ensures AllTexture(r, table)
    decreases |s| - pos, 1
  {
    if end <= pos || pos == |s| then Scanned([])
    else
      var p := SkipSpace(s, pos);
      match FindStr(s, p, TextureMark)
      case None => Scanned([])
      case Some(tn) => TextureThen(s, p, tn, end, table)
  }

  /** The parameter whose mark is at `tn`, then the scan one character past the mark. */
  function TextureThen(s: string, p: nat, tn: nat, end: nat, table: TypeTable): (r: Scan)
    requires p <= tn && tn + |TextureMark| <= |s|
    ensures AllTexture(r, table)
    decreases |s| - tn, 0
  {
    ConcatTexture(TextureEntry(s, p, tn, table), TextureScan(s, AfterMark(s, tn), end, table), table);
    Concat(TextureEntry(s, p, tn, table), TextureScan(s, AfterMark(s, tn), end, table))
  }

  /**
   * Where the cursor goes after the mark at `tn`: one character past the mark.
   * A mark that ends the text leaves nothing to read (and its entry is
   * malformed anyway, having no digit).
   */
  function AfterMark(s: string, tn: nat): (q: nat)
    requires tn + |TextureMark| <= |s|
    ensures tn < q <= |s|
  {
    if tn + |TextureMark| < |s| then tn + |TextureMark| + 1 else |s|
  }

  /** One turn of the struct loop that reads a member. */
  lemma StructScanTurn(s: string, pos: nat, end: nat, table: TypeTable, p: nat, eol: nat)
    requires pos < end && pos < |s| && p == SkipSpace(s, pos) && FindChar(s, p, ';') == Some(eol)
    ensures StructScan(s, pos, end, table) == MemberThen(s, p, eol, end, table)
  {
  }

  /** One turn of the texture loop that finds a mark. */
  lemma TextureScanTurn(s: string, pos: nat, end: nat, table: TypeTable)
    requires pos < end && pos < |s| && FindStr(s, SkipSpace(s, pos), TextureMark).Some?
    ensures var p := SkipSpace(s, pos); var tn := FindStr(s, p, TextureMark).value;
      TextureScan(s, pos, end, table) == TextureThen(s, p, tn, end, table)
  {
  }

  /** The texture pass over the whole text. */
  function TextureEntries(s: string, table: TypeTable): Scan
  {
    TextureScan(s, EntrySpan(s).start, EntrySpan(s).end, table)
  }

  /** The parameter name: the backward search for a blank, then the copy. */
  method ReadTextureName(s: string, p: nat, tn: nat) returns (name: string)
    requires p <= tn <= |s|
    ensures name == TextureName(s, p, tn)
  {
    name := "";
    if p + 2 <= tn {
      var blank := FindLastSpace(s, p, tn - 2);
      name := if blank.Some? then s[blank.value + 1..tn - 1] else s[p..tn - 2];
    }
  }

  /** The entry for the mark at `tn`: its name, then its register index read up to the ')'. */
  method ReadTexture(s: string, p: nat, tn: nat, table: TypeTable) returns (entry: Scan)
    requires p <= tn && tn + |TextureMark| <= |s|
    ensures entry == TextureEntry(s, p, tn, table)
  {
    var name := ReadTextureName(s, p, tn);
    var ib := tn + |TextureMark|;
    var close := FindChar(s, ib, ')');
    var stop := if close.Some? then close.value else |s|;
    var index := ScanUnsigned(s[ib..stop], 0);
    entry := Malformed;
    if index.Some? {
      entry := Scanned([NewUniform(name, table.lookup("int"), 1, index.value.value % 0x1_0000, 1)]);
    }
  }

  /**
   * One turn of the texture loop: skip blanks, find the next mark and read its
   * parameter; `done` when no mark is left.
   */
  method TextureTurn(s: string, pos: nat, end: nat, table: TypeTable) returns (entry: Scan, next: nat, done: bool)
    requires pos < end && pos < |s|
    ensures done ==> TextureScan(s, pos, end, table) == Scanned([])
    ensures !done ==> pos < next <= |s| && TextureScan(s, pos, end, table) == Concat(entry, TextureScan(s, next, end, table))
  {
    var p := SkipSpace(s, pos);
    var found := FindStr(s, p, TextureMark);
    if found.None? {
      return Scanned([]), pos, true;
    }
    var tn := found.value;
    entry := ReadTexture(s, p, tn, table);
    TextureScanTurn(s, pos, end, table);
    next, done := AfterMark(s, tn), false;
  }

  /** The texture loop, one parameter per turn. */
  method TexturePass(s: string, table: TypeTable) returns (r: Scan)
    ensures r == TextureEntries(s, table)
  {
    var span := PassSpan(s, EntryMarker, EntryClose);
    var pos := span.start;
    r := Scanned([]);
    while pos < span.end && pos < |s|
      invariant pos <= |s|
      invariant Concat(r, TextureScan(s, pos, span.end, table)) == TextureEntries(s, table)
      decreases |s| - pos
    {
      var entry, next, done := TextureTurn(s, pos, span.end, table);
      if done {
        break;
      }
      ConcatShift(r, entry, TextureScan(s, next, span.end, table), TextureScan(s, pos, span.end, table), TextureEntries(s, table));
      r := Concat(r, entry);
      pos := next;
    }
    assert TextureScan(s, pos, span.end, table) == Scanned([]);
    assert r.Scanned? ==> r.uniforms + [] == r.uniforms;
  }

  // ---------------------------------------------------------------------------
  // Both passes
  // ---------------------------------------------------------------------------

  /**
   * The Metal scan: the struct entries, then the texture entries. The first
   * entries, as many as the struct pass found, are struct descriptors; the rest
   * are texture descriptors.
   */
  function MetalScan(s: string, table: TypeTable): (r: Scan)
    ensures r.Scanned? <==> StructEntries(s, table).Scanned? && TextureEntries(s, table).Scanned?
    ensures r.Scanned? ==>
      var m := |StructEntries(s, table).uniforms|;
      && m <= |r.uniforms|
      && (forall i :: 0 <= i < m ==> StructDescriptor(r.uniforms[i], table))
      && (forall i :: m <= i < |r.uniforms| ==> TextureDescriptor(r.uniforms[i], table))
  {
    ConcatLayout(StructEntries(s, table), TextureEntries(s, table), table);
    Concat(StructEntries(s, table), TextureEntries(s, table))
  }

  /** The two loops in order. */
  method ScanMetal(s: string, table: TypeTable) returns (r: Scan)
    ensures r == MetalScan(s, table)
  {
    var members := StructPass(s, table);
    var textures := TexturePass(s, table);
    r := Concat(members, textures);
  }
  // ---------------------------------------------------------------------------
  // What the entries look like
  // ---------------------------------------------------------------------------

  /**
   * A struct entry: a known type, register index 0, one register per element
   * (no row multiplier for matrices), a name with no '[' or ';', texture fields 0.
   */
  predicate StructDescriptor(u: Uniform, table: TypeTable) {
    && u.utype != table.count
    && u.regIndex == 0
    && u.regCount == u.num
    && (forall k :: 0 <= k < |u.name| ==> u.name[k] != '[' && u.name[k] != ';')
    && u.texComponent == 0 && u.texDimension == 0 && u.texFormat == 0
  }

  /** A texture entry: of the type the table gives "int", one element in one register, texture fields 0. */
  predicate TextureDescriptor(u: Uniform, table: TypeTable) {
    && u.utype == table.lookup("int")
    && u.num == 1
    && u.regCount == 1
    && u.texComponent == 0 && u.texDimension == 0 && u.texFormat == 0
  }

  /** Every entry a scan holds has the given shape. */
  predicate AllStruct(r: Scan, table: TypeTable) {
    r.Scanned? ==> forall i :: 0 <= i < |r.uniforms| ==> StructDescriptor(r.uniforms[i], table)
  }

  predicate AllTexture(r: Scan, table: TypeTable) {
    r.Scanned? ==> forall i :: 0 <= i < |r.uniforms| ==> TextureDescriptor(r.uniforms[i], table)
  }

  lemma ConcatStruct(a: Scan, b: Scan, table: TypeTable)
    requires AllStruct(a, table) && AllStruct(b, table)
    ensures AllStruct(Concat(a, b), table)
  {
    if Concat(a, b).Scanned? {
      var us := Concat(a, b).uniforms;
      forall i | 0 <= i < |us|
        ensures StructDescriptor(us[i], table)
      {
        if i < |a.uniforms| {
          assert us[i] == a.uniforms[i];
        } else {
          assert us[i] == b.uniforms[i - |a.uniforms|];
        }
      }
    }
  }

  lemma ConcatTexture(a: Scan, b: Scan, table: TypeTable)
    requires AllTexture(a, table) && AllTexture(b, table)
    ensures AllTexture(Concat(a, b), table)
  {
    if Concat(a, b).Scanned? {
      var us := Concat(a, b).uniforms;
      forall i | 0 <= i < |us|
        ensures TextureDescriptor(us[i], table)
      {
        if i < |a.uniforms| {
          assert us[i] == a.uniforms[i];
        } else {
          assert us[i] == b.uniforms[i - |a.uniforms|];
        }
      }
    }
  }

  /** A table of struct entries followed by a table of texture entries splits at the length of the first. */
  lemma ConcatLayout(a: Scan, b: Scan, table: TypeTable)
    requires AllStruct(a, table) && AllTexture(b, table)
    ensures var r := Concat(a, b);
      r.Scanned? ==>
        && a.Scanned? && |a.uniforms| <= |r.uniforms|
        && (forall i :: 0 <= i < |a.uniforms| ==> StructDescriptor(r.uniforms[i], table))
        && (forall i :: |a.uniforms| <= i < |r.uniforms| ==> TextureDescriptor(r.uniforms[i], table))
  {
    var r := Concat(a, b);
    if r.Scanned? {
      var m := |a.uniforms|;
      assert forall i :: 0 <= i < m ==> r.uniforms[i] == a.uniforms[i];
      assert forall i :: m <= i < |r.uniforms| ==> r.uniforms[i] == b.uniforms[i - m];
    }
  }

  /** Without the struct marker the first pass adds nothing; without the entry marker the second adds nothing. */
  lemma MissingMarkers(s: string, table: TypeTable)
    ensures FindStr(s, 0, StructMarker).None? ==> StructEntries(s, table) == Scanned([])
    ensures FindStr(s, 0, EntryMarker).None? ==> TextureEntries(s, table) == Scanned([])
  {
  }

  // ---------------------------------------------------------------------------
  // Reading one member and one parameter
  // ---------------------------------------------------------------------------

  /**
   * A member "type name[size]" followed by ';' at `eol`: the type is the word
   * [p, we), blanks run to `n`, the name [n, b) holds no '[', the size (b, ce)
   * holds no ']'.
   */
  lemma FieldAtArray(s: string, p: nat, eol: nat, we: nat, n: nat, b: nat, ce: nat)
    requires p <= we <= n <= b < ce < eol < |s| && s[eol] == ';'
    requires forall k :: p <= k < eol ==> s[k] != ';'
    requires forall k :: p <= k < we ==> IsWordChar(s[k])
    requires !IsWordChar(s[we])
    requires forall k :: we <= k < n ==> IsSpace(s[k])
    requires !IsSpace(s[n])
    requires forall k :: n <= k < b ==> s[k] != '['
    requires s[b] == '[' && s[ce] == ']'
    requires forall k :: b < k < ce ==> s[k] != ']'
    ensures FieldAt(s, p, eol) == Field(s[p..we], s[n..b], Some(s[b + 1..ce]))
  {
    WordEndIs(s, p, we);
    SkipSpaceIs(s, we, n);
    var line := s[..eol];
    FindCharIs(line, n, '[', b);
    FindCharIs(line, b, ']', ce);
  }

  /** A member "type name" followed by ';' at `eol`, with no '[' in its name [n, eol). */
  lemma FieldAtScalar(s: string, p: nat, eol: nat, we: nat, n: nat)
    requires p <= we <= n <= eol < |s| && s[eol] == ';'
    requires forall k :: p <= k < eol ==> s[k] != ';'
    requires forall k :: p <= k < we ==> IsWordChar(s[k])
    requires !IsWordChar(s[we])
    requires forall k :: we <= k < n ==> IsSpace(s[k])
    requires !IsSpace(s[n])
    requires forall k :: n <= k < eol ==> s[k] != '['
    ensures FieldAt(s, p, eol) == Field(s[p..we], s[n..eol], None)
  {
    WordEndIs(s, p, we);
    SkipSpaceIs(s, we, n);
    var line := s[..eol];
    assert FindChar(line, n, '[') == None;
  }

  /**
   * Unlike the GL scan, a Metal array of 4x4 matrices takes one register per
   * element: "float4x4 u_mtx[2]" gets two registers where GL would count eight.
   */
  lemma MetalMatrixArray(table: TypeTable)
    requires ValidTable(table) && table.lookup("float4x4") == table.mat4
    ensures FieldScan(Field("float4x4", "u_mtx", Some("2")), table) == Scanned([NewUniform("u_mtx", table.mat4, 2, 0, 2)])
    ensures RegCount(table, table.mat4, 2) == 8
  {
    ScanUnsignedIs("2", 0, "2");
  }

  /**
   * The name of a parameter written "... type name [[texture(": a blank at `k`,
   * no blank in the name after it, one character (the blank) between the name
   * and the mark. The name is the text between the two blanks.
   */
  lemma TextureNameIs(s: string, p: nat, tn: nat, k: nat)
    requires p <= k && k + 2 < tn <= |s|
    requires s[k] == ' '
    requires forall j :: k < j < tn - 2 ==> s[j] != ' '
    ensures TextureName(s, p, tn) == s[k + 1..tn - 1]
  {
  }

  /** The entry for a mark at `tn` followed by the digits `d` and a ')'. */
  lemma TextureEntryIs(s: string, p: nat, tn: nat, table: TypeTable, k: nat, d: string)
    requires p <= k && k + 2 < tn
    requires |d| > 0 && forall j :: 0 <= j < |d| ==> IsDigit(d[j])
    requires tn + |TextureMark| + |d| < |s|
    requires s[k] == ' ' && forall j :: k < j < tn - 2 ==> s[j] != ' '
    requires s[tn + |TextureMark|..tn + |TextureMark| + |d|] == d
    requires s[tn + |TextureMark| + |d|] == ')'
    ensures TextureEntry(s, p, tn, table) ==
      Scanned([NewUniform(s[k + 1..tn - 1], table.lookup("int"), 1, DecimalValue(d) % 0x1_0000, 1)])
  {
    var ib := tn + |TextureMark|;
    DigitsBeforeParen(s, ib, d);
    TextureNameIs(s, p, tn, k);
    var text := s[ib..IndexEnd(s, tn)];
    assert text == d;
    ScanUnsignedIs(d, 0, d);
    assert d[0..|d|] == d;
  }

  /** The parameter of a mark at `tn` followed by the digits `d` and a ')', then the scan after the mark. */
  lemma TextureThenIs(s: string, p: nat, tn: nat, end: nat, table: TypeTable, k: nat, d: string)
    requires p <= k && k + 2 < tn
    requires |d| > 0 && forall j :: 0 <= j < |d| ==> IsDigit(d[j])
    requires tn + |TextureMark| + |d| < |s|
    requires s[k] == ' ' && forall j :: k < j < tn - 2 ==> s[j] != ' '
    requires s[tn + |TextureMark|..tn + |TextureMark| + |d|] == d
    requires s[tn + |TextureMark| + |d|] == ')'
    ensures TextureThen(s, p, tn, end, table) ==
      Concat(Scanned([NewUniform(s[k + 1..tn - 1], table.lookup("int"), 1, DecimalValue(d) % 0x1_0000, 1)]),
             TextureScan(s, tn + |TextureMark| + 1, end, table))
  {
    TextureEntryIs(s, p, tn, table, k, d);
  }

  /** Digits at `i` followed by ')' : the ')' found is the one right after them. */
  lemma DigitsBeforeParen(s: string, i: nat, d: string)
    requires forall j :: 0 <= j < |d| ==> IsDigit(d[j])
    requires i + |d| < |s| && s[i..i + |d|] == d && s[i + |d|] == ')'
    ensures FindChar(s, i, ')') == Some(i + |d|)
  {
    assert forall j :: i <= j < i + |d| ==> s[j] == d[j - i];
    FindCharIs(s, i, ')', i + |d|);
  }

  /**
   * One texture parameter: from cursor `pos` the first mark is at `tn` (no '['
   * before it), the parameter is named [k + 1, tn - 1) and the digits `d` follow
   * the mark up to a ')'. The pass adds the entry for that name and register
   * d mod 65536, and continues one character after the mark.
   */
  lemma TextureParameter(s: string, pos: nat, end: nat, table: TypeTable, tn: nat, k: nat, d: string)
    requires pos < end && pos < |s| && SkipSpace(s, pos) <= k && k + 2 < tn
    requires MatchAt(s, tn, TextureMark)
    requires forall j :: SkipSpace(s, pos) <= j < tn ==> s[j] != '['
    requires s[k] == ' ' && forall j :: k < j < tn - 2 ==> s[j] != ' '
    requires |d| > 0 && forall j :: 0 <= j < |d| ==> IsDigit(d[j])
    requires tn + |TextureMark| + |d| < |s|
    requires s[tn + |TextureMark|..tn + |TextureMark| + |d|] == d
    requires s[tn + |TextureMark| + |d|] == ')'
    ensures TextureScan(s, pos, end, table) ==
      Concat(Scanned([NewUniform(s[k + 1..tn - 1], table.lookup("int"), 1, DecimalValue(d) % 0x1_0000, 1)]),
             TextureScan(s, tn + |TextureMark| + 1, end, table))
  {
    var p := SkipSpace(s, pos);
    FindStrIs(s, p, TextureMark, tn);
    TextureScanTurn(s, pos, end, table);
    TextureThenIs(s, p, tn, end, table, k, d);
  }

  // ---------------------------------------------------------------------------
  // The struct loop as written does not end on an unclosed member
  // ---------------------------------------------------------------------------

  /**
   * One turn of the struct loop as written: None when the loop condition fails,
   * otherwise where the cursor points next. When no ';' follows, the cursor is
   * only moved past the blanks.
   */
  function StructTurnAsWritten(s: string, pos: nat, end: nat): (r: Option<nat>)
    requires pos <= |s|
    ensures r.Some? ==> r.value <= |s|
  {
    if end <= pos || pos == |s| then None
    else
      var p := SkipSpace(s, pos);
      match FindChar(s, p, ';')
      case None => Some(p)
      case Some(eol) => Some(eol + 1)
  }

  /** Where the cursor is after `n` turns, or None once the loop has ended. */
  function StructRunAsWritten(s: string, pos: nat, end: nat, n: nat): Option<nat>
    requires pos <= |s|
    decreases n
  {
    if n == 0 then Some(pos)
    else match StructTurnAsWritten(s, pos, end)
      case None => None
      case Some(q) => StructRunAsWritten(s, q, end, n - 1)
  }

  /**
   * A member that starts before the struct's end and has no ';' after it keeps
   * the loop at its first character for ever.
   */
  lemma {:induction false} StructAsWrittenNeverEnds(s: string, pos: nat, end: nat, n: nat)
    requires pos <= |s| && SkipSpace(s, pos) < end && SkipSpace(s, pos) < |s|
    requires FindChar(s, SkipSpace(s, pos), ';').None?
    ensures n > 0 ==> StructRunAsWritten(s, pos, end, n) == Some(SkipSpace(s, pos))
    decreases n
  {
    var p := SkipSpace(s, pos);
    if n > 0 {
      assert StructTurnAsWritten(s, pos, end) == Some(p);
    }
    if n > 1 {
      SkipSpaceIs(s, p, p);
      StructAsWrittenNeverEnds(s, p, end, n - 1);
    }
  }

  /** A text that starts with the struct marker and has no '}' after it: its struct runs to the end. */
  lemma UnclosedStructSpan(s: string, tail: string)
    requires s == StructMarker + tail
    requires forall k :: 0 <= k < |tail| ==> tail[k] != '}'
    ensures StructSpan(s) == Span(|StructMarker|, |s|)
  {
    var m := |StructMarker|;
    assert s[0..m] == StructMarker;
    FindStrIs(s, 0, StructMarker, 0);
    assert forall k :: m <= k < |s| ==> s[k] == tail[k - m];
    assert StructClose[0] == '}';
    FindStrAbsent(s, m, StructClose);
  }

  /**
   * A member cut off after the struct marker: it starts one blank after the
   * marker and has no ';'.
   */
  lemma UnclosedMember(s: string, tail: string)
    requires s == StructMarker + tail && 2 <= |tail| && tail[0] == ' ' && !IsSpace(tail[1])
    requires forall k :: 0 <= k < |tail| ==> tail[k] != ';'
    ensures SkipSpace(s, |StructMarker|) == |StructMarker| + 1
    ensures FindChar(s, |StructMarker| + 1, ';').None?
  {
    var m := |StructMarker|;
    assert forall k :: m <= k < |s| ==> s[k] == tail[k - m];
    SkipSpaceIs(s, m, m + 1);
  }

  /**
   * A uniform struct cut off after a member with no ';' and no "};": the loop as
   * written never ends, the scan stops there instead and the struct pass finds nothing.
   */
  lemma UnclosedStructHangs(table: TypeTable, n: nat)
    ensures var s := StructMarker + " float4 u_color";
      && (n > 0 ==> StructRunAsWritten(s, StructSpan(s).start, StructSpan(s).end, n).Some?)
      && StructEntries(s, table) == Scanned([])
  {
    var tail := " float4 u_color";
    var s := StructMarker + tail;
    assert forall k :: 0 <= k < |tail| ==> tail[k] != ';' && tail[k] != '}';
    UnclosedStructSpan(s, tail);
    UnclosedMember(s, tail);
    StructAsWrittenNeverEnds(s, |StructMarker|, |s|, n);
  }
}
