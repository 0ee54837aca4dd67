/**
 * The resource descriptor shared by both scanners (the compiler's Uniform record)
 * and the uniform-type enumeration it carries.
 */
module Uniforms {
  import opened Text

  /**
   * The uniform-type enumeration and its name table (nameToUniformTypeEnum) live
   * outside this model: `lookup` maps a type name to an enumeration value, `count`
   * is the sentinel for an unknown name, and `mat3`, `mat4` are the two matrix kinds.
   */
  datatype TypeTable = TypeTable(lookup: string -> byte, count: byte, mat3: byte, mat4: byte)

  /** The three sentinel and matrix values are distinct enumeration members. */
  predicate ValidTable(table: TypeTable) {
    table.count != table.mat3 && table.count != table.mat4 && table.mat3 != table.mat4
  }

  /**
   * One recovered binding. The three texture fields are never set by the scanners
   * and keep their default 0.
   */
  datatype Uniform = Uniform(
    name: string,
    utype: byte,
    num: byte,
    regIndex: u16,
    regCount: u16,
    texComponent: byte,
    texDimension: byte,
    texFormat: byte)

  /** Registers per element: three rows for a 3x3 matrix, four for a 4x4 matrix, one otherwise. */
  function Rows(table: TypeTable, utype: byte): (n: nat)
    ensures 1 <= n <= 4
  {
    if utype == table.mat3 then 3 else if utype == table.mat4 then 4 else 1
  }

  /**
   * The registers `num` elements of a GL uniform take. Even 255 elements of a
   * 4x4 matrix fit in the 16-bit field.
   */
  function RegCount(table: TypeTable, utype: byte, num: byte): (r: u16)
    requires ValidTable(table)
    ensures num <= r <= 4 * num <= 1020
  {
    if utype == table.mat3 then num * 3
    else if utype == table.mat4 then num * 4
    else num
  }

  /**
   * The register count is a whole number of rows per element: dividing it by
   * the type's rows gives back the element count exactly.
   */
  lemma RegCountRows(table: TypeTable, utype: byte, num: byte)
    requires ValidTable(table)
    ensures RegCount(table, utype, num) % Rows(table, utype) == 0
    ensures RegCount(table, utype, num) / Rows(table, utype) == num
  {
  }

  /** A descriptor as the scanners build it: the texture fields left at 0. */
  function NewUniform(name: string, utype: byte, num: byte, regIndex: u16, regCount: u16): (u: Uniform)
    ensures u.name == name && u.utype == utype && u.num == num
    ensures u.regIndex == regIndex && u.regCount == regCount
    ensures u.texComponent == 0 && u.texDimension == 0 && u.texFormat == 0
  {
    Uniform(name, utype, num, regIndex, regCount, 0, 0, 0)
  }

  /** The table a scan builds, or the report that an array size or register index held no digit. */
  datatype Scan = Scanned(uniforms: seq<Uniform>) | Malformed

  /** `entries` placed before what a later part of the scan finds. */
  function Prepend(entries: seq<Uniform>, rest: Scan): (r: Scan)
    ensures r.Malformed? <==> rest.Malformed?
    ensures r.Scanned? ==> r.uniforms == entries + rest.uniforms
  {
    match rest
    case Malformed => Malformed
    case Scanned(us) => Scanned(entries + us)
  }

  /** An optional entry as a sequence of zero or one entries. */
  function Entries(e: Option<Uniform>): (r: seq<Uniform>)
    ensures e.None? <==> r == []
    ensures e.Some? ==> r == [e.value]
  {
    if e.Some? then [e.value] else []
  }

  /** Two parts of a scan, one after the other: malformed as soon as either part is. */
  function Concat(first: Scan, rest: Scan): (r: Scan)
    ensures r.Malformed? <==> first.Malformed? || rest.Malformed?
    ensures r.Scanned? ==> r.uniforms == first.uniforms + rest.uniforms
  {
    if first.Malformed? then Malformed else Prepend(first.uniforms, rest)
  }

  lemma ConcatAssociative(a: Scan, b: Scan, c: Scan)
    ensures Concat(Concat(a, b), c) == Concat(a, Concat(b, c))
  {
    if a.Scanned? && b.Scanned? && c.Scanned? {
      assert (a.uniforms + b.uniforms) + c.uniforms == a.uniforms + (b.uniforms + c.uniforms);
    }
  }

  /** A loop that gathers a scan part by part keeps its invariant when it moves one part over. */
  lemma ConcatShift(gathered: Scan, part: Scan, rest: Scan, left: Scan, whole: Scan)
    requires Concat(gathered, left) == whole && left == Concat(part, rest)
    ensures Concat(Concat(gathered, part), rest) == whole
  {
    ConcatAssociative(gathered, part, rest);
  }

  /** Prepending twice is prepending the concatenation. */
  lemma PrependTwice(first: seq<Uniform>, second: seq<Uniform>, rest: Scan)
    ensures Prepend(first, Prepend(second, rest)) == Prepend(first + second, rest)
  {
    if rest.Scanned? {
      assert first + (second + rest.uniforms) == (first + second) + rest.uniforms;
    }
  }
}
