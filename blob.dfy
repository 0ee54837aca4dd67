/**
 * The shader blob the compiler writes: a 16-bit count, one record per uniform
 * in table order, the 32-bit length of the shader text, the text and a NUL.
 * Multi-byte values are written little-endian.
 */
module Blob {
  import opened Text
  import opened Uniforms

  /** A character of a C string as the byte it is stored in. */
  function ByteOf(c: char): byte { c as int % 0x100 }

  function Bytes(s: string): (b: seq<byte>)
    ensures |b| == |s|
    ensures forall k :: 0 <= k < |s| ==> b[k] == ByteOf(s[k])
  {
    seq(|s|, k requires 0 <= k < |s| => ByteOf(s[k]))
  }

  function Chars(b: seq<byte>): (s: string)
    ensures |s| == |b|
    ensures forall k :: 0 <= k < |b| ==> s[k] as int == b[k]
  {
    seq(|b|, k requires 0 <= k < |b| => b[k] as char)
  }

  /** Every character of the text fits in a byte. */
  predicate Narrow(s: string) {
    forall k :: 0 <= k < |s| ==> s[k] as int < 0x100
  }

  /** Reading back the bytes of a text of byte-sized characters gives the text. */
  lemma CharsOfBytes(s: string)
    requires Narrow(s)
    ensures Chars(Bytes(s)) == s
  {
    assert forall k :: 0 <= k < |s| ==> Chars(Bytes(s))[k] == s[k];
  }

  function LE16(v: u16): (b: seq<byte>)
    ensures |b| == 2
  {
    [v % 0x100, v / 0x100]
  }

  function LE32(v: u32): (b: seq<byte>)
    ensures |b| == 4
  {
    [v % 0x100, v / 0x100 % 0x100, v / 0x100 / 0x100 % 0x100, v / 0x100 / 0x100 / 0x100]
  }

  function Read16(b: seq<byte>, i: nat): u16
    requires i + 2 <= |b|
  {
    b[i] as int + 0x100 * b[i + 1] as int
  }

  function Read32(b: seq<byte>, i: nat): u32
    requires i + 4 <= |b|
  {
    b[i] as int + 0x100 * (b[i + 1] as int + 0x100 * (b[i + 2] as int + 0x100 * b[i + 3] as int))
  }

  /** The two little-endian encodings read back as the value written. */
  lemma LittleEndian(v16: u16, v32: u32)
    ensures Read16(LE16(v16), 0) == v16
    ensures Read32(LE32(v32), 0) == v32
  {
    var v1 := v32 / 0x100;
    var v2 := v1 / 0x100;
    assert v32 == v32 % 0x100 + 0x100 * v1;
    assert v1 == v1 % 0x100 + 0x100 * v2;
    assert v2 == v2 % 0x100 + 0x100 * (v2 / 0x100);
  }

  /** strLen: the length of the text up to its first NUL. */
  function CLength(s: string): (n: nat)
    ensures n <= |s|
    ensures forall k :: 0 <= k < n ==> s[k] != '\0'
    ensures n == |s| || s[n] == '\0'
    decreases |s|
  {
    if s == [] || s[0] == '\0' then 0 else 1 + CLength(s[1..])
  }

  /**
   * One record: the name length as a byte, that many bytes of the name, then
   * type, element count, register index, register count and the three texture
   * bytes. A name of 256 characters or more has its length cut to eight bits
   * and only that many characters written.
   */
  function EncodeUniform(u: Uniform): (b: seq<byte>)
    ensures |b| == 1 + |u.name| % 0x100 + 9
  {
    var n: byte := |u.name| % 0x100;
    [n] + Bytes(u.name[..n]) + [u.utype, u.num] + LE16(u.regIndex) + LE16(u.regCount)
      + [u.texComponent, u.texDimension, u.texFormat]
  }

  /**
   * The record layout: at offset 0 the name length n (the name's length mod 256),
   * at 1 the first n name bytes, then type and element count at 1 + n and 2 + n,
   * the register index at 3 + n, the register count at 5 + n, both low byte
   * first, and the three texture bytes at 7 + n to 9 + n.
   */
  lemma EncodeUniformLayout(u: Uniform)
    ensures var b := EncodeUniform(u); var n := |u.name| % 0x100;
      && b[0] == n
      && b[1..1 + n] == Bytes(u.name[..n])
      && b[1 + n] == u.utype && b[2 + n] == u.num
      && b[3 + n] as int + 0x100 * b[4 + n] as int == u.regIndex
      && b[5 + n] as int + 0x100 * b[6 + n] as int == u.regCount
      && b[7 + n] == u.texComponent && b[8 + n] == u.texDimension && b[9 + n] == u.texFormat
  {
    var n: byte := |u.name| % 0x100;
    var name := Bytes(u.name[..n]);
    var b := EncodeUniform(u);
    var fields := [u.utype, u.num] + LE16(u.regIndex) + LE16(u.regCount) + [u.texComponent, u.texDimension, u.texFormat];
    assert b == [n] + name + fields;
    assert b[1..1 + n] == name;
    assert forall k :: 0 <= k < 9 ==> b[1 + n + k] == fields[k];
  }

  /** The records of the table, in table order. */
  function EncodeUniforms(us: seq<Uniform>): (b: seq<byte>)
    decreases |us|, 1
  {
    if us == [] then [] else RecordsFrom(us)
  }

  /** The records of a non-empty table: the first record, then the records of the rest. */
  function RecordsFrom(us: seq<Uniform>): seq<byte>
    requires us != []
    decreases |us|, 0
  {
    EncodeUniform(us[0]) + EncodeUniforms(us[1..])
  }

  lemma {:induction false} EncodeUniformsAppend(us: seq<Uniform>, u: Uniform)
    ensures EncodeUniforms(us + [u]) == EncodeUniforms(us) + EncodeUniform(u)
    decreases |us|
  {
    if us == [] {
      assert us + [u] == [u];
    } else {
      assert (us + [u])[1..] == us[1..] + [u];
      EncodeUniformsAppend(us[1..], u);
    }
  }

  /**
   * The text part of the blob: its length up to the first NUL cut to 32 bits,
   * that many bytes, and a NUL. The stored length counts the bytes between it
   * and the closing NUL.
   */
  function EncodeSource(s: string): (t: seq<byte>)
    ensures |t| == 4 + CLength(s) % 0x1_0000_0000 + 1
    ensures Read32(t, 0) == |t| - 5 && t[|t| - 1] == 0
  {
    var len := CLength(s) % 0x1_0000_0000;
    var t := LE32(len) + Bytes(s[..len]) + [0];
    LittleEndian(0, len);
    assert t[..4] == LE32(len);
    t
  }

  /** The whole blob for a table and a shader text; the count is cut to 16 bits. */
  function EncodeBlob(us: seq<Uniform>, s: string): (b: seq<byte>)
    ensures |b| == 2 + |EncodeUniforms(us)| + |EncodeSource(s)|
    ensures Read16(b, 0) == |us| % 0x1_0000
  {
    var b := LE16(|us| % 0x1_0000) + (EncodeUniforms(us) + EncodeSource(s));
    LittleEndian(|us| % 0x1_0000, 0);
    assert b[..2] == LE16(|us| % 0x1_0000);
    b
  }

  /** A blob read back: the table and the shader text. */
  datatype Decoded = Decoded(uniforms: seq<Uniform>, source: string)

  /** The record at `i` and the position after it, if the bytes hold one. */
  function DecodeUniform(b: seq<byte>, i: nat): (r: Option<(Uniform, nat)>)
    ensures r.Some? ==> i < |b| && |r.value.0.name| == b[i] && r.value.1 == i + 10 + b[i] <= |b|
  {
    if |b| <= i then None
    else
      var j := i + 1 + b[i];
      if |b| < j + 9 then None
      else Some((Uniform(Chars(b[i + 1..j]), b[j], b[j + 1], Read16(b, j + 2), Read16(b, j + 4), b[j + 6], b[j + 7], b[j + 8]), j + 9))
  }

  /** `count` records from `i` on. */
  function DecodeUniforms(b: seq<byte>, i: nat, count: nat): (r: Option<(seq<Uniform>, nat)>)
    ensures r.Some? ==> |r.value.0| == count && i <= r.value.1
    ensures r.Some? ==> forall k :: 0 <= k < count ==> |r.value.0[k].name| < 0x100
    decreases count, 1
  {
    if count == 0 then Some(([], i)) else DecodeFrom(b, i, count)
  }

  /** At least one record from `i` on: the first record, then the others. */
  function DecodeFrom(b: seq<byte>, i: nat, count: nat): (r: Option<(seq<Uniform>, nat)>)
    requires 0 < count
    ensures r.Some? ==> |r.value.0| == count && i <= r.value.1
    ensures r.Some? ==> forall k :: 0 <= k < count ==> |r.value.0[k].name| < 0x100
    decreases count, 0
  {
    match DecodeUniform(b, i)
      case None => None
      case Some((u, j)) =>
        match DecodeUniforms(b, j, count - 1)
        case None => None
        case Some((us, k)) => Some(([u] + us, k))
  }

  /** Reads the text part: its length, that many bytes, and a NUL that ends the bytes. */
  function DecodeSource(t: seq<byte>): Option<string>
  {
    if |t| < 4 then None
    else
      var len := Read32(t, 0);
      if |t| != 4 + len + 1 || t[4 + len] != 0 then None
      else Some(Chars(t[4..4 + len]))
  }

  /** Reads a blob: the count, that many records, then the text part. */
  function DecodeBlob(b: seq<byte>): (r: Option<Decoded>)
    ensures r.Some? ==> 2 <= |b| && |r.value.uniforms| == Read16(b, 0)
    ensures r.Some? ==> forall k :: 0 <= k < |r.value.uniforms| ==> |r.value.uniforms[k].name| < 0x100
  {
    if |b| < 2 then None
    else match DecodeUniforms(b, 2, Read16(b, 0))
      case None => None
      case Some((us, i)) =>
        if |b| < i then None
        else match DecodeSource(b[i..])
          case None => None
          case Some(text) => Some(Decoded(us, text))
  }

  /** A name the record keeps whole: under 256 characters, each a byte. */
  predicate Encodable(u: Uniform) {
    |u.name| < 0x100 && Narrow(u.name)
  }

  /** Bytes that hold `e + rest` at `i` hold `e` at `i` and `rest` right after it. */
  lemma SliceSplit(b: seq<byte>, i: nat, e: seq<byte>, rest: seq<byte>)
    requires i + |e| + |rest| <= |b| && b[i..i + |e| + |rest|] == e + rest
    ensures b[i..i + |e|] == e
    ensures b[i + |e|..i + |e| + |rest|] == rest
  {
    assert b[i..i + |e|] == b[i..i + |e| + |rest|][..|e|];
    assert b[i + |e|..i + |e| + |rest|] == b[i..i + |e| + |rest|][|e|..];
  }

  /** A record read where it was written gives back the uniform. */
  lemma DecodeEncodedUniform(b: seq<byte>, i: nat, u: Uniform)
    requires Encodable(u)
    requires i + |EncodeUniform(u)| <= |b| && b[i..i + |EncodeUniform(u)|] == EncodeUniform(u)
    ensures DecodeUniform(b, i) == Some((u, i + |EncodeUniform(u)|))
  {
    var e := EncodeUniform(u);
    var n := |u.name|;
    EncodeUniformLayout(u);
    assert forall k :: 0 <= k < |e| ==> b[i + k] == e[k];
    assert b[i] == n;
    var j := i + 1 + n;
    assert b[i + 1..j] == e[1..1 + n];
    assert u.name[..n] == u.name;
    CharsOfBytes(u.name);
    assert b[j + 2] == e[3 + n] && b[j + 3] == e[4 + n];
    assert b[j + 4] == e[5 + n] && b[j + 5] == e[6 + n];
  }

  /** The records of a non-empty table: the first record, then the records of the rest. */
  lemma SplitRecords(b: seq<byte>, i: nat, us: seq<Uniform>)
    requires us != []
    requires i + |EncodeUniforms(us)| <= |b| && b[i..i + |EncodeUniforms(us)|] == EncodeUniforms(us)
    ensures var e := EncodeUniform(us[0]); var rest := EncodeUniforms(us[1..]);
      && |EncodeUniforms(us)| == |e| + |rest|
      && b[i..i + |e|] == e
      && b[i + |e|..i + |e| + |rest|] == rest
  {
    var e := EncodeUniform(us[0]);
    var rest := EncodeUniforms(us[1..]);
    assert EncodeUniforms(us) == e + rest;
    SliceSplit(b, i, e, rest);
  }

  /** The first record of a table's records reads back as the first uniform; the rest follow it. */
  lemma FirstRecord(b: seq<byte>, i: nat, us: seq<Uniform>) returns (j: nat)
    requires us != [] && Encodable(us[0])
    requires i + |EncodeUniforms(us)| <= |b| && b[i..i + |EncodeUniforms(us)|] == EncodeUniforms(us)
    ensures DecodeUniform(b, i) == Some((us[0], j))
    ensures j + |EncodeUniforms(us[1..])| == i + |EncodeUniforms(us)|
    ensures b[j..j + |EncodeUniforms(us[1..])|] == EncodeUniforms(us[1..])
  {
    SplitRecords(b, i, us);
    DecodeEncodedUniform(b, i, us[0]);
    j := i + |EncodeUniform(us[0])|;
  }

  lemma EncodableTail(us: seq<Uniform>)
    requires us != [] && forall k :: 0 <= k < |us| ==> Encodable(us[k])
    ensures forall k :: 0 <= k < |us| - 1 ==> Encodable(us[1..][k])
  {
    assert forall k :: 0 <= k < |us| - 1 ==> us[1..][k] == us[k + 1];
  }

  /** The records of a table read back where they were written. */
  lemma {:induction false} DecodeEncodedUniforms(b: seq<byte>, i: nat, us: seq<Uniform>)
    requires forall k :: 0 <= k < |us| ==> Encodable(us[k])
    requires i + |EncodeUniforms(us)| <= |b| && b[i..i + |EncodeUniforms(us)|] == EncodeUniforms(us)
    ensures DecodeUniforms(b, i, |us|) == Some((us, i + |EncodeUniforms(us)|))
    decreases |us|
  {
    if us != [] {
      var j := FirstRecord(b, i, us);
      var rest := us[1..];
      EncodableTail(us);
      DecodeEncodedUniforms(b, j, rest);
      var k := i + |EncodeUniforms(us)|;
      DecodeUniformsStep(b, i, |us|, us[0], j, rest, k);
      assert [us[0]] + rest == us;
    }
  }

  /** One record, then the rest. */
  lemma DecodeUniformsStep(b: seq<byte>, i: nat, count: nat, u: Uniform, j: nat, us: seq<Uniform>, k: nat)
    requires 0 < count
    requires DecodeUniform(b, i) == Some((u, j)) && DecodeUniforms(b, j, count - 1) == Some((us, k))
    ensures DecodeUniforms(b, i, count) == Some(([u] + us, k))
  {
  }

  /** The text part reads back as the text when the text is byte-sized, without NUL and shorter than 2^32. */
  lemma DecodeEncodedSource(s: string)
    requires Narrow(s) && |s| < 0x1_0000_0000
    requires forall k :: 0 <= k < |s| ==> s[k] != '\0'
    ensures DecodeSource(EncodeSource(s)) == Some(s)
  {
    var n := CLength(s);
    assert n == |s| && n % 0x1_0000_0000 == n;
    assert s[..n] == s;
    assert EncodeSource(s) == LE32(n) + Bytes(s) + [0];
    DecodeSourceOf(n, Bytes(s));
    CharsOfBytes(s);
  }

  /** A length `n`, `n` bytes and a NUL read back as those bytes. */
  lemma DecodeSourceOf(n: u32, body: seq<byte>)
    requires |body| == n
    ensures DecodeSource(LE32(n) + body + [0]) == Some(Chars(body))
  {
    var len := LE32(n);
    var t := len + body + [0];
    LittleEndian(0, n);
    assert t[..4] == len;
    assert Read32(t, 0) == Read32(len, 0);
    assert t[4..4 + n] == body;
  }

  /**
   * Decoding a blob gives back the table and the text when the table has fewer
   * than 65536 entries, every name has fewer than 256 byte-sized characters, and
   * the text is byte-sized, without NUL and shorter than 2^32.
   */
  lemma DecodeEncodedBlob(us: seq<Uniform>, s: string)
    requires |us| < 0x1_0000
    requires forall k :: 0 <= k < |us| ==> Encodable(us[k])
    requires Narrow(s) && |s| < 0x1_0000_0000
    requires forall k :: 0 <= k < |s| ==> s[k] != '\0'
    ensures DecodeBlob(EncodeBlob(us, s)) == Some(Decoded(us, s))
  {
    var b := EncodeBlob(us, s);
    BlobLayout(us, s);
    DecodeEncodedUniforms(b, 2, us);
    DecodeEncodedSource(s);
    DecodeBlobOf(b, us, 2 + |EncodeUniforms(us)|, s);
  }

  /**
   * The converse: a table of 65536 entries or more, or a name of 256 characters
   * or more, does not read back, because the count and the name lengths are
   * written cut to 16 and to 8 bits.
   */
  lemma EncodedBlobLosesTable(us: seq<Uniform>, s: string)
    requires |us| >= 0x1_0000 || exists k :: 0 <= k < |us| && |us[k].name| >= 0x100
    ensures DecodeBlob(EncodeBlob(us, s)) != Some(Decoded(us, s))
  {
    var b := EncodeBlob(us, s);
    if DecodeBlob(b).Some? {
      var d := DecodeBlob(b).value;
      if |us| >= 0x1_0000 {
        assert |d.uniforms| != |us|;
      } else {
        var k :| 0 <= k < |us| && |us[k].name| >= 0x100;
        assert k < |d.uniforms| ==> d.uniforms[k] != us[k];
      }
    }
  }

  /** Where a blob's count, records and text part sit. */
  lemma BlobLayout(us: seq<Uniform>, s: string)
    requires |us| < 0x1_0000
    ensures 2 + |EncodeUniforms(us)| <= |EncodeBlob(us, s)|
    ensures Read16(EncodeBlob(us, s), 0) == |us|
    ensures EncodeBlob(us, s)[2..2 + |EncodeUniforms(us)|] == EncodeUniforms(us)
    ensures EncodeBlob(us, s)[2 + |EncodeUniforms(us)|..] == EncodeSource(s)
  {
    var b := EncodeBlob(us, s);
    var head := LE16(|us|);
    var tail := EncodeUniforms(us) + EncodeSource(s);
    var r := |EncodeUniforms(us)|;
    assert b == head + tail;
    LittleEndian(|us|, 0);
    assert b[0] == head[0] && b[1] == head[1];
    assert b[2..] == tail;
    assert b[2..2 + r] == tail[..r];
    assert b[2 + r..] == tail[r..];
  }

  /** A blob whose count, records and text part each read back reads back whole. */
  lemma DecodeBlobOf(b: seq<byte>, us: seq<Uniform>, i: nat, text: string)
    requires 2 <= i <= |b| && Read16(b, 0) == |us|
    requires DecodeUniforms(b, 2, |us|) == Some((us, i))
    requires DecodeSource(b[i..]) == Some(text)
    ensures DecodeBlob(b) == Some(Decoded(us, text))
  {
  }

  /** The shader writer: an append-only stream of bytes. */
  class ShaderWriter {
    var data: seq<byte>

    constructor ()
      ensures data == []
    {
      data := [];
    }

    method WriteByte(v: byte)
      modifies this
      ensures data == old(data) + [v]
    {
      data := data + [v];
    }

    method WriteU16(v: u16)
      modifies this
      ensures data == old(data) + LE16(v)
    {
      data := data + LE16(v);
    }

    method WriteU32(v: u32)
      modifies this
      ensures data == old(data) + LE32(v)
    {
      data := data + LE32(v);
    }

    /** The first `n` characters of a text, as bytes. */
    method WriteText(s: string, n: nat)
      requires n <= |s|
      modifies this
      ensures data == old(data) + Bytes(s[..n])
    {
      data := data + Bytes(s[..n]);
    }
  }

  /** One record, field by field. */
  method WriteUniform(w: ShaderWriter, u: Uniform)
    modifies w
    ensures w.data == old(w.data) + EncodeUniform(u)
  {
    var n: byte := |u.name| % 0x100;
    w.WriteByte(n);
    w.WriteText(u.name, n);
    w.WriteByte(u.utype);
    w.WriteByte(u.num);
    w.WriteU16(u.regIndex);
    w.WriteU16(u.regCount);
    w.WriteByte(u.texComponent);
    w.WriteByte(u.texDimension);
    w.WriteByte(u.texFormat);
    assert w.data == old(w.data) + ([n] + Bytes(u.name[..n]) + [u.utype, u.num] + LE16(u.regIndex) + LE16(u.regCount)
      + [u.texComponent, u.texDimension, u.texFormat]);
  }

  /** The loop over the table: each record in table order. */
  method WriteRecords(w: ShaderWriter, us: seq<Uniform>)
    modifies w
    ensures w.data == old(w.data) + EncodeUniforms(us)
  {
    var i := 0;
    while i < |us|
      invariant i <= |us|
      invariant w.data == old(w.data) + EncodeUniforms(us[..i])
    {
      EncodeUniformsAppend(us[..i], us[i]);
      assert us[..i + 1] == us[..i] + [us[i]];
      WriteUniform(w, us[i]);
      i := i + 1;
    }
    assert us[..i] == us;
  }

  /** The text part: its length up to the first NUL, those bytes, then a NUL. */
  method WriteSource(w: ShaderWriter, s: string)
    modifies w
    ensures w.data == old(w.data) + EncodeSource(s)
  {
    var len := CLength(s) % 0x1_0000_0000;
    w.WriteU32(len);
    w.WriteText(s, len);
    w.WriteByte(0);
  }

  /** The encoder: the count, the records, then the text part. */
  method WriteBlob(w: ShaderWriter, us: seq<Uniform>, s: string)
    modifies w
    ensures w.data == old(w.data) + EncodeBlob(us, s)
  {
    w.WriteU16(|us| % 0x1_0000);
    WriteRecords(w, us);
    WriteSource(w, s);
    assert w.data == old(w.data) + LE16(|us| % 0x1_0000) + EncodeUniforms(us) + EncodeSource(s);
  }
}
