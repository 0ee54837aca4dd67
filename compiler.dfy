/**
 * The compile step as a whole: choose the dialect, run the optimizer, report a
 * failure, or post-process its text, scan it for uniforms and write the blob.
 */
module Compiler {
  import opened Text
  import opened Uniforms
  import opened Dialect
  import ErrorLog
  import Rewrite
  import GlScanner
  import MetalScanner
  import Blob

  /** What the optimizer gives back: its log on failure, or the optimized text. */
  datatype Optimized = OptimizerFailed(log: string) | OptimizerOutput(text: string)

  /**
   * How a compile ends: a failure with the window of source to list, a blob
   * written, or a scan that read an array size or register index with no digit
   * (where the compiler goes on with an undefined value).
   */
  datatype Outcome = Failed(report: ErrorLog.ErrorReport) | Written | UndefinedValue

  /** The optimizer is a foreign library: a function of the target, the stage and the source. */
  type Optimizer = (Target, Stage, string) -> Optimized

  /**
   * The text the scanners read and the blob carries. The optimizer's output is
   * a C string, so it ends at its first NUL; leading directives are dropped,
   * legacy names rewritten (on every target, Metal included), and precision
   * forced for GL vertex shaders. The result holds no NUL, so `strLen` counts
   * all of it and the blob carries exactly the text that was scanned.
   */
  function ProcessedText(text: string, shaderType: char, target: Target): (t: string)
    ensures '\0' !in t && Blob.CLength(t) == |t|
    ensures var c := text[..Blob.CLength(text)];
      target == Metal || shaderType != 'v' ==> |t| == |c| - Rewrite.DirectiveEnd(c)
  {
    var c := text[..Blob.CLength(text)];
    var kept := c[Rewrite.DirectiveEnd(c)..];
    assert '\0' !in kept;
    Rewrite.LegacyRewriteKeepsCString(kept);
    Rewrite.ForcePrecisionKeepsCString(Rewrite.LegacyRewritten(kept), shaderType, target);
    var t := Rewrite.ForcePrecision(Rewrite.LegacyRewritten(kept), shaderType, target);
    t
  }

  /** An optimizer output that starts with a NUL is an empty C string: nothing is kept. */
  lemma LeadingNulEmpty(text: string, shaderType: char, target: Target)
    requires 0 < |text| && text[0] == '\0'
    requires target == Metal || shaderType != 'v'
    ensures ProcessedText(text, shaderType, target) == ""
  {
    assert Blob.CLength(text) == 0;
    assert text[..0] == "";
    assert Rewrite.DirectiveEnd("") == 0;
  }

  /**
   * The optimizer's output ends at its first NUL: whatever follows a leading
   * NUL, a uniform struct included, is neither scanned nor written.
   */
  lemma TextAfterNulIgnored(rest: string, shaderType: char, table: TypeTable)
    requires ValidTable(table)
    ensures var t := ProcessedText("\0" + rest, shaderType, Metal);
      t == "" && ScanFor(t, Metal, table) == Scanned([])
  {
    LeadingNulEmpty("\0" + rest, shaderType, Metal);
    MetalScanner.MissingMarkers("", table);
  }

  /**
   * The GL scanner for the GL targets, the two Metal passes for Metal. A GL
   * table counts three or four registers per element of a 3x3 or 4x4 matrix;
   * a Metal table holds struct members, one register per element, then
   * textures.
   */
  function ScanFor(t: string, target: Target, table: TypeTable): (r: Scan)
    requires ValidTable(table)
    ensures target != Metal && r.Scanned? ==> GlScanner.AllGlDescriptors(table, r.uniforms)
    ensures target == Metal && r.Scanned? ==> forall i :: 0 <= i < |r.uniforms| ==>
      MetalScanner.StructDescriptor(r.uniforms[i], table) || MetalScanner.TextureDescriptor(r.uniforms[i], table)
  {
    if target != Metal then GlScanner.ScanText(t, table) else MetalScanner.MetalScan(t, table)
  }

  /**
   * The compile. An optimizer failure returns the report for its log and writes
   * nothing; otherwise the processed text is scanned and, unless a scan read no
   * digit where it needed one, the blob of the table and the text is appended to
   * the shader writer.
   */
  method Compile(shaderType: char, version: u32, code: string, optimizer: Optimizer, table: TypeTable, w: Blob.ShaderWriter)
    returns (r: Outcome)
    requires ValidTable(table)
    modifies w
    ensures var target := SelectTarget(version);
      match optimizer(target, SelectStage(shaderType), code)
      case OptimizerFailed(log) => r == Failed(ErrorLog.ReportError(log)) && w.data == old(w.data)
      case OptimizerOutput(text) =>
        var t := ProcessedText(text, shaderType, target);
        match ScanFor(t, target, table)
        case Malformed => r == UndefinedValue && w.data == old(w.data)
        case Scanned(us) => r == Written && w.data == old(w.data) + Blob.EncodeBlob(us, t)
  {
    var target := SelectTarget(version);
    var stage := SelectStage(shaderType);
    var out := optimizer(target, stage, code);
    if out.OptimizerFailed? {
      return Failed(ErrorLog.ReportError(out.log));
    }
    var text := out.text[..Blob.CLength(out.text)];
    var k := Rewrite.TrimDirectives(text);
    var buf := new char[|text| - k](i requires 0 <= i < |text| - k => text[k + i]);
    assert buf[..] == text[k..];
    Rewrite.LegacyRewrite(buf);
    var t := Rewrite.ForcePrecision(buf[..], shaderType, target);
    var scan: Scan;
    if target != Metal {
      scan := GlScanner.ScanUniforms(t, table);
    } else {
      scan := MetalScanner.ScanMetal(t, table);
    }
    if scan.Malformed? {
      return UndefinedValue;
    }
    Blob.WriteBlob(w, scan.uniforms, t);
    return Written;
  }
}
