/** Choice of the optimizer's target dialect and shader stage from the compile options. */
module Dialect {
  import opened Text

  datatype Target = OpenGL | OpenGLES20 | OpenGLES30 | Metal
  datatype Stage = Vertex | Fragment | Compute

  /** BX_MAKEFOURCC('M', 'T', 'L', 0): the characters packed little-end first. */
  const MetalVersion: u32 := 'M' as int + 'T' as int * 0x100 + 'L' as int * 0x1_0000

  /** The high bit that marks an embedded-GL version code. */
  const EsFlag: u32 := 0x8000_0000

  /** The version with its high bit cleared, as `_version &= ~0x80000000` leaves it
      (clearing bit 31 of a 32-bit value keeps its remainder modulo 2^31). */
  function ClearEsFlag(version: u32): (v: u32)
    ensures v < EsFlag
    ensures version >= EsFlag ==> v == version - EsFlag
    ensures version < EsFlag ==> v == version
  {
    version % EsFlag
  }

  /**
   * The target for a version code: the Metal code first, then every code below
   * the high bit is desktop GL, and an embedded-GL code of 300 or more (high bit
   * cleared) is GLES 3.0, any other GLES 2.0.
   */
  function SelectTarget(version: u32): (t: Target)
    ensures t == Metal <==> version == MetalVersion
    ensures t == OpenGL <==> version != MetalVersion && version < EsFlag
    ensures t == OpenGLES30 <==> version >= EsFlag && version - EsFlag >= 300
    ensures t == OpenGLES20 <==> version >= EsFlag && version - EsFlag < 300
  {
    if version == MetalVersion then Metal
    else if version < EsFlag then OpenGL
    else if ClearEsFlag(version) >= 300 then OpenGLES30
    else OpenGLES20
  }

  /** The stage for the shader-type letter: 'f' fragment, 'c' compute, anything else vertex. */
  function SelectStage(shaderType: char): (st: Stage)
    ensures st == Fragment <==> shaderType == 'f'
    ensures st == Compute <==> shaderType == 'c'
    ensures st == Vertex <==> shaderType != 'f' && shaderType != 'c'
  {
    if shaderType == 'f' then Fragment
    else if shaderType == 'c' then Compute
    else Vertex
  }
}
