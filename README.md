# bgfx shaderc: the GLSL and Metal back end

This project models the back end of bgfx's shader compiler for the GLSL,
GLSL ES and Metal targets, `bgfx::glsl::compile` in
`tools/shaderc/shaderc_glsl.cpp`. It models what the compiler does around the
foreign GLSL optimizer:

- It picks the optimizer's target dialect and shader stage from the version
  code and the shader-type letter.
- On an optimizer failure, it reads the failure log for a source position and
  picks the window of lines to list.
- Otherwise it post-processes the optimized text in three steps:
  - drop the leading `#` directive lines;
  - rewrite nineteen deprecated extension function names in place;
  - force `highp` in GL vertex shaders.
- It recovers the uniform table from the text:
  - for GL, from the uniform declarations at the head of the text;
  - for Metal, from the uniform struct and the `[[texture(n)]]` parameters of
    the entry point.
- It writes the shader blob: the count, one record per uniform, and the text.

Modules, one per stage of that function:

| module | file | what it holds |
|---|---|---|
| `Text` | text.dfy | the string helpers the code calls (`strLTrimSpace`, `strWord`, `nextWord`, `strFind`, `strFindNl`, `fromString`, the literal replace-all of `strReplace` and `regex_replace`) and their lemmas |
| `Uniforms` | uniforms.dfy | the uniform record, the uniform-type table, the register count of a matrix, and the `Scan` result of a scan |
| `Dialect` | dialect.dfy | target and stage selection |
| `ErrorLog` | errorlog.dfy | the two `sscanf` formats read from the log, with int32 storage, and the listing window |
| `Rewrite` | rewrite.dfy | directive trimming (a loop), the in-place legacy rewrite (a loop over a `char` array), precision forcing |
| `GlScanner` | glscanner.dfy | the GL uniform scanner (a loop), its specification, and the lemmas about skipped, stopping and declaring statements |
| `MetalScanner` | metalscanner.dfy | the struct pass and the texture pass (loops), their specifications, and the lemmas about the entries |
| `Blob` | blob.dfy | the shader writer (a class with an append-only byte sequence), the encoder, a decoder, and the round trip |
| `Compiler` | compiler.dfy | `Compile`, which chains the stages |

Each loop of the source is a `method` with a `while` loop. The method is proved
equal to a recursive function that states its result. The properties are
proved about those functions.

The legacy-name rewrite runs on every target, Metal included:
tools/shaderc/shaderc_glsl.cpp:78-104 has no test of the target.

## Model

| member | source | states |
|---|---|---|
| `Dialect.ClearEsFlag` | tools/shaderc/shaderc_glsl.cpp:30 | clearing the ES flag bit leaves a value below 0x80000000, equal to the version minus the flag when the flag was set and to the version otherwise |
| `Dialect.SelectTarget` | tools/shaderc/shaderc_glsl.cpp:22-32 | Metal exactly for the version 'MTL\0'; desktop GL exactly for the other versions below 0x80000000; ES 3.0 exactly when the flag is set and the rest is at least 300; ES 2.0 exactly when it is below 300 |
| `Dialect.SelectStage` | tools/shaderc/shaderc_glsl.cpp:17-20 | fragment exactly for 'f', compute exactly for 'c', vertex for every other letter |
| `ErrorLog.AsInt32` | tools/shaderc/shaderc_glsl.cpp:41-45 | a value stored in an int32 is in the int32 range, equal to the value modulo 2^32, and unchanged when it was already in range |
| `ErrorLog.ScanConversion` | tools/shaderc/shaderc_glsl.cpp:48-49 | one `%u` conversion, with its optional sign, reads at least one character and ends where the digits end |
| `ErrorLog.ConversionWithoutSign` | tools/shaderc/shaderc_glsl.cpp:48-49 | without a sign, the conversion reads the same digits and the same value as the unsigned decimal reader |
| `ErrorLog.ConversionNegative` | tools/shaderc/shaderc_glsl.cpp:48-49 | a negative value comes only from a '-' after the blanks |
| `ErrorLog.ScanSourceLineColumn` | tools/shaderc/shaderc_glsl.cpp:48 | `"%u:%u(%u):"` converts at most three numbers; three conversions exactly when a column was stored; a stored column implies a stored line |
| `ErrorLog.SourceLineColumnRead` | tools/shaderc/shaderc_glsl.cpp:48 | for every log `d1:d2(d3)` followed by anything, with d1, d2 and d3 runs of digits, three conversions store line d2 and column d3 |
| `ErrorLog.ScanLineColumn` | tools/shaderc/shaderc_glsl.cpp:49 | `"(%u,%u):"` converts at most two numbers, two exactly when a column was stored, and none unless the log starts with '(' |
| `ErrorLog.LineColumnRead` | tools/shaderc/shaderc_glsl.cpp:48-49 | for every log `(d2,d3)` followed by anything, the first format converts nothing and the second stores line d2 and column d3 |
| `ErrorLog.IMax` | tools/shaderc/shaderc_glsl.cpp:55 | `uint32_imax(a, b)`, which gives `a` when the wrapped difference b - a has its sign bit set and `b` otherwise, is the larger value whenever b - a does not overflow |
| `ErrorLog.ReportError` | tools/shaderc/shaderc_glsl.cpp:40-57 | with no position found, or line 0, the window is 0..INT32_MAX; with a position on line 0 < L <= INT32_MAX-10, the window starts at max(1, L-10), runs 20 lines and contains L; a line read as negative, down to -2^31+11, gives the window 1..21; the line -2^31+10, where b - a overflows in the maximum, gives the window -2^31..-2^31+20 |
| `ErrorLog.ReportSourceLineColumn` | tools/shaderc/shaderc_glsl.cpp:40-57 | for every log `d1:d2(d3)…`, the report holds line d2 and column d3 as int32 values and the window of that line: none for line 0, max(1, L-10) to +20 for 0 < L <= INT32_MAX-10, 1..21 for -2^31+11 <= L < 0, -2^31..-2^31+20 for L = -2^31+10 |
| `ErrorLog.ReportLineColumn` | tools/shaderc/shaderc_glsl.cpp:40-57 | for every log `(d2,d3)…`, the report holds line d2 and column d3 as int32 values and the same window of that line |
| `ErrorLog.ReportExample` | tools/shaderc/shaderc_glsl.cpp:40-57 | the log "0:12(4): error" gives line 12, column 4 and the window 2..22 |
| `ErrorLog.WrappedLineExample` | tools/shaderc/shaderc_glsl.cpp:40-57 | the log "0:4294967295(1):" stores line -1 in the int32, and the window is 1..21 |
| `ErrorLog.LowestWrappedLineExample` | tools/shaderc/shaderc_glsl.cpp:40-57 | the log "0:2147483659(1):" stores line -2^31+11, and the window is 1..21 |
| `ErrorLog.SignedLineExample` | tools/shaderc/shaderc_glsl.cpp:40-57 | the log "0:-1(1):" also gives line -1 and the window 1..21, since `%u` takes a sign |
| `Rewrite.DirectiveEndFrom` | tools/shaderc/shaderc_glsl.cpp:69-73 | from a line start, trimming stops at the end or at a line start that does not hold '#', and every line start it passes holds '#' |
| `Rewrite.DirectiveEndFromIsFirstPlainLine` | tools/shaderc/shaderc_glsl.cpp:69-73 | trimming stops at a line start, or at the end, that does not hold '#'; every line start before it holds '#' |
| `Rewrite.TrimDirectives` | tools/shaderc/shaderc_glsl.cpp:69-75 | the trim loop returns the position of the first line that is not a directive; every line it drops starts with '#' and the kept text does not |
| `Rewrite.ReplaceInPlace` | tools/shaderc/shaderc_glsl.cpp:80 | `strReplace` with a replacement no longer than the pattern keeps the length of the text |
| `Rewrite.RewriteWith` | tools/shaderc/shaderc_glsl.cpp:80-103 | a series of shrinking replacements never changes the length of the text |
| `Rewrite.ReplacementsAvoidNames` | tools/shaderc/shaderc_glsl.cpp:80-103 | no replacement name contains any of the nineteen deprecated names |
| `Rewrite.CopyInto` | tools/shaderc/shaderc_glsl.cpp:80 | the copy of a padded replacement into the buffer writes exactly that stretch and keeps the rest of the buffer |
| `Rewrite.ReplaceStep` | tools/shaderc/shaderc_glsl.cpp:80 | one step of `strReplace`: at a match, writes the padded replacement and moves past the match; otherwise keeps the character and moves one place |
| `Rewrite.ReplaceAllStep` | tools/shaderc/shaderc_glsl.cpp:80 | the replace-all of the rest of the text is the part one step writes, then the replace-all after that step |
| `Rewrite.StrReplace` | tools/shaderc/shaderc_glsl.cpp:80 | the in-place loop leaves in the buffer the old contents with every match, left to right and without overlaps, replaced by the replacement padded with blanks |
| `Rewrite.LegacyRewrite` | tools/shaderc/shaderc_glsl.cpp:78-104 | the nineteen in-place calls leave the text rewritten by the legacy table in source order |
| `Rewrite.RewriteWithoutNames` | tools/shaderc/shaderc_glsl.cpp:78-104 | a text that holds none of the deprecated names is left unchanged |
| `Rewrite.RewriteChangesOnlyNames` | tools/shaderc/shaderc_glsl.cpp:78-104 | every character the rewrite changes lies inside an occurrence of a deprecated name in the text that the table entry met |
| `Rewrite.LegacyRewritten` | tools/shaderc/shaderc_glsl.cpp:78-104 | the rewritten text keeps the length and holds none of the nineteen deprecated names |
| `Rewrite.LegacyApart` | tools/shaderc/shaderc_glsl.cpp:78-104 | no deprecated name holds a blank, and its last two characters occur in no padded replacement, so a name cannot overlap a replacement written before it |
| `Rewrite.LegacyRewriteRemovesNames` | tools/shaderc/shaderc_glsl.cpp:78-104 | after the first n replacements, none of the first n deprecated names is left |
| `Rewrite.LegacyRewriteIdempotent` | tools/shaderc/shaderc_glsl.cpp:78-104 | rewriting a rewritten text changes nothing |
| `Rewrite.RewriteWithWithout` | tools/shaderc/shaderc_glsl.cpp:80-103 | shrinking replacements bring in no character other than blanks and the characters of the replacements |
| `Rewrite.LegacyRewriteKeepsCString` | tools/shaderc/shaderc_glsl.cpp:78-104 | the rewrite of a text without NUL holds no NUL |
| `Rewrite.ForcePrecision` | tools/shaderc/shaderc_glsl.cpp:108-119 | for shader type 'v' on a GL target, the text holds no "lowp" and no "mediump" anywhere, even inside identifiers; otherwise it is unchanged |
| `Rewrite.ForcePrecisionKeepsCString` | tools/shaderc/shaderc_glsl.cpp:108-119 | forcing precision on a text without NUL leaves no NUL |
| `Text.SkipSpace` | tools/shaderc/shaderc_glsl.cpp:128 | `strLTrimSpace` stops at the first non-blank character at or after the cursor |
| `Text.NextWord` | tools/shaderc/shaderc_glsl.cpp:132 | `nextWord` skips blanks, takes a maximal word, then skips the blanks after it |
| `Text.FindChar` | tools/shaderc/shaderc_glsl.cpp:129 | `strFind` of a character gives its first occurrence at or after the cursor, or reports that there is none |
| `Text.FindStr` | tools/shaderc/shaderc_glsl.cpp:250 | `strFind` of a literal gives its first occurrence at or after the cursor, or reports that there is none |
| `Text.FindNl` | tools/shaderc/shaderc_glsl.cpp:72 | `strFindNl` gives the position just after the first newline, or the end of the text when there is none |
| `Text.ScanUnsigned` | tools/shaderc/shaderc_glsl.cpp:212 | `fromString` skips blanks and reads the maximal run of digits as their decimal value; it fails exactly when no digit follows the blanks |
| `Text.Pad` | tools/shaderc/shaderc_glsl.cpp:80 | the padded replacement has the pattern's length, starts with the replacement and is blank after it |
| `Text.ReplaceAll` | tools/shaderc/shaderc_glsl.cpp:115-116 | a literal replace-all with a replacement of the pattern's length keeps the length of the text |
| `Text.ReplaceAllNoMatch` | tools/shaderc/shaderc_glsl.cpp:80 | a text without the pattern is unchanged by replacing it |
| `Text.ReplaceAllChangesOnlyMatches` | tools/shaderc/shaderc_glsl.cpp:80 | every changed character lies inside an occurrence of the pattern |
| `Text.ReplaceAllAvoids` | tools/shaderc/shaderc_glsl.cpp:115-116 | after a replace-all, a literal that the replacement cannot start or complete occurs nowhere, given that it was the pattern itself or was absent before |
| `Text.ReplaceAllWithout` | tools/shaderc/shaderc_glsl.cpp:80 | a replace-all brings in no character that is neither in the text nor in the replacement |
| `Text.ApartNoOverlap` | tools/shaderc/shaderc_glsl.cpp:80 | a literal with no blank, whose last two characters are not in a blank-ended padded replacement, occurs nowhere across that replacement |
| `Text.ReplaceAllApart` | tools/shaderc/shaderc_glsl.cpp:80 | after a padded replace-all, such a literal occurs nowhere, given that it was the pattern itself or was absent before |
| `Uniforms.Rows` | tools/shaderc/shaderc_glsl.cpp:228-238 | one to four registers per element |
| `Uniforms.RegCount` | tools/shaderc/shaderc_glsl.cpp:227-238 | the register count lies between the element count and four times it, so it always fits in 16 bits |
| `Uniforms.RegCountRows` | tools/shaderc/shaderc_glsl.cpp:227-238 | the register count is the element count times 3 for Mat3, times 4 for Mat4, and times 1 otherwise |
| `Uniforms.NewUniform` | tools/shaderc/shaderc_glsl.cpp:216-227 | a new descriptor carries the given name, type, count and registers, with the three texture fields at 0 |
| `Uniforms.Concat` | tools/shaderc/shaderc_glsl.cpp:240 | the entries of two scans in order; a malformed part makes the whole malformed |
| `Uniforms.ConcatAssociative` | tools/shaderc/shaderc_glsl.cpp:240 | appending scans is associative |
| `GlScanner.SkippedQualifier` | tools/shaderc/shaderc_glsl.cpp:134-168 | a skipped first word is at least two characters long and never starts with `uniform` |
| `GlScanner.TypeWord` | tools/shaderc/shaderc_glsl.cpp:178-188 | the type word, read past the optional precision word, is a maximal run of word characters followed by the blanks after it |
| `GlScanner.TypeName` | tools/shaderc/shaderc_glsl.cpp:190-201 | a type starting with `sampler`, `isampler` or `usampler` is named "int"; any other type keeps its first 255 characters |
| `GlScanner.ArraySize` | tools/shaderc/shaderc_glsl.cpp:205-214 | without '[' right after the name the count is 1; after '[' it is the number read there modulo 256, or an error when no digit follows |
| `GlScanner.Declaration` | tools/shaderc/shaderc_glsl.cpp:177-243 | a uniform declaration never ends the scan; the scan goes on past its ';' |
| `GlScanner.Statement` | tools/shaderc/shaderc_glsl.cpp:132-175 | classifying a statement either stops the scan or moves the cursor forward |
| `GlScanner.Trimmed` | tools/shaderc/shaderc_glsl.cpp:128 | the trimmed view is a suffix of the view and does not start with a blank |
| `GlScanner.TrimmedTwice` | tools/shaderc/shaderc_glsl.cpp:128 | trimming is idempotent |
| `GlScanner.ScanTrimmed` | tools/shaderc/shaderc_glsl.cpp:126-128 | leading blanks do not change the scan |
| `GlScanner.ScanText` | tools/shaderc/shaderc_glsl.cpp:122-246 | every entry of a GL scan has a known type, register index 0, the element count times the rows of its type as its register count, texture fields 0 and a name of word characters |
| `GlScanner.ScanView` | tools/shaderc/shaderc_glsl.cpp:126-243 | the same for the statements of a trimmed view |
| `GlScanner.ScanUniforms` | tools/shaderc/shaderc_glsl.cpp:122-246 | the scan loop returns exactly the table of the scan specification `ScanText` |
| `GlScanner.DescribeDescriptor` | tools/shaderc/shaderc_glsl.cpp:216-240 | a descriptor built from a word name has a known type, register index 0, the element count times the rows of its type as its register count, and a name of word characters |
| `GlScanner.StatementDescriptor` | tools/shaderc/shaderc_glsl.cpp:177-240 | every descriptor a statement yields has that shape |
| `GlScanner.PrependDescriptors` | tools/shaderc/shaderc_glsl.cpp:240 | putting a well-formed entry in front of a well-formed table keeps it well-formed |
| `GlScanner.PassStays` | tools/shaderc/shaderc_glsl.cpp:126-130 | a pass of the loop as written over non-blank text without ';' leaves the trimmed view unchanged |
| `GlScanner.AsWrittenNeverEnds` | tools/shaderc/shaderc_glsl.cpp:126-130 | after any positive number of passes, the loop as written is still running over the same view |
| `GlScanner.UnterminatedEndsScan` | tools/shaderc/shaderc_glsl.cpp:126-130 | the corrected scan ends with an empty table on text without ';' |
| `GlScanner.EmptyMainHangs` | tools/shaderc/shaderc_glsl.cpp:126-130 | on "void main ()\n{\n}\n" the loop as written never ends, while the corrected scan ends with an empty table |
| `GlScanner.ReadsStatement` | tools/shaderc/shaderc_glsl.cpp:128-132 | a terminated statement followed by any text is read up to its own ';', with its own first word |
| `GlScanner.GlSkipsStatement` | tools/shaderc/shaderc_glsl.cpp:134-168 | a statement whose first word starts with `precision`, `attribute`, `varying`, `in`, `out`, `flat`, `smooth`, `noperspective` or `centroid`, or whose next word starts with `tmpvar`, adds nothing, and the scan goes on after it |
| `GlScanner.GlStopsAtStatement` | tools/shaderc/shaderc_glsl.cpp:170-175 | the first statement that is neither skipped nor a `uniform` ends the scan, so no later uniform is collected |
| `GlScanner.UniformKeyword` | tools/shaderc/shaderc_glsl.cpp:134-175 | the keyword `uniform` is not a skipped qualifier and passes the `uniform` test |
| `GlScanner.UniformTextParts` | tools/shaderc/shaderc_glsl.cpp:177-214 | the line `uniform [precision ]T name[[N]];` holds each part at its place |
| `GlScanner.UniformLineKeyword` | tools/shaderc/shaderc_glsl.cpp:132 | the first word of a uniform line is `uniform` |
| `GlScanner.UniformLineType` | tools/shaderc/shaderc_glsl.cpp:178-186 | the type word read after the optional precision word is T |
| `GlScanner.UniformLineName` | tools/shaderc/shaderc_glsl.cpp:203 | the name word is the declared name, ending where the size brackets or the ';' begin |
| `GlScanner.UniformLineSize` | tools/shaderc/shaderc_glsl.cpp:205-214 | the element count read is N modulo 256, or 1 without brackets |
| `GlScanner.UniformLineNoTemporary` | tools/shaderc/shaderc_glsl.cpp:163 | a uniform line is not taken for a temporary |
| `GlScanner.UniformLineFinds` | tools/shaderc/shaderc_glsl.cpp:129-243 | the ';' found is the one that ends the line, and the newline search stops right after it |
| `GlScanner.AfterUniformLine` | tools/shaderc/shaderc_glsl.cpp:243 | after a uniform line the scan goes on at the trimmed text that follows the line |
| `GlScanner.UniformStatement` | tools/shaderc/shaderc_glsl.cpp:170-177 | a statement opened by `uniform` and not a temporary is a declaration |
| `GlScanner.DeclarationIs` | tools/shaderc/shaderc_glsl.cpp:177-243 | a declaration with known type, name and count is described by exactly those |
| `GlScanner.ScanViewNext` | tools/shaderc/shaderc_glsl.cpp:126-243 | a statement that moves on adds its entry in front of the scan of the rest |
| `GlScanner.DeclarationScan` | tools/shaderc/shaderc_glsl.cpp:216-243 | a declared line of unknown type adds nothing; a known type adds its descriptor in front of the scan of the rest |
| `GlScanner.DeclaredLine` | tools/shaderc/shaderc_glsl.cpp:177-243 | the same for a line of known parts |
| `GlScanner.GlDeclaresUniform` | tools/shaderc/shaderc_glsl.cpp:177-243 | `uniform [lowp\|mediump\|highp] T name[N];` adds the descriptor (name, type of T or "int" for samplers, N mod 256 or 1, register index 0, count times rows) in front of the rest's table; an unknown T adds nothing but the scan goes on |
| `MetalScanner.PassSpan` | tools/shaderc/shaderc_glsl.cpp:250-318 | a pass runs from just after its marker to the first closer after it, or to the end; without the marker it does not run |
| `MetalScanner.FieldAt` | tools/shaderc/shaderc_glsl.cpp:265-291 | a struct member's type is a word, its name holds no '[' or ';', and its size holds no ']' or ';' |
| `MetalScanner.FieldScan` | tools/shaderc/shaderc_glsl.cpp:293-304 | a member adds nothing exactly when its type is unknown; otherwise at most one entry, with the member's name and type, and a struct descriptor when the name holds no '[' |
| `MetalScanner.StructScan` | tools/shaderc/shaderc_glsl.cpp:258-308 | every entry of the struct pass has a known type, register index 0, as many registers as elements (no matrix multiplier), texture fields 0 and a name without '[' or ';' |
| `MetalScanner.StructTurn` | tools/shaderc/shaderc_glsl.cpp:258-308 | one turn of the struct loop either ends the pass or adds the member's entry and moves forward |
| `MetalScanner.StructPass` | tools/shaderc/shaderc_glsl.cpp:249-309 | the struct loop returns exactly the entries of the struct specification |
| `MetalScanner.LastSpace` | tools/shaderc/shaderc_glsl.cpp:334-341 | the backward search finds the last blank before the mark, or reports that there is none |
| `MetalScanner.FindLastSpace` | tools/shaderc/shaderc_glsl.cpp:334-341 | the backward loop returns that blank |
| `MetalScanner.IndexEnd` | tools/shaderc/shaderc_glsl.cpp:345-348 | the register index ends at the first ')' after the mark, or at the end |
| `MetalScanner.AfterMark` | tools/shaderc/shaderc_glsl.cpp:357 | the cursor goes on one character past the mark |
| `MetalScanner.TextureName` | tools/shaderc/shaderc_glsl.cpp:331-344 | the parameter name is the text between the last blank and the character before the mark, or, with no blank, the text from the cursor to two characters before the mark; it holds no blank except perhaps its last character |
| `MetalScanner.TextureEntry` | tools/shaderc/shaderc_glsl.cpp:329-355 | a parameter adds one texture entry named by its parameter name, or reports the scan malformed |
| `MetalScanner.TextureScan` | tools/shaderc/shaderc_glsl.cpp:320-362 | every entry of the texture pass has the type of "int", one element, one register and texture fields 0 |
| `MetalScanner.TextureTurn` | tools/shaderc/shaderc_glsl.cpp:320-362 | one turn of the texture loop either ends the pass or adds the parameter's entry and moves forward |
| `MetalScanner.TexturePass` | tools/shaderc/shaderc_glsl.cpp:311-363 | the texture loop returns exactly the entries of the texture specification |
| `MetalScanner.MetalScan` | tools/shaderc/shaderc_glsl.cpp:247-364 | the Metal table is well formed exactly when both passes are; its first entries, as many as the struct pass found, are struct descriptors and the rest texture descriptors |
| `MetalScanner.ScanMetal` | tools/shaderc/shaderc_glsl.cpp:247-364 | the two loops give the struct entries followed by the texture entries |
| `MetalScanner.ConcatLayout` | tools/shaderc/shaderc_glsl.cpp:247-364 | struct entries followed by texture entries split into a struct prefix and a texture suffix |
| `MetalScanner.MissingMarkers` | tools/shaderc/shaderc_glsl.cpp:250-318 | without the struct marker there are no struct entries, and without the entry marker no texture entries |
| `MetalScanner.FieldAtArray` | tools/shaderc/shaderc_glsl.cpp:265-287 | the member `T name[N];` has type T, name `name` without the bracket, and size N |
| `MetalScanner.FieldAtScalar` | tools/shaderc/shaderc_glsl.cpp:265-291 | the member `T name;` has type T, name `name` and no size |
| `MetalScanner.MetalMatrixArray` | tools/shaderc/shaderc_glsl.cpp:293-304 | the struct member `float4x4 u_mtx[2];` gets two registers, while the GL scanner would give it eight |
| `MetalScanner.TextureEntryIs` | tools/shaderc/shaderc_glsl.cpp:329-355 | the parameter `... name [[texture(k)` gives the entry `name`, type of "int", one element, register index k mod 65536, one register |
| `MetalScanner.TextureParameter` | tools/shaderc/shaderc_glsl.cpp:320-358 | the texture loop at such a parameter adds that entry and goes on one character past the mark |
| `MetalScanner.StructAsWrittenNeverEnds` | tools/shaderc/shaderc_glsl.cpp:258-263 | a struct member with no ';' after it keeps the struct loop as written at the same place for ever |
| `MetalScanner.UnclosedStructHangs` | tools/shaderc/shaderc_glsl.cpp:250-263 | on "struct xlatMtlShaderUniform { float4 u_color" the loop as written never ends, while the corrected pass ends with no entry |
| `Blob.Bytes` | tools/shaderc/shaderc_glsl.cpp:376-397 | each character is written as its low byte |
| `Blob.CharsOfBytes` | tools/shaderc/shaderc_glsl.cpp:376-397 | the bytes of a byte-sized text read back as that text |
| `Blob.LittleEndian` | tools/shaderc/shaderc_glsl.cpp:369-396 | 16- and 32-bit values read back from their little-endian bytes |
| `Blob.CLength` | tools/shaderc/shaderc_glsl.cpp:395 | `strLen` counts the characters before the first NUL |
| `Blob.EncodeUniform` | tools/shaderc/shaderc_glsl.cpp:373-384 | a record takes 10 bytes plus the name length modulo 256 |
| `Blob.EncodeUniformLayout` | tools/shaderc/shaderc_glsl.cpp:373-384 | each field of a record sits at its offset: name length, name bytes, type, count, register index and count low byte first, then the three texture bytes |
| `Blob.EncodeUniformsAppend` | tools/shaderc/shaderc_glsl.cpp:371-393 | the records of a table with one more uniform are the old records followed by its record |
| `Blob.EncodeSource` | tools/shaderc/shaderc_glsl.cpp:395-399 | the text part is the 32-bit length, that many bytes and a NUL; the length read back counts the bytes between it and the NUL |
| `Blob.EncodeBlob` | tools/shaderc/shaderc_glsl.cpp:366-399 | a blob starts with the uniform count modulo 65536, low byte first, and is as long as the count, the records and the text part |
| `Blob.DecodeBlob` | tools/shaderc/shaderc_glsl.cpp:366-399 | a decoded blob holds as many uniforms as its first two bytes say, each with a name under 256 characters |
| `Blob.DecodeEncodedUniform` | tools/shaderc/shaderc_glsl.cpp:373-384 | a record of a name under 256 byte-sized characters reads back as the uniform |
| `Blob.DecodeEncodedUniforms` | tools/shaderc/shaderc_glsl.cpp:371-393 | the records of such a table read back as the table, in order |
| `Blob.DecodeEncodedSource` | tools/shaderc/shaderc_glsl.cpp:395-399 | the text part of a byte-sized text without NUL and under 2^32 characters reads back as the text |
| `Blob.DecodeEncodedBlob` | tools/shaderc/shaderc_glsl.cpp:366-399 | a blob of fewer than 65536 uniforms with short byte-sized names and such a text reads back as exactly that table and that text |
| `Blob.EncodedBlobLosesTable` | tools/shaderc/shaderc_glsl.cpp:366-384 | a table of 65536 uniforms or more, or with a name of 256 characters or more, does not read back from its blob |
| `Blob.BlobLayout` | tools/shaderc/shaderc_glsl.cpp:366-399 | a blob holds the count, then the records, then the text part |
| `Blob.ShaderWriter.constructor` | tools/shaderc/shaderc_glsl.cpp:366 | a new writer holds no bytes |
| `Blob.ShaderWriter.WriteByte` | tools/shaderc/shaderc_glsl.cpp:375 | appends one byte |
| `Blob.ShaderWriter.WriteU16` | tools/shaderc/shaderc_glsl.cpp:369 | appends two bytes, low byte first |
| `Blob.ShaderWriter.WriteU32` | tools/shaderc/shaderc_glsl.cpp:396 | appends four bytes, low byte first |
| `Blob.ShaderWriter.WriteText` | tools/shaderc/shaderc_glsl.cpp:376-397 | appends the first n characters as bytes |
| `Blob.WriteUniform` | tools/shaderc/shaderc_glsl.cpp:373-384 | appends exactly the record of the uniform |
| `Blob.WriteRecords` | tools/shaderc/shaderc_glsl.cpp:371-393 | the loop appends the records of the whole table in order |
| `Blob.WriteSource` | tools/shaderc/shaderc_glsl.cpp:395-399 | appends the text length up to the first NUL, those bytes, and a NUL |
| `Blob.WriteBlob` | tools/shaderc/shaderc_glsl.cpp:366-399 | appends exactly the blob of the table and the text, which `DecodeEncodedBlob` reads back |
| `Compiler.ProcessedText` | tools/shaderc/shaderc_glsl.cpp:66-119 | the optimizer's output is read up to its first NUL, as `strlen` does; the processed text holds no NUL, so `strLen` counts all of it; without precision forcing it is as long as the text kept after the directives |
| `Compiler.LeadingNulEmpty` | tools/shaderc/shaderc_glsl.cpp:66-75 | an optimizer output that starts with a NUL leaves no text to process |
| `Compiler.TextAfterNulIgnored` | tools/shaderc/shaderc_glsl.cpp:66-75 | whatever follows a leading NUL in the optimizer's output, a uniform struct included, is not scanned: the text is empty and the Metal table has no entry |
| `Compiler.ScanFor` | tools/shaderc/shaderc_glsl.cpp:122-364 | a GL scan gives GL descriptors (registers counted by matrix rows); a Metal scan gives struct and texture descriptors |
| `Compiler.Compile` | tools/shaderc/shaderc_glsl.cpp:13-411 | on an optimizer failure, returns the report of its log and writes nothing; otherwise writes the blob of the processed text (the output up to its first NUL) and its scanned table, or writes nothing when a scan met no digit where one was needed |

## Left out

- The GLSL optimizer (`glslopt_*`, tools/shaderc/shaderc_glsl.cpp:34-38, 61-62, 66, 407-408) is a foreign library. `Compile` takes it as a function parameter from target, stage and source to a log or an output text.
- The source listing and the error message (`printCode` and the message writer, tools/shaderc/shaderc_glsl.cpp:59-60) are I/O. The model stops at the report: line, column and window.
- The `.disasm` file (tools/shaderc/shaderc_glsl.cpp:401-405), `BX_TRACE` and the write-error handling of `bx::ErrorAssert` are I/O and diagnostics.
- `std::regex_replace` (tools/shaderc/shaderc_glsl.cpp:115-116) is modelled by its effect on a literal pattern: a left-to-right replace-all.
- `nameToUniformTypeEnum` and the values of the uniform-type enumeration are defined outside this file. They are a `TypeTable` parameter: a lookup function, the `Count` sentinel, and `Mat3` and `Mat4`.
- `nextWord`, `strReplace` and the bx string functions are defined outside this file. They are modelled from their documented behaviour.
- `bx::fromString` with no digit leaves its output undefined (tools/shaderc/shaderc_glsl.cpp:211-213, 284-286, 349-351). The model does not invent a value: the scan reports `Malformed`, and `Compile` returns `UndefinedValue` and writes nothing.
- `bx::fromString` signs and overflow are not modelled. A count or an index is read as an unsigned decimal and then truncated to 8 or 16 bits, as the casts do. The `%u` conversions of the log do take a sign, and the model reads it.
- ErrorLog.ScanSourceLineColumn: `%u` overflow is not modelled, because the C library leaves it undefined. The number read is stored modulo 2^32 as an int32.
- ErrorLog.ReportError: states no window for a line above INT32_MAX - 10, where `start + 20` overflows an int32, nor for a line below -2^31 + 10, where `line - 10` does; C leaves both undefined, and the model wraps them.
- ErrorLog.ReportSourceLineColumn: the same two ranges of lines are left without a window, for the same reason.
- ErrorLog.ReportLineColumn: the same two ranges of lines are left without a window, for the same reason.
- Blob.EncodeSource: counts the whole text up to its first NUL, where `bx::strLen` returns an int32, so a text of 2^31 characters or more is counted as the library would not; bx is not part of this model.
- Blob.DecodeEncodedBlob: the round trip is stated for tables of fewer than 65536 uniforms with names under 256 byte-sized characters; `EncodedBlobLosesTable` shows that the others do not read back.
- The byte order of `bx::write` is the host's. The model writes little-endian.
- Characters are written as their low byte. The round trip is stated for texts and names whose characters are all bytes.
- The texture fields `texComponent`, `texDimension` and `texFormat` are bytes, set to 0 by both scanners.
- `compileGLSLShader` (tools/shaderc/shaderc_glsl.cpp:415-418) only forwards to `compile`.
- MetalScanner.FieldAt: keeps the whole type word, name and array size, where the code copies them into `uniformType[256]`, `uniformName[256]` and `arraySize[32]` with a size taken from the text (tools/shaderc/shaderc_glsl.cpp:267-283), so a type or name of 256 characters or more, or an array size written with 32 characters or more, overflows its buffer; C leaves that undefined.
- MetalScanner.TextureName: keeps the whole parameter name, where the code copies it into `uniformName[256]` with a size taken from the text (tools/shaderc/shaderc_glsl.cpp:342-343); a name of 256 characters or more overflows the buffer, which C leaves undefined.
- Aliasing of the `code` buffer with the optimizer's output string is not modelled. The rewrite works on a fresh array holding the kept text.
- GlScanner.ScanText: on non-blank text with no ';' left, it ends the scan, where the code never ends; see "## Findings".
- MetalScanner.StructScan: on a member with no ';' after it, it ends the pass, where the code never ends; see "## Findings".

## Findings

| source | as written | input that shows it | evidently intended | confidence | as-written member | corrected member |
|---|---|---|---|---|---|---|
| tools/shaderc/shaderc_glsl.cpp:126-130 | when the trimmed view is not empty and holds no ';', nothing moves the view, so the `while` loop never ends | an optimized shader whose text after the uniform header has no ';', such as "void main ()\n{\n}\n" | the scan ends there with the table collected so far | not executed | `GlScanner.EmptyMainHangs` | `GlScanner.UnterminatedEndsScan` |
| tools/shaderc/shaderc_glsl.cpp:258-263 | inside the uniform struct, a member with no ';' after it leaves `parse` in place, so the struct loop never ends | "struct xlatMtlShaderUniform { float4 u_color" (a struct without "};" and without a ';' after its last member) | the pass ends there with the entries collected so far | not executed | `MetalScanner.UnclosedStructHangs` | `MetalScanner.StructPass` |
