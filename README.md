# ByteFont in Dafny

ByteFont is a bitmap-font toolkit in Java with three parts:

- ByteFont, the in-memory font: a name, a size, a style, a line height and a table from 16-bit
  character to a grid of bytes.
- The generator. It renders each character of a code-point range with AWT, packs the picture
  into bytes with eight vertical pixels per byte (lowest bit topmost), and writes a text file:
  a `META_BEGIN` … `META_END` header of `KEY value` lines, then one `BEGIN n` … `END` block
  per character, with one line of `;`-separated hex bytes for each byte row.
- The reader. It reads such a file back, line by line, into a ByteFont.

This project models those parts and proves that the reader reads back what the generator
writes.

| file | module | models |
|---|---|---|
| `wrappers.dfy` | `Wrappers` | `Option`, standing for Java's `null` |
| `java_text.dfy` | `JavaText` | the JDK string operations the core relies on: `trim`, `startsWith`, `replace`, `toUpperCase`/`toLowerCase`, `split(" ", 2)`, `split(";")`, `Integer.parseInt`, `Integer.toString`, `Integer.toHexString` |
| `byte_font_type.dfy` | `FontType` | the `ByteFontType` enum and `valueOf` |
| `byte_font.dfy` | `ByteFontModel` | the `ByteFont` class: constructors, `getBytes`, `getCharCount`, the getters, `getHeight`, `setHeight`, `addChar`, `fromMeta` |
| `byte_font_reader.dfy` | `ByteFontReader` | the line loop of `loadByteFont` |
| `byte_font_generator.dfy` | `ByteFontGenerator` | `getByteChar` and the file writing in `main` |
| `round_trip.dfy` | `RoundTrip` | generator output fed to the reader |
| `scenario.dfy` | `Scenario` | one concrete file, decoded |

Modelling choices:

- `byte` is `bv8`, holding the unsigned bit pattern. `char` is an `int` in `[0, 65536)`.
- The casts `(char) n` and `(byte) n` keep the low 16 and 8 bits.
- `String` is `seq<char>`.
- The Java `null` results of `fromMeta`, `valueOf` and `loadByteFont` are `None` or a `null`
  reference.
- The reader loop has two forms:
  - `Step`, `RunFrom` and `Decode`: a state machine over the lines;
  - `LoadByteFont`: a method with the loop itself, proved to compute `Decode`.
- The generator writes through a `Writer` class. It records finished lines and the line in
  progress, as a `BufferedWriter` would produce them. `Generate` is proved to write exactly
  `Encoding(...)`.
- `getByteChar` fills an `array2` in place. It is proved to hold `Packed(...)`, which is a fold
  over the pixel rows.
- Metadata and glyph tables are Java `HashMap`s, so the order of their entries is unspecified.
  Any order is allowed: a ghost out-parameter `order`, constrained only to list every key
  exactly once.

Main results:

- `RoundTrip.GeneratedFileReadsBack`. Decoding the generated lines gives a font with:
  - the name, size, style and height the generator wrote;
  - one entry for each character some code point in the range produced a block for;
  - for that entry, the character's packed grid transposed to rows.

  `RoundTrip.DecodedPixels` restates that table in pixels. Bit `y & 7` of byte `x` of row
  `y >> 3` is set exactly when pixel `(x, y)` is black.
- `RoundTrip.PlainStyleUnreadable`. A file generated with style 0 (`Font.PLAIN`) decodes to
  `null`, because `fromMeta` rejects a style that is not positive.
- `ByteFontModel.ScanHeightNotMaximum`. `getHeight` compares a byte count with a height
  eight times larger, so the derived height is not always the largest one: first rows of 1
  byte and then 2 bytes give 8, not 16. `ScanHeightSpec` states what the loop does give.
- `ByteFontGenerator.ByteHeightBounds`. The generator's formula for bytes per column gives one
  byte more than needed exactly when `h % 8` is 4 to 7.
- The table stores rows in file order. The rows `1;2` and `ff;0` give the glyph
  `[[0x01, 0x02], [0xff, 0x00]]`, row by row (`Scenario.ScenarioDecodes`), because the
  reader appends each text line as one row (ByteFontReader.java lines 77-78).

## Model

| member | source | states |
|---|---|---|
| FontType.Search | Core/src/net/gerritk/bytefont/ByteFontType.java:16-23 | the result is the first listed type carrying the value; it is None exactly when no listed type carries it |
| FontType.ValueOf | Core/src/net/gerritk/bytefont/ByteFontType.java:16-23 | a found type carries the value; the result is null exactly for values other than Font.PLAIN, Font.BOLD and Font.ITALIC |
| FontType.ValueOfValue | Core/src/net/gerritk/bytefont/ByteFontType.java:6-23 | every constant is found again from its own value |
| FontType.ValuesDistinct | Core/src/net/gerritk/bytefont/ByteFontType.java:6-8 | the three constants carry distinct values 0, 1 and 2, so at most one type matches a value |
| ByteFontModel.FromMetaSpec | Core/src/net/gerritk/bytefont/ByteFont.java:78-98 | definition, no contract: fromMeta on the entries, None for null; FromMetaRejects and FromMetaKeeps state what it gives |
| ByteFontModel.HeightStep | Core/src/net/gerritk/bytefont/ByteFont.java:60-62 | definition, no contract: one iteration of the getHeight loop, with its comparison as written |
| ByteFontModel.ScanHeight | Core/src/net/gerritk/bytefont/ByteFont.java:56-68 | definition, no contract: the getHeight loop over the glyphs in visiting order; ScanHeightSpec states what it gives |
| ByteFontModel.ToChar | Reader/src/net/gerritk/bytefont/ByteFontReader.java:57 | the cast (char) keeps an int in [0, 65536) unchanged and changes every larger non-negative int; the result is the int modulo 65536, so it differs from it by a multiple of 65536 |
| ByteFontModel.ToByte | Reader/src/net/gerritk/bytefont/ByteFontReader.java:74 | definition, no contract: the cast (byte), the low 8 bits; ToByteUnsigned states that it undoes Byte.toUnsignedInt |
| ByteFontModel.ToByteUnsigned | Generator/src/net/gerritk/bytefont/ByteFontGenerator.java:74 | casting Byte.toUnsignedInt(b) back to byte gives b |
| ByteFontModel.PutIfAbsent | Core/src/net/gerritk/bytefont/ByteFont.java:74-76 | the flag is true exactly when the key was absent; old entries are unchanged and the key then maps to the new glyph; the size grows by one exactly when the flag is true |
| ByteFontModel.FromMetaRejects | Core/src/net/gerritk/bytefont/ByteFont.java:78-98 | fromMeta returns null exactly when the map is null, the name reads "null", size or style does not parse, or size or style is not positive |
| ByteFontModel.FromMetaKeeps | Core/src/net/gerritk/bytefont/ByteFont.java:82-92 | a built font has the name, the parsed size and style, an empty table, the parsed height when the height parses, and -1 when it is absent or does not parse |
| ByteFontModel.ScanHeightSpec | Core/src/net/gerritk/bytefont/ByteFont.java:57-64 | in any order, the derived height is 0 exactly when no glyph has a non-empty first row; otherwise it is 8 times the first-row length of one of the glyphs |
| ByteFontModel.ScanHeightNotMaximum | Core/src/net/gerritk/bytefont/ByteFont.java:60-61 | first rows of 1 byte and then 2 bytes give 8 where the largest would be 16 |
| ByteFontModel.ScanHeightSnoc | Core/src/net/gerritk/bytefont/ByteFont.java:59-63 | visiting one more entry is one more comparison step of the loop |
| ByteFontModel.HeightOfOrder | Core/src/net/gerritk/bytefont/ByteFont.java:56-68 | the same statement as ScanHeightSpec, over a table visited in any complete order |
| ByteFontModel.ByteFont.constructor | Core/src/net/gerritk/bytefont/ByteFont.java:14-20 | the new font holds the given metadata and an empty table |
| ByteFontModel.ByteFont.WithoutHeight | Core/src/net/gerritk/bytefont/ByteFont.java:22-24 | the three-argument constructor sets the height to -1 |
| ByteFontModel.ByteFont.GetBytes | Core/src/net/gerritk/bytefont/ByteFont.java:26-38 | an absent character gives a fresh empty array; a stored glyph with no rows fails at original[0]; otherwise the result is a fresh copy with fresh, distinct rows equal to the stored ones |
| ByteFontModel.ByteFont.GetHeight | Core/src/net/gerritk/bytefont/ByteFont.java:56-68 | a non-negative stored height is returned; otherwise the loop runs over the table in some complete order, with the 0 case and the 8-times-a-first-row case as in ScanHeightSpec |
| ByteFontModel.ByteFont.SetHeight | Core/src/net/gerritk/bytefont/ByteFont.java:70-72 | the height becomes the argument and nothing else changes |
| ByteFontModel.ByteFont.AddChar | Core/src/net/gerritk/bytefont/ByteFont.java:74-76 | the table becomes its putIfAbsent; the result is true exactly when the character was absent; the character count grows by one exactly then |
| ByteFontModel.ByteFont.FromMeta | Core/src/net/gerritk/bytefont/ByteFont.java:78-98 | the result is null exactly when FromMetaSpec gives None; otherwise it is a fresh font holding FromMetaSpec's metadata and an empty table |
| ByteFontReader.Step | Reader/src/net/gerritk/bytefont/ByteFontReader.java:28-86 | definition, no contract: one loop iteration on a raw line: trim, then skip, the metadata branch or the glyph branch; StepSkipped, MetaLine, BeginLine, RowLine and EndLine state each case |
| ByteFontReader.MetaStep | Reader/src/net/gerritk/bytefont/ByteFontReader.java:36-52 | definition, no contract: the branch taken while no font exists |
| ByteFontReader.GlyphStep | Reader/src/net/gerritk/bytefont/ByteFontReader.java:53-85 | definition, no contract: the branch taken once the font exists |
| ByteFontReader.RunFrom | Reader/src/net/gerritk/bytefont/ByteFontReader.java:28-86 | definition, no contract: the loop over the remaining lines, stopping at the break; RunFromAppend and RunFromStopped state how it composes |
| ByteFontReader.Decode | Reader/src/net/gerritk/bytefont/ByteFontReader.java:28-86 | definition, no contract: the font left by the loop run from the initial state over the whole file |
| ByteFontReader.RowSpec | Reader/src/net/gerritk/bytefont/ByteFontReader.java:70-78 | definition, no contract: the row a glyph line denotes, or None when a token throws; ReadRow is proved to compute it and RowParses to read back the written rows |
| ByteFontReader.Commit | Reader/src/net/gerritk/bytefont/ByteFontReader.java:64 | definition, no contract: addChar of the open glyph, its result ignored; EndLine states its effect |
| JavaText.TrimLeft | Reader/src/net/gerritk/bytefont/ByteFontReader.java:30 | the result is a suffix of the input, empty or starting with a character above U+0020, and every character removed is at most U+0020 |
| JavaText.TrimRight | Reader/src/net/gerritk/bytefont/ByteFontReader.java:30 | the result is a prefix of the input, empty or ending with a character above U+0020, every character removed is at most U+0020, and a line with a printable first character keeps at least that character |
| JavaText.Trim | Reader/src/net/gerritk/bytefont/ByteFontReader.java:30 | a non-empty trimmed line starts and ends with a character above U+0020 |
| JavaText.TrimSpec | Reader/src/net/gerritk/bytefont/ByteFontReader.java:30 | trim gives a slice s[i..j] of the line, empty or printable at both ends, and every character outside the slice is at most U+0020 |
| JavaText.TrimOfTrimmed | Reader/src/net/gerritk/bytefont/ByteFontReader.java:30 | trim leaves a line with printable ends unchanged |
| JavaText.TrimIndented | Reader/src/net/gerritk/bytefont/ByteFontReader.java:30 | trim removes the two-space indent the generator writes |
| JavaText.TrimKeepsFirst | Reader/src/net/gerritk/bytefont/ByteFontReader.java:30 | trim keeps a printable first character first |
| JavaText.RemoveAllAbsent | Reader/src/net/gerritk/bytefont/ByteFontReader.java:56 | replace leaves alone a string that does not contain the pattern's first character |
| JavaText.RemovePrefix | Reader/src/net/gerritk/bytefont/ByteFontReader.java:56 | replace("BEGIN ", "") on "BEGIN " + digits gives the digits |
| JavaText.ToLower | Reader/src/net/gerritk/bytefont/ByteFontReader.java:50 | the length is kept, no capital ASCII letter is left, exactly the capitals change, and each one moves to its lower-case letter |
| JavaText.ToUpper | Generator/src/net/gerritk/bytefont/ByteFontGenerator.java:52 | the length is kept, no lower-case ASCII letter is left, exactly the lower-case letters change, and each one moves to its capital |
| JavaText.UpperLowerWord | Generator/src/net/gerritk/bytefont/ByteFontGenerator.java:52 | upper-casing a lower-case key gives capital letters, and the reader's lower-casing undoes it |
| JavaText.SplitFirstSpace | Reader/src/net/gerritk/bytefont/ByteFontReader.java:48-50 | there are two parts exactly when the line has a space; the line is then key, space, value, with no space in the key |
| JavaText.SplitAll | Reader/src/net/gerritk/bytefont/ByteFontReader.java:70 | splitting gives at least one piece, no piece holds the separator, and the pieces joined with the separator give the input back |
| JavaText.DropTrailingEmpty | Reader/src/net/gerritk/bytefont/ByteFontReader.java:70 | the result is a prefix of the tokens; every token dropped is empty and the last token kept is not |
| JavaText.JoinedSnoc | Generator/src/net/gerritk/bytefont/ByteFontGenerator.java:73-78 | joining one more piece appends the separator and that piece |
| JavaText.JoinIsJoined | Generator/src/net/gerritk/bytefont/ByteFontGenerator.java:73-78 | the row the generator writes is its tokens joined with `;`, the text SplitAll is proved to invert |
| JavaText.SplitAllNoSep | Reader/src/net/gerritk/bytefont/ByteFontReader.java:70 | a string without the separator splits into itself |
| JavaText.SplitAllAppend | Reader/src/net/gerritk/bytefont/ByteFontReader.java:70 | splitting a + sep + b gives the pieces of a followed by those of b |
| JavaText.SplitAllJoin | Reader/src/net/gerritk/bytefont/ByteFontReader.java:70 | splitting a join of tokens without `;` gives the tokens |
| JavaText.JoinChars | Generator/src/net/gerritk/bytefont/ByteFontGenerator.java:73-78 | a written row holds only token characters and `;` |
| JavaText.JoinEnds | Generator/src/net/gerritk/bytefont/ByteFontGenerator.java:73-78 | a written row starts with its first token's first character and ends with its last token's last character |
| JavaText.JavaSplitJoin | Reader/src/net/gerritk/bytefont/ByteFontReader.java:70 | split(";") of a written row of non-empty tokens gives the tokens back |
| JavaText.ParseDigits | Reader/src/net/gerritk/bytefont/ByteFontReader.java:73 | a digit run parses exactly when it is non-empty and every character is a digit of the radix |
| JavaText.ParseIntSpec | Reader/src/net/gerritk/bytefont/ByteFontReader.java:56 | the text parses exactly when it is non-empty, its digits after an optional `-` or `+` parse, and the signed value fits in an int; the result is then that signed value |
| JavaText.NatToString | Generator/src/net/gerritk/bytefont/ByteFontGenerator.java:68 | the text is a non-empty run of decimal digits |
| JavaText.IntToString | Generator/src/net/gerritk/bytefont/ByteFontGenerator.java:68 | the text is digits with an optional sign and ends with a digit |
| JavaText.ParseNatToString | Core/src/net/gerritk/bytefont/ByteFont.java:83 | parsing the decimal digits of n gives n |
| JavaText.ParseIntToString | Core/src/net/gerritk/bytefont/ByteFont.java:83 | Integer.parseInt reads back Integer.toString for every int |
| JavaText.HexToken | Generator/src/net/gerritk/bytefont/ByteFontGenerator.java:74 | toHexString of a byte value is lower-case hex digits: one digit exactly when the value is below 16, otherwise two with no leading zero |
| JavaText.ParseHexToken | Reader/src/net/gerritk/bytefont/ByteFontReader.java:73 | parseInt(_, 16) reads back toHexString for every byte value |
| ByteFontReader.ReadRow | Reader/src/net/gerritk/bytefont/ByteFontReader.java:70-79 | the token loop computes RowSpec: the row of all tokens, or failure at the first bad token |
| ByteFontReader.LoadByteFont | Reader/src/net/gerritk/bytefont/ByteFontReader.java:28-86 | the result is null exactly when Decode gives None; otherwise it is a fresh font equal to Decode's |
| ByteFontReader.RunFromAppend | Reader/src/net/gerritk/bytefont/ByteFontReader.java:28-86 | the loop over a + b is the loop over a, then over b |
| ByteFontReader.RunFromStopped | Reader/src/net/gerritk/bytefont/ByteFontReader.java:45 | after the break no further line has an effect |
| ByteFontReader.StepSkipped | Reader/src/net/gerritk/bytefont/ByteFontReader.java:32-34 | a comment or blank line leaves the state unchanged |
| ByteFontReader.SkippedLineInert | Reader/src/net/gerritk/bytefont/ByteFontReader.java:32-34 | inserting a comment or blank line anywhere does not change the result |
| ByteFontReader.SameTrimSameRun | Reader/src/net/gerritk/bytefont/ByteFontReader.java:30 | the loop sees each line only trimmed: two files whose lines trim alike, place by place, run alike from any state |
| ByteFontReader.ReindentedRun | Reader/src/net/gerritk/bytefont/ByteFontReader.java:30-34 | changing the indentation of lines and dropping a blank or comment line does not change what the loop computes from any state, so neither changes what a file decodes to |
| ByteFontReader.StepCreatesFont | Reader/src/net/gerritk/bytefont/ByteFontReader.java:36-46 | a step creates a font only at META_END, when fromMeta succeeds on the collected entries |
| ByteFontReader.DecodeNeedsMetaEnd | Reader/src/net/gerritk/bytefont/ByteFontReader.java:36-46 | a decoded font implies a META_END line, before any font existed, at which fromMeta succeeded |
| ByteFontReader.StepFailedMetaEnd | Reader/src/net/gerritk/bytefont/ByteFontReader.java:40-45 | a META_END at which fromMeta fails breaks the loop with no font |
| ByteFontReader.FailedMetaEndIsFatal | Reader/src/net/gerritk/bytefont/ByteFontReader.java:39-46 | after such a META_END the result is null, whatever follows |
| ByteFontReader.MetaEndWithoutBegin | Reader/src/net/gerritk/bytefont/ByteFontReader.java:39-46 | a META_END before any META_BEGIN gives null |
| ByteFontReader.MetaLine | Reader/src/net/gerritk/bytefont/ByteFontReader.java:37-51 | META_BEGIN restarts the entries; a line without a space is ignored; otherwise the lower-cased key is bound to the text after the first space |
| ByteFontReader.BeginLine | Reader/src/net/gerritk/bytefont/ByteFontReader.java:54-61 | BEGIN n opens (char) n with no rows; an n that does not parse changes nothing |
| ByteFontReader.RowLine | Reader/src/net/gerritk/bytefont/ByteFontReader.java:68-83 | inside a glyph, a line whose tokens all parse appends exactly their bytes as one row; a bad token discards the glyph |
| ByteFontReader.BadRowThenEnd | Reader/src/net/gerritk/bytefont/ByteFontReader.java:62-83 | after a bad row, any further lines that are no BEGIN or END and then the END leave the state with no glyph open and the font unchanged |
| ByteFontReader.StepInGlyphs | Reader/src/net/gerritk/bytefont/ByteFontReader.java:30-36 | once a font exists, a line that is not skipped goes to the glyph branch |
| ByteFontReader.ClosedStep | Reader/src/net/gerritk/bytefont/ByteFontReader.java:68 | with no glyph open, a line that is no BEGIN or END changes nothing |
| ByteFontReader.IgnoredWhileClosed | Reader/src/net/gerritk/bytefont/ByteFontReader.java:68 | with no glyph open, any run of lines that are no BEGIN or END changes nothing |
| ByteFontReader.EndWhileClosed | Reader/src/net/gerritk/bytefont/ByteFontReader.java:62-67 | an END with no glyph open changes nothing |
| ByteFontReader.IgnoredThenEnd | Reader/src/net/gerritk/bytefont/ByteFontReader.java:62-68 | with no glyph open, such lines followed by END change nothing |
| ByteFontReader.BadRowCloses | Reader/src/net/gerritk/bytefont/ByteFontReader.java:79-82 | a row line with a token that does not parse closes the open glyph and changes nothing else |
| ByteFontReader.BadRowIgnored | Reader/src/net/gerritk/bytefont/ByteFontReader.java:62-83 | with no glyph open, a bad row, such lines and an END change nothing |
| ByteFontReader.MalformedBlockInert | Reader/src/net/gerritk/bytefont/ByteFontReader.java:54-83 | a BEGIN block whose first row is bad leaves the state as it was before the BEGIN, whether or not the BEGIN itself parsed |
| ByteFontReader.EndLine | Reader/src/net/gerritk/bytefont/ByteFontReader.java:62-67 | END closes the glyph and adds it only when its character is not yet in the table |
| ByteFontReader.StepExtends | Reader/src/net/gerritk/bytefont/ByteFontReader.java:53-85 | once a font exists, a step keeps its metadata and every entry of its table |
| ByteFontReader.GlyphsPersist | Reader/src/net/gerritk/bytefont/ByteFontReader.java:53-86 | over any lines, committed glyphs are never removed or replaced, and the character count never falls |
| ByteFontReader.NoEndNoCommit | Reader/src/net/gerritk/bytefont/ByteFontReader.java:62-67 | without an END line the font does not change, so a glyph still open at the end is dropped |
| ByteFontReader.StepKeepsFont | Reader/src/net/gerritk/bytefont/ByteFontReader.java:53-85 | only END changes an existing font |
| ByteFontGenerator.ByteHeightCovers | Generator/src/net/gerritk/bytefont/ByteFontGenerator.java:100-119 | every pixel row below the height has its byte y >> 3 within the column |
| ByteFontGenerator.ByteHeightBounds | Generator/src/net/gerritk/bytefont/ByteFontGenerator.java:100 | bh is at least ceil(h / 8) and at most one more, the extra byte occurring exactly when h % 8 is 4 to 7 |
| ByteFontGenerator.ByteHeightValues | Generator/src/net/gerritk/bytefont/ByteFontGenerator.java:100 | the formula's values for sample heights, e.g. 7 pixels give 2 bytes and 8 give 1 |
| ByteFontGenerator.ByteHeight | Generator/src/net/gerritk/bytefont/ByteFontGenerator.java:100 | definition, no contract: the formula for bh as written; ByteHeightBounds and ByteHeightCovers state what it gives |
| ByteFontGenerator.OrPixelBit | Generator/src/net/gerritk/bytefont/ByteFontGenerator.java:119 | or-ing 1 << s sets bit s and leaves the other bits |
| ByteFontGenerator.PackedUpTo | Generator/src/net/gerritk/bytefont/ByteFontGenerator.java:113-119 | definition, no contract: the packed grid after the first n pixel rows, one row at a time; PackedBits states its bits |
| ByteFontGenerator.PackedBits | Generator/src/net/gerritk/bytefont/ByteFontGenerator.java:113-119 | after scanning n rows, bit k of byte j is set exactly when row 8j + k was scanned and is black |
| ByteFontGenerator.PackedRow | Generator/src/net/gerritk/bytefont/ByteFontGenerator.java:113-119 | scanning row y changes only byte y >> 3 of a column, and a white pixel changes nothing |
| ByteFontGenerator.Packed | Generator/src/net/gerritk/bytefont/ByteFontGenerator.java:101 | the grid has width columns of bh bytes each |
| ByteFontGenerator.PackedPixels | Generator/src/net/gerritk/bytefont/ByteFontGenerator.java:100-119 | bit (y & 7) of byte y >> 3 of column x is set exactly when pixel (x, y) is black, and bits past the last pixel row are clear |
| ByteFontGenerator.ScanRow | Generator/src/net/gerritk/bytefont/ByteFontGenerator.java:115-123 | one pass over row y turns every cell from its value after y rows into its value after y + 1 rows |
| ByteFontGenerator.GetByteChar | Generator/src/net/gerritk/bytefont/ByteFontGenerator.java:96-129 | the result is a fresh width by bh array whose columns are Packed |
| ByteFontGenerator.TransposeTwice | Generator/src/net/gerritk/bytefont/ByteFontGenerator.java:71-78 | writing the grid row by row loses nothing: transposing the rows back gives the packed columns again |
| ByteFontGenerator.Writer.constructor | Generator/src/net/gerritk/bytefont/ByteFontGenerator.java:38 | a new writer has written nothing |
| ByteFontGenerator.Writer.Write | Generator/src/net/gerritk/bytefont/ByteFontGenerator.java:72 | write appends to the current line |
| ByteFontGenerator.Writer.NewLine | Generator/src/net/gerritk/bytefont/ByteFontGenerator.java:80 | newLine finishes the current line and starts an empty one |
| ByteFontGenerator.MetaEntryLine | Generator/src/net/gerritk/bytefont/ByteFontGenerator.java:52 | definition, no contract: the line written for one metadata entry; MetaEntryText states how the reader reads it |
| ByteFontGenerator.Header | Generator/src/net/gerritk/bytefont/ByteFontGenerator.java:49-58 | definition, no contract: the header lines; ReadHeader states how the reader reads them |
| ByteFontGenerator.CommentLine | Generator/src/net/gerritk/bytefont/ByteFontGenerator.java:65 | definition, no contract: the comment line of a code point; CommentText states that the reader skips it |
| ByteFontGenerator.RowText | Generator/src/net/gerritk/bytefont/ByteFontGenerator.java:72-78 | definition, no contract: the text of one byte row; RowParses states how the reader reads it |
| ByteFontGenerator.Block | Generator/src/net/gerritk/bytefont/ByteFontGenerator.java:64-86 | definition, no contract: the lines of one character block; ReadBlock states how the reader reads them |
| ByteFontGenerator.CharBlock | Generator/src/net/gerritk/bytefont/ByteFontGenerator.java:60-87 | definition, no contract: the lines one code point produces, none when the glyph has no column |
| ByteFontGenerator.Glyphs | Generator/src/net/gerritk/bytefont/ByteFontGenerator.java:59-88 | definition, no contract: the blocks of a code-point range, in order; ReadGlyphs states how the reader reads them |
| ByteFontGenerator.Encoding | Generator/src/net/gerritk/bytefont/ByteFontGenerator.java:43-88 | definition, no contract: the whole file for one metadata order; GeneratedFileReadsBack states how the reader reads it |
| ByteFontGenerator.GeneratorMeta | Generator/src/net/gerritk/bytefont/ByteFontGenerator.java:43-47 | the table holds exactly the keys name, size, style and height |
| ByteFontGenerator.MetaEntryLines | Generator/src/net/gerritk/bytefont/ByteFontGenerator.java:51-54 | one line per entry visited |
| ByteFontGenerator.RowTokens | Generator/src/net/gerritk/bytefont/ByteFontGenerator.java:73-78 | one token per column |
| ByteFontGenerator.RowLines | Generator/src/net/gerritk/bytefont/ByteFontGenerator.java:71-84 | one line per byte row, and a single empty line when there are no byte rows |
| ByteFontGenerator.WriteRow | Generator/src/net/gerritk/bytefont/ByteFontGenerator.java:72-78 | the inner loop appends the indent and the row's tokens joined by `;` to the current line |
| ByteFontGenerator.WriteRows | Generator/src/net/gerritk/bytefont/ByteFontGenerator.java:71-82 | every byte row is written on its own line, and the last stays open for the following newLine |
| ByteFontGenerator.WriteChar | Generator/src/net/gerritk/bytefont/ByteFontGenerator.java:60-87 | one pass of the code-point loop writes exactly CharBlock: the block when the glyph has a column, else nothing |
| ByteFontGenerator.WriteMeta | Generator/src/net/gerritk/bytefont/ByteFontGenerator.java:51-54 | the entry loop visits every key once, in some order, and writes exactly its lines |
| ByteFontGenerator.WriteHeader | Generator/src/net/gerritk/bytefont/ByteFontGenerator.java:49-58 | the header is written as META_BEGIN, the entry lines, META_END and an empty line |
| ByteFontGenerator.WriteGlyphs | Generator/src/net/gerritk/bytefont/ByteFontGenerator.java:59-88 | the code-point loop writes the blocks of rangeStart up to rangeEnd, in order |
| ByteFontGenerator.Generate | Generator/src/net/gerritk/bytefont/ByteFontGenerator.java:43-88 | the lines written are exactly Encoding, for an order listing each metadata key once |
| RoundTrip.SplitAtFirstSpace | Reader/src/net/gerritk/bytefont/ByteFontReader.java:48-50 | key + " " + value with no space in the key splits back into key and value |
| RoundTrip.FirstSpaceUnique | Reader/src/net/gerritk/bytefont/ByteFontReader.java:48-50 | the split at the first space is unique |
| RoundTrip.UpperNoSpace | Generator/src/net/gerritk/bytefont/ByteFontGenerator.java:52 | an upper-cased key starts with a capital, has no space, and lower-cases back |
| RoundTrip.MetaEntryText | Generator/src/net/gerritk/bytefont/ByteFontGenerator.java:52 | a written entry line is not skipped and is no marker, and it trims and splits into the upper-cased key and the value |
| RoundTrip.BeginText | Generator/src/net/gerritk/bytefont/ByteFontGenerator.java:68 | the written BEGIN line trims to itself, starts with "BEGIN " and parses back to i |
| RoundTrip.CommentText | Generator/src/net/gerritk/bytefont/ByteFontGenerator.java:65 | the comment line is skipped by the reader |
| RoundTrip.TokenHex | Generator/src/net/gerritk/bytefont/ByteFontGenerator.java:74 | a written token is non-empty, holds only hex digits and no `;` |
| RoundTrip.RowParses | Reader/src/net/gerritk/bytefont/ByteFontReader.java:70-78 | the written text of byte row y parses to row y of the transposed grid |
| RoundTrip.RowTextFacts | Reader/src/net/gerritk/bytefont/ByteFontReader.java:68-78 | a written row line, trimmed, is not skipped, is no BEGIN or END, and parses to the transposed row |
| RoundTrip.ReadEntry | Reader/src/net/gerritk/bytefont/ByteFontReader.java:47-51 | reading a written entry line binds its key to its value |
| RoundTrip.ReadEntries | Reader/src/net/gerritk/bytefont/ByteFontReader.java:47-51 | reading the written entry lines collects the entries visited |
| RoundTrip.ReadMetaLines | Reader/src/net/gerritk/bytefont/ByteFontReader.java:37-51 | META_BEGIN then the lines of all entries collects exactly the generator's table |
| RoundTrip.GeneratorMetaAccepted | Core/src/net/gerritk/bytefont/ByteFont.java:78-92 | fromMeta on the generator's table, with positive size and style, builds a font with that name, size, style and height |
| RoundTrip.ReadHeader | Generator/src/net/gerritk/bytefont/ByteFontGenerator.java:43-58 | reading the written header gives that font, with an empty table and no open glyph |
| RoundTrip.StyleZeroRejected | Core/src/net/gerritk/bytefont/ByteFont.java:86 | fromMeta rejects the generator's table when the style is 0 |
| RoundTrip.PlainStyleUnreadable | Core/src/net/gerritk/bytefont/ByteFont.java:86 | a file generated with style 0 decodes to null |
| RoundTrip.ReadRowStep | Reader/src/net/gerritk/bytefont/ByteFontReader.java:68-78 | one written row line appends row y of the transposed grid to the open glyph |
| RoundTrip.ReadRows | Reader/src/net/gerritk/bytefont/ByteFontReader.java:68-78 | reading the first n written row lines appends the first n transposed rows |
| RoundTrip.ReadAllRows | Reader/src/net/gerritk/bytefont/ByteFontReader.java:68-78 | reading all written row lines gives the transposed grid; with no byte rows the single empty line is skipped |
| RoundTrip.OpenStep | Reader/src/net/gerritk/bytefont/ByteFontReader.java:54-58 | the written BEGIN i opens (char) i with no rows |
| RoundTrip.CommitStep | Reader/src/net/gerritk/bytefont/ByteFontReader.java:62-67 | END commits the open glyph and closes it |
| RoundTrip.ReadBlock | Generator/src/net/gerritk/bytefont/ByteFontGenerator.java:63-86 | reading a written block commits (char) i with the transposed grid |
| RoundTrip.MalformedBlockBetween | Reader/src/net/gerritk/bytefont/ByteFontReader.java:54-83 | a malformed block between two written blocks leaves exactly the two well-formed glyphs committed |
| RoundTrip.ExpectedStep | Generator/src/net/gerritk/bytefont/ByteFontGenerator.java:59-63 | one more code point with a column puts its char's glyph in with putIfAbsent; one without a column leaves the expected table unchanged |
| RoundTrip.ReadGlyphs | Generator/src/net/gerritk/bytefont/ByteFontGenerator.java:59-88 | reading all written blocks gives Expected: each emitted char with its transposed packing |
| RoundTrip.GeneratedFileReadsBack | Generator/src/net/gerritk/bytefont/ByteFontGenerator.java:43-88 | decoding the generated file gives its name, size, style and height, and exactly the expected glyph table |
| RoundTrip.DecodedPixels | Generator/src/net/gerritk/bytefont/ByteFontGenerator.java:113-119 | a char is in the decoded table exactly when some code point of the range names it and it has a column; bit (y & 7) of byte x of row y >> 3 is pixel (x, y) |
| Scenario.ScenarioHeader | Generator/src/net/gerritk/bytefont/ByteFontGenerator.java:51-54 | the entry lines of Arial 10/1/14 are `  NAME Arial`, `  SIZE 10`, `  STYLE 1` and `  HEIGHT 14` |
| Scenario.ScenarioRows | Generator/src/net/gerritk/bytefont/ByteFontGenerator.java:71-82 | columns [1, ff] and [2, 0] are written as `  1;2` and `  ff;0` |
| Scenario.ScenarioText | Generator/src/net/gerritk/bytefont/ByteFontGenerator.java:49-86 | the header and the block for 65 are exactly the scenario's lines |
| Scenario.ScenarioDecodes | Reader/src/net/gerritk/bytefont/ByteFontReader.java:28-86 | the scenario's lines decode to Arial 10/1/14 with one glyph, 'A', holding rows [1, 2] and [ff, 0] |
| Scenario.PlainScenarioDecodes | Reader/src/net/gerritk/bytefont/ByteFontReader.java:28-86 | the same file written as ten lines with no indent and no blank line also decodes to Arial 10/1/14 with only 'A' holding rows [1, 2] and [ff, 0] |
| Scenario.ArialOneChar | Core/src/net/gerritk/bytefont/ByteFont.java:40-42 | that font has exactly the character 'A', so getCharCount gives 1; its stored height is 14, which getHeight returns as a non-negative stored height |

## Left out

- The command line of the generator (`parseArgs`, the usage text, the choice of font) and the
  logging to standard output and standard error.
- AWT rendering and font metrics. `ink(c, x, y)`, `width(c)` and the line height `h` are
  parameters. The generator uses the same `h` for the `HEIGHT` entry and in `getByteChar`.
- The 2 * size image bounds. The model treats every pixel as readable.
- GetByteChar: the picture width is an integer. In the source, `bounds.getWidth()` is a
  `double`: the array is allocated with the truncated width, but the `x` loop compares with the
  fractional one. For a fractional width the loop reaches one column past the array, which
  throws only when that pixel is black. This is not modelled.
- File handling: opening, buffering, `flush`/`close` and the `IOException` paths. The reader
  receives the file's lines, already split; the generator's result is its list of lines.
- `readLine` splitting on `\r` as well as `\n`. The model's lines are the writer's logical
  lines. A metadata value containing a line break, or the `%c` comment of code points 10 and
  13, would span two physical lines in a real file.
- The platform defaults. The model assumes a default locale without special case rules and a
  default charset that encodes every character written (UTF-8). `toUpperCase` and
  `toLowerCase` use the default locale: in a Turkish or Azeri locale `SIZE` lower-cases to
  `sıze`, the reader then finds no `size` entry, and every file reads as `null`. `FileWriter`
  and `FileReader` use the default charset: a font name it cannot encode is written as `?`,
  so the `NAME` entry does not read back and `GeneratedFileReadsBack` does not hold.
- Java `String` is UTF-16 and Dafny `string` is a sequence of scalar values. Under the charset
  assumption above, only the `%c` comment is affected: a lone surrogate half is written as
  "?".
- `toUpperCase`, `toLowerCase` and `Character.digit` are modelled for ASCII only.
- `ByteFont.addChar` stores a reference to the caller's array, so a later change to that array
  would show in the font. The model stores glyphs as values.
- `getName`, `getSize`, `getStyle` and `getCharCount` are plain field reads. They are the
  class's fields and `CharCount()`, with no contract of their own: `AddChar` states how the
  count changes.
- The iteration order of `HashMap`. Both the generator's metadata loop and `getHeight` range
  over any order that lists every key exactly once.
- HeightStep: `byteChar.getValue()[0].length * 8` is int arithmetic and wraps for a first row
  of 2^28 bytes or more. The model multiplies without wrap-around, since such a glyph cannot
  come from a glyph file of realistic size.
- The `lineCount` counter and the `NumberFormatException` messages of the reader: they only
  feed diagnostics.
- GeneratedFileReadsBack: stated for names that are non-empty and end in a printable
  character, other than the text "null". For any other name, trim or fromMeta changes or
  rejects the `NAME` line. Style 0 is covered separately by `PlainStyleUnreadable`.
