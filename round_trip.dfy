/**
 * Reading back what the generator writes: the lines of ByteFontGenerator.main
 * fed to the loop of ByteFontReader.loadByteFont give the written metadata and,
 * for every emitted character, its packed grid transposed to rows.
 */
module RoundTrip {
  import opened Wrappers
  import opened JavaText
  import opened ByteFontModel
  import opened ByteFontReader
  import opened ByteFontGenerator

  // ---------------------------------------------------------------- the lines as text

  /** A name the `NAME` line carries intact: trim keeps its last character and fromMeta accepts it. */
  predicate GoodName(name: string) {
    name != [] && name[|name| - 1] > ' ' && name != "null"
  }

  lemma SplitAtFirstSpace(k: string, v: string)
    requires ' ' !in k
    ensures SplitFirstSpace(k + " " + v) == Some((k, v))
  {
    var line := k + " " + v;
    assert ' ' in line by { assert line[|k|] == ' '; }
    var k', v' := SplitFirstSpace(line).value.0, SplitFirstSpace(line).value.1;
    FirstSpaceUnique(k, v, k', v');
  }

  lemma SpaceAt(k: string, v: string, k': string, v': string)
    requires ' ' !in k' && |k| < |k'|
    ensures k + " " + v != k' + " " + v'
  {
    assert (k + " " + v)[|k|] == ' ' && (k' + " " + v')[|k|] == k'[|k|];
  }

  /** Text before the first space and after it is determined by the line. */
  lemma FirstSpaceUnique(k: string, v: string, k': string, v': string)
    requires ' ' !in k && ' ' !in k' && k + " " + v == k' + " " + v'
    ensures k == k' && v == v'
  {
    var line := k + " " + v;
    if |k'| < |k| {
      SpaceAt(k', v', k, v);
      assert false;
    } else if |k| < |k'| {
      SpaceAt(k, v, k', v');
      assert false;
    } else {
      assert k' == line[..|k'|] && k == line[..|k|];
      assert v' == line[|k'| + 1..] && v == line[|k| + 1..];
    }
  }

  /** A `  KEY value` line trims to `KEY value`. */
  lemma MetaEntryTrim(upper: string, value: string)
    requires upper != [] && upper[0] > ' ' && value != [] && value[|value| - 1] > ' '
    ensures Trim("  " + upper + " " + value) == upper + " " + value
  {
    var text := upper + " " + value;
    assert text[0] == upper[0] && text[|text| - 1] == value[|value| - 1];
    assert "  " + upper + " " + value == "  " + text;
    TrimIndented(text);
  }

  lemma MetaEntryNoMarker(upper: string, value: string)
    requires upper != [] && upper[0] != '#'
    ensures var line := upper + " " + value;
            !Skipped(line) && line != "META_BEGIN" && line != "META_END"
  {
    var line := upper + " " + value;
    assert line[|upper|] == ' ';
    assert line[0] == upper[0];
    assert ' ' !in "META_BEGIN" && ' ' !in "META_END";
  }

  lemma UpperNoSpace(key: string)
    requires LowerWord(key)
    ensures ToUpper(key) != [] && 'A' <= ToUpper(key)[0] <= 'Z' && ' ' !in ToUpper(key)
    ensures ToLower(ToUpper(key)) == key
  {
    UpperLowerWord(key);
    var upper := ToUpper(key);
    assert forall k :: 0 <= k < |upper| ==> upper[k] != ' ';
  }

  /** A `  KEY value` line trims to `KEY value`, splits at its first space, and is no marker. */
  lemma MetaEntryText(key: string, value: string)
    requires LowerWord(key) && value != [] && value[|value| - 1] > ' '
    ensures var line := Trim(MetaEntryLine(key, value));
            && !Skipped(line) && line != "META_BEGIN" && line != "META_END"
            && SplitFirstSpace(line) == Some((ToUpper(key), value))
            && ToLower(ToUpper(key)) == key
  {
    var upper := ToUpper(key);
    UpperNoSpace(key);
    MetaEntryTrim(upper, value);
    MetaEntryNoMarker(upper, value);
    SplitAtFirstSpace(upper, value);
  }

  lemma BeginTrimmed(d: string)
    requires d != [] && d[|d| - 1] > ' '
    ensures Trim("BEGIN " + d) == "BEGIN " + d
  {
    var line := "BEGIN " + d;
    assert line[|line| - 1] == d[|d| - 1];
    TrimOfTrimmed(line);
  }

  lemma BeginPrefix(d: string)
    requires 'B' !in d
    ensures var line := "BEGIN " + d;
            !Skipped(line) && StartsWith(line, "BEGIN ") && RemoveAll(line, "BEGIN ") == d
  {
    var line := "BEGIN " + d;
    assert line[..6] == "BEGIN ";
    assert line[0] == 'B';
    RemovePrefix("BEGIN ", d);
  }

  lemma DigitsNoB(i: int)
    ensures 'B' !in IntToString(i)
  {
  }

  /** `BEGIN i` is trimmed already and gives back i. */
  lemma BeginText(i: int)
    requires IsInt32(i)
    ensures var line := "BEGIN " + IntToString(i);
            && ParseInt(RemoveAll(line, "BEGIN "), 10) == Some(i)
            && Trim(line) == line && !Skipped(line) && StartsWith(line, "BEGIN ")
  {
    var d := IntToString(i);
    BeginTrimmed(d);
    DigitsNoB(i);
    BeginPrefix(d);
    ParseIntToString(i);
  }

  /** A comment line starts with `#` and is skipped. */
  lemma CommentText(i: int)
    ensures Skipped(Trim(CommentLine(i)))
  {
    var s := CommentLine(i);
    assert s[0] == '#';
    TrimKeepsFirst(s);
  }

  /** Every hex token is a non-empty run of the digits of HEX_DIGITS. */
  lemma RowTokensHex(g: seq<seq<Byte>>, y: nat)
    requires forall x :: 0 <= x < |g| ==> y < |g[x]|
    ensures var ts := RowTokens(g, y);
            forall x :: 0 <= x < |ts| ==> ts[x] != [] && ';' !in ts[x] &&
                                          forall k :: 0 <= k < |ts[x]| ==> ts[x][k] in HEX_DIGITS
  {
    var ts := RowTokens(g, y);
    forall x | 0 <= x < |ts|
      ensures ts[x] != [] && ';' !in ts[x] && forall k :: 0 <= k < |ts[x]| ==> ts[x][k] in HEX_DIGITS
    {
      TokenHex(g[x][y]);
    }
  }

  lemma TokenHex(b: Byte)
    ensures var t := HexToken(b as int);
            t != [] && ';' !in t && forall k :: 0 <= k < |t| ==> t[k] in HEX_DIGITS
  {
    var t := HexToken(b as int);
    assert ';' !in HEX_DIGITS;
    assert forall k :: 0 <= k < |t| ==> t[k] != ';';
  }

  /** The text of a row line: hex digits and separators, starting and ending with a digit. */
  lemma RowJoinText(ts: seq<string>)
    requires |ts| > 0
    requires forall x :: 0 <= x < |ts| ==> ts[x] != [] && forall k :: 0 <= k < |ts[x]| ==> ts[x][k] in HEX_DIGITS
    ensures var text := Join(ts);
            && text != [] && text[0] in HEX_DIGITS && text[|text| - 1] in HEX_DIGITS
            && Trim("  " + text) == text
  {
    var text := Join(ts);
    JoinEnds(ts);
    var last := ts[|ts| - 1];
    assert text[0] == ts[0][0] && text[|text| - 1] == last[|last| - 1];
    HexIndented(text);
  }

  /** A line that starts and ends with a hex digit is trimmed back from its indent. */
  lemma HexIndented(text: string)
    requires text != [] && text[0] in HEX_DIGITS && text[|text| - 1] in HEX_DIGITS
    ensures Trim("  " + text) == text
  {
    assert forall ch :: ch in HEX_DIGITS ==> ch > ' ';
    TrimIndented(text);
  }

  lemma RowNoMarker(text: string)
    requires text != [] && text[0] in HEX_DIGITS
    ensures !Skipped(text) && !StartsWith(text, "BEGIN ") && text != "END"
  {
    assert text[0] != '#' && text[0] != 'B' && text[0] != 'E';
  }

  /** The tokens of a row parse back to the row's bytes. */
  lemma RowParses(g: seq<seq<Byte>>, rows: nat, y: nat)
    requires IsGrid(g, rows) && |g| > 0 && y < rows
    ensures RowSpec(Join(RowTokens(g, y))) == Some(Transpose(g, rows)[y])
  {
    var ts := RowTokens(g, y);
    RowTokensHex(g, y);
    JavaSplitJoin(ts);
    forall x | 0 <= x < |ts|
      ensures ParseInt(ts[x], 16) == Some(g[x][y] as int)
    {
      ParseHexToken(g[x][y] as int);
    }
    assert AllHex(ts);
    var row := RowBytes(ts);
    forall x | 0 <= x < |g|
      ensures row[x] == g[x][y]
    {
      ToByteUnsigned(g[x][y]);
    }
    assert row == Transpose(g, rows)[y];
  }

  /** A row line trims to its tokens, is no marker, and parses to column-major byte row y. */
  lemma RowTextFacts(g: seq<seq<Byte>>, rows: nat, y: nat)
    requires IsGrid(g, rows) && |g| > 0 && y < rows
    ensures var line := Trim(RowText(g, y));
            && !Skipped(line) && !StartsWith(line, "BEGIN ") && line != "END"
            && RowSpec(line) == Some(Transpose(g, rows)[y])
  {
    var ts := RowTokens(g, y);
    RowTokensHex(g, y);
    RowJoinText(ts);
    RowNoMarker(Join(ts));
    RowParses(g, rows, y);
  }

  // ---------------------------------------------------------------- composing runs

  lemma RunThen(st: ReaderState, a: seq<string>, b: seq<string>, mid: ReaderState)
    requires RunFrom(st, a) == mid
    ensures RunFrom(st, a + b) == RunFrom(mid, b)
  {
    RunFromAppend(st, a, b);
  }

  lemma RunEmpty(st: ReaderState)
    ensures RunFrom(st, []) == st
  {
  }

  lemma InSnoc<T>(s: seq<T>)
    requires s != []
    ensures forall x :: x in s <==> x in s[..|s| - 1] || x == s[|s| - 1]
  {
    assert s == s[..|s| - 1] + [s[|s| - 1]];
  }

  // ---------------------------------------------------------------- the header read back

  /** The reader between META_BEGIN and META_END, holding the entries `m`. */
  function Collecting(m: map<string, string>): ReaderState {
    ReaderState(None, Some(m), None, false)
  }

  /** Entries the header can carry: lower-case keys, values trim leaves whole. */
  predicate GoodMeta(meta: map<string, string>) {
    forall k :: k in meta ==> LowerWord(k) && meta[k] != [] && meta[k][|meta[k]| - 1] > ' '
  }

  /** The entries of `meta` whose keys `order` lists. */
  function MapOf(order: seq<string>, meta: map<string, string>): map<string, string> {
    map k | k in order && k in meta :: meta[k]
  }

  lemma MapOfSnoc<K, V>(order: seq<K>, meta: map<K, V>)
    requires order != [] && order[|order| - 1] in meta
    ensures (map k | k in order && k in meta :: meta[k]) ==
            (map k | k in order[..|order| - 1] && k in meta :: meta[k])[order[|order| - 1] := meta[order[|order| - 1]]]
  {
    InSnoc(order);
  }

  /** One `  KEY value` line records `key := value`. */
  lemma ReadEntry(m: map<string, string>, key: string, value: string)
    requires LowerWord(key) && value != [] && value[|value| - 1] > ' '
    ensures Step(Collecting(m), MetaEntryLine(key, value)) == Collecting(m[key := value])
  {
    MetaEntryText(key, value);
    var line := Trim(MetaEntryLine(key, value));
    assert Step(Collecting(m), MetaEntryLine(key, value)) == MetaStep(Collecting(m), line);
  }

  /** The entry lines, read after META_BEGIN, collect exactly the entries they list. */
  lemma {:induction false} ReadEntries(order: seq<string>, meta: map<string, string>)
    requires forall i :: 0 <= i < |order| ==> order[i] in meta
    requires GoodMeta(meta)
    ensures RunFrom(Collecting(map[]), MetaEntryLines(order, meta)) == Collecting(MapOf(order, meta))
    decreases |order|
  {
    if order == [] {
      assert MapOf(order, meta) == map[];
      RunEmpty(Collecting(map[]));
    } else {
      var init, key := order[..|order| - 1], order[|order| - 1];
      ReadEntries(init, meta);
      var line := MetaEntryLine(key, meta[key]);
      var mid := Collecting(MapOf(init, meta));
      RunThen(Collecting(map[]), MetaEntryLines(init, meta), [line], mid);
      RunFromOne(mid, line);
      ReadEntry(MapOf(init, meta), key, meta[key]);
      MapOfSnoc(order, meta);
    }
  }

  lemma MapOfAll(order: seq<string>, meta: map<string, string>)
    requires Enumerates(order, meta.Keys)
    ensures MapOf(order, meta) == meta
  {
  }

  /** META_BEGIN and the entry lines in any order that lists every key once collect the whole table. */
  lemma ReadMetaLines(order: seq<string>, meta: map<string, string>)
    requires Enumerates(order, meta.Keys) && GoodMeta(meta)
    ensures RunFrom(INIT, ["META_BEGIN"] + MetaEntryLines(order, meta)) == Collecting(meta)
  {
    RunFromOne(INIT, "META_BEGIN");
    assert Step(INIT, "META_BEGIN") == Collecting(map[]);
    RunThen(INIT, ["META_BEGIN"], MetaEntryLines(order, meta), Collecting(map[]));
    ReadEntries(order, meta);
    MapOfAll(order, meta);
  }

  /** META_END ends the collection: fromMeta's font, or the loop breaks off. */
  lemma MetaEndStep(m: map<string, string>)
    ensures FromMetaSpec(Some(m)).Some? ==>
              Step(Collecting(m), "META_END") == Collecting(m).(font := FromMetaSpec(Some(m)))
    ensures FromMetaSpec(Some(m)).None? ==>
              Step(Collecting(m), "META_END") == Collecting(m).(stopped := true)
  {
    assert Trim("META_END") == "META_END";
  }

  lemma KeysLower()
    ensures forall k :: k in META_KEYS ==> LowerWord(k)
  {
    assert LowerWord("name") && LowerWord("size");
    assert LowerWord("style") && LowerWord("height");
  }

  /** The generator's entries can all be written and read back. */
  lemma GeneratorMetaGood(name: string, size: int, style: int, h: int)
    requires GoodName(name)
    ensures GoodMeta(GeneratorMeta(name, size, style, h))
  {
    KeysLower();
    var m := GeneratorMeta(name, size, style, h);
    assert m["name"] == name;
    var s, t, u := IntToString(size), IntToString(style), IntToString(h);
    assert s != [] && s[|s| - 1] > ' ' && t != [] && t[|t| - 1] > ' ' && u != [] && u[|u| - 1] > ' ';
  }

  /** The generator's table passes fromMeta when the name is usable and size and style are positive. */
  lemma GeneratorMetaAccepted(name: string, size: int, style: int, h: nat)
    requires GoodName(name) && 0 < size && IsInt32(size) && 0 < style && IsInt32(style) && IsInt32(h)
    ensures GoodMeta(GeneratorMeta(name, size, style, h))
    ensures FromMetaSpec(Some(GeneratorMeta(name, size, style, h))) == Some(FontInfo(name, size, style, h, map[]))
  {
    var m := GeneratorMeta(name, size, style, h);
    GeneratorMetaGood(name, size, style, h);
    ParseIntToString(size);
    ParseIntToString(style);
    ParseIntToString(h);
    assert m["size"] == IntToString(size) && m["style"] == IntToString(style) && m["height"] == IntToString(h);
    FromMetaParsed(m, name, size, style, h);
  }

  /** fromMeta on entries whose name, size, style and height read as given. */
  lemma FromMetaParsed(m: map<string, string>, name: string, size: int, style: int, h: int)
    requires "name" in m && m["name"] == name && name != "null" && 0 < size && 0 < style
    requires "size" in m && ParseInt(m["size"], 10) == Some(size)
    requires "style" in m && ParseInt(m["style"], 10) == Some(style)
    requires "height" in m && ParseInt(m["height"], 10) == Some(h)
    ensures FromMetaSpec(Some(m)) == Some(FontInfo(name, size, style, h, map[]))
  {
    assert MetaValue(m, "name") == name && MetaValue(m, "size") == m["size"] && MetaValue(m, "style") == m["style"];
  }

  /** The header leaves the reader with the font fromMeta builds and no glyph open. */
  lemma ReadHeader(order: seq<string>, name: string, size: int, style: int, h: nat)
    requires Enumerates(order, META_KEYS)
    requires GoodName(name) && 0 < size && IsInt32(size) && 0 < style && IsInt32(style) && IsInt32(h)
    ensures var meta := GeneratorMeta(name, size, style, h);
            RunFrom(INIT, Header(order, meta)) ==
              ReaderState(Some(FontInfo(name, size, style, h, map[])), Some(meta), None, false)
  {
    var meta := GeneratorMeta(name, size, style, h);
    var f := FontInfo(name, size, style, h, map[]);
    GeneratorMetaAccepted(name, size, style, h);
    ReadMetaLines(order, meta);
    var lines := ["META_BEGIN"] + MetaEntryLines(order, meta);
    var made := ReaderState(Some(f), Some(meta), None, false);
    RunFromOne(Collecting(meta), "META_END");
    MetaEndStep(meta);
    RunThen(INIT, lines, ["META_END"], Collecting(meta));
    RunFromOne(made, "");
    assert Step(made, "") == made;
    RunThen(INIT, lines + ["META_END"], [""], made);
  }

  lemma StyleZeroRejected(name: string, size: int, h: nat)
    requires GoodName(name) && IsInt32(size) && IsInt32(h)
    ensures GoodMeta(GeneratorMeta(name, size, 0, h))
    ensures FromMetaSpec(Some(GeneratorMeta(name, size, 0, h))).None?
  {
    GeneratorMetaGood(name, size, 0, h);
    ParseIntToString(0);
  }

  lemma HeaderThen(order: seq<string>, meta: map<string, string>, glyphs: seq<string>)
    requires forall i :: 0 <= i < |order| ==> order[i] in meta
    ensures Header(order, meta) + glyphs ==
            ["META_BEGIN"] + MetaEntryLines(order, meta) + ["META_END"] + ([""] + glyphs)
  {
    Assoc(["META_BEGIN"] + MetaEntryLines(order, meta) + ["META_END"], [""], glyphs);
  }

  /**
   * The generator writes style 0 for a plain font, and fromMeta rejects every
   * style that is not positive, so such a file reads back as null.
   */
  lemma PlainStyleUnreadable(order: seq<string>, name: string, size: int, h: nat,
                             lo: int, hi: int, ink: Ink, width: Char -> nat, comments: bool)
    requires Enumerates(order, META_KEYS)
    requires GoodName(name) && IsInt32(size) && IsInt32(h)
    ensures Decode(Encoding(order, name, size, 0, h, lo, hi, ink, width, comments)).None?
  {
    var meta := GeneratorMeta(name, size, 0, h);
    StyleZeroRejected(name, size, h);
    ReadMetaLines(order, meta);
    var lines := ["META_BEGIN"] + MetaEntryLines(order, meta);
    var dead := Collecting(meta).(stopped := true);
    RunFromOne(Collecting(meta), "META_END");
    MetaEndStep(meta);
    RunThen(INIT, lines, ["META_END"], Collecting(meta));
    var rest := [""] + Glyphs(lo, hi, ink, width, h, comments);
    RunThen(INIT, lines + ["META_END"], rest, dead);
    RunFromStopped(dead, rest);
    HeaderThen(order, meta, Glyphs(lo, hi, ink, width, h, comments));
  }

  // ---------------------------------------------------------------- one block read back

  /** A glyph row line appends its bytes, row y of the transposed grid, to the open glyph. */
  lemma ReadRowStep(st: ReaderState, g: seq<seq<Byte>>, rows: nat, y: nat)
    requires st.font.Some? && st.open.Some?
    requires IsGrid(g, rows) && |g| > 0 && y < rows
    ensures Step(st, RowText(g, y)) ==
            st.(open := Some(st.open.value.(rows := st.open.value.rows + [Transpose(g, rows)[y]])))
  {
    RowTextFacts(g, rows, y);
    var line := Trim(RowText(g, y));
    assert Step(st, RowText(g, y)) == GlyphStep(st, line);
  }

  /** The glyph with the first n rows of the transposed grid appended. */
  function WithRows(st: ReaderState, g: seq<seq<Byte>>, rows: nat, n: nat): ReaderState
    requires st.open.Some? && IsGrid(g, rows) && n <= rows
  {
    st.(open := Some(st.open.value.(rows := st.open.value.rows + Transpose(g, rows)[..n])))
  }

  /** One more row line appends one more row. */
  lemma ReadNextRow(st: ReaderState, g: seq<seq<Byte>>, rows: nat, n: nat)
    requires st.font.Some? && st.open.Some? && !st.stopped
    requires IsGrid(g, rows) && |g| > 0 && n < rows
    requires RunFrom(st, RowLines(g, rows)[..n]) == WithRows(st, g, rows, n)
    ensures RunFrom(st, RowLines(g, rows)[..n + 1]) == WithRows(st, g, rows, n + 1)
  {
    var t := Transpose(g, rows);
    var o := st.open.value;
    var ls := RowLines(g, rows);
    var mid := WithRows(st, g, rows, n);
    TakeSnoc(ls, n);
    RunThen(st, ls[..n], [ls[n]], mid);
    RunFromOne(mid, ls[n]);
    ReadRowStep(mid, g, rows, n);
    TakeSnoc(t, n);
    Assoc(o.rows, t[..n], [t[n]]);
  }

  /** The first n row lines append the first n rows of the transposed grid. */
  lemma {:induction false} ReadRows(st: ReaderState, g: seq<seq<Byte>>, rows: nat, n: nat)
    requires st.font.Some? && st.open.Some? && !st.stopped
    requires IsGrid(g, rows) && |g| > 0 && 0 < rows && n <= rows
    ensures RunFrom(st, RowLines(g, rows)[..n]) == WithRows(st, g, rows, n)
    decreases n
  {
    if n == 0 {
      assert RowLines(g, rows)[..0] == [] && Transpose(g, rows)[..0] == [];
      AppendEmpty(st.open.value.rows);
      RunEmpty(st);
    } else {
      ReadRows(st, g, rows, n - 1);
      ReadNextRow(st, g, rows, n - 1);
    }
  }

  /** All row lines, or the lone empty line of a zero-row glyph, fill the open glyph with the transposed grid. */
  lemma ReadAllRows(st: ReaderState, g: seq<seq<Byte>>, rows: nat)
    requires st.font.Some? && st.open.Some? && st.open.value.rows == [] && !st.stopped
    requires IsGrid(g, rows) && |g| > 0
    ensures RunFrom(st, RowLines(g, rows)) ==
            st.(open := Some(st.open.value.(rows := Transpose(g, rows))))
  {
    var t := Transpose(g, rows);
    if rows == 0 {
      RunFromOne(st, "");
      assert Step(st, "") == st;
      assert t == [];
    } else {
      ReadRows(st, g, rows, rows);
      TakeAll(RowLines(g, rows));
      TakeAll(t);
      AppendEmpty(t);
    }
  }

  /** The optional comment line changes nothing. */
  lemma SkipComment(st: ReaderState, i: int, comments: bool)
    ensures RunFrom(st, if comments then [CommentLine(i)] else []) == st
  {
    if comments {
      RunFromOne(st, CommentLine(i));
      CommentText(i);
      StepSkipped(st, CommentLine(i));
    } else {
      RunEmpty(st);
    }
  }

  lemma OpenStep(st: ReaderState, i: int)
    requires st.font.Some? && IsInt32(i)
    ensures Step(st, "BEGIN " + IntToString(i)) == st.(open := Some(OpenGlyph(ToChar(i), [])))
  {
    BeginText(i);
    BeginLine(st, "BEGIN " + IntToString(i));
  }

  lemma EndText()
    ensures Trim("END") == "END" && !Skipped("END") && !StartsWith("END", "BEGIN ")
  {
    assert Trim("END") == "END";
  }

  lemma CommitStep(st: ReaderState)
    requires st.font.Some? && st.open.Some?
    ensures Step(st, "END") == st.(font := Some(Commit(st.font.value, st.open.value)), open := None)
  {
    EndText();
    assert Step(st, "END") == GlyphStep(st, "END");
  }

  /** A written block opens the glyph at BEGIN, fills it row by row and commits it at END. */
  lemma ReadBlock(st: ReaderState, i: int, g: seq<seq<Byte>>, rows: nat, comments: bool)
    requires st.font.Some? && st.open.None? && !st.stopped
    requires IsInt32(i) && IsGrid(g, rows) && |g| > 0
    ensures RunFrom(st, Block(i, g, rows, comments)) ==
            st.(font := Some(Commit(st.font.value, OpenGlyph(ToChar(i), Transpose(g, rows)))))
  {
    var cs := if comments then [CommentLine(i)] else [];
    var begin := "BEGIN " + IntToString(i);
    var begun := st.(open := Some(OpenGlyph(ToChar(i), [])));
    var full := st.(open := Some(OpenGlyph(ToChar(i), Transpose(g, rows))));
    SkipComment(st, i, comments);
    RunThen(st, cs, [begin], st);
    RunFromOne(st, begin);
    OpenStep(st, i);
    RunThen(st, cs + [begin], RowLines(g, rows), begun);
    ReadAllRows(begun, g, rows);
    RunThen(st, cs + [begin] + RowLines(g, rows), ["END"], full);
    RunFromOne(full, "END");
    CommitStep(full);
  }

  /**
   * A block whose first row is malformed, between two written blocks, is lost
   * on its own: the two written glyphs are committed and nothing else.
   */
  lemma MalformedBlockBetween(st: ReaderState, i: int, g: seq<seq<Byte>>, rows: nat,
                              j: int, g': seq<seq<Byte>>, rows': nat, comments: bool,
                              begin: string, bad: string, more: seq<string>, end: string)
    requires st.font.Some? && st.open.None? && !st.stopped
    requires IsInt32(i) && IsGrid(g, rows) && |g| > 0
    requires IsInt32(j) && IsGrid(g', rows') && |g'| > 0
    requires StartsWith(Trim(begin), "BEGIN ") && BadRow(bad) && Trim(end) == "END"
    requires forall k :: 0 <= k < |more| ==> NoMarker(more[k])
    ensures var first := Commit(st.font.value, OpenGlyph(ToChar(i), Transpose(g, rows)));
            RunFrom(st, Block(i, g, rows, comments) + ([begin] + ([bad] + (more + [end]))) + Block(j, g', rows', comments)) ==
            st.(font := Some(Commit(first, OpenGlyph(ToChar(j), Transpose(g', rows')))))
  {
    var first := Commit(st.font.value, OpenGlyph(ToChar(i), Transpose(g, rows)));
    var a := Block(i, g, rows, comments);
    var malformed := [begin] + ([bad] + (more + [end]));
    var s1 := st.(font := Some(first));
    ReadBlock(st, i, g, rows, comments);
    MalformedBlockInert(s1, begin, bad, more, end);
    RunThen(st, a, malformed, s1);
    RunThen(st, a + malformed, Block(j, g', rows', comments), s1);
    ReadBlock(s1, j, g', rows', comments);
  }

  // ---------------------------------------------------------------- the glyph section read back

  /** The glyph the generator packs for c, in the reader's row-major layout. */
  function CharGlyph(c: Char, ink: Ink, width: Char -> nat, h: nat): Glyph {
    Transpose(Packed(ink, c, width(c), h), ByteHeight(h))
  }

  /** The chars the code points lo .. hi - 1 give blocks to: those whose glyph has a column. */
  function Emitted(lo: int, hi: int, width: Char -> nat): set<Char> {
    set i | lo <= i < hi && width(ToChar(i)) > 0 :: ToChar(i)
  }

  /** The table the reader should rebuild from the glyph section. */
  function Expected(lo: int, hi: int, ink: Ink, width: Char -> nat, h: nat): map<Char, Glyph> {
    map c | c in Emitted(lo, hi, width) :: CharGlyph(c, ink, width, h)
  }

  lemma EmittedStep(lo: int, hi: int, width: Char -> nat)
    requires lo < hi
    ensures Emitted(lo, hi, width) ==
            Emitted(lo, hi - 1, width) + (if width(ToChar(hi - 1)) > 0 then {ToChar(hi - 1)} else {})
  {
    var a, b := Emitted(lo, hi, width), Emitted(lo, hi - 1, width);
    forall c | c in a
      ensures c in b || (width(ToChar(hi - 1)) > 0 && c == ToChar(hi - 1))
    {
      var i :| lo <= i < hi && width(ToChar(i)) > 0 && c == ToChar(i);
      if i < hi - 1 {
        assert c in b;
      }
    }
    if width(ToChar(hi - 1)) > 0 {
      assert ToChar(hi - 1) in a;
    }
  }

  /** Putting a glyph the table already holds for c changes nothing, so put-if-absent is an update. */
  lemma PutAgreeing(m: map<Char, Glyph>, c: Char, g: Glyph)
    requires c in m ==> m[c] == g
    ensures PutIfAbsent(m, c, g).0 == m[c := g]
  {
  }

  lemma ExpectedGrows(lo: int, hi: int, ink: Ink, width: Char -> nat, h: nat)
    requires lo < hi && width(ToChar(hi - 1)) > 0
    ensures var c := ToChar(hi - 1);
            Expected(lo, hi, ink, width, h) == Expected(lo, hi - 1, ink, width, h)[c := CharGlyph(c, ink, width, h)]
  {
    EmittedStep(lo, hi, width);
  }

  lemma ExpectedSame(lo: int, hi: int, ink: Ink, width: Char -> nat, h: nat)
    requires lo < hi && width(ToChar(hi - 1)) == 0
    ensures Expected(lo, hi, ink, width, h) == Expected(lo, hi - 1, ink, width, h)
  {
    EmittedStep(lo, hi, width);
  }

  /**
   * Code points are cast to char, so two of them can name the same char; the
   * reader keeps the first glyph, which is the same glyph because the packed
   * grid depends on the char alone.
   */
  lemma ExpectedStep(lo: int, hi: int, ink: Ink, width: Char -> nat, h: nat)
    requires lo < hi
    ensures var c := ToChar(hi - 1);
            && (width(c) > 0 ==>
                  Expected(lo, hi, ink, width, h) ==
                  PutIfAbsent(Expected(lo, hi - 1, ink, width, h), c, CharGlyph(c, ink, width, h)).0)
            && (width(c) == 0 ==> Expected(lo, hi, ink, width, h) == Expected(lo, hi - 1, ink, width, h))
  {
    var c := ToChar(hi - 1);
    if width(c) > 0 {
      ExpectedGrows(lo, hi, ink, width, h);
      PutAgreeing(Expected(lo, hi - 1, ink, width, h), c, CharGlyph(c, ink, width, h));
    } else {
      ExpectedSame(lo, hi, ink, width, h);
    }
  }

  /** A state in the glyph section: the font exists, no glyph is open, the loop runs on. */
  predicate InGlyphs(st: ReaderState) {
    st.font.Some? && st.open.None? && !st.stopped
  }

  /** The state once the table holds Expected for lo .. hi - 1. */
  function HoldingExpected(st: ReaderState, lo: int, hi: int, ink: Ink, width: Char -> nat, h: nat): ReaderState
    requires st.font.Some?
  {
    st.(font := Some(st.font.value.(chars := Expected(lo, hi, ink, width, h))))
  }

  /** The block of code point hi - 1 moves the table from Expected(lo, hi - 1) to Expected(lo, hi). */
  lemma ReadNextGlyph(st: ReaderState, lo: int, hi: int, ink: Ink, width: Char -> nat, h: nat, comments: bool)
    requires InGlyphs(st) && lo < hi && IsInt32(hi - 1)
    ensures RunFrom(HoldingExpected(st, lo, hi - 1, ink, width, h), CharBlock(hi - 1, ink, width, h, comments)) ==
            HoldingExpected(st, lo, hi, ink, width, h)
  {
    var mid := HoldingExpected(st, lo, hi - 1, ink, width, h);
    var c := ToChar(hi - 1);
    ExpectedStep(lo, hi, ink, width, h);
    if width(c) > 0 {
      ReadBlock(mid, hi - 1, Packed(ink, c, width(c), h), ByteHeight(h), comments);
    } else {
      RunEmpty(mid);
    }
  }

  /** The blocks for lo .. hi - 1, read into an empty table, give exactly Expected. */
  lemma {:induction false} ReadGlyphs(st: ReaderState, lo: int, hi: int, ink: Ink, width: Char -> nat,
                                      h: nat, comments: bool)
    requires InGlyphs(st) && st.font.value.chars == map[]
    requires IsInt32(lo) && IsInt32(hi)
    ensures RunFrom(st, Glyphs(lo, hi, ink, width, h, comments)) == HoldingExpected(st, lo, hi, ink, width, h)
    decreases hi - lo
  {
    if hi <= lo {
      assert Emitted(lo, hi, width) == {};
      assert Expected(lo, hi, ink, width, h) == map[];
      RunEmpty(st);
    } else {
      ReadGlyphs(st, lo, hi - 1, ink, width, h, comments);
      RunThen(st, Glyphs(lo, hi - 1, ink, width, h, comments), CharBlock(hi - 1, ink, width, h, comments),
              HoldingExpected(st, lo, hi - 1, ink, width, h));
      ReadNextGlyph(st, lo, hi, ink, width, h, comments);
    }
  }

  // ---------------------------------------------------------------- the whole file

  /**
   * loadByteFont reads back what the generator writes: the metadata it put in
   * the header and, for every char some code point of the range gave a block,
   * the transposed packing of that char's picture.
   */
  lemma GeneratedFileReadsBack(order: seq<string>, name: string, size: int, style: int, h: nat,
                               lo: int, hi: int, ink: Ink, width: Char -> nat, comments: bool)
    requires Enumerates(order, META_KEYS)
    requires GoodName(name) && 0 < size && IsInt32(size) && 0 < style && IsInt32(style) && IsInt32(h)
    requires IsInt32(lo) && IsInt32(hi)
    ensures Decode(Encoding(order, name, size, style, h, lo, hi, ink, width, comments)) ==
            Some(FontInfo(name, size, style, h, Expected(lo, hi, ink, width, h)))
  {
    var meta := GeneratorMeta(name, size, style, h);
    var header := Header(order, meta);
    var glyphs := Glyphs(lo, hi, ink, width, h, comments);
    var st := ReaderState(Some(FontInfo(name, size, style, h, map[])), Some(meta), None, false);
    ReadHeader(order, name, size, style, h);
    RunThen(INIT, header, glyphs, st);
    ReadGlyphs(st, lo, hi, ink, width, h, comments);
  }

  /**
   * The read-back table in pixel terms: a char is present exactly when some
   * code point of the range names it and its glyph has a column, and bit
   * (y & 7) of byte x of row y >> 3 is set exactly when pixel (x, y) was black.
   */
  lemma DecodedPixels(lo: int, hi: int, ink: Ink, width: Char -> nat, h: nat)
    ensures forall c :: c in Expected(lo, hi, ink, width, h) <==>
              exists i :: lo <= i < hi && ToChar(i) == c && width(c) > 0
    ensures forall c, x, y :: c in Expected(lo, hi, ink, width, h) && 0 <= x < width(c) && 0 <= y < h ==>
              var rows := Expected(lo, hi, ink, width, h)[c];
              y / 8 < |rows| && |rows[y / 8]| == width(c) && (Bit(rows[y / 8][x], y % 8) <==> ink(c, x, y))
  {
    var e := Expected(lo, hi, ink, width, h);
    forall c | c in e
      ensures forall x, y :: 0 <= x < width(c) && 0 <= y < h ==>
                y / 8 < |e[c]| && |e[c][y / 8]| == width(c) && (Bit(e[c][y / 8][x], y % 8) <==> ink(c, x, y))
    {
      PackedPixels(ink, c, width(c), h);
    }
    forall c | exists i :: lo <= i < hi && ToChar(i) == c && width(c) > 0
      ensures c in e
    {
      var i :| lo <= i < hi && ToChar(i) == c && width(c) > 0;
      assert c in Emitted(lo, hi, width);
    }
  }
}
