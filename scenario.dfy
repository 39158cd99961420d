/**
 * A worked file: the header of an Arial font and one block for 'A' with the
 * rows `1;2` and `ff;0`. The reader keeps each text line as one row, so the
 * glyph it stores is row-major.
 */
module Scenario {
  import opened Wrappers
  import opened JavaText
  import opened ByteFontModel
  import opened ByteFontReader
  import opened ByteFontGenerator
  import opened RoundTrip

  const ORDER: seq<string> := ["name", "size", "style", "height"]

  /** The packed grid for 'A', column by column. */
  const COLUMNS: seq<seq<Byte>> := [[0x01, 0xff], [0x02, 0x00]]

  lemma Decimals()
    ensures IntToString(10) == "10" && IntToString(1) == "1" && IntToString(14) == "14" && IntToString(65) == "65"
  {
  }

  lemma UpperKeys()
    ensures ToUpper("name") == "NAME" && ToUpper("size") == "SIZE"
    ensures ToUpper("style") == "STYLE" && ToUpper("height") == "HEIGHT"
  {
  }

  lemma ScenarioMeta()
    ensures var m := GeneratorMeta("Arial", 10, 1, 14);
            m["name"] == "Arial" && m["size"] == "10" && m["style"] == "1" && m["height"] == "14"
  {
    Decimals();
  }

  lemma ScenarioEntries()
    ensures var m := GeneratorMeta("Arial", 10, 1, 14);
            && MetaEntryLine("name", m["name"]) == "  NAME Arial"
            && MetaEntryLine("size", m["size"]) == "  SIZE 10"
            && MetaEntryLine("style", m["style"]) == "  STYLE 1"
            && MetaEntryLine("height", m["height"]) == "  HEIGHT 14"
  {
    ScenarioMeta();
    UpperKeys();
    assert MetaEntryLine("name", "Arial") == "  NAME Arial";
    assert MetaEntryLine("size", "10") == "  SIZE 10";
    assert MetaEntryLine("style", "1") == "  STYLE 1";
  }

  lemma ScenarioHeader()
    ensures Enumerates(ORDER, META_KEYS)
    ensures MetaEntryLines(ORDER, GeneratorMeta("Arial", 10, 1, 14)) ==
            ["  NAME Arial", "  SIZE 10", "  STYLE 1", "  HEIGHT 14"]
  {
    var m := GeneratorMeta("Arial", 10, 1, 14);
    ScenarioEntries();
    var o1, o2, o3 := ["name"], ["name", "size"], ["name", "size", "style"];
    assert o1[..0] == [] && o2[..1] == o1 && o3[..2] == o2 && ORDER[..3] == o3;
    assert MetaEntryLines(o1, m) == ["  NAME Arial"];
    assert MetaEntryLines(o2, m) == ["  NAME Arial", "  SIZE 10"];
    assert MetaEntryLines(o3, m) == ["  NAME Arial", "  SIZE 10", "  STYLE 1"];
  }

  lemma ScenarioJoins()
    ensures Join(["1", "2"]) == "1;2" && Join(["ff", "0"]) == "ff;0"
  {
    assert ["1", "2"][..1] == ["1"];
    assert ["ff", "0"][..1] == ["ff"];
  }

  lemma ScenarioTokens()
    ensures IsGrid(COLUMNS, 2)
    ensures RowTokens(COLUMNS, 0) == ["1", "2"] && RowTokens(COLUMNS, 1) == ["ff", "0"]
  {
    assert HexToken(1) == "1" && HexToken(2) == "2" && HexToken(0xff) == "ff" && HexToken(0) == "0";
  }

  lemma ScenarioRows()
    ensures IsGrid(COLUMNS, 2)
    ensures RowLines(COLUMNS, 2) == ["  1;2", "  ff;0"]
    ensures Transpose(COLUMNS, 2) == [[0x01, 0x02], [0xff, 0x00]]
  {
    ScenarioTokens();
    ScenarioJoins();
    assert RowText(COLUMNS, 0) == "  1;2" && RowText(COLUMNS, 1) == "  ff;0";
    var t := Transpose(COLUMNS, 2);
    assert t[0] == [0x01, 0x02] && t[1] == [0xff, 0x00];
  }

  const LINES: seq<string> := ["META_BEGIN", "  NAME Arial", "  SIZE 10", "  STYLE 1", "  HEIGHT 14", "META_END", "",
                                "BEGIN 65", "  1;2", "  ff;0", "END"]

  /** The generator writes exactly LINES for this font. */
  lemma ScenarioText()
    ensures Enumerates(ORDER, META_KEYS) && IsGrid(COLUMNS, 2)
    ensures Header(ORDER, GeneratorMeta("Arial", 10, 1, 14)) + Block(65, COLUMNS, 2, false) == LINES
  {
    ScenarioHeader();
    ScenarioRows();
    Decimals();
    var header := Header(ORDER, GeneratorMeta("Arial", 10, 1, 14));
    var block := Block(65, COLUMNS, 2, false);
    assert header == LINES[..7];
    ScenarioBlock();
    assert LINES == LINES[..7] + LINES[7..];
  }

  lemma ScenarioBlock()
    ensures IsGrid(COLUMNS, 2) && Block(65, COLUMNS, 2, false) == LINES[7..]
  {
    ScenarioRows();
    Decimals();
    assert "BEGIN " + IntToString(65) == "BEGIN 65";
    assert LINES[7..] == ["BEGIN 65"] + ["  1;2", "  ff;0"] + ["END"];
  }

  /** Committing 'A' into the empty font stores its rows under the key 65. */
  lemma ScenarioCommit()
    ensures Commit(FontInfo("Arial", 10, 1, 14, map[]), OpenGlyph(ToChar(65), [[0x01, 0x02], [0xff, 0x00]])) ==
            FontInfo("Arial", 10, 1, 14, map['A' as int := [[0x01, 0x02], [0xff, 0x00]]])
  {
    assert ToChar(65) == 'A' as int;
  }

  /**
   * The file reads back as Arial, size 10, style 1, height 14, holding one
   * glyph: 'A' with rows [0x01, 0x02] and [0xff, 0x00], in the order of the
   * text lines and not transposed.
   */
  lemma ScenarioDecodes()
    ensures Decode(LINES) == Some(FontInfo("Arial", 10, 1, 14, map['A' as int := [[0x01, 0x02], [0xff, 0x00]]]))
  {
    var meta := GeneratorMeta("Arial", 10, 1, 14);
    ScenarioText();
    ScenarioRows();
    ScenarioCommit();
    var header := Header(ORDER, meta);
    var block := Block(65, COLUMNS, 2, false);
    var st := ReaderState(Some(FontInfo("Arial", 10, 1, 14, map[])), Some(meta), None, false);
    ReadHeader(ORDER, "Arial", 10, 1, 14);
    ReadBlock(st, 65, COLUMNS, 2, false);
    RunThen(INIT, header, block, st);
  }

  /** The same file as ten plain lines: no indent and no blank line after META_END. */
  const PLAIN_LINES: seq<string> := ["META_BEGIN", "NAME Arial", "SIZE 10", "STYLE 1", "HEIGHT 14", "META_END",
                                     "BEGIN 65", "1;2", "ff;0", "END"]

  /** The font the scenario describes. */
  const ARIAL_A: FontInfo := FontInfo("Arial", 10, 1, 14, map['A' as int := [[0x01, 0x02], [0xff, 0x00]]])

  /** A plain line and its place in the generator's file, with or without the indent, trim alike. */
  lemma LineTrims(p: string, q: string)
    requires p != [] && Trimmed(p) && (q == p || q == "  " + p)
    ensures Trim(p) == Trim(q)
  {
    TrimOfTrimmed(p);
    if q != p {
      TrimIndented(p);
    }
  }

  /** Where each plain line stands in the generator's file, once the blank line is dropped. */
  lemma PlainPlaces(plain: seq<string>, squeezed: seq<string>, i: nat)
    requires plain == PLAIN_LINES && squeezed == LINES[..6] + LINES[7..] && i < |plain|
    ensures plain[i] != [] && Trimmed(plain[i]) && (squeezed[i] == plain[i] || squeezed[i] == "  " + plain[i])
  {
    assert squeezed == ["META_BEGIN", "  NAME Arial", "  SIZE 10", "  STYLE 1", "  HEIGHT 14", "META_END",
                        "BEGIN 65", "  1;2", "  ff;0", "END"];
  }

  lemma SeqExt<T>(a: seq<T>, b: seq<T>)
    requires |a| == |b| && forall i :: 0 <= i < |a| ==> a[i] == b[i]
    ensures a == b
  {
  }

  /** Each plain line trims like the generator's line in the same place, once the blank line is dropped. */
  lemma PlainTrims(plain: seq<string>, squeezed: seq<string>)
    requires plain == PLAIN_LINES && squeezed == LINES[..6] + LINES[7..]
    ensures Trims(plain) == Trims(squeezed)
  {
    var tp, tq := Trims(plain), Trims(squeezed);
    forall i | 0 <= i < |tp|
      ensures tp[i] == tq[i]
    {
      PlainPlaces(plain, squeezed, i);
      TrimsAt(plain, i);
      TrimsAt(squeezed, i);
      LineTrims(plain[i], squeezed[i]);
    }
    SeqExt(tp, tq);
  }

  /** The line after META_END is the blank one the reader skips. */
  lemma BlankAfterMeta()
    ensures 6 < |LINES| && Skipped(Trim(LINES[6]))
  {
    assert LINES[6] == "";
  }

  /** The plain lines read back to the same font as the generator's lines. */
  lemma PlainScenarioDecodes(plain: seq<string>)
    requires plain == PLAIN_LINES
    ensures Decode(plain) == Some(ARIAL_A)
  {
    var rest := PlainFacts(plain, LINES);
    ReindentedRun(INIT, LINES, 6, rest, plain);
    ScenarioDecodes();
  }

  /** The plain lines are the generator's lines with the blank line 6 dropped and the indent removed. */
  lemma PlainFacts(plain: seq<string>, lines: seq<string>) returns (rest: seq<string>)
    requires plain == PLAIN_LINES && lines == LINES
    ensures 6 < |lines| && Skipped(Trim(lines[6])) && rest == lines[..6] + lines[7..] && Trims(plain) == Trims(rest)
  {
    rest := lines[..6] + lines[7..];
    BlankAfterMeta();
    PlainTrims(plain, rest);
  }

  /** That font has one character, 'A', and getHeight returns its stored height 14. */
  lemma ArialOneChar()
    ensures ARIAL_A.chars.Keys == {'A' as int} && |ARIAL_A.chars| == 1 && ARIAL_A.height == 14
  {
    assert ARIAL_A.chars.Keys == {'A' as int};
  }
}
