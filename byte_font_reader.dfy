/**
 * The byte-font decoder: the line loop of ByteFontReader.loadByteFont over
 * lines already read from the file, as a state machine (Step, RunFrom, Decode)
 * and as the loop itself (LoadByteFont), proved to agree.
 */
module ByteFontReader {
  import opened Wrappers
  import opened JavaText
  import opened ByteFontModel

  /** The glyph being read: the loop's `c` and `bytes`, which are null together. */
  datatype OpenGlyph = OpenGlyph(c: Char, rows: Glyph)

  /**
   * The loop's state: `result` (the font built at META_END), `meta` (the entries
   * collected since META_BEGIN), the open glyph, and whether the loop broke off.
   */
  datatype ReaderState = ReaderState(
    font: Option<FontInfo>,
    meta: Option<map<string, string>>,
    open: Option<OpenGlyph>,
    stopped: bool)

  const INIT: ReaderState := ReaderState(None, None, None, false)

  /** A trimmed line the loop skips with `continue`. */
  predicate Skipped(line: string) {
    StartsWith(line, "#") || line == ""
  }

  /**
   * The row a glyph line denotes: every `;`-token parsed in base 16 and cast to
   * byte, or None when some token throws.
   */
  function RowSpec(line: string): Option<seq<Byte>> {
    var tokens := JavaSplit(line, ';');
    if AllHex(tokens) then Some(RowBytes(tokens)) else None
  }

  predicate AllHex(tokens: seq<string>) {
    forall i :: 0 <= i < |tokens| ==> ParseInt(tokens[i], 16).Some?
  }

  /**
   * The bytes `(byte) Integer.parseInt(t, 16)` of the tokens, in order. The
   * ensures only expose the comprehension element by element; ReadRow and
   * RoundTrip.RowParses state what the row means.
   */
  function RowBytes(tokens: seq<string>): (row: seq<Byte>)
    requires AllHex(tokens)
    ensures |row| == |tokens|
    ensures forall i :: 0 <= i < |tokens| ==> row[i] == ToByte(ParseInt(tokens[i], 16).value)
  {
    seq(|tokens|, i requires 0 <= i < |tokens| => ToByte(ParseInt(tokens[i], 16).value))
  }

  /** The font after addChar(c, rows); its return value is dropped by the reader. */
  function Commit(f: FontInfo, g: OpenGlyph): FontInfo {
    f.(chars := PutIfAbsent(f.chars, g.c, g.rows).0)
  }

  /** One iteration of the loop on the raw line `raw`. */
  function Step(st: ReaderState, raw: string): ReaderState {
    var line := Trim(raw);
    if Skipped(line) then st
    else if st.font.None? then MetaStep(st, line)
    else GlyphStep(st, line)
  }

  /** A non-skipped line while no font exists yet (`result == null`). */
  function MetaStep(st: ReaderState, line: string): ReaderState {
    if line == "META_BEGIN" then st.(meta := Some(map[]))
    else if line == "META_END" then
      match FromMetaSpec(st.meta)
      case Some(f) => st.(font := Some(f))
      case None => st.(stopped := true)
    else if st.meta.Some? then
      match SplitFirstSpace(line)
      case Some(kv) => st.(meta := Some(st.meta.value[ToLower(kv.0) := kv.1]))
      case None => st
    else st
  }

  /** A non-skipped line once the font exists. */
  function GlyphStep(st: ReaderState, line: string): ReaderState
    requires st.font.Some?
  {
    if StartsWith(line, "BEGIN ") then
      match ParseInt(RemoveAll(line, "BEGIN "), 10)
      case Some(n) => st.(open := Some(OpenGlyph(ToChar(n), [])))
      case None => st
    else if line == "END" then
      if st.open.Some? then st.(font := Some(Commit(st.font.value, st.open.value)), open := None)
      else st.(open := None)
    else if st.open.Some? then
      match RowSpec(line)
      case Some(row) => st.(open := Some(st.open.value.(rows := st.open.value.rows + [row])))
      case None => st.(open := None)
    else st
  }

  /** The loop from state `st` over `lines`, ending early once it has broken off. */
  function RunFrom(st: ReaderState, lines: seq<string>): ReaderState
    decreases |lines|
  {
    if lines == [] || st.stopped then st else RunFrom(Step(st, lines[0]), lines[1..])
  }

  /** loadByteFont's result for a file with these lines; None is null. */
  function Decode(lines: seq<string>): Option<FontInfo> {
    RunFrom(INIT, lines).font
  }

  // ---------------------------------------------------------------- the loop

  /** The parse of one glyph line into `lineBytes`. */
  method ReadRow(line: string) returns (row: Option<seq<Byte>>)
    ensures row == RowSpec(line)
  {
    var strBytes := JavaSplit(line, ';');
    var lineBytes := new Byte[|strBytes|];
    for i := 0 to |strBytes|
      invariant AllHex(strBytes[..i])
      invariant lineBytes[..i] == RowBytes(strBytes[..i])
    {
      var cInt := ParseInt(strBytes[i], 16);
      if cInt.None? {
        assert !AllHex(strBytes);
        return None;
      }
      lineBytes[i] := ToByte(cInt.value);
      RowBytesSnoc(strBytes, i, lineBytes[..i + 1]);
    }
    assert strBytes[..|strBytes|] == strBytes;
    assert lineBytes[..] == lineBytes[..|strBytes|];
    return Some(lineBytes[..]);
  }

  /** One more parsed token extends the row by its byte. */
  lemma RowBytesSnoc(ts: seq<string>, i: nat, bs: seq<Byte>)
    requires i < |ts| && AllHex(ts[..i]) && ParseInt(ts[i], 16).Some?
    requires |bs| == i + 1 && bs[..i] == RowBytes(ts[..i]) && bs[i] == ToByte(ParseInt(ts[i], 16).value)
    ensures AllHex(ts[..i + 1]) && bs == RowBytes(ts[..i + 1])
  {
    assert forall k :: 0 <= k < i ==> ts[..i + 1][k] == ts[..i][k];
  }

  function FontOf(result: ByteFont?): Option<FontInfo>
    reads result
  {
    if result == null then None else Some(result.Info())
  }

  /** ByteFontReader.loadByteFont over the file's lines; null when no font was built. */
  method LoadByteFont(lines: seq<string>) returns (result: ByteFont?)
    ensures result == null <==> Decode(lines).None?
    ensures result != null ==> fresh(result) && result.Info() == Decode(lines).value
  {
    result := null;
    var meta: Option<map<string, string>> := None;
    var open: Option<OpenGlyph> := None;
    var i := 0;
    while i < |lines|
      invariant 0 <= i <= |lines|
      invariant result != null ==> fresh(result)
      invariant RunFrom(INIT, lines) == RunFrom(ReaderState(FontOf(result), meta, open, false), lines[i..])
    {
      ghost var before := ReaderState(FontOf(result), meta, open, false);
      assert RunFrom(before, lines[i..]) == RunFrom(Step(before, lines[i]), lines[i + 1..]);
      var line := Trim(lines[i]);
      if StartsWith(line, "#") || line == "" {
      } else if result == null {
        if line == "META_BEGIN" {
          meta := Some(map[]);
        } else if line == "META_END" {
          var tmpResult := ByteFont.FromMeta(meta);
          if tmpResult != null {
            result := tmpResult;
          } else {
            assert RunFrom(INIT, lines) == before.(stopped := true);
            break;
          }
        } else if meta.Some? {
          var kv := SplitFirstSpace(line);
          if kv.Some? {
            meta := Some(meta.value[ToLower(kv.value.0) := kv.value.1]);
          }
        }
      } else {
        if StartsWith(line, "BEGIN ") {
          var cInt := ParseInt(RemoveAll(line, "BEGIN "), 10);
          if cInt.Some? {
            open := Some(OpenGlyph(ToChar(cInt.value), []));
          }
        } else if line == "END" {
          if open.Some? {
            var _ := result.AddChar(open.value.c, open.value.rows);
          }
          open := None;
        } else if open.Some? {
          var lineBytes := ReadRow(line);
          if lineBytes.Some? {
            open := Some(open.value.(rows := open.value.rows + [lineBytes.value]));
          } else {
            open := None;
          }
        }
      }
      i := i + 1;
    }
  }

  // ---------------------------------------------------------------- properties

  /** Running over two pieces of input is running over the first, then the second. */
  lemma {:induction false} RunFromAppend(st: ReaderState, a: seq<string>, b: seq<string>)
    ensures RunFrom(st, a + b) == RunFrom(RunFrom(st, a), b)
    decreases |a|
  {
    if a != [] && !st.stopped {
      assert (a + b)[1..] == a[1..] + b;
      RunFromAppend(Step(st, a[0]), a[1..], b);
    } else if a == [] {
      assert a + b == b;
    } else {
      RunFromStopped(st, b);
      RunFromStopped(st, a + b);
    }
  }

  lemma RunFromStopped(st: ReaderState, lines: seq<string>)
    requires st.stopped
    ensures RunFrom(st, lines) == st
  {
  }

  lemma StepSkipped(st: ReaderState, raw: string)
    requires Skipped(Trim(raw))
    ensures Step(st, raw) == st
  {
  }

  /** The loop over one line is one step, unless it has already broken off. */
  lemma RunFromOne(st: ReaderState, raw: string)
    ensures RunFrom(st, [raw]) == if st.stopped then st else Step(st, raw)
  {
    if !st.stopped {
      assert RunFrom(st, [raw]) == RunFrom(Step(st, raw), []);
    }
  }

  /** The loop over a non-empty input that has not broken off takes its first step. */
  lemma RunFromCons(st: ReaderState, lines: seq<string>)
    requires lines != [] && !st.stopped
    ensures RunFrom(st, lines) == RunFrom(Step(st, lines[0]), lines[1..])
  {
  }

  /** A line that leaves the state reached before it unchanged can be dropped from the input. */
  lemma InertLine(a: seq<string>, raw: string, b: seq<string>)
    requires RunFrom(RunFrom(INIT, a), [raw]) == RunFrom(INIT, a)
    ensures Decode(a + [raw] + b) == Decode(a + b)
  {
    RunFromAppend(INIT, a + [raw], b);
    RunFromAppend(INIT, a, [raw]);
    RunFromAppend(INIT, a, b);
  }

  /** A blank line or a `#` comment changes nothing, wherever it stands. */
  lemma SkippedLineInert(a: seq<string>, raw: string, b: seq<string>)
    requires Skipped(Trim(raw))
    ensures Decode(a + [raw] + b) == Decode(a + b)
  {
    var st := RunFrom(INIT, a);
    StepSkipped(st, raw);
    RunFromOne(st, raw);
    InertLine(a, raw, b);
  }

  /** The trimmed text of every line, in order: all the loop looks at. */
  function Trims(lines: seq<string>): (ts: seq<string>)
    ensures |ts| == |lines|
  {
    if lines == [] then [] else [Trim(lines[0])] + Trims(lines[1..])
  }

  /** Line i of the trimmed text is line i trimmed. */
  lemma {:induction false} TrimsAt(lines: seq<string>, i: nat)
    requires i < |lines|
    ensures Trims(lines)[i] == Trim(lines[i])
    decreases i
  {
    if i > 0 {
      TrimsAt(lines[1..], i - 1);
    }
  }

  /** The loop sees only trimmed lines: files whose lines trim alike read alike. */
  lemma {:induction false} SameTrimSameRun(st: ReaderState, a: seq<string>, b: seq<string>)
    requires Trims(a) == Trims(b)
    ensures RunFrom(st, a) == RunFrom(st, b)
    decreases |a|
  {
    if a != [] && !st.stopped {
      var ta, tb := Trims(a), Trims(b);
      assert ta[0] == tb[0] && ta[1..] == tb[1..];
      assert ta[1..] == Trims(a[1..]) && tb[1..] == Trims(b[1..]);
      StepSeesTrim(st, a[0], b[0]);
      RunFromCons(st, a);
      RunFromCons(st, b);
      SameTrimSameRun(Step(st, a[0]), a[1..], b[1..]);
    }
  }

  /** Re-indenting lines and dropping a blank or comment line does not change what the loop computes. */
  lemma ReindentedRun(st: ReaderState, lines: seq<string>, k: nat, rest: seq<string>, plain: seq<string>)
    requires k < |lines| && Skipped(Trim(lines[k])) && rest == lines[..k] + lines[k + 1..]
    requires Trims(plain) == Trims(rest)
    ensures RunFrom(st, plain) == RunFrom(st, lines)
  {
    var a, b := lines[..k], lines[k + 1..];
    Around(lines, k);
    RunFromAppend(st, a + [lines[k]], b);
    RunFromAppend(st, a, [lines[k]]);
    RunFromAppend(st, a, b);
    StepSkipped(RunFrom(st, a), lines[k]);
    RunFromOne(RunFrom(st, a), lines[k]);
    SameTrimSameRun(st, plain, rest);
  }

  lemma Around<T>(s: seq<T>, k: nat)
    requires k < |s|
    ensures s[..k] + [s[k]] + s[k + 1..] == s
  {
  }

  lemma StepSeesTrim(st: ReaderState, x: string, y: string)
    requires Trim(x) == Trim(y)
    ensures Step(st, x) == Step(st, y)
  {
    var t := Trim(x);
    assert Step(st, x) == if Skipped(t) then st else if st.font.None? then MetaStep(st, t) else GlyphStep(st, t);
    assert Step(st, y) == if Skipped(t) then st else if st.font.None? then MetaStep(st, t) else GlyphStep(st, t);
  }

  lemma PrefixOfPrefix<T>(s: seq<T>, n: nat, i: nat)
    requires i < n <= |s|
    ensures s[..n][..i] == s[..i] && s[..n][i] == s[i]
  {
  }

  /** Where a font can come from within one step. */
  lemma StepCreatesFont(st: ReaderState, raw: string)
    requires st.font.None? && Step(st, raw).font.Some?
    ensures Trim(raw) == "META_END" && FromMetaSpec(st.meta).Some?
  {
    var line := Trim(raw);
    assert !Skipped(line);
    assert Step(st, raw) == MetaStep(st, line);
  }

  /**
   * A font is produced only by a META_END line at which fromMeta succeeds on
   * the entries collected before it; so a file without one decodes to null.
   */
  lemma {:induction false} DecodeNeedsMetaEnd(lines: seq<string>)
    requires Decode(lines).Some?
    ensures exists i :: 0 <= i < |lines| && Trim(lines[i]) == "META_END" &&
                        RunFrom(INIT, lines[..i]).font.None? &&
                        FromMetaSpec(RunFrom(INIT, lines[..i]).meta).Some?
  {
    assert lines != [] by { assert RunFrom(INIT, []) == INIT; }
    var init, last := lines[..|lines| - 1], lines[|lines| - 1];
    assert lines == init + [last];
    RunFromAppend(INIT, init, [last]);
    var st := RunFrom(INIT, init);
    if st.font.Some? {
      DecodeNeedsMetaEnd(init);
      var i :| 0 <= i < |init| && Trim(init[i]) == "META_END" &&
               RunFrom(INIT, init[..i]).font.None? &&
               FromMetaSpec(RunFrom(INIT, init[..i]).meta).Some?;
      PrefixOfPrefix(lines, |lines| - 1, i);
    } else {
      RunFromOne(st, last);
      assert !st.stopped;
      StepCreatesFont(st, last);
      assert lines[..|lines| - 1] == init;
    }
  }

  lemma StepFailedMetaEnd(st: ReaderState, raw: string)
    requires st.font.None? && Trim(raw) == "META_END" && FromMetaSpec(st.meta).None?
    ensures Step(st, raw).stopped && Step(st, raw).font.None?
  {
    assert !Skipped(Trim(raw));
  }

  /** A META_END at which fromMeta fails ends the loop: the result is null whatever follows. */
  lemma FailedMetaEndIsFatal(a: seq<string>, raw: string, b: seq<string>)
    requires RunFrom(INIT, a).font.None? && !RunFrom(INIT, a).stopped
    requires Trim(raw) == "META_END" && FromMetaSpec(RunFrom(INIT, a).meta).None?
    ensures Decode(a + [raw] + b).None?
  {
    var st := RunFrom(INIT, a);
    RunFromAppend(INIT, a + [raw], b);
    RunFromAppend(INIT, a, [raw]);
    StepFailedMetaEnd(st, raw);
    RunFromOne(st, raw);
    RunFromStopped(Step(st, raw), b);
  }

  /** A META_END before any META_BEGIN finds a null map, so the result is null. */
  lemma MetaEndWithoutBegin(raw: string, b: seq<string>)
    requires Trim(raw) == "META_END"
    ensures Decode([raw] + b).None?
  {
    assert RunFrom(INIT, []) == INIT;
    FailedMetaEndIsFatal([], raw, b);
  }

  /** While collecting metadata: META_BEGIN restarts, `key value` records, a line without a space is ignored. */
  lemma MetaLine(st: ReaderState, raw: string)
    requires st.font.None? && st.meta.Some?
    requires !Skipped(Trim(raw)) && Trim(raw) != "META_END"
    ensures var line := Trim(raw);
            && (line == "META_BEGIN" ==> Step(st, raw) == st.(meta := Some(map[])))
            && (line != "META_BEGIN" && ' ' !in line ==> Step(st, raw) == st)
            && (line != "META_BEGIN" && ' ' in line ==>
                  exists key, value :: line == key + " " + value && ' ' !in key &&
                                       Step(st, raw) == st.(meta := Some(st.meta.value[ToLower(key) := value])))
  {
    var line := Trim(raw);
    if line != "META_BEGIN" && ' ' in line {
      var kv := SplitFirstSpace(line).value;
      assert Step(st, raw) == st.(meta := Some(st.meta.value[ToLower(kv.0) := kv.1]));
    }
  }

  /** After the font exists, `BEGIN n` opens glyph (char) n with no rows, or changes nothing when n does not parse. */
  lemma BeginLine(st: ReaderState, raw: string)
    requires st.font.Some? && StartsWith(Trim(raw), "BEGIN ")
    ensures var n := ParseInt(RemoveAll(Trim(raw), "BEGIN "), 10);
            && (n.Some? ==> Step(st, raw) == st.(open := Some(OpenGlyph(ToChar(n.value), []))))
            && (n.None? ==> Step(st, raw) == st)
  {
    var line := Trim(raw);
    assert line[..6] == "BEGIN ";
    assert !Skipped(line) by { assert line[0] == 'B'; }
    StepInGlyphs(st, raw);
    GlyphBeginLine(st, line);
  }

  lemma GlyphBeginLine(st: ReaderState, line: string)
    requires st.font.Some? && StartsWith(line, "BEGIN ")
    ensures var n := ParseInt(RemoveAll(line, "BEGIN "), 10);
            && (n.Some? ==> GlyphStep(st, line) == st.(open := Some(OpenGlyph(ToChar(n.value), []))))
            && (n.None? ==> GlyphStep(st, line) == st)
  {
  }

  /**
   * Inside an open glyph, a line whose tokens all parse appends exactly one row
   * holding the tokens' bytes in order; a bad token discards the glyph.
   */
  lemma RowLine(st: ReaderState, raw: string)
    requires st.font.Some? && st.open.Some?
    requires var line := Trim(raw); !Skipped(line) && !StartsWith(line, "BEGIN ") && line != "END"
    ensures var tokens := JavaSplit(Trim(raw), ';');
            && ((forall i :: 0 <= i < |tokens| ==> ParseInt(tokens[i], 16).Some?) ==>
                  exists row ::
                    && Step(st, raw) == st.(open := Some(st.open.value.(rows := st.open.value.rows + [row])))
                    && |row| == |tokens|
                    && forall i :: 0 <= i < |tokens| ==> row[i] == ToByte(ParseInt(tokens[i], 16).value))
            && ((exists i :: 0 <= i < |tokens| && ParseInt(tokens[i], 16).None?) ==>
                  Step(st, raw) == st.(open := None))
  {
    GlyphRowLine(st, Trim(raw));
  }

  lemma GlyphRowLine(st: ReaderState, line: string)
    requires st.font.Some? && st.open.Some?
    requires !Skipped(line) && !StartsWith(line, "BEGIN ") && line != "END"
    ensures var tokens := JavaSplit(line, ';');
            && ((forall i :: 0 <= i < |tokens| ==> ParseInt(tokens[i], 16).Some?) ==>
                  exists row ::
                    && GlyphStep(st, line) == st.(open := Some(st.open.value.(rows := st.open.value.rows + [row])))
                    && |row| == |tokens|
                    && forall i :: 0 <= i < |tokens| ==> row[i] == ToByte(ParseInt(tokens[i], 16).value))
            && ((exists i :: 0 <= i < |tokens| && ParseInt(tokens[i], 16).None?) ==>
                  GlyphStep(st, line) == st.(open := None))
  {
  }

  /** Once the font exists, a line that is not skipped is handled by GlyphStep on its trimmed text. */
  lemma StepInGlyphs(st: ReaderState, raw: string)
    requires st.font.Some? && !Skipped(Trim(raw))
    ensures Step(st, raw) == GlyphStep(st, Trim(raw))
  {
  }

  /** With no glyph open, a line other than BEGIN and END changes nothing. */
  lemma ClosedStep(st: ReaderState, raw: string)
    requires st.font.Some? && st.open.None? && NoMarker(raw)
    ensures Step(st, raw) == st
  {
    ClosedGlyphStep(st, Trim(raw));
  }

  lemma ClosedGlyphStep(st: ReaderState, line: string)
    requires st.font.Some? && st.open.None?
    requires !StartsWith(line, "BEGIN ") && line != "END"
    ensures GlyphStep(st, line) == st
  {
  }

  /** A line that is neither BEGIN nor END once trimmed. */
  predicate NoMarker(raw: string) {
    !StartsWith(Trim(raw), "BEGIN ") && Trim(raw) != "END"
  }

  /** A glyph line that is not skipped, is no marker, and has a token that does not parse. */
  predicate BadRow(raw: string) {
    var line := Trim(raw);
    !Skipped(line) && !StartsWith(line, "BEGIN ") && line != "END" && RowSpec(line).None?
  }

  lemma ConsTail<T>(x: T, s: seq<T>)
    ensures ([x] + s)[1..] == s
  {
  }

  /** With no glyph open, lines other than BEGIN and END are ignored, however many. */
  lemma {:induction false} IgnoredWhileClosed(st: ReaderState, ls: seq<string>)
    requires st.font.Some? && st.open.None? && !st.stopped
    requires forall i :: 0 <= i < |ls| ==> NoMarker(ls[i])
    ensures RunFrom(st, ls) == st
    decreases |ls|
  {
    if ls != [] {
      ClosedStep(st, ls[0]);
      RunFromCons(st, ls);
      assert forall i :: 0 <= i < |ls[1..]| ==> ls[1..][i] == ls[i + 1];
      IgnoredWhileClosed(st, ls[1..]);
    }
  }

  /** END with no glyph open changes nothing. */
  lemma EndWhileClosed(st: ReaderState, end: string)
    requires st.font.Some? && st.open.None? && !st.stopped && Trim(end) == "END"
    ensures RunFrom(st, [end]) == st
  {
    RunFromOne(st, end);
    assert Step(st, end) == GlyphStep(st, "END");
  }

  /** Ignored lines and then END, with no glyph open, change nothing. */
  lemma IgnoredThenEnd(st: ReaderState, rows: seq<string>, end: string)
    requires st.font.Some? && st.open.None? && !st.stopped
    requires forall i :: 0 <= i < |rows| ==> NoMarker(rows[i])
    requires Trim(end) == "END"
    ensures RunFrom(st, rows + [end]) == st
  {
    RunFromAppend(st, rows, [end]);
    IgnoredWhileClosed(st, rows);
    EndWhileClosed(st, end);
  }

  /** A row that does not parse discards the open glyph. */
  lemma BadRowCloses(st: ReaderState, bad: string)
    requires st.font.Some? && st.open.Some? && BadRow(bad)
    ensures Step(st, bad) == st.(open := None)
  {
    StepInGlyphs(st, bad);
  }

  /** After a bad row, the rows that follow are ignored and the glyph's END commits nothing. */
  lemma BadRowThenEnd(st: ReaderState, bad: string, rows: seq<string>, end: string)
    requires st.font.Some? && st.open.Some? && !st.stopped
    requires BadRow(bad)
    requires forall i :: 0 <= i < |rows| ==> NoMarker(rows[i])
    requires Trim(end) == "END"
    ensures RunFrom(st, [bad] + (rows + [end])) == st.(open := None)
  {
    BadRowCloses(st, bad);
    RunFromCons(st, [bad] + (rows + [end]));
    ConsTail(bad, rows + [end]);
    IgnoredThenEnd(st.(open := None), rows, end);
  }

  /** A block whose first row is malformed leaves the whole state as it was. */
  lemma MalformedBlockInert(st: ReaderState, begin: string, bad: string, rows: seq<string>, end: string)
    requires st.font.Some? && st.open.None? && !st.stopped
    requires StartsWith(Trim(begin), "BEGIN ")
    requires BadRow(bad)
    requires forall i :: 0 <= i < |rows| ==> NoMarker(rows[i])
    requires Trim(end) == "END"
    ensures RunFrom(st, [begin] + ([bad] + (rows + [end]))) == st
  {
    var tail := [bad] + (rows + [end]);
    RunFromCons(st, [begin] + tail);
    ConsTail(begin, tail);
    BeginLine(st, begin);
    if Step(st, begin).open.Some? {
      BadRowThenEnd(Step(st, begin), bad, rows, end);
    } else {
      assert Step(st, begin) == st;
      BadRowIgnored(st, bad, rows, end);
    }
  }

  /** With no glyph open, a bad row is one more ignored line. */
  lemma BadRowIgnored(st: ReaderState, bad: string, rows: seq<string>, end: string)
    requires st.font.Some? && st.open.None? && !st.stopped
    requires BadRow(bad)
    requires forall i :: 0 <= i < |rows| ==> NoMarker(rows[i])
    requires Trim(end) == "END"
    ensures RunFrom(st, [bad] + (rows + [end])) == st
  {
    ClosedStep(st, bad);
    RunFromCons(st, [bad] + (rows + [end]));
    ConsTail(bad, rows + [end]);
    IgnoredThenEnd(st, rows, end);
  }

  /** END commits the open glyph first-writer-wins and closes it. */
  lemma EndLine(st: ReaderState, raw: string)
    requires st.font.Some? && Trim(raw) == "END"
    ensures Step(st, raw).open.None?
    ensures st.open.None? ==> Step(st, raw).font == st.font
    ensures st.open.Some? ==>
              var g := st.open.value;
              var was := st.font.value.chars;
              Step(st, raw).font == Some(st.font.value.(chars := if g.c in was then was else was[g.c := g.rows]))
  {
    assert !Skipped(Trim(raw)) && !StartsWith(Trim(raw), "BEGIN ");
    assert Step(st, raw) == GlyphStep(st, "END");
  }

  /** The table only grows, first writer winning, and the metadata stays. */
  predicate Extends(f: FontInfo, f': FontInfo) {
    && f'.(chars := f.chars) == f
    && (forall c :: c in f.chars ==> c in f'.chars && f'.chars[c] == f.chars[c])
  }

  lemma StepExtends(st: ReaderState, raw: string)
    requires st.font.Some?
    ensures Step(st, raw).font.Some? && Extends(st.font.value, Step(st, raw).font.value)
  {
    GlyphStepExtends(st, Trim(raw));
  }

  lemma GlyphStepExtends(st: ReaderState, line: string)
    requires st.font.Some?
    ensures GlyphStep(st, line).font.Some? && Extends(st.font.value, GlyphStep(st, line).font.value)
  {
    var f := st.font.value;
    var f' := GlyphStep(st, line).font.value;
    if line != "END" || st.open.None? || StartsWith(line, "BEGIN ") {
      assert f' == f;
    } else {
      assert f' == Commit(f, st.open.value);
    }
  }

  /**
   * Committed glyphs are never removed or replaced and the metadata is never
   * changed, so the character count never decreases.
   */
  lemma {:induction false} GlyphsPersist(st: ReaderState, lines: seq<string>)
    requires st.font.Some?
    ensures RunFrom(st, lines).font.Some?
    ensures Extends(st.font.value, RunFrom(st, lines).font.value)
    ensures |st.font.value.chars| <= |RunFrom(st, lines).font.value.chars|
    decreases |lines|
  {
    if lines != [] && !st.stopped {
      var next := Step(st, lines[0]);
      StepExtends(st, lines[0]);
      GlyphsPersist(next, lines[1..]);
      assert RunFrom(st, lines) == RunFrom(next, lines[1..]);
    }
    var f, f' := st.font.value, RunFrom(st, lines).font.value;
    assert f.chars.Keys <= f'.chars.Keys;
    CardinalitySubset(f.chars.Keys, f'.chars.Keys);
  }

  lemma CardinalitySubset<T>(a: set<T>, b: set<T>)
    requires a <= b
    ensures |a| <= |b|
  {
    assert b == a + (b - a);
  }

  /** A glyph still open when the input ends is dropped: without an END line the table does not change. */
  lemma {:induction false} NoEndNoCommit(st: ReaderState, lines: seq<string>)
    requires st.font.Some?
    requires forall i :: 0 <= i < |lines| ==> Trim(lines[i]) != "END"
    ensures RunFrom(st, lines).font == st.font
    decreases |lines|
  {
    if lines != [] && !st.stopped {
      var next := Step(st, lines[0]);
      StepKeepsFont(st, lines[0]);
      assert forall i :: 0 <= i < |lines[1..]| ==> lines[1..][i] == lines[i + 1];
      NoEndNoCommit(next, lines[1..]);
      RunFromCons(st, lines);
    }
  }

  /** Only END changes an existing font. */
  lemma StepKeepsFont(st: ReaderState, raw: string)
    requires st.font.Some? && Trim(raw) != "END"
    ensures Step(st, raw).font == st.font
  {
    GlyphStepKeepsFont(st, Trim(raw));
  }

  lemma GlyphStepKeepsFont(st: ReaderState, line: string)
    requires st.font.Some? && line != "END"
    ensures GlyphStep(st, line).font == st.font
  {
  }
}
