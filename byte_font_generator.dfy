/**
 * The byte-font encoder: ByteFontGenerator.getByteChar, which packs a rendered
 * character into bytes, and the writing of the font file in main. The rendered
 * image (AWT) is an input: `ink(c, x, y)` says whether pixel (x, y) of
 * character c is black, `width(c)` is its integer advance width.
 */
module ByteFontGenerator {
  import opened JavaText
  import opened ByteFontModel

  /** Whether pixel (x, y) of the rendering of a character is black. */
  type Ink = (Char, int, int) -> bool

  // ---------------------------------------------------------------- byte height

  /** Bytes per column for a line height of `h` pixels, by the formula as written. */
  function ByteHeight(h: nat): nat {
    if h % 8 > 0 then (h + 4) / 8 + 1 else h / 8
  }

  /** Whole bytes needed for `h` bits. */
  function CeilDiv8(h: nat): nat {
    (h + 7) / 8
  }

  /** Every pixel row has its byte: `y >> 3` is in range for each row below h. */
  lemma ByteHeightCovers(h: nat)
    ensures 8 * ByteHeight(h) >= h
    ensures forall y :: 0 <= y < h ==> y / 8 < ByteHeight(h)
  {
    forall y | 0 <= y < h
      ensures y / 8 < ByteHeight(h)
    {
      assert 8 * (y / 8) <= y;
    }
  }

  /**
   * The formula never gives less than the bytes needed and at most one more;
   * the extra byte appears exactly when h % 8 is 4, 5, 6 or 7.
   */
  lemma ByteHeightBounds(h: nat)
    ensures CeilDiv8(h) <= ByteHeight(h) <= CeilDiv8(h) + 1
    ensures ByteHeight(h) == CeilDiv8(h) + 1 <==> 4 <= h % 8 <= 7
  {
    var q, r := h / 8, h % 8;
    assert h == 8 * q + r;
    if r == 0 {
      assert CeilDiv8(h) == q && ByteHeight(h) == q;
    } else if r < 4 {
      assert (h + 4) / 8 == q && CeilDiv8(h) == q + 1;
    } else {
      assert (h + 4) / 8 == q + 1 && CeilDiv8(h) == q + 1;
    }
  }

  lemma ByteHeightValues()
    ensures ByteHeight(0) == 0 && ByteHeight(1) == 1 && ByteHeight(7) == 2 && ByteHeight(8) == 1
    ensures ByteHeight(9) == 2 && ByteHeight(15) == 3 && ByteHeight(16) == 2 && ByteHeight(17) == 3
  {
  }

  // ---------------------------------------------------------------- packing

  /** Bit k of b. */
  predicate Bit(b: Byte, k: nat)
    requires k < 8
  {
    b & ((1 as Byte) << k) != 0
  }

  /** What `result[x][y >> 3] |= 1 << (y & 7)` ors in for pixel (x, y): its bit, or nothing for white. */
  function PixelBit(ink: Ink, c: Char, x: int, y: nat): Byte {
    if ink(c, x, y) then (1 as Byte) << (y % 8) else 0
  }

  /** Byte j of column x once the pixel rows below n have been scanned. */
  function PackedUpTo(ink: Ink, c: Char, x: int, j: nat, n: nat): Byte {
    if n == 0 then 0
    else if (n - 1) / 8 == j then PackedUpTo(ink, c, x, j, n - 1) | PixelBit(ink, c, x, n - 1)
    else PackedUpTo(ink, c, x, j, n - 1)
  }

  /** Or-ing in the bit of one pixel sets bit k exactly when it was set or the pixel is black there. */
  lemma OrPixelBit(b: Byte, black: bool, s: nat, k: nat)
    requires s < 8 && k < 8
    ensures Bit(b | (if black then (1 as Byte) << s else 0), k) <==> Bit(b, k) || (black && s == k)
  {
  }

  /** Bit k of byte j is pixel row 8j + k when that row has been scanned, and clear otherwise. */
  lemma {:induction false} PackedBits(ink: Ink, c: Char, x: int, j: nat, n: nat, k: nat)
    requires k < 8
    ensures Bit(PackedUpTo(ink, c, x, j, n), k) <==> 8 * j + k < n && ink(c, x, 8 * j + k)
    decreases n
  {
    if n == 0 {
      assert PackedUpTo(ink, c, x, j, n) == 0;
    } else {
      PackedBits(ink, c, x, j, n - 1, k);
      if (n - 1) / 8 == j {
        PackedBitsOwnByte(ink, c, x, j, n - 1, k);
      } else {
        PackedBitsOtherByte(ink, c, x, j, n - 1, k);
      }
    }
  }

  /** Scanning row y, which lies in byte j: bit k may be set, by row y. */
  lemma PackedBitsOwnByte(ink: Ink, c: Char, x: int, j: nat, y: nat, k: nat)
    requires k < 8 && y / 8 == j
    requires Bit(PackedUpTo(ink, c, x, j, y), k) <==> 8 * j + k < y && ink(c, x, 8 * j + k)
    ensures Bit(PackedUpTo(ink, c, x, j, y + 1), k) <==> 8 * j + k < y + 1 && ink(c, x, 8 * j + k)
  {
    var before := PackedUpTo(ink, c, x, j, y);
    PackedOwnStep(ink, c, x, j, y);
    OrPixel(before, ink, c, x, y, k);
    RowInByte(y, j, k);
  }

  lemma PackedOwnStep(ink: Ink, c: Char, x: int, j: nat, y: nat)
    requires y / 8 == j
    ensures PackedUpTo(ink, c, x, j, y + 1) == PackedUpTo(ink, c, x, j, y) | PixelBit(ink, c, x, y)
  {
  }

  lemma OrPixel(b: Byte, ink: Ink, c: Char, x: int, y: nat, k: nat)
    requires k < 8
    ensures Bit(b | PixelBit(ink, c, x, y), k) <==> Bit(b, k) || (ink(c, x, y) && y % 8 == k)
  {
    OrPixelBit(b, ink(c, x, y), y % 8, k);
  }

  lemma RowInByte(y: nat, j: nat, k: nat)
    requires k < 8 && y / 8 == j
    ensures y % 8 == k <==> y == 8 * j + k
  {
  }

  /** Scanning a row outside byte j leaves it as it was. */
  lemma PackedBitsOtherByte(ink: Ink, c: Char, x: int, j: nat, y: nat, k: nat)
    requires k < 8 && y / 8 != j
    requires Bit(PackedUpTo(ink, c, x, j, y), k) <==> 8 * j + k < y && ink(c, x, 8 * j + k)
    ensures Bit(PackedUpTo(ink, c, x, j, y + 1), k) <==> 8 * j + k < y + 1 && ink(c, x, 8 * j + k)
  {
    assert PackedUpTo(ink, c, x, j, y + 1) == PackedUpTo(ink, c, x, j, y);
    assert (8 * j + k) / 8 == j;
  }

  /** Scanning pixel row y changes only byte y / 8 of the column, by or-ing in the pixel's bit. */
  lemma PackedRow(ink: Ink, c: Char, x: int, y: nat)
    ensures forall j: nat :: PackedUpTo(ink, c, x, j, y + 1) ==
              if j == y / 8 then PackedUpTo(ink, c, x, j, y) | PixelBit(ink, c, x, y) else PackedUpTo(ink, c, x, j, y)
    ensures !ink(c, x, y) ==> forall j: nat :: PackedUpTo(ink, c, x, j, y + 1) == PackedUpTo(ink, c, x, j, y)
  {
    if !ink(c, x, y) {
      forall j: nat
        ensures PackedUpTo(ink, c, x, j, y + 1) == PackedUpTo(ink, c, x, j, y)
      {
        var b := PackedUpTo(ink, c, x, j, y);
        assert b | 0 == b;
      }
    }
  }

  /** A grid of `|g|` columns with `rows` bytes each. */
  predicate IsGrid(g: seq<seq<Byte>>, rows: nat) {
    forall x :: 0 <= x < |g| ==> |g[x]| == rows
  }

  /** The array getByteChar returns, as a value: column x, byte j. */
  function Packed(ink: Ink, c: Char, w: nat, h: nat): (g: seq<seq<Byte>>)
    ensures |g| == w && IsGrid(g, ByteHeight(h))
  {
    seq(w, x requires 0 <= x < w => seq(ByteHeight(h), j requires 0 <= j < ByteHeight(h) => PackedUpTo(ink, c, x, j, h)))
  }

  /**
   * The packed grid holds the picture: bit (y & 7) of byte y >> 3 of column x
   * is set exactly when pixel (x, y) is black, and every bit past the last
   * pixel row is clear.
   */
  lemma PackedPixels(ink: Ink, c: Char, w: nat, h: nat)
    ensures forall x, y :: 0 <= x < w && 0 <= y < h ==>
              y / 8 < ByteHeight(h) && (Bit(Packed(ink, c, w, h)[x][y / 8], y % 8) <==> ink(c, x, y))
    ensures forall x, j, k :: 0 <= x < w && 0 <= j < ByteHeight(h) && 0 <= k < 8 && 8 * j + k >= h ==>
              !Bit(Packed(ink, c, w, h)[x][j], k)
  {
    ByteHeightCovers(h);
    var g := Packed(ink, c, w, h);
    forall x, y | 0 <= x < w && 0 <= y < h
      ensures Bit(g[x][y / 8], y % 8) <==> ink(c, x, y)
    {
      PackedBits(ink, c, x, y / 8, h, y % 8);
    }
    forall x, j, k | 0 <= x < w && 0 <= j < ByteHeight(h) && 0 <= k < 8 && 8 * j + k >= h
      ensures !Bit(g[x][j], k)
    {
      PackedBits(ink, c, x, j, h, k);
    }
  }

  /** The cells of a 2-D array, column by column. */
  function Columns(a: array2<Byte>): (g: seq<seq<Byte>>)
    reads a
    ensures |g| == a.Length0 && IsGrid(g, a.Length1)
  {
    seq(a.Length0, x requires 0 <= x < a.Length0 reads a =>
      seq(a.Length1, j requires 0 <= j < a.Length1 reads a => a[x, j]))
  }

  /** One pass of getByteChar's row loop: the pixels of row y, column by column. */
  method ScanRow(result: array2<Byte>, c: Char, ink: Ink, h: nat, y: nat)
    requires y < h && result.Length1 == ByteHeight(h)
    requires forall x, j :: 0 <= x < result.Length0 && 0 <= j < result.Length1 ==>
               result[x, j] == PackedUpTo(ink, c, x, j, y)
    modifies result
    ensures forall x, j :: 0 <= x < result.Length0 && 0 <= j < result.Length1 ==>
              result[x, j] == PackedUpTo(ink, c, x, j, y + 1)
  {
    ByteHeightCovers(h);
    for x := 0 to result.Length0
      invariant forall x', j :: 0 <= x' < result.Length0 && 0 <= j < result.Length1 ==>
                  result[x', j] == PackedUpTo(ink, c, x', j, if x' < x then y + 1 else y)
    {
      PackedRow(ink, c, x, y);
      if ink(c, x, y) {
        result[x, y / 8] := result[x, y / 8] | ((1 as Byte) << (y % 8));
      }
    }
  }

  /**
   * getByteChar over the rendered picture: a fresh `w` x ByteHeight(h) array,
   * filled row by row, column by column, with the bit of each black pixel.
   */
  method GetByteChar(c: Char, ink: Ink, w: nat, h: nat) returns (result: array2<Byte>)
    ensures fresh(result)
    ensures result.Length0 == w && result.Length1 == ByteHeight(h)
    ensures Columns(result) == Packed(ink, c, w, h)
  {
    var bh := ByteHeight(h);
    result := new Byte[w, bh]((_, _) => 0);
    for y := 0 to h
      invariant forall x, j :: 0 <= x < w && 0 <= j < bh ==> result[x, j] == PackedUpTo(ink, c, x, j, y)
    {
      ScanRow(result, c, ink, h, y);
    }
    ghost var g, p := Columns(result), Packed(ink, c, w, h);
    forall x | 0 <= x < w
      ensures g[x] == p[x]
    {
      assert forall j :: 0 <= j < bh ==> g[x][j] == p[x][j];
    }
  }

  /**
   * The grid the reader builds from rows: row y, column x. The ensures only
   * expose the comprehension element by element; TransposeTwice states that
   * nothing is lost.
   */
  function Transpose(g: seq<seq<Byte>>, rows: nat): (t: seq<seq<Byte>>)
    requires IsGrid(g, rows)
    ensures |t| == rows && IsGrid(t, |g|)
    ensures forall y, x :: 0 <= y < rows && 0 <= x < |g| ==> t[y][x] == g[x][y]
  {
    seq(rows, y requires 0 <= y < rows => seq(|g|, x requires 0 <= x < |g| => g[x][y]))
  }

  /** Turning the rows back into columns gives the packed grid again: nothing is lost or moved. */
  lemma TransposeTwice(g: seq<seq<Byte>>, rows: nat)
    requires IsGrid(g, rows)
    ensures Transpose(Transpose(g, rows), |g|) == g
  {
    var t := Transpose(Transpose(g, rows), |g|);
    assert |t| == |g|;
    forall x | 0 <= x < |g|
      ensures t[x] == g[x]
    {
      assert |t[x]| == rows == |g[x]|;
    }
  }

  // ---------------------------------------------------------------- the writer

  /** The BufferedWriter, seen as the lines it has finished and the one it is writing. */
  class Writer {
    var lines: seq<string>
    var current: string

    constructor ()
      ensures lines == [] && current == []
    {
      lines, current := [], [];
    }

    method Write(s: string)
      modifies this
      ensures lines == old(lines) && current == old(current) + s
    {
      current := current + s;
    }

    method NewLine()
      modifies this
      ensures lines == old(lines) + [old(current)] && current == []
    {
      lines, current := lines + [current], [];
    }
  }

  // ---------------------------------------------------------------- the file

  const META_KEYS: set<string> := {"name", "size", "style", "height"}

  /** The generator's `meta` table; every value is written with toString. */
  function GeneratorMeta(name: string, size: int, style: int, height: int): (m: map<string, string>)
    ensures m.Keys == META_KEYS
  {
    map["name" := name, "size" := IntToString(size), "style" := IntToString(style), "height" := IntToString(height)]
  }

  function MetaEntryLine(key: string, value: string): string {
    "  " + ToUpper(key) + " " + value
  }

  /** The entries of `meta` in the order `order` visits them, one line each. */
  function MetaEntryLines(order: seq<string>, meta: map<string, string>): (ls: seq<string>)
    requires forall i :: 0 <= i < |order| ==> order[i] in meta
    ensures |ls| == |order|
  {
    if order == [] then []
    else
      var key := order[|order| - 1];
      MetaEntryLines(order[..|order| - 1], meta) + [MetaEntryLine(key, meta[key])]
  }

  function Header(order: seq<string>, meta: map<string, string>): seq<string>
    requires forall i :: 0 <= i < |order| ==> order[i] in meta
  {
    ["META_BEGIN"] + MetaEntryLines(order, meta) + ["META_END"] + [""]
  }

  /** `%c` of a char: a lone surrogate half cannot be encoded and is written as '?'. */
  function CharText(c: Char): string {
    if 0xD800 <= c < 0xE000 then "?" else [c as char]
  }

  function CommentLine(i: int): string {
    "# char '" + CharText(ToChar(i)) + "' with decimal value '" + IntToString(i) + "'"
  }

  /** The hex tokens of byte row y, one per column. */
  function RowTokens(g: seq<seq<Byte>>, y: nat): (ts: seq<string>)
    requires forall x :: 0 <= x < |g| ==> y < |g[x]|
    ensures |ts| == |g|
  {
    seq(|g|, x requires 0 <= x < |g| => HexToken(g[x][y] as int))
  }

  function RowText(g: seq<seq<Byte>>, y: nat): string
    requires forall x :: 0 <= x < |g| ==> y < |g[x]|
  {
    "  " + Join(RowTokens(g, y))
  }

  /** One text line per byte row; with no byte rows, the single newline written after them. */
  function RowLines(g: seq<seq<Byte>>, rows: nat): (ls: seq<string>)
    requires IsGrid(g, rows)
    ensures |ls| == if rows == 0 then 1 else rows
  {
    if rows == 0 then [""] else seq(rows, y requires 0 <= y < rows => RowText(g, y))
  }

  /** The block for code point i whose packed grid is g. */
  function Block(i: int, g: seq<seq<Byte>>, rows: nat, comments: bool): seq<string>
    requires IsGrid(g, rows)
  {
    (if comments then [CommentLine(i)] else []) + ["BEGIN " + IntToString(i)] + RowLines(g, rows) + ["END"]
  }

  /** What the loop writes for code point i: a block when the glyph has a column, else nothing. */
  function CharBlock(i: int, ink: Ink, width: Char -> nat, h: nat, comments: bool): seq<string> {
    var c := ToChar(i);
    if width(c) > 0 then Block(i, Packed(ink, c, width(c), h), ByteHeight(h), comments) else []
  }

  /** The blocks for the code points lo, lo + 1, ..., hi - 1, in that order. */
  function Glyphs(lo: int, hi: int, ink: Ink, width: Char -> nat, h: nat, comments: bool): seq<string>
    decreases hi - lo
  {
    if hi <= lo then [] else Glyphs(lo, hi - 1, ink, width, h, comments) + CharBlock(hi - 1, ink, width, h, comments)
  }

  /** The whole file, given the order in which the table yields the metadata keys. */
  function Encoding(order: seq<string>, name: string, size: int, style: int, h: nat,
                    lo: int, hi: int, ink: Ink, width: Char -> nat, comments: bool): seq<string>
    requires forall i :: 0 <= i < |order| ==> order[i] in META_KEYS
  {
    Header(order, GeneratorMeta(name, size, style, h)) + Glyphs(lo, hi, ink, width, h, comments)
  }

  lemma Assoc<T>(a: seq<T>, b: seq<T>, c: seq<T>)
    ensures a + (b + c) == a + b + c
  {
  }

  lemma AppendEmpty<T>(s: seq<T>)
    ensures s + [] == s && [] + s == s
  {
  }

  lemma SnocTake<T>(s: seq<T>, x: T)
    ensures (s + [x])[..|s|] == s && (s + [x])[|s|] == x
  {
  }

  lemma TakeSnoc<T>(s: seq<T>, n: nat)
    requires n < |s|
    ensures s[..n + 1] == s[..n] + [s[n]]
  {
  }

  lemma TakeAll<T>(s: seq<T>)
    ensures s[..|s|] == s
  {
  }

  lemma JoinSnoc(ts: seq<string>, n: nat)
    requires 0 < n < |ts|
    ensures Join(ts[..n + 1]) == Join(ts[..n]) + ";" + ts[n]
  {
    var p := ts[..n + 1];
    assert p[..n] == ts[..n] && p[n] == ts[n];
  }

  /** The text of the first x tokens, with the `;` that follows them unless they are all. */
  function RowPrefix(ts: seq<string>, x: nat): string
    requires x <= |ts|
  {
    Join(ts[..x]) + (if 0 < x < |ts| then ";" else "")
  }

  lemma RowPrefixStep(ts: seq<string>, x: nat)
    requires x < |ts|
    ensures RowPrefix(ts, x + 1) == RowPrefix(ts, x) + ts[x] + (if x < |ts| - 1 then ";" else "")
  {
    if x == 0 {
      assert ts[..1] == [ts[0]];
    } else {
      JoinSnoc(ts, x);
    }
  }

  lemma RowPrefixFrom(start: string, ts: seq<string>, x: nat)
    requires x < |ts|
    ensures x < |ts| - 1 ==> start + RowPrefix(ts, x + 1) == start + RowPrefix(ts, x) + ts[x] + ";"
    ensures x == |ts| - 1 ==> start + RowPrefix(ts, x + 1) == start + RowPrefix(ts, x) + ts[x]
  {
    RowPrefixStep(ts, x);
    Assoc(start, RowPrefix(ts, x), ts[x]);
    if x < |ts| - 1 {
      Assoc(start, RowPrefix(ts, x) + ts[x], ";");
    } else {
      AppendEmpty(RowPrefix(ts, x) + ts[x]);
    }
  }

  /** The inner loop of main: the tokens of byte row y, separated by `;`, after the indent. */
  method WriteRow(w: Writer, a: array2<Byte>, y: nat)
    requires y < a.Length1
    modifies w
    ensures w.lines == old(w.lines)
    ensures w.current == old(w.current) + RowText(Columns(a), y)
  {
    ghost var ts := RowTokens(Columns(a), y);
    w.Write("  ");
    ghost var start := w.current;
    for x := 0 to a.Length0
      invariant w.lines == old(w.lines)
      invariant w.current == start + RowPrefix(ts, x)
    {
      w.Write(HexToken(a[x, y] as int));
      if x < a.Length0 - 1 {
        w.Write(";");
      }
      RowPrefixFrom(start, ts, x);
    }
    TakeAll(ts);
    Assoc(old(w.current), "  ", Join(ts));
  }

  /** The row loop of main: every byte row on its own line, the last one left open. */
  method WriteRows(w: Writer, a: array2<Byte>)
    requires w.current == []
    modifies w
    ensures a.Length1 == 0 ==> w.lines == old(w.lines) && w.current == []
    ensures a.Length1 > 0 ==>
              var rows := RowLines(Columns(a), a.Length1);
              w.lines == old(w.lines) + rows[..a.Length1 - 1] && w.current == rows[a.Length1 - 1]
  {
    ghost var rows := RowLines(Columns(a), a.Length1);
    var bh := a.Length1;
    for y := 0 to bh
      invariant bh == 0 ==> w.lines == old(w.lines) && w.current == []
      invariant y < bh ==> w.lines == old(w.lines) + rows[..y] && w.current == []
      invariant 0 < y == bh ==> w.lines == old(w.lines) + rows[..bh - 1] && w.current == rows[bh - 1]
    {
      WriteRow(w, a, y);
      assert w.current == rows[y];
      if y < bh - 1 {
        w.NewLine();
        TakeSnoc(rows, y);
        Assoc(old(w.lines), rows[..y], [rows[y]]);
      }
    }
  }

  /** One pass of main's code-point loop: the block for i, if its glyph has a column. */
  method WriteChar(w: Writer, i: int, ink: Ink, width: Char -> nat, h: nat, comments: bool)
    requires w.current == []
    modifies w
    ensures w.lines == old(w.lines) + CharBlock(i, ink, width, h, comments) && w.current == []
  {
    var c := ToChar(i);
    var byteChar := GetByteChar(c, ink, width(c), h);
    if byteChar.Length0 > 0 {
      ghost var before := w.lines;
      ghost var comment: seq<string> := if comments then [CommentLine(i)] else [];
      if comments {
        w.Write("# char '" + CharText(c) + "' with decimal value '" + IntToString(i) + "'");
        AppendEmpty(CommentLine(i));
        w.NewLine();
      } else {
        AppendEmpty(before);
      }
      assert w.lines == before + comment && w.current == [];
      ghost var begin := "BEGIN " + IntToString(i);
      w.Write("BEGIN " + IntToString(i));
      AppendEmpty(begin);
      w.NewLine();
      assert w.lines == before + comment + [begin];
      ghost var head := w.lines;
      WriteRows(w, byteChar);
      w.NewLine();
      ghost var bh := byteChar.Length1;
      ghost var rows := RowLines(Columns(byteChar), bh);
      if bh > 0 {
        TakeSnoc(rows, bh - 1);
        TakeAll(rows);
        Assoc(head, rows[..bh - 1], [rows[bh - 1]]);
      }
      assert w.lines == head + rows;
      w.Write("END");
      AppendEmpty("END");
      w.NewLine();
      assert w.lines == before + comment + [begin] + rows + ["END"];
      Assoc(before, comment, [begin]);
      Assoc(before, comment + [begin], rows);
      Assoc(before, comment + [begin] + rows, ["END"]);
    }
  }

  /** The loop over the metadata table: one `KEY value` line per entry, in the order the table yields them. */
  method WriteMeta(w: Writer, meta: map<string, string>) returns (ghost order: seq<string>)
    requires w.current == []
    modifies w
    ensures Enumerates(order, meta.Keys)
    ensures w.lines == old(w.lines) + MetaEntryLines(order, meta) && w.current == []
  {
    var remaining := meta.Keys;
    order := [];
    AppendEmpty(w.lines);
    while remaining != {}
      invariant remaining <= meta.Keys
      invariant forall i :: 0 <= i < |order| ==> order[i] in meta && order[i] !in remaining
      invariant forall k :: k in meta ==> k in order || k in remaining
      invariant forall i, j :: 0 <= i < j < |order| ==> order[i] != order[j]
      invariant w.lines == old(w.lines) + MetaEntryLines(order, meta) && w.current == []
      decreases remaining
    {
      var key :| key in remaining;
      ghost var line := MetaEntryLine(key, meta[key]);
      w.Write("  " + ToUpper(key) + " " + meta[key]);
      AppendEmpty(line);
      w.NewLine();
      SnocTake(order, key);
      assert MetaEntryLines(order + [key], meta) == MetaEntryLines(order, meta) + [line];
      Assoc(old(w.lines), MetaEntryLines(order, meta), [line]);
      order := order + [key];
      remaining := remaining - {key};
    }
  }

  /** The header of main: META_BEGIN, the entries, META_END and an empty line. */
  method WriteHeader(w: Writer, meta: map<string, string>) returns (ghost order: seq<string>)
    requires w.lines == [] && w.current == []
    modifies w
    ensures Enumerates(order, meta.Keys)
    ensures w.lines == Header(order, meta) && w.current == []
  {
    w.Write("META_BEGIN");
    AppendEmpty("META_BEGIN");
    w.NewLine();
    order := WriteMeta(w, meta);
    w.Write("META_END");
    AppendEmpty("META_END");
    w.NewLine();
    w.NewLine();
  }

  /**
   * The file main writes: the header with the metadata entries in the order
   * the table yields them (`order`, which the model leaves open), then a
   * block for each code point of [rangeStart, rangeEnd) that has a column.
   */
  method Generate(name: string, size: int, style: int, h: nat, rangeStart: int, rangeEnd: int,
                  ink: Ink, width: Char -> nat, comments: bool)
    returns (lines: seq<string>, ghost order: seq<string>)
    ensures Enumerates(order, META_KEYS)
    ensures lines == Encoding(order, name, size, style, h, rangeStart, rangeEnd, ink, width, comments)
  {
    var meta := GeneratorMeta(name, size, style, h);
    var w := new Writer();
    order := WriteHeader(w, meta);
    WriteGlyphs(w, rangeStart, rangeEnd, ink, width, h, comments);
    lines := w.lines;
  }

  /** The loop of main over the code points: the block of each one, in order. */
  method WriteGlyphs(w: Writer, rangeStart: int, rangeEnd: int, ink: Ink, width: Char -> nat, h: nat, comments: bool)
    requires w.current == []
    modifies w
    ensures w.lines == old(w.lines) + Glyphs(rangeStart, rangeEnd, ink, width, h, comments) && w.current == []
  {
    ghost var head := w.lines;
    AppendEmpty(head);
    var i := rangeStart;
    while i < rangeEnd
      invariant rangeStart <= i && (i <= rangeEnd || i == rangeStart)
      invariant w.lines == head + Glyphs(rangeStart, i, ink, width, h, comments) && w.current == []
    {
      WriteChar(w, i, ink, width, h, comments);
      Assoc(head, Glyphs(rangeStart, i, ink, width, h, comments), CharBlock(i, ink, width, h, comments));
      i := i + 1;
    }
  }
}
