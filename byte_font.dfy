/**
 * The in-memory byte font: metadata plus a table from 16-bit character to a
 * glyph grid of bytes, with first-writer-wins insertion, defensive copies on
 * read, a height derived from the glyphs, and the factory that builds a font
 * from the metadata entries of a byte-font file.
 */
module ByteFontModel {
  import opened Wrappers
  import opened JavaText

  /** A Java byte, held as its unsigned bit pattern. */
  type Byte = bv8
  /** A Java char: a UTF-16 code unit. */
  type Char = n: int | 0 <= n < 0x1_0000
  /** A byte[][] held by value: a sequence of rows, each with its own length. */
  type Glyph = seq<seq<Byte>>

  /** The cast (char) n: the low 16 bits of an int. */
  function ToChar(n: int): (c: Char)
    ensures IsInt32(n) && n >= 0 ==> (c == n <==> n < 0x1_0000)
    ensures (c - n) % 0x1_0000 == 0
  {
    n % 0x1_0000
  }

  /** The cast (byte) n: the low 8 bits of an int. */
  function ToByte(n: int): Byte {
    (n % 0x100) as Byte
  }

  /** Casting Byte.toUnsignedInt(b) back to byte gives b. */
  lemma ToByteUnsigned(b: Byte)
    ensures ToByte(b as int) == b
  {
    assert 0 <= b as int < 0x100;
    assert (b as int) % 0x100 == b as int;
  }

  /** The observable state of a font: its metadata and its glyph table. */
  datatype FontInfo = FontInfo(name: string, size: int, style: int, height: int, chars: map<Char, Glyph>)

  /**
   * HashMap.putIfAbsent(c, g) together with addChar's test of its result: the
   * new table and whether `g` went in.
   */
  function PutIfAbsent(chars: map<Char, Glyph>, c: Char, g: Glyph): (r: (map<Char, Glyph>, bool))
    ensures r.1 <==> c !in chars
    ensures r.0.Keys == chars.Keys + {c}
    ensures forall k :: k in chars ==> r.0[k] == chars[k]
    ensures r.0[c] == if r.1 then g else chars[c]
    ensures |r.0| == |chars| + (if r.1 then 1 else 0)
  {
    if c in chars then (chars, false) else (chars[c := g], true)
  }

  // ---------------------------------------------------------------- metadata

  /** String.valueOf(meta.get(key)): an absent key reads as the text "null". */
  function MetaValue(meta: map<string, string>, key: string): string {
    if key in meta then meta[key] else "null"
  }

  /**
   * The height fromMeta leaves in the font: the parsed `height` entry, and -1
   * when it is absent or when its parse throws (the font was already built).
   */
  function MetaHeight(meta: map<string, string>): int {
    if "height" !in meta then -1
    else match ParseInt(meta["height"], 10)
      case Some(h) => h
      case None => -1
  }

  /**
   * ByteFont.fromMeta: None for the null result, which covers a missing map
   * (the NullPointerException is caught), an unparseable size or style, the
   * name "null", and a size or style that is not positive.
   */
  function FromMetaSpec(meta: Option<map<string, string>>): Option<FontInfo> {
    if meta.None? then None
    else
      var m := meta.value;
      var name := MetaValue(m, "name");
      var size := ParseInt(MetaValue(m, "size"), 10);
      var style := ParseInt(MetaValue(m, "style"), 10);
      if size.None? || style.None? then None
      else if name != "null" && size.value > 0 && style.value > 0 then
        Some(FontInfo(name, size.value, style.value, MetaHeight(m), map[]))
      else None
  }

  /** When fromMeta returns null, stated on the raw entries. */
  lemma FromMetaRejects(meta: Option<map<string, string>>)
    ensures FromMetaSpec(meta).None? <==>
              || meta.None?
              || MetaValue(meta.value, "name") == "null"
              || ParseInt(MetaValue(meta.value, "size"), 10).None?
              || ParseInt(MetaValue(meta.value, "style"), 10).None?
              || ParseInt(MetaValue(meta.value, "size"), 10).value <= 0
              || ParseInt(MetaValue(meta.value, "style"), 10).value <= 0
  {
  }

  /** What a font built by fromMeta holds. */
  lemma FromMetaKeeps(m: map<string, string>)
    requires FromMetaSpec(Some(m)).Some?
    ensures var f := FromMetaSpec(Some(m)).value;
            && "name" in m && f.name == m["name"] != "null"
            && Some(f.size) == ParseInt(m["size"], 10) && f.size > 0
            && Some(f.style) == ParseInt(m["style"], 10) && f.style > 0
            && f.chars == map[]
            && ("height" in m && ParseInt(m["height"], 10).Some? ==> Some(f.height) == ParseInt(m["height"], 10))
            && ("height" !in m || ParseInt(m["height"], 10).None? ==> f.height == -1)
  {
    assert "size" in m by { assert ParseInt("null", 10).None? by { assert DigitValue('l') >= 10; } }
    assert "style" in m by { assert ParseInt("null", 10).None? by { assert DigitValue('l') >= 10; } }
  }

  // ---------------------------------------------------------------- height

  /** One iteration of the loop in getHeight, comparison as written. */
  function HeightStep(maxHeight: int, g: Glyph): int {
    if |g| > 0 && |g[0]| > maxHeight then |g[0]| * 8 else maxHeight
  }

  /** getHeight's loop run over the glyphs in the order the table yields them. */
  function ScanHeight(gs: seq<Glyph>): int {
    if gs == [] then 0 else HeightStep(ScanHeight(gs[..|gs| - 1]), gs[|gs| - 1])
  }

  predicate FirstRowEmpty(g: Glyph) {
    g == [] || g[0] == []
  }

  /**
   * Whatever the order: the derived height is 0 exactly when no glyph has a
   * non-empty first row, and otherwise eight times the first-row length of
   * one of the glyphs.
   */
  lemma {:induction false} ScanHeightSpec(gs: seq<Glyph>)
    ensures ScanHeight(gs) >= 0
    ensures ScanHeight(gs) == 0 <==> forall i :: 0 <= i < |gs| ==> FirstRowEmpty(gs[i])
    ensures ScanHeight(gs) != 0 ==>
              exists i :: 0 <= i < |gs| && gs[i] != [] && ScanHeight(gs) == 8 * |gs[i][0]|
  {
    if gs != [] {
      var init := gs[..|gs| - 1];
      ScanHeightSpec(init);
      assert forall i :: 0 <= i < |init| ==> init[i] == gs[i];
      if ScanHeight(init) != 0 {
        var i :| 0 <= i < |init| && init[i] != [] && ScanHeight(init) == 8 * |init[i][0]|;
        assert gs[i] == init[i];
      }
    }
  }

  /**
   * The comparison of a byte count with an eight-fold height means the result
   * need not be the largest: first rows of 1 and then 2 bytes give 8, not 16.
   */
  lemma ScanHeightNotMaximum()
    ensures ScanHeight([[[0]], [[0, 0]]]) == 8
    ensures 8 * |[[0, 0]][0]| == 16
  {
    var gs: seq<Glyph> := [[[0]], [[0, 0]]];
    assert gs[..1] == [[[0]]];
    assert gs[..1][..0] == [];
  }

  /** The glyphs of `chars` listed in `order`. */
  function GlyphsIn(chars: map<Char, Glyph>, order: seq<Char>): (gs: seq<Glyph>)
    requires forall i :: 0 <= i < |order| ==> order[i] in chars
    ensures |gs| == |order|
  {
    seq(|order|, i requires 0 <= i < |order| => chars[order[i]])
  }

  /** Visiting one more entry is one more step of the loop. */
  lemma ScanHeightSnoc(chars: map<Char, Glyph>, order: seq<Char>, c: Char)
    requires forall i :: 0 <= i < |order| ==> order[i] in chars
    requires c in chars
    ensures ScanHeight(GlyphsIn(chars, order + [c])) == HeightStep(ScanHeight(GlyphsIn(chars, order)), chars[c])
  {
    var next := order + [c];
    assert GlyphsIn(chars, next)[..|order|] == GlyphsIn(chars, order);
  }

  /** `order` lists every key of `keys` exactly once. */
  predicate Enumerates<K>(order: seq<K>, keys: set<K>) {
    && (forall i :: 0 <= i < |order| ==> order[i] in keys)
    && (forall k :: k in keys ==> k in order)
    && (forall i, j :: 0 <= i < j < |order| ==> order[i] != order[j])
  }

  /** ScanHeightSpec stated on the table: the scan in any complete order says the same. */
  lemma HeightOfOrder(chars: map<Char, Glyph>, order: seq<Char>)
    requires Enumerates(order, chars.Keys)
    ensures var h := ScanHeight(GlyphsIn(chars, order));
            && (h == 0 <==> forall c :: c in chars ==> FirstRowEmpty(chars[c]))
            && (h != 0 ==> exists c :: c in chars && chars[c] != [] && h == 8 * |chars[c][0]|)
  {
    var gs := GlyphsIn(chars, order);
    var h := ScanHeight(gs);
    ScanHeightSpec(gs);
    if h == 0 {
      forall c | c in chars ensures FirstRowEmpty(chars[c]) {
        var i :| 0 <= i < |order| && order[i] == c;
        assert gs[i] == chars[c];
      }
    } else {
      var i :| 0 <= i < |gs| && gs[i] != [] && h == 8 * |gs[i][0]|;
      assert chars[order[i]] == gs[i];
    }
  }

  // ---------------------------------------------------------------- the font

  class ByteFont {
    var name: string
    var size: int
    var style: int
    var height: int
    var byteChars: map<Char, Glyph>

    /** The font's observable state. */
    function Info(): FontInfo
      reads this
    {
      FontInfo(name, size, style, height, byteChars)
    }

    constructor (name: string, size: int, style: int, height: int)
      ensures Info() == FontInfo(name, size, style, height, map[])
    {
      this.name := name;
      this.size := size;
      this.style := style;
      this.byteChars := map[];
      this.height := height;
    }

    /** The three-argument constructor: height -1, to be derived from the glyphs. */
    constructor WithoutHeight(name: string, size: int, style: int)
      ensures Info() == FontInfo(name, size, style, -1, map[])
    {
      this.name := name;
      this.size := size;
      this.style := style;
      this.byteChars := map[];
      this.height := -1;
    }

    /**
     * getBytes(c): a fresh copy of the stored grid, an empty grid for an absent
     * character, and None where the source throws on `original[0]` (a stored
     * grid without rows).
     */
    method GetBytes(c: Char) returns (r: Option<array<array<Byte>>>)
      ensures c !in byteChars ==> r.Some? && fresh(r.value) && r.value.Length == 0
      ensures c in byteChars ==> (r.None? <==> byteChars[c] == [])
      ensures c in byteChars && r.Some? ==>
                && fresh(r.value)
                && r.value.Length == |byteChars[c]|
                && (forall i :: 0 <= i < r.value.Length ==>
                      fresh(r.value[i]) && r.value[i][..] == byteChars[c][i])
                && (forall i, j :: 0 <= i < j < r.value.Length ==> r.value[i] != r.value[j])
    {
      if c !in byteChars {
        var empty := new array<Byte>[0];
        return Some(empty);
      }
      var original := byteChars[c];
      if |original| == 0 {
        return None;
      }
      var firstRow := new Byte[|original[0]|];
      var result := new array<Byte>[|original|](_ => firstRow);
      for i := 0 to result.Length
        invariant forall k :: 0 <= k < i ==> fresh(result[k]) && result[k][..] == original[k]
        invariant forall k, l :: 0 <= k < l < i ==> result[k] != result[l]
      {
        var row := new Byte[|original[i]|](j requires 0 <= j < |original[i]| => original[i][j]);
        result[i] := row;
      }
      return Some(result);
    }

    /** getCharCount(). */
    function CharCount(): nat
      reads this
    {
      |byteChars|
    }

    /**
     * getHeight(): the stored height when it is not negative; otherwise the
     * loop over the table's entries, in the unspecified order `order`.
     */
    method GetHeight() returns (h: int, ghost order: seq<Char>)
      ensures height >= 0 ==> h == height
      ensures height < 0 ==> Enumerates(order, byteChars.Keys) && h == ScanHeight(GlyphsIn(byteChars, order))
      ensures height < 0 ==> (h == 0 <==> forall c :: c in byteChars ==> FirstRowEmpty(byteChars[c]))
      ensures height < 0 && h != 0 ==>
                exists c :: c in byteChars && byteChars[c] != [] && h == 8 * |byteChars[c][0]|
    {
      order := [];
      if height >= 0 {
        return height, order;
      }
      var chars := byteChars;
      var maxHeight := 0;
      var remaining := chars.Keys;
      while remaining != {}
        invariant forall i :: 0 <= i < |order| ==> order[i] in chars && order[i] !in remaining
        invariant forall k :: k in chars ==> k in order || k in remaining
        invariant remaining <= chars.Keys
        invariant forall i, j :: 0 <= i < j < |order| ==> order[i] != order[j]
        invariant maxHeight == ScanHeight(GlyphsIn(chars, order))
        decreases remaining
      {
        var c :| c in remaining;
        var g := chars[c];
        if |g| > 0 && |g[0]| > maxHeight {
          maxHeight := |g[0]| * 8;
        }
        ScanHeightSnoc(chars, order, c);
        order := order + [c];
        remaining := remaining - {c};
      }
      h := maxHeight;
      HeightOfOrder(chars, order);
    }

    /** The private setHeight used by fromMeta. */
    method SetHeight(height: int)
      modifies this`height
      ensures this.height == height
    {
      this.height := height;
    }

    /** addChar(c, bytes): true exactly when `c` was absent and `bytes` went in. */
    method AddChar(c: Char, bytes: Glyph) returns (added: bool)
      modifies this`byteChars
      ensures (byteChars, added) == PutIfAbsent(old(byteChars), c, bytes)
      ensures added <==> c !in old(byteChars)
      ensures CharCount() == old(CharCount()) + (if added then 1 else 0)
    {
      added := c !in byteChars;
      if added {
        byteChars := byteChars[c := bytes];
      }
    }

    /** ByteFont.fromMeta(meta), with None standing for a null map. */
    static method FromMeta(meta: Option<map<string, string>>) returns (result: ByteFont?)
      ensures result == null <==> FromMetaSpec(meta).None?
      ensures result != null ==> fresh(result) && result.Info() == FromMetaSpec(meta).value
    {
      result := null;
      if meta.None? {
        return;
      }
      var m := meta.value;
      var name := MetaValue(m, "name");
      var size := ParseInt(MetaValue(m, "size"), 10);
      if size.None? {
        return;
      }
      var style := ParseInt(MetaValue(m, "style"), 10);
      if style.None? {
        return;
      }
      if name != "null" && size.value > 0 && style.value > 0 {
        result := new ByteFont.WithoutHeight(name, size.value, style.value);
        if "height" in m {
          var h := ParseInt(m["height"], 10);
          if h.Some? {
            result.SetHeight(h.value);
          }
        }
      }
    }
  }
}
