/** The font style enum and its lookup from the java.awt.Font style constant. */
module FontType {
  import opened Wrappers

  /** The java.awt.Font style constants. */
  const FONT_PLAIN: int := 0
  const FONT_BOLD: int := 1
  const FONT_ITALIC: int := 2

  datatype ByteFontType = PLAIN | BOLD | ITALIC {
    /** The Font constant each enum value carries. */
    function Value(): int {
      match this
      case PLAIN => FONT_PLAIN
      case BOLD => FONT_BOLD
      case ITALIC => FONT_ITALIC
    }
  }

  /** values(), in declaration order. */
  const VALUES: seq<ByteFontType> := [PLAIN, BOLD, ITALIC]

  /** The loop of valueOf: the first of `types` carrying `v`, or null. */
  function Search(types: seq<ByteFontType>, v: int): (r: Option<ByteFontType>)
    ensures r.Some? ==> r.value in types && r.value.Value() == v
    ensures r.None? <==> forall i :: 0 <= i < |types| ==> types[i].Value() != v
    ensures r.Some? ==> exists i :: 0 <= i < |types| && types[i] == r.value &&
                                    forall j :: 0 <= j < i ==> types[j].Value() != v
  {
    if types == [] then None
    else if types[0].Value() == v then Some(types[0])
    else
      var r := Search(types[1..], v);
      assert r.Some? ==> exists i :: 0 <= i < |types[1..]| && types[1..][i] == r.value &&
                                     forall j :: 0 <= j < i ==> types[1..][j].Value() != v;
      assert r.Some? ==> exists i :: 1 <= i < |types| && types[i] == r.value &&
                                     forall j :: 0 <= j < i ==> types[j].Value() != v by {
        if r.Some? {
          var i :| 0 <= i < |types[1..]| && types[1..][i] == r.value &&
                   forall j :: 0 <= j < i ==> types[1..][j].Value() != v;
          assert types[i + 1] == r.value;
          assert forall j :: 0 <= j < i + 1 ==> types[j].Value() != v by {
            forall j | 0 <= j < i + 1 ensures types[j].Value() != v {
              if j > 0 { assert types[j] == types[1..][j - 1]; }
            }
          }
        }
      }
      r
  }

  /** ByteFontType.valueOf(int). */
  function ValueOf(v: int): (r: Option<ByteFontType>)
    ensures r.Some? ==> r.value.Value() == v
    ensures r.None? <==> v != FONT_PLAIN && v != FONT_BOLD && v != FONT_ITALIC
  {
    Search(VALUES, v)
  }

  /** Each constant is found again from its own value. */
  lemma ValueOfValue(t: ByteFontType)
    ensures ValueOf(t.Value()) == Some(t)
  {
    assert VALUES[0] == PLAIN && VALUES[1] == BOLD && VALUES[2] == ITALIC;
  }

  /** The three constants carry distinct values, so the first match is the only match. */
  lemma ValuesDistinct()
    ensures forall i, j :: 0 <= i < j < |VALUES| ==> VALUES[i].Value() != VALUES[j].Value()
    ensures forall t: ByteFontType :: t.Value() in {0, 1, 2}
  {
  }
}
