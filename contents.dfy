/**
 * The glyph buffer of a cell: a fixed-capacity UTF-8 string of at most
 * MAX_CELL_LEN bytes. The model keeps the characters and counts their bytes
 * with the UTF-8 width of each character; the encoded bytes themselves are
 * not modelled.
 */
module CellContents {

  /** Maximum number of zero-width characters meant to be stored per cell. */
  const MAX_ZEROWIDTH_CHARS: nat := 5

  /** Capacity of the glyph buffer in bytes: room for the base character and
      MAX_ZEROWIDTH_CHARS more, at four bytes each. */
  const MAX_CELL_LEN: nat := 4 * (1 + MAX_ZEROWIDTH_CHARS)

  /** Number of bytes UTF-8 uses to encode `c`. */
  function Utf8Width(c: char): (w: nat)
    ensures 1 <= w <= 4
    ensures w == 1 <==> c as int < 0x80
  {
    if c as int < 0x80 then 1
    else if c as int < 0x800 then 2
    else if c as int < 0x1_0000 then 3
    else 4
  }

  /** Number of bytes UTF-8 uses to encode `s`. */
  function ByteLen(s: seq<char>): (n: nat)
    ensures |s| <= n <= 4 * |s|
  {
    if s == [] then 0 else ByteLen(s[..|s| - 1]) + Utf8Width(s[|s| - 1])
  }

  /** The contents of a cell's fixed-capacity string: never more than MAX_CELL_LEN bytes. */
  type CellStr = s: seq<char> | ByteLen(s) <= MAX_CELL_LEN

  lemma {:induction false} ByteLenAppend(s: seq<char>, t: seq<char>)
    ensures ByteLen(s + t) == ByteLen(s) + ByteLen(t)
    decreases |t|
  {
    if t == [] {
      assert s + t == s;
    } else {
      var t' := t[..|t| - 1];
      assert (s + t)[..|s + t| - 1] == s + t';
      ByteLenAppend(s, t');
    }
  }

  /** The capacity holds a base character and MAX_ZEROWIDTH_CHARS more, whatever their widths. */
  lemma SixCharsAlwaysFit(s: seq<char>)
    requires |s| <= 1 + MAX_ZEROWIDTH_CHARS
    ensures ByteLen(s) <= MAX_CELL_LEN
  {
  }

  /** The byte capacity alone does not bound the number of zero-width
      characters: a base letter with six two-byte combining accents
      (U+0301) takes 13 bytes and fits. */
  lemma CapacityAdmitsMoreThanMaxZerowidth()
    ensures var s := ['e', '\U{0301}', '\U{0301}', '\U{0301}', '\U{0301}', '\U{0301}', '\U{0301}'];
      ByteLen(s) == 13 <= MAX_CELL_LEN && |s| - 1 > MAX_ZEROWIDTH_CHARS
  {
    var s := ['e', '\U{0301}', '\U{0301}', '\U{0301}', '\U{0301}', '\U{0301}', '\U{0301}'];
    assert Utf8Width('\U{0301}') == 2;
    assert ByteLen(s[..1]) == 1;
    assert ByteLen(s[..2]) == 3 by { assert s[..2][..1] == s[..1]; }
    assert ByteLen(s[..3]) == 5 by { assert s[..3][..2] == s[..2]; }
    assert ByteLen(s[..4]) == 7 by { assert s[..4][..3] == s[..3]; }
    assert ByteLen(s[..5]) == 9 by { assert s[..5][..4] == s[..4]; }
    assert ByteLen(s[..6]) == 11 by { assert s[..6][..5] == s[..5]; }
    assert ByteLen(s) == 13 by { assert s[..6] == s[..|s| - 1]; }
  }
}
