/**
 * A single slot of the terminal grid: foreground and background colour,
 * style flags and the glyph (a base character followed by any zero-width
 * characters combined with it). Cells are updated in place, so a cell is an
 * object whose fields the methods below reassign.
 */
module TermCell {
  import opened Ansi
  import opened CellFlags
  import opened CellContents

  class Cell {
    var fg: Color
    var bg: Color
    var flags: Flags
    var contents: CellStr

    /** The glyph holds at least one character. The constructors, SetChar and
        PushExtra establish it; Reset copies it from the template. */
    ghost predicate Valid()
      reads this
    {
      |contents| >= 1
    }

    /** The cell holding the single character `c` in the given colours, with no flags. */
    constructor (c: char, fg: Color, bg: Color)
      ensures Valid()
      ensures contents == [c] && this.fg == fg && this.bg == bg && flags == EMPTY
      ensures Members(flags) == {}
    {
      this.contents := [c];
      this.bg := bg;
      this.fg := fg;
      this.flags := EMPTY;
    }

    /** The default cell: a space in the default colours, which is an empty cell. */
    constructor Default()
      ensures Valid()
      ensures contents == [' '] && fg == Named(Foreground) && bg == Named(Background) && flags == EMPTY
      ensures IsEmpty()
    {
      this.contents := [' '];
      this.bg := Named(Background);
      this.fg := Named(Foreground);
      this.flags := EMPTY;
    }

    predicate Bold()
      reads this
    {
      Contains(flags, BOLD)
    }

    predicate Inverse()
      reads this
    {
      Contains(flags, INVERSE)
    }

    predicate Dim()
      reads this
    {
      Contains(flags, DIM)
    }

    /** A cell shows nothing: its glyph is a space or a tab, its background is
        the default one and no flag that draws on an empty cell is set. */
    function IsEmpty(): (empty: bool)
      reads this
      ensures empty <==>
        && (contents == " " || contents == "\t")
        && bg == Named(Background)
        && Members(flags) * {Flag.Inverse, Underline, Strikeout} == {}
    {
      var mask := Union(Union(INVERSE, UNDERLINE), STRIKEOUT);
      IntersectsIsSharedMember(flags, mask);
      UnionIsSetUnion(INVERSE, UNDERLINE);
      UnionIsSetUnion(Union(INVERSE, UNDERLINE), STRIKEOUT);
      FlagsAreDistinctSingleBits(Flag.Inverse, Flag.Inverse);
      FlagsAreDistinctSingleBits(Underline, Underline);
      FlagsAreDistinctSingleBits(Strikeout, Strikeout);
      (contents == " " || contents == "\t")
        && bg == Named(Background)
        && !Intersects(flags, mask)
    }

    /** Copies every field of `template` into this cell. */
    method Reset(template: Cell)
      modifies this
      ensures Valid() == old(template.Valid())
      ensures fg == old(template.fg) && bg == old(template.bg)
      ensures flags == old(template.flags) && contents == old(template.contents)
    {
      fg, bg, flags, contents := template.fg, template.bg, template.flags, template.contents;
    }

    /** Replaces the glyph by the single character `chr` and returns the previous glyph. */
    method SetChar(chr: char) returns (previous: CellStr)
      modifies this`contents
      ensures Valid()
      ensures contents == [chr] && previous == old(contents)
      ensures FirstChar() == chr
      ensures fg == old(fg) && bg == old(bg) && flags == old(flags)
    {
      var glyph: CellStr := [chr];
      previous, contents := contents, glyph;
    }

    /** Appends the zero-width character `c` to the glyph. The buffer's push
        panics when the bytes would exceed its capacity, hence the requirement. */
    method PushExtra(c: char)
      requires ByteLen(contents) + Utf8Width(c) <= MAX_CELL_LEN
      modifies this`contents
      ensures Valid()
      ensures contents == old(contents) + [c]
      ensures old(Valid()) ==> FirstChar() == old(FirstChar())
      ensures fg == old(fg) && bg == old(bg) && flags == old(flags)
    {
      ByteLenAppend(contents, [c]);
      contents := contents + [c];
    }

    /** The base character of the glyph. */
    function FirstChar(): (c: char)
      reads this
      requires Valid()
      ensures [c] == contents[..1]
    {
      contents[0]
    }

    /** The first 1 + MAX_ZEROWIDTH_CHARS characters of the glyph, padded with spaces. */
    method Chars() returns (out: seq<char>)
      ensures |out| == 1 + MAX_ZEROWIDTH_CHARS
      ensures forall i :: 0 <= i < |out| ==> out[i] == if i < |contents| then contents[i] else ' '
      ensures Valid() ==> out[0] == FirstChar()
    {
      var buffer := new char[1 + MAX_ZEROWIDTH_CHARS](_ => ' ');
      var i := 0;
      while i < |contents| && i < buffer.Length
        invariant 0 <= i <= buffer.Length && i <= |contents|
        invariant forall k :: 0 <= k < i ==> buffer[k] == contents[k]
        invariant forall k :: i <= k < buffer.Length ==> buffer[k] == ' '
      {
        buffer[i] := contents[i];
        i := i + 1;
      }
      out := buffer[..];
    }
  }

  /** The flag predicates test one flag each. */
  lemma FlagPredicatesTestMembership(cell: Cell)
    ensures cell.Bold() <==> Flag.Bold in Members(cell.flags)
    ensures cell.Inverse() <==> Flag.Inverse in Members(cell.flags)
    ensures cell.Dim() <==> Flag.Dim in Members(cell.flags)
  {
    FlagsAreDistinctSingleBits(Flag.Bold, Flag.Bold);
    FlagsAreDistinctSingleBits(Flag.Inverse, Flag.Inverse);
    FlagsAreDistinctSingleBits(Flag.Dim, Flag.Dim);
    ContainsIsSubset(cell.flags, BOLD);
    ContainsIsSubset(cell.flags, INVERSE);
    ContainsIsSubset(cell.flags, DIM);
  }

  /** DIM_BOLD makes a cell report both bold and dim, and nothing else does. */
  lemma DimBoldCellIsBoldAndDim(cell: Cell)
    ensures Contains(cell.flags, DIM_BOLD) <==> cell.Bold() && cell.Dim()
  {
    DimBoldIsDimAndBold(cell.flags);
  }
}
