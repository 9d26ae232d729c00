# Terminal cell model

This project models the cell layer of a terminal emulator's grid,
`terminal-emulator/src/term/cell.rs`. It covers:

- the style bit set `Flags`;
- the `Cell` that holds a foreground colour, a background colour, flags and a
  glyph (one base character plus the zero-width characters combined with it,
  kept in a 24-byte string);
- the cell operations;
- `line_length`, the occupied length of a grid row. Erase and selection share
  this rule.

Files and modules:

- `ansi.dfy` (`Ansi`): the colour type, as a stand-in. The ANSI module that
  defines it is not part of this model. A cell only ever compares its
  background with `Named(Background)`.
- `flags.dfy` (`CellFlags`): the flag bits. `Flags` is a 16-bit vector that may
  use only the ten flag bits. `Bit` gives each flag the bit the source gives
  it. `Members` views a value as a set of `Flag`s. `DIM_BOLD` is declared by
  its own bit pattern and proved equal to `DIM | BOLD`.
- `contents.dfy` (`CellContents`): the glyph string. It is a `seq<char>` whose
  UTF-8 byte count `ByteLen` stays within `MAX_CELL_LEN = 4 * (1 + 5) = 24`.
  Each character's width of 1 to 4 bytes comes from its code point.
- `cell.dfy` (`TermCell`): the class `Cell`. `reset`, `set_char` and
  `push_extra` change the cell in place, so they are methods with `modifies`
  clauses. `Valid()` says that the glyph is not empty. Both constructors,
  `SetChar` and `PushExtra` establish it, and `Reset` copies the template's
  validity.
- `line_length.dfy` (`LineLength`): a row is a `seq<Cell>`. `OccupiedLength`
  is the specification and `LineLength` is the source's reverse scan, proved
  equal to it.

## Model

| member | source | states |
|---|---|---|
| CellFlags.FlagsAreDistinctSingleBits | terminal-emulator/src/term/cell.rs:25-39 | each of the ten flags is one bit, its set view is just itself, and two different flags share no bit |
| CellFlags.DimBoldIsDimAndBold | terminal-emulator/src/term/cell.rs:34-35 | DIM_BOLD is DIM together with BOLD, is not a single bit, is the set {Dim, Bold}, and a value contains it iff it contains both DIM and BOLD |
| CellFlags.MembersDetermineFlags | terminal-emulator/src/term/cell.rs:25-39 | two flag values are equal iff they hold the same set of flags, so the set view loses nothing |
| CellFlags.ContainsIsSubset | terminal-emulator/src/term/cell.rs:86-98 | the bit set's `contains` holds iff the other value's flags are a subset of this value's flags |
| CellFlags.IntersectsIsSharedMember | terminal-emulator/src/term/cell.rs:115-117 | the bit set's `intersects` holds iff the two values share at least one flag |
| CellFlags.UnionIsSetUnion | terminal-emulator/src/term/cell.rs:117 | the bitwise or of two values holds exactly the union of their flags |
| CellFlags.Insert | terminal-emulator/src/term/cell.rs:189 | inserting flags makes the value contain them; a flag is set afterwards iff it was set before or was inserted |
| CellContents.Utf8Width | terminal-emulator/src/term/cell.rs:23 | a character takes 1 to 4 bytes, and exactly 1 iff it is ASCII |
| CellContents.ByteLen | terminal-emulator/src/term/cell.rs:46 | a string takes at least one byte and at most four bytes per character |
| CellContents.ByteLenAppend | terminal-emulator/src/term/cell.rs:147-149 | the byte length of a concatenation is the sum of the byte lengths |
| CellContents.SixCharsAlwaysFit | terminal-emulator/src/term/cell.rs:21-23 | any base character plus MAX_ZEROWIDTH_CHARS more characters fits in MAX_CELL_LEN bytes |
| CellContents.CapacityAdmitsMoreThanMaxZerowidth | terminal-emulator/src/term/cell.rs:21-23 | the byte cap alone admits more than MAX_ZEROWIDTH_CHARS combining characters: `e` with six U+0301 takes 13 bytes |
| TermCell.Cell.constructor | terminal-emulator/src/term/cell.rs:100-109 | `new(c, fg, bg)` holds exactly `[c]`, the given colours and no flags, and is valid |
| TermCell.Cell.Default | terminal-emulator/src/term/cell.rs:49-57 | the default cell is a space in the default foreground and background with no flags, and it is empty |
| TermCell.Cell.IsEmpty | terminal-emulator/src/term/cell.rs:111-118 | a cell is empty iff its glyph is exactly " " or "\t", its background is the default background, and none of Inverse, Underline and Strikeout is set |
| TermCell.Cell.Reset | terminal-emulator/src/term/cell.rs:120-124 | after a reset every field (fg, bg, flags, contents) equals the template's, so the reset is total, not partial |
| TermCell.Cell.SetChar | terminal-emulator/src/term/cell.rs:160-166 | the glyph becomes exactly `[chr]`, the previous glyph is returned, the first char is `chr`, and fg, bg and flags are unchanged |
| TermCell.Cell.PushExtra | terminal-emulator/src/term/cell.rs:146-149 | the character is appended after the existing ones, the cell stays valid, the first char and fg, bg and flags are unchanged; callers must stay within 24 bytes |
| TermCell.Cell.FirstChar | terminal-emulator/src/term/cell.rs:151-158 | on a valid cell (every cell the operations produce) the first char exists and is the head of the glyph |
| TermCell.Cell.Chars | terminal-emulator/src/term/cell.rs:131-144 | the result has 1 + MAX_ZEROWIDTH_CHARS entries; entry i is the glyph's i-th char when there is one and a space otherwise; on a valid cell entry 0 is the first char |
| TermCell.FlagPredicatesTestMembership | terminal-emulator/src/term/cell.rs:84-98 | `bold`, `inverse` and `dim` each hold iff their own flag is among the cell's flags |
| TermCell.DimBoldCellIsBoldAndDim | terminal-emulator/src/term/cell.rs:34-35 | a cell reports both bold and dim iff its flags contain DIM_BOLD |
| LineLength.TrimmedLengthEndsContent | terminal-emulator/src/term/cell.rs:73-80 | the reverse scan's result ends the content: all cells from it on are a single space and the cell before it is not; and it is the only position with that property |
| LineLength.WrappedRowIsFull | terminal-emulator/src/term/cell.rs:69-71 | when the last cell has WRAPLINE the occupied length is the whole row, whatever the trailing cells hold |
| LineLength.UnwrappedRowEndsAtContent | terminal-emulator/src/term/cell.rs:67-80 | without WRAPLINE on the last cell, n is the occupied length iff n ends the content (one past the last non-space cell, 0 if every cell is a space) |
| LineLength.ContentIsWithinOccupiedLength | terminal-emulator/src/term/cell.rs:65-82 | every cell whose glyph is not a single space lies before the occupied length, which never exceeds the row length |
| LineLength.OneGlyphInTenColumns | terminal-emulator/src/term/cell.rs:176-183 | a row of ten spaces with `a` in column 5 and no wrap has occupied length 6 |
| LineLength.LineLength | terminal-emulator/src/term/cell.rs:65-82 | the reverse scan with early exit returns exactly the occupied length of any non-empty row |

## Left out

- Colours: the ANSI module that defines `Color` and `NamedColor` is not part of this model. `Ansi` is a minimal stand-in, and only equality with `Named(Background)` and `Named(Foreground)` is used.
- Rows: the grid module's `Row` is not part of this model. A row is a `seq<Cell>`, and nothing is assumed about aliasing between its cells. `LineLength` requires a non-empty row because the source indexes `self.len() - 1`.
- Flags: only the operations cell.rs uses are modelled (`contains`, `intersects`, bitwise or, `empty`, and `insert` from its tests). The rest of the bit-set API generated for the 16-bit representation is left out.
- Glyph bytes: the UTF-8 encoding itself is not modelled. Each character's byte count comes from its code point range.
- TermCell.Cell.PushExtra: it requires the new byte length to stay within 24 because the fixed-capacity string's `push` does not saturate: it panics on overflow. The panic path is not modelled as a result.
- MAX_ZEROWIDTH_CHARS: push_extra does not enforce this count; only the 24-byte capacity is enforced (see `CapacityAdmitsMoreThanMaxZerowidth`). Any limit that callers in the terminal handler apply is not part of this model. `Chars` returns only the first six characters.
- as_str: it returns a copy of the contents field. The model reads `contents` directly.
- The benchmark module (cell.rs:195-212), the inline/derive annotations, `Copy`, and the `Debug` formatting are left out. Cell equality is field-by-field equality, and `Reset` states it field by field.
- The terminal test `line_length_works_with_wrapline` (cell.rs:185-192) is the instance `|row| = 10` of `WrappedRowIsFull`.
