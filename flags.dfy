/**
 * The style bit set of a terminal cell. The source declares it as a 16-bit
 * bit set with ten single-bit flags and one combined constant, DIM_BOLD.
 * Here a value of `Flags` is a 16-bit vector that may only use those ten bits;
 * `Members` gives the same value as a set of `Flag`s.
 */
module CellFlags {

  /** The ten single-bit flags, in the order of their bits. */
  datatype Flag =
    | Inverse | Bold | Italic | Underline | WrapLine
    | WideChar | WideCharSpacer | Dim | Hidden | Strikeout

  /** Every bit a flag may use. */
  const ALL_BITS: bv16 := 0x3FF

  type Flags = f: bv16 | f & !ALL_BITS == 0

  /** The bit of each flag, as the source assigns them. */
  function Bit(x: Flag): Flags
  {
    match x
    case Inverse        => 0x001
    case Bold           => 0x002
    case Italic         => 0x004
    case Underline      => 0x008
    case WrapLine       => 0x010
    case WideChar       => 0x020
    case WideCharSpacer => 0x040
    case Dim            => 0x080
    case Hidden         => 0x100
    case Strikeout      => 0x200
  }

  const INVERSE: Flags := Bit(Inverse)
  const BOLD: Flags := Bit(Bold)
  const ITALIC: Flags := Bit(Italic)
  const UNDERLINE: Flags := Bit(Underline)
  const WRAPLINE: Flags := Bit(WrapLine)
  const WIDE_CHAR: Flags := Bit(WideChar)
  const WIDE_CHAR_SPACER: Flags := Bit(WideCharSpacer)
  const DIM: Flags := Bit(Dim)
  /** Declared in the source by its own bit pattern, 0b00_1000_0010. */
  const DIM_BOLD: Flags := 0x082
  const HIDDEN: Flags := Bit(Hidden)
  const STRIKEOUT: Flags := Bit(Strikeout)

  /** The empty set of flags. */
  const EMPTY: Flags := 0

  const ALL_FLAGS: seq<Flag> :=
    [Inverse, Bold, Italic, Underline, WrapLine, WideChar, WideCharSpacer, Dim, Hidden, Strikeout]

  /** Flag `x` is set in `f`. */
  predicate Has(f: Flags, x: Flag)
  {
    f & Bit(x) != 0
  }

  /** The flags whose bits are set in `f`. */
  function Members(f: Flags): (m: set<Flag>)
    ensures forall x :: x in m <==> Has(f, x)
  {
    set x | x in ALL_FLAGS && Has(f, x)
  }

  /** Every bit of `other` is set in `flags`. */
  predicate Contains(flags: Flags, other: Flags)
  {
    flags & other == other
  }

  /** Some bit of `other` is set in `flags`. */
  predicate Intersects(flags: Flags, other: Flags)
  {
    flags & other != 0
  }

  function Union(flags: Flags, other: Flags): Flags
  {
    flags | other
  }

  /** Sets the bits of `other`, as the bit set's insert does. */
  function Insert(flags: Flags, other: Flags): (f: Flags)
    ensures Contains(f, other)
    ensures forall x :: Has(f, x) <==> Has(flags, x) || Has(other, x)
  {
    forall x ensures Has(flags | other, x) <==> Has(flags, x) || Has(other, x) {
      HasOfOrAnd(flags, other, x);
    }
    Union(flags, other)
  }

  /** A flag is set in the union (intersection) of two values iff it is set in either (both). */
  lemma HasOfOrAnd(f: Flags, g: Flags, x: Flag)
    ensures Has(f | g, x) <==> Has(f, x) || Has(g, x)
    ensures Has(f & g, x) <==> Has(f, x) && Has(g, x)
  {
    BitIsPowerOfTwo(x);
    SingleBitOrAnd(f, g, Bit(x));
  }

  lemma BitIsPowerOfTwo(x: Flag)
    ensures var b: bv16 := Bit(x);
      b == 1 || b == 2 || b == 4 || b == 8 || b == 16 || b == 32 || b == 64 || b == 128 || b == 256 || b == 512
  {
  }

  lemma SingleBitOrAnd(f: bv16, g: bv16, b: bv16)
    requires b == 1 || b == 2 || b == 4 || b == 8 || b == 16 || b == 32 || b == 64 || b == 128 || b == 256 || b == 512
    ensures (f | g) & b != 0 <==> f & b != 0 || g & b != 0
    ensures (f & g) & b != 0 <==> f & b != 0 && g & b != 0
  {
    assert (f | g) & b == (f & b) | (g & b);
  }

  predicate SingleBit(b: bv16)
  {
    b != 0 && b & (b - 1) == 0
  }

  lemma FlagsAreDistinctSingleBits(x: Flag, y: Flag)
    ensures SingleBit(Bit(x))
    ensures Members(Bit(x)) == {x}
    ensures x != y ==> Bit(x) & Bit(y) == 0
  {
    forall z ensures Has(Bit(x), z) <==> z == x { }
  }

  /** DIM_BOLD is not a flag of its own: it is exactly DIM together with BOLD. */
  lemma DimBoldIsDimAndBold(f: Flags)
    ensures DIM_BOLD == DIM | BOLD
    ensures !SingleBit(DIM_BOLD)
    ensures Members(DIM_BOLD) == {Dim, Bold}
    ensures Contains(f, DIM_BOLD) <==> Contains(f, DIM) && Contains(f, BOLD)
  {
    forall z ensures Has(DIM_BOLD, z) <==> z == Dim || z == Bold { }
  }

  /** Two values of `Flags` that agree on every flag are equal: only the ten flag bits can be set. */
  lemma SameFlagsSameBits(f: Flags, g: Flags)
    requires forall x :: Has(f, x) <==> Has(g, x)
    ensures f == g
  {
    assert Has(f, Inverse) == Has(g, Inverse) && Has(f, Bold) == Has(g, Bold);
    assert Has(f, Italic) == Has(g, Italic) && Has(f, Underline) == Has(g, Underline);
    assert Has(f, WrapLine) == Has(g, WrapLine) && Has(f, WideChar) == Has(g, WideChar);
    assert Has(f, WideCharSpacer) == Has(g, WideCharSpacer) && Has(f, Dim) == Has(g, Dim);
    assert Has(f, Hidden) == Has(g, Hidden) && Has(f, Strikeout) == Has(g, Strikeout);
  }

  /** A value of `Flags` is determined by the set of its flags. */
  lemma MembersDetermineFlags(f: Flags, g: Flags)
    ensures Members(f) == Members(g) <==> f == g
  {
    if Members(f) == Members(g) {
      forall x ensures Has(f, x) <==> Has(g, x) {
        assert x in Members(f) <==> x in Members(g);
      }
      SameFlagsSameBits(f, g);
    }
  }

  lemma UnionIsSetUnion(flags: Flags, other: Flags)
    ensures Members(Union(flags, other)) == Members(flags) + Members(other)
  {
    forall x ensures x in Members(flags | other) <==> x in Members(flags) + Members(other) {
      HasOfOrAnd(flags, other, x);
    }
  }

  lemma ContainsIsSubset(flags: Flags, other: Flags)
    ensures Contains(flags, other) <==> Members(other) <= Members(flags)
  {
    if Members(other) <= Members(flags) {
      forall x ensures Has(flags & other, x) <==> Has(other, x) {
        assert x in Members(other) ==> x in Members(flags);
      }
      SameFlagsSameBits(flags & other, other);
    }
  }

  lemma IntersectsIsSharedMember(flags: Flags, other: Flags)
    ensures Intersects(flags, other) <==> Members(flags) * Members(other) != {}
  {
    if Members(flags) * Members(other) == {} {
      forall x ensures Has(flags & other, x) <==> Has(EMPTY, x) {
        assert x !in Members(flags) * Members(other);
        HasOfOrAnd(flags, other, x);
      }
      SameFlagsSameBits(flags & other, EMPTY);
    }
  }
}
