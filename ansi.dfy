/**
 * Stand-in for the colour types of the terminal's ANSI module, which is not
 * part of this model. A cell only ever compares its background against the
 * terminal's default background, so the colour is kept abstract: a named
 * palette slot, an index into the 256-colour palette, or a 24-bit RGB value.
 */
module Ansi {

  /** The named palette slots: the sixteen ANSI colours and the default foreground and background. */
  datatype NamedColor =
    | Black | Red | Green | Yellow | Blue | Magenta | Cyan | White
    | BrightBlack | BrightRed | BrightGreen | BrightYellow
    | BrightBlue | BrightMagenta | BrightCyan | BrightWhite
    | Foreground | Background

  datatype Rgb = Rgb(r: bv8, g: bv8, b: bv8)

  datatype Color =
    | Named(name: NamedColor)
    | Spec(rgb: Rgb)
    | Indexed(index: bv8)
}
