/** A board cell: `std::variant<int, set_t>`, either a fixed value or the
    word of its candidate set. */
module Cells {
  import opened Bits

  datatype Cell = Fixed(digit: int) | Candidates(word: Word)

  /** The character a cell is rendered as: a fixed value `d` is the character
      `'0' + d` narrowed to an 8-bit `char`, which for 0 to 9 is its decimal
      digit; an undecided cell is `'.'`. */
  function Glyph(cell: Cell): (ch: char)
    ensures ch as int < 256
    ensures cell.Candidates? ==> ch == '.'
    ensures cell.Fixed? && 0 <= cell.digit <= 9 ==> ch == "0123456789"[cell.digit]
  {
    match cell
    case Fixed(d) => ((48 + d) % 256) as char
    case Candidates(_) => '.'
  }
}
