/**
 The entities shared by the decoder, the command log and the aggregator: one
 logged colour command (the client's `RGBObject`) and an aggregate colour.
 */
module Commands {

  /** Start value of every channel before any command is replayed. */
  const DefaultChannel: int := 127

  /** A decoded colour command. An absolute command carries three channel values
      that replace the running colour; a relative one carries three signed deltas.
      `selected` decides whether the command takes part in replay. */
  datatype Command = Command(absolute: bool, r: int, g: int, b: int, selected: bool)

  /** A colour as three channel values. */
  datatype Color = Color(r: int, g: int, b: int)

  const Baseline: Color := Color(DefaultChannel, DefaultChannel, DefaultChannel)

  /** The channel values of a command, as a colour. */
  function ValuesOf(c: Command): Color {
    Color(c.r, c.g, c.b)
  }

  /** Two commands that differ at most in their selection flag. */
  predicate SameContent(c: Command, d: Command) {
    c.absolute == d.absolute && c.r == d.r && c.g == d.g && c.b == d.b
  }

  predicate InRange(x: int, lo: int, hi: int) {
    lo <= x <= hi
  }

  /** A range containing every value the decoder can produce: an unsigned byte
      per channel for an absolute command, and the 16-bit signed range, which
      contains every value of `hi << 8 | lo` on two bytes, for a relative one. */
  predicate Decodable(c: Command) {
    if c.absolute then
      InRange(c.r, 0, 255) && InRange(c.g, 0, 255) && InRange(c.b, 0, 255)
    else
      InRange(c.r, -0x8000, 0x7FFF) && InRange(c.g, -0x8000, 0x7FFF) && InRange(c.b, -0x8000, 0x7FFF)
  }

  /** Every channel lies in [lo, hi]. */
  predicate ColorWithin(c: Color, lo: int, hi: int) {
    InRange(c.r, lo, hi) && InRange(c.g, lo, hi) && InRange(c.b, lo, hi)
  }
}
