/** One pixel of the captured image stack: eight-bit red, green and blue
    samples (channels 0, 1 and 2 of the input buffer; further channels are
    never read by the core). A pixel's frame stack is a `seq<Rgb>`, frame
    index first. */
module Pixels {

  /** The number of frames every reduction runs over (`RDom(0, 7)`). */
  const Frames: nat := 7

  type Byte = b: int | 0 <= b < 256

  datatype Rgb = Rgb(r: Byte, g: Byte, b: Byte)

  /** Channel `c` of `p`, as stored. */
  function Sample(p: Rgb, c: nat): Byte
    requires c < 3
  {
    if c == 0 then p.r else if c == 1 then p.g else p.b
  }
}
