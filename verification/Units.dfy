/** The units the modelled programs count data in. */
module Units {

  /** A byte as a number. */
  type Byte = x: int | 0 <= x < 256

  /** A code unit of a JavaScript string. */
  type CodeUnit = x: int | 0 <= x < 0x1_0000

  type Text = seq<CodeUnit>
}
