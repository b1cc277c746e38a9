/** The machine's unsigned widths. */
module Words {
  type u16 = x: int | 0 <= x < 0x1_0000

  type byte = x: int | 0 <= x < 0x100
}
