/**
 The digit codes of display.h that the user interface writes. The MAX7219
 decodes digit registers in Code-B, where 0x0A is a minus sign, 0x0B the letter
 E and 0x0F a blank.
 */
module Display {
  import opened Word

  const MINUS: U8 := 0x0A
  const BLANK: U8 := 0x0F
  const ERROR: U8 := 0x0B

  /** The five registers one ui_update writes: four digits and the LED row. */
  datatype Frame = Frame(digit1: U8, digit10: U8, digit100: U8, digit1000: U8, leds: U8)
}
