/** The EEPROM as a sequence of bytes. */
module Eeproms {
  import opened Bits

  const EEPROM_SIZE := 0x1000

  type Eeprom = e: seq<Byte> | |e| == EEPROM_SIZE witness seq(EEPROM_SIZE, _ => 0)
}
