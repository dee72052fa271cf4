/** The packets of the programming examples: what is uploaded, and into which memory. */
module Uploading {
  import opened Bytes

  const TARGET_FLASH_W: byte := 0x85
  const TARGET_EEPROM_W: byte := 0x86
  const TARGET_EEEPROM_W: byte := 0x87
  const TARGET_PLUGIN_W: byte := 0x88

  datatype Upload = Upload(target: byte, data: seq<byte>)
}
