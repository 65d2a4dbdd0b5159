/** DHCP options by code, as the client keeps them and as they are read from a packet. */
module OptionValues {
  import opened Bytes

  type Options = map<byte, seq<byte>>

  /** The value of an option; one of length zero counts as missing, as the `len` tests of the client do. */
  function Value(options: Options, code: byte): seq<byte> {
    if code in options then options[code] else []
  }
}
