/** What the modules that handle packets have in common. */
module PacketTypes {
  import opened Bytes

  /** Whether a packet was recognised as the first of a request or of a response. */
  datatype Kind = Req | Rsp | Other

  const TH_FIN: byte := 0x01
  const TH_SYN: byte := 0x02
  const TH_RST: byte := 0x04

  /** Whether the flag octet has the bit `mask`, a power of two. */
  predicate Has(flags: byte, mask: byte)
    requires mask > 0
  {
    (flags as int / mask as int) % 2 == 1
  }
}
