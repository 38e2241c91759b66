/** The allocation-free header parsers of the packet loop. */
module Headers {
  import opened Bytes

  datatype ParseError = PacketTooShort | InvalidHeaderLength | NotIPv6
  datatype Parsed<+T> = Ok(value: T) | Err(error: ParseError)

  datatype Network = Network(proto: byte, src: seq<byte>, dst: seq<byte>, ihl: nat)
  datatype Tcp = Tcp(srcPort: uint16, dstPort: uint16, flags: byte, dataOffset: nat)
  datatype Udp = Udp(srcPort: uint16, dstPort: uint16, length: uint16, dataOffset: nat)

  /** IHL in bytes: the low nibble of byte 0, in 32-bit words. */
  function Ihl(p: seq<byte>): nat
    requires |p| > 0
  {
    (p[0] as int % 16) * 4
  }

  function ParseIPv4Fast(p: seq<byte>): Parsed<Network>
  {
    if |p| < 20 then Err(PacketTooShort)
    else if Ihl(p) < 20 || |p| < Ihl(p) then Err(InvalidHeaderLength)
    else Ok(Network(p[9], p[12..16], p[16..20], Ihl(p)))
  }

  function ParseIPv6Fast(p: seq<byte>): Parsed<Network>
  {
    if |p| < 40 then Err(PacketTooShort)
    else if p[0] / 16 != 6 then Err(NotIPv6)
    else Ok(Network(p[6], p[8..24], p[24..40], 40))
  }

  function ParseTCPFast(p: seq<byte>, offset: nat): Parsed<Tcp>
  {
    if |p| < offset + 20 then Err(PacketTooShort)
    else
      var dataOffset := (p[offset + 12] as int / 16) * 4;
      if dataOffset < 20 || |p| - offset < dataOffset then Err(InvalidHeaderLength)
      else Ok(Tcp(U16(p, offset), U16(p, offset + 2), p[offset + 13], dataOffset))
  }

  function ParseUDPFast(p: seq<byte>, ihl: nat): Parsed<Udp>
  {
    if |p| < ihl + 8 then Err(PacketTooShort)
    else Ok(Udp(U16(p, ihl), U16(p, ihl + 2), U16(p, ihl + 4), ihl + 8))
  }
}
