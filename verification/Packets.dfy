/** Packets and the errors their parsers return (network/packet.go). */
module Packets {
  import opened Bytes

  const PACKET_MAX_LENGTH := 0xff_ffff

  datatype Packet =
    | Binary(encrypted: bool, compressed: bool, compressSupport: bool,
             protocolType: byte, protocolVer: byte, raw: bytes)
    | Text(text: bytes)
    | Ping(data: bytes)
    | Http
    | UnixMsg

  datatype NetError = Unsupported | DataNotReady | DataNotMatch | DataIsDamage | ClientReqDisconnect
}
