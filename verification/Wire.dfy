/** The wire protocol of network.h: message codes and the packet record. */
module Wire {
  newtype byte = x: int | 0 <= x < 256

  const PAGE_SIZE: nat := 4096

  /** The contents of one page. */
  type Page = seq<byte>

  /** memset(payload, 0, 4096) */
  function ZeroPage(): (p: Page)
    ensures |p| == PAGE_SIZE
  {
    seq(PAGE_SIZE, _ => 0)
  }

  const READ: nat := 1
  const WRITE: nat := 2
  const SEND_PAGE: nat := 3
  const INVALIDATE: nat := 5
  const INVALIDATE_ACK: nat := 6

  datatype Packet = Packet(kind: nat, page: nat, sender: nat, payload: Page)

  /** A packet leaving on a connection. */
  datatype Sent = Sent(fd: int, packet: Packet)

  /** Nothing leaves on fd -1. */
  function Send(fd: int, packet: Packet): seq<Sent> {
    if fd == -1 then [] else [Sent(fd, packet)]
  }
}
