/** The request record, the command frame, the scripted peripheral and the
    checksum rule of the Pi-Plates driver's message exchange. */
module PiPlate {

  /** An `unsigned char`. */
  type byte = b: int | 0 <= b < 256

  /** Capacity of the caller's response buffer `rBuf`. */
  const BUF_SIZE: nat := 128

  /** Longest identity string the exchange collects (`MAX_ID_LEN`). */
  const MAX_ID_LEN: nat := 25

  /** The errno value `EIO`; the driver returns its negation. */
  const EIO: int := 5

  /** What a MISO line that nobody drives reads as. */
  const IDLE: byte := 0xFF

  /** The first byte value that is not a 7-bit ASCII character. */
  const NOT_ASCII: byte := 0x7F

  /** `struct message` without its `rBuf` (the caller's buffer, passed as an
      array of its own) and without `state` (set by the ioctl handler). A
      positive `bytesToReturn` asks for that many bytes, zero for none, and
      any negative value for the NUL-terminated identity string. */
  datatype Message = Message(
    addr: byte, cmd: byte, p1: byte, p2: byte,
    bytesToReturn: int, useACK: bool)

  /** The four bytes sent for a message. */
  function Command(m: Message): seq<byte>
  {
    [m.addr, m.cmd, m.p1, m.p2]
  }

  /** Nothing in the driver compares `bytesToReturn` with `BUF_SIZE`; this is
      what a caller must guarantee so that every write lands inside `rBuf`
      (in ACK mode the verification byte is stored after the payload). The
      identity-string reads touch at most index 26. */
  predicate Fits(m: Message)
  {
    if m.useACK then m.bytesToReturn + 1 <= BUF_SIZE else m.bytesToReturn <= BUF_SIZE
  }

  /** A non-zero status from the SPI core. */
  type ErrCode = c: int | c != 0 witness -5

  /** What one `spi_sync` call does: it succeeds and clocks in a byte, or it
      fails with a status. */
  datatype Sync = Ok(rx: byte) | Err(code: ErrCode)

  /** The peripheral and the clock, as a script indexed by the number of
      `spi_sync` calls made so far: `reply(k)` is the outcome of transfer k,
      `ackTimeout(k)` says whether the wait on the ACK line made just before
      transfer k runs out of time, and `overran(k)` whether transfer k takes
      longer than `TIME_MAX`. */
  datatype Peripheral = Peripheral(
    reply: nat -> Sync,
    ackTimeout: nat -> bool,
    overran: nat -> bool)

  /** The verification rule `(~verifier & 0xFF) == (sum & 0xFF)` on C
      `int`s: in two's complement `~v` is `-v - 1`, and `& 0xFF` keeps the
      remainder modulo 256, which Dafny's `%` computes for negative operands
      too. */
  predicate ChecksumOk(sum: nat, verifier: byte)
  {
    (-(verifier as int) - 1) % 256 == sum % 256
  }
}
