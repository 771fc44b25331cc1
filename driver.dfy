/** The driver side: the device record (`struct piplate_dev`) with the FRAME
    line, the command buffer and the receive byte, and `piplate_spi_message`
    as a method whose every loop is proved to compute the corresponding
    function of `ExchangeSpec`. */
module Driver {
  import opened PiPlate
  import opened ExchangeSpec

  class Device {
    /** The plate on the other end of the bus, and the clock. */
    const env: Peripheral
    /** `MAX_ATTEMPTS`, a build-time constant of the driver. */
    const maxAttempts: nat
    /** `dev->tx_buf`: the four-byte command frame. */
    const txBuf: array<byte>

    /** `dev->rx_buf[0]`, the only receive byte any transfer here fills. */
    var rx: byte
    /** Level of the FRAME GPIO line. */
    var frame: bool
    /** Number of `spi_sync` calls made so far. */
    var syncs: nat
    /** Command frames put on the bus, oldest first. */
    ghost var sent: seq<seq<byte>>
    /** FRAME level at the beginning of each attempt, oldest first. */
    ghost var starts: seq<bool>

    ghost predicate Valid()
      reads this
    {
      txBuf.Length == 4 && 0 < maxAttempts
    }

    /** The part of the device and of the caller's buffer an exchange changes. */
    ghost function Snapshot(rBuf: array<byte>): State
      reads this, rBuf
    {
      State(rBuf[..], frame, syncs, sent, starts)
    }

    /** Sets up the device record, with FRAME driven low as `piplate_spi_init`
        does. */
    constructor (env: Peripheral, maxAttempts: nat)
      requires 0 < maxAttempts
      ensures Valid() && fresh(txBuf) && this.env == env && this.maxAttempts == maxAttempts
      ensures !frame && syncs == 0 && sent == [] && starts == []
    {
      this.env := env;
      this.maxAttempts := maxAttempts;
      txBuf := new byte[4];
      rx, frame, syncs := 0, false, 0;
      sent, starts := [], [];
    }

    /** `spi_sync` on the four-byte command message; nothing is clocked in. */
    method Transmit() returns (status: int)
      requires Valid()
      modifies this`syncs, this`sent
      ensures syncs == old(syncs) + 1 && sent == old(sent) + [txBuf[..]]
      ensures status == match env.reply(old(syncs)) case Ok(_) => 0 case Err(c) => c
    {
      match env.reply(syncs) {
        case Ok(_) => status := 0;
        case Err(c) => status := c;
      }
      sent := sent + [txBuf[..]];
      syncs := syncs + 1;
    }

    /** `spi_sync` on the one-byte receive message, into `rx`. */
    method Receive() returns (status: int)
      modifies this`rx, this`syncs
      ensures syncs == old(syncs) + 1
      ensures match env.reply(old(syncs))
              case Ok(b) => status == 0 && rx == b
              case Err(c) => status == c && rx == old(rx)
    {
      match env.reply(syncs) {
        case Ok(b) => status, rx := 0, b;
        case Err(c) => status := c;
      }
      syncs := syncs + 1;
    }

    /** The fixed-count read without ACK. */
    method ReceiveFixed(n: nat, first: bool, rBuf: array<byte>) returns (e: Ending)
      requires n <= rBuf.Length
      modifies this`rx, this`syncs, rBuf
      ensures Read(e, rBuf[..], syncs) == FixedRead(env.reply, n, first, 0, old(syncs), old(rBuf[..]))
    {
      var count := 0;
      while count < n
        invariant count <= n
        invariant FixedRead(env.reply, n, first, count, syncs, rBuf[..])
               == FixedRead(env.reply, n, first, 0, old(syncs), old(rBuf[..]))
      {
        var status := Receive();
        if status != 0 {
          return Fail(status);
        }
        if rx == IDLE && first {
          return Restart;
        }
        rBuf[count] := rx;
        count := count + 1;
      }
      return Finish;
    }

    /** The identity-string read without ACK. */
    method ReceiveId(rBuf: array<byte>) returns (e: Ending)
      requires MAX_ID_LEN < rBuf.Length
      modifies this`rx, this`syncs, rBuf
      ensures Read(e, rBuf[..], syncs) == IdRead(env.reply, 0, old(syncs), old(rBuf[..]))
    {
      var count := 0;
      while count < MAX_ID_LEN
        invariant count <= MAX_ID_LEN
        invariant IdRead(env.reply, count, syncs, rBuf[..])
               == IdRead(env.reply, 0, old(syncs), old(rBuf[..]))
      {
        var status := Receive();
        if status != 0 {
          return Fail(status);
        }
        if rx >= NOT_ASCII {
          return Restart;
        }
        if rx != 0 {
          rBuf[count] := rx;
          count := count + 1;
        } else {
          rBuf[count + 1] := 0;
          count := MAX_ID_LEN;
        }
      }
      return Finish;
    }

    /** The fixed-count read with ACK: the payload and then the verification byte. */
    method ReceiveFixedAck(n: nat, rBuf: array<byte>) returns (e: Ending, sum: nat, verifier: byte)
      requires 0 < n && n + 1 <= rBuf.Length
      modifies this`rx, this`syncs, rBuf
      ensures AckRead(e, rBuf[..], syncs, sum, verifier)
           == AckFixedRead(env.reply, n + 1, 0, old(syncs), old(rBuf[..]), 0)
    {
      var rxLen := n + 1;
      var count := 0;
      sum, verifier := 0, 0;
      while count < rxLen
        invariant count <= rxLen
        invariant 0 < count ==> rx == rBuf[count - 1]
        invariant AckFixedRead(env.reply, rxLen, count, syncs, rBuf[..], sum)
               == AckFixedRead(env.reply, rxLen, 0, old(syncs), old(rBuf[..]), 0)
      {
        var status := Receive();
        if status != 0 {
          return Fail(status), sum, 0;
        }
        rBuf[count] := rx;
        if count < rxLen - 1 {
          sum := sum + rx;
        }
        count := count + 1;
      }
      verifier := rx;
      e := Finish;
    }

    /** The identity-string read with ACK. */
    method ReceiveIdAck(rBuf: array<byte>) returns (e: Ending, sum: nat, verifier: byte)
      requires MAX_ID_LEN + 1 < rBuf.Length
      modifies this`rx, this`syncs, rBuf
      ensures AckRead(e, rBuf[..], syncs, sum, verifier)
           == AckIdRead(env.reply, 0, old(syncs), old(rBuf[..]), 0)
    {
      var rxLen := MAX_ID_LEN + 1;
      var count := 0;
      sum, verifier := 0, 0;
      while count < rxLen
        invariant count <= rxLen
        invariant AckIdRead(env.reply, count, syncs, rBuf[..], sum)
               == AckIdRead(env.reply, 0, old(syncs), old(rBuf[..]), 0)
      {
        var status := Receive();
        if status != 0 {
          return Fail(status), sum, 0;
        }
        if rx != 0 {
          rBuf[count] := rx;
          sum := sum + rx;
          count := count + 1;
        } else {
          // Setting `count` to `rx_len` ends the loop with nothing left to do.
          e, verifier := ReceiveVerifier(count, sum, rBuf);
          return;
        }
      }
      e := Finish;
    }

    /** After the NUL that ends an identity string of `count` characters:
        the terminator written one place further on, then the transfer that
        brings the verification byte. */
    method ReceiveVerifier(count: nat, sum: nat, rBuf: array<byte>) returns (e: Ending, verifier: byte)
      requires count + 1 < rBuf.Length
      modifies this`rx, this`syncs, rBuf
      ensures AckRead(e, rBuf[..], syncs, sum, verifier)
           == AckIdVerify(env.reply, count, old(syncs), old(rBuf[..]), sum)
    {
      rBuf[count + 1] := 0;
      var status := Receive();
      if status != 0 {
        return Fail(status), 0;
      }
      return Finish, rx;
    }

    /** One pass from `start` to `goto start`, `goto end` or the success
        return, leaving the lowering of FRAME to the caller. */
    method RunAttempt(m: Message, first: bool, rBuf: array<byte>) returns (e: Ending)
      requires Valid() && Fits(m) && rBuf.Length == BUF_SIZE && rBuf != txBuf
      modifies this, txBuf, rBuf
      ensures (e, Snapshot(rBuf)) == Attempt(env, m, first, old(Snapshot(rBuf)))
    {
      starts := starts + [frame];
      txBuf[0], txBuf[1], txBuf[2], txBuf[3] := m.addr, m.cmd, m.p1, m.p2;
      assert txBuf[..] == Command(m);
      // Confirm the ACK line is high before the transfer begins.
      if m.useACK && env.ackTimeout(syncs) {
        return Fail(-EIO);
      }
      frame := true;
      var k := syncs;
      var status := Transmit();
      if env.overran(k) {
        return Restart;
      }
      if status != 0 {
        return Fail(status);
      }
      if m.bytesToReturn != 0 {
        // With ACK, wait for the line to go low; without, a fixed delay.
        if m.useACK && env.ackTimeout(syncs) {
          return Fail(-EIO);
        }
        if !m.useACK {
          if m.bytesToReturn > 0 {
            e := ReceiveFixed(m.bytesToReturn, first, rBuf);
          } else {
            e := ReceiveId(rBuf);
          }
          if e != Finish {
            return;
          }
        } else {
          var sum, verifier;
          if m.bytesToReturn > 0 {
            e, sum, verifier := ReceiveFixedAck(m.bytesToReturn, rBuf);
          } else {
            e, sum, verifier := ReceiveIdAck(rBuf);
          }
          if e != Finish {
            return;
          }
          if !ChecksumOk(sum, verifier) {
            return Fail(-EIO);
          }
        }
      }
      return Finish;
    }

    /** `piplate_spi_message`: the `goto start` label is the head of the
        loop, and the attempt counter its measure. */
    method SpiMessage(m: Message, rBuf: array<byte>) returns (status: int)
      requires Valid() && Fits(m) && rBuf.Length == BUF_SIZE && rBuf != txBuf
      modifies this, txBuf, rBuf
      ensures !frame
      ensures Outcome(status, Snapshot(rBuf))
           == Exchange(env, m, maxAttempts, maxAttempts + 1, old(Snapshot(rBuf)))
    {
      ghost var goal := Exchange(env, m, maxAttempts, maxAttempts + 1, Snapshot(rBuf));
      var attempts: int := maxAttempts + 1;
      while true
        invariant 0 <= attempts <= maxAttempts + 1
        invariant Exchange(env, m, maxAttempts, attempts, Snapshot(rBuf)) == goal
        decreases attempts
      {
        ghost var entry, entered := attempts, Snapshot(rBuf);
        if attempts < maxAttempts {
          frame := false;
          if attempts <= 0 {
            return -EIO;
          }
        }
        ghost var cleaned := Snapshot(rBuf);
        attempts := attempts - 1;
        var first := attempts == maxAttempts;
        var e := RunAttempt(m, first, rBuf);
        ExchangeRound(env, m, maxAttempts, entry, attempts, entered, cleaned, first, e, Snapshot(rBuf));
        match e {
          case Finish =>
            frame := false;
            return 0;
          case Fail(s) =>
            frame := false;
            return s;
          case Restart =>
        }
      }
    }
  }
}
