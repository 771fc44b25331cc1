# Pi-Plates SPI message exchange, in Dafny

This project models `piplate_spi_message`, the function of the Pi-Plates
kernel driver (`module/piplate_driver.c`) that carries out one
command/response exchange with a plate. The exchange goes like this:

1. With the ACK line in use, it waits for that line to be high. A timeout
   here returns `-EIO` before FRAME is raised.
2. It raises the FRAME line.
3. It sends the four command bytes `[addr, cmd, p1, p2]` in one SPI transfer.
4. With ACK it waits for the line to go low. Without ACK it waits a fixed
   delay.
5. It collects the response in one of four ways:
   - a fixed number of bytes, with or without ACK;
   - a NUL-terminated identity string, with or without ACK.
6. In ACK mode it checks the verification byte against the sum of the
   payload.
7. It lowers FRAME and returns 0 or an error status.

Some anomalies send the code back to its `start` label, and an attempt
counter bounds how often that can happen.

The model has five files:

- `piplate.dfy` (module `PiPlate`) holds the data model:
  - `struct message` without its buffer, as `Message`;
  - the constants `BUF_SIZE` and `MAX_ID_LEN`;
  - the command frame;
  - the checksum rule `(~verifier & 0xFF) == (sum & 0xFF)`, written over
    Dafny integers;
  - the peripheral and the clock, as a script. The script gives the outcome
    of the k-th `spi_sync` call, whether the ACK wait made before transfer
    k times out, and whether transfer k takes longer than `TIME_MAX`.
- `exchange_spec.dfy` (module `ExchangeSpec`) gives the behaviour as
  functions of the script and the starting state:
  - the four read loops, from any loop state;
  - one attempt (`start` up to `goto start`, `goto end` or success);
  - the whole exchange, driven by the attempt counter.
- `driver.dfy` (module `Driver`) is the imperative model: class `Device`
  with the transmit buffer (an array), the receive byte, the FRAME line and
  a transfer counter. `SpiMessage` and its helper methods write into the
  caller's `rBuf` array in place, byte by byte, in the same loops as the C
  code. Each method is proved to compute exactly the matching function of
  `ExchangeSpec`. Two ghost logs record the command frames sent and the
  FRAME level at the start of each attempt.
- `exchange_props.dfy` (module `ExchangeProps`) proves what one read loop
  and one attempt do: where the bytes go, why a loop stops, when an attempt
  starts over, and the checksum decision.
- `exchange_theorems.dfy` (module `ExchangeTheorems`) proves facts about a
  whole call by induction on the attempt counter:
  - FRAME is low on every exit;
  - the call makes between 1 and `MAX_ATTEMPTS + 1` attempts;
  - the clean-up schedule;
  - only the command frame is ever sent;
  - which error statuses can come back;
  - nothing past the response is written;
  - what a successful call leaves in `rBuf`, in each of the four read
    modes: the bytes of the last transfers, the terminator of an identity
    string one place past its characters, and, with ACK, a verification
    byte that matches their sum.

The model follows what the code does, including these behaviours, some
of which a reader might not expect:

- A timeout on the ACK line (either wait) and a checksum mismatch end the
  exchange with `-EIO`. They do not restart it.
- The counter starts at `MAX_ATTEMPTS + 1` and gives up only when an entry
  finds it at 0 or below, so a call makes up to `MAX_ATTEMPTS + 1`
  attempts.
- The clean-up (lower FRAME, settle) runs only when the counter is below
  `MAX_ATTEMPTS`. The first restart therefore begins with FRAME still
  high.
- In the fixed read without ACK, the idle-byte (0xFF) restart fires on any
  byte of the first attempt, not only on the first byte.
- In both identity-string reads, a NUL after `k` characters writes the
  terminator at `rBuf[k + 1]`. `rBuf[k]` keeps whatever it held.
- The identity-string read with ACK has no 0x7F check. It reads up to 26
  bytes (`MAX_ID_LEN + 1`). When no NUL arrives, the verification byte
  stays 0.
- The fixed read with ACK stores the verification byte in `rBuf[N]`, right
  after the payload.
- The identity-string read without ACK restarts on any byte of 0x7F or
  more.
- Nothing compares `bytesToReturn` with `BUF_SIZE`. The predicate `Fits`
  states what a caller must guarantee so that every write lands inside
  `rBuf`, and the methods require it.
- After the verification byte of an identity string with ACK, the C code
  sets `count` to `rx_len` so that its loop ends. `ReceiveIdAck` returns
  at that point instead, which has the same effect.

`MAX_ATTEMPTS` is not defined in any of the source files the model is based
on. It is a positive parameter of the model (`Device.maxAttempts`).

## Model

| member | source | states |
|---|---|---|
| Driver.Device.constructor | module/piplate_driver.c:40-46 | the device record gets a fresh four-byte transmit buffer and starts with FRAME low, no transfer made and nothing sent |
| Driver.Device.Transmit | module/piplate_driver.c:110-149 | one `spi_sync` of the four-byte frame: the frame sent is exactly the transmit buffer, and the status is 0 or the failure code of that transfer |
| Driver.Device.Receive | module/piplate_driver.c:181-195 | one one-byte `spi_sync`: on success the receive byte is the byte clocked in; on failure the status is the failure code and the receive byte is unchanged |
| Driver.Device.ReceiveFixed | module/piplate_driver.c:193-210 | the `for` loop leaves `rBuf`, the transfer count and the ending exactly as `ExchangeSpec.FixedRead` computes them |
| Driver.Device.ReceiveId | module/piplate_driver.c:212-228 | the `while` loop leaves `rBuf`, the transfer count and the ending exactly as `ExchangeSpec.IdRead` computes them |
| Driver.Device.ReceiveFixedAck | module/piplate_driver.c:237-262 | the loop of `n + 1` rounds leaves `rBuf`, the transfer count, the sum and the verification byte exactly as `ExchangeSpec.AckFixedRead` computes them |
| Driver.Device.ReceiveIdAck | module/piplate_driver.c:264-291 | the loop of up to 26 rounds leaves `rBuf`, the transfer count, the sum and the verification byte exactly as `ExchangeSpec.AckIdRead` computes them |
| Driver.Device.ReceiveVerifier | module/piplate_driver.c:276-290 | after a NUL, the terminator and the one extra transfer give the result of `ExchangeSpec.AckIdVerify` |
| Driver.Device.RunAttempt | module/piplate_driver.c:110-300 | one pass from `start` gives the ending and the new state of `ExchangeSpec.Attempt` |
| Driver.Device.SpiMessage | module/piplate_driver.c:87-316 | returns with FRAME low, and the status and final state are those of `ExchangeSpec.Exchange` entered with the counter at `MAX_ATTEMPTS + 1` |
| ExchangeSpec.FixedRead | module/piplate_driver.c:193-210 | the fixed read without ACK keeps the buffer's length, makes at most `n` more transfers, and fails only with a non-zero status |
| ExchangeSpec.IdRead | module/piplate_driver.c:212-228 | the string read without ACK keeps the buffer's length, makes at most 25 transfers, and fails only with a non-zero status |
| ExchangeSpec.AckFixedRead | module/piplate_driver.c:249-262 | the fixed read with ACK keeps the buffer's length, makes at most `rx_len` transfers, and fails only with a non-zero status |
| ExchangeSpec.AckIdRead | module/piplate_driver.c:264-291 | the string read with ACK keeps the buffer's length, makes at most 27 transfers, and fails only with a non-zero status |
| ExchangeSpec.AckIdVerify | module/piplate_driver.c:276-290 | after the NUL: exactly one more transfer, and a failure carries a non-zero status |
| ExchangeSpec.Reach | module/piplate_driver.c:193-291 | for a message that fits, no index the exchange may write is beyond `BUF_SIZE` |
| ExchangeSpec.Attempt | module/piplate_driver.c:110-300 | an attempt records its starting FRAME level, sends nothing or exactly one command frame, restarts only with FRAME high, and fails only with a non-zero status |
| ExchangeSpec.Exchange | module/piplate_driver.c:93-315 | the exchange keeps the length of `rBuf` |
| ExchangeSpec.ExchangeRound | module/piplate_driver.c:96-315 | one round of the `goto start` loop: success returns 0, failure returns its status, both with FRAME low; a restart re-enters with the counter one lower |
| ExchangeProps.FixedReadStores | module/piplate_driver.c:194-208 | the fixed read without ACK writes the bytes of its accepted transfers to `rBuf[count..]` in order, and writes nothing else |
| ExchangeProps.FixedReadStops | module/piplate_driver.c:194-206 | it runs to the end exactly when every transfer succeeds with an accepted byte; otherwise it stops right after the first one that does not, with that transfer's status, or with a restart on an idle byte in the first attempt |
| ExchangeProps.FixedReadKeepsTail | module/piplate_driver.c:194-208 | the fixed read without ACK never writes at or past index `n` |
| ExchangeProps.FixedReadCopies | module/piplate_driver.c:194-208 | a successful fixed read from any round on stores the byte of round `i` at `rBuf[i]`, keeps earlier places, and makes exactly the remaining transfers |
| ExchangeProps.FixedReadFills | module/piplate_driver.c:193-210 | a successful fixed read makes exactly `n` transfers, and `rBuf[i]` is the byte of transfer `k + i` |
| ExchangeProps.FixedReadRestarts | module/piplate_driver.c:205-206 | the fixed read restarts if and only if it is the first attempt and one of its transfers brought 0xFF; a failure is the status of its last transfer |
| ExchangeProps.IdReadStops | module/piplate_driver.c:212-228 | the string read without ACK ends after 25 characters, or right after the first transfer that fails (with its status), brings a NUL (success) or brings a byte of 0x7F or more (restart) |
| ExchangeProps.IdReadKeepsTail | module/piplate_driver.c:212-228 | the string read without ACK writes nothing past index 25 |
| ExchangeProps.IdReadRestarts | module/piplate_driver.c:217-218 | the string read without ACK restarts if and only if one of its transfers brought a byte of 0x7F or more; a failure is the status of its last transfer |
| ExchangeProps.IdReadWithNul | module/piplate_driver.c:212-228 | characters below 0x7F followed by a NUL at place `p`: success after `p + 1` transfers, the characters in `rBuf[0..p)` in order, `rBuf[p]` untouched, 0 at `rBuf[p + 1]`, nothing else written |
| ExchangeProps.IdReadWithoutNul | module/piplate_driver.c:212-228 | 25 characters below 0x7F and no NUL: success after 25 transfers, the characters in `rBuf[0..25)` in order, and no terminator |
| ExchangeProps.IdReadNulFills | module/piplate_driver.c:212-228 | `p` characters below 0x7F then a NUL: success after `p + 1` transfers, the characters in `rBuf[0..p)` as the transfers brought them, the terminator at `rBuf[p + 1]` |
| ExchangeProps.IdReadFullFills | module/piplate_driver.c:212-228 | 25 characters below 0x7F: success after 25 transfers, with `rBuf[0..25)` holding the bytes of those transfers |
| ExchangeProps.IdReadFills | module/piplate_driver.c:212-228 | a successful string read without ACK leaves either the characters before the NUL that ended it with the terminator one place past them, or 25 characters, all below 0x7F and from its last transfers |
| ExchangeProps.AckFixedReadStores | module/piplate_driver.c:250-257 | the fixed read with ACK writes every byte it receives, the verification byte included, to `rBuf[count..]` in order, and writes nothing else |
| ExchangeProps.AckFixedReadStops | module/piplate_driver.c:250-262 | the fixed read with ACK runs to the end exactly when every transfer succeeds. The sum then covers all bytes but the last, and the verification byte is the last. Otherwise it stops after the first failed transfer, with its status |
| ExchangeProps.AckFixedReadKeepsTail | module/piplate_driver.c:237-262 | the fixed read with ACK of `n` bytes writes nothing past index `n` |
| ExchangeProps.AckFixedReadEnds | module/piplate_driver.c:250-256 | the fixed read with ACK never restarts; a failure is the status of its last transfer |
| ExchangeProps.AckFixedReadCopies | module/piplate_driver.c:250-262 | a successful fixed read with ACK from any round on stores the byte of round `i` at `rBuf[i]`, sums all but the last, and keeps the last as the verification byte |
| ExchangeProps.AckFixedReadFills | module/piplate_driver.c:237-262 | a successful fixed read with ACK makes `n + 1` transfers; `rBuf[0..n]` holds their bytes; the sum is that of `rBuf[0..n)`; the verification byte is `rBuf[n]` |
| ExchangeProps.AckIdReadEnds | module/piplate_driver.c:264-291 | the string read with ACK never restarts; a failure is the status of its last transfer |
| ExchangeProps.AckIdReadStops | module/piplate_driver.c:264-270 | a transfer that fails before any NUL and before the 26th byte ends the string read with ACK with that transfer's status |
| ExchangeProps.AckIdReadKeepsTail | module/piplate_driver.c:264-291 | the string read with ACK writes nothing past index 26 |
| ExchangeProps.AckIdReadWithNul | module/piplate_driver.c:264-291 | non-NUL bytes of any value (0x7F and up included) then a NUL at place `p`: the bytes fill `rBuf[0..p)` in order and are summed, `rBuf[p]` is untouched, 0 lands at `rBuf[p + 1]`, nothing later is written, and exactly one more transfer follows, giving the verification byte or the read's failure status |
| ExchangeProps.AckIdReadWithoutNul | module/piplate_driver.c:264-275 | 26 non-NUL bytes: success with a verification byte of 0, the bytes in `rBuf[0..26)` in order, their sum, no terminator |
| ExchangeProps.AckIdReadWithoutNulSum | module/piplate_driver.c:231-275 | the whole read of 26 non-NUL bytes ends with exactly 26 transfers, verification byte 0 and the sum of `rBuf[0..26)` |
| ExchangeProps.AckIdReadNulFills | module/piplate_driver.c:264-291 | `p` non-NUL bytes then a NUL: exactly one more transfer, which on success is the verification byte; the bytes in `rBuf[0..p)`, the terminator at `rBuf[p + 1]`, and the sum of `rBuf[0..p)` |
| ExchangeProps.AckIdReadFullFills | module/piplate_driver.c:264-291 | 26 non-NUL bytes: success after 26 transfers with verification byte 0, the bytes in `rBuf[0..26)` and their sum |
| ExchangeProps.AckIdReadFills | module/piplate_driver.c:264-291 | a successful string read with ACK, whether or not its checksum then passes, leaves the bytes before the NUL in `rBuf[0..p)` with the terminator at `rBuf[p + 1]`, their sum, and the byte of the transfer after the NUL as verifier; or 26 non-NUL bytes in `rBuf[0..26)`, their sum, and verifier 0 |
| ExchangeProps.ChecksumMeaning | module/piplate_driver.c:294 | the check `(~verifier & 0xFF) == (sum & 0xFF)` holds if and only if the sum plus the verification byte is 255 modulo 256 |
| ExchangeProps.AttemptSends | module/piplate_driver.c:110-160 | every attempt records its starting FRAME level; a late ACK-high line returns `-EIO` with nothing sent; otherwise FRAME goes high and the four command bytes are sent once; an overrun restarts, checked before the status; a failed command transfer returns its status; with nothing to return the attempt succeeds after one transfer with `rBuf` untouched; a late ACK-low line returns `-EIO` |
| ExchangeProps.FixedAttemptRestarts | module/piplate_driver.c:151-206 | a fixed attempt without ACK restarts if and only if the command transfer overran, or this is the first attempt and a response byte was 0xFF |
| ExchangeProps.AckAttemptRestarts | module/piplate_driver.c:132-298 | an attempt with ACK restarts if and only if the ACK line was high in time and the command transfer overran. ACK timeouts, read failures and checksum mismatches all end the exchange |
| ExchangeProps.IdAttemptRestarts | module/piplate_driver.c:151-218 | a string attempt without ACK restarts if and only if the command transfer overran or a response byte was 0x7F or more, on any attempt |
| ExchangeProps.AttemptFails | module/piplate_driver.c:132-298 | a failing attempt reports `-EIO` or, unchanged, the failure status of the last transfer it made |
| ExchangeProps.AttemptKeepsTail | module/piplate_driver.c:193-291 | no attempt writes `rBuf` at or past `Reach(m)` |
| ExchangeProps.FixedAttemptFills | module/piplate_driver.c:193-210 | a successful fixed attempt without ACK made `n` transfers after the command, and `rBuf[0..n)` holds their bytes in order |
| ExchangeProps.AckFixedAttemptFills | module/piplate_driver.c:249-298 | a successful fixed attempt with ACK made `n + 1` transfers after the command, `rBuf[0..n]` holds their bytes, and `rBuf[n]` matches the sum of `rBuf[0..n)` |
| ExchangeProps.AckFixedAttemptChecks | module/piplate_driver.c:249-298 | when every transfer succeeds in time, the fixed attempt with ACK succeeds if and only if `rBuf[n]` matches the sum of `rBuf[0..n)`; otherwise it returns `-EIO` |
| ExchangeProps.AckIdAttemptChecks | module/piplate_driver.c:264-298 | past the command, a string attempt with ACK leaves `rBuf` and the transfer count as its read does; a failed read returns its status; a successful read makes the attempt succeed if and only if the read's sum and verification byte pass the check (the bytes before the NUL and the byte after it, or all 26 bytes and 0 when no NUL came), and returns `-EIO` otherwise |
| ExchangeProps.AckIdAttemptWithoutNul | module/piplate_driver.c:231-298 | 26 non-NUL bytes and no failure: the attempt succeeds if and only if their sum is 255 modulo 256, and returns `-EIO` otherwise |
| ExchangeProps.IdAttemptFills | module/piplate_driver.c:212-228 | a successful attempt without ACK that reads an identity string leaves its characters in `rBuf`, as `IdReceived` states |
| ExchangeProps.AckIdAttemptFills | module/piplate_driver.c:264-298 | a successful attempt with ACK that reads an identity string leaves its bytes in `rBuf` and a verification byte that matches their sum, as `AckIdReceived` states |
| ExchangeTheorems.ExchangeLowersFrame | module/piplate_driver.c:96-315 | every way out of the exchange, retry exhaustion included, leaves FRAME low |
| ExchangeTheorems.ExchangeAttempts | module/piplate_driver.c:93-108 | entered with the counter at `a`: at most `a` attempts, at least one when `a > 0`, earlier records kept; the first attempt starts with FRAME low when the clean-up ran (`a < MAX_ATTEMPTS`), and with FRAME as the caller left it otherwise; entered at or below `MAX_ATTEMPTS`, every later attempt starts with FRAME low |
| ExchangeTheorems.CallAttempts | module/piplate_driver.c:93-108 | a call makes at least one and at most `MAX_ATTEMPTS + 1` attempts |
| ExchangeTheorems.ExchangeSends | module/piplate_driver.c:110-149 | the only frame ever sent is the message's `[addr, cmd, p1, p2]`, at most once per attempt |
| ExchangeTheorems.CallCleanupSchedule | module/piplate_driver.c:93-108 | in a call, the first attempt starts with FRAME as the caller left it, the second with FRAME still high (the clean-up is skipped while the counter equals `MAX_ATTEMPTS`), and every later one with FRAME low |
| ExchangeTheorems.ExchangeExhausted | module/piplate_driver.c:93-152 | when every transfer overruns and, with ACK, no ACK wait times out, each attempt restarts; the exchange gives up with `-EIO` after exactly as many attempts as the counter allowed, one transfer each |
| ExchangeTheorems.ExchangeStatus | module/piplate_driver.c:93-315 | a non-zero result is `-EIO`, or the failure status of the last transfer made, passed on unchanged |
| ExchangeTheorems.ExchangeKeepsTail | module/piplate_driver.c:193-291 | the exchange never writes `rBuf` at or past `Reach(m)`; with nothing to return it leaves `rBuf` untouched |
| ExchangeTheorems.FixedExchangeFills | module/piplate_driver.c:193-310 | when a fixed exchange without ACK returns 0, `rBuf[0..n)` holds the bytes of the last `n` transfers in order |
| ExchangeTheorems.AckFixedExchangeFills | module/piplate_driver.c:249-310 | when a fixed exchange with ACK returns 0, `rBuf[0..n]` holds the bytes of the last `n + 1` transfers in order |
| ExchangeTheorems.AckFixedExchangeVerifies | module/piplate_driver.c:294-310 | when a fixed exchange with ACK returns 0, the verification byte in `rBuf[n]` matches the sum of `rBuf[0..n)` |
| ExchangeTheorems.IdExchangeFills | module/piplate_driver.c:212-310 | when an identity-string exchange without ACK returns 0, `rBuf` holds the characters of the last transfers before the NUL with the terminator one place past them, or 25 characters |
| ExchangeTheorems.AckIdExchangeFills | module/piplate_driver.c:264-310 | when an identity-string exchange with ACK returns 0, `rBuf` holds the bytes of the last transfers before the NUL, with the terminator one place past them, or 26 bytes, and the verification byte matches their sum |
| ExchangeTheorems.OneAttemptWithoutOverrun | module/piplate_driver.c:151-160 | with ACK, or with nothing to return, only an overrun restarts; without overruns the exchange makes exactly one attempt |
| ExchangeTheorems.FixedCallWithoutOverrun | module/piplate_driver.c:205-206 | a fixed call without ACK and without overruns makes at most two attempts, because only the first attempt restarts on an idle byte |
| ExchangeTheorems.ZeroLengthCall | module/piplate_driver.c:110-310 | a call with nothing to return whose command transfer succeeds in time sends the command once, reads nothing, lowers FRAME and returns 0 |

## Left out

- `piplate_ioctl` (module/piplate_driver.c:351-402) is not modelled. It
  does locking, memory allocation and copies to and from user space, and
  sets `state` on success. The `state` field of `struct message` is
  therefore not modelled either.
- Driver plumbing is not modelled: `piplate_probe`/`piplate_remove`,
  `piplate_open`/`piplate_release` and module init/exit. These are kernel
  registration and GPIO set-up. The constructor of `Device` stands in for
  the device record, with FRAME low as `piplate_spi_init` drives it
  (module/piplate_driver.c:439).
- The clock is not modelled. `jiffies`, `ktime_get`, the `HZ/100` deadline
  and `TIME_MAX` are replaced by the script's per-transfer `ackTimeout` and
  `overran` answers. The polling loops on the ACK line are one answer per
  wait, and `udelay`/`PLATE_CHILL` delays leave no trace.
- `printk` logging and `debug_level` are left out. They change no state
  the exchange uses.
- The SPI core is left out. `spi_sync`, and with it transfer speeds and
  delays, is one scripted outcome per call.
- `dev->rx_buf` is modelled by its first byte only (`Device.rx`), the
  only byte any transfer here fills.
- The C integer and `unsigned char` types are `int` and a 0-255 subtype.
  The sums in the checksum cannot overflow: at most 128 bytes of at most
  255 each.
- `MAX_ATTEMPTS` is a positive parameter, since no source file defines it.
  A value of 0 is excluded.
- The draft `piplate_driver.c` at the repository root is not part of this
  model, and neither is its header `piplate.h`. They are an unfinished
  earlier version.
- The user-space programs under `tests/` and `test.c` need real hardware.
  They are not part of this model.
- Concurrency is not modelled: the driver mutex serialises calls, and the
  model describes one call at a time.
