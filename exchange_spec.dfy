/** What one call of `piplate_spi_message` does, as functions of the
    peripheral's script and of the state it starts from: the four ways of
    collecting a response, one attempt, and the attempt counter that the
    `goto start` label drives. The driver's methods are proved to compute
    exactly these functions. */
module ExchangeSpec {
  import opened PiPlate

  /** How an attempt, or one of its read loops, ends: it runs to the end,
      it jumps back to `start`, or it jumps to `end` with a status. */
  datatype Ending = Finish | Restart | Fail(status: int)

  /** Everything an exchange changes: the caller's buffer, the FRAME line,
      the number of `spi_sync` calls made so far, and two logs that only the
      proofs look at, namely the command frames sent and the FRAME level
      each attempt began with. */
  datatype State = State(
    buf: seq<byte>, frame: bool, syncs: nat,
    sent: seq<seq<byte>>, starts: seq<bool>)

  /** The value `piplate_spi_message` returns and the state it leaves. */
  datatype Outcome = Outcome(status: int, st: State)

  /** Where a read loop without the ACK line stops. */
  datatype Read = Read(ending: Ending, buf: seq<byte>, syncs: nat)

  /** Where a read loop with the ACK line stops, with its running sum and
      the verification byte it took. */
  datatype AckRead = AckRead(ending: Ending, buf: seq<byte>, syncs: nat, sum: nat, verifier: byte)

  // ---------------------------------------------------------------------
  // Vocabulary for stating what the read loops collect

  /** The number of the first transfer, from number k on, that does not
      succeed with a byte `accept` admits, looking at the `n - count`
      transfers a loop whose counter stands at `count` still makes; the
      number past them all when every one of them does. */
  function Stop(reply: nat -> Sync, k: nat, count: nat, n: nat, accept: byte -> bool): (j: nat)
    requires count <= n
    ensures k <= j <= k + (n - count)
    ensures forall i :: k <= i < j ==> reply(i).Ok? && accept(reply(i).rx)
    ensures j < k + (n - count) ==> !(reply(j).Ok? && accept(reply(j).rx))
    decreases n - count
  {
    if count == n || !(reply(k).Ok? && accept(reply(k).rx)) then k
    else Stop(reply, k + 1, count + 1, n, accept)
  }

  /** The bytes clocked in by transfers `lo` up to, not including, `hi`. */
  function Bytes(reply: nat -> Sync, lo: nat, hi: nat): (s: seq<byte>)
    requires lo <= hi
    requires forall i :: lo <= i < hi ==> reply(i).Ok?
    ensures |s| == hi - lo
    ensures forall i :: 0 <= i < |s| ==> s[i] == reply(lo + i).rx
    decreases hi - lo
  {
    if lo == hi then [] else [reply(lo).rx] + Bytes(reply, lo + 1, hi)
  }

  /** `buf[0..len)` holds, in order, the bytes of the `len` transfers made
      just before transfer number `upto`. */
  predicate LastReceived(reply: nat -> Sync, upto: nat, buf: seq<byte>, len: nat)
  {
    len <= upto && len <= |buf| &&
    forall i :: 0 <= i < len ==> reply(upto - len + i) == Ok(buf[i])
  }

  /** Arithmetic sum of a byte string. */
  function Sum(s: seq<byte>): nat
  {
    if s == [] then 0 else s[0] + Sum(s[1..])
  }

  /** `buf` with `data` written from index `at` on. */
  function Overwrite(buf: seq<byte>, at: nat, data: seq<byte>): seq<byte>
    requires at + |data| <= |buf|
  {
    buf[..at] + data + buf[at + |data|..]
  }

  predicate AnyByte(b: byte) { true }

  predicate NotIdle(b: byte) { b != IDLE }

  /** A byte the identity-string read without ACK stores: not NUL and below 0x7F. */
  predicate Printable(b: byte) { 0 < b < NOT_ASCII }

  predicate NonNul(b: byte) { b != 0 }

  /** Every byte of `rBuf[0..len)` is one `accept` admits. */
  predicate Accepted(buf: seq<byte>, len: nat, accept: byte -> bool)
    requires len <= |buf|
  {
    forall i :: 0 <= i < len ==> accept(buf[i])
  }

  /** `rBuf[0..p)` holds the bytes of the `p` transfers made just before
      transfer number `nul`, that transfer brought a NUL, and the
      terminator sits at `rBuf[p + 1]`. */
  predicate NulTerminated(reply: nat -> Sync, nul: nat, buf: seq<byte>, p: nat)
  {
    LastReceived(reply, nul, buf, p) && reply(nul) == Ok(0) && p + 1 < |buf| && buf[p + 1] == 0
  }

  /** What a successful identity-string read without ACK whose last
      transfer is number `upto - 1` leaves in `rBuf`: either that transfer
      brought a NUL after fewer than 25 characters below 0x7F, which sit at
      `rBuf[0..p)` with the terminator at `rBuf[p + 1]`, or the 25 transfers
      up to it brought 25 such characters, which fill `rBuf[0..25)`. */
  predicate IdReceived(reply: nat -> Sync, upto: nat, buf: seq<byte>)
  {
    0 < upto &&
    ((exists p :: 0 <= p < MAX_ID_LEN && NulTerminated(reply, upto - 1, buf, p) && Accepted(buf, p, Printable))
     || (LastReceived(reply, upto, buf, MAX_ID_LEN) && Accepted(buf, MAX_ID_LEN, Printable)))
  }

  /** What a successful identity-string read with ACK whose last transfer
      is number `upto - 1` leaves in `rBuf`: either the transfer before it
      brought a NUL after at most 25 non-NUL bytes, which sit at `rBuf[0..p)`
      with the terminator at `rBuf[p + 1]`, and the last transfer brought a
      verification byte that matches their sum; or the 26 transfers up to
      it brought 26 non-NUL bytes, which fill `rBuf[0..26)` and whose sum
      matches the verification byte 0. */
  predicate AckIdReceived(reply: nat -> Sync, upto: nat, buf: seq<byte>)
  {
    1 < upto &&
    ((reply(upto - 1).Ok? &&
      exists p :: 0 <= p <= MAX_ID_LEN && NulTerminated(reply, upto - 2, buf, p) && Accepted(buf, p, NonNul)
                  && ChecksumOk(Sum(buf[..p]), reply(upto - 1).rx))
     || (LastReceived(reply, upto, buf, MAX_ID_LEN + 1) && Accepted(buf, MAX_ID_LEN + 1, NonNul)
         && ChecksumOk(Sum(buf[..MAX_ID_LEN + 1]), 0)))
  }

  // ---------------------------------------------------------------------
  // The four read loops, from the state reached after `count` rounds

  /** Fixed-count read without ACK: `bytesToReturn` rounds, each storing the
      byte at `rBuf[count]`; an idle byte sends the first attempt back to
      `start`. */
  function FixedRead(reply: nat -> Sync, n: nat, first: bool, count: nat, k: nat, buf: seq<byte>): (r: Read)
    requires count <= n <= |buf|
    ensures |r.buf| == |buf|
    ensures k <= r.syncs <= k + (n - count)
    ensures r.ending.Fail? ==> r.ending.status != 0
    decreases n - count
  {
    if count == n then Read(Finish, buf, k)
    else match reply(k)
      case Err(c) => Read(Fail(c), buf, k + 1)
      case Ok(b) =>
        if b == IDLE && first then Read(Restart, buf, k + 1)
        else FixedRead(reply, n, first, count + 1, k + 1, buf[count := b])
  }

  /** Identity-string read without ACK: at most 25 rounds; a byte of 0x7F
      or more sends the attempt back to `start`, a NUL writes the
      terminator one place past the last character and ends the loop. */
  function IdRead(reply: nat -> Sync, count: nat, k: nat, buf: seq<byte>): (r: Read)
    requires count <= MAX_ID_LEN < |buf|
    ensures |r.buf| == |buf|
    ensures k <= r.syncs <= k + (MAX_ID_LEN - count)
    ensures r.ending.Fail? ==> r.ending.status != 0
    decreases |buf| - count
  {
    if count == MAX_ID_LEN then Read(Finish, buf, k)
    else match reply(k)
      case Err(c) => Read(Fail(c), buf, k + 1)
      case Ok(b) =>
        if b >= NOT_ASCII then Read(Restart, buf, k + 1)
        else if b != 0 then IdRead(reply, count + 1, k + 1, buf[count := b])
        else Read(Finish, buf[count + 1 := 0], k + 1)
  }

  /** Fixed-count read with ACK: `rxLen` (the payload length plus one)
      rounds, every byte stored at `rBuf[count]`, all but the last added to
      the sum; the verification byte is the last one received. */
  function AckFixedRead(reply: nat -> Sync, rxLen: nat, count: nat, k: nat, buf: seq<byte>, sum: nat): (r: AckRead)
    requires 0 < rxLen <= |buf| && count <= rxLen
    requires count > 0 || rxLen > 1
    ensures |r.buf| == |buf|
    ensures k <= r.syncs <= k + (rxLen - count)
    ensures r.ending.Fail? ==> r.ending.status != 0
    decreases rxLen - count
  {
    if count == rxLen then AckRead(Finish, buf, k, sum, buf[rxLen - 1])
    else match reply(k)
      case Err(c) => AckRead(Fail(c), buf, k + 1, sum, 0)
      case Ok(b) =>
        AckFixedRead(reply, rxLen, count + 1, k + 1, buf[count := b],
                     if count < rxLen - 1 then sum + b else sum)
  }

  /** Identity-string read with ACK: up to 26 rounds, every non-NUL byte
      stored and summed; a NUL writes the terminator one place past the last
      character, one more transfer brings the verification byte, and the
      loop ends. Without a NUL the verification byte stays 0. */
  function AckIdRead(reply: nat -> Sync, count: nat, k: nat, buf: seq<byte>, sum: nat): (r: AckRead)
    requires count <= MAX_ID_LEN + 1 && MAX_ID_LEN + 1 < |buf|
    ensures |r.buf| == |buf|
    ensures k <= r.syncs <= k + (MAX_ID_LEN + 1 - count) + 1
    ensures r.ending.Fail? ==> r.ending.status != 0
    decreases |buf| - count
  {
    if count == MAX_ID_LEN + 1 then AckRead(Finish, buf, k, sum, 0)
    else match reply(k)
      case Err(c) => AckRead(Fail(c), buf, k + 1, sum, 0)
      case Ok(b) =>
        if b != 0 then AckIdRead(reply, count + 1, k + 1, buf[count := b], sum + b)
        else AckIdVerify(reply, count, k + 1, buf, sum)
  }

  /** The end of an identity-string read with ACK after the NUL of a string
      of `count` characters: the terminator written one place past the last
      character, then transfer `k` brings the verification byte. */
  function AckIdVerify(reply: nat -> Sync, count: nat, k: nat, buf: seq<byte>, sum: nat): (r: AckRead)
    requires count + 1 < |buf|
    ensures |r.buf| == |buf| && r.syncs == k + 1
    ensures r.ending.Fail? ==> r.ending.status != 0
  {
    var terminated := buf[count + 1 := 0];
    match reply(k)
    case Err(c) => AckRead(Fail(c), terminated, k + 1, sum, 0)
    case Ok(v) => AckRead(Finish, terminated, k + 1, sum, v)
  }

  /** One past the highest index of `rBuf` that an exchange for `m` may
      write: the payload (and, with ACK, the verification byte after it),
      or the identity string with its terminator one place further on. */
  function Reach(m: Message): (r: nat)
    ensures Fits(m) ==> r <= BUF_SIZE
  {
    if m.bytesToReturn >= 0 then
      if m.useACK && m.bytesToReturn > 0 then m.bytesToReturn + 1 else m.bytesToReturn
    else if m.useACK then MAX_ID_LEN + 2
    else MAX_ID_LEN + 1
  }

  // ---------------------------------------------------------------------
  // One attempt and the whole exchange

  /** One pass from the `start` label to a `goto start`, a `goto end` or
      the success return; `first` tells whether the attempt counter still
      equals `MAX_ATTEMPTS`, which holds on the first attempt only. The
      caller lowers FRAME on `Finish` and `Fail`. */
  function Attempt(env: Peripheral, m: Message, first: bool, st: State): (r: (Ending, State))
    requires Fits(m) && |st.buf| == BUF_SIZE
    ensures |r.1.buf| == |st.buf|
    ensures r.1.starts == st.starts + [st.frame]
    ensures r.1.sent == st.sent || r.1.sent == st.sent + [Command(m)]
    ensures r.1.syncs >= st.syncs
    ensures r.0 == Restart ==> r.1.frame
    ensures r.0.Fail? ==> r.0.status != 0
  {
    var st0 := st.(starts := st.starts + [st.frame]);
    var k := st0.syncs;
    if m.useACK && env.ackTimeout(k) then (Fail(-EIO), st0)
    else
      var st1 := st0.(frame := true, syncs := k + 1, sent := st0.sent + [Command(m)]);
      if env.overran(k) then (Restart, st1)
      else if env.reply(k).Err? then (Fail(env.reply(k).code), st1)
      else if m.bytesToReturn == 0 then (Finish, st1)
      else if m.useACK && env.ackTimeout(k + 1) then (Fail(-EIO), st1)
      else if !m.useACK then
        var r := if m.bytesToReturn > 0
                 then FixedRead(env.reply, m.bytesToReturn, first, 0, k + 1, st1.buf)
                 else IdRead(env.reply, 0, k + 1, st1.buf);
        (r.ending, st1.(buf := r.buf, syncs := r.syncs))
      else
        var r := if m.bytesToReturn > 0
                 then AckFixedRead(env.reply, m.bytesToReturn + 1, 0, k + 1, st1.buf, 0)
                 else AckIdRead(env.reply, 0, k + 1, st1.buf, 0);
        var e := if r.ending == Finish && !ChecksumOk(r.sum, r.verifier) then Fail(-EIO) else r.ending;
        (e, st1.(buf := r.buf, syncs := r.syncs))
  }

  /** The exchange entered at `start` with the attempt counter at
      `attempts`; a call begins with `attempts == maxAttempts + 1`. Below
      `maxAttempts` the entry lowers FRAME first, and at zero it gives up. */
  function Exchange(env: Peripheral, m: Message, maxAttempts: nat, attempts: int, st: State): (r: Outcome)
    requires 0 < maxAttempts && 0 <= attempts <= maxAttempts + 1
    requires Fits(m) && |st.buf| == BUF_SIZE
    ensures |r.st.buf| == |st.buf|
    decreases attempts
  {
    var st0 := if attempts < maxAttempts then st.(frame := false) else st;
    if attempts < maxAttempts && attempts <= 0 then Outcome(-EIO, st0)
    else
      var left := attempts - 1;
      var (e, st1) := Attempt(env, m, left == maxAttempts, st0);
      match e
      case Finish => Outcome(0, st1.(frame := false))
      case Fail(s) => Outcome(s, st1.(frame := false))
      case Restart => Exchange(env, m, maxAttempts, left, st1)
  }

  /** One round of the `goto start` loop that does not give up: entered
      with the counter at `attempts`, it decrements it to `left`, runs one
      attempt, and either ends the exchange or re-enters it. */
  lemma ExchangeRound(env: Peripheral, m: Message, maxAttempts: nat, attempts: int, left: int,
                      st: State, cleaned: State, first: bool, e: Ending, after: State)
    requires 0 < maxAttempts && 0 < attempts <= maxAttempts + 1 && left == attempts - 1
    requires Fits(m) && |st.buf| == BUF_SIZE
    requires cleaned == if attempts < maxAttempts then st.(frame := false) else st
    requires first == (left == maxAttempts)
    requires (e, after) == Attempt(env, m, first, cleaned)
    ensures e == Finish ==> Exchange(env, m, maxAttempts, attempts, st) == Outcome(0, after.(frame := false))
    ensures e.Fail? ==> Exchange(env, m, maxAttempts, attempts, st) == Outcome(e.status, after.(frame := false))
    ensures e == Restart ==> Exchange(env, m, maxAttempts, attempts, st) == Exchange(env, m, maxAttempts, left, after)
  {
    assert Attempt(env, m, attempts - 1 == maxAttempts, cleaned) == (e, after);
  }
}
