/** What `piplate_spi_message` promises, proved about the functions of
    `ExchangeSpec`: where each read loop puts the bytes it receives and why
    it stops, what one attempt sends, writes and returns, when it starts
    over, and the checksum rule. Facts about a whole call are in
    `ExchangeTheorems`. */
module ExchangeProps {
  import opened PiPlate
  import opened ExchangeSpec

  // ---------------------------------------------------------------------
  // Sequence facts the read-loop proofs share

  lemma OverwriteEmpty(buf: seq<byte>, at: nat)
    requires at <= |buf|
    ensures Overwrite(buf, at, []) == buf
  {
  }

  /** Storing one byte and then the rest is storing both at once. */
  lemma OverwriteStep(buf: seq<byte>, at: nat, b: byte, data: seq<byte>)
    requires at + 1 + |data| <= |buf|
    ensures Overwrite(buf[at := b], at + 1, data) == Overwrite(buf, at, [b] + data)
  {
    var lhs, rhs := Overwrite(buf[at := b], at + 1, data), Overwrite(buf, at, [b] + data);
    assert |lhs| == |rhs|;
    forall i | 0 <= i < |lhs|
      ensures lhs[i] == rhs[i]
    {
    }
  }

  /** What `Overwrite` leaves at each index. */
  lemma OverwriteAt(buf: seq<byte>, at: nat, data: seq<byte>)
    requires at + |data| <= |buf|
    ensures var o := Overwrite(buf, at, data);
            && |o| == |buf|
            && (forall i :: 0 <= i < at ==> o[i] == buf[i])
            && (forall i :: 0 <= i < |data| ==> o[at + i] == data[i])
            && (forall i :: at + |data| <= i < |buf| ==> o[i] == buf[i])
  {
  }

  lemma BytesStep(reply: nat -> Sync, lo: nat, hi: nat)
    requires lo < hi && forall i :: lo <= i < hi ==> reply(i).Ok?
    ensures Bytes(reply, lo, hi) == [reply(lo).rx] + Bytes(reply, lo + 1, hi)
  {
  }

  lemma SumStep(b: byte, s: seq<byte>)
    ensures Sum([b] + s) == b + Sum(s)
  {
    assert ([b] + s)[1..] == s;
  }

  /** `Stop` is the index `j` when every transfer before `j` is accepted
      and `j` itself, if still inside the range, is not. */
  lemma StopAt(reply: nat -> Sync, k: nat, count: nat, n: nat, accept: byte -> bool, j: nat)
    requires count <= n && k <= j <= k + (n - count)
    requires forall i :: k <= i < j ==> reply(i).Ok? && accept(reply(i).rx)
    requires j < k + (n - count) ==> !(reply(j).Ok? && accept(reply(j).rx))
    ensures Stop(reply, k, count, n, accept) == j
  {
  }

  // ---------------------------------------------------------------------
  // The read loops

  /** The fixed-count read without ACK stores the bytes it accepts (any
      byte, or on the first attempt any byte but 0xFF) at `rBuf[count..]` in
      order, and nothing else; in particular nothing at or past `n`. */
  lemma {:induction false} FixedReadStores(reply: nat -> Sync, n: nat, first: bool, count: nat, k: nat, buf: seq<byte>)
    requires count <= n <= |buf|
    ensures var j := Stop(reply, k, count, n, if first then NotIdle else AnyByte);
            FixedRead(reply, n, first, count, k, buf).buf == Overwrite(buf, count, Bytes(reply, k, j))
    decreases n - count
  {
    var accept := if first then NotIdle else AnyByte;
    var j := Stop(reply, k, count, n, accept);
    if count < n && reply(k).Ok? && accept(reply(k).rx) {
      var b := reply(k).rx;
      FixedReadStores(reply, n, first, count + 1, k + 1, buf[count := b]);
      BytesStep(reply, k, j);
      OverwriteStep(buf, count, b, Bytes(reply, k + 1, j));
    } else {
      OverwriteEmpty(buf, count);
    }
  }

  /** The fixed-count read without ACK, whose last transfer would be number
      `end - 1`, runs to the end when every transfer succeeds with a byte it
      accepts. Otherwise it stops right after the first transfer that does
      not: with that transfer's status when it failed, and with a restart
      when it brought 0xFF on the first attempt. */
  lemma {:induction false} FixedReadStops(reply: nat -> Sync, n: nat, first: bool, count: nat, k: nat, buf: seq<byte>, end: nat)
    requires count <= n <= |buf| && end == k + (n - count)
    ensures var j := Stop(reply, k, count, n, if first then NotIdle else AnyByte);
            var r := FixedRead(reply, n, first, count, k, buf);
            && (j == end ==> r.ending == Finish && r.syncs == end)
            && (j < end ==> r.syncs == j + 1)
            && (j < end && reply(j).Err? ==> r.ending == Fail(reply(j).code))
            && (j < end && reply(j).Ok? ==> first && reply(j).rx == IDLE && r.ending == Restart)
    decreases n - count
  {
    var accept := if first then NotIdle else AnyByte;
    if count < n && reply(k).Ok? && accept(reply(k).rx) {
      FixedReadStops(reply, n, first, count + 1, k + 1, buf[count := reply(k).rx], end);
    }
  }

  /** The identity-string read without ACK ends after 25 characters, or
      right after the first transfer that fails (with its status), brings a
      NUL (successfully) or brings a byte of 0x7F or more (with a restart). */
  lemma {:induction false} IdReadStops(reply: nat -> Sync, count: nat, k: nat, buf: seq<byte>, end: nat)
    requires count <= MAX_ID_LEN < |buf| && end == k + (MAX_ID_LEN - count)
    ensures var j := Stop(reply, k, count, MAX_ID_LEN, Printable);
            var r := IdRead(reply, count, k, buf);
            && (j == end ==> r.ending == Finish && r.syncs == end)
            && (j < end ==> r.syncs == j + 1)
            && (j < end && reply(j).Err? ==> r.ending == Fail(reply(j).code))
            && (j < end && reply(j) == Ok(0) ==> r.ending == Finish)
            && (j < end && reply(j).Ok? && reply(j).rx != 0 ==> reply(j).rx >= NOT_ASCII && r.ending == Restart)
    decreases MAX_ID_LEN - count
  {
    if count < MAX_ID_LEN && reply(k).Ok? && Printable(reply(k).rx) {
      IdReadStops(reply, count + 1, k + 1, buf[count := reply(k).rx], end);
    }
  }

  /** The fixed-count read with ACK stores every byte it receives at
      `rBuf[count..]` in order, the verification byte included, and nothing
      else. */
  lemma {:induction false} AckFixedReadStores(reply: nat -> Sync, rxLen: nat, count: nat, k: nat, buf: seq<byte>, sum: nat)
    requires 0 < rxLen <= |buf| && count <= rxLen && (count > 0 || rxLen > 1)
    ensures var j := Stop(reply, k, count, rxLen, AnyByte);
            AckFixedRead(reply, rxLen, count, k, buf, sum).buf == Overwrite(buf, count, Bytes(reply, k, j))
    decreases rxLen - count
  {
    var j := Stop(reply, k, count, rxLen, AnyByte);
    if count < rxLen && reply(k).Ok? {
      var b := reply(k).rx;
      AckFixedReadStores(reply, rxLen, count + 1, k + 1, buf[count := b], if count < rxLen - 1 then sum + b else sum);
      BytesStep(reply, k, j);
      OverwriteStep(buf, count, b, Bytes(reply, k + 1, j));
    } else {
      OverwriteEmpty(buf, count);
    }
  }

  /** The fixed-count read with ACK, whose last transfer would be number
      `end - 1`, never restarts. It runs to the end when every transfer
      succeeds, having added all but the last byte to the sum and taken the
      last as the verification byte; otherwise it stops right after the
      first failed transfer, with its status. */
  lemma {:induction false} AckFixedReadStops(reply: nat -> Sync, rxLen: nat, count: nat, k: nat, buf: seq<byte>, sum: nat, end: nat)
    requires 1 < rxLen <= |buf| && count < rxLen && end == k + (rxLen - count)
    ensures var j := Stop(reply, k, count, rxLen, AnyByte);
            var r := AckFixedRead(reply, rxLen, count, k, buf, sum);
            && (j == end ==> r.ending == Finish && r.syncs == end && r.sum == sum + Sum(Bytes(reply, k, end - 1))
                             && r.verifier == reply(end - 1).rx)
            && (j < end ==> r.ending == Fail(reply(j).code) && r.syncs == j + 1)
    decreases rxLen - count
  {
    var j := Stop(reply, k, count, rxLen, AnyByte);
    if reply(k).Ok? {
      var b := reply(k).rx;
      if count + 1 < rxLen {
        AckFixedReadStops(reply, rxLen, count + 1, k + 1, buf[count := b], sum + b, end);
        if j == end {
          BytesStep(reply, k, end - 1);
          SumStep(b, Bytes(reply, k + 1, end - 1));
        }
      } else {
        assert Bytes(reply, k, end - 1) == [];
      }
    }
  }

  // ---------------------------------------------------------------------
  // The read loops as a whole, from their first round

  /** A whole fixed-count read without ACK never writes at or past index
      `n`. */
  lemma FixedReadKeepsTail(reply: nat -> Sync, n: nat, first: bool, k: nat, buf: seq<byte>)
    requires n <= |buf|
    ensures var r := FixedRead(reply, n, first, 0, k, buf);
            forall i :: n <= i < |buf| ==> r.buf[i] == buf[i]
  {
    FixedReadStores(reply, n, first, 0, k, buf);
    OverwriteAt(buf, 0, Bytes(reply, k, Stop(reply, k, 0, n, if first then NotIdle else AnyByte)));
  }

  /** A fixed-count read without ACK that succeeds from round `count` on,
      where transfer `base + i` brings the byte for place `i`, stores the
      byte of every later round `i` at `rBuf[i]`, leaves `rBuf[0..count)`
      alone, and ends after transfer `base + n - 1`. */
  lemma {:induction false} FixedReadCopies(reply: nat -> Sync, n: nat, first: bool, base: nat, count: nat, buf: seq<byte>)
    requires count <= n <= |buf|
    requires FixedRead(reply, n, first, count, base + count, buf).ending == Finish
    ensures var r := FixedRead(reply, n, first, count, base + count, buf);
            && r.syncs == base + n
            && (forall i :: 0 <= i < count ==> r.buf[i] == buf[i])
            && (forall i :: count <= i < n ==> reply(base + i) == Ok(r.buf[i]))
    decreases n - count
  {
    if count < n {
      var b := reply(base + count).rx;
      assert FixedRead(reply, n, first, count, base + count, buf)
          == FixedRead(reply, n, first, count + 1, base + count + 1, buf[count := b]);
      FixedReadCopies(reply, n, first, base, count + 1, buf[count := b]);
    }
  }

  /** When a whole fixed-count read without ACK, starting at transfer k,
      succeeds, it has made exactly `n` transfers and `rBuf[i]` holds the
      byte of transfer `k + i`. */
  lemma FixedReadFills(reply: nat -> Sync, n: nat, first: bool, k: nat, buf: seq<byte>)
    requires n <= |buf|
    requires FixedRead(reply, n, first, 0, k, buf).ending == Finish
    ensures var r := FixedRead(reply, n, first, 0, k, buf);
            r.syncs == k + n && forall i :: 0 <= i < n ==> reply(k + i) == Ok(r.buf[i])
  {
    FixedReadCopies(reply, n, first, k, 0, buf);
  }

  /** A whole fixed-count read without ACK starts the attempt over exactly
      when it is the first attempt and one of the transfers it made brought
      0xFF; a failure reports the status of its last transfer. */
  lemma FixedReadRestarts(reply: nat -> Sync, n: nat, first: bool, k: nat, buf: seq<byte>)
    requires n <= |buf|
    ensures var r := FixedRead(reply, n, first, 0, k, buf);
            && (r.ending == Restart <==> first && exists i :: k <= i < r.syncs && reply(i) == Ok(IDLE))
            && (r.ending.Fail? ==> k < r.syncs && reply(r.syncs - 1) == Err(r.ending.status))
  {
    var j := Stop(reply, k, 0, n, if first then NotIdle else AnyByte);
    FixedReadStops(reply, n, first, 0, k, buf, k + n);
    if j < k + n && reply(j).Ok? {
      assert k <= j < j + 1 && reply(j) == Ok(IDLE);
    }
  }

  /** A whole identity-string read without ACK writes nothing past index
      25 (`MAX_ID_LEN`). */
  lemma {:induction false} IdReadKeepsTail(reply: nat -> Sync, count: nat, k: nat, buf: seq<byte>)
    requires count <= MAX_ID_LEN < |buf|
    ensures var r := IdRead(reply, count, k, buf);
            forall i :: MAX_ID_LEN < i < |buf| ==> r.buf[i] == buf[i]
    decreases MAX_ID_LEN - count
  {
    if count < MAX_ID_LEN && reply(k).Ok? && Printable(reply(k).rx) {
      var b := reply(k).rx;
      IdReadKeepsTail(reply, count + 1, k + 1, buf[count := b]);
      var r := IdRead(reply, count + 1, k + 1, buf[count := b]);
      assert IdRead(reply, count, k, buf) == r;
      assert forall i :: MAX_ID_LEN < i < |buf| ==> r.buf[i] == buf[count := b][i] == buf[i];
    }
  }

  /** A whole identity-string read without ACK starts the attempt over
      exactly when one of the transfers it made brought a byte of 0x7F or
      more; a failure reports the status of its last transfer. */
  lemma IdReadRestarts(reply: nat -> Sync, k: nat, buf: seq<byte>)
    requires MAX_ID_LEN < |buf|
    ensures var r := IdRead(reply, 0, k, buf);
            && (r.ending == Restart <==> exists i :: k <= i < r.syncs && reply(i).Ok? && reply(i).rx >= NOT_ASCII)
            && (r.ending.Fail? ==> k < r.syncs && reply(r.syncs - 1) == Err(r.ending.status))
  {
    var j := Stop(reply, k, 0, MAX_ID_LEN, Printable);
    IdReadStops(reply, 0, k, buf, k + MAX_ID_LEN);
    if j < k + MAX_ID_LEN && reply(j).Ok? && reply(j).rx != 0 {
      assert k <= j < j + 1 && reply(j).rx >= NOT_ASCII;
    }
  }

  /** A whole fixed-count read with ACK of `n` payload bytes never writes
      past index `n`. */
  lemma AckFixedReadKeepsTail(reply: nat -> Sync, n: nat, k: nat, buf: seq<byte>)
    requires 0 < n && n + 1 <= |buf|
    ensures var r := AckFixedRead(reply, n + 1, 0, k, buf, 0);
            forall i :: n < i < |buf| ==> r.buf[i] == buf[i]
  {
    AckFixedReadStores(reply, n + 1, 0, k, buf, 0);
    OverwriteAt(buf, 0, Bytes(reply, k, Stop(reply, k, 0, n + 1, AnyByte)));
  }

  /** A whole fixed-count read with ACK never restarts, and a failure
      reports the status of its last transfer. */
  lemma AckFixedReadEnds(reply: nat -> Sync, n: nat, k: nat, buf: seq<byte>)
    requires 0 < n && n + 1 <= |buf|
    ensures var r := AckFixedRead(reply, n + 1, 0, k, buf, 0);
            && r.ending != Restart
            && (r.ending.Fail? ==> k < r.syncs && reply(r.syncs - 1) == Err(r.ending.status))
  {
    AckFixedReadStops(reply, n + 1, 0, k, buf, 0, k + (n + 1));
  }

  /** A fixed-count read with ACK that succeeds from round `count` on,
      where transfer `base + i` brings the byte for place `i`, ends after
      transfer `base + rxLen - 1`: it stores the byte of every later round
      `i` at `rBuf[i]`, adds all but the last of them to the sum, and keeps
      the last as the verification byte; `rBuf[0..count)` is left alone. */
  lemma {:induction false} AckFixedReadCopies(reply: nat -> Sync, rxLen: nat, base: nat, count: nat, buf: seq<byte>, sum: nat)
    requires 1 < rxLen <= |buf| && count <= rxLen
    requires AckFixedRead(reply, rxLen, count, base + count, buf, sum).ending == Finish
    ensures var r := AckFixedRead(reply, rxLen, count, base + count, buf, sum);
            && r.syncs == base + rxLen
            && (forall i :: 0 <= i < count ==> r.buf[i] == buf[i])
            && (forall i :: count <= i < rxLen ==> reply(base + i) == Ok(r.buf[i]))
            && r.verifier == r.buf[rxLen - 1]
            && (count < rxLen ==> r.sum == sum + Sum(r.buf[..rxLen - 1][count..]))
    decreases rxLen - count
  {
    if count < rxLen {
      var b := reply(base + count).rx;
      var sum' := if count < rxLen - 1 then sum + b else sum;
      var r := AckFixedRead(reply, rxLen, count, base + count, buf, sum);
      assert r == AckFixedRead(reply, rxLen, count + 1, base + count + 1, buf[count := b], sum');
      AckFixedReadCopies(reply, rxLen, base, count + 1, buf[count := b], sum');
      if count < rxLen - 1 {
        assert r.buf[..rxLen - 1][count..][1..] == r.buf[..rxLen - 1][count + 1..];
      }
    }
  }

  /** When a whole fixed-count read with ACK of `n` payload bytes
      succeeds, it has made exactly `n + 1` transfers, `rBuf[i]` holds the
      byte of transfer `k + i` for every i up to `n`, the sum is that of
      `rBuf[0..n)` and the verification byte is `rBuf[n]`. */
  lemma AckFixedReadFills(reply: nat -> Sync, n: nat, k: nat, buf: seq<byte>)
    requires 0 < n && n + 1 <= |buf|
    requires AckFixedRead(reply, n + 1, 0, k, buf, 0).ending == Finish
    ensures var r := AckFixedRead(reply, n + 1, 0, k, buf, 0);
            && r.syncs == k + n + 1
            && (forall i :: 0 <= i <= n ==> reply(k + i) == Ok(r.buf[i]))
            && r.sum == Sum(r.buf[..n]) && r.verifier == r.buf[n]
  {
    AckFixedReadCopies(reply, n + 1, k, 0, buf, 0);
  }

  /** An identity-string read with ACK never restarts, and a failure
      reports the status of its last transfer. */
  lemma {:induction false} AckIdReadEnds(reply: nat -> Sync, count: nat, k: nat, buf: seq<byte>, sum: nat)
    requires count <= MAX_ID_LEN + 1 && MAX_ID_LEN + 1 < |buf|
    ensures var r := AckIdRead(reply, count, k, buf, sum);
            && r.ending != Restart
            && (r.ending.Fail? ==> k < r.syncs && reply(r.syncs - 1) == Err(r.ending.status))
    decreases MAX_ID_LEN + 1 - count
  {
    if count < MAX_ID_LEN + 1 && reply(k).Ok? && reply(k).rx != 0 {
      var b := reply(k).rx;
      AckIdReadEnds(reply, count + 1, k + 1, buf[count := b], sum + b);
      assert AckIdRead(reply, count, k, buf, sum) == AckIdRead(reply, count + 1, k + 1, buf[count := b], sum + b);
    }
  }

  /** An identity string whose characters for places `count` up to `p`
      are below 0x7F and are followed by a NUL, where transfer `base + i`
      brings the byte for place `i`: the read without ACK from place
      `count` on succeeds after `p - count + 1` transfers, stores the
      characters at `rBuf[count..p)` in order, leaves `rBuf[p]` as it was,
      writes the terminator at `rBuf[p + 1]` and changes nothing else. */
  lemma {:induction false} IdReadWithNul(reply: nat -> Sync, base: nat, count: nat, p: nat, buf: seq<byte>)
    requires count <= p < MAX_ID_LEN < |buf|
    requires forall i :: base + count <= i < base + p ==> reply(i).Ok? && Printable(reply(i).rx)
    requires reply(base + p) == Ok(0)
    ensures var r := IdRead(reply, count, base + count, buf);
            && r.ending == Finish && r.syncs == base + p + 1
            && (forall i :: 0 <= i < count ==> r.buf[i] == buf[i])
            && (forall i :: count <= i < p ==> r.buf[i] == reply(base + i).rx)
            && r.buf[p] == buf[p] && r.buf[p + 1] == 0
            && (forall i :: p + 1 < i < |buf| ==> r.buf[i] == buf[i])
    decreases p - count
  {
    if count < p {
      var b := reply(base + count).rx;
      IdReadWithNul(reply, base, count + 1, p, buf[count := b]);
      assert IdRead(reply, count, base + count, buf) == IdRead(reply, count + 1, base + count + 1, buf[count := b]);
    }
  }

  /** Characters below 0x7F for every place from `count` to 25: the read
      without ACK succeeds after them, stores them at `rBuf[count..25)` in
      order and writes no terminator. */
  lemma {:induction false} IdReadWithoutNul(reply: nat -> Sync, base: nat, count: nat, buf: seq<byte>)
    requires count <= MAX_ID_LEN < |buf|
    requires forall i :: base + count <= i < base + MAX_ID_LEN ==> reply(i).Ok? && Printable(reply(i).rx)
    ensures var r := IdRead(reply, count, base + count, buf);
            && r.ending == Finish && r.syncs == base + MAX_ID_LEN
            && (forall i :: 0 <= i < count ==> r.buf[i] == buf[i])
            && (forall i :: count <= i < MAX_ID_LEN ==> r.buf[i] == reply(base + i).rx)
            && (forall i :: MAX_ID_LEN <= i < |buf| ==> r.buf[i] == buf[i])
    decreases MAX_ID_LEN - count
  {
    if count < MAX_ID_LEN {
      var b := reply(base + count).rx;
      IdReadWithoutNul(reply, base, count + 1, buf[count := b]);
      assert IdRead(reply, count, base + count, buf) == IdRead(reply, count + 1, base + count + 1, buf[count := b]);
    }
  }

  /** The identity-string read with ACK ends with the status of the first
      transfer that fails, when that comes before any NUL and before the
      26th byte. */
  lemma {:induction false} AckIdReadStops(reply: nat -> Sync, count: nat, k: nat, buf: seq<byte>, sum: nat, end: nat)
    requires count <= MAX_ID_LEN + 1 && MAX_ID_LEN + 1 < |buf| && end == k + (MAX_ID_LEN + 1 - count)
    ensures var j := Stop(reply, k, count, MAX_ID_LEN + 1, NonNul);
            j < end && reply(j).Err? ==> AckIdRead(reply, count, k, buf, sum).ending == Fail(reply(j).code)
    decreases MAX_ID_LEN + 1 - count
  {
    if count < MAX_ID_LEN + 1 && reply(k).Ok? && reply(k).rx != 0 {
      var b := reply(k).rx;
      AckIdReadStops(reply, count + 1, k + 1, buf[count := b], sum + b, end);
      assert AckIdRead(reply, count, k, buf, sum) == AckIdRead(reply, count + 1, k + 1, buf[count := b], sum + b);
    }
  }

  /** An identity-string read with ACK writes nothing past index 26. */
  lemma {:induction false} AckIdReadKeepsTail(reply: nat -> Sync, count: nat, k: nat, buf: seq<byte>, sum: nat)
    requires count <= MAX_ID_LEN + 1 && MAX_ID_LEN + 1 < |buf|
    ensures var r := AckIdRead(reply, count, k, buf, sum);
            forall i :: MAX_ID_LEN + 1 < i < |buf| ==> r.buf[i] == buf[i]
    decreases MAX_ID_LEN + 1 - count
  {
    if count < MAX_ID_LEN + 1 && reply(k).Ok? {
      var b := reply(k).rx;
      if b != 0 {
        AckIdReadKeepsTail(reply, count + 1, k + 1, buf[count := b], sum + b);
        assert AckIdRead(reply, count, k, buf, sum) == AckIdRead(reply, count + 1, k + 1, buf[count := b], sum + b);
      } else {
        assert AckIdRead(reply, count, k, buf, sum).buf == buf[count + 1 := 0];
      }
    }
  }

  /** Non-NUL bytes (any value) for places `count` up to `p`, then a NUL,
      read with ACK: the bytes fill `rBuf[count..p)` in order and the sum
      grows by theirs, `rBuf[p]` keeps its old value, the terminator lands
      at `rBuf[p + 1]` and nothing after it is written. Exactly one more
      transfer follows the NUL; it brings the verification byte or the
      failure status. */
  lemma {:induction false} AckIdReadWithNul(reply: nat -> Sync, base: nat, count: nat, p: nat, buf: seq<byte>, sum: nat)
    requires count <= p <= MAX_ID_LEN && MAX_ID_LEN + 1 < |buf|
    requires forall i :: base + count <= i < base + p ==> reply(i).Ok? && reply(i).rx != 0
    requires reply(base + p) == Ok(0)
    ensures var r := AckIdRead(reply, count, base + count, buf, sum);
            && r.syncs == base + p + 2
            && (reply(base + p + 1).Err? ==> r.ending == Fail(reply(base + p + 1).code))
            && (reply(base + p + 1).Ok? ==> r.ending == Finish && r.verifier == reply(base + p + 1).rx)
            && (forall i :: 0 <= i < count ==> r.buf[i] == buf[i])
            && (forall i :: count <= i < p ==> r.buf[i] == reply(base + i).rx)
            && r.buf[p] == buf[p] && r.buf[p + 1] == 0
            && (forall i :: p + 1 < i < |buf| ==> r.buf[i] == buf[i])
            && r.sum == sum + Sum(r.buf[..p][count..])
    decreases p - count
  {
    if count < p {
      var b := reply(base + count).rx;
      AckIdReadWithNul(reply, base, count + 1, p, buf[count := b], sum + b);
      var r := AckIdRead(reply, count, base + count, buf, sum);
      assert r == AckIdRead(reply, count + 1, base + count + 1, buf[count := b], sum + b);
      assert r.buf[..p][count..][1..] == r.buf[..p][count + 1..];
    }
  }

  /** Non-NUL bytes for every place from `count` to 26, read with ACK:
      success after them with a verification byte of 0, the bytes in
      `rBuf[count..26)` in order and their sum added, no terminator. */
  lemma {:induction false} AckIdReadWithoutNul(reply: nat -> Sync, base: nat, count: nat, buf: seq<byte>, sum: nat)
    requires count <= MAX_ID_LEN + 1 && MAX_ID_LEN + 1 < |buf|
    requires forall i :: base + count <= i < base + (MAX_ID_LEN + 1) ==> reply(i).Ok? && reply(i).rx != 0
    ensures var r := AckIdRead(reply, count, base + count, buf, sum);
            && r.ending == Finish && r.syncs == base + (MAX_ID_LEN + 1) && r.verifier == 0
            && (forall i :: 0 <= i < count ==> r.buf[i] == buf[i])
            && (forall i :: count <= i < MAX_ID_LEN + 1 ==> r.buf[i] == reply(base + i).rx)
            && (forall i :: MAX_ID_LEN + 1 <= i < |buf| ==> r.buf[i] == buf[i])
            && r.sum == sum + Sum(r.buf[..MAX_ID_LEN + 1][count..])
    decreases MAX_ID_LEN + 1 - count
  {
    if count < MAX_ID_LEN + 1 {
      var b := reply(base + count).rx;
      AckIdReadWithoutNul(reply, base, count + 1, buf[count := b], sum + b);
      var r := AckIdRead(reply, count, base + count, buf, sum);
      assert r == AckIdRead(reply, count + 1, base + count + 1, buf[count := b], sum + b);
      assert r.buf[..MAX_ID_LEN + 1][count..][1..] == r.buf[..MAX_ID_LEN + 1][count + 1..];
    }
  }

  /** The whole read with ACK of 26 non-NUL bytes: it succeeds after 26
      transfers with a verification byte of 0 and the sum of `rBuf[0..26)`. */
  lemma AckIdReadWithoutNulSum(reply: nat -> Sync, k: nat, buf: seq<byte>)
    requires MAX_ID_LEN + 1 < |buf|
    requires forall i :: k <= i < k + (MAX_ID_LEN + 1) ==> reply(i).Ok? && reply(i).rx != 0
    ensures var r := AckIdRead(reply, 0, k, buf, 0);
            r == AckRead(Finish, r.buf, k + (MAX_ID_LEN + 1), Sum(r.buf[..MAX_ID_LEN + 1]), 0)
  {
    AckIdReadWithoutNul(reply, k, 0, buf, 0);
  }

  /** The identity-string read without ACK of `p` characters below 0x7F
      and a NUL, from transfer `k` on, in the terms of `NulTerminated`. */
  lemma IdReadNulFills(reply: nat -> Sync, k: nat, p: nat, buf: seq<byte>)
    requires p < MAX_ID_LEN < |buf|
    requires forall i :: k <= i < k + p ==> reply(i).Ok? && Printable(reply(i).rx)
    requires reply(k + p) == Ok(0)
    ensures var r := IdRead(reply, 0, k, buf);
            && r.ending == Finish && r.syncs == k + p + 1
            && NulTerminated(reply, k + p, r.buf, p) && Accepted(r.buf, p, Printable)
  {
    IdReadWithNul(reply, k, 0, p, buf);
  }

  /** The identity-string read without ACK of 25 characters below 0x7F,
      from transfer `k` on, in the terms of `LastReceived`. */
  lemma IdReadFullFills(reply: nat -> Sync, k: nat, buf: seq<byte>)
    requires MAX_ID_LEN < |buf|
    requires forall i :: k <= i < k + MAX_ID_LEN ==> reply(i).Ok? && Printable(reply(i).rx)
    ensures var r := IdRead(reply, 0, k, buf);
            && r.ending == Finish && r.syncs == k + MAX_ID_LEN
            && LastReceived(reply, r.syncs, r.buf, MAX_ID_LEN) && Accepted(r.buf, MAX_ID_LEN, Printable)
  {
    IdReadWithoutNul(reply, k, 0, buf);
  }

  /** A whole identity-string read without ACK that succeeds leaves the
      characters of its last transfers in `rBuf`: those before a NUL, with
      the terminator one place past them, or 25 of them. */
  lemma IdReadFills(reply: nat -> Sync, k: nat, buf: seq<byte>)
    requires MAX_ID_LEN < |buf|
    ensures var r := IdRead(reply, 0, k, buf);
            r.ending == Finish ==> k < r.syncs && IdReceived(reply, r.syncs, r.buf)
  {
    var j := Stop(reply, k, 0, MAX_ID_LEN, Printable);
    IdReadStops(reply, 0, k, buf, k + MAX_ID_LEN);
    if j < k + MAX_ID_LEN {
      if reply(j) == Ok(0) {
        IdReadNulFills(reply, k, j - k, buf);
      }
    } else {
      IdReadFullFills(reply, k, buf);
    }
  }

  /** The identity-string read with ACK of `p` non-NUL bytes and a NUL,
      from transfer `k` on, in the terms of `NulTerminated`. */
  lemma AckIdReadNulFills(reply: nat -> Sync, k: nat, p: nat, buf: seq<byte>)
    requires p <= MAX_ID_LEN && MAX_ID_LEN + 1 < |buf|
    requires forall i :: k <= i < k + p ==> reply(i).Ok? && reply(i).rx != 0
    requires reply(k + p) == Ok(0)
    ensures var r := AckIdRead(reply, 0, k, buf, 0);
            && r.syncs == k + p + 2
            && (r.ending == Finish ==> reply(k + p + 1) == Ok(r.verifier))
            && NulTerminated(reply, k + p, r.buf, p) && Accepted(r.buf, p, NonNul)
            && r.sum == Sum(r.buf[..p])
  {
    var r := AckIdRead(reply, 0, k, buf, 0);
    AckIdReadWithNul(reply, k, 0, p, buf, 0);
    assert r.buf[..p][0..] == r.buf[..p];
  }

  /** The identity-string read with ACK of 26 non-NUL bytes, from transfer
      `k` on, in the terms of `LastReceived`. */
  lemma AckIdReadFullFills(reply: nat -> Sync, k: nat, buf: seq<byte>)
    requires MAX_ID_LEN + 1 < |buf|
    requires forall i :: k <= i < k + (MAX_ID_LEN + 1) ==> reply(i).Ok? && reply(i).rx != 0
    ensures var r := AckIdRead(reply, 0, k, buf, 0);
            && r.ending == Finish && r.syncs == k + (MAX_ID_LEN + 1) && r.verifier == 0
            && LastReceived(reply, r.syncs, r.buf, MAX_ID_LEN + 1) && Accepted(r.buf, MAX_ID_LEN + 1, NonNul)
            && r.sum == Sum(r.buf[..MAX_ID_LEN + 1])
  {
    var r := AckIdRead(reply, 0, k, buf, 0);
    AckIdReadWithoutNul(reply, k, 0, buf, 0);
    assert r.buf[..MAX_ID_LEN + 1][0..] == r.buf[..MAX_ID_LEN + 1];
  }

  /** A whole identity-string read with ACK that succeeds leaves the bytes
      of its last transfers in `rBuf`, whatever the checksum then decides:
      either the bytes before a NUL, with the terminator one place past
      them, the sum of those bytes and the verification byte of the
      transfer after the NUL; or 26 bytes, their sum and a verification
      byte of 0. */
  lemma AckIdReadFills(reply: nat -> Sync, k: nat, buf: seq<byte>)
    requires MAX_ID_LEN + 1 < |buf|
    ensures var r := AckIdRead(reply, 0, k, buf, 0);
            r.ending == Finish ==>
              && k + 1 < r.syncs
              && ((exists p :: 0 <= p <= MAX_ID_LEN && NulTerminated(reply, r.syncs - 2, r.buf, p)
                               && Accepted(r.buf, p, NonNul) && r.sum == Sum(r.buf[..p])
                               && reply(r.syncs - 1) == Ok(r.verifier))
                  || (LastReceived(reply, r.syncs, r.buf, MAX_ID_LEN + 1) && Accepted(r.buf, MAX_ID_LEN + 1, NonNul)
                      && r.sum == Sum(r.buf[..MAX_ID_LEN + 1]) && r.verifier == 0))
  {
    var j := Stop(reply, k, 0, MAX_ID_LEN + 1, NonNul);
    AckIdReadStops(reply, 0, k, buf, 0, k + (MAX_ID_LEN + 1));
    if j < k + (MAX_ID_LEN + 1) {
      if reply(j) == Ok(0) {
        AckIdReadNulFills(reply, k, j - k, buf);
      }
    } else {
      AckIdReadFullFills(reply, k, buf);
    }
  }

  // ---------------------------------------------------------------------
  // The checksum

  /** `(~verifier & 0xFF) == (sum & 0xFF)` says that the sum and the
      verification byte add up to 255 modulo 256. */
  lemma ChecksumMeaning(sum: nat, verifier: byte)
    ensures ChecksumOk(sum, verifier) <==> (sum + verifier) % 256 == 255
  {
  }

  // ---------------------------------------------------------------------
  // One attempt. Transfer number `st.syncs` carries the command; the
  // response, if any, starts at transfer number `st.syncs + 1`.

  /** Every attempt records the FRAME level it starts with. Unless the
      ACK line fails to be high in time, which ends the exchange with
      `-EIO` before anything is sent, the attempt raises FRAME and sends
      exactly the four command bytes, once. A failed command transfer ends
      the exchange with its status, unless the transfer overran, which
      starts the attempt over; without a response to read the attempt then
      succeeds. */
  lemma AttemptSends(env: Peripheral, m: Message, first: bool, st: State)
    requires Fits(m) && |st.buf| == BUF_SIZE
    ensures var (e, after) := Attempt(env, m, first, st);
            var k := st.syncs;
            && (m.useACK && env.ackTimeout(k) ==> e == Fail(-EIO) && after == st.(starts := st.starts + [st.frame]))
            && (!(m.useACK && env.ackTimeout(k)) ==>
                  && after.sent == st.sent + [Command(m)] && after.frame && after.syncs > k
                  && (env.overran(k) ==> e == Restart && after.syncs == k + 1)
                  && (!env.overran(k) && env.reply(k).Err? ==> e == Fail(env.reply(k).code))
                  && (!env.overran(k) && env.reply(k).Ok? && m.bytesToReturn == 0 ==>
                        e == Finish && after.syncs == k + 1 && after.buf == st.buf)
                  && (!env.overran(k) && env.reply(k).Ok? && m.bytesToReturn != 0 && m.useACK && env.ackTimeout(k + 1) ==>
                        e == Fail(-EIO)))
  {
  }

  /** An attempt without ACK that reads a fixed count starts over exactly
      when its command transfer overran or, on the first attempt, a
      transfer of the response brought 0xFF. */
  lemma FixedAttemptRestarts(env: Peripheral, m: Message, first: bool, st: State)
    requires Fits(m) && |st.buf| == BUF_SIZE && !m.useACK && m.bytesToReturn > 0
    ensures var (e, after) := Attempt(env, m, first, st);
            var k := st.syncs;
            e == Restart <==>
              env.overran(k) || (env.reply(k).Ok? && first &&
                                 exists i :: k < i < after.syncs && env.reply(i) == Ok(IDLE))
  {
    var k, n := st.syncs, m.bytesToReturn;
    var (e, after) := Attempt(env, m, first, st);
    if !env.overran(k) && env.reply(k).Ok? {
      var j := Stop(env.reply, k + 1, 0, n, if first then NotIdle else AnyByte);
      FixedReadStops(env.reply, n, first, 0, k + 1, st.buf, k + 1 + n);
      if j < k + 1 + n && env.reply(j).Ok? {
        assert k < j < after.syncs && env.reply(j) == Ok(IDLE);
      }
    }
  }

  /** An attempt with ACK starts over exactly when the ACK line was high in
      time and the command transfer overran: a late ACK line, a failed
      transfer of the response and a checksum mismatch all end the
      exchange. */
  lemma AckAttemptRestarts(env: Peripheral, m: Message, first: bool, st: State)
    requires Fits(m) && |st.buf| == BUF_SIZE && m.useACK
    ensures var (e, after) := Attempt(env, m, first, st);
            e == Restart <==> !env.ackTimeout(st.syncs) && env.overran(st.syncs)
  {
    if m.bytesToReturn > 0 {
      AckFixedReadEnds(env.reply, m.bytesToReturn, st.syncs + 1, st.buf);
    } else if m.bytesToReturn < 0 {
      AckIdReadEnds(env.reply, 0, st.syncs + 1, st.buf, 0);
    }
  }

  /** An attempt without ACK that reads an identity string starts over
      exactly when its command transfer overran or a transfer of the
      response brought a byte of 0x7F or more, on any attempt. */
  lemma IdAttemptRestarts(env: Peripheral, m: Message, first: bool, st: State)
    requires Fits(m) && |st.buf| == BUF_SIZE && !m.useACK && m.bytesToReturn < 0
    ensures var (e, after) := Attempt(env, m, first, st);
            var k := st.syncs;
            e == Restart <==>
              env.overran(k) || (env.reply(k).Ok? &&
                                 exists i :: k < i < after.syncs && env.reply(i).Ok? && env.reply(i).rx >= NOT_ASCII)
  {
    IdReadRestarts(env.reply, st.syncs + 1, st.buf);
  }

  /** An attempt that fails reports `-EIO` or the status of the last
      transfer it made, unchanged. */
  lemma AttemptFails(env: Peripheral, m: Message, first: bool, st: State)
    requires Fits(m) && |st.buf| == BUF_SIZE
    ensures var (e, after) := Attempt(env, m, first, st);
            e.Fail? ==> e.status == -EIO || (st.syncs < after.syncs && env.reply(after.syncs - 1) == Err(e.status))
  {
    var k := st.syncs + 1;
    if !m.useACK && m.bytesToReturn > 0 {
      FixedReadRestarts(env.reply, m.bytesToReturn, first, k, st.buf);
    } else if !m.useACK && m.bytesToReturn < 0 {
      IdReadRestarts(env.reply, k, st.buf);
    } else if m.bytesToReturn > 0 {
      AckFixedReadEnds(env.reply, m.bytesToReturn, k, st.buf);
    } else if m.bytesToReturn < 0 {
      AckIdReadEnds(env.reply, 0, k, st.buf, 0);
    }
  }

  /** No attempt writes `rBuf` at or past `Reach(m)`. */
  lemma AttemptKeepsTail(env: Peripheral, m: Message, first: bool, st: State)
    requires Fits(m) && |st.buf| == BUF_SIZE
    ensures var after := Attempt(env, m, first, st).1;
            forall i :: Reach(m) <= i < BUF_SIZE ==> after.buf[i] == st.buf[i]
  {
    var k := st.syncs + 1;
    if !m.useACK && m.bytesToReturn > 0 {
      FixedReadKeepsTail(env.reply, m.bytesToReturn, first, k, st.buf);
    } else if !m.useACK && m.bytesToReturn < 0 {
      IdReadKeepsTail(env.reply, 0, k, st.buf);
    } else if m.bytesToReturn > 0 {
      AckFixedReadKeepsTail(env.reply, m.bytesToReturn, k, st.buf);
    } else if m.bytesToReturn < 0 {
      AckIdReadKeepsTail(env.reply, 0, k, st.buf, 0);
    }
  }

  /** A successful attempt without ACK that reads a fixed count `n` made
      `n` transfers after the command, and `rBuf[0..n)` holds their bytes in
      order. */
  lemma FixedAttemptFills(env: Peripheral, m: Message, first: bool, st: State)
    requires Fits(m) && |st.buf| == BUF_SIZE && !m.useACK && m.bytesToReturn > 0
    requires Attempt(env, m, first, st).0 == Finish
    ensures var after := Attempt(env, m, first, st).1;
            var n := m.bytesToReturn;
            after.syncs == st.syncs + 1 + n && LastReceived(env.reply, after.syncs, after.buf, n)
  {
    FixedReadFills(env.reply, m.bytesToReturn, first, st.syncs + 1, st.buf);
  }

  /** A successful attempt with ACK that reads a fixed count `n` made `n +
      1` transfers after the command, `rBuf[0..n]` holds their bytes in
      order, and the verification byte `rBuf[n]` matches the sum of
      `rBuf[0..n)`. */
  lemma AckFixedAttemptFills(env: Peripheral, m: Message, first: bool, st: State)
    requires Fits(m) && |st.buf| == BUF_SIZE && m.useACK && m.bytesToReturn > 0
    requires Attempt(env, m, first, st).0 == Finish
    ensures var after := Attempt(env, m, first, st).1;
            var n := m.bytesToReturn;
            && after.syncs == st.syncs + 2 + n
            && LastReceived(env.reply, after.syncs, after.buf, n + 1)
            && ChecksumOk(Sum(after.buf[..n]), after.buf[n])
  {
    AckFixedReadFills(env.reply, m.bytesToReturn, st.syncs + 1, st.buf);
  }

  /** A successful attempt without ACK that reads an identity string
      leaves in `rBuf` the characters of its last transfers: the ones before
      a NUL, with the terminator one place past them, or 25 of them. */
  lemma IdAttemptFills(env: Peripheral, m: Message, first: bool, st: State)
    requires Fits(m) && |st.buf| == BUF_SIZE && !m.useACK && m.bytesToReturn < 0
    requires Attempt(env, m, first, st).0 == Finish
    ensures var after := Attempt(env, m, first, st).1;
            st.syncs + 1 < after.syncs && IdReceived(env.reply, after.syncs, after.buf)
  {
    IdReadFills(env.reply, st.syncs + 1, st.buf);
  }

  /** A successful attempt with ACK that reads an identity string leaves in
      `rBuf` the bytes of its last transfers, the ones before a NUL with the
      terminator one place past them or 26 of them, and their sum matches
      the verification byte. */
  lemma AckIdAttemptFills(env: Peripheral, m: Message, first: bool, st: State)
    requires Fits(m) && |st.buf| == BUF_SIZE && m.useACK && m.bytesToReturn < 0
    requires Attempt(env, m, first, st).0 == Finish
    ensures var after := Attempt(env, m, first, st).1;
            st.syncs + 1 < after.syncs && AckIdReceived(env.reply, after.syncs, after.buf)
  {
    AckIdReadFills(env.reply, st.syncs + 1, st.buf);
  }

  /** When every transfer of an attempt with ACK that reads a fixed count
      `n` succeeds in time, the attempt succeeds exactly when the
      verification byte it stored in `rBuf[n]` matches the sum of
      `rBuf[0..n)`, and otherwise ends the exchange with `-EIO`. */
  lemma AckFixedAttemptChecks(env: Peripheral, m: Message, first: bool, st: State)
    requires Fits(m) && |st.buf| == BUF_SIZE && m.useACK && m.bytesToReturn > 0
    requires !env.ackTimeout(st.syncs) && !env.overran(st.syncs) && !env.ackTimeout(st.syncs + 1)
    requires forall i :: st.syncs <= i <= st.syncs + 1 + m.bytesToReturn ==> env.reply(i).Ok?
    ensures var (e, after) := Attempt(env, m, first, st);
            var n := m.bytesToReturn;
            && (e == Finish <==> ChecksumOk(Sum(after.buf[..n]), after.buf[n]))
            && (e != Finish ==> e == Fail(-EIO))
  {
    var n, k := m.bytesToReturn, st.syncs + 1;
    var j := Stop(env.reply, k, 0, n + 1, AnyByte);
    StopAt(env.reply, k, 0, n + 1, AnyByte, k + (n + 1));
    AckFixedReadStops(env.reply, n + 1, 0, k, st.buf, 0, k + (n + 1));
    AckFixedReadFills(env.reply, n, k, st.buf);
  }

  /** Once the ACK line and the command transfer let an attempt with ACK
      that reads an identity string through, the attempt leaves `rBuf` and
      the transfer count as the read does. A read that fails ends the
      attempt with its status; one that succeeds ends it successfully
      exactly when the read's sum and verification byte pass the check
      (the bytes before the NUL and the byte after it, or all 26 bytes and
      0 when no NUL came), and with `-EIO` otherwise. */
  lemma AckIdAttemptChecks(env: Peripheral, m: Message, first: bool, st: State)
    requires Fits(m) && |st.buf| == BUF_SIZE && m.useACK && m.bytesToReturn < 0
    requires !env.ackTimeout(st.syncs) && !env.overran(st.syncs) && !env.ackTimeout(st.syncs + 1)
    requires env.reply(st.syncs).Ok?
    ensures var (e, after) := Attempt(env, m, first, st);
            var r := AckIdRead(env.reply, 0, st.syncs + 1, st.buf, 0);
            && after.buf == r.buf && after.syncs == r.syncs
            && (r.ending.Fail? ==> e == r.ending)
            && (r.ending == Finish ==> (e == Finish <==> ChecksumOk(r.sum, r.verifier)))
            && (r.ending == Finish && e != Finish ==> e == Fail(-EIO))
  {
  }

  /** When every transfer of an attempt with ACK that reads an identity
      string succeeds in time and the 26 bytes it reads contain no NUL, the
      verification byte stays 0: the attempt succeeds exactly when the sum
      of those bytes, now in `rBuf[0..26)`, is 255 modulo 256, and otherwise
      ends the exchange with `-EIO`. */
  lemma AckIdAttemptWithoutNul(env: Peripheral, m: Message, first: bool, st: State)
    requires Fits(m) && |st.buf| == BUF_SIZE && m.useACK && m.bytesToReturn < 0
    requires !env.ackTimeout(st.syncs) && !env.overran(st.syncs) && !env.ackTimeout(st.syncs + 1)
    requires env.reply(st.syncs).Ok?
    requires forall i :: st.syncs + 1 <= i < st.syncs + 1 + (MAX_ID_LEN + 1) ==> env.reply(i).Ok? && env.reply(i).rx != 0
    ensures var (e, after) := Attempt(env, m, first, st);
            && after.syncs == st.syncs + 2 + MAX_ID_LEN
            && (e == Finish <==> Sum(after.buf[..MAX_ID_LEN + 1]) % 256 == 255)
            && (e != Finish ==> e == Fail(-EIO))
  {
    var r := AckIdRead(env.reply, 0, st.syncs + 1, st.buf, 0);
    AckIdReadWithoutNulSum(env.reply, st.syncs + 1, st.buf);
    ChecksumMeaning(r.sum, r.verifier);
  }
}
