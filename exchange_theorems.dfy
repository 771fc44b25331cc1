/** What a whole call of `piplate_spi_message` promises, proved by
    induction on the attempt counter from the facts about one attempt. A
    call enters with the counter at `maxAttempts + 1`; the lemmas speak of
    any entry value so that the induction goes through, and the ones named
    for the call itself fix it. */
module ExchangeTheorems {
  import opened PiPlate
  import opened ExchangeSpec
  import opened ExchangeProps

  /** Every way out of the exchange, retry exhaustion included, leaves
      FRAME low. */
  lemma {:induction false} ExchangeLowersFrame(env: Peripheral, m: Message, maxAttempts: nat, attempts: int, st: State)
    requires 0 < maxAttempts && 0 <= attempts <= maxAttempts + 1
    requires Fits(m) && |st.buf| == BUF_SIZE
    ensures !Exchange(env, m, maxAttempts, attempts, st).st.frame
    decreases attempts
  {
    var st0 := if attempts < maxAttempts then st.(frame := false) else st;
    if 0 < attempts {
      var first := attempts - 1 == maxAttempts;
      var (e, st1) := Attempt(env, m, first, st0);
      ExchangeRound(env, m, maxAttempts, attempts, attempts - 1, st, st0, first, e, st1);
      if e == Restart {
        ExchangeLowersFrame(env, m, maxAttempts, attempts - 1, st1);
      }
    }
  }

  /** Entered with the counter at `attempts`, the exchange makes at most
      `attempts` attempts, and at least one unless the counter is already
      exhausted; the record of earlier attempts is kept. The first attempt
      begins with FRAME low when the clean-up before it ran (the counter
      was below `maxAttempts`) and with FRAME as found otherwise; entered
      at or below `maxAttempts`, every later attempt begins with FRAME low. */
  lemma {:induction false} ExchangeAttempts(env: Peripheral, m: Message, maxAttempts: nat, attempts: int, st: State)
    requires 0 < maxAttempts && 0 <= attempts <= maxAttempts + 1
    requires Fits(m) && |st.buf| == BUF_SIZE
    ensures var r := Exchange(env, m, maxAttempts, attempts, st);
            && st.starts <= r.st.starts
            && |r.st.starts| - |st.starts| <= attempts
            && (0 < attempts ==> |st.starts| < |r.st.starts|)
            && (0 < attempts ==> r.st.starts[|st.starts|] == (attempts >= maxAttempts && st.frame))
            && (attempts <= maxAttempts ==> forall i :: |st.starts| < i < |r.st.starts| ==> !r.st.starts[i])
    decreases attempts
  {
    var st0 := if attempts < maxAttempts then st.(frame := false) else st;
    if 0 < attempts {
      var first := attempts - 1 == maxAttempts;
      var (e, st1) := Attempt(env, m, first, st0);
      ExchangeRound(env, m, maxAttempts, attempts, attempts - 1, st, st0, first, e, st1);
      if e == Restart {
        ExchangeAttempts(env, m, maxAttempts, attempts - 1, st1);
      }
    }
  }

  /** A call of `piplate_spi_message` makes between one and
      `MAX_ATTEMPTS + 1` attempts. */
  lemma CallAttempts(env: Peripheral, m: Message, maxAttempts: nat, st: State)
    requires 0 < maxAttempts && Fits(m) && |st.buf| == BUF_SIZE
    ensures var r := Exchange(env, m, maxAttempts, maxAttempts + 1, st);
            0 < |r.st.starts| - |st.starts| <= maxAttempts + 1
  {
    ExchangeAttempts(env, m, maxAttempts, maxAttempts + 1, st);
  }

  /** The only frames the exchange sends are the message's four command
      bytes, at most one per attempt. */
  lemma {:induction false} ExchangeSends(env: Peripheral, m: Message, maxAttempts: nat, attempts: int, st: State)
    requires 0 < maxAttempts && 0 <= attempts <= maxAttempts + 1
    requires Fits(m) && |st.buf| == BUF_SIZE
    ensures var r := Exchange(env, m, maxAttempts, attempts, st);
            && st.sent <= r.st.sent
            && |r.st.sent| - |st.sent| <= |r.st.starts| - |st.starts|
            && (forall i :: |st.sent| <= i < |r.st.sent| ==> r.st.sent[i] == Command(m))
    decreases attempts
  {
    var st0 := if attempts < maxAttempts then st.(frame := false) else st;
    if 0 < attempts {
      var first := attempts - 1 == maxAttempts;
      var (e, st1) := Attempt(env, m, first, st0);
      ExchangeRound(env, m, maxAttempts, attempts, attempts - 1, st, st0, first, e, st1);
      if e == Restart {
        ExchangeSends(env, m, maxAttempts, attempts - 1, st1);
      }
    }
  }

  /** In a call, the first attempt begins with FRAME as the caller left
      it, the second (if any) with FRAME still high, because the clean-up
      is skipped while the counter equals `MAX_ATTEMPTS`, and every later
      one with FRAME low. */
  lemma CallCleanupSchedule(env: Peripheral, m: Message, maxAttempts: nat, st: State)
    requires 0 < maxAttempts && Fits(m) && |st.buf| == BUF_SIZE
    ensures var r := Exchange(env, m, maxAttempts, maxAttempts + 1, st);
            var s := |st.starts|;
            && s < |r.st.starts| && r.st.starts[s] == st.frame
            && (s + 1 < |r.st.starts| ==> r.st.starts[s + 1])
            && (forall i :: s + 1 < i < |r.st.starts| ==> !r.st.starts[i])
  {
    var (e, st1) := Attempt(env, m, true, st);
    ExchangeRound(env, m, maxAttempts, maxAttempts + 1, maxAttempts, st, st, true, e, st1);
    assert st1.starts == st.starts + [st.frame];
    if e == Restart {
      ExchangeAttempts(env, m, maxAttempts, maxAttempts, st1);
    }
  }

  /** When every transfer overruns (and, with ACK, the line is always in
      time), each attempt restarts, and the exchange gives up with `-EIO`
      after exactly `attempts` attempts of one transfer each. */
  lemma {:induction false} ExchangeExhausted(env: Peripheral, m: Message, maxAttempts: nat, attempts: int, st: State)
    requires 0 < maxAttempts && 0 <= attempts <= maxAttempts + 1
    requires Fits(m) && |st.buf| == BUF_SIZE
    requires forall i :: env.overran(i)
    requires m.useACK ==> forall i :: !env.ackTimeout(i)
    ensures var r := Exchange(env, m, maxAttempts, attempts, st);
            && r.status == -EIO
            && |r.st.starts| == |st.starts| + attempts
            && r.st.syncs == st.syncs + attempts
    decreases attempts
  {
    var st0 := if attempts < maxAttempts then st.(frame := false) else st;
    if 0 < attempts {
      var first := attempts - 1 == maxAttempts;
      var (e, st1) := Attempt(env, m, first, st0);
      ExchangeRound(env, m, maxAttempts, attempts, attempts - 1, st, st0, first, e, st1);
      AttemptSends(env, m, first, st0);
      ExchangeExhausted(env, m, maxAttempts, attempts - 1, st1);
    }
  }

  /** A non-zero status is `-EIO` or the status of the last transfer made,
      passed on unchanged. */
  lemma {:induction false} ExchangeStatus(env: Peripheral, m: Message, maxAttempts: nat, attempts: int, st: State)
    requires 0 < maxAttempts && 0 <= attempts <= maxAttempts + 1
    requires Fits(m) && |st.buf| == BUF_SIZE
    ensures var r := Exchange(env, m, maxAttempts, attempts, st);
            r.status != 0 ==>
              r.status == -EIO || (st.syncs < r.st.syncs && env.reply(r.st.syncs - 1) == Err(r.status))
    decreases attempts
  {
    var st0 := if attempts < maxAttempts then st.(frame := false) else st;
    if 0 < attempts {
      var first := attempts - 1 == maxAttempts;
      var (e, st1) := Attempt(env, m, first, st0);
      ExchangeRound(env, m, maxAttempts, attempts, attempts - 1, st, st0, first, e, st1);
      AttemptFails(env, m, first, st0);
      if e == Restart {
        ExchangeStatus(env, m, maxAttempts, attempts - 1, st1);
      }
    }
  }

  /** The exchange never writes `rBuf` at or past `Reach(m)`; in
      particular a message with nothing to return leaves it untouched. */
  lemma {:induction false} ExchangeKeepsTail(env: Peripheral, m: Message, maxAttempts: nat, attempts: int, st: State)
    requires 0 < maxAttempts && 0 <= attempts <= maxAttempts + 1
    requires Fits(m) && |st.buf| == BUF_SIZE
    ensures var r := Exchange(env, m, maxAttempts, attempts, st);
            forall i :: Reach(m) <= i < BUF_SIZE ==> r.st.buf[i] == st.buf[i]
    decreases attempts
  {
    var st0 := if attempts < maxAttempts then st.(frame := false) else st;
    if 0 < attempts {
      var first := attempts - 1 == maxAttempts;
      var (e, st1) := Attempt(env, m, first, st0);
      ExchangeRound(env, m, maxAttempts, attempts, attempts - 1, st, st0, first, e, st1);
      AttemptKeepsTail(env, m, first, st0);
      if e == Restart {
        ExchangeKeepsTail(env, m, maxAttempts, attempts - 1, st1);
      }
    }
  }

  /** When a fixed-count exchange without ACK returns 0, `rBuf[0..n)`
      holds the bytes of the last `n` transfers, in order. */
  lemma {:induction false} FixedExchangeFills(env: Peripheral, m: Message, maxAttempts: nat, attempts: int, st: State)
    requires 0 < maxAttempts && 0 <= attempts <= maxAttempts + 1
    requires Fits(m) && |st.buf| == BUF_SIZE && !m.useACK && m.bytesToReturn > 0
    ensures var r := Exchange(env, m, maxAttempts, attempts, st);
            var n := m.bytesToReturn;
            r.status == 0 ==> st.syncs < r.st.syncs && LastReceived(env.reply, r.st.syncs, r.st.buf, n)
    decreases attempts
  {
    var st0 := if attempts < maxAttempts then st.(frame := false) else st;
    if 0 < attempts {
      var first := attempts - 1 == maxAttempts;
      var (e, st1) := Attempt(env, m, first, st0);
      ExchangeRound(env, m, maxAttempts, attempts, attempts - 1, st, st0, first, e, st1);
      if e == Finish {
        FixedAttemptFills(env, m, first, st0);
      } else if e == Restart {
        FixedExchangeFills(env, m, maxAttempts, attempts - 1, st1);
      }
    }
  }

  /** When a fixed-count exchange with ACK returns 0, `rBuf[0..n]` holds
      the bytes of the last `n + 1` transfers, in order. */
  lemma {:induction false} AckFixedExchangeFills(env: Peripheral, m: Message, maxAttempts: nat, attempts: int, st: State)
    requires 0 < maxAttempts && 0 <= attempts <= maxAttempts + 1
    requires Fits(m) && |st.buf| == BUF_SIZE && m.useACK && m.bytesToReturn > 0
    ensures var r := Exchange(env, m, maxAttempts, attempts, st);
            var n := m.bytesToReturn;
            r.status == 0 ==> st.syncs < r.st.syncs && LastReceived(env.reply, r.st.syncs, r.st.buf, n + 1)
    decreases attempts
  {
    var st0 := if attempts < maxAttempts then st.(frame := false) else st;
    if 0 < attempts {
      var first := attempts - 1 == maxAttempts;
      var (e, st1) := Attempt(env, m, first, st0);
      ExchangeRound(env, m, maxAttempts, attempts, attempts - 1, st, st0, first, e, st1);
      if e == Finish {
        AckFixedAttemptFills(env, m, first, st0);
      } else if e == Restart {
        AckFixedExchangeFills(env, m, maxAttempts, attempts - 1, st1);
      }
    }
  }

  /** When a fixed-count exchange with ACK returns 0, the verification
      byte it left in `rBuf[n]` matches the sum of `rBuf[0..n)`. */
  lemma {:induction false} AckFixedExchangeVerifies(env: Peripheral, m: Message, maxAttempts: nat, attempts: int, st: State)
    requires 0 < maxAttempts && 0 <= attempts <= maxAttempts + 1
    requires Fits(m) && |st.buf| == BUF_SIZE && m.useACK && m.bytesToReturn > 0
    ensures var r := Exchange(env, m, maxAttempts, attempts, st);
            var n := m.bytesToReturn;
            r.status == 0 ==> ChecksumOk(Sum(r.st.buf[..n]), r.st.buf[n])
    decreases attempts
  {
    var st0 := if attempts < maxAttempts then st.(frame := false) else st;
    if 0 < attempts {
      var first := attempts - 1 == maxAttempts;
      var (e, st1) := Attempt(env, m, first, st0);
      ExchangeRound(env, m, maxAttempts, attempts, attempts - 1, st, st0, first, e, st1);
      if e == Finish {
        AckFixedAttemptFills(env, m, first, st0);
      } else if e == Restart {
        AckFixedExchangeVerifies(env, m, maxAttempts, attempts - 1, st1);
      }
    }
  }

  /** When an identity-string exchange without ACK returns 0, `rBuf` holds
      the characters its last transfers brought: those before a NUL, with
      the terminator one place past them, or 25 characters. */
  lemma {:induction false} IdExchangeFills(env: Peripheral, m: Message, maxAttempts: nat, attempts: int, st: State)
    requires 0 < maxAttempts && 0 <= attempts <= maxAttempts + 1
    requires Fits(m) && |st.buf| == BUF_SIZE && !m.useACK && m.bytesToReturn < 0
    ensures var r := Exchange(env, m, maxAttempts, attempts, st);
            r.status == 0 ==> st.syncs < r.st.syncs && IdReceived(env.reply, r.st.syncs, r.st.buf)
    decreases attempts
  {
    var st0 := if attempts < maxAttempts then st.(frame := false) else st;
    if 0 < attempts {
      var first := attempts - 1 == maxAttempts;
      var (e, st1) := Attempt(env, m, first, st0);
      ExchangeRound(env, m, maxAttempts, attempts, attempts - 1, st, st0, first, e, st1);
      if e == Finish {
        IdAttemptFills(env, m, first, st0);
      } else if e == Restart {
        IdExchangeFills(env, m, maxAttempts, attempts - 1, st1);
      }
    }
  }

  /** When an identity-string exchange with ACK returns 0, `rBuf` holds the
      bytes its last transfers brought, those before a NUL with the
      terminator one place past them or 26 bytes, and their sum matches
      the verification byte. */
  lemma {:induction false} AckIdExchangeFills(env: Peripheral, m: Message, maxAttempts: nat, attempts: int, st: State)
    requires 0 < maxAttempts && 0 <= attempts <= maxAttempts + 1
    requires Fits(m) && |st.buf| == BUF_SIZE && m.useACK && m.bytesToReturn < 0
    ensures var r := Exchange(env, m, maxAttempts, attempts, st);
            r.status == 0 ==> st.syncs < r.st.syncs && AckIdReceived(env.reply, r.st.syncs, r.st.buf)
    decreases attempts
  {
    var st0 := if attempts < maxAttempts then st.(frame := false) else st;
    if 0 < attempts {
      var first := attempts - 1 == maxAttempts;
      var (e, st1) := Attempt(env, m, first, st0);
      ExchangeRound(env, m, maxAttempts, attempts, attempts - 1, st, st0, first, e, st1);
      if e == Finish {
        AckIdAttemptFills(env, m, first, st0);
      } else if e == Restart {
        AckIdExchangeFills(env, m, maxAttempts, attempts - 1, st1);
      }
    }
  }

  /** With ACK, or with nothing to return, only an overrun starts an
      attempt over: when no transfer overruns, the exchange makes exactly
      one attempt. */
  lemma OneAttemptWithoutOverrun(env: Peripheral, m: Message, maxAttempts: nat, attempts: int, st: State)
    requires 0 < maxAttempts && 0 < attempts <= maxAttempts + 1
    requires Fits(m) && |st.buf| == BUF_SIZE && (m.useACK || m.bytesToReturn == 0)
    requires forall i :: !env.overran(i)
    ensures var r := Exchange(env, m, maxAttempts, attempts, st);
            |r.st.starts| == |st.starts| + 1
  {
    var st0 := if attempts < maxAttempts then st.(frame := false) else st;
    if m.useACK {
      AckAttemptRestarts(env, m, attempts - 1 == maxAttempts, st0);
    } else {
      AttemptSends(env, m, attempts - 1 == maxAttempts, st0);
    }
  }

  /** A fixed-count call without ACK in which no transfer overruns makes at
      most two attempts: an idle byte can send only the first one back. */
  lemma FixedCallWithoutOverrun(env: Peripheral, m: Message, maxAttempts: nat, st: State)
    requires 0 < maxAttempts && Fits(m) && |st.buf| == BUF_SIZE
    requires !m.useACK && m.bytesToReturn > 0
    requires forall i :: !env.overran(i)
    ensures var r := Exchange(env, m, maxAttempts, maxAttempts + 1, st);
            |r.st.starts| <= |st.starts| + 2
  {
    var (e1, st1) := Attempt(env, m, true, st);
    ExchangeRound(env, m, maxAttempts, maxAttempts + 1, maxAttempts, st, st, true, e1, st1);
    if e1 == Restart {
      var (e2, st2) := Attempt(env, m, false, st1);
      ExchangeRound(env, m, maxAttempts, maxAttempts, maxAttempts - 1, st1, st1, false, e2, st2);
      FixedAttemptRestarts(env, m, false, st1);
    }
  }

  /** A call for a message with nothing to return, whose command transfer
      succeeds in time, sends the command once, reads nothing, lowers FRAME
      and returns 0. */
  lemma ZeroLengthCall(env: Peripheral, m: Message, maxAttempts: nat, st: State)
    requires 0 < maxAttempts && Fits(m) && |st.buf| == BUF_SIZE && m.bytesToReturn == 0
    requires !(m.useACK && env.ackTimeout(st.syncs)) && !env.overran(st.syncs) && env.reply(st.syncs).Ok?
    ensures Exchange(env, m, maxAttempts, maxAttempts + 1, st)
         == Outcome(0, st.(frame := false, syncs := st.syncs + 1,
                           sent := st.sent + [Command(m)], starts := st.starts + [st.frame]))
  {
    AttemptSends(env, m, true, st);
  }
}
