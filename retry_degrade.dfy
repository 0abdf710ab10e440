/** The end of `main`: the legitimate TCP segment is sent at a fixed sequence number and
    read back on the IUT, with up to three attempts per cycle; when a cycle runs out
    with fragment overriding on, the floods are stopped and one more cycle is run. */
module RetryDegrade {
  import opened Bytes
  import opened BonkConfig
  import opened FragPlan
  import opened Template

  /** Attempts per cycle (`retries = 3`). */
  const RETRIES: nat := 3
  /** At most two cycles are ever run. */
  const MAX_ATTEMPTS: nat := 2 * RETRIES

  /** What the environment answers to one send-and-poll attempt. */
  datatype Attempt =
    | SendRejected                // `tapi_tcp_send_msg` itself failed
    | Received(data: seq<uint8>)  // readable, and `rpc_recv` returned these |data| bytes
    | RecvFailed                  // readable, but `rpc_recv` failed: no error was awaited, so the RPC layer ends the test
    | Timeout                     // nothing readable within the poll timeout
    | IomuxError                  // the poll call itself failed

  /** The attempts after which the cycle goes on (`num < 0`): only a poll that timed out,
      since a failing `rpc_recv` never returns to the test. */
  predicate Retryable(a: Attempt)
  {
    a.Timeout?
  }

  /** Observable actions, in order. */
  datatype Event =
    | Send(seqn: uint32, frags: seq<FragSpec>)  // the segment sent at `seqn`, with this fragment table
    | StopFlood(flood: Flood)                   // `rcf_ta_trsend_stop` on one flood stream
    | UpdateSentSeq(delta: nat)                 // `tapi_tcp_update_sent_seq`

  datatype Verdict = Passed | SendFailed | IomuxFailed | RecvAborted | RetriesOver | LengthMismatch | Corrupted

  /** The fragment table the segment is sent with (`check_frags ? frags : NULL`). */
  function SegmentFrags(checkFrags: bool): (r: seq<FragSpec>)
    ensures checkFrags ==> r == Plan(TX_LEN + TCP_HDR_LEN, FRAG_LEN, IP_HDR_LEN) && |r| == 2
    ensures !checkFrags ==> r == []
  {
    if checkFrags then OverrideFragsTileSegment(); OVERRIDE_FRAGS else []
  }

  /** The degrade step stops the four floods in this order. */
  const DEGRADE_STOPS: seq<Event> :=
    [StopFlood(UdpFlood), StopFlood(TcpDataFlood), StopFlood(TcpSynFlood), StopFlood(IcmpFlood)]

  /** The degrade step stops every flood, each exactly once. */
  lemma DegradeStopsEachFloodOnce()
    ensures |DEGRADE_STOPS| == 4
    ensures forall j :: 0 <= j < |DEGRADE_STOPS| ==> DEGRADE_STOPS[j].StopFlood?
    ensures forall f: Flood :: StopFlood(f) in DEGRADE_STOPS
    ensures forall i, j :: 0 <= i < j < |DEGRADE_STOPS| ==> DEGRADE_STOPS[i] != DEGRADE_STOPS[j]
  {
    forall f: Flood
      ensures StopFlood(f) in DEGRADE_STOPS
    {
      var at := match f
        case UdpFlood => 0
        case TcpDataFlood => 1
        case TcpSynFlood => 2
        case IcmpFlood => 3;
      assert DEGRADE_STOPS[at] == StopFlood(f);
    }
  }

  function Sends(seqn: uint32, checkFrags: bool, count: nat): (r: seq<Event>)
    ensures |r| == count
  {
    seq(count, _ => Send(seqn, SegmentFrags(checkFrags)))
  }

  /** Attempts one cycle of at most `budget` attempts makes when its answers start at
      `o[start]`: every attempt but the last is retryable, and the cycle stops early
      only on an answer that is not. */
  function CycleLength(o: seq<Attempt>, start: nat, budget: nat): (r: nat)
    requires start + budget <= |o|
    ensures r <= budget && (budget > 0 ==> r >= 1)
    ensures forall j :: start <= j < start + r - 1 ==> Retryable(o[j])
    ensures 0 < r < budget ==> !Retryable(o[start + r - 1])
    decreases budget
  {
    if budget == 0 then 0
    else if Retryable(o[start]) then 1 + CycleLength(o, start + 1, budget - 1)
    else 1
  }

  /** The verdict, the tracked sent sequence number afterwards, and the event log. */
  datatype Outcome = Outcome(verdict: Verdict, nextSeq: uint32, log: seq<Event>)

  /** How the test ends once a cycle stopped on answer `a`, after the events `log`: a
      failed send, poll or receive aborts, a still-retryable answer means the retries are
      over, and a received segment advances the sent sequence and is then checked for
      length and content. */
  function Conclude(a: Attempt, tx: seq<uint8>, seqn: uint32, log: seq<Event>): (out: Outcome)
    ensures a.Received? <==> out.verdict in {Passed, LengthMismatch, Corrupted}
    ensures a.Received? ==> out.nextSeq == Add32(seqn, TX_LEN) && out.log == log + [UpdateSentSeq(TX_LEN)]
    ensures !a.Received? ==> out.nextSeq == seqn && out.log == log
    ensures out.verdict == RetriesOver <==> Retryable(a)
    ensures out.verdict == Passed <==> a == Received(tx) && |tx| == TX_LEN
  {
    match a
    case SendRejected => Outcome(SendFailed, seqn, log)
    case IomuxError => Outcome(IomuxFailed, seqn, log)
    case RecvFailed => Outcome(RecvAborted, seqn, log)
    case Received(d) =>
      Outcome(if |d| != TX_LEN then LengthMismatch else if d != tx then Corrupted else Passed,
              Add32(seqn, TX_LEN), log + [UpdateSentSeq(TX_LEN)])
    case _ => Outcome(RetriesOver, seqn, log)
  }

  /** The whole exchange: a first cycle on answers `o[0..]`, and, when it ran out with
      fragment overriding on, the four stops and a second cycle on answers `o[3..]`. */
  function Run(checkFrags: bool, seqn: uint32, tx: seq<uint8>, o: seq<Attempt>): (out: Outcome)
    requires |o| >= MAX_ATTEMPTS
    ensures |out.log| >= 1 && out.log[0] == Send(seqn, SegmentFrags(checkFrags))
    ensures out.nextSeq == seqn || out.nextSeq == Add32(seqn, TX_LEN)
  {
    var n1 := CycleLength(o, 0, RETRIES);
    var log1 := Sends(seqn, checkFrags, n1);
    if Retryable(o[n1 - 1]) && checkFrags then
      var n2 := CycleLength(o, RETRIES, RETRIES);
      Conclude(o[RETRIES + n2 - 1], tx, seqn, log1 + DEGRADE_STOPS + Sends(seqn, checkFrags, n2))
    else
      Conclude(o[n1 - 1], tx, seqn, log1)
  }

  /** A cycle with the shape of CycleLength's contract has exactly that length. */
  lemma CycleLengthIs(o: seq<Attempt>, start: nat, budget: nat, m: nat)
    requires start + budget <= |o| && 1 <= m <= budget
    requires forall j :: start <= j < start + m - 1 ==> Retryable(o[j])
    requires m == budget || !Retryable(o[start + m - 1])
    ensures CycleLength(o, start, budget) == m
  {
  }

  /** Events before the cycle whose answers start at `base`. */
  predicate CycleStart(checkFrags: bool, seqn: uint32, o: seq<Attempt>, base: nat, before: seq<Event>)
    requires |o| >= MAX_ATTEMPTS
  {
    || (base == 0 && before == [])
    || (&& base == RETRIES && checkFrags
        && CycleLength(o, 0, RETRIES) == RETRIES && Retryable(o[RETRIES - 1])
        && before == Sends(seqn, checkFrags, RETRIES) + DEGRADE_STOPS)
  }

  /** Once a cycle has stopped and no degrade follows it, the run ends as its last
      answer says. */
  lemma RunEndsWithCycle(checkFrags: bool, seqn: uint32, tx: seq<uint8>, o: seq<Attempt>,
                         base: nat, m: nat, before: seq<Event>)
    requires |o| >= MAX_ATTEMPTS
    requires CycleStart(checkFrags, seqn, o, base, before)
    requires 1 <= m && CycleLength(o, base, RETRIES) == m
    requires base == RETRIES || !checkFrags || !Retryable(o[m - 1])
    ensures Run(checkFrags, seqn, tx, o) == Conclude(o[base + m - 1], tx, seqn, before + Sends(seqn, checkFrags, m))
  {
    if base == 0 {
      assert before + Sends(seqn, checkFrags, m) == Sends(seqn, checkFrags, m);
    }
  }

  /** One `do { ... } while (num < 0 && retries > 0)` cycle on the answers starting at
      `o[base]`: it makes CycleLength attempts, each one sending the segment at `seqn`.
      `failed` reports a failed send, poll or receive, which ends the test with verdict `why`;
      otherwise `num` is negative
      exactly when the last answer was retryable, and a received answer gives `num`
      and `rx`. */
  method AttemptCycle(checkFrags: bool, seqn: uint32, o: seq<Attempt>, base: nat)
    returns (made: nat, failed: bool, why: Verdict, num: int, rx: seq<uint8>, ghost sent: seq<Event>)
    requires base + RETRIES <= |o|
    ensures made == CycleLength(o, base, RETRIES) && 1 <= made
    ensures sent == Sends(seqn, checkFrags, made)
    ensures failed <==> o[base + made - 1].SendRejected? || o[base + made - 1].IomuxError? || o[base + made - 1].RecvFailed?
    ensures failed ==> why == (if o[base + made - 1].SendRejected? then SendFailed
                               else if o[base + made - 1].IomuxError? then IomuxFailed else RecvAborted)
    ensures !failed ==> (num < 0 <==> Retryable(o[base + made - 1]))
    ensures o[base + made - 1].Received? ==> num == |o[base + made - 1].data| && rx == o[base + made - 1].data
  {
    var retries := RETRIES;
    var k := base;
    num, rx, sent, why := -1, [], [], Passed;
    while true
      invariant 0 < retries <= RETRIES && k + retries == base + RETRIES
      invariant forall j :: base <= j < k ==> Retryable(o[j])
      invariant sent == Sends(seqn, checkFrags, k - base)
      decreases retries
    {
      sent := sent + [Send(seqn, SegmentFrags(checkFrags))];
      var a := o[k];
      k := k + 1;
      match a {
        case SendRejected =>
          CycleLengthIs(o, base, RETRIES, k - base);
          made, failed, why := k - base, true, SendFailed;
          return;
        case Received(d) =>
          num, rx := |d|, d;
        case RecvFailed =>
          CycleLengthIs(o, base, RETRIES, k - base);
          made, failed, why := k - base, true, RecvAborted;
          return;
        case Timeout =>
          num := -1;
        case IomuxError =>
          CycleLengthIs(o, base, RETRIES, k - base);
          made, failed, why := k - base, true, IomuxFailed;
          return;
      }
      retries := retries - 1;
      if !(num < 0 && retries > 0) {
        break;
      }
    }
    CycleLengthIs(o, base, RETRIES, k - base);
    made, failed := k - base, false;
  }

  /** The retry block of `main`, with the `goto again` as a second pass of the outer
      loop. `seqn` is the sequence number captured before the loop, `tx` the contents
      of `tx_buf`, and `o[i]` the answer to the i-th attempt. */
  method RetryLoop(checkFrags: bool, seqn: uint32, tx: seq<uint8>, o: seq<Attempt>)
    returns (verdict: Verdict, nextSeq: uint32, ghost log: seq<Event>)
    requires |tx| == TX_LEN
    requires |o| >= MAX_ATTEMPTS
    ensures verdict == Run(checkFrags, seqn, tx, o).verdict
    ensures nextSeq == Run(checkFrags, seqn, tx, o).nextSeq
    ensures log == Run(checkFrags, seqn, tx, o).log
  {
    var again := false;
    var k := 0;
    var num: int;
    var rx: seq<uint8>;
    log := [];
    while true
      invariant again <==> k == RETRIES
      invariant CycleStart(checkFrags, seqn, o, k, log)
      decreases if again then 0 else 1
    {
      var made: nat, failed: bool, why: Verdict;
      ghost var sent: seq<Event>;
      made, failed, why, num, rx, sent := AttemptCycle(checkFrags, seqn, o, k);
      if failed {
        RunEndsWithCycle(checkFrags, seqn, tx, o, k, made, log);
        verdict, nextSeq, log := why, seqn, log + sent;
        return;
      }
      if made == RETRIES && num < 0 {
        if !checkFrags || again {
          RunEndsWithCycle(checkFrags, seqn, tx, o, k, made, log);
          verdict, nextSeq, log := RetriesOver, seqn, log + sent;
          return;
        }
        log := log + sent + DEGRADE_STOPS;
        again := true;
        k := k + made;
      } else {
        RunEndsWithCycle(checkFrags, seqn, tx, o, k, made, log);
        log := log + sent;
        break;
      }
    }
    nextSeq := Add32(seqn, TX_LEN);
    log := log + [UpdateSentSeq(TX_LEN)];
    if num != TX_LEN {
      verdict := LengthMismatch;
    } else if rx != tx {
      verdict := Corrupted;
    } else {
      verdict := Passed;
    }
  }

  /** Event kinds, for counting. */
  datatype Tag = SendTag | StopTag | UpdateTag

  function TagOf(e: Event): Tag
  {
    match e
    case Send(_, _) => SendTag
    case StopFlood(_) => StopTag
    case UpdateSentSeq(_) => UpdateTag
  }

  /** Number of events of kind `t` in `log`. */
  function CountOf(log: seq<Event>, t: Tag): nat
  {
    if log == [] then 0
    else CountOf(log[..|log| - 1], t) + (if TagOf(log[|log| - 1]) == t then 1 else 0)
  }

  lemma {:induction false} CountOfAppend(a: seq<Event>, b: seq<Event>, t: Tag)
    ensures CountOf(a + b, t) == CountOf(a, t) + CountOf(b, t)
    decreases |b|
  {
    if b == [] {
      assert a + b == a;
    } else {
      assert (a + b)[..|a + b| - 1] == a + b[..|b| - 1];
      CountOfAppend(a, b[..|b| - 1], t);
    }
  }

  lemma {:induction false} CountOfSends(seqn: uint32, checkFrags: bool, n: nat, t: Tag)
    ensures CountOf(Sends(seqn, checkFrags, n), t) == if t == SendTag then n else 0
  {
    if n > 0 {
      assert Sends(seqn, checkFrags, n)[..n - 1] == Sends(seqn, checkFrags, n - 1);
      CountOfSends(seqn, checkFrags, n - 1, t);
    }
  }

  lemma CountOfOne(e: Event, t: Tag)
    ensures CountOf([e], t) == if TagOf(e) == t then 1 else 0
  {
    assert [e][..0] == [];
  }

  lemma CountOfStops(t: Tag)
    ensures CountOf(DEGRADE_STOPS, t) == if t == StopTag then 4 else 0
  {
    var s := DEGRADE_STOPS;
    assert s == [s[0]] + [s[1]] + [s[2]] + [s[3]];
    CountOfAppend([s[0]] + [s[1]] + [s[2]], [s[3]], t);
    CountOfAppend([s[0]] + [s[1]], [s[2]], t);
    CountOfAppend([s[0]], [s[1]], t);
    CountOfOne(s[0], t);
    CountOfOne(s[1], t);
    CountOfOne(s[2], t);
    CountOfOne(s[3], t);
  }

  /** Attempts the test may make: one cycle, or two when fragment overriding is on. */
  function Budget(checkFrags: bool): nat
  {
    if checkFrags then MAX_ATTEMPTS else RETRIES
  }

  /** Answer `i` is the first that ends the retrying, and it comes within the budget. */
  predicate FirstAnswer(checkFrags: bool, o: seq<Attempt>, i: nat)
    requires |o| >= MAX_ATTEMPTS
  {
    i < Budget(checkFrags) && !Retryable(o[i]) && forall j :: 0 <= j < i ==> Retryable(o[j])
  }

  /** Every answer within the budget is retryable. */
  predicate Exhausted(checkFrags: bool, o: seq<Attempt>)
    requires |o| >= MAX_ATTEMPTS
  {
    forall j :: 0 <= j < Budget(checkFrags) ==> Retryable(o[j])
  }

  /** The first cycle runs out with fragment overriding on: the degrade step happens. */
  predicate Degrades(checkFrags: bool, o: seq<Attempt>)
    requires |o| >= MAX_ATTEMPTS
  {
    checkFrags && forall j :: 0 <= j < RETRIES ==> Retryable(o[j])
  }

  /** The events logged up to and including attempt `i`: the sends so far, with the
      four stops after the third when `i` lies in the second cycle. */
  function LogThrough(seqn: uint32, checkFrags: bool, i: nat): seq<Event>
  {
    if i < RETRIES then Sends(seqn, checkFrags, i + 1)
    else Sends(seqn, checkFrags, RETRIES) + DEGRADE_STOPS + Sends(seqn, checkFrags, i + 1 - RETRIES)
  }

  /** Either every answer within the budget is retryable, or exactly one answer is the
      first to end the retrying. */
  lemma FirstAnswerCases(checkFrags: bool, o: seq<Attempt>)
    requires |o| >= MAX_ATTEMPTS
    ensures Exhausted(checkFrags, o) || exists i :: FirstAnswer(checkFrags, o, i)
    ensures forall i, j :: FirstAnswer(checkFrags, o, i) && FirstAnswer(checkFrags, o, j) ==> i == j
  {
    if !Exhausted(checkFrags, o) {
      var n1 := CycleLength(o, 0, RETRIES);
      if !Retryable(o[n1 - 1]) {
        assert FirstAnswer(checkFrags, o, n1 - 1);
      } else {
        var n2 := CycleLength(o, RETRIES, RETRIES);
        assert FirstAnswer(checkFrags, o, RETRIES + n2 - 1);
      }
    }
  }

  /** The run ends as its first decisive answer says, after the events through it. */
  lemma RunAtFirstAnswer(checkFrags: bool, seqn: uint32, tx: seq<uint8>, o: seq<Attempt>, i: nat)
    requires |o| >= MAX_ATTEMPTS
    requires FirstAnswer(checkFrags, o, i)
    ensures Run(checkFrags, seqn, tx, o) == Conclude(o[i], tx, seqn, LogThrough(seqn, checkFrags, i))
  {
    if i < RETRIES {
      CycleLengthIs(o, 0, RETRIES, i + 1);
    } else {
      CycleLengthIs(o, 0, RETRIES, RETRIES);
      CycleLengthIs(o, RETRIES, RETRIES, i + 1 - RETRIES);
    }
  }

  /** With every answer retryable, the run makes its whole budget of attempts and the
      retries are over. */
  lemma RunWhenExhausted(checkFrags: bool, seqn: uint32, tx: seq<uint8>, o: seq<Attempt>)
    requires |o| >= MAX_ATTEMPTS
    requires Exhausted(checkFrags, o)
    ensures Run(checkFrags, seqn, tx, o)
            == Outcome(RetriesOver, seqn, LogThrough(seqn, checkFrags, Budget(checkFrags) - 1))
  {
    CycleLengthIs(o, 0, RETRIES, RETRIES);
    if checkFrags {
      CycleLengthIs(o, RETRIES, RETRIES, RETRIES);
    }
  }

  /** How many events of each kind the log through attempt `i` holds. */
  lemma LogThroughCount(seqn: uint32, checkFrags: bool, i: nat, t: Tag)
    ensures CountOf(LogThrough(seqn, checkFrags, i), t)
            == if t == SendTag then i + 1 else if t == StopTag && i >= RETRIES then 4 else 0
  {
    if i < RETRIES {
      CountOfSends(seqn, checkFrags, i + 1, t);
    } else {
      var a := Sends(seqn, checkFrags, RETRIES);
      var b := Sends(seqn, checkFrags, i + 1 - RETRIES);
      CountOfAppend(a + DEGRADE_STOPS, b, t);
      CountOfAppend(a, DEGRADE_STOPS, t);
      CountOfSends(seqn, checkFrags, RETRIES, t);
      CountOfSends(seqn, checkFrags, i + 1 - RETRIES, t);
      CountOfStops(t);
    }
  }

  /** The log through attempt `i` sends only at `seqn`, and in the second cycle starts
      with the three first-cycle sends and the four stops. */
  lemma LogThroughShape(seqn: uint32, checkFrags: bool, i: nat)
    ensures var log := LogThrough(seqn, checkFrags, i);
            && (forall j :: 0 <= j < |log| ==> log[j].Send? ==> log[j] == Send(seqn, SegmentFrags(checkFrags)))
            && (forall j :: 0 <= j < |log| ==> !log[j].UpdateSentSeq?)
            && (i >= RETRIES ==> log[..RETRIES + 4] == Sends(seqn, checkFrags, RETRIES) + DEGRADE_STOPS)
  {
    if i >= RETRIES {
      var a := Sends(seqn, checkFrags, RETRIES);
      assert (a + DEGRADE_STOPS + Sends(seqn, checkFrags, i + 1 - RETRIES))[..RETRIES + 4] == a + DEGRADE_STOPS;
    }
  }

  /** The attempt the run ends on: the last one it makes. */
  function DecidingAttempt(checkFrags: bool, o: seq<Attempt>): (i: nat)
    requires |o| >= MAX_ATTEMPTS
    ensures i < Budget(checkFrags)
    ensures Degrades(checkFrags, o) <==> i >= RETRIES
  {
    var n1 := CycleLength(o, 0, RETRIES);
    if Retryable(o[n1 - 1]) && checkFrags then RETRIES + CycleLength(o, RETRIES, RETRIES) - 1
    else n1 - 1
  }

  /** The run's log is the log through its deciding attempt, followed by the sequence
      update exactly when a segment was received. */
  lemma RunLog(checkFrags: bool, seqn: uint32, tx: seq<uint8>, o: seq<Attempt>)
    requires |o| >= MAX_ATTEMPTS
    ensures var out := Run(checkFrags, seqn, tx, o);
            var received := out.verdict == Passed || out.verdict == LengthMismatch || out.verdict == Corrupted;
            var i := DecidingAttempt(checkFrags, o);
            && out.log == LogThrough(seqn, checkFrags, i) + (if received then [UpdateSentSeq(TX_LEN)] else [])
            && out.nextSeq == (if received then Add32(seqn, TX_LEN) else seqn)
  {
    FirstAnswerCases(checkFrags, o);
    if Exhausted(checkFrags, o) {
      RunWhenExhausted(checkFrags, seqn, tx, o);
    } else {
      var i :| FirstAnswer(checkFrags, o, i);
      RunAtFirstAnswer(checkFrags, seqn, tx, o, i);
    }
  }

  /** The retry loop is bounded: at most six attempts, at most three unless the degrade
      step happens, the four floods stopped once exactly when it does, and the sent
      sequence advanced at most once, exactly when a segment was received. */
  lemma RunBounded(checkFrags: bool, seqn: uint32, tx: seq<uint8>, o: seq<Attempt>)
    requires |o| >= MAX_ATTEMPTS
    ensures var out := Run(checkFrags, seqn, tx, o);
            var received := out.verdict == Passed || out.verdict == LengthMismatch || out.verdict == Corrupted;
            && CountOf(out.log, SendTag) <= MAX_ATTEMPTS
            && (!Degrades(checkFrags, o) ==> CountOf(out.log, SendTag) <= RETRIES)
            && CountOf(out.log, StopTag) == (if Degrades(checkFrags, o) then 4 else 0)
            && (Degrades(checkFrags, o) ==> out.log[RETRIES..RETRIES + 4] == DEGRADE_STOPS)
            && CountOf(out.log, UpdateTag) == (if received then 1 else 0)
            && out.nextSeq == (if received then Add32(seqn, TX_LEN) else seqn)
  {
    RunLog(checkFrags, seqn, tx, o);
    RunLogShape(checkFrags, seqn, tx, o);
    var i := DecidingAttempt(checkFrags, o);
    var pre := LogThrough(seqn, checkFrags, i);
    var post: seq<Event> := Run(checkFrags, seqn, tx, o).log[|pre|..];
    if Degrades(checkFrags, o) {
      var log := Run(checkFrags, seqn, tx, o).log;
      var pfx := Sends(seqn, checkFrags, RETRIES) + DEGRADE_STOPS;
      assert log[RETRIES..RETRIES + 4] == log[..RETRIES + 4][RETRIES..];
      assert pfx[RETRIES..] == DEGRADE_STOPS;
    }
    assert Run(checkFrags, seqn, tx, o).log == pre + post;
    CountOfAppend(pre, post, SendTag);
    CountOfAppend(pre, post, StopTag);
    CountOfAppend(pre, post, UpdateTag);
    LogThroughCount(seqn, checkFrags, i, SendTag);
    LogThroughCount(seqn, checkFrags, i, StopTag);
    LogThroughCount(seqn, checkFrags, i, UpdateTag);
    if post != [] {
      CountOfOne(UpdateSentSeq(TX_LEN), SendTag);
      CountOfOne(UpdateSentSeq(TX_LEN), StopTag);
      CountOfOne(UpdateSentSeq(TX_LEN), UpdateTag);
    }
  }

  /** Every attempt sends the segment at the sequence number captured before the loop;
      the degrade step comes after exactly three sends; the sequence update, if any, is
      the last event and adds the segment size. */
  lemma RunLogShape(checkFrags: bool, seqn: uint32, tx: seq<uint8>, o: seq<Attempt>)
    requires |o| >= MAX_ATTEMPTS
    ensures var log := Run(checkFrags, seqn, tx, o).log;
            && (forall j :: 0 <= j < |log| ==> log[j].Send? ==> log[j] == Send(seqn, SegmentFrags(checkFrags)))
            && (Degrades(checkFrags, o) ==> log[..RETRIES + 4] == Sends(seqn, checkFrags, RETRIES) + DEGRADE_STOPS)
            && (forall j :: 0 <= j < |log| ==> log[j].UpdateSentSeq? ==> j == |log| - 1 && log[j].delta == TX_LEN)
  {
    RunLog(checkFrags, seqn, tx, o);
    var i := DecidingAttempt(checkFrags, o);
    LogThroughShape(seqn, checkFrags, i);
    var pre := LogThrough(seqn, checkFrags, i);
    var log := Run(checkFrags, seqn, tx, o).log;
    if Degrades(checkFrags, o) {
      assert log[..RETRIES + 4] == pre[..RETRIES + 4];
    }
  }

  /** The verdict is decided by the first answer that ends the retrying: the retries are
      over exactly when there is none within the budget, and the test passes exactly
      when that answer is the segment `tx` itself. */
  lemma RunVerdict(checkFrags: bool, seqn: uint32, tx: seq<uint8>, o: seq<Attempt>)
    requires |tx| == TX_LEN && |o| >= MAX_ATTEMPTS
    ensures var out := Run(checkFrags, seqn, tx, o);
            && (out.verdict == RetriesOver <==> Exhausted(checkFrags, o))
            && (out.verdict == Passed <==> exists i: nat :: FirstAnswer(checkFrags, o, i) && o[i] == Received(tx))
  {
    FirstAnswerCases(checkFrags, o);
    if Exhausted(checkFrags, o) {
      RunWhenExhausted(checkFrags, seqn, tx, o);
      assert forall i: nat :: !FirstAnswer(checkFrags, o, i);
    } else {
      var i: nat :| FirstAnswer(checkFrags, o, i);
      RunAtFirstAnswer(checkFrags, seqn, tx, o, i);
    }
  }

  /** No attempt follows the first answer that ends the retrying: a failed send, poll
      or receive fails the test, and a received segment of the wrong length or with wrong bytes is
      a failure of its own, not a retry. */
  lemma RunStopsAtFirstAnswer(checkFrags: bool, seqn: uint32, tx: seq<uint8>, o: seq<Attempt>, i: nat)
    requires |tx| == TX_LEN && |o| >= MAX_ATTEMPTS
    requires FirstAnswer(checkFrags, o, i)
    ensures var out := Run(checkFrags, seqn, tx, o);
            && CountOf(out.log, SendTag) == i + 1
            && (o[i].SendRejected? ==> out.verdict == SendFailed)
            && (o[i].IomuxError? ==> out.verdict == IomuxFailed)
            && (o[i].RecvFailed? ==> out.verdict == RecvAborted)
            && (o[i].Received? && |o[i].data| != TX_LEN ==> out.verdict == LengthMismatch)
            && (o[i].Received? && |o[i].data| == TX_LEN && o[i].data != tx ==> out.verdict == Corrupted)
  {
    RunAtFirstAnswer(checkFrags, seqn, tx, o, i);
    LogThroughCount(seqn, checkFrags, i, SendTag);
    CountOfAppend(LogThrough(seqn, checkFrags, i), [UpdateSentSeq(TX_LEN)], SendTag);
    CountOfOne(UpdateSentSeq(TX_LEN), SendTag);
  }

  /** A receive that always times out: three attempts without override; with it, three
      attempts, one stop of the four floods, three more attempts — and then failure. */
  lemma AlwaysTimingOut(checkFrags: bool, seqn: uint32, tx: seq<uint8>, o: seq<Attempt>)
    requires |tx| == TX_LEN && |o| >= MAX_ATTEMPTS
    requires forall j :: 0 <= j < |o| ==> o[j] == Timeout
    ensures var out := Run(checkFrags, seqn, tx, o);
            && out.verdict == RetriesOver
            && out.nextSeq == seqn
            && CountOf(out.log, SendTag) == (if checkFrags then 6 else 3)
            && CountOf(out.log, StopTag) == (if checkFrags then 4 else 0)
            && out.log == (if checkFrags then Sends(seqn, true, 3) + DEGRADE_STOPS + Sends(seqn, true, 3)
                           else Sends(seqn, false, 3))
  {
    RunWhenExhausted(checkFrags, seqn, tx, o);
    LogThroughCount(seqn, checkFrags, Budget(checkFrags) - 1, SendTag);
    LogThroughCount(seqn, checkFrags, Budget(checkFrags) - 1, StopTag);
  }
}
