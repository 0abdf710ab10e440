# Bonk attack test: fragment planner, payload stubs and retry/degrade loop

`sockapi-ts/attacks/ip/bonk.c` is a socket API conformance test. It floods the
implementation under test (IUT) with IPv4 datagrams that are oversized after
reassembly. Each datagram is sent as fragments. Every fragment offset still fits the
13-bit Fragment Offset field (section 3.1 of RFC 791), but the reassembled payload
runs past 65535 bytes. This is the "bonk" / Ping of Death pattern. Four such floods
run at once: UDP, TCP SYN, TCP data and ICMP Echo. While they run, the test checks
that a legitimate TCP segment still gets through an established connection.

This Dafny project models the parts of the file that are computed locally:

- **Fragment planner** (`frag_plan.dfy`, `bonk_config.dfy`). This is the fragment
  count and the loop in `create_template` that fills the `tapi_ip_frag_spec` array.
  - `CreateFragSpecs` fills an `array<FragSpec>` in one pass, as the C loop does.
  - It is proved equal to `Plan`, a pure tiling of `l` payload bytes into chunks of
    `c`. `Plan` is defined independently of the loop's ternary expression.
  - Everything is stated for any `l > 0`, `c > 0` and header length `h`, then
    instantiated with the file's constants. Those give `PKT_LEN = 65536` and 128
    fragments.
  - The two-entry override table used for the legitimate segment is a constant,
    `OVERRIDE_FRAGS`. It is proved to be the tiling of that segment.
- **Internet checksum** (`inet_checksum.dfy`). `calculate_checksum` is external to
  the file. It is modelled as the RFC 1071 folded one's complement sum over
  big-endian 16-bit words. The model proves that storing the complement of the sum in
  a zeroed field makes the whole buffer verify.
- **Payload stubs and protocol choice** (`payload_stub.dfy`, `template.dfy`).
  - The UDP and ICMP writers work on the zero-initialised 64-byte buffer, byte by
    byte, as an `array<uint8>`, and are proved equal to byte-exact specifications.
  - `CreateTemplate` gathers what `create_template` hands to the external template
    builder: the fragment table, the TTL, the protocol number, the stub and the
    repeat count.
- **Retry/degrade loop** (`retry_degrade.dfy`). This is the end of `main`.
  - The legitimate segment is sent at a sequence number captured once. Each cycle
    makes up to three send-and-poll attempts.
  - When a cycle runs out and fragment overriding is on, the four floods are stopped
    and one more cycle runs. The `goto again` becomes a second pass of an outer loop
    driven by the `again` flag.
  - The poll and receive results come from an oracle sequence `o`, one `Attempt` per
    attempt.
  - The sends, the `rcf_ta_trsend_stop` calls and the `tapi_tcp_update_sent_seq`
    call are recorded in a ghost event log.
  - `RetryLoop` is proved equal to the pure function `Run`. Lemmas about `Run` then
    bound the attempts, bound the degrades, pin down the log's shape and
    characterise each verdict.

## Model

| member | source | states |
|---|---|---|
| Bytes.BigEndian16 | sockapi-ts/attacks/ip/bonk.c:126-129 | two bytes, high byte first, that decode back to the low 16 bits of the value (the `>> 8 & 0xFF`, `& 0xFF` pair, and a port kept in network byte order) |
| BonkConfig.PktLenFor | sockapi-ts/attacks/ip/bonk.c:59 | the `PKT_LEN` formula `(0x1FFF*8/c + 1)*c` is a multiple of `c` with `0x1FFF*8/c + 1` chunks, and lies in `(0x1FFF*8, 0x1FFF*8 + c]`: just past the largest offset the 13-bit field can express |
| FragPlan.FragCount | sockapi-ts/attacks/ip/bonk.c:93 | the count `l / c + 1 - !(l % c)` is at least 1 and is the ceiling: `(n-1)*c < l <= n*c` |
| FragPlan.FragCountIsCeiling | sockapi-ts/attacks/ip/bonk.c:93 | the count is the unique `m` with `(m-1)*c < l <= m*c`; it is `l/c` for an exact multiple (no empty trailing fragment) and `l/c + 1` otherwise |
| FragPlan.TileMatchesSource | sockapi-ts/attacks/ip/bonk.c:143-150 | the loop body's entry `i` (its offsets, its ternary real length, the header length, the more-fragments flag `i < n-1`, don't-fragment false) is fragment `i` of the tiling |
| FragPlan.CreateFragSpecs | sockapi-ts/attacks/ip/bonk.c:141-153 | the array the loop fills has `FragCount(l, c)` entries and holds exactly the tiling `Plan(l, c, h)` |
| FragPlan.PlanEntries | sockapi-ts/attacks/ip/bonk.c:143-150 | every entry has `hdr_offset == real_offset == i*c`, `hdr_length == real_length + h`, a real length in `1..c`, and don't-fragment clear |
| FragPlan.PlanMoreFrags | sockapi-ts/attacks/ip/bonk.c:149 | more-fragments is set exactly on entries `i < n-1`, so only the last fragment is final |
| FragPlan.PlanContiguous | sockapi-ts/attacks/ip/bonk.c:143-146 | each fragment starts where the previous one ends, and the last one ends at `l` |
| FragPlan.PlanPrefixTotal | sockapi-ts/attacks/ip/bonk.c:143-146 | the real lengths of the first `k` entries add up to the end offset of entry `k-1` |
| FragPlan.PlanTotal | sockapi-ts/attacks/ip/bonk.c:141-153 | the real lengths of the whole table add up to `l` |
| FragPlan.PktLenForIsOversized | sockapi-ts/attacks/ip/bonk.c:54-59 | for any fragment size `c`, the length `(0x1FFF*8/c + 1)*c` is a multiple of `c` giving `0x1FFF*8/c + 1` fragments; it exceeds `0x1FFF*8`, and with a 20-byte header it exceeds 65535; yet every entry's `hdr_offset / 8` fits the 13-bit field |
| FragPlan.BonkPlan | sockapi-ts/attacks/ip/bonk.c:49-59 | with the file's constants: `PKT_LEN == 65536 > 65535`, 128 fragments carrying 65536 bytes, every offset a multiple of 8 with `offset / 8 <= 8128 <= 0x1FFF` |
| FragPlan.OverrideFragsTileSegment | sockapi-ts/attacks/ip/bonk.c:199-210 | `TX_LEN` (`sizeof(tx_buf)`, `FRAG_LEN * 2 - TCP_HDR_LEN`) plus `TCP_HDR_LEN` is `2*FRAG_LEN`, and the two-entry table is the tiling of that segment: entry 0 is at offset 0 with more-fragments set, and entry 1, at offset `FRAG_LEN`, is the last |
| InetChecksum.OnesAdd | sockapi-ts/attacks/ip/bonk.c:137 | one's complement addition stays in 16 bits, is congruent to the plain sum modulo 0xFFFF, and is zero only when both operands are |
| InetChecksum.CalculateChecksum | sockapi-ts/attacks/ip/bonk.c:137 | the folded sum is a 16-bit value |
| InetChecksum.ChecksumIsWordTotal | sockapi-ts/attacks/ip/bonk.c:137 | the folded sum is congruent modulo 0xFFFF to the plain sum of the buffer's 16-bit words, and is zero exactly when that sum is |
| InetChecksum.WithChecksum | sockapi-ts/attacks/ip/bonk.c:137 | storing `~sum` in a field changes only those two bytes, and they decode to `0xFFFF - sum` |
| InetChecksum.WordTotalReplace | sockapi-ts/attacks/ip/bonk.c:137 | replacing one aligned word changes the word sum by the difference of the two words |
| InetChecksum.WithChecksumVerifies | sockapi-ts/attacks/ip/bonk.c:132-137 | if the field was zero when the sum was taken, the buffer with the complement stored in it verifies (its folded sum is 0xFFFF) |
| PayloadStub.IpProto | sockapi-ts/attacks/ip/bonk.c:155-158 | protocol 17 exactly for UDP, 1 exactly for ICMP, and 6 exactly for the two TCP kinds |
| PayloadStub.IcmpUnsummed | sockapi-ts/attacks/ip/bonk.c:133-136 | the 64-byte stub before the checksum: type 8, code 0, a zero checksum field, and byte `i` equal to `i` from offset 4 on |
| PayloadStub.WriteUdpStub | sockapi-ts/attacks/ip/bonk.c:125-130 | on the zeroed buffer, the UDP case leaves exactly the UDP stub: both ports, the declared length, and zeros |
| PayloadStub.WriteIcmpPattern | sockapi-ts/attacks/ip/bonk.c:133-136 | the memset, the type byte and the fill loop leave exactly the unsummed ICMP stub |
| PayloadStub.WriteIcmpStub | sockapi-ts/attacks/ip/bonk.c:132-138 | the ICMP case leaves exactly the unsummed stub with the complemented checksum stored in bytes 2-3 |
| PayloadStub.UdpStubLayout | sockapi-ts/attacks/ip/bonk.c:125-130 | bytes 0-1 decode to the source port, bytes 2-3 to the destination port, and bytes 4-5 to the declared length modulo 2^16; the other 58 bytes are zero |
| PayloadStub.UdpStubDeclaresReassembledLength | sockapi-ts/attacks/ip/bonk.c:128-129 | the flood's UDP stub declares the reassembled length 65536, whose two length bytes are `0x00 0x00` |
| PayloadStub.IcmpStubIsEchoRequest | sockapi-ts/attacks/ip/bonk.c:132-137 | the ICMP stub is an Echo Request (type 8, code 0) with identifier 0x0405, sequence number 0x0607 and byte `i == i` from offset 4; the whole 64-byte stub verifies |
| Template.StubPayload | sockapi-ts/attacks/ip/bonk.c:101-139 | the 64-byte buffer after the switch: for UDP both ports decode back, the length bytes are `0x00 0x00` and the rest is zero; for ICMP an Echo Request with the counting pattern that verifies; for the TCP kinds the encoder's header followed by zeros |
| Template.CreateTemplate | sockapi-ts/attacks/ip/bonk.c:81-170 | a template carries the 128-entry tiling of `PKT_LEN` (which exceeds 65535), TTL 1, the kind's protocol number, the kind's 64-byte stub, and `PKT_NUM` repetitions |
| Template.FloodTemplatesMatchSenders | sockapi-ts/attacks/ip/bonk.c:287-334 | each flood's template carries the protocol its raw sender was created for, and no two floods send the same kind |
| RetryDegrade.SegmentFrags | sockapi-ts/attacks/ip/bonk.c:366-367 | with fragment overriding the segment is sent with the two-entry tiling of the 1024-byte segment, and otherwise with no table |
| RetryDegrade.DegradeStopsEachFloodOnce | sockapi-ts/attacks/ip/bonk.c:389-392 | the degrade step's four events are stops, covering every flood, no flood twice |
| RetryDegrade.Conclude | sockapi-ts/attacks/ip/bonk.c:382-404 | a received answer, and only that, advances the tracked sequence by 1004 and logs the update, and leads to Passed, LengthMismatch or Corrupted; the retries are over exactly on a retryable answer; the test passes exactly when the answer is `tx_buf` of 1004 bytes |
| RetryDegrade.Run | sockapi-ts/attacks/ip/bonk.c:355-404 | the whole exchange always starts by sending the segment at the captured `seqn` with the segment's fragment table, and leaves the tracked sequence at `seqn` or `seqn + 1004`; the lemmas below state the rest |
| RetryDegrade.CycleLength | sockapi-ts/attacks/ip/bonk.c:358-380 | a cycle makes 1 to 3 attempts; all but the last got retryable answers, and it stops early only on an answer that is not retryable |
| RetryDegrade.CycleLengthIs | sockapi-ts/attacks/ip/bonk.c:358-380 | a cycle that has that shape has exactly that length |
| RetryDegrade.AttemptCycle | sockapi-ts/attacks/ip/bonk.c:357-380 | the `do/while` makes CycleLength attempts, each sending at `seqn`; a failed send, poll or receive aborts with its own verdict; otherwise `num < 0` exactly when the last answer was retryable, and a received answer gives `num` and the bytes |
| RetryDegrade.RetryLoop | sockapi-ts/attacks/ip/bonk.c:355-404 | the verdict, the tracked sent sequence afterwards and the event log are those of `Run` |
| RetryDegrade.FirstAnswerCases | sockapi-ts/attacks/ip/bonk.c:357-396 | either every answer within the budget is retryable, or exactly one answer is the first to end the retrying |
| RetryDegrade.RunAtFirstAnswer | sockapi-ts/attacks/ip/bonk.c:357-404 | the run ends as its first non-retryable answer says, after the events up to and including that attempt |
| RetryDegrade.RunWhenExhausted | sockapi-ts/attacks/ip/bonk.c:382-396 | when every answer is retryable, the whole budget is spent (3 attempts, or 6 with the degrade step) and the retries are over |
| RetryDegrade.LogThroughCount | sockapi-ts/attacks/ip/bonk.c:362-392 | up to attempt `i` there are `i+1` sends, with four stops when `i` lies in the second cycle, and no sequence update |
| RetryDegrade.LogThroughShape | sockapi-ts/attacks/ip/bonk.c:362-392 | up to attempt `i`, every send is at `seqn` with the same fragment table; in the second cycle the log starts with three sends and then the four stops |
| RetryDegrade.DecidingAttempt | sockapi-ts/attacks/ip/bonk.c:357-396 | the last attempt falls within the budget, and lies in the second cycle exactly when the degrade step happens |
| RetryDegrade.RunLog | sockapi-ts/attacks/ip/bonk.c:357-399 | the run's log is the log through its last attempt, followed by the sequence update exactly when a segment was received; only then does the tracked sequence advance, by 1004 |
| RetryDegrade.RunBounded | sockapi-ts/attacks/ip/bonk.c:357-399 | at most 6 sends, and at most 3 without the degrade step; four stop events exactly when the degrade step happens, and they are `DEGRADE_STOPS` right after the first three sends (each flood once, by DegradeStopsEachFloodOnce); the sequence is updated once, exactly when a segment was received |
| RetryDegrade.RunLogShape | sockapi-ts/attacks/ip/bonk.c:362-399 | every send is at the pre-captured `seqn`; the degrade stops come right after the first three sends; the sequence update, when present, is the last event and adds 1004 |
| RetryDegrade.RunVerdict | sockapi-ts/attacks/ip/bonk.c:370-404 | the retries are over exactly when no answer within the budget ends the retrying; the test passes exactly when the first answer that does is the segment `tx_buf` itself |
| RetryDegrade.RunStopsAtFirstAnswer | sockapi-ts/attacks/ip/bonk.c:370-404 | no attempt follows the first non-retryable answer; a failed send, a failed poll, a failed receive, a wrong length and wrong bytes each end the test with their own verdict |
| RetryDegrade.AlwaysTimingOut | sockapi-ts/attacks/ip/bonk.c:357-396 | polls that always time out give exactly the log of 3 sends without fragment overriding; with it, exactly 3 sends, the 4 stops and 3 more sends, in that order; either way the test fails with the sequence unchanged |

## Left out

- Test-framework and network plumbing in `main` is not modelled. This covers neighbour and
  ARP setup, MAC lookup, connection setup, RCF sessions, CSAP creation,
  `tapi_tad_trsend_start`, `sockts_test_connection`, and cleanup. These are remote
  calls into external libraries. The `rcf_ta_trsend_stop` calls appear only as
  `StopFlood` events in the log.
- The TCP SYN and TCP data stubs depend on `tapi_tcp_make_msg`, an external encoder.
  Its output is the input `tcpHeader`, copied into the zeroed buffer. The port
  allocation and `tapi_tcp_next_seqn` / `tapi_tcp_next_ackn` it consumes are left
  out. The sequence number captured before the retry loop is the input `seqn`.
- `tapi_ip4_template` and `tapi_tad_add_iterator_for` are external. The model keeps
  only what they receive, in `PacketTemplate`. Their failure paths, the `calloc`
  failure, and the identification field that `tapi_ip_frag_specs_init` sets are left
  out.
- InetChecksum.CalculateChecksum: `calculate_checksum` is external. The model assumes
  it is the RFC 1071 folded sum over big-endian words. It also assumes the complement
  is stored in the same byte order, so the model states the stub on the wire and not
  a host-order memory image.
- The floods run concurrently and the test uses wall-clock timing. `SLEEP(10)`,
  `SLEEP(40)` and the 100 ms poll timeout are left out. Each poll-and-receive outcome
  is an oracle input. The `WARN` message is not modelled.
- The contents of `tx_buf`, which `te_fill_buf` fills, are the input `tx`.
- Bytes.Add32: `tapi_tcp_update_sent_seq` is external. The model assumes it adds to
  a 32-bit sequence number modulo 2^32. It also assumes the handler's sent sequence
  just before that call is still the `seqn` captured before the loop, that is, that
  the `TAPI_TCP_EXPLICIT` sends do not move it.
- RetryDegrade.Retryable: a failed `rpc_recv` is modelled as ending the test
  (verdict `RecvAborted`), not as the `num < 0` retry that the code text suggests.
  The call is not preceded by `RPC_AWAIT_IUT_ERROR`, so the RPC layer fails the
  test before `num` is assigned. That abort comes from the RPC layer, which is not
  part of this model. Only a poll timeout is retried.
- The fragment planner works on unbounded integers. The C code's `int` arithmetic
  cannot overflow with the file's constants, but for general `l` and `c` the model
  does not capture overflow.
- The file has no validation path that rejects a bad fragment size or an offset that
  does not fit. The constants are fixed at compile time, so the model has no such
  error either. The fit of the offsets is proved instead (PktLenForIsOversized,
  BonkPlan).
- The other files in the repository are independent tests. They issue calls to the
  implementation under test and compare results, or they are BPF map definitions,
  and they are not part of this model.
