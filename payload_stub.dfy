/** The 64-byte payload stubs `create_template` writes for the UDP and ICMP floods, and
    the IP protocol number each payload kind is sent under. */
module PayloadStub {
  import opened Bytes
  import opened BonkConfig
  import opened InetChecksum

  /** Payload kinds (`pkt_type`). */
  datatype PktType = Udp | TcpSyn | TcpData | Icmp

  /** IP protocol numbers. */
  const IPPROTO_ICMP: uint8 := 1
  const IPPROTO_TCP: uint8 := 6
  const IPPROTO_UDP: uint8 := 17

  /** ICMP type of an Echo Request (RFC 792, "Echo or Echo Reply Message"). */
  const ICMP_ECHO: uint8 := 8

  /** The protocol handed to the IPv4 template: UDP and ICMP have their own numbers,
      both TCP kinds share TCP's. */
  function IpProto(kind: PktType): (p: uint8)
    ensures p == IPPROTO_UDP <==> kind == Udp
    ensures p == IPPROTO_ICMP <==> kind == Icmp
    ensures p == IPPROTO_TCP <==> kind.TcpSyn? || kind.TcpData?
  {
    if kind == Udp then IPPROTO_UDP
    else if kind == Icmp then IPPROTO_ICMP
    else IPPROTO_TCP
  }

  /** The UDP header stub: source and destination ports as they sit in the socket
      addresses (network byte order), then the length field, then zeros. */
  function UdpStub(srcPort: uint16, dstPort: uint16, declaredLen: nat): seq<uint8>
  {
    BigEndian16(srcPort as nat) + BigEndian16(dstPort as nat) + BigEndian16(declaredLen)
      + Zeros(STUB_LEN - 6)
  }

  /** The ICMP stub before its checksum: Echo Request type, code 0, a zero checksum
      field, and byte `i` equal to `i` from offset 4 on. */
  function IcmpUnsummed(): (s: seq<uint8>)
    ensures |s| == STUB_LEN
    ensures s[0] == ICMP_ECHO && s[1] == 0 && s[2] == 0 && s[3] == 0
    ensures forall i :: 4 <= i < STUB_LEN ==> s[i] as int == i
  {
    [ICMP_ECHO, 0, 0, 0] + seq(STUB_LEN - 4, i requires 0 <= i < STUB_LEN - 4 => (i + 4) as uint8)
  }

  /** The ICMP stub with its checksum field filled in. */
  function IcmpStub(): seq<uint8>
  {
    WithChecksum(IcmpUnsummed(), 2)
  }

  /** The UDP case of `create_template`, on the zero-initialised stub buffer. */
  method WriteUdpStub(buf: array<uint8>, srcPort: uint16, dstPort: uint16, declaredLen: nat)
    requires buf.Length == STUB_LEN
    requires forall i :: 0 <= i < buf.Length ==> buf[i] == 0
    modifies buf
    ensures buf[..] == UdpStub(srcPort, dstPort, declaredLen)
  {
    var src := BigEndian16(srcPort as nat);
    var dst := BigEndian16(dstPort as nat);
    buf[0], buf[1] := src[0], src[1];
    buf[2], buf[3] := dst[0], dst[1];
    buf[4] := (declaredLen / 0x100 % 0x100) as uint8;
    buf[5] := (declaredLen % 0x100) as uint8;
    assert buf[..] == UdpStub(srcPort, dstPort, declaredLen) by {
      var s := UdpStub(srcPort, dstPort, declaredLen);
      assert forall i :: 6 <= i < STUB_LEN ==> s[i] == 0;
    }
  }

  /** The first part of the ICMP case: clear the buffer, then write the Echo Request
      header and the counting pattern, leaving the checksum field zero. */
  method WriteIcmpPattern(buf: array<uint8>)
    requires buf.Length == STUB_LEN
    modifies buf
    ensures buf[..] == IcmpUnsummed()
  {
    forall i | 0 <= i < buf.Length {
      buf[i] := 0;
    }
    buf[0] := ICMP_ECHO;
    var i := 4;
    while i < buf.Length
      invariant 4 <= i <= buf.Length
      invariant buf[0] == ICMP_ECHO && buf[1] == 0 && buf[2] == 0 && buf[3] == 0
      invariant forall j :: 4 <= j < i ==> buf[j] == j as uint8
    {
      buf[i] := i as uint8;
      i := i + 1;
    }
    assert forall j :: 0 <= j < STUB_LEN ==> buf[j] == IcmpUnsummed()[j];
  }

  /** The ICMP case of `create_template`: the Echo Request pattern, then the
      complemented checksum stored in its field. */
  method WriteIcmpStub(buf: array<uint8>)
    requires buf.Length == STUB_LEN
    modifies buf
    ensures buf[..] == IcmpStub()
  {
    WriteIcmpPattern(buf);
    ghost var unsummed := buf[..];
    var field := BigEndian16(0xFFFF - CalculateChecksum(buf[..]));
    buf[2], buf[3] := field[0], field[1];
    assert forall j :: 0 <= j < STUB_LEN ==> buf[j] == (unsummed[..2] + field + unsummed[4..])[j];
  }

  /** Layout of the UDP stub: both ports and the length field decode back from their
      big-endian bytes (the length only modulo 2^16), and everything after is zero. */
  lemma UdpStubLayout(srcPort: uint16, dstPort: uint16, declaredLen: nat)
    ensures var s := UdpStub(srcPort, dstPort, declaredLen);
            && |s| == STUB_LEN
            && s[0] as int * 0x100 + s[1] as int == srcPort as int
            && s[2] as int * 0x100 + s[3] as int == dstPort as int
            && s[4] as int * 0x100 + s[5] as int == declaredLen % 0x1_0000
            && forall i :: 6 <= i < STUB_LEN ==> s[i] == 0
  {
    var s := UdpStub(srcPort, dstPort, declaredLen);
    assert s[..2] == BigEndian16(srcPort as nat);
    assert s[2..4] == BigEndian16(dstPort as nat);
    assert s[4..6] == BigEndian16(declaredLen);
  }

  /** The flood's UDP stub declares the reassembled length, whose low 16 bits are zero:
      the length bytes are `0x00 0x00`. */
  lemma UdpStubDeclaresReassembledLength(srcPort: uint16, dstPort: uint16)
    ensures var s := UdpStub(srcPort, dstPort, PKT_LEN);
            s[4] == 0 && s[5] == 0
  {
    assert PKT_LEN == 65536;
  }

  /** The ICMP stub is an Echo Request (type 8, code 0) with identifier 0x0405, sequence
      number 0x0607, byte `i` equal to `i` from offset 4 on, and a checksum that makes
      the whole 64-byte stub verify. */
  lemma IcmpStubIsEchoRequest()
    ensures var s := IcmpStub();
            && |s| == STUB_LEN
            && s[0] == ICMP_ECHO && s[1] == 0
            && (forall i :: 4 <= i < STUB_LEN ==> s[i] as int == i)
            && Word(s[4], s[5]) == 0x0405 && Word(s[6], s[7]) == 0x0607
            && ChecksumVerifies(s)
  {
    WithChecksumVerifies(IcmpUnsummed(), 2);
  }
}
