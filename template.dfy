/** `create_template`: the stub payload, the fragment table, the protocol and the repeat
    count that make up one flood template, and how `main` pairs templates with
    traffic streams. */
module Template {
  import opened Bytes
  import opened BonkConfig
  import opened FragPlan
  import opened InetChecksum
  import opened PayloadStub

  /** What the external IPv4 template builder and iterator receive. */
  datatype PacketTemplate = PacketTemplate(
    frags: seq<FragSpec>,  // the fragment table
    ttl: int,              // third argument of `tapi_ip4_template`
    proto: uint8,          // IP protocol number
    payload: seq<uint8>,   // the 64-byte stub buffer
    repeat: nat)           // packets sent by the `for` iterator

  /** The stub buffer for each payload kind. For the TCP kinds, `tcpHeader` stands for
      the bytes the external TCP encoder writes at the start of the zeroed buffer. */
  function StubPayload(kind: PktType, udpSrc: uint16, udpDst: uint16, tcpHeader: seq<uint8>): (s: seq<uint8>)
    requires |tcpHeader| <= STUB_LEN
    ensures |s| == STUB_LEN
    ensures kind == Udp ==>
              && s[0] as int * 0x100 + s[1] as int == udpSrc as int
              && s[2] as int * 0x100 + s[3] as int == udpDst as int
              && s[4] == 0 && s[5] == 0
              && forall i :: 6 <= i < STUB_LEN ==> s[i] == 0
    ensures kind == Icmp ==>
              && s[0] == ICMP_ECHO && s[1] == 0
              && (forall i :: 4 <= i < STUB_LEN ==> s[i] as int == i)
              && ChecksumVerifies(s)
    ensures (kind.TcpSyn? || kind.TcpData?) ==>
              && s[..|tcpHeader|] == tcpHeader
              && forall i :: |tcpHeader| <= i < STUB_LEN ==> s[i] == 0
  {
    match kind
    case Udp =>
      UdpStubLayout(udpSrc, udpDst, PKT_LEN);
      UdpStubDeclaresReassembledLength(udpSrc, udpDst);
      UdpStub(udpSrc, udpDst, PKT_LEN)
    case Icmp =>
      IcmpStubIsEchoRequest();
      IcmpStub()
    case _ => tcpHeader + Zeros(STUB_LEN - |tcpHeader|)
  }

  /** `create_template(type, ...)`. `udpSrc` and `udpDst` are the ports of the tester's
      and the IUT's addresses; `tcpHeader` is the external TCP encoder's output. */
  method CreateTemplate(kind: PktType, udpSrc: uint16, udpDst: uint16, tcpHeader: seq<uint8>)
    returns (t: PacketTemplate)
    requires |tcpHeader| <= STUB_LEN
    ensures t.frags == Plan(PKT_LEN, FRAG_LEN, IP_HDR_LEN)
    ensures t.proto == IpProto(kind)
    ensures t.payload == StubPayload(kind, udpSrc, udpDst, tcpHeader)
    ensures t.ttl == 1 && t.repeat == PKT_NUM
    ensures |t.frags| == 128 && |t.payload| == STUB_LEN
    ensures TotalLength(t.frags) == PKT_LEN > MAX_IP_LEN
  {
    var buf := new uint8[STUB_LEN](_ => 0);
    var frags := CreateFragSpecs(PKT_LEN, FRAG_LEN, IP_HDR_LEN);
    match kind {
      case TcpSyn =>
        forall i | 0 <= i < |tcpHeader| {
          buf[i] := tcpHeader[i];
        }
      case TcpData =>
        forall i | 0 <= i < |tcpHeader| {
          buf[i] := tcpHeader[i];
        }
      case Udp =>
        WriteUdpStub(buf, udpSrc, udpDst, PKT_LEN);
      case Icmp =>
        WriteIcmpStub(buf);
    }
    if kind.TcpSyn? || kind.TcpData? {
      assert buf[..] == StubPayload(kind, udpSrc, udpDst, tcpHeader) by {
        var s := StubPayload(kind, udpSrc, udpDst, tcpHeader);
        assert forall i :: 0 <= i < STUB_LEN ==> buf[i] == s[i];
      }
    }
    BonkPlan();
    t := PacketTemplate(frags[..], 1, IpProto(kind), buf[..], PKT_NUM);
  }

  /** The four flood streams, one per payload kind. */
  datatype Flood = UdpFlood | TcpSynFlood | TcpDataFlood | IcmpFlood

  /** The template each stream sends. */
  function FloodKind(f: Flood): PktType
  {
    match f
    case UdpFlood => Udp
    case TcpSynFlood => TcpSyn
    case TcpDataFlood => TcpData
    case IcmpFlood => Icmp
  }

  /** The protocol each stream's raw IPv4 sender was created for. */
  function SenderProto(f: Flood): uint8
  {
    match f
    case UdpFlood => IPPROTO_UDP
    case TcpSynFlood => IPPROTO_TCP
    case TcpDataFlood => IPPROTO_TCP
    case IcmpFlood => IPPROTO_ICMP
  }

  /** Every stream sends templates whose protocol is the one its sender was created
      for, and no two streams send the same payload kind. */
  lemma FloodTemplatesMatchSenders()
    ensures forall f :: IpProto(FloodKind(f)) == SenderProto(f)
    ensures forall f, g :: FloodKind(f) == FloodKind(g) ==> f == g
  {
  }
}
