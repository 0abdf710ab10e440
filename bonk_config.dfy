/** The compile-time constants of the bonk attack scenario. */
module BonkConfig {

  /** Number of packets each flood template is repeated for. */
  const PKT_NUM: nat := 1024 * 256
  /** Payload bytes per fragment. */
  const FRAG_LEN: nat := 512
  const IP_HDR_LEN: nat := 20
  const TCP_HDR_LEN: nat := 20

  /** Largest value of the 13-bit IPv4 Fragment Offset field, counted in 8-byte units
      (RFC 791, section 3.1). */
  const MAX_FRAG_OFFSET: nat := 0x1FFF
  /** Largest value of the 16-bit IPv4 Total Length field (RFC 791, section 3.1). */
  const MAX_IP_LEN: nat := 0xFFFF

  /** Size of the zero-initialised stub buffer handed to the IPv4 template builder. */
  const STUB_LEN: nat := 64

  /** Reassembled payload length for fragment size `c`: one whole fragment past the
      last one whose offset still fits the Fragment Offset field. */
  function PktLenFor(c: nat): (r: nat)
    requires c > 0
    ensures r % c == 0 && r / c == MAX_FRAG_OFFSET * 8 / c + 1
    ensures MAX_FRAG_OFFSET * 8 < r <= MAX_FRAG_OFFSET * 8 + c
  {
    var q := MAX_FRAG_OFFSET * 8 / c;
    assert MAX_FRAG_OFFSET * 8 == q * c + MAX_FRAG_OFFSET * 8 % c;
    assert (q + 1) * c == q * c + c;
    MulDiv(q + 1, c);
    (q + 1) * c
  }

  /** A multiple of `c` divides back exactly. */
  lemma MulDiv(k: int, c: int)
    requires c > 0
    ensures (k * c) % c == 0 && (k * c) / c == k
  {
    var r := (k * c) % c;
    var d := (k * c) / c;
    assert (k - d) * c == r;
    if k - d >= 1 {
      assert false;
    } else if k - d <= -1 {
      assert false;
    }
  }

  /** The scenario's reassembled length (`PKT_LEN`). */
  const PKT_LEN: nat := PktLenFor(FRAG_LEN)

  /** Size of the legitimate TCP payload (`tx_buf`, `rx_buf`). */
  const TX_LEN: nat := FRAG_LEN * 2 - TCP_HDR_LEN
}
