/** The IPv4 fragment table that `create_template` hands to the template builder. */
module FragPlan {
  import opened BonkConfig

  /** One `tapi_ip_frag_spec` entry, without the identification field that only the
      external initialiser touches. */
  datatype FragSpec = FragSpec(
    hdrOffset: int,   // offset written to the header, in bytes
    realOffset: int,  // where the fragment's data starts in the payload
    hdrLength: int,   // total length written to the header
    realLength: int,  // payload bytes the fragment carries
    moreFrags: bool,  // the More Fragments flag
    dontFrag: bool)   // the Don't Fragment flag

  /** The fragment count: `l / c + 1 - !(l % c)`, which is the ceiling of `l / c`. */
  function FragCount(l: int, c: int): (n: nat)
    requires l > 0 && c > 0
    ensures n >= 1
    ensures (n - 1) * c < l <= n * c
  {
    var q := l / c;
    assert l == q * c + l % c;
    assert (q + 1) * c == q * c + c;
    if l % c == 0 then
      assert (q - 1) * c == q * c - c;
      q
    else
      q + 1
  }

  function Min(a: int, b: int): int
  {
    if a <= b then a else b
  }

  /** Fragment `i` of a tiling of `l` payload bytes into chunks of `c`: it starts at
      `i * c`, carries what is left up to `c` bytes, and has more fragments after it
      exactly when data remains past its end. */
  function Tile(l: int, c: int, h: int, i: int): FragSpec
  {
    var len := Min(c, l - i * c);
    FragSpec(i * c, i * c, len + h, len, (i + 1) * c < l, false)
  }

  /** The fragment table for payload length `l`, chunk size `c` and per-fragment header
      length `h`. */
  function Plan(l: int, c: int, h: int): (p: seq<FragSpec>)
    requires l > 0 && c > 0
  {
    seq(FragCount(l, c), i => Tile(l, c, h, i))
  }

  lemma MulLe(a: int, b: int, c: int)
    requires a <= b && c >= 0
    ensures a * c <= b * c
  {
  }

  /** FragCount is the only count whose chunks cover `l` without an empty last chunk. */
  lemma FragCountIsCeiling(l: int, c: int, m: int)
    requires l > 0 && c > 0
    requires (m - 1) * c < l <= m * c
    ensures m == FragCount(l, c)
    ensures l % c == 0 ==> m == l / c
    ensures l % c != 0 ==> m == l / c + 1
  {
    var n := FragCount(l, c);
    if m < n {
      MulLe(m, n - 1, c);
    } else if m > n {
      MulLe(n, m - 1, c);
    }
  }

  /** The loop body of `create_template` writes exactly fragment `i` of the tiling. */
  lemma TileMatchesSource(l: int, c: int, h: int, i: int)
    requires l > 0 && c > 0
    requires 0 <= i < FragCount(l, c)
    ensures var n := FragCount(l, c);
            var len := if i < n - 1 then c else if l % c == 0 then c else l % c;
            Tile(l, c, h, i) == FragSpec(i * c, i * c, len + h, len, i < n - 1, false)
  {
    var n := FragCount(l, c);
    var q := l / c;
    assert l == q * c + l % c;
    assert (i + 1) * c == i * c + c;
    if i < n - 1 {
      MulLe(i + 1, n - 1, c);
    } else {
      FragCountIsCeiling(l, c, n);
      if l % c == 0 {
        assert (q - 1) * c == q * c - c;
      }
    }
  }

  /** The table `create_template` builds: allocated for `FragCount(l, c)` entries and
      filled in one pass, entry `i` at offset `i * c`. */
  method CreateFragSpecs(l: int, c: int, h: int) returns (frags: array<FragSpec>)
    requires l > 0 && c > 0
    ensures frags.Length == FragCount(l, c)
    ensures frags[..] == Plan(l, c, h)
  {
    var n := FragCount(l, c);
    frags := new FragSpec[n](_ => FragSpec(0, 0, 0, 0, false, false));
    var i := 0;
    while i < n
      invariant 0 <= i <= n == frags.Length
      invariant forall k :: 0 <= k < i ==> frags[k] == Tile(l, c, h, k)
    {
      var len := if i < n - 1 then c else if l % c == 0 then c else l % c;
      TileMatchesSource(l, c, h, i);
      frags[i] := FragSpec(i * c, i * c, len + h, len, i < n - 1, false);
      i := i + 1;
    }
  }

  /** Every entry: header and real offsets agree at `i * c`, the header length adds `h`
      to the payload length, which lies in `1..c`, and Don't Fragment is clear. */
  lemma PlanEntries(l: int, c: int, h: int)
    requires l > 0 && c > 0
    ensures var p := Plan(l, c, h);
            forall i :: 0 <= i < |p| ==>
              && p[i].hdrOffset == p[i].realOffset == i * c
              && p[i].hdrLength == p[i].realLength + h
              && 1 <= p[i].realLength <= c
              && !p[i].dontFrag
  {
    var p := Plan(l, c, h);
    forall i | 0 <= i < |p|
      ensures 1 <= p[i].realLength <= c
    {
      MulLe(i, |p| - 1, c);
    }
  }

  /** Only the last fragment is final: More Fragments is set exactly on entries `0..n-2`. */
  lemma PlanMoreFrags(l: int, c: int, h: int)
    requires l > 0 && c > 0
    ensures var p := Plan(l, c, h);
            forall i :: 0 <= i < |p| ==> (p[i].moreFrags <==> i < |p| - 1)
  {
    var p := Plan(l, c, h);
    forall i | 0 <= i < |p|
      ensures p[i].moreFrags <==> i < |p| - 1
    {
      TileMatchesSource(l, c, h, i);
    }
  }

  /** The fragments are contiguous and the last one ends at `l`. */
  lemma PlanContiguous(l: int, c: int, h: int)
    requires l > 0 && c > 0
    ensures var p := Plan(l, c, h);
            && (forall i :: 0 <= i < |p| - 1 ==> p[i + 1].realOffset == p[i].realOffset + p[i].realLength)
            && p[|p| - 1].realOffset + p[|p| - 1].realLength == l
  {
    var p := Plan(l, c, h);
    forall i | 0 <= i < |p| - 1
      ensures p[i + 1].realOffset == p[i].realOffset + p[i].realLength
    {
      TileMatchesSource(l, c, h, i);
      assert (i + 1) * c == i * c + c;
    }
  }

  /** Sum of the payload lengths of a fragment table. */
  function TotalLength(fs: seq<FragSpec>): int
  {
    if fs == [] then 0 else TotalLength(fs[..|fs| - 1]) + fs[|fs| - 1].realLength
  }

  lemma {:induction false} PlanPrefixTotal(l: int, c: int, h: int, k: nat)
    requires l > 0 && c > 0
    requires k <= |Plan(l, c, h)|
    ensures k == 0 || TotalLength(Plan(l, c, h)[..k]) == Plan(l, c, h)[k - 1].realOffset + Plan(l, c, h)[k - 1].realLength
  {
    var p := Plan(l, c, h);
    if k > 1 {
      PlanPrefixTotal(l, c, h, k - 1);
      assert p[..k][..k - 1] == p[..k - 1];
      PlanContiguous(l, c, h);
    } else if k == 1 {
      assert p[..1][..0] == [];
    }
  }

  /** The fragments carry `l` payload bytes in all. */
  lemma PlanTotal(l: int, c: int, h: int)
    requires l > 0 && c > 0
    ensures TotalLength(Plan(l, c, h)) == l
  {
    var p := Plan(l, c, h);
    PlanPrefixTotal(l, c, h, |p|);
    assert p[..|p|] == p;
    PlanContiguous(l, c, h);
  }

  /** For every fragment size, the file's choice of reassembled length gives the bonk
      shape: the last fragment's offset still fits the 13-bit Fragment Offset field,
      while the payload runs past the largest representable offset and the reassembled
      datagram is longer than the Total Length field can state. */
  lemma PktLenForIsOversized(c: nat, h: int)
    requires c > 0
    ensures var l := PktLenFor(c);
            var p := Plan(l, c, h);
            && l % c == 0
            && |p| == MAX_FRAG_OFFSET * 8 / c + 1
            && l > MAX_FRAG_OFFSET * 8
            && l + IP_HDR_LEN > MAX_IP_LEN
            && forall i :: 0 <= i < |p| ==> 0 <= p[i].hdrOffset / 8 <= MAX_FRAG_OFFSET
  {
    var q := MAX_FRAG_OFFSET * 8 / c;
    var l := PktLenFor(c);
    assert l == q * c + c;
    assert l > MAX_FRAG_OFFSET * 8 by {
      assert MAX_FRAG_OFFSET * 8 == q * c + MAX_FRAG_OFFSET * 8 % c;
    }
    assert |Plan(l, c, h)| == q + 1 by {
      assert (q + 1 - 1) * c < l <= (q + 1) * c;
      FragCountIsCeiling(l, c, q + 1);
    }
    forall i | 0 <= i < |Plan(l, c, h)|
      ensures 0 <= Plan(l, c, h)[i].hdrOffset / 8 <= MAX_FRAG_OFFSET
    {
      assert Plan(l, c, h)[i].hdrOffset == i * c;
      assert 0 <= i * c <= q * c by {
        MulLe(i, q, c);
        MulLe(0, i, c);
      }
      assert q * c <= MAX_FRAG_OFFSET * 8 by {
        assert MAX_FRAG_OFFSET * 8 == q * c + MAX_FRAG_OFFSET * 8 % c;
      }
    }
  }

  /** The file's constants: a 65536-byte payload in 128 fragments of 512 bytes, every
      offset a multiple of 8 whose 8-byte count is at most 8128. */
  lemma BonkPlan()
    ensures PKT_LEN == 65536 > MAX_IP_LEN
    ensures FragCount(PKT_LEN, FRAG_LEN) == 128
    ensures var p := Plan(PKT_LEN, FRAG_LEN, IP_HDR_LEN);
            && TotalLength(p) == PKT_LEN
            && forall i :: 0 <= i < |p| ==>
                 p[i].hdrOffset % 8 == 0 && p[i].hdrOffset / 8 <= 8128 <= MAX_FRAG_OFFSET
  {
    PlanTotal(PKT_LEN, FRAG_LEN, IP_HDR_LEN);
  }

  /** The two-entry table passed when the legitimate segment is sent fragmented. */
  const OVERRIDE_FRAGS: seq<FragSpec> := [
    FragSpec(0, 0, FRAG_LEN + IP_HDR_LEN, FRAG_LEN, true, false),
    FragSpec(FRAG_LEN, FRAG_LEN, FRAG_LEN + IP_HDR_LEN, FRAG_LEN, false, false)
  ]

  /** The override table is the tiling of the legitimate TCP segment (header plus
      `tx_buf`), which is exactly two full fragments. */
  lemma OverrideFragsTileSegment()
    ensures TX_LEN + TCP_HDR_LEN == 2 * FRAG_LEN
    ensures OVERRIDE_FRAGS == Plan(TX_LEN + TCP_HDR_LEN, FRAG_LEN, IP_HDR_LEN)
  {
    var p := Plan(TX_LEN + TCP_HDR_LEN, FRAG_LEN, IP_HDR_LEN);
    assert |p| == 2;
  }
}
