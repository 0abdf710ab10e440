/** The Internet checksum of RFC 1071, standing in for the external `calculate_checksum`. */
module InetChecksum {
  import opened Bytes

  /** The 16-bit word with high byte `hi` and low byte `lo`. */
  function Word(hi: uint8, lo: uint8): int
  {
    hi as int * 0x100 + lo as int
  }

  /** Plain integer sum of the 16-bit words of `s`; an odd trailing byte is padded with
      a zero low byte (RFC 1071, section 1). */
  function WordTotal(s: seq<uint8>): nat
    decreases |s|
  {
    if |s| == 0 then 0
    else if |s| == 1 then Word(s[0], 0)
    else Word(s[0], s[1]) + WordTotal(s[2..])
  }

  /** One's complement addition of two 16-bit values: the carry out of bit 15 is added
      back in. */
  function OnesAdd(a: int, b: int): (r: int)
    requires 0 <= a <= 0xFFFF && 0 <= b <= 0xFFFF
    ensures 0 <= r <= 0xFFFF
    ensures r % 0xFFFF == (a + b) % 0xFFFF
    ensures r == 0 <==> a == 0 && b == 0
  {
    if a + b > 0xFFFF then a + b - 0xFFFF else a + b
  }

  /** `calculate_checksum(buf, len)`: the folded one's complement sum of the words of
      `s`, word by word with end-around carry. */
  function CalculateChecksum(s: seq<uint8>): (r: int)
    ensures 0 <= r <= 0xFFFF
    decreases |s|
  {
    if |s| == 0 then 0
    else if |s| == 1 then Word(s[0], 0)
    else OnesAdd(Word(s[0], s[1]), CalculateChecksum(s[2..]))
  }

  lemma ModAdd(a: int, b: int, c: int)
    requires b % 0xFFFF == c % 0xFFFF
    ensures (a + b) % 0xFFFF == (a + c) % 0xFFFF
  {
    var d := b / 0xFFFF - c / 0xFFFF;
    assert a + b == (a + c) + d * 0xFFFF;
  }

  /** The folded sum agrees with the plain word sum modulo 0xFFFF, and is zero only
      when every word is. */
  lemma {:induction false} ChecksumIsWordTotal(s: seq<uint8>)
    ensures CalculateChecksum(s) % 0xFFFF == WordTotal(s) % 0xFFFF
    ensures CalculateChecksum(s) == 0 <==> WordTotal(s) == 0
    decreases |s|
  {
    if |s| >= 2 {
      ChecksumIsWordTotal(s[2..]);
      ModAdd(Word(s[0], s[1]), CalculateChecksum(s[2..]), WordTotal(s[2..]));
    }
  }

  /** A receiver accepts `s` when its one's complement sum, checksum field included, is
      all one bits (RFC 1071, section 1). */
  predicate ChecksumVerifies(s: seq<uint8>)
  {
    CalculateChecksum(s) == 0xFFFF
  }

  /** `s` with the 16-bit field at the even offset `at` set to the complement of the
      sum of `s`, high byte first. */
  function WithChecksum(s: seq<uint8>, at: nat): (r: seq<uint8>)
    requires at % 2 == 0 && at + 2 <= |s|
    ensures |r| == |s|
    ensures forall j :: 0 <= j < |s| && j != at && j != at + 1 ==> r[j] == s[j]
    ensures r[at] as int * 0x100 + r[at + 1] as int == 0xFFFF - CalculateChecksum(s)
  {
    s[..at] + BigEndian16(0xFFFF - CalculateChecksum(s)) + s[at + 2..]
  }

  /** The word sum of a concatenation whose first part has even length. */
  lemma {:induction false} WordTotalAppend(a: seq<uint8>, b: seq<uint8>)
    requires |a| % 2 == 0
    ensures WordTotal(a + b) == WordTotal(a) + WordTotal(b)
    decreases |a|
  {
    if |a| == 0 {
      assert a + b == b;
    } else {
      assert (a + b)[2..] == a[2..] + b;
      WordTotalAppend(a[2..], b);
    }
  }

  /** A nonzero one's complement sum congruent to 0 modulo 0xFFFF is 0xFFFF. */
  lemma OnesSumOfComplement(r: int, total: nat, sum: int)
    requires 0 <= sum <= 0xFFFF && sum % 0xFFFF == total % 0xFFFF
    requires 0 < r <= 0xFFFF && r % 0xFFFF == (total + 0xFFFF - sum) % 0xFFFF
    ensures r == 0xFFFF
  {
    var k := total / 0xFFFF;
    assert total == k * 0xFFFF + sum % 0xFFFF;
    assert total + 0xFFFF - sum == (k + 1) * 0xFFFF + sum % 0xFFFF - sum;
    if sum == 0xFFFF {
      assert total + 0xFFFF - sum == k * 0xFFFF;
    } else {
      assert total + 0xFFFF - sum == (k + 1) * 0xFFFF;
    }
  }

  /** Replacing the word at the even offset `at` changes the word sum by the difference. */
  lemma WordTotalReplace(s: seq<uint8>, at: nat, field: seq<uint8>)
    requires at % 2 == 0 && at + 2 <= |s| && |field| == 2
    ensures WordTotal(s[..at] + field + s[at + 2..])
            == WordTotal(s) - Word(s[at], s[at + 1]) + Word(field[0], field[1])
  {
    var old2: seq<uint8> := [s[at], s[at + 1]];
    assert s == s[..at] + (old2 + s[at + 2..]);
    WordTotalAppend(s[..at], old2 + s[at + 2..]);
    WordTotalAppend(old2, s[at + 2..]);
    assert old2[2..] == [];
    assert s[..at] + field + s[at + 2..] == s[..at] + (field + s[at + 2..]);
    WordTotalAppend(s[..at], field + s[at + 2..]);
    WordTotalAppend(field, s[at + 2..]);
    assert field[2..] == [];
  }

  /** Filling a zeroed checksum field with the complement of the sum makes the whole
      buffer verify. */
  lemma WithChecksumVerifies(s: seq<uint8>, at: nat)
    requires at % 2 == 0 && at + 2 <= |s|
    requires s[at] == 0 && s[at + 1] == 0
    ensures |WithChecksum(s, at)| == |s|
    ensures ChecksumVerifies(WithChecksum(s, at))
  {
    var sum := CalculateChecksum(s);
    var t := WithChecksum(s, at);
    assert WordTotal(t) == WordTotal(s) + 0xFFFF - sum by {
      WordTotalReplace(s, at, BigEndian16(0xFFFF - sum));
    }
    assert sum % 0xFFFF == WordTotal(s) % 0xFFFF && (sum == 0 <==> WordTotal(s) == 0) by {
      ChecksumIsWordTotal(s);
    }
    assert CalculateChecksum(t) % 0xFFFF == (WordTotal(s) + 0xFFFF - sum) % 0xFFFF
                  && CalculateChecksum(t) != 0 by {
      ChecksumIsWordTotal(t);
    }
    OnesSumOfComplement(CalculateChecksum(t), WordTotal(s), sum);
  }
}
