/** The header checksum (toCheckSum in pkg/util/tunutils/ipframe.go) against section 4.1 of
    RFC 1071. */
module Checksum {
  import opened Bytes

  /** The sum of the first `words` 16-bit words, without a bound. */
  function WordSum(bytes: seq<byte>, words: nat): (sum: nat)
    requires 2 * words <= |bytes|
  {
    if words == 0 then 0 else WordSum(bytes, words - 1) + BytesToUint16(bytes, 2 * (words - 1))
  }

  function Total(bytes: seq<byte>): (sum: nat) { WordSum(bytes, |bytes| / 2) }

  /** What toCheckSum computes: a 32-bit sum, one fold in 16-bit arithmetic, the complement. */
  function CheckSum(bytes: seq<byte>): (c: uint16) {
    var sum := Total(bytes) % 0x1_0000_0000;
    0xffff - (sum / 0x1_0000 + sum % 0x1_0000) % 0x1_0000
  }

  method ToCheckSum(bytes: seq<byte>) returns (c: uint16)
    ensures c == CheckSum(bytes)
  {
    var checkSum := 0;
    var num := |bytes| / 2;
    for i := 0 to num
      invariant checkSum == WordSum(bytes, i) % 0x1_0000_0000
    {
      checkSum := (checkSum + BytesToUint16(bytes, i * 2)) % 0x1_0000_0000;
    }
    c := 0xffff - (checkSum / 0x1_0000 + checkSum % 0x1_0000) % 0x1_0000;
  }

  // ----- The standard, on its own terms

  /** The sum of all 16-bit words of a header as they arrive, high byte first. */
  function ReceivedSum(bytes: seq<byte>): (sum: nat) {
    if |bytes| < 2 then 0
    else
      var high: int, low: int := bytes[0], bytes[1];
      256 * high + low + ReceivedSum(bytes[2..])
  }

  /** One's complement addition in full: the carries are folded in until none is left. */
  function Fold(sum: nat): (r: uint16)
    decreases sum
  {
    if sum < 65536 then sum else Fold(sum / 65536 + sum % 65536)
  }

  function InternetCheckSum(bytes: seq<byte>): (c: uint16) { 65535 - Fold(ReceivedSum(bytes)) }

  /** A receiver accepts a header whose words, checksum included, add up to all ones. */
  predicate Accepted(header: seq<byte>) { Fold(ReceivedSum(header)) == 65535 }

  /** The single fold of the code is complete. */
  predicate NoSecondCarry(bytes: seq<byte>) {
    ReceivedSum(bytes) / 65536 + ReceivedSum(bytes) % 65536 <= 65535
  }

  /** Folding is the sum modulo 65535, with 65535 itself for the multiples that are not zero. */
  lemma {:induction false} FoldIsResidue(sum: nat)
    ensures Fold(sum) == if sum == 0 then 0 else (sum - 1) % 65535 + 1
    decreases sum
  {
    if sum >= 65536 {
      var high, low := sum / 65536, sum % 65536;
      FoldIsResidue(high + low);
      assert sum - 1 == high * 65535 + (high + low - 1);
      ResidueOfMultiple(high, high + low - 1);
    }
  }

  lemma ResidueOfMultiple(k: nat, r: nat)
    ensures (k * 65535 + r) % 65535 == r % 65535
  {
  }

  lemma {:induction false} WordSumFromFront(bytes: seq<byte>, words: nat)
    requires 0 < words && 2 * words <= |bytes|
    ensures WordSum(bytes, words) == BytesToUint16(bytes, 0) + WordSum(bytes[2..], words - 1)
  {
    if words > 1 {
      WordSumFromFront(bytes, words - 1);
    }
  }

  /** The sum of the code is the sum of all words as they arrive. */
  lemma {:induction false} TotalIsReceived(bytes: seq<byte>)
    ensures Total(bytes) == ReceivedSum(bytes)
  {
    if |bytes| >= 2 {
      WordSumFromFront(bytes, |bytes| / 2);
      TotalIsReceived(bytes[2..]);
    }
  }

  lemma {:induction false} WordSumBound(bytes: seq<byte>, words: nat)
    requires 2 * words <= |bytes|
    ensures WordSum(bytes, words) <= words * 0xffff
  {
    if words > 0 {
      WordSumBound(bytes, words - 1);
    }
  }

  /** For every header (at most 60 bytes) the 32-bit sum does not overflow, and the one fold gives
      the checksum of RFC 1071 exactly when it is complete; otherwise the result is one too large. */
  lemma SingleFold(bytes: seq<byte>)
    requires |bytes| <= 60
    ensures ReceivedSum(bytes) < 0x1_0000_0000
    ensures CheckSum(bytes) == InternetCheckSum(bytes) + if NoSecondCarry(bytes) then 0 else 1
  {
    hide Total;
    hide CheckSum;
    hide ReceivedSum;
    hide Fold;
    SmallSum(bytes);
    TotalIsReceived(bytes);
    OneFoldThenAnother(Total(bytes));
  }

  lemma OneFoldThenAnother(sum: nat)
    requires sum <= 30 * 0xffff
    ensures var once := sum / 65536 + sum % 65536;
            0xffff - once % 0x1_0000 == 65535 - Fold(sum) + if once <= 65535 then 0 else 1
  {
  }

  /** The header with the two checksum bytes patched in. */
  function Seal(header: seq<byte>): (sealed: seq<byte>)
    requires |header| >= 12
    ensures |sealed| == |header|
  {
    header[..10] + Uint16ToBytes(CheckSum(header)) + header[12..]
  }

  lemma {:induction false} SealedSum(header: seq<byte>, words: nat)
    requires 12 <= |header| && 2 * words <= |header| && header[10] == 0 && header[11] == 0
    ensures WordSum(Seal(header), words) == WordSum(header, words) + if words > 5 then CheckSum(header) else 0
  {
    if words > 0 {
      SealedSum(header, words - 1);
      var at := 2 * (words - 1);
      if at == 10 {
        assert Seal(header)[10..12] == Uint16ToBytes(CheckSum(header));
        assert BytesToUint16(Seal(header), 10) == CheckSum(header);
      } else {
        assert BytesToUint16(Seal(header), at) == BytesToUint16(header, at);
      }
    }
  }

  lemma ComplementFolds(sum: nat, c: nat)
    requires sum <= 30 * 0xffff && c == 0xffff - (sum / 65536 + sum % 65536) % 65536
    ensures Fold(sum + c) == 65535 <==> sum / 65536 + sum % 65536 <= 65535
  {
    var high, once := sum / 65536, sum / 65536 + sum % 65536;
    if once <= 65535 {
      assert sum + c == high * 65536 + (65535 - high);
    } else {
      assert sum + c == (high + 1) * 65536 + (65535 - high);
    }
  }

  /** On a header the 32-bit sum does not overflow. */
  lemma SmallSum(bytes: seq<byte>)
    requires |bytes| <= 60
    ensures Total(bytes) <= 30 * 0xffff
    ensures CheckSum(bytes) == 0xffff - (Total(bytes) / 65536 + Total(bytes) % 65536) % 65536
  {
    WordSumBound(bytes, |bytes| / 2);
    hide WordSum;
    assert Total(bytes) % 0x1_0000_0000 == Total(bytes);
  }

  lemma SealedTotal(header: seq<byte>)
    requires 12 <= |header| && header[10] == 0 && header[11] == 0
    ensures Total(Seal(header)) == Total(header) + CheckSum(header)
  {
    hide CheckSum;
    hide WordSum;
    SealedSum(header, |header| / 2);
  }

  /** A receiver accepts the sealed header exactly when the single fold was complete. */
  lemma SealIsAccepted(header: seq<byte>)
    requires 12 <= |header| <= 60 && header[10] == 0 && header[11] == 0
    ensures Accepted(Seal(header)) <==> NoSecondCarry(header)
  {
    hide Total;
    hide CheckSum;
    hide Seal;
    hide ReceivedSum;
    hide Fold;
    TotalIsReceived(header);
    TotalIsReceived(Seal(header));
    SealedTotal(header);
    SmallSum(header);
    ComplementFolds(Total(header), CheckSum(header));
  }

  const SAMPLE_HEADER: seq<byte> :=
    [0x45, 0x00, 0x00, 0x3c, 0x1c, 0x46, 0x40, 0x00, 0x40, 0x06,
     0x00, 0x00, 0xc0, 0xa8, 0x00, 0x0a, 0xc0, 0xa8, 0x00, 0x14]

  lemma SampleWords(b: seq<byte>)
    requires b == SAMPLE_HEADER
    ensures BytesToUint16(b, 0) == 0x4500 && BytesToUint16(b, 2) == 0x3c && BytesToUint16(b, 4) == 0x1c46
    ensures BytesToUint16(b, 6) == 0x4000 && BytesToUint16(b, 8) == 0x4006 && BytesToUint16(b, 10) == 0
    ensures BytesToUint16(b, 12) == 0xc0a8 && BytesToUint16(b, 14) == 0x0a
    ensures BytesToUint16(b, 16) == 0xc0a8 && BytesToUint16(b, 18) == 0x14
  {
  }

  lemma SampleTotal(b: seq<byte>)
    requires b == SAMPLE_HEADER
    ensures Total(b) == 0x2_62f6
  {
    SampleWords(b);
    hide BytesToUint16;
    assert WordSum(b, 2) == 0x453c;
    assert WordSum(b, 4) == 0xa182;
    assert WordSum(b, 6) == 0xe188;
    assert WordSum(b, 8) == 0x1_a23a;
    assert WordSum(b, 10) == 0x2_62f6;
  }

  /** A header and its checksum. */
  lemma CheckSumOfSample()
    ensures CheckSum(SAMPLE_HEADER) == 0x9d07
  {
    hide Total;
    SampleTotal(SAMPLE_HEADER);
  }
}
