/** IPv4 frames as bytes (section 3.1 of RFC 791), as pkg/util/tunutils/ipframe.go prints and
    parses them: the specification that the methods of module IPFrames are proved against. */
module FrameCodec {
  import opened Bytes
  import opened Checksum

  const MINIMUM_HEADER_LEN := 5

  datatype HeaderOption = HeaderOption(key: uint16, value: uint16)

  datatype Frame = Frame(
    version: byte, headerLen: byte, tos: byte, totalLen: uint16,
    identification: uint16, flag: byte, offset: uint16,
    ttl: byte, protocol: byte, headerCheckSum: uint16,
    source: seq<byte>, target: seq<byte>,
    options: seq<HeaderOption>, payload: seq<byte>)

  // ----- Printing

  function OptionBytes(o: HeaderOption): (b: seq<byte>)
    ensures |b| == 4
  {
    Uint16ToBytes(o.key) + Uint16ToBytes(o.value)
  }

  function OptionsBytes(options: seq<HeaderOption>): (b: seq<byte>)
    ensures |b| == 4 * |options|
  {
    if options == [] then []
    else OptionsBytes(options[..|options| - 1]) + OptionBytes(options[|options| - 1])
  }

  function VersionByte(f: Frame): (b: byte) { ((f.version * 16) % 0x100 + f.headerLen) % 0x100 }

  function FlagByte(f: Frame): (b: byte) { (f.flag * 32) % 0x100 + (f.offset / 0x100) % 32 }

  /** The first three words, with a zero checksum. */
  function FixedPart(f: Frame): (b: seq<byte>)
    ensures |b| == 12 && b[10] == 0 && b[11] == 0
  {
    [VersionByte(f), f.tos, f.totalLen / 0x100, f.totalLen % 0x100,
     f.identification / 0x100, f.identification % 0x100, FlagByte(f), f.offset % 0x100,
     f.ttl, f.protocol, 0, 0]
  }

  /** The header with a zero checksum. */
  function Header(f: Frame): (b: seq<byte>)
    ensures |b| == 12 + |f.source| + |f.target| + 4 * |f.options|
    ensures b[10] == 0 && b[11] == 0
  {
    FixedPart(f) + f.source + f.target + OptionsBytes(f.options)
  }

  function Encode(f: Frame): (b: seq<byte>) { Seal(Header(f)) + f.payload }

  // ----- Parsing

  datatype Parse =
    | NeedMore                       // nil, nil: not enough data yet
    | BadHeader                      // an error: the header length is below the minimum
    | Crash(consumed: nat)           // an index or slice out of range, after `consumed` bytes were read
    | Parsed(frame: Frame, consumed: nat)

  function HeaderLen(b: seq<byte>): (n: byte) requires |b| >= 4 { b[0] % 16 }

  function TotalLen(b: seq<byte>): (n: uint16) requires |b| >= 4 { BytesToUint16(b, 2) }

  function DecodeOption(b: seq<byte>, line: nat): (o: HeaderOption)
    requires 4 * line + 4 <= |b|
  {
    HeaderOption(BytesToUint16(b, 4 * line), BytesToUint16(b, 4 * line + 2))
  }

  function DecodeOptions(b: seq<byte>, count: nat): (options: seq<HeaderOption>)
    requires 4 * (MINIMUM_HEADER_LEN + count) <= |b|
    ensures |options| == count
  {
    if count == 0 then []
    else DecodeOptions(b, count - 1) + [DecodeOption(b, MINIMUM_HEADER_LEN + count - 1)]
  }

  function OffsetOf(flagByte: byte, low: byte): (offset: uint16) {
    var high: int := flagByte % 32;
    high * 0x100 + low
  }

  /** One whole frame, no more and no less. */
  predicate WellFormedPacket(b: seq<byte>) {
    && |b| >= 20
    && HeaderLen(b) >= MINIMUM_HEADER_LEN
    && 4 * HeaderLen(b) <= TotalLen(b) == |b|
  }

  function Decode(b: seq<byte>): (f: Frame)
    requires WellFormedPacket(b)
  {
    var hl := HeaderLen(b);
    Frame(b[0] / 16, hl, b[1], TotalLen(b),
          BytesToUint16(b, 4), b[6] / 32, OffsetOf(b[6], b[7]),
          b[8], b[9], BytesToUint16(b, 10),
          b[12..16], b[16..20],
          DecodeOptions(b, hl - MINIMUM_HEADER_LEN), b[4 * hl..])
  }

  // The accesses the parser makes to the bytes of a packet. Each may be out of range, which panics.

  datatype Access<+T> = Panic | Got(value: T)
  {
    predicate IsFailure() { Panic? }

    function PropagateFailure<U>(): (r: Access<U>)
      requires IsFailure()
    {
      Panic
    }

    function Extract(): (v: T)
      requires !IsFailure()
    {
      value
    }
  }

  function At(b: seq<byte>, i: nat): (r: Access<byte>) {
    if i < |b| then Got(b[i]) else Panic
  }

  function WordAt(b: seq<byte>, i: nat): (r: Access<uint16>) {
    if i + 1 < |b| then Got(BytesToUint16(b, i)) else Panic
  }

  function Cut(b: seq<byte>, lo: nat, hi: nat): (r: Access<seq<byte>>) {
    if lo <= hi <= |b| then Got(b[lo..hi]) else Panic
  }

  function FillOptions(b: seq<byte>, count: nat): (r: Access<seq<HeaderOption>>) {
    if count == 0 then Got([])
    else
      var so :- FillOptions(b, count - 1);
      var index := 4 * (MINIMUM_HEADER_LEN + count - 1);
      var key :- WordAt(b, index);
      var value :- WordAt(b, index + 2);
      Got(so + [HeaderOption(key, value)])
  }

  /** Filling in a frame from the bytes read off the buffer, access by access in the order of the code.
      Nothing is checked beforehand: `first` are the four bytes peeked, and `b` has as many bytes as
      they announce. */
  function Fill(first: seq<byte>, b: seq<byte>): (r: Access<Frame>)
    requires |first| == 4 && HeaderLen(first) >= MINIMUM_HEADER_LEN && |b| == TotalLen(first)
  {
    var hl := HeaderLen(first);
    var identification :- WordAt(b, 4);
    var flagByte :- At(b, 6);
    var low :- At(b, 7);
    var ttl :- At(b, 8);
    var protocol :- At(b, 9);
    var headerCheckSum :- WordAt(b, 10);
    var source :- Cut(b, 12, 16);
    var target :- Cut(b, 16, 20);
    var options :- FillOptions(b, hl - MINIMUM_HEADER_LEN);
    var payload :- Cut(b, 4 * hl, TotalLen(first));
    Got(Frame(first[0] / 16, hl, first[1], TotalLen(first), identification, flagByte / 32, OffsetOf(flagByte, low),
              ttl, protocol, headerCheckSum, source, target, options, payload))
  }

  lemma {:induction false} FillOptionsExactly(b: seq<byte>, count: nat)
    requires |b| >= 20
    ensures FillOptions(b, count) ==
              if 4 * (MINIMUM_HEADER_LEN + count) <= |b| then Got(DecodeOptions(b, count)) else Panic
  {
    if count > 0 {
      FillOptionsExactly(b, count - 1);
    }
  }

  /** The accesses are all in range exactly if the announced length covers the header, and they then give
      the frame; otherwise one of them panics. */
  lemma FillExactlyWhen(first: seq<byte>, b: seq<byte>)
    requires |first| == 4 && HeaderLen(first) >= MINIMUM_HEADER_LEN && |b| == TotalLen(first)
    ensures Fill(first, b).Got? <==> 4 * HeaderLen(first) <= TotalLen(first)
    ensures Fill(first, b).Got? && first == b[..4] ==> WellFormedPacket(b) && Fill(first, b) == Got(Decode(b))
  {
    if |b| >= 20 {
      FillOptionsExactly(b, HeaderLen(first) - MINIMUM_HEADER_LEN);
      hide FillOptions;
      hide DecodeOptions;
      hide OffsetOf;
      if 4 * HeaderLen(first) <= |b| && first == b[..4] {
        assert first[0] == b[0] && first[1] == b[1] && first[2] == b[2] && first[3] == b[3];
        assert b[4 * HeaderLen(first)..|b|] == b[4 * HeaderLen(first)..];
      }
    }
  }

  /** What ParseIPFrame does with a buffer that holds the bytes `q`. */
  function ParseBytes(q: seq<byte>): (r: Parse)
    ensures r.Parsed? ==> 20 <= r.consumed <= |q|
  {
    if |q| < 4 then NeedMore
    else if HeaderLen(q) < MINIMUM_HEADER_LEN then BadHeader
    else if |q| < 4 * HeaderLen(q) || |q| < TotalLen(q) then NeedMore
    else
      FillExactlyWhen(q[..4], q[..TotalLen(q)]);
      match Fill(q[..4], q[..TotalLen(q)])
      case Panic => Crash(TotalLen(q))
      case Got(f) => Parsed(f, TotalLen(q))
  }

  /** The parser decided: it crashes exactly on a packet that is there in full and announces fewer bytes
      than its header has. */
  lemma ParseExactly(q: seq<byte>)
    ensures ParseBytes(q) ==
              if |q| < 4 then NeedMore
              else if HeaderLen(q) < MINIMUM_HEADER_LEN then BadHeader
              else if |q| < 4 * HeaderLen(q) || |q| < TotalLen(q) then NeedMore
              else if TotalLen(q) < 4 * HeaderLen(q) then Crash(TotalLen(q))
              else Parsed(Decode(q[..TotalLen(q)]), TotalLen(q))
  {
    if |q| >= 4 && HeaderLen(q) >= MINIMUM_HEADER_LEN && |q| >= 4 * HeaderLen(q) && |q| >= TotalLen(q) {
      var first, b := q[..4], q[..TotalLen(q)];
      FillExactlyWhen(first, b);
      hide Fill;
      hide Decode;
      assert HeaderLen(first) == HeaderLen(q) && TotalLen(first) == TotalLen(q);
      assert TotalLen(q) >= 4 ==> first == b[..4];
    }
  }

  /** A header of five lines that announces four bytes. */
  const CRASHING_PACKET: seq<byte> :=
    [0x45, 0, 0, 4, 0, 0, 0, 0, 0, 0, 0, 0, 0, 0, 0, 0, 0, 0, 0, 0]

  lemma ShortLengthCrashes()
    ensures ParseBytes(CRASHING_PACKET) == Crash(4)
  {
    ParseExactly(CRASHING_PACKET);
  }

  /** The 20 bytes of the repository's own parser test announce 60 bytes, so there is no frame yet. */
  lemma TestVectorIsIncomplete()
    ensures ParseBytes([0x45, 0x00, 0x00, 0x3c, 0x1c, 0x46, 0x40, 0x00, 0x40, 0x06,
                        0xd2, 0x1e, 0xc0, 0xa8, 0x00, 0x0a, 0xc0, 0xa8, 0x00, 0x14]) == NeedMore
  {
    hide Fill;
  }

  // ----- Round trips

  /** The frames that have a faithful IPv4 form. */
  predicate WellFormed(f: Frame) {
    && f.version < 16
    && MINIMUM_HEADER_LEN <= f.headerLen < 16
    && f.flag < 8 && f.offset < 0x2000
    && |f.source| == 4 && |f.target| == 4
    && |f.options| == f.headerLen - MINIMUM_HEADER_LEN
    && f.totalLen == 4 * f.headerLen + |f.payload|
  }

  lemma DecodeIsWellFormed(b: seq<byte>)
    requires WellFormedPacket(b)
    ensures WellFormed(Decode(b))
  {
  }

  lemma DecodeOptionBytes(b: seq<byte>, line: nat, o: HeaderOption)
    requires 4 * line + 4 <= |b| && b[4 * line..4 * line + 4] == OptionBytes(o)
    ensures DecodeOption(b, line) == o
  {
  }

  /** Options read back from where they were printed. */
  lemma {:induction false} OptionsRoundTrip(b: seq<byte>, options: seq<HeaderOption>, count: nat)
    requires count <= |options| && 20 + 4 * |options| <= |b|
    requires b[20..20 + 4 * |options|] == OptionsBytes(options)
    ensures DecodeOptions(b, count) == options[..count]
  {
    hide OptionsBytes;
    hide DecodeOption;
    if count > 0 {
      OptionsRoundTrip(b, options, count - 1);
      LastOptionBytes(options, count);
      var line := MINIMUM_HEADER_LEN + count - 1;
      SliceOfSlice(b, 20, 20 + 4 * |options|, 4 * (count - 1), 4 * count);
      DecodeOptionBytes(b, line, options[count - 1]);
      assert options[..count] == options[..count - 1] + [options[count - 1]];
    }
  }

  lemma SliceOfSlice(b: seq<byte>, lo: nat, hi: nat, i: nat, j: nat)
    requires lo <= hi <= |b| && i <= j <= hi - lo
    ensures b[lo..hi][i..j] == b[lo + i..lo + j]
  {
    var inner := b[lo..hi];
    assert forall k :: 0 <= k < hi - lo ==> inner[k] == b[lo + k];
    assert forall k :: 0 <= k < j - i ==> inner[i..j][k] == inner[i + k];
    var direct := b[lo + i..lo + j];
    assert forall k :: 0 <= k < j - i ==> direct[k] == b[lo + i + k];
  }

  lemma LastOptionBytes(options: seq<HeaderOption>, count: nat)
    requires 0 < count <= |options|
    ensures OptionsBytes(options)[4 * (count - 1)..4 * count] == OptionBytes(options[count - 1])
  {
  }

  lemma PartsOfConcat(fixed: seq<byte>, source: seq<byte>, target: seq<byte>, options: seq<byte>,
                      sum: seq<byte>, payload: seq<byte>)
    requires |fixed| == 12 && |source| == 4 && |target| == 4 && |sum| == 2
    ensures var h := fixed + source + target + options;
            var b := h[..10] + sum + h[12..] + payload; var end := 20 + |options|;
            && b[..10] == fixed[..10] && b[10..12] == sum
            && b[12..16] == source && b[16..20] == target
            && b[20..end] == options && b[end..] == payload
  {
    var h := fixed + source + target + options;
    assert h[12..] == source + target + options;
    var b := h[..10] + sum + h[12..] + payload;
    assert b[12..] == (source + target + options) + payload;
    assert b[..10] == h[..10] == fixed[..10];
    var end := 20 + |options|;
    assert b[12..16] == b[12..][..4] == source;
    assert b[16..20] == b[12..][4..8] == target;
    assert b[20..end] == b[12..][8..end - 12] == options;
  }

  /** The bytes of an encoded frame, part by part. */
  lemma EncodeParts(f: Frame)
    requires WellFormed(f)
    ensures var b := Encode(f); var fixed := FixedPart(f); var opts := 4 * |f.options|;
            && |b| == f.totalLen
            && b[..10] == fixed[..10]
            && b[10..12] == Uint16ToBytes(CheckSum(Header(f)))
            && b[12..16] == f.source && b[16..20] == f.target
            && b[20..20 + opts] == OptionsBytes(f.options)
            && b[20 + opts..] == f.payload
  {
    PartsOfConcat(FixedPart(f), f.source, f.target, OptionsBytes(f.options),
                  Uint16ToBytes(CheckSum(Header(f))), f.payload);
  }

  lemma PackVersion(version: int, headerLen: int)
    requires 0 <= version < 16 && 0 <= headerLen < 16
    ensures var b := ((version * 16) % 0x100 + headerLen) % 0x100; b / 16 == version && b % 16 == headerLen
  {
    assert ((version * 16) % 0x100 + headerLen) % 0x100 == version * 16 + headerLen;
  }

  lemma PackFlag(flag: int, high: int)
    requires 0 <= flag < 8 && 0 <= high < 32
    ensures var b := (flag * 32) % 0x100 + high % 32; b / 32 == flag && b % 32 == high
  {
  }

  lemma PackedFields(f: Frame)
    requires WellFormed(f)
    ensures VersionByte(f) / 16 == f.version && VersionByte(f) % 16 == f.headerLen
    ensures FlagByte(f) / 32 == f.flag && OffsetOf(FlagByte(f), f.offset % 0x100) == f.offset
  {
    PackVersion(f.version, f.headerLen);
    PackFlag(f.flag, f.offset / 0x100);
  }

  /** The fields of the first ten bytes read back. */
  lemma FixedRoundTrip(f: Frame, b: seq<byte>)
    requires WellFormed(f) && |b| >= 12 && b[..10] == FixedPart(f)[..10]
    ensures b[0] / 16 == f.version && HeaderLen(b) == f.headerLen
    ensures b[1] == f.tos && TotalLen(b) == f.totalLen
    ensures BytesToUint16(b, 4) == f.identification
    ensures b[6] / 32 == f.flag && OffsetOf(b[6], b[7]) == f.offset
    ensures b[8] == f.ttl && b[9] == f.protocol
  {
    PackedFields(f);
    hide VersionByte;
    hide FlagByte;
    forall i | 0 <= i < 10
      ensures b[i] == FixedPart(f)[i]
    {
      assert b[i] == b[..10][i] == FixedPart(f)[..10][i];
    }
  }

  /** Parsing what was printed gives the frame back, with the checksum filled in. */
  lemma ParseEncoded(f: Frame)
    requires WellFormed(f)
    ensures WellFormedPacket(Encode(f))
    ensures Decode(Encode(f)) == f.(headerCheckSum := CheckSum(Header(f)))
    ensures ParseBytes(Encode(f)) == Parsed(f.(headerCheckSum := CheckSum(Header(f))), |Encode(f)|)
  {
    var b := Encode(f);
    EncodeParts(f);
    FixedRoundTrip(f, b);
    assert b[10..12][0] == b[10] && b[10..12][1] == b[11];
    assert BytesToUint16(b, 10) == CheckSum(Header(f));
    OptionsRoundTrip(b, f.options, |f.options|);
    assert f.options[..|f.options|] == f.options;
    assert b[..f.totalLen] == b;
    ParseExactly(b);
    hide ParseBytes;
  }

  /** A frame survives printing and parsing, up to its checksum, exactly when it is well formed. */
  lemma RoundTripExactlyWellFormed(f: Frame)
    ensures WellFormed(f) <==>
              ParseBytes(Encode(f)) == Parsed(f.(headerCheckSum := CheckSum(Header(f))), |Encode(f)|)
  {
    if WellFormed(f) {
      ParseEncoded(f);
    } else {
      var b := Encode(f);
      ParseExactly(b);
      hide ParseBytes;
      if ParseBytes(b).Parsed? {
        DecodeIsWellFormed(b[..TotalLen(b)]);
      }
    }
  }

  lemma SplitSlice(b: seq<byte>, lo: nat, mid: nat, hi: nat)
    requires lo <= mid <= hi <= |b|
    ensures b[lo..hi] == b[lo..mid] + b[mid..hi]
  {
  }

  lemma OptionBytesOfDecoded(b: seq<byte>, line: nat)
    requires 4 * line + 4 <= |b|
    ensures OptionBytes(DecodeOption(b, line)) == b[4 * line..4 * line + 4]
  {
  }

  lemma OptionsBytesAppend(options: seq<HeaderOption>, o: HeaderOption)
    ensures OptionsBytes([]) == []
    ensures OptionsBytes(options + [o]) == OptionsBytes(options) + OptionBytes(o)
  {
  }

  lemma {:induction false} OptionsBytesOfDecoded(b: seq<byte>, count: nat)
    requires 4 * (MINIMUM_HEADER_LEN + count) <= |b|
    ensures OptionsBytes(DecodeOptions(b, count)) == b[20..20 + 4 * count]
  {
    hide DecodeOption;
    hide OptionBytes;
    hide OptionsBytes;
    if count == 0 {
      OptionsBytesAppend([], HeaderOption(0, 0));
    } else {
      OptionsBytesOfDecoded(b, count - 1);
      var line := MINIMUM_HEADER_LEN + count - 1;
      OptionBytesOfDecoded(b, line);
      OptionsBytesAppend(DecodeOptions(b, count - 1), DecodeOption(b, line));
      SplitSlice(b, 20, 4 * line, 4 * line + 4);
    }
  }

  lemma RepackVersion(x: byte)
    ensures ((x / 16 * 16) % 0x100 + x % 16) % 0x100 == x
  {
  }

  lemma RepackFlag(x: byte, y: byte)
    ensures (x / 32 * 32) % 0x100 + (OffsetOf(x, y) / 0x100) % 32 == x
    ensures OffsetOf(x, y) % 0x100 == y
  {
  }

  lemma PackedBytesOfDecoded(b: seq<byte>)
    requires WellFormedPacket(b)
    ensures var f := Decode(b);
            && VersionByte(f) == b[0] && FlagByte(f) == b[6] && f.offset % 0x100 == b[7]
            && f.totalLen / 0x100 == b[2] && f.totalLen % 0x100 == b[3]
            && f.identification / 0x100 == b[4] && f.identification % 0x100 == b[5]
  {
    RepackVersion(b[0]);
    RepackFlag(b[6], b[7]);
    hide OffsetOf;
  }

  lemma FixedPartOfDecoded(b: seq<byte>)
    requires WellFormedPacket(b)
    ensures FixedPart(Decode(b)) == b[..10] + [0, 0]
  {
    PackedBytesOfDecoded(b);
  }

  /** The header of a packet with the checksum bytes zeroed. */
  function ZeroedHeader(b: seq<byte>): (h: seq<byte>)
    requires WellFormedPacket(b)
    ensures 20 <= |h| <= 60 && h[10] == 0 && h[11] == 0
  {
    b[..10] + [0, 0] + b[12..4 * HeaderLen(b)]
  }

  lemma HeaderOfDecoded(b: seq<byte>)
    requires WellFormedPacket(b)
    ensures Header(Decode(b)) == ZeroedHeader(b)
  {
    FixedPartOfDecoded(b);
    OptionsBytesOfDecoded(b, HeaderLen(b) - MINIMUM_HEADER_LEN);
    hide FixedPart;
    hide OptionsBytes;
    hide DecodeOptions;
    JoinHeader(b, 4 * HeaderLen(b));
  }

  lemma JoinHeader(b: seq<byte>, end: nat)
    requires 20 <= end <= |b|
    ensures (b[..10] + [0, 0]) + b[12..16] + b[16..20] + b[20..end] == b[..10] + [0, 0] + b[12..end]
  {
  }

  /** A packet as it leaves after having been parsed and printed again. */
  function Reprint(b: seq<byte>): (r: seq<byte>)
    requires WellFormedPacket(b)
  {
    Encode(Decode(b))
  }

  /** Printing a parsed packet changes nothing but the checksum bytes. */
  lemma ReprintChangesOnlyChecksum(b: seq<byte>)
    requires WellFormedPacket(b)
    ensures Reprint(b) == b[..10] + Uint16ToBytes(CheckSum(ZeroedHeader(b))) + b[12..]
  {
    HeaderOfDecoded(b);
    hide Header;
    hide CheckSum;
    ResealedPacket(b, Uint16ToBytes(CheckSum(ZeroedHeader(b))), 4 * HeaderLen(b));
  }

  lemma ResealedPacket(b: seq<byte>, sum: seq<byte>, end: nat)
    requires 20 <= end <= |b| && |sum| == 2
    ensures var h := b[..10] + [0, 0] + b[12..end];
            && (h[..10] + sum + h[12..]) + b[end..] == b[..10] + sum + b[12..]
            && (b[..10] + sum + b[12..])[..end] == h[..10] + sum + h[12..]
            && (b[..10] + sum + b[12..])[0] == b[0]
  {
  }

  /** A second pass changes nothing at all. */
  lemma ReprintTwice(b: seq<byte>)
    requires WellFormedPacket(b)
    ensures WellFormedPacket(Reprint(b)) && Reprint(Reprint(b)) == Reprint(b)
  {
    hide ParseBytes;
    DecodeIsWellFormed(b);
    var f := Decode(b);
    ParseEncoded(f);
    hide Decode;
    hide FixedPart;
    hide CheckSum;
    hide OptionsBytes;
    hide WellFormed;
    assert Header(f.(headerCheckSum := CheckSum(Header(f)))) == Header(f);
  }

  /** A receiver accepts the header of a forwarded packet exactly when folding its word sum once
      leaves no carry. */
  lemma ForwardedHeaderAccepted(b: seq<byte>)
    requires WellFormedPacket(b)
    ensures WellFormedPacket(Reprint(b)) && HeaderLen(Reprint(b)) == HeaderLen(b)
    ensures Accepted(Reprint(b)[..4 * HeaderLen(b)]) <==> NoSecondCarry(ZeroedHeader(b))
  {
    ReprintChangesOnlyChecksum(b);
    ReprintTwice(b);
    var h := ZeroedHeader(b);
    SealIsAccepted(h);
    hide Reprint;
    hide Accepted;
    hide NoSecondCarry;
    hide CheckSum;
    ResealedPacket(b, Uint16ToBytes(CheckSum(h)), 4 * HeaderLen(b));
  }

  /** A packet with an option and a payload, all of whose fields differ. */
  const SAMPLE_PACKET: seq<byte> :=
    [0x46, 0x02, 0x00, 0x1a, 0x12, 0x34, 0x61, 0x05, 0x40, 0x11, 0xa4, 0x5d,
     10, 0, 0, 1, 192, 168, 7, 9, 0x94, 0x04, 0x00, 0x63, 0xca, 0xfe]

  const SAMPLE_FRAME :=
    Frame(4, 6, 2, 26, 0x1234, 3, 0x105, 64, 17, 0xa45d, [10, 0, 0, 1], [192, 168, 7, 9],
          [HeaderOption(0x9404, 0x63)], [0xca, 0xfe])

  lemma SampleBytes()
    ensures var b := SAMPLE_PACKET;
            && |b| == 26
            && b[0] == 0x46 && b[1] == 2 && b[2] == 0 && b[3] == 26
            && b[4] == 0x12 && b[5] == 0x34 && b[6] == 0x61 && b[7] == 5
            && b[8] == 64 && b[9] == 17 && b[10] == 0xa4 && b[11] == 0x5d
            && b[12..16] == [10, 0, 0, 1] && b[16..20] == [192, 168, 7, 9]
            && b[20] == 0x94 && b[21] == 4 && b[22] == 0 && b[23] == 0x63 && b[24..] == [0xca, 0xfe]
  {
  }

  lemma SampleDecodes(b: seq<byte>)
    requires b == SAMPLE_PACKET
    ensures WellFormedPacket(b) && Decode(b) == SAMPLE_FRAME
  {
    SampleBytes();
    assert HeaderLen(b) == 6 && TotalLen(b) == 26;
    assert DecodeOptions(b, 0) == [];
    assert DecodeOptions(b, 1) == [HeaderOption(0x9404, 0x63)];
  }

  /** The layout of section 3.1 of RFC 791, field by field: the parser finds each in its place. */
  lemma SampleParses()
    ensures ParseBytes(SAMPLE_PACKET) == Parsed(SAMPLE_FRAME, 26)
  {
    hide ParseBytes;
    hide Decode;
    var b := SAMPLE_PACKET;
    SampleDecodes(b);
    ParseExactly(b);
    SampleBytes();
    assert b[..26] == b;
  }

  /** The printer puts each in its place again. */
  lemma SamplePrints()
    ensures Encode(SAMPLE_FRAME)[..10] == SAMPLE_PACKET[..10] && Encode(SAMPLE_FRAME)[12..] == SAMPLE_PACKET[12..]
  {
    hide Encode;
    hide Decode;
    hide CheckSum;
    SampleDecodes(SAMPLE_PACKET);
    ReprintChangesOnlyChecksum(SAMPLE_PACKET);
  }

  const REJECTED_PACKET: seq<byte> :=
    [0x45, 0, 0, 20, 0xba, 0xec, 0, 0, 0, 0, 0, 0, 0xff, 0xff, 0xff, 0xff, 0, 0, 0, 0]

  /** A well-formed packet that is forwarded with a header no receiver accepts: its words add up
      to 0x2fffe, so one fold leaves a carry. */
  lemma ForwardedHeaderCanBeRejected()
    ensures WellFormedPacket(REJECTED_PACKET)
    ensures !Accepted(Reprint(REJECTED_PACKET)[..4 * HeaderLen(REJECTED_PACKET)])
  {
    hide Accepted;
    hide Reprint;
    SumOfRejected();
    ForwardedHeaderAccepted(REJECTED_PACKET);
  }

  lemma SumOfRejected()
    ensures WellFormedPacket(REJECTED_PACKET) && !NoSecondCarry(ZeroedHeader(REJECTED_PACKET))
  {
    hide WordSum;
    hide ReceivedSum;
    assert ZeroedHeader(REJECTED_PACKET) == REJECTED_PACKET;
    WordsOfRejected();
    TotalIsReceived(REJECTED_PACKET);
  }

  lemma WordsOfRejected()
    ensures |REJECTED_PACKET| == 20 && WordSum(REJECTED_PACKET, 10) == 0x2_fffe
  {
    var b := REJECTED_PACKET;
    assert BytesToUint16(b, 0) == 0x4500 && BytesToUint16(b, 2) == 20 && BytesToUint16(b, 4) == 0xbaec;
    assert BytesToUint16(b, 6) == 0 && BytesToUint16(b, 8) == 0 && BytesToUint16(b, 10) == 0;
    assert BytesToUint16(b, 12) == 0xffff && BytesToUint16(b, 14) == 0xffff;
    assert BytesToUint16(b, 16) == 0 && BytesToUint16(b, 18) == 0;
    hide BytesToUint16;
    assert WordSum(b, 2) == 0x4514;
    assert WordSum(b, 4) == 0x1_0000;
    assert WordSum(b, 6) == 0x1_0000;
    assert WordSum(b, 8) == 0x2_fffe;
  }
}
