/** The frame object and its parser and printer (pkg/util/tunutils/ipframe.go). */
module IPFrames {
  import opened Bytes
  import opened Checksum
  import opened FrameCodec
  import opened RecycleBuffer

  class IPFrame {
    var version: byte
    var headerLen: byte
    var tos: byte
    var totalLen: uint16
    var identification: uint16
    var flag: byte
    var offset: uint16
    var ttl: byte
    var protocol: byte
    var headerCheckSum: uint16
    var source: seq<byte>
    var target: seq<byte>
    var options: seq<HeaderOption>
    var payload: seq<byte>

    ghost function Value(): (f: Frame)
      reads this
    {
      Frame(version, headerLen, tos, totalLen, identification, flag, offset, ttl, protocol, headerCheckSum,
            source, target, options, payload)
    }

    constructor (f: Frame)
      ensures Value() == f
    {
      version, headerLen, tos, totalLen := f.version, f.headerLen, f.tos, f.totalLen;
      identification, flag, offset := f.identification, f.flag, f.offset;
      ttl, protocol, headerCheckSum := f.ttl, f.protocol, f.headerCheckSum;
      source, target, options, payload := f.source, f.target, f.options, f.payload;
    }

    /** Prints the frame, recomputing the checksum and storing it in the frame as well. */
    method ToBytes() returns (bytes: seq<byte>)
      modifies this`headerCheckSum
      ensures bytes == old(Encode(Value()))
      ensures Value() == old(Value()).(headerCheckSum := CheckSum(old(Header(Value()))))
    {
      hide CheckSum;
      hide OptionsBytes;
      ghost var f := Value();
      bytes := [((version * 16) % 0x100 + headerLen) % 0x100];
      bytes := bytes + [tos];
      bytes := bytes + Uint16ToBytes(totalLen);
      bytes := bytes + Uint16ToBytes(identification);
      bytes := bytes + [(flag * 32) % 0x100 + (offset / 0x100) % 32];
      bytes := bytes + [offset % 0x100];
      bytes := bytes + [ttl];
      bytes := bytes + [protocol];
      bytes := bytes + [0x00, 0x00];
      assert bytes == FixedPart(f);
      bytes := bytes + source;
      bytes := bytes + target;
      var printed := PrintOptions(options);
      bytes := bytes + printed;
      assert bytes == Header(f);
      var checkSum := ToCheckSum(bytes);
      bytes := bytes[..10] + Uint16ToBytes(checkSum) + bytes[12..];
      headerCheckSum := checkSum;
      bytes := bytes + payload;
    }
  }

  method PrintOptions(options: seq<HeaderOption>) returns (bytes: seq<byte>)
    ensures bytes == OptionsBytes(options)
  {
    bytes := [];
    for i := 0 to |options|
      invariant bytes == OptionsBytes(options[..i])
    {
      assert options[..i + 1][..i] == options[..i];
      bytes := bytes + (Uint16ToBytes(options[i].key) + Uint16ToBytes(options[i].value));
    }
    assert options[..|options|] == options;
  }

  lemma {:induction false} FillOptionsPanics(bytes: seq<byte>, count: nat, upTo: nat)
    requires count <= upTo && FillOptions(bytes, count).Panic?
    ensures FillOptions(bytes, upTo).Panic?
    decreases upTo
  {
    if count < upTo {
      FillOptionsPanics(bytes, count, upTo - 1);
    }
  }

  /** Fills the option table from the header lines beyond the fifth, until an access panics. */
  method ReadOptions(bytes: seq<byte>, headerLen: nat) returns (options: Access<seq<HeaderOption>>)
    requires MINIMUM_HEADER_LEN <= headerLen
    ensures options == FillOptions(bytes, headerLen - MINIMUM_HEADER_LEN)
  {
    hide WordAt;
    options := Got([]);
    assert FillOptions(bytes, 0) == options;
    if headerLen > MINIMUM_HEADER_LEN {
      var table := new HeaderOption[headerLen - MINIMUM_HEADER_LEN](_ => HeaderOption(0, 0));
      for line := MINIMUM_HEADER_LEN to headerLen
        invariant FillOptions(bytes, line - MINIMUM_HEADER_LEN) == Got(table[..line - MINIMUM_HEADER_LEN])
      {
        var index := line * 4;
        var key, value := WordAt(bytes, index), WordAt(bytes, index + 2);
        if key.Panic? || value.Panic? {
          FillOptionsPanics(bytes, line + 1 - MINIMUM_HEADER_LEN, headerLen - MINIMUM_HEADER_LEN);
          return Panic;
        }
        ghost var so := table[..line - MINIMUM_HEADER_LEN];
        table[line - MINIMUM_HEADER_LEN] := HeaderOption(key.value, value.value);
        assert table[..line + 1 - MINIMUM_HEADER_LEN] == so + [HeaderOption(key.value, value.value)];
      }
      assert table[..headerLen - MINIMUM_HEADER_LEN] == table[..];
      options := Got(table[..]);
    }
  }

  datatype Status = Ready | Incomplete | Rejected | Crashed

  /** The first four bytes, without taking them off the queue. */
  method PeekFour(buffer: RecycleByteBuffer) returns (first4Bytes: seq<byte>)
    requires buffer.Valid() && |buffer.contents| >= 4
    modifies buffer
    ensures buffer.Valid() && buffer.contents == old(buffer.contents)
    ensures first4Bytes == buffer.contents[..4]
  {
    hide RecycleByteBuffer.Valid;
    var dst := new byte[4](_ => 0);
    buffer.Mark();
    var _ := buffer.Read(dst);
    buffer.Recover();
    first4Bytes := dst[..];
  }

  method TakeBytes(buffer: RecycleByteBuffer, n: nat) returns (bytes: seq<byte>)
    requires buffer.Valid() && n <= |buffer.contents|
    modifies buffer
    ensures buffer.Valid()
    ensures bytes == old(buffer.contents)[..n] && buffer.contents == old(buffer.contents)[n..]
  {
    hide RecycleByteBuffer.Valid;
    var dst := new byte[n](_ => 0);
    var _ := buffer.Read(dst);
    bytes := dst[..];
  }

  /** The part of ParseIPFrame that fills in a frame from its bytes. */
  method FillFrame(first4Bytes: seq<byte>, bytes: seq<byte>) returns (frame: Access<IPFrame>)
    requires |first4Bytes| == 4 && HeaderLen(first4Bytes) >= MINIMUM_HEADER_LEN && |bytes| == TotalLen(first4Bytes)
    ensures frame.Panic? <==> Fill(first4Bytes, bytes).Panic?
    ensures frame.Got? ==> fresh(frame.value) && Fill(first4Bytes, bytes) == Got(frame.value.Value())
  {
    hide WordAt;
    hide At;
    hide Cut;
    hide OffsetOf;
    var headerLen, totalLen := HeaderLen(first4Bytes), TotalLen(first4Bytes);
    var identification :- WordAt(bytes, 4);
    var flagByte :- At(bytes, 6);
    var low :- At(bytes, 7);
    var ttl :- At(bytes, 8);
    var protocol :- At(bytes, 9);
    var headerCheckSum :- WordAt(bytes, 10);
    var source :- Cut(bytes, 12, 16);
    var target :- Cut(bytes, 16, 20);
    var options :- ReadOptions(bytes, headerLen);
    var payload :- Cut(bytes, headerLen * 4, totalLen);
    var filled := new IPFrame(
      Frame(first4Bytes[0] / 16, headerLen, first4Bytes[1], totalLen, identification, flagByte / 32, OffsetOf(flagByte, low),
            ttl, protocol, headerCheckSum, source, target, options, payload));
    return Got(filled);
  }

  /** Takes one frame off the front of the buffer. Every outcome but `Ready` and `Crashed` leaves
      the queue as it was. `Crashed` stands for the run-time panic of an access out of range. */
  method ParseIPFrame(buffer: RecycleByteBuffer) returns (status: Status, frame: IPFrame?)
    requires buffer.Valid()
    modifies buffer
    ensures buffer.Valid()
    ensures status.Ready? <==> frame != null
    ensures frame != null ==> fresh(frame)
    ensures match ParseBytes(old(buffer.contents))
            case NeedMore => status == Incomplete && buffer.contents == old(buffer.contents)
            case BadHeader => status == Rejected && buffer.contents == old(buffer.contents)
            case Crash(n) => n <= |old(buffer.contents)| && status == Crashed
                             && buffer.contents == old(buffer.contents)[n..]
            case Parsed(f, n) => status == Ready && frame != null && frame.Value() == f
                                 && buffer.contents == old(buffer.contents)[n..]
  {
    hide RecycleByteBuffer.Valid;
    hide Fill;
    frame := null;
    if buffer.readableBytes < 4 {
      return Incomplete, null;
    }
    var first4Bytes := PeekFour(buffer);
    var headerLen := first4Bytes[0] % 16;
    if headerLen < MINIMUM_HEADER_LEN {
      return Rejected, null;
    }
    if buffer.readableBytes < headerLen * 4 {
      return Incomplete, null;
    }
    var totalLen := BytesToUint16(first4Bytes, 2);
    if buffer.readableBytes < totalLen {
      return Incomplete, null;
    }
    var bytes := TakeBytes(buffer, totalLen);
    var filled := FillFrame(first4Bytes, bytes);
    if filled.Panic? {
      return Crashed, null;
    }
    return Ready, filled.value;
  }
}
