/** The reassembly loops of pkg/util/tunutils/tun.go (TunReceiveLoop, TunWriteLoop, DialTun): write a
    chunk into the circular buffer, then parse and print frames until the parser wants more. The
    device, the pipe and the stream are the sequence of chunks read; what is sent on is the
    sequence of byte strings emitted. */
module Tun {
  import opened Bytes
  import opened FrameCodec
  import opened IPFrames
  import opened RecycleBuffer

  /** What a stretch of the loop emits, what it leaves in the buffer, and whether it survives. */
  datatype Pumped = Pumped(emitted: seq<seq<byte>>, rest: seq<byte>, alive: bool)

  datatype Step =
    | Wait                                         // the parser wants more
    | Discard                                      // a bad header: the buffer is cleaned
    | Die                                          // the parser crashes
    | Emit(bytes: seq<byte>, remaining: seq<byte>)

  /** One round of the inner loop on a buffer that holds `q`. */
  ghost function NextStep(q: seq<byte>): (s: Step)
    ensures s.Emit? ==> |s.remaining| + 20 <= |q|
  {
    match ParseBytes(q)
    case NeedMore => Wait
    case BadHeader => Discard
    case Crash(n) => Die
    case Parsed(f, n) => Emit(Encode(f), q[n..])
  }

  /** The inner loop on a buffer that holds `q`. */
  ghost function Drain(q: seq<byte>): (d: Pumped)
    ensures |d.rest| <= |q|
    decreases |q|
  {
    match NextStep(q)
    case Wait => Pumped([], q, true)
    case Discard => Pumped([], [], true)
    case Die => Pumped([], [], false)
    case Emit(bytes, remaining) => var d := Drain(remaining); Pumped([bytes] + d.emitted, d.rest, d.alive)
  }

  /** What Write leaves of the queue `q` and the chunk. */
  ghost function Filled(capacity: nat, q: seq<byte>, chunk: seq<byte>): (r: seq<byte>)
    requires |q| <= capacity
    ensures |r| <= capacity
  {
    q + chunk[..Min(|chunk|, capacity - |q|)]
  }

  /** The outer loop: every chunk read is written, as far as it fits, and drained. */
  ghost function Pump(capacity: nat, q: seq<byte>, chunks: seq<seq<byte>>): (p: Pumped)
    requires |q| <= capacity
    decreases |chunks|
  {
    if chunks == [] then Pumped([], q, true)
    else
      var d := Drain(Filled(capacity, q, chunks[0]));
      if !d.alive then d
      else var p := Pump(capacity, d.rest, chunks[1..]); Pumped(d.emitted + p.emitted, p.rest, p.alive)
  }

  /** One round of the inner loop. */
  method PumpFrame(buffer: RecycleByteBuffer) returns (more: bool, alive: bool, bytes: seq<byte>)
    requires buffer.Valid()
    modifies buffer
    ensures buffer.Valid()
    ensures match NextStep(old(buffer.contents))
            case Wait => !more && alive && buffer.contents == old(buffer.contents)
            case Discard => !more && alive && buffer.contents == []
            case Die => !more && !alive
            case Emit(b, remaining) => more && alive && bytes == b && buffer.contents == remaining
  {
    hide RecycleByteBuffer.Valid;
    more, alive, bytes := false, true, [];
    var status, frame := ParseIPFrame(buffer);
    if status == Crashed {
      alive := false;
    } else if status == Rejected {
      buffer.Clean();
    } else if frame != null {
      bytes := frame.ToBytes();
      more := true;
    }
  }

  /** The inner loop, which ends because each frame takes at least 20 bytes off the queue. */
  method DrainBuffer(buffer: RecycleByteBuffer) returns (emitted: seq<seq<byte>>, alive: bool)
    requires buffer.Valid()
    modifies buffer
    ensures buffer.Valid()
    ensures var d := Drain(old(buffer.contents));
            emitted == d.emitted && alive == d.alive && (alive ==> buffer.contents == d.rest)
  {
    hide RecycleByteBuffer.Valid;
    hide NextStep;
    hide Drain;
    ghost var whole := Drain(buffer.contents);
    emitted, alive := [], true;
    var more := true;
    while more
      invariant buffer.Valid()
      invariant if more then
                  alive && var d := Drain(buffer.contents);
                  whole == Pumped(emitted + d.emitted, d.rest, d.alive)
                else
                  emitted == whole.emitted && alive == whole.alive && (alive ==> buffer.contents == whole.rest)
      decreases more, |buffer.contents|
    {
      ghost var q, before := buffer.contents, emitted;
      DrainUnfolds(q);
      var bytes;
      more, alive, bytes := PumpFrame(buffer);
      if more {
        emitted := emitted + [bytes];
        assert before + Drain(q).emitted == emitted + Drain(buffer.contents).emitted;
      }
    }
  }

  lemma DrainUnfolds(q: seq<byte>)
    ensures Drain(q) ==
              match NextStep(q)
              case Wait => Pumped([], q, true)
              case Discard => Pumped([], [], true)
              case Die => Pumped([], [], false)
              case Emit(bytes, remaining) =>
                var d := Drain(remaining);
                Pumped([bytes] + d.emitted, d.rest, d.alive)
  {
  }

  method PumpChunk(buffer: RecycleByteBuffer, chunk: seq<byte>) returns (emitted: seq<seq<byte>>, alive: bool)
    requires buffer.Valid()
    modifies buffer, buffer.mem
    ensures buffer.Valid()
    ensures var d := Drain(Filled(buffer.capacity, old(buffer.contents), chunk));
            emitted == d.emitted && alive == d.alive && (alive ==> buffer.contents == d.rest)
  {
    hide RecycleByteBuffer.Valid;
    ghost var filled := Filled(buffer.capacity, buffer.contents, chunk);
    buffer.Write(chunk);
    assert buffer.contents == filled;
    emitted, alive := DrainBuffer(buffer);
  }

  /** The endless loop, up to the point where the given chunks have been read. */
  method PumpAll(buffer: RecycleByteBuffer, chunks: seq<seq<byte>>) returns (emitted: seq<seq<byte>>, alive: bool)
    requires buffer.Valid()
    modifies buffer, buffer.mem
    ensures buffer.Valid()
    ensures var p := Pump(buffer.capacity, old(buffer.contents), chunks);
            emitted == p.emitted && alive == p.alive && (alive ==> buffer.contents == p.rest)
  {
    emitted, alive := [], true;
    ghost var whole := Pump(buffer.capacity, buffer.contents, chunks);
    hide RecycleByteBuffer.Valid;
    hide Drain;
    hide Filled;
    hide Pump;
    assert chunks[0..] == chunks;
    for i := 0 to |chunks|
      invariant buffer.Valid() && alive
      invariant var p := Pump(buffer.capacity, buffer.contents, chunks[i..]);
                emitted + p.emitted == whole.emitted && p.rest == whole.rest && p.alive == whole.alive
    {
      assert chunks[i..][0] == chunks[i] && chunks[i..][1..] == chunks[i + 1..];
      PumpUnfolds(buffer.capacity, buffer.contents, chunks[i..]);
      var more, ok := PumpChunk(buffer, chunks[i]);
      if !ok {
        return emitted + more, false;
      }
      Associate(emitted, more, Pump(buffer.capacity, buffer.contents, chunks[i + 1..]).emitted);
      emitted := emitted + more;
    }
    PumpUnfolds(buffer.capacity, buffer.contents, chunks[|chunks|..]);
  }

  lemma Associate(a: seq<seq<byte>>, b: seq<seq<byte>>, c: seq<seq<byte>>)
    ensures a + (b + c) == (a + b) + c
  {
  }

  lemma PumpUnfolds(capacity: nat, q: seq<byte>, chunks: seq<seq<byte>>)
    requires |q| <= capacity
    ensures chunks == [] ==> Pump(capacity, q, chunks) == Pumped([], q, true)
    ensures chunks != [] ==>
              var d := Drain(Filled(capacity, q, chunks[0]));
              Pump(capacity, q, chunks) ==
                if !d.alive then d
                else
                  var p := Pump(capacity, d.rest, chunks[1..]);
                  Pumped(d.emitted + p.emitted, p.rest, p.alive)
  {
  }
}
