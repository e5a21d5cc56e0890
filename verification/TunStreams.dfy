/** Streams through the reassembly loops: when the cut into chunks does not matter, and what becomes of
    packets, of chunks that do not fit and of bytes that are no packets. */
module TunStreams {
  import opened Bytes
  import opened FrameCodec
  import opened Tun

  ghost function Flat(parts: seq<seq<byte>>): (s: seq<byte>) {
    if parts == [] then [] else parts[0] + Flat(parts[1..])
  }

  /** What ends the draining of `q`: waiting for more, a bad header or a crash. */
  ghost function Meets(q: seq<byte>): (s: Step)
    ensures !s.Emit?
    decreases |q|
  {
    var s := NextStep(q);
    if s.Emit? then Meets(s.remaining) else s
  }

  /** No bad header and no crash comes up while `q` is drained. */
  ghost predicate Clean(q: seq<byte>) {
    Meets(q) == Wait
  }

  /** Every chunk fits the space free at the time it is written. */
  ghost predicate Fits(capacity: nat, q: seq<byte>, chunks: seq<seq<byte>>)
    decreases |chunks|
  {
    chunks == [] || (|q| + |chunks[0]| <= capacity && Fits(capacity, Drain(q + chunks[0]).rest, chunks[1..]))
  }

  lemma StepExactly(q: seq<byte>)
    ensures NextStep(q) ==
              if |q| < 4 then Wait
              else if HeaderLen(q) < MINIMUM_HEADER_LEN then Discard
              else if |q| < 4 * HeaderLen(q) || |q| < TotalLen(q) then Wait
              else if TotalLen(q) < 4 * HeaderLen(q) then Die
              else Emit(Reprint(q[..TotalLen(q)]), q[TotalLen(q)..])
  {
    ParseExactly(q);
    hide ParseBytes;
    hide Decode;
    hide Encode;
  }

  /** More bytes change nothing about a step that does not wait for them. */
  lemma StepIsStable(q: seq<byte>, more: seq<byte>)
    requires NextStep(q) != Wait
    ensures NextStep(q + more) ==
              if NextStep(q).Emit? then Emit(NextStep(q).bytes, NextStep(q).remaining + more) else NextStep(q)
  {
    hide Reprint;
    var all := q + more;
    StepExactly(q);
    StepExactly(all);
    hide NextStep;
    assert |q| >= 4;
    assert all[0] == q[0] && all[2] == q[2] && all[3] == q[3];
    if NextStep(q).Emit? {
      var n := TotalLen(q);
      assert all[..n] == q[..n] && all[n..] == q[n..] + more;
    }
  }

  /** Draining what has arrived so far, and later the remainder together with what follows, is
      draining everything at once. */
  lemma {:induction false} DrainIncrementally(q: seq<byte>, more: seq<byte>)
    requires Clean(q)
    ensures var d := Drain(q); var e := Drain(d.rest + more);
            && d.alive && Meets(d.rest + more) == Meets(q + more)
            && Drain(q + more) == Pumped(d.emitted + e.emitted, e.rest, e.alive)
    decreases |q|
  {
    hide NextStep;
    var s := NextStep(q);
    if s.Wait? {
      assert [] + Drain(q + more).emitted == Drain(q + more).emitted;
    } else {
      StepIsStable(q, more);
      DrainIncrementally(s.remaining, more);
      var d := Drain(s.remaining);
      var e := Drain(d.rest + more);
      assert [s.bytes] + (d.emitted + e.emitted) == ([s.bytes] + d.emitted) + e.emitted;
    }
  }

  /** A bad header throws away all that follows it in the buffer, and after a crash nothing follows. */
  lemma {:induction false} NothingFollows(q: seq<byte>, more: seq<byte>)
    requires !Clean(q)
    ensures Meets(q + more) == Meets(q) && Drain(q + more) == Drain(q)
    ensures Drain(q).rest == [] && Drain(q).alive == Meets(q).Discard?
    decreases |q|
  {
    hide NextStep;
    StepIsStable(q, more);
    if NextStep(q).Emit? {
      NothingFollows(NextStep(q).remaining, more);
    }
  }

  /** Behind the first chunk on which draining does not end in waiting: a crash ends everything, and behind
      a bad header the chunks that follow come to nothing on their own. */
  ghost predicate Harmless(capacity: nat, q: seq<byte>, chunks: seq<seq<byte>>)
    decreases |chunks|
  {
    chunks == [] ||
    match Meets(q + chunks[0])
    case Wait => Harmless(capacity, Drain(q + chunks[0]).rest, chunks[1..])
    case Discard => Pump(capacity, [], chunks[1..]) == Pumped([], [], true)
    case Die => true
  }

  /** Chunking on any stream at all, malformed or not: with chunks that fit, the loop behaves as if the
      whole stream had arrived at once if and only if the cut is harmless. */
  lemma {:induction false} CutDoesNotMatterExactlyWhen(capacity: nat, q: seq<byte>, chunks: seq<seq<byte>>)
    requires |q| <= capacity && Drain(q) == Pumped([], q, true) && Fits(capacity, q, chunks)
    ensures Pump(capacity, q, chunks) == Drain(q + Flat(chunks)) <==> Harmless(capacity, q, chunks)
    decreases |chunks|
  {
    hide Drain;
    hide Meets;
    if chunks == [] {
      assert q + Flat(chunks) == q;
    } else {
      var c, rest := chunks[0], chunks[1..];
      assert q + Flat(chunks) == (q + c) + Flat(rest);
      assert Filled(capacity, q, c) == q + c;
      var d := Drain(q + c);
      if Clean(q + c) {
        DrainIncrementally(q + c, Flat(rest));
        DrainTwice(q + c);
        CutDoesNotMatterExactlyWhen(capacity, d.rest, rest);
        var p, e := Pump(capacity, d.rest, rest), Drain(d.rest + Flat(rest));
        SameTail(d.emitted, p.emitted, e.emitted);
      } else {
        NothingFollows(q + c, Flat(rest));
        if d.alive {
          SameTail(d.emitted, Pump(capacity, [], rest).emitted, []);
          assert d.emitted + [] == d.emitted;
        }
      }
    }
  }

  lemma SameTail(a: seq<seq<byte>>, b: seq<seq<byte>>, c: seq<seq<byte>>)
    ensures a + b == a + c <==> b == c
  {
    if a + b == a + c {
      assert b == (a + b)[|a|..] && c == (a + c)[|a|..];
    }
  }

  /** No cut of a clean stream does harm. */
  lemma {:induction false} CleanIsHarmless(capacity: nat, q: seq<byte>, chunks: seq<seq<byte>>)
    requires Clean(q + Flat(chunks))
    ensures Harmless(capacity, q, chunks)
    decreases |chunks|
  {
    hide Drain;
    hide Meets;
    if chunks != [] {
      var c, more := chunks[0], Flat(chunks[1..]);
      assert q + Flat(chunks) == (q + c) + more;
      CleanPrefix(q + c, more);
      CleanIsHarmless(capacity, Drain(q + c).rest, chunks[1..]);
    }
  }

  lemma CleanPrefix(q: seq<byte>, more: seq<byte>)
    requires Clean(q + more)
    ensures Clean(q) && Drain(q).alive && Clean(Drain(q).rest + more)
  {
    hide Drain;
    hide Meets;
    if !Clean(q) {
      NothingFollows(q, more);
    }
    DrainIncrementally(q, more);
  }

  /** A drained queue has nothing more to emit. */
  lemma {:induction false} DrainTwice(q: seq<byte>)
    requires Drain(q).alive
    ensures var rest := Drain(q).rest; Drain(rest) == Pumped([], rest, true)
    decreases |q|
  {
    var s := NextStep(q);
    EmptyWaits();
    hide NextStep;
    if s.Emit? {
      DrainTwice(s.remaining);
    }
  }

  // ----- What does not fit is lost

  ghost function Size(d: Pumped): (n: nat) {
    |Flat(d.emitted)| + |d.rest|
  }

  lemma {:induction false} FlatSize(a: seq<seq<byte>>, b: seq<seq<byte>>)
    ensures |Flat(a + b)| == |Flat(a)| + |Flat(b)|
  {
    if a == [] {
      assert a + b == b;
    } else {
      FlatSize(a[1..], b);
      assert (a + b)[0] == a[0] && (a + b)[1..] == a[1..] + b;
    }
  }

  lemma EmittedSize(q: seq<byte>)
    requires NextStep(q).Emit?
    ensures |NextStep(q).bytes| + |NextStep(q).remaining| == |q|
  {
    StepExactly(q);
    hide NextStep;
    ReprintChangesOnlyChecksum(q[..TotalLen(q)]);
    hide Reprint;
  }

  /** Draining makes no bytes, and on a clean queue it loses none. */
  lemma {:induction false} DrainedSize(q: seq<byte>)
    ensures Size(Drain(q)) <= |q|
    ensures Clean(q) ==> Size(Drain(q)) == |q|
    decreases |q|
  {
    var s := NextStep(q);
    if s.Emit? {
      EmittedSize(q);
      hide NextStep;
      DrainedSize(s.remaining);
      var d := Drain(s.remaining);
      assert ([s.bytes] + d.emitted)[1..] == d.emitted;
    } else {
      hide NextStep;
    }
  }

  lemma {:induction false} PumpedSize(capacity: nat, q: seq<byte>, chunks: seq<seq<byte>>)
    requires |q| <= capacity
    ensures Size(Pump(capacity, q, chunks)) <= |q| + |Flat(chunks)|
    decreases |chunks|
  {
    hide Drain;
    if chunks != [] {
      var d := Drain(Filled(capacity, q, chunks[0]));
      DrainedSize(Filled(capacity, q, chunks[0]));
      if d.alive {
        PumpedSize(capacity, d.rest, chunks[1..]);
        FlatSize(d.emitted, Pump(capacity, d.rest, chunks[1..]).emitted);
      }
    }
  }

  /** A chunk that does not fit loses its end for good. */
  lemma {:induction false} UnfittingChunks(capacity: nat, q: seq<byte>, chunks: seq<seq<byte>>)
    requires |q| <= capacity && Clean(q + Flat(chunks)) && !Fits(capacity, q, chunks)
    ensures Size(Pump(capacity, q, chunks)) < |q| + |Flat(chunks)|
    decreases |chunks|
  {
    hide Drain;
    hide Clean;
    var c, filled := chunks[0], Filled(capacity, q, chunks[0]);
    var d := Drain(filled);
    DrainedSize(filled);
    if |q| + |c| <= capacity {
      assert filled == q + c && q + Flat(chunks) == (q + c) + Flat(chunks[1..]);
      CleanPrefix(q + c, Flat(chunks[1..]));
      UnfittingChunks(capacity, d.rest, chunks[1..]);
    } else if d.alive {
      PumpedSize(capacity, d.rest, chunks[1..]);
    }
    if d.alive {
      FlatSize(d.emitted, Pump(capacity, d.rest, chunks[1..]).emitted);
    }
  }

  /** Chunking independence on good input, exactly: on a stream in which nothing is malformed, the loop behaves as if
      the whole stream had arrived at once if and only if every chunk fits when it is written. */
  lemma ChunkingIsIrrelevantExactlyWhen(capacity: nat, q: seq<byte>, chunks: seq<seq<byte>>)
    requires |q| <= capacity && Drain(q) == Pumped([], q, true) && Clean(q + Flat(chunks))
    ensures Pump(capacity, q, chunks) == Drain(q + Flat(chunks)) <==> Fits(capacity, q, chunks)
  {
    hide Drain;
    hide Clean;
    hide Pump;
    hide Fits;
    hide Harmless;
    if Fits(capacity, q, chunks) {
      CleanIsHarmless(capacity, q, chunks);
      CutDoesNotMatterExactlyWhen(capacity, q, chunks);
    } else {
      UnfittingChunks(capacity, q, chunks);
      DrainedSize(q + Flat(chunks));
    }
  }

  // ----- Streams of whole packets

  ghost predicate Packets(ps: seq<seq<byte>>) {
    forall p <- ps :: WellFormedPacket(p)
  }

  ghost function ReprintAll(ps: seq<seq<byte>>): (rs: seq<seq<byte>>)
    requires Packets(ps)
  {
    if ps == [] then [] else [Reprint(ps[0])] + ReprintAll(ps[1..])
  }

  /** How many of the packets lie entirely within the first `n` bytes of the stream. */
  ghost function Complete(ps: seq<seq<byte>>, n: nat): (k: nat)
    ensures k <= |ps|
  {
    if ps == [] || n < |ps[0]| then 0 else 1 + Complete(ps[1..], n - |ps[0]|)
  }

  lemma ProperPrefixWaits(p: seq<byte>, q: seq<byte>)
    requires WellFormedPacket(p) && q < p
    ensures NextStep(q) == Wait
  {
    StepExactly(q);
    hide NextStep;
    hide Reprint;
  }

  lemma WholePacketIsEmitted(p: seq<byte>, more: seq<byte>)
    requires WellFormedPacket(p)
    ensures NextStep(p + more) == Emit(Reprint(p), more)
  {
    var all := p + more;
    StepExactly(all);
    hide NextStep;
    hide Reprint;
    assert all[0] == p[0] && all[2] == p[2] && all[3] == p[3];
    assert all[..|p|] == p && all[|p|..] == more;
  }

  /** Whole packets followed by bytes that wait for more drain to the packets. */
  lemma {:induction false} DrainWholePackets(ps: seq<seq<byte>>, tail: seq<byte>)
    requires Packets(ps) && NextStep(tail) == Wait
    ensures Clean(Flat(ps) + tail)
    ensures Drain(Flat(ps) + tail) == Pumped(ReprintAll(ps), tail, true)
  {
    hide NextStep;
    hide Reprint;
    hide WellFormedPacket;
    if ps == [] {
      assert Flat(ps) + tail == tail;
    } else {
      var more := Flat(ps[1..]) + tail;
      assert Flat(ps) + tail == ps[0] + more;
      DrainWholePackets(ps[1..], tail);
      WholePacketIsEmitted(ps[0], more);
    }
  }

  /** The bytes of the next packet that have arrived after `n` bytes of the stream. */
  ghost function Tail(ps: seq<seq<byte>>, s: seq<byte>): (t: seq<byte>) {
    if ps == [] || |s| < |ps[0]| then s else Tail(ps[1..], s[|ps[0]|..])
  }

  /** A prefix of the stream is its complete packets and a proper prefix of the next one. */
  lemma {:induction false} SplitPrefix(ps: seq<seq<byte>>, s: seq<byte>)
    requires s <= Flat(ps)
    ensures var k := Complete(ps, |s|);
            && Flat(ps[..k]) + Tail(ps, s) == s
            && (if k == |ps| then Tail(ps, s) == [] else Tail(ps, s) < ps[k])
  {
    if ps == [] || |s| < |ps[0]| {
      assert ps[..0] == [];
    } else {
      var p, t := ps[0], s[|ps[0]|..];
      assert Flat(ps) == p + Flat(ps[1..]);
      SkipPart(p, Flat(ps[1..]), s);
      SplitPrefix(ps[1..], t);
      var k := Complete(ps[1..], |t|);
      assert Complete(ps, |s|) == k + 1 && Tail(ps, s) == Tail(ps[1..], t);
      FlatFront(ps, k);
      hide Flat;
      hide Tail;
      hide Complete;
      assert Flat(ps[..k + 1]) + Tail(ps, s) == p + (Flat(ps[1..][..k]) + Tail(ps[1..], t));
    }
  }

  lemma SkipPart(p: seq<byte>, rest: seq<byte>, s: seq<byte>)
    requires s <= p + rest && |p| <= |s|
    ensures s == p + s[|p|..] && s[|p|..] <= rest
  {
  }

  lemma FlatFront(ps: seq<seq<byte>>, k: nat)
    requires k < |ps|
    ensures Flat(ps[..k + 1]) == ps[0] + Flat(ps[1..][..k])
  {
    var front := ps[..k + 1];
    assert front[0] == ps[0] && front[1..] == ps[1..][..k];
  }

  /** A prefix of a stream of packets drains to the packets it completes, in order and once each,
      and leaves the bytes of the next packet that have arrived. */
  lemma DrainPackets(ps: seq<seq<byte>>, s: seq<byte>)
    requires Packets(ps) && s <= Flat(ps)
    ensures Clean(s)
    ensures var k := Complete(ps, |s|);
            && Drain(s) == Pumped(ReprintAll(ps[..k]), Tail(ps, s), true)
            && Flat(ps[..k]) + Tail(ps, s) == s
            && (if k == |ps| then Tail(ps, s) == [] else Tail(ps, s) < ps[k])
  {
    hide NextStep;
    hide Drain;
    hide Flat;
    SplitPrefix(ps, s);
    var k := Complete(ps, |s|);
    EmptyWaits();
    if k < |ps| {
      ProperPrefixWaits(ps[k], Tail(ps, s));
    }
    DrainWholePackets(ps[..k], Tail(ps, s));
  }

  lemma EmptyWaits()
    ensures NextStep([]) == Wait && Drain([]) == Pumped([], [], true)
  {
    StepExactly([]);
    hide NextStep;
  }

  /** At every read there is room for the chunk beside the bytes of the packet under way: what has
      arrived of the packet that the chunks so far have cut. */
  ghost predicate Room(capacity: nat, ps: seq<seq<byte>>, chunks: seq<seq<byte>>) {
    forall i :: 0 <= i < |chunks| ==> |Tail(ps, Flat(chunks[..i]))| + |chunks[i]| <= capacity
  }

  /** Draining the packet under way together with the next bytes leaves the packet then under way. */
  lemma DrainTail(ps: seq<seq<byte>>, s: seq<byte>, c: seq<byte>)
    requires Packets(ps) && s + c <= Flat(ps)
    ensures Drain(Tail(ps, s) + c).rest == Tail(ps, s + c)
  {
    hide Drain;
    hide Tail;
    hide Flat;
    assert s <= s + c;
    DrainPackets(ps, s);
    DrainPackets(ps, s + c);
    DrainIncrementally(s, c);
  }

  lemma {:induction false} FitsMeansRoomAfter(capacity: nat, ps: seq<seq<byte>>, s: seq<byte>, chunks: seq<seq<byte>>)
    requires Packets(ps) && s + Flat(chunks) <= Flat(ps)
    ensures Fits(capacity, Tail(ps, s), chunks) <==>
              forall i :: 0 <= i < |chunks| ==> |Tail(ps, s + Flat(chunks[..i]))| + |chunks[i]| <= capacity
    decreases |chunks|
  {
    hide Tail;
    hide Drain;
    hide Packets;
    if chunks != [] {
      var c, rest := chunks[0], chunks[1..];
      assert s + Flat(chunks) == (s + c) + Flat(rest);
      assert s + c <= s + Flat(chunks);
      DrainTail(ps, s, c);
      FitsMeansRoomAfter(capacity, ps, s + c, rest);
      assert chunks[..0] == [] && s + Flat(chunks[..0]) == s;
      forall i | 0 <= i < |rest|
        ensures s + Flat(chunks[..i + 1]) == (s + c) + Flat(rest[..i]) && chunks[i + 1] == rest[i]
      {
        FlatFront(chunks, i);
      }
      ShiftRoom(capacity, ps, s, chunks);
    }
  }

  /** Splitting the room for all chunks into that for the first and that for the rest. */
  lemma ShiftRoom(capacity: nat, ps: seq<seq<byte>>, s: seq<byte>, chunks: seq<seq<byte>>)
    requires chunks != [] && s + Flat(chunks[..0]) == s
    requires forall i :: 0 <= i < |chunks| - 1 ==> s + Flat(chunks[..i + 1]) == (s + chunks[0]) + Flat(chunks[1..][..i])
    ensures (forall i :: 0 <= i < |chunks| ==> |Tail(ps, s + Flat(chunks[..i]))| + |chunks[i]| <= capacity) <==>
              && |Tail(ps, s)| + |chunks[0]| <= capacity
              && forall i :: 0 <= i < |chunks[1..]| ==> |Tail(ps, (s + chunks[0]) + Flat(chunks[1..][..i]))| + |chunks[1..][i]| <= capacity
  {
    hide Tail;
    hide Flat;
    var rest := chunks[1..];
    if forall i :: 0 <= i < |chunks| ==> |Tail(ps, s + Flat(chunks[..i]))| + |chunks[i]| <= capacity {
      forall i | 0 <= i < |rest|
        ensures |Tail(ps, (s + chunks[0]) + Flat(rest[..i]))| + |rest[i]| <= capacity
      {
        assert |Tail(ps, s + Flat(chunks[..i + 1]))| + |chunks[i + 1]| <= capacity;
      }
    }
    if && |Tail(ps, s)| + |chunks[0]| <= capacity
       && forall i :: 0 <= i < |rest| ==> |Tail(ps, (s + chunks[0]) + Flat(rest[..i]))| + |rest[i]| <= capacity {
      forall i | 0 <= i < |chunks|
        ensures |Tail(ps, s + Flat(chunks[..i]))| + |chunks[i]| <= capacity
      {
        if i > 0 {
          assert |Tail(ps, (s + chunks[0]) + Flat(rest[..i - 1]))| + |rest[i - 1]| <= capacity;
        }
      }
    }
  }

  /** On a stream of packets, chunks fit exactly if there is room by packet boundaries. */
  lemma FitsMeansRoom(capacity: nat, ps: seq<seq<byte>>, chunks: seq<seq<byte>>)
    requires Packets(ps) && Flat(chunks) <= Flat(ps)
    ensures Fits(capacity, [], chunks) <==> Room(capacity, ps, chunks)
  {
    assert [] + Flat(chunks) == Flat(chunks);
    FitsMeansRoomAfter(capacity, ps, [], chunks);
    assert Tail(ps, []) == [] by {
      DrainPackets(ps, []);
    }
    assert forall i :: 0 <= i < |chunks| ==> [] + Flat(chunks[..i]) == Flat(chunks[..i]);
    hide Flat;
    hide Tail;
    hide Fits;
  }

  /** The reassembly theorem: any packets, concatenated and cut into chunks anywhere, come out
      exactly as they went in but for their checksums, in order and once each, and what is left in
      the buffer is a proper prefix of the next packet, if and only if there is room at every read. */
  lemma Reassembly(capacity: nat, ps: seq<seq<byte>>, chunks: seq<seq<byte>>)
    requires Packets(ps) && Flat(chunks) <= Flat(ps)
    ensures var k := Complete(ps, |Flat(chunks)|); var p := Pump(capacity, [], chunks);
            && (Room(capacity, ps, chunks) <==> p == Pumped(ReprintAll(ps[..k]), Tail(ps, Flat(chunks)), true))
            && Flat(ps[..k]) + Tail(ps, Flat(chunks)) == Flat(chunks)
            && (if k == |ps| then Tail(ps, Flat(chunks)) == [] else Tail(ps, Flat(chunks)) < ps[k])
  {
    DrainPackets(ps, Flat(chunks));
    FitsMeansRoom(capacity, ps, chunks);
    assert [] + Flat(chunks) == Flat(chunks);
    EmptyWaits();
    hide Drain;
    hide Clean;
    hide Pump;
    hide Fits;
    hide Room;
    ChunkingIsIrrelevantExactlyWhen(capacity, [], chunks);
  }

  /** All packets delivered, with room at every read: all packets out, nothing left. */
  lemma ReassemblyOfAll(capacity: nat, ps: seq<seq<byte>>, chunks: seq<seq<byte>>)
    requires Packets(ps) && Flat(chunks) == Flat(ps) && Room(capacity, ps, chunks)
    ensures Pump(capacity, [], chunks) == Pumped(ReprintAll(ps), [], true)
  {
    Reassembly(capacity, ps, chunks);
    CompleteAll(ps);
    assert ps[..|ps|] == ps;
  }

  lemma {:induction false} CompleteAll(ps: seq<seq<byte>>)
    ensures Complete(ps, |Flat(ps)|) == |ps|
  {
    if ps != [] {
      CompleteAll(ps[1..]);
    }
  }

  /** A device that delivers whole packets per read never meets a full buffer: reads no larger than
      the buffer always fit. */
  lemma {:induction false} WholeReadsFit(capacity: nat, batches: seq<seq<seq<byte>>>, chunks: seq<seq<byte>>)
    requires |batches| == |chunks|
    requires forall i :: 0 <= i < |batches| ==> Packets(batches[i]) && chunks[i] == Flat(batches[i]) && |chunks[i]| <= capacity
    ensures Fits(capacity, [], chunks)
    decreases |chunks|
  {
    if chunks != [] {
      DrainPackets(batches[0], chunks[0]);
      CompleteAll(batches[0]);
      assert [] + chunks[0] == chunks[0];
      WholeReadsFit(capacity, batches[1..], chunks[1..]);
    }
  }

  /** Where there is no room at some read, bytes of the packets are lost for good. */
  lemma NoRoomLoses(capacity: nat, ps: seq<seq<byte>>, chunks: seq<seq<byte>>)
    requires Packets(ps) && Flat(chunks) <= Flat(ps) && !Room(capacity, ps, chunks)
    ensures Size(Pump(capacity, [], chunks)) < |Flat(chunks)| == Size(Drain(Flat(chunks)))
  {
    hide Room;
    DrainPackets(ps, Flat(chunks));
    FitsMeansRoom(capacity, ps, chunks);
    assert [] + Flat(chunks) == Flat(chunks);
    hide Flat;
    hide Drain;
    hide Clean;
    hide Pump;
    hide Fits;
    UnfittingChunks(capacity, [], chunks);
    DrainedSize(Flat(chunks));
  }

  const SMALL_PACKET: seq<byte> :=
    [0x45, 0, 0, 20, 0, 0, 0, 0, 0, 0, 0, 0, 0, 0, 0, 0, 0, 0, 0, 0]

  /** A stream of small packets. */
  ghost function Small(n: nat): (ps: seq<seq<byte>>)
    ensures |ps| == n && Packets(ps) && forall i :: 0 <= i < n ==> ps[i] == SMALL_PACKET
  {
    seq(n, _ => SMALL_PACKET)
  }

  lemma {:induction false} SmallSize(ps: seq<seq<byte>>)
    requires forall i :: 0 <= i < |ps| ==> ps[i] == SMALL_PACKET
    ensures |Flat(ps)| == 20 * |ps|
  {
    if ps != [] {
      SmallSize(ps[1..]);
    }
  }

  /** The loops of TunReceiveLoop and DialTun read as many bytes at a time as the buffer holds. A read of
      part of a packet followed by a full-size read is too much: bytes of the stream are lost, at any
      capacity, and packets of the stream do not come out as they went in. */
  lemma FullReadAfterPartialPacket(capacity: nat)
    requires capacity >= 4
    ensures var ps := Small(capacity + 1); var stream := Flat(ps);
            && capacity + 4 <= |stream|
            && var chunks := [stream[..4], stream[4..capacity + 4]];
            && Flat(chunks) <= stream && |chunks[0]| <= capacity && |chunks[1]| == capacity
            && Pump(capacity, [], chunks) != Drain(Flat(chunks))
            && Size(Pump(capacity, [], chunks)) < |Flat(chunks)|
  {
    var ps := Small(capacity + 1);
    var stream := Flat(ps);
    SmallSize(ps);
    var a, b := stream[..4], stream[4..capacity + 4];
    var chunks := [a, b];
    FlatOfTwo(a, b);
    assert a + b == stream[..capacity + 4];
    assert Tail(ps, a) == a;
    var one: seq<seq<byte>> := [a];
    assert chunks[..1] == one && one[1..] == [] && a + [] == a;
    assert Flat(one) == a;
    assert !Room(capacity, ps, chunks) by {
      assert |Tail(ps, Flat(chunks[..1]))| + |chunks[1]| > capacity;
    }
    hide Room;
    hide Tail;
    hide Flat;
    hide Drain;
    hide Pump;
    hide Size;
    NoRoomLoses(capacity, ps, chunks);
  }

  lemma FlatOfTwo(a: seq<byte>, b: seq<byte>)
    ensures Flat([a, b]) == a + b
  {
    var one: seq<seq<byte>> := [b];
    assert [a, b][1..] == one && one[1..] == [] && b + [] == b;
    assert Flat(one) == b;
  }

  /** Bytes that crash the parser stop the loop, however much of the stream is left. */
  lemma ShortLengthStopsTheLoop(capacity: nat, more: seq<seq<byte>>)
    requires capacity >= 20
    ensures Pump(capacity, [], [CRASHING_PACKET] + more) == Pumped([], [], false)
  {
    var chunks := [CRASHING_PACKET] + more;
    assert Filled(capacity, [], chunks[0]) == CRASHING_PACKET;
    ShortLengthCrashes();
  }

  /** Without the assumption of a clean stream chunking does matter: a bad header takes with it
      whatever else is in the buffer, so a packet behind it is lost or not depending on the cut. */
  lemma BadHeaderDropsFollowers(capacity: nat, bad: seq<byte>, good: seq<byte>)
    requires |bad| >= 4 && HeaderLen(bad) < MINIMUM_HEADER_LEN && WellFormedPacket(good)
    requires |bad| + |good| <= capacity
    ensures Fits(capacity, [], [bad + good]) && Fits(capacity, [], [bad, good])
    ensures Pump(capacity, [], [bad + good]).emitted == []
    ensures Pump(capacity, [], [bad, good]).emitted == [Reprint(good)]
  {
    DrainBad(bad, good);
    DrainBad(bad, []);
    DrainGood(good);
    hide HeaderLen;
    hide WellFormedPacket;
    hide Drain;
    hide Pump;
    hide Fits;
    hide Reprint;
    assert bad + [] == bad;
    PumpOne(capacity, bad + good);
    PumpTwo(capacity, bad, good);
  }

  lemma DrainBad(bad: seq<byte>, more: seq<byte>)
    requires |bad| >= 4 && HeaderLen(bad) < MINIMUM_HEADER_LEN
    ensures Drain(bad + more) == Pumped([], [], true)
  {
    StepExactly(bad + more);
    hide NextStep;
  }

  lemma DrainGood(good: seq<byte>)
    requires WellFormedPacket(good)
    ensures Drain(good) == Pumped([Reprint(good)], [], true)
  {
    EmptyWaits();
    WholePacketIsEmitted(good, []);
    hide NextStep;
    hide Reprint;
    hide WellFormedPacket;
    assert good + [] == good;
  }

  lemma PumpOne(capacity: nat, chunk: seq<byte>)
    requires |chunk| <= capacity && Drain(chunk).alive
    ensures Pump(capacity, [], [chunk]) == Drain(chunk) && Fits(capacity, [], [chunk])
  {
    hide Drain;
    assert Filled(capacity, [], chunk) == chunk && [] + chunk == chunk;
    assert [chunk][1..] == [];
  }

  lemma PumpTwo(capacity: nat, first: seq<byte>, second: seq<byte>)
    requires |first| <= capacity && |second| <= capacity
    requires Drain(first) == Pumped([], [], true) && Drain(second).alive
    ensures Pump(capacity, [], [first, second]) == Drain(second) && Fits(capacity, [], [first, second])
  {
    PumpOne(capacity, second);
    hide Drain;
    assert Filled(capacity, [], first) == first && [] + first == first;
    assert [first, second][1..] == [second];
  }
}
