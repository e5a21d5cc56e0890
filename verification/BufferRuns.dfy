/** Whole runs of the circular buffer against a bounded queue with one bookmark. */
module BufferRuns {
  import opened Bytes
  import opened RecycleBuffer

  datatype Op = WriteOp(src: seq<byte>) | ReadOp(n: nat) | MarkOp | RecoverOp | CleanOp

  /** The bounded queue: what it holds, what it held at the last mark, and how many bytes have
      been stored since that mark. */
  datatype Fifo = Fifo(capacity: nat, queue: seq<byte>, marking: bool, marked: seq<byte>, stored: nat)

  /** The bytes of `src` that a queue of this state accepts. */
  function Accepted(f: Fifo, src: seq<byte>): (a: seq<byte>)
    requires |f.queue| <= f.capacity
  {
    src[..Min(|src|, f.capacity - |f.queue|)]
  }

  /** What recovering may bring back: as many bytes as were marked, and exactly those that no later write
      has overrun. Without a mark in force, or once the memory has been written all around, any bytes. */
  ghost predicate Recoverable(f: Fifo, found: seq<byte>) {
    && |found| == |f.marked|
    && (f.marking && f.stored <= f.capacity ==>
          forall i :: 0 <= i < |f.marked| && f.stored + |f.marked| <= f.capacity + i ==> found[i] == f.marked[i])
  }

  /** Recovering is exact: after a mark in force, with all that was stored since in the space that was
      free at the mark. */
  predicate Exact(f: Fifo) {
    f.marking && f.stored + |f.marked| <= f.capacity
  }

  /** One operation; `found` is what a recovery brings back. */
  function Next(f: Fifo, op: Op, found: seq<byte>): (g: Fifo)
    requires |f.queue| <= f.capacity && (op.RecoverOp? ==> |found| <= f.capacity)
    ensures |g.queue| <= g.capacity == f.capacity
  {
    match op
    case WriteOp(src) => f.(queue := f.queue + Accepted(f, src), stored := f.stored + |Accepted(f, src)|)
    case ReadOp(n) => f.(queue := f.queue[Min(n, |f.queue|)..])
    case MarkOp => f.(marking := true, marked := f.queue, stored := 0)
    case RecoverOp => f.(queue := found, marking := Exact(f), stored := 0)
    case CleanOp => f.(queue := [], marking := false)
  }

  function Output(f: Fifo, op: Op): (out: seq<byte>) {
    if op.ReadOp? then f.queue[..Min(op.n, |f.queue|)] else []
  }

  /** The operations with what each recovery finds. */
  ghost predicate PossibleRun(f: Fifo, ops: seq<Op>, finds: seq<seq<byte>>)
    requires |f.queue| <= f.capacity && |finds| == |ops|
    decreases |ops|
  {
    ops == [] ||
    ((ops[0].RecoverOp? ==> |finds[0]| <= f.capacity && Recoverable(f, finds[0]))
     && PossibleRun(Next(f, ops[0], finds[0]), ops[1..], finds[1..]))
  }

  ghost function After(f: Fifo, ops: seq<Op>, finds: seq<seq<byte>>): (g: Fifo)
    requires |f.queue| <= f.capacity && |finds| == |ops| && PossibleRun(f, ops, finds)
    ensures |g.queue| <= g.capacity == f.capacity
    decreases |ops|
  {
    if ops == [] then f else After(Next(f, ops[0], finds[0]), ops[1..], finds[1..])
  }

  ghost function Outputs(f: Fifo, ops: seq<Op>, finds: seq<seq<byte>>): (out: seq<byte>)
    requires |f.queue| <= f.capacity && |finds| == |ops| && PossibleRun(f, ops, finds)
    decreases |ops|
  {
    if ops == [] then [] else Output(f, ops[0]) + Outputs(Next(f, ops[0], finds[0]), ops[1..], finds[1..])
  }

  ghost function AllAccepted(f: Fifo, ops: seq<Op>, finds: seq<seq<byte>>): (a: seq<byte>)
    requires |f.queue| <= f.capacity && |finds| == |ops| && PossibleRun(f, ops, finds)
    decreases |ops|
  {
    if ops == [] then []
    else (if ops[0].WriteOp? then Accepted(f, ops[0].src) else []) + AllAccepted(Next(f, ops[0], finds[0]), ops[1..], finds[1..])
  }

  ghost function Model(b: RecycleByteBuffer): (f: Fifo)
    reads b
  {
    Fifo(b.capacity, b.contents, b.marking, b.marked, b.stored)
  }

  /** Every run of the circular buffer is a run of the bounded queue: it reads the same bytes and
      ends with the same queue, across any number of wrap-arounds, marks, recoveries and overruns. */
  method Run(b: RecycleByteBuffer, ops: seq<Op>) returns (out: seq<byte>, ghost finds: seq<seq<byte>>)
    requires b.Valid()
    modifies b, b.mem
    ensures b.Valid() && |finds| == |ops|
    ensures old(PossibleRun(Model(b), ops, finds))
    ensures out == old(Outputs(Model(b), ops, finds))
    ensures Model(b) == old(After(Model(b), ops, finds))
  {
    hide RecycleByteBuffer.Valid;
    hide Next;
    hide Output;
    hide Recoverable;
    out, finds := [], [];
    ghost var start := Model(b);
    assert ops[..0] == [];
    for k := 0 to |ops|
      invariant b.Valid() && |finds| == k && |start.queue| <= start.capacity
      invariant PossibleRun(start, ops[..k], finds)
      invariant out == Outputs(start, ops[..k], finds)
      invariant Model(b) == After(start, ops[..k], finds)
    {
      ghost var found;
      var bytes;
      bytes, found := Perform(b, ops[k]);
      OneMore(start, ops[..k], finds, ops[k], found);
      assert ops[..k + 1] == ops[..k] + [ops[k]];
      finds := finds + [found];
      out := out + bytes;
    }
    assert ops[..|ops|] == ops;
  }

  lemma {:induction false} OneMore(f: Fifo, ops: seq<Op>, finds: seq<seq<byte>>, op: Op, found: seq<byte>)
    requires |f.queue| <= f.capacity && |finds| == |ops| && PossibleRun(f, ops, finds)
    requires var g := After(f, ops, finds); op.RecoverOp? ==> |found| <= g.capacity && Recoverable(g, found)
    ensures PossibleRun(f, ops + [op], finds + [found])
    ensures After(f, ops + [op], finds + [found]) == Next(After(f, ops, finds), op, found)
    ensures Outputs(f, ops + [op], finds + [found]) == Outputs(f, ops, finds) + Output(After(f, ops, finds), op)
    decreases |ops|
  {
    hide Next;
    hide Output;
    hide Recoverable;
    var all, founds := ops + [op], finds + [found];
    if ops == [] {
      assert all[1..] == [] && founds[1..] == [];
    } else {
      OneMore(Next(f, ops[0], finds[0]), ops[1..], finds[1..], op, found);
      assert all[0] == ops[0] && all[1..] == ops[1..] + [op];
      assert founds[0] == finds[0] && founds[1..] == finds[1..] + [found];
    }
  }

  method ReadBytes(b: RecycleByteBuffer, n: nat) returns (out: seq<byte>)
    requires b.Valid()
    modifies b
    ensures b.Valid()
    ensures out == old(Output(Model(b), ReadOp(n))) && Model(b) == old(Next(Model(b), ReadOp(n), []))
  {
    hide RecycleByteBuffer.Valid;
    var dst := new byte[n](_ => 0);
    var count := b.Read(dst);
    out := dst[..count];
  }

  method Perform(b: RecycleByteBuffer, op: Op) returns (out: seq<byte>, ghost found: seq<byte>)
    requires b.Valid()
    modifies b, b.mem
    ensures b.Valid()
    ensures op.RecoverOp? ==> |found| <= b.capacity && old(Recoverable(Model(b), found))
    ensures out == old(Output(Model(b), op))
    ensures Model(b) == old(Next(Model(b), op, found))
  {
    hide RecycleByteBuffer.Valid;
    out, found := [], [];
    match op
    case WriteOp(src) => b.Write(src);
    case ReadOp(n) => out := ReadBytes(b, n);
    case MarkOp => b.Mark();
    case RecoverOp =>
      b.Recover();
      found := b.contents;
    case CleanOp => b.Clean();
  }

  /** Conservation: over any reads and writes, the bytes read followed by the bytes still queued
      are the bytes queued at the start followed by the bytes accepted. */
  lemma {:induction false} BytesAreConserved(f: Fifo, ops: seq<Op>, finds: seq<seq<byte>>)
    requires |f.queue| <= f.capacity && |finds| == |ops| && PossibleRun(f, ops, finds)
    requires forall op <- ops :: op.WriteOp? || op.ReadOp?
    ensures Outputs(f, ops, finds) + After(f, ops, finds).queue == f.queue + AllAccepted(f, ops, finds)
    decreases |ops|
  {
    if ops != [] {
      var g, tail, rest := Next(f, ops[0], finds[0]), ops[1..], finds[1..];
      BytesAreConserved(g, tail, rest);
      var read := Output(f, ops[0]);
      var accepted := if ops[0].WriteOp? then Accepted(f, ops[0].src) else [];
      StepConserves(f, ops[0], finds[0]);
      calc {
        Outputs(f, ops, finds) + After(f, ops, finds).queue;
        (read + Outputs(g, tail, rest)) + After(g, tail, rest).queue;
        { Assoc(read, Outputs(g, tail, rest), After(g, tail, rest).queue); }
        read + (g.queue + AllAccepted(g, tail, rest));
        { Assoc(read, g.queue, AllAccepted(g, tail, rest)); }
        (f.queue + accepted) + AllAccepted(g, tail, rest);
        { Assoc(f.queue, accepted, AllAccepted(g, tail, rest)); }
        f.queue + AllAccepted(f, ops, finds);
      }
    }
  }

  lemma StepConserves(f: Fifo, op: Op, found: seq<byte>)
    requires |f.queue| <= f.capacity && (op.WriteOp? || op.ReadOp?)
    ensures Output(f, op) + Next(f, op, found).queue == f.queue + (if op.WriteOp? then Accepted(f, op.src) else [])
  {
  }

  lemma Assoc(a: seq<byte>, b: seq<byte>, c: seq<byte>)
    ensures (a + b) + c == a + (b + c)
  {
  }

  /** Peeking: after a mark, any reads, and any writes that fit the space free at the mark, are undone by
      recovering, whatever else is in the memory; the queue is again what it was at the mark. */
  lemma {:induction false} MarkThenRecover(f: Fifo, ops: seq<Op>, finds: seq<seq<byte>>, found: seq<byte>)
    requires |f.queue| <= f.capacity && |finds| == |ops| && PossibleRun(Next(f, MarkOp, []), ops, finds)
    requires forall op <- ops :: op.WriteOp? || op.ReadOp?
    requires var e := After(Next(f, MarkOp, []), ops, finds); e.stored + |f.queue| <= f.capacity && Recoverable(e, found)
    ensures found == f.queue
  {
    MarkStands(Next(f, MarkOp, []), ops, finds);
  }

  lemma {:induction false} MarkStands(f: Fifo, ops: seq<Op>, finds: seq<seq<byte>>)
    requires |f.queue| <= f.capacity && |finds| == |ops| && PossibleRun(f, ops, finds)
    requires forall op <- ops :: op.WriteOp? || op.ReadOp?
    ensures var e := After(f, ops, finds); e.marking == f.marking && e.marked == f.marked
    decreases |ops|
  {
    if ops != [] {
      MarkStands(Next(f, ops[0], finds[0]), ops[1..], finds[1..]);
    }
  }
}
