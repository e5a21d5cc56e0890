/** The circular byte buffer with mark and recover (pkg/util/tunutils/recycle_bytebuffer.go). */
module RecycleBuffer {
  import opened Bytes

  function Min(a: nat, b: nat): (m: nat) { if a <= b then a else b }

  /** Cell number `x` of a circular memory of `capacity` cells, for `x` less than twice that. */
  function Wrap(capacity: nat, x: nat): (w: nat) {
    if x < capacity then x else x - capacity
  }

  /** Below, a position is a cell number, or 0 in a memory without cells. */
  ghost predicate Position(capacity: nat, r: nat) {
    r < capacity || r == 0
  }

  /** From its index `from` on, `q` stands in the circular memory `mem`, `q[0]` at cell `r`. */
  ghost predicate Holds(mem: seq<byte>, r: nat, q: seq<byte>, from: nat)
    requires |q| <= |mem| && Position(|mem|, r)
  {
    forall i :: from <= i < |q| ==> mem[Wrap(|mem|, r + i)] == q[i]
  }

  ghost function Unrolled(mem: seq<byte>, r: nat, n: nat): (q: seq<byte>)
    requires n <= |mem| && Position(|mem|, r)
    ensures |q| == n && Holds(mem, r, q, 0)
  {
    seq(n, i requires 0 <= i < n => mem[Wrap(|mem|, r + i)])
  }

  /** `after` is `mem` with `src` written circularly from cell `w` on. */
  ghost predicate Poked(mem: seq<byte>, after: seq<byte>, w: nat, src: seq<byte>)
    requires |src| <= |mem| == |after| && Position(|mem|, w)
  {
    && (forall i :: 0 <= i < |src| ==> after[Wrap(|mem|, w + i)] == src[i])
    && (forall j :: 0 <= j < |mem| && !(w <= j < w + |src|) && !(j + |mem| < w + |src|) ==> after[j] == mem[j])
  }

  /** `q` is queued from cell `r` on, and the next byte goes to cell `w`. */
  ghost predicate Queued(mem: seq<byte>, r: nat, w: nat, q: seq<byte>) {
    && |q| <= |mem|
    && Position(|mem|, r)
    && w == Wrap(|mem|, r + |q|)
    && Holds(mem, r, q, 0)
  }

  /** How many of `n` marked bytes are overrun once `stored` further bytes have been written. */
  function Overrun(capacity: nat, n: nat, stored: nat): (d: nat) {
    if stored + n <= capacity then 0 else stored + n - capacity
  }

  /** `stored` bytes after the queue `q` was marked at cell `r`, the next byte goes to cell `w`
      and all of `q` that has not been overrun still stands. */
  ghost predicate Tracked(mem: seq<byte>, r: nat, w: nat, q: seq<byte>, stored: nat)
    requires |q| <= |mem| && Position(|mem|, r)
  {
    stored <= |mem| ==>
      && w == Wrap(|mem|, Wrap(|mem|, r + |q|) + stored)
      && Holds(mem, r, q, Overrun(|mem|, |q|, stored))
  }

  /** Writing on keeps track of a marked queue. */
  lemma PokeTracks(mem: seq<byte>, after: seq<byte>, r: nat, w: nat, q: seq<byte>, stored: nat, src: seq<byte>)
    requires |q| <= |mem| == |after| && |src| <= |mem| && Position(|mem|, r) && Position(|mem|, w)
    requires Tracked(mem, r, w, q, stored) && Poked(mem, after, w, src)
    ensures Tracked(after, r, Wrap(|mem|, w + |src|), q, stored + |src|)
  {
  }

  /** Writing behind a queue extends it. */
  lemma PokeAppends(mem: seq<byte>, after: seq<byte>, r: nat, w: nat, q: seq<byte>, src: seq<byte>)
    requires |q| + |src| <= |mem| == |after|
    requires Queued(mem, r, w, q) && Poked(mem, after, w, src)
    ensures Queued(after, r, Wrap(|mem|, w + |src|), q + src)
  {
  }

  /** Dropping the front of a queue leaves a queue. */
  lemma QueueDrops(mem: seq<byte>, r: nat, w: nat, q: seq<byte>, n: nat)
    requires Queued(mem, r, w, q) && n <= |q|
    ensures Queued(mem, Wrap(|mem|, r + n), w, q[n..])
  {
  }

  method CopyInto(dst: array<byte>, at: nat, src: seq<byte>)
    requires at + |src| <= dst.Length
    modifies dst
    ensures forall i :: 0 <= i < dst.Length ==>
              dst[i] == if at <= i < at + |src| then src[i - at] else old(dst[i])
  {
    forall i | at <= i < at + |src| {
      dst[i] := src[i - at];
    }
  }

  class RecycleByteBuffer {
    const mem: array<byte>
    const capacity: nat
    var readableBytes: nat
    var readIndex: nat
    var writeIndex: nat
    var markReadableBytes: nat
    var markReadIndex: nat
    var markWriteIndex: nat

    // The queued bytes, oldest first.
    ghost var contents: seq<byte>

    // The queue that the last Mark saw, and how many bytes Write has stored since then;
    // meaningful while `marking` holds, that is, after a Mark with no Clean since.
    ghost var marking: bool
    ghost var marked: seq<byte>
    ghost var stored: nat

    ghost predicate Valid()
      reads this, mem
      ensures Valid() ==> readableBytes == |contents| <= capacity
    {
      && mem.Length == capacity
      && readableBytes == |contents| <= capacity
      && Position(capacity, readIndex)
      && Queued(mem[..], readIndex, writeIndex, contents)
      && markReadableBytes == |marked| <= capacity
      && Position(capacity, markReadIndex)
      && markWriteIndex == Wrap(capacity, markReadIndex + markReadableBytes)
      && (marking ==> Tracked(mem[..], markReadIndex, writeIndex, marked, stored))
    }

    constructor (size: nat)
      ensures Valid() && fresh(mem) && capacity == size && contents == [] && !marking
    {
      mem := new byte[size](_ => 0);
      capacity := size;
      readableBytes, readIndex, writeIndex := 0, 0, 0;
      markReadableBytes, markReadIndex, markWriteIndex := 0, 0, 0;
      contents, marking, marked, stored := [], false, [], 0;
    }

    /** The copying half of Write: stores `src` from cell `writeIndex` on, around the end. */
    method CopyCells(src: seq<byte>) returns (next: nat)
      requires mem.Length == capacity && |src| <= capacity && Position(capacity, writeIndex)
      modifies mem
      ensures Poked(old(mem[..]), mem[..], writeIndex, src)
      ensures next == Wrap(capacity, writeIndex + |src|)
    {
      var tailLen := capacity - writeIndex;
      if tailLen <= |src| {
        CopyInto(mem, writeIndex, src[..tailLen]);
        CopyInto(mem, 0, src[tailLen..]);
        next := |src| - tailLen;
      } else {
        CopyInto(mem, writeIndex, src);
        next := writeIndex + |src|;
      }
    }

    /** What the copy means for the queue and for a marked queue. */
    method StoreCells(src: seq<byte>) returns (next: nat)
      requires Valid() && |contents| + |src| <= capacity
      modifies mem
      ensures Queued(mem[..], readIndex, next, contents + src)
      ensures marking ==> Tracked(mem[..], markReadIndex, next, marked, stored + |src|)
    {
      ghost var cells := mem[..];
      next := CopyCells(src);
      PokeAppends(cells, mem[..], readIndex, writeIndex, contents, src);
      if marking {
        PokeTracks(cells, mem[..], markReadIndex, writeIndex, marked, stored, src);
      }
    }

    /** Appends as much of the front of `src` as there is room for, and drops the rest. */
    method Write(src: seq<byte>)
      requires Valid()
      modifies this`readableBytes, this`writeIndex, this`contents, this`stored, mem
      ensures Valid()
      ensures contents == old(contents) + src[..Min(|src|, capacity - |old(contents)|)]
      ensures stored == old(stored) + |contents| - |old(contents)|
    {
      hide Queued;
      hide Tracked;
      var remainSpace := capacity - readableBytes;
      var actualWritableLen := if remainSpace <= |src| then remainSpace else |src|;
      var next := StoreCells(src[..actualWritableLen]);
      writeIndex := next;
      readableBytes := readableBytes + actualWritableLen;
      contents, stored := contents + src[..actualWritableLen], stored + actualWritableLen;
    }

    /** The copying half of Read: fetches `n` bytes from cell `readIndex` on, around the end. */
    method FetchCells(dst: array<byte>, n: nat) returns (next: nat)
      requires Valid() && n <= readableBytes && n <= dst.Length && dst != mem
      modifies dst
      ensures dst[..] == contents[..n] + old(dst[..])[n..]
      ensures next == Wrap(capacity, readIndex + n)
    {
      var tailLen := capacity - readIndex;
      if tailLen <= n {
        CopyInto(dst, 0, mem[readIndex..]);
        CopyInto(dst, tailLen, mem[..n - tailLen]);
        next := n - tailLen;
      } else {
        CopyInto(dst, 0, mem[readIndex..readIndex + n]);
        next := readIndex + n;
      }
    }

    /** Moves as many bytes from the front of the queue to `dst` as there are and as fit. */
    method Read(dst: array<byte>) returns (n: nat)
      requires Valid() && dst != mem
      modifies this`readableBytes, this`readIndex, this`contents, dst
      ensures Valid()
      ensures n == Min(dst.Length, |old(contents)|)
      ensures dst[..] == old(contents)[..n] + old(dst[..])[n..]
      ensures contents == old(contents)[n..]
    {
      if readableBytes <= 0 {
        return 0;
      }
      n := if readableBytes <= dst.Length then readableBytes else dst.Length;
      QueueDrops(mem[..], readIndex, writeIndex, contents, n);
      hide Queued;
      hide Tracked;
      var next := FetchCells(dst, n);
      readIndex := next;
      readableBytes := readableBytes - n;
      contents := contents[n..];
    }

    method Mark()
      requires Valid()
      modifies this`markReadableBytes, this`markReadIndex, this`markWriteIndex,
               this`marking, this`marked, this`stored
      ensures Valid()
      ensures marking && marked == contents && stored == 0
    {
      markReadableBytes := readableBytes;
      markReadIndex := readIndex;
      markWriteIndex := writeIndex;
      marking, marked, stored := true, contents, 0;
    }

    /** Recover brings back the queue that Mark saw, except for the bytes that later writes
        overran: none of them if all that was stored since fits the space free at the mark. */
    method Recover()
      requires Valid()
      modifies this`readableBytes, this`readIndex, this`writeIndex, this`contents, this`marking, this`stored
      ensures Valid() && |contents| == |marked|
      ensures old(marking && stored <= capacity) ==>
                forall i :: 0 <= i < |marked| && old(stored) + |marked| <= capacity + i ==> contents[i] == marked[i]
      ensures marking == old(marking && stored + |marked| <= capacity) && stored == 0
      ensures marking ==> contents == marked
    {
      readableBytes := markReadableBytes;
      readIndex := markReadIndex;
      writeIndex := markWriteIndex;
      contents := Unrolled(mem[..], readIndex, readableBytes);
      marking, stored := marking && stored + |marked| <= capacity, 0;
    }

    method Clean()
      requires Valid()
      modifies this`readableBytes, this`readIndex, this`writeIndex, this`contents, this`marking
      ensures Valid() && contents == [] && !marking
    {
      readableBytes, readIndex, writeIndex := 0, 0, 0;
      contents, marking := [], false;
    }
  }
}
