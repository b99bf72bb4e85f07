/** The input device of the carver, and how far a loop of reads gets on it. */
module Devices {
  import opened Bits

  const BUFSIZE := 102400

  /** The bytes of an image of `length` bytes from pos on. */
  function Behind(length: nat, pos: nat): nat {
    if pos <= length then length - pos else 0
  }

  /** What the k-th read(fd, buf, size) returns when there are `rest` bytes left. The script
      says how many bytes it would deliver at most; a negative number is a read error. */
  function Got(script: nat -> int, k: nat, rest: nat, size: nat): (got: int)
    ensures -1 <= got <= size && got <= rest
  {
    if script(k) < 0 then -1 else Min(script(k), Min(rest, size))
  }

  // ---- the read loop ----

  /** The sizes of the reads that enter the loop, and the result of the one that ends it. */
  datatype Reads = Reads(entered: seq<nat>, last: int)
  {
    function After(got: nat): Reads {
      Reads([got] + entered, last)
    }
  }

  /** The first read asks for size bytes, the others for what overlap bytes leave of the
      buffer; a read of at most overlap bytes ends the loop. */
  function ReadLoop(script: nat -> int, k: nat, rest: nat, size: nat, overlap: nat): Reads
    requires size <= BUFSIZE
    decreases rest
  {
    var got := Got(script, k, rest, size);
    if got <= overlap then Reads([], got)
    else ReadLoop(script, k + 1, rest - got, BUFSIZE - overlap, overlap).After(got)
  }

  lemma {:induction false} ReadLoopBounds(script: nat -> int, k: nat, rest: nat, size: nat, overlap: nat)
    requires size <= BUFSIZE
    ensures var r := ReadLoop(script, k, rest, size, overlap);
      -1 <= r.last <= overlap && Total(r.entered) <= rest && r.last <= rest - Total(r.entered)
    decreases rest
  {
    var got := Got(script, k, rest, size);
    if got > overlap {
      ReadLoopBounds(script, k + 1, rest - got, BUFSIZE - overlap, overlap);
      EnteredStep(script, k, rest, size, overlap);
    }
  }

  function Total(sizes: seq<nat>): nat {
    if sizes == [] then 0 else sizes[0] + Total(sizes[1..])
  }

  lemma {:induction false} TotalOneMore(sizes: seq<nat>, n: nat)
    requires n < |sizes|
    ensures Total(sizes[..n + 1]) == Total(sizes[..n]) + sizes[n]
    decreases n
  {
    if n == 0 {
      assert sizes[..1] == [sizes[0]];
    } else {
      TotalOneMore(sizes[1..], n - 1);
      assert sizes[1..][..n] == sizes[..n + 1][1..] && sizes[1..][..n - 1] == sizes[..n][1..];
    }
  }

  // ---- what is left at the end ----

  ghost predicate NeverShort(script: nat -> int) {
    forall k: nat :: script(k) >= BUFSIZE
  }

  /** How many of rest bytes come after the last position that is scanned, if no read is
      shorter than it has to be: the lookahead, and the remainder of the last read unless
      it is longer than the lookahead. */
  function Tail(rest: nat, overlap: nat): (t: nat) {
    if rest <= overlap || BUFSIZE <= overlap then rest
    else if rest <= BUFSIZE then overlap
    else overlap + Remnant(rest - BUFSIZE, BUFSIZE - overlap, overlap)
  }

  /** What full reads of size bytes leave of rest bytes. */
  function Remnant(rest: nat, size: nat, overlap: nat): nat
    requires size > 0
  {
    if size <= overlap then rest
    else if rest % size <= overlap then rest % size
    else 0
  }

  /** What a loop of reads leaves unread. */
  function Left(script: nat -> int, k: nat, rest: nat, size: nat, overlap: nat): int
    requires size <= BUFSIZE
  {
    rest - Total(ReadLoop(script, k, rest, size, overlap).entered)
  }

  lemma {:induction false} FullReadsLeave(script: nat -> int, k: nat, rest: nat, overlap: nat)
    requires NeverShort(script) && overlap < BUFSIZE
    ensures Left(script, k, rest, BUFSIZE - overlap, overlap) == Remnant(rest, BUFSIZE - overlap, overlap)
    decreases rest
  {
    var size := BUFSIZE - overlap;
    if rest < size || size <= overlap {
      LastReads(script, k, rest, size, overlap);
      RemnantOfLess(rest, size, overlap);
    } else {
      FullReadsLeave(script, k + 1, rest - size, overlap);
      RemnantStep(rest, size, overlap);
      FullReadFirst(script, k, rest, size, overlap);
    }
  }

  lemma LastReads(script: nat -> int, k: nat, rest: nat, size: nat, overlap: nat)
    requires NeverShort(script) && 0 < size <= BUFSIZE && (rest < size || size <= overlap)
    ensures Left(script, k, rest, size, overlap) == if rest <= overlap || size <= overlap then rest else 0
  {
    assert script(k) >= BUFSIZE && script(k + 1) >= BUFSIZE;
    if Got(script, k, rest, size) > overlap {
      EnteredStep(script, k, rest, size, overlap);
    }
  }

  lemma FullReadFirst(script: nat -> int, k: nat, rest: nat, size: nat, overlap: nat)
    requires NeverShort(script) && overlap < size <= BUFSIZE && size <= rest
    ensures Left(script, k, rest, size, overlap) == Left(script, k + 1, rest - size, BUFSIZE - overlap, overlap)
    ensures ReadLoop(script, k, rest, size, overlap).entered != []
  {
    assert script(k) >= BUFSIZE;
    EnteredStep(script, k, rest, size, overlap);
  }

  lemma RemnantOfLess(rest: nat, size: nat, overlap: nat)
    requires 0 < size && (rest < size || size <= overlap)
    ensures Remnant(rest, size, overlap) == if rest <= overlap || size <= overlap then rest else 0
  {
    if rest < size {
      ModUnique(rest, size, 0, rest);
    }
  }

  lemma EnteredStep(script: nat -> int, k: nat, rest: nat, size: nat, overlap: nat)
    requires size <= BUFSIZE
    ensures Got(script, k, rest, size) <= overlap ==> ReadLoop(script, k, rest, size, overlap) == Reads([], Got(script, k, rest, size))
    ensures Got(script, k, rest, size) > overlap ==>
      var got := Got(script, k, rest, size);
      var next := ReadLoop(script, k + 1, rest - got, BUFSIZE - overlap, overlap);
      && ReadLoop(script, k, rest, size, overlap) == next.After(got)
      && Total(next.After(got).entered) == got + Total(next.entered)
  {
    var got := Got(script, k, rest, size);
    if got > overlap {
      var next := ReadLoop(script, k + 1, rest - got, BUFSIZE - overlap, overlap);
      assert ([got] + next.entered)[1..] == next.entered;
    }
  }

  lemma RemnantStep(rest: nat, size: nat, overlap: nat)
    requires 0 < size <= rest && overlap < size
    ensures Remnant(rest, size, overlap) == Remnant(rest - size, size, overlap)
  {
    var q, m := (rest - size) / size, (rest - size) % size;
    assert size * (q + 1) == size * q + size;
    ModUnique(rest, size, q + 1, m);
  }

  /** With full reads the tail that is never scanned is exactly this long. */
  lemma TailIsLeft(script: nat -> int, k: nat, rest: nat, overlap: nat)
    requires NeverShort(script)
    ensures var scanned := ReadLoop(script, k, rest, BUFSIZE, overlap).entered != [];
      Left(script, k, rest, BUFSIZE, overlap) + (if scanned then overlap else 0) == Tail(rest, overlap)
  {
    if rest <= BUFSIZE || BUFSIZE <= overlap {
      FirstReadIsLast(script, k, rest, overlap);
    } else {
      FullReadFirst(script, k, rest, BUFSIZE, overlap);
      FullReadsLeave(script, k + 1, rest - BUFSIZE, overlap);
    }
  }

  lemma FirstReadIsLast(script: nat -> int, k: nat, rest: nat, overlap: nat)
    requires NeverShort(script) && (rest <= BUFSIZE || BUFSIZE <= overlap)
    ensures var entered := ReadLoop(script, k, rest, BUFSIZE, overlap).entered;
      if rest <= overlap || BUFSIZE <= overlap then entered == [] else entered != [] && Total(entered) == rest
  {
    assert script(k) >= BUFSIZE && script(k + 1) >= BUFSIZE;
    if Got(script, k, rest, BUFSIZE) > overlap {
      EnteredStep(script, k, rest, BUFSIZE, overlap);
    }
  }

  lemma {:induction false} NoErrors(script: nat -> int, k: nat, rest: nat, size: nat, overlap: nat)
    requires NeverShort(script) && size <= BUFSIZE
    ensures ReadLoop(script, k, rest, size, overlap).last >= 0
    decreases rest
  {
    assert script(k) >= BUFSIZE;
    var got := Got(script, k, rest, size);
    if got > overlap {
      NoErrors(script, k + 1, rest - got, BUFSIZE - overlap, overlap);
    }
  }

  /** So something is always left, and with enough room in the buffer it is at most twice
      the lookahead. */
  lemma TailBounds(rest: nat, overlap: nat)
    ensures Tail(rest, overlap) >= Min(rest, overlap)
    ensures 2 * overlap < BUFSIZE ==> Tail(rest, overlap) <= 2 * overlap
  {
  }

  // ---- the device ----

  /** An open file. Anybody who shares the descriptor may move its position. */
  class Device {
    const image: seq<byte>
    const script: nat -> int
    const seeks: bool // lseek always succeeds
    var pos: nat
    var count: nat    // of the calls of read so far

    constructor (image: seq<byte>, script: nat -> int, seeks: bool, pos: nat)
      ensures this.image == image && this.script == script && this.seeks == seeks && this.pos == pos && count == 0
    {
      this.image, this.script, this.seeks, this.pos, count := image, script, seeks, pos, 0;
    }

    /** No read is shorter than it has to be. */
    ghost predicate FullReads() {
      NeverShort(script)
    }

    /** What the read loop of scan_disk will do from here on. */
    ghost function Reading(overlap: nat): Reads
      reads this
    {
      ReadLoop(script, count, Behind(|image|, pos), BUFSIZE, overlap)
    }

    method Read(dst: array<byte>, at: nat, size: nat) returns (got: int)
      requires at + size <= dst.Length
      modifies this`pos, this`count, dst
      ensures count == old(count) + 1 && got == Got(script, old(count), Behind(|image|, old(pos)), size)
      ensures got <= 0 ==> pos == old(pos) && dst[..] == old(dst[..])
      ensures got > 0 ==> pos == old(pos) + got <= |image|
      ensures got > 0 ==> dst[..] == old(dst[..at]) + image[old(pos)..pos] + old(dst[at + got..])
    {
      got := Got(script, count, Behind(|image|, pos), size);
      count := count + 1;
      if got > 0 {
        forall i | 0 <= i < got {
          dst[at + i] := image[pos + i];
        }
        pos := pos + got;
      }
    }
  }
}
