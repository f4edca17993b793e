/** The 1024-slot ring of a terminal queue, indexed modulo its size. */
module TtyQueue {
  import opened Machine

  const TTY_BUF_SIZE: nat := 1024
  /** One slot always stays free: head == tail means empty. */
  const CAPACITY: nat := 1023

  /** An index masked with TTY_BUF_SIZE-1; on 32-bit words this is the remainder. */
  function Masked(i: int): (r: nat)
    ensures r < TTY_BUF_SIZE
  {
    i % TTY_BUF_SIZE
  }

  class TtyQueue {
    const buf: array<byte>
    var head: nat
    var tail: nat

    constructor ()
      ensures Valid() && fresh(buf) && Contents() == []
    {
      buf := new byte[TTY_BUF_SIZE](_ => 0);
      head, tail := 0, 0;
    }

    ghost predicate Valid()
      reads this
    {
      buf.Length == TTY_BUF_SIZE && head < TTY_BUF_SIZE && tail < TTY_BUF_SIZE
    }

    /** The bytes waiting, oldest first. */
    ghost function Contents(): (s: seq<byte>)
      requires Valid()
      reads this, buf
      ensures |s| <= CAPACITY
    {
      if tail <= head then buf[tail..head] else buf[tail..] + buf[..head]
    }

    predicate Empty()
      requires Valid()
      reads this, buf
      ensures Empty() <==> Contents() == []
    {
      head == tail
    }

    function Left(): (n: nat)
      requires Valid()
      reads this, buf
      ensures n + |Contents()| == 1023
    {
      Masked(tail - head - 1)
    }

    predicate Full()
      requires Valid()
      reads this, buf
      ensures Full() <==> |Contents()| == 1023
    {
      Left() == 0
    }

    function Chars(): (n: nat)
      requires Valid()
      reads this, buf
      ensures n == |Contents()|
    {
      Masked(head - tail)
    }

    /** The newest byte. */
    function Last(): (c: byte)
      requires Valid()
      reads this, buf
      ensures Contents() != [] ==> c == Contents()[|Contents()| - 1]
    {
      buf[Masked(head - 1)]
    }

    /** PUTCH does not look at FULL: one byte too many makes the ring look empty. */
    method Putch(c: byte)
      requires Valid()
      modifies `head, buf
      ensures Valid()
      ensures Contents() == if |old(Contents())| < CAPACITY then old(Contents()) + [c] else []
      ensures |old(Contents())| < CAPACITY ==> Last() == c
    {
      ghost var before := Contents();
      buf[head] := c;
      head := Masked(head + 1);
      if |before| < CAPACITY {
        assert Contents() == before + [c];
      }
    }

    /** GETCH does not look at EMPTY: on an empty ring it makes every stale byte reappear. */
    method Getch() returns (c: byte)
      requires Valid()
      modifies `tail
      ensures Valid()
      ensures old(Contents()) != [] ==> c == old(Contents())[0] && Contents() == old(Contents())[1..]
      ensures old(Contents()) == [] ==> |Contents()| == 1023
    {
      ghost var before := Contents();
      c := buf[tail];
      tail := Masked(tail + 1);
      if before != [] {
        assert Contents() == before[1..];
      }
    }

    /** DEC(head): takes the newest byte back. */
    method DecHead()
      requires Valid()
      modifies `head
      ensures Valid()
      ensures old(Contents()) != [] ==> Contents() == old(Contents())[..|old(Contents())| - 1]
    {
      ghost var before := Contents();
      head := Masked(head - 1);
      if before != [] {
        assert Contents() == before[..|before| - 1];
      }
    }

    /** Erasing with DEC undoes a guarded PUTCH. */
    method PutchThenDec(c: byte)
      requires Valid() && !Full()
      modifies `head, buf
      ensures Valid() && Contents() == old(Contents()) && head == old(head)
    {
      Putch(c);
      assert Contents()[..|Contents()| - 1] == old(Contents());
      DecHead();
    }
  }

  // ---------------------------------------------------------------------------------------
  // Runs of guarded operations against a bounded first-in first-out queue.
  // ---------------------------------------------------------------------------------------

  datatype QueueOp = Put(c: byte) | Get

  datatype Fifo = Fifo(waiting: seq<byte>, taken: seq<byte>)
  {
    /** A full queue refuses a byte and an empty one yields none. */
    function Step(op: QueueOp): Fifo {
      match op
      case Put(c) => if |waiting| < CAPACITY then this.(waiting := waiting + [c]) else this
      case Get => if waiting == [] then this else Fifo(waiting[1..], taken + [waiting[0]])
    }
  }

  function Run(f: Fifo, ops: seq<QueueOp>): Fifo {
    if ops == [] then f else Run(f, ops[..|ops| - 1]).Step(ops[|ops| - 1])
  }

  /** The bytes that some run accepted, in order of arrival. */
  function Accepted(f: Fifo, ops: seq<QueueOp>): seq<byte> {
    if ops == [] then []
    else
      var op := ops[|ops| - 1];
      Accepted(f, ops[..|ops| - 1])
        + if op.Put? && |Run(f, ops[..|ops| - 1]).waiting| < CAPACITY then [op.c] else []
  }

  /** No byte is lost, invented or reordered: what left, then what waits, is what arrived. */
  lemma {:induction false} FifoConserves(f: Fifo, ops: seq<QueueOp>)
    requires |f.waiting| <= CAPACITY
    ensures var g := Run(f, ops);
            g.taken + g.waiting == f.taken + f.waiting + Accepted(f, ops) && |g.waiting| <= CAPACITY
  {
    if ops != [] {
      FifoConserves(f, ops[..|ops| - 1]);
      var b := Run(f, ops[..|ops| - 1]);
      if ops[|ops| - 1].Get? && b.waiting != [] {
        assert b.taken + b.waiting == b.taken + [b.waiting[0]] + b.waiting[1..];
      }
      assert f.taken + f.waiting + Accepted(f, ops)
        == (f.taken + f.waiting + Accepted(f, ops[..|ops| - 1])) + Accepted(f, ops)[|Accepted(f, ops[..|ops| - 1])|..];
    }
  }

  /** Any run of guarded PUTCH and GETCH on the ring is a run of the bounded queue. */
  method RunOnRing(q: TtyQueue, ops: seq<QueueOp>) returns (taken: seq<byte>)
    requires q.Valid()
    modifies q, q.buf
    ensures q.Valid()
    ensures Fifo(q.Contents(), taken) == Run(Fifo(old(q.Contents()), []), ops)
  {
    taken := [];
    for k := 0 to |ops|
      invariant q.Valid()
      invariant Fifo(q.Contents(), taken) == Run(Fifo(old(q.Contents()), []), ops[..k])
    {
      assert ops[..k + 1][..k] == ops[..k];
      match ops[k] {
        case Put(c) =>
          if !q.Full() {
            q.Putch(c);
          }
        case Get =>
          if !q.Empty() {
            var c := q.Getch();
            taken := taken + [c];
          }
      }
    }
    assert ops[..|ops|] == ops;
  }
}
