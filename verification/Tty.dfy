/** The terminals: three queues each, and the write call that feeds the console. */
module Tty {
  import opened Machine
  import opened Screen
  import opened VideoRows
  import opened Console
  import opened ConsoleDriver
  import opened TtyQueue
  import opened TtyOutput

  const CON_QUEUES: nat := 3 * MAX_CONSOLES
  const EIO: int := 5

  /** The queue pointers of a tty_struct; they stay null where there is no console. */
  datatype TtyStruct = TtyStruct(readQ: TtyQueue?, writeQ: TtyQueue?, secondary: TtyQueue?)

  /** Queues 3i, 3i+1 and 3i+2 belong to console i. */
  function Wired(queues: seq<TtyQueue>, nr: nat, i: nat): TtyStruct
    requires i < MAX_CONSOLES && |queues| == CON_QUEUES
  {
    if i < nr then TtyStruct(queues[3 * i], queues[3 * i + 1], queues[3 * i + 2])
    else TtyStruct(null, null, null)
  }

  class TtySystem {
    const driver: ConsoleDriver
    const conQueues: seq<TtyQueue>
    const conTable: seq<TtyStruct>

    ghost predicate Valid()
      reads this, driver, driver.consoles, driver.video, conQueues, set q | q in conQueues :: q.buf
    {
      && driver.Valid()
      && |conQueues| == CON_QUEUES && |conTable| == MAX_CONSOLES
      && (forall i, j :: 0 <= i < j < CON_QUEUES ==>
            conQueues[i] != conQueues[j] && conQueues[i].buf != conQueues[j].buf)
      && (forall i :: 0 <= i < CON_QUEUES ==> conQueues[i].Valid() && conQueues[i].buf != driver.video.mem)
      && (forall i :: 0 <= i < MAX_CONSOLES ==> conTable[i] == Wired(conQueues, driver.nrConsoles, i))
    }

    /** Between calls nothing waits to be written. */
    ghost predicate Drained()
      requires Valid()
      reads this, driver, driver.consoles, driver.video, conQueues, set q | q in conQueues :: q.buf
    {
      forall i :: 0 <= i < driver.nrConsoles ==> Waiting(i) == []
    }

    /** tty_init: empty queues, the consoles, and the wiring of the two. */
    constructor TtyInit(mem: array<byte>, columns: nat, lines: nat)
      requires 0 < columns && 0 < lines && VIDEO_MEM_TERM <= mem.Length
      ensures Valid() <==> Span(lines, columns) <= VIDEO_MEMORY
      ensures Valid() ==> Drained()
      ensures driver.video.mem == mem && driver.video.columns == columns && driver.video.lines == lines
      ensures |driver.consoles| == |conTable| == 8 && |conQueues| == 24
      ensures HomedSlices(driver.consoles, driver.nrConsoles, columns, lines)
      ensures forall i :: 0 <= i < driver.nrConsoles ==>
        conTable[i] == TtyStruct(conQueues[3 * i], conQueues[3 * i + 1], conQueues[3 * i + 2])
      ensures forall i :: driver.nrConsoles <= i < 8 ==> conTable[i] == TtyStruct(null, null, null)
    {
      var queues := NewQueues(mem);
      var d := new ConsoleDriver.ConInit(mem, columns, lines);
      var table := WireTable(queues, d.nrConsoles);
      driver, conQueues, conTable := d, queues, table;
    }

    static method WireTable(queues: seq<TtyQueue>, nr: nat) returns (table: seq<TtyStruct>)
      requires |queues| == CON_QUEUES
      ensures |table| == MAX_CONSOLES
      ensures forall i :: 0 <= i < MAX_CONSOLES ==> table[i] == Wired(queues, nr, i)
    {
      table := [];
      for i := 0 to MAX_CONSOLES
        invariant |table| == i
        invariant forall j :: 0 <= j < i ==> table[j] == Wired(queues, nr, j)
      {
        table := table + [if i < nr then TtyStruct(queues[3 * i], queues[3 * i + 1], queues[3 * i + 2])
                          else TtyStruct(null, null, null)];
      }
    }

    static method NewQueues(mem: array<byte>) returns (queues: seq<TtyQueue>)
      ensures |queues| == CON_QUEUES && fresh(queues)
      ensures forall i, j :: 0 <= i < j < CON_QUEUES ==> queues[i] != queues[j] && queues[i].buf != queues[j].buf
      ensures forall i :: 0 <= i < CON_QUEUES ==>
        queues[i].Valid() && queues[i].Contents() == [] && fresh(queues[i].buf) && queues[i].buf != mem
    {
      queues := [];
      for i := 0 to CON_QUEUES
        invariant |queues| == i && fresh(queues)
        invariant forall j, k :: 0 <= j < k < i ==> queues[j] != queues[k] && queues[j].buf != queues[k].buf
        invariant forall j :: 0 <= j < i ==>
          queues[j].Valid() && queues[j].Contents() == [] && fresh(queues[j].buf) && queues[j].buf != mem
      {
        var q := new TtyQueue();
        queues := queues + [q];
      }
    }

    /**
     tty_write: `nr` bytes of `b` for terminal `channel`, counted from 1.
     Returns the number of bytes taken, or -EIO where there is no terminal.
     */
    method TtyWrite(channel: nat, b: seq<byte>, nr: int) returns (r: int)
      requires Valid() && 1 <= channel && nr <= |b|
      modifies driver.consoles, driver.video, driver.video.mem, conQueues, set q | q in conQueues :: q.buf
      ensures Valid()
      ensures old(Drained()) ==> Drained()
      ensures channel > driver.nrConsoles ==>
        r == -5 && forall i :: 0 <= i < driver.nrConsoles ==> driver.View(i) == old(driver.View(i))
      ensures channel <= driver.nrConsoles ==>
        0 <= r && Accepts(old(Waiting(channel - 1)), b, nr, r) && Waiting(channel - 1) == []
      ensures channel <= driver.nrConsoles && driver.WholeRows() ==>
        Draws(old(driver.View(channel - 1)), driver.View(channel - 1), old(Waiting(channel - 1)), b, nr, r)
      ensures forall i :: 0 <= i < driver.nrConsoles && i != channel - 1 ==>
        driver.View(i) == old(driver.View(i)) && Waiting(i) == old(Waiting(i))
      ensures channel == 1 ==> driver.ShowsCursor()
    {
      hide Accepts, Draws, Span, Waiting;
      if channel > MAX_CONSOLES {
        return -EIO;
      }
      var tty := conTable[channel - 1];
      assert tty == Wired(conQueues, driver.nrConsoles, channel - 1);
      if tty.writeQ == null && tty.readQ == null && tty.secondary == null {
        return -EIO;
      }
      r := Transmit(channel - 1, b, nr);
    }

    /** The rest of tty_write, once the terminal is known to exist. */
    method Transmit(k: nat, b: seq<byte>, nr: int) returns (taken: nat)
      requires Valid() && k < driver.nrConsoles && nr <= |b|
      modifies driver.consoles[k], driver.video, driver.video.mem, conQueues[3 * k + 1], conQueues[3 * k + 1].buf
      ensures Valid()
      ensures Accepts(old(Waiting(k)), b, nr, taken) && Waiting(k) == []
      ensures driver.WholeRows() ==> Draws(old(driver.View(k)), driver.View(k), old(Waiting(k)), b, nr, taken)
      ensures forall i :: 0 <= i < driver.nrConsoles && i != k ==>
        driver.View(i) == old(driver.View(i)) && Waiting(i) == old(Waiting(i))
      ensures k == 0 ==> driver.ShowsCursor()
    {
      hide Write, Queued, Accepts, Draws, Span, Taken;
      var q := conTable[k].writeQ;
      assert conTable[k] == Wired(conQueues, driver.nrConsoles, k);
      ghost var waiting, before := Waiting(k), driver.View(k);
      taken := FillQueue(q, b, nr);
      TextIsDrawn(before, waiting, b, nr, taken);
      driver.ConWrite(k, q);
    }

    /** What waits in the write queue of console `k`. */
    ghost function Waiting(k: nat): (s: seq<byte>)
      requires Valid() && k < driver.nrConsoles
      reads this, driver, driver.consoles, driver.video, conQueues, set q | q in conQueues :: q.buf
      ensures |s| <= CAPACITY
    {
      conQueues[3 * k + 1].Contents()
    }
  }

  /** The first `nr` bytes of the caller's buffer. */
  function Text(b: seq<byte>, nr: int): (s: seq<byte>)
    requires nr <= |b|
  {
    if nr < 0 then [] else b[..nr]
  }

  /**
   Of `nr` bytes of `b`, `r` have been taken: at least one unless the ring was full, and all of them
   unless the ring has filled up or a line feed has overrun it.
   */
  ghost predicate Accepts(waiting: seq<byte>, b: seq<byte>, nr: int, r: nat)
    requires nr <= |b|
  {
    && r == Taken(waiting, Text(b, nr))
    && r <= |b| && (nr <= 0 ==> r == 0) && (0 < nr ==> r <= nr)
    && (0 < nr && |waiting| < 1023 ==> 1 <= r)
    && (r < nr ==> Overruns(waiting, b[..r]) || |waiting| + |Expand(b[..r])| == 1023)
  }

  /**
   The screen `u` is `t` after what was queued: unless a byte overran, what was waiting and the first
   `r` bytes of `b`; plain bytes that found nothing waiting show as if printed directly.
   */
  ghost predicate Draws(t: Terminal, u: Terminal, waiting: seq<byte>, b: seq<byte>, nr: int, r: nat)
    requires |waiting| <= CAPACITY && nr <= |b|
  {
    && t.Valid() && r <= |b|
    && u == Write(t, Queued(waiting, Text(b, nr)))
    && (!Overruns(waiting, b[..r]) ==>
          && u == Write(t, waiting + Expand(b[..r]))
          && (waiting == [] && PlainText(b[..r]) ==> u == Print(t, b[..r])))
  }

  lemma TextIsTaken(waiting: seq<byte>, b: seq<byte>, nr: int, r: nat)
    requires |waiting| <= CAPACITY && nr <= |b| && r == Taken(waiting, Text(b, nr))
    ensures Accepts(waiting, b, nr, r)
  {
    hide Taken, Queued, Overruns, Expand;
    TakesAllOrFills(waiting, Text(b, nr), r);
    assert Text(b, nr)[..r] == b[..r];
  }

  lemma TextIsDrawn(t: Terminal, waiting: seq<byte>, b: seq<byte>, nr: int, r: nat)
    requires t.Valid() && |waiting| <= CAPACITY && nr <= |b| && r == Taken(waiting, Text(b, nr))
    ensures Draws(t, Write(t, Queued(waiting, Text(b, nr))), waiting, b, nr, r)
  {
    hide Taken, Queued, Overruns, Expand, Write, Print;
    TakesAllOrFills(waiting, Text(b, nr), r);
    assert Text(b, nr)[..r] == b[..r];
    if waiting == [] && PlainText(b[..r]) {
      assert waiting + Expand(b[..r]) == Expand(b[..r]);
      PathsAgree(t, b[..r]);
    }
  }

  lemma OneTaken(waiting: seq<byte>, text: seq<byte>, k: nat)
    requires k < |text| && |waiting| < CAPACITY
    ensures Taken(waiting, text[k..]) == 1 + Taken(Queue1(waiting, text[k]), text[k + 1..])
    ensures Queued(waiting, text[k..]) == Queued(Queue1(waiting, text[k]), text[k + 1..])
  {
    assert text[k..][1..] == text[k + 1..];
    hide Queue1;
  }

  lemma NothingTaken(waiting: seq<byte>, text: seq<byte>)
    requires |waiting| <= CAPACITY && (text == [] || |waiting| == CAPACITY)
    ensures Taken(waiting, text) == 0 && Queued(waiting, text) == waiting
  {
  }

  /** One byte of the loop. */
  method QueueByte(q: TtyQueue, c: byte)
    requires q.Valid() && |q.Contents()| < CAPACITY
    modifies q`head, q.buf
    ensures q.Valid() && q.Contents() == Queue1(old(q.Contents()), c)
  {
    if c == LF {
      q.Putch(CR);
    }
    q.Putch(c);
  }

  /** The loop of tty_write: FULL is asked once a byte, though LF puts two. */
  method FillQueue(q: TtyQueue, b: seq<byte>, nr: int) returns (taken: nat)
    requires q.Valid() && nr <= |b|
    modifies q`head, q.buf
    ensures q.Valid()
    ensures taken == Taken(old(q.Contents()), Text(b, nr))
    ensures q.Contents() == Queued(old(q.Contents()), Text(b, nr))
    ensures Accepts(old(q.Contents()), b, nr, taken)
    ensures !Overruns(old(q.Contents()), b[..taken]) ==> q.Contents() == old(q.Contents()) + Expand(b[..taken])
  {
    hide Overruns, Expand, Accepts, Taken, Queued, Queue1;
    ghost var text := Text(b, nr);
    assert text[0..] == text;
    var left := nr;
    taken := 0;
    while left > 0 && !q.Full()
      invariant q.Valid() && taken <= |text| && (left == nr - taken)
      invariant Taken(old(q.Contents()), text) == taken + Taken(q.Contents(), text[taken..])
      invariant Queued(old(q.Contents()), text) == Queued(q.Contents(), text[taken..])
      decreases left
    {
      OneTaken(q.Contents(), text, taken);
      QueueByte(q, b[taken]);
      taken := taken + 1;
      left := left - 1;
    }
    NothingTaken(q.Contents(), text[taken..]);
    TextIsTaken(old(q.Contents()), b, nr, taken);
    TakesAllOrFills(old(q.Contents()), text, taken);
    assert text[..taken] == b[..taken];
  }
}
