/** The table of consoles: how video memory is cut into slices, and runs over several consoles. */
module ConsoleDriver {
  import opened Machine
  import opened Screen
  import opened VideoRows
  import opened WordCopies
  import opened Console
  import opened TtyQueue

  const MAX_CONSOLES: nat := 8
  const VIDEO_MEMORY: nat := VIDEO_MEM_TERM - VIDEO_MEM_BASE
  const ERASE_CHAR: Cell := Cell(0x20, 0x07)

  /** NR_CONSOLES for a screen of the given number of bytes. */
  function SliceCount(screen: nat): (n: nat)
    requires 0 < screen
    ensures 1 <= n <= MAX_CONSOLES
  {
    var n := VIDEO_MEMORY / screen;
    if n > MAX_CONSOLES then MAX_CONSOLES else if n == 0 then 1 else n
  }

  function SliceSize(screen: nat): (size: nat)
    requires 0 < screen
  {
    VIDEO_MEMORY / SliceCount(screen)
  }

  lemma DivisionBounds(a: nat, b: nat)
    requires 0 < b
    ensures b * (a / b) <= a < b * (a / b) + b
  {
  }

  /** Every slice holds a screen exactly when video memory does, and the slices fit side by side. */
  lemma SlicesHoldScreen(screen: nat)
    requires 0 < screen
    ensures screen <= SliceSize(screen) <==> screen <= VIDEO_MEMORY
    ensures SliceCount(screen) * SliceSize(screen) <= VIDEO_MEMORY
  {
    var n, k := SliceCount(screen), VIDEO_MEMORY / screen;
    DivisionBounds(VIDEO_MEMORY, n);
    DivisionBounds(VIDEO_MEMORY, screen);
    if screen <= VIDEO_MEMORY {
      QuotientAtLeast(VIDEO_MEMORY, screen, 1);
      MulMono(n, k, screen);
      QuotientAtLeast(VIDEO_MEMORY, n, screen);
    } else {
      MulMono(1, n, SliceSize(screen));
    }
  }

  /**
   Of the 8192 bytes, `nr` slices of `size` bytes: as many as eight, or as many as screens fit, but one
   at least; and as long as that many slices can be.
   */
  predicate WellCut(nr: nat, size: nat, screen: nat) {
    && 1 <= nr <= 8
    && (nr == 1 || nr * screen <= 8192) && (nr == 8 || 8192 < (nr + 1) * screen)
    && nr * size <= 8192 < nr * size + nr
  }

  lemma SlicesAreWellCut(screen: nat)
    requires 0 < screen
    ensures WellCut(SliceCount(screen), SliceSize(screen), screen)
  {
    var n, k := SliceCount(screen), VIDEO_MEMORY / screen;
    DivisionBounds(VIDEO_MEMORY, n);
    DivisionBounds(VIDEO_MEMORY, screen);
    if 1 < n {
      MulMono(n, k, screen);
    }
    if n < 8 {
      MulMono(k + 1, n + 1, screen);
      assert (k + 1) * screen == k * screen + screen;
    }
  }

  lemma QuotientAtLeast(a: nat, b: nat, q: nat)
    requires 0 < b && q * b <= a
    ensures q <= a / b
  {
    DivisionBounds(a, b);
    if a / b < q {
      MulMono(a / b + 1, q, b);
      assert false;
    }
  }

  lemma MulMono(a: nat, b: nat, k: nat)
    requires a <= b
    ensures a * k <= b * k
  {
  }

  // ---------------------------------------------------------------------------------------

  /** What a caller can ask of a console. */
  datatype Request =
    | PrintString(b: seq<byte>)
    | WriteByte(c: byte)
    | LineFeed
    | CarriageReturn
    | Delete
    | Goto(x: int, y: nat)
    | ScrollUp
    | ScrollDown
  {
    /** A string has a terminator. */
    predicate WellFormed() {
      PrintString? ==> 0 in b
    }
  }

  ghost function Answer(t: Terminal, r: Request): (u: Terminal)
    requires t.Valid() && r.WellFormed()
    ensures u.Valid() && SameShape(t, u)
  {
    match r
    case PrintString(b) => Print(t, CString(b))
    case WriteByte(c) => StepsKeepValid(t, c); t.WriteByte(c)
    case LineFeed => t.LineFeed()
    case CarriageReturn => t.CarriageReturn()
    case Delete => t.Delete()
    case Goto(x, y) => t.Goto(x, y)
    case ScrollUp => t.ScrollUp()
    case ScrollDown => t.ScrollDown()
  }

  /** A request addressed to one console. */
  datatype Call = Call(console: nat, request: Request)

  /** Console `i` after one call: only its own concern it. */
  ghost function Answered(t: Terminal, i: nat, call: Call): (u: Terminal)
    requires t.Valid() && call.request.WellFormed()
    ensures u.Valid() && SameShape(t, u)
  {
    if call.console == i then Answer(t, call.request) else t
  }

  /** Console `i` after a run: it has answered its own calls and no others. */
  ghost function Answers(t: Terminal, i: nat, calls: seq<Call>): (u: Terminal)
    requires t.Valid() && forall c :: c in calls ==> c.request.WellFormed()
    ensures u.Valid() && SameShape(t, u)
  {
    if calls == [] then t
    else Answered(Answers(t, i, calls[..|calls| - 1]), i, calls[|calls| - 1])
  }

  lemma AnswersNext(t: Terminal, i: nat, calls: seq<Call>, call: Call)
    requires t.Valid() && (forall c :: c in calls ==> c.request.WellFormed()) && call.request.WellFormed()
    ensures forall c :: c in calls + [call] ==> c.request.WellFormed()
    ensures Answers(t, i, calls + [call]) == Answered(Answers(t, i, calls), i, call)
  {
    assert (calls + [call])[..|calls|] == calls;
  }

  /** No call is addressed to console `i`. */
  ghost predicate Silent(i: nat, calls: seq<Call>) {
    forall k :: 0 <= k < |calls| ==> calls[k].console != i
  }

  lemma SilentBefore(i: nat, calls: seq<Call>, call: Call)
    requires Silent(i, calls + [call])
    ensures Silent(i, calls) && call.console != i
  {
    forall k | 0 <= k < |calls|
      ensures calls[k].console != i
    {
      assert (calls + [call])[k] == calls[k];
    }
    assert (calls + [call])[|calls|] == call;
  }

  /** The calls addressed to console `i`. */
  function Own(i: nat, calls: seq<Call>): (own: seq<Call>)
    ensures forall c :: c in own ==> c in calls
  {
    if calls == [] then []
    else
      Own(i, calls[..|calls| - 1]) + if calls[|calls| - 1].console == i then [calls[|calls| - 1]] else []
  }

  /** What the others are asked makes no difference. */
  lemma {:induction false} OnlyOwnCallsCount(t: Terminal, i: nat, calls: seq<Call>)
    requires t.Valid() && forall c :: c in calls ==> c.request.WellFormed()
    ensures Answers(t, i, calls) == Answers(t, i, Own(i, calls))
    decreases |calls|
  {
    if calls != [] {
      var front, last := calls[..|calls| - 1], calls[|calls| - 1];
      OnlyOwnCallsCount(t, i, front);
      if last.console == i {
        var own := Own(i, calls);
        assert own[..|own| - 1] == Own(i, front);
      } else {
        assert Own(i, calls) == Own(i, front);
      }
    }
  }

  class ConsoleDriver {
    const video: Video
    const consoles: seq<Console>
    const nrConsoles: nat

    ghost predicate Valid()
      reads this, consoles, video
    {
      && video.Ready() && video.fgConsole == 0
      && |consoles| == MAX_CONSOLES && 1 <= nrConsoles <= MAX_CONSOLES
      && (forall i, j :: 0 <= i < j < |consoles| ==> consoles[i] != consoles[j])
      && (forall i :: 0 <= i < |consoles| ==> consoles[i].video == video && consoles[i].index == i)
      && (forall i :: 0 <= i < nrConsoles ==> Running(i))
      && (forall i, j :: 0 <= i < j < nrConsoles ==> consoles[i].memEnd <= consoles[j].memStart)
    }

    ghost predicate Running(i: nat)
      requires i < |consoles|
      reads consoles, video
    {
      var c := consoles[i];
      c.video == video && c.Placed() && c.Displayed() && c.top == 0 && c.bottom == video.lines
    }

    function At(k: nat): (c: Console)
      requires k < |consoles|
    {
      consoles[k]
    }

    /** Scrolls of the whole screen copy whole rows: always so with an even number of columns. */
    predicate WholeRows()
      requires 0 < video.lines
    {
      WholeRowsCopied(video.lines - 1, video.columns)
    }

    ghost function View(i: nat): (t: Terminal)
      requires Valid() && i < nrConsoles
      reads this, consoles, video, video.mem
      ensures t.Valid()
    {
      assert Running(i);
      consoles[i].View()
    }

    /**
     con_init: the slices are cut, every cursor goes home and the adapter shows console 0.
     The consoles are fit for use exactly when one screen fits in video memory; a larger screen
     gets a single console whose window leaves its slice from the start.
     */
    constructor ConInit(mem: array<byte>, columns: nat, lines: nat)
      requires 0 < columns && 0 < lines && VIDEO_MEM_TERM <= mem.Length
      ensures Valid() <==> Span(lines, columns) <= VIDEO_MEMORY
      ensures fresh(video) && fresh(consoles) && |consoles| == MAX_CONSOLES
      ensures video.mem == mem && video.columns == columns && video.lines == lines
      ensures video.egaVga && video.fgConsole == 0
      ensures HomedSlices(consoles, nrConsoles, columns, lines)
      ensures video.DisplayedOrigin() == VIDEO_MEM_BASE == video.DisplayedCursor()
    {
      hide Homed, SliceSize, SliceCount;
      var screen := ScreenBytes(columns, lines);
      var v := new Video(mem, columns, lines, true, 0);
      var table := StaticTable(v);
      SlicesHoldScreen(screen);
      HomeTable(table, v, SliceCount(screen), SliceSize(screen), screen);
      video, consoles, nrConsoles := v, table, SliceCount(screen);
      new;
      HomedIsPlaced(table[0], 0, SliceSize(screen), columns, lines);
      UpdateScreen(table[0]);
      forall i | 0 <= i < nrConsoles
        ensures Span(lines, columns) <= VIDEO_MEMORY ==> Running(i)
      {
        SliceInside(i, nrConsoles, SliceSize(screen));
        HomedIsPlaced(consoles[i], i, SliceSize(screen), columns, lines);
      }
      HomedSideBySide(table, columns, lines);
      HomedInOrder(table, nrConsoles, SliceSize(screen), columns, lines);
      if Valid() {
        assert Running(0);
      }
    }

    /** video_num_lines * video_size_row */
    static method ScreenBytes(columns: nat, lines: nat) returns (n: nat)
      requires 0 < columns && 0 < lines
      ensures n == Span(lines, columns) && 0 < n
    {
      SpanIsProduct(lines, columns);
      SpanBelow(0, lines, columns);
      n := lines * (columns * 2);
    }

    /** update_screen, for the foreground console. */
    static method UpdateScreen(c: Console)
      requires c.index == c.video.fgConsole && c.origin == c.pos == VIDEO_MEM_BASE
      modifies c.video
      ensures c.video.DisplayedOrigin() == VIDEO_MEM_BASE == c.video.DisplayedCursor()
    {
      c.SetOrigin();
      c.SetCursor();
    }

    /** The eight records of vc_cons, as static storage leaves them. */
    static method StaticTable(v: Video) returns (table: seq<Console>)
      ensures |table| == MAX_CONSOLES && fresh(table)
      ensures forall i, j :: 0 <= i < j < |table| ==> table[i] != table[j]
      ensures forall i :: 0 <= i < |table| ==> table[i].video == v && table[i].index == i
    {
      table := [];
      for i := 0 to MAX_CONSOLES
        invariant |table| == i && fresh(table)
        invariant forall j, k :: 0 <= j < k < i ==> table[j] != table[k]
        invariant forall j :: 0 <= j < i ==> table[j].video == v && table[j].index == j
      {
        var c := new Console(v, i);
        table := table + [c];
      }
    }

    /** The slices are handed out one after the other. */
    static method HomeTable(table: seq<Console>, v: Video, nr: nat, size: nat, screen: nat)
      requires 0 < v.lines && screen == Span(v.lines, v.columns)
      requires nr <= |table| && nr * size <= VIDEO_MEMORY
      requires forall i, j :: 0 <= i < j < |table| ==> table[i] != table[j]
      requires forall i :: 0 <= i < |table| ==> table[i].video == v
      modifies table
      ensures forall i :: 0 <= i < nr ==> Homed(table[i], i, size, v.columns, v.lines)
    {
      var base := VIDEO_MEM_BASE;
      for i := 0 to nr
        invariant base == VIDEO_MEM_BASE + i * size
        invariant forall j :: 0 <= j < i ==> Homed(table[j], j, size, v.columns, v.lines)
      {
        SliceInside(i, nr, size);
        HomeOne(table[i], i, base, size, screen);
        base := base + size;
        assert i * size + size == (i + 1) * size;
      }
    }

    /** One record of vc_cons gets its slice, and its cursor goes home. */
    static method HomeOne(c: Console, ghost i: nat, base: nat, size: nat, screen: nat)
      requires 0 < c.video.lines && screen == Span(c.video.lines, c.video.columns)
      requires base == VIDEO_MEM_BASE + i * size
      modifies c
      ensures Homed(c, i, size, c.video.columns, c.video.lines)
    {
      hide Rows;
      c.origin, c.memStart, c.memEnd := base, base, base + size;
      c.scrEnd := base + screen;
      c.top, c.bottom := 0, c.video.lines;
      c.attr, c.eraseChar := 7, ERASE_CHAR;
      c.Gotoxy(0, 0);
    }

    /** One call: its console answers, the other consoles and their slices stay as they are. */
    method Do(call: Call)
      requires Valid() && call.console < nrConsoles && call.request.WellFormed()
      modifies At(call.console)`origin, At(call.console)`scrEnd, At(call.console)`pos
      modifies At(call.console)`x, At(call.console)`y, video, video.mem
      ensures Valid()
      ensures WholeRows() ==> View(call.console) == Answer(old(View(call.console)), call.request)
      ensures forall i :: 0 <= i < nrConsoles && i != call.console ==> View(i) == old(View(i))
      ensures OutsideSame(old(video.mem[..]), video.mem[..],
                          consoles[call.console].memStart, consoles[call.console].memEnd)
    {
      var c := consoles[call.console];
      assert Running(call.console);
      hide OutsideSame, Answer, Rows, Span;
      Serve(c, call.request);
      OthersKeep(call.console);
    }

    /** console_print: the foreground console draws a C string. */
    method ConsolePrint(b: seq<byte>)
      requires Valid() && 0 in b
      modifies consoles[0], video, video.mem
      ensures Valid()
      ensures WholeRows() ==> View(0) == Print(old(View(0)), CString(b))
      ensures forall i :: 0 < i < nrConsoles ==> View(i) == old(View(i))
      ensures ShowsCursor()
      ensures OutsideSame(old(video.mem[..]), video.mem[..], VIDEO_MEM_BASE, VIDEO_MEM_TERM)
    {
      hide OutsideSame, Print, Rows, Span;
      assert Running(0);
      ghost var before := video.mem[..];
      consoles[video.fgConsole].PrintString(b);
      consoles[0].PosOnCell();
      OthersKeep(0);
      OutsideSameWider(before, video.mem[..], consoles[0].memStart, consoles[0].memEnd, VIDEO_MEM_BASE, VIDEO_MEM_TERM);
    }

    /** con_write: console `k` draws what its write queue holds. */
    method ConWrite(k: nat, q: TtyQueue)
      requires Valid() && k < nrConsoles
      requires q.Valid() && q.buf != video.mem
      modifies consoles[k], video, video.mem, q`tail
      ensures Valid() && q.Valid() && q.Contents() == []
      ensures WholeRows() ==> View(k) == Write(old(View(k)), old(q.Contents()))
      ensures forall i :: 0 <= i < nrConsoles && i != k ==> View(i) == old(View(i))
      ensures k == 0 ==> ShowsCursor()
      ensures OutsideSame(old(video.mem[..]), video.mem[..], VIDEO_MEM_BASE, VIDEO_MEM_TERM)
    {
      hide OutsideSame, Write, Rows, Span;
      assert Running(k);
      ghost var before := video.mem[..];
      consoles[k].WriteQueue(q);
      consoles[k].PosOnCell();
      OthersKeep(k);
      OutsideSameWider(before, video.mem[..], consoles[k].memStart, consoles[k].memEnd, VIDEO_MEM_BASE, VIDEO_MEM_TERM);
    }

    /** The adapter shows the window of console 0, with the cursor at its row and column. */
    ghost predicate ShowsCursor()
      requires Valid()
      reads this, consoles, video, video.mem
    {
      && video.DisplayedOrigin() == consoles[0].origin
      && video.DisplayedCursor() == consoles[0].origin + Span(View(0).y, video.columns) + 2 * View(0).x
    }

    /** All the screens. */
    ghost function Views(): (s: seq<Terminal>)
      requires Valid()
      reads this, consoles, video, video.mem
      ensures |s| == nrConsoles && forall i :: 0 <= i < nrConsoles ==> s[i] == View(i) && s[i].Valid()
    {
      seq(nrConsoles, i requires 0 <= i < nrConsoles && Valid() reads this, consoles, video, video.mem => View(i))
    }

    /** The state after a run of calls from the screens `start` and the memory `m`. */
    ghost predicate After(start: seq<Terminal>, m: seq<byte>, calls: seq<Call>)
      reads this, consoles, video, video.mem
    {
      && Valid()
      && |start| == nrConsoles && (forall i :: 0 <= i < nrConsoles ==> start[i].Valid())
      && (forall c :: c in calls ==> c.request.WellFormed())
      && (WholeRows() ==> forall i :: 0 <= i < nrConsoles ==> View(i) == Answers(start[i], i, calls))
      && OutsideSame(m, video.mem[..], VIDEO_MEM_BASE, VIDEO_MEM_TERM)
      && (forall i :: 0 <= i < nrConsoles && Silent(i, calls) ==>
            SliceSame(m, video.mem[..], consoles[i].memStart, consoles[i].memEnd))
    }

    /** A whole run: each console has answered exactly the calls addressed to it, in order. */
    method Run(calls: seq<Call>)
      requires Valid()
      requires forall c :: c in calls ==> c.console < nrConsoles && c.request.WellFormed()
      modifies consoles`origin, consoles`scrEnd, consoles`pos, consoles`x, consoles`y, video, video.mem
      ensures After(old(Views()), old(video.mem[..]), calls)
    {
      ghost var start, m := Views(), video.mem[..];
      AtTheStart(start, m);
      for k := 0 to |calls|
        invariant After(start, m, calls[..k])
      {
        assert calls[k] in calls && calls[..k + 1] == calls[..k] + [calls[k]];
        DoNext(calls[k], start, m, calls[..k]);
      }
      assert calls[..|calls|] == calls;
    }

    lemma AtTheStart(start: seq<Terminal>, m: seq<byte>)
      requires Valid() && start == Views() && m == video.mem[..]
      ensures After(start, m, [])
    {
    }

    method DoNext(call: Call, ghost start: seq<Terminal>, ghost m: seq<byte>, ghost calls: seq<Call>)
      requires After(start, m, calls) && call.console < nrConsoles && call.request.WellFormed()
      modifies At(call.console)`origin, At(call.console)`scrEnd, At(call.console)`pos
      modifies At(call.console)`x, At(call.console)`y, video, video.mem
      ensures After(start, m, calls + [call])
    {
      hide Answers, OutsideSame, SliceSame;
      assert Running(call.console);
      ghost var before := video.mem[..];
      Do(call);
      MemoryAfter(m, before, calls, call);
      forall i | 0 <= i < nrConsoles
        ensures forall c :: c in calls + [call] ==> c.request.WellFormed()
        ensures Answers(start[i], i, calls + [call]) == Answered(Answers(start[i], i, calls), i, call)
      {
        AnswersNext(start[i], i, calls, call);
      }
    }

    lemma MemoryAfter(m: seq<byte>, before: seq<byte>, calls: seq<Call>, call: Call)
      requires Valid() && call.console < nrConsoles
      requires OutsideSame(m, before, VIDEO_MEM_BASE, VIDEO_MEM_TERM)
      requires OutsideSame(before, video.mem[..], consoles[call.console].memStart, consoles[call.console].memEnd)
      requires forall i :: 0 <= i < nrConsoles && Silent(i, calls) ==>
        SliceSame(m, before, consoles[i].memStart, consoles[i].memEnd)
      ensures OutsideSame(m, video.mem[..], VIDEO_MEM_BASE, VIDEO_MEM_TERM)
      ensures forall i :: 0 <= i < nrConsoles && Silent(i, calls + [call]) ==>
        SliceSame(m, video.mem[..], consoles[i].memStart, consoles[i].memEnd)
    {
      assert Running(call.console);
      forall i | 0 <= i < nrConsoles && Silent(i, calls + [call])
        ensures SliceSame(m, video.mem[..], consoles[i].memStart, consoles[i].memEnd)
      {
        SilentBefore(i, calls, call);
        assert SliceSame(m, before, consoles[i].memStart, consoles[i].memEnd);
      }
    }

    /** A change within one console's slice leaves the other consoles as they were. */
    twostate lemma OthersKeep(k: nat)
      requires old(Valid()) && k < nrConsoles
      requires forall i :: 0 <= i < nrConsoles && i != k ==> unchanged(consoles[i])
      requires k != 0 ==> unchanged(video)
      requires OutsideSame(old(video.mem[..]), video.mem[..], old(consoles[k].memStart), old(consoles[k].memEnd))
      ensures forall i :: 0 <= i < nrConsoles && i != k ==>
        Running(i) && consoles[i].View() == old(consoles[i].View())
    {
      forall i | 0 <= i < nrConsoles && i != k
        ensures Running(i) && consoles[i].View() == old(consoles[i].View())
      {
        hide Rows, Span;
        assert old(Running(i)) && old(Running(k));
        RowsFrame(old(video.mem[..]), video.mem[..], consoles[i].origin, video.columns, video.lines);
      }
    }
  }

  /** The bytes `low..high` are the same. */
  ghost predicate SliceSame(m: seq<byte>, n: seq<byte>, low: nat, high: nat) {
    |m| == |n| && forall a :: low <= a < high && a < |m| ==> m[a] == n[a]
  }

  /** Console `i` of a table of slices of the given size: window at the start, cursor at home. */
  ghost predicate Homed(c: Console, i: nat, size: nat, columns: nat, lines: nat)
    reads c
  {
    && c.memStart == c.origin == c.pos == VIDEO_MEM_BASE + i * size && c.memEnd == c.memStart + size
    && c.scrEnd == c.origin + Span(lines, columns)
    && c.top == 0 && c.bottom == lines && c.x == 0 && c.y == 0
    && c.attr == 7 && c.eraseChar == ERASE_CHAR
  }

  /** A homed console is placed exactly when its slice holds a screen. */
  lemma HomedIsPlaced(c: Console, i: nat, size: nat, columns: nat, lines: nat)
    requires Homed(c, i, size, columns, lines)
    requires c.video.Ready() && c.video.columns == columns && c.video.lines == lines
    ensures VIDEO_MEM_BASE + i * size + size <= VIDEO_MEM_TERM ==> (c.Placed() <==> Span(lines, columns) <= size)
    ensures c.top == 0 && c.bottom == lines
    ensures i == 0 ==> c.memStart == c.origin == c.pos == VIDEO_MEM_BASE
  {
    assert i == 0 ==> i * size == 0;
  }

  /**
   `nr` consoles with the largest slices there can be: the first slice starts where video memory does
   and each other one where the one before ends, every window stands at the start of its slice, every
   cursor at home, and blanks are spaces in light grey.
   */
  ghost predicate HomedSlices(table: seq<Console>, nr: nat, columns: nat, lines: nat)
    reads table
  {
    && 1 <= nr <= |table|
    && table[0].memStart <= table[0].memEnd
    && var size := table[0].memEnd - table[0].memStart;
    && WellCut(nr, size, Span(lines, columns))
    && forall i :: 0 <= i < nr ==>
         && Homed(table[i], i, size, columns, lines)
         && table[i].memEnd == table[i].memStart + size
         && table[i].origin == table[i].memStart == (if i == 0 then 0xb8000 else table[i - 1].memEnd)
         && table[i].attr == 7 && table[i].eraseChar == Cell(0x20, 7) && table[i].x == table[i].y == 0
  }

  lemma HomedSideBySide(table: seq<Console>, columns: nat, lines: nat)
    requires 0 < Span(lines, columns) && |table| == MAX_CONSOLES
    requires var screen := Span(lines, columns);
             forall i :: 0 <= i < SliceCount(screen) ==> Homed(table[i], i, SliceSize(screen), columns, lines)
    ensures HomedSlices(table, SliceCount(Span(lines, columns)), columns, lines)
  {
    hide SliceSize, SliceCount;
    var nr, size := SliceCount(Span(lines, columns)), SliceSize(Span(lines, columns));
    SlicesAreWellCut(Span(lines, columns));
    assert Homed(table[0], 0, size, columns, lines);
    forall i | 0 <= i < nr
      ensures table[i].memStart == (if i == 0 then 0xb8000 else table[i - 1].memEnd)
    {
      if i > 0 {
        assert Homed(table[i - 1], i - 1, size, columns, lines);
        assert (i - 1) * size + size == i * size;
      }
    }
  }

  lemma HomedInOrder(table: seq<Console>, nr: nat, size: nat, columns: nat, lines: nat)
    requires nr <= |table| && forall i :: 0 <= i < nr ==> Homed(table[i], i, size, columns, lines)
    ensures forall i, j :: 0 <= i < j < nr ==> table[i].memEnd <= table[j].memStart
  {
    forall i, j | 0 <= i < j < nr
      ensures table[i].memEnd <= table[j].memStart
    {
      SliceInside(i, j, size);
    }
  }

  lemma SliceInside(i: nat, j: nat, size: nat)
    requires i < j
    ensures i * size + size <= j * size
  {
    MulMono(i + 1, j, size);
    assert (i + 1) * size == i * size + size;
  }

  /** One request served by one console. */
  method Serve(c: Console, request: Request)
    requires c.Placed() && c.Displayed() && request.WellFormed()
    modifies c`origin, c`scrEnd, c`pos, c`x, c`y, c.video, c.video.mem
    ensures c.Placed() && c.Displayed()
    ensures old(c.WholeRows()) ==> c.View() == Answer(old(c.View()), request)
    ensures c.index != c.video.fgConsole ==> unchanged(c.video)
    ensures OutsideSame(old(c.video.mem[..]), c.video.mem[..], c.memStart, c.memEnd)
  {
    hide OutsideSame, Rows, Span, Print;
    if c.WholeRows() { c.WholeRowsScrollWell(); }
    NothingOutside(c.video.mem[..], c.memStart, c.memEnd);
    match request {
      case PrintString(b) => c.PrintString(b);
      case WriteByte(b) => c.WriteByte(b);
      case LineFeed => c.Lf();
      case CarriageReturn => c.Cr();
      case Delete => c.Del();
      case Goto(x, y) => c.Gotoxy(x, y);
      case ScrollUp => c.Scrup();
      case ScrollDown => c.Scrdown();
    }
  }
}
