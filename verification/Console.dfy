/**
 Virtual consoles: each shows a moving window of its own slice of video memory.
 Scrolling the whole screen moves the window; only when the window would leave the slice are
 the rows copied back to its start.
 */
module Console {
  import opened Machine
  import opened Screen
  import opened VideoRows
  import opened WordCopies
  import opened StringOps
  import opened TtyQueue

  const VIDEO_MEM_BASE: nat := 0xb8000
  const VIDEO_MEM_TERM: nat := 0xba000

  /** The display adapter: its memory, its geometry and the two addresses in its controller. */
  class Video {
    const mem: array<byte>
    const columns: nat
    const lines: nat
    const egaVga: bool
    const fgConsole: nat
    var originHigh: byte
    var originLow: byte
    var cursorHigh: byte
    var cursorLow: byte

    constructor (mem: array<byte>, columns: nat, lines: nat, egaVga: bool, fgConsole: nat)
      ensures this.mem == mem && this.columns == columns && this.lines == lines
      ensures this.egaVga == egaVga && this.fgConsole == fgConsole
    {
      this.mem, this.columns, this.lines := mem, columns, lines;
      this.egaVga, this.fgConsole := egaVga, fgConsole;
      originHigh, originLow, cursorHigh, cursorLow := 0, 0, 0, 0;
    }

    ghost predicate Ready() {
      0 < columns && 0 < lines && VIDEO_MEM_TERM <= mem.Length
    }

    function SizeRow(): nat {
      columns * 2
    }

    /** The address, in bytes, at which the adapter starts to read. */
    function DisplayedOrigin(): nat
      reads this
    {
      VIDEO_MEM_BASE + 2 * (originHigh * 0x100 + originLow)
    }

    /** The address, in bytes, at which the adapter draws its cursor. */
    function DisplayedCursor(): nat
      reads this
    {
      VIDEO_MEM_BASE + 2 * (cursorHigh * 0x100 + cursorLow)
    }
  }

  /** The two register bytes hold the address of the cell, whose two bytes they do not tell apart. */
  lemma RegisterHoldsAddress(a: nat)
    requires a < 0x20000
    ensures 2 * ((a / 0x200) % 0x100 * 0x100 + (a / 2) % 0x100) == a - a % 2
  {
    assert a / 0x200 == (a / 2) / 0x100;
  }

  class Console {
    const video: Video
    const index: nat
    var origin: nat
    var scrEnd: nat
    var pos: nat
    var x: nat
    var y: nat
    var top: nat
    var bottom: nat
    var memStart: nat
    var memEnd: nat
    var attr: byte
    var eraseChar: Cell

    constructor (video: Video, index: nat)
      ensures this.video == video && this.index == index
    {
      this.video, this.index := video, index;
      origin, scrEnd, pos, x, y := 0, 0, 0, 0, 0;
      top, bottom, memStart, memEnd := 0, 0, 0, 0;
      attr, eraseChar := 0, Cell(0, 0);
    }

    /** The window lies in the slice. */
    ghost predicate InSlice()
      reads this
    {
      && video.Ready()
      && VIDEO_MEM_BASE <= memStart <= origin
      && (origin - memStart) % 2 == 0
      && scrEnd == origin + Span(video.lines, video.columns)
      && scrEnd <= memEnd <= VIDEO_MEM_TERM
      && bottom <= video.lines
    }

    /** ... and the cursor address agrees with the cursor. */
    ghost predicate Placed()
      reads this
    {
      && InSlice()
      && pos == origin + Span(y, video.columns) + 2 * x
      && x <= video.columns
      && y < video.lines
    }

    /** The foreground console is the one the adapter shows. */
    ghost predicate Displayed()
      reads this, video
    {
      index == video.fgConsole ==> memStart == VIDEO_MEM_BASE && video.DisplayedOrigin() == origin
    }

    /** The rows on screen and the cursor. */
    ghost function View(): (t: Terminal)
      requires Placed()
      reads this, video.mem
      ensures t.Valid()
    {
      Terminal(video.columns, top, bottom, attr, eraseChar,
               Rows(video.mem[..], origin, video.columns, video.lines), x, y)
    }

    /** The copy counts of this console's scrolls lose no odd cell. */
    predicate WholeRows()
      reads this
    {
      top < bottom ==> WholeRowsCopied(bottom - top - 1, video.columns)
    }

    /** origin + row * video_size_row */
    method RowAddress(row: nat) returns (a: nat)
      ensures a == origin + Span(row, video.columns)
    {
      SpanIsProduct(row, video.columns);
      a := origin + row * video.SizeRow();
    }

    /** Out of range, a negative column included, nothing happens. */
    method Gotoxy(newX: int, newY: nat)
      modifies `x, `y, `pos
      ensures old(Placed()) ==> Placed() && View() == old(View()).Goto(newX, newY)
      ensures if 0 <= newX <= video.columns && newY < video.lines
        then x == newX && y == newY && pos == origin + Span(newY, video.columns) + 2 * newX
        else unchanged(`x, `y, `pos)
    {
      // newX is compared as an unsigned number: a negative one is too large
      if newX < 0 || newX > video.columns || newY >= video.lines {
        return;
      }
      x := newX;
      y := newY;
      pos := RowAddress(y);
      pos := pos + 2 * x;
    }

    method SetOrigin()
      requires VIDEO_MEM_BASE <= origin < VIDEO_MEM_BASE + 0x20000
      modifies video`originHigh, video`originLow
      ensures index != video.fgConsole ==> unchanged(video)
      ensures index == video.fgConsole ==> video.DisplayedOrigin() == origin - (origin - VIDEO_MEM_BASE) % 2
      ensures index == video.fgConsole ==> video.originHigh * 0x100 + video.originLow == (origin - 0xb8000) / 2
    {
      if index != video.fgConsole {
        return;
      }
      var offset := origin - VIDEO_MEM_BASE;
      video.originHigh := (offset / 0x200) % 0x100;
      video.originLow := (offset / 2) % 0x100;
      RegisterHoldsAddress(offset);
    }

    method SetCursor()
      requires VIDEO_MEM_BASE <= pos < VIDEO_MEM_BASE + 0x20000
      modifies video`cursorHigh, video`cursorLow
      ensures index != video.fgConsole ==> unchanged(video)
      ensures index == video.fgConsole ==> video.DisplayedCursor() == pos - (pos - VIDEO_MEM_BASE) % 2
      ensures index == video.fgConsole ==> video.cursorHigh * 0x100 + video.cursorLow == (pos - 0xb8000) / 2
    {
      if index != video.fgConsole {
        return;
      }
      var offset := pos - VIDEO_MEM_BASE;
      video.cursorHigh := (offset / 0x200) % 0x100;
      video.cursorLow := (offset / 2) % 0x100;
      RegisterHoldsAddress(offset);
    }

    /** In a slice that starts on a cell, pos is the address of a cell. */
    lemma PosOnCell()
      requires Placed()
      ensures (memStart - VIDEO_MEM_BASE) % 2 == 0 ==> (pos - VIDEO_MEM_BASE) % 2 == 0
    {
      SpanEven(y, video.columns);
    }

    /** The invariant in the source's own arithmetic. */
    lemma AddressesInBytes()
      requires Placed()
      ensures pos == origin + y * video.SizeRow() + 2 * x
      ensures scrEnd == origin + video.lines * video.SizeRow()
    {
      SpanIsProduct(y, video.columns);
      SpanIsProduct(video.lines, video.columns);
    }

    lemma PosInWindow()
      requires Placed()
      ensures origin <= pos <= scrEnd
      ensures x < video.columns ==> pos + 2 <= scrEnd
      ensures VIDEO_MEM_BASE <= origin && scrEnd < VIDEO_MEM_BASE + 0x20000
    {
      SpanBelow(y, video.lines, video.columns);
    }

    /** The next scroll up of this console loses no cell that shows. */
    ghost predicate UpWell()
      requires Placed()
      reads this, video.mem
    {
      bottom <= top
      || if FastScroll() then
           SlidesWell(video.mem[..], origin, memStart, memEnd, video.columns, video.lines, eraseChar)
         else
           ScrollsUpWell(video.mem[..], origin, video.columns, video.lines, top, bottom, eraseChar)
    }

    ghost predicate DownWell()
      requires Placed()
      reads this, video.mem
    {
      bottom <= top || ScrollsDownWell(video.mem[..], origin, video.columns, video.lines, top, bottom, eraseChar)
    }

    /** The whole screen scrolls by moving the window. */
    predicate FastScroll()
      reads this
    {
      video.egaVga && top == 0 && bottom == video.lines
    }

    lemma WholeRowsScrollWell()
      requires Placed() && WholeRows()
      ensures UpWell() && DownWell() && LfWell()
    {
    }

    method Scrup()
      requires Placed()
      modifies `origin, `scrEnd, `pos, video.mem, video`originHigh, video`originLow
      ensures Placed() && (old(Displayed()) ==> Displayed())
      ensures index != video.fgConsole ==> unchanged(video)
      ensures View() == old(View()).ScrollUp() <==> old(UpWell())
      ensures origin == if !video.egaVga || 0 < top || bottom < video.lines then old(origin)
                        else if old(scrEnd) + 2 * video.columns <= memEnd then old(origin) + 2 * video.columns
                        else memStart
      ensures OutsideSame(old(video.mem[..]), video.mem[..], memStart, memEnd)
    {
      hide Rows, OutsideSame, SlidesWell, ScrollsUpWell;
      if bottom <= top {
        NothingOutside(video.mem[..], memStart, memEnd);
        return;
      }
      if video.egaVga && top == 0 && bottom == video.lines {
        ScrollWindow();
        PosInWindow();
        SetOrigin();
      } else {
        ScrollRegion();
      }
    }

    method ScrollWindow()
      requires Placed() && FastScroll() && top < bottom
      modifies `origin, `scrEnd, `pos, video.mem
      ensures Placed()
      ensures View() == old(View()).ScrollUp() <==> old(UpWell())
      ensures origin == if old(scrEnd) + 2 * video.columns <= memEnd then old(origin) + 2 * video.columns else memStart
      ensures OutsideSame(old(video.mem[..]), video.mem[..], memStart, memEnd)
    {
      hide Rows, OutsideSame, SlidesWell, WindowSlid;
      ghost var m, first := video.mem[..], origin;
      SlideWindow();
      SlideScrolls(m, first, video.mem[..], origin, memStart, memEnd, video.columns, video.lines, eraseChar);
    }

    method ScrollRegion()
      requires Placed() && top < bottom && !FastScroll()
      modifies video.mem
      ensures Placed()
      ensures View() == old(View()).ScrollUp() <==> old(UpWell())
      ensures OutsideSame(old(video.mem[..]), video.mem[..], memStart, memEnd)
    {
      hide Rows, OutsideSame, RegionUp, ScrollsUpWell;
      ghost var m := video.mem[..];
      ScrollRegionUp();
      ScrollUpExact(m, origin, video.columns, video.lines, top, bottom, eraseChar);
      RegionUpFrame(m, origin, video.columns, video.lines, top, bottom, eraseChar);
      OutsideSameWider(m, video.mem[..], origin, scrEnd, memStart, memEnd);
    }

    /** The fast scroll of the whole screen, before set_origin tells the adapter. */
    method SlideWindow()
      requires Placed() && top == 0 && bottom == video.lines
      modifies `origin, `scrEnd, `pos, video.mem
      ensures Placed()
      ensures WindowSlid(old(video.mem[..]), old(origin), video.mem[..], origin, memStart, memEnd,
                         video.columns, video.lines, eraseChar)
      ensures origin == if old(scrEnd) + 2 * video.columns <= memEnd then old(origin) + 2 * video.columns else memStart
    {
      hide CopyThenBlank, CopiedBytes;
      var columns, sizeRow := video.columns, video.SizeRow();
      origin := origin + sizeRow;
      pos := pos + sizeRow;
      scrEnd := scrEnd + sizeRow;
      if scrEnd > memEnd {
        var count := CopyCount(video.lines - 1, columns);
        CopyUp(video.mem, memStart, origin, count, columns, eraseChar);
        scrEnd := scrEnd - (origin - memStart);
        pos := pos - (origin - memStart);
        origin := memStart;
      } else {
        BlankUp(video.mem, scrEnd - sizeRow, columns, eraseChar);
      }
    }

    /** The copy within the window: partial regions, and every scroll of other adapters. */
    method ScrollRegionUp()
      requires InSlice() && top < bottom
      modifies video.mem
      ensures video.mem[..]
        == RegionUp(old(video.mem[..]), origin, video.columns, video.lines, top, bottom, eraseChar)
    {
      var columns := video.columns;
      var dst := RowAddress(top);
      var src := RowAddress(top + 1);
      var count := CopyCount(bottom - top - 1, columns);
      RegionUpIs(video.mem[..], origin, columns, video.lines, top, bottom, eraseChar, dst, src);
      CopyUp(video.mem, dst, src, count, columns, eraseChar);
    }

    method Scrdown()
      requires Placed()
      modifies video.mem
      ensures Placed()
      ensures View() == old(View()).ScrollDown() <==> old(DownWell())
      ensures OutsideSame(old(video.mem[..]), video.mem[..], memStart, memEnd)
    {
      hide Rows, OutsideSame, RegionDown, ScrollsDownWell;
      ghost var m := video.mem[..];
      NothingOutside(m, memStart, memEnd);
      if bottom <= top {
        return;
      }
      ScrollRegionDown();
      ScrollDownExact(m, origin, video.columns, video.lines, top, bottom, eraseChar);
      RegionDownFrame(m, origin, video.columns, video.lines, top, bottom, eraseChar);
      OutsideSameWider(m, video.mem[..], origin, scrEnd, memStart, memEnd);
    }

    /** Both adapter branches of scrdown: the same instructions, highest address first. */
    method ScrollRegionDown()
      requires InSlice() && top < bottom
      modifies video.mem
      ensures video.mem[..]
        == RegionDown(old(video.mem[..]), origin, video.columns, video.lines, top, bottom, eraseChar)
    {
      hide RegionDown, BlankThenCopy, Span, CopiedBytes;
      ghost var m: seq<byte> := video.mem[..];
      var columns := video.columns;
      var end := RowAddress(bottom);
      RegionDownIs(m, origin, columns, video.lines, top, bottom, eraseChar, end);
      var count := CopyCount(bottom - top - 1, columns);
      CopyDown(video.mem, end, count, columns, eraseChar);
    }

    /** A line feed from here does not scroll, or scrolls well. */
    ghost predicate LfWell()
      requires Placed()
      reads this, video.mem
    {
      y + 1 < bottom || UpWell()
    }

    method Lf()
      requires Placed()
      modifies `origin, `scrEnd, `pos, `y, video.mem, video`originHigh, video`originLow
      ensures Placed() && (old(Displayed()) ==> Displayed())
      ensures index != video.fgConsole ==> unchanged(video)
      ensures View() == old(View()).LineFeed() <==> old(LfWell())
      ensures OutsideSame(old(video.mem[..]), video.mem[..], memStart, memEnd)
    {
      hide Rows, OutsideSame, UpWell;
      if y + 1 < bottom {
        y := y + 1;
        pos := pos + video.SizeRow();
        NothingOutside(video.mem[..], memStart, memEnd);
        return;
      }
      Scrup();
    }

    method Cr()
      requires Placed()
      modifies `pos, `x
      ensures Placed() && View() == old(View()).CarriageReturn()
    {
      pos := pos - 2 * x;
      x := 0;
    }

    method Del()
      requires Placed()
      modifies `pos, `x, video.mem
      ensures Placed() && View() == old(View()).Delete()
      ensures OutsideSame(old(video.mem[..]), video.mem[..], memStart, memEnd)
    {
      if x != 0 {
        pos := pos - 2;
        x := x - 1;
        StoreChangesOneCell(video.mem[..], origin, video.columns, video.lines, x, y, eraseChar);
        ghost var m: seq<byte> := video.mem[..];
        video.mem[pos], video.mem[pos + 1] := eraseChar.glyph, eraseChar.attr;
        assert video.mem[..] == Stored(m, pos, eraseChar);
      }
    }

    method StoreChar(c: byte)
      requires Placed() && x < video.columns
      modifies `pos, `x, video.mem
      ensures Placed() && View() == old(View()).Put(Cell(c, attr)).(x := old(x) + 1)
      ensures pos == old(pos) + 2 && pos <= video.mem.Length && video.mem[pos - 2] == c && video.mem[pos - 1] == attr
      ensures OutsideSame(old(video.mem[..]), video.mem[..], memStart, memEnd)
    {
      StoreChangesOneCell(video.mem[..], origin, video.columns, video.lines, x, y, Cell(c, attr));
      ghost var m: seq<byte> := video.mem[..];
      video.mem[pos], video.mem[pos + 1] := c, attr;
      assert video.mem[..] == Stored(m, pos, Cell(c, attr));
      pos := pos + 2;
      x := x + 1;
    }

    /** The cursor goes back to the start of the row it has filled. */
    method WrapBack()
      requires Placed() && x == video.columns
      modifies `pos, `x
      ensures Placed() && View() == old(View()).CarriageReturn() && LfWell() == old(LfWell())
    {
      x := x - video.columns;
      pos := pos - video.SizeRow();
    }

    /** The delayed wrap and the word store shared by con_write and console_print. */
    method PutChar(c: byte)
      requires Placed()
      modifies `origin, `scrEnd, `pos, `x, `y, video.mem, video`originHigh, video`originLow
      ensures Placed() && (old(Displayed()) ==> Displayed())
      ensures index != video.fgConsole ==> unchanged(video)
      ensures old(x < video.columns || LfWell()) ==> View() == old(View()).Glyph(c)
      ensures OutsideSame(old(video.mem[..]), video.mem[..], memStart, memEnd)
    {
      hide OutsideSame, Rows;
      ghost var start := View();
      ghost var m := video.mem[..];
      start.LineFeedValid();
      NothingOutside(m, memStart, memEnd);
      if x >= video.columns {
        WrapBack();
        Lf();
      }
      ghost var n := video.mem[..];
      StoreChar(c);
      OutsideSameThen(m, n, video.mem[..], memStart, memEnd);
    }

    /** One round of the loop of console_print. */
    method PrintByte(c: byte)
      requires Placed()
      modifies `origin, `scrEnd, `pos, `x, `y, video.mem, video`originHigh, video`originLow
      ensures Placed() && (old(Displayed()) ==> Displayed())
      ensures index != video.fgConsole ==> unchanged(video)
      ensures old(LfWell()) ==> View() == old(View()).PrintByte(c)
      ensures OutsideSame(old(video.mem[..]), video.mem[..], memStart, memEnd)
    {
      if c == LF {
        Cr();
        Lf();
      } else if c == CR {
        Cr();
      } else {
        PutChar(c);
      }
    }

    /** One round of the loop of con_write, the byte already taken from the queue. */
    method WriteByte(c: byte)
      requires Placed()
      modifies `origin, `scrEnd, `pos, `x, `y, video.mem, video`originHigh, video`originLow
      ensures Placed() && (old(Displayed()) ==> Displayed())
      ensures index != video.fgConsole ==> unchanged(video)
      ensures old(LfWell()) ==> View() == old(View()).WriteByte(c)
      ensures OutsideSame(old(video.mem[..]), video.mem[..], memStart, memEnd)
    {
      if 31 < c < 127 {
        PutChar(c);
      } else if c == LF || c == VT || c == FF {
        Lf();
      } else if c == CR {
        Cr();
      }
    }

    /** console_print on this console: `b` is a C string, drawn up to its NUL. */
    method PrintString(b: seq<byte>)
      requires Placed() && 0 in b
      modifies `origin, `scrEnd, `pos, `x, `y, video.mem, video
      ensures Placed() && (old(Displayed()) ==> Displayed())
      ensures index != video.fgConsole ==> unchanged(video)
      ensures old(WholeRows()) ==> View() == Print(old(View()), CString(b))
      ensures OutsideSame(old(video.mem[..]), video.mem[..], memStart, memEnd)
      ensures index == video.fgConsole ==> video.DisplayedCursor() == pos - (pos - VIDEO_MEM_BASE) % 2
    {
      hide OutsideSame, Print, LfWell, WholeRowsCopied;
      NothingPrinted(View(), video.mem[..], b, memStart, memEnd);
      var i := 0;
      while b[i] != 0
        invariant 0 <= i < |b| && 0 !in b[..i]
        invariant Placed() && (old(Displayed()) ==> Displayed())
        invariant index != video.fgConsole ==> unchanged(video)
        invariant WholeRows() == old(WholeRows())
        invariant WholeRows() ==> View() == Print(old(View()), b[..i])
        invariant OutsideSame(old(video.mem[..]), video.mem[..], memStart, memEnd)
        decreases |b| - i
      {
        PrintNext(old(View()), b, i);
        if WholeRows() { WholeRowsScrollWell(); }
        ghost var before := video.mem[..];
        PrintByte(b[i]);
        OutsideSameThen(old(video.mem[..]), before, video.mem[..], memStart, memEnd);
        i := i + 1;
      }
      CStringIs(b, i);
      PosInWindow();
      SetCursor();
    }

    /** `done` bytes of the queue's contents `s` have been drawn on the screen `start`. */
    ghost predicate Drawn(q: TtyQueue, start: Terminal, m: seq<byte>, s: seq<byte>, done: nat)
      reads this, video.mem, q, q.buf
    {
      && Placed() && q.Valid() && q.buf != video.mem && start.Valid()
      && done <= |s| && q.Contents() == s[done..]
      && (WholeRows() ==> View() == Write(start, s[..done]))
      && OutsideSame(m, video.mem[..], memStart, memEnd)
    }

    method WriteNext(q: TtyQueue, ghost start: Terminal, ghost m: seq<byte>, ghost s: seq<byte>, ghost done: nat)
      requires Drawn(q, start, m, s, done) && done < |s|
      modifies `origin, `scrEnd, `pos, `x, `y, video.mem, video`originHigh, video`originLow, q`tail
      ensures Drawn(q, start, m, s, done + 1)
      ensures old(Displayed()) ==> Displayed()
      ensures index != video.fgConsole ==> unchanged(video)
    {
      hide OutsideSame, Write, Rows, LfWell, WholeRowsCopied;
      Screen.WriteNext(start, s, done);
      if WholeRows() { WholeRowsScrollWell(); }
      ghost var before := video.mem[..];
      var c := q.Getch();
      assert c == s[done] && q.Contents() == s[done + 1..];
      WriteByte(c);
      OutsideSameThen(m, before, video.mem[..], memStart, memEnd);
    }

    /** con_write on this console: drains the queue. */
    method WriteQueue(q: TtyQueue)
      requires Placed() && q.Valid() && q.buf != video.mem
      modifies `origin, `scrEnd, `pos, `x, `y, video.mem, video, q`tail
      ensures Placed() && (old(Displayed()) ==> Displayed())
      ensures index != video.fgConsole ==> unchanged(video)
      ensures old(WholeRows()) ==> View() == Write(old(View()), old(q.Contents()))
      ensures OutsideSame(old(video.mem[..]), video.mem[..], memStart, memEnd)
      ensures index == video.fgConsole ==> video.DisplayedCursor() == pos - (pos - VIDEO_MEM_BASE) % 2
      ensures q.Valid() && q.Contents() == []
    {
      hide OutsideSame, Write, Rows;
      ghost var start, m, s, done := View(), video.mem[..], q.Contents(), 0;
      NothingPrinted(start, m, s, memStart, memEnd);
      var nr := q.Chars();
      while nr != 0
        invariant done + nr == |s| && Drawn(q, start, m, s, done)
        invariant old(Displayed()) ==> Displayed()
        invariant index != video.fgConsole ==> unchanged(video)
        decreases nr
      {
        nr := nr - 1;
        WriteNext(q, start, m, s, done);
        done := done + 1;
      }
      assert s[..done] == s;
      PosInWindow();
      SetCursor();
    }
  }

  lemma NothingOutside(m: seq<byte>, low: nat, high: nat)
    ensures OutsideSame(m, m, low, high)
  {
  }

  lemma NothingPrinted(t: Terminal, m: seq<byte>, s: seq<byte>, low: nat, high: nat)
    requires t.Valid()
    ensures OutsideSame(m, m, low, high) && Print(t, s[..0]) == t && Write(t, s[..0]) == t
  {
  }

  /** The bytes of `b` before its first NUL. */
  function CString(b: seq<byte>): (s: seq<byte>)
    requires 0 in b
  {
    if b[0] == 0 then [] else [b[0]] + CString(b[1..])
  }

  lemma {:induction false} CStringIs(b: seq<byte>, i: nat)
    requires i < |b| && b[i] == 0 && 0 !in b[..i]
    ensures CString(b) == b[..i]
  {
    if i > 0 {
      assert b[0] in b[..i];
      assert b[1..][..i - 1] == b[..i][1..];
      CStringIs(b[1..], i - 1);
    }
  }
}
