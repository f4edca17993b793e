/**
 The terminal a user sees: a list of rows and a cursor, with no memory behind it.
 The two output paths of the kernel are specified here byte by byte.
 */
module Screen {
  import opened Machine

  const LF: byte := 10
  const VT: byte := 11
  const FF: byte := 12
  const CR: byte := 13

  datatype Cell = Cell(glyph: byte, attr: byte)

  function BlankRow(columns: nat, erase: Cell): (row: seq<Cell>)
    ensures |row| == columns
  {
    seq(columns, _ => erase)
  }

  /** Rows `top..bottom` move up by one: the first is dropped, a blank one enters below. */
  function ScrolledUp(rows: seq<seq<Cell>>, top: nat, bottom: nat, blank: seq<Cell>): (r: seq<seq<Cell>>)
    requires top < bottom <= |rows|
    ensures |r| == |rows|
  {
    rows[..top] + rows[top + 1..bottom] + [blank] + rows[bottom..]
  }

  /** Rows `top..bottom` move down by one: the last is dropped, a blank one enters above. */
  function ScrolledDown(rows: seq<seq<Cell>>, top: nat, bottom: nat, blank: seq<Cell>): (r: seq<seq<Cell>>)
    requires top < bottom <= |rows|
    ensures |r| == |rows|
  {
    rows[..top] + [blank] + rows[top..bottom - 1] + rows[bottom..]
  }

  /**
   The cursor may stand one past the last column: the wrap to the next row is delayed until
   a glyph needs the room.  Line feeds scroll the region `top..bottom`.
   */
  datatype Terminal = Terminal(columns: nat, top: nat, bottom: nat, attr: byte, erase: Cell,
                               rows: seq<seq<Cell>>, x: nat, y: nat)
  {
    ghost predicate Valid() {
      && 0 < columns
      && (forall r :: 0 <= r < |rows| ==> |rows[r]| == columns)
      && bottom <= |rows|
      && x <= columns
      && y < |rows|
    }

    predicate FullScreen() {
      top == 0 && bottom == |rows|
    }

    function ScrollUp(): (t: Terminal)
      requires bottom <= |rows|
    {
      if bottom <= top then this
      else this.(rows := ScrolledUp(rows, top, bottom, BlankRow(columns, erase)))
    }

    function ScrollDown(): (t: Terminal)
      requires bottom <= |rows|
    {
      if bottom <= top then this
      else this.(rows := ScrolledDown(rows, top, bottom, BlankRow(columns, erase)))
    }

    function LineFeed(): (t: Terminal)
      requires bottom <= |rows|
    {
      if y + 1 < bottom then this.(y := y + 1) else ScrollUp()
    }

    function CarriageReturn(): (t: Terminal) {
      this.(x := 0)
    }

    function Put(cell: Cell): (t: Terminal)
      requires Valid() && x < columns
    {
      this.(rows := rows[y := rows[y][x := cell]])
    }

    function Delete(): (t: Terminal)
      requires Valid()
    {
      if x == 0 then this else this.(x := x - 1).Put(erase)
    }

    function Goto(newX: int, newY: nat): (t: Terminal) {
      if 0 <= newX <= columns && newY < |rows| then this.(x := newX, y := newY) else this
    }

    function Glyph(c: byte): (t: Terminal)
      requires Valid()
    {
      var at := if x == columns then CarriageReturn().LineFeed() else this;
      LineFeedValid();
      at.Put(Cell(c, attr)).(x := at.x + 1)
    }

    /** One byte of a string on the console_print path: LF also returns the carriage. */
    function PrintByte(c: byte): (t: Terminal)
      requires Valid()
    {
      if c == LF then CarriageReturn().LineFeed()
      else if c == CR then CarriageReturn()
      else Glyph(c)
    }

    /** One byte of a queue on the con_write path: only printable bytes draw. */
    function WriteByte(c: byte): (t: Terminal)
      requires Valid()
    {
      if 31 < c < 127 then Glyph(c)
      else if c == LF || c == VT || c == FF then LineFeed()
      else if c == CR then CarriageReturn()
      else this
    }

    lemma LineFeedValid()
      requires Valid()
      ensures LineFeed().Valid() && LineFeed().x == x
      ensures CarriageReturn().LineFeed().Valid() && CarriageReturn().LineFeed().x == 0
    {
    }
  }

  ghost predicate SameShape(t: Terminal, u: Terminal) {
    t.columns == u.columns && t.top == u.top && t.bottom == u.bottom && t.attr == u.attr
    && t.erase == u.erase && |t.rows| == |u.rows|
  }

  lemma StepsKeepValid(t: Terminal, c: byte)
    requires t.Valid()
    ensures t.PrintByte(c).Valid() && t.WriteByte(c).Valid()
    ensures SameShape(t, t.PrintByte(c)) && SameShape(t, t.WriteByte(c))
  {
    t.LineFeedValid();
  }

  // ---------------------------------------------------------------------------------------
  // The steps, cell by cell and byte by byte.
  // ---------------------------------------------------------------------------------------

  /** Rows of the region move to their neighbours' places; nothing else moves. */
  lemma ScrollsRowByRow(t: Terminal, r: nat)
    requires t.Valid() && r < |t.rows|
    ensures var up, down, blank := t.ScrollUp(), t.ScrollDown(), seq(t.columns, _ => t.erase);
            && up == t.(rows := up.rows) && down == t.(rows := down.rows)
            && |up.rows| == |t.rows| == |down.rows|
            && up.rows[r] == (if !(t.top <= r < t.bottom) then t.rows[r]
                              else if r + 1 < t.bottom then t.rows[r + 1] else blank)
            && down.rows[r] == (if !(t.top <= r < t.bottom) then t.rows[r]
                                else if t.top < r then t.rows[r - 1] else blank)
  {
  }

  /** A line feed never leaves the region, and scrolls it at its bottom. */
  lemma LineFeedStaysInRegion(t: Terminal)
    requires t.Valid() && t.top <= t.y < t.bottom
    ensures var u := t.LineFeed();
            && t.top <= u.y < t.bottom && u.x == t.x
            && u == if t.y == t.bottom - 1 then t.ScrollUp() else t.(y := t.y + 1)
  {
  }

  /** A deletion is a step back and a blank; it undoes a glyph on a row that was blank there. */
  lemma DeleteUndoesGlyph(t: Terminal, c: byte)
    requires t.Valid() && t.x < t.columns && t.rows[t.y][t.x] == t.erase
    ensures t.Glyph(c).Valid() && t.Glyph(c).Delete() == t
    ensures t.Glyph(c).rows[t.y][t.x] == Cell(c, t.attr) && t.Glyph(c).x == t.x + 1
    ensures t.(x := 0).Delete() == t.(x := 0)
  {
    t.LineFeedValid();
    assert t.rows[t.y][t.x := Cell(c, t.attr)][t.x := t.erase] == t.rows[t.y];
    assert t.rows[t.y := t.rows[t.y][t.x := Cell(c, t.attr)]][t.y := t.rows[t.y]] == t.rows;
  }

  /** What each of the 256 bytes does on the two output paths. */
  lemma EveryByte(t: Terminal, c: byte)
    requires t.Valid()
    ensures 32 <= c <= 126 ==> t.WriteByte(c) == t.PrintByte(c) == t.Glyph(c)
    ensures 10 <= c <= 12 ==> t.WriteByte(c) == t.LineFeed()
    ensures c == 13 ==> t.WriteByte(c) == t.PrintByte(c) == t.(x := 0)
    ensures c < 10 || 14 <= c < 32 || 127 <= c ==> t.WriteByte(c) == t
    ensures c == 10 ==> t.PrintByte(c) == t.(x := 0).LineFeed()
    ensures c != 10 && c != 13 ==> t.PrintByte(c) == t.Glyph(c)
  {
  }

  /** The screen after console_print has consumed `s`. */
  ghost function Print(t: Terminal, s: seq<byte>): (u: Terminal)
    requires t.Valid()
    ensures u.Valid() && SameShape(t, u)
  {
    if s == [] then t
    else
      var before := Print(t, s[..|s| - 1]);
      StepsKeepValid(before, s[|s| - 1]);
      before.PrintByte(s[|s| - 1])
  }

  /** The screen after con_write has drained a queue holding `s`. */
  ghost function Write(t: Terminal, s: seq<byte>): (u: Terminal)
    requires t.Valid()
    ensures u.Valid() && SameShape(t, u)
  {
    if s == [] then t
    else
      var before := Write(t, s[..|s| - 1]);
      StepsKeepValid(before, s[|s| - 1]);
      before.WriteByte(s[|s| - 1])
  }

  lemma PrintNext(t: Terminal, s: seq<byte>, k: nat)
    requires t.Valid() && k < |s|
    ensures Print(t, s[..k + 1]) == Print(t, s[..k]).PrintByte(s[k])
  {
    assert s[..k + 1][..k] == s[..k];
  }

  lemma WriteNext(t: Terminal, s: seq<byte>, k: nat)
    requires t.Valid() && k < |s|
    ensures Write(t, s[..k + 1]) == Write(t, s[..k]).WriteByte(s[k])
  {
    assert s[..k + 1][..k] == s[..k];
  }

  lemma {:induction false} PrintAppend(t: Terminal, s: seq<byte>, u: seq<byte>)
    requires t.Valid()
    ensures Print(t, s + u) == Print(Print(t, s), u)
  {
    if u == [] {
      assert s + u == s;
    } else {
      assert (s + u)[..|s + u| - 1] == s + u[..|u| - 1];
      PrintAppend(t, s, u[..|u| - 1]);
    }
  }

  lemma {:induction false} WriteAppend(t: Terminal, s: seq<byte>, u: seq<byte>)
    requires t.Valid()
    ensures Write(t, s + u) == Write(Write(t, s), u)
  {
    if u == [] {
      assert s + u == s;
    } else {
      assert (s + u)[..|s + u| - 1] == s + u[..|u| - 1];
      WriteAppend(t, s, u[..|u| - 1]);
    }
  }

  // ---------------------------------------------------------------------------------------
  // An even simpler terminal: an endless sheet of paper.
  // ---------------------------------------------------------------------------------------

  /** A teleprinter: rows are only ever appended. */
  datatype Paper = Paper(columns: nat, attr: byte, erase: Cell, rows: seq<seq<Cell>>, x: nat, y: nat)
  {
    ghost predicate Valid() {
      && 0 < columns
      && (forall r :: 0 <= r < |rows| ==> |rows[r]| == columns)
      && x <= columns
      && y < |rows|
    }

    function NewLine(): (p: Paper) {
      var down := this.(x := 0, y := y + 1);
      if y + 1 < |rows| then down else down.(rows := rows + [BlankRow(columns, erase)])
    }

    function PrintByte(c: byte): (p: Paper)
      requires Valid()
    {
      if c == LF then NewLine()
      else if c == CR then this.(x := 0)
      else
        Wrapped().Struck(Cell(c, attr))
    }

    /** The delayed wrap, when it is due. */
    function Wrapped(): (p: Paper)
      requires Valid()
      ensures p.Valid() && p.x < p.columns
    {
      if x == columns then NewLine() else this
    }

    function Struck(cell: Cell): (p: Paper)
      requires Valid() && x < columns
      ensures p.Valid()
    {
      this.(rows := rows[y := rows[y][x := cell]], x := x + 1)
    }
  }

  ghost function Type(p: Paper, s: seq<byte>): (q: Paper)
    requires p.Valid()
    ensures q.Valid()
  {
    if s == [] then p else Type(p, s[..|s| - 1]).PrintByte(s[|s| - 1])
  }

  /** The screen shows the last rows of the paper. */
  ghost predicate ShowsEndOf(t: Terminal, p: Paper) {
    && t.Valid() && p.Valid() && t.FullScreen()
    && t.columns == p.columns && t.attr == p.attr && t.erase == p.erase
    && |t.rows| <= |p.rows|
    && t.rows == p.rows[|p.rows| - |t.rows|..]
    && t.x == p.x
    && t.y + (|p.rows| - |t.rows|) == p.y
  }

  function PaperOf(t: Terminal): Paper {
    Paper(t.columns, t.attr, t.erase, t.rows, t.x, t.y)
  }

  lemma DownShows(t: Terminal, p: Paper)
    requires ShowsEndOf(t, p) && t.y + 1 < |t.rows|
    ensures ShowsEndOf(t.(x := 0, y := t.y + 1), p.(x := 0, y := p.y + 1))
  {
  }

  /** A row added to the paper is the last row on screen, and the first is lost. */
  lemma RowAddedShows(t: Terminal, p: Paper, blank: seq<Cell>)
    requires ShowsEndOf(t, p) && t.y + 1 == |t.rows| && |blank| == t.columns
    ensures ShowsEndOf(t.(x := 0, rows := t.rows[1..] + [blank]),
                       p.(x := 0, y := p.y + 1, rows := p.rows + [blank]))
  {
    assert t.rows[1..] + [blank] == (p.rows + [blank])[|p.rows| + 1 - |t.rows|..];
  }

  lemma NewLineShows(t: Terminal, p: Paper)
    requires ShowsEndOf(t, p)
    ensures ShowsEndOf(t.CarriageReturn().LineFeed(), p.NewLine())
  {
    var blank := BlankRow(t.columns, t.erase);
    if t.y + 1 < |t.rows| {
      DownShows(t, p);
    } else {
      RowAddedShows(t, p, blank);
      assert ScrolledUp(t.rows, 0, |t.rows|, blank) == t.rows[1..] + [blank];
    }
    hide BlankRow, ScrolledUp;
  }

  lemma SameCursor(t: Terminal, p: Paper)
    requires ShowsEndOf(t, p)
    ensures t.Valid() && p.Valid() && t.x == p.x && t.columns == p.columns && t.attr == p.attr
  {
    t.LineFeedValid();
  }

  lemma CarriageShows(t: Terminal, p: Paper)
    requires ShowsEndOf(t, p)
    ensures ShowsEndOf(t.CarriageReturn(), p.(x := 0))
  {
  }

  lemma PutShows(t: Terminal, p: Paper, cell: Cell)
    requires ShowsEndOf(t, p) && t.x < t.columns
    ensures ShowsEndOf(t.Put(cell).(x := t.x + 1),
                       p.(rows := p.rows[p.y := p.rows[p.y][p.x := cell]], x := p.x + 1))
  {
    var off := |p.rows| - |t.rows|;
    assert t.rows[t.y] == p.rows[off + t.y];
    assert t.rows[t.y := t.rows[t.y][t.x := cell]]
        == p.rows[p.y := p.rows[p.y][p.x := cell]][off..];
  }

  lemma StepShows(t: Terminal, p: Paper, c: byte)
    requires ShowsEndOf(t, p)
    ensures ShowsEndOf(t.PrintByte(c), p.PrintByte(c))
  {
    hide ShowsEndOf, Terminal.Put, Paper.NewLine;
    NewLineShows(t, p);
    SameCursor(t, p);
    t.LineFeedValid();
    if c == CR {
      CarriageShows(t, p);
    } else if c != LF {
      if t.x == t.columns {
        PutShows(t.CarriageReturn().LineFeed(), p.NewLine(), Cell(c, t.attr));
      } else {
        PutShows(t, p, Cell(c, t.attr));
      }
    }
  }

  /** Whatever is printed, a full-screen terminal is a window on the end of the paper. */
  lemma {:induction false} ScreenShowsEndOfPaper(t: Terminal, s: seq<byte>)
    requires t.Valid() && t.FullScreen()
    ensures ShowsEndOf(Print(t, s), Type(PaperOf(t), s))
  {
    if s != [] {
      ScreenShowsEndOfPaper(t, s[..|s| - 1]);
      StepShows(Print(t, s[..|s| - 1]), Type(PaperOf(t), s[..|s| - 1]), s[|s| - 1]);
    }
  }

  // ---------------------------------------------------------------------------------------
  // Where text without line feeds and carriage returns lands.
  // ---------------------------------------------------------------------------------------

  ghost predicate OneLine(s: seq<byte>) {
    forall k :: 0 <= k < |s| ==> s[k] != LF && s[k] != CR
  }

  /** The row and the column of place `k`, rows being `c` places wide. */
  function Row(k: nat, c: nat): nat
    requires 0 < c
  {
    k / c
  }

  function Column(k: nat, c: nat): (x: nat)
    requires 0 < c
    ensures x < c
  {
    k % c
  }

  /** Byte `i` of the text stands `i` places on from the cursor, counting on through the rows. */
  ghost predicate Lands(p: Paper, q: Paper, s: seq<byte>, i: nat)
    requires p.Valid() && q.Valid() && i < |s|
  {
    Holds(q, p.y + Row(p.x + i, p.columns), Column(p.x + i, p.columns), Cell(s[i], p.attr))
  }

  predicate Holds(q: Paper, row: nat, column: nat, cell: Cell) {
    row < |q.rows| && column < |q.rows[row]| && q.rows[row][column] == cell
  }

  lemma DivideNext(k: nat, c: nat)
    requires 0 < c
    ensures if k % c == c - 1 then (k + 1) / c == k / c + 1 && (k + 1) % c == 0
            else (k + 1) / c == k / c && (k + 1) % c == k % c + 1
  {
    var q, r := k / c, k % c;
    assert k == q * c + r;
    if r == c - 1 {
      assert k + 1 == (q + 1) * c;
      QuotientIs(k + 1, c, q + 1, 0);
    } else {
      QuotientIs(k + 1, c, q, r + 1);
    }
  }

  lemma QuotientIs(n: nat, c: nat, q: nat, r: nat)
    requires r < c && n == q * c + r
    ensures n / c == q && n % c == r
  {
    var q', r' := n / c, n % c;
    assert n == q' * c + r';
    if q' < q {
      MulStrict(q', q, c);
    } else if q < q' {
      MulStrict(q, q', c);
    }
  }

  lemma {:induction false} MulStrict(a: nat, b: nat, c: nat)
    requires a < b
    ensures a * c + c <= b * c
  {
    if a + 1 < b {
      MulStrict(a, b - 1, c);
    }
    assert b * c == (b - 1) * c + c;
  }

  /** The cursor, wrap delayed, after a line of `s` has been typed. */
  ghost predicate CursorAfter(p: Paper, q: Paper, n: nat)
    requires p.Valid()
  {
    && q.columns == p.columns && q.attr == p.attr
    && (if n == 0 then q.x == p.x && q.y == p.y
        else q.x == Column(p.x + n - 1, p.columns) + 1 && q.y == p.y + Row(p.x + n - 1, p.columns))
  }

  /** The cell that the next glyph takes. */
  lemma NextCell(p: Paper, q: Paper, n: nat)
    requires p.Valid() && q.Valid() && CursorAfter(p, q, n)
    ensures var at := q.Wrapped();
            at.y == p.y + Row(p.x + n, p.columns) && at.x == Column(p.x + n, p.columns)
  {
    if n == 0 {
      if p.x == p.columns {
        QuotientIs(p.x, p.columns, 1, 0);
      } else {
        QuotientIs(p.x, p.columns, 0, p.x);
      }
    } else {
      DivideNext(p.x + n - 1, p.columns);
    }
  }

  /** Different numbers have a different quotient or a different remainder. */
  lemma DistinctPlaces(i: nat, n: nat, c: nat)
    requires 0 < c && i != n
    ensures Row(i, c) != Row(n, c) || Column(i, c) != Column(n, c)
  {
    assert i == i / c * c + i % c;
    assert n == n / c * c + n % c;
  }

  lemma StrikeKeeps(q: Paper, struck: Cell, row: nat, column: nat, cell: Cell)
    requires q.Valid() && Holds(q, row, column, cell)
    requires row != q.Wrapped().y || column != q.Wrapped().x
    ensures Holds(q.Wrapped().Struck(struck), row, column, cell)
  {
  }

  lemma LandsStill(p: Paper, q: Paper, s: seq<byte>, i: nat, c: byte)
    requires p.Valid() && q.Valid() && CursorAfter(p, q, |s|) && i < |s| && Lands(p, q, s, i)
    requires c != LF && c != CR
    ensures q.PrintByte(c).Valid() && Lands(p, q.PrintByte(c), s + [c], i)
  {
    hide Row, Column, Paper.Struck, Paper.Wrapped;
    NextCell(p, q, |s|);
    DistinctPlaces(p.x + i, p.x + |s|, p.columns);
    StrikeKeeps(q, Cell(c, q.attr), p.y + Row(p.x + i, p.columns), Column(p.x + i, p.columns), Cell(s[i], p.attr));
    SameLanding(p, q, s, i, c);
  }

  lemma SameLanding(p: Paper, q: Paper, s: seq<byte>, i: nat, c: byte)
    requires p.Valid() && q.Valid() && i < |s| && c != LF && c != CR
    requires Holds(q.Wrapped().Struck(Cell(c, q.attr)), p.y + Row(p.x + i, p.columns), Column(p.x + i, p.columns),
                   Cell(s[i], p.attr))
    ensures q.PrintByte(c).Valid() && Lands(p, q.PrintByte(c), s + [c], i)
  {
    hide Holds, Paper.Struck, Paper.Wrapped, Row, Column;
    assert (s + [c])[i] == s[i];
  }

  lemma LandsNow(p: Paper, q: Paper, s: seq<byte>, c: byte)
    requires p.Valid() && q.Valid() && CursorAfter(p, q, |s|)
    requires c != LF && c != CR
    ensures q.PrintByte(c).Valid() && Lands(p, q.PrintByte(c), s + [c], |s|)
    ensures CursorAfter(p, q.PrintByte(c), |s| + 1)
  {
    hide Row, Column;
    NextCell(p, q, |s|);
  }

  /** A line of text flows from the cursor on, each row full before the next begins. */
  lemma {:induction false} TextFlows(p: Paper, s: seq<byte>)
    requires p.Valid() && OneLine(s)
    ensures CursorAfter(p, Type(p, s), |s|)
    ensures forall i :: 0 <= i < |s| ==> Lands(p, Type(p, s), s, i)
  {
    hide Row, Column;
    if s != [] {
      var front, c := s[..|s| - 1], s[|s| - 1];
      TextFlows(p, front);
      var q := Type(p, front);
      LandsNow(p, q, front, c);
      assert front + [c] == s;
      forall i | 0 <= i < |front|
        ensures Lands(p, Type(p, s), s, i)
      {
        LandsStill(p, q, front, i, c);
      }
    }
  }
}
