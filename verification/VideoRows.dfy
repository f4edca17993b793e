/**
 Video memory read as rows of cells.  Every cell is two bytes, glyph first, so a row of `columns`
 cells takes 2 * columns bytes.
 */
module VideoRows {
  import opened Machine
  import opened Screen

  /** The bytes taken by `n` rows: n * video_size_row, summed row by row. */
  function Span(n: nat, columns: nat): nat {
    if n == 0 then 0 else Span(n - 1, columns) + 2 * columns
  }

  lemma {:induction false} SpanIsProduct(n: nat, columns: nat)
    ensures Span(n, columns) == n * (2 * columns)
  {
    if n > 0 {
      SpanIsProduct(n - 1, columns);
      assert n * (2 * columns) == (n - 1) * (2 * columns) + 2 * columns;
    }
  }

  lemma {:induction false} SpanEven(n: nat, columns: nat)
    ensures Span(n, columns) % 2 == 0
  {
    if n > 0 {
      SpanEven(n - 1, columns);
    }
  }

  lemma {:induction false} SpanBelow(a: nat, b: nat, columns: nat)
    requires a < b
    ensures Span(a, columns) + 2 * columns <= Span(b, columns)
  {
    if a + 1 < b {
      SpanBelow(a, b - 1, columns);
    }
  }

  lemma {:induction false} SpanSum(a: nat, b: nat, columns: nat)
    ensures Span(a, columns) + Span(b, columns) == Span(a + b, columns)
  {
    if b > 0 {
      SpanSum(a, b - 1, columns);
    }
  }

  function RowAt(m: seq<byte>, a: nat, columns: nat): (row: seq<Cell>)
    requires a + 2 * columns <= |m|
  {
    seq(columns, c requires 0 <= c < columns => Cell(m[a + 2 * c], m[a + 2 * c + 1]))
  }

  function Rows(m: seq<byte>, origin: nat, columns: nat, lines: nat): (rows: seq<seq<Cell>>)
    requires origin + Span(lines, columns) <= |m|
    ensures |rows| == lines
    ensures forall r :: 0 <= r < lines ==> |rows[r]| == columns
  {
    if lines == 0 then []
    else Rows(m, origin, columns, lines - 1) + [RowAt(m, origin + Span(lines - 1, columns), columns)]
  }

  lemma {:induction false} RowIs(m: seq<byte>, origin: nat, columns: nat, lines: nat, r: nat)
    requires origin + Span(lines, columns) <= |m| && r < lines
    ensures origin + Span(r, columns) + 2 * columns <= origin + Span(lines, columns)
    ensures Rows(m, origin, columns, lines)[r] == RowAt(m, origin + Span(r, columns), columns)
  {
    SpanBelow(r, lines, columns);
    if r < lines - 1 {
      RowIs(m, origin, columns, lines - 1, r);
    }
  }

  /** Where a cell is kept: its glyph first, its attribute behind it. */
  lemma CellAtAddress(m: seq<byte>, origin: nat, columns: nat, lines: nat, r: nat, c: nat)
    requires origin + Span(lines, columns) <= |m| && r < lines && c < columns
    ensures var a := origin + r * (2 * columns) + 2 * c;
            a + 1 < |m| && Rows(m, origin, columns, lines)[r][c] == Cell(m[a], m[a + 1])
  {
    RowIs(m, origin, columns, lines, r);
    SpanIsProduct(r, columns);
  }

  function BlankBytes(columns: nat, erase: Cell): (b: seq<byte>)
    ensures |b| == 2 * columns
  {
    seq(2 * columns, i => if i % 2 == 0 then erase.glyph else erase.attr)
  }

  /** `length` bytes moved down from `src` to `dst`, then one blank row. */
  function CopyThenBlank(m: seq<byte>, dst: nat, src: nat, length: nat, columns: nat, erase: Cell): (r: seq<byte>)
    requires dst <= src && src + length <= |m| && dst + length + 2 * columns <= |m|
    ensures |r| == |m|
  {
    m[..dst] + m[src..src + length] + BlankBytes(columns, erase) + m[dst + length + 2 * columns..]
  }

  /** `length` bytes moved up to end at `end`, then one blank row below them. */
  function BlankThenCopy(m: seq<byte>, end: nat, length: nat, columns: nat, erase: Cell): (r: seq<byte>)
    requires length + 2 * columns <= end <= |m|
    ensures |r| == |m|
  {
    m[..end - length - 2 * columns] + BlankBytes(columns, erase)
      + m[end - length - 2 * columns..end - 2 * columns] + m[end..]
  }

  /** The `length` bytes of `n` at `b` are those of `m` at `a`. */
  ghost predicate Moved(m: seq<byte>, a: nat, n: seq<byte>, b: nat, length: nat) {
    a + length <= |m| && b + length <= |n| && m[a..a + length] == n[b..b + length]
  }

  lemma RowMoved(m: seq<byte>, a: nat, n: seq<byte>, b: nat, length: nat, offset: nat, columns: nat)
    requires Moved(m, a, n, b, length) && offset + 2 * columns <= length
    ensures RowAt(m, a + offset, columns) == RowAt(n, b + offset, columns)
  {
    var r1, r2 := RowAt(m, a + offset, columns), RowAt(n, b + offset, columns);
    forall c | 0 <= c < columns
      ensures r1[c] == r2[c]
    {
      assert m[a..a + length][offset + 2 * c] == n[b..b + length][offset + 2 * c];
      assert m[a..a + length][offset + 2 * c + 1] == n[b..b + length][offset + 2 * c + 1];
    }
  }

  lemma FourParts(a: seq<byte>, b: seq<byte>, c: seq<byte>, d: seq<byte>)
    ensures var s := a + b + c + d;
            && s[..|a|] == a && s[|a|..|a| + |b|] == b
            && s[|a| + |b|..|a| + |b| + |c|] == c && s[|a| + |b| + |c|..] == d
  {
  }

  lemma CopyThenBlankParts(m: seq<byte>, dst: nat, src: nat, length: nat, columns: nat, erase: Cell)
    requires dst <= src && src + length <= |m| && dst + length + 2 * columns <= |m|
    ensures var n := CopyThenBlank(m, dst, src, length, columns, erase);
            var rest := dst + length + 2 * columns;
            && Moved(m, 0, n, 0, dst) && Moved(m, src, n, dst, length)
            && Moved(BlankBytes(columns, erase), 0, n, dst + length, 2 * columns)
            && Moved(m, rest, n, rest, |m| - rest)
  {
    hide BlankBytes;
    var blank, rest := BlankBytes(columns, erase), dst + length + 2 * columns;
    FourParts(m[..dst], m[src..src + length], blank, m[rest..]);
    assert blank[0..2 * columns] == blank;
  }

  lemma CopyThenBlankFrame(m: seq<byte>, dst: nat, src: nat, length: nat, columns: nat, erase: Cell,
                           low: nat, high: nat)
    requires dst <= src && src + length <= |m| && dst + length + 2 * columns <= |m|
    requires low <= dst && dst + length + 2 * columns <= high
    ensures OutsideSame(m, CopyThenBlank(m, dst, src, length, columns, erase), low, high)
  {
  }

  lemma BlankThenCopyParts(m: seq<byte>, end: nat, length: nat, columns: nat, erase: Cell)
    requires length + 2 * columns <= end <= |m|
    ensures var n := BlankThenCopy(m, end, length, columns, erase);
            var low := end - length - 2 * columns;
            && Moved(m, 0, n, 0, low) && Moved(BlankBytes(columns, erase), 0, n, low, 2 * columns)
            && Moved(m, low, n, low + 2 * columns, length) && Moved(m, end, n, end, |m| - end)
  {
    hide BlankBytes;
    var blank, low := BlankBytes(columns, erase), end - length - 2 * columns;
    FourParts(m[..low], blank, m[low..end - 2 * columns], m[end..]);
    assert blank[0..2 * columns] == blank;
  }

  lemma RowBlank(n: seq<byte>, a: nat, columns: nat, erase: Cell)
    requires Moved(BlankBytes(columns, erase), 0, n, a, 2 * columns)
    ensures RowAt(n, a, columns) == BlankRow(columns, erase)
  {
    RowMoved(BlankBytes(columns, erase), 0, n, a, 2 * columns, 0, columns);
  }

  /** Memory is the same but for `low..high`. */
  ghost predicate OutsideSame(m: seq<byte>, n: seq<byte>, low: nat, high: nat) {
    |m| == |n| && forall a :: 0 <= a < |m| && !(low <= a < high) ==> m[a] == n[a]
  }

  lemma OutsideSameThen(a: seq<byte>, b: seq<byte>, c: seq<byte>, low: nat, high: nat)
    requires OutsideSame(a, b, low, high) && OutsideSame(b, c, low, high)
    ensures OutsideSame(a, c, low, high)
  {
  }

  lemma OutsideSameWider(a: seq<byte>, b: seq<byte>, low: nat, high: nat, low': nat, high': nat)
    requires OutsideSame(a, b, low, high) && low' <= low && high <= high'
    ensures OutsideSame(a, b, low', high')
  {
  }

  /** One word stored at `p`. */
  function Stored(m: seq<byte>, p: nat, cell: Cell): (n: seq<byte>)
    requires p + 1 < |m|
    ensures |n| == |m|
  {
    m[p := cell.glyph][p + 1 := cell.attr]
  }

  /** Storing one word on screen changes the one cell it belongs to. */
  lemma StoreChangesOneCell(m: seq<byte>, origin: nat, columns: nat, lines: nat, x: nat, y: nat, cell: Cell)
    requires origin + Span(lines, columns) <= |m| && x < columns && y < lines
    ensures origin + Span(y, columns) + 2 * x + 1 < origin + Span(lines, columns)
    ensures var p := origin + Span(y, columns) + 2 * x;
            var before := Rows(m, origin, columns, lines);
            Rows(Stored(m, p, cell), origin, columns, lines)
              == before[y := before[y][x := cell]]
  {
    SpanBelow(y, lines, columns);
    var p := origin + Span(y, columns) + 2 * x;
    var n := Stored(m, p, cell);
    var before := Rows(m, origin, columns, lines);
    forall r | 0 <= r < lines
      ensures Rows(n, origin, columns, lines)[r] == before[y := before[y][x := cell]][r]
    {
      RowIs(m, origin, columns, lines, r);
      RowIs(n, origin, columns, lines, r);
      var a := origin + Span(r, columns);
      if r == y {
        assert RowAt(n, a, columns) == RowAt(m, a, columns)[x := cell];
      } else {
        if r < y { SpanBelow(r, y, columns); } else { SpanBelow(y, r, columns); }
        RowMoved(m, a, n, a, 2 * columns, 0, columns);
      }
    }
  }

  lemma RowOfMovedBlock(m: seq<byte>, origin: nat, n: seq<byte>, newOrigin: nat, columns: nat, lines: nat, r: nat)
    requires r < lines && Moved(m, origin, n, newOrigin, Span(lines, columns))
    ensures Rows(n, newOrigin, columns, lines)[r] == Rows(m, origin, columns, lines)[r]
  {
    RowIs(m, origin, columns, lines, r);
    RowIs(n, newOrigin, columns, lines, r);
    RowMoved(m, origin, n, newOrigin, Span(lines, columns), Span(r, columns), columns);
  }

  /** Rows move with their bytes. */
  lemma RowsMoved(m: seq<byte>, origin: nat, n: seq<byte>, newOrigin: nat, columns: nat, lines: nat)
    requires Moved(m, origin, n, newOrigin, Span(lines, columns))
    ensures Rows(n, newOrigin, columns, lines) == Rows(m, origin, columns, lines)
  {
    forall r | 0 <= r < lines
      ensures Rows(n, newOrigin, columns, lines)[r] == Rows(m, origin, columns, lines)[r]
    {
      RowOfMovedBlock(m, origin, n, newOrigin, columns, lines, r);
    }
  }

  /** Rows depend on nothing but the bytes of their window. */
  lemma RowsFrame(m: seq<byte>, n: seq<byte>, origin: nat, columns: nat, lines: nat)
    requires origin + Span(lines, columns) <= |m| && |m| == |n|
    requires forall i :: origin <= i < origin + Span(lines, columns) ==> m[i] == n[i]
    ensures Rows(m, origin, columns, lines) == Rows(n, origin, columns, lines)
  {
    RowsMoved(m, origin, n, origin, columns, lines);
  }

  /** A window is the rows above row `k` and the rows from it on. */
  lemma {:induction false} RowsSplit(m: seq<byte>, origin: nat, columns: nat, k: nat, lines: nat)
    requires k <= lines && origin + Span(lines, columns) <= |m|
    ensures Span(k, columns) + Span(lines - k, columns) == Span(lines, columns)
    ensures Rows(m, origin, columns, lines)
      == Rows(m, origin, columns, k) + Rows(m, origin + Span(k, columns), columns, lines - k)
  {
    SpanSum(k, lines - k, columns);
    if k < lines {
      RowsSplit(m, origin, columns, k, lines - 1);
    }
  }

  lemma OneRow(m: seq<byte>, origin: nat, columns: nat)
    requires origin + 2 * columns <= |m|
    ensures Span(1, columns) == 2 * columns
    ensures Rows(m, origin, columns, 1) == [RowAt(m, origin, columns)]
  {
    assert Rows(m, origin, columns, 0) == [];
  }

  lemma LastRow(m: seq<byte>, origin: nat, columns: nat, lines: nat)
    requires 0 < lines && origin + Span(lines, columns) <= |m|
    ensures Span(lines, columns) == Span(lines - 1, columns) + 2 * columns
    ensures Rows(m, origin, columns, lines)
      == Rows(m, origin, columns, lines - 1) + [RowAt(m, origin + Span(lines - 1, columns), columns)]
  {
  }

  lemma ScrolledUpWhole(first: seq<Cell>, rest: seq<seq<Cell>>, blank: seq<Cell>)
    ensures ScrolledUp([first] + rest, 0, |rest| + 1, blank) == rest + [blank]
  {
  }

  lemma ScrolledDownWhole(rest: seq<seq<Cell>>, last: seq<Cell>, blank: seq<Cell>)
    ensures ScrolledDown(rest + [last], 0, |rest| + 1, blank) == [blank] + rest
  {
  }

  lemma ScrolledUpWithin(above: seq<seq<Cell>>, region: seq<seq<Cell>>, below: seq<seq<Cell>>, blank: seq<Cell>)
    requires region != []
    ensures ScrolledUp(above + region + below, |above|, |above| + |region|, blank)
      == above + ScrolledUp(region, 0, |region|, blank) + below
  {
  }

  lemma ScrolledDownWithin(above: seq<seq<Cell>>, region: seq<seq<Cell>>, below: seq<seq<Cell>>, blank: seq<Cell>)
    requires region != []
    ensures ScrolledDown(above + region + below, |above|, |above| + |region|, blank)
      == above + ScrolledDown(region, 0, |region|, blank) + below
  {
  }

  /**
   The heart of every scroll: a block of `lines - 1` rows that now stands one row higher in its
   window, and a blank row below it.
   */
  lemma BlockUp(m: seq<byte>, origin: nat, n: seq<byte>, newOrigin: nat, columns: nat, lines: nat, erase: Cell)
    requires 0 < lines && origin + Span(lines, columns) <= |m| && newOrigin + Span(lines, columns) <= |n|
    requires Moved(m, origin + 2 * columns, n, newOrigin, Span(lines - 1, columns))
    requires Moved(BlankBytes(columns, erase), 0, n, newOrigin + Span(lines - 1, columns), 2 * columns)
    ensures Rows(n, newOrigin, columns, lines)
      == ScrolledUp(Rows(m, origin, columns, lines), 0, lines, BlankRow(columns, erase))
  {
    hide ScrolledUp, BlankBytes, BlankRow, RowAt, Moved, Rows;
    RowsSplit(m, origin, columns, 1, lines);
    OneRow(m, origin, columns);
    LastRow(n, newOrigin, columns, lines);
    RowsMoved(m, origin + 2 * columns, n, newOrigin, columns, lines - 1);
    RowBlank(n, newOrigin + Span(lines - 1, columns), columns, erase);
    ScrolledUpWhole(RowAt(m, origin, columns), Rows(m, origin + 2 * columns, columns, lines - 1),
                    BlankRow(columns, erase));
  }

  /** The mirror image: a blank row above a block that stands one row lower. */
  lemma BlockDown(m: seq<byte>, origin: nat, n: seq<byte>, columns: nat, lines: nat, erase: Cell)
    requires 0 < lines && origin + Span(lines, columns) <= |m| && |m| == |n|
    requires Moved(m, origin, n, origin + 2 * columns, Span(lines - 1, columns))
    requires Moved(BlankBytes(columns, erase), 0, n, origin, 2 * columns)
    ensures Rows(n, origin, columns, lines)
      == ScrolledDown(Rows(m, origin, columns, lines), 0, lines, BlankRow(columns, erase))
  {
    hide ScrolledDown, BlankBytes, BlankRow, RowAt, Moved, Rows;
    RowsSplit(n, origin, columns, 1, lines);
    OneRow(n, origin, columns);
    LastRow(m, origin, columns, lines);
    RowsMoved(m, origin, n, origin + 2 * columns, columns, lines - 1);
    RowBlank(n, origin, columns, erase);
    ScrolledDownWhole(Rows(m, origin, columns, lines - 1), RowAt(m, origin + Span(lines - 1, columns), columns),
                      BlankRow(columns, erase));
  }

  /** The window slides one row on and the row that enters is blanked. */
  lemma SlideShowsScroll(m: seq<byte>, origin: nat, columns: nat, lines: nat, erase: Cell)
    requires 0 < lines && origin + Span(lines, columns) + 2 * columns <= |m|
    ensures
      var end := origin + Span(lines, columns);
      Rows(CopyThenBlank(m, end, end, 0, columns, erase), origin + 2 * columns, columns, lines)
        == ScrolledUp(Rows(m, origin, columns, lines), 0, lines, BlankRow(columns, erase))
  {
    var end := origin + Span(lines, columns);
    CopyThenBlankParts(m, end, end, 0, columns, erase);
    var n := CopyThenBlank(m, end, end, 0, columns, erase);
    SubMoved(m, 0, n, 0, end, origin + 2 * columns, Span(lines - 1, columns));
    BlockUp(m, origin, n, origin + 2 * columns, columns, lines, erase);
  }

  /** The rows below the first are copied to `start`, even when the two areas overlap. */
  lemma CopyBackShowsScroll(m: seq<byte>, start: nat, origin: nat, columns: nat, lines: nat, erase: Cell)
    requires 0 < lines && start <= origin && origin + Span(lines, columns) <= |m|
    ensures
      Rows(CopyThenBlank(m, start, origin + 2 * columns, Span(lines - 1, columns), columns, erase),
           start, columns, lines)
        == ScrolledUp(Rows(m, origin, columns, lines), 0, lines, BlankRow(columns, erase))
  {
    CopyThenBlankParts(m, start, origin + 2 * columns, Span(lines - 1, columns), columns, erase);
    BlockUp(m, origin, CopyThenBlank(m, start, origin + 2 * columns, Span(lines - 1, columns), columns, erase),
            start, columns, lines, erase);
  }

  lemma RowsInThree(m: seq<byte>, origin: nat, columns: nat, lines: nat, top: nat, bottom: nat)
    requires top < bottom <= lines && origin + Span(lines, columns) <= |m|
    ensures Span(top, columns) + Span(bottom - top, columns) == Span(bottom, columns)
    ensures Span(bottom, columns) + Span(lines - bottom, columns) == Span(lines, columns)
    ensures Rows(m, origin, columns, lines)
      == Rows(m, origin, columns, top) + Rows(m, origin + Span(top, columns), columns, bottom - top)
         + Rows(m, origin + Span(bottom, columns), columns, lines - bottom)
  {
    RowsSplit(m, origin, columns, bottom, lines);
    RowsSplit(m, origin, columns, top, bottom);
  }

  lemma RegionSpans(columns: nat, lines: nat, top: nat, bottom: nat)
    requires top < bottom <= lines
    ensures Span(top, columns) + 2 * columns + Span(bottom - top - 1, columns) == Span(bottom, columns)
    ensures Span(bottom, columns) <= Span(lines, columns)
  {
    SpanSum(top + 1, bottom - top - 1, columns);
    SpanSum(bottom, lines - bottom, columns);
  }

  lemma SubMoved(m: seq<byte>, a: nat, n: seq<byte>, b: nat, length: nat, offset: nat, part: nat)
    requires Moved(m, a, n, b, length) && offset + part <= length
    ensures Moved(m, a + offset, n, b + offset, part)
  {
    var p, q := m[a + offset..a + offset + part], n[b + offset..b + offset + part];
    forall i | 0 <= i < part
      ensures p[i] == q[i]
    {
      assert m[a..a + length][offset + i] == n[b..b + length][offset + i];
    }
  }

  /** A window whose bytes outside the region `top..bottom` have stayed. */
  lemma RowsAroundRegion(m: seq<byte>, n: seq<byte>, origin: nat, columns: nat, lines: nat,
                         top: nat, bottom: nat, low: nat, end: nat)
    requires top < bottom <= lines && origin + Span(lines, columns) <= |m| && |m| == |n|
    requires low == origin + Span(top, columns) && end == origin + Span(bottom, columns) && end <= |m|
    requires Moved(m, 0, n, 0, low) && Moved(m, end, n, end, |m| - end)
    ensures end + Span(lines - bottom, columns) <= |m| && low + Span(bottom - top, columns) <= |m|
    ensures var above, below := Rows(m, origin, columns, top), Rows(m, end, columns, lines - bottom);
            && Rows(m, origin, columns, lines) == above + Rows(m, low, columns, bottom - top) + below
            && Rows(n, origin, columns, lines) == above + Rows(n, low, columns, bottom - top) + below
  {
    RegionSpans(columns, lines, top, bottom);
    RowsInThree(m, origin, columns, lines, top, bottom);
    RowsInThree(n, origin, columns, lines, top, bottom);
    SubMoved(m, 0, n, 0, low, origin, Span(top, columns));
    RowsMoved(m, origin, n, origin, columns, top);
    SubMoved(m, end, n, end, |m| - end, 0, Span(lines - bottom, columns));
    RowsMoved(m, end, n, end, columns, lines - bottom);
  }

  /** What the rows are once the region `top..bottom` has moved up and the rest has stayed. */
  lemma RegionMovedUp(m: seq<byte>, n: seq<byte>, origin: nat, columns: nat, lines: nat,
                      top: nat, bottom: nat, low: nat, end: nat, erase: Cell)
    requires top < bottom <= lines && origin + Span(lines, columns) <= |m| && |m| == |n|
    requires low == origin + Span(top, columns) && end == origin + Span(bottom, columns) && end <= |m|
    requires Moved(m, 0, n, 0, low) && Moved(m, end, n, end, |m| - end)
    requires Moved(m, low + 2 * columns, n, low, Span(bottom - top - 1, columns))
    requires Moved(BlankBytes(columns, erase), 0, n, low + Span(bottom - top - 1, columns), 2 * columns)
    ensures Rows(n, origin, columns, lines)
      == ScrolledUp(Rows(m, origin, columns, lines), top, bottom, BlankRow(columns, erase))
  {
    hide Rows, RowAt, Moved, BlankBytes, BlankRow, ScrolledUp;
    RowsAroundRegion(m, n, origin, columns, lines, top, bottom, low, end);
    BlockUp(m, low, n, low, columns, bottom - top, erase);
    ScrolledUpWithin(Rows(m, origin, columns, top), Rows(m, low, columns, bottom - top),
                     Rows(m, end, columns, lines - bottom), BlankRow(columns, erase));
  }

  lemma RegionMovedDown(m: seq<byte>, n: seq<byte>, origin: nat, columns: nat, lines: nat,
                        top: nat, bottom: nat, low: nat, end: nat, erase: Cell)
    requires top < bottom <= lines && origin + Span(lines, columns) <= |m| && |m| == |n|
    requires low == origin + Span(top, columns) && end == origin + Span(bottom, columns) && end <= |m|
    requires Moved(m, 0, n, 0, low) && Moved(m, end, n, end, |m| - end)
    requires Moved(BlankBytes(columns, erase), 0, n, low, 2 * columns)
    requires Moved(m, low, n, low + 2 * columns, Span(bottom - top - 1, columns))
    ensures Rows(n, origin, columns, lines)
      == ScrolledDown(Rows(m, origin, columns, lines), top, bottom, BlankRow(columns, erase))
  {
    hide Rows, RowAt, Moved, BlankBytes, BlankRow, ScrolledDown;
    RowsAroundRegion(m, n, origin, columns, lines, top, bottom, low, end);
    BlockDown(m, low, n, columns, bottom - top, erase);
    ScrolledDownWithin(Rows(m, origin, columns, top), Rows(m, low, columns, bottom - top),
                       Rows(m, end, columns, lines - bottom), BlankRow(columns, erase));
  }

  /** A copy of whole rows scrolls the region up and leaves the other rows alone. */
  lemma FullCopyShowsScroll(m: seq<byte>, origin: nat, columns: nat, lines: nat, top: nat, bottom: nat, erase: Cell)
    requires top < bottom <= lines && origin + Span(lines, columns) <= |m|
    ensures origin + Span(top, columns) + 2 * columns + Span(bottom - top - 1, columns) <= |m|
    ensures
      var dst := origin + Span(top, columns);
      Rows(CopyThenBlank(m, dst, dst + 2 * columns, Span(bottom - top - 1, columns), columns, erase),
           origin, columns, lines)
        == ScrolledUp(Rows(m, origin, columns, lines), top, bottom, BlankRow(columns, erase))
  {
    RegionSpans(columns, lines, top, bottom);
    var dst, length := origin + Span(top, columns), Span(bottom - top - 1, columns);
    CopyThenBlankParts(m, dst, dst + 2 * columns, length, columns, erase);
    RegionMovedUp(m, CopyThenBlank(m, dst, dst + 2 * columns, length, columns, erase),
                  origin, columns, lines, top, bottom, dst, origin + Span(bottom, columns), erase);
  }

  /** The mirror image, for a copy downwards. */
  lemma RegionDownShowsScroll(m: seq<byte>, origin: nat, columns: nat, lines: nat, top: nat, bottom: nat, erase: Cell)
    requires top < bottom <= lines && origin + Span(lines, columns) <= |m|
    ensures Span(bottom - top - 1, columns) + 2 * columns <= origin + Span(bottom, columns) <= |m|
    ensures Rows(BlankThenCopy(m, origin + Span(bottom, columns), Span(bottom - top - 1, columns), columns, erase),
                 origin, columns, lines)
      == ScrolledDown(Rows(m, origin, columns, lines), top, bottom, BlankRow(columns, erase))
  {
    RegionSpans(columns, lines, top, bottom);
    var end, length := origin + Span(bottom, columns), Span(bottom - top - 1, columns);
    BlankThenCopyParts(m, end, length, columns, erase);
    RegionMovedDown(m, BlankThenCopy(m, end, length, columns, erase),
                    origin, columns, lines, top, bottom, origin + Span(top, columns), end, erase);
  }
}
