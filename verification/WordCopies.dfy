/**
 The scrolling copies count double words, two cells each: of an odd number of cells one is
 not moved.  Here is what that does to the screen, for each of the three copies.
 */
module WordCopies {
  import opened Machine
  import opened Screen
  import opened VideoRows

  /** The number of cells, rows * columns, is even. */
  predicate WholeRowsCopied(rows: nat, columns: nat) {
    rows % 2 == 0 || columns % 2 == 0
  }

  /** Bytes moved by a copy of `rows` rows: of an odd number of cells one is not moved. */
  function CopiedBytes(rows: nat, columns: nat): (n: nat) {
    if WholeRowsCopied(rows, columns) then Span(rows, columns)
    else
      assert Span(rows, columns) == Span(rows - 1, columns) + 2 * columns;
      Span(rows, columns) - 2
  }

  /** The count of double words given to rep movsl. */
  method CopyCount(rows: nat, columns: nat) returns (count: nat)
    ensures 4 * count == CopiedBytes(rows, columns) <= Span(rows, columns)
  {
    count := rows * columns / 2;
    SpanIsProduct(rows, columns);
    assert rows * (2 * columns) == 2 * (rows * columns);
    ProductParity(rows, columns);
  }

  lemma {:induction false} ProductParity(a: nat, b: nat)
    ensures a * b % 2 == 0 <==> a % 2 == 0 || b % 2 == 0
  {
    if a > 0 {
      ProductParity(a - 1, b);
      ParityStep((a - 1) * b, a, b);
      assert a * b == (a - 1) * b + b;
    }
  }

  lemma ParityStep(p: nat, a: nat, b: nat)
    requires 0 < a && (p % 2 == 0 <==> (a - 1) % 2 == 0 || b % 2 == 0)
    ensures (p + b) % 2 == 0 <==> a % 2 == 0 || b % 2 == 0
  {
  }

  ghost predicate CellIs(m: seq<byte>, a: nat, cell: Cell) {
    a + 1 < |m| && m[a] == cell.glyph && m[a + 1] == cell.attr
  }

  lemma BlankByteAt(columns: nat, erase: Cell, c: nat)
    requires c < columns
    ensures BlankBytes(columns, erase)[2 * c] == erase.glyph && BlankBytes(columns, erase)[2 * c + 1] == erase.attr
  {
  }

  /** Memory and origin after one fast scroll of the whole window within its slice. */
  ghost predicate WindowSlid(m: seq<byte>, origin: nat, n: seq<byte>, newOrigin: nat,
                             start: nat, end: nat, columns: nat, lines: nat, erase: Cell)
    requires 0 < lines && start <= origin && origin + Span(lines, columns) <= end <= |m|
  {
    var entering := origin + Span(lines, columns);
    if entering + 2 * columns <= end then
      newOrigin == origin + 2 * columns && n == CopyThenBlank(m, entering, entering, 0, columns, erase)
    else
      newOrigin == start
      && n == CopyThenBlank(m, start, origin + 2 * columns, CopiedBytes(lines - 1, columns), columns, erase)
  }

  /** A copy one cell short is harmless exactly when both corner cells are blank already. */
  lemma ShortCopyExact(m: seq<byte>, dst: nat, src: nat, length: nat, columns: nat, erase: Cell)
    requires 0 < columns && 2 <= length
    requires dst <= src && src + length <= |m| && dst + length + 2 * columns <= |m|
    ensures CopyThenBlank(m, dst, src, length - 2, columns, erase) == CopyThenBlank(m, dst, src, length, columns, erase)
      <==> CellIs(m, src + length - 2, erase) && CellIs(m, dst + length - 2 + 2 * columns, erase)
  {
    var short := CopyThenBlank(m, dst, src, length - 2, columns, erase);
    var full := CopyThenBlank(m, dst, src, length, columns, erase);
    var seam, corner := dst + length - 2, dst + length - 2 + 2 * columns;
    BlankByteAt(columns, erase, 0);
    BlankByteAt(columns, erase, columns - 1);
    assert short[seam] == erase.glyph && short[seam + 1] == erase.attr;
    assert full[seam] == m[src + length - 2] && full[seam + 1] == m[src + length - 1];
    assert short[corner] == m[corner] && short[corner + 1] == m[corner + 1];
    assert full[corner] == erase.glyph && full[corner + 1] == erase.attr;
    if CellIs(m, src + length - 2, erase) && CellIs(m, corner, erase) {
      ShortCopySame(m, dst, src, length, columns, erase);
    }
  }

  lemma ShortCopySame(m: seq<byte>, dst: nat, src: nat, length: nat, columns: nat, erase: Cell)
    requires 0 < columns && 2 <= length
    requires dst <= src && src + length <= |m| && dst + length + 2 * columns <= |m|
    requires CellIs(m, src + length - 2, erase) && CellIs(m, dst + length - 2 + 2 * columns, erase)
    ensures CopyThenBlank(m, dst, src, length - 2, columns, erase) == CopyThenBlank(m, dst, src, length, columns, erase)
  {
    var seam := dst + length - 2;
    BlankShift(columns, erase);
    var blank := BlankBytes(columns, erase);
    assert m[src..src + length] == m[src..src + length - 2] + blank[..2];
    assert m[seam + 2 * columns..] == blank[|blank| - 2..] + m[dst + length + 2 * columns..];
  }

  /** A row of blanks is a blank cell and the rest, or the rest and a blank cell. */
  lemma BlankShift(columns: nat, erase: Cell)
    requires 0 < columns
    ensures var blank := BlankBytes(columns, erase);
            && |blank| == 2 * columns && blank[..2] == [erase.glyph, erase.attr] == blank[|blank| - 2..]
            && blank[..2] + blank == blank + blank[..2]
  {
    BlankByteAt(columns, erase, 0);
    BlankByteAt(columns, erase, columns - 1);
  }

  /** Memory after the scroll of a region by a copy within the window. */
  function RegionUp(m: seq<byte>, origin: nat, columns: nat, lines: nat, top: nat, bottom: nat, erase: Cell)
    : (n: seq<byte>)
    requires top < bottom <= lines && origin + Span(lines, columns) <= |m|
    ensures |n| == |m|
  {
    RegionSpans(columns, lines, top, bottom);
    var dst := origin + Span(top, columns);
    CopyThenBlank(m, dst, dst + 2 * columns, CopiedBytes(bottom - top - 1, columns), columns, erase)
  }

  function RegionDown(m: seq<byte>, origin: nat, columns: nat, lines: nat, top: nat, bottom: nat, erase: Cell)
    : (n: seq<byte>)
    requires top < bottom <= lines && origin + Span(lines, columns) <= |m|
    ensures |n| == |m|
  {
    RegionSpans(columns, lines, top, bottom);
    BlankThenCopy(m, origin + Span(bottom, columns), CopiedBytes(bottom - top - 1, columns), columns, erase)
  }

  lemma RegionUpIs(m: seq<byte>, origin: nat, columns: nat, lines: nat, top: nat, bottom: nat, erase: Cell,
                   dst: nat, src: nat)
    requires top < bottom <= lines && origin + Span(lines, columns) <= |m|
    requires dst == origin + Span(top, columns) && src == origin + Span(top + 1, columns)
    ensures dst <= src && src + CopiedBytes(bottom - top - 1, columns) <= |m|
    ensures dst + CopiedBytes(bottom - top - 1, columns) + 2 * columns <= |m|
    ensures RegionUp(m, origin, columns, lines, top, bottom, erase)
      == CopyThenBlank(m, dst, src, CopiedBytes(bottom - top - 1, columns), columns, erase)
  {
    RegionSpans(columns, lines, top, bottom);
  }

  lemma RegionDownIs(m: seq<byte>, origin: nat, columns: nat, lines: nat, top: nat, bottom: nat, erase: Cell,
                     end: nat)
    requires top < bottom <= lines && origin + Span(lines, columns) <= |m|
    requires end == origin + Span(bottom, columns)
    ensures CopiedBytes(bottom - top - 1, columns) + 2 * columns <= end - origin && end <= |m|
    ensures RegionDown(m, origin, columns, lines, top, bottom, erase)
      == BlankThenCopy(m, end, CopiedBytes(bottom - top - 1, columns), columns, erase)
  {
    RegionSpans(columns, lines, top, bottom);
    hide BlankThenCopy, Span;
  }

  lemma RegionUpFrame(m: seq<byte>, origin: nat, columns: nat, lines: nat, top: nat, bottom: nat, erase: Cell)
    requires top < bottom <= lines && origin + Span(lines, columns) <= |m|
    ensures OutsideSame(m, RegionUp(m, origin, columns, lines, top, bottom, erase),
                        origin, origin + Span(lines, columns))
  {
    RegionSpans(columns, lines, top, bottom);
  }

  lemma RegionDownFrame(m: seq<byte>, origin: nat, columns: nat, lines: nat, top: nat, bottom: nat, erase: Cell)
    requires top < bottom <= lines && origin + Span(lines, columns) <= |m|
    ensures OutsideSame(m, RegionDown(m, origin, columns, lines, top, bottom, erase),
                        origin, origin + Span(lines, columns))
  {
    RegionSpans(columns, lines, top, bottom);
  }

  lemma CornerCell(m: seq<byte>, origin: nat, columns: nat, lines: nat, r: nat, erase: Cell)
    requires 0 < columns && r < lines && origin + Span(lines, columns) <= |m|
    ensures Rows(m, origin, columns, lines)[r][columns - 1] == erase
      <==> CellIs(m, origin + Span(r + 1, columns) - 2, erase)
  {
    RowIs(m, origin, columns, lines, r);
  }

  lemma OddLength(rows: nat, columns: nat)
    requires !WholeRowsCopied(rows, columns)
    ensures 2 <= CopiedBytes(rows, columns) + 2 == Span(rows, columns)
  {
  }

  lemma WholeScroll(m: seq<byte>, origin: nat, columns: nat, lines: nat, top: nat, bottom: nat, erase: Cell)
    requires top < bottom <= lines
    requires origin + Span(lines, columns) <= |m| && WholeRowsCopied(bottom - top - 1, columns)
    ensures var dst, length := origin + Span(top, columns), Span(bottom - top - 1, columns);
            && dst + 2 * columns + length <= |m|
            && RegionUp(m, origin, columns, lines, top, bottom, erase)
               == CopyThenBlank(m, dst, dst + 2 * columns, length, columns, erase)
  {
    RegionSpans(columns, lines, top, bottom);
    hide CopyThenBlank, Span;
  }

  /** With an odd number of cells to copy the last one is lost, unless it was blank. */
  lemma OddScroll(m: seq<byte>, origin: nat, columns: nat, lines: nat, top: nat, bottom: nat, erase: Cell,
                  dst: nat, length: nat)
    requires 0 < columns && top < bottom <= lines
    requires origin + Span(lines, columns) <= |m| && !WholeRowsCopied(bottom - top - 1, columns)
    requires dst == origin + Span(top, columns) && length == Span(bottom - top - 1, columns)
    requires dst + 2 * columns + length <= |m|
    ensures var corner := dst + 2 * columns + length - 2;
            var short := RegionUp(m, origin, columns, lines, top, bottom, erase);
            && (CellIs(short, corner, erase) <==> CellIs(m, corner, erase))
            && (CellIs(m, corner, erase) ==>
                  short == CopyThenBlank(m, dst, dst + 2 * columns, length, columns, erase))
  {
    OddLength(bottom - top - 1, columns);
    RegionUpIs(m, origin, columns, lines, top, bottom, erase, dst, dst + 2 * columns);
    hide RegionUp, CopyThenBlank, Span, CellIs, CopiedBytes, WholeRowsCopied;
    OddCopy(m, dst, length, columns, erase);
  }

  /** Within a window the two cells that a short copy misses are one and the same. */
  lemma OddCopy(m: seq<byte>, dst: nat, length: nat, columns: nat, erase: Cell)
    requires 0 < columns && 2 <= length && dst + 2 * columns + length <= |m|
    ensures var corner := dst + 2 * columns + length - 2;
            var short := CopyThenBlank(m, dst, dst + 2 * columns, length - 2, columns, erase);
            && (CellIs(short, corner, erase) <==> CellIs(m, corner, erase))
            && (CellIs(m, corner, erase) ==>
                  short == CopyThenBlank(m, dst, dst + 2 * columns, length, columns, erase))
  {
    hide CopyThenBlank, CellIs;
    ShortCopyExact(m, dst, dst + 2 * columns, length, columns, erase);
    CornerKept(m, dst, dst + 2 * columns, length, columns, erase);
  }

  /** A copy one cell short blanks the cell it leaves out and keeps the last cell of the area. */
  lemma CornerKept(m: seq<byte>, dst: nat, src: nat, length: nat, columns: nat, erase: Cell)
    requires 0 < columns && 2 <= length && dst <= src && src + length <= |m| && dst + length + 2 * columns <= |m|
    ensures var short := CopyThenBlank(m, dst, src, length - 2, columns, erase);
            && CellIs(short, dst + length - 2, erase)
            && CellIs(short, dst + length + 2 * columns - 2, erase) == CellIs(m, dst + length + 2 * columns - 2, erase)
  {
    BlankByteAt(columns, erase, 0);
  }

  lemma LastBlankCell(rows: seq<seq<Cell>>, top: nat, bottom: nat, columns: nat, erase: Cell)
    requires 0 < columns && top < bottom <= |rows|
    ensures ScrolledUp(rows, top, bottom, BlankRow(columns, erase))[bottom - 1][columns - 1] == erase
  {
    assert ScrolledUp(rows, top, bottom, BlankRow(columns, erase))[bottom - 1] == BlankRow(columns, erase);
  }

  /** The rows after a short copy back: the seam cell is blank, the corner cell is what it was. */
  lemma ShortRows(m: seq<byte>, start: nat, src: nat, length: nat, columns: nat, lines: nat, erase: Cell)
    requires 0 < columns && 2 <= lines && start <= src && src + length <= |m| && start + length + 2 * columns <= |m|
    requires length == Span(lines - 1, columns)
    ensures 2 <= length && start + Span(lines, columns) <= |m|
    ensures var rows := Rows(CopyThenBlank(m, start, src, length - 2, columns, erase), start, columns, lines);
            && rows[lines - 2][columns - 1] == erase
            && (rows[lines - 1][columns - 1] == erase) == CellIs(m, start + length + 2 * columns - 2, erase)
  {
    hide CopyThenBlank, Rows;
    assert length == Span(lines - 2, columns) + 2 * columns;
    CornerKept(m, start, src, length, columns, erase);
    var short := CopyThenBlank(m, start, src, length - 2, columns, erase);
    CornerCell(short, start, columns, lines, lines - 1, erase);
    CornerCell(short, start, columns, lines, lines - 2, erase);
  }

  lemma RowAbove(rows: seq<seq<Cell>>, lines: nat, blank: seq<Cell>)
    requires 2 <= lines == |rows|
    ensures ScrolledUp(rows, 0, lines, blank)[lines - 2] == rows[lines - 1]
  {
  }

  // ---------------------------------------------------------------------------------------
  // When the three scrolls are right.
  // ---------------------------------------------------------------------------------------

  /** The region scroll up copies whole rows, or the bottom right cell of the region is blank. */
  ghost predicate ScrollsUpWell(m: seq<byte>, origin: nat, columns: nat, lines: nat, top: nat, bottom: nat,
                                erase: Cell)
    requires 0 < columns && top < bottom <= lines && origin + Span(lines, columns) <= |m|
  {
    WholeRowsCopied(bottom - top - 1, columns) || Rows(m, origin, columns, lines)[bottom - 1][columns - 1] == erase
  }

  /** The region scroll down copies whole rows, or the top left cell of the region is blank. */
  ghost predicate ScrollsDownWell(m: seq<byte>, origin: nat, columns: nat, lines: nat, top: nat, bottom: nat,
                                  erase: Cell)
    requires 0 < columns && top < bottom <= lines && origin + Span(lines, columns) <= |m|
  {
    WholeRowsCopied(bottom - top - 1, columns) || Rows(m, origin, columns, lines)[top][0] == erase
  }

  /**
   The copy back copies whole rows, or both the bottom right cell of the old window and the memory
   cell that becomes the bottom right one are blank.
   */
  ghost predicate CopiesBackWell(m: seq<byte>, start: nat, origin: nat, columns: nat, lines: nat, erase: Cell)
    requires 0 < columns && 0 < lines && origin + Span(lines, columns) <= |m|
  {
    WholeRowsCopied(lines - 1, columns)
    || (Rows(m, origin, columns, lines)[lines - 1][columns - 1] == erase
        && CellIs(m, start + Span(lines, columns) - 2, erase))
  }

  /** The window has room to slide, or its copy back is right. */
  ghost predicate SlidesWell(m: seq<byte>, origin: nat, start: nat, end: nat, columns: nat, lines: nat, erase: Cell)
    requires 0 < columns && 0 < lines && origin + Span(lines, columns) <= |m|
  {
    origin + Span(lines, columns) + 2 * columns <= end || CopiesBackWell(m, start, origin, columns, lines, erase)
  }

  /** The copy back to the start of the slice scrolls the screen exactly when it copies back well. */
  lemma CopyBackExact(m: seq<byte>, start: nat, origin: nat, columns: nat, lines: nat, erase: Cell)
    requires 0 < columns && 0 < lines && start <= origin && origin + Span(lines, columns) <= |m|
    ensures
      Rows(CopyThenBlank(m, start, origin + 2 * columns, CopiedBytes(lines - 1, columns), columns, erase),
           start, columns, lines)
        == ScrolledUp(Rows(m, origin, columns, lines), 0, lines, BlankRow(columns, erase))
      <==> CopiesBackWell(m, start, origin, columns, lines, erase)
  {
    hide CopyThenBlank, Rows, ScrolledUp, CellIs;
    CopyBackShowsScroll(m, start, origin, columns, lines, erase);
    if !WholeRowsCopied(lines - 1, columns) {
      var length := Span(lines - 1, columns);
      ShortRows(m, start, origin + 2 * columns, length, columns, lines, erase);
      ShortCopyExact(m, start, origin + 2 * columns, length, columns, erase);
      var before := Rows(m, origin, columns, lines);
      CornerCell(m, origin, columns, lines, lines - 1, erase);
      LastBlankCell(before, 0, lines, columns, erase);
      RowAbove(before, lines, BlankRow(columns, erase));
    }
  }

  /** The fast scroll drops the first row and appends a blank one exactly when the window slides well. */
  lemma SlideScrolls(m: seq<byte>, origin: nat, n: seq<byte>, newOrigin: nat,
                     start: nat, end: nat, columns: nat, lines: nat, erase: Cell)
    requires 0 < columns && 0 < lines && start <= origin && origin + Span(lines, columns) <= end <= |m|
    requires WindowSlid(m, origin, n, newOrigin, start, end, columns, lines, erase)
    ensures OutsideSame(m, n, start, end)
    ensures newOrigin + Span(lines, columns) <= end
    ensures Rows(n, newOrigin, columns, lines)
        == ScrolledUp(Rows(m, origin, columns, lines), 0, lines, BlankRow(columns, erase))
      <==> SlidesWell(m, origin, start, end, columns, lines, erase)
  {
    hide CopyThenBlank, Rows, ScrolledUp, CopiesBackWell, OutsideSame;
    var entering := origin + Span(lines, columns);
    if entering + 2 * columns <= end {
      CopyThenBlankFrame(m, entering, entering, 0, columns, erase, start, end);
      SlideShowsScroll(m, origin, columns, lines, erase);
    } else {
      CopyThenBlankFrame(m, start, origin + 2 * columns, CopiedBytes(lines - 1, columns), columns, erase, start, end);
      CopyBackExact(m, start, origin, columns, lines, erase);
    }
  }

  /** The copy within the window scrolls the region up exactly when it scrolls well. */
  lemma ScrollUpExact(m: seq<byte>, origin: nat, columns: nat, lines: nat, top: nat, bottom: nat, erase: Cell)
    requires 0 < columns && top < bottom <= lines
    requires origin + Span(lines, columns) <= |m|
    ensures Rows(RegionUp(m, origin, columns, lines, top, bottom, erase), origin, columns, lines)
        == ScrolledUp(Rows(m, origin, columns, lines), top, bottom, BlankRow(columns, erase))
      <==> ScrollsUpWell(m, origin, columns, lines, top, bottom, erase)
  {
    hide RegionUp, CopyThenBlank, Rows, ScrolledUp, Span, CellIs, WholeRowsCopied;
    FullCopyShowsScroll(m, origin, columns, lines, top, bottom, erase);
    if WholeRowsCopied(bottom - top - 1, columns) {
      WholeScroll(m, origin, columns, lines, top, bottom, erase);
    } else {
      OddCorner(m, origin, columns, lines, top, bottom, erase);
      LastBlankCell(Rows(m, origin, columns, lines), top, bottom, columns, erase);
    }
  }

  /** The bottom right cell of the region stays as it is, and all is well if it is blank. */
  lemma OddCorner(m: seq<byte>, origin: nat, columns: nat, lines: nat, top: nat, bottom: nat, erase: Cell)
    requires 0 < columns && top < bottom <= lines
    requires origin + Span(lines, columns) <= |m| && !WholeRowsCopied(bottom - top - 1, columns)
    requires origin + Span(top, columns) + 2 * columns + Span(bottom - top - 1, columns) <= |m|
    ensures var dst, length := origin + Span(top, columns), Span(bottom - top - 1, columns);
            var short := RegionUp(m, origin, columns, lines, top, bottom, erase);
            var blank := Rows(m, origin, columns, lines)[bottom - 1][columns - 1] == erase;
            && (Rows(short, origin, columns, lines)[bottom - 1][columns - 1] == erase <==> blank)
            && (blank ==> short == CopyThenBlank(m, dst, dst + 2 * columns, length, columns, erase))
  {
    RegionSpans(columns, lines, top, bottom);
    hide RegionUp, CopyThenBlank, Rows, Span, CellIs, WholeRowsCopied;
    OddScroll(m, origin, columns, lines, top, bottom, erase,
              origin + Span(top, columns), Span(bottom - top - 1, columns));
    CornerCell(m, origin, columns, lines, bottom - 1, erase);
    CornerCell(RegionUp(m, origin, columns, lines, top, bottom, erase), origin, columns, lines, bottom - 1, erase);
  }

  /** A descending copy one cell short is harmless exactly when the cell it leaves alone is blank. */
  lemma ShortDownExact(m: seq<byte>, end: nat, length: nat, columns: nat, erase: Cell)
    requires 0 < columns && 2 <= length && length + 2 * columns <= end <= |m|
    ensures var low := end - length - 2 * columns;
            var short := BlankThenCopy(m, end, length - 2, columns, erase);
            && (short == BlankThenCopy(m, end, length, columns, erase) <==> CellIs(m, low, erase))
            && CellIs(short, low, erase) == CellIs(m, low, erase)
  {
    var low := end - length - 2 * columns;
    var short := BlankThenCopy(m, end, length - 2, columns, erase);
    var full := BlankThenCopy(m, end, length, columns, erase);
    BlankByteAt(columns, erase, 0);
    BlankByteAt(columns, erase, columns - 1);
    assert short[low] == m[low] && short[low + 1] == m[low + 1];
    assert full[low] == erase.glyph && full[low + 1] == erase.attr;
    if CellIs(m, low, erase) {
      var seam := low + 2 * columns;
      assert full[seam] == m[low] && full[seam + 1] == m[low + 1];
      forall i | 0 <= i < |m|
        ensures short[i] == full[i]
      {
        if low + 2 <= i < seam {
          assert short[i] == BlankBytes(columns, erase)[i - low - 2];
          assert full[i] == BlankBytes(columns, erase)[i - low];
        }
      }
    }
  }

  lemma FirstCell(m: seq<byte>, origin: nat, columns: nat, lines: nat, r: nat, erase: Cell)
    requires 0 < columns && r < lines && origin + Span(lines, columns) <= |m|
    ensures Rows(m, origin, columns, lines)[r][0] == erase <==> CellIs(m, origin + Span(r, columns), erase)
  {
    RowIs(m, origin, columns, lines, r);
  }

  lemma FirstBlankCell(rows: seq<seq<Cell>>, top: nat, bottom: nat, columns: nat, erase: Cell)
    requires 0 < columns && top < bottom <= |rows|
    ensures ScrolledDown(rows, top, bottom, BlankRow(columns, erase))[top][0] == erase
  {
    assert ScrolledDown(rows, top, bottom, BlankRow(columns, erase))[top] == BlankRow(columns, erase);
  }

  /** With an odd number of cells to copy the region's first cell is left alone. */
  lemma OddScrollDown(m: seq<byte>, origin: nat, columns: nat, lines: nat, top: nat, bottom: nat, erase: Cell)
    requires 0 < columns && top < bottom <= lines
    requires origin + Span(lines, columns) <= |m| && !WholeRowsCopied(bottom - top - 1, columns)
    ensures Span(bottom - top - 1, columns) + 2 * columns <= origin + Span(bottom, columns) <= |m|
    ensures var first, end := origin + Span(top, columns), origin + Span(bottom, columns);
            var short := RegionDown(m, origin, columns, lines, top, bottom, erase);
            && (short == BlankThenCopy(m, end, Span(bottom - top - 1, columns), columns, erase)
                <==> CellIs(m, first, erase))
            && CellIs(short, first, erase) == CellIs(m, first, erase)
  {
    RegionSpans(columns, lines, top, bottom);
    OddLength(bottom - top - 1, columns);
    hide BlankThenCopy, Span, CellIs, CopiedBytes, WholeRowsCopied;
    ShortDownExact(m, origin + Span(bottom, columns), Span(bottom - top - 1, columns), columns, erase);
  }

  /** The descending copy scrolls the region down exactly when it scrolls well. */
  lemma ScrollDownExact(m: seq<byte>, origin: nat, columns: nat, lines: nat, top: nat, bottom: nat, erase: Cell)
    requires 0 < columns && top < bottom <= lines
    requires origin + Span(lines, columns) <= |m|
    ensures Rows(RegionDown(m, origin, columns, lines, top, bottom, erase), origin, columns, lines)
        == ScrolledDown(Rows(m, origin, columns, lines), top, bottom, BlankRow(columns, erase))
      <==> ScrollsDownWell(m, origin, columns, lines, top, bottom, erase)
  {
    RegionDownShowsScroll(m, origin, columns, lines, top, bottom, erase);
    if WholeRowsCopied(bottom - top - 1, columns) {
      hide BlankThenCopy, Rows, ScrolledDown, Span;
    } else {
      hide RegionDown, BlankThenCopy, Rows, ScrolledDown, Span, CellIs;
      OddScrollDown(m, origin, columns, lines, top, bottom, erase);
      FirstCell(m, origin, columns, lines, top, erase);
      FirstCell(RegionDown(m, origin, columns, lines, top, bottom, erase), origin, columns, lines, top, erase);
      FirstBlankCell(Rows(m, origin, columns, lines), top, bottom, columns, erase);
    }
  }

  /** With odd numbers of columns and of rows to copy, a screen full of one glyph is torn by all three. */
  lemma OddScrollsTear(m: seq<byte>, start: nat, origin: nat, columns: nat, lines: nat, erase: Cell)
    requires columns % 2 == 1 && 0 < lines && lines % 2 == 0
    requires start <= origin && origin + Span(lines, columns) <= |m|
    requires forall i :: 0 <= i < |m| ==> m[i] != erase.glyph
    ensures !ScrollsUpWell(m, origin, columns, lines, 0, lines, erase)
    ensures !ScrollsDownWell(m, origin, columns, lines, 0, lines, erase)
    ensures !CopiesBackWell(m, start, origin, columns, lines, erase)
  {
    CornerCell(m, origin, columns, lines, lines - 1, erase);
    FirstCell(m, origin, columns, lines, 0, erase);
  }

  /** Two rows of three columns, all showing the letter A: every scroll goes wrong. */
  lemma ThreeByTwoTears()
    ensures
      var m, erase := seq(18, _ => 65), Cell(0x20, 0x07);
      var before := Rows(m, 6, 3, 2);
      && Rows(RegionUp(m, 6, 3, 2, 0, 2, erase), 6, 3, 2) != ScrolledUp(before, 0, 2, BlankRow(3, erase))
      && Rows(RegionDown(m, 6, 3, 2, 0, 2, erase), 6, 3, 2) != ScrolledDown(before, 0, 2, BlankRow(3, erase))
      && Rows(CopyThenBlank(m, 0, 12, CopiedBytes(1, 3), 3, erase), 0, 3, 2)
           != ScrolledUp(before, 0, 2, BlankRow(3, erase))
  {
    hide Rows, RegionUp, RegionDown, CopyThenBlank, ScrolledUp, ScrolledDown;
    var m: seq<byte>, erase := seq(18, _ => 65), Cell(0x20, 0x07);
    OddScrollsTear(m, 0, 6, 3, 2, erase);
    ScrollUpExact(m, 6, 3, 2, 0, 2, erase);
    ScrollDownExact(m, 6, 3, 2, 0, 2, erase);
    CopyBackExact(m, 0, 6, 3, 2, erase);
  }
}
