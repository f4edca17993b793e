# A model of the console, terminal, formatter, clock and paging code

The repository is a small 32-bit kernel in the style of Linux 0.12. This project models the five
parts of it that hold real algorithms, in Dafny, and proves what they promise.

- **Screen** (`Screen.dfy`). The terminal a user sees: a list of rows, a cursor, a scroll region, a
  wrap that is delayed until a glyph needs the room. It has no memory behind it. Beside it stands an
  even simpler terminal, an endless sheet of paper on which rows are only appended, and the law that
  says where each byte of a line lands.
- **Virtual consoles** (`VideoRows.dfy`, `WordCopies.dfy`, `StringOps.dfy`, `Console.dfy`, `ConsoleDriver.dfy`). One byte
  array is physical memory. Each console is an object over it with the fields of `vc_cons`. Its window
  slides through its slice of video memory; when it would leave the slice the rows are copied back, by
  an overlapping copy, to the slice's start. Every method is proved to do to the rows and the cursor
  what the simple terminal does, whatever the addresses are.
- **Terminal queues** (`TtyQueue.dfy`, `TtyOutput.dfy`, `Tty.dfy`). The 1024-slot ring, the loop of
  `tty_write` with its newline expansion and its one test of FULL per byte, and the wiring of queues
  to consoles.
- **Formatter** (`Numbers.dfy`, `NumberPrinter.dfy`, `FormatSpec.dfy`, `Vsprintf.dfy`, `FormatLaws.dfy`,
  `Conversions.dfy`, `Printk.dfy`). `skip_atoi`, `number` and `vsprintf` write into a byte array; their results are the
  texts of a functional specification, whose own laws are proved: numbers read back, formats mean what
  their pieces mean, formats can be cut exactly at directive boundaries. `Conversions` says in plain
  bytes what each conversion shows and which argument it shows. `printk` joins formatter and screen.
- **Clock** (`Calendar.dfy`, `Mktime.dfy`). The closed form of `kernel_mktime` against a count of the
  Gregorian calendar, year by year, month by month.
- **Boot page tables** (`Paging.dfy`). `setup_paging` on byte-addressed memory, and the two-level walk
  of section 4.3 of the Intel SDM, Volume 3A.

`Machine.dfy` holds bytes, 32-bit words and the arithmetic of C on them.

## How to read the contracts

Methods of the classes carry two kinds of promise. `Placed`, `Displayed`, `Valid` are invariants: the
window lies in the slice, `pos` is `origin` plus the rows and cells before the cursor, the adapter's
registers hold the address of the window, slices do not overlap. The equations on `View()` tie the
screen after a method to the simple terminal's answer. `OutsideSame` says which bytes of memory cannot
have changed.

The scrolling copies count double words, that is pairs of cells, so with an odd number of cells one is
not moved. The two ascending copies lose the last one; the descending copy leaves the top left cell of
the region alone. For each copy the exact condition of a right scroll is proved
(`WordCopies.ScrollUpExact`, `CopyBackExact`, `ScrollDownExact`), and the contracts of single steps
carry it: `UpWell` and `DownWell` hold exactly when the next scroll up or down of a console comes out
right, `LfWell` when a line feed does. Whole strings, queues and runs carry `WholeRows`: the number of
columns is even or the number of rows that a scroll copies is. Then every scroll is right, whatever is
on screen; without it a screen full of text is torn (`WordCopies.OddScrollsTear`, `ThreeByTwoTears`).
The invariants and the frame hold in any case.

`ConsoleDriver.Run`, `TtyQueue.RunOnRing` and `TtyQueue.PutchThenDec` are not routines of the kernel:
they are arbitrary sequences of calls, there to state what holds over whole runs.

Where the code and its comments differ the model follows the code:

- `boot/head.asm` says that five pages are cleared; `rep stosb` with a count of 1024 * 5 clears 5120 bytes.
  The mapping is right all the same, because the loop fills every entry of the four tables.
- `kernel/vsprintf.c` says that a `*` takes the next argument; it does, but the scan stays on the star, so
  the directive prints `%*` and the argument is lost.
- In `number`, `%c` and `%s` the width is an int that is counted down. Widths that are read near -2^31
  wrap there once more, as they do on the machine; `Numbers.NumberWidth`, `FormatSpec.CharFillsField` and
  `FormatSpec.StringFillsField` say exactly which ones no longer give a field of the width asked for.
- Against section 7.19.6.1 of ISO/IEC 9899:1999 the formatter prints `0` for the value zero with precision
  zero, writes the `#` prefix for zero too, keeps the `0` flag when there is a precision, and ignores
  `h`, `l` and `L`.

## Model

| member | source | states |
|---|---|---|
| Screen.ScreenShowsEndOfPaper | kernel/chr_drv/console.c:373-403 | after any printed text, with any number of scrolls, a full-screen terminal shows exactly the last rows of an endless sheet typed with the same text, cursor included: nothing is lost but what has scrolled off |
| Screen.TextFlows | kernel/chr_drv/console.c:387-399 | byte i of a line without LF or CR stands i places after the cursor, counted on through rows of the screen's width; the cursor rests one past a full row until the next glyph |
| Screen.PrintAppend | kernel/chr_drv/console.c:373-403 | printing two texts one after the other is printing their concatenation |
| Screen.WriteAppend | kernel/chr_drv/console.c:346-368 | draining two queues one after the other is draining their concatenation |
| Screen.EveryByte | kernel/chr_drv/console.c:346-400 | what each of the 256 bytes does on either path: 32 to 126 draw on both, 10, 11 and 12 feed a line through a queue, 13 returns, every other queued byte does nothing; printed directly 10 returns and feeds, and all but 10 and 13 draw |
| Screen.ScrollsRowByRow | kernel/chr_drv/console.c:128-221 | row by row, a scroll moves each row of the region to its neighbour's place and brings in one row of erase cells; rows outside the region, cursor and attributes stay |
| Screen.LineFeedStaysInRegion | kernel/chr_drv/console.c:223-231 | a line feed never takes the cursor out of the scroll region; at its last row it scrolls |
| Screen.DeleteUndoesGlyph | kernel/chr_drv/console.c:239-246 | deleting undoes a glyph drawn on a blank cell, cursor included, and does nothing at column 0 |
| VideoRows.BlockUp | kernel/chr_drv/console.c:135-159 | a block of all rows but the first, moved to the top of a window wherever that window now starts, with a blank row under it, is the old screen scrolled up by one |
| WordCopies.SlideScrolls | kernel/chr_drv/console.c:134-160 | the fast scroll drops the first row and appends a blank one if and only if the window only slides, or whole rows are copied back, or the two cells that the short copy misses are blank; it touches no byte outside the slice |
| VideoRows.FullCopyShowsScroll | kernel/chr_drv/console.c:161-171 | a copy of whole rows within the window scrolls exactly the region top..bottom and leaves the rows above and below alone |
| VideoRows.RegionDownShowsScroll | kernel/chr_drv/console.c:195-205 | a descending copy of whole rows scrolls the region down: its last row is dropped, a blank one enters at its top, and the rows above and below stay |
| WordCopies.ScrollUpExact | kernel/chr_drv/console.c:162-186 | the region scroll, with its count in double words, is right if and only if an even number of cells is copied or the bottom right cell of the region was blank |
| WordCopies.CopyBackExact | kernel/chr_drv/console.c:139-151 | the copy back to the slice start is right if and only if an even number of cells is copied or both the old window's bottom right cell and the memory cell that becomes the new one's are blank |
| WordCopies.ScrollDownExact | kernel/chr_drv/console.c:195-220 | the region scroll down, with its count in double words, is right if and only if an even number of cells is copied or the top left cell of the region was blank |
| WordCopies.ShortDownExact | kernel/chr_drv/console.c:195-205 | a descending copy that stops one cell short leaves the same memory as a full one if and only if the region's first cell is blank already, and never changes whether it is |
| WordCopies.OddScrollsTear | kernel/chr_drv/console.c:134-205 | with an odd number of columns and of rows to copy, a screen on which nothing is blank meets the condition of none of the three copies |
| WordCopies.ThreeByTwoTears | kernel/chr_drv/console.c:134-205 | two rows of three columns full of one letter: each of the three copies leaves a wrong screen |
| WordCopies.ShortCopyExact | kernel/chr_drv/console.c:145-148 | a copy that stops one cell short leaves the same memory as a full one if and only if the two cells it misses are blank already |
| VideoRows.StoreChangesOneCell | kernel/chr_drv/console.c:356-361 | the word stored at pos is the cell at row y and column x, and no other cell on screen changes |
| VideoRows.CellAtAddress | kernel/chr_drv/console.c:356-361 | the cell at row r and column c is the glyph at origin + 2 * columns * r + 2 * c and the attribute behind it |
| WordCopies.CopyCount | kernel/chr_drv/console.c:146 | rows * columns >> 1 double words are all the bytes of those rows, or two fewer when both numbers are odd |
| StringOps.RepMovslUp | kernel/chr_drv/console.c:139-148 | an ascending copy to a lower address moves the block whole, overlapping or not |
| StringOps.RepMovslDown | kernel/chr_drv/console.c:195-205 | a descending copy to a higher address moves the block whole, overlapping or not |
| StringOps.CopyUp | kernel/chr_drv/console.c:162-171 | the whole scrolling block: the rows moved, then one row of erase cells right behind them, the rest of memory unchanged |
| StringOps.CopyDown | kernel/chr_drv/console.c:195-205 | its mirror image, after the correction of edi by two |
| Console.RegisterHoldsAddress | kernel/chr_drv/console.c:121-124 | the two register bytes together hold the address in cells: twice what they hold is the offset, rounded down to a whole cell, for any offset below 128 KB |
| Console.Console.AddressesInBytes | kernel/chr_drv/console.c:105-112 | in every placed console pos is origin plus y rows plus two bytes for each column, and scr_end is origin plus all the rows |
| Console.Console.PosInWindow | kernel/chr_drv/console.c:105-112 | pos never leaves the window, and with room on the row the word at pos lies inside it |
| Console.Console.Gotoxy | kernel/chr_drv/console.c:105-112 | moves the cursor to any column up to and including one past the last and any row, and ignores everything else, negative columns included |
| Console.Console.SetOrigin | kernel/chr_drv/console.c:114-126 | for the foreground console the two registers together hold the number of origin's cell and the adapter starts there, wherever its slice starts; for others nothing changes |
| Console.Console.SetCursor | kernel/chr_drv/console.c:249-260 | for the foreground console the two registers together hold the number of pos's cell and the adapter draws its cursor there; for others nothing changes |
| Console.Console.Scrup | kernel/chr_drv/console.c:128-187 | for every geometry and memory the region scrolls up on screen, by whichever branch, if and only if `UpWell`; the window moves on by a row or back to the slice start for a full-screen scroll and stays for any other; the invariants and the displayed origin are kept, and only the slice is written |
| Console.Console.SlideWindow | kernel/chr_drv/console.c:134-159 | the window moves on by one row, or back to the slice start when it would leave the slice, with the memory each needs |
| Console.Console.Scrdown | kernel/chr_drv/console.c:189-221 | for every geometry and memory the region scrolls down on screen if and only if `DownWell`; only the slice is written |
| Console.Console.Lf | kernel/chr_drv/console.c:223-231 | one row down, or a scroll at the bottom of the region: right if and only if it does not scroll or scrolls well |
| Console.Console.Cr | kernel/chr_drv/console.c:233-237 | column 0 of the same row |
| Console.Console.Del | kernel/chr_drv/console.c:239-246 | one column back with a blank there, nothing at column 0 |
| Console.Console.PutChar | kernel/chr_drv/console.c:387-399 | draws one glyph with its delayed wrap, at the cell where the simple terminal draws it, whenever it does not wrap or the line feed of the wrap is right |
| Console.Console.StoreChar | kernel/chr_drv/console.c:356-361 | the glyph goes to the byte at pos, the attribute to the byte behind it, and pos and column move on |
| Console.Console.PrintString | kernel/chr_drv/console.c:373-403 | for every string and every placed console whose scrolls copy whole rows (`WholeRows`), the screen and the cursor are those of the simple terminal fed the bytes before the NUL; in any console the invariants hold, only the slice is written, and the cursor register holds pos |
| Console.CStringIs | kernel/chr_drv/console.c:377 | a string is drawn up to its first NUL, whatever comes before it |
| Console.Console.WriteQueue | kernel/chr_drv/console.c:336-370 | under `WholeRows` the screen is that of the simple terminal fed the waiting bytes in order; in any console the queue is empty, the invariants hold and only the slice is written |
| ConsoleDriver.SlicesHoldScreen | kernel/chr_drv/console.c:296-302 | each slice is at least one screen long if and only if one screen fits in video memory, and the slices fit side by side |
| ConsoleDriver.SlicesAreWellCut | kernel/chr_drv/console.c:296-302 | the number of consoles is the largest up to 8 for which all screens fit in 8192 bytes, but at least 1, and the slices are as long as that many can be |
| ConsoleDriver.HomedInOrder | kernel/chr_drv/console.c:304-328 | slices handed out one after the other never overlap |
| ConsoleDriver.HomedIsPlaced | kernel/chr_drv/console.c:304-328 | a homed console has its window inside its slice if and only if the slice holds a screen |
| ConsoleDriver.HomedSideBySide | kernel/chr_drv/console.c:304-328 | the first slice starts at 0xb8000 and each other one where the one before ends, all of the same length, every window at its slice's start, every cursor at home, blanks 0x0720, attribute 7 |
| ConsoleDriver.ConsoleDriver.ConInit | kernel/chr_drv/console.c:270-333 | for every number of rows and columns: as many consoles as fit, up to 8 and at least 1, in equal slices as long as possible laid side by side from 0xb8000, each homed in its own, the adapter on console 0; the invariant is established if and only if one screen fits in video memory |
| ConsoleDriver.ConsoleDriver.ConsolePrint | kernel/chr_drv/console.c:373-403 | under `WholeRows` console 0 draws the string; in any case no other screen changes, and the registers show console 0's window and cursor |
| ConsoleDriver.ConsoleDriver.ConWrite | kernel/chr_drv/console.c:336-370 | under `WholeRows` console k draws its queue; in any case the queue is empty, no other screen changes and the registers stay right |
| ConsoleDriver.ConsoleDriver.Run | kernel/chr_drv/console.c:105-403 | over every run of prints, writes, line feeds, scrolls, deletions and cursor moves on any consoles: the invariant holds, each screen is what its own calls make of it (under `WholeRows`), the slice of a console that was not called is unchanged byte for byte, and memory outside video memory is unchanged |
| ConsoleDriver.OnlyOwnCallsCount | kernel/chr_drv/console.c:322-328 | what one console shows does not depend on the calls made to others |
| TtyQueue.TtyQueue.Left | include/linux/tty.h:23 | free slots and waiting bytes always make 1023, wrapped or not |
| TtyQueue.TtyQueue.Full | include/linux/tty.h:25 | holds exactly with 1023 bytes waiting |
| TtyQueue.TtyQueue.Empty | include/linux/tty.h:22 | holds exactly with none waiting |
| TtyQueue.TtyQueue.Chars | include/linux/tty.h:26 | is the number of bytes waiting |
| TtyQueue.TtyQueue.Last | include/linux/tty.h:24 | is the newest byte waiting |
| TtyQueue.TtyQueue.Putch | include/linux/tty.h:29-30 | appends the byte; on a full ring everything waiting is lost |
| TtyQueue.TtyQueue.Getch | include/linux/tty.h:27-28 | takes the oldest byte; on an empty ring 1023 stale bytes appear |
| TtyQueue.TtyQueue.PutchThenDec | include/linux/tty.h:21-30 | moving head back undoes a guarded PUTCH |
| TtyQueue.FifoConserves | include/linux/tty.h:20-30 | over every run, what left followed by what waits is what was there followed by what was accepted, in order |
| TtyQueue.RunOnRing | include/linux/tty.h:20-30 | every run of guarded PUTCH and GETCH on the ring is a run of a first-in first-out queue of capacity 1023 |
| TtyOutput.LossExactlyOnOverrun | kernel/chr_drv/tty_io.c:40-47 | queued text is lost if and only if some LF arrives with exactly one slot free; otherwise the ring holds the whole accepted prefix with LF as CR LF |
| TtyOutput.TakesAllOrFills | kernel/chr_drv/tty_io.c:40-47 | the loop takes at least one byte on a ring with room, queues all it takes unless one of those overruns, and ends early only with 1023 bytes on the ring or after an overrun |
| TtyOutput.ExpandByte | kernel/chr_drv/tty_io.c:42-44 | byte 10 is queued as 13, 10 and every other byte as itself |
| TtyOutput.RetriesDeliver | kernel/chr_drv/tty_io.c:40-51 | a writer that retries with the rest always finishes, and the whole text arrives if and only if no attempt overruns |
| TtyOutput.RetriedTextIsDrawn | kernel/chr_drv/tty_io.c:40-51 | plain text retried until all is taken, no attempt overrunning, ends on the screen that direct printing of the whole text draws |
| TtyOutput.OverrunLosesAll | kernel/chr_drv/tty_io.c:40-47 | behind any 1022 bytes without LF one LF overruns: all 1023 bytes are taken and none is queued |
| TtyOutput.PathsAgree | kernel/chr_drv/console.c:346-368 | for printable bytes, LF and CR, expanding and draining draws the same screen as printing directly |
| TtyOutput.PathsAgreeExactly | kernel/chr_drv/console.c:377-400 | one byte draws the same on both paths if and only if it is printable, LF or CR, on every screen of more than one column and wherever there is room on the row |
| TtyOutput.AcceptedPrefixIsDrawn | kernel/chr_drv/tty_io.c:40-51 | from an empty queue, plain text without an overrun is drawn as if its accepted prefix had been printed directly |
| Tty.FillQueue | kernel/chr_drv/tty_io.c:40-47 | whatever was waiting: of nr bytes it takes none for nr <= 0, at least one on a ring with room, all unless the ring has 1023 bytes or an LF has overrun; without an overrun what was waiting is followed by exactly the bytes taken, LF as CR LF |
| Tty.TtySystem.TtyInit | kernel/chr_drv/tty_io.c:73-107 | 24 distinct empty queues; as many terminals as consoles fit in video memory, up to 8 and at least 1; terminal i reads from queue 3i, writes to queue 3i+1 and cooks in queue 3i+2, null pointers beyond the last console; the invariant if and only if one screen fits in video memory |
| Tty.TtySystem.TtyWrite | kernel/chr_drv/tty_io.c:26-52 | -5 exactly where there is no console; otherwise r of the nr bytes are taken: at least one if the ring has room, all unless it fills up or an LF overruns; the write queue is empty again; under `WholeRows` and without an overrun the screen is the old one after what waited and the first r bytes with LF as CR LF, and for plain bytes with nothing waiting it is the old one with b[..r] printed; no other console is touched |
| Numbers.NumberWidth | kernel/vsprintf.c:57-88 | the laid-out number takes max(width, sign + prefix + max(digits, precision)) columns, and number() writes exactly that layout if and only if no padding loop sees a count that has wrapped, for every int width and precision and every flag set |
| Numbers.NumberDecodes | kernel/vsprintf.c:40-90 | for every 32-bit value, base 2 to 36, int width, int precision and flag set a strict reader (spaces, sign, the prefix 0x, 0X or 0 where # asks for one, digits, spaces, nothing else) finds the sign 45, 43 or none and the magnitude of the signed value or the bit pattern; a space sign is there; counts that wrap included unless one puts spaces behind the sign |
| Numbers.NumberLetters | kernel/vsprintf.c:44-47 | all letters of a number, prefix included, are small under SMALL and capital otherwise |
| Numbers.WidthPads | kernel/vsprintf.c:66-88 | a number with a width is the same number without one plus spaces behind it under LEFT, zeros between prefix and digits under ZEROPAD, spaces in front of it otherwise |
| Numbers.PrecisionPads | kernel/vsprintf.c:66-84 | a precision puts exactly the missing zeros between the prefix and the digits, which have no spare zero themselves |
| Numbers.DigitsDenote | kernel/vsprintf.c:61-65 | the digits denote the number, are below the base and do not start with a spare zero |
| Numbers.DigitsFit | kernel/vsprintf.c:43 | a number below 2^n has at most n digits in any base |
| Numbers.DigitIsTableEntry | kernel/vsprintf.c:44-47 | the digit formula of the model is the source's table, in both cases of letters |
| Numbers.AtoiReads | kernel/vsprintf.c:18-25 | skip_atoi reads a digit string as the number it denotes modulo 2^32 and stops at the first other byte |
| Numbers.AtoiUndoesNumber | kernel/vsprintf.c:18-25 | skip_atoi reads back every number from 0 to 2^31-1 that number() writes in base 10 without a plus sign or spaces, whatever the zero padding and precision, and stops right behind it |
| NumberPrinter.SkipAtoi | kernel/vsprintf.c:18-25 | the loop returns the value and the position of the specification and never passes the terminator |
| NumberPrinter.FillTmp | kernel/vsprintf.c:61-65 | the digit loop ends with the digits in reverse, at most 32 in the 36 slots |
| NumberPrinter.PrintHead | kernel/vsprintf.c:68-82 | the two padding loops before the digits, with sign and prefix between them, write the specification's head and leave in size what the third loop starts from, wrapped or not |
| NumberPrinter.Subtract | kernel/vsprintf.c:56-67 | the subtractions from size, each wrapping as an int, give the width less all contents modulo 2^32 |
| NumberPrinter.Number | kernel/vsprintf.c:40-90 | for every int width and precision writes exactly spaces, sign, prefix, zeros, digits, spaces of the specification and nothing else, or refuses a base outside 2 to 36 |
| FormatSpec.CharFillsField | kernel/vsprintf.c:160-167 | %c fills a field of its width on the side the flag says, never less than the byte, if and only if no decrement wraps before a test |
| FormatSpec.StringFillsField | kernel/vsprintf.c:169-184 | %s fills a field of its width with the string cut to its precision, if and only if it is left-justified, its width is above -2^31 or the string is as long as an int can count |
| Vsprintf.ScanDirective | kernel/vsprintf.c:113-157 | the scan ends on the conversion byte or the terminator, strictly ahead of the percent sign and never beyond the end, having read what the specification reads |
| Vsprintf.PrintDirective | kernel/vsprintf.c:159-229 | each case of the switch writes its directive's text, uses its argument and makes its store |
| Vsprintf.Vsprintf | kernel/vsprintf.c:92-233 | for every NUL-terminated format and fitting arguments: the buffer holds the format's text and a NUL, the result is the text's length, each %n has stored the length before it, nothing else in the buffer changed |
| FormatLaws.ParseUndoesUnparse | kernel/vsprintf.c:113-159 | a directive written with flags in any order, a width, a dot with any digits or none, a qualifier and a conversion, a star included, is read as exactly that, numbers modulo 2^32, and reading stops right behind it |
| FormatLaws.FormatMeansItsPieces | kernel/vsprintf.c:107-230 | a format means the concatenation of what its literals and directives mean, with each argument at its directive and each %n counting the text before it |
| FormatLaws.CompleteFormatsAreWritten | kernel/vsprintf.c:107-230 | the formats that literals and directives write are exactly the formats without a NUL that do not end inside a directive |
| FormatLaws.UnparseUndoesParse | kernel/vsprintf.c:113-159 | every directive that is read up to a conversion is a proper one, written back byte for byte |
| FormatLaws.CompleteFormatsSplit | kernel/vsprintf.c:107-230 | formatting f1 f2 is formatting f1, then f2 with the arguments left, when f1 ends at a directive boundary |
| FormatLaws.SplitsExactlyAtBoundaries | kernel/vsprintf.c:221-229 | a format may be cut off after f1 before every continuation if and only if f1 does not end inside a directive |
| FormatLaws.CutOffAbsorbs | kernel/vsprintf.c:221-229 | a cut-off directive prints one percent sign and absorbs a percent sign that follows it |
| FormatLaws.StarShowsItself | kernel/vsprintf.c:129-136 | a starred width or precision, behind any flags, prints a percent sign and the star, loses one argument and turns what follows into literal text |
| Conversions.DirectivesInBytes | kernel/vsprintf.c:113-157 | which bytes a directive is typed with: flags 45 43 32 35 48, digits 48 to 57, a dot 46, qualifiers 104 108 76, a star 42 |
| Conversions.NumbersReadBack | kernel/vsprintf.c:187-214 | d and i read back as the signed word in base 10, u as the word in base 10, o in base 8, x, X and p in base 16, small letters for x and capital ones for the others, with sign 45, 43 or 32 and prefix as the typed flags ask, for every directive whose text is no longer than an int counts |
| Conversions.WidthShown | kernel/vsprintf.c:120-137 | a typed width pads the same conversion without it, on the side and with the byte that the typed flags 45 and 48 ask for |
| Conversions.PrecisionShown | kernel/vsprintf.c:139-152 | a typed precision fills the bare conversion with zeros between its prefix and digits; a dot alone is 0 |
| Conversions.PointerIsHex | kernel/vsprintf.c:191-199 | p is X, with width 8 and zeros where no width is typed |
| Conversions.StringShown | kernel/vsprintf.c:169-185 | s shows the whole string, or exactly its first bytes up to a shorter precision, padded to its width |
| Conversions.CharShown | kernel/vsprintf.c:160-167 | c shows the low byte of its argument, padded to its width |
| Conversions.CountStored | kernel/vsprintf.c:216-219 | n shows nothing and stores the number of bytes written before it in its argument's cell |
| Conversions.OthersShowThemselves | kernel/vsprintf.c:221-229 | any other conversion byte shows a percent sign and itself, a percent sign itself alone, and takes no argument |
| Conversions.QualifierChangesNothing | kernel/vsprintf.c:154-157 | h, l and L change neither text nor stores nor arguments of any directive without a star |
| Conversions.LiteralsShowThemselves | kernel/vsprintf.c:107-111 | text without percent signs shows as it is |
| Conversions.ArgumentsInOrder | kernel/vsprintf.c:130-219 | over any pieces a format takes exactly as many arguments as it has pieces d i u o x X p s c n or starred, the first ones, and leaves the others in order |
| Conversions.PieceHasItsArgument | kernel/vsprintf.c:107-230 | over any pieces the one at k shows what it shows alone with the argument whose place is the number of consuming pieces before it, between the texts of the others, with the text before it counted |
| Conversions.OneDigitMessage | kernel/chr_drv/tty_io.c:106 | "%d" before any text without percent signs prints a digit from 0 to 9 as byte 48 plus it, then the text |
| Printk.Printk | kernel/printk.c:11-21 | the screen of console 0 is the one before with the format's text drawn on it, and the result is the text's length |
| Printk.OnePrintkOrTwo | kernel/printk.c:11-21 | when the first format ends at a directive boundary, one printk of two formats leaves the same screen as two printks if the first text holds no NUL, and otherwise the screen of the first alone |
| Calendar.SecondsGrow | kernel/mktime.c:41-58 | the calendar's count is strictly increasing in date order |
| Calendar.SecondsStep | kernel/mktime.c:41-58 | the calendar's count advances by one from each second to the next, over month and year ends |
| Calendar.MonthsByFives | kernel/mktime.c:26-39 | the days before a month are 0, 31, then 59 or 60 plus (153 * (mon - 2) + 2) / 5: five months from March take 153 days |
| Calendar.SecondsInClosedForm | kernel/mktime.c:41-58 | the calendar's count without sums over years and months: leap years by fours, hundreds and four hundreds, months by fives |
| Mktime.ExactCounts | kernel/mktime.c:46-56 | from 1970 on, in unbounded integers, the closed form is the calendar's count plus a day for each 29th of February that only the rule of four has |
| Mktime.ExactIsRightUntil2100 | kernel/mktime.c:46-56 | the closed form is the calendar's count if and only if the moment is before 2100-03-01 |
| Mktime.ExactGrows | kernel/mktime.c:46-56 | the closed form is strictly increasing in date order, even beyond 2100 |
| Mktime.ExactSteps | kernel/mktime.c:46-56 | one second more adds exactly one, if and only if it is not the last second of February in a year like 2100 |
| Mktime.FitsExactlyUntil2038 | kernel/mktime.c:46-57 | no intermediate result leaves a signed long if and only if the moment is not after 2038-01-19 03:14:07 |
| Mktime.WrappedIsRightUntil2038 | kernel/mktime.c:46-57 | the 32-bit result is the calendar's count if and only if the moment is not after 2038-01-19 03:14:07 |
| Mktime.KernelMktime | kernel/mktime.c:41-58 | the statements on signed longs compute the closed form modulo 2^32, for years from 1970 on the count by fourth years and months by fives, with no table, and the calendar's count exactly up to 2038-01-19 03:14:07 |
| Mktime.MonthTable | kernel/mktime.c:26-39 | the table holds the seconds before each month of a leap year, as the calendar sums them and as 86400 * (60 + (153 * (mon - 2) + 2) / 5) from March on |
| Paging.SetDirectory | boot/head.asm:175-192 | four present entries and 1020 zeros in the directory, though only 5120 bytes are cleared |
| Paging.FillTables | boot/head.asm:194-201 | the descending loop stores exactly 4096 entries, from the last of pg3 to the first of pg0, and entry j names page j with flags 7 |
| Paging.WalkIsIdentity | boot/head.asm:188-201 | the walk through these tables maps each address below 16 MB to itself and finds every other not present |
| Paging.FirstEntryBytes | boot/head.asm:188-189 | the first directory entry is the bytes 7, 0x10, 0, 0 in memory, lowest first |
| Paging.SetupPaging | boot/head.asm:175-206 | from any memory, after the code every linear address below 16 MB is itself with flags 7 at both levels, every other is not present, and memory above the tables is unchanged |

## Left out

- Console.Console.PrintString: with an odd number of cells to copy the screen is stated for each scroll (Scrup, Scrdown, Lf), not for a whole string.
- Console.Console.WriteQueue: likewise, not for a whole queue.
- ConsoleDriver.ConsoleDriver.ConsolePrint: as for PrintString.
- ConsoleDriver.ConsoleDriver.ConWrite: as for WriteQueue.
- ConsoleDriver.ConsoleDriver.Run: as for PrintString, over a whole run.
- ConsoleDriver.ConsoleDriver.ConInit: requires that the BIOS reports at least one row and one column, because the source divides by their product; for a screen larger than video memory it states the fields of the one console there is, and no later method is modelled.
- Tty.TtySystem.TtyWrite: channel 0 is not modelled, because the source then takes the address before its table.
- Printk.Printk: requires that the text fits the buffer, which the source does not check.
- TtyOutput.PathsAgreeExactly: leaves out a full row on a screen of one column, where a wrapped glyph ends with the cursor in the same place.
- Vsprintf.Vsprintf: an int that overflows wraps, as the machine's instructions do; to C it is undefined, and an optimising compiler may do otherwise.
- Numbers.NumberDecodes: leaves out the one count, exactly -2^31 without `-` or `0` flag, at which the second padding loop writes spaces between sign and digits.
- The flag bits of the type argument of number() are a record of booleans, not a bit mask.
- strlen: the length of a string argument is taken as given; the assembly version in lib/string.asm is not modelled.
- Arguments of a kind that the directive does not expect, or too few of them: C leaves them undefined, and the specification calls them a mismatch.
- The registers that the inline assembly changes without telling the compiler, and the direction flag that scrdown leaves set.
- Port timing, cli and sti, screen blanking counters, bold, colour, tab and character-set fields of a console that no modelled routine uses.
- The termios settings of tty_init, its two status messages, the process list and data word of a queue, and the check of con_write for a terminal outside the table.
- Dates before 1970, and seconds of 60 in a broken-down time.
- Loading cr3 and cr0, caches of translations, and accessed and dirty bits.
- Interrupt stubs, descriptors, system calls, the scheduler, disk start-up code and image tools: register plumbing or easy finite tables.
