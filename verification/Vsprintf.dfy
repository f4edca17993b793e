/** vsprintf(): the scan of the format and the switch over its conversions, writing into a buffer. */
module Vsprintf {
  import opened Machine
  import opened Numbers
  import opened NumberPrinter
  import opened FormatSpec

  /** `start` is at the percent sign; the flags end at `i`. */
  method ScanFlags(fmt: seq<byte>, start: nat) returns (flags: Flags, i: nat)
    requires CFormat(fmt) && start < |fmt| - 1
    ensures start < i < |fmt|
    ensures (flags, Tail(fmt, i)) == ReadFlags(Tail(fmt, start + 1), NO_FLAGS)
  {
    flags, i := NO_FLAGS, start + 1;
    while IsFlag(fmt[i])
      invariant start < i < |fmt|
      invariant ReadFlags(Tail(fmt, i), flags) == ReadFlags(Tail(fmt, start + 1), NO_FLAGS)
      decreases |fmt| - i
    {
      assert Tail(fmt, i)[1..] == Tail(fmt, i + 1);
      flags := AddFlag(flags, fmt[i]);
      i := i + 1;
    }
  }

  /** The field width: digits, a star that takes an argument and stays in place, or nothing. */
  method ScanWidth(fmt: seq<byte>, start: nat, args: seq<Arg>) returns (width: int32, i: nat, used: nat, left: bool)
    requires CFormat(fmt) && start < |fmt|
    requires fmt[start] == STAR ==> args != [] && args[0].Word?
    ensures start <= i < |fmt|
    ensures var field := ReadField(Tail(fmt, start), -1);
            && Tail(fmt, i) == field.2
            && used == (if field.1 then 1 else 0)
            && (!field.1 ==> width == field.0 && !left)
  {
    width, i, used, left := -1, start, 0, false;
    if IsDigit(fmt[i]) {
      width, i := SkipAtoi(fmt, i);
    } else if fmt[i] == STAR {
      width := ToSigned(args[0].w);
      used := 1;
      if width < 0 {
        width := ToSigned(0 - width);
        left := true;
      }
    }
  }

  /** The precision: -1 without a dot, and never negative with one. */
  method ScanPrecision(fmt: seq<byte>, start: nat, args: seq<Arg>) returns (precision: int32, i: nat, used: nat)
    requires CFormat(fmt) && start < |fmt|
    requires ReadPrecision(Tail(fmt, start)).1 ==> args != [] && args[0].Word?
    ensures start <= i < |fmt|
    ensures var field := ReadPrecision(Tail(fmt, start));
            && Tail(fmt, i) == field.2
            && used == (if field.1 then 1 else 0)
            && (!field.1 ==> precision == field.0)
  {
    precision, i, used := -1, start, 0;
    if fmt[i] == DOT {
      i := i + 1;
      assert Tail(fmt, start)[1..] == Tail(fmt, i);
      if IsDigit(fmt[i]) {
        precision, i := SkipAtoi(fmt, i);
      } else if fmt[i] == STAR {
        precision := ToSigned(args[0].w);
        used := 1;
      }
      if precision < 0 {
        precision := 0;
      }
    }
  }

  method ScanQualifier(fmt: seq<byte>, start: nat) returns (i: nat)
    requires CFormat(fmt) && start < |fmt|
    ensures start <= i < |fmt| && Tail(fmt, i) == ReadQualifier(Tail(fmt, start))
    ensures fmt[i] == 0 <==> Tail(fmt, i) == []
    ensures fmt[i] != 0 ==> Tail(fmt, i) == [fmt[i]] + Tail(fmt, i + 1)
  {
    i := start;
    if IsQualifier(fmt[i]) {
      i := i + 1;
      assert Tail(fmt, start)[1..] == Tail(fmt, i);
    }
  }

  /** Where Parse finds a star, in terms of its parts. */
  lemma ParseParts(s: seq<byte>)
    ensures var (flags, s1) := ReadFlags(s, NO_FLAGS);
            var field := ReadField(s1, -1);
            var prec := ReadPrecision(field.2);
            var s4 := ReadQualifier(prec.2);
            && !(field.1 && prec.1)
            && (field.1 || prec.1 ==> s4 != [] && s4[0] == STAR)
            && Parse(s) == (if s4 == [] then (Directive(flags, field.0, prec.0, false, 0), [])
                            else (Directive(flags, field.0, prec.0, field.1 || prec.1, s4[0]), s4[1..]))
  {
  }

  /**
   Flags, width, precision and qualifier.  `i` ends on the conversion byte, or on the terminator
   when the format is cut off; `used` counts the arguments that stars have taken.
   */
  method ScanDirective(fmt: seq<byte>, start: nat, args: seq<Arg>)
    returns (flags: Flags, width: int32, precision: int32, i: nat, used: nat)
    requires CFormat(fmt) && start < |fmt| - 1
    requires Fits(Parse(Tail(fmt, start + 1)).0, args)
    ensures start < i < |fmt|
    ensures var (d, after) := Parse(Tail(fmt, start + 1));
            && fmt[i] == d.conv
            && after == (if fmt[i] == 0 then [] else Tail(fmt, i + 1))
            && used == (if d.starred then 1 else 0)
            && (d.starred ==> d.conv == STAR)
            && (!d.starred ==> flags == d.flags && width == d.width && precision == d.precision)
  {
    ParseParts(Tail(fmt, start + 1));
    flags, i := ScanFlags(fmt, start);
    var left, more;
    width, i, used, left := ScanWidth(fmt, i, args);
    if left {
      flags := flags.(left := true);
    }
    precision, i, more := ScanPrecision(fmt, i, args[used..]);
    used := used + more;
    i := ScanQualifier(fmt, i);
  }

  method PrintChar(buf: array<byte>, str: nat, c: byte, fieldWidth: int32, left: bool,
                   ghost m: seq<byte>, ghost text: seq<byte>)
    returns (end: nat)
    requires Appended(m, buf[..], 0, str, text) && str + |CharText(c, fieldWidth, left)| <= buf.Length
    modifies buf
    ensures Appended(m, buf[..], 0, end, text + CharText(c, fieldWidth, left))
  {
    // while (--field_width > 0): one column is for the byte itself
    hide Wrote, ToSigned;
    var width: int, rest := fieldWidth, 0;
    end := str;
    ghost var done := text;
    if !left {
      width := ToSigned(width - 1);
      end, rest := Pad(buf, end, SPACE, width, m, 0, done);
      done := done + Repeat(SPACE, width);
      width := if width > 0 then 0 else width;
    }
    end := Put(buf, end, [c], m, 0, done);
    done := done + [c];
    width := ToSigned(width - 1);
    end, rest := Pad(buf, end, SPACE, width, m, 0, done);
    assert done + Repeat(SPACE, width) == text + CharText(c, fieldWidth, left);
  }

  lemma StringParts(shown: seq<byte>, s: seq<byte>, width: int32, precision: int32, left: bool, text: seq<byte>)
    requires shown == Cut(s, precision)
    ensures text + (if left then [] else Repeat(SPACE, width - |shown|)) + shown
            + Repeat(SPACE, (if left then width else Passed(|shown|, width)) - |shown|)
      == text + StringText(s, width, precision, left)
  {
    assert text + [] == text;
  }

  method PrintText(buf: array<byte>, str: nat, s: seq<byte>, fieldWidth: int32, fieldPrecision: int32, left: bool,
                   ghost m: seq<byte>, ghost text: seq<byte>)
    returns (end: nat)
    requires Appended(m, buf[..], 0, str, text)
    requires str + |StringText(s, fieldWidth, fieldPrecision, left)| <= buf.Length
    modifies buf
    ensures Appended(m, buf[..], 0, end, text + StringText(s, fieldWidth, fieldPrecision, left))
  {
    hide Wrote, ToSigned;
    var len := |s|;
    if fieldPrecision >= 0 && len > fieldPrecision {
      len := fieldPrecision;
    }
    assert s[..len] == Cut(s, fieldPrecision);
    var width: int, rest := fieldWidth, 0;
    end := str;
    ghost var done := text;
    StringParts(s[..len], s, fieldWidth, fieldPrecision, left, text);
    if !left {
      end, rest := Pad(buf, end, SPACE, width - len, m, 0, done);
      done := text + Repeat(SPACE, width - len);
      width := if len < width then len - 1 else ToSigned(width - 1);
    }
    assert done == text + (if left then [] else Repeat(SPACE, fieldWidth - len)) by {
      assert text + [] == text;
    }
    end := Put(buf, end, s[..len], m, 0, done);
    done := done + s[..len];
    end, rest := Pad(buf, end, SPACE, width - len, m, 0, done);
  }

  /** The numeric cases of the switch. */
  method PrintNumeric(buf: array<byte>, str: nat, d: Directive, w: uint32, ghost m: seq<byte>, ghost text: seq<byte>)
    returns (end: nat)
    requires IsNumeric(d.conv) && Appended(m, buf[..], 0, str, text) && str + |NumericText(d, w)| <= buf.Length
    modifies buf
    ensures Appended(m, buf[..], 0, end, text + NumericText(d, w))
  {
    var flags, width, base := d.flags, d.width, 10;
    if d.conv == LETTER_O {
      base := 8;
    } else if d.conv == LETTER_P {
      if width == -1 {
        width := 8;
        flags := flags.(zeropad := true);
      }
      base := 16;
    } else if d.conv == LETTER_X || d.conv == LETTER_X_CAP {
      if d.conv == LETTER_X {
        flags := flags.(small := true);
      }
      base := 16;
    } else if d.conv == LETTER_D || d.conv == LETTER_I {
      flags := flags.(sign := true);
    }
    ghost var before := buf[..];
    var ok;
    ok, end := Number(buf, str, ToSigned(w), base, width, d.precision, flags);
    WroteThen(m, before, buf[..], 0, text, NumericText(d, w));
  }

  /** The switch over the conversion byte; a star has been left in place to be printed. */
  method PrintDirective(buf: array<byte>, str: nat, d: Directive, args: seq<Arg>, cells: array<int>,
                        ghost m: seq<byte>, ghost text: seq<byte>)
    returns (end: nat, used: nat)
    requires buf as object != cells && Fits(d, args) && (d.starred ==> d.conv == STAR)
    requires Appended(m, buf[..], 0, str, text) && str + |DirectiveText(d, args)| <= buf.Length
    requires InRange(DirectiveStores(d, args, str), cells.Length)
    modifies buf, cells
    ensures Appended(m, buf[..], 0, end, text + DirectiveText(d, args))
    ensures used == if Consumes(d) then 1 else 0
    ensures cells[..] == Applied(old(cells[..]), DirectiveStores(d, args, str))
  {
    used := 1;
    if d.starred {
      end := PrintOther(buf, str, d.conv, m, text);
    } else if d.conv == LETTER_C {
      end := PrintChar(buf, str, args[0].w % 0x100, d.width, d.flags.left, m, text);
    } else if d.conv == LETTER_S {
      end := PrintText(buf, str, args[0].s, d.width, d.precision, d.flags.left, m, text);
    } else if IsNumeric(d.conv) {
      end := PrintNumeric(buf, str, d, args[0].w, m, text);
    } else if d.conv == LETTER_N {
      end := str;
      assert DirectiveStores(d, args, str)[0] == Store(args[0].index, str);
      StoreOne(cells[..], args[0].index, str);
      ghost var before := cells[..];
      cells[args[0].index] := str;
      assert cells[..] == before[args[0].index := str];
      assert text + [] == text;
    } else {
      used := 0;
      end := PrintOther(buf, str, d.conv, m, text);
    }
  }

  lemma StoreOne(cells: seq<int>, index: nat, count: nat)
    requires index < |cells|
    ensures Applied(cells, [Store(index, count)]) == cells[index := count]
  {
    assert [Store(index, count)][..0] == [];
  }

  method PrintOther(buf: array<byte>, str: nat, conv: byte, ghost m: seq<byte>, ghost text: seq<byte>)
    returns (end: nat)
    requires Appended(m, buf[..], 0, str, text) && str + |OtherText(conv)| <= buf.Length
    modifies buf
    ensures Appended(m, buf[..], 0, end, text + OtherText(conv))
  {
    end := str;
    ghost var done := text;
    if conv != PERCENT {
      end := Put(buf, end, [PERCENT], m, 0, done);
      done := done + [PERCENT];
    }
    if conv != 0 {
      end := Put(buf, end, [conv], m, 0, done);
      done := done + [conv];
    }
    assert done == text + OtherText(conv);
  }

  lemma {:induction false} AppliedAppend(cells: seq<int>, s: seq<Store>, t: seq<Store>)
    requires InRange(s + t, |cells|)
    ensures InRange(s, |cells|) && InRange(t, |cells|)
    ensures Applied(cells, s + t) == Applied(Applied(cells, s), t)
  {
    forall k | 0 <= k < |s|
      ensures s[k].index < |cells|
    {
      assert s[k] == (s + t)[k];
    }
    forall k | 0 <= k < |t|
      ensures t[k].index < |cells|
    {
      assert t[k] == (s + t)[|s| + k];
    }
    if t == [] {
      assert s + t == s;
    } else {
      assert (s + t)[..|s + t| - 1] == s + t[..|t| - 1];
      AppliedAppend(cells, s, t[..|t| - 1]);
    }
  }

  lemma LiteralStep(s: seq<byte>, args: seq<Arg>, at: nat, text: seq<byte>, stores: seq<Store>, o: Outcome)
    requires s != [] && s[0] != PERCENT && |text| == at
    requires o.Done? && o == Prepend(text, stores, Format(s, args, at))
    ensures o == Prepend(text + [s[0]], stores, Format(s[1..], args, at + 1))
    ensures at + 1 <= |o.text|
  {
    PrependAssociates(text, stores, [s[0]], [], Format(s[1..], args, at + 1));
    assert stores + [] == stores;
  }

  lemma DirectiveStep(s: seq<byte>, args: seq<Arg>, at: nat, text: seq<byte>, stores: seq<Store>, o: Outcome,
                      cells: seq<int>)
    requires s != [] && s[0] == PERCENT && |text| == at
    requires o.Done? && o == Prepend(text, stores, Format(s, args, at)) && InRange(o.stores, |cells|)
    ensures var (d, after) := Parse(s[1..]);
            && Fits(d, args)
            && var t, st := DirectiveText(d, args), DirectiveStores(d, args, at);
            && o == Prepend(text + t, stores + st, Format(after, Remaining(d, args), at + |t|))
            && at + |t| <= |o.text|
            && InRange(stores, |cells|) && InRange(st, |cells|) && InRange(stores + st, |cells|)
            && Applied(cells, stores + st) == Applied(Applied(cells, stores), st)
  {
    var (d, after) := Parse(s[1..]);
    var t, st := DirectiveText(d, args), DirectiveStores(d, args, at);
    var later := Format(after, Remaining(d, args), at + |t|);
    PrependAssociates(text, stores, t, st, later);
    AppliedAppend(cells, stores + st, later.stores);
    AppliedAppend(cells, stores, st);
  }

  /**
   Half way through: `text` is in the buffer, `stores` have been made, and what the rest of the
   format `s` means completes the whole meaning `o`.
   */
  ghost predicate Midway(m: seq<byte>, b: seq<byte>, c0: seq<int>, c: seq<int>, o: Outcome,
                         s: seq<byte>, args: seq<Arg>, at: nat, text: seq<byte>, stores: seq<Store>) {
    && o.Done? && |o.text| < |m| && InRange(o.stores, |c0|)
    && Appended(m, b, 0, at, text)
    && InRange(stores, |c0|) && c == Applied(c0, stores)
    && o == Prepend(text, stores, Format(s, args, at))
  }

  lemma NothingLeft(text: seq<byte>, stores: seq<Store>, args: seq<Arg>, at: nat, o: Outcome)
    requires o == Prepend(text, stores, Format([], args, at))
    ensures o == Done(text, stores, args)
  {
  }

  /** vsprintf(): the text and its terminator are in `buf`; the result is the length of the text. */
  method Vsprintf(buf: array<byte>, fmt: seq<byte>, args: seq<Arg>, cells: array<int>) returns (n: nat)
    requires CFormat(fmt) && buf as object != cells
    requires var o := Format(Tail(fmt, 0), args, 0);
             o.Done? && |o.text| < buf.Length && InRange(o.stores, cells.Length)
    modifies buf, cells
    ensures var o := Format(Tail(fmt, 0), args, 0);
            && n == |o.text|
            && buf[..n] == o.text && buf[n] == 0
            && buf[n + 1..] == old(buf[..])[n + 1..]
            && cells[..] == Applied(old(cells[..]), o.stores)
  {
    hide Wrote, Parse, Format;
    ghost var m, c0, o := buf[..], cells[..], Format(Tail(fmt, 0), args, 0);
    ghost var text: seq<byte>, stores: seq<Store> := [], [];
    var str: nat, i: nat, rest := 0, 0, args;
    NothingWritten(m, 0);
    PrependNothing(o);
    while fmt[i] != 0
      invariant 0 <= i < |fmt|
      invariant Midway(m, buf[..], c0, cells[..], o, Tail(fmt, i), rest, str, text, stores)
      decreases |fmt| - i
    {
      if fmt[i] != PERCENT {
        str, text := StepLiteral(buf, fmt, i, rest, str, m, c0, cells[..], text, stores, o);
        i := i + 1;
      } else {
        str, i, rest, text, stores := StepDirective(buf, fmt, i, rest, cells, str, m, c0, text, stores, o);
      }
    }
    assert Tail(fmt, i) == [];
    NothingLeft(text, stores, rest, str, o);
    Terminate(buf, str, m, text);
    n := str;
  }

  /** *str = '\0'; */
  method Terminate(buf: array<byte>, str: nat, ghost m: seq<byte>, ghost text: seq<byte>)
    requires Appended(m, buf[..], 0, str, text) && str < buf.Length
    modifies buf
    ensures buf[..str] == text && buf[str] == 0 && buf[str + 1..] == m[str + 1..]
  {
    assert buf[str..] == m[str..];
    assert buf[str + 1..] == m[str + 1..];
    buf[str] := 0;
  }

  /** A byte other than the percent sign. */
  method StepLiteral(buf: array<byte>, fmt: seq<byte>, i: nat, args: seq<Arg>, at: nat,
                     ghost m: seq<byte>, ghost c0: seq<int>, ghost c: seq<int>,
                     ghost text: seq<byte>, ghost stores: seq<Store>, ghost o: Outcome)
    returns (str: nat, ghost newText: seq<byte>)
    requires CFormat(fmt) && i < |fmt| - 1 && fmt[i] != PERCENT
    requires Midway(m, buf[..], c0, c, o, Tail(fmt, i), args, at, text, stores)
    modifies buf
    ensures Midway(m, buf[..], c0, c, o, Tail(fmt, i + 1), args, str, newText, stores)
  {
    assert Tail(fmt, i)[1..] == Tail(fmt, i + 1);
    LiteralStep(Tail(fmt, i), args, at, text, stores, o);
    str := Put(buf, at, [fmt[i]], m, 0, text);
    newText := text + [fmt[i]];
  }

  /** One directive: scanned, printed, and passed. */
  method StepDirective(buf: array<byte>, fmt: seq<byte>, start: nat, args: seq<Arg>, cells: array<int>, at: nat,
                       ghost m: seq<byte>, ghost c0: seq<int>, ghost text: seq<byte>, ghost stores: seq<Store>,
                       ghost o: Outcome)
    returns (str: nat, i: nat, rest: seq<Arg>, ghost newText: seq<byte>, ghost newStores: seq<Store>)
    requires CFormat(fmt) && buf as object != cells && start < |fmt| - 1 && fmt[start] == PERCENT
    requires Midway(m, buf[..], c0, cells[..], o, Tail(fmt, start), args, at, text, stores)
    modifies buf, cells
    ensures start < i < |fmt|
    ensures Midway(m, buf[..], c0, cells[..], o, Tail(fmt, i), rest, str, newText, newStores)
  {
    hide Format, Wrote, DirectiveText, Applied;
    assert Tail(fmt, start)[1..] == Tail(fmt, start + 1);
    DirectiveFits(Tail(fmt, start), args, at, text, stores, o);
    var flags, width, precision, used;
    flags, width, precision, i, used := ScanDirective(fmt, start, args);
    str, rest, newText, newStores := PrintScanned(buf, Directive(flags, width, precision, used == 1, fmt[i]),
                                                  args, cells, at, Tail(fmt, start), m, c0, text, stores, o);
    // the default case steps back from the terminator, so that the next step finds it again
    if fmt[i] == 0 {
      i := i - 1;
    }
    i := i + 1;
    assert Tail(fmt, i) == Parse(Tail(fmt, start + 1)).1;
  }

  lemma DirectiveFits(s: seq<byte>, args: seq<Arg>, at: nat, text: seq<byte>, stores: seq<Store>, o: Outcome)
    requires s != [] && s[0] == PERCENT && o.Done? && o == Prepend(text, stores, Format(s, args, at))
    ensures Fits(Parse(s[1..]).0, args)
  {
  }

  /** The directive at the head of `s`, scanned as `d`, is printed and its arguments passed. */
  method PrintScanned(buf: array<byte>, d: Directive, args: seq<Arg>, cells: array<int>, at: nat, ghost s: seq<byte>,
                      ghost m: seq<byte>, ghost c0: seq<int>, ghost text: seq<byte>, ghost stores: seq<Store>,
                      ghost o: Outcome)
    returns (str: nat, rest: seq<Arg>, ghost newText: seq<byte>, ghost newStores: seq<Store>)
    requires buf as object != cells && s != [] && s[0] == PERCENT
    requires Midway(m, buf[..], c0, cells[..], o, s, args, at, text, stores)
    requires var p := Parse(s[1..]).0;
             p.starred == d.starred && p.conv == d.conv && (if d.starred then d.conv == STAR else p == d)
    modifies buf, cells
    ensures Midway(m, buf[..], c0, cells[..], o, Parse(s[1..]).1, rest, str, newText, newStores)
  {
    DirectiveStep(s, args, at, text, stores, o, c0);
    SameMeaning(Parse(s[1..]).0, d, args, at);
    var used;
    str, used := PrintDirective(buf, at, d, args, cells, m, text);
    newText, newStores := text + DirectiveText(d, args), stores + DirectiveStores(d, args, at);
    rest := args[used..];
    assert rest == Remaining(d, args);
  }

  /** What a star has put in the width or the precision does not show. */
  lemma SameMeaning(d: Directive, e: Directive, args: seq<Arg>, at: nat)
    requires d.starred == e.starred && d.conv == e.conv && (d.starred || d == e)
    ensures Fits(d, args) <==> Fits(e, args)
    ensures Consumes(d) <==> Consumes(e)
    ensures Fits(d, args) ==> DirectiveText(d, args) == DirectiveText(e, args)
    ensures Fits(d, args) ==> DirectiveStores(d, args, at) == DirectiveStores(e, args, at)
  {
  }
}
