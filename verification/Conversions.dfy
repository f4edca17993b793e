/**
 What a reader of the format sees: each conversion in bytes, each argument at its directive.
 Bytes are written as numbers here: 37 is the percent sign, 100 the letter d, 48 the digit 0.
 */
module Conversions {
  import opened Machine
  import opened Numbers
  import opened FormatSpec
  import opened FormatLaws

  /** d i u o x X p */
  predicate IsNumber(c: byte) {
    c in [100, 105, 117, 111, 120, 88, 112]
  }

  ghost predicate AllIn(s: seq<byte>, bytes: seq<byte>) {
    forall k :: 0 <= k < |s| ==> s[k] in bytes
  }

  /**
   Directives as they are typed: flags of the five bytes, a width that does not start with a zero, a dot
   and digits, one of h l L, and a conversion byte that none of these could be.
   */
  lemma DirectivesInBytes(src: Source)
    ensures src.Unparse()
      == src.flags + src.width + (if src.precision.Some? then [46] + src.precision.value else [])
         + (if src.qualifier.Some? then [src.qualifier.value] else []) + [src.conv]
    ensures var digits := [48, 49, 50, 51, 52, 53, 54, 55, 56, 57];
            src.Proper() <==>
              && AllIn(src.flags, [45, 43, 32, 35, 48])
              && AllIn(src.width, digits) && (src.width != [] ==> src.width[0] != 48)
              && (src.precision.Some? ==> AllIn(src.precision.value, digits))
              && (src.qualifier.Some? ==> src.qualifier.value in [104, 108, 76])
              && src.conv != 0
              && (src.qualifier.None? ==> src.conv !in [104, 108, 76] && src.conv !in digits)
              && (src.qualifier.None? && src.precision.None? ==>
                    src.conv != 46 && (src.width == [] ==> src.conv !in [45, 43, 32, 35, 48]))
    ensures src.Starred() <==>
      src.conv == 42 && src.qualifier.None? && (src.precision == Some([]) || (src.precision.None? && src.width == []))
  {
    FlagBytesAre(src.flags);
    DigitBytesAre(src.width);
    if src.precision.Some? {
      DigitBytesAre(src.precision.value);
    }
    hide AllIn, AllDecimal;
  }

  lemma FlagBytesAre(s: seq<byte>)
    ensures AllIn(s, [45, 43, 32, 35, 48]) <==> forall k :: 0 <= k < |s| ==> IsFlag(s[k])
  {
    forall k | 0 <= k < |s|
      ensures s[k] in [45, 43, 32, 35, 48] <==> IsFlag(s[k])
    {
    }
  }

  lemma DigitBytesAre(s: seq<byte>)
    ensures AllIn(s, [48, 49, 50, 51, 52, 53, 54, 55, 56, 57]) <==> AllDecimal(s)
  {
    forall k | 0 <= k < |s|
      ensures s[k] in [48, 49, 50, 51, 52, 53, 54, 55, 56, 57] <==> IsDigit(s[k])
    {
    }
  }

  /** A single directive with a single argument, or with none. */
  lemma OneDirective(src: Source, args: seq<Arg>, n: nat)
    requires src.Proper()
    ensures var d := src.Intent();
            Format([37] + src.Unparse(), args, n)
              == if Fits(d, args) then Done(DirectiveText(d, args), DirectiveStores(d, args, n), Remaining(d, args))
                 else Mismatch
  {
    var s := [PERCENT] + src.Unparse();
    ParseUndoesUnparse(src, []);
    assert src.Unparse() + [] == src.Unparse() && s[1..] == src.Unparse();
    hide Parse, Fits, DirectiveText, DirectiveStores, Remaining;
    FormatAt(s, args, n, src.Intent(), []);
    if Fits(src.Intent(), args) {
      NothingMore(src.Intent(), args, n);
    }
  }

  lemma NothingMore(d: Directive, args: seq<Arg>, n: nat)
    requires Fits(d, args)
    ensures Prepend(DirectiveText(d, args), DirectiveStores(d, args, n),
                    Format([], Remaining(d, args), n + |DirectiveText(d, args)|))
      == Done(DirectiveText(d, args), DirectiveStores(d, args, n), Remaining(d, args))
  {
    hide DirectiveText, DirectiveStores, Remaining, Fits;
  }

  /** A number read from digits, or -1 when there are none. */
  function WidthOf(src: Source): (w: int32) {
    if src.width == [] then -1 else ToSigned(Value(src.width, 10))
  }

  /** -1 without a dot; with one, nothing and everything negative counts as 0. */
  function PrecisionOf(src: Source): (p: int32) {
    if src.precision.None? then -1
    else if ToSigned(Value(src.precision.value, 10)) < 0 then 0 else ToSigned(Value(src.precision.value, 10))
  }

  function BaseAsked(src: Source): (base: nat)
    ensures 2 <= base <= 36
  {
    if src.conv in [100, 105, 117] then 10 else if src.conv == 111 then 8 else 16
  }

  /** p without a width. */
  predicate FreePointer(src: Source) {
    src.conv == 112 && WidthOf(src) == -1
  }

  function FlagsAsked(src: Source): (f: Flags)
    ensures !(f.left && f.zeropad)
  {
    var s := src.flags;
    Flags(!(45 in s) && (48 in s || FreePointer(src)), src.conv in [100, 105], 43 in s, 32 in s, 45 in s, 35 in s,
          src.conv == 120)
  }

  /** What number() is asked for by each of its conversions. */
  lemma NumberIsAsked(src: Source, w: uint32, n: nat)
    requires src.Proper() && IsNumber(src.conv)
    ensures Format([37] + src.Unparse(), [Word(w)], n)
      == Done(NumberText(ToSigned(w), BaseAsked(src), if FreePointer(src) then 8 else WidthOf(src), PrecisionOf(src),
                         FlagsAsked(src)), [], [])
  {
    hide NumberText, ToSigned, Value, Format;
    OneDirective(src, [Word(w)], n);
  }

  /**
   d and i show the signed word in base 10, u the word in base 10, o in base 8, x, X and p in base 16,
   with the letters of x small; each with the sign and the prefix that the flags ask for.
   */
  lemma NumbersReadBack(src: Source, w: uint32, n: nat)
    requires src.Proper() && IsNumber(src.conv)
    ensures var o := Format([37] + src.Unparse(), [Word(w)], n);
            && o.Done? && o.stores == [] && o.rest == []
            && (|o.text| <= 0x7FFF_FFFF ==>
                  var signed := src.conv == 100 || src.conv == 105;
                  var base := if signed || src.conv == 117 then 10 else if src.conv == 111 then 8 else 16;
                  var negative := signed && 0x8000_0000 <= w;
                  var r := Read(o.text, base, 35 in src.flags, src.conv == 120);
                  && r.Reading?
                  && r.value == (if negative then 0x1_0000_0000 - w else w)
                  && r.sign == (if negative then 45 else if 43 in src.flags then 43 else 0)
                  && (!negative && 32 in src.flags && 43 !in src.flags ==> o.text != [] && o.text[0] == 32)
                  && LettersOf(o.text, src.conv == 120))
  {
    hide NumberText, ToSigned, Format, Read, LettersOf, SizeCounts, DigitsFollow, WidthOf, PrecisionOf, FreePointer;
    NumberIsAsked(src, w, n);
    SignedWord(w);
    var size: int32 := if FreePointer(src) then 8 else WidthOf(src);
    var base, p, f := BaseAsked(src), PrecisionOf(src), FlagsAsked(src);
    if |NumberText(ToSigned(w), base, size, p, f)| <= 0x7FFF_FFFF {
      ShortTextCounts(ToSigned(w), base, size, p, f);
      NumberDecodes(ToSigned(w), base, size, p, f);
      NumberLetters(ToSigned(w), base, size, p, f);
    }
  }

  lemma SignedWord(w: uint32)
    ensures ToSigned(w) == (if 0x8000_0000 <= w then w - 0x1_0000_0000 else w) && ToSigned(w) % TWO_32 == w
  {
  }

  /** The columns of sign and prefix. */
  function HeadOf(src: Source, w: uint32): (h: nat) {
    (if (src.conv in [100, 105] && 0x8000_0000 <= w) || 43 in src.flags || 32 in src.flags then 1 else 0)
      + if 35 !in src.flags then 0 else if src.conv in [120, 88] then 2 else if src.conv == 111 then 1 else 0
  }

  lemma HeadIsAsked(src: Source, w: uint32)
    requires IsNumber(src.conv) && src.conv != 112
    ensures HeadOf(src, w) == HeadWidth(ToSigned(w), BaseAsked(src), FlagsAsked(src))
  {
    SignedWord(w);
    hide ToSigned;
  }

  /** The same directive without its width, or without its precision. */
  lemma PartsDropped(src: Source)
    requires src.Proper() && IsNumber(src.conv) && src.conv != 112
    ensures var narrow, bare := src.(width := []), src.(precision := None);
            && narrow.Proper() && bare.Proper()
            && WidthOf(narrow) == -1 && PrecisionOf(narrow) == PrecisionOf(src)
            && WidthOf(bare) == WidthOf(src) && PrecisionOf(bare) == -1
            && FlagsAsked(narrow) == FlagsAsked(bare) == FlagsAsked(src)
            && BaseAsked(narrow) == BaseAsked(bare) == BaseAsked(src)
            && !FreePointer(narrow) && !FreePointer(bare) && !FreePointer(src)
            && (src.width == [] ==> WidthOf(src) == -1)
  {
    hide ToSigned, Value;
  }

  /**
   A width pads the same number without one: behind it with a minus flag, behind sign and prefix with
   zeros, or in front of it.
   */
  lemma WidthShown(src: Source, w: uint32, n: nat)
    requires src.Proper() && IsNumber(src.conv) && src.conv != 112
    ensures src.(width := []).Proper()
    ensures var o := Format([37] + src.Unparse(), [Word(w)], n);
            var without := Format([37] + src.(width := []).Unparse(), [Word(w)], n);
            && o.Done? && without.Done?
            && var h, narrow := HeadOf(src, w), without.text;
            var pad := WidthOf(src) - |narrow|;
            |o.text| <= 0x7FFF_FFFF && |narrow| <= 0x7FFF_FFFF ==>
              && h < |narrow|
              && o.text == if 45 in src.flags then narrow + Repeat(32, pad)
                           else if 48 in src.flags then narrow[..h] + Repeat(48, pad) + narrow[h..]
                           else Repeat(32, pad) + narrow
  {
    hide NumberText, ToSigned, Format, SizeCounts, WidthOf, PrecisionOf, HeadOf, HeadWidth, Repeat, Source.Unparse,
      FlagsAsked, BaseAsked, FreePointer;
    PartsDropped(src);
    NumberIsAsked(src, w, n);
    NumberIsAsked(src.(width := []), w, n);
    HeadIsAsked(src, w);
    var base, p, f := BaseAsked(src), PrecisionOf(src), FlagsAsked(src);
    var text, narrow := NumberText(ToSigned(w), base, WidthOf(src), p, f), NumberText(ToSigned(w), base, -1, p, f);
    if |text| <= 0x7FFF_FFFF && |narrow| <= 0x7FFF_FFFF {
      ShortTextCounts(ToSigned(w), base, WidthOf(src), p, f);
      ShortTextCounts(ToSigned(w), base, -1, p, f);
      WidthPads(ToSigned(w), base, WidthOf(src), p, f);
      LeftAndZero(src);
    }
  }

  lemma LeftAndZero(src: Source)
    ensures FlagsAsked(src).left == (45 in src.flags)
    ensures !FreePointer(src) && 45 !in src.flags ==> FlagsAsked(src).zeropad == (48 in src.flags)
  {
    hide FreePointer;
  }

  /** A precision puts zeros between the prefix and the digits, which have no spare zero of their own. */
  lemma PrecisionShown(src: Source, w: uint32, n: nat)
    requires src.Proper() && IsNumber(src.conv) && src.conv != 112 && src.width == []
    ensures src.(precision := None).Proper()
    ensures var o := Format([37] + src.Unparse(), [Word(w)], n);
            var without := Format([37] + src.(precision := None).Unparse(), [Word(w)], n);
            && o.Done? && without.Done?
            && var h, bare := HeadOf(src, w), without.text;
            |o.text| <= 0x7FFF_FFFF ==>
              && h < |bare| && (bare[h] == 48 ==> |bare| == h + 1)
              && o.text == bare[..h] + Repeat(48, PrecisionOf(src) - (|bare| - h)) + bare[h..]
  {
    hide NumberText, ToSigned, Format, SizeCounts, WidthOf, PrecisionOf, HeadOf, HeadWidth, Repeat, Source.Unparse,
      FlagsAsked, BaseAsked, FreePointer;
    PartsDropped(src);
    NumberIsAsked(src, w, n);
    NumberIsAsked(src.(precision := None), w, n);
    HeadIsAsked(src, w);
    var base, p, f := BaseAsked(src), PrecisionOf(src), FlagsAsked(src);
    if |NumberText(ToSigned(w), base, -1, p, f)| <= 0x7FFF_FFFF {
      ShortTextCounts(ToSigned(w), base, -1, p, f);
      PrecisionPads(ToSigned(w), base, p, f);
    }
  }

  /** p is X, eight columns wide and filled with zeros unless a width is given. */
  lemma PointerIsHex(src: Source, w: uint32, n: nat)
    requires src.Proper() && src.conv == 112
    ensures var hex := if WidthOf(src) == -1 then src.(flags := src.flags + [48], width := [56], conv := 88)
                       else src.(conv := 88);
            hex.Proper() && Format([37] + src.Unparse(), [Word(w)], n) == Format([37] + hex.Unparse(), [Word(w)], n)
  {
    hide NumberText, ToSigned, Format, WidthOf, PrecisionOf, Source.Unparse, FlagsAsked, BaseAsked;
    var hex := if WidthOf(src) == -1 then src.(flags := src.flags + [48], width := [56], conv := 88)
               else src.(conv := 88);
    HexParts(src, hex);
    NumberIsAsked(src, w, n);
    NumberIsAsked(hex, w, n);
  }

  lemma HexParts(src: Source, hex: Source)
    requires src.Proper() && src.conv == 112
    requires hex == if WidthOf(src) == -1 then src.(flags := src.flags + [48], width := [56], conv := 88)
                    else src.(conv := 88)
    ensures hex.Proper() && FlagsAsked(hex) == FlagsAsked(src) && BaseAsked(hex) == BaseAsked(src)
    ensures WidthOf(hex) == (if WidthOf(src) == -1 then 8 else WidthOf(src)) && PrecisionOf(hex) == PrecisionOf(src)
  {
    Eight();
    hide ToSigned, Value;
    assert forall c: byte :: c in src.flags + [48] <==> c in src.flags || c == 48;
  }

  lemma Eight()
    ensures ToSigned(Value([56], 10)) == 8
  {
    assert [56][..0] == [];
  }

  lemma TextDirective(d: Directive, arg: Arg, n: nat)
    requires !d.starred
    ensures d.conv == 115 && arg.Str? ==>
      Fits(d, [arg]) && DirectiveText(d, [arg]) == StringText(arg.s, d.width, d.precision, d.flags.left)
    ensures d.conv == 99 && arg.Word? ==>
      Fits(d, [arg]) && DirectiveText(d, [arg]) == CharText(arg.w % 256, d.width, d.flags.left)
    ensures (d.conv == 115 && arg.Str?) || (d.conv == 99 && arg.Word?) ==>
      DirectiveStores(d, [arg], n) == [] && Remaining(d, [arg]) == []
  {
    hide StringText, CharText;
  }

  lemma TextParts(src: Source)
    ensures var d := src.Intent();
            && d.width == WidthOf(src) && d.precision == PrecisionOf(src) && d.flags.left == (45 in src.flags)
            && d.starred == src.Starred() && d.conv == src.conv
  {
    hide ToSigned, Value;
  }

  /** s shows the whole string, or as many of its bytes as the precision says, in its field. */
  lemma StringShown(src: Source, s: seq<byte>, n: nat)
    requires src.Proper() && src.conv == 115
    ensures var p, w := PrecisionOf(src), WidthOf(src);
            var shown := if 0 <= p < |s| then s[..p] else s;
            45 in src.flags || -0x8000_0000 < w || 0x7FFF_FFFF <= |shown| ==>
              Format([37] + src.Unparse(), [Str(s)], n)
                == Done(if 45 in src.flags then shown + Repeat(32, w - |shown|)
                        else Repeat(32, w - |shown|) + shown, [], [])
  {
    hide Format, Repeat, StringText, Fits, DirectiveText, DirectiveStores, Remaining, Source.Unparse, Source.Intent,
      WidthOf, PrecisionOf;
    TextParts(src);
    TextDirective(src.Intent(), Str(s), n);
    OneDirective(src, [Str(s)], n);
    StringFillsField(s, WidthOf(src), PrecisionOf(src), 45 in src.flags);
  }

  /** c shows the low byte of its argument in its field. */
  lemma CharShown(src: Source, a: uint32, n: nat)
    requires src.Proper() && src.conv == 99
    ensures var w := WidthOf(src);
            (if 45 in src.flags then -0x8000_0000 else -0x7FFF_FFFF) < w ==>
              Format([37] + src.Unparse(), [Word(a)], n)
                == Done(if 45 in src.flags then [a % 256] + Repeat(32, w - 1)
                        else Repeat(32, w - 1) + [a % 256], [], [])
  {
    hide Format, Repeat, CharText, Fits, DirectiveText, DirectiveStores, Remaining, Source.Unparse, Source.Intent,
      WidthOf, PrecisionOf;
    TextParts(src);
    TextDirective(src.Intent(), Word(a), n);
    OneDirective(src, [Word(a)], n);
    CharFillsField(a % 256, WidthOf(src), 45 in src.flags);
  }

  /** n shows nothing and stores the number of bytes written before it. */
  lemma CountStored(src: Source, cell: nat, n: nat)
    requires src.Proper() && src.conv == 110
    ensures Format([37] + src.Unparse(), [FormatSpec.Cell(cell)], n) == Done([], [Store(cell, n)], [])
  {
    hide Format;
    OneDirective(src, [FormatSpec.Cell(cell)], n);
  }

  /** Any other byte shows itself behind a percent sign, which shows itself alone. */
  lemma OthersShowThemselves(src: Source, args: seq<Arg>, n: nat)
    requires src.Proper() && !src.Starred() && src.conv !in [100, 105, 117, 111, 120, 88, 112, 115, 99, 110]
    ensures Format([37] + src.Unparse(), args, n) == Done(if src.conv == 37 then [37] else [37, src.conv], [], args)
  {
    hide Format;
    OneDirective(src, args, n);
  }

  /** h, l and L change nothing. */
  lemma QualifierChangesNothing(src: Source, q: byte, args: seq<Arg>, n: nat)
    requires src.Proper() && src.qualifier.None? && !src.Starred() && q in [104, 108, 76]
    ensures src.(qualifier := Some(q)).Proper()
    ensures Format([37] + src.(qualifier := Some(q)).Unparse(), args, n) == Format([37] + src.Unparse(), args, n)
  {
    hide Format;
    OneDirective(src, args, n);
    OneDirective(src.(qualifier := Some(q)), args, n);
  }

  /** Text without a percent sign shows as it is. */
  lemma {:induction false} LiteralsShowThemselves(s: seq<byte>, args: seq<Arg>, n: nat)
    requires 37 !in s
    ensures Format(s, args, n) == Done(s, [], args)
    decreases |s|
  {
    if s != [] {
      LiteralsShowThemselves(s[1..], args, n + 1);
      assert [s[0]] + s[1..] == s;
    }
  }

  /** "%d" before plain text, as in the message of tty_init on the number of its consoles. */
  lemma OneDigitMessage(nr: uint32, rest: seq<byte>)
    requires 0 <= nr <= 9 && 37 !in rest
    ensures Format([37, 100] + rest, [Word(nr)], 0) == Done([48 + nr] + rest, [], [])
  {
    hide Format, Parse, DirectiveText, DirectiveStores, Remaining, Fits;
    var d := Directive(NO_FLAGS, -1, -1, false, 100);
    BareDecimalRead(rest);
    BareDecimalText(d, nr);
    FormatAt([37, 100] + rest, [Word(nr)], 0, d, rest);
    LiteralsShowThemselves(rest, [], 1);
  }

  lemma BareDecimalRead(rest: seq<byte>)
    ensures Parse(([37, 100] + rest)[1..]) == (Directive(NO_FLAGS, -1, -1, false, 100), rest)
  {
    var s: seq<byte> := [100] + rest;
    assert ([37, 100] + rest)[1..] == s && s[1..] == rest;
    assert ReadFlags(s, NO_FLAGS) == (NO_FLAGS, s);
    assert ReadField(s, -1) == (-1, false, s) && ReadPrecision(s) == (-1, false, s) && ReadQualifier(s) == s;
  }

  lemma BareDecimalText(d: Directive, nr: uint32)
    requires 0 <= nr <= 9 && d == Directive(NO_FLAGS, -1, -1, false, 100)
    ensures Fits(d, [Word(nr)]) && DirectiveText(d, [Word(nr)]) == [48 + nr]
    ensures DirectiveStores(d, [Word(nr)], 0) == [] && Remaining(d, [Word(nr)]) == []
  {
    OneDigit(nr);
    hide NumberText;
  }

  lemma OneDigit(n: int32)
    requires 0 <= n <= 9
    ensures NumberText(n, 10, -1, -1, Flags(false, true, false, false, false, false, false)) == [48 + n]
  {
    var f := Flags(false, true, false, false, false, false, false);
    hide NumberText, NumberLayout, SizeCounts;
    BareCounts(n, 10, f);
    LaidOut(n, 10, -1, -1, f);
    NoPadding(n, 10, -1, f);
    assert SignText(n, f) == [] && PrefixText(10, f) == [] && Body(n, 10, f) == [48 + n];
  }

  // ---------------------------------------------------------------------------------------
  // Arguments in order.
  // ---------------------------------------------------------------------------------------

  /** d i u o x X p s c n, and a star where a number may stand. */
  predicate Consuming(p: Piece) {
    p.Conversion? && (p.src.conv in [100, 105, 117, 111, 120, 88, 112, 115, 99, 110] || p.src.Starred())
  }

  /** How many pieces take an argument. */
  function Count(ps: seq<Piece>): (k: nat) {
    if ps == [] then 0 else (if Consuming(ps[0]) then 1 else 0) + Count(ps[1..])
  }

  lemma {:induction false} CountAppend(ps: seq<Piece>, qs: seq<Piece>)
    ensures Count(ps + qs) == Count(ps) + Count(qs)
    decreases |ps|
  {
    if ps == [] {
      assert ps + qs == qs;
    } else {
      assert (ps + qs)[1..] == ps[1..] + qs;
      CountAppend(ps[1..], qs);
    }
  }

  lemma ConsumingTakes(src: Source)
    ensures Consumes(src.Intent()) <==> Consuming(Conversion(src))
  {
    hide ToSigned, Value;
  }

  /** Each consuming piece takes one argument, and no piece looks at more. */
  lemma {:induction false} ArgumentsTaken(ps: seq<Piece>, args: seq<Arg>, n: nat)
    requires Meaning(ps, args, n).Done?
    ensures Count(ps) <= |args| && Meaning(ps, args, n).rest == args[Count(ps)..]
    ensures Meaning(ps, args[..Count(ps)], n) == Meaning(ps, args, n).(rest := [])
    decreases |ps|
  {
    hide DirectiveText, DirectiveStores, Remaining, Fits, Source.Intent;
    if ps != [] && ps[0].Literal? {
      ArgumentsTaken(ps[1..], args, n + 1);
    } else if ps != [] {
      ConversionTakes(ps, args, n, ps[0].src.Intent());
    }
  }

  lemma RemainingIs(d: Directive, args: seq<Arg>)
    requires Fits(d, args)
    ensures Consumes(d) ==> args != []
    ensures Remaining(d, args) == args[if Consumes(d) then 1 else 0..]
  {
  }

  lemma OwnArgument(d: Directive, args: seq<Arg>, own: seq<Arg>, n: nat)
    requires Fits(d, args) && own <= args && (Consumes(d) ==> own != [])
    ensures Fits(d, own)
    ensures DirectiveText(d, own) == DirectiveText(d, args)
    ensures DirectiveStores(d, own, n) == DirectiveStores(d, args, n)
  {
  }

  lemma {:induction false} ConversionTakes(ps: seq<Piece>, args: seq<Arg>, n: nat, d: Directive)
    requires ps != [] && ps[0].Conversion? && ps[0].src.Intent() == d && Meaning(ps, args, n).Done?
    ensures Count(ps) <= |args| && Meaning(ps, args, n).rest == args[Count(ps)..]
    ensures Meaning(ps, args[..Count(ps)], n) == Meaning(ps, args, n).(rest := [])
    decreases |ps|, 0
  {
    hide DirectiveText, DirectiveStores, Remaining, Fits, Meaning, Consuming, Consumes, Source.Intent;
    MeaningAt(ps, args, n, d);
    ConsumingTakes(ps[0].src);
    RemainingIs(d, args);
    var m, more := n + |DirectiveText(d, args)|, Remaining(d, args);
    ArgumentsTaken(ps[1..], more, m);
    var own := args[..Count(ps)];
    OwnArgument(d, args, own, n);
    RemainingIs(d, own);
    assert Remaining(d, own) == more[..Count(ps[1..])];
    MeaningAt(ps, own, n, d);
  }

  /**
   Whatever a format is written of: it takes as many arguments as it has consuming pieces, the first
   ones, and leaves the others.
   */
  lemma ArgumentsInOrder(ps: seq<Piece>, args: seq<Arg>, n: nat)
    requires ProperPieces(ps) && Format(Written(ps), args, n).Done?
    ensures var o := Format(Written(ps), args, n);
            && Count(ps) <= |args| && o.rest == args[Count(ps)..]
            && Format(Written(ps), args[..Count(ps)], n) == Done(o.text, o.stores, [])
  {
    FormatMeansItsPieces(ps, args, n);
    ArgumentsTaken(ps, args, n);
    FormatMeansItsPieces(ps, args[..Count(ps)], n);
  }

  function Length(o: Outcome): (n: nat) {
    if o.Done? then |o.text| else 0
  }

  /** The outcome `o` is these three, one after the other; the first two use up their arguments. */
  predicate InTurn(o: Outcome, before: Outcome, own: Outcome, after: Outcome) {
    && before.Done? && own.Done? && after.Done? && before.rest == [] && own.rest == []
    && o == Done(before.text + own.text + after.text, before.stores + own.stores + after.stores, after.rest)
  }

  /**
   The piece at `k` shows what it shows alone, with the argument that comes after those of the pieces
   before it, and counts the text before it.
   */
  lemma PieceHasItsArgument(ps: seq<Piece>, k: nat, args: seq<Arg>, n: nat)
    requires ProperPieces(ps) && k < |ps| && Format(Written(ps), args, n).Done?
    ensures Count(ps[..k]) + (if Consuming(ps[k]) then 1 else 0) <= |args|
    ensures var i := Count(ps[..k]);
            var j := if Consuming(ps[k]) then i + 1 else i;
            var before := Format(Written(ps[..k]), args[..i], n);
            var own := Format(PieceText(ps[k]), args[i..j], n + Length(before));
            var after := Format(Written(ps[k + 1..]), args[j..], n + Length(before) + Length(own));
            InTurn(Format(Written(ps), args, n), before, own, after)
  {
    hide Meaning, Written, Consuming, Count, Format, PieceText;
    FormatMeansItsPieces(ps, args, n);
    PiecesInTurn(ps[..k], [ps[k]], ps[k + 1..], ps, args, n);
    CountOne(ps[k]);
    var i := Count(ps[..k]);
    var j := i + Count([ps[k]]);
    FormatMeansItsPieces(ps[..k], args[..i], n);
    var m := n + Length(Meaning(ps[..k], args[..i], n));
    FormatMeansItsPieces([ps[k]], args[i..j], m);
    FormatMeansItsPieces(ps[k + 1..], args[j..], m + Length(Meaning([ps[k]], args[i..j], m)));
  }

  lemma PiecesInTurn(front: seq<Piece>, p: seq<Piece>, back: seq<Piece>, ps: seq<Piece>, args: seq<Arg>, n: nat)
    requires ps == front + (p + back) && Meaning(ps, args, n).Done?
    ensures Count(front) + Count(p) <= |args|
    ensures var i, j := Count(front), Count(front) + Count(p);
            var before := Meaning(front, args[..i], n);
            var own := Meaning(p, args[i..j], n + Length(before));
            var after := Meaning(back, args[j..], n + Length(before) + Length(own));
            InTurn(Meaning(ps, args, n), before, own, after)
  {
    hide Meaning, Count;
    MeaningAppend(front, p + back, args, n);
    ArgumentsTaken(front, args, n);
    var i := Count(front);
    var before := Meaning(front, args, n);
    var m := n + |before.text|;
    MeaningAppend(p, back, args[i..], m);
    ArgumentsTaken(p, args[i..], m);
    var j := i + Count(p);
    assert args[i..][..j - i] == args[i..j] && args[i..][j - i..] == args[j..];
  }

  lemma CountOne(p: Piece)
    ensures Count([p]) == (if Consuming(p) then 1 else 0) && Written([p]) == PieceText(p)
  {
    assert [p][1..] == [];
  }

  /** The meaning of two lists of pieces, one after the other. */
  lemma {:induction false} MeaningAppend(ps: seq<Piece>, qs: seq<Piece>, args: seq<Arg>, n: nat)
    requires Meaning(ps + qs, args, n).Done?
    ensures var o := Meaning(ps, args, n);
            && o.Done? && Meaning(qs, o.rest, n + |o.text|).Done?
            && Meaning(ps + qs, args, n) == Prepend(o.text, o.stores, Meaning(qs, o.rest, n + |o.text|))
    decreases |ps|
  {
    hide DirectiveText, DirectiveStores, Remaining, Fits, Source.Intent;
    if ps == [] {
      assert ps + qs == qs;
    } else if ps[0].Literal? {
      assert (ps + qs)[1..] == ps[1..] + qs;
      MeaningAppend(ps[1..], qs, args, n + 1);
      var o := Meaning(ps[1..], args, n + 1);
      PrependAssociates([ps[0].c], [], o.text, o.stores, Meaning(qs, o.rest, n + 1 + |o.text|));
    } else {
      ConversionAppend(ps, qs, args, n, ps[0].src.Intent());
    }
  }

  lemma {:induction false} ConversionAppend(ps: seq<Piece>, qs: seq<Piece>, args: seq<Arg>, n: nat, d: Directive)
    requires ps != [] && ps[0].Conversion? && ps[0].src.Intent() == d && Meaning(ps + qs, args, n).Done?
    ensures var o := Meaning(ps, args, n);
            && o.Done? && Meaning(qs, o.rest, n + |o.text|).Done?
            && Meaning(ps + qs, args, n) == Prepend(o.text, o.stores, Meaning(qs, o.rest, n + |o.text|))
    decreases |ps|, 0
  {
    hide DirectiveText, DirectiveStores, Remaining, Fits, Meaning, Source.Intent;
    assert (ps + qs)[1..] == ps[1..] + qs && (ps + qs)[0] == ps[0];
    MeaningAt(ps + qs, args, n, d);
    MeaningAt(ps, args, n, d);
    MeaningAppend(ps[1..], qs, Remaining(d, args), n + |DirectiveText(d, args)|);
  }
}
