/** Laws of formats: where they can be cut, what they are built from, and what a star does. */
module FormatLaws {
  import opened Machine
  import opened Numbers
  import opened FormatSpec

  ghost predicate NoNul(s: seq<byte>) {
    forall k :: 0 <= k < |s| ==> s[k] != 0
  }

  /** `s` does not end inside a directive. */
  predicate Complete(s: seq<byte>)
    decreases |s|
  {
    if s == [] then true
    else if s[0] != PERCENT then Complete(s[1..])
    else Parse(s[1..]).0.conv != 0 && Complete(Parse(s[1..]).1)
  }

  // ---------------------------------------------------------------------------------------
  // Reading a directive looks no further than its conversion byte.
  // ---------------------------------------------------------------------------------------

  /** Text added where a reader stops: after a byte that stops it, or a percent sign. */
  predicate Stops(rest: seq<byte>, t: seq<byte>) {
    rest != [] || t == [PERCENT]
  }

  lemma {:induction false} FlagsExtend(s: seq<byte>, f: Flags, t: seq<byte>)
    requires Stops(ReadFlags(s, f).1, t)
    ensures ReadFlags(s + t, f) == (ReadFlags(s, f).0, ReadFlags(s, f).1 + t)
  {
    if s == [] {
      assert s + t == t;
    } else if IsFlag(s[0]) {
      assert (s + t)[1..] == s[1..] + t;
      FlagsExtend(s[1..], AddFlag(f, s[0]), t);
    }
  }

  lemma {:induction false} AtoiExtends(s: seq<byte>, i: int32, t: seq<byte>)
    requires Stops(Atoi(s, i).1, t)
    ensures Atoi(s + t, i) == (Atoi(s, i).0, Atoi(s, i).1 + t)
  {
    if s == [] {
      assert s + t == t;
    } else if IsDigit(s[0]) {
      assert (s + t)[1..] == s[1..] + t;
      AtoiExtends(s[1..], ToSigned(i * 10 + s[0] - ZERO), t);
    }
  }

  lemma FieldExtends(s: seq<byte>, absent: int32, t: seq<byte>)
    requires Stops(ReadField(s, absent).2, t)
    ensures var r := ReadField(s, absent);
            ReadField(s + t, absent) == (r.0, r.1, r.2 + t)
  {
    if s == [] {
      assert s + t == t;
    } else if IsDigit(s[0]) {
      AtoiExtends(s, 0, t);
    }
  }

  lemma PrecisionExtends(s: seq<byte>, t: seq<byte>)
    requires Stops(ReadPrecision(s).2, t)
    ensures var r := ReadPrecision(s);
            ReadPrecision(s + t) == (r.0, r.1, r.2 + t)
  {
    if s == [] {
      assert s + t == t;
    } else if s[0] == DOT {
      assert (s + t)[1..] == s[1..] + t;
      FieldExtends(s[1..], 0, t);
    }
  }

  lemma QualifierExtends(s: seq<byte>, t: seq<byte>)
    requires Stops(ReadQualifier(s), t)
    ensures ReadQualifier(s + t) == ReadQualifier(s) + t
  {
    if s == [] {
      assert s + t == t;
    } else if IsQualifier(s[0]) {
      assert (s + t)[1..] == s[1..] + t;
    }
  }

  /** What is left for the conversion, once flags, width, precision and qualifier are read. */
  function AtConversion(s: seq<byte>): (t: seq<byte>)
    ensures |t| <= |s|
  {
    ReadQualifier(ReadPrecision(ReadField(ReadFlags(s, NO_FLAGS).1, -1).2).2)
  }

  lemma ParseExtends(s: seq<byte>, t: seq<byte>)
    requires Stops(AtConversion(s), t)
    ensures AtConversion(s + t) == AtConversion(s) + t
    ensures AtConversion(s) != [] ==> Parse(s + t) == (Parse(s).0, Parse(s).1 + t)
    ensures AtConversion(s) == [] ==> Parse(s + t).0.conv == PERCENT && !Parse(s + t).0.starred && Parse(s + t).1 == []
  {
    var (flags, s1) := ReadFlags(s, NO_FLAGS);
    var field := ReadField(s1, -1);
    var prec := ReadPrecision(field.2);
    FlagsExtend(s, NO_FLAGS, t);
    FieldExtends(s1, -1, t);
    PrecisionExtends(field.2, t);
    QualifierExtends(prec.2, t);
    var s4 := ReadQualifier(prec.2);
    if s4 != [] {
      assert (s4 + t)[1..] == s4[1..] + t;
    } else {
      assert s4 + t == t;
    }
  }

  lemma CutOffHasNoConversion(s: seq<byte>)
    requires NoNul(s)
    ensures Parse(s).0.conv == 0 <==> AtConversion(s) == []
    ensures AtConversion(s) == [] ==> !Parse(s).0.starred && Parse(s).1 == []
    ensures NoNul(Parse(s).1)
  {
    AtConversionIsSuffix(s);
  }

  lemma {:induction false} FlagsSuffix(s: seq<byte>, f: Flags)
    requires NoNul(s)
    ensures NoNul(ReadFlags(s, f).1)
  {
    if s != [] && IsFlag(s[0]) {
      FlagsSuffix(s[1..], AddFlag(f, s[0]));
    }
  }

  lemma {:induction false} AtoiSuffix(s: seq<byte>, i: int32)
    requires NoNul(s)
    ensures NoNul(Atoi(s, i).1)
  {
    if s != [] && IsDigit(s[0]) {
      AtoiSuffix(s[1..], ToSigned(i * 10 + s[0] - ZERO));
    }
  }

  lemma FieldSuffix(s: seq<byte>, absent: int32)
    requires NoNul(s)
    ensures NoNul(ReadField(s, absent).2)
  {
    AtoiSuffix(s, 0);
  }

  lemma AtConversionIsSuffix(s: seq<byte>)
    requires NoNul(s)
    ensures NoNul(AtConversion(s))
  {
    FlagsSuffix(s, NO_FLAGS);
    var s1 := ReadFlags(s, NO_FLAGS).1;
    FieldSuffix(s1, -1);
    var s2 := ReadField(s1, -1).2;
    if s2 != [] {
      FieldSuffix(s2[1..], 0);
    }
  }

  // ---------------------------------------------------------------------------------------
  // Formats compose at directive boundaries, and nowhere else.
  // ---------------------------------------------------------------------------------------

  /** Formatting f1 + f2 is formatting f1, then f2 with the arguments left for it. */
  ghost predicate Splits(f1: seq<byte>, a1: seq<Arg>, n: nat, f2: seq<byte>, a2: seq<Arg>) {
    var o := Format(f1, a1, n);
    o.Done? && Format(f1 + f2, a1 + a2, n) == Prepend(o.text, o.stores, Format(f2, a2, n + |o.text|))
  }

  lemma MoreArguments(d: Directive, args: seq<Arg>, more: seq<Arg>, n: nat)
    requires Fits(d, args)
    ensures Fits(d, args + more)
    ensures DirectiveText(d, args + more) == DirectiveText(d, args)
    ensures DirectiveStores(d, args + more, n) == DirectiveStores(d, args, n)
    ensures Remaining(d, args + more) == Remaining(d, args) + more
  {
  }

  lemma {:induction false} CompleteFormatsSplit(f1: seq<byte>, a1: seq<Arg>, n: nat, f2: seq<byte>, a2: seq<Arg>)
    requires Complete(f1) && Format(f1, a1, n).Done? && Format(f1, a1, n).rest == []
    ensures Splits(f1, a1, n, f2, a2)
    decreases |f1|
  {
    hide DirectiveText, DirectiveStores, Remaining, Fits;
    if f1 == [] {
      assert f1 + f2 == f2 && a1 + a2 == a2;
      PrependNothing(Format(f2, a2, n));
    } else if f1[0] != PERCENT {
      assert (f1 + f2)[1..] == f1[1..] + f2;
      CompleteFormatsSplit(f1[1..], a1, n + 1, f2, a2);
      var o := Format(f1[1..], a1, n + 1);
      PrependAssociates([f1[0]], [], o.text, o.stores, Format(f2, a2, n + 1 + |o.text|));
    } else {
      assert (f1 + f2)[1..] == f1[1..] + f2;
      ParseExtends(f1[1..], f2);
      DirectiveSplits(f1, a1, n, f2, a2);
    }
  }

  /** One unfolding of Format at a directive that has been read. */
  lemma FormatAt(s: seq<byte>, args: seq<Arg>, n: nat, d: Directive, after: seq<byte>)
    requires s != [] && s[0] == PERCENT && Parse(s[1..]) == (d, after)
    ensures Format(s, args, n)
      == if !Fits(d, args) then Mismatch
         else Prepend(DirectiveText(d, args), DirectiveStores(d, args, n),
                      Format(after, Remaining(d, args), n + |DirectiveText(d, args)|))
  {
  }

  lemma {:induction false} DirectiveSplits(f1: seq<byte>, a1: seq<Arg>, n: nat, f2: seq<byte>, a2: seq<Arg>)
    requires f1 != [] && f1[0] == PERCENT && Complete(f1)
    requires Format(f1, a1, n).Done? && Format(f1, a1, n).rest == []
    requires Parse((f1 + f2)[1..]) == (Parse(f1[1..]).0, Parse(f1[1..]).1 + f2)
    ensures Splits(f1, a1, n, f2, a2)
    decreases |f1|, 0
  {
    hide DirectiveText, DirectiveStores, Remaining, Fits, Parse;
    var (d, after) := Parse(f1[1..]);
    FormatAt(f1, a1, n, d, after);
    MoreArguments(d, a1, a2, n);
    FormatAt(f1 + f2, a1 + a2, n, d, after + f2);
    var text, stores := DirectiveText(d, a1), DirectiveStores(d, a1, n);
    CompleteFormatsSplit(after, Remaining(d, a1), n + |text|, f2, a2);
    PrependSplit(text, stores, Format(after, Remaining(d, a1), n + |text|), f2, a2, n);
  }

  lemma PrependSplit(text: seq<byte>, stores: seq<Store>, o: Outcome, f2: seq<byte>, a2: seq<Arg>, n: nat)
    requires o.Done?
    ensures var p := Prepend(text, stores, o);
            Prepend(text, stores, Prepend(o.text, o.stores, Format(f2, a2, n + |text| + |o.text|)))
              == Prepend(p.text, p.stores, Format(f2, a2, n + |p.text|))
  {
    hide Format;
    PrependAssociates(text, stores, o.text, o.stores, Format(f2, a2, n + |text| + |o.text|));
  }

  /** A directive cut off at the end absorbs a percent sign that should have started the next one. */
  lemma {:induction false} CutOffAbsorbs(f1: seq<byte>, a1: seq<Arg>, n: nat)
    requires NoNul(f1) && !Complete(f1) && Format(f1, a1, n).Done?
    ensures Format(f1 + [PERCENT], a1, n) == Format(f1, a1, n)
    decreases |f1|
  {
    hide DirectiveText, DirectiveStores, Remaining, Fits, Parse;
    assert (f1 + [PERCENT])[1..] == f1[1..] + [PERCENT];
    if f1[0] != PERCENT {
      CutOffAbsorbs(f1[1..], a1, n + 1);
    } else {
      CutOffHasNoConversion(f1[1..]);
      ParseExtends(f1[1..], [PERCENT]);
      var (d, after) := Parse(f1[1..]);
      if AtConversion(f1[1..]) != [] {
        FormatAt(f1, a1, n, d, after);
        FormatAt(f1 + [PERCENT], a1, n, d, after + [PERCENT]);
        CutOffAbsorbs(after, Remaining(d, a1), n + |DirectiveText(d, a1)|);
      } else {
        LastDirective(f1, a1, n, d);
        LastDirective(f1 + [PERCENT], a1, n, Parse(f1[1..] + [PERCENT]).0);
      }
    }
  }

  /** A directive cut off at the end, or one that ends in a percent sign, prints that sign alone. */
  lemma LastDirective(s: seq<byte>, args: seq<Arg>, n: nat, d: Directive)
    requires s != [] && s[0] == PERCENT && Parse(s[1..]) == (d, [])
    requires !d.starred && (d.conv == 0 || d.conv == PERCENT)
    ensures Format(s, args, n) == Done([PERCENT], [], args)
  {
    hide Parse;
    FormatAt(s, args, n, d, []);
    assert OtherText(d.conv) == [PERCENT];
  }

  /** Cutting a format is harmless exactly at a directive boundary. */
  lemma SplitsExactlyAtBoundaries(f1: seq<byte>, a1: seq<Arg>, n: nat)
    requires NoNul(f1) && Format(f1, a1, n).Done? && Format(f1, a1, n).rest == []
    ensures Complete(f1) <==> forall f2, a2 :: Splits(f1, a1, n, f2, a2)
  {
    if Complete(f1) {
      forall f2, a2
        ensures Splits(f1, a1, n, f2, a2)
      {
        CompleteFormatsSplit(f1, a1, n, f2, a2);
      }
    } else {
      CutOffAbsorbs(f1, a1, n);
      assert a1 + [] == a1;
      var o := Format(f1, a1, n);
      LonePercent(n + |o.text|);
      assert |Prepend(o.text, o.stores, Format([PERCENT], [], n + |o.text|)).text| == |o.text| + 1;
      assert !Splits(f1, a1, n, [PERCENT], []);
    }
  }

  lemma LonePercent(n: nat)
    ensures Format([PERCENT], [], n) == Done([PERCENT], [], [])
  {
    var s: seq<byte> := [PERCENT];
    assert s[1..] == [];
    assert Parse([]) == (Directive(NO_FLAGS, -1, -1, false, 0), []);
    var args: seq<Arg> := [];
    assert Format([], args, n + 1) == Done([], [], args);
    assert OtherText(0) == [PERCENT];
  }

  // ---------------------------------------------------------------------------------------
  // Formats as a programmer writes them.
  // ---------------------------------------------------------------------------------------

  datatype Option<T> = None | Some(value: T)

  /**
   The bytes of a directive, part by part: flags, a width without leading zeros, the digits behind
   a dot, a qualifier and a conversion.
   */
  datatype Source = Source(flags: seq<byte>, width: seq<byte>, precision: Option<seq<byte>>,
                           qualifier: Option<byte>, conv: byte)
  {
    /** No part could be taken for an earlier one. */
    ghost predicate Proper() {
      && (forall k :: 0 <= k < |flags| ==> IsFlag(flags[k]))
      && AllDecimal(width) && (width != [] ==> width[0] != ZERO)
      && (precision.Some? ==> AllDecimal(precision.value))
      && (qualifier.Some? ==> IsQualifier(qualifier.value))
      && conv != 0
      && (qualifier.None? ==> !IsQualifier(conv) && !IsDigit(conv))
      && (qualifier.None? && precision.None? ==> conv != DOT && (width == [] ==> !IsFlag(conv)))
    }

    /** What stands after the percent sign. */
    function Unparse(): (s: seq<byte>) {
      flags + AfterFlags()
    }

    function AfterFlags(): (s: seq<byte>) {
      width + AfterWidth()
    }

    function AfterWidth(): (s: seq<byte>) {
      (if precision.Some? then [DOT] + precision.value else []) + AfterPrecision()
    }

    function AfterPrecision(): (s: seq<byte>) {
      (if qualifier.Some? then [qualifier.value] else []) + [conv]
    }

    /** A star where a number may stand. */
    predicate Starred() {
      qualifier.None? && conv == STAR && (precision == Some([]) || (precision.None? && width == []))
    }

    /**
     What it asks for. A missing width or precision counts as -1, a precision without digits as 0;
     numbers wrap to an int, and a precision that becomes negative counts as 0.
     */
    function Intent(): (d: Directive) {
      Directive(FlagsIn(flags, NO_FLAGS),
                if width == [] then -1 else ToSigned(Value(width, 10)),
                if precision.None? then -1 else Max(ToSigned(Value(precision.value, 10)), 0),
                Starred(), conv)
    }
  }

  /** Flags accumulate, in any order and however often they are given. */
  function FlagsIn(s: seq<byte>, f: Flags): (g: Flags) {
    Flags(f.zeropad || ZERO in s, f.sign, f.plus || PLUS in s, f.space || SPACE in s,
          f.left || MINUS in s, f.special || HASH in s, f.small)
  }

  lemma {:induction false} FlagsRead(s: seq<byte>, f: Flags, t: seq<byte>)
    requires forall k :: 0 <= k < |s| ==> IsFlag(s[k])
    requires t != [] && !IsFlag(t[0])
    ensures ReadFlags(s + t, f) == (FlagsIn(s, f), t)
  {
    if s == [] {
      assert s + t == t;
    } else {
      assert (s + t)[1..] == s[1..] + t;
      FlagsRead(s[1..], AddFlag(f, s[0]), t);
      assert forall c: byte :: c in s <==> c == s[0] || c in s[1..];
    }
  }

  /** A field is read as the number of its digits; without digits a star may stand there. */
  lemma FieldRead(digits: seq<byte>, t: seq<byte>, absent: int32)
    requires AllDecimal(digits) && t != [] && !IsDigit(t[0])
    ensures ReadField(digits + t, absent)
      == (if digits == [] then absent else ToSigned(Value(digits, 10)), digits == [] && t[0] == STAR, t)
  {
    if digits == [] {
      assert digits + t == t;
    } else {
      hide ToSigned, Value;
      AtoiReads(digits, t, 0);
    }
  }

  lemma AfterPrecisionReads(src: Source, rest: seq<byte>)
    requires src.Proper()
    ensures var t := src.AfterPrecision() + rest;
            && t != [] && !IsDigit(t[0]) && ReadQualifier(t) == [src.conv] + rest
            && (t[0] == STAR <==> src.qualifier.None? && src.conv == STAR)
            && (src.precision.None? ==> t[0] != DOT && (src.width == [] ==> !IsFlag(t[0])))
  {
    if src.qualifier.Some? {
      assert (src.AfterPrecision() + rest)[1..] == [src.conv] + rest;
    }
  }

  lemma AfterWidthReads(src: Source, rest: seq<byte>)
    requires src.Proper()
    ensures var t := src.AfterWidth() + rest;
            && t != [] && !IsDigit(t[0]) && (src.width == [] ==> !IsFlag(t[0]))
            && (t[0] == STAR <==> src.precision.None? && src.qualifier.None? && src.conv == STAR)
            && ReadPrecision(t) == (src.Intent().precision,
                                    src.precision == Some([]) && src.qualifier.None? && src.conv == STAR,
                                    src.AfterPrecision() + rest)
  {
    AfterPrecisionReads(src, rest);
    var t := src.AfterWidth() + rest;
    if src.precision.Some? {
      assert t[1..] == src.precision.value + (src.AfterPrecision() + rest);
      FieldRead(src.precision.value, src.AfterPrecision() + rest, 0);
    } else {
      assert t == src.AfterPrecision() + rest;
    }
  }

  lemma AfterFlagsReads(src: Source, rest: seq<byte>)
    requires src.Proper()
    ensures var t := src.AfterFlags() + rest;
            && t != [] && !IsFlag(t[0])
            && ReadField(t, -1) == (src.Intent().width,
                                    src.width == [] && src.precision.None? && src.qualifier.None? && src.conv == STAR,
                                    src.AfterWidth() + rest)
  {
    AfterWidthReads(src, rest);
    assert src.AfterFlags() + rest == src.width + (src.AfterWidth() + rest);
    FieldRead(src.width, src.AfterWidth() + rest, -1);
  }

  /** Reading a written directive gives back what was intended, and stops right behind it. */
  lemma ParseUndoesUnparse(src: Source, rest: seq<byte>)
    requires src.Proper()
    ensures Parse(src.Unparse() + rest) == (src.Intent(), rest)
  {
    AfterFlagsReads(src, rest);
    AfterWidthReads(src, rest);
    AfterPrecisionReads(src, rest);
    assert src.Unparse() + rest == src.flags + (src.AfterFlags() + rest);
    FlagsRead(src.flags, NO_FLAGS, src.AfterFlags() + rest);
    assert ([src.conv] + rest)[1..] == rest;
  }

  /**
   A star is not honoured: the directive shows itself, one argument is lost, and what followed
   the star is printed literally.
   */
  lemma StarShowsItself(src: Source, rest: seq<byte>, w: uint32, args: seq<Arg>, n: nat)
    requires src.Proper() && src.Starred()
    ensures src.conv == 42
    ensures Format([PERCENT] + src.Unparse() + rest, [Word(w)] + args, n)
      == Prepend([37, 42], [], Format(rest, args, n + 2))
  {
    hide Parse;
    ConsTail(PERCENT, src.Unparse(), rest);
    ParseUndoesUnparse(src, rest);
    FormatAt([PERCENT] + src.Unparse() + rest, [Word(w)] + args, n, src.Intent(), rest);
    assert ([Word(w)] + args)[1..] == args;
    assert OtherText(STAR) == [PERCENT, STAR];
  }

  datatype Piece = Literal(c: byte) | Conversion(src: Source)

  ghost predicate ProperPiece(p: Piece) {
    match p
    case Literal(c) => c != PERCENT && c != 0
    case Conversion(src) => src.Proper()
  }

  ghost predicate ProperPieces(ps: seq<Piece>) {
    forall k :: 0 <= k < |ps| ==> ProperPiece(ps[k])
  }

  function PieceText(p: Piece): (s: seq<byte>) {
    match p
    case Literal(c) => [c]
    case Conversion(src) => [PERCENT] + src.Unparse()
  }

  function Written(ps: seq<Piece>): (s: seq<byte>) {
    if ps == [] then [] else PieceText(ps[0]) + Written(ps[1..])
  }

  /** The meaning of the pieces, with no format string in sight. */
  function Meaning(ps: seq<Piece>, args: seq<Arg>, n: nat): (o: Outcome) {
    if ps == [] then Done([], [], args)
    else
      match ps[0]
      case Literal(c) => Prepend([c], [], Meaning(ps[1..], args, n + 1))
      case Conversion(src) =>
        var d := src.Intent();
        if !Fits(d, args) then Mismatch
        else
          Prepend(DirectiveText(d, args), DirectiveStores(d, args, n),
                  Meaning(ps[1..], Remaining(d, args), n + |DirectiveText(d, args)|))
  }

  lemma WrittenConversion(ps: seq<Piece>)
    requires ps != [] && ps[0].Conversion?
    ensures Written(ps) != [] && Written(ps)[0] == PERCENT
    ensures Written(ps)[1..] == ps[0].src.Unparse() + Written(ps[1..])
  {
    ConsTail(PERCENT, ps[0].src.Unparse(), Written(ps[1..]));
  }

  lemma ConsTail(c: byte, u: seq<byte>, w: seq<byte>)
    ensures ([c] + u + w)[0] == c && ([c] + u + w)[1..] == u + w
  {
  }

  lemma MeaningAt(ps: seq<Piece>, args: seq<Arg>, n: nat, d: Directive)
    requires ps != [] && ps[0].Conversion? && ps[0].src.Intent() == d
    ensures Meaning(ps, args, n)
      == if !Fits(d, args) then Mismatch
         else Prepend(DirectiveText(d, args), DirectiveStores(d, args, n),
                      Meaning(ps[1..], Remaining(d, args), n + |DirectiveText(d, args)|))
  {
  }

  /** A format means what its pieces mean, one after the other. */
  lemma {:induction false} FormatMeansItsPieces(ps: seq<Piece>, args: seq<Arg>, n: nat)
    requires ProperPieces(ps)
    ensures Format(Written(ps), args, n) == Meaning(ps, args, n)
    decreases |ps|
  {
    hide DirectiveText, DirectiveStores, Remaining, Fits, Parse;
    if ps != [] {
      var rest := Written(ps[1..]);
      assert ProperPiece(ps[0]);
      if ps[0].Literal? {
        assert Written(ps)[1..] == rest;
        FormatMeansItsPieces(ps[1..], args, n + 1);
      } else {
        ConversionMeans(ps, args, n, ps[0].src.Intent());
      }
    }
  }

  lemma {:induction false} ConversionMeans(ps: seq<Piece>, args: seq<Arg>, n: nat, d: Directive)
    requires ps != [] && ps[0].Conversion? && ps[0].src.Intent() == d
    requires ProperPieces(ps)
    ensures Format(Written(ps), args, n) == Meaning(ps, args, n)
    decreases |ps|, 0
  {
    hide DirectiveText, DirectiveStores, Remaining, Fits, Parse, Format, Written;
    assert ProperPiece(ps[0]);
    WrittenConversion(ps);
    ParseUndoesUnparse(ps[0].src, Written(ps[1..]));
    FormatAt(Written(ps), args, n, d, Written(ps[1..]));
    MeaningAt(ps, args, n, d);
    if Fits(d, args) {
      FormatMeansItsPieces(ps[1..], Remaining(d, args), n + |DirectiveText(d, args)|);
    }
  }

  // ---------------------------------------------------------------------------------------
  // Every complete format is written in pieces.
  // ---------------------------------------------------------------------------------------

  /** The leading flags of `s`. */
  function FlagBytes(s: seq<byte>): (t: seq<byte>)
    ensures |t| <= |s| && forall k :: 0 <= k < |t| ==> IsFlag(t[k])
  {
    if s != [] && IsFlag(s[0]) then [s[0]] + FlagBytes(s[1..]) else []
  }

  lemma {:induction false} FlagsEnd(s: seq<byte>, f: Flags)
    ensures FlagBytes(s) + ReadFlags(s, f).1 == s
    ensures ReadFlags(s, f).1 != [] ==> !IsFlag(ReadFlags(s, f).1[0])
  {
    hide AddFlag;
    if s != [] && IsFlag(s[0]) {
      FlagsEnd(s[1..], AddFlag(f, s[0]));
      ConsAgain(s, FlagBytes(s[1..]), ReadFlags(s, f).1);
    }
  }

  lemma ConsAgain(s: seq<byte>, t: seq<byte>, rest: seq<byte>)
    requires s != [] && t + rest == s[1..]
    ensures [s[0]] + t + rest == s
  {
  }

  lemma {:induction false} DigitsEnd(s: seq<byte>, i: int32)
    ensures LeadingDigits(s, 10) + Atoi(s, i).1 == s && AllDecimal(LeadingDigits(s, 10))
  {
    if s != [] && IsDigit(s[0]) {
      DigitsEnd(s[1..], ToSigned(i * 10 + s[0] - ZERO));
      ConsAgain(s, LeadingDigits(s[1..], 10), Atoi(s, i).1);
    }
  }

  lemma FieldEnds(s: seq<byte>, absent: int32)
    ensures var t := ReadField(s, absent).2;
            LeadingDigits(s, 10) + t == s && AllDecimal(LeadingDigits(s, 10)) && (t != [] ==> !IsDigit(t[0]))
  {
    DigitsEnd(s, 0);
  }

  /** The parts of the directive at the head of `s`. */
  function SourceOf(s: seq<byte>): (src: Source) {
    var s1 := ReadFlags(s, NO_FLAGS).1;
    var s2 := ReadField(s1, -1).2;
    var s3 := ReadPrecision(s2).2;
    Source(FlagBytes(s), LeadingDigits(s1, 10),
           if s2 != [] && s2[0] == DOT then Some(LeadingDigits(s2[1..], 10)) else None,
           if s3 != [] && IsQualifier(s3[0]) then Some(s3[0]) else None,
           if AtConversion(s) != [] then AtConversion(s)[0] else 0)
  }

  lemma PrecisionEnds(s: seq<byte>, src: Source, t: seq<byte>)
    requires t == ReadPrecision(s).2
    requires src.precision == if s != [] && s[0] == DOT then Some(LeadingDigits(s[1..], 10)) else None
    ensures (if src.precision.Some? then [DOT] + src.precision.value else []) + t == s
    ensures src.precision.Some? ==> AllDecimal(src.precision.value) && (t != [] ==> !IsDigit(t[0]))
    ensures src.precision.None? ==> t == s && (t != [] ==> t[0] != DOT)
  {
    hide LeadingDigits, ReadField;
    if src.precision.Some? {
      FieldEnds(s[1..], 0);
      assert s == [DOT] + s[1..];
    } else {
      assert [] + t == t;
    }
  }

  /** What has been read as a directive can be written as one. */
  lemma UnparseUndoesParse(s: seq<byte>)
    requires NoNul(s) && AtConversion(s) != []
    ensures SourceOf(s).Proper() && SourceOf(s).Unparse() + Parse(s).1 == s
  {
    hide LeadingDigits, FlagBytes, ReadFlags, ReadField, ReadPrecision, NoNul;
    var src, rest := SourceOf(s), Parse(s).1;
    var s1 := ReadFlags(s, NO_FLAGS).1;
    var s2 := ReadField(s1, -1).2;
    var s3 := ReadPrecision(s2).2;
    FlagsEnd(s, NO_FLAGS);
    FieldEnds(s1, -1);
    PrecisionEnds(s2, src, s3);
    ConversionNotNul(s);
    assert AtConversion(s) == [src.conv] + rest;
    assert src.AfterPrecision() + rest == s3;
    UnparseParts(src, rest, s3, s2, s1, s);
  }

  lemma ConversionNotNul(s: seq<byte>)
    requires NoNul(s) && AtConversion(s) != []
    ensures AtConversion(s)[0] != 0
  {
    AtConversionIsSuffix(s);
  }

  lemma UnparseParts(src: Source, rest: seq<byte>, s3: seq<byte>, s2: seq<byte>, s1: seq<byte>, s: seq<byte>)
    requires src.AfterPrecision() + rest == s3
    requires (if src.precision.Some? then [DOT] + src.precision.value else []) + s3 == s2
    requires src.width + s2 == s1 && src.flags + s1 == s
    ensures src.Unparse() + rest == s
  {
    assert src.AfterWidth() + rest == s2;
    assert src.AfterFlags() + rest == s1;
  }

  /** The pieces of a format. */
  function Pieces(s: seq<byte>): (ps: seq<Piece>)
    decreases |s|
  {
    if s == [] then []
    else if s[0] != PERCENT then [Literal(s[0])] + Pieces(s[1..])
    else [Conversion(SourceOf(s[1..]))] + Pieces(Parse(s[1..]).1)
  }

  lemma {:induction false} PiecesAreWritten(s: seq<byte>)
    requires NoNul(s) && Complete(s)
    ensures ProperPieces(Pieces(s)) && Written(Pieces(s)) == s
    decreases |s|
  {
    hide Parse, SourceOf, AtConversion;
    if s != [] {
      assert s == [s[0]] + s[1..];
      if s[0] != PERCENT {
        PiecesAreWritten(s[1..]);
        assert Pieces(s)[1..] == Pieces(s[1..]);
      } else {
        var after := Parse(s[1..]).1;
        CutOffHasNoConversion(s[1..]);
        UnparseUndoesParse(s[1..]);
        PiecesAreWritten(after);
        assert Pieces(s)[1..] == Pieces(after);
        assert [PERCENT] + SourceOf(s[1..]).Unparse() + after == [PERCENT] + (SourceOf(s[1..]).Unparse() + after);
      }
    }
  }

  lemma SourceHasNoNul(src: Source)
    requires src.Proper()
    ensures NoNul(src.Unparse())
  {
  }

  lemma {:induction false} WrittenIsComplete(ps: seq<Piece>)
    requires ProperPieces(ps)
    ensures NoNul(Written(ps)) && Complete(Written(ps))
    decreases |ps|
  {
    hide Parse;
    if ps != [] {
      WrittenIsComplete(ps[1..]);
      assert ProperPiece(ps[0]);
      if ps[0].Literal? {
        assert Written(ps)[1..] == Written(ps[1..]);
      } else {
        WrittenConversion(ps);
        SourceHasNoNul(ps[0].src);
        ParseUndoesUnparse(ps[0].src, Written(ps[1..]));
      }
    }
  }

  /** The formats that pieces write are exactly those that do not end inside a directive. */
  lemma CompleteFormatsAreWritten(s: seq<byte>)
    ensures NoNul(s) && Complete(s) <==> exists ps :: ProperPieces(ps) && Written(ps) == s
  {
    if NoNul(s) && Complete(s) {
      PiecesAreWritten(s);
    }
    forall ps | ProperPieces(ps) && Written(ps) == s
      ensures NoNul(s) && Complete(s)
    {
      WrittenIsComplete(ps);
    }
  }
}
