/** What a format and its arguments mean: the text, and the stores made by %n. */
module FormatSpec {
  import opened Machine
  import opened Numbers

  const PERCENT: byte := 37
  const STAR: byte := 42
  const DOT: byte := 46
  const HASH: byte := 35
  const LETTER_L_CAP: byte := 76
  const LETTER_X_CAP: byte := 88
  const LETTER_C: byte := 99
  const LETTER_D: byte := 100
  const LETTER_H: byte := 104
  const LETTER_I: byte := 105
  const LETTER_L: byte := 108
  const LETTER_N: byte := 110
  const LETTER_O: byte := 111
  const LETTER_P: byte := 112
  const LETTER_S: byte := 115
  const LETTER_U: byte := 117
  const LETTER_X: byte := 120

  /** An argument as the format finds it: a word, a string, or the address of an int. */
  datatype Arg = Word(w: uint32) | Str(s: seq<byte>) | Cell(index: nat)

  /** A directive after the percent sign; `conv` is 0 when the format ends inside it. */
  datatype Directive = Directive(flags: Flags, width: int32, precision: int32, starred: bool, conv: byte)

  // ---------------------------------------------------------------------------------------
  // Reading a directive.
  // ---------------------------------------------------------------------------------------

  predicate IsFlag(c: byte) {
    c == MINUS || c == PLUS || c == SPACE || c == HASH || c == ZERO
  }

  function AddFlag(f: Flags, c: byte): Flags
    requires IsFlag(c)
  {
    if c == MINUS then f.(left := true)
    else if c == PLUS then f.(plus := true)
    else if c == SPACE then f.(space := true)
    else if c == HASH then f.(special := true)
    else f.(zeropad := true)
  }

  function ReadFlags(s: seq<byte>, f: Flags): (r: (Flags, seq<byte>))
    ensures |r.1| <= |s|
  {
    if s != [] && IsFlag(s[0]) then ReadFlags(s[1..], AddFlag(f, s[0])) else (f, s)
  }

  /** A number, a star (which is not consumed), or nothing. */
  function ReadField(s: seq<byte>, absent: int32): (r: (int32, bool, seq<byte>))
    ensures |r.2| <= |s|
    ensures r.1 ==> r.2 == s && s != [] && s[0] == STAR
  {
    if s != [] && IsDigit(s[0]) then (Atoi(s, 0).0, false, Atoi(s, 0).1)
    else if s != [] && s[0] == STAR then (absent, true, s)
    else (absent, false, s)
  }

  /** After a dot an absent or negative precision counts as 0; without a dot it is -1. */
  function ReadPrecision(s: seq<byte>): (r: (int32, bool, seq<byte>))
    ensures |r.2| <= |s|
    ensures r.1 ==> r.2 != [] && r.2[0] == STAR
  {
    if s != [] && s[0] == DOT then
      var field := ReadField(s[1..], 0);
      (Max(field.0, 0), field.1, field.2)
    else (-1, false, s)
  }

  predicate IsQualifier(c: byte) {
    c == LETTER_H || c == LETTER_L || c == LETTER_L_CAP
  }

  function ReadQualifier(s: seq<byte>): (t: seq<byte>)
    ensures |t| <= |s|
  {
    if s != [] && IsQualifier(s[0]) then s[1..] else s
  }

  /** The directive after a percent sign, and what follows it. */
  function Parse(s: seq<byte>): (r: (Directive, seq<byte>))
    ensures |r.1| <= |s|
  {
    var (flags, s1) := ReadFlags(s, NO_FLAGS);
    var (width, widthStar, s2) := ReadField(s1, -1);
    var (precision, precisionStar, s3) := ReadPrecision(s2);
    var s4 := ReadQualifier(s3);
    if s4 == [] then (Directive(flags, width, precision, false, 0), [])
    else (Directive(flags, width, precision, widthStar || precisionStar, s4[0]), s4[1..])
  }

  // ---------------------------------------------------------------------------------------
  // The meaning of a directive.
  // ---------------------------------------------------------------------------------------

  predicate IsNumeric(c: byte) {
    c == LETTER_O || c == LETTER_P || c == LETTER_X || c == LETTER_X_CAP
    || c == LETTER_D || c == LETTER_I || c == LETTER_U
  }

  /** A star takes a word; so do %c and the numbers; %s takes a string and %n an address. */
  predicate Consumes(d: Directive) {
    d.starred || d.conv == LETTER_C || IsNumeric(d.conv) || d.conv == LETTER_S || d.conv == LETTER_N
  }

  predicate Fits(d: Directive, args: seq<Arg>) {
    Consumes(d) ==> args != [] && KindFits(d, args[0])
  }

  predicate KindFits(d: Directive, arg: Arg) {
    if !d.starred && d.conv == LETTER_S then arg.Str?
    else if !d.starred && d.conv == LETTER_N then arg.Cell?
    else arg.Word?
  }

  /** What the loop `while (len < width--)` leaves of the width. */
  function Passed(len: nat, width: int32): (left: int) {
    if len < width then len - 1 else ToSigned(width - 1)
  }

  /** One loop decrements the width before its test, so one column is left for the byte. */
  function CharText(c: byte, width: int32, left: bool): (s: seq<byte>) {
    var first := ToSigned(width - 1);
    if left then [c] + Repeat(SPACE, first)
    else Repeat(SPACE, first) + [c] + Repeat(SPACE, ToSigned((if first > 0 then 0 else first) - 1))
  }

  /** What %s shows of a string. */
  function Cut(s: seq<byte>, precision: int): (t: seq<byte>) {
    if 0 <= precision < |s| then s[..precision] else s
  }

  function StringText(s: seq<byte>, width: int32, precision: int32, left: bool): (t: seq<byte>) {
    var shown := Cut(s, precision);
    if left then shown + Repeat(SPACE, width - |shown|)
    else Repeat(SPACE, width - |shown|) + shown + Repeat(SPACE, Passed(|shown|, width) - |shown|)
  }

  /** A text in a field: spaces on one side, and never less than its own width. */
  function Field(text: seq<byte>, width: int, left: bool): (t: seq<byte>)
    ensures |t| == Max(width, |text|)
    ensures (if left then t[..|text|] else t[|t| - |text|..]) == text
  {
    if left then text + Repeat(SPACE, width - |text|) else Repeat(SPACE, width - |text|) + text
  }

  /** A byte fills its field, exactly unless a decrement of the width wraps before a test. */
  lemma CharFillsField(c: byte, width: int32, left: bool)
    ensures CharText(c, width, left) == Field([c], width, left)
      <==> (if left then INT_MIN else INT_MIN + 1) < width
  {
    hide ToSigned;
    WrapOnce(width - 1);
    var first: int := ToSigned(width - 1);
    WrapOnce((if first > 0 then 0 else first) - 1);
    if (if left then INT_MIN else INT_MIN + 1) < width && !left {
      assert Repeat(SPACE, first) + [c] + Repeat(SPACE, -1) == Repeat(SPACE, first) + [c];
    }
  }

  /** So does a string, cut to its precision. */
  lemma StringFillsField(s: seq<byte>, width: int32, precision: int32, left: bool)
    ensures StringText(s, width, precision, left) == Field(Cut(s, precision), width, left)
      <==> left || INT_MIN < width || INT_MAX <= |Cut(s, precision)|
  {
    hide ToSigned, Cut;
    var shown := Cut(s, precision);
    WrapOnce(width - 1);
    if INT_MIN < width || INT_MAX <= |shown| {
      assert Repeat(SPACE, width - |shown|) + shown + Repeat(SPACE, Passed(|shown|, width) - |shown|)
        == Repeat(SPACE, width - |shown|) + shown;
    }
  }

  function BaseOf(c: byte): (base: nat)
    ensures 2 <= base <= 36
  {
    if c == LETTER_O then 8 else if c == LETTER_D || c == LETTER_I || c == LETTER_U then 10 else 16
  }

  function NumericFlags(d: Directive): (f: Flags) {
    if d.conv == LETTER_X then d.flags.(small := true)
    else if d.conv == LETTER_D || d.conv == LETTER_I then d.flags.(sign := true)
    else if d.conv == LETTER_P && d.width == -1 then d.flags.(zeropad := true)
    else d.flags
  }

  function NumericText(d: Directive, w: uint32): (t: seq<byte>) {
    NumberText(ToSigned(w), BaseOf(d.conv), if d.conv == LETTER_P && d.width == -1 then 8 else d.width,
               d.precision, Effective(NumericFlags(d)))
  }

  /** Anything unknown shows itself after a percent sign; a cut-off directive shows the sign alone. */
  function OtherText(conv: byte): (t: seq<byte>) {
    (if conv != PERCENT then [PERCENT] else []) + (if conv != 0 then [conv] else [])
  }

  function DirectiveText(d: Directive, args: seq<Arg>): (t: seq<byte>)
    requires Fits(d, args)
  {
    if d.starred then OtherText(d.conv)
    else if d.conv == LETTER_C then CharText(args[0].w % 0x100, d.width, d.flags.left)
    else if d.conv == LETTER_S then StringText(args[0].s, d.width, d.precision, d.flags.left)
    else if IsNumeric(d.conv) then NumericText(d, args[0].w)
    else if d.conv == LETTER_N then []
    else OtherText(d.conv)
  }

  // ---------------------------------------------------------------------------------------
  // The meaning of a format.
  // ---------------------------------------------------------------------------------------

  /** A %n stores the number of bytes written before it. */
  datatype Store = Store(index: nat, count: nat)

  datatype Outcome = Mismatch | Done(text: seq<byte>, stores: seq<Store>, rest: seq<Arg>)

  function Prepend(text: seq<byte>, stores: seq<Store>, o: Outcome): Outcome {
    match o
    case Mismatch => Mismatch
    case Done(t, s, rest) => Done(text + t, stores + s, rest)
  }

  lemma PrependAssociates(t1: seq<byte>, s1: seq<Store>, t2: seq<byte>, s2: seq<Store>, o: Outcome)
    ensures Prepend(t1, s1, Prepend(t2, s2, o)) == Prepend(t1 + t2, s1 + s2, o)
  {
  }

  lemma PrependNothing(o: Outcome)
    ensures Prepend([], [], o) == o
  {
  }

  function DirectiveStores(d: Directive, args: seq<Arg>, n: nat): (s: seq<Store>)
    requires Fits(d, args)
  {
    if !d.starred && d.conv == LETTER_N then [Store(args[0].index, n)] else []
  }

  function Remaining(d: Directive, args: seq<Arg>): (rest: seq<Arg>)
    requires Fits(d, args)
  {
    if Consumes(d) then args[1..] else args
  }

  /** The meaning of the format `s` when `n` bytes have been written before it. */
  function Format(s: seq<byte>, args: seq<Arg>, n: nat): (o: Outcome)
    decreases |s|
  {
    if s == [] then Done([], [], args)
    else if s[0] != PERCENT then Prepend([s[0]], [], Format(s[1..], args, n + 1))
    else
      var (d, after) := Parse(s[1..]);
      if !Fits(d, args) then Mismatch
      else
        var text := DirectiveText(d, args);
        Prepend(text, DirectiveStores(d, args, n), Format(after, Remaining(d, args), n + |text|))
  }

  ghost predicate InRange(stores: seq<Store>, size: nat) {
    forall k :: 0 <= k < |stores| ==> stores[k].index < size
  }

  /** The ints after the stores, made in order. */
  ghost function Applied(cells: seq<int>, stores: seq<Store>): (r: seq<int>)
    requires InRange(stores, |cells|)
    ensures |r| == |cells|
  {
    if stores == [] then cells
    else Applied(cells, stores[..|stores| - 1])[stores[|stores| - 1].index := stores[|stores| - 1].count]
  }
}
