/**
 The text of a number, as the formatter lays it out, and the two ways of reading one back.
 */
module Numbers {
  import opened Machine

  const SPACE: byte := 32
  const PLUS: byte := 43
  const MINUS: byte := 45
  const ZERO: byte := 48

  /** The bits of the `type` argument of number(). */
  datatype Flags = Flags(zeropad: bool, sign: bool, plus: bool, space: bool, left: bool, special: bool, small: bool)

  const NO_FLAGS: Flags := Flags(false, false, false, false, false, false, false)

  const DIGITS: string := "0123456789ABCDEFGHIJKLMNOPQRSTUVWXYZ"
  const SMALL_DIGITS: string := "0123456789abcdefghijklmnopqrstuvwxyz"

  predicate IsDigit(c: byte) {
    48 <= c <= 57
  }

  /** Entry `d` of the digit table. */
  function Digit(d: nat, small: bool): (c: byte)
    requires d < 36
  {
    if d < 10 then 48 + d else if small then 87 + d else 55 + d
  }

  lemma DigitIsTableEntry(d: nat)
    requires d < 36
    ensures |DIGITS| == |SMALL_DIGITS| == 36
    ensures Digit(d, false) == DIGITS[d] as int && Digit(d, true) == SMALL_DIGITS[d] as int
  {
  }

  /** The digit a byte stands for; 36 for none. */
  function DigitValue(c: byte): (d: nat)
    ensures d <= 36
  {
    if 48 <= c <= 57 then c - 48
    else if 65 <= c <= 90 then c - 55
    else if 97 <= c <= 122 then c - 87
    else 36
  }

  lemma DigitRoundTrip(d: nat, small: bool)
    requires d < 36
    ensures DigitValue(Digit(d, small)) == d
  {
  }

  /** The digits of `m`, most significant first; at least one. */
  function Digits(m: nat, base: nat, small: bool): (s: seq<byte>)
    requires 2 <= base <= 36
    ensures s != []
    decreases m
  {
    if m < base then [Digit(m, small)]
    else
      QuotientShrinks(m, base);
      Digits(m / base, base, small) + [Digit(m % base, small)]
  }

  lemma QuotientShrinks(m: nat, base: nat)
    requires 2 <= base
    ensures m / base <= m / 2
    ensures m > 0 ==> m / base < m
    ensures m == m / base * base + m % base
  {
    var q := m / base;
    assert m == q * base + m % base;
    assert q * 2 <= q * base;
  }

  /** The number a digit string denotes. */
  function Value(s: seq<byte>, base: nat): nat {
    if s == [] then 0 else Value(s[..|s| - 1], base) * base + DigitValue(s[|s| - 1])
  }

  ghost predicate DigitsBelow(s: seq<byte>, base: nat) {
    forall k :: 0 <= k < |s| ==> DigitValue(s[k]) < base
  }

  /** The digits denote the number, each is below the base, and none leads with a spare zero. */
  lemma {:induction false} DigitsDenote(m: nat, base: nat, small: bool)
    requires 2 <= base <= 36
    ensures Value(Digits(m, base, small), base) == m
    ensures DigitsBelow(Digits(m, base, small), base)
    ensures m != 0 ==> Digits(m, base, small)[0] != ZERO
    decreases m
  {
    if m < base {
      assert [Digit(m, small)][..0] == [];
      DigitRoundTrip(m, small);
    } else {
      QuotientShrinks(m, base);
      DigitsDenote(m / base, base, small);
      DigitRoundTrip(m % base, small);
      var s := Digits(m, base, small);
      assert s[..|s| - 1] == Digits(m / base, base, small);
    }
  }

  function Pow2(n: nat): nat {
    if n == 0 then 1 else 2 * Pow2(n - 1)
  }

  lemma Pow32()
    ensures Pow2(32) == TWO_32
  {
    assert Pow2(8) == 0x100;
    assert Pow2(16) == 0x1_0000;
    assert Pow2(24) == 0x100_0000;
  }

  /** A 32-bit number has at most 32 digits in any base. */
  lemma {:induction false} DigitsFit(m: nat, base: nat, small: bool, n: nat)
    requires 2 <= base <= 36 && m < Pow2(n) && 0 < n
    ensures |Digits(m, base, small)| <= n
    decreases m
  {
    if m >= base {
      QuotientShrinks(m, base);
      DigitsFit(m / base, base, small, n - 1);
    }
  }

  // ---------------------------------------------------------------------------------------
  // The layout: spaces, sign, prefix, zeros, digits, spaces.
  // ---------------------------------------------------------------------------------------

  function Repeat(c: byte, n: int): (s: seq<byte>)
    ensures |s| == if n < 0 then 0 else n
    ensures forall k :: 0 <= k < |s| ==> s[k] == c
  {
    seq(if n < 0 then 0 else n, _ => c)
  }

  function Max(a: int, b: int): int {
    if a < b then b else a
  }

  /** What the digits show: the absolute value of a signed number, the bits of an unsigned one. */
  function Magnitude(num: int32, f: Flags): (m: uint32) {
    if f.sign && num < 0 then 0 - num else ToUnsigned(num)
  }

  function SignText(num: int32, f: Flags): (s: seq<byte>)
    ensures |s| <= 1
  {
    if f.sign && num < 0 then [MINUS] else if f.plus then [PLUS] else if f.space then [SPACE] else []
  }

  /** LEFT switches ZEROPAD off. */
  function Effective(f: Flags): (g: Flags)
    ensures !(g.left && g.zeropad)
  {
    if f.left then f.(zeropad := false) else f
  }

  function PrefixText(base: nat, f: Flags): (s: seq<byte>) {
    if !f.special then []
    else if base == 16 then [ZERO, Digit(33, f.small)]
    else if base == 8 then [ZERO]
    else []
  }

  function Body(num: int32, base: nat, f: Flags): (s: seq<byte>)
    requires 2 <= base <= 36
  {
    Digits(Magnitude(num, f), base, f.small)
  }

  /** The columns that sign, prefix and digits take. */
  function Contents(num: int32, base: nat, precision: int, f: Flags): (n: nat)
    requires 2 <= base <= 36
  {
    |SignText(num, f)| + |PrefixText(base, f)| + Max(precision, |Body(num, base, f)|)
  }

  /** What is left of `size` for padding: an int, which wraps. */
  function Room(num: int32, base: nat, size: int32, precision: int32, f: Flags): (room: int32)
    requires 2 <= base <= 36
  {
    ToSigned(size - Contents(num, base, precision, f))
  }

  /** What the loop `while (n-- > 0)` leaves in n. */
  function After(n: int): (left: int32) {
    if n > 0 then -1 else ToSigned(n - 1)
  }

  /** The count of the second padding loop, and of the third. */
  function SecondCount(room: int32, f: Flags): (n: int32) {
    if f.left || f.zeropad then room else After(room)
  }

  function ThirdCount(room: int32, f: Flags): (n: int32) {
    if f.left then room else After(SecondCount(room, f))
  }

  /** Spaces, sign, prefix and padding. */
  function Head(num: int32, base: nat, room: int32, f: Flags): (s: seq<byte>) {
    Repeat(SPACE, if f.left || f.zeropad then 0 else room) + SignText(num, f) + PrefixText(base, f)
      + Repeat(if f.zeropad then ZERO else SPACE, if f.left then 0 else SecondCount(room, f))
  }

  /** What the three padding loops make of a number, on a `size` that wraps. */
  function NumberText(num: int32, base: nat, size: int32, precision: int32, f: Flags): (s: seq<byte>)
    requires 2 <= base <= 36
  {
    var room := Room(num, base, size, precision, f);
    var body := Body(num, base, f);
    Head(num, base, room, f) + Repeat(ZERO, precision - |body|) + body + Repeat(SPACE, ThirdCount(room, f))
  }

  /** The layout that is meant: one padding, on the side and of the byte that the flags ask for. */
  function NumberLayout(num: int32, base: nat, size: int, precision: int, f: Flags): (s: seq<byte>)
    requires 2 <= base <= 36
  {
    var room := size - Contents(num, base, precision, f);
    var body := Body(num, base, f);
    Repeat(SPACE, if f.left || f.zeropad then 0 else room)
      + SignText(num, f) + PrefixText(base, f)
      + Repeat(ZERO, if f.left || !f.zeropad then 0 else room)
      + Repeat(ZERO, precision - |body|) + body
      + Repeat(SPACE, if f.left then room else 0)
  }

  /**
   No padding loop sees a count that has wrapped to a positive one: so many further decrements are
   to spare above INT_MIN, or the subtractions have gone all the way round.
   */
  predicate SizeCounts(num: int32, base: nat, size: int32, precision: int32, f: Flags)
    requires 2 <= base <= 36
  {
    var room := size - Contents(num, base, precision, f);
    INT_MIN + (if f.left then 0 else if f.zeropad then 1 else 2) <= room || room <= -TWO_32
  }

  lemma ContentsFit(num: int32, base: nat, precision: int32, f: Flags)
    requires 2 <= base <= 36
    ensures 1 <= Contents(num, base, precision, f) <= INT_MAX + 3
  {
    Pow32();
    DigitsFit(Magnitude(num, f), base, f.small, 32);
  }

  function Positive(n: int): (p: nat) {
    Max(n, 0)
  }

  /** The three counts for `room` columns: one of them is `room`, or some count has wrapped. */
  lemma PaddingCounts(room: int, f: Flags)
    requires -TWO_32 - 2 <= room <= INT_MAX && !(f.left && f.zeropad)
    ensures var r := ToSigned(room);
            var first := Positive(if f.left || f.zeropad then 0 else r);
            var second := Positive(if f.left then 0 else SecondCount(r, f));
            var third := Positive(ThirdCount(r, f));
            if INT_MIN + (if f.left then 0 else if f.zeropad then 1 else 2) <= room || room <= -TWO_32 then
              && first == Positive(if f.left || f.zeropad then 0 else room)
              && second == Positive(if f.zeropad then room else 0)
              && third == Positive(if f.left then room else 0)
            else
              room <= 0 < first + second + third
  {
    hide ToSigned;
    WrapOnce(room);
    var r: int := ToSigned(room);
    WrapOnce(r - 1);
    r := ToSigned(r - 1);
    WrapOnce(r - 1);
  }

  lemma RepeatCount(c: byte, n: int)
    ensures Repeat(c, n) == Repeat(c, Positive(n)) && |Repeat(c, n)| == Positive(n)
  {
  }

  lemma TextLength(num: int32, base: nat, size: int32, precision: int32, f: Flags)
    requires 2 <= base <= 36
    ensures var room := Room(num, base, size, precision, f);
            |NumberText(num, base, size, precision, f)|
              == Positive(if f.left || f.zeropad then 0 else room)
                 + Positive(if f.left then 0 else SecondCount(room, f)) + Positive(ThirdCount(room, f))
                 + Contents(num, base, precision, f)
  {
  }

  /** The field is as wide as asked, or as wide as its contents, exactly unless a count wraps. */
  lemma NumberWidth(num: int32, base: nat, size: int32, precision: int32, f: Flags)
    requires 2 <= base <= 36 && !(f.left && f.zeropad)
    ensures |NumberLayout(num, base, size, precision, f)| == Max(size, Contents(num, base, precision, f))
    ensures NumberText(num, base, size, precision, f) == NumberLayout(num, base, size, precision, f)
      <==> SizeCounts(num, base, size, precision, f)
  {
    hide Body, SignText, PrefixText, ToSigned, ThirdCount, SecondCount, NumberText, Head;
    ContentsFit(num, base, precision, f);
    PaddingCounts(size - Contents(num, base, precision, f), f);
    if SizeCounts(num, base, size, precision, f) {
      LaidOut(num, base, size, precision, f);
    }
    TextLength(num, base, size, precision, f);
  }

  lemma LaidOut(num: int32, base: nat, size: int32, precision: int32, f: Flags)
    requires 2 <= base <= 36 && !(f.left && f.zeropad) && SizeCounts(num, base, size, precision, f)
    ensures NumberText(num, base, size, precision, f) == NumberLayout(num, base, size, precision, f)
  {
    hide Body, SignText, PrefixText, ToSigned, Contents, ThirdCount, SecondCount, Positive, Repeat;
    var room := size - Contents(num, base, precision, f);
    var r := Room(num, base, size, precision, f);
    ContentsFit(num, base, precision, f);
    PaddingCounts(room, f);
    RepeatCount(SPACE, if f.left || f.zeropad then 0 else r);
    RepeatCount(SPACE, if f.left || f.zeropad then 0 else room);
    RepeatCount(if f.zeropad then ZERO else SPACE, if f.left then 0 else SecondCount(r, f));
    RepeatCount(ZERO, if f.left || !f.zeropad then 0 else room);
    RepeatCount(SPACE, ThirdCount(r, f));
    RepeatCount(SPACE, if f.left then room else 0);
    assert Repeat(SPACE, 0) == Repeat(ZERO, 0);
  }

  // ---------------------------------------------------------------------------------------
  // Reading a number back.
  // ---------------------------------------------------------------------------------------

  function DropSpaces(s: seq<byte>): (t: seq<byte>) {
    if s != [] && s[0] == SPACE then DropSpaces(s[1..]) else s
  }

  /** The leading digits of `s`. */
  function LeadingDigits(s: seq<byte>, base: nat): (t: seq<byte>)
    ensures |t| <= |s|
  {
    if s != [] && DigitValue(s[0]) < base then [s[0]] + LeadingDigits(s[1..], base) else []
  }

  /** A number as it is read: the byte of its sign or 0, how many digits it has, and their value. */
  datatype Reading = Unreadable | Reading(sign: byte, count: nat, value: nat)

  /** Spaces, a sign, the prefix that a special number has, digits, spaces, and nothing more. */
  function Read(s: seq<byte>, base: nat, special: bool, small: bool): (r: Reading) {
    var t := DropSpaces(s);
    if t != [] && (t[0] == 45 || t[0] == 43) then ReadPrefixed(t[0], t[1..], base, special, small)
    else ReadPrefixed(0, t, base, special, small)
  }

  function ReadPrefixed(sign: byte, s: seq<byte>, base: nat, special: bool, small: bool): (r: Reading) {
    if special && base == 16 then
      if |s| >= 2 && s[0] == 48 && s[1] == (if small then 120 else 88) then ReadDigits(sign, s[2..], base)
      else Unreadable
    else if special && base == 8 then
      if s != [] && s[0] == 48 then ReadDigits(sign, s[1..], base) else Unreadable
    else ReadDigits(sign, s, base)
  }

  function ReadDigits(sign: byte, s: seq<byte>, base: nat): (r: Reading) {
    var digits := LeadingDigits(s, base);
    if digits == [] || DropSpaces(s[|digits|..]) != [] then Unreadable
    else Reading(sign, |digits|, Value(digits, base))
  }

  lemma {:induction false} DropSpacesSkips(n: int, s: seq<byte>)
    ensures DropSpaces(Repeat(SPACE, n) + s) == DropSpaces(s)
    decreases n
  {
    if n > 0 {
      assert (Repeat(SPACE, n) + s)[1..] == Repeat(SPACE, n - 1) + s;
      DropSpacesSkips(n - 1, s);
    } else {
      assert Repeat(SPACE, n) + s == s;
    }
  }

  lemma {:induction false} LeadingDigitsStop(s: seq<byte>, rest: seq<byte>, base: nat)
    requires DigitsBelow(s, base) && (rest != [] ==> DigitValue(rest[0]) >= base)
    ensures LeadingDigits(s + rest, base) == s
  {
    if s == [] {
      assert s + rest == rest;
    } else {
      assert (s + rest)[1..] == s[1..] + rest;
      LeadingDigitsStop(s[1..], rest, base);
    }
  }

  lemma {:induction false} LeadingZeros(n: int, s: seq<byte>, base: nat)
    requires 2 <= base
    ensures Value(Repeat(ZERO, n) + s, base) == Value(s, base)
  {
    if s != [] {
      var t := Repeat(ZERO, n) + s;
      assert t[..|t| - 1] == Repeat(ZERO, n) + s[..|s| - 1];
      LeadingZeros(n, s[..|s| - 1], base);
    } else {
      assert Repeat(ZERO, n) + s == Repeat(ZERO, n);
      AllZeros(n, base);
    }
  }

  lemma {:induction false} AllZeros(n: int, base: nat)
    ensures Value(Repeat(ZERO, n), base) == 0
    decreases n
  {
    if n > 0 {
      assert Repeat(ZERO, n)[..n - 1] == Repeat(ZERO, n - 1);
      AllZeros(n - 1, base);
    }
  }

  function Lead(num: int32, base: nat, size: int32, precision: int32, f: Flags): int
    requires 2 <= base <= 36
  {
    if f.left || f.zeropad then 0 else Room(num, base, size, precision, f)
  }

  function Trail(num: int32, base: nat, size: int32, precision: int32, f: Flags): int
    requires 2 <= base <= 36
  {
    ThirdCount(Room(num, base, size, precision, f), f)
  }

  /** All the zeros in front of the digits, padding and precision together. */
  function Zeros(num: int32, base: nat, size: int32, precision: int32, f: Flags): nat
    requires 2 <= base <= 36
  {
    Positive(if f.left || !f.zeropad then 0 else Room(num, base, size, precision, f))
      + Positive(precision - |Body(num, base, f)|)
  }

  /** No spaces come between the sign and the digits. */
  predicate DigitsFollow(num: int32, base: nat, size: int32, precision: int32, f: Flags)
    requires 2 <= base <= 36
  {
    f.left || f.zeropad || Room(num, base, size, precision, f) != INT_MIN
  }

  lemma NumberParts(num: int32, base: nat, size: int32, precision: int32, f: Flags)
    requires 2 <= base <= 36 && DigitsFollow(num, base, size, precision, f)
    ensures NumberText(num, base, size, precision, f)
      == Repeat(SPACE, Lead(num, base, size, precision, f))
         + (SignText(num, f)
            + (PrefixText(base, f)
               + (Repeat(ZERO, Zeros(num, base, size, precision, f)) + Body(num, base, f)
                  + Repeat(SPACE, Trail(num, base, size, precision, f)))))
  {
    var room := Room(num, base, size, precision, f);
    var z1, z2 := if f.left || !f.zeropad then 0 else room, precision - |Body(num, base, f)|;
    SecondIsZeros(room, f);
    hide Body, SignText, PrefixText, Room, ThirdCount, SecondCount, Repeat, Positive;
    Regroup(Repeat(SPACE, Lead(num, base, size, precision, f)), SignText(num, f), PrefixText(base, f),
            z1, z2, Body(num, base, f), Repeat(SPACE, Trail(num, base, size, precision, f)));
  }

  lemma SecondIsZeros(room: int32, f: Flags)
    requires f.left || f.zeropad || room != INT_MIN
    ensures Repeat(if f.zeropad then ZERO else SPACE, if f.left then 0 else SecondCount(room, f))
      == Repeat(ZERO, if f.left || !f.zeropad then 0 else room)
  {
  }

  lemma Regroup(a: seq<byte>, b: seq<byte>, c: seq<byte>, z1: int, z2: int, d: seq<byte>, e: seq<byte>)
    ensures a + b + c + Repeat(ZERO, z1) + Repeat(ZERO, z2) + d + e
      == a + (b + (c + (Repeat(ZERO, Positive(z1) + Positive(z2)) + d + e)))
  {
    assert Repeat(ZERO, z1) + Repeat(ZERO, z2) == Repeat(ZERO, Positive(z1) + Positive(z2));
  }

  /**
   Every text of a number reads back as that number, with its sign and prefix: signed in full, or as
   its bit pattern.  A sign that is a space comes first like the padding does.
   */
  lemma NumberDecodes(num: int32, base: nat, size: int32, precision: int32, f: Flags)
    requires 2 <= base <= 36 && DigitsFollow(num, base, size, precision, f)
    ensures Read(NumberText(num, base, size, precision, f), base, f.special, f.small)
      == Reading(if f.sign && num < 0 then 45 else if f.plus then 43 else 0,
                 Zeros(num, base, size, precision, f) + |Body(num, base, f)|,
                 if !f.sign then num % TWO_32 else if num < 0 then 0 - num else num)
    ensures f.space && !f.plus && !(f.sign && num < 0) ==>
      NumberText(num, base, size, precision, f) != [] && NumberText(num, base, size, precision, f)[0] == 32
  {
    hide NumberText, Read, Digits, Value, Repeat, Zeros, Lead, Trail, PrefixText, LeadingDigits, Room;
    var body := Body(num, base, f);
    var zeros := Repeat(ZERO, Zeros(num, base, size, precision, f));
    var tail := Repeat(SPACE, Trail(num, base, size, precision, f));
    NumberParts(num, base, size, precision, f);
    DigitsDenote(Magnitude(num, f), base, f.small);
    LeadingZeros(Zeros(num, base, size, precision, f), body, base);
    ZerosAndDigits(Zeros(num, base, size, precision, f), body, Trail(num, base, size, precision, f), base);
    DigitsRead(zeros + body, tail, Trail(num, base, size, precision, f), base);
    PrefixRead(zeros + body, tail, base, f);
    SignRead(Lead(num, base, size, precision, f), SignText(num, f), PrefixText(base, f) + (zeros + body + tail),
             base, f);
  }

  lemma ZerosAndDigits(z: nat, body: seq<byte>, trail: int, base: nat)
    requires 2 <= base <= 36 && DigitsBelow(body, base)
    ensures LeadingDigits(Repeat(ZERO, z) + body + Repeat(SPACE, trail), base) == Repeat(ZERO, z) + body
    ensures DigitsBelow(Repeat(ZERO, z) + body, base)
  {
    LeadingDigitsStop(Repeat(ZERO, z) + body, Repeat(SPACE, trail), base);
  }

  lemma DigitsRead(digits: seq<byte>, tail: seq<byte>, trail: int, base: nat)
    requires digits != [] && tail == Repeat(SPACE, trail) && LeadingDigits(digits + tail, base) == digits
    ensures forall sign :: ReadDigits(sign, digits + tail, base) == Reading(sign, |digits|, Value(digits, base))
  {
    assert (digits + tail)[|digits|..] == tail && tail + [] == tail;
    DropSpacesSkips(trail, []);
  }

  lemma PrefixRead(digits: seq<byte>, tail: seq<byte>, base: nat, f: Flags)
    requires 2 <= base <= 36 && digits != [] && DigitsBelow(digits, base)
    ensures var rest := PrefixText(base, f) + (digits + tail);
            && rest != [] && rest[0] != SPACE && rest[0] != PLUS && rest[0] != MINUS
            && forall sign ::
                 ReadPrefixed(sign, rest, base, f.special, f.small) == ReadDigits(sign, digits + tail, base)
  {
    hide ReadDigits;
    var rest := PrefixText(base, f) + (digits + tail);
    assert rest[|PrefixText(base, f)|..] == digits + tail;
    assert DigitValue(digits[0]) < base;
  }

  lemma SignRead(lead: int, sign: seq<byte>, rest: seq<byte>, base: nat, f: Flags)
    requires sign == [] || sign == [SPACE] || sign == [PLUS] || sign == [MINUS]
    requires rest != [] && rest[0] != SPACE && rest[0] != PLUS && rest[0] != MINUS
    ensures Read(Repeat(SPACE, lead) + (sign + rest), base, f.special, f.small)
      == ReadPrefixed(if sign == [MINUS] then 45 else if sign == [PLUS] then 43 else 0, rest, base,
                      f.special, f.small)
    ensures sign == [SPACE] ==> (Repeat(SPACE, lead) + (sign + rest))[0] == 32
  {
    hide ReadPrefixed;
    DropSpacesSkips(lead, sign + rest);
    if sign == [SPACE] {
      assert sign + rest == Repeat(SPACE, 1) + rest;
      DropSpacesSkips(1, rest);
    } else if sign == [] {
      assert sign + rest == rest;
    } else {
      assert (sign + rest)[1..] == rest;
    }
  }

  /** Letters are small ones exactly when small ones are asked for. */
  ghost predicate LettersOf(s: seq<byte>, small: bool) {
    forall k :: 0 <= k < |s| ==> if small then !(65 <= s[k] <= 90) else !(97 <= s[k] <= 122)
  }

  lemma {:induction false} DigitsLetters(m: nat, base: nat, small: bool)
    requires 2 <= base <= 36
    ensures LettersOf(Digits(m, base, small), small)
    decreases m
  {
    if m >= base {
      QuotientShrinks(m, base);
      DigitsLetters(m / base, base, small);
    }
  }

  lemma LettersAppend(s: seq<byte>, t: seq<byte>, small: bool)
    requires LettersOf(s, small) && LettersOf(t, small)
    ensures LettersOf(s + t, small)
  {
  }

  lemma NumberLetters(num: int32, base: nat, size: int32, precision: int32, f: Flags)
    requires 2 <= base <= 36
    ensures LettersOf(NumberText(num, base, size, precision, f), f.small)
  {
    DigitsLetters(Magnitude(num, f), base, f.small);
    var room, body := Room(num, base, size, precision, f), Body(num, base, f);
    HeadLetters(num, base, room, f);
    hide Room, ThirdCount, Digits, Head, Body, LettersOf;
    var head, zeros := Head(num, base, room, f), Repeat(ZERO, precision - |body|);
    PadLetters(ZERO, precision - |body|, f.small);
    PadLetters(SPACE, ThirdCount(room, f), f.small);
    LettersAppend(head, zeros, f.small);
    LettersAppend(head + zeros, body, f.small);
    LettersAppend(head + zeros + body, Repeat(SPACE, ThirdCount(room, f)), f.small);
  }

  lemma PadLetters(c: byte, n: int, small: bool)
    requires c == SPACE || c == ZERO
    ensures LettersOf(Repeat(c, n), small)
  {
  }

  lemma HeadLetters(num: int32, base: nat, room: int32, f: Flags)
    ensures LettersOf(Head(num, base, room, f), f.small)
  {
    hide SecondCount;
    var sign, prefix := SignText(num, f), PrefixText(base, f);
    assert LettersOf(sign, f.small) && LettersOf(prefix, f.small);
    hide LettersOf, SignText, PrefixText;
    var first, second := if f.left || f.zeropad then 0 else room, if f.left then 0 else SecondCount(room, f);
    var c := if f.zeropad then ZERO else SPACE;
    PadLetters(SPACE, first, f.small);
    PadLetters(c, second, f.small);
    LettersAppend(Repeat(SPACE, first), sign, f.small);
    LettersAppend(Repeat(SPACE, first) + sign, prefix, f.small);
    LettersAppend(Repeat(SPACE, first) + sign + prefix, Repeat(c, second), f.small);
  }

  /** No count wraps in a text whose length is an int. */
  lemma ShortTextCounts(num: int32, base: nat, size: int32, precision: int32, f: Flags)
    requires 2 <= base <= 36 && !(f.left && f.zeropad)
    requires |NumberText(num, base, size, precision, f)| <= 0x7FFF_FFFF
    ensures SizeCounts(num, base, size, precision, f) && DigitsFollow(num, base, size, precision, f)
  {
    hide Contents, NumberText, ToSigned;
    var contents := Contents(num, base, precision, f);
    ContentsFit(num, base, precision, f);
    TextLength(num, base, size, precision, f);
    WrapOnce(size - contents);
    var r: int := ToSigned(size - contents);
    WrapOnce(r - 1);
    r := ToSigned(r - 1);
    WrapOnce(r - 1);
  }

  /** The columns of sign and prefix. */
  function HeadWidth(num: int32, base: nat, f: Flags): (h: nat) {
    (if (f.sign && num < 0) || f.plus || f.space then 1 else 0)
      + if !f.special then 0 else if base == 16 then 2 else if base == 8 then 1 else 0
  }

  /** A width pads the same number without a width: behind it, in front of it, or inside it with zeros. */
  lemma WidthPads(num: int32, base: nat, size: int32, precision: int32, f: Flags)
    requires 2 <= base <= 36 && !(f.left && f.zeropad)
    requires SizeCounts(num, base, size, precision, f) && SizeCounts(num, base, -1, precision, f)
    ensures var narrow := NumberText(num, base, -1, precision, f);
            var h := HeadWidth(num, base, f);
            && h < |narrow|
            && NumberText(num, base, size, precision, f)
               == if f.left then narrow + Repeat(32, size - |narrow|)
                  else if f.zeropad then narrow[..h] + Repeat(48, size - |narrow|) + narrow[h..]
                  else Repeat(32, size - |narrow|) + narrow
  {
    hide NumberText, NumberLayout, SizeCounts, Body, SignText, PrefixText, HeadWidth, Repeat;
    LaidOut(num, base, size, precision, f);
    LaidOut(num, base, -1, precision, f);
    NoSpareZero(num, base, f);
    NoPadding(num, base, precision, f);
    var body, head := Body(num, base, f), SignText(num, f) + PrefixText(base, f);
    var z := Repeat(ZERO, precision - |body|);
    PaddedLayout(num, base, size, precision, f, head, z, body);
    PadAround(head, z + body, size, f);
  }

  lemma PadAround(head: seq<byte>, tail: seq<byte>, size: int, f: Flags)
    requires tail != []
    ensures var narrow, h := head + tail, |head|;
            && h < |narrow|
            && (if f.left then head + tail + Repeat(32, size - |head + tail|)
                else if f.zeropad then head + Repeat(48, size - |head + tail|) + tail
                else Repeat(32, size - |head + tail|) + (head + tail))
               == (if f.left then narrow + Repeat(32, size - |narrow|)
                   else if f.zeropad then narrow[..h] + Repeat(48, size - |narrow|) + narrow[h..]
                   else Repeat(32, size - |narrow|) + narrow)
  {
    hide Repeat;
    assert (head + tail)[..|head|] == head && (head + tail)[|head|..] == tail;
  }

  /** A precision puts zeros in front of the bare digits, and those have no spare zero. */
  lemma PrecisionPads(num: int32, base: nat, precision: int32, f: Flags)
    requires 2 <= base <= 36 && !(f.left && f.zeropad)
    requires SizeCounts(num, base, -1, precision, f)
    ensures var bare := NumberText(num, base, -1, -1, f);
            var h := HeadWidth(num, base, f);
            && h < |bare| && (bare[h] == 48 ==> |bare| == h + 1)
            && NumberText(num, base, -1, precision, f)
               == bare[..h] + Repeat(48, precision - (|bare| - h)) + bare[h..]
  {
    BareCounts(num, base, f);
    LaidOut(num, base, -1, precision, f);
    LaidOut(num, base, -1, -1, f);
    NoPadding(num, base, precision, f);
    NoPadding(num, base, -1, f);
    NoSpareZero(num, base, f);
    hide NumberText, NumberLayout, SizeCounts, Body, SignText, PrefixText, HeadWidth;
    Beheaded(SignText(num, f) + PrefixText(base, f), Body(num, base, f), precision);
  }

  lemma NoSpareZero(num: int32, base: nat, f: Flags)
    requires 2 <= base <= 36
    ensures var body := Body(num, base, f);
            body != [] && (body[0] == 48 ==> |body| == 1)
    ensures |SignText(num, f) + PrefixText(base, f)| == HeadWidth(num, base, f)
  {
    DigitsDenote(Magnitude(num, f), base, f.small);
    if Magnitude(num, f) != 0 {
      hide Digits;
    }
  }

  lemma Beheaded(head: seq<byte>, body: seq<byte>, precision: int)
    requires body != []
    ensures var bare := head + (Repeat(ZERO, -1 - |body|) + body);
            && |head| < |bare| && bare[|head|] == body[0] && |bare| == |head| + |body|
            && head + (Repeat(ZERO, precision - |body|) + body)
               == bare[..|head|] + Repeat(48, precision - |body|) + bare[|head|..]
  {
    assert Repeat(ZERO, -1 - |body|) + body == body;
    assert (head + body)[..|head|] == head && (head + body)[|head|..] == body;
  }

  lemma BareCounts(num: int32, base: nat, f: Flags)
    requires 2 <= base <= 36
    ensures SizeCounts(num, base, -1, -1, f)
  {
    Pow32();
    DigitsFit(Magnitude(num, f), base, f.small, 32);
  }

  lemma NoPadding(num: int32, base: nat, precision: int, f: Flags)
    requires 2 <= base <= 36
    ensures NumberLayout(num, base, -1, precision, f)
      == SignText(num, f) + PrefixText(base, f)
         + (Repeat(ZERO, precision - |Body(num, base, f)|) + Body(num, base, f))
  {
    hide SignText, PrefixText, Body;
  }

  lemma PaddedLayout(num: int32, base: nat, size: int, precision: int, f: Flags,
                     head: seq<byte>, z: seq<byte>, body: seq<byte>)
    requires 2 <= base <= 36 && !(f.left && f.zeropad)
    requires head == SignText(num, f) + PrefixText(base, f) && body == Body(num, base, f)
    requires z == Repeat(ZERO, precision - |body|)
    ensures var pad := size - |head + (z + body)|;
            NumberLayout(num, base, size, precision, f)
              == if f.left then head + (z + body) + Repeat(32, pad)
                 else if f.zeropad then head + Repeat(48, pad) + (z + body)
                 else Repeat(32, pad) + (head + (z + body))
  {
    hide SignText, PrefixText, Body;
  }

  // ---------------------------------------------------------------------------------------
  // skip_atoi.
  // ---------------------------------------------------------------------------------------

  /** The value read from `s` after `i`, and what follows the digits. */
  function Atoi(s: seq<byte>, i: int32): (r: (int32, seq<byte>))
    ensures |r.1| <= |s|
    ensures r.1 != [] ==> !IsDigit(r.1[0])
  {
    if s != [] && IsDigit(s[0]) then Atoi(s[1..], ToSigned(i * 10 + s[0] - ZERO)) else (i, s)
  }

  ghost predicate AllDecimal(s: seq<byte>) {
    forall k :: 0 <= k < |s| ==> IsDigit(s[k])
  }

  /** Decimal digits followed by something else read as the number they denote, modulo 2^32. */
  lemma {:induction false} AtoiReads(s: seq<byte>, rest: seq<byte>, i: int32)
    requires AllDecimal(s) && (rest != [] ==> !IsDigit(rest[0]))
    ensures Atoi(s + rest, i) == (ToSigned(i * Pow10(|s|) + Value(s, 10)), rest)
  {
    if s == [] {
      assert s + rest == rest;
      SignedOfSmall(i);
    } else {
      assert (s + rest)[1..] == s[1..] + rest;
      AtoiReads(s[1..], rest, ToSigned(i * 10 + s[0] - ZERO));
      ReadOne(s, i);
    }
  }

  lemma SignedOfSmall(n: int32)
    ensures ToSigned(n) == n
  {
  }

  lemma ReadOne(s: seq<byte>, i: int32)
    requires AllDecimal(s) && s != []
    ensures ToSigned(ToSigned(i * 10 + s[0] - ZERO) * Pow10(|s| - 1) + Value(s[1..], 10))
      == ToSigned(i * Pow10(|s|) + Value(s, 10))
  {
    hide Value, ToSigned;
    ValueFromLeft(s);
    Shift(i, DigitValue(s[0]), Pow10(|s| - 1), Value(s[1..], 10));
    SameResidue(i * 10 + s[0] - ZERO, ToSigned(i * 10 + s[0] - ZERO), Pow10(|s| - 1), Value(s[1..], 10));
  }

  function Pow10(n: nat): nat {
    if n == 0 then 1 else Pow10(n - 1) * 10
  }

  lemma {:induction false} ValueFromLeft(s: seq<byte>)
    requires s != []
    ensures Value(s, 10) == DigitValue(s[0]) * Pow10(|s| - 1) + Value(s[1..], 10)
  {
    if |s| == 1 {
      assert s[..0] == [] && s[1..] == [];
    } else {
      var t := s[..|s| - 1];
      ValueFromLeft(t);
      assert t[1..] == s[1..][..|s| - 2];
      Scale(DigitValue(s[0]), Pow10(|s| - 2), Value(t[1..], 10));
    }
  }

  lemma Shift(i: int, d: int, p: int, v: int)
    ensures (i * 10 + d) * p + v == i * (p * 10) + (d * p + v)
  {
  }

  lemma Scale(d: int, p: int, v: int)
    ensures (d * p + v) * 10 == d * (p * 10) + v * 10
  {
  }

  lemma SameResidue(a: int, b: int, p: nat, v: int)
    requires a % TWO_32 == b % TWO_32
    ensures ToSigned(a * p + v) == ToSigned(b * p + v)
  {
    var k := a / TWO_32 - b / TWO_32;
    assert a == b + k * TWO_32;
    assert a * p + v == b * p + v + (k * p) * TWO_32;
    ResidueShift(b * p + v, k * p);
  }

  lemma ResidueShift(a: int, k: int)
    ensures (a + k * TWO_32) % TWO_32 == a % TWO_32
  {
  }

  /** Print and parse undo each other, whatever zeros stand in front. */
  lemma AtoiUndoesDigits(n: nat, zeros: nat, rest: seq<byte>)
    requires n <= INT_MAX && (rest != [] ==> !IsDigit(rest[0]))
    ensures Atoi(Repeat(ZERO, zeros) + Digits(n, 10, false) + rest, 0) == (n, rest)
  {
    var s := Repeat(ZERO, zeros) + Digits(n, 10, false);
    DigitsDenote(n, 10, false);
    DecimalDigits(n);
    LeadingZeros(zeros, Digits(n, 10, false), 10);
    AtoiReads(s, rest, 0);
    SignedOfSmall(n);
  }

  lemma {:induction false} DecimalDigits(n: nat)
    ensures AllDecimal(Digits(n, 10, false))
  {
    if n >= 10 {
      DecimalDigits(n / 10);
    }
  }

  lemma RepeatHas(c: byte, n: int)
    ensures n > 0 ==> c in Repeat(c, n)
  {
    if n > 0 {
      assert Repeat(c, n)[0] == c;
    }
  }

  /** A text without spaces has no padding but zeros. */
  lemma NoSpaces(num: int32, base: nat, size: int32, precision: int32, f: Flags)
    requires 2 <= base <= 36 && SPACE !in NumberText(num, base, size, precision, f)
    ensures DigitsFollow(num, base, size, precision, f)
    ensures Lead(num, base, size, precision, f) <= 0 && Trail(num, base, size, precision, f) <= 0
    ensures SignText(num, f) != [SPACE]
  {
    hide Body, PrefixText, Room, Repeat;
    var room := Room(num, base, size, precision, f);
    var text := NumberText(num, base, size, precision, f);
    RepeatHas(SPACE, Lead(num, base, size, precision, f));
    RepeatHas(SPACE, if f.left then 0 else SecondCount(room, f));
    RepeatHas(SPACE, ThirdCount(room, f));
    assert SPACE in SignText(num, f) ==> SPACE in text;
  }

  /**
   skip_atoi reads what number() writes for a non-negative number in base 10 with no plus sign and
   no spaces: any zero padding, any precision.
   */
  lemma AtoiUndoesNumber(n: int32, size: int32, precision: int32, f: Flags, rest: seq<byte>)
    requires 0 <= n && !f.plus && (rest != [] ==> !IsDigit(rest[0]))
    requires SPACE !in NumberText(n, 10, size, precision, f)
    ensures Atoi(NumberText(n, 10, size, precision, f) + rest, 0) == (n, rest)
  {
    hide NumberText, Lead, Trail, Zeros, Room, Digits;
    NoSpaces(n, 10, size, precision, f);
    NumberParts(n, 10, size, precision, f);
    var z := Zeros(n, 10, size, precision, f);
    assert NumberText(n, 10, size, precision, f) == Repeat(ZERO, z) + Body(n, 10, f);
    SmallDecimal(n, f.small);
    AtoiUndoesDigits(n, z, rest);
  }

  lemma {:induction false} SmallDecimal(n: nat, small: bool)
    ensures Digits(n, 10, small) == Digits(n, 10, false)
  {
    if n >= 10 {
      SmallDecimal(n / 10, small);
    }
  }
}
