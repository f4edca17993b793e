/** number() and skip_atoi(): the loops, against the texts of module Numbers. */
module NumberPrinter {
  import opened Machine
  import opened Numbers

  /** A NUL-terminated string: its last byte is its only NUL. */
  ghost predicate CFormat(fmt: seq<byte>) {
    fmt != [] && fmt[|fmt| - 1] == 0 && forall k :: 0 <= k < |fmt| - 1 ==> fmt[k] != 0
  }

  /** What is left of the string at position `i`, the NUL aside. */
  function Tail(fmt: seq<byte>, i: nat): (s: seq<byte>)
    requires i < |fmt|
  {
    fmt[i..|fmt| - 1]
  }

  method SkipAtoi(fmt: seq<byte>, start: nat) returns (value: int32, i: nat)
    requires CFormat(fmt) && start < |fmt|
    ensures start <= i < |fmt|
    ensures (value, Tail(fmt, i)) == Atoi(Tail(fmt, start), 0)
  {
    value, i := 0, start;
    while IsDigit(fmt[i])
      invariant start <= i < |fmt|
      invariant Atoi(Tail(fmt, i), value) == Atoi(Tail(fmt, start), 0)
      decreases |fmt| - i
    {
      assert Tail(fmt, i)[1..] == Tail(fmt, i + 1);
      value := ToSigned(value * 10 + fmt[i] - ZERO);
      i := i + 1;
    }
  }

  /** From `before` to `after`, exactly `text` has been written at `at`. */
  ghost predicate Wrote(before: seq<byte>, after: seq<byte>, at: nat, text: seq<byte>) {
    && at + |text| <= |before| == |after|
    && after[..at] == before[..at]
    && after[at..at + |text|] == text
    && after[at + |text|..] == before[at + |text|..]
  }

  lemma WroteThen(a: seq<byte>, b: seq<byte>, c: seq<byte>, at: nat, s: seq<byte>, t: seq<byte>)
    requires Wrote(a, b, at, s) && Wrote(b, c, at + |s|, t)
    ensures Wrote(a, c, at, s + t)
  {
    assert c[..at] == c[..at + |s|][..at] == b[..at + |s|][..at] == a[..at];
    assert c[at..at + |s|] == c[..at + |s|][at..] == b[..at + |s|][at..] == s;
    assert c[at..at + |s + t|] == c[at..at + |s|] + c[at + |s|..at + |s| + |t|];
    assert a[at + |s + t|..] == a[at + |s|..][|t|..] == b[at + |s|..][|t|..];
  }

  /** Since `before`, exactly `text` has been written, from `at` up to `end`. */
  ghost predicate Appended(before: seq<byte>, after: seq<byte>, at: nat, end: nat, text: seq<byte>) {
    end == at + |text| && Wrote(before, after, at, text)
  }

  lemma NothingWritten(m: seq<byte>, at: nat)
    requires at <= |m|
    ensures Appended(m, m, at, at, [])
  {
  }

  /** while (n-- > 0) *str++ = c; */
  method Pad(buf: array<byte>, str: nat, c: byte, n: int, ghost m: seq<byte>, ghost at: nat, ghost text: seq<byte>)
    returns (end: nat, left: int32)
    requires Appended(m, buf[..], at, str, text) && str + |Repeat(c, n)| <= buf.Length && n <= INT_MAX
    modifies buf
    ensures Appended(m, buf[..], at, end, text + Repeat(c, n))
    ensures left == After(n)
  {
    ghost var before := buf[..];
    end := str;
    var count, positive := n, true;
    while positive
      invariant str <= end <= str + |Repeat(c, n)|
      invariant if positive then count == n - (end - str) else count == After(n) && end - str == |Repeat(c, n)|
      invariant forall k :: str <= k < end ==> buf[k] == c
      invariant forall k :: 0 <= k < str || end <= k < buf.Length ==> buf[k] == before[k]
      decreases positive, count
    {
      positive := count > 0;
      count := ToSigned(count - 1);
      if positive {
        buf[end] := c;
        end := end + 1;
      }
    }
    left := count;
    WroteThen(m, before, buf[..], at, text, Repeat(c, n));
  }

  /** The bytes of `s`, one after the other. */
  method Put(buf: array<byte>, str: nat, s: seq<byte>, ghost m: seq<byte>, ghost at: nat, ghost text: seq<byte>)
    returns (end: nat)
    requires Appended(m, buf[..], at, str, text) && str + |s| <= buf.Length
    modifies buf
    ensures Appended(m, buf[..], at, end, text + s)
  {
    ghost var before := buf[..];
    end := str;
    for i := 0 to |s|
      invariant end == str + i
      invariant forall k :: 0 <= k < i ==> buf[str + k] == s[k]
      invariant forall k :: 0 <= k < str || end <= k < buf.Length ==> buf[k] == before[k]
    {
      buf[end] := s[i];
      end := end + 1;
    }
    WroteThen(m, before, buf[..], at, text, s);
  }

  /** divl: quotient and remainder of an unsigned word. */
  method DoDiv(n: uint32, base: nat) returns (q: uint32, r: nat)
    requires 2 <= base
    ensures q == n / base && r == n % base
  {
    QuotientShrinks(n, base);
    q, r := n / base, n % base;
  }

  function Reversed(s: seq<byte>): (r: seq<byte>)
    ensures |r| == |s|
  {
    if s == [] then [] else Reversed(s[1..]) + [s[0]]
  }

  lemma {:induction false} ReversedAppend(s: seq<byte>, c: byte)
    ensures Reversed(s + [c]) == [c] + Reversed(s)
  {
    if s == [] {
      assert [c][1..] == [];
    } else {
      assert (s + [c])[1..] == s[1..] + [c];
      ReversedAppend(s[1..], c);
    }
  }

  /** The digits still to come while `num` is left to divide. */
  function HighDigits(num: nat, base: nat, small: bool): (s: seq<byte>)
    requires 2 <= base <= 36
  {
    if num == 0 then [] else Digits(num, base, small)
  }

  lemma DigitsAhead(num: nat, base: nat, small: bool)
    requires 2 <= base <= 36 && 0 < num
    ensures HighDigits(num, base, small) + Reversed([]) == Digits(num, base, small)
  {
  }

  lemma HighDigitsEnd(num: nat, base: nat, small: bool)
    requires 2 <= base <= 36 && 0 < num
    ensures HighDigits(num, base, small) == HighDigits(num / base, base, small) + [Digit(num % base, small)]
  {
    hide Digit;
    QuotientShrinks(num, base);
    if num < base {
      assert num / base == 0 && num % base == num;
    } else {
      QuotientNotZero(num, base);
    }
  }

  lemma QuotientNotZero(num: nat, base: nat)
    requires 0 < base <= num
    ensures 0 < num / base
  {
  }

  lemma ZeroAlone(base: nat, small: bool)
    requires 2 <= base <= 36
    ensures Reversed([ZERO]) == Digits(0, base, small)
  {
    assert [ZERO][1..] == [];
  }

  lemma OneDigitMore(num: nat, base: nat, small: bool, low: seq<byte>)
    requires 2 <= base <= 36 && 0 < num
    ensures HighDigits(num / base, base, small) + Reversed(low + [Digit(num % base, small)])
      == HighDigits(num, base, small) + Reversed(low)
  {
    hide Reversed, Digit, HighDigits;
    HighDigitsEnd(num, base, small);
    ReversedAppend(low, Digit(num % base, small));
  }

  lemma OneBitLess(num: nat, base: nat, n: nat)
    requires 2 <= base && 0 < num < Pow2(n)
    ensures 0 < n && num / base < Pow2(n - 1) && num / base < num
  {
    QuotientShrinks(num, base);
  }

  /** The digit loop: `i` digits in tmp, least significant first, never more than 32 of its 36. */
  method FillTmp(mag: uint32, base: nat, small: bool) returns (tmp: array<byte>, i: nat)
    requires 2 <= base <= 36
    ensures fresh(tmp) && i <= 32 < tmp.Length == 36
    ensures Reversed(tmp[..i]) == Digits(mag, base, small)
  {
    hide Digits, Digit, Reversed, Pow2;
    tmp := new byte[36](_ => 0);
    i := 0;
    if mag == 0 {
      tmp[0] := ZERO;
      i := 1;
      ZeroAlone(base, small);
      assert tmp[..1] == [ZERO];
      return;
    }
    var num: uint32 := mag;
    Pow32();
    assert tmp[..0] == [];
    DigitsAhead(mag, base, small);
    while num != 0
      invariant i <= 32 && num < Pow2(32 - i)
      invariant HighDigits(num, base, small) + Reversed(tmp[..i]) == Digits(mag, base, small)
      decreases num
    {
      ghost var low := tmp[..i];
      OneDigitMore(num, base, small, low);
      OneBitLess(num, base, 32 - i);
      var digit;
      num, digit := DoDiv(num, base);
      tmp[i] := Digit(digit, small);
      i := i + 1;
      assert tmp[..i] == low + [Digit(digit, small)];
    }
  }

  /** while (i-- > 0) *str++ = tmp[i]; */
  method PutTmp(buf: array<byte>, str: nat, tmp: array<byte>, n: nat,
                ghost m: seq<byte>, ghost at: nat, ghost text: seq<byte>)
    returns (end: nat)
    requires n <= tmp.Length && buf != tmp
    requires Appended(m, buf[..], at, str, text) && str + n <= buf.Length
    modifies buf
    ensures Appended(m, buf[..], at, end, text + Reversed(tmp[..n]))
  {
    hide Wrote;
    end := str;
    var i := n;
    ghost var digits := tmp[..n];
    assert digits[n..] == [] && text + [] == text;
    while i > 0
      invariant 0 <= i <= n && end == str + (n - i) && tmp[..n] == digits
      invariant Appended(m, buf[..], at, end, text + Reversed(digits[i..]))
    {
      i := i - 1;
      assert digits[i..][1..] == digits[i + 1..];
      assert tmp[i] == tmp[..n][i] == digits[i];
      assert (text + Reversed(digits[i + 1..])) + [digits[i]] == text + Reversed(digits[i..]);
      end := Put(buf, end, [tmp[i]], m, at, text + Reversed(digits[i + 1..]));
    }
    assert digits[0..] == digits;
  }

  /** number(): null, here `ok` false, for a base outside 2..36. */
  method Number(buf: array<byte>, str: nat, num: int32, base: int, size: int32, precision: int32, flags: Flags)
    returns (ok: bool, end: nat)
    requires 2 <= base <= 36 ==> str + |NumberText(num, base, size, precision, Effective(flags))| <= buf.Length
    modifies buf
    ensures ok <==> 2 <= base <= 36
    ensures !ok ==> buf[..] == old(buf[..])
    ensures ok ==>
      Appended(old(buf[..]), buf[..], str, end, NumberText(num, base, size, precision, Effective(flags)))
  {
    var f := Effective(flags);
    if base < 2 || base > 36 {
      return false, 0;
    }
    ok := true;
    var tmp, i := FillTmp(Magnitude(num, f), base, f.small);
    end := PrintParts(buf, str, num, base, size, precision, f, tmp, i);
  }

  lemma WrapDifference(a: int, b: int)
    ensures ToSigned(ToSigned(a) - b) == ToSigned(a - b)
  {
    WrapSum(a, -b);
    WrapSum(ToSigned(a), -b);
  }

  /** size, less the columns of the sign, the prefix and the digits, one subtraction after the other. */
  method Subtract(size: int32, sign: nat, prefix: nat, digits: nat) returns (room: int32)
    ensures room == ToSigned(size - (sign + prefix + digits))
  {
    WrapDifference(size - sign, prefix);
    WrapDifference(size - sign - prefix, digits);
    room := ToSigned(size - sign);
    room := ToSigned(room - prefix);
    room := ToSigned(room - digits);
  }

  /** The second half of number(), after the digit loop. */
  method PrintParts(buf: array<byte>, str: nat, num: int32, base: nat, size: int32, precision: int32, f: Flags,
                    tmp: array<byte>, i: nat)
    returns (end: nat)
    requires 2 <= base <= 36 && !(f.left && f.zeropad)
    requires i <= tmp.Length && buf != tmp && Reversed(tmp[..i]) == Body(num, base, f)
    requires str + |NumberText(num, base, size, precision, f)| <= buf.Length
    modifies buf
    ensures Appended(old(buf[..]), buf[..], str, end, NumberText(num, base, size, precision, f))
  {
    hide Wrote, Body, Reversed, Head, ThirdCount, ToSigned, SignText, PrefixText;
    ghost var m, body := buf[..], Body(num, base, f);
    var digits := if i > precision then i else precision;
    var room := Subtract(size, |SignText(num, f)|, |PrefixText(base, f)|, digits);
    assert room == Room(num, base, size, precision, f);
    ghost var text;
    end, room, text := PrintHead(buf, str, num, base, room, f, m);
    var rest;
    end, rest := Pad(buf, end, ZERO, digits - i, m, str, text);
    assert Repeat(ZERO, digits - i) == Repeat(ZERO, precision - |body|);
    text := text + Repeat(ZERO, precision - |body|);
    end := PutTmp(buf, end, tmp, i, m, str, text);
    text := text + body;
    end, room := Pad(buf, end, SPACE, room, m, str, text);
  }

  /** The two padding loops before the digits, with sign and prefix between them. */
  method PrintHead(buf: array<byte>, str: nat, num: int32, base: nat, size: int32, f: Flags, ghost m: seq<byte>)
    returns (end: nat, room: int32, ghost text: seq<byte>)
    requires !(f.left && f.zeropad) && buf[..] == m && str + |Head(num, base, size, f)| <= buf.Length
    modifies buf
    ensures text == Head(num, base, size, f) && Appended(m, buf[..], str, end, text)
    ensures room == ThirdCount(size, f)
  {
    hide Wrote, SignText, PrefixText, ToSigned, After;
    room := size;
    end, text := str, [];
    NothingWritten(m, str);
    if !f.zeropad && !f.left {
      end, room := Pad(buf, end, SPACE, room, m, str, text);
    }
    assert text + Repeat(SPACE, size) == Repeat(SPACE, size) && text == Repeat(SPACE, 0);
    text := Repeat(SPACE, if f.left || f.zeropad then 0 else size);
    end := Put(buf, end, SignText(num, f), m, str, text);
    text := text + SignText(num, f);
    end := Put(buf, end, PrefixText(base, f), m, str, text);
    text := text + PrefixText(base, f);
    if !f.left {
      var c := if f.zeropad then ZERO else SPACE;
      end, room := Pad(buf, end, c, room, m, str, text);
    }
    assert text + Repeat(SPACE, 0) == text;
    text := text + Repeat(if f.zeropad then ZERO else SPACE, if f.left then 0 else SecondCount(size, f));
  }
}
