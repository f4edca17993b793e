/** printk(): a formatted line on the foreground console. */
module Printk {
  import opened Machine
  import opened Screen
  import opened Console
  import opened ConsoleDriver
  import opened NumberPrinter
  import opened FormatSpec
  import opened FormatLaws
  import Vsprintf

  /** What console_print shows of a text that may hold a NUL. */
  function Shown(text: seq<byte>): (s: seq<byte>) {
    if text == [] || text[0] == 0 then [] else [text[0]] + Shown(text[1..])
  }

  lemma {:induction false} ShownIsCString(b: seq<byte>, n: nat)
    requires n < |b| && b[n] == 0
    ensures 0 in b && CString(b) == Shown(b[..n])
  {
    if n > 0 && b[0] != 0 {
      assert b[1..][n - 1] == 0;
      ShownIsCString(b[1..], n - 1);
      assert b[..n][1..] == b[1..][..n - 1];
    }
  }

  /** A second text shows exactly when there is no NUL in the first. */
  lemma {:induction false} ShownAppend(s: seq<byte>, t: seq<byte>)
    ensures Shown(s + t) == if NoNul(s) then Shown(s) + Shown(t) else Shown(s)
    ensures NoNul(s) ==> Shown(s) == s
  {
    if s == [] {
      assert s + t == t;
    } else {
      assert (s + t)[1..] == s[1..] + t;
      assert NoNul(s) <==> s[0] != 0 && NoNul(s[1..]) by {
        assert forall k :: 1 <= k < |s| ==> s[k] == s[1..][k - 1];
      }
      ShownAppend(s[1..], t);
    }
  }

  /** The screen of console 0 after printk is what the format means, drawn on the screen before. */
  method Printk(driver: ConsoleDriver, buf: array<byte>, fmt: seq<byte>, args: seq<Arg>, cells: array<int>)
    returns (n: nat)
    requires driver.Valid() && buf != driver.video.mem && buf as object != cells && cells as object != driver.video.mem
    requires CFormat(fmt)
    requires var o := Format(Tail(fmt, 0), args, 0);
             o.Done? && |o.text| < buf.Length && InRange(o.stores, cells.Length)
    modifies buf, cells, driver.consoles[0], driver.video, driver.video.mem
    ensures driver.Valid() && driver.ShowsCursor()
    ensures n == |Format(Tail(fmt, 0), args, 0).text|
    ensures driver.WholeRows() ==>
      driver.View(0) == Print(old(driver.View(0)), Shown(Format(Tail(fmt, 0), args, 0).text))
    ensures cells[..] == Applied(old(cells[..]), Format(Tail(fmt, 0), args, 0).stores)
  {
    n := Vsprintf.Vsprintf(buf, fmt, args, cells);
    ShownIsCString(buf[..], n);
    driver.ConsolePrint(buf[..]);
  }

  /** The same text and the same arguments left; only the stores may differ. */
  ghost predicate SameText(o: Outcome, p: Outcome) {
    (o.Done? <==> p.Done?) && (o.Done? ==> o.text == p.text && o.rest == p.rest)
  }

  lemma PrependSameText(text: seq<byte>, s: seq<Store>, t: seq<Store>, o: Outcome, p: Outcome)
    requires SameText(o, p)
    ensures SameText(Prepend(text, s, o), Prepend(text, t, p))
  {
  }

  /** The text does not depend on what was written before. */
  lemma {:induction false} TextIgnoresCount(s: seq<byte>, args: seq<Arg>, n: nat, k: nat)
    ensures SameText(Format(s, args, n), Format(s, args, k))
    decreases |s|
  {
    hide DirectiveText, DirectiveStores, Remaining, Fits;
    if s == [] {
    } else if s[0] != PERCENT {
      TextIgnoresCount(s[1..], args, n + 1, k + 1);
    } else {
      DirectiveIgnoresCount(s, args, n, k, Parse(s[1..]).0, Parse(s[1..]).1);
    }
  }

  lemma {:induction false} DirectiveIgnoresCount(s: seq<byte>, args: seq<Arg>, n: nat, k: nat,
                                                 d: Directive, after: seq<byte>)
    requires s != [] && s[0] == PERCENT && Parse(s[1..]) == (d, after)
    ensures SameText(Format(s, args, n), Format(s, args, k))
    decreases |s|, 0
  {
    hide DirectiveText, DirectiveStores, Remaining, Fits, Parse;
    FormatAt(s, args, n, d, after);
    FormatAt(s, args, k, d, after);
    if Fits(d, args) {
      var w := |DirectiveText(d, args)|;
      TextIgnoresCount(after, Remaining(d, args), n + w, k + w);
      PrependSameText(DirectiveText(d, args), DirectiveStores(d, args, n), DirectiveStores(d, args, k),
                      Format(after, Remaining(d, args), n + w), Format(after, Remaining(d, args), k + w));
    }
  }

  /**
   One printk of two formats and two printks of one each leave the same screen, unless the first
   text holds a NUL: then one printk shows nothing of the second.
   */
  lemma OnePrintkOrTwo(t: Terminal, f1: seq<byte>, a1: seq<Arg>, f2: seq<byte>, a2: seq<Arg>)
    requires t.Valid() && Complete(f1)
    requires Format(f1, a1, 0).Done? && Format(f1, a1, 0).rest == [] && Format(f2, a2, 0).Done?
    ensures Format(f1 + f2, a1 + a2, 0).Done?
    ensures var t1, t2 := Format(f1, a1, 0).text, Format(f2, a2, 0).text;
            var one := Print(t, Shown(Format(f1 + f2, a1 + a2, 0).text));
            one == if NoNul(t1) then Print(Print(t, Shown(t1)), Shown(t2)) else Print(t, Shown(t1))
  {
    hide Format, Print, Shown, NoNul, Complete;
    var t1, t2 := Format(f1, a1, 0).text, Format(f2, a2, 0).text;
    CompleteFormatsSplit(f1, a1, 0, f2, a2);
    TextIgnoresCount(f2, a2, |t1|, 0);
    assert Format(f1 + f2, a1 + a2, 0).text == t1 + t2;
    ShownAppend(t1, t2);
    PrintAppend(t, Shown(t1), Shown(t2));
  }
}
