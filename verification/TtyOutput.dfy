/** What tty_write makes of a buffer: newline expansion, partial acceptance and the ring's limit. */
module TtyOutput {
  import opened Machine
  import opened Screen
  import opened TtyQueue

  /** LF is queued as CR LF. */
  function Expand(s: seq<byte>): (e: seq<byte>) {
    if s == [] then [] else (if s[0] == LF then [CR, LF] else [s[0]]) + Expand(s[1..])
  }

  lemma {:induction false} ExpandAppend(s: seq<byte>, t: seq<byte>)
    ensures Expand(s + t) == Expand(s) + Expand(t)
  {
    if s == [] {
      assert s + t == t;
    } else {
      assert (s + t)[1..] == s[1..] + t;
      ExpandAppend(s[1..], t);
    }
  }

  /** What waits in the queue for a byte written. */
  lemma ExpandByte(c: byte)
    ensures Expand([c]) == if c == 10 then [13, 10] else [c]
  {
    assert [c][1..] == [];
  }

  /** The bytes waiting once `c` has been put on a ring that was not full. */
  function Queue1(waiting: seq<byte>, c: byte): seq<byte> {
    if c != LF then waiting + [c]
    else if |waiting| + 2 <= CAPACITY then waiting + [CR, LF]
    else []
  }

  /** How many bytes the loop takes: it stops only when it finds the ring full. */
  function Taken(waiting: seq<byte>, b: seq<byte>): (n: nat)
    ensures n <= |b|
    ensures |waiting| < CAPACITY && b != [] ==> 1 <= n
    decreases |b|
  {
    if b == [] || |waiting| == CAPACITY then 0 else 1 + Taken(Queue1(waiting, b[0]), b[1..])
  }

  /** What the ring holds when the loop stops. */
  function Queued(waiting: seq<byte>, b: seq<byte>): (q: seq<byte>)
    requires |waiting| <= CAPACITY
    ensures |q| <= CAPACITY
    decreases |b|
  {
    if b == [] || |waiting| == CAPACITY then waiting else Queued(Queue1(waiting, b[0]), b[1..])
  }

  /** Some LF arrives when exactly one slot is free. */
  ghost predicate Overruns(waiting: seq<byte>, b: seq<byte>) {
    exists k :: 0 <= k < |b| && OverrunsAt(waiting, b, k)
  }

  predicate OverrunsAt(waiting: seq<byte>, b: seq<byte>, k: nat)
    requires k < |b|
  {
    b[k] == LF && |waiting| + |Expand(b[..k])| == CAPACITY - 1
  }

  lemma OverrunsTail(waiting: seq<byte>, b: seq<byte>, k: nat)
    requires 0 < k < |b| && |waiting| < CAPACITY
    requires b[0] == LF ==> |waiting| + 2 <= CAPACITY
    ensures OverrunsAt(waiting, b, k) <==> OverrunsAt(Queue1(waiting, b[0]), b[1..], k - 1)
  {
    assert b[..k][1..] == b[1..][..k - 1];
  }

  /** Without an overrun the first byte is queued whole, and the rest does not overrun either. */
  lemma FirstQueued(waiting: seq<byte>, b: seq<byte>)
    requires b != [] && |waiting| < CAPACITY && !Overruns(waiting, b)
    ensures Queue1(waiting, b[0]) == waiting + if b[0] == LF then [CR, LF] else [b[0]]
    ensures !Overruns(Queue1(waiting, b[0]), b[1..])
  {
    assert !OverrunsAt(waiting, b, 0);
    forall k | 0 <= k < |b| - 1
      ensures !OverrunsAt(Queue1(waiting, b[0]), b[1..], k)
    {
      OverrunsTail(waiting, b, k + 1);
    }
  }

  lemma ExpandFirst(b: seq<byte>, n: nat)
    requires b != [] && 1 <= n <= |b|
    ensures Expand(b[..n]) == (if b[0] == LF then [CR, LF] else [b[0]]) + Expand(b[1..][..n - 1])
  {
    assert b[..n][1..] == b[1..][..n - 1];
  }

  /** Without an overrun the ring holds the whole accepted prefix, expanded. */
  lemma {:induction false} NothingLost(waiting: seq<byte>, b: seq<byte>)
    requires |waiting| <= CAPACITY && !Overruns(waiting, b)
    ensures Queued(waiting, b) == waiting + Expand(b[..Taken(waiting, b)])
    decreases |b|
  {
    if b != [] && |waiting| < CAPACITY {
      hide Overruns, Queue1, Expand;
      FirstQueued(waiting, b);
      NothingLost(Queue1(waiting, b[0]), b[1..]);
      ExpandFirst(b, Taken(waiting, b));
    }
  }

  /** An overrun is reached: the loop takes the LF that causes it. */
  lemma {:induction false} OverrunIsReached(waiting: seq<byte>, b: seq<byte>, k: nat)
    requires |waiting| < CAPACITY && k < |b| && OverrunsAt(waiting, b, k)
    ensures k < Taken(waiting, b)
    decreases |b|
  {
    if k > 0 {
      ExpandFirst(b, k);
      OverrunsTail(waiting, b, k);
      OverrunIsReached(Queue1(waiting, b[0]), b[1..], k - 1);
    }
  }

  /** Queued text is lost exactly when an LF arrives with one slot free. */
  lemma LossExactlyOnOverrun(waiting: seq<byte>, b: seq<byte>)
    requires |waiting| <= CAPACITY
    ensures |waiting| < CAPACITY ==>
      (Queued(waiting, b) == waiting + Expand(b[..Taken(waiting, b)]) <==> !Overruns(waiting, b))
  {
    if Overruns(waiting, b) && |waiting| < CAPACITY {
      var k :| 0 <= k < |b| && OverrunsAt(waiting, b, k);
      OverrunIsReached(waiting, b, k);
      var n := Taken(waiting, b);
      ExpandAppend(b[..k], b[k..n]);
      assert b[..k] + b[k..n] == b[..n];
      assert |Expand(b[k..n])| >= 2;
    } else if |waiting| < CAPACITY {
      NothingLost(waiting, b);
    }
  }

  lemma {:induction false} StopsAtFull(waiting: seq<byte>, b: seq<byte>)
    requires |waiting| <= CAPACITY && Taken(waiting, b) < |b|
    ensures |Queued(waiting, b)| == CAPACITY
    decreases |b|
  {
    if |waiting| < CAPACITY {
      StopsAtFull(Queue1(waiting, b[0]), b[1..]);
    }
  }

  /** Every overrun is among the bytes taken. */
  lemma OverrunsAreTaken(waiting: seq<byte>, b: seq<byte>, n: nat)
    requires |waiting| <= CAPACITY && n == Taken(waiting, b)
    ensures Overruns(waiting, b) ==> Overruns(waiting, b[..n])
  {
    if Overruns(waiting, b) {
      var k :| 0 <= k < |b| && OverrunsAt(waiting, b, k);
      OverrunIsReached(waiting, b, k);
      assert b[..n][..k] == b[..k];
      assert OverrunsAt(waiting, b[..n], k);
    }
  }

  /** Without an overrun the bytes taken are all queued; only a full ring ends the loop early. */
  lemma TakesAllOrFills(waiting: seq<byte>, b: seq<byte>, n: nat)
    requires |waiting| <= CAPACITY && n == Taken(waiting, b)
    ensures n <= |b| && (|waiting| < CAPACITY && b != [] ==> 1 <= n)
    ensures !Overruns(waiting, b[..n]) ==> Queued(waiting, b) == waiting + Expand(b[..n])
    ensures n < |b| ==> Overruns(waiting, b[..n]) || |waiting| + |Expand(b[..n])| == 1023
  {
    hide Queued, Expand, Overruns;
    OverrunsAreTaken(waiting, b, n);
    if !Overruns(waiting, b) {
      NothingLost(waiting, b);
    }
    if n < |b| {
      StopsAtFull(waiting, b);
    }
  }

  // ---------------------------------------------------------------------------------------
  // The two output paths.
  // ---------------------------------------------------------------------------------------

  predicate Plain(c: byte) {
    31 < c < 127 || c == LF || c == CR
  }

  ghost predicate PlainText(s: seq<byte>) {
    forall k :: 0 <= k < |s| ==> Plain(s[k])
  }

  /** One plain byte draws the same through the queue as directly. */
  lemma PlainByteAgrees(t: Terminal, c: byte)
    requires t.Valid() && Plain(c)
    ensures Write(t, Expand([c])) == t.PrintByte(c)
  {
    StepsKeepValid(t, c);
    assert Expand([c]) == if c == LF then [CR, LF] else [c];
    assert Write(t, []) == t;
    if c == LF {
      assert [CR, LF][..1] == [CR];
      assert Write(t, [CR]) == t.WriteByte(CR);
    } else {
      assert [c][..0] == [];
    }
  }

  /** Plain text draws the same screen through the queue as directly. */
  lemma {:induction false} PathsAgree(t: Terminal, s: seq<byte>)
    requires t.Valid() && PlainText(s)
    ensures Write(t, Expand(s)) == Print(t, s)
  {
    if s != [] {
      var front, c := s[..|s| - 1], s[|s| - 1];
      PathsAgree(t, front);
      ExpandAppend(front, [c]);
      assert front + [c] == s;
      WriteAppend(t, Expand(front), Expand([c]));
      PlainByteAgrees(Print(t, front), c);
    }
  }

  /** The screen `u` is `t` with the first `n` bytes of plain, overrun-free text drawn directly. */
  ghost predicate DrawnDirectly(t: Terminal, u: Terminal, text: seq<byte>, n: nat) {
    t.Valid() && n <= |text| && (PlainText(text) && !Overruns([], text) ==> u == Print(t, text[..n]))
  }

  /** What tty_write displays from an empty queue is the accepted prefix, drawn directly. */
  lemma AcceptedPrefixIsDrawn(t: Terminal, text: seq<byte>)
    requires t.Valid()
    ensures DrawnDirectly(t, Write(t, Queued([], text)), text, Taken([], text))
  {
    if PlainText(text) && !Overruns([], text) {
      var accepted := text[..Taken([], text)];
      NothingLost([], text);
      assert [] + Expand(accepted) == Expand(accepted);
      PathsAgree(t, accepted);
    }
  }

  /** A glyph moves the cursor on; con_write ignores what is not plain or feeds a line with it. */
  lemma OnlyGlyphsAdvance(t: Terminal, c: byte)
    requires t.Valid() && !Plain(c)
    ensures t.PrintByte(c).x == if t.x == t.columns then 1 else t.x + 1
    ensures t.WriteByte(c).x == t.x
  {
    t.LineFeedValid();
  }

  /**
   A byte draws the same on both paths exactly when it is plain. Only a full row on a screen of
   one column is left out: a wrapped glyph ends there with the cursor in the same place.
   */
  lemma PathsAgreeExactly(t: Terminal, c: byte)
    requires t.Valid() && (t.x < t.columns || 1 < t.columns)
    ensures Write(t, Expand([c])) == t.PrintByte(c) <==> Plain(c)
  {
    if Plain(c) {
      PlainByteAgrees(t, c);
    } else {
      OneWritten(t, c);
      OnlyGlyphsAdvance(t, c);
    }
  }

  lemma OneWritten(t: Terminal, c: byte)
    requires t.Valid() && c != LF
    ensures Write(t, Expand([c])) == t.WriteByte(c)
  {
    assert Expand([c]) == [c];
    assert [c][..0] == [];
  }

  /** All that reaches the console when a writer retries with the rest until all is accepted. */
  function Retried(b: seq<byte>): (s: seq<byte>)
    decreases |b|
  {
    if b == [] then [] else Queued([], b) + Retried(b[Taken([], b)..])
  }

  ghost predicate SomeRetryOverruns(b: seq<byte>)
    decreases |b|
  {
    b != [] && (Overruns([], b) || SomeRetryOverruns(b[Taken([], b)..]))
  }

  lemma SameParts(q: seq<byte>, r: seq<byte>, e: seq<byte>, f: seq<byte>)
    requires |q| <= |e| && |r| <= |f|
    ensures q + r == e + f <==> q == e && r == f
  {
    if q + r == e + f {
      assert q == (q + r)[..|q|] == (e + f)[..|e|] == e;
      assert r == (q + r)[|q|..] == (e + f)[|e|..] == f;
    }
  }

  /** One attempt delivers what it takes exactly when it does not overrun, and never more. */
  lemma AttemptDelivers(b: seq<byte>, n: nat)
    requires n == Taken([], b) <= |b|
    ensures Queued([], b) == Expand(b[..n]) <==> !Overruns([], b)
    ensures |Queued([], b)| <= |Expand(b[..n])|
  {
    hide Queued, Taken, Overruns, Expand;
    assert [] + Expand(b[..n]) == Expand(b[..n]);
    LossExactlyOnOverrun([], b);
    QueuedAtMost([], b);
  }

  lemma RetryOnce(b: seq<byte>, n: nat, rest: seq<byte>)
    requires b != [] && n == Taken([], b) && n <= |b| && rest == b[n..]
    ensures |rest| < |b|
    ensures Retried(b) == Queued([], b) + Retried(rest)
    ensures SomeRetryOverruns(b) <==> Overruns([], b) || SomeRetryOverruns(rest)
    ensures Expand(b) == Expand(b[..n]) + Expand(rest)
  {
    assert b[..n] + b[n..] == b;
    ExpandAppend(b[..n], b[n..]);
    hide Queued, Overruns, Expand;
  }

  /** Retrying ends, and what arrives is the whole text exactly when no attempt overruns. */
  lemma {:induction false} RetriesDeliver(b: seq<byte>)
    ensures |Retried(b)| <= |Expand(b)|
    ensures Retried(b) == Expand(b) <==> !SomeRetryOverruns(b)
    decreases |b|
  {
    if b != [] {
      hide Queued, Taken, Overruns, Expand, Retried, SomeRetryOverruns;
      var n := Taken([], b);
      var rest := b[n..];
      RetryOnce(b, n, rest);
      RetriesDeliver(rest);
      AttemptDelivers(b, n);
      SameParts(Queued([], b), Retried(rest), Expand(b[..n]), Expand(rest));
    }
  }

  /** A retried text without an overrun ends on the screen that direct printing draws. */
  lemma RetriedTextIsDrawn(t: Terminal, b: seq<byte>)
    requires t.Valid() && PlainText(b) && !SomeRetryOverruns(b)
    ensures Write(t, Retried(b)) == Print(t, b)
  {
    RetriesDeliver(b);
    PathsAgree(t, b);
  }

  /** Bytes without LF are taken and queued as they are, while a slot stays free. */
  lemma {:induction false} QueuedAsIs(waiting: seq<byte>, s: seq<byte>, rest: seq<byte>)
    requires LF !in s && |waiting| + |s| <= CAPACITY
    ensures Queued(waiting, s + rest) == Queued(waiting + s, rest)
    ensures Taken(waiting, s + rest) == |s| + Taken(waiting + s, rest)
    ensures Expand(s) == s
    decreases |s|
  {
    if s == [] {
      assert s + rest == rest && waiting + s == waiting;
    } else {
      assert (s + rest)[1..] == s[1..] + rest && waiting + [s[0]] + s[1..] == waiting + s;
      QueuedAsIs(waiting + [s[0]], s[1..], rest);
    }
  }

  /** An overrun does happen: behind any 1022 bytes without LF, one LF loses all of them and itself. */
  lemma OverrunLosesAll(s: seq<byte>)
    requires |s| == CAPACITY - 1 && LF !in s
    ensures Overruns([], s + [LF])
    ensures Taken([], s + [LF]) == |s| + 1 && Queued([], s + [LF]) == []
    ensures Retried(s + [LF]) == []
  {
    var b: seq<byte> := s + [LF];
    assert [] + s == s && b[..|s|] == s;
    QueuedAsIs([], s, [LF]);
    assert OverrunsAt([], b, |s|);
    var none: seq<byte> := [LF];
    assert none[1..] == [] && Taken(s, none) == 1 && Queued(s, none) == [];
    assert b[Taken([], b)..] == [];
  }

  lemma {:induction false} QueuedAtMost(waiting: seq<byte>, b: seq<byte>)
    requires |waiting| <= CAPACITY
    ensures |Queued(waiting, b)| <= |waiting| + |Expand(b[..Taken(waiting, b)])|
    decreases |b|
  {
    if b != [] && |waiting| < CAPACITY {
      QueuedAtMost(Queue1(waiting, b[0]), b[1..]);
      ExpandFirst(b, Taken(waiting, b));
    }
  }
}
