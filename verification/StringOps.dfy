/** The repeated string instructions of the 386, on byte-addressed memory. */
module StringOps {
  import opened Machine
  import opened Screen
  import opened VideoRows

  /** Memory with `length` bytes at `dst` replaced by those at `src`. */
  function Copied(m: seq<byte>, dst: nat, src: nat, length: nat): (n: seq<byte>)
    requires dst + length <= |m| && src + length <= |m|
    ensures |n| == |m|
  {
    m[..dst] + m[src..src + length] + m[dst + length..]
  }

  /** movsl: one double word, read before it is written. */
  method MoveDword(mem: array<byte>, d: nat, s: nat)
    requires d + 4 <= mem.Length && s + 4 <= mem.Length
    modifies mem
    ensures mem[..] == Copied(old(mem[..]), d, s, 4)
  {
    ghost var m: seq<byte> := mem[..];
    mem[d], mem[d + 1], mem[d + 2], mem[d + 3] := mem[s], mem[s + 1], mem[s + 2], mem[s + 3];
    FourCopied(m, mem[..], d, s);
  }

  lemma FourCopied(m: seq<byte>, n: seq<byte>, d: nat, s: nat)
    requires d + 4 <= |m| == |n| && s + 4 <= |m|
    requires n[d] == m[s] && n[d + 1] == m[s + 1] && n[d + 2] == m[s + 2] && n[d + 3] == m[s + 3]
    requires forall i :: 0 <= i < d || d + 4 <= i < |m| ==> n[i] == m[i]
    ensures n == Copied(m, d, s, 4)
  {
    assert n[d..d + 4] == m[s..s + 4];
    assert n == n[..d] + n[d..d + 4] + n[d + 4..];
  }

  /** cld; rep movsl: `count` double words, lowest address first. */
  method RepMovslUp(mem: array<byte>, dst: nat, src: nat, count: nat)
    requires dst <= src && src + 4 * count <= mem.Length
    modifies mem
    ensures mem[..] == Copied(old(mem[..]), dst, src, 4 * count)
  {
    hide Copied;
    ghost var m := mem[..];
    CopiedNothing(m, dst, src);
    for k := 0 to count
      invariant mem[..] == Copied(m, dst, src, 4 * k)
    {
      CopiedUp(m, dst, src, 4 * k);
      MoveDword(mem, dst + 4 * k, src + 4 * k);
    }
  }

  /** std; rep movsl: `count` double words, highest address first; `dst` and `src` name the top ones. */
  method RepMovslDown(mem: array<byte>, dst: nat, src: int, count: nat)
    requires src <= dst && dst + 4 <= mem.Length && 4 * count <= src + 4
    modifies mem
    ensures mem[..] == Copied(old(mem[..]), dst + 4 - 4 * count, src + 4 - 4 * count, 4 * count)
  {
    hide Copied;
    ghost var m := mem[..];
    CopiedNothing(m, dst + 4, src + 4);
    for k := 0 to count
      invariant mem[..] == Copied(m, dst + 4 - 4 * k, src + 4 - 4 * k, 4 * k)
    {
      CopiedDown(m, dst - 4 * k, src - 4 * k, 4 * k);
      MoveDword(mem, dst - 4 * k, src - 4 * k);
    }
  }

  lemma CopiedNothing(m: seq<byte>, dst: nat, src: nat)
    requires dst <= |m| && src <= |m|
    ensures Copied(m, dst, src, 0) == m
  {
    assert m[..dst] + m[src..src] == m[..dst];
  }

  /** Overlap does no harm upwards: what is still to be read has not been written. */
  lemma CopiedUp(m: seq<byte>, dst: nat, src: nat, length: nat)
    requires dst <= src && src + length + 4 <= |m|
    ensures Copied(Copied(m, dst, src, length), dst + length, src + length, 4) == Copied(m, dst, src, length + 4)
  {
    var n := Copied(m, dst, src, length);
    assert n[..dst + length] == m[..dst] + m[src..src + length];
    assert n[dst + length..] == m[dst + length..];
    Later(n, m, dst + length, src + length, src + length + 4);
    Later(n, m, dst + length, dst + length + 4, |m|);
    assert m[src..src + length] + m[src + length..src + length + 4] == m[src..src + length + 4];
  }

  lemma Later(n: seq<byte>, m: seq<byte>, from: nat, a: nat, b: nat)
    requires |n| == |m| && from <= a <= b <= |m| && n[from..] == m[from..]
    ensures n[a..b] == m[a..b]
  {
    forall i | a <= i < b
      ensures n[i] == m[i]
    {
      assert n[from..][i - from] == m[from..][i - from];
    }
  }

  /** ... and downwards likewise. */
  lemma CopiedDown(m: seq<byte>, d: nat, s: nat, length: nat)
    requires s <= d && d + 4 + length <= |m|
    ensures Copied(Copied(m, d + 4, s + 4, length), d, s, 4) == Copied(m, d, s, length + 4)
  {
    var n := Copied(m, d + 4, s + 4, length);
    assert n[..d + 4] == m[..d + 4];
    assert n[s..s + 4] == n[..d + 4][s..s + 4] == m[..d + 4][s..s + 4] == m[s..s + 4];
    assert n[..d] == n[..d + 4][..d] == m[..d + 4][..d] == m[..d];
    assert n == m[..d + 4] + (m[s + 4..s + 4 + length] + m[d + 4 + length..]);
    assert m[s..s + 4] + m[s + 4..s + 4 + length] == m[s..s + 4 + length];
  }

  /** cld; rep stosw of one cell, lowest address first. */
  method RepStoswUp(mem: array<byte>, dst: nat, cell: Cell, count: nat)
    requires dst + 2 * count <= mem.Length
    modifies mem
    ensures mem[..] == old(mem[..])[..dst] + BlankBytes(count, cell) + old(mem[..])[dst + 2 * count..]
  {
    ghost var m: seq<byte> := mem[..];
    assert m[..dst] + [] + m[dst..] == m;
    for k := 0 to count
      invariant mem[..] == m[..dst] + BlankBytes(k, cell) + m[dst + 2 * k..]
    {
      StoswUp(m, mem[..], dst, cell, k);
      ghost var n: seq<byte> := mem[..];
      mem[dst + 2 * k], mem[dst + 2 * k + 1] := cell.glyph, cell.attr;
      assert mem[..] == Stored(n, dst + 2 * k, cell);
    }
  }

  lemma StoswUp(m: seq<byte>, n: seq<byte>, dst: nat, cell: Cell, k: nat)
    requires dst + 2 * k + 2 <= |m| && n == m[..dst] + BlankBytes(k, cell) + m[dst + 2 * k..]
    ensures Stored(n, dst + 2 * k, cell) == m[..dst] + BlankBytes(k + 1, cell) + m[dst + 2 * (k + 1)..]
  {
    assert BlankBytes(k + 1, cell) == BlankBytes(k, cell) + [cell.glyph, cell.attr];
  }

  /** std; rep stosw of one cell, highest address first; `dst` names the top word. */
  method RepStoswDown(mem: array<byte>, dst: nat, cell: Cell, count: nat)
    requires dst + 2 <= mem.Length && 2 * count <= dst + 2
    modifies mem
    ensures mem[..] == old(mem[..])[..dst + 2 - 2 * count] + BlankBytes(count, cell) + old(mem[..])[dst + 2..]
  {
    ghost var m: seq<byte> := mem[..];
    assert m[..dst + 2] + [] + m[dst + 2..] == m;
    for k := 0 to count
      invariant mem[..] == m[..dst + 2 - 2 * k] + BlankBytes(k, cell) + m[dst + 2..]
    {
      StoswDown(m, mem[..], dst - 2 * k, cell, k);
      ghost var n: seq<byte> := mem[..];
      mem[dst - 2 * k], mem[dst - 2 * k + 1] := cell.glyph, cell.attr;
      assert mem[..] == Stored(n, dst - 2 * k, cell);
    }
  }

  lemma StoswDown(m: seq<byte>, n: seq<byte>, d: nat, cell: Cell, k: nat)
    requires d + 2 + 2 * k <= |m| && n == m[..d + 2] + BlankBytes(k, cell) + m[d + 2 + 2 * k..]
    ensures Stored(n, d, cell) == m[..d] + BlankBytes(k + 1, cell) + m[d + 2 + 2 * k..]
  {
    assert BlankBytes(k + 1, cell) == [cell.glyph, cell.attr] + BlankBytes(k, cell);
  }

  /** The blanking block: cld; rep stosw of `columns` blanks. */
  method BlankUp(mem: array<byte>, dst: nat, columns: nat, erase: Cell)
    requires dst + 2 * columns <= mem.Length
    modifies mem
    ensures mem[..] == CopyThenBlank(old(mem[..]), dst, dst, 0, columns, erase)
  {
    ghost var m := mem[..];
    RepStoswUp(mem, dst, erase, columns);
    assert m[..dst] + m[dst..dst] == m[..dst];
  }

  /** The scrolling block: cld; rep movsl; then `columns` blanks with rep stosw. */
  method CopyUp(mem: array<byte>, dst: nat, src: nat, count: nat, columns: nat, erase: Cell)
    requires dst <= src && src + 4 * count <= mem.Length && dst + 4 * count + 2 * columns <= mem.Length
    modifies mem
    ensures mem[..] == CopyThenBlank(old(mem[..]), dst, src, 4 * count, columns, erase)
  {
    hide Copied, CopyThenBlank, BlankBytes;
    ghost var m := mem[..];
    RepMovslUp(mem, dst, src, count);
    ghost var n := mem[..];
    RepStoswUp(mem, dst + 4 * count, erase, columns);
    CopiedThenBlanked(m, n, mem[..], dst, src, 4 * count, columns, erase);
  }

  lemma CopiedThenBlanked(m: seq<byte>, n: seq<byte>, r: seq<byte>, dst: nat, src: nat, length: nat,
                          columns: nat, erase: Cell)
    requires dst <= src && src + length <= |m| && dst + length + 2 * columns <= |m|
    requires n == Copied(m, dst, src, length)
    requires r == n[..dst + length] + BlankBytes(columns, erase) + n[dst + length + 2 * columns..]
    ensures r == CopyThenBlank(m, dst, src, length, columns, erase)
  {
    assert n[..dst + length] == m[..dst] + m[src..src + length];
    assert n[dst + length + 2 * columns..] == m[dst + length + 2 * columns..];
  }

  /** The scrolling block that runs downwards: std; rep movsl; addl $2; rep stosw. */
  method CopyDown(mem: array<byte>, end: nat, count: nat, columns: nat, erase: Cell)
    requires 4 * count + 2 * columns <= end <= mem.Length && 4 <= end && 0 < columns
    modifies mem
    ensures mem[..] == BlankThenCopy(old(mem[..]), end, 4 * count, columns, erase)
  {
    hide Copied, BlankThenCopy, BlankBytes;
    ghost var m := mem[..];
    RepMovslDown(mem, end - 4, end - 2 * columns - 4, count);
    ghost var n := mem[..];
    RepStoswDown(mem, end - 4 - 4 * count + 2, erase, columns);
    MovedThenBlanked(m, n, mem[..], end, 4 * count, columns, erase);
  }

  lemma MovedThenBlanked(m: seq<byte>, n: seq<byte>, r: seq<byte>, end: nat, length: nat, columns: nat, erase: Cell)
    requires length + 2 * columns <= end <= |m|
    requires n == Copied(m, end - length, end - 2 * columns - length, length)
    requires r == n[..end - length - 2 * columns] + BlankBytes(columns, erase) + n[end - length..]
    ensures r == BlankThenCopy(m, end, length, columns, erase)
  {
    assert n[..end - length - 2 * columns] == m[..end - length - 2 * columns];
    assert n[end - length..] == m[end - 2 * columns - length..end - 2 * columns] + m[end..];
  }
}
