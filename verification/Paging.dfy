/** setup_paging(): five pages at the start of memory that map the first 16 MB onto themselves. */
module Paging {
  import opened Machine

  const PAGE: nat := 0x1000
  const PG_DIR: nat := 0
  const PG0: nat := 0x1000
  const PG1: nat := 0x2000
  const PG2: nat := 0x3000
  const PG3: nat := 0x4000
  const MAPPED: nat := 0x100_0000

  /** Double word `i` of memory, lowest byte first. */
  function Dword(m: seq<byte>, i: nat): (w: uint32)
    requires 4 * i + 4 <= |m|
  {
    var a: int, b: int, c: int, d: int := m[4 * i], m[4 * i + 1], m[4 * i + 2], m[4 * i + 3];
    a + 0x100 * b + 0x1_0000 * c + 0x100_0000 * d
  }

  /** mov dword [4 * i], w */
  method StoreDword(mem: array<byte>, i: nat, w: uint32)
    requires 4 * i + 4 <= mem.Length
    modifies mem
    ensures Dword(mem[..], i) == w
    ensures forall j :: 0 <= j < mem.Length / 4 && j != i ==> Dword(mem[..], j) == old(Dword(mem[..], j))
    ensures forall a :: 0 <= a < mem.Length && !(4 * i <= a < 4 * i + 4) ==> mem[a] == old(mem[a])
  {
    var low, high := w % 0x1_0000, w / 0x1_0000;
    mem[4 * i], mem[4 * i + 1] := low % 0x100, low / 0x100;
    mem[4 * i + 2], mem[4 * i + 3] := high % 0x100, high / 0x100;
  }

  /** cld; rep stosb of zeros. */
  method ClearBytes(mem: array<byte>, start: nat, count: nat)
    requires start + count <= mem.Length
    modifies mem
    ensures forall a :: start <= a < start + count ==> mem[a] == 0
    ensures forall a :: 0 <= a < start || start + count <= a < mem.Length ==> mem[a] == old(mem[a])
  {
    for k := 0 to count
      invariant forall a :: start <= a < start + k ==> mem[a] == 0
      invariant forall a :: 0 <= a < start || start + k <= a < mem.Length ==> mem[a] == old(mem[a])
    {
      mem[start + k] := 0;
    }
  }

  /** The four present directory entries, then zeros. */
  function DirectoryEntry(i: nat): (w: uint32) {
    if i == 0 then PG0 + 7 else if i == 1 then PG1 + 7 else if i == 2 then PG2 + 7 else if i == 3 then PG3 + 7 else 0
  }

  ghost predicate DirectorySet(m: seq<byte>) {
    PG0 <= |m| && forall i :: 0 <= i < 1024 ==> Dword(m, i) == DirectoryEntry(i)
  }

  /** Entry `j` of the four tables, taken as one. */
  ghost predicate TablesSet(m: seq<byte>, from: nat) {
    PG3 + PAGE <= |m| && forall j :: from <= j < 4096 ==> Dword(m, 1024 + j) == 0x1000 * j + 7
  }

  /**
   The clearing loop counts bytes, so it covers the directory and a quarter of the first table,
   not five pages.
   */
  method SetDirectory(mem: array<byte>)
    requires PG3 + PAGE <= mem.Length
    modifies mem
    ensures DirectorySet(mem[..])
    ensures forall a :: 1024 * 5 <= a < mem.Length ==> mem[a] == old(mem[a])
  {
    ClearBytes(mem, PG_DIR, 1024 * 5);
    StoreDword(mem, 0, PG0 + 7);
    StoreDword(mem, 1, PG1 + 7);
    StoreDword(mem, 2, PG2 + 7);
    StoreDword(mem, 3, PG3 + 7);
  }

  lemma NoTables(m: seq<byte>)
    requires PG3 + PAGE <= |m|
    ensures TablesSet(m, 4096)
  {
  }

  /** stosd of entry `j`, the entries behind it being set. */
  method StoreEntry(mem: array<byte>, edi: nat, eax: uint32, ghost j: nat)
    requires PG3 + PAGE <= mem.Length && DirectorySet(mem[..]) && TablesSet(mem[..], j + 1)
    requires j < 4096 && edi == PG0 + 4 * j && eax == 0x1000 * j + 7
    modifies mem
    ensures DirectorySet(mem[..]) && TablesSet(mem[..], j)
    ensures forall a :: PG3 + PAGE <= a < mem.Length ==> mem[a] == old(mem[a])
  {
    StoreDword(mem, edi / 4, eax);
  }

  /** std; from the last entry of pg3 downwards until eax goes negative. */
  method FillTables(mem: array<byte>) returns (stores: nat, edi: int)
    requires PG3 + PAGE <= mem.Length && DirectorySet(mem[..])
    modifies mem
    ensures DirectorySet(mem[..]) && TablesSet(mem[..], 0)
    ensures stores == 4096 && edi == PG0 - 4
    ensures forall a :: PG3 + PAGE <= a < mem.Length ==> mem[a] == old(mem[a])
  {
    hide TablesSet, DirectorySet;
    edi := PG3 + 4092;
    NoTables(mem[..]);
    var eax := 0xfff007;
    stores := 0;
    while true
      invariant 0 <= stores < 4096
      invariant edi == PG3 + 4092 - 4 * stores && eax == 0xfff007 - 0x1000 * stores
      invariant DirectorySet(mem[..]) && TablesSet(mem[..], 4096 - stores)
      invariant forall a :: PG3 + PAGE <= a < mem.Length ==> mem[a] == old(mem[a])
      decreases eax
    {
      StoreEntry(mem, edi, eax, 4095 - stores);
      edi := edi - 4;
      stores := stores + 1;
      eax := eax - 0x1000;
      if eax < 0 {
        break;
      }
    }
  }

  datatype Walk = NotPresent | Mapped(address: nat, directoryFlags: nat, tableFlags: nat)

  /** An entry read by the walk; memory that does not exist holds no present entry. */
  function EntryAt(m: seq<byte>, i: nat): (w: uint32) {
    if 4 * i + 4 <= |m| then Dword(m, i) else 0
  }

  /** The two-level walk with 4 KB pages, from the directory in cr3. */
  function Translate(m: seq<byte>, cr3: nat, linear: uint32): (w: Walk) {
    var pde := EntryAt(m, cr3 / 4 + linear / 0x40_0000);
    if pde % 2 == 0 then NotPresent
    else
      var pte := EntryAt(m, pde / PAGE * 1024 + linear / PAGE % 1024);
      if pte % 2 == 0 then NotPresent
      else Mapped(pte / PAGE * PAGE + linear % PAGE, pde % PAGE, pte % PAGE)
  }

  /** Below 16 MB an address is itself, with both entries present, writable and for users. */
  function Identity(linear: uint32): (w: Walk) {
    if linear < MAPPED then Mapped(linear, 7, 7) else NotPresent
  }

  lemma SplitAddress(linear: uint32)
    requires linear < MAPPED
    ensures var i, j := linear / 0x40_0000, linear / PAGE;
            && i < 4 && j < 4096 && j == 1024 * i + j % 1024 && linear == PAGE * j + linear % PAGE
            && DirectoryEntry(i) / PAGE * 1024 + j % 1024 == 1024 + j
            && DirectoryEntry(i) % 2 == 1 && DirectoryEntry(i) % PAGE == 7
  {
    var i, j := linear / 0x40_0000, linear / PAGE;
    assert DirectoryEntry(i) == PAGE * (i + 1) + 7;
  }

  lemma EntryParts(j: nat)
    ensures (PAGE * j + 7) % 2 == 1 && (PAGE * j + 7) / PAGE == j && (PAGE * j + 7) % PAGE == 7
  {
  }

  /** The first entry, byte by byte: page 1, flags 7, lowest byte first. */
  lemma FirstEntryBytes(m: seq<byte>)
    requires DirectorySet(m)
    ensures m[0] == 7 && m[1] == 0x10 && m[2] == 0 && m[3] == 0
  {
    assert Dword(m, 0) == 0x1007;
  }

  lemma WalkIsIdentity(m: seq<byte>, linear: uint32)
    requires DirectorySet(m) && TablesSet(m, 0)
    ensures Translate(m, PG_DIR, linear) == Identity(linear)
  {
    assert EntryAt(m, linear / 0x40_0000) == DirectoryEntry(linear / 0x40_0000);
    if linear < MAPPED {
      SplitAddress(linear);
      var j := linear / PAGE;
      EntryParts(j);
      assert EntryAt(m, 1024 + j) == PAGE * j + 7;
    } else {
      assert DirectoryEntry(linear / 0x40_0000) == 0;
    }
  }

  /** After setup_paging every linear address below 16 MB is itself, and no other is mapped. */
  method SetupPaging(mem: array<byte>) returns (cr3: nat, stores: nat)
    requires PG3 + PAGE <= mem.Length
    modifies mem
    ensures cr3 == PG_DIR && stores == 4096
    ensures forall linear: uint32 :: Translate(mem[..], cr3, linear) == Identity(linear)
    ensures mem[0] == 7 && mem[1] == 0x10 && mem[2] == 0 && mem[3] == 0
    ensures forall a :: PG3 + PAGE <= a < mem.Length ==> mem[a] == old(mem[a])
  {
    SetDirectory(mem);
    var edi;
    stores, edi := FillTables(mem);
    FirstEntryBytes(mem[..]);
    cr3 := PG_DIR;
    forall linear: uint32
      ensures Translate(mem[..], cr3, linear) == Identity(linear)
    {
      WalkIsIdentity(mem[..], linear);
    }
  }
}
