/** Page tables in physical memory, the hardware's walk through them, and the windows through
    which a self-reference makes the tables themselves visible (arch/x86/mm/page.c). Stated for
    any number of levels and any number of entries per table. */
module PageTables {
  import opened Base
  import opened Arith

  /** The flag bits of an entry (arch/x86/include/asm/page.h). */
  datatype Flag = Present | Rw | User | Pwt | Pcd | Accessed | Dirty | Pse | Global | Self | Xd

  /** A table entry: the address bits as a frame number, and the flag bits. */
  datatype Entry = Entry(frame: nat, flags: set<Flag>)

  const ZERO := Entry(0, {})

  /** Tables by the frame that holds them. */
  type Memory = map<nat, seq<Entry>>

  predicate IsPresent(e: Entry) { Present in e.flags }

  predicate IsUser(e: Entry) { Present in e.flags && User in e.flags }

  /** The entry at index `s` of the table in frame `f`. */
  function At(mem: Memory, f: nat, s: nat): Entry {
    if f in mem && s < |mem[f]| then mem[f][s] else ZERO
  }

  /** The frame that `q`, read as `d` digits in base `n` from the most significant, leads to from
      the table in frame `root`: for `d` levels this is the hardware's translation of page `q`
      (sections 4.3 and 4.5 of the Intel SDM, volume 3A), for fewer it is the table on the way. */
  function Walk(mem: Memory, root: nat, q: nat, d: nat, n: nat): Option<nat>
    requires n > 0
    decreases d
  {
    if d == 0 then Some(root)
    else
      match Walk(mem, root, q / n, d - 1, n)
      case None => None
      case Some(f) =>
        var e := At(mem, f, q % n);
        if IsPresent(e) then Some(e.frame) else None
  }

  /** Walking through the digits of `a` and then through those of `b`. */
  lemma {:induction false} WalkSplit(mem: Memory, root: nat, a: nat, d: nat, b: nat, e: nat, n: nat)
    requires n > 0 && b < Pow(n, e)
    ensures Walk(mem, root, a * Pow(n, e) + b, d + e, n)
      == match Walk(mem, root, a, d, n) case None => None case Some(f) => Walk(mem, f, b, e, n)
    decreases e
  {
    if e > 0 {
      SplitDigit(a, b, n, Pow(n, e - 1));
      WalkSplit(mem, root, a, d, b / n, e - 1, n);
    }
  }

  lemma SplitDigit(a: nat, b: nat, n: nat, p: nat)
    requires n > 0 && b < n * p
    ensures 0 <= b / n < p && a * (n * p) + b >= 0
    ensures (a * (n * p) + b) / n == a * p + b / n && (a * (n * p) + b) % n == b % n
  {
    DivModDef(b, n);
    var k, r := b / n, b % n;
    MulCancelLess(k, p, n);
    TimesBase(a, n, p, k, r);
    DivModUnique(a * (n * p) + b, n, a * p + k, r);
  }

  lemma TimesBase(a: int, n: int, p: int, k: int, r: int)
    ensures a * (n * p) + (k * n + r) == (a * p + k) * n + r
  {
    assert (a * p + k) * n == a * p * n + k * n;
    MulAssoc(a, p, n);
  }

  /** A path of last slots stays at a root whose last slot refers to the root. */
  lemma {:induction false} WalkSelf(mem: Memory, root: nat, d: nat, n: nat)
    requires n > 0 && IsPresent(At(mem, root, n - 1)) && At(mem, root, n - 1).frame == root
    ensures Walk(mem, root, Pow(n, d) - 1, d, n) == Some(root)
  {
    if d > 0 {
      var p := Pow(n, d - 1);
      DivModUnique(n * p - 1, n, p - 1, n - 1);
      WalkSelf(mem, root, d - 1, n);
    }
  }

  /** A path of last slots with the last-but-one at the end leads to the other root. */
  lemma WalkOther(mem: Memory, root: nat, d: nat, n: nat)
    requires n > 1 && IsPresent(At(mem, root, n - 1)) && At(mem, root, n - 1).frame == root
    requires IsPresent(At(mem, root, n - 2))
    ensures Walk(mem, root, Pow(n, d + 1) - 2, d + 1, n) == Some(At(mem, root, n - 2).frame)
  {
    var p := Pow(n, d);
    DivModUnique(n * p - 2, n, p - 1, n - 2);
    WalkSelf(mem, root, d, n);
  }

  // The windows.

  /** The two paging modes: entries per table and levels. */
  datatype Mode = X86_32 | X86_64 {
    function Entries(): nat { if X86_32? then 1024 else 512 }
    function Levels(): nat { if X86_32? then 2 else 4 }
    function EntrySize(): nat { if X86_32? then 4 else 8 }
    /** Bits of a linear address that the walk looks at: the rest is its sign extension. */
    function Span(): nat { if X86_32? then 0x1_0000_0000 else 0x1_0000_0000_0000 }
    /** Addresses are computed modulo this. */
    function Word(): nat { if X86_32? then 0x1_0000_0000 else 0x1_0000_0000_0000_0000 }
    /** Access to any other address faults. */
    predicate Canonical(addr: nat) {
      addr < Word() && (X86_32? || addr < 0x8000_0000_0000 || addr >= 0xFFFF_8000_0000_0000)
    }
  }

  /** The table `self` of the source. */
  function SelfBase(m: Mode, lvl: nat): nat
    requires lvl < m.Levels()
  {
    if m.X86_32? then [0xFFC00000, 0xFFFFF000][lvl]
    else [0xFFFFFF8000000000, 0xFFFFFFFFC0000000, 0xFFFFFFFFFFE00000, 0xFFFFFFFFFFFFF000][lvl]
  }

  /** The table `other` of the source. */
  function OtherBase(m: Mode, lvl: nat): nat
    requires lvl < m.Levels()
  {
    if m.X86_32? then [0xFF800000, 0xFFFFE000][lvl]
    else [0xFFFFFF0000000000, 0xFFFFFFFF80000000, 0xFFFFFFFFFFC00000, 0xFFFFFFFFFFFFE000][lvl]
  }

  /** The page of a linear address and the offset in it, as the walk sees them. */
  function PageOf(m: Mode, addr: nat): nat { addr % m.Span() / PAGE_SIZE }

  function OffsetOf(addr: nat): nat { addr % PAGE_SIZE }

  /** Entry `i` of level `lvl`: the table it is in and its place there. */
  function TableOf(mem: Memory, root: nat, lvl: nat, i: nat, n: nat, levels: nat): Option<nat>
    requires n > 0 && lvl < levels
  {
    Walk(mem, root, i / n, levels - 1 - lvl, n)
  }

  /** The numbers in the source are what the levels call for. */
  lemma WindowBases(m: Mode, lvl: nat)
    requires lvl < m.Levels()
    ensures var n, L := m.Entries(), m.Levels();
      && SelfBase(m, lvl) % m.Span() == (Pow(n, lvl + 1) - 1) * Pow(n, L - 1 - lvl) * PAGE_SIZE
      && OtherBase(m, lvl) % m.Span() == (Pow(n, lvl + 1) - 2) * Pow(n, L - 1 - lvl) * PAGE_SIZE
      && Pow(n, L) * PAGE_SIZE == m.Span()
  {
    Powers();
    hide Pow;
    assert lvl == 0 || lvl == 1 || lvl == 2 || lvl == 3;
  }

  lemma Powers()
    ensures Pow(1024, 0) == 1 && Pow(1024, 1) == 0x400 && Pow(1024, 2) == 0x10_0000
    ensures Pow(512, 0) == 1 && Pow(512, 1) == 0x200 && Pow(512, 2) == 0x4_0000
    ensures Pow(512, 3) == 0x800_0000 && Pow(512, 4) == 0x10_0000_0000
  {
    assert Pow(512, 4) == 512 * Pow(512, 3);
  }

  /** The address of entry `i` of a window that starts at `base`. */
  function EntryAddr(m: Mode, base: nat, i: nat): nat { base + i * m.EntrySize() }

  /** Where such an address falls, when the window is `a` times the pages of the level. */
  lemma WindowPage(m: Mode, base: nat, a: nat, lvl: nat, i: nat)
    requires lvl < m.Levels()
    requires base % m.Span() == a * Pow(m.Entries(), m.Levels() - 1 - lvl) * PAGE_SIZE
    requires a < Pow(m.Entries(), lvl + 1) && i < Pow(m.Entries(), m.Levels() - lvl)
    ensures var n, p := m.Entries(), Pow(m.Entries(), m.Levels() - 1 - lvl);
      && PageOf(m, EntryAddr(m, base, i)) == a * p + i / n && i / n < p
      && OffsetOf(EntryAddr(m, base, i)) == i % n * m.EntrySize()
  {
    var n, size, p := m.Entries(), m.EntrySize(), Pow(m.Entries(), m.Levels() - 1 - lvl);
    WindowBases(m, lvl);
    PowAdd(n, lvl + 1, m.Levels() - 1 - lvl);
    assert Pow(n, m.Levels() - lvl) == n * p;
    var rows := Pow(n, lvl + 1);
    hide Pow;
    var k, off := i / n, i % n * size;
    EntryInPage(i, n, size, p);
    BelowSpan(a, rows, p, k, off);
    AddBelow(base, i * size, m.Span());
    DivModUnique((a * p + k) * PAGE_SIZE + off, PAGE_SIZE, a * p + k, off);
    SpanOffset(m, EntryAddr(m, base, i));
  }

  lemma EntryInPage(i: nat, n: nat, size: nat, p: nat)
    requires n > 0 && n * size == PAGE_SIZE && i < n * p
    ensures 0 <= i / n < p && i * size == i / n * PAGE_SIZE + i % n * size && 0 <= i % n * size < PAGE_SIZE
  {
    DivModDef(i, n);
    RowAndColumn(i, i / n, i % n, n, size, p);
  }

  lemma RowAndColumn(i: nat, k: nat, r: nat, n: nat, size: nat, p: nat)
    requires i == k * n + r && r < n && n * size == PAGE_SIZE && i < n * p
    ensures k < p && i * size == k * PAGE_SIZE + r * size && r * size < PAGE_SIZE
  {
    MulCancelLess(k, p, n);
    MulStrict(r, n, size);
    assert (k * n + r) * size == k * n * size + r * size;
    MulAssoc(k, n, size);
  }

  lemma BelowSpan(a: nat, rows: nat, p: nat, k: nat, off: nat)
    requires a < rows && k < p && off < PAGE_SIZE
    ensures a * p * PAGE_SIZE + k * PAGE_SIZE + off == (a * p + k) * PAGE_SIZE + off < rows * p * PAGE_SIZE
  {
    MulMonotone(a + 1, rows, p);
    assert (a + 1) * p == a * p + p;
  }

  lemma AddBelow(base: nat, x: nat, span: nat)
    requires span > 0 && base % span + x < span
    ensures (base + x) % span == base % span + x
  {
    DivModDef(base, span);
    DivModUnique(base + x, span, base / span, base % span + x);
  }

  lemma SpanOffset(m: Mode, addr: nat)
    ensures addr % m.Span() % PAGE_SIZE == addr % PAGE_SIZE
  {
    var k := m.Span() / PAGE_SIZE;
    var q, r := addr / m.Span(), addr % m.Span();
    DivModUnique(addr, PAGE_SIZE, q * k + r / PAGE_SIZE, r % PAGE_SIZE);
  }

  /** With the root's last slot referring to the root, the address of `self[lvl][i]` translates to
      the table that holds entry i of level lvl, at exactly that entry; it faults exactly if
      that table is not there. */
  lemma SelfWindow(mem: Memory, root: nat, m: Mode, lvl: nat, i: nat)
    requires lvl < m.Levels() && i < Pow(m.Entries(), m.Levels() - lvl)
    requires IsPresent(At(mem, root, m.Entries() - 1)) && At(mem, root, m.Entries() - 1).frame == root
    ensures var n, L, addr := m.Entries(), m.Levels(), EntryAddr(m, SelfBase(m, lvl), i);
      && Walk(mem, root, PageOf(m, addr), L, n) == TableOf(mem, root, lvl, i, n, L)
      && OffsetOf(addr) == i % n * m.EntrySize()
  {
    var n, L := m.Entries(), m.Levels();
    hide Pow, Walk;
    WindowBases(m, lvl);
    WindowPage(m, SelfBase(m, lvl), Pow(n, lvl + 1) - 1, lvl, i);
    WalkSplit(mem, root, Pow(n, lvl + 1) - 1, lvl + 1, i / n, L - 1 - lvl, n);
    WalkSelf(mem, root, lvl + 1, n);
  }

  lemma TwoOrMore(n: nat, lvl: nat)
    requires n >= 2
    ensures Pow(n, lvl + 1) >= 2
  {
    MulMonotone(1, Pow(n, lvl), n);
  }

  /** With the last-but-one slot referring to another root, `other[lvl][i]` is the same entry of
      the other tree. */
  lemma OtherWindow(mem: Memory, root: nat, m: Mode, lvl: nat, i: nat)
    requires lvl < m.Levels() && i < Pow(m.Entries(), m.Levels() - lvl)
    requires IsPresent(At(mem, root, m.Entries() - 1)) && At(mem, root, m.Entries() - 1).frame == root
    requires IsPresent(At(mem, root, m.Entries() - 2))
    ensures var n, L, addr := m.Entries(), m.Levels(), EntryAddr(m, OtherBase(m, lvl), i);
      && Walk(mem, root, PageOf(m, addr), L, n) == TableOf(mem, At(mem, root, n - 2).frame, lvl, i, n, L)
      && OffsetOf(addr) == i % n * m.EntrySize()
  {
    hide Pow, Walk, At;
    var n, L := m.Entries(), m.Levels();
    TwoOrMore(n, lvl);
    WindowBases(m, lvl);
    WindowPage(m, OtherBase(m, lvl), Pow(n, lvl + 1) - 2, lvl, i);
    WalkSplit(mem, root, Pow(n, lvl + 1) - 2, lvl + 1, i / n, L - 1 - lvl, n);
    WalkOther(mem, root, lvl, n);
  }
}
