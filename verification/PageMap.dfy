/** Mapping and unmapping of page ranges (arch/x86/mm/page.c), on tables reached through the
    self-reference window: `self[lvl][i]` is entry i of level lvl. */
module PageMap {
  import opened Base
  import opened Arith
  import opened PageTables
  import opened PageTree
  import opened PageCount

  // The tables that the kernel boots with.

  /** The table at depth `d` of a chain of tables: the first slot leads to the next table, the last
      one back to the root. */
  function ChainTable(tables: seq<nat>, d: nat, n: nat): seq<Entry>
    requires d + 1 < |tables| && n > 1
  {
    [Entry(tables[d + 1], {Present, Global, Rw, User})] + Zeros(n - 2) + [Entry(tables[0], {Present, Global, Rw, Self})]
  }

  /** The memory holds such a chain; the last table, `leaves`, is about pages. */
  ghost predicate BootChain(mem: Memory, tables: seq<nat>, leaves: seq<Entry>, n: nat) {
    && n > 1 && |tables| > 1 && |leaves| == n
    && (forall i, j | 0 <= i < j < |tables| :: tables[i] != tables[j])
    && (forall d: nat | d + 1 < |tables| :: tables[d] in mem && mem[tables[d]] == ChainTable(tables, d, n))
    && tables[|tables| - 1] in mem && mem[tables[|tables| - 1]] == leaves
  }

  /** The first `k` tables of the chain. */
  function BootMemory(tables: seq<nat>, leaves: seq<Entry>, n: nat, k: nat): Memory
    requires k <= |tables| && n > 1
  {
    if k == 0 then map[]
    else
      var table := if k < |tables| then ChainTable(tables, k - 1, n) else leaves;
      BootMemory(tables, leaves, n, k - 1)[tables[k - 1] := table]
  }

  lemma {:induction false} BootMemoryIs(tables: seq<nat>, leaves: seq<Entry>, n: nat, k: nat)
    requires k <= |tables| && n > 1 && forall i, j | 0 <= i < j < |tables| :: tables[i] != tables[j]
    ensures var mem := BootMemory(tables, leaves, n, k);
      && (forall f | f in mem :: f in tables)
      && forall d: nat | d < k :: tables[d] in mem
           && mem[tables[d]] == if d + 1 < |tables| then ChainTable(tables, d, n) else leaves
  {
    hide ChainTable;
    if k > 0 { BootMemoryIs(tables, leaves, n, k - 1); }
  }

  lemma BootMemoryChain(tables: seq<nat>, leaves: seq<Entry>, n: nat)
    requires n > 1 && |tables| > 1 && |leaves| == n && forall i, j | 0 <= i < j < |tables| :: tables[i] != tables[j]
    ensures BootChain(BootMemory(tables, leaves, n, |tables|), tables, leaves, n)
    ensures forall f | f in BootMemory(tables, leaves, n, |tables|) :: f in tables
  {
    hide BootMemory, ChainTable;
    BootMemoryIs(tables, leaves, n, |tables|);
  }

  lemma ChainAt(mem: Memory, tables: seq<nat>, leaves: seq<Entry>, n: nat, d: nat, s: nat)
    requires n > 1 && BootChain(mem, tables, leaves, n) && d + 1 < |tables| && s < n
    ensures var e := At(mem, tables[d], s);
      if s == 0 then IsPresent(e) && e.frame == tables[d + 1] && Self !in e.flags
      else if s == n - 1 then IsPresent(e) && e.frame == tables[0] && Self in e.flags
      else e == ZERO
  {}

  /** The only plain path to a table goes through the first slots. */
  lemma {:induction false} ChainPath(mem: Memory, tables: seq<nat>, leaves: seq<Entry>, n: nat, q: nat, d: nat)
    requires n > 1 && BootChain(mem, tables, leaves, n) && d < |tables|
    requires PlainPath(mem, tables[0], q, d, n) && Walk(mem, tables[0], q, d, n).Some?
    ensures q == 0 && Walk(mem, tables[0], q, d, n) == Some(tables[d])
    decreases d
  {
    hide BootChain, At;
    if d > 0 {
      ChainPath(mem, tables, leaves, n, q / n, d - 1);
      ChainAt(mem, tables, leaves, n, d - 1, q % n);
      DivModDef(q, n);
    }
  }

  /** The boot tables are as the operations need them, in both modes. */
  lemma BootTree(mem: Memory, tables: seq<nat>, leaves: seq<Entry>, n: nat)
    requires BootChain(mem, tables, leaves, n)
    ensures Tree(mem, tables[0], n, |tables|) && SelfMapped(mem, tables[0], n)
  {
    hide PlainPath, Walk;
    ChainAt(mem, tables, leaves, n, 0, n - 1);
    forall q: nat, d: nat, f | IsTable(mem, tables[0], n, |tables|, q, d, f) ensures q == 0 && f == tables[d] {
      ChainPath(mem, tables, leaves, n, q, d);
    }
  }

  /** No digit is the last one of the base. */
  predicate NoLastDigit(q: nat, d: nat, n: nat)
    requires n > 0
    decreases d
  {
    if d == 0 then q == 0 else q % n != n - 1 && NoLastDigit(q / n, d - 1, n)
  }

  /** The paths to tables that do not go through a last slot are plain. */
  lemma {:induction false} BootPath(mem: Memory, tables: seq<nat>, leaves: seq<Entry>, n: nat, q: nat, d: nat)
    requires n > 1 && BootChain(mem, tables, leaves, n) && d < |tables| && NoLastDigit(q, d, n)
    ensures PlainPath(mem, tables[0], q, d, n)
    decreases d
  {
    hide BootChain, At;
    if d > 0 {
      BootPath(mem, tables, leaves, n, q / n, d - 1);
      if Walk(mem, tables[0], q / n, d - 1, n).Some? {
        ChainPath(mem, tables, leaves, n, q / n, d - 1);
        ChainAt(mem, tables, leaves, n, d - 1, q % n);
      }
    }
  }

  /** So are the pages whose table is reached in that way, whatever their last index, when the lowest
      table refers to no root. */
  lemma BootPlain(mem: Memory, tables: seq<nat>, leaves: seq<Entry>, n: nat, q: nat)
    requires n > 1 && BootChain(mem, tables, leaves, n) && NoLastDigit(q / n, |tables| - 1, n)
    requires forall s | 0 <= s < n :: Self !in leaves[s].flags
    ensures PlainPath(mem, tables[0], q, |tables|, n)
  {
    var d := |tables| - 1;
    BootPath(mem, tables, leaves, n, q / n, d);
    if Walk(mem, tables[0], q / n, d, n).Some? {
      ChainPath(mem, tables, leaves, n, q / n, d);
      assert At(mem, tables[d], q % n) == leaves[q % n];
    }
  }

  lemma BootUserTables(mem: Memory, tables: seq<nat>, leaves: seq<Entry>, n: nat)
    requires n > 1 && BootChain(mem, tables, leaves, n) && forall s | 0 <= s < n :: Self !in leaves[s].flags
    ensures UserTables(mem, tables[0], n, |tables|)
  {
    hide PlainPath, Walk;
    forall q: nat, d: nat, f: nat | IsTable(mem, tables[0], n, |tables|, q, d, f)
      ensures UserSlots(mem, f, n, d + 1 < |tables|)
    {
      ChainPath(mem, tables, leaves, n, q, d);
    }
  }

  /** A page that is not plain: of the four boot tables the second one, seen through its own last
      slot. What is written to that table changes the page. */
  lemma BootWindow(mem: Memory, tables: seq<nat>, leaves: seq<Entry>, n: nat, b: nat)
    requires n > 1 && BootChain(mem, tables, leaves, n) && |tables| == 4 && b < n
    ensures var q := (n - 1) * n * n + b;
      PageEntry(mem, tables[0], q, n, 4) == At(mem, tables[1], b) && !PlainPath(mem, tables[0], q, 4, n)
  {
    var q := (n - 1) * n * n + b;
    DivModUnique(q, n, (n - 1) * n, b);
    DivModUnique((n - 1) * n, n, n - 1, 0);
    DivModUnique(n - 1, n, 0, n - 1);
    DivModUnique(0, n, 0, 0);
    ChainAt(mem, tables, leaves, n, 0, 0);
    ChainAt(mem, tables, leaves, n, 1, n - 1);
    hide BootChain, At;
    var root := tables[0];
    assert Walk(mem, root, 0, 1, n) == Some(tables[1]);
    assert Walk(mem, root, n - 1, 2, n) == Some(root) && !PlainPath(mem, root, n - 1, 2, n);
    assert Walk(mem, root, (n - 1) * n, 3, n) == Some(tables[1]) && !PlainPath(mem, root, (n - 1) * n, 3, n);
  }

  class AddressSpace {
    const n: nat
    const levels: nat
    var mem: Memory
    var root: nat
    var free: set<nat>
    var usage: int

    ghost predicate Valid()
      reads this
    {
      && n > 1 && levels > 0 && Tree(mem, root, n, levels) && SelfMapped(mem, root, n)
      && free !! mem.Keys && 0 !in free
    }

    /** The tables of the boot code, for either mode. */
    constructor Boot(m: Mode, tables: seq<nat>, leaves: seq<Entry>, free: set<nat>)
      requires |tables| == m.Levels() && |leaves| == m.Entries() && (free !! set f | f in tables) && 0 !in free
      requires forall i, j | 0 <= i < j < |tables| :: tables[i] != tables[j]
      ensures Valid() && n == m.Entries() && levels == m.Levels() && root == tables[0] && this.free == free
      ensures usage == 0 && BootChain(mem, tables, leaves, n)
      ensures (forall s | 0 <= s < n :: Self !in leaves[s].flags) ==>
        AllUser() && forall q: nat | NoLastDigit(q / n, levels - 1, n) :: Plain(0, q)
    {
      hide Tree, SelfMapped, PlainPath, BootChain, NoLastDigit, BootMemory;
      n, levels, root, usage := m.Entries(), m.Levels(), tables[0], 0;
      this.free := free;
      mem := BootMemory(tables, leaves, m.Entries(), |tables|);
      new;
      BootMemoryChain(tables, leaves, n);
      BootTree(mem, tables, leaves, n);
      hide UserTables;
      if forall s | 0 <= s < n :: Self !in leaves[s].flags {
        BootUserTables(mem, tables, leaves, n);
        forall q: nat | NoLastDigit(q / n, levels - 1, n) ensures Plain(0, q) { BootPlain(mem, tables, leaves, n, q); }
      }
    }

    /** Entry `i` of level `lvl` lies outside the windows: no reference to a root leads there. */
    predicate Plain(lvl: nat, i: nat)
      requires n > 0 && lvl <= levels
      reads this`mem, this`root
    {
      PlainAt(mem, root, lvl, i, n, levels)
    }

    /** `self[0][q]`. */
    function Page(q: nat): Entry
      requires n > 0 && levels > 0
      reads this`mem, this`root
    {
      PageEntry(mem, root, q, n, levels)
    }

    /** The table that holds `self[lvl][i]`. */
    function Table(lvl: nat, i: nat): Option<nat>
      requires n > 0 && lvl < levels
      reads this`mem, this`root
    {
      TableOf(mem, root, lvl, i, n, levels)
    }

    /** The number of tables. */
    function Tables(): nat
      reads this`mem
    {
      |mem|
    }

    /** The user entries of the tables, which `page_map_drop` takes off the usage. */
    ghost function UserEntries(): nat
      requires levels > 0
      reads this`mem, this`root
    {
      Owned(mem, root, levels - 1, n, n)
    }

    ghost predicate AllUser()
      requires n > 0
      reads this`mem, this`root
    {
      UserTables(mem, root, n, levels)
    }

    /** How many of the `k` pages from `lo` on are user pages. */
    ghost function UserPages(lo: nat, k: nat): nat
      requires n > 0 && levels > 0
      reads this`mem, this`root
    {
      UsersIn(Pages(lo, k))
    }

    ghost function Pages(lo: nat, k: nat): (s: seq<Entry>)
      requires n > 0 && levels > 0
      reads this`mem, this`root
      ensures |s| == k && forall j: nat | j < k :: s[j] == Page(lo + j)
    {
      PageEntries(mem, root, lo, k, n, levels)
    }

    /** The index of page `v` at level `lvl`. */
    function Index(v: nat, lvl: nat): nat
      requires n > 0
    {
      v / Pow(n, lvl)
    }

    lemma IndexUp(v: nat, lvl: nat)
      requires n > 0
      ensures Index(v, 0) == v && Index(v, lvl + 1) == Index(v, lvl) / n
    {
      DivModUnique(v, 1, v, 0);
      DivDiv(v, Pow(n, lvl), n);
    }

    lemma {:induction false} IndexPlain(v: nat, lvl: nat)
      requires n > 0 && lvl <= levels && Plain(0, v)
      ensures Plain(lvl, Index(v, lvl))
    {
      hide Index, PlainPath;
      IndexUp(v, 0);
      if lvl > 0 {
        IndexPlain(v, lvl - 1);
        IndexUp(v, lvl - 1);
        PlainParent(mem, root, Index(v, lvl - 1), levels - (lvl - 1), n);
      }
    }

    /** The pages from `lo` to `hi`, and `hi` in any case. */
    ghost predicate PlainRange(lo: nat, hi: nat)
      requires n > 0
      reads this`mem, this`root
    {
      forall q: nat | lo <= q <= hi || q == hi :: Plain(0, q)
    }

    /** Every index of a range, at any level, is that of a page of the range. */
    lemma PageOfIndex(lo: nat, hi: nat, lvl: nat, i: nat) returns (q: nat)
      requires n > 0 && lo <= hi + 1 && Index(lo, lvl) <= i <= Index(hi, lvl)
      ensures (lo <= q <= hi || q == hi) && Index(q, lvl) == i
    {
      var p := Pow(n, lvl);
      DivModDef(lo, p);
      DivModDef(hi, p);
      MulMonotone(i, hi / p, p);
      if lo > hi {
        DivMonotone(hi, lo, p);
        q := hi;
      } else if i * p < lo {
        MulCancelLess(i, lo / p + 1, p) by { assert (lo / p + 1) * p == lo / p * p + p; }
        q := lo;
      } else {
        DivModUnique(i * p, p, i, 0);
        q := i * p;
      }
    }

    /** The indices of a plain range are plain at every level. */
    lemma Ranges(lo: nat, hi: nat, lvl: nat)
      requires n > 0 && lvl <= levels && lo <= hi + 1 && PlainRange(lo, hi)
      ensures forall i: nat | Index(lo, lvl) <= i <= Index(hi, lvl) :: Plain(lvl, i)
    {
      hide Index, Plain;
      forall i: nat | Index(lo, lvl) <= i <= Index(hi, lvl) ensures Plain(lvl, i) {
        var q := PageOfIndex(lo, hi, lvl, i);
        IndexPlain(q, lvl);
      }
    }

    lemma TopTable(lvl: nat)
      requires n > 0 && lvl + 1 == levels
      ensures forall i: nat :: Table(lvl, i).Some?
    {}

    /** Where every table of a level is there, so is every entry of the next. */
    lemma NextLevel(lo: nat, hi: nat, up: nat, lvl: nat)
      requires n > 0 && up == lvl + 1 < levels
      requires forall i: nat | Index(lo, up) <= i <= Index(hi, up) :: Reached(up, i)
      ensures forall i: nat | Index(lo, lvl) <= i <= Index(hi, lvl) :: Table(lvl, i).Some?
    {
      IndexUp(lo, lvl);
      IndexUp(hi, lvl);
      hide Index, Walk;
      forall i: nat | Index(lo, lvl) <= i <= Index(hi, lvl) ensures Table(lvl, i).Some? {
        DivMonotone(Index(lo, lvl), i, n);
        DivMonotone(i, Index(hi, lvl), n);
        assert Reached(up, i / n);
      }
    }

    /** The address of `self[lvl][i]` reaches entry i of level lvl, or faults where its table is
        missing. */
    lemma SelfReaches(m: Mode, lvl: nat, i: nat)
      requires Valid() && n == m.Entries() && levels == m.Levels() && lvl < levels && i < Pow(n, levels - lvl)
      ensures var addr := EntryAddr(m, SelfBase(m, lvl), i);
        Walk(mem, root, PageOf(m, addr), levels, n) == Table(lvl, i) && OffsetOf(addr) == i % n * m.EntrySize()
    {
      hide Tree, Walk, Pow, At;
      SelfWindow(mem, root, m, lvl, i);
    }

    /** `self[lvl][i]`, above the last level. */
    function SelfEntry(lvl: nat, i: nat): Entry
      requires n > 0 && lvl < levels && Table(lvl, i).Some?
      reads this`mem, this`root
    {
      At(mem, Table(lvl, i).value, i % n)
    }

    lemma PresentReached(lvl: nat, i: nat)
      requires n > 0 && lvl < levels && Table(lvl, i).Some? && IsPresent(SelfEntry(lvl, i))
      ensures Reached(lvl, i)
    {
      hide At;
    }

    /** `get_pages(1)`: some free frame, or failure. */
    method GetFrame() returns (f: Option<nat>)
      modifies this`free
      ensures f.None? <==> old(free) == {}
      ensures f.Some? ==> f.value in old(free) && free == old(free) - {f.value}
      ensures f.None? ==> free == old(free)
    {
      if free == {} { return None; }
      var x :| x in free;
      free := free - {x};
      f := Some(x);
    }

    /** `self[lvl - 1][n * i]` to `self[lvl - 1][n * i + n - 1]` can be accessed. */
    predicate Reached(lvl: nat, i: nat)
      requires n > 0 && lvl <= levels
      reads this`mem, this`root
    {
      Walk(mem, root, i, levels - lvl, n).Some?
    }

    /** Hangs a new empty table under `self[lvl][i]`: the entry, then the clearing through
        `self[lvl - 1]`. */
    method NewTable(lvl: nat, i: nat, e: Entry)
      requires Valid() && 0 < lvl < levels && Plain(lvl, i) && Table(lvl, i).Some?
      requires !IsPresent(SelfEntry(lvl, i)) && IsPresent(e) && Self !in e.flags && e.frame !in mem && e.frame !in free
      modifies this`mem
      ensures Valid() && mem.Keys == old(mem.Keys) + {e.frame} && Tables() == old(Tables()) + 1
      ensures forall l: nat, x: nat | l <= levels :: Plain(l, x) <==> old(Plain(l, x))
      ensures forall q: nat | Plain(0, q) :: Page(q) == old(Page(q))
      ensures forall l: nat, q: nat | l <= levels && Plain(l, q) && old(Reached(l, q)) :: Reached(l, q)
      ensures forall l: nat, x: nat | l < levels && Plain(l, x) && old(Table(l, x)).Some? :: Table(l, x).Some?
      ensures Reached(lvl, i) && Table(lvl, i).Some? && SelfEntry(lvl, i) == e
      ensures IsUser(e) && old(AllUser()) ==> AllUser() && UserEntries() == old(UserEntries()) + 1
    {
      hide UserTables, Owned, PlainPath, Walk, Tree, PageEntry, At, IsTable, TableOf, SelfMapped, CanWrite;
      ghost var was, d := mem, levels - 1 - lvl;
      var f := Table(lvl, i).value;
      TableThere(mem, root, n, levels, lvl, i, f, e);
      GrowKeeps(mem, root, n, levels, i, d, f, e);
      GrowTables(mem, root, n, levels, i, d, f, e);
      GrowSelfMapped(mem, root, n, levels, i, d, f, e);
      GrowThere(mem, root, n, levels, i, d, f, e);
      GrowKeys(mem, f, i % n, e, n);
      if IsUser(e) && AllUser() { GrowOwned(mem, root, n, levels, i, d, f, e); }
      mem := Write(mem, f, i % n, e);
      mem := mem[e.frame := Zeros(n)];
      assert mem == Grow(was, f, i % n, e, n);
      hide Write, Grow;
      assert mem.Keys == was.Keys + {e.frame};
      assert |mem.Keys| == |was.Keys| + 1;
    }

    /** One entry above the last level in `page_map`: puts a table under it unless one is there. */
    method MakeTable(lvl: nat, i: nat, bits: set<Flag>) returns (ok: bool)
      requires Valid() && 0 < lvl < levels && Plain(lvl, i) && Table(lvl, i).Some? && Self !in bits
      modifies this`mem, this`free, this`usage
      ensures Valid() && mem.Keys + free == old(mem.Keys + free)
      ensures forall l: nat, x: nat | l <= levels :: Plain(l, x) <==> old(Plain(l, x))
      ensures forall q: nat | Plain(0, q) :: Page(q) == old(Page(q))
      ensures forall l: nat, q: nat | l <= levels && Plain(l, q) && old(Reached(l, q)) :: Reached(l, q)
      ensures forall l: nat, x: nat | l < levels && Plain(l, x) && old(Table(l, x)).Some? :: Table(l, x).Some?
      ensures usage == old(usage) + if User in bits then Tables() - old(Tables()) else 0
      ensures if ok then Reached(lvl, i) else free == {}
      ensures ok && old(IsPresent(SelfEntry(lvl, i))) ==> mem == old(mem)
      ensures ok && !old(IsPresent(SelfEntry(lvl, i))) ==> Table(lvl, i).Some? && SelfEntry(lvl, i).frame in old(free)
      ensures ok && !old(IsPresent(SelfEntry(lvl, i))) ==>
        SelfEntry(lvl, i).flags == (bits + {Present, User, Rw}) - {Xd}
      ensures old(AllUser()) ==> AllUser() && UserEntries() - old(UserEntries()) == Tables() - old(Tables())
    {
      hide AllUser, UserEntries, SelfMapped, Plain, Table, Tree, Page, SelfEntry, Reached, Tables;
      if IsPresent(SelfEntry(lvl, i)) {
        PresentReached(lvl, i);
        return true;
      }
      var frame := GetFrame();
      if frame.None? { return false; }
      if User in bits { usage := usage + 1; }
      NewTable(lvl, i, Entry(frame.value, (bits + {Present, User, Rw}) - {Xd}));
      ok := true;
    }

    /** One level above the last of `page_map`: a table under every entry from `lo` to `hi`. */
    method MakeTables(lvl: nat, lo: nat, hi: int, bits: set<Flag>) returns (ok: bool)
      requires Valid() && 0 < lvl < levels && Self !in bits
      requires forall i: nat | lo <= i <= hi :: Plain(lvl, i)
      requires forall i: nat | lo <= i <= hi :: Table(lvl, i).Some?
      modifies this`mem, this`free, this`usage
      ensures Valid() && mem.Keys + free == old(mem.Keys + free)
      ensures forall l: nat, x: nat | l <= levels :: Plain(l, x) <==> old(Plain(l, x))
      ensures forall q: nat | Plain(0, q) :: Page(q) == old(Page(q))
      ensures usage == old(usage) + if User in bits then Tables() - old(Tables()) else 0
      ensures if ok then forall i: nat | lo <= i <= hi :: Reached(lvl, i) else free == {}
      ensures old(AllUser()) ==> AllUser() && UserEntries() - old(UserEntries()) == Tables() - old(Tables())
    {
      hide AllUser, UserEntries, SelfMapped, Plain, Tree, Page, Table, Reached, Tables;
      var i := lo;
      while i <= hi
        invariant lo <= i && (i <= hi + 1 || i == lo) && Valid() && mem.Keys + free == old(mem.Keys + free)
        invariant forall l: nat, x: nat | l <= levels :: Plain(l, x) <==> old(Plain(l, x))
        invariant forall q: nat | Plain(0, q) :: Page(q) == old(Page(q))
        invariant usage == old(usage) + if User in bits then Tables() - old(Tables()) else 0
        invariant forall x: nat | lo <= x <= hi :: Table(lvl, x).Some?
        invariant forall x: nat | lo <= x < i :: Reached(lvl, x)
        invariant old(AllUser()) ==> AllUser() && UserEntries() - old(UserEntries()) == Tables() - old(Tables())
      {
        ok := MakeTable(lvl, i, bits);
        if !ok { return; }
        i := i + 1;
      }
      ok := true;
    }

    /** The last level of `page_map`. */
    method MapPages(vpn: nat, frame: nat, npages: nat, bits: set<Flag>)
      requires Valid() && Self !in bits
      requires forall q: nat | vpn <= q < vpn + npages :: Plain(0, q)
      requires forall q: nat | vpn <= q < vpn + npages :: Table(0, q).Some?
      modifies this`mem
      ensures Valid() && mem.Keys == old(mem.Keys) && Tables() == old(Tables())
      ensures forall l: nat, x: nat | l <= levels :: Plain(l, x) <==> old(Plain(l, x))
      ensures forall q: nat | Plain(0, q) ::
        Page(q) == if vpn <= q < vpn + npages then Entry(frame + (q - vpn), bits + {Present}) else old(Page(q))
      ensures old(AllUser()) ==> AllUser()
      ensures old(AllUser()) ==>
        UserEntries() - old(UserEntries()) == (if User in bits then npages else 0) - old(UserPages(vpn, npages))
    {
      hide Pages, UsersIn, AllUser, UserEntries, SelfMapped, Plain, Tree, Page, Table, Tables;
      ghost var was := Pages(vpn, npages);
      NoUsers(was);
      var q, phy := vpn, frame;
      while q < vpn + npages
        invariant vpn <= q <= vpn + npages && phy == frame + (q - vpn)
        invariant Valid() && mem.Keys == old(mem.Keys) && Tables() == old(Tables())
        invariant forall l: nat, x: nat | l <= levels :: Plain(l, x) <==> old(Plain(l, x))
        invariant forall x: nat | Plain(0, x) ::
          Page(x) == if vpn <= x < q then Entry(frame + (x - vpn), bits + {Present}) else old(Page(x))
        invariant forall x: nat | vpn <= x < vpn + npages :: Table(0, x).Some?
        invariant old(AllUser()) ==> AllUser()
        invariant old(AllUser()) ==>
          UserEntries() - old(UserEntries()) == (if User in bits then q - vpn else 0) - UsersIn(was[..q - vpn])
      {
        MoreUsers(was, q - vpn);
        SetPage(q, Entry(phy, bits + {Present}));
        phy := phy + 1;
        q := q + 1;
      }
      assert was[..npages] == was;
    }

    /** `self[0][q] = e`. */
    method SetPage(q: nat, e: Entry)
      requires Valid() && Plain(0, q) && Table(0, q).Some? && Self !in e.flags
      modifies this`mem
      ensures Valid() && mem.Keys == old(mem.Keys) && Tables() == old(Tables())
      ensures forall l: nat, x: nat | l <= levels :: Plain(l, x) <==> old(Plain(l, x))
      ensures forall x: nat | Plain(0, x) :: Page(x) == if x == q then e else old(Page(x))
      ensures forall x: nat | Plain(0, x) :: Table(0, x) == old(Table(0, x))
      ensures old(AllUser()) ==>
        AllUser() && UserEntries() == old(UserEntries()) + One(IsUser(e)) - One(IsUser(old(Page(q))))
    {
      hide UserTables, Owned, PlainPath, Walk, PageEntry, At, Tree, IsTable, TableOf, SelfMapped, CanWrite;
      var f := Table(0, q).value;
      ghost var was := mem;
      TableThere(mem, root, n, levels, 0, q, f, e);
      PageKeepsTree(mem, root, n, levels, q, f, e);
      WriteSelfMapped(mem, root, n, levels, q, levels - 1, f, e);
      if AllUser() { PageOwned(mem, root, n, levels, q, f, e); }
      mem := Write(mem, f, q % n, e);
      assert mem.Keys == was.Keys;
      hide Write;
      forall l: nat, x: nat | l <= levels ensures Plain(l, x) <==> old(Plain(l, x)) {
        PageWalk(was, root, n, levels, q, f, e, x, levels - l);
      }
      forall x: nat | old(Plain(0, x))
        ensures Page(x) == if x == q then e else old(Page(x))
        ensures Table(0, x) == old(Table(0, x))
      {
        PageWriteEntry(was, root, n, levels, q, f, e, x);
        PageWriteTable(was, root, n, levels, q, f, e, x);
      }
    }

    /** The range has its tables at level `lvl`. */
    ghost predicate Tabled(lo: nat, hi: nat, lvl: nat)
      requires n > 0 && lvl < levels
      reads this`mem, this`root
    {
      && (forall i: nat | Index(lo, lvl) <= i <= Index(hi, lvl) :: Plain(lvl, i))
      && (forall i: nat | Index(lo, lvl) <= i <= Index(hi, lvl) :: Table(lvl, i).Some?)
    }

    lemma TopTabled(lo: nat, hi: nat)
      requires Valid() && lo <= hi + 1 && PlainRange(lo, hi)
      ensures Tabled(lo, hi, levels - 1)
    {
      hide SelfMapped, Plain, Tree, Table, Tables, Index;
      Ranges(lo, hi, levels - 1);
      TopTable(levels - 1);
    }

    /** At the lowest level the range has a table for every page. */
    lemma PagesTabled(vpn: nat, npages: nat)
      requires n > 0 && levels > 0 && vpn + npages > 0 && Tabled(vpn, vpn + npages - 1, 0)
      ensures forall q: nat | vpn <= q < vpn + npages :: Plain(0, q)
      ensures forall q: nat | vpn <= q < vpn + npages :: Table(0, q).Some?
    {
      IndexUp(vpn, 0);
      IndexUp(vpn + npages - 1, 0);
      hide Plain, Table;
    }

    /** One turn of the outer loop of `page_map` above the lowest level. */
    method MakeLevel(lo: nat, hi: nat, lvl: nat, bits: set<Flag>) returns (ok: bool)
      requires Valid() && 0 < lvl < levels && Self !in bits
      requires lo <= hi + 1 && PlainRange(lo, hi) && Tabled(lo, hi, lvl)
      modifies this`mem, this`free, this`usage
      ensures Valid() && mem.Keys + free == old(mem.Keys + free)
      ensures forall l: nat, x: nat | l <= levels :: Plain(l, x) <==> old(Plain(l, x))
      ensures forall q: nat | Plain(0, q) :: Page(q) == old(Page(q))
      ensures usage == old(usage) + if User in bits then Tables() - old(Tables()) else 0
      ensures PlainRange(lo, hi) && if ok then Tabled(lo, hi, lvl - 1) else free == {}
      ensures old(AllUser()) ==> AllUser() && UserEntries() - old(UserEntries()) == Tables() - old(Tables())
    {
      hide AllUser, UserEntries, SelfMapped, Plain, Tree, Page, Table, Reached, Tables, Index;
      ok := MakeTables(lvl, Index(lo, lvl), Index(hi, lvl), bits);
      if ok {
        Ranges(lo, hi, lvl - 1);
        NextLevel(lo, hi, lvl, lvl - 1);
      }
    }

    /** `page_map`, for a range outside the windows. */
    method Map(vpn: nat, frame: nat, npages: nat, bits: set<Flag>) returns (ok: bool)
      requires Valid() && vpn + npages > 0 && PlainRange(vpn, vpn + npages - 1) && Self !in bits
      modifies this`mem, this`free, this`usage
      ensures Valid() && mem.Keys + free == old(mem.Keys + free)
      ensures forall l: nat, x: nat | l <= levels :: Plain(l, x) <==> old(Plain(l, x))
      ensures forall q: nat | Plain(0, q) ::
        Page(q) == if ok && vpn <= q < vpn + npages then Entry(frame + (q - vpn), bits + {Present}) else old(Page(q))
      ensures usage == old(usage) + if User in bits then Tables() - old(Tables()) else 0
      ensures !ok ==> free == {}
      ensures old(AllUser()) ==> AllUser()
      ensures old(AllUser()) ==>
        UserEntries() - old(UserEntries()) == (Tables() - old(Tables()))
          + (if ok then (if User in bits then npages else 0) - old(UserPages(vpn, npages)) else 0)
    {
      hide Pages, UsersIn, AllUser, UserEntries, SelfMapped, Plain, Tree, Page, Table, Tables, Index, PlainRange;
      hide Tabled;
      var lvl := levels - 1;
      TopTabled(vpn, vpn + npages - 1);
      while lvl > 0
        invariant 0 <= lvl < levels && Valid() && mem.Keys + free == old(mem.Keys + free)
        invariant forall l: nat, x: nat | l <= levels :: Plain(l, x) <==> old(Plain(l, x))
        invariant forall q: nat | Plain(0, q) :: Page(q) == old(Page(q))
        invariant usage == old(usage) + if User in bits then Tables() - old(Tables()) else 0
        invariant PlainRange(vpn, vpn + npages - 1) && Tabled(vpn, vpn + npages - 1, lvl)
        invariant old(AllUser()) ==> AllUser() && UserEntries() - old(UserEntries()) == Tables() - old(Tables())
      {
        ok := MakeLevel(vpn, vpn + npages - 1, lvl, bits);
        if !ok { return; }
        lvl := lvl - 1;
      }
      PagesTabled(vpn, npages);
      assert Pages(vpn, npages) == old(Pages(vpn, npages));
      MapPages(vpn, frame, npages, bits);
      ok := true;
    }

    /** `page_unmap`: clears the entries, keeps the tables. */
    method Unmap(vpn: nat, npages: nat)
      requires Valid()
      requires forall q: nat | vpn <= q < vpn + npages :: Plain(0, q)
      requires forall q: nat | vpn <= q < vpn + npages :: Table(0, q).Some?
      modifies this`mem
      ensures Valid() && mem.Keys == old(mem.Keys)
      ensures forall l: nat, x: nat | l <= levels :: Plain(l, x) <==> old(Plain(l, x))
      ensures forall q: nat | Plain(0, q) :: Page(q) == if vpn <= q < vpn + npages then ZERO else old(Page(q))
      ensures old(AllUser()) ==> AllUser() && UserEntries() == old(UserEntries()) - old(UserPages(vpn, npages))
    {
      hide Pages, UsersIn, AllUser, UserEntries, SelfMapped, Plain, Tree, Page, Table, Tables;
      ghost var was := Pages(vpn, npages);
      NoUsers(was);
      var q := vpn;
      while q < vpn + npages
        invariant vpn <= q <= vpn + npages && Valid() && mem.Keys == old(mem.Keys)
        invariant forall l: nat, x: nat | l <= levels :: Plain(l, x) <==> old(Plain(l, x))
        invariant forall x: nat | Plain(0, x) :: Page(x) == if vpn <= x < q then ZERO else old(Page(x))
        invariant forall x: nat | vpn <= x < vpn + npages :: Table(0, x).Some?
        invariant old(AllUser()) ==> AllUser() && UserEntries() == old(UserEntries()) - UsersIn(was[..q - vpn])
      {
        MoreUsers(was, q - vpn);
        SetPage(q, ZERO);
        q := q + 1;
      }
      assert was[..npages] == was;
    }

    /** The hardware's translation of an address. */
    function Translation(m: Mode, addr: nat): Option<nat>
      requires n > 0
      reads this`mem, this`root
    {
      match Walk(mem, root, PageOf(m, addr), levels, n)
      case None => None
      case Some(f) => Some(f * PAGE_SIZE + OffsetOf(addr))
    }

    /** The address of `self[0][vpn]`, as the processor computes it. */
    function EntryWord(m: Mode, vpn: nat): nat { EntryAddr(m, SelfBase(m, 0), vpn) % m.Word() }

    /** `virt_to_phys`: reads the entry at its linear address, which faults if that is not canonical or
        not mapped. */
    function VirtToPhys(m: Mode, addr: nat): Option<nat>
      requires n > 0
      reads this`mem, this`root
    {
      var at := EntryWord(m, addr / PAGE_SIZE);
      if !m.Canonical(at) then None
      else
        match Walk(mem, root, PageOf(m, at), levels, n)
        case None => None
        case Some(f) => Some(At(mem, f, OffsetOf(at) / m.EntrySize()).frame * PAGE_SIZE + OffsetOf(addr))
    }

    /** For a mapped page `virt_to_phys` is the hardware's translation exactly if the page number, which
        the code does not cut off, is one of the window; otherwise it faults. */
    lemma VirtToPhysTranslates(m: Mode, addr: nat)
      requires Valid() && n == m.Entries() && levels == m.Levels()
      requires m.Canonical(addr) && Translation(m, addr).Some?
      ensures VirtToPhys(m, addr) == Translation(m, addr) <==> addr / PAGE_SIZE < Pow(n, levels)
      ensures addr / PAGE_SIZE >= Pow(n, levels) ==> VirtToPhys(m, addr) == None
    {
      WindowBases(m, 0);
      hide Tree, SelfMapped, Walk, Pow, At, Valid;
      var vpn := addr / PAGE_SIZE;
      DivModDef(addr, PAGE_SIZE);
      if vpn < Pow(n, levels) {
        LowEntry(m, vpn);
        SelfReaches(m, 0, vpn);
        LowPage(m, addr);
        EntryTranslates(mem, root, vpn, n, levels);
        EntryOffset(m, vpn);
      } else {
        HighEntry(m, addr);
      }
    }

    /** The last page of the 64-bit space is the root table itself: it is mapped, and `virt_to_phys`
        faults. */
    lemma VirtToPhysFaults()
      requires Valid() && n == 512 && levels == 4
      ensures var addr := 0xFFFF_FFFF_FFFF_F000;
        Translation(X86_64, addr) == Some(root * PAGE_SIZE) && VirtToPhys(X86_64, addr) == None
    {
      var addr := 0xFFFF_FFFF_FFFF_F000;
      Powers();
      hide Tree, Pow, At;
      assert PageOf(X86_64, addr) == Pow(n, 4) - 1;
      WalkSelf(mem, root, 4, n);
      hide Walk;
      HighEntry(X86_64, addr);
    }
  }

  /** The entries of the window are not wrapped around. */
  lemma LowEntry(m: Mode, vpn: nat)
    requires vpn < Pow(m.Entries(), m.Levels())
    ensures var at := EntryAddr(m, SelfBase(m, 0), vpn); at % m.Word() == at && m.Canonical(at)
  {
    WindowBases(m, 0);
    hide Pow;
  }

  lemma LowPage(m: Mode, addr: nat)
    requires addr / PAGE_SIZE < Pow(m.Entries(), m.Levels())
    ensures PageOf(m, addr) == addr / PAGE_SIZE
  {
    WindowBases(m, 0);
    hide Pow;
    DivModDef(addr, PAGE_SIZE);
    DivModUnique(addr, m.Span(), 0, addr);
  }

  lemma EntryOffset(m: Mode, vpn: nat)
    ensures vpn % m.Entries() * m.EntrySize() / m.EntrySize() == vpn % m.Entries()
  {
    DivModUnique(vpn % m.Entries() * m.EntrySize(), m.EntrySize(), vpn % m.Entries(), 0);
  }

  /** For an address with its sign extension the entry's address is not canonical. */
  lemma HighEntry(m: Mode, addr: nat)
    requires m.Canonical(addr) && addr / PAGE_SIZE >= Pow(m.Entries(), m.Levels())
    ensures !m.Canonical(EntryAddr(m, SelfBase(m, 0), addr / PAGE_SIZE) % m.Word())
  {
    WindowBases(m, 0);
    hide Pow;
    DivModDef(addr, PAGE_SIZE);
    var at := EntryAddr(m, SelfBase(m, 0), addr / PAGE_SIZE);
    if m.X86_64? { DivModUnique(at, m.Word(), 1, at - m.Word()); }
  }
}
