/** Copying an address space for a new task and dropping it again (arch/x86/mm/page.c). Tables
    are visited through the `self` window and written through the `other` window; here a table is
    named by its frame, as `PageTables.SelfWindow` and `PageTables.OtherWindow` allow. */
module Fork {
  import opened Base
  import opened Arith
  import opened PageTables

  type Contents = seq<nat>

  function Entries(mem: Memory, f: nat): seq<Entry> { if f in mem then mem[f] else [] }

  function Bytes(data: map<nat, Contents>, f: nat): Contents { if f in data then data[f] else [] }

  /** The number of the first page or table under slot `s` of a table that starts at number `vpn`. */
  function Below(vpn: nat, s: nat, n: nat): nat { (vpn + s) * n }

  /** What one copy starts from: the parent's tables and pages, the frames that the allocator hands
      out, in order, the child's root, the place of the scratch page's entry, and the number of pages
      that can be read at `vpn << PAGE_BITS` (`ReadablePages`). */
  datatype Start = Start(n: nat, mem: Memory, data: map<nat, Contents>, pool: seq<nat>, child: nat,
                         scratchTable: nat, scratchSlot: nat, readable: nat)
  {
    /** The frames that the copy may write to. */
    predicate New(f: nat) { f == child || f in pool }

    /** Frames that the slots below `s` of a table at level `lvl` call for. */
    function Need(f: nat, lvl: nat, s: nat): nat
      decreases lvl, s
    {
      if s == 0 then 0 else Need(f, lvl, s - 1) + SlotNeed(f, lvl, s - 1)
    }

    function SlotNeed(f: nat, lvl: nat, s: nat): nat
      decreases lvl, s
    {
      var e := At(mem, f, s);
      if !IsUser(e) then 0 else if lvl == 0 then 1 else 1 + Need(e.frame, lvl - 1, n)
    }

    /** The tables that the copy visits and the pages that it reads are not written by it, and the pages
        can be read; the slots of the table are for pages or tables from number `vpn` on. */
    ghost predicate Clear(f: nat, lvl: nat, vpn: nat)
      decreases lvl
    {
      && !New(f) && |Entries(mem, f)| == n
      && forall s: nat | s < n && IsUser(At(mem, f, s)) ::
           if lvl == 0 then !New(At(mem, f, s).frame) && vpn + s < readable
           else Clear(At(mem, f, s).frame, lvl - 1, Below(vpn, s, n))
    }

    ghost predicate Valid() {
      && n > 2
      && (forall i, j | 0 <= i < j < |pool| :: pool[i] != pool[j]) && child !in pool
      && !New(scratchTable) && !IsUser(At(mem, scratchTable, scratchSlot))
    }

    predicate Scratch(f: nat, s: nat) { f == scratchTable && s == scratchSlot }
  }

  /** The memory after part of a copy: all but the new frames and the scratch entry is as it was. */
  ghost predicate Stable(c: Start, mem: Memory, data: map<nat, Contents>) {
    && (forall f, s: nat | !c.New(f) && !c.Scratch(f, s) :: At(mem, f, s) == At(c.mem, f, s))
    && (forall f | !c.New(f) :: |Entries(mem, f)| == |Entries(c.mem, f)| && Bytes(data, f) == Bytes(c.data, f))
    && !IsUser(At(mem, c.scratchTable, c.scratchSlot))
    && (forall f | c.New(f) :: |Entries(mem, f)| == c.n)
  }

  /** The first `upto` slots of table `dst` are a copy of those of `src`, in frames from the pool
      from number `k` on. */
  ghost predicate Copied(c: Start, mem: Memory, data: map<nat, Contents>,
                         src: nat, dst: nat, lvl: nat, k: nat, upto: nat)
    decreases lvl, 1
  {
    forall s: nat | s < upto :: SlotCopied(c, mem, data, src, dst, lvl, k, s)
  }

  ghost predicate SlotCopied(c: Start, mem: Memory, data: map<nat, Contents>,
                             src: nat, dst: nat, lvl: nat, k: nat, s: nat)
    decreases lvl, 0
  {
    var e, e', i := At(c.mem, src, s), At(mem, dst, s), k + c.Need(src, lvl, s);
    if IsUser(e) then
      && i < |c.pool| && e' == Entry(c.pool[i], e.flags)
      && if lvl == 0 then Bytes(data, e'.frame) == Bytes(c.data, e.frame)
         else Copied(c, mem, data, e.frame, e'.frame, lvl - 1, i + 1, c.n)
    else if c.Scratch(src, s) then !IsUser(e')
    else e' == if IsPresent(e) && Self !in e.flags then e else ZERO
  }

  lemma {:induction false} NeedMonotone(c: Start, f: nat, lvl: nat, s: nat, t: nat)
    requires s <= t
    ensures c.Need(f, lvl, s) <= c.Need(f, lvl, t)
  {
    if s < t { NeedMonotone(c, f, lvl, s, t - 1); }
  }

  /** A finished part stays finished while its frames are left alone. */
  lemma {:induction false} CopiedStays(c: Start, mem: Memory, data: map<nat, Contents>, mem': Memory,
                                       data': map<nat, Contents>, src: nat, dst: nat, lvl: nat, k: nat, upto: nat)
    requires Copied(c, mem, data, src, dst, lvl, k, upto)
    requires forall s: nat | s < upto :: At(mem', dst, s) == At(mem, dst, s)
    requires Left(c, mem, data, mem', data', k, k + c.Need(src, lvl, upto))
    ensures Copied(c, mem', data', src, dst, lvl, k, upto)
    decreases lvl
  {
    forall s: nat | s < upto ensures SlotCopied(c, mem', data', src, dst, lvl, k, s) {
      assert SlotCopied(c, mem, data, src, dst, lvl, k, s);
      var e, i := At(c.mem, src, s), k + c.Need(src, lvl, s);
      if IsUser(e) {
        NeedMonotone(c, src, lvl, s + 1, upto);
        assert c.Need(src, lvl, s + 1) == c.Need(src, lvl, s) + c.SlotNeed(src, lvl, s);
        if lvl > 0 {
          CopiedStays(c, mem, data, mem', data', e.frame, c.pool[i], lvl - 1, i + 1, c.n);
        }
      }
    }
  }

  /** The pool's frames from `lo` to `hi` have the same contents. */
  ghost predicate Left(c: Start, mem: Memory, data: map<nat, Contents>,
                       mem': Memory, data': map<nat, Contents>, lo: nat, hi: nat)
  {
    forall i | lo <= i < hi && i < |c.pool| ::
      Entries(mem', c.pool[i]) == Entries(mem, c.pool[i]) && Bytes(data', c.pool[i]) == Bytes(data, c.pool[i])
  }

  /** Only `dst` and the pool's frames from number `lo` to `hi` have changed. */
  ghost predicate Kept(c: Start, dst: nat, lo: nat, hi: nat, was: Memory, had: map<nat, Contents>, mem: Memory,
                       data: map<nat, Contents>)
  {
    forall f | c.New(f) && f != dst && !Among(c.pool, lo, hi, f) ::
      Entries(mem, f) == Entries(was, f) && Bytes(data, f) == Bytes(had, f)
  }

  predicate Among(pool: seq<nat>, lo: nat, hi: nat, f: nat) {
    exists i | lo <= i < hi && i < |pool| :: pool[i] == f
  }

  lemma KeptJoins(c: Start, dst: nat, lo: nat, mid: nat, hi: nat, m0: Memory, d0: map<nat, Contents>, m1: Memory,
                  d1: map<nat, Contents>, m2: Memory, d2: map<nat, Contents>)
    requires lo <= mid <= hi && Kept(c, dst, lo, mid, m0, d0, m1, d1) && Kept(c, dst, mid, hi, m1, d1, m2, d2)
    ensures Kept(c, dst, lo, hi, m0, d0, m2, d2)
  {
    forall f | c.New(f) && f != dst && !Among(c.pool, lo, hi, f)
      ensures !Among(c.pool, lo, mid, f) && !Among(c.pool, mid, hi, f)
    {
    }
  }

  lemma KeptNothing(c: Start, dst: nat, k: nat, mem: Memory, data: map<nat, Contents>)
    ensures Kept(c, dst, k, k, mem, data, mem, data)
  {}

  lemma NoneCopied(c: Start, mem: Memory, data: map<nat, Contents>, src: nat, dst: nat, lvl: nat, k: nat)
    ensures Copied(c, mem, data, src, dst, lvl, k, 0)
  {}

  /** Copying slot `s` as well. */
  lemma CopiedNext(c: Start, was: Memory, had: map<nat, Contents>, mem: Memory, data: map<nat, Contents>, src: nat,
                   dst: nat, lvl: nat, k: nat, s: nat, hi: nat)
    requires c.Valid() && Copied(c, was, had, src, dst, lvl, k, s) && SlotCopied(c, mem, data, src, dst, lvl, k, s)
    requires Kept(c, dst, k + c.Need(src, lvl, s), hi, was, had, mem, data)
    requires forall t: nat | t != s :: At(mem, dst, t) == At(was, dst, t)
    requires forall i | k <= i < |c.pool| :: c.pool[i] != dst
    ensures Copied(c, mem, data, src, dst, lvl, k, s + 1)
  {
    hide SlotCopied;
    assert Left(c, was, had, mem, data, k, k + c.Need(src, lvl, s)) by {
      forall i | k <= i < k + c.Need(src, lvl, s) && i < |c.pool|
        ensures !Among(c.pool, k + c.Need(src, lvl, s), hi, c.pool[i])
      {
      }
    }
    CopiedStays(c, was, had, mem, data, src, dst, lvl, k, s);
  }

  /** What a user entry calls for. */
  lemma NeedUser(c: Start, src: nat, lvl: nat, s: nat)
    requires IsUser(At(c.mem, src, s))
    ensures c.Need(src, lvl, s + 1) == c.Need(src, lvl, s) + 1
      + if lvl == 0 then 0 else c.Need(At(c.mem, src, s).frame, lvl - 1, c.n)
  {
    hide At;
  }

  lemma ClearTable(c: Start, src: nat, lvl: nat, vpn: nat)
    requires c.Clear(src, lvl, vpn)
    ensures !c.New(src)
  {}

  lemma ClearUser(c: Start, src: nat, lvl: nat, vpn: nat, s: nat)
    requires c.Clear(src, lvl, vpn) && s < c.n && IsUser(At(c.mem, src, s))
    ensures if lvl == 0 then !c.New(At(c.mem, src, s).frame) && vpn + s < c.readable
            else c.Clear(At(c.mem, src, s).frame, lvl - 1, Below(vpn, s, c.n))
  {
    hide At;
  }

  /** Frame number `i` is another than `dst`, and so are the later ones. */
  lemma FrameTaken(pool: seq<nat>, i: nat, dst: nat, k: nat)
    requires k <= i < |pool| && forall j | k <= j < |pool| :: pool[j] != dst
    ensures pool[i] != dst && forall j | i < j < |pool| :: pool[j] != dst
  {}

  /** What the copy of the table below changes is within what this slot may change. */
  lemma KeptBelow(c: Start, dst: nat, i: nat, hi: nat, was: Memory, had: map<nat, Contents>, m1: Memory, mem: Memory,
                  data: map<nat, Contents>)
    requires i < |c.pool| && i < hi && Kept(c, c.pool[i], i + 1, hi, m1, had, mem, data)
    requires forall f | f != dst :: Entries(m1, f) == Entries(was, f)
    ensures Kept(c, dst, i, hi, was, had, mem, data)
  {
    forall f | c.New(f) && f != dst && !Among(c.pool, i, hi, f) ensures f != c.pool[i] && !Among(c.pool, i + 1, hi, f) {
    }
  }

  lemma SameEntries(m1: Memory, mem: Memory, f: nat)
    requires Entries(mem, f) == Entries(m1, f)
    ensures forall t: nat :: At(mem, f, t) == At(m1, f, t)
  {}

  /** The table itself is not among the frames taken further down. */
  lemma TableKept(c: Start, dst: nat, i: nat, hi: nat, m1: Memory, had: map<nat, Contents>, mem: Memory,
                  data: map<nat, Contents>)
    requires i < |c.pool| && Kept(c, c.pool[i], i + 1, hi, m1, had, mem, data)
    requires c.New(dst) && dst != c.pool[i] && forall j | i < j < |c.pool| :: c.pool[j] != dst
    ensures forall t: nat :: At(mem, dst, t) == At(m1, dst, t)
  {
    assert !Among(c.pool, i + 1, hi, dst);
    SameEntries(m1, mem, dst);
  }

  lemma KeptPage(c: Start, dst: nat, i: nat, was: Memory, had: map<nat, Contents>, m1: Memory, mem: Memory,
                 data: map<nat, Contents>)
    requires i < |c.pool| && forall f | f != dst :: Entries(m1, f) == Entries(was, f)
    requires forall f | c.New(f) :: Entries(mem, f) == Entries(m1, f)
    requires forall f | f != c.pool[i] :: Bytes(data, f) == Bytes(had, f)
    ensures Kept(c, dst, i, i + 1, was, had, mem, data)
  {
    forall f | c.New(f) && f != dst && !Among(c.pool, i, i + 1, f) ensures f != c.pool[i] {
    }
  }

  lemma TableDone(c: Start, mem: Memory, data: map<nat, Contents>, src: nat, dst: nat, lvl: nat, k: nat, s: nat)
    requires lvl > 0 && IsUser(At(c.mem, src, s)) && k + c.Need(src, lvl, s) < |c.pool|
    requires var i, e := k + c.Need(src, lvl, s), At(c.mem, src, s);
      && At(mem, dst, s) == Entry(c.pool[i], e.flags)
      && (i + 1 + c.Need(e.frame, lvl - 1, c.n) <= |c.pool| ==>
            Copied(c, mem, data, e.frame, c.pool[i], lvl - 1, i + 1, c.n))
    ensures k + c.Need(src, lvl, s + 1) <= |c.pool| ==> SlotCopied(c, mem, data, src, dst, lvl, k, s)
  {
    hide At, Copied;
    NeedUser(c, src, lvl, s);
  }

  lemma PageDone(c: Start, mem: Memory, data: map<nat, Contents>, src: nat, dst: nat, k: nat, s: nat)
    requires IsUser(At(c.mem, src, s)) && k + c.Need(src, 0, s) < |c.pool|
    requires var i, e := k + c.Need(src, 0, s), At(c.mem, src, s);
      At(mem, dst, s) == Entry(c.pool[i], e.flags) && Bytes(data, c.pool[i]) == Bytes(c.data, e.frame)
    ensures SlotCopied(c, mem, data, src, dst, 0, k, s)
  {
    hide At, Copied;
  }

  /** A visited entry reads as it did at the start, save for the scratch entry. */
  lemma SourceStays(c: Start, mem: Memory, data: map<nat, Contents>, src: nat, lvl: nat, vpn: nat, s: nat)
    requires c.Valid() && Stable(c, mem, data) && c.Clear(src, lvl, vpn)
    ensures IsUser(At(mem, src, s)) == IsUser(At(c.mem, src, s))
    ensures !c.Scratch(src, s) ==> At(mem, src, s) == At(c.mem, src, s)
    ensures IsUser(At(mem, src, s)) ==> !c.Scratch(src, s)
  {
    hide At;
  }

  /** The reference to a root that `page_map_copy` stores. */
  function RootRef(root: nat): Entry { Entry(root, {Present, Self, Rw}) }

  /** What the child's address space is after a complete copy. */
  ghost predicate CopiedSpace(c: Start, mem: Memory, data: map<nat, Contents>, root: nat, levels: nat)
    requires levels > 0 && c.n > 0
  {
    && Copied(c, mem, data, root, c.child, levels - 1, 0, c.n - 1)
    && At(mem, c.child, c.n - 1) == RootRef(c.child)
    && Undisturbed(c, mem)
  }

  /** The parent's entries are there, save for the scratch entry and references to roots. */
  ghost predicate Undisturbed(c: Start, mem: Memory) {
    forall f, s: nat | !c.New(f) && !c.Scratch(f, s) && (IsUser(At(c.mem, f, s)) || Self !in At(c.mem, f, s).flags) ::
      At(mem, f, s) == At(c.mem, f, s)
  }

  lemma CopyFinished(c: Start, was: Memory, mem: Memory, data: map<nat, Contents>, root: nat, levels: nat)
    requires levels > 0 && c.Valid() && Stable(c, was, data) && !c.New(root)
    requires Copied(c, was, data, root, c.child, levels - 1, 0, c.n) && At(c.mem, root, c.n - 2) == RootRef(c.child)
    requires forall f, s: nat :: At(mem, f, s) == if f == root && s == c.n - 2 then ZERO
      else if f == c.child && s == c.n - 1 then RootRef(c.child) else At(was, f, s)
    requires forall f | f != root && f != c.child :: Entries(mem, f) == Entries(was, f)
    ensures CopiedSpace(c, mem, data, root, levels)
  {
    hide SlotCopied, At;
    assert Copied(c, was, data, root, c.child, levels - 1, 0, c.n - 1);
    CopiedStays(c, was, data, mem, data, root, c.child, levels - 1, 0, c.n - 1);
  }

  /** All through a copy `self[lvl][i]` is entry i of level lvl of the parent's tables and
      `other[lvl][i]` the same entry of the child's, so that both can be named by their tables. */
  lemma WindowsDuringCopy(c: Start, mem: Memory, data: map<nat, Contents>, root: nat, m: Mode, lvl: nat, i: nat)
    requires Stable(c, mem, data) && c.n == m.Entries() && !c.New(root)
    requires !c.Scratch(root, c.n - 1) && !c.Scratch(root, c.n - 2)
    requires IsPresent(At(c.mem, root, c.n - 1)) && At(c.mem, root, c.n - 1).frame == root
    requires At(c.mem, root, c.n - 2) == RootRef(c.child)
    requires lvl < m.Levels() && i < Pow(c.n, m.Levels() - lvl)
    ensures var n, levels := m.Entries(), m.Levels();
      && Walk(mem, root, PageOf(m, EntryAddr(m, SelfBase(m, lvl), i)), levels, n)
           == TableOf(mem, root, lvl, i, n, levels)
      && Walk(mem, root, PageOf(m, EntryAddr(m, OtherBase(m, lvl), i)), levels, n)
         == TableOf(mem, c.child, lvl, i, n, levels)
  {
    assert At(mem, root, c.n - 1) == At(c.mem, root, c.n - 1) && At(mem, root, c.n - 2) == RootRef(c.child);
    hide Stable, At, Walk, Pow, TableOf, EntryAddr;
    SelfWindow(mem, root, m, lvl, i);
    OtherWindow(mem, root, m, lvl, i);
  }

  function ReadablePages(m: Mode): nat {
    if m.X86_32? then Pow(m.Entries(), m.Levels()) else Pow(m.Entries(), m.Levels()) / 2
  }

  /** A user page is read at the address `vpn << PAGE_BITS`, without sign extension. The access goes to
      the page exactly if that is canonical: in 64-bit mode for the lower half of the pages. */
  lemma PageRead(mem: Memory, root: nat, m: Mode, vpn: nat)
    requires vpn < Pow(m.Entries(), m.Levels())
    ensures m.Canonical(vpn * PAGE_SIZE) <==> vpn < ReadablePages(m)
    ensures Walk(mem, root, PageOf(m, vpn * PAGE_SIZE), m.Levels(), m.Entries())
      == Walk(mem, root, vpn, m.Levels(), m.Entries())
  {
    Powers();
    hide Pow, Walk;
    DivModUnique(vpn * PAGE_SIZE, m.Span(), 0, vpn * PAGE_SIZE);
    DivModUnique(vpn * PAGE_SIZE, PAGE_SIZE, vpn, 0);
  }

  /** The first page of the upper half. */
  lemma PageUnread()
    ensures ReadablePages(X86_64) == 0x8_0000_0000 && !X86_64.Canonical(0x8_0000_0000 * PAGE_SIZE)
  {
    Powers();
  }

  /** The machine, with the frames that the allocator hands out and those it gets back. */
  class Machine {
    const n: nat
    const pool: seq<nat>
    const scratchTable: nat
    const scratchSlot: nat
    var mem: Memory
    var data: map<nat, Contents>
    var taken: nat
    var released: seq<nat>
    var usage: int

    constructor (n: nat, mem: Memory, data: map<nat, Contents>, pool: seq<nat>, scratchTable: nat, scratchSlot: nat)
      ensures this.n == n && this.mem == mem && this.data == data && this.pool == pool && taken == 0 && usage == 0
      ensures this.scratchTable == scratchTable && this.scratchSlot == scratchSlot && released == []
    {
      this.n, this.mem, this.data, this.pool := n, mem, data, pool;
      this.scratchTable, this.scratchSlot := scratchTable, scratchSlot;
      taken, usage, released := 0, 0, [];
    }

    /** `get_pages(1)`. */
    method GetPage() returns (f: Option<nat>)
      requires taken <= |pool|
      modifies this`taken
      ensures if old(taken) < |pool| then f == Some(pool[old(taken)]) && taken == old(taken) + 1
              else f == None && taken == old(taken)
    {
      if taken == |pool| { return None; }
      f := Some(pool[taken]);
      taken := taken + 1;
    }

    method SetEntry(f: nat, s: nat, e: Entry)
      requires s < |Entries(mem, f)|
      modifies this`mem
      ensures forall g, t: nat :: At(mem, g, t) == if g == f && t == s then e else At(old(mem), g, t)
      ensures forall g :: |Entries(mem, g)| == |Entries(old(mem), g)|
      ensures forall g | g != f :: Entries(mem, g) == Entries(old(mem), g)
    {
      mem := mem[f := mem[f][s := e]];
    }

    ghost predicate Fits(c: Start)
      reads this
    {
      && c.Valid() && c.n == n && c.pool == pool && c.scratchTable == scratchTable && c.scratchSlot == scratchSlot
      && Stable(c, mem, data) && taken <= |pool|
      && scratchSlot < |Entries(mem, scratchTable)|
    }

    /** Copies user page `vpn` into frame `phy` by way of the scratch page. */
    method CopyPage(vpn: nat, from: nat, phy: nat, ghost c: Start)
      requires Fits(c) && c.New(phy) && !c.New(from) && vpn < c.readable
      modifies this`mem, this`data
      ensures Fits(c) && Bytes(data, phy) == Bytes(c.data, from)
      ensures forall f | c.New(f) :: Entries(mem, f) == Entries(old(mem), f)
      ensures forall f | f != phy :: Bytes(data, f) == Bytes(old(data), f)
    {
      SetEntry(scratchTable, scratchSlot, Entry(phy, {Rw, Present}));
      data := data[phy := Bytes(data, from)];
    }

    /** `other[lvl][vpn] = e`. */
    method WriteNew(dst: nat, s: nat, e: Entry, ghost c: Start)
      requires Fits(c) && c.New(dst) && s < n
      modifies this`mem
      ensures Fits(c) && At(mem, dst, s) == e
      ensures forall t: nat | t != s :: At(mem, dst, t) == At(old(mem), dst, t)
      ensures forall f | f != dst :: Entries(mem, f) == Entries(old(mem), f)
    {
      SetEntry(dst, s, e);
    }

    /** The user case of `traverse` in `page_map_copy`. */
    method CopyUser(src: nat, dst: nat, lvl: nat, vpn: nat, s: nat, e: Entry, ghost c: Start, ghost k: nat)
      returns (ok: bool)
      requires Fits(c) && c.Clear(src, lvl, vpn) && c.New(dst) && s < n && e == At(c.mem, src, s) && IsUser(e)
      requires forall i | k <= i < |pool| :: pool[i] != dst
      requires taken == Min(|pool|, k + c.Need(src, lvl, s))
      modifies this`mem, this`data, this`taken, this`usage
      ensures Fits(c) && taken == Min(|pool|, k + c.Need(src, lvl, s + 1))
      ensures usage - old(usage) == taken - old(taken)
      ensures ok <==> k + c.Need(src, lvl, s) < |pool|
      ensures k + c.Need(src, lvl, s + 1) <= |pool| ==> SlotCopied(c, mem, data, src, dst, lvl, k, s)
      ensures Kept(c, dst, old(taken), taken, old(mem), old(data), mem, data)
      ensures forall t: nat | t != s :: At(mem, dst, t) == At(old(mem), dst, t)
      decreases lvl, 0
    {
      hide Stable, Copied, SlotCopied, Kept, At, c.Clear;
      NeedUser(c, src, lvl, s);
      ClearUser(c, src, lvl, vpn, s);
      KeptNothing(c, dst, taken, mem, data);
      ghost var i := taken;
      var phy := GetPage();
      if phy.None? { return false; }
      usage := usage + 1;
      WriteNew(dst, s, Entry(phy.value, e.flags), c);
      ghost var m1 := mem;
      FrameTaken(pool, i, dst, k);
      if lvl > 0 {
        var ignored := CopyTable(e.frame, phy.value, lvl - 1, Below(vpn, s, n), c);
        KeptBelow(c, dst, i, taken, old(mem), old(data), m1, mem, data);
        TableKept(c, dst, i, taken, m1, old(data), mem, data);
        TableDone(c, mem, data, src, dst, lvl, k, s);
      } else {
        CopyPage(vpn + s, e.frame, phy.value, c);
        SameEntries(m1, mem, dst);
        KeptPage(c, dst, i, old(mem), old(data), m1, mem, data);
        PageDone(c, mem, data, src, dst, k, s);
      }
      ok := true;
    }

    /** One step of `traverse` in `page_map_copy`. */
    method CopySlot(src: nat, dst: nat, lvl: nat, vpn: nat, s: nat, ghost c: Start, ghost k: nat) returns (ok: bool)
      requires Fits(c) && c.Clear(src, lvl, vpn) && c.New(dst) && s < n
      requires forall i | k <= i < |pool| :: pool[i] != dst
      requires taken == Min(|pool|, k + c.Need(src, lvl, s))
      modifies this`mem, this`data, this`taken, this`usage
      ensures Fits(c) && taken == Min(|pool|, k + c.Need(src, lvl, s + 1))
      ensures usage - old(usage) == taken - old(taken)
      ensures ok <==> (IsUser(At(c.mem, src, s)) ==> k + c.Need(src, lvl, s) < |pool|)
      ensures k + c.Need(src, lvl, s + 1) <= |pool| ==> SlotCopied(c, mem, data, src, dst, lvl, k, s)
      ensures Kept(c, dst, old(taken), taken, old(mem), old(data), mem, data)
      ensures forall t: nat | t != s :: At(mem, dst, t) == At(old(mem), dst, t)
      decreases lvl, 1
    {
      SourceStays(c, mem, data, src, lvl, vpn, s);
      hide Stable, Copied, At;
      var e := At(mem, src, s);
      ok := true;
      if IsPresent(e) {
        if User in e.flags {
          ok := CopyUser(src, dst, lvl, vpn, s, e, c, k);
        } else if Self in e.flags {
          WriteNew(dst, s, ZERO, c);
        } else {
          WriteNew(dst, s, e, c);
        }
      } else {
        WriteNew(dst, s, ZERO, c);
      }
    }

    /** `traverse` in `page_map_copy`. */
    method CopyTable(src: nat, dst: nat, lvl: nat, vpn: nat, ghost c: Start) returns (ok: bool)
      requires Fits(c) && c.Clear(src, lvl, vpn) && c.New(dst)
      requires forall i | taken <= i < |pool| :: pool[i] != dst
      modifies this`mem, this`data, this`taken, this`usage
      ensures Fits(c) && taken == Min(|pool|, old(taken) + c.Need(src, lvl, n))
      ensures usage - old(usage) == taken - old(taken)
      ensures ok <==> forall s: nat | s < n && IsUser(At(c.mem, src, s)) :: old(taken) + c.Need(src, lvl, s) < |pool|
      ensures old(taken) + c.Need(src, lvl, n) <= |pool| ==> Copied(c, mem, data, src, dst, lvl, old(taken), n)
      ensures Kept(c, dst, old(taken), taken, old(mem), old(data), mem, data)
      decreases lvl, 2
    {
      hide Stable, Copied, SlotCopied, Kept;
      ghost var k := taken;
      NoneCopied(c, mem, data, src, dst, lvl, k);
      KeptNothing(c, dst, k, mem, data);
      var s := 0;
      while s < n
        invariant 0 <= s <= n && Fits(c) && taken == Min(|pool|, k + c.Need(src, lvl, s))
        invariant usage - old(usage) == taken - old(taken)
        invariant forall t: nat | t < s && IsUser(At(c.mem, src, t)) :: k + c.Need(src, lvl, t) < |pool|
        invariant k + c.Need(src, lvl, s) <= |pool| ==> Copied(c, mem, data, src, dst, lvl, k, s)
        invariant Kept(c, dst, k, taken, old(mem), old(data), mem, data)
      {
        ghost var was, had, from := mem, data, taken;
        ok := CopySlot(src, dst, lvl, vpn, s, c, k);
        KeptJoins(c, dst, k, from, taken, old(mem), old(data), was, had, mem, data);
        NeedMonotone(c, src, lvl, s + 1, n);
        if !ok { return; }
        if k + c.Need(src, lvl, s + 1) <= |pool| {
          CopiedNext(c, was, had, mem, data, src, dst, lvl, k, s, taken);
        }
        s := s + 1;
      }
      ok := true;
    }

    /** `page_map_copy`, into a task whose root table is in frame `child`. */
    method PageMapCopy(root: nat, child: nat, levels: nat, ghost c: Start) returns (ok: bool)
      requires levels > 0 && taken == 0 && n > 2 && |Entries(mem, root)| == n
      requires c == Start(n, mem[root := mem[root][n - 2 := RootRef(child)]], data, pool, child,
                          scratchTable, scratchSlot, c.readable)
      requires c.Valid() && c.Clear(root, levels - 1, 0)
      requires forall f | c.New(f) :: |Entries(mem, f)| == n
      requires scratchSlot < |Entries(mem, scratchTable)| && !c.Scratch(root, n - 1) && !c.Scratch(root, n - 2)
      requires !IsUser(At(mem, root, n - 1))
      modifies this`mem, this`data, this`taken, this`usage
      ensures taken == Min(|pool|, c.Need(root, levels - 1, n)) && usage - old(usage) == taken
      ensures ok <==> forall s: nat | s < n && IsUser(At(c.mem, root, s)) :: c.Need(root, levels - 1, s) < |pool|
      ensures c.Need(root, levels - 1, n) <= |pool| ==> CopiedSpace(c, mem, data, root, levels)
      ensures forall f, s: nat | !c.New(f) && !c.Scratch(f, s) ::
        At(mem, f, s) == if f == root && s == n - 2 then ZERO else At(old(mem), f, s)
      ensures forall f | !c.New(f) :: Bytes(data, f) == Bytes(old(data), f)
    {
      SetEntry(root, n - 2, RootRef(child));
      ok := CopyTable(root, child, levels - 1, 0, c);
      ghost var was := mem;
      SetEntry(child, n - 1, RootRef(child));
      SetEntry(root, n - 2, ZERO);
      if c.Need(root, levels - 1, n) <= |pool| {
        CopyFinished(c, was, mem, data, root, levels);
      }
    }

    /** `traverse` in `page_map_drop`. */
    method DropTable(f: nat, lvl: nat)
      modifies this`released, this`usage
      ensures released == old(released) + Released(mem, f, lvl, n, n)
      ensures usage == old(usage) - |Released(mem, f, lvl, n, n)|
      decreases lvl
    {
      var s := 0;
      while s < n
        invariant 0 <= s <= n
        invariant released == old(released) + Released(mem, f, lvl, s, n)
        invariant usage == old(usage) - |Released(mem, f, lvl, s, n)|
      {
        var e := At(mem, f, s);
        if IsPresent(e) && User in e.flags {
          if lvl > 0 { DropTable(e.frame, lvl - 1); }
          released := released + [e.frame];
          usage := usage - 1;
        }
        s := s + 1;
      }
    }

    /** Copying a space and dropping the copy: the frames that were taken come back, each once, and
        the usage is what it was. */
    method CopyThenDrop(root: nat, child: nat, levels: nat, ghost c: Start) returns (ok: bool)
      requires levels > 0 && taken == 0 && n > 2 && |Entries(mem, root)| == n
      requires c == Start(n, mem[root := mem[root][n - 2 := RootRef(child)]], data, pool, child,
                          scratchTable, scratchSlot, c.readable)
      requires c.Valid() && c.Clear(root, levels - 1, 0)
      requires forall f | c.New(f) :: |Entries(mem, f)| == n
      requires scratchSlot < |Entries(mem, scratchTable)| && !c.Scratch(root, n - 1) && !c.Scratch(root, n - 2)
      requires !IsUser(At(mem, root, n - 1)) && c.Need(root, levels - 1, n) <= |pool|
      modifies this
      ensures ok && usage == old(usage) && taken == c.Need(root, levels - 1, n)
      ensures exists back: seq<nat> :: released == old(released) + back && Permuted(back, pool[..taken])
    {
      assert !IsUser(At(c.mem, root, n - 1));
      StatusOfCopy(c, root, levels - 1);
      hide CopiedSpace, Stable, Permuted, Released, Start.Need, Start.Clear, Start.Valid;
      ok := PageMapCopy(root, child, levels, c);
      DropChild(c, mem, data, root, levels);
      DropTable(child, levels - 1);
      ghost var back := Released(mem, child, levels - 1, n, n);
      assert released == old(released) + back;
    }
  }

  /** The frames that dropping the slots below `s` of table `f` gives back, in order. */
  function Released(mem: Memory, f: nat, lvl: nat, s: nat, n: nat): seq<nat>
    decreases lvl, s
  {
    if s == 0 then []
    else
      var e := At(mem, f, s - 1);
      Released(mem, f, lvl, s - 1, n) +
      if !IsUser(e) then [] else (if lvl == 0 then [] else Released(mem, e.frame, lvl - 1, n, n)) + [e.frame]
  }

  /** Dropping a copy gives back exactly the frames that the copy took. */
  lemma {:induction false} DropReleases(c: Start, mem: Memory, data: map<nat, Contents>, src: nat, dst: nat, lvl: nat,
                                        k: nat, s: nat)
    requires Copied(c, mem, data, src, dst, lvl, k, s) && k + c.Need(src, lvl, s) <= |c.pool|
    ensures Permuted(Released(mem, dst, lvl, s, c.n), c.pool[k..k + c.Need(src, lvl, s)])
    decreases lvl, s
  {
    hide *;
    if s == 0 {
      NothingReleased(c, mem, dst, src, lvl, k);
    } else {
      SlotOf(c, mem, data, src, dst, lvl, k, s);
      SlotParts(c, mem, data, src, dst, lvl, k, s - 1);
      DropReleases(c, mem, data, src, dst, lvl, k, s - 1);
      ReleasedStep(mem, dst, lvl, s, c.n);
      var e, i, j := At(c.mem, src, s - 1), k + c.Need(src, lvl, s - 1), k + c.Need(src, lvl, s);
      var before := Released(mem, dst, lvl, s - 1, c.n);
      if IsUser(e) {
        if lvl == 0 {
          SegmentJoins(c.pool, k, i, j, before, []);
        } else {
          DropReleases(c, mem, data, e.frame, c.pool[i], lvl - 1, i + 1, c.n);
          SegmentJoins(c.pool, k, i, j, before, Released(mem, c.pool[i], lvl - 1, c.n, c.n));
        }
      }
    }
  }

  /** What a copied slot says, and how far the pool is used after it. */
  lemma SlotParts(c: Start, mem: Memory, data: map<nat, Contents>, src: nat, dst: nat, lvl: nat, k: nat, s: nat)
    requires SlotCopied(c, mem, data, src, dst, lvl, k, s)
    ensures var e, e', i, j := At(c.mem, src, s), At(mem, dst, s), k + c.Need(src, lvl, s), k + c.Need(src, lvl, s + 1);
      && IsUser(e) == IsUser(e')
      && if !IsUser(e) then j == i
         else
           && i < |c.pool| && e' == Entry(c.pool[i], e.flags)
           && if lvl == 0 then j == i + 1
              else
                && j == i + 1 + c.Need(e.frame, lvl - 1, c.n)
                && Copied(c, mem, data, e.frame, e'.frame, lvl - 1, i + 1, c.n)
  {
    hide Copied, At;
  }

  lemma SlotOf(c: Start, mem: Memory, data: map<nat, Contents>, src: nat, dst: nat, lvl: nat, k: nat, s: nat)
    requires s > 0 && Copied(c, mem, data, src, dst, lvl, k, s)
    ensures SlotCopied(c, mem, data, src, dst, lvl, k, s - 1) && Copied(c, mem, data, src, dst, lvl, k, s - 1)
  {
    hide SlotCopied;
  }

  /** The same elements, each as often. */
  ghost predicate Permuted(a: seq<nat>, b: seq<nat>) { multiset(a) == multiset(b) }

  lemma NothingReleased(c: Start, mem: Memory, dst: nat, src: nat, lvl: nat, k: nat)
    requires k <= |c.pool|
    ensures c.Need(src, lvl, 0) == 0 && Permuted(Released(mem, dst, lvl, 0, c.n), c.pool[k..k])
  {}

  lemma ReleasedStep(mem: Memory, f: nat, lvl: nat, s: nat, n: nat)
    requires s > 0
    ensures var e := At(mem, f, s - 1);
      Released(mem, f, lvl, s, n) ==
        if !IsUser(e) then Released(mem, f, lvl, s - 1, n)
        else
          var below := if lvl == 0 then [] else Released(mem, e.frame, lvl - 1, n, n);
          Released(mem, f, lvl, s - 1, n) + (below + [e.frame])
  {
    hide At;
    assert Released(mem, f, lvl, s - 1, n) + [] == Released(mem, f, lvl, s - 1, n);
  }

  lemma SegmentJoins(pool: seq<nat>, k: nat, i: nat, j: nat, a: seq<nat>, b: seq<nat>)
    requires k <= i < j <= |pool| && Permuted(a, pool[k..i])
    requires Permuted(b, pool[i + 1..j]) || (b == [] && j == i + 1)
    ensures Permuted(a + (b + [pool[i]]), pool[k..j])
  {
    assert pool[k..j] == pool[k..i] + ([pool[i]] + pool[i + 1..j]);
  }

  // Translations.

  /** What becomes of a page: a copy of its own in a frame of the pool, the parent's frame, nothing;
      for the scratch page nothing is said. */
  datatype Fate = Copy(index: nat) | Share | Hole | Unsaid

  /** The fate of page `b` of a table at level `lvl`. */
  function FateOf(c: Start, f: nat, lvl: nat, b: nat, k: nat): Fate
    requires c.n > 0
    decreases lvl
  {
    var s, rest := b / Pow(c.n, lvl), b % Pow(c.n, lvl);
    var e, i := At(c.mem, f, s), k + c.Need(f, lvl, s);
    if IsUser(e) then (if lvl == 0 then Copy(i) else FateOf(c, e.frame, lvl - 1, rest, i + 1))
    else if c.Scratch(f, s) then Unsaid
    else if IsPresent(e) && Self !in e.flags then Share
    else Hole
  }

  lemma TopDigit(b: nat, lvl: nat, n: nat)
    requires n > 0 && b < Pow(n, lvl + 1)
    ensures 0 <= b / Pow(n, lvl) < n && 0 <= b % Pow(n, lvl) < Pow(n, lvl)
    ensures b == b / Pow(n, lvl) * Pow(n, lvl) + b % Pow(n, lvl)
  {
    var p := Pow(n, lvl);
    assert Pow(n, lvl + 1) == n * p;
    DivModDef(b, p);
    MulCancelLess(b / p, n, p);
  }

  /** One step down from a table. */
  lemma WalkDown(mem: Memory, f: nat, b: nat, lvl: nat, n: nat)
    requires n > 0 && b < Pow(n, lvl + 1)
    ensures b / Pow(n, lvl) >= 0
    ensures var e := At(mem, f, b / Pow(n, lvl));
      Walk(mem, f, b, lvl + 1, n) == if IsPresent(e) then Walk(mem, e.frame, b % Pow(n, lvl), lvl, n) else None
  {
    TopDigit(b, lvl, n);
    var s := b / Pow(n, lvl);
    hide Pow;
    WalkSplit(mem, f, s, 1, b % Pow(n, lvl), lvl, n);
    DivModUnique(s, n, 0, s);
    assert Walk(mem, f, s / n, 0, n) == Some(f);
  }

  /** The flags of the entries on the way to page `b` of a table at level `lvl`, as far as it leads. */
  function Rights(mem: Memory, f: nat, b: nat, lvl: nat, n: nat): seq<set<Flag>>
    requires n > 0
    decreases lvl
  {
    var e := At(mem, f, b / Pow(n, lvl));
    [e.flags] + if lvl == 0 || !IsPresent(e) then [] else Rights(mem, e.frame, b % Pow(n, lvl), lvl - 1, n)
  }

  /** A page is copied exactly if every entry on the way to it is there and carries PG_USER. */
  lemma {:induction false} FateIsCopy(c: Start, f: nat, lvl: nat, b: nat, k: nat)
    requires c.n > 0
    ensures var r := Rights(c.mem, f, b, lvl, c.n);
      FateOf(c, f, lvl, b, k).Copy? <==> |r| == lvl + 1 && forall i | 0 <= i < |r| :: {Present, User} <= r[i]
    decreases lvl
  {
    hide Pow, At, Start.Need;
    var s, rest := b / Pow(c.n, lvl), b % Pow(c.n, lvl);
    var e, i, r := At(c.mem, f, s), k + c.Need(f, lvl, s), Rights(c.mem, f, b, lvl, c.n);
    assert r[0] == e.flags;
    if IsUser(e) && lvl > 0 {
      FateIsCopy(c, e.frame, lvl - 1, rest, i + 1);
      assert r[1..] == Rights(c.mem, e.frame, rest, lvl - 1, c.n);
    }
  }

  /** How the child's translation of page `b` compares with the parent's. */
  ghost predicate Translated(c: Start, mem: Memory, data: map<nat, Contents>,
                             src: nat, dst: nat, lvl: nat, k: nat, b: nat)
    requires c.n > 0
  {
    var child, parent := Walk(mem, dst, b, lvl + 1, c.n), Walk(mem, src, b, lvl + 1, c.n);
    match FateOf(c, src, lvl, b, k)
    case Copy(i) =>
      && i < |c.pool| && child == Some(c.pool[i])
      && parent.Some? && !c.New(parent.value) && Bytes(data, c.pool[i]) == Bytes(c.data, parent.value)
      && Rights(mem, dst, b, lvl, c.n) == Rights(mem, src, b, lvl, c.n)
    case Share => child == parent && Rights(mem, dst, b, lvl, c.n) == Rights(mem, src, b, lvl, c.n)
    case Hole => child == None
    case Unsaid => true
  }

  lemma {:induction false} Translate(c: Start, mem: Memory, data: map<nat, Contents>,
                                     src: nat, dst: nat, lvl: nat, vpn: nat, k: nat, b: nat)
    requires c.Valid() && Undisturbed(c, mem) && c.Clear(src, lvl, vpn)
    requires b < Pow(c.n, lvl + 1) && b / Pow(c.n, lvl) >= 0
    requires SlotCopied(c, mem, data, src, dst, lvl, k, b / Pow(c.n, lvl))
    ensures Translated(c, mem, data, src, dst, lvl, k, b)
    decreases lvl
  {
    hide Pow, At, Walk, Copied, Below, Start.Clear, Start.Need;
    ClearTable(c, src, lvl, vpn);
    TopDigit(b, lvl, c.n);
    WalkDown(mem, dst, b, lvl, c.n);
    WalkDown(mem, src, b, lvl, c.n);
    var s, rest := b / Pow(c.n, lvl), b % Pow(c.n, lvl);
    var e, i := At(c.mem, src, s), k + c.Need(src, lvl, s);
    if IsUser(e) {
      ClearUser(c, src, lvl, vpn, s);
      if lvl > 0 {
        TopDigit(rest, lvl - 1, c.n);
        CopiedSlot(c, mem, data, e.frame, c.pool[i], lvl - 1, i + 1, c.n, rest / Pow(c.n, lvl - 1));
        Translate(c, mem, data, e.frame, c.pool[i], lvl - 1, Below(vpn, s, c.n), i + 1, rest);
      } else {
        WalkNowhere(mem, rest, c.n);
      }
    }
  }

  lemma CopiedSlot(c: Start, mem: Memory, data: map<nat, Contents>,
                   src: nat, dst: nat, lvl: nat, k: nat, upto: nat, s: nat)
    requires Copied(c, mem, data, src, dst, lvl, k, upto) && s < upto
    ensures SlotCopied(c, mem, data, src, dst, lvl, k, s)
  {
    hide SlotCopied;
  }

  lemma WalkNowhere(mem: Memory, b: nat, n: nat)
    requires n > 0
    ensures forall f: nat :: Walk(mem, f, b, 0, n) == Some(f)
  {}

  /** A page's frame is among those of its slot. */
  lemma {:induction false} FateRange(c: Start, f: nat, lvl: nat, b: nat, k: nat)
    requires c.n > 0 && b < Pow(c.n, lvl + 1) && FateOf(c, f, lvl, b, k).Copy?
    ensures 0 <= b / Pow(c.n, lvl) < c.n
    ensures var s := b / Pow(c.n, lvl);
      k + c.Need(f, lvl, s) <= FateOf(c, f, lvl, b, k).index < k + c.Need(f, lvl, s + 1)
    decreases lvl
  {
    hide Pow, At;
    TopDigit(b, lvl, c.n);
    var s, rest := b / Pow(c.n, lvl), b % Pow(c.n, lvl);
    var e, i := At(c.mem, f, s), k + c.Need(f, lvl, s);
    assert IsUser(e);
    assert c.Need(f, lvl, s + 1) == c.Need(f, lvl, s) + c.SlotNeed(f, lvl, s);
    if lvl > 0 {
      FateRange(c, e.frame, lvl - 1, rest, i + 1);
      NeedMonotone(c, e.frame, lvl - 1, rest / Pow(c.n, lvl - 1) + 1, c.n);
    }
  }

  /** Different user pages get different frames. */
  lemma {:induction false} OwnFrames(c: Start, f: nat, lvl: nat, a: nat, b: nat, k: nat)
    requires c.n > 0 && a < Pow(c.n, lvl + 1) && b < Pow(c.n, lvl + 1)
    requires FateOf(c, f, lvl, a, k).Copy? && FateOf(c, f, lvl, a, k) == FateOf(c, f, lvl, b, k)
    ensures a == b
    decreases lvl
  {
    hide Pow, At;
    TopDigit(a, lvl, c.n);
    TopDigit(b, lvl, c.n);
    FateRange(c, f, lvl, a, k);
    FateRange(c, f, lvl, b, k);
    var s, t := a / Pow(c.n, lvl), b / Pow(c.n, lvl);
    if s < t {
      NeedMonotone(c, f, lvl, s + 1, t);
    } else if t < s {
      NeedMonotone(c, f, lvl, t + 1, s);
    } else if lvl > 0 {
      var i := k + c.Need(f, lvl, s);
      OwnFrames(c, At(c.mem, f, s).frame, lvl - 1, a % Pow(c.n, lvl), b % Pow(c.n, lvl), i + 1);
    } else {
      PowZero(c.n);
    }
  }

  lemma PowZero(n: nat)
    ensures Pow(n, 0) == 1
  {}

  /** After a complete copy the child sees, at every page below its reference to itself, a frame
      of its own with the parent's contents, the parent's frame, or nothing. */
  lemma ChildTranslations(c: Start, mem: Memory, data: map<nat, Contents>, root: nat, levels: nat, b: nat)
    requires levels > 0 && c.Valid() && c.Clear(root, levels - 1, 0) && CopiedSpace(c, mem, data, root, levels)
    requires b < (c.n - 1) * Pow(c.n, levels - 1)
    ensures Translated(c, mem, data, root, c.child, levels - 1, 0, b)
  {
    hide Copied, SlotCopied, Translated;
    var p := Pow(c.n, levels - 1);
    assert Pow(c.n, levels) == c.n * p == (c.n - 1) * p + p;
    TopDigit(b, levels - 1, c.n);
    MulCancelLess(b / p, c.n - 1, p);
    CopiedSlot(c, mem, data, root, c.child, levels - 1, 0, c.n - 1, b / p);
    Translate(c, mem, data, root, c.child, levels - 1, 0, 0, b);
  }

  /** Dropping the child's space gives back exactly the frames of the copy, each once, and takes
      its usage back to zero. */
  lemma DropChild(c: Start, mem: Memory, data: map<nat, Contents>, root: nat, levels: nat)
    requires levels > 0 && c.Valid() && CopiedSpace(c, mem, data, root, levels)
    requires !IsUser(At(c.mem, root, c.n - 1)) && c.Need(root, levels - 1, c.n) <= |c.pool|
    ensures var taken, back := c.Need(root, levels - 1, c.n), Released(mem, c.child, levels - 1, c.n, c.n);
      Permuted(back, c.pool[..taken]) && |back| == taken
  {
    hide *;
    var n := c.n;
    LastSlotFree(c, mem, data, root, levels);
    DropReleases(c, mem, data, root, c.child, levels - 1, 0, n - 1);
    ReleasedStep(mem, c.child, levels - 1, n, n);
    assert c.pool[0..c.Need(root, levels - 1, n)] == c.pool[..c.Need(root, levels - 1, n)];
    PermutedLength(Released(mem, c.child, levels - 1, n, n), c.pool[..c.Need(root, levels - 1, n)]);
  }

  lemma LastSlotFree(c: Start, mem: Memory, data: map<nat, Contents>, root: nat, levels: nat)
    requires levels > 0 && c.Valid() && CopiedSpace(c, mem, data, root, levels) && !IsUser(At(c.mem, root, c.n - 1))
    ensures c.n > 2 && c.Need(root, levels - 1, c.n) == c.Need(root, levels - 1, c.n - 1)
    ensures Copied(c, mem, data, root, c.child, levels - 1, 0, c.n - 1) && !IsUser(At(mem, c.child, c.n - 1))
  {
    hide Copied, At;
  }

  lemma PermutedLength(a: seq<nat>, b: seq<nat>)
    requires Permuted(a, b)
    ensures |a| == |b|
  {
    assert |multiset(a)| == |multiset(b)|;
  }

  // What the status says.

  /** The status of `page_map_copy`, by the contract of `Machine.PageMapCopy`. */
  ghost predicate ReportsSuccess(c: Start, root: nat, lvl: nat) {
    forall s: nat | s < c.n && IsUser(At(c.mem, root, s)) :: c.Need(root, lvl, s) < |c.pool|
  }

  /** The frames run out inside the last of the root's user tables. */
  ghost predicate RunsOutInLast(c: Start, root: nat, lvl: nat, s: nat) {
    && s < c.n && (forall t: nat | s < t < c.n :: !IsUser(At(c.mem, root, t)))
    && c.Need(root, lvl, s) < |c.pool| < c.Need(root, lvl, s + 1)
  }

  /** A copy that ran out of frames is reported as complete exactly if it ran out there: the inner
      results of the traversal are not looked at. */
  lemma StatusOfCopy(c: Start, root: nat, lvl: nat)
    ensures c.Need(root, lvl, c.n) <= |c.pool| ==> ReportsSuccess(c, root, lvl)
    ensures c.Need(root, lvl, c.n) > |c.pool| ==>
      (ReportsSuccess(c, root, lvl) <==> exists s: nat :: RunsOutInLast(c, root, lvl, s))
  {
    forall s: nat | s < c.n && IsUser(At(c.mem, root, s)) ensures c.Need(root, lvl, s) < c.Need(root, lvl, c.n) {
      NeedMonotone(c, root, lvl, s + 1, c.n);
    }
    if c.Need(root, lvl, c.n) > |c.pool| {
      var s := LastUser(c, root, lvl, c.n);
      forall t: nat | t < c.n && IsUser(At(c.mem, root, t)) ensures c.Need(root, lvl, t) <= c.Need(root, lvl, s) {
        NeedMonotone(c, root, lvl, t, s);
      }
      if ReportsSuccess(c, root, lvl) { assert RunsOutInLast(c, root, lvl, s); }
      forall t: nat | RunsOutInLast(c, root, lvl, t) ensures t == s {
        assert c.Need(root, lvl, t + 1) == c.Need(root, lvl, t) + c.SlotNeed(root, lvl, t);
        assert IsUser(At(c.mem, root, t));
      }
    }
  }

  lemma {:induction false} LastUser(c: Start, root: nat, lvl: nat, upto: nat) returns (s: nat)
    requires c.Need(root, lvl, upto) > 0
    ensures s < upto && IsUser(At(c.mem, root, s)) && c.Need(root, lvl, s + 1) == c.Need(root, lvl, upto)
    ensures forall t: nat | s < t < upto :: !IsUser(At(c.mem, root, t))
  {
    s := upto - 1;
    if !IsUser(At(c.mem, root, upto - 1)) { s := LastUser(c, root, lvl, upto - 1); }
  }

  /** Two levels, one user table with one user page, one frame left: the page gets no copy and the
      result is success. */
  method IncompleteCopy() returns (ok: bool, m: Machine, ghost c: Start)
    ensures ok && m.taken == |c.pool| < c.Need(1, 1, 3)
  {
    var none := [ZERO, ZERO, ZERO];
    var mem := map[1 := [Entry(2, {Present, User}), ZERO, RootRef(1)], 2 := [Entry(5, {Present, User}), ZERO, ZERO],
                   6 := none, 7 := none, 9 := none];
    m := new Machine(3, mem, map[5 := [1, 2, 3]], [7], 9, 0);
    c := Start(3, mem[1 := mem[1][1 := RootRef(6)]], m.data, [7], 6, 9, 0, 9);
    IncompleteStart(c);
    ok := m.PageMapCopy(1, 6, 2, c);
  }

  lemma IncompleteStart(c: Start)
    requires c.n == 3 && c.readable == 9 && c.pool == [7] && c.child == 6 && c.scratchTable == 9 && c.scratchSlot == 0
    requires Entries(c.mem, 1) == [Entry(2, {Present, User}), RootRef(6), RootRef(1)]
    requires Entries(c.mem, 2) == [Entry(5, {Present, User}), ZERO, ZERO] && Entries(c.mem, 9) == [ZERO, ZERO, ZERO]
    ensures c.Valid() && c.Clear(1, 1, 0) && c.Need(1, 1, 3) == 2 && ReportsSuccess(c, 1, 1)
  {
    assert At(c.mem, 1, 0) == Entry(2, {Present, User});
    assert At(c.mem, 1, 1) == RootRef(6) && At(c.mem, 1, 2) == RootRef(1);
    assert At(c.mem, 2, 0) == Entry(5, {Present, User}) && At(c.mem, 2, 1) == ZERO && At(c.mem, 2, 2) == ZERO;
    assert At(c.mem, 9, 0) == ZERO;
    hide At;
    assert c.Clear(2, 0, 0) && c.Clear(1, 1, 0);
    assert c.Need(2, 0, 0) == 0 && c.Need(2, 0, 1) == 1 && c.Need(2, 0, 2) == 1 && c.Need(2, 0, 3) == 1;
    assert c.Need(1, 1, 0) == 0 && c.Need(1, 1, 1) == 2 && c.Need(1, 1, 2) == 2 && c.Need(1, 1, 3) == 2;
  }
}
