/** What user_usage is after pages have been mapped and the address space is dropped: `page_map` charges
    the tables it makes, `page_map_drop` takes off the pages as well (arch/x86/mm/page.c). */
module Usage {
  import opened Base
  import opened PageTables
  import opened PageCount
  import opened PageMap
  import opened Fork

  /** `page_map_drop` releases as many frames as there are user entries. */
  lemma {:induction false} ReleasedOwned(mem: Memory, f: nat, lvl: nat, s: nat, n: nat)
    ensures |Released(mem, f, lvl, s, n)| == Owned(mem, f, lvl, s, n)
    decreases lvl, s
  {
    hide At;
    if s > 0 {
      ReleasedStep(mem, f, lvl, s, n);
      ReleasedOwned(mem, f, lvl, s - 1, n);
      var e := At(mem, f, s - 1);
      if IsUser(e) && lvl > 0 { ReleasedOwned(mem, e.frame, lvl - 1, n, n); }
    }
  }

  /** `page_map_drop`. */
  method Drop(a: AddressSpace) returns (m: Machine)
    requires a.levels > 0
    ensures fresh(m) && m.mem == a.mem && m.released == Released(a.mem, a.root, a.levels - 1, a.n, a.n)
    ensures m.usage == a.usage - a.UserEntries()
  {
    m := new Machine(a.n, a.mem, map[], [], 0, 0);
    m.usage := a.usage;
    m.DropTable(a.root, a.levels - 1);
    ReleasedOwned(a.mem, a.root, a.levels - 1, a.n, a.n);
  }

  /** What a call of `page_map` adds to the user entries without charging it. */
  ghost function Uncharged(bits: set<Flag>, tables: int, mapped: nat, before: int): int {
    if User in bits then mapped - before else tables - before
  }

  /** Mapping and then dropping: the count ends below what dropping alone leaves by the user pages that
      were not user pages before, or, for kernel pages, by the tables made for them. */
  method MapThenDrop(a: AddressSpace, vpn: nat, frame: nat, npages: nat, bits: set<Flag>) returns (ok: bool, m: Machine)
    requires a.Valid() && a.AllUser() && vpn + npages > 0 && a.PlainRange(vpn, vpn + npages - 1) && Self !in bits
    modifies a
    ensures var mapped, before := if ok then npages else 0, if ok then old(a.UserPages(vpn, npages)) else 0;
      m.usage == old(a.usage - a.UserEntries()) - Uncharged(bits, a.Tables() - old(a.Tables()), mapped, before)
    ensures ok && User in bits ==>
      (m.usage == old(a.usage - a.UserEntries()) <==> old(a.UserPages(vpn, npages)) == npages)
    ensures !ok && User in bits ==> m.usage == old(a.usage - a.UserEntries())
  {
    ok := a.Map(vpn, frame, npages, bits);
    m := Drop(a);
  }

  /** One new user page: the count ends one too low. */
  method OneMorePage(a: AddressSpace, q: nat, frame: nat, bits: set<Flag>) returns (ok: bool, m: Machine)
    requires a.Valid() && a.AllUser() && a.Plain(0, q) && Self !in bits && User in bits && !IsUser(a.Page(q))
    modifies a
    ensures ok ==> m.usage == old(a.usage - a.UserEntries()) - 1
  {
    assert a.UserPages(q, 1) == 0 by {
      assert a.Pages(q, 1) == [a.Page(q)];
      OneUser(a.Page(q));
    }
    hide AddressSpace.Page, AddressSpace.Plain, AddressSpace.AllUser, AddressSpace.Valid, AddressSpace.UserEntries;
    hide AddressSpace.UserPages;
    ok, m := MapThenDrop(a, q, frame, 1, bits);
  }
}
