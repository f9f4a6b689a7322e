/** How many user entries the tables hold: what `page_map_drop` takes off user_usage
    (arch/x86/mm/page.c:194-218). */
module PageCount {
  import opened Base
  import opened Arith
  import opened PageTables
  import opened PageTree

  /** The user entries of the slots below `s` of a table at level `lvl`, and of the tables below. */
  function Owned(mem: Memory, f: nat, lvl: nat, s: nat, n: nat): nat
    decreases lvl, s
  {
    if s == 0 then 0 else Owned(mem, f, lvl, s - 1, n) + SlotOwned(mem, f, lvl, s - 1, n)
  }

  function SlotOwned(mem: Memory, f: nat, lvl: nat, s: nat, n: nat): nat
    decreases lvl, s
  {
    var e := At(mem, f, s);
    if !IsUser(e) then 0 else 1 + if lvl == 0 then 0 else Owned(mem, e.frame, lvl - 1, n, n)
  }

  lemma {:induction false} OwnedReads(mem: Memory, mem': Memory, f: nat, lvl: nat, s: nat, n: nat)
    requires forall g: nat, t: nat :: At(mem', g, t) == At(mem, g, t)
    ensures Owned(mem', f, lvl, s, n) == Owned(mem, f, lvl, s, n)
    decreases lvl, s
  {
    hide At;
    if s > 0 {
      OwnedReads(mem, mem', f, lvl, s - 1, n);
      if lvl > 0 { OwnedReads(mem, mem', At(mem, f, s - 1).frame, lvl - 1, n, n); }
    }
  }

  /** All tables are user tables, and references to roots are not for users. */
  ghost predicate UserTables(mem: Memory, root: nat, n: nat, levels: nat)
    requires n > 0
  {
    forall q: nat, d: nat, f: nat | IsTable(mem, root, n, levels, q, d, f) :: UserSlots(mem, f, n, d + 1 < levels)
  }

  ghost predicate UserSlots(mem: Memory, f: nat, n: nat, upper: bool) {
    forall s: nat | s < n :: UserSlot(At(mem, f, s), upper)
  }

  predicate UserSlot(e: Entry, upper: bool) {
    if Self in e.flags then !IsUser(e) else upper && IsPresent(e) ==> IsUser(e)
  }

  /** The path without its last `k` digits. */
  function Up(x: nat, k: nat, n: nat): nat
    requires n > 0
    decreases k
  {
    if k == 0 then x else Up(x / n, k - 1, n)
  }

  lemma {:induction false} UpStep(x: nat, k: nat, n: nat)
    requires n > 0
    ensures Up(x, k + 1, n) == Up(x, k, n) / n
    decreases k
  {
    if k > 0 { UpStep(x / n, k - 1, n); }
  }

  lemma {:induction false} ThroughUp(x: nat, a: nat, q: nat, b: nat, n: nat)
    requires n > 0 && b <= a
    ensures Through(x, a, q, b, n) <==> q == Up(x, a - b, n)
    decreases a
  {
    if a > b { ThroughUp(x / n, a - 1, q, b, n); }
  }

  /** Slot `s` of the table on path `q` leads to path `n * q + s`. */
  lemma ChildPath(mem: Memory, root: nat, n: nat, levels: nat, q: nat, c: nat, g: nat, s: nat)
    requires n > 0 && IsTable(mem, root, n, levels, q, c, g) && s < n && Self !in At(mem, g, s).flags
    ensures (q * n + s) / n == q && (q * n + s) % n == s
    ensures PlainPath(mem, root, q * n + s, c + 1, n)
    ensures IsPresent(At(mem, g, s)) ==> Walk(mem, root, q * n + s, c + 1, n) == Some(At(mem, g, s).frame)
  {
    hide At;
    DivModUnique(q * n + s, n, q, s);
  }

  lemma UserChild(mem: Memory, root: nat, n: nat, levels: nat, q: nat, c: nat, g: nat, s: nat)
    requires n > 0 && UserTables(mem, root, n, levels) && IsTable(mem, root, n, levels, q, c, g) && s < n
    requires IsUser(At(mem, g, s)) && c + 1 < levels
    ensures IsTable(mem, root, n, levels, q * n + s, c + 1, At(mem, g, s).frame)
  {
    hide At, PlainPath, Walk;
    assert UserSlots(mem, g, n, c + 1 < levels);
    assert UserSlot(At(mem, g, s), c + 1 < levels);
    ChildPath(mem, root, n, levels, q, c, g, s);
  }

  /** What is written elsewhere does not count. */
  lemma {:induction false} OwnedOutside(mem: Memory, root: nat, n: nat, levels: nat, i: nat, d: nat, f: nat, e: Entry,
                                        q: nat, c: nat, g: nat, s: nat)
    requires CanWrite(mem, root, n, levels, i, d, f, e) && f in mem && |mem[f]| == n > 1
    requires UserTables(mem, root, n, levels) && IsTable(mem, root, n, levels, q, c, g)
    requires !Through(i, d + 1, q, c, n) && s <= n
    ensures Owned(Write(mem, f, i % n, e), g, levels - 1 - c, s, n) == Owned(mem, g, levels - 1 - c, s, n)
    decreases levels - c, s
  {
    if s > 0 {
      hide Write, At, Tree, UserTables, CanWrite, PlainPath, Walk;
      OwnedOutside(mem, root, n, levels, i, d, f, e, q, c, g, s - 1);
      OtherTable(mem, root, n, levels, i, d, f, e, q, c, g);
      AtWrite(mem, f, i % n, e, g, s - 1);
      if IsUser(At(mem, g, s - 1)) && c + 1 < levels {
        UserChild(mem, root, n, levels, q, c, g, s - 1);
        NotThrough(i, d + 1, q, c, s - 1, n);
        OwnedOutside(mem, root, n, levels, i, d, f, e, q * n + (s - 1), c + 1, At(mem, g, s - 1).frame, n);
      }
    }
  }

  lemma OtherTable(mem: Memory, root: nat, n: nat, levels: nat, i: nat, d: nat, f: nat, e: Entry,
                   q: nat, c: nat, g: nat)
    requires CanWrite(mem, root, n, levels, i, d, f, e) && n > 1 && IsTable(mem, root, n, levels, q, c, g)
    ensures g == f ==> Through(i, d + 1, q, c, n)
  {
    hide Tree, PlainPath, Walk;
    if g == f { OneTable(mem, root, n, levels, i, d, f, e, q, c); }
  }

  lemma NotThrough(x: nat, a: nat, q: nat, c: nat, s: nat, n: nat)
    requires n > 0 && s < n && !Through(x, a, q, c, n)
    ensures !Through(x, a, q * n + s, c + 1, n)
  {
    if c + 1 <= a {
      ThroughUp(x, a, q, c, n);
      ThroughUp(x, a, q * n + s, c + 1, n);
      UpStep(x, a - c - 1, n);
      DivModUnique(q * n + s, n, q, s);
    }
  }

  /** What is written counts in every table on the way to it. */
  lemma {:induction false} OwnedThrough(mem: Memory, root: nat, n: nat, levels: nat, i: nat, d: nat, f: nat, e: Entry,
                                        c: nat, g: nat, s: nat)
    requires CanWrite(mem, root, n, levels, i, d, f, e) && f in mem && |mem[f]| == n > 1 && c <= d
    requires UserTables(mem, root, n, levels) && IsTable(mem, root, n, levels, Up(i, d + 1 - c, n), c, g) && s <= n
    ensures var mem', t, lvl := Write(mem, f, i % n, e), Up(i, d - c, n) % n, levels - 1 - d;
      Owned(mem', g, levels - 1 - c, s, n) == Owned(mem, g, levels - 1 - c, s, n)
        + if t < s then SlotOwned(mem', f, lvl, i % n, n) - SlotOwned(mem, f, lvl, i % n, n) else 0
    decreases levels - c, s
  {
    if s > 0 {
      hide Write, At, Tree, UserTables, CanWrite, PlainPath, Walk;
      var q, t := Up(i, d + 1 - c, n), Up(i, d - c, n) % n;
      UpStep(i, d - c, n);
      OwnedThrough(mem, root, n, levels, i, d, f, e, c, g, s - 1);
      if s - 1 == t {
        SlotThrough(mem, root, n, levels, i, d, f, e, c, g);
        if c < d { OwnedThrough(mem, root, n, levels, i, d, f, e, c + 1, At(mem, g, t).frame, n); }
      } else {
        SlotOutside(mem, root, n, levels, i, d, f, e, c, g, s - 1);
      }
    }
  }

  /** The slot on the way to the entry. */
  lemma SlotThrough(mem: Memory, root: nat, n: nat, levels: nat, i: nat, d: nat, f: nat, e: Entry, c: nat, g: nat)
    requires CanWrite(mem, root, n, levels, i, d, f, e) && f in mem && |mem[f]| == n > 1 && c <= d
    requires UserTables(mem, root, n, levels) && IsTable(mem, root, n, levels, Up(i, d + 1 - c, n), c, g)
    ensures var mem', t := Write(mem, f, i % n, e), Up(i, d - c, n) % n;
      if c == d then g == f && t == i % n
      else
        && At(mem', g, t) == At(mem, g, t) && IsUser(At(mem, g, t))
        && IsTable(mem, root, n, levels, Up(i, d - c, n), c + 1, At(mem, g, t).frame)
  {
    hide Write, At, Tree;
    UpStep(i, d - c, n);
    if c == d {
      assert Up(i, 1, n) == i / n;
    } else {
      var x := Up(i, d - c, n);
      WayThere(mem, root, n, i, d, c + 1);
      if g == f { OneTable(mem, root, n, levels, i, d, f, e, x / n, c); }
      AtWrite(mem, f, i % n, e, g, x % n);
      assert UserSlots(mem, g, n, c + 1 < levels);
      assert UserSlot(At(mem, g, x % n), c + 1 < levels);
    }
  }

  /** The path to the entry is plain and present all the way. */
  lemma {:induction false} WayThere(mem: Memory, root: nat, n: nat, i: nat, d: nat, c: nat)
    requires n > 0 && c <= d && PlainPath(mem, root, i, d + 1, n) && Walk(mem, root, i / n, d, n).Some?
    ensures PlainPath(mem, root, Up(i, d + 1 - c, n), c, n) && Walk(mem, root, Up(i, d + 1 - c, n), c, n).Some?
    decreases d - c
  {
    hide At;
    if c == d {
      assert Up(i, 1, n) == i / n;
    } else {
      WayThere(mem, root, n, i, d, c + 1);
      UpStep(i, d - c, n);
    }
  }

  lemma SlotOutside(mem: Memory, root: nat, n: nat, levels: nat, i: nat, d: nat, f: nat, e: Entry, c: nat, g: nat,
                    s: nat)
    requires CanWrite(mem, root, n, levels, i, d, f, e) && f in mem && |mem[f]| == n > 1 && c <= d
    requires UserTables(mem, root, n, levels) && IsTable(mem, root, n, levels, Up(i, d + 1 - c, n), c, g)
    requires s < n && s != Up(i, d - c, n) % n
    ensures SlotOwned(Write(mem, f, i % n, e), g, levels - 1 - c, s, n) == SlotOwned(mem, g, levels - 1 - c, s, n)
  {
    hide Write, At, Tree, UserTables, CanWrite, PlainPath, Walk;
    var q := Up(i, d + 1 - c, n);
    UpStep(i, d - c, n);
    AtWrite(mem, f, i % n, e, g, s);
    if g == f {
      hide Up, IsTable;
      SameSlot(mem, root, n, levels, i, d, f, e, q, c);
    }
    if IsUser(At(mem, g, s)) && c + 1 < levels {
      UserChild(mem, root, n, levels, q, c, g, s);
      DivModUnique(q * n + s, n, q, s);
      ThroughUp(i, d + 1, q * n + s, c + 1, n);
      OwnedOutside(mem, root, n, levels, i, d, f, e, q * n + s, c + 1, At(mem, g, s).frame, n);
    }
  }

  lemma SameSlot(mem: Memory, root: nat, n: nat, levels: nat, i: nat, d: nat, f: nat, e: Entry, q: nat, c: nat)
    requires CanWrite(mem, root, n, levels, i, d, f, e) && n > 1 && IsTable(mem, root, n, levels, q, c, f) && c <= d
    ensures c == d && Up(i, d - c, n) == i
  {
    hide Tree, PlainPath, Walk;
    OneTable(mem, root, n, levels, i, d, f, e, q, c);
  }

  /** Writing an entry changes the count of the whole space by what it changes at that entry. */
  lemma WriteOwned(mem: Memory, root: nat, n: nat, levels: nat, i: nat, d: nat, f: nat, e: Entry)
    requires CanWrite(mem, root, n, levels, i, d, f, e) && f in mem && |mem[f]| == n > 1
    requires UserTables(mem, root, n, levels)
    ensures var mem' := Write(mem, f, i % n, e);
      Owned(mem', root, levels - 1, n, n) == Owned(mem, root, levels - 1, n, n)
        + SlotOwned(mem', f, levels - 1 - d, i % n, n) - SlotOwned(mem, f, levels - 1 - d, i % n, n)
  {
    hide Write, At, Tree, UserTables, Owned, SlotOwned;
    WayThere(mem, root, n, i, d, 0);
    OwnedThrough(mem, root, n, levels, i, d, f, e, 0, root, n);
  }

  function One(b: bool): nat { if b then 1 else 0 }

  function UsersIn(s: seq<Entry>): nat {
    if |s| == 0 then 0 else UsersIn(s[..|s| - 1]) + One(IsUser(s[|s| - 1]))
  }

  /** The entries of the `k` pages from `lo` on. */
  function PageEntries(mem: Memory, root: nat, lo: nat, k: nat, n: nat, levels: nat): (s: seq<Entry>)
    requires n > 0 && levels > 0
    ensures |s| == k && forall j | 0 <= j < k :: s[j] == PageEntry(mem, root, lo + j, n, levels)
  {
    seq(k, j requires 0 <= j < k => PageEntry(mem, root, lo + j, n, levels))
  }

  lemma OneUser(e: Entry)
    ensures UsersIn([e]) == One(IsUser(e))
  {
    assert [e][..0] == [];
  }

  lemma NoUsers(s: seq<Entry>)
    ensures UsersIn(s[..0]) == 0
  {}

  lemma MoreUsers(s: seq<Entry>, k: nat)
    requires k < |s|
    ensures UsersIn(s[..k + 1]) == UsersIn(s[..k]) + One(IsUser(s[k]))
  {
    assert s[..k + 1][..k] == s[..k];
  }

  /** Mapping or unmapping a page. */
  lemma PageOwned(mem: Memory, root: nat, n: nat, levels: nat, i: nat, f: nat, e: Entry)
    requires levels > 0 && CanWrite(mem, root, n, levels, i, levels - 1, f, e) && f in mem && |mem[f]| == n > 1
    requires UserTables(mem, root, n, levels)
    ensures var mem' := Write(mem, f, i % n, e);
      && UserTables(mem', root, n, levels)
      && Owned(mem', root, levels - 1, n, n) == Owned(mem, root, levels - 1, n, n)
           + One(IsUser(e)) - One(IsUser(PageEntry(mem, root, i, n, levels)))
  {
    hide Write, At, Tree, UserTables, Owned;
    WriteOwned(mem, root, n, levels, i, levels - 1, f, e);
    AtWrite(mem, f, i % n, e, f, i % n);
    PageUserTables(mem, root, n, levels, i, f, e);
  }

  lemma PageUserTables(mem: Memory, root: nat, n: nat, levels: nat, i: nat, f: nat, e: Entry)
    requires levels > 0 && CanWrite(mem, root, n, levels, i, levels - 1, f, e) && f in mem && |mem[f]| == n > 1
    requires UserTables(mem, root, n, levels)
    ensures UserTables(Write(mem, f, i % n, e), root, n, levels)
  {
    hide Write, At, Tree, PlainPath, Walk;
    var mem' := Write(mem, f, i % n, e);
    forall q: nat, d: nat, g: nat | IsTable(mem', root, n, levels, q, d, g)
      ensures UserSlots(mem', g, n, d + 1 < levels)
    {
      PageWalk(mem, root, n, levels, i, f, e, q, d);
      assert IsTable(mem, root, n, levels, q, d, g);
      if g == f { OneTable(mem, root, n, levels, i, levels - 1, f, e, q, d); }
      WriteUserSlots(mem, f, i % n, e, g, n, d + 1 < levels);
    }
  }

  lemma WriteUserSlots(mem: Memory, f: nat, s: nat, e: Entry, g: nat, n: nat, upper: bool)
    requires f in mem && s < |mem[f]| && UserSlots(mem, g, n, upper) && (g == f ==> UserSlot(e, upper))
    ensures UserSlots(Write(mem, f, s, e), g, n, upper)
  {
    hide Write, At, UserSlot;
    forall t: nat | t < n ensures UserSlot(At(Write(mem, f, s, e), g, t), upper) { AtWrite(mem, f, s, e, g, t); }
  }

  /** A new table for users. */
  lemma GrowOwned(mem: Memory, root: nat, n: nat, levels: nat, i: nat, d: nat, f: nat, e: Entry)
    requires CanGrow(mem, root, n, levels, i, d, f, e) && IsUser(e) && UserTables(mem, root, n, levels)
    ensures var mem' := Grow(mem, f, i % n, e, n);
      UserTables(mem', root, n, levels) && Owned(mem', root, levels - 1, n, n) == Owned(mem, root, levels - 1, n, n) + 1
  {
    hide Write, Grow, At, Tree, UserTables, CanWrite;
    WriteOwned(mem, root, n, levels, i, d, f, e);
    GrowReads(mem, f, i % n, e, n);
    OwnedReads(Write(mem, f, i % n, e), Grow(mem, f, i % n, e, n), root, levels - 1, n, n);
    AtWrite(mem, f, i % n, e, f, i % n);
    NewTableEmpty(mem, f, i % n, e);
    OwnedEmpty(Write(mem, f, i % n, e), e.frame, levels - 2 - d, n, n);
    GrowUserTables(mem, root, n, levels, i, d, f, e);
  }

  lemma NewTableEmpty(mem: Memory, f: nat, s: nat, e: Entry)
    requires f in mem && s < |mem[f]| && e.frame !in mem
    ensures forall t: nat :: At(Write(mem, f, s, e), e.frame, t) == ZERO
  {}

  lemma {:induction false} OwnedEmpty(mem: Memory, f: nat, lvl: nat, s: nat, n: nat)
    requires forall t: nat :: At(mem, f, t) == ZERO
    ensures Owned(mem, f, lvl, s, n) == 0
  {
    hide At;
    if s > 0 { OwnedEmpty(mem, f, lvl, s - 1, n); }
  }

  lemma GrowUserTables(mem: Memory, root: nat, n: nat, levels: nat, i: nat, d: nat, f: nat, e: Entry)
    requires CanGrow(mem, root, n, levels, i, d, f, e) && IsUser(e) && UserTables(mem, root, n, levels)
    ensures UserTables(Grow(mem, f, i % n, e, n), root, n, levels)
  {
    hide Write, Grow, At, Tree, PlainPath, Walk, CanWrite;
    WriteFacts(mem, root, n, levels, i, d, f, e);
    var mem' := Grow(mem, f, i % n, e, n);
    GrowReads(mem, f, i % n, e, n);
    NewTableEmpty(mem, f, i % n, e);
    forall q: nat, c: nat, g: nat | IsTable(mem', root, n, levels, q, c, g)
      ensures UserSlots(mem', g, n, c + 1 < levels)
    {
      GrowWalk(mem, root, n, levels, i, d, f, e, q, c);
      if g != e.frame {
        assert IsTable(mem, root, n, levels, q, c, g);
        WriteUserSlots(mem, f, i % n, e, g, n, c + 1 < levels);
      }
    }
  }
}
