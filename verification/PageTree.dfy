/** Page tables as a tree of the tables reached along plain paths, and what writing an entry does to
    it (arch/x86/mm/page.c). */
module PageTree {
  import opened Base
  import opened Arith
  import opened PageTables

  /** A path that meets no reference to a root: no entry on it carries PG_SELF. The others lead
      into the windows. */
  predicate PlainPath(mem: Memory, root: nat, q: nat, d: nat, n: nat)
    requires n > 0
    decreases d
  {
    if d == 0 then q == 0
    else
      && PlainPath(mem, root, q / n, d - 1, n)
      && match Walk(mem, root, q / n, d - 1, n)
         case None => true
         case Some(f) => Self !in At(mem, f, q % n).flags
  }

  /** The path `q` of `c` digits begins with the path `i` of `d` digits. */
  predicate Through(q: nat, c: nat, i: nat, d: nat, n: nat)
    requires n > 0
    decreases c
  {
    c >= d && if c == d then q == i else Through(q / n, c - 1, i, d, n)
  }

  /** Tables reached along different plain paths are different, and are tables. */
  ghost predicate Tree(mem: Memory, root: nat, n: nat, levels: nat) {
    && n > 1 && levels > 0
    && (forall q, d, f | IsTable(mem, root, n, levels, q, d, f) :: f in mem && |mem[f]| == n)
    && (forall q, d, r, e, f | IsTable(mem, root, n, levels, q, d, f) && IsTable(mem, root, n, levels, r, e, f) ::
          q == r && d == e)
  }

  ghost predicate IsTable(mem: Memory, root: nat, n: nat, levels: nat, q: nat, d: nat, f: nat)
    requires n > 0
  {
    d < levels && PlainPath(mem, root, q, d, n) && Walk(mem, root, q, d, n) == Some(f)
  }

  function Write(mem: Memory, f: nat, s: nat, e: Entry): Memory
    requires f in mem && s < |mem[f]|
  {
    mem[f := mem[f][s := e]]
  }

  lemma AtWrite(mem: Memory, f: nat, s: nat, e: Entry, g: nat, t: nat)
    requires f in mem && s < |mem[f]|
    ensures At(Write(mem, f, s, e), g, t) == if g == f && t == s then e else At(mem, g, t)
  {}

  /** Entry `e` may be written at entry i of the tables at depth d: a plain path leads there. */
  ghost predicate CanWrite(mem: Memory, root: nat, n: nat, levels: nat, i: nat, d: nat, f: nat, e: Entry) {
    && Tree(mem, root, n, levels) && d < levels && PlainPath(mem, root, i, d + 1, n)
    && Walk(mem, root, i / n, d, n) == Some(f) && Self !in e.flags
  }

  lemma WriteFacts(mem: Memory, root: nat, n: nat, levels: nat, i: nat, d: nat, f: nat, e: Entry)
    requires CanWrite(mem, root, n, levels, i, d, f, e)
    ensures n > 1 && levels > d && IsTable(mem, root, n, levels, i / n, d, f) && f in mem && |mem[f]| == n
    ensures 0 <= i % n < n && Self !in e.flags && Self !in At(mem, f, i % n).flags
  {
    hide Walk, At;
    assert IsTable(mem, root, n, levels, i / n, d, f);
  }

  /** What writing the entry does to paths that do not go through it: nothing. */
  lemma {:induction false} WriteOutside(mem: Memory, root: nat, n: nat, levels: nat, i: nat, d: nat, f: nat, e: Entry,
                                        q: nat, c: nat)
    requires CanWrite(mem, root, n, levels, i, d, f, e) && f in mem && |mem[f]| == n > 1
    requires c <= levels && !Through(q, c, i, d + 1, n)
    ensures var mem' := Write(mem, f, i % n, e);
      && (PlainPath(mem', root, q, c, n) <==> PlainPath(mem, root, q, c, n))
      && (PlainPath(mem, root, q, c, n) ==> Walk(mem', root, q, c, n) == Walk(mem, root, q, c, n))
    decreases c
  {
    hide Write, At, Tree;
    if c > 0 {
      WriteOutside(mem, root, n, levels, i, d, f, e, q / n, c - 1);
      var g := Walk(mem, root, q / n, c - 1, n);
      if PlainPath(mem, root, q / n, c - 1, n) && g.Some? {
        AtWrite(mem, f, i % n, e, g.value, q % n);
        if g.value == f {
          OneTable(mem, root, n, levels, i, d, f, e, q / n, c - 1);
          if q != i { SiblingSlots(q, i, n); }
        }
      }
    }
  }

  /** A table is reached by one plain path. */
  lemma OneTable(mem: Memory, root: nat, n: nat, levels: nat, i: nat, d: nat, f: nat, e: Entry, q: nat, c: nat)
    requires CanWrite(mem, root, n, levels, i, d, f, e) && c < levels && n > 1
    requires PlainPath(mem, root, q, c, n) && Walk(mem, root, q, c, n) == Some(f)
    ensures q == i / n && c == d
  {
    hide Walk, PlainPath, Tree;
    WriteFacts(mem, root, n, levels, i, d, f, e);
    SameTable(mem, root, n, levels, i / n, d, q, c, f);
  }

  lemma SameTable(mem: Memory, root: nat, n: nat, levels: nat, q: nat, c: nat, r: nat, d: nat, f: nat)
    requires Tree(mem, root, n, levels)
    requires IsTable(mem, root, n, levels, q, c, f) && IsTable(mem, root, n, levels, r, d, f)
    ensures q == r && c == d
  {
    hide Walk, PlainPath;
  }

  lemma SiblingSlots(q: nat, i: nat, n: nat)
    requires n > 0 && q / n == i / n && q != i
    ensures q % n != i % n
  {
    DivModDef(q, n);
    DivModDef(i, n);
  }

  lemma WriteThere(mem: Memory, root: nat, n: nat, levels: nat, i: nat, d: nat, f: nat, e: Entry)
    requires CanWrite(mem, root, n, levels, i, d, f, e) && f in mem && |mem[f]| == n > 1
    ensures var mem' := Write(mem, f, i % n, e);
      && PlainPath(mem', root, i, d + 1, n)
      && Walk(mem', root, i / n, d, n) == Some(f)
      && Walk(mem', root, i, d + 1, n) == if IsPresent(e) then Some(e.frame) else None
  {
    hide Write, At, Tree;
    WriteOutside(mem, root, n, levels, i, d, f, e, i / n, d);
    AtWrite(mem, f, i % n, e, f, i % n);
  }

  /** A table full of zeros reads like no table at all. */
  lemma {:induction false} SameReads(mem: Memory, mem': Memory, root: nat, q: nat, d: nat, n: nat)
    requires n > 0 && forall f: nat, s: nat :: At(mem', f, s) == At(mem, f, s)
    ensures Walk(mem', root, q, d, n) == Walk(mem, root, q, d, n)
    ensures PlainPath(mem', root, q, d, n) <==> PlainPath(mem, root, q, d, n)
    decreases d
  {
    hide At;
    if d > 0 { SameReads(mem, mem', root, q / n, d - 1, n); }
  }

  function Zeros(n: nat): seq<Entry> { seq(n, i => ZERO) }

  /** Hangs an empty table in frame g under entry i of the tables at depth d. */
  function Grow(mem: Memory, f: nat, s: nat, e: Entry, n: nat): Memory
    requires f in mem && s < |mem[f]|
  {
    Write(mem, f, s, e)[e.frame := Zeros(n)]
  }

  ghost predicate CanGrow(mem: Memory, root: nat, n: nat, levels: nat, i: nat, d: nat, f: nat, e: Entry) {
    && CanWrite(mem, root, n, levels, i, d, f, e) && d + 1 < levels && f in mem && |mem[f]| == n > 1
    && !IsPresent(At(mem, f, i % n)) && IsPresent(e) && e.frame !in mem
  }

  lemma GrowReads(mem: Memory, f: nat, s: nat, e: Entry, n: nat)
    requires f in mem && s < |mem[f]| && e.frame !in mem
    ensures forall g: nat, t: nat :: At(Grow(mem, f, s, e, n), g, t) == At(Write(mem, f, s, e), g, t)
  {}

  /** Paths that go through the new entry end in it. */
  lemma {:induction false} GrowThrough(mem: Memory, root: nat, n: nat, levels: nat, i: nat, d: nat, f: nat, e: Entry,
                                       q: nat, c: nat)
    requires CanGrow(mem, root, n, levels, i, d, f, e) && c <= levels && Through(q, c, i, d + 1, n)
    ensures PlainPath(mem, root, q, c, n) && Walk(mem, root, q, c, n) == None
    ensures var mem' := Grow(mem, f, i % n, e, n);
      PlainPath(mem', root, q, c, n) && Walk(mem', root, q, c, n) == if c == d + 1 then Some(e.frame) else None
    decreases c
  {
    hide Write, Grow, Tree;
    GrowReads(mem, f, i % n, e, n);
    if c == d + 1 {
      hide At;
      SameReads(Write(mem, f, i % n, e), Grow(mem, f, i % n, e, n), root, q, c, n);
      WriteThere(mem, root, n, levels, i, d, f, e);
    } else {
      GrowThrough(mem, root, n, levels, i, d, f, e, q / n, c - 1);
      AtWrite(mem, f, i % n, e, e.frame, q % n);
    }
  }

  /** A new empty table adds itself and changes no other plain path. */
  lemma GrowWalk(mem: Memory, root: nat, n: nat, levels: nat, i: nat, d: nat, f: nat, e: Entry, q: nat, c: nat)
    requires CanGrow(mem, root, n, levels, i, d, f, e) && c <= levels
    ensures var mem' := Grow(mem, f, i % n, e, n);
      && (PlainPath(mem', root, q, c, n) <==> PlainPath(mem, root, q, c, n))
      && (PlainPath(mem, root, q, c, n) ==>
            Walk(mem', root, q, c, n) == if q == i && c == d + 1 then Some(e.frame) else Walk(mem, root, q, c, n))
  {
    hide Write, Grow, Tree, At, Walk, PlainPath;
    if Through(q, c, i, d + 1, n) {
      GrowThrough(mem, root, n, levels, i, d, f, e, q, c);
    } else {
      WriteOutside(mem, root, n, levels, i, d, f, e, q, c);
      GrowReads(mem, f, i % n, e, n);
      SameReads(Write(mem, f, i % n, e), Grow(mem, f, i % n, e, n), root, q, c, n);
    }
  }

  lemma GrowTree(mem: Memory, root: nat, n: nat, levels: nat, i: nat, d: nat, f: nat, e: Entry)
    requires CanGrow(mem, root, n, levels, i, d, f, e)
    ensures Tree(Grow(mem, f, i % n, e, n), root, n, levels)
  {
    hide PlainPath, Walk, Grow, Write;
    var mem' := Grow(mem, f, i % n, e, n);
    GrowKeys(mem, f, i % n, e, n);
    forall q, c, g | IsTable(mem', root, n, levels, q, c, g)
      ensures g in mem' && |mem'[g]| == n
      ensures if g == e.frame then q == i && c == d + 1 else IsTable(mem, root, n, levels, q, c, g)
    {
      GrowWalk(mem, root, n, levels, i, d, f, e, q, c);
      if q != i || c != d + 1 { assert IsTable(mem, root, n, levels, q, c, g); }
    }
  }

  lemma GrowKeys(mem: Memory, f: nat, s: nat, e: Entry, n: nat)
    requires f in mem && s < |mem[f]| && e.frame !in mem
    ensures var mem' := Grow(mem, f, s, e, n);
      && mem'.Keys == mem.Keys + {e.frame} && |mem'[e.frame]| == n
      && forall g | g in mem :: |mem'[g]| == |mem[g]|
  {}

  /** Writing an entry of the last level changes the translation of one page and no table. */
  lemma PageWalk(mem: Memory, root: nat, n: nat, levels: nat, i: nat, f: nat, e: Entry, q: nat, c: nat)
    requires levels > 0 && CanWrite(mem, root, n, levels, i, levels - 1, f, e) && f in mem && |mem[f]| == n > 1
    requires c <= levels
    ensures var mem' := Write(mem, f, i % n, e);
      && (PlainPath(mem', root, q, c, n) <==> PlainPath(mem, root, q, c, n))
      && (PlainPath(mem, root, q, c, n) && !(q == i && c == levels) ==>
            Walk(mem', root, q, c, n) == Walk(mem, root, q, c, n))
      && Walk(mem', root, i, levels, n) == if IsPresent(e) then Some(e.frame) else None
  {
    hide Write, Tree, At, Walk, PlainPath;
    WriteThere(mem, root, n, levels, i, levels - 1, f, e);
    if !Through(q, c, i, levels, n) {
      WriteOutside(mem, root, n, levels, i, levels - 1, f, e, q, c);
    }
  }

  lemma PageKeepsTree(mem: Memory, root: nat, n: nat, levels: nat, i: nat, f: nat, e: Entry)
    requires levels > 0 && CanWrite(mem, root, n, levels, i, levels - 1, f, e) && f in mem && |mem[f]| == n > 1
    ensures Tree(Write(mem, f, i % n, e), root, n, levels)
  {
    hide PlainPath, Walk;
    var mem' := Write(mem, f, i % n, e);
    forall q, c, g | IsTable(mem', root, n, levels, q, c, g) ensures IsTable(mem, root, n, levels, q, c, g) {
      PageWalk(mem, root, n, levels, i, f, e, q, c);
    }
  }

  /** The last-level entry for page `q`, zero where there is no table for it. */
  function PageEntry(mem: Memory, root: nat, q: nat, n: nat, levels: nat): Entry
    requires n > 0 && levels > 0
  {
    match Walk(mem, root, q / n, levels - 1, n)
    case None => ZERO
    case Some(f) => At(mem, f, q % n)
  }

  /** The entry decides the translation. */
  lemma EntryTranslates(mem: Memory, root: nat, q: nat, n: nat, levels: nat)
    requires n > 0 && levels > 0
    ensures var e := PageEntry(mem, root, q, n, levels);
      Walk(mem, root, q, levels, n) == if IsPresent(e) then Some(e.frame) else None
  {}

  lemma PlainParent(mem: Memory, root: nat, q: nat, d: nat, n: nat)
    requires n > 0 && d > 0 && PlainPath(mem, root, q, d, n)
    ensures PlainPath(mem, root, q / n, d - 1, n)
  {
    hide Walk, At;
  }

  lemma GrowEntry(mem: Memory, root: nat, n: nat, levels: nat, i: nat, d: nat, f: nat, e: Entry, q: nat)
    requires CanGrow(mem, root, n, levels, i, d, f, e) && PlainPath(mem, root, q, levels, n)
    ensures PageEntry(Grow(mem, f, i % n, e, n), root, q, n, levels) == PageEntry(mem, root, q, n, levels)
  {
    hide Write, Grow, At, Walk, Tree, PlainPath, CanWrite;
    PlainParent(mem, root, q, levels, n);
    GrowWalk(mem, root, n, levels, i, d, f, e, q / n, levels - 1);
    GrowThroughEnd(mem, root, n, levels, i, d, f, e);
    GrowReads(mem, f, i % n, e, n);
    var t := Walk(mem, root, q / n, levels - 1, n);
    if t.Some? {
      AtWrite(mem, f, i % n, e, t.value, q % n);
      if t.value == f { OneTable(mem, root, n, levels, i, d, f, e, q / n, levels - 1); }
    } else {
      AtWrite(mem, f, i % n, e, e.frame, q % n);
      Untouched(mem, e.frame, q % n);
    }
  }

  lemma GrowThroughEnd(mem: Memory, root: nat, n: nat, levels: nat, i: nat, d: nat, f: nat, e: Entry)
    requires CanGrow(mem, root, n, levels, i, d, f, e)
    ensures Walk(mem, root, i, d + 1, n) == None && f != e.frame
  {
    hide Write, Tree;
    GrowThrough(mem, root, n, levels, i, d, f, e, i, d + 1);
  }

  lemma Untouched(mem: Memory, f: nat, s: nat)
    requires f !in mem
    ensures At(mem, f, s) == ZERO
  {}

  lemma PageWriteEntry(mem: Memory, root: nat, n: nat, levels: nat, i: nat, f: nat, e: Entry, q: nat)
    requires levels > 0 && CanWrite(mem, root, n, levels, i, levels - 1, f, e) && f in mem && |mem[f]| == n > 1
    requires PlainPath(mem, root, q, levels, n)
    ensures PageEntry(Write(mem, f, i % n, e), root, q, n, levels)
      == if q == i then e else PageEntry(mem, root, q, n, levels)
  {
    hide Write, At, Walk, Tree, IsTable, PlainPath;
    PlainParent(mem, root, q, levels, n);
    PageWalk(mem, root, n, levels, i, f, e, q / n, levels - 1);
    var t := Walk(mem, root, q / n, levels - 1, n);
    if t.Some? {
      AtWrite(mem, f, i % n, e, t.value, q % n);
      if t.value == f {
        OneTable(mem, root, n, levels, i, levels - 1, f, e, q / n, levels - 1);
        if q != i { SiblingSlots(q, i, n); }
      }
    }
  }

  lemma TablesAbove(mem: Memory, root: nat, q: nat, n: nat, levels: nat)
    requires n > 0 && levels > 0
    ensures TableOf(mem, root, 0, q, n, levels) == Walk(mem, root, q / n, levels - 1, n)
  {}

  lemma PageWriteTable(mem: Memory, root: nat, n: nat, levels: nat, i: nat, f: nat, e: Entry, q: nat)
    requires levels > 0 && CanWrite(mem, root, n, levels, i, levels - 1, f, e) && f in mem && |mem[f]| == n > 1
    requires PlainPath(mem, root, q, levels, n)
    ensures TableOf(Write(mem, f, i % n, e), root, 0, q, n, levels) == TableOf(mem, root, 0, q, n, levels)
  {
    hide Write, At, Walk, Tree, IsTable, PlainPath, TableOf;
    PlainParent(mem, root, q, levels, n);
    TablesAbove(mem, root, q, n, levels);
    TablesAbove(Write(mem, f, i % n, e), root, q, n, levels);
    PageWalk(mem, root, n, levels, i, f, e, q / n, levels - 1);
  }

  /** The root's last slot refers to the root and says so. */
  predicate SelfMapped(mem: Memory, root: nat, n: nat)
    requires n > 0
  {
    var e := At(mem, root, n - 1);
    IsPresent(e) && e.frame == root && Self in e.flags
  }

  /** Writing on plain paths keeps the self-reference. */
  lemma WriteSelfMapped(mem: Memory, root: nat, n: nat, levels: nat, i: nat, d: nat, f: nat, e: Entry)
    requires CanWrite(mem, root, n, levels, i, d, f, e) && f in mem && |mem[f]| == n > 1
    requires SelfMapped(mem, root, n)
    ensures SelfMapped(Write(mem, f, i % n, e), root, n)
  {
    hide At, Write, Tree, Walk;
    AtWrite(mem, f, i % n, e, root, n - 1);
  }

  lemma GrowSelfMapped(mem: Memory, root: nat, n: nat, levels: nat, i: nat, d: nat, f: nat, e: Entry)
    requires CanGrow(mem, root, n, levels, i, d, f, e) && SelfMapped(mem, root, n)
    ensures SelfMapped(Grow(mem, f, i % n, e, n), root, n)
  {
    hide At, Write, Grow, Tree, CanWrite;
    WriteSelfMapped(mem, root, n, levels, i, d, f, e);
    GrowReads(mem, f, i % n, e, n);
  }

  /** What a new empty table keeps. */
  lemma GrowKeeps(mem: Memory, root: nat, n: nat, levels: nat, i: nat, d: nat, f: nat, e: Entry)
    requires CanGrow(mem, root, n, levels, i, d, f, e)
    ensures var mem' := Grow(mem, f, i % n, e, n);
      && Tree(mem', root, n, levels)
      && (forall q: nat, c: nat | c <= levels :: PlainPath(mem', root, q, c, n) <==> PlainPath(mem, root, q, c, n))
      && (forall q: nat | PlainPath(mem, root, q, levels, n) ::
            PageEntry(mem', root, q, n, levels) == PageEntry(mem, root, q, n, levels))
      && (forall q: nat, c: nat | c <= levels && PlainPath(mem, root, q, c, n) && Walk(mem, root, q, c, n).Some? ::
            Walk(mem', root, q, c, n).Some?)
      && Walk(mem', root, i, d + 1, n).Some?
  {
    hide PlainPath, Walk, Tree, Grow, PageEntry;
    var mem' := Grow(mem, f, i % n, e, n);
    GrowTree(mem, root, n, levels, i, d, f, e);
    forall q: nat | PlainPath(mem, root, q, levels, n)
      ensures PageEntry(mem', root, q, n, levels) == PageEntry(mem, root, q, n, levels)
    {
      GrowEntry(mem, root, n, levels, i, d, f, e, q);
    }
    forall q: nat, c: nat | c <= levels
      ensures PlainPath(mem', root, q, c, n) <==> PlainPath(mem, root, q, c, n)
      ensures PlainPath(mem, root, q, c, n) && Walk(mem, root, q, c, n).Some? ==> Walk(mem', root, q, c, n).Some?
    {
      GrowWalk(mem, root, n, levels, i, d, f, e, q, c);
    }
    GrowWalk(mem, root, n, levels, i, d, f, e, i, d + 1);
  }

  lemma GrowTables(mem: Memory, root: nat, n: nat, levels: nat, i: nat, d: nat, f: nat, e: Entry)
    requires CanGrow(mem, root, n, levels, i, d, f, e)
    ensures forall l: nat, x: nat | l < levels && PlainAt(mem, root, l, x, n, levels)
        && TableOf(mem, root, l, x, n, levels).Some? :: TableOf(Grow(mem, f, i % n, e, n), root, l, x, n, levels).Some?
  {
    hide PlainPath, TableOf, Tree, Grow;
    forall l: nat, x: nat
      | l < levels && PlainAt(mem, root, l, x, n, levels) && TableOf(mem, root, l, x, n, levels).Some?
      ensures TableOf(Grow(mem, f, i % n, e, n), root, l, x, n, levels).Some?
    {
      GrowTableOf(mem, root, n, levels, i, d, f, e, l, x);
    }
  }

  /** A plain path leads to entry `x` of level `l`. */
  predicate PlainAt(mem: Memory, root: nat, l: nat, x: nat, n: nat, levels: nat)
    requires n > 0 && l <= levels
  {
    PlainPath(mem, root, x, levels - l, n)
  }

  lemma GrowTableOf(mem: Memory, root: nat, n: nat, levels: nat, i: nat, d: nat, f: nat, e: Entry, l: nat, x: nat)
    requires CanGrow(mem, root, n, levels, i, d, f, e) && l < levels && PlainAt(mem, root, l, x, n, levels)
    requires TableOf(mem, root, l, x, n, levels).Some?
    ensures TableOf(Grow(mem, f, i % n, e, n), root, l, x, n, levels).Some?
  {
    hide PlainPath, Walk, Tree, Grow, IsTable;
    PlainParent(mem, root, x, levels - l, n);
    GrowWalk(mem, root, n, levels, i, d, f, e, x / n, levels - 1 - l);
  }

  /** The new entry is in its place. */
  lemma GrowThere(mem: Memory, root: nat, n: nat, levels: nat, i: nat, d: nat, f: nat, e: Entry)
    requires CanGrow(mem, root, n, levels, i, d, f, e)
    ensures var mem' := Grow(mem, f, i % n, e, n);
      TableOf(mem', root, levels - 1 - d, i, n, levels) == Some(f) && At(mem', f, i % n) == e
  {
    hide PlainPath, Tree, Grow, Write, At, Walk, IsTable;
    PlainParent(mem, root, i, d + 1, n);
    GrowWalk(mem, root, n, levels, i, d, f, e, i / n, d);
    GrowReads(mem, f, i % n, e, n);
    AtWrite(mem, f, i % n, e, f, i % n);
  }

  /** The table of an entry on a plain path can be written. */
  lemma TableThere(mem: Memory, root: nat, n: nat, levels: nat, lvl: nat, i: nat, f: nat, e: Entry)
    requires Tree(mem, root, n, levels) && n > 1 && lvl < levels && PlainAt(mem, root, lvl, i, n, levels)
    requires TableOf(mem, root, lvl, i, n, levels) == Some(f) && Self !in e.flags
    ensures CanWrite(mem, root, n, levels, i, levels - 1 - lvl, f, e) && f in mem && |mem[f]| == n
  {
    hide PlainPath, Walk, Tree;
    WriteFacts(mem, root, n, levels, i, levels - 1 - lvl, f, e);
  }
}
