/** The lists of virtual memory areas (mm/vma.c). */
module Vma {
  import opened Base
  import opened Bits

  datatype Area = Area(start: nat, end: nat, flags: nat)

  ghost predicate Sorted(s: seq<Area>) {
    && (forall i | 0 <= i < |s| :: s[i].start <= s[i].end)
    && (forall i, j | 0 <= i < j < |s| :: s[i].end <= s[j].start)
  }

  ghost predicate Holds(a: Area, x: int) { a.start <= x < a.end }

  ghost predicate Covers(s: seq<Area>, x: int) { exists i | 0 <= i < |s| :: Holds(s[i], x) }

  /** The address lies in an area with the given flags. */
  ghost predicate Mapped(s: seq<Area>, x: int, flags: nat) {
    exists i | 0 <= i < |s| :: Holds(s[i], x) && s[i].flags == flags
  }

  // Adding.

  predicate Conflicts(a: Area, start: nat, end: nat) { a.end > start && a.start < end }

  predicate Clear(s: seq<Area>, start: nat, end: nat) {
    forall k | 0 <= k < |s| :: !Conflicts(s[k], start, end)
  }

  /** The gap before area `i` takes the interval. */
  predicate GapFits(s: seq<Area>, i: nat, start: nat, end: nat)
    requires i <= |s|
  {
    (i == 0 || s[i - 1].end <= start) && (i == |s| || s[i].start >= end)
  }

  function Insert(s: seq<Area>, i: nat, a: Area): seq<Area>
    requires i <= |s|
  {
    s[..i] + [a] + s[i..]
  }

  /** The area was put into gap `i`, which takes it. */
  ghost predicate InsertedIn(s: seq<Area>, i: nat, a: Area, s': seq<Area>) {
    i <= |s| && GapFits(s, i, a.start, a.end) && s' == Insert(s, i, a)
  }

  /** Some gap takes the interval exactly if no area conflicts with it. */
  lemma GapIffNoConflict(s: seq<Area>, start: nat, end: nat)
    requires Sorted(s)
    ensures (exists i: nat | i <= |s| :: GapFits(s, i, start, end))
      <==> (forall k | 0 <= k < |s| :: !Conflicts(s[k], start, end))
  {
    if forall k | 0 <= k < |s| :: !Conflicts(s[k], start, end) {
      var i := 0;
      while i < |s| && s[i].start < end
        invariant 0 <= i <= |s| && (i > 0 ==> s[i - 1].start < end)
      {
        i := i + 1;
      }
      assert i > 0 ==> !Conflicts(s[i - 1], start, end);
      assert GapFits(s, i, start, end);
    }
  }

  /** Inserting an area into a gap that takes it adds exactly that area. */
  lemma InsertKeeps(s: seq<Area>, i: nat, a: Area)
    requires Sorted(s) && i <= |s| && GapFits(s, i, a.start, a.end) && a.start <= a.end
    ensures Sorted(Insert(s, i, a))
    ensures forall x :: Covers(Insert(s, i, a), x) <==> Covers(s, x) || Holds(a, x)
  {
    InsertSorted(s, i, a);
    var s' := Insert(s, i, a);
    hide Sorted, Insert, Covers, GapFits;
    forall x ensures Covers(s', x) <==> Covers(s, x) || Holds(a, x) { InsertCovers(s, i, a, x); }
  }

  lemma InsertSorted(s: seq<Area>, i: nat, a: Area)
    requires Sorted(s) && i <= |s| && GapFits(s, i, a.start, a.end) && a.start <= a.end
    ensures Sorted(Insert(s, i, a))
  {
    var s' := Insert(s, i, a);
    forall j, k | 0 <= j < k < |s'| ensures s'[j].end <= s'[k].start {
      if j == i {
        assert s'[k] == s[k - 1] && (k - 1 > i ==> s[i].start <= s[i].end <= s[k - 1].start);
      } else if k == i {
        assert s'[j] == s[j] && (j < i - 1 ==> s[j].end <= s[i - 1].start <= s[i - 1].end);
      }
    }
  }

  lemma InsertCovers(s: seq<Area>, i: nat, a: Area, x: int)
    requires i <= |s|
    ensures Covers(Insert(s, i, a), x) <==> Covers(s, x) || Holds(a, x)
  {
    hide Holds;
    var s' := Insert(s, i, a);
    if Covers(s, x) {
      var k :| 0 <= k < |s| && Holds(s[k], x);
      assert s'[if k < i then k else k + 1] == s[k];
    }
    assert s'[i] == a;
    if Covers(s', x) {
      var k :| 0 <= k < |s'| && Holds(s'[k], x);
      assert k == i || s'[k] == s[if k < i then k else k - 1];
    }
  }

  // Allocating.

  function GapStart(s: seq<Area>, i: nat, base: nat): nat
    requires i <= |s|
  {
    if i == 0 then base else s[i - 1].end
  }

  function GapEnd(s: seq<Area>, i: nat, limit: nat): nat
    requires i <= |s|
  {
    if i == |s| then limit else s[i].start
  }

  predicate Qualifies(s: seq<Area>, i: nat, size: nat, base: nat, limit: nat)
    requires i <= |s|
  {
    var start := GapStart(s, i, base);
    start + size < GapEnd(s, i, limit) && start >= base && start + size < limit
  }

  /** The first gap from `i` on that qualifies. */
  function FirstFit(s: seq<Area>, size: nat, base: nat, limit: nat, i: nat): (r: Option<nat>)
    requires i <= |s|
    ensures r.Some? ==> i <= r.value <= |s| && Qualifies(s, r.value, size, base, limit)
    ensures forall k: nat | i <= k <= |s| && (r.Some? ==> k < r.value) :: !Qualifies(s, k, size, base, limit)
    decreases |s| - i
  {
    if Qualifies(s, i, size, base, limit) then Some(i)
    else if i == |s| then None else FirstFit(s, size, base, limit, i + 1)
  }

  /** The area before the gap can be extended. */
  predicate Extends(s: seq<Area>, i: nat, flags: nat)
    requires i <= |s|
  {
    i > 0 && s[i - 1].flags == flags
  }

  /** Of the gaps that qualify the first is the lowest. */
  lemma FirstIsLowest(s: seq<Area>, i: nat, j: nat, size: nat, base: nat, limit: nat)
    requires Sorted(s) && i <= j <= |s| && Qualifies(s, i, size, base, limit) && Qualifies(s, j, size, base, limit)
    ensures GapStart(s, i, base) <= GapStart(s, j, base)
  {
    assert i < j && i > 0 ==> s[i - 1].end <= s[j - 1].start <= s[j - 1].end;
  }

  function Allocated(s: seq<Area>, i: nat, size: nat, flags: nat, base: nat): seq<Area>
    requires i <= |s|
  {
    var start := GapStart(s, i, base);
    if i > 0 && s[i - 1].flags == flags then s[i - 1 := s[i - 1].(end := start + size)]
    else Insert(s, i, Area(start, start + size, flags))
  }

  /** Allocating adds exactly the interval that is returned, free before. */
  lemma AllocKeeps(s: seq<Area>, i: nat, size: nat, flags: nat, base: nat, limit: nat)
    requires Sorted(s) && i <= |s| && Qualifies(s, i, size, base, limit)
    ensures Sorted(Allocated(s, i, size, flags, base))
    ensures forall x ::
      Covers(Allocated(s, i, size, flags, base), x) <==>
        (Covers(s, x) || GapStart(s, i, base) <= x < GapStart(s, i, base) + size)
    ensures forall x | GapStart(s, i, base) <= x < GapStart(s, i, base) + size :: !Covers(s, x)
  {
    hide Sorted, Covers, Insert, Allocated;
    var start := GapStart(s, i, base);
    var s', a := Allocated(s, i, size, flags, base), Area(start, start + size, flags);
    AllocatedIs(s, i, size, flags, base);
    GapClear(s, i, size, base, limit);
    if i > 0 && s[i - 1].flags == flags {
      ExtendSorted(s, i, start + size);
      forall x ensures Covers(s', x) <==> Covers(s, x) || Holds(a, x) { ExtendCovers(s, i - 1, start + size, x); }
    } else {
      InsertKeeps(s, i, a);
    }
  }

  lemma GapClear(s: seq<Area>, i: nat, size: nat, base: nat, limit: nat)
    requires Sorted(s) && i <= |s| && Qualifies(s, i, size, base, limit)
    ensures GapFits(s, i, GapStart(s, i, base), GapStart(s, i, base) + size)
    ensures forall x | GapStart(s, i, base) <= x < GapStart(s, i, base) + size :: !Covers(s, x)
  {
    var start := GapStart(s, i, base);
    forall x, k | start <= x < start + size && 0 <= k < |s| ensures !Holds(s[k], x) {
      if k < i { assert k < i - 1 ==> s[k].end <= s[i - 1].start <= s[i - 1].end; }
      if k >= i { assert k > i ==> s[i].start <= s[i].end <= s[k].start; }
    }
  }

  lemma ExtendSorted(s: seq<Area>, i: nat, end: nat)
    requires Sorted(s) && 0 < i <= |s| && s[i - 1].end <= end && (i < |s| ==> end <= s[i].start)
    ensures s[i - 1].start <= s[i - 1].end && Sorted(s[i - 1 := s[i - 1].(end := end)])
  {
    var r := s[i - 1 := s[i - 1].(end := end)];
    forall j, k | 0 <= j < k < |r| ensures r[j].end <= r[k].start {
      if j == i - 1 { assert k > i ==> s[i].start <= s[i].end <= s[k].start; }
    }
  }

  lemma ExtendCovers(s: seq<Area>, k: nat, end: nat, x: int)
    requires k < |s| && s[k].start <= s[k].end <= end
    ensures Covers(s[k := s[k].(end := end)], x) <==> Covers(s, x) || s[k].end <= x < end
  {
    var s' := s[k := s[k].(end := end)];
    if Covers(s, x) {
      var j :| 0 <= j < |s| && Holds(s[j], x);
      assert Holds(s'[j], x);
    }
    if s[k].end <= x < end { assert Holds(s'[k], x); }
    if Covers(s', x) {
      var j :| 0 <= j < |s'| && Holds(s'[j], x);
      assert Holds(s[j], x) || s[k].end <= x < end;
    }
  }

  lemma InsertMapped(s: seq<Area>, i: nat, a: Area, x: int, flags: nat)
    requires i <= |s|
    ensures Mapped(Insert(s, i, a), x, flags) <==> Mapped(s, x, flags) || (Holds(a, x) && a.flags == flags)
  {
    hide Holds;
    var s' := Insert(s, i, a);
    if Mapped(s, x, flags) {
      var k :| 0 <= k < |s| && Holds(s[k], x) && s[k].flags == flags;
      assert s'[if k < i then k else k + 1] == s[k];
    }
    assert s'[i] == a;
    if Mapped(s', x, flags) {
      var k :| 0 <= k < |s'| && Holds(s'[k], x) && s'[k].flags == flags;
      assert k == i || s'[k] == s[if k < i then k else k - 1];
    }
  }

  lemma ExtendMapped(s: seq<Area>, k: nat, end: nat, x: int, flags: nat)
    requires k < |s| && s[k].start <= s[k].end <= end
    ensures Mapped(s[k := s[k].(end := end)], x, flags)
      <==> Mapped(s, x, flags) || (s[k].end <= x < end && s[k].flags == flags)
  {
    var s' := s[k := s[k].(end := end)];
    if Mapped(s, x, flags) {
      var j :| 0 <= j < |s| && Holds(s[j], x) && s[j].flags == flags;
      assert Holds(s'[j], x);
    }
    if s[k].end <= x < end && s[k].flags == flags { assert Holds(s'[k], x); }
    if Mapped(s', x, flags) {
      var j :| 0 <= j < |s'| && Holds(s'[j], x) && s'[j].flags == flags;
      assert Holds(s[j], x) || j == k;
    }
  }

  /** Allocating gives the interval the flags asked for and leaves the others theirs. */
  lemma AllocMaps(s: seq<Area>, i: nat, size: nat, flags: nat, base: nat, limit: nat, x: int, f: nat)
    requires Sorted(s) && i <= |s| && Qualifies(s, i, size, base, limit)
    ensures var start := GapStart(s, i, base);
      Mapped(Allocated(s, i, size, flags, base), x, f) <==>
        Mapped(s, x, f) || (start <= x < start + size && f == flags)
  {
    hide Mapped, Insert, Allocated, Qualifies;
    var start := GapStart(s, i, base);
    AllocatedIs(s, i, size, flags, base);
    if i > 0 && s[i - 1].flags == flags {
      ExtendMapped(s, i - 1, start + size, x, f);
    } else {
      InsertMapped(s, i, Area(start, start + size, flags), x, f);
    }
  }

  /** The interval and one byte more are free and in the address space that the flags call for. */
  ghost predicate Room(s: seq<Area>, a: int, size: nat, flags: nat, userMax: nat) {
    && (if Bit(flags, VMA_USER) then KERNEL_SPACE <= a && a + size < userMax
        else VMA_KERN_MIN <= a && a + size < KERNEL_SPACE)
    && forall k | 0 <= k < |s| :: s[k].end <= a || a + size < s[k].start
  }

  /** An address at which `vma_alloc` can place an area of the given size: there is room, and the free
      space around it does not start below the address space behind an area. */
  ghost predicate Eligible(s: seq<Area>, a: int, size: nat, flags: nat, userMax: nat) {
    && Room(s, a, size, flags, userMax)
    && Follows(s, a, if Bit(flags, VMA_USER) then KERNEL_SPACE else VMA_KERN_MIN)
  }

  /** No area lies before the address, or one that ends within the address space. */
  ghost predicate Follows(s: seq<Area>, a: int, base: nat) {
    (forall k | 0 <= k < |s| :: s[k].end > a) || exists k | 0 <= k < |s| :: base <= s[k].end <= a
  }

  /** The areas before an address. */
  lemma {:induction false} AreasBefore(s: seq<Area>, a: int, n: nat) returns (i: nat)
    requires Sorted(s) && n <= |s|
    ensures i <= n && (forall k | 0 <= k < i :: s[k].end <= a) && (forall k | i <= k < n :: s[k].end > a)
  {
    i := 0;
    while i < n && s[i].end <= a
      invariant i <= n && forall k | 0 <= k < i :: s[k].end <= a
    {
      i := i + 1;
    }
    forall k | i <= k < n ensures s[k].end > a {
      assert k > i ==> s[i].end <= s[k].start <= s[k].end;
    }
  }

  /** Where the search of `vma_alloc` stops is an eligible address. */
  lemma FitIsEligible(s: seq<Area>, i: nat, size: nat, flags: nat, userMax: nat)
    requires Sorted(s) && i <= |s| && Qualifies(s, i, size, Bounds(flags, userMax).0, Bounds(flags, userMax).1)
    ensures Eligible(s, GapStart(s, i, Bounds(flags, userMax).0), size, flags, userMax)
  {
    hide Bit;
    var a := GapStart(s, i, Bounds(flags, userMax).0);
    forall k | 0 <= k < |s| ensures if k < i then s[k].end <= a else a + size < s[k].start {
      if k < i { assert k < i - 1 ==> s[k].end <= s[i - 1].start <= s[i - 1].end; }
      if k >= i { assert k > i ==> s[i].start <= s[i].end <= s[k].start; }
    }
  }

  /** An eligible address lies in a gap that qualifies, at or behind its start. */
  lemma EligibleFits(s: seq<Area>, a: int, size: nat, flags: nat, userMax: nat) returns (i: nat)
    requires Sorted(s) && Eligible(s, a, size, flags, userMax)
    ensures var (base, limit) := Bounds(flags, userMax);
      i <= |s| && Qualifies(s, i, size, base, limit) && GapStart(s, i, base) <= a
  {
    hide Bit;
    i := AreasBefore(s, a, |s|);
    if i > 0 {
      var base := Bounds(flags, userMax).0;
      var k :| 0 <= k < |s| && base <= s[k].end <= a;
      assert k < i - 1 ==> s[k].end <= s[i - 1].start <= s[i - 1].end;
    }
  }

  /** The search finds the lowest eligible address, if there is one. */
  lemma LowestEligible(s: seq<Area>, size: nat, flags: nat, userMax: nat)
    requires Sorted(s)
    ensures var (base, limit) := Bounds(flags, userMax);
      match FirstFit(s, size, base, limit, 0)
      case None => forall a :: !Eligible(s, a, size, flags, userMax)
      case Some(i) =>
        && Eligible(s, GapStart(s, i, base), size, flags, userMax)
        && forall a | Eligible(s, a, size, flags, userMax) :: GapStart(s, i, base) <= a
  {
    hide Bit, Eligible, Bounds, Qualifies, Sorted;
    var (base, limit) := Bounds(flags, userMax);
    var fit := FirstFit(s, size, base, limit, 0);
    if fit.Some? { FitIsEligible(s, fit.value, size, flags, userMax); }
    forall a | Eligible(s, a, size, flags, userMax)
      ensures fit.Some? && GapStart(s, fit.value, base) <= a
    {
      var j := EligibleFits(s, a, size, flags, userMax);
      FirstIsLowest(s, fit.value, j, size, base, limit);
    }
  }

  /** What `vma_alloc` answers: the lowest eligible address, which then has the flags asked for, or 0; then
      nothing has changed, and if there was a node there is no eligible address. */
  ghost predicate AllocAnswer(s: seq<Area>, size: nat, flags: nat, userMax: nat, node: bool,
                              start: nat, s': seq<Area>)
  {
    if start == 0 then s' == s && (node ==> forall a :: !Eligible(s, a, size, flags, userMax))
    else
      && Eligible(s, start, size, flags, userMax) && (size > 0 ==> InRange(start, start + size, flags))
      && (forall a | Eligible(s, a, size, flags, userMax) :: start <= a)
      && forall x, f :: Mapped(s', x, f) <==> Mapped(s, x, f) || (start <= x < start + size && f == flags)
  }

  lemma AllocAnswers(s: seq<Area>, size: nat, flags: nat, userMax: nat, node: bool)
    requires Sorted(s)
    ensures var (base, limit) := Bounds(flags, userMax);
      match FirstFit(s, size, base, limit, 0)
      case None => AllocAnswer(s, size, flags, userMax, node, 0, s)
      case Some(i) =>
        && AllocAnswer(s, size, flags, userMax, node, GapStart(s, i, base), Allocated(s, i, size, flags, base))
        && AllocAnswer(s, size, flags, userMax, false, 0, s)
  {
    LowestEligible(s, size, flags, userMax);
    var (base, limit) := Bounds(flags, userMax);
    var fit := FirstFit(s, size, base, limit, 0);
    if fit.Some? {
      EligibleRange(s, GapStart(s, fit.value, base), size, flags, userMax);
      hide Mapped, Eligible, Bounds, Sorted, Allocated, Qualifies, FirstFit;
      forall x, f: nat {
        AllocMaps(s, fit.value, size, flags, base, limit, x, f);
      }
    }
  }

  lemma EligibleRange(s: seq<Area>, a: nat, size: nat, flags: nat, userMax: nat)
    requires Eligible(s, a, size, flags, userMax)
    ensures a > 0 && (size > 0 ==> InRange(a, a + size, flags))
  {
    hide Bit;
  }

  /** With an area just below the kernel's address space and nothing else, no place is found. */
  lemma PlaceMissed()
    ensures var s := [Area(0xB_8000, 0xB_9000, 0)];
      && Room(s, VMA_KERN_MIN, 0x1000, 0, 0)
      && FirstFit(s, 0x1000, Bounds(0, 0).0, Bounds(0, 0).1, 0) == None
  {
    ZeroBit(VMA_USER);
    hide Bit;
  }

  // Freeing.

  /** Area `k` without [start, end); `rest` are the flags of the second part of a split. */
  function Freed(s: seq<Area>, k: nat, start: nat, end: nat, rest: nat): seq<Area>
    requires k < |s|
  {
    var a := s[k];
    if start == a.start && end == a.end then s[..k] + s[k + 1..]
    else if start == a.start then s[k := a.(start := end)]
    else if end == a.end then s[k := a.(end := start)]
    else Insert(s[k := a.(end := start)], k + 1, Area(end, a.end, rest))
  }

  /** Freeing removes exactly [start, end). */
  lemma FreeKeeps(s: seq<Area>, k: nat, start: nat, end: nat, rest: nat, x: int)
    requires Sorted(s) && k < |s| && s[k].start <= start < end <= s[k].end
    ensures Sorted(Freed(s, k, start, end, rest))
    ensures Covers(Freed(s, k, start, end, rest), x) <==> Covers(s, x) && !(start <= x < end)
  {
    var a, s' := s[k], Freed(s, k, start, end, rest);
    if start == a.start && end == a.end {
      RemoveCovers(s, k, x);
    } else if start == a.start {
      ReplaceCovers(s, k, a.(start := end), x);
    } else if end == a.end {
      ReplaceCovers(s, k, a.(end := start), x);
    } else {
      var t := s[k := a.(end := start)];
      ReplaceCovers(s, k, a.(end := start), x);
      InsertKeeps(t, k + 1, Area(end, a.end, rest));
    }
  }

  /** Only area `k` can hold what it holds. */
  lemma ReplaceCovers(s: seq<Area>, k: nat, a: Area, x: int)
    requires Sorted(s) && k < |s| && s[k].start <= a.start <= a.end <= s[k].end
    ensures Sorted(s[k := a])
    ensures Covers(s[k := a], x) <==> Covers(s, x) && (Holds(s[k], x) ==> Holds(a, x))
  {
    var s' := s[k := a];
    if Covers(s, x) && (Holds(s[k], x) ==> Holds(a, x)) {
      var i :| 0 <= i < |s| && Holds(s[i], x);
      assert Holds(s'[i], x);
    }
    if Covers(s', x) {
      var i :| 0 <= i < |s'| && Holds(s'[i], x);
      assert Holds(s[i], x);
    }
  }

  lemma RemoveCovers(s: seq<Area>, k: nat, x: int)
    requires Sorted(s) && k < |s|
    ensures Sorted(s[..k] + s[k + 1..])
    ensures Covers(s[..k] + s[k + 1..], x) <==> Covers(s, x) && !Holds(s[k], x)
  {
    RemoveSorted(s, k);
    hide Sorted, Holds;
    var s' := s[..k] + s[k + 1..];
    if Covers(s, x) && !Holds(s[k], x) {
      var i :| 0 <= i < |s| && Holds(s[i], x);
      assert s'[if i < k then i else i - 1] == s[i];
    }
    if Covers(s', x) {
      var i :| 0 <= i < |s'| && Holds(s'[i], x);
      var j := if i < k then i else i + 1;
      assert s'[i] == s[j];
      OneHolds(s, j, k, x);
    }
  }

  lemma RemoveSorted(s: seq<Area>, k: nat)
    requires Sorted(s) && k < |s|
    ensures Sorted(s[..k] + s[k + 1..])
  {}

  lemma OneHolds(s: seq<Area>, j: nat, k: nat, x: int)
    requires Sorted(s) && j < |s| && k < |s| && j != k && Holds(s[j], x)
    ensures !Holds(s[k], x)
  {}

  /** Freeing leaves the other addresses in areas with their flags, except that the second part of a split
      has those of the new node. */
  lemma FreedMaps(s: seq<Area>, k: nat, start: nat, end: nat, rest: nat, x: int, f: nat)
    requires Sorted(s) && k < |s| && s[k].start <= start < end <= s[k].end
    ensures Mapped(Freed(s, k, start, end, rest), x, f)
      <==> !(start <= x < end) && if s[k].start < start && end <= x < s[k].end then f == rest else Mapped(s, x, f)
  {
    hide Mapped, Insert;
    var a := s[k];
    if start == a.start && end == a.end {
      RemoveMapped(s, k, x, f);
    } else if start == a.start {
      ReplaceMapped(s, k, a.(start := end), x, f);
    } else if end == a.end {
      ReplaceMapped(s, k, a.(end := start), x, f);
    } else {
      var t := s[k := a.(end := start)];
      ReplaceMapped(s, k, a.(end := start), x, f);
      InsertMapped(t, k + 1, Area(end, a.end, rest), x, f);
      if Holds(a, x) { OneArea(s, k, x, f); }
    }
  }

  /** Whoever holds an address gives it its flags. */
  lemma OneArea(s: seq<Area>, k: nat, x: int, f: nat)
    requires Sorted(s) && k < |s| && Holds(s[k], x)
    ensures Mapped(s, x, f) <==> f == s[k].flags
  {
    if Mapped(s, x, f) {
      var i :| 0 <= i < |s| && Holds(s[i], x) && s[i].flags == f;
      if i != k { OneHolds(s, i, k, x); }
    }
  }

  lemma ReplaceMapped(s: seq<Area>, k: nat, a: Area, x: int, f: nat)
    requires Sorted(s) && k < |s| && s[k].start <= a.start <= a.end <= s[k].end && a.flags == s[k].flags
    ensures Mapped(s[k := a], x, f) <==> Mapped(s, x, f) && (Holds(s[k], x) ==> Holds(a, x))
  {
    var s' := s[k := a];
    if Mapped(s, x, f) && (Holds(s[k], x) ==> Holds(a, x)) {
      var i :| 0 <= i < |s| && Holds(s[i], x) && s[i].flags == f;
      assert Holds(s'[i], x);
    }
    if Mapped(s', x, f) {
      var i :| 0 <= i < |s'| && Holds(s'[i], x) && s'[i].flags == f;
      assert Holds(s[i], x);
      if i != k { OneHolds(s, i, k, x); }
    }
  }

  lemma RemoveMapped(s: seq<Area>, k: nat, x: int, f: nat)
    requires Sorted(s) && k < |s|
    ensures Mapped(s[..k] + s[k + 1..], x, f) <==> Mapped(s, x, f) && !Holds(s[k], x)
  {
    hide Sorted, Holds;
    var s' := s[..k] + s[k + 1..];
    if Mapped(s, x, f) && !Holds(s[k], x) {
      var i :| 0 <= i < |s| && Holds(s[i], x) && s[i].flags == f;
      assert s'[if i < k then i else i - 1] == s[i];
    }
    if Mapped(s', x, f) {
      var i :| 0 <= i < |s'| && Holds(s'[i], x) && s'[i].flags == f;
      var j := if i < k then i else i + 1;
      assert s'[i] == s[j];
      OneHolds(s, j, k, x);
    }
  }

  /** What is left keeps its flags exactly unless an area is split and the new node has other ones. */
  lemma FlagsKept(s: seq<Area>, k: nat, start: nat, end: nat, rest: nat)
    requires Sorted(s) && k < |s| && s[k].start <= start < end <= s[k].end
    ensures (forall x, f :: Mapped(Freed(s, k, start, end, rest), x, f) <==> Mapped(s, x, f) && !(start <= x < end))
      <==> (s[k].start < start && end < s[k].end ==> rest == s[k].flags)
  {
    hide Mapped, Freed;
    forall x, f: nat { FreedMaps(s, k, start, end, rest, x, f); }
    if s[k].start < start && end < s[k].end {
      forall x, f: nat | Holds(s[k], x) { OneArea(s, k, x, f); }
      assert Mapped(Freed(s, k, start, end, rest), end, rest) && (Mapped(s, end, rest) <==> rest == s[k].flags);
    }
  }

  /** A node that `kmalloc` gives with the flags 7 passes them to the second part. */
  lemma FlagsLost()
    ensures Freed([Area(0, 3, 1)], 0, 1, 2, 7) == [Area(0, 1, 1), Area(2, 3, 7)]
  {}

  // The linked list.

  datatype Status = Ok | EINVAL | ENOMEM

  const KERNEL_SPACE: nat := 0x4000_0000
  const VMA_KERN_MIN: nat := 0xC_0000
  /** The number of the flag's bit. */
  const VMA_USER: nat := 5

  /** Where `vma_alloc` searches. */
  function Bounds(flags: nat, userMax: nat): (nat, nat) {
    if Bit(flags, VMA_USER) then (KERNEL_SPACE, userMax) else (VMA_KERN_MIN, KERNEL_SPACE)
  }

  /** The interval lies in the address space that the flags call for. */
  predicate InRange(start: nat, end: nat, flags: nat) {
    start < end && if Bit(flags, VMA_USER) then start >= KERNEL_SPACE else end < KERNEL_SPACE
  }

  class Node {
    var start: nat
    var end: nat
    var flags: nat
    var next: Node?
    var prev: Node?
  }

  /** `kmalloc` of a node; its contents are arbitrary. */
  method NewNode() returns (n: Node)
    ensures fresh(n)
  {
    n := new Node;
  }

  ghost function NextOf(nodes: seq<Node>, i: nat): Node?
    requires i < |nodes|
  {
    if i + 1 < |nodes| then nodes[i + 1] else null
  }

  ghost function PrevOf(nodes: seq<Node>, i: nat): Node?
    requires i < |nodes|
  {
    if i > 0 then nodes[i - 1] else null
  }

  class VmaList {
    var list: Node?
    ghost var nodes: seq<Node>

    ghost predicate Forward()
      reads this, nodes
    {
      && (forall i, j | 0 <= i < j < |nodes| :: nodes[i] != nodes[j])
      && list == (if nodes == [] then null else nodes[0])
      && forall i: nat | i < |nodes| :: nodes[i].next == NextOf(nodes, i)
    }

    ghost predicate Back()
      reads this, nodes
    {
      forall i: nat | i < |nodes| :: nodes[i].prev == PrevOf(nodes, i)
    }

    /** The backward links. */
    ghost function Prevs(): (r: seq<Node?>)
      reads this, nodes
      ensures |r| == |nodes| && forall i | 0 <= i < |r| :: r[i] == nodes[i].prev
    {
      seq(|nodes|, i requires 0 <= i < |nodes| reads this, nodes => nodes[i].prev)
    }

    ghost function Areas(): (s: seq<Area>)
      reads this, nodes
      ensures |s| == |nodes|
      ensures forall i | 0 <= i < |s| :: s[i] == Area(nodes[i].start, nodes[i].end, nodes[i].flags)
    {
      seq(|nodes|, i requires 0 <= i < |nodes| reads this, nodes => Area(nodes[i].start, nodes[i].end, nodes[i].flags))
    }

    ghost predicate Valid()
      reads this, nodes
    {
      Forward() && Back() && Sorted(Areas())
    }

    /** The backward links may be stale, but name no node at the same place or behind. */
    ghost predicate Usable()
      reads this, nodes
    {
      Forward() && Sorted(Areas()) && Earlier(nodes, Prevs())
    }

    /** On a doubly linked list the links name no node but its own. */
    lemma ValidIsUsable()
      requires Valid()
      ensures Usable() && forall n: Node | n !in nodes :: n !in Prevs()
    {
      BackIsStrict();
      PrevsOnList();
      StrictIsEarlier(nodes, Prevs());
    }

    /** The list of a new task. */
    constructor ()
      ensures Valid() && Usable() && nodes == []
    {
      list, nodes := null, [];
    }

    /** The node after `m` steps along the list. */
    ghost function Walked(m: nat): Node?
      reads this, nodes
    {
      if m == 0 then list
      else
        var n := Walked(m - 1);
        if n == null || n !in nodes then null else n.next
    }

    /** Going along the list comes to an end. */
    ghost predicate Ends()
      reads this, nodes
    {
      exists m: nat :: Walked(m) == null
    }

    lemma {:induction false} ForwardWalk(m: nat)
      requires Forward() && m <= |nodes|
      ensures Walked(m) == if m < |nodes| then nodes[m] else null
    {
      if m > 0 {
        ForwardWalk(m - 1);
        NextLink(nodes, m - 1);
      }
    }

    lemma ForwardEnds()
      requires Forward()
      ensures Ends()
    {
      ForwardWalk(|nodes|);
    }

    /** The links after node `k` was taken off by a `prev` that names node `p` behind it: from there the
        way leads back to node k + 1. */
    ghost predicate Bent(k: nat, p: nat)
      reads this, nodes
    {
      && k < p < |nodes| && Different(nodes) && list == nodes[if k == 0 then 1 else 0]
      && forall i: nat | i < |nodes| :: nodes[i].next == if i == p then nodes[k + 1] else NextOf(nodes, i)
    }

    lemma ForwardHead(k: nat)
      requires Forward() && k < |nodes|
      ensures list == nodes[0] && (list == nodes[k] <==> k == 0)
    {}

    lemma {:induction false} BentWalk(k: nat, p: nat, m: nat) returns (j: nat)
      requires Bent(k, p)
      ensures (if k == 0 then 1 else 0) <= j <= p && Walked(m) == nodes[j]
    {
      if m == 0 {
        j := if k == 0 then 1 else 0;
      } else {
        var i := BentWalk(k, p, m - 1);
        NextLink(nodes, i);
        j := if i == p then k + 1 else i + 1;
      }
    }

    lemma {:induction false} BentStraight(k: nat, p: nat, j: nat)
      requires Bent(k, p) && (if k == 0 then 1 else 0) <= j <= p
      ensures Walked(if k == 0 then j - 1 else j) == nodes[j]
      decreases j
    {
      if j > (if k == 0 then 1 else 0) {
        BentStraight(k, p, j - 1);
        NextLink(nodes, j - 1);
      }
    }

    /** Then going along the list never ends. */
    lemma BentCircles(k: nat, p: nat)
      requires Bent(k, p)
      ensures !Ends()
    {
      hide Walked;
      forall m: nat ensures Walked(m) != null { var j := BentWalk(k, p, m); }
    }

    /** It meets exactly the nodes up to node `p`, save for the first if that was taken off. */
    lemma BentMeets(k: nat, p: nat, j: nat)
      requires Bent(k, p) && j < |nodes|
      ensures (exists m: nat :: Walked(m) == nodes[j]) <==> (j <= p && (k == 0 ==> j > 0))
    {
      hide Walked;
      if j <= p && (k == 0 ==> j > 0) { BentStraight(k, p, j); }
      if m: nat :| Walked(m) == nodes[j] { var i := BentWalk(k, p, m); }
    }

    /** `pred` and `succ` stand around gap `i`. */
    ghost predicate At(i: nat, pred: Node?, succ: Node?)
      reads this
    {
      && i <= |nodes|
      && pred == (if i == 0 then null else nodes[i - 1])
      && succ == (if i == |nodes| then null else nodes[i])
    }

    /** The writes that link a new node in between. */
    method Attach(new_: Node, pred: Node?, succ: Node?)
      requires new_ !in nodes && (pred == null || pred in nodes) && (succ == null || succ in nodes)
      modifies this`list, nodes, new_
      ensures list == (if pred == null then new_ else old(list)) && new_.next == succ && new_.prev == pred
      ensures forall n | n in nodes :: n.next == (if n == pred then new_ else old(n.next))
      ensures forall n | n in nodes :: n.prev == (if n == succ then new_ else old(n.prev))
      ensures forall n | n in nodes :: n.start == old(n.start) && n.end == old(n.end) && n.flags == old(n.flags)
      ensures new_.start == old(new_.start) && new_.end == old(new_.end) && new_.flags == old(new_.flags)
    {
      new_.next := succ;
      new_.prev := pred;
      if succ != null { succ.prev := new_; }
      if pred != null { pred.next := new_; } else { list := new_; }
    }

    lemma ForwardInserted(was: seq<Node>, i: nat, n: Node)
      requires i <= |was| && Different(was) && n !in was && nodes == Inserted(was, i, n)
      requires list == (if i == 0 then n else was[0]) && n.next == (if i == |was| then null else was[i])
      requires forall j: nat | j < |was| :: was[j].next == if j + 1 == i then n else NextOf(was, j)
      ensures Forward()
    {
      hide Inserted, NextOf;
      InsertedDistinct(was, i, n);
      InsertedAt(was, i, n, 0);
      forall k: nat | k < |nodes| ensures nodes[k].next == NextOf(nodes, k) { InsertedAt(was, i, n, k); }
    }

    /** Links a new node in between. */
    method Link(new_: Node, pred: Node?, succ: Node?, ghost i: nat)
      requires Forward() && At(i, pred, succ) && new_ !in nodes
      modifies this, nodes, new_
      ensures Forward() && nodes == Inserted(old(nodes), i, new_)
      ensures Prevs() == LinkedPrevs(old(Prevs()), i, pred, new_)
      ensures Areas() == Insert(old(Areas()), i, Area(old(new_.start), old(new_.end), old(new_.flags)))
    {
      hide Inserted, NextOf, PrevOf, LinkedPrevs;
      ForwardDistinct();
      ghost var was, had := nodes, Prevs();
      Attach(new_, pred, succ);
      ghost var moved := if i < |had| then had[i := new_] else had;
      assert forall j | 0 <= j < |was| :: was[j].prev == moved[j];
      assert DataOf(was, old(Areas()));
      nodes := Inserted(was, i, new_);
      ForwardInserted(was, i, new_);
      AreasInserted(was, old(Areas()), i, new_);
      PrevsInserted(was, moved, i, new_, pred);
      LinkedPrevsIs(had, i, pred, new_);
    }

    method InsertNew(new_: Node, start: nat, end: nat, flags: nat, pred: Node?, succ: Node?, ghost i: nat)
      requires Forward() && At(i, pred, succ) && new_ !in nodes
      modifies this, nodes, new_
      ensures Forward() && Areas() == Insert(old(Areas()), i, Area(start, end, flags))
      ensures LinkedIn(old(nodes), old(Prevs()), i, new_, nodes, Prevs())
      ensures old(Back()) ==> Back()
      ensures old(Earlier(nodes, Prevs())) ==> (Earlier(nodes, Prevs()) <==> new_ !in old(Prevs())[..i])
    {
      hide Insert, NextOf, PrevOf, Inserted, LinkedPrevs, Earlier, StrictBack;
      ghost var was, had := nodes, Prevs();
      ForwardDistinct();
      BackIsStrict();
      new_.start, new_.end, new_.flags := start, end, flags;
      assert Areas() == old(Areas()) && Prevs() == had;
      Link(new_, pred, succ, i);
      BackIsStrict();
      if StrictBack(was, had) { LinkStrict(was, had, i, pred, new_); }
      if Earlier(was, had) { LinkEarlier(was, had, i, pred, new_); }
    }

    /** The search of `vma_add`: a gap that takes the interval, or past the end of the list. */
    method FindGap(start: nat, end: nat) returns (pred: Node?, succ: Node?, ghost i: nat)
      requires Forward() && Sorted(Areas())
      ensures i <= |nodes| ==> At(i, pred, succ) && GapFits(Areas(), i, start, end)
      ensures list != null && pred == null && succ == null <==> i > |nodes|
      ensures i <= |nodes| <==> Clear(Areas(), start, end)
    {
      hide NextOf, PrevOf, Sorted, Conflicts;
      pred, succ, i := null, list, 0;
      while pred != null || succ != null
        invariant i <= |nodes| ==> At(i, pred, succ)
        invariant i > |nodes| ==> i == |nodes| + 1 && nodes != [] && pred == null && succ == null
        invariant forall k: nat | k < i && k <= |nodes| :: !GapFits(Areas(), k, start, end)
        decreases |nodes| + 1 - i
      {
        if (pred == null || pred.end <= start) && (succ == null || succ.start >= end) { break; }
        if i < |nodes| { NextLink(nodes, i); }
        pred := succ;
        succ := if succ != null then succ.next else null;
        i := i + 1;
      }
      GapIffNoConflict(Areas(), start, end);
      assert i <= |nodes| ==> GapFits(Areas(), i, start, end);
    }

    /** `vma_add`; `spare` is what `kmalloc` gives. */
    method Add(start: nat, end: nat, flags: nat, spare: Node?) returns (st: Status, ghost i: nat)
      requires Forward() && Sorted(Areas()) && spare !in nodes
      modifies this, nodes, spare
      ensures Forward() && Sorted(Areas()) && (old(Valid()) ==> Valid())
      ensures st == if !InRange(start, end, flags) || !Clear(old(Areas()), start, end) then EINVAL
                    else if spare == null then ENOMEM else Ok
      ensures st == Ok ==> InsertedIn(old(Areas()), i, Area(start, end, flags), Areas())
      ensures st == Ok ==> LinkedIn(old(nodes), old(Prevs()), i, spare, nodes, Prevs())
      ensures st == Ok && old(Usable()) ==> i <= |old(nodes)| && (Usable() <==> spare !in old(Prevs())[..i])
      ensures st != Ok ==> Areas() == old(Areas()) && nodes == old(nodes) && Prevs() == old(Prevs())
      ensures forall x :: Covers(Areas(), x) <==> (Covers(old(Areas()), x) || (st == Ok && start <= x < end))
    {
      hide Bit, Clear, Covers, Sorted, Insert, GapFits, Forward, Back, At, Earlier, Prevs, LinkedIn;
      i := 0;
      if start >= end { return EINVAL, i; }
      if Bit(flags, VMA_USER) {
        if start < KERNEL_SPACE { return EINVAL, i; }
      } else {
        if end >= KERNEL_SPACE { return EINVAL, i; }
      }
      ghost var s := Areas();
      var pred, succ;
      pred, succ, i := FindGap(start, end);
      if list != null && pred == null && succ == null { return EINVAL, i; }
      if spare == null { return ENOMEM, i; }
      InsertKeeps(s, i, Area(start, end, flags));
      InsertNew(spare, start, end, flags, pred, succ, i);
      assert InsertedIn(s, i, Area(start, end, flags), Areas());
      st := Ok;
    }

    /** The search of `vma_alloc`: the first gap that qualifies. */
    method FindFit(size: nat, base: nat, limit: nat) returns (found: bool, pred: Node?, succ: Node?, ghost i: nat)
      requires Forward()
      ensures found ==> At(i, pred, succ) && Qualifies(Areas(), i, size, base, limit)
      ensures forall k: nat | k <= |nodes| && (found ==> k < i) :: !Qualifies(Areas(), k, size, base, limit)
    {
      hide NextOf, PrevOf, Sorted, Qualifies;
      pred, succ, i, found := null, list, 0, false;
      while true
        invariant At(i, pred, succ)
        invariant forall k: nat | k < i :: !Qualifies(Areas(), k, size, base, limit)
        decreases |nodes| - i
      {
        var start := if pred != null then pred.end else base;
        var end := if succ != null then succ.start else limit;
        FitMeans(Areas(), i, size, base, limit);
        if start + size < end && start >= base && start + size < limit {
          found := true;
          break;
        }
        if i < |nodes| { NextLink(nodes, i); }
        pred := succ;
        succ := if pred != null then pred.next else null;
        if pred == null && succ == null { break; }
        i := i + 1;
      }
    }

    method SetEnd(n: Node, end: nat, ghost k: nat)
      requires Forward() && k < |nodes| && n == nodes[k]
      modifies n`end
      ensures Forward() && Prevs() == old(Prevs()) && (old(Back()) ==> Back())
      ensures Areas() == old(Areas())[k := old(Areas())[k].(end := end)]
    {
      n.end := end;
    }

    method SetStart(n: Node, start: nat, ghost k: nat)
      requires Forward() && k < |nodes| && n == nodes[k]
      modifies n`start
      ensures Forward() && Prevs() == old(Prevs())
      ensures Areas() == old(Areas())[k := old(Areas())[k].(start := start)]
    {
      n.start := start;
    }

    /** `vma_alloc`; `spare` is what `kmalloc` gives. */
    method Alloc(size: nat, flags: nat, userMax: nat, spare: Node?) returns (start: nat)
      requires Forward() && Sorted(Areas()) && spare !in nodes
      modifies this, nodes, spare
      ensures Forward() && Sorted(Areas()) && (old(Valid()) ==> Valid())
      ensures var s, (base, limit) := old(Areas()), Bounds(flags, userMax);
        match FirstFit(s, size, base, limit, 0)
        case None => start == 0 && Areas() == s
        case Some(i) =>
          if Extends(s, i, flags) || spare != null then
            start == GapStart(s, i, base) > 0 && Areas() == Allocated(s, i, size, flags, base)
          else start == 0 && Areas() == s
      ensures var s, (base, limit) := old(Areas()), Bounds(flags, userMax);
        var fit := FirstFit(s, size, base, limit, 0);
        if fit.None? || Extends(s, fit.value, flags) || spare == null then
          nodes == old(nodes) && Prevs() == old(Prevs())
        else
          && LinkedIn(old(nodes), old(Prevs()), fit.value, spare, nodes, Prevs())
          && (old(Usable()) ==> (Usable() <==> spare !in old(Prevs())[..fit.value]))
      ensures AllocAnswer(old(Areas()), size, flags, userMax, spare != null, start, Areas())
    {
      hide Bounds, Sorted, Insert, Qualifies, Covers, Forward, Back, Allocated, Areas, FirstFit, Earlier, Prevs,
        LinkedIn, AllocAnswer;
      var (base, limit) := Bounds(flags, userMax);
      BasePositive(flags, userMax);
      ghost var s := Areas();
      AllocAnswers(s, size, flags, userMax, spare != null);
      var found, pred, succ, i := FindFit(size, base, limit);
      assert Areas() == s && (forall k: nat | k <= |s| && (found ==> k < i) :: !Qualifies(s, k, size, base, limit));
      FoundFit(s, size, base, limit, found, i);
      if !found { return 0; }
      FitStart(s, i, size, base, limit);
      start := if pred != null then pred.end else base;
      AllocKeeps(s, i, size, flags, base, limit);
      AllocatedIs(s, i, size, flags, base);
      if pred != null && pred.flags == flags {
        SetEnd(pred, start + size, i - 1);
      } else {
        if spare == null { return 0; }
        InsertNew(spare, start, start + size, flags, pred, succ, i);
      }
    }

    /** The search of `vma_free`: the first area that holds all of the interval. */
    method FindHolder(start: nat, end: nat) returns (vma: Node?, ghost k: nat)
      requires Forward()
      ensures if vma == null then forall j | 0 <= j < |nodes| :: !Within(Areas()[j], start, end)
              else k < |nodes| && vma == nodes[k] && Within(Areas()[k], start, end)
    {
      hide NextOf, Within;
      vma, k := list, 0;
      while vma != null
        invariant k <= |nodes| && vma == if k == |nodes| then null else nodes[k]
        invariant forall j | 0 <= j < k :: !Within(Areas()[j], start, end)
        decreases |nodes| - k
      {
        WithinMeans(Areas()[k], start, end);
        if start >= vma.start && end <= vma.end { break; }
        NextLink(nodes, k);
        vma := vma.next;
        k := k + 1;
      }
    }

    /** The writes that take a node off. */
    method Bypass(vma: Node)
      requires vma in nodes && (vma.next == null || vma.next in nodes)
      modifies this`list, nodes, vma.prev
      ensures list == if old(list) == vma then old(vma.next) else old(list)
      ensures forall n | n in nodes :: n.next == if n == old(vma.prev) then old(vma.next) else old(n.next)
      ensures forall n | n in nodes :: n.prev == if n == old(vma.next) then old(vma.prev) else old(n.prev)
      ensures forall n | n in nodes :: n.start == old(n.start) && n.end == old(n.end) && n.flags == old(n.flags)
    {
      if vma == list { list := vma.next; }
      if vma.prev != null { vma.prev.next := vma.next; }
      if vma.next != null { vma.next.prev := vma.prev; }
    }

    /** Takes a node off the list by its links. Its `prev` names the node at place `p`, or for -1 no other
        of the list; then only the first node comes off. If it is behind, the list bends. */
    method Unlink(vma: Node, ghost k: nat, ghost p: int)
      requires Forward() && k < |nodes| && vma == nodes[k] && Names(nodes, Prevs(), k, p)
      modifies this, nodes, vma.prev
      ensures p > k ==> nodes == old(nodes) && Bent(k, p) && Areas() == old(Areas())
      ensures p > k ==> Prevs() == old(Prevs())[k + 1 := old(Prevs())[k]]
      ensures p < k ==> Forward() && Prevs() == UnlinkedPrevs(old(nodes), old(Prevs()), k, p)
      ensures p < k && Stuck(k, p) ==> nodes == old(nodes) && Areas() == old(Areas())
      ensures p < k && !Stuck(k, p) ==>
        nodes == Removed(old(nodes), p, k) && Areas() == Without(old(Areas()), p, k)
    {
      hide Forward, Areas, Prevs, Removed, Without, UnlinkedPrevs, Bent, Different, Names, Relinked;
      ghost var was, had, s := nodes, Prevs(), Areas();
      ForwardDistinct();
      NamedPlaces(nodes, Prevs(), k, p);
      Detach(vma, k);
      if p > k {
        RelinkedBent(was, had, s, k, p);
      } else if Stuck(k, p) {
        RelinkedStuck(was, had, s, k, p);
      } else {
        nodes := Removed(was, p, k);
        RelinkedRemoved(was, had, s, k, p);
      }
    }

    /** The state after the writes that take node `k` of `was` off. */
    ghost predicate Relinked(was: seq<Node>, had: seq<Node?>, s: seq<Area>, k: nat)
      reads this`list, was
    {
      && |had| == |was| && k < |was| && list == (if k == 0 then NextOf(was, k) else was[0])
      && (forall i: nat | i < |was| :: was[i].next == if was[i] == had[k] then NextOf(was, k) else NextOf(was, i))
      && (forall i: nat | i < |was| :: was[i].prev == had[if i == k + 1 then k else i])
      && DataOf(was, s)
    }

    method Detach(vma: Node, ghost k: nat)
      requires Forward() && k < |nodes| && vma == nodes[k]
      modifies this`list, nodes, vma.prev
      ensures Relinked(nodes, old(Prevs()), old(Areas()), k)
    {
      hide NextOf, Different;
      NextLink(nodes, k);
      ForwardHead(k);
      Bypass(vma);
    }

    lemma RelinkedBent(was: seq<Node>, had: seq<Node?>, s: seq<Area>, k: nat, p: nat)
      requires Relinked(was, had, s, k) && Names(was, had, k, p) && Different(was) && p > k && nodes == was
      ensures Bent(k, p) && Areas() == s && Prevs() == had[k + 1 := had[k]]
    {
      hide NextOf, Different;
      NamedPlaces(was, had, k, p);
      NextLink(was, k);
    }

    lemma RelinkedStuck(was: seq<Node>, had: seq<Node?>, s: seq<Area>, k: nat, p: int)
      requires Relinked(was, had, s, k) && PrevIs(was, had, k, p) && Different(was) && Stuck(k, p) && nodes == was
      ensures Forward() && Areas() == s && Prevs() == UnlinkedPrevs(was, had, k, p)
    {
      hide NextOf, UnlinkedPrevs;
      UnlinkedStuck(was, had, k, p);
    }

    lemma RelinkedRemoved(was: seq<Node>, had: seq<Node?>, s: seq<Area>, k: nat, p: int)
      requires Relinked(was, had, s, k) && PrevIs(was, had, k, p) && Different(was) && !Stuck(k, p)
      requires nodes == Removed(was, p, k)
      ensures Forward() && Areas() == Without(s, p, k) && Prevs() == UnlinkedPrevs(was, had, k, p)
    {
      hide NextOf, UnlinkedPrevs, Removed, Without, Different, DataOf;
      NamedPlaces(was, had, k, p);
      AreasRemoved(was, s, p, k);
      PrevsRemoved(was, had, p, k);
      ForwardRemoved(was, p, k);
    }

    lemma ForwardRemoved(was: seq<Node>, p: int, k: nat)
      requires -1 <= p < k < |was| && !Stuck(k, p) && Different(was) && nodes == Removed(was, p, k)
      requires list == if k == 0 then NextOf(was, k) else was[0]
      requires forall i: nat | i < |was| :: was[i].next == NextOf(was, if i == p then k else i)
      ensures Forward()
    {
      hide NextOf, Removed;
      RemovedDistinct(was, p, k);
      NextLink(was, k);
      if |nodes| > 0 { RemovedAt(was, p, k, 0); }
      forall i: nat | i < |nodes| ensures nodes[i].next == NextOf(nodes, i) {
        RemovedAt(was, p, k, i);
      }
    }

    /** The nodes carry the areas. */
    static ghost predicate DataOf(ns: seq<Node>, s: seq<Area>)
      reads ns
    {
      |s| == |ns| && forall i | 0 <= i < |ns| :: s[i] == Area(ns[i].start, ns[i].end, ns[i].flags)
    }

    lemma AreasRemoved(was: seq<Node>, s: seq<Area>, p: int, k: nat)
      requires -1 <= p < k < |was| && DataOf(was, s) && nodes == Removed(was, p, k)
      ensures Areas() == Without(s, p, k)
    {
      hide Removed, Without;
      WithoutAt(s, p, k, 0);
      RemovedSize(was, p, k);
      forall i: nat | i < |nodes| ensures Areas()[i] == Without(s, p, k)[i] {
        RemovedAt(was, p, k, i);
        WithoutAt(s, p, k, i);
      }
    }

    lemma PrevsRemoved(was: seq<Node>, had: seq<Node?>, p: int, k: nat)
      requires PrevIs(was, had, k, p) && !Stuck(k, p) && nodes == Removed(was, p, k)
      requires forall i | 0 <= i < |was| :: was[i].prev == had[if i == k + 1 then k else i]
      ensures Prevs() == UnlinkedPrevs(was, had, k, p)
    {
      hide Removed, UnlinkedPrevs;
      UnlinkedPrevsAt(was, had, k, p, 0);
      RemovedSize(was, p, k);
      forall i: nat | i < |nodes| ensures Prevs()[i] == UnlinkedPrevs(was, had, k, p)[i] {
        RemovedAt(was, p, k, i);
        UnlinkedPrevsAt(was, had, k, p, i);
      }
    }

    lemma AreasInserted(was: seq<Node>, s: seq<Area>, i: nat, n: Node)
      requires i <= |was| && DataOf(was, s) && nodes == Inserted(was, i, n)
      ensures Areas() == Insert(s, i, Area(n.start, n.end, n.flags))
    {
      hide Inserted, Insert;
      var a := Area(n.start, n.end, n.flags);
      InsertAt(s, i, a, 0);
      InsertedAt(was, i, n, 0);
      forall k: nat | k < |nodes| ensures Areas()[k] == Insert(s, i, a)[k] {
        InsertedAt(was, i, n, k);
        InsertAt(s, i, a, k);
      }
    }

    lemma PrevsInserted(was: seq<Node>, had: seq<Node?>, i: nat, n: Node, m: Node?)
      requires i <= |was| == |had| && nodes == Inserted(was, i, n) && n.prev == m
      requires forall j | 0 <= j < |was| :: was[j].prev == had[j]
      ensures Prevs() == Placed(had, i, m)
    {
      hide Inserted, Placed;
      PlacedAt(had, i, m, 0);
      InsertedAt(was, i, n, 0);
      forall k: nat | k < |nodes| ensures Prevs()[k] == Placed(had, i, m)[k] {
        InsertedAt(was, i, n, k);
        PlacedAt(had, i, m, k);
      }
    }

    /** Cuts [start, end) out of the middle of a node; the successor's `prev` is not set. */
    method SplitNode(vma: Node, start: nat, end: nat, new_: Node, ghost k: nat)
      requires Forward() && k < |nodes| && vma == nodes[k] && new_ !in nodes
      modifies this, vma, new_
      ensures Forward() && nodes == Inserted(old(nodes), k + 1, new_)
      ensures Prevs() == Placed(old(Prevs()), k + 1, vma)
      ensures var s := old(Areas());
        Areas() == Insert(s[k := s[k].(end := start)], k + 1, Area(end, s[k].end, old(new_.flags)))
    {
      hide Inserted, NextOf, PrevOf, Insert;
      ghost var was, s := nodes, old(Areas());
      NextLink(was, k);
      new_.end := vma.end;
      vma.end := start;
      new_.start := end;
      new_.next := vma.next;
      vma.next := new_;
      new_.prev := vma;
      nodes := Inserted(was, k + 1, new_);
      InsertedDistinct(was, k + 1, new_);
      InsertedAt(was, k + 1, new_, 0);
      forall i: nat | i < |nodes| ensures nodes[i].next == NextOf(nodes, i) { InsertedAt(was, k + 1, new_, i); }
      ghost var t := s[k := s[k].(end := start)];
      assert DataOf(was, t);
      AreasInserted(was, t, k + 1, new_);
      PrevsInserted(was, old(Prevs()), k + 1, new_, vma);
    }

    /** `vma_free`; `spare` is what `kmalloc` gives, `freed` what `kfree` is given. The area is number `k`
        and its `prev` names number `p`, or for -1 no other node of the list. */
    method Free(start: nat, end: nat, spare: Node?) returns (st: Status, freed: Node?, ghost k: nat, ghost p: int)
      requires Forward() && spare !in nodes
      modifies this, nodes, spare, set n | n in nodes :: n.prev
      ensures st == EINVAL <==>
        (start >= end || Straddles(start, end)
         || forall j | 0 <= j < |old(nodes)| :: !Within(old(Areas())[j], start, end))
      ensures st != Ok ==> nodes == old(nodes) && Areas() == old(Areas()) && Prevs() == old(Prevs()) && Forward()
      ensures st != EINVAL ==>
        k < |old(nodes)| && Within(old(Areas())[k], start, end) && Names(old(nodes), old(Prevs()), k, p)
      ensures st == ENOMEM <==> (st != EINVAL && spare == null && Inside(old(Areas())[k], start, end))
      ensures freed == if st == Ok && Exact(old(Areas())[k], start, end) then old(nodes)[k] else null
      ensures Ends() <==> !(freed != null && p > k)
      ensures freed != null && p > k ==> nodes == old(nodes) && Bent(k, p)
      ensures st == Ok && !(freed != null && p > k) ==> Forward() && (old(Sorted(Areas())) ==> Sorted(Areas()))
      ensures st == Ok && !(freed != null && p > k) ==>
        FreedList(old(nodes), old(Prevs()), old(Areas()), start, end, spare,
                  if spare == null then 0 else old(spare.flags), k, p, nodes, Prevs(), Areas())
      ensures old(Earlier(nodes, Prevs())) && st != EINVAL ==> p < k
      ensures old(Earlier(nodes, Prevs())) ==>
        (Earlier(nodes, Prevs()) <==>
           (st == Ok && Inside(old(Areas())[k], start, end) ==> spare !in old(Prevs())[..k + 1]))
      ensures st == Ok && LooseBack(old(nodes), old(Prevs())) ==> p < k
      ensures st == Ok && LooseBack(old(nodes), old(Prevs())) ==>
        (LooseBack(nodes, Prevs()) <==>
           (Exact(old(Areas())[k], start, end) ==> NoneOrphaned(old(nodes), old(Prevs()), k, p)))
    {
      hide Forward, Areas, Prevs, Within, Freed, Without, Names, Inserted, Earlier, FreedList, UnlinkedPrevs, Removed;
      hide LooseBack, NoneOrphaned, Sorted, Ends, Bent;
      k, p, freed := 0, 0, null;
      ForwardEnds();
      if start >= end { return EINVAL, freed, k, p; }
      if end >= KERNEL_SPACE && start < KERNEL_SPACE { return EINVAL, freed, k, p; }
      var vma;
      vma, k := FindHolder(start, end);
      ghost var was, had, s := nodes, Prevs(), Areas();
      assert s == old(Areas());
      if vma == null {
        assert forall j | 0 <= j < |old(nodes)| :: !Within(s[j], start, end);
        return EINVAL, freed, k, p;
      }
      ForwardDistinct();
      p := SomePrev(nodes, Prevs(), k);
      ghost var rest := if spare == null then 0 else spare.flags;
      FreedIs(s, k, start, end, rest);
      WithinMeans(s[k], start, end);
      if Earlier(was, had) { EarlierNames(was, had, k, p); }
      if LooseBack(was, had) { LooseNames(was, had, k, p); }
      if start == vma.start && end == vma.end {
        freed := TakeOff(vma, start, end, spare, rest, k, p);
        st := Ok;
      } else {
        st := CutOut(vma, start, end, spare, k, p);
      }
    }

    /** The other cases of `vma_free`. */
    method CutOut(vma: Node, start: nat, end: nat, spare: Node?, ghost k: nat, ghost p: int) returns (st: Status)
      requires Forward() && spare !in nodes && k < |nodes| && vma == nodes[k] && Names(nodes, Prevs(), k, p)
      requires !Exact(Areas()[k], start, end) && Within(Areas()[k], start, end) && start < end
      modifies this, vma, spare
      ensures Forward() && Ends() && (old(Sorted(Areas())) ==> Sorted(Areas()))
      ensures st == if spare == null && Inside(old(Areas())[k], start, end) then ENOMEM else Ok
      ensures st != Ok ==> nodes == old(nodes) && Areas() == old(Areas()) && Prevs() == old(Prevs())
      ensures st == Ok ==>
        FreedList(old(nodes), old(Prevs()), old(Areas()), start, end, spare,
                  if spare == null then 0 else old(spare.flags), k, p, nodes, Prevs(), Areas())
      ensures old(Earlier(nodes, Prevs())) ==>
        (Earlier(nodes, Prevs()) <==>
           (st == Ok && Inside(old(Areas())[k], start, end) ==> spare !in old(Prevs())[..k + 1]))
      ensures st == Ok && LooseBack(old(nodes), old(Prevs())) ==> LooseBack(nodes, Prevs())
    {
      hide Forward, Areas, Prevs, Within, Freed, Without, Names, Inserted, Earlier, FreedList, UnlinkedPrevs, Removed;
      hide LooseBack, NoneOrphaned, Sorted, Ends;
      ghost var was, had, s, rest := nodes, Prevs(), Areas(), if spare == null then 0 else spare.flags;
      ForwardDistinct();
      ForwardEnds();
      NamedPlaces(was, had, k, p);
      FreedIs(s, k, start, end, rest);
      WithinMeans(s[k], start, end);
      if start == vma.start {
        SetStart(vma, end, k);
      } else if end == vma.end {
        SetEnd(vma, start, k);
      } else {
        if spare == null { return ENOMEM; }
        SplitNode(vma, start, end, spare, k);
        if Earlier(was, had) { SplitEarlier(was, had, k, spare); }
      }
      ForwardEnds();
      FreedListIs(was, had, s, start, end, spare, rest, k, p, nodes, Prevs(), Areas());
      if Sorted(s) { FreedSorted(was, had, s, start, end, spare, rest, k, p, nodes, Prevs(), Areas()); }
      if LooseBack(was, had) { FreeLoose(was, had, s, start, end, spare, rest, k, p, nodes, Prevs(), Areas()); }
      st := Ok;
    }

    /** The case of `vma_free` in which a whole area goes. */
    method TakeOff(vma: Node, ghost start: nat, ghost end: nat, ghost spare: Node?, ghost rest: nat, ghost k: nat,
                   ghost p: int)
      returns (freed: Node?)
      requires Forward() && k < |nodes| && vma == nodes[k] && Names(nodes, Prevs(), k, p)
      requires Exact(Areas()[k], start, end) && start < end
      requires Earlier(nodes, Prevs()) || LooseBack(nodes, Prevs()) ==> p < k
      modifies this, nodes, vma.prev
      ensures freed == vma && (Ends() <==> p < k)
      ensures p > k ==> nodes == old(nodes) && Bent(k, p)
      ensures p < k ==> Forward() && (old(Sorted(Areas())) ==> Sorted(Areas()))
      ensures p < k ==>
        FreedList(old(nodes), old(Prevs()), old(Areas()), start, end, spare, rest, k, p, nodes, Prevs(), Areas())
      ensures old(Earlier(nodes, Prevs())) ==> Earlier(nodes, Prevs())
      ensures LooseBack(old(nodes), old(Prevs())) ==>
        (LooseBack(nodes, Prevs()) <==> NoneOrphaned(old(nodes), old(Prevs()), k, p))
    {
      hide Forward, Areas, Prevs, Within, Freed, Without, Inserted, Earlier, FreedList, UnlinkedPrevs, Removed;
      hide LooseBack, NoneOrphaned, Sorted, Ends, Bent;
      ghost var was, had, s := nodes, Prevs(), Areas();
      ForwardDistinct();
      WithinMeans(s[k], start, end);
      Unlink(vma, k, p);
      if p > k {
        BentCircles(k, p);
      } else {
        ForwardEnds();
        if Earlier(was, had) { UnlinkEarlier(was, had, k, p); }
        FreedListIs(was, had, s, start, end, spare, rest, k, p, nodes, Prevs(), Areas());
        if Sorted(s) { FreedSorted(was, had, s, start, end, spare, rest, k, p, nodes, Prevs(), Areas()); }
        if LooseBack(was, had) { FreeLoose(was, had, s, start, end, spare, rest, k, p, nodes, Prevs(), Areas()); }
      }
      freed := vma;
    }

    lemma ForwardDistinct()
      requires Forward()
      ensures Different(nodes)
    {}

    /** `vma_free` on a valid list: it removes exactly the interval and keeps the order; the list
        stays doubly linked unless an area with a successor was split. */
    method FreeOnce(start: nat, end: nat, spare: Node?) returns (st: Status, ghost k: nat)
      requires Valid() && spare !in nodes
      modifies this, nodes, spare
      ensures Forward() && Sorted(Areas()) && Earlier(nodes, Prevs())
      ensures forall x :: Covers(Areas(), x) <==> (Covers(old(Areas()), x) && !(st == Ok && start <= x < end))
      ensures st == Ok ==> k < |old(nodes)| && Within(old(Areas())[k], start, end)
      ensures Back() <==> !(st == Ok && Inside(old(Areas())[k], start, end) && k + 1 < |old(nodes)|)
    {
      hide Forward, Areas, Prevs, Within, Freed, Without, Inserted, PrevIs, Sorted, Covers, Earlier, StrictBack;
      hide FreedList;
      BackIsStrict();
      ForwardDistinct();
      StrictIsEarlier(nodes, Prevs());
      ghost var s, was, had := Areas(), nodes, Prevs();
      ghost var p;
      PrevsOnList();
      var freed;
      st, freed, k, p := Free(start, end, spare);
      BackIsStrict();
      if st == Ok {
        ghost var rest := if spare == null then 0 else old(spare.flags);
        WithinMeans(s[k], start, end);
        StrictFree(was, had, s, start, end, spare, rest, k, p, nodes, Prevs(), Areas());
        forall x ensures Covers(Areas(), x) <==> Covers(s, x) && !(start <= x < end) {
          FreeKeeps(s, k, start, end, rest, x);
        }
        FreeKeeps(s, k, start, end, rest, 0);
      }
    }

    /** On a valid list: the first step of the two runs below, an area with a successor is split. */
    method SplitFirst(start: nat, end: nat, spare: Node, ghost k: nat)
      requires Valid() && spare !in nodes && k + 1 < |nodes| && Areas()[k].start < start < end < Areas()[k].end
      requires !Straddles(start, end)
      modifies this, nodes, spare
      ensures Forward() && Earlier(nodes, Prevs()) && nodes == Inserted(old(nodes), k + 1, spare)
      ensures StrictBack(old(nodes), old(Prevs())) && Different(old(nodes))
      ensures Prevs() == Placed(old(Prevs()), k + 1, old(nodes)[k])
      ensures Areas() == Halves(old(Areas()), k, start, end, old(spare.flags)) && Sorted(Areas())
      ensures Among((set m | m in old(nodes)) + {spare})
    {
      hide Forward, Areas, Prevs, Within, Freed, Without, Inserted, Placed, PrevIs, Sorted, Covers, Earlier, StrictBack;
      BackIsStrict();
      ForwardDistinct();
      StrictIsEarlier(nodes, Prevs());
      PrevsOnList();
      ghost var s := Areas();
      WithinMeans(s[k], start, end);
      var st, freed;
      ghost var i, p;
      st, freed, i, p := Free(start, end, spare);
      OneHolder(s, i, k, start, end);
      FreedIs(s, k, start, end, old(spare.flags));
      FreeKeeps(s, k, start, end, old(spare.flags), 0);
      SplitLinks(old(nodes), old(Prevs()), k, spare);
      LinkedAmong((set m | m in old(nodes)) + {spare});
    }

    lemma LinkedAmong(all: set<Node>)
      requires forall m | m in nodes :: m in all
      requires forall i | 0 <= i < |Prevs()| :: Prevs()[i] == null || Prevs()[i] in nodes
      ensures Among(all)
    {
      forall n | n in nodes ensures n in all && (n.prev == null || n.prev in all) {
        var i :| 0 <= i < |nodes| && nodes[i] == n;
        assert Prevs()[i] == n.prev;
      }
    }

    /** After a split the successor is freed: the second part of the split area is lost with it. */
    method SplitThenFreeNext(start: nat, end: nat, nextStart: nat, nextEnd: nat, spare: Node, ghost k: nat)
      returns (st: Status)
      requires Valid() && spare !in nodes && SplitWithNext(Areas(), k, start, end, nextStart, nextEnd)
      modifies this, nodes, spare
      ensures st == Ok && Forward()
      ensures Areas() == Without(old(Areas())[k := old(Areas())[k].(end := start)], k, k + 1)
      ensures Covers(old(Areas()), end) && !Covers(Areas(), end)
    {
      hide Forward, Areas, Prevs, Within, Freed, Without, Names, Earlier, UnlinkedPrevs, Removed, Inserted, Placed,
        Sorted, Covers, Halves, StrictBack, Among, Straddles;
      ghost var s, was, had, rest := Areas(), nodes, Prevs(), spare.flags;
      SplitFirst(start, end, spare, k);
      ghost var s1 := Areas();
      HalvesAt(s, k, start, end, rest);
      var freed;
      ghost var p;
      st, freed, p := FreeAmong(nextStart, nextEnd, (set m | m in was) + {spare}, k + 2);
      NextNamesFirst(was, had, k, spare, p);
      LostPart(s, k, start, end, nextStart, nextEnd, rest);
    }

    /** After a split the first part is freed: the `prev` of the successor is off the list then. */
    method SplitThenFreeFirst(start: nat, end: nat, areaStart: nat, spare: Node, ghost k: nat,
                              ghost nextStart: nat, ghost nextEnd: nat)
      returns (freed: Node?)
      requires Valid() && spare !in nodes && SplitWithNext(Areas(), k, start, end, nextStart, nextEnd)
      requires areaStart == Areas()[k].start && !Straddles(areaStart, start)
      modifies this, nodes, spare
      ensures Forward() && Earlier(nodes, Prevs()) && Among((set m | m in old(nodes)) + {spare})
      ensures Areas() == old(Areas())[k := Area(end, old(Areas())[k].end, old(spare.flags))]
      ensures Sorted(Areas()) && Covers(Areas(), nextStart)
      ensures freed == old(nodes)[k] && NamesFreed(old(nodes), nodes, Prevs(), k)
    {
      hide Forward, Areas, Prevs, Within, Freed, Without, Names, Earlier, UnlinkedPrevs, Removed, Inserted, Placed,
        Sorted, Covers, Halves, StrictBack, Among, Straddles, NamesFreed, Different, Bent, Back;
      ghost var s, was, had, rest := Areas(), nodes, Prevs(), spare.flags;
      SplitFirst(start, end, spare, k);
      ghost var s1 := Areas();
      HalvesAt(s, k, start, end, rest);
      var st;
      ghost var p;
      st, freed, p := FreeAmong(areaStart, start, (set m | m in was) + {spare}, k);
      FirstNamesBefore(was, had, k, spare, p);
      FirstOff(s, k, start, end, nextStart, nextEnd, rest);
      NextNamesNone(was, had, k, spare);
    }

    /** After a split the first part is freed and then the successor: the call reports success and the
        successor is still there. */
    method SplitThenFreeBoth(start: nat, end: nat, nextStart: nat, nextEnd: nat, areaStart: nat, spare: Node,
                             ghost k: nat)
      returns (st: Status)
      requires Valid() && spare !in nodes && SplitWithNext(Areas(), k, start, end, nextStart, nextEnd)
      requires areaStart == Areas()[k].start && !Straddles(areaStart, start)
      modifies this, nodes, spare
      ensures st == Ok && Forward()
      ensures Areas() == old(Areas())[k := Area(end, old(Areas())[k].end, old(spare.flags))]
      ensures Covers(Areas(), nextStart)
    {
      hide Forward, Areas, Prevs, Names, Earlier, UnlinkedPrevs, Removed, Without, Sorted, Covers, Among;
      ghost var s, was := Areas(), nodes;
      var freed := SplitThenFreeFirst(start, end, areaStart, spare, k, nextStart, nextEnd);
      ghost var s2, nodes2, prevs2 := Areas(), nodes, Prevs();
      ghost var p;
      st, freed, p := FreeAmong(nextStart, nextEnd, (set m | m in was) + {spare}, k + 1);
      NoPlace(was, nodes2, prevs2, k, p);
    }

    /** After a split the first part is freed and its node handed out again, for an area behind the
        successor. Freeing the successor reports success, and going along the list never ends; the
        successor is still met. */
    method ReuseThenFree(start: nat, end: nat, nextStart: nat, nextEnd: nat, areaStart: nat, spare: Node, ghost k: nat,
                         addStart: nat, addEnd: nat, flags: nat)
      returns (st: Status)
      requires Valid() && spare !in nodes && SplitWithNext(Areas(), k, start, end, nextStart, nextEnd)
      requires areaStart == Areas()[k].start && !Straddles(areaStart, start)
      requires InRange(addStart, addEnd, flags) && nextEnd <= addStart && Clear(Areas(), addStart, addEnd)
      modifies this, nodes, spare
      ensures st == Ok && !Ends()
      ensures exists m: nat :: Walked(m) == old(nodes)[k + 1]
    {
      hide Forward, Areas, Prevs, Earlier, Sorted, Covers, Among, Straddles, Names, InRange, Clear;
      hide InsertedIn, LinkedIn, Ends, Walked, Bent, NamesFreed, UnlinkedPrevs, Removed, Without;
      ghost var s, was, all := Areas(), nodes, (set m | m in nodes) + {spare};
      var node := SplitThenFreeFirst(start, end, areaStart, spare, k, nextStart, nextEnd);
      FreedOff(was, nodes, Prevs(), k);
      StillClear(s, k, end, old(spare.flags), addStart, addEnd);
      RangeOrder(addStart, addEnd, flags);
      ghost var s2, nodes2, prevs2 := Areas(), nodes, Prevs();
      ghost var i, p;
      st, i := AddAmong(addStart, addEnd, flags, node, all);
      AddedBehind(s2, i, k + 1, Area(addStart, addEnd, flags), Areas());
      ForwardDistinct();
      ghost var nodes3, prevs3 := nodes, Prevs();
      var freed;
      st, freed, p := FreeAmong(nextStart, nextEnd, all, k + 1);
      NamesBehind(was, nodes2, prevs2, k, i, nodes3, prevs3, p);
      BentCircles(k + 1, p);
      BentMeets(k + 1, p, k + 1);
    }

    /** The nodes of the list and those that their links name. */
    ghost predicate Among(all: set<Node>)
      reads this, nodes
    {
      forall n | n in nodes :: n in all && (n.prev == null || n.prev in all)
    }

    /** `vma_free` of a whole area, with the nodes that it can reach. */
    method FreeAmong(start: nat, end: nat, ghost all: set<Node>, ghost k: nat)
      returns (st: Status, freed: Node?, ghost p: int)
      requires Forward() && Among(all) && start < end && !Straddles(start, end)
      requires Sorted(Areas()) && k < |nodes| && Exact(Areas()[k], start, end)
      modifies this, all
      ensures st == Ok && freed == old(nodes)[k] && Names(old(nodes), old(Prevs()), k, p)
      ensures old(Earlier(nodes, Prevs())) ==> p < k && Earlier(nodes, Prevs())
      ensures p > k ==> nodes == old(nodes) && Bent(k, p)
      ensures p < k ==> Forward() && Among(all) && Prevs() == UnlinkedPrevs(old(nodes), old(Prevs()), k, p)
      ensures p < k ==> nodes == if Stuck(k, p) then old(nodes) else Removed(old(nodes), p, k)
      ensures p < k ==> Areas() == if Stuck(k, p) then old(Areas()) else Without(old(Areas()), p, k)
    {
      ghost var s, was, had := Areas(), nodes, Prevs();
      hide Straddles, Within, LooseBack, NoneOrphaned, Forward, Areas, Prevs, Freed, Without, Names, Earlier, Bent;
      hide Ends;
      hide UnlinkedPrevs, Removed, Inserted, Sorted, FreedList;
      WithinMeans(s[k], start, end);
      ghost var i;
      st, freed, i, p := Free(start, end, null);
      OneHolder(s, i, k, start, end);
      if p < k {
        ExactFreed(was, had, s, start, end, k, p, nodes, Prevs(), Areas());
        StaysAmong(was, had, k, p, nodes, Prevs(), all);
      }
    }

    /** `vma_add`, likewise. */
    method AddAmong(start: nat, end: nat, flags: nat, spare: Node, ghost all: set<Node>)
      returns (st: Status, ghost i: nat)
      requires Forward() && Sorted(Areas()) && Among(all) && spare in all && spare !in nodes
      requires InRange(start, end, flags) && Clear(Areas(), start, end)
      modifies this, all
      ensures st == Ok && Forward() && Sorted(Areas()) && Among(all)
      ensures InsertedIn(old(Areas()), i, Area(start, end, flags), Areas())
      ensures LinkedIn(old(nodes), old(Prevs()), i, spare, nodes, Prevs())
    {
      ghost var was, had := nodes, Prevs();
      hide Forward, Areas, Prevs, Sorted, Covers, InsertedIn, LinkedIn, InRange, Clear, Earlier;
      st, i := Add(start, end, flags, spare);
      LinkedAreAmong(was, had, i, spare, all);
    }

    lemma LinkedAreAmong(was: seq<Node>, had: seq<Node?>, i: nat, n: Node, all: set<Node>)
      requires LinkedIn(was, had, i, n, nodes, Prevs()) && n in all
      requires forall m | m in was :: m in all
      requires forall j | 0 <= j < |had| :: had[j] == null || had[j] in all
      ensures Among(all)
    {
      hide Inserted, LinkedPrevs;
      InsertedMembers(was, i, n);
      forall j: nat | j < |nodes| ensures nodes[j].prev == null || nodes[j].prev in all {
        assert nodes[j].prev == Prevs()[j];
        LinkedPrevsAt(had, i, if i == 0 then null else was[i - 1], n, j);
      }
    }

    /** The nodes that are left name what was named before. */
    lemma StaysAmong(was: seq<Node>, had: seq<Node?>, k: nat, p: int, now: seq<Node>, have: seq<Node?>, all: set<Node>)
      requires nodes == now && Prevs() == have && PrevIs(was, had, k, p) && have == UnlinkedPrevs(was, had, k, p)
      requires forall n | n in was :: n in all
      requires forall i | 0 <= i < |had| :: had[i] == null || had[i] in all
      requires now == if Stuck(k, p) then was else Removed(was, p, k)
      ensures Among(all)
    {
      forall n | n in nodes ensures n in all && (n.prev == null || n.prev in all) {
        var i :| 0 <= i < |nodes| && nodes[i] == n;
        assert Prevs()[i] == n.prev;
        if Stuck(k, p) {
          UnlinkedStuck(was, had, k, p);
        } else {
          RemovedAt(was, p, k, i);
          UnlinkedPrevsAt(was, had, k, p, i);
        }
      }
    }

    lemma BackIsStrict()
      ensures Back() <==> StrictBack(nodes, Prevs())
    {}

    /** The links of a valid list lead to its own nodes. */
    lemma PrevsOnList()
      requires Back()
      ensures forall n | n in nodes && n.prev != null :: n.prev in nodes
      ensures forall n: Node | n in Prevs() :: n in nodes
    {}
  }

  // A split and what comes after.

  /** The interval cuts area `k` in two, and its successor is not empty. */
  ghost predicate SplitWithNext(s: seq<Area>, k: nat, start: nat, end: nat, nextStart: nat, nextEnd: nat) {
    && k + 1 < |s| && s[k].start < start < end < s[k].end && !Straddles(start, end)
    && s[k + 1].start == nextStart < nextEnd == s[k + 1].end && !Straddles(nextStart, nextEnd)
  }

  ghost function Halves(s: seq<Area>, k: nat, start: nat, end: nat, rest: nat): seq<Area>
    requires k < |s|
  {
    Insert(s[k := s[k].(end := start)], k + 1, Area(end, s[k].end, rest))
  }

  lemma HalvesAt(s: seq<Area>, k: nat, start: nat, end: nat, rest: nat)
    requires k + 1 < |s|
    ensures var r := Halves(s, k, start, end, rest);
      && |r| == |s| + 1 && r[k] == s[k].(end := start) && r[k + 1] == Area(end, s[k].end, rest) && r[k + 2] == s[k + 1]
  {}

  lemma OneHolder(s: seq<Area>, i: nat, j: nat, start: nat, end: nat)
    requires Sorted(s) && i < |s| && j < |s| && start < end && Within(s[i], start, end) && Within(s[j], start, end)
    ensures i == j
  {}

  /** After the split every link is on the list, and so are all nodes that they name. */
  lemma SplitLinks(nodes: seq<Node>, prevs: seq<Node?>, k: nat, n: Node)
    requires StrictBack(nodes, prevs) && Different(nodes) && k + 1 < |nodes| && n !in nodes
    ensures var nodes', prevs' := Inserted(nodes, k + 1, n), Placed(prevs, k + 1, nodes[k]);
      && Different(nodes') && |nodes'| == |prevs'| == |nodes| + 1
      && (forall i | 0 <= i < |prevs'| :: prevs'[i] == null || prevs'[i] in nodes')
      && (forall m | m in nodes' :: m == n || m in nodes)
      && nodes'[k] == nodes[k] && prevs'[k] == PrevOf(nodes, k) && prevs'[k + 2] == nodes[k]
      && (k > 0 ==> nodes'[k - 1] == nodes[k - 1])
  {
    InsertedDistinct(nodes, k + 1, n);
    InsertedMembers(nodes, k + 1, n);
    PlacedAt(prevs, k + 1, nodes[k], k);
    PlacedAt(prevs, k + 1, nodes[k], k + 2);
    InsertedAt(nodes, k + 1, n, k);
    if k > 0 { InsertedAt(nodes, k + 1, n, k - 1); }
    var nodes', prevs' := Inserted(nodes, k + 1, n), Placed(prevs, k + 1, nodes[k]);
    hide Inserted, Placed;
    forall i | 0 <= i < |prevs'| ensures prevs'[i] == null || prevs'[i] in nodes' {
      PlacedAt(prevs, k + 1, nodes[k], i);
    }
  }

  lemma NextNamesFirst(nodes: seq<Node>, prevs: seq<Node?>, k: nat, n: Node, p: int)
    requires StrictBack(nodes, prevs) && Different(nodes) && k + 1 < |nodes| && n !in nodes
    requires Names(Inserted(nodes, k + 1, n), Placed(prevs, k + 1, nodes[k]), k + 2, p)
    ensures p == k
  {
    hide Inserted, Placed, StrictBack;
    SplitLinks(nodes, prevs, k, n);
  }

  lemma FirstNamesBefore(nodes: seq<Node>, prevs: seq<Node?>, k: nat, n: Node, p: int)
    requires StrictBack(nodes, prevs) && Different(nodes) && k + 1 < |nodes| && n !in nodes
    requires Names(Inserted(nodes, k + 1, n), Placed(prevs, k + 1, nodes[k]), k, p)
    ensures p == k - 1 && Inserted(nodes, k + 1, n)[k] == nodes[k]
  {
    hide Inserted, Placed, StrictBack;
    SplitLinks(nodes, prevs, k, n);
  }

  /** With the first part gone, the `prev` of the successor is off the list. */
  lemma NextNamesNone(nodes: seq<Node>, prevs: seq<Node?>, k: nat, n: Node)
    requires StrictBack(nodes, prevs) && Different(nodes) && k + 1 < |nodes| && n !in nodes
    requires |prevs| == |nodes| && Names(Inserted(nodes, k + 1, n), Placed(prevs, k + 1, nodes[k]), k, k - 1)
    ensures var nodes1, prevs1 := Inserted(nodes, k + 1, n), Placed(prevs, k + 1, nodes[k]);
      NamesFreed(nodes, Removed(nodes1, k - 1, k), UnlinkedPrevs(nodes1, prevs1, k, k - 1), k)
  {
    hide Inserted, Placed, StrictBack, Removed, UnlinkedPrevs;
    SplitLinks(nodes, prevs, k, n);
    var nodes1, prevs1 := Inserted(nodes, k + 1, n), Placed(prevs, k + 1, nodes[k]);
    UnlinkedPrevsAt(nodes1, prevs1, k, k - 1, k + 1);
    RemovedFront(nodes1, k - 1, k, 0);
    InsertedAt(nodes, k + 1, n, k + 2);
    RemovedAt(nodes1, k - 1, k, k + 1);
    var nodes2 := Removed(nodes1, k - 1, k);
    forall i | 0 <= i < |nodes2| ensures nodes2[i] != nodes[k] {
      RemovedAt(nodes1, k - 1, k, i);
    }
  }

  /** The `prev` of the successor is the node of the first part, which is off the list. */
  ghost predicate NamesFreed(nodes: seq<Node>, nodes': seq<Node>, prevs': seq<Node?>, k: nat) {
    && k + 1 < |nodes| && k + 1 < |nodes'| == |prevs'|
    && nodes'[k + 1] == nodes[k + 1] && prevs'[k + 1] == nodes[k] && nodes[k] !in nodes'
  }

  lemma FreedOff(nodes: seq<Node>, nodes': seq<Node>, prevs': seq<Node?>, k: nat)
    requires NamesFreed(nodes, nodes', prevs', k)
    ensures k + 1 < |nodes| && nodes[k] !in nodes'
  {}

  lemma NoPlace(was: seq<Node>, nodes: seq<Node>, prevs: seq<Node?>, k: nat, p: int)
    requires NamesFreed(was, nodes, prevs, k) && Names(nodes, prevs, k + 1, p)
    ensures p == -1
  {}

  /** Handed out again and linked in behind, it is named by the successor. */
  lemma NamesBehind(was: seq<Node>, nodes: seq<Node>, prevs: seq<Node?>, k: nat, i: nat, nodes': seq<Node>,
                    prevs': seq<Node?>, p: int)
    requires NamesFreed(was, nodes, prevs, k) && k + 1 < i && LinkedIn(nodes, prevs, i, was[k], nodes', prevs')
    requires Different(nodes') && Names(nodes', prevs', k + 1, p)
    ensures p == i && nodes'[k + 1] == was[k + 1]
  {
    hide Inserted, LinkedPrevs;
    InsertedAt(nodes, i, was[k], k + 1);
    InsertedAt(nodes, i, was[k], i);
    LinkedPrevsAt(prevs, i, if i == 0 then null else nodes[i - 1], was[k], k + 1);
  }

  /** The interval lies behind the successor, and so does its gap. */
  lemma AddedBehind(s: seq<Area>, i: nat, k: nat, a: Area, s': seq<Area>)
    requires Sorted(s) && k < |s| && s[k].start < s[k].end <= a.start < a.end && InsertedIn(s, i, a, s')
    ensures k < i && |s'| == |s| + 1 && s'[k] == s[k]
  {
    StartsInOrder(s, k);
  }

  lemma StartsInOrder(s: seq<Area>, k: nat)
    requires Sorted(s) && k < |s|
    ensures forall i | 0 <= i <= k :: s[i].start <= s[k].start
  {}

  lemma RangeOrder(start: nat, end: nat, flags: nat)
    requires InRange(start, end, flags)
    ensures start < end
  {}

  lemma StillClear(s: seq<Area>, k: nat, end: nat, rest: nat, addStart: nat, addEnd: nat)
    requires k < |s| && s[k].start <= end <= s[k].end && Clear(s, addStart, addEnd)
    ensures Clear(s[k := Area(end, s[k].end, rest)], addStart, addEnd)
  {}

  /** What is left when the successor takes the second part with it. */
  lemma LostPart(s: seq<Area>, k: nat, start: nat, end: nat, nextStart: nat, nextEnd: nat, rest: nat)
    requires Sorted(s) && SplitWithNext(s, k, start, end, nextStart, nextEnd)
    ensures var r := Without(s[k := s[k].(end := start)], k, k + 1);
      |Halves(s, k, start, end, rest)| == |s| + 1
      && Without(Halves(s, k, start, end, rest), k, k + 2) == r && Covers(s, end) && !Covers(r, end)
  {
    var r := Without(s[k := s[k].(end := start)], k, k + 1);
    assert Holds(s[k], end);
    forall i | 0 <= i < |r| ensures !Holds(r[i], end) {
      if i > k { assert r[i] == s[i + 1] && s[k].end <= s[i + 1].start; }
    }
  }

  lemma FirstOff(s: seq<Area>, k: nat, start: nat, end: nat, nextStart: nat, nextEnd: nat, rest: nat)
    requires Sorted(s) && SplitWithNext(s, k, start, end, nextStart, nextEnd)
    ensures var r := s[k := Area(end, s[k].end, rest)];
      |Halves(s, k, start, end, rest)| == |s| + 1
      && Without(Halves(s, k, start, end, rest), k - 1, k) == r
      && r[k + 1] == s[k + 1] && Sorted(r) && Covers(r, nextStart)
  {
    var r := s[k := Area(end, s[k].end, rest)];
    assert Holds(r[k + 1], nextStart);
  }

  // The backward links, `prevs[i]` being that of node i.

  ghost predicate Different(nodes: seq<Node>) {
    forall i, j | 0 <= i < j < |nodes| :: nodes[i] != nodes[j]
  }

  /** Each names the node before. */
  ghost predicate StrictBack(nodes: seq<Node>, prevs: seq<Node?>) {
    |prevs| == |nodes| && forall i: nat | i < |nodes| :: prevs[i] == PrevOf(nodes, i)
  }

  /** Each names some node before, not always the last. */
  ghost predicate LooseBack(nodes: seq<Node>, prevs: seq<Node?>) {
    |prevs| == |nodes| && forall i: nat | i < |nodes| :: LooseAt(nodes, prevs, i)
  }

  ghost predicate LooseAt(nodes: seq<Node>, prevs: seq<Node?>, i: nat)
    requires i < |nodes| == |prevs|
  {
    if i == 0 then prevs[i] == null else prevs[i] != null && prevs[i] in nodes[..i]
  }

  /** Each names a node before, none, or a node that is no longer on the list. */
  ghost predicate Earlier(nodes: seq<Node>, prevs: seq<Node?>) {
    |prevs| == |nodes| && forall i: nat | i < |nodes| :: prevs[i] == null || prevs[i] !in nodes[i..]
  }

  /** The `prev` of node `k` is node `p`; for -1 it is no other node of the list. */
  ghost predicate Names(nodes: seq<Node>, prevs: seq<Node?>, k: nat, p: int) {
    && |prevs| == |nodes| && k < |nodes| && -1 <= p < |nodes| && p != k
    && if p >= 0 then prevs[k] == nodes[p] else prevs[k] == null || prevs[k] !in nodes || prevs[k] == nodes[k]
  }

  /** The same where it is no node behind. */
  ghost predicate PrevIs(nodes: seq<Node>, prevs: seq<Node?>, k: nat, p: int) {
    Names(nodes, prevs, k, p) && p < k
  }

  lemma NamedPlaces(nodes: seq<Node>, prevs: seq<Node?>, k: nat, p: int)
    requires Names(nodes, prevs, k, p) && Different(nodes)
    ensures -1 <= p < |nodes| && p != k && (p < k ==> PrevIs(nodes, prevs, k, p))
    ensures forall i: nat | i < |nodes| :: nodes[i] == prevs[k] <==> i == p || (i == k && prevs[k] == nodes[k])
  {}

  lemma EarlierNames(nodes: seq<Node>, prevs: seq<Node?>, k: nat, p: int)
    requires Earlier(nodes, prevs) && Names(nodes, prevs, k, p)
    ensures p < k
  {
    if p > k { NotBehind(nodes, prevs, k, p); }
  }

  lemma LooseNames(nodes: seq<Node>, prevs: seq<Node?>, k: nat, p: int)
    requires LooseBack(nodes, prevs) && Different(nodes) && Names(nodes, prevs, k, p)
    ensures p < k
  {
    LooseHere(nodes, prevs, k);
  }

  /** A node behind the first whose `prev` is no other node of the list stays on it. */
  predicate Stuck(k: nat, p: int) { p == -1 && k > 0 }

  ghost function UnlinkedPrevs(nodes: seq<Node>, prevs: seq<Node?>, k: nat, p: int): seq<Node?>
    requires PrevIs(nodes, prevs, k, p)
  {
    var moved := if k + 1 < |prevs| then prevs[k + 1 := prevs[k]] else prevs;
    if Stuck(k, p) then moved else Cut(moved, p + 1, k + 1)
  }

  lemma UnlinkedStuck(nodes: seq<Node>, prevs: seq<Node?>, k: nat, p: int)
    requires PrevIs(nodes, prevs, k, p) && Stuck(k, p)
    ensures UnlinkedPrevs(nodes, prevs, k, p) == if k + 1 < |prevs| then prevs[k + 1 := prevs[k]] else prevs
  {}

  lemma UnlinkedPrevsAt(nodes: seq<Node>, prevs: seq<Node?>, k: nat, p: int, i: nat)
    requires PrevIs(nodes, prevs, k, p) && !Stuck(k, p)
    ensures |UnlinkedPrevs(nodes, prevs, k, p)| == |nodes| - (k - p)
    ensures i < |nodes| - (k - p) ==>
      UnlinkedPrevs(nodes, prevs, k, p)[i] == prevs[if i <= p then i else if i == p + 1 then k else i + (k - p)]
  {
    hide Cut;
    CutAt(if k + 1 < |prevs| then prevs[k + 1 := prevs[k]] else prevs, p + 1, k + 1, i);
  }

  ghost function Cut(s: seq<Node?>, lo: nat, hi: nat): seq<Node?>
    requires lo <= hi <= |s|
  {
    s[..lo] + s[hi..]
  }

  lemma CutAt(s: seq<Node?>, lo: nat, hi: nat, i: nat)
    requires lo <= hi <= |s|
    ensures |Cut(s, lo, hi)| == |s| - (hi - lo)
    ensures i < |s| - (hi - lo) ==> Cut(s, lo, hi)[i] == s[if i < lo then i else i + (hi - lo)]
  {}

  ghost function Placed(prevs: seq<Node?>, i: nat, n: Node?): seq<Node?>
    requires i <= |prevs|
  {
    prevs[..i] + [n] + prevs[i..]
  }

  lemma PlacedAt(prevs: seq<Node?>, i: nat, n: Node?, k: nat)
    requires i <= |prevs| && k <= |prevs|
    ensures |Placed(prevs, i, n)| == |prevs| + 1
    ensures Placed(prevs, i, n)[k] == if k == i then n else prevs[if k < i then k else k - 1]
  {}

  /** The links after a node is linked in at place `i`, behind `pred`: the `prev` of the next one is set
      as well. */
  ghost function LinkedPrevs(prevs: seq<Node?>, i: nat, pred: Node?, n: Node): seq<Node?>
    requires i <= |prevs|
  {
    Placed(if i < |prevs| then prevs[i := n] else prevs, i, pred)
  }

  ghost predicate LinkedIn(nodes: seq<Node>, prevs: seq<Node?>, i: nat, n: Node?,
                           nodes': seq<Node>, prevs': seq<Node?>)
  {
    && n != null && i <= |nodes| == |prevs| && nodes' == Inserted(nodes, i, n)
    && prevs' == LinkedPrevs(prevs, i, if i == 0 then null else nodes[i - 1], n)
  }

  lemma LinkedPrevsIs(prevs: seq<Node?>, i: nat, pred: Node?, n: Node)
    requires i <= |prevs|
    ensures LinkedPrevs(prevs, i, pred, n) == Placed(if i < |prevs| then prevs[i := n] else prevs, i, pred)
  {}

  lemma LinkedPrevsAt(prevs: seq<Node?>, i: nat, pred: Node?, n: Node, k: nat)
    requires i <= |prevs| && k <= |prevs|
    ensures |LinkedPrevs(prevs, i, pred, n)| == |prevs| + 1
    ensures LinkedPrevs(prevs, i, pred, n)[k]
      == if k == i then pred else if k == i + 1 then n else prevs[if k < i then k else k - 1]
  {
    hide Placed;
    PlacedAt(if i < |prevs| then prevs[i := n] else prevs, i, pred, k);
  }

  /** Linking a node in keeps strict links strict. */
  lemma LinkStrict(nodes: seq<Node>, prevs: seq<Node?>, i: nat, pred: Node?, n: Node)
    requires StrictBack(nodes, prevs) && i <= |nodes| && pred == if i == 0 then null else nodes[i - 1]
    ensures StrictBack(Inserted(nodes, i, n), LinkedPrevs(prevs, i, pred, n))
  {
    hide Inserted, LinkedPrevs, PrevOf;
    InsertedAt(nodes, i, n, 0);
    LinkedPrevsAt(prevs, i, pred, n, 0);
    forall k: nat | k <= |nodes| ensures LinkedPrevs(prevs, i, pred, n)[k] == PrevOf(Inserted(nodes, i, n), k) {
      InsertedAt(nodes, i, n, k);
      LinkedPrevsAt(prevs, i, pred, n, k);
    }
  }

  /** Linking a node in makes no link name a node behind exactly if none before its place named it. */
  lemma LinkEarlier(nodes: seq<Node>, prevs: seq<Node?>, i: nat, pred: Node?, n: Node)
    requires Earlier(nodes, prevs) && Different(nodes) && n !in nodes
    requires i <= |nodes| && pred == if i == 0 then null else nodes[i - 1]
    ensures Earlier(Inserted(nodes, i, n), LinkedPrevs(prevs, i, pred, n)) <==> n !in prevs[..i]
  {
    hide Inserted, LinkedPrevs;
    var nodes', prevs' := Inserted(nodes, i, n), LinkedPrevs(prevs, i, pred, n);
    InsertedAt(nodes, i, n, 0);
    LinkedPrevsAt(prevs, i, pred, n, 0);
    forall k: nat | k < |nodes'| ensures prevs'[k] == null || (k < i && prevs[k] == n) || prevs'[k] !in nodes'[k..] {
      LinkedPrevsAt(prevs, i, pred, n, k);
      forall j | k <= j < |nodes'| ensures prevs'[k] == null || (k < i && prevs[k] == n) || prevs'[k] != nodes'[j] {
        InsertedAt(nodes, i, n, j);
        if k != i && k != i + 1 && j != i {
          NotBehind(nodes, prevs, if k < i then k else k - 1, if j < i then j else j - 1);
        }
      }
    }
    NamedBefore(nodes', prevs', prevs, i, n) by {
      InsertedAt(nodes, i, n, i);
      forall k: nat | k < i ensures prevs'[k] == prevs[k] { LinkedPrevsAt(prevs, i, pred, n, k); }
    }
  }

  /** A link that names a node put in behind it. */
  lemma NamedBefore(nodes': seq<Node>, prevs': seq<Node?>, prevs: seq<Node?>, i: nat, n: Node)
    requires i <= |prevs| && i < |nodes'| == |prevs'| && nodes'[i] == n
    requires forall k: nat | k < i :: prevs'[k] == prevs[k]
    ensures n in prevs[..i] ==> !Earlier(nodes', prevs')
  {
    if n in prevs[..i] {
      var k: nat :| k < i && prevs[..i][k] == n;
      assert nodes'[k..][i - k] == n;
    }
  }

  /** What a successful `vma_free` makes of nodes, backward links and areas. */
  ghost predicate FreedList(nodes: seq<Node>, prevs: seq<Node?>, s: seq<Area>, start: nat, end: nat,
                            spare: Node?, rest: nat, k: nat, p: int,
                            nodes': seq<Node>, prevs': seq<Node?>, s': seq<Area>)
  {
    && |s| == |nodes| && Names(nodes, prevs, k, p)
    && if Exact(s[k], start, end) then
         && p < k && prevs' == UnlinkedPrevs(nodes, prevs, k, p)
         && if Stuck(k, p) then nodes' == nodes && s' == s
            else nodes' == Removed(nodes, p, k) && s' == Without(s, p, k)
       else
         && s' == Freed(s, k, start, end, rest)
         && if Inside(s[k], start, end) then
              spare != null && nodes' == Inserted(nodes, k + 1, spare) && prevs' == Placed(prevs, k + 1, nodes[k])
            else nodes' == nodes && prevs' == prevs
  }

  lemma FreedListIs(nodes: seq<Node>, prevs: seq<Node?>, s: seq<Area>, start: nat, end: nat, spare: Node?, rest: nat,
                    k: nat, p: int, nodes': seq<Node>, prevs': seq<Node?>, s': seq<Area>)
    requires |s| == |nodes| && Names(nodes, prevs, k, p) && (Exact(s[k], start, end) ==> p < k)
    requires Exact(s[k], start, end) ==> prevs' == UnlinkedPrevs(nodes, prevs, k, p)
    requires Exact(s[k], start, end) && Stuck(k, p) ==> nodes' == nodes && s' == s
    requires Exact(s[k], start, end) && !Stuck(k, p) ==> nodes' == Removed(nodes, p, k) && s' == Without(s, p, k)
    requires !Exact(s[k], start, end) ==> s' == Freed(s, k, start, end, rest)
    requires !Exact(s[k], start, end) && Inside(s[k], start, end) ==>
      spare != null && nodes' == Inserted(nodes, k + 1, spare) && prevs' == Placed(prevs, k + 1, nodes[k])
    requires !Exact(s[k], start, end) && !Inside(s[k], start, end) ==> nodes' == nodes && prevs' == prevs
    ensures FreedList(nodes, prevs, s, start, end, spare, rest, k, p, nodes', prevs', s')
  {
    hide Freed, Removed, Without, Inserted, Placed, UnlinkedPrevs;
  }

  lemma ExactFreed(nodes: seq<Node>, prevs: seq<Node?>, s: seq<Area>, start: nat, end: nat, k: nat, p: int,
                   nodes': seq<Node>, prevs': seq<Node?>, s': seq<Area>)
    requires FreedList(nodes, prevs, s, start, end, null, 0, k, p, nodes', prevs', s')
    requires k < |s| && Exact(s[k], start, end)
    ensures PrevIs(nodes, prevs, k, p) && k < |nodes| == |s| && -1 <= p < k
    ensures prevs' == UnlinkedPrevs(nodes, prevs, k, p)
    ensures nodes' == if Stuck(k, p) then nodes else Removed(nodes, p, k)
    ensures s' == if Stuck(k, p) then s else Without(s, p, k)
  {
    hide UnlinkedPrevs, Removed, Without, Freed, Inserted, Placed;
  }

  /** Whatever the backward links name, the areas stay in order. */
  lemma FreedSorted(nodes: seq<Node>, prevs: seq<Node?>, s: seq<Area>, start: nat, end: nat, spare: Node?, rest: nat,
                    k: nat, p: int, nodes': seq<Node>, prevs': seq<Node?>, s': seq<Area>)
    requires FreedList(nodes, prevs, s, start, end, spare, rest, k, p, nodes', prevs', s')
    requires Sorted(s) && Within(s[k], start, end) && start < end
    ensures Sorted(s')
  {
    hide Sorted, Freed, Removed, Without, Inserted, Placed, UnlinkedPrevs;
    if Exact(s[k], start, end) {
      WithoutSorted(s, p, k);
    } else {
      FreeKeeps(s, k, start, end, rest, 0);
    }
  }

  lemma WithoutSorted(s: seq<Area>, p: int, k: nat)
    requires Sorted(s) && -1 <= p < k < |s|
    ensures Sorted(Without(s, p, k))
  {
    hide Without;
    WithoutAt(s, p, k, 0);
    forall i: nat | i < |Without(s, p, k)| ensures Without(s, p, k)[i] == s[if i <= p then i else i + (k - p)] {
      WithoutAt(s, p, k, i);
    }
  }

  lemma SomePrev(nodes: seq<Node>, prevs: seq<Node?>, k: nat) returns (p: int)
    requires |prevs| == |nodes| && k < |nodes|
    ensures Names(nodes, prevs, k, p)
  {
    p := -1;
    if prevs[k] != null && prevs[k] in nodes && prevs[k] != nodes[k] {
      p :| 0 <= p < |nodes| && nodes[p] == prevs[k];
    }
  }

  /** Taking a node off keeps the links behind the nodes. */
  lemma UnlinkEarlier(nodes: seq<Node>, prevs: seq<Node?>, k: nat, p: int)
    requires Earlier(nodes, prevs) && PrevIs(nodes, prevs, k, p) && Different(nodes)
    ensures Stuck(k, p) ==> Earlier(nodes, UnlinkedPrevs(nodes, prevs, k, p))
    ensures !Stuck(k, p) ==> Earlier(Removed(nodes, p, k), UnlinkedPrevs(nodes, prevs, k, p))
  {
    hide Removed, UnlinkedPrevs;
    if Stuck(k, p) {
      UnlinkedStuck(nodes, prevs, k, p);
    } else {
      var nodes', prevs' := Removed(nodes, p, k), UnlinkedPrevs(nodes, prevs, k, p);
      UnlinkedPrevsAt(nodes, prevs, k, p, 0);
      RemovedDistinct(nodes, p, k);
      forall i: nat | i < |nodes'| ensures prevs'[i] == null || prevs'[i] !in nodes'[i..] {
        UnlinkedPrevsAt(nodes, prevs, k, p, i);
        forall j | i <= j < |nodes'| ensures prevs'[i] == null || prevs'[i] != nodes'[j] {
          RemovedAt(nodes, p, k, j);
          NotBehind(nodes, prevs, if i <= p then i else if i == p + 1 then k else i + (k - p),
                    if j <= p then j else j + (k - p));
        }
      }
    }
  }

  lemma NotBehind(nodes: seq<Node>, prevs: seq<Node?>, i: nat, j: nat)
    requires Earlier(nodes, prevs) && i <= j < |nodes|
    ensures prevs[i] == null || prevs[i] != nodes[j]
  {
    assert nodes[i..][j - i] == nodes[j];
  }

  /** The same for a node put in by a split, which sets no other link. */
  lemma SplitEarlier(nodes: seq<Node>, prevs: seq<Node?>, k: nat, n: Node)
    requires Earlier(nodes, prevs) && k < |nodes| && n !in nodes && Different(nodes)
    ensures Earlier(Inserted(nodes, k + 1, n), Placed(prevs, k + 1, nodes[k])) <==> n !in prevs[..k + 1]
  {
    hide Inserted, Placed;
    var nodes', prevs' := Inserted(nodes, k + 1, n), Placed(prevs, k + 1, nodes[k]);
    InsertedAt(nodes, k + 1, n, 0);
    PlacedAt(prevs, k + 1, nodes[k], 0);
    forall i: nat | i < |nodes'| ensures prevs'[i] == null || (i <= k && prevs[i] == n) || prevs'[i] !in nodes'[i..] {
      PlacedAt(prevs, k + 1, nodes[k], i);
      forall j | i <= j < |nodes'| ensures prevs'[i] == null || (i <= k && prevs[i] == n) || prevs'[i] != nodes'[j] {
        InsertedAt(nodes, k + 1, n, j);
        if i != k + 1 && j != k + 1 {
          NotBehind(nodes, prevs, if i < k + 1 then i else i - 1, if j < k + 1 then j else j - 1);
        }
      }
    }
    NamedBefore(nodes', prevs', prevs, k + 1, n) by {
      InsertedAt(nodes, k + 1, n, k + 1);
      forall i: nat | i < k + 1 ensures prevs'[i] == prevs[i] { PlacedAt(prevs, k + 1, nodes[k], i); }
    }
  }

  lemma StrictIsEarlier(nodes: seq<Node>, prevs: seq<Node?>)
    requires StrictBack(nodes, prevs) && Different(nodes)
    ensures Earlier(nodes, prevs) && LooseBack(nodes, prevs)
  {
    forall i: nat | i < |nodes| ensures prevs[i] == null || prevs[i] !in nodes[i..] {
      PrevLink(nodes, i);
      assert i > 0 ==> nodes[..i][i - 1] == prevs[i];
    }
    forall i: nat | i < |nodes| ensures LooseAt(nodes, prevs, i) {
      assert i > 0 ==> nodes[..i][i - 1] == prevs[i];
    }
  }

  /** From strict backward links, `vma_free` does what it should to the areas; the links stay strict
      exactly unless an area with a successor was split. */
  lemma StrictFree(nodes: seq<Node>, prevs: seq<Node?>, s: seq<Area>, start: nat, end: nat, spare: Node?, rest: nat,
                   k: nat, p: int, nodes': seq<Node>, prevs': seq<Node?>, s': seq<Area>)
    requires FreedList(nodes, prevs, s, start, end, spare, rest, k, p, nodes', prevs', s')
    requires StrictBack(nodes, prevs) && Different(nodes) && (spare == null || spare !in nodes)
    ensures k < |s| && s' == Freed(s, k, start, end, rest)
    ensures StrictBack(nodes', prevs') <==> !(Inside(s[k], start, end) && !Exact(s[k], start, end) && k + 1 < |nodes|)
  {
    hide Removed, UnlinkedPrevs, Inserted, Placed, Without, Freed, Insert;
    PrevLink(nodes, k);
    FreedIs(s, k, start, end, rest);
    if Exact(s[k], start, end) {
      assert p == k - 1;
      UnlinkedPrevsAt(nodes, prevs, k, p, 0);
      RemovedDistinct(nodes, p, k);
      forall i: nat | i < |nodes'| ensures prevs'[i] == PrevOf(nodes', i) {
        RemovedAt(nodes, p, k, i);
        UnlinkedPrevsAt(nodes, prevs, k, p, i);
      }
    } else if Inside(s[k], start, end) {
      InsertedAt(nodes, k + 1, spare, 0);
      PlacedAt(prevs, k + 1, nodes[k], 0);
      if k + 1 < |nodes| {
        InsertedAt(nodes, k + 1, spare, k + 2);
        PlacedAt(prevs, k + 1, nodes[k], k + 2);
        PrevLink(nodes, k + 1);
        assert prevs'[k + 2] != PrevOf(nodes', k + 2);
      } else {
        forall i: nat | i < |nodes'| ensures prevs'[i] == PrevOf(nodes', i) {
          InsertedAt(nodes, k + 1, spare, i);
          PlacedAt(prevs, k + 1, nodes[k], i);
        }
      }
    }
  }

  lemma LooseAfter(nodes: seq<Node>, prevs: seq<Node?>, k: nat, p: int, i: nat)
    requires LooseBack(nodes, prevs) && Different(nodes) && PrevIs(nodes, prevs, k, p) && !Stuck(k, p)
    requires i < |Removed(nodes, p, k)| == |UnlinkedPrevs(nodes, prevs, k, p)|
    ensures LooseAt(Removed(nodes, p, k), UnlinkedPrevs(nodes, prevs, k, p), i)
      <==> (i > p + 1 ==> prevs[i + (k - p)] !in nodes[p + 1..k + 1])
  {
    hide Removed, UnlinkedPrevs, Different, LooseBack, LooseAt, PrevIs;
    PrevBounds(nodes, prevs, k, p);
    if i <= p {
      LooseLow(nodes, prevs, k, p, i);
    } else if i == p + 1 {
      LooseMiddle(nodes, prevs, k, p);
    } else {
      LooseHigh(nodes, prevs, k, p, i);
    }
  }

  lemma PrevBounds(nodes: seq<Node>, prevs: seq<Node?>, k: nat, p: int)
    requires PrevIs(nodes, prevs, k, p) && !Stuck(k, p)
    ensures |prevs| == |nodes| && k < |nodes| && -1 <= p < k
    ensures |Removed(nodes, p, k)| == |UnlinkedPrevs(nodes, prevs, k, p)| == |nodes| - (k - p)
  {
    UnlinkedPrevsAt(nodes, prevs, k, p, 0);
    RemovedFront(nodes, p, k, 0);
  }

  lemma LooseLow(nodes: seq<Node>, prevs: seq<Node?>, k: nat, p: int, i: nat)
    requires LooseBack(nodes, prevs) && PrevIs(nodes, prevs, k, p) && !Stuck(k, p) && i <= p
    requires i < |Removed(nodes, p, k)| == |UnlinkedPrevs(nodes, prevs, k, p)|
    ensures LooseAt(Removed(nodes, p, k), UnlinkedPrevs(nodes, prevs, k, p), i)
  {
    hide Removed, UnlinkedPrevs, LooseBack;
    UnlinkedPrevsAt(nodes, prevs, k, p, i);
    RemovedFront(nodes, p, k, i);
    LooseHere(nodes, prevs, i);
  }

  lemma LooseMiddle(nodes: seq<Node>, prevs: seq<Node?>, k: nat, p: int)
    requires LooseBack(nodes, prevs) && PrevIs(nodes, prevs, k, p) && !Stuck(k, p)
    requires p + 1 < |Removed(nodes, p, k)| == |UnlinkedPrevs(nodes, prevs, k, p)|
    ensures LooseAt(Removed(nodes, p, k), UnlinkedPrevs(nodes, prevs, k, p), p + 1)
  {
    hide Removed, UnlinkedPrevs, LooseBack;
    UnlinkedPrevsAt(nodes, prevs, k, p, p + 1);
    RemovedFront(nodes, p, k, p + 1);
    NamesBefore(nodes, prevs, k, p);
  }

  lemma LooseHigh(nodes: seq<Node>, prevs: seq<Node?>, k: nat, p: int, i: nat)
    requires LooseBack(nodes, prevs) && Different(nodes) && PrevIs(nodes, prevs, k, p) && !Stuck(k, p) && p + 1 < i
    requires i < |Removed(nodes, p, k)| == |UnlinkedPrevs(nodes, prevs, k, p)| == |nodes| - (k - p)
    ensures LooseAt(Removed(nodes, p, k), UnlinkedPrevs(nodes, prevs, k, p), i)
      <==> prevs[i + (k - p)] !in nodes[p + 1..k + 1]
  {
    hide Removed, UnlinkedPrevs, LooseBack, Different, PrevIs;
    PrevBounds(nodes, prevs, k, p);
    UnlinkedPrevsAt(nodes, prevs, k, p, i);
    LooseHere(nodes, prevs, i + (k - p));
    FrontHolds(nodes, prevs[i + (k - p)], p, k, i);
  }

  lemma FrontHolds(nodes: seq<Node>, x: Node?, p: int, k: nat, i: nat)
    requires Different(nodes) && -1 <= p < k < |nodes| && p + 1 < i < |nodes| - (k - p) && x in nodes[..i + (k - p)]
    ensures |Removed(nodes, p, k)| == |nodes| - (k - p)
    ensures x in Removed(nodes, p, k)[..i] <==> x !in nodes[p + 1..k + 1]
  {
    hide Removed, Different;
    RemovedFront(nodes, p, k, i);
    OutsideSlice(nodes, x, p + 1, k + 1, i + (k - p));
  }

  lemma LooseHere(nodes: seq<Node>, prevs: seq<Node?>, i: nat)
    requires LooseBack(nodes, prevs) && i < |nodes|
    ensures |prevs| == |nodes| && if i == 0 then prevs[i] == null else prevs[i] != null && prevs[i] in nodes[..i]
  {
    assert LooseAt(nodes, prevs, i);
  }

  lemma NamesBefore(nodes: seq<Node>, prevs: seq<Node?>, k: nat, p: int)
    requires PrevIs(nodes, prevs, k, p) && !Stuck(k, p) && LooseBack(nodes, prevs)
    ensures if p == -1 then prevs[k] == null else prevs[k] != null && prevs[k] in nodes[..p + 1]
  {
    LooseHere(nodes, prevs, k);
    if p >= 0 { assert nodes[..p + 1][p] == nodes[p]; }
  }

  lemma InSlice(nodes: seq<Node>, j: nat, lo: nat, hi: nat)
    requires Different(nodes) && j < |nodes| && lo <= hi <= |nodes|
    ensures nodes[j] in nodes[lo..hi] <==> lo <= j < hi
  {
    if lo <= j < hi { assert nodes[lo..hi][j - lo] == nodes[j]; }
  }

  lemma OutsideSlice(nodes: seq<Node>, x: Node?, lo: nat, mid: nat, hi: nat)
    requires Different(nodes) && lo <= mid <= hi <= |nodes| && x in nodes[..hi]
    ensures x in nodes[..lo] + nodes[mid..hi] <==> x !in nodes[lo..mid]
  {
    hide Different;
    var j :| 0 <= j < hi && nodes[j] == x;
    InSlice(nodes, j, 0, lo);
    InSlice(nodes, j, lo, mid);
    InSlice(nodes, j, mid, hi);
    assert nodes[..lo] == nodes[0..lo];
  }

  /** Taking node `k` off leaves every link on the list exactly if no node further down than the next
      one names a node that comes off. */
  lemma LooseSurvives(nodes: seq<Node>, prevs: seq<Node?>, k: nat, p: int)
    requires LooseBack(nodes, prevs) && Different(nodes) && PrevIs(nodes, prevs, k, p)
    ensures !Stuck(k, p)
    ensures LooseBack(Removed(nodes, p, k), UnlinkedPrevs(nodes, prevs, k, p))
      <==> forall m: nat | k + 1 < m < |nodes| :: prevs[m] !in nodes[p + 1..k + 1]
  {
    hide Removed, UnlinkedPrevs;
    assert LooseAt(nodes, prevs, k);
    var nodes', prevs' := Removed(nodes, p, k), UnlinkedPrevs(nodes, prevs, k, p);
    UnlinkedPrevsAt(nodes, prevs, k, p, 0);
    RemovedDistinct(nodes, p, k);
    forall i: nat | i < |nodes'|
      ensures LooseAt(nodes', prevs', i) <==> (i > p + 1 ==> prevs[i + (k - p)] !in nodes[p + 1..k + 1])
    {
      LooseAfter(nodes, prevs, k, p, i);
    }
    if LooseBack(nodes', prevs') {
      forall m: nat | k + 1 < m < |nodes| ensures prevs[m] !in nodes[p + 1..k + 1] {
        assert LooseAt(nodes', prevs', m - (k - p));
      }
    }
  }

  lemma SplitLoose(nodes: seq<Node>, prevs: seq<Node?>, k: nat, n: Node)
    requires LooseBack(nodes, prevs) && k < |nodes|
    ensures LooseBack(Inserted(nodes, k + 1, n), Placed(prevs, k + 1, nodes[k]))
  {
    hide Inserted, Placed;
    var nodes', prevs' := Inserted(nodes, k + 1, n), Placed(prevs, k + 1, nodes[k]);
    InsertedAt(nodes, k + 1, n, 0);
    PlacedAt(prevs, k + 1, nodes[k], 0);
    forall i: nat | i < |nodes'| ensures LooseAt(nodes', prevs', i) {
      PlacedAt(prevs, k + 1, nodes[k], i);
      InsertedFront(nodes, k + 1, n, i);
      if i != k + 1 {
        assert LooseAt(nodes, prevs, if i <= k then i else i - 1);
        if i > k + 1 { assert nodes[..i - 1] == nodes[..k + 1] + nodes[k + 1..i - 1]; }
      } else {
        assert nodes[..k + 1][k] == nodes[k];
      }
    }
  }

  lemma InsertedFront(nodes: seq<Node>, k: nat, n: Node, i: nat)
    requires k <= |nodes| && i <= |nodes| + 1
    ensures |Inserted(nodes, k, n)| == |nodes| + 1
    ensures Inserted(nodes, k, n)[..i] == if i <= k then nodes[..i] else nodes[..k] + [n] + nodes[k..i - 1]
  {}

  /** No node further down than the next one names a node that comes off with area `k`. */
  ghost predicate NoneOrphaned(nodes: seq<Node>, prevs: seq<Node?>, k: nat, p: int)
    requires PrevIs(nodes, prevs, k, p)
  {
    forall m: nat | k + 1 < m < |nodes| :: prevs[m] !in nodes[p + 1..k + 1]
  }

  /** `vma_free` leaves every link on the list exactly unless it unlinks a node and orphans another. */
  lemma FreeLoose(nodes: seq<Node>, prevs: seq<Node?>, s: seq<Area>, start: nat, end: nat, spare: Node?, rest: nat,
                  k: nat, p: int, nodes': seq<Node>, prevs': seq<Node?>, s': seq<Area>)
    requires FreedList(nodes, prevs, s, start, end, spare, rest, k, p, nodes', prevs', s')
    requires LooseBack(nodes, prevs) && Different(nodes)
    ensures PrevIs(nodes, prevs, k, p) && k < |s|
    ensures LooseBack(nodes', prevs') <==> (Exact(s[k], start, end) ==> NoneOrphaned(nodes, prevs, k, p))
  {
    hide Removed, UnlinkedPrevs, Inserted, Placed, Without, Freed, LooseBack;
    LooseNames(nodes, prevs, k, p);
    if Exact(s[k], start, end) {
      LooseSurvives(nodes, prevs, k, p);
    } else if Inside(s[k], start, end) {
      SplitLoose(nodes, prevs, k, spare);
    }
  }

  lemma RemovedFront(nodes: seq<Node>, p: int, k: nat, i: nat)
    requires -1 <= p < k < |nodes| && i <= |nodes| - (k - p)
    ensures |Removed(nodes, p, k)| == |nodes| - (k - p)
    ensures Removed(nodes, p, k)[..i] ==
      if i <= p + 1 then nodes[..i] else nodes[..p + 1] + nodes[k + 1..i + (k - p)]
  {}

  /** The areas that are met going along the list after `vma_free`: if it bends, those up to area `p`,
      save for the first if that was taken off. */
  ghost predicate LeftAfter(nodes: seq<Node>, prevs: seq<Node?>, s: seq<Area>, start: nat, end: nat, spare: Node?,
                            rest: nat, k: nat, p: int, nodes': seq<Node>, prevs': seq<Node?>, s': seq<Area>)
  {
    && |s| == |nodes| && Names(nodes, prevs, k, p)
    && if Exact(s[k], start, end) && p > k then s' == s[if k == 0 then 1 else 0..p + 1]
       else FreedList(nodes, prevs, s, start, end, spare, rest, k, p, nodes', prevs', s')
  }

  /** `vma_free` removes exactly the interval unless a whole area goes whose `prev` is stale: then it
      does so exactly if that names an area before and those in between are empty, or if it is the
      first area, names one behind and those behind that are empty. */
  lemma LostBetween(nodes: seq<Node>, prevs: seq<Node?>, s: seq<Area>, start: nat, end: nat, spare: Node?, rest: nat,
                    k: nat, p: int, nodes': seq<Node>, prevs': seq<Node?>, s': seq<Area>)
    requires LeftAfter(nodes, prevs, s, start, end, spare, rest, k, p, nodes', prevs', s')
    requires Sorted(s) && Within(s[k], start, end) && start < end
    ensures (forall x :: Covers(s', x) <==> Covers(s, x) && !(start <= x < end))
      <==> (Exact(s[k], start, end) ==>
              if p > k then k == 0 && NothingAfter(s, p) else !Stuck(k, p) && NothingBetween(s, p, k))
  {
    hide Removed, UnlinkedPrevs, Inserted, Placed, Without, Freed, Sorted, Covers;
    if !Exact(s[k], start, end) {
      forall x ensures Covers(s', x) <==> Covers(s, x) && !(start <= x < end) { FreeKeeps(s, k, start, end, rest, x); }
    } else if p > k {
      LostAfter(s, k, p);
      assert forall x :: Holds(s[k], x) <==> start <= x < end;
    } else if Stuck(k, p) {
      AreaCovers(s, k, start);
    } else {
      LostWithout(s, p, k);
      assert forall x :: Holds(s[k], x) <==> start <= x < end;
    }
  }

  ghost predicate NothingAfter(s: seq<Area>, p: nat) { forall j | p < j < |s| :: s[j].start == s[j].end }

  lemma LostAfter(s: seq<Area>, k: nat, p: nat)
    requires Sorted(s) && k < p < |s| && s[k].start < s[k].end
    ensures var r := s[if k == 0 then 1 else 0..p + 1];
      (forall x :: Covers(r, x) <==> (Covers(s, x) && !Holds(s[k], x))) <==> k == 0 && NothingAfter(s, p)
  {
    var lo := if k == 0 then 1 else 0;
    var r := s[lo..p + 1];
    forall x ensures Covers(r, x) <==> exists i | lo <= i <= p :: Holds(s[i], x) {
      if Covers(r, x) {
        var i :| 0 <= i < |r| && Holds(r[i], x);
        assert s[i + lo] == r[i];
      }
      if i :| lo <= i <= p && Holds(s[i], x) { assert r[i - lo] == s[i]; }
    }
    if k > 0 {
      assert Holds(s[k], s[k].start) && Covers(r, s[k].start);
    } else if NothingAfter(s, p) {
      forall x ensures Covers(r, x) <==> (Covers(s, x) && !Holds(s[0], x)) {
        if Covers(s, x) && !Holds(s[0], x) {
          var i :| 0 <= i < |s| && Holds(s[i], x);
          assert lo <= i <= p;
        }
      }
    } else {
      var j :| p < j < |s| && s[j].start != s[j].end;
      assert Holds(s[j], s[j].start) && Covers(s, s[j].start) && !Holds(s[0], s[j].start);
      assert !Covers(r, s[j].start);
    }
  }

  ghost predicate NothingBetween(s: seq<Area>, p: int, k: nat)
    requires -1 <= p < k < |s|
  {
    forall j | p < j < k :: s[j].start == s[j].end
  }

  lemma AreaCovers(s: seq<Area>, k: nat, x: int)
    requires k < |s| && Holds(s[k], x)
    ensures Covers(s, x)
  {}

  lemma LostWithout(s: seq<Area>, p: int, k: nat)
    requires Sorted(s) && -1 <= p < k < |s|
    ensures (forall x :: Covers(Without(s, p, k), x) <==> (Covers(s, x) && !Holds(s[k], x)))
      <==> NothingBetween(s, p, k)
  {
    var r := Without(s, p, k);
    forall x ensures Covers(r, x) <==> exists i | 0 <= i < |s| && !(p < i <= k) :: Holds(s[i], x) {
      WithoutCovers(s, p, k, x);
    }
    if NothingBetween(s, p, k) {
      forall x ensures Covers(r, x) <==> (Covers(s, x) && !Holds(s[k], x)) {
        if Covers(s, x) && !Holds(s[k], x) {
          var i :| 0 <= i < |s| && Holds(s[i], x);
          assert !(p < i <= k);
        }
      }
    } else {
      var j :| p < j < k && s[j].start != s[j].end;
      var x := s[j].start;
      assert Holds(s[j], x) && Covers(s, x) && !Holds(s[k], x);
      assert !Covers(r, x);
    }
  }

  /** Freeing adds nothing, whatever the backward links name. */
  lemma FreedShrinks(nodes: seq<Node>, prevs: seq<Node?>, s: seq<Area>, start: nat, end: nat, spare: Node?, rest: nat,
                     k: nat, p: int, nodes': seq<Node>, prevs': seq<Node?>, s': seq<Area>)
    requires FreedList(nodes, prevs, s, start, end, spare, rest, k, p, nodes', prevs', s')
    requires Sorted(s) && Within(s[k], start, end) && start < end
    ensures forall x | Covers(s', x) :: Covers(s, x)
  {
    hide Removed, UnlinkedPrevs, Inserted, Placed, Without, Freed, Sorted, Covers;
    if !Exact(s[k], start, end) {
      forall x ensures Covers(s', x) ==> Covers(s, x) { FreeKeeps(s, k, start, end, rest, x); }
    } else if !Stuck(k, p) {
      forall x | Covers(s', x) ensures Covers(s, x) {
        WithoutCovers(s, p, k, x);
        var i :| 0 <= i < |s| && !(p < i <= k) && Holds(s[i], x);
        AreaCovers(s, i, x);
      }
    }
  }

  lemma WithoutCovers(s: seq<Area>, p: int, k: nat, x: int)
    requires -1 <= p < k < |s|
    ensures Covers(Without(s, p, k), x) <==> exists i | 0 <= i < |s| && !(p < i <= k) :: Holds(s[i], x)
  {
    hide Holds, Without;
    var r := Without(s, p, k);
    WithoutAt(s, p, k, 0);
    if Covers(r, x) {
      var i :| 0 <= i < |r| && Holds(r[i], x);
      WithoutAt(s, p, k, i);
    }
    if i :| 0 <= i < |s| && !(p < i <= k) && Holds(s[i], x) {
      WithoutAt(s, p, k, if i <= p then i else i - (k - p));
    }
  }

  /** The interval is in neither address space as a whole. */
  predicate Straddles(start: nat, end: nat) { start < KERNEL_SPACE <= end }

  predicate Exact(a: Area, start: nat, end: nat) { start == a.start && end == a.end }

  predicate Inside(a: Area, start: nat, end: nat) { start != a.start && end != a.end }

  lemma FreedIs(s: seq<Area>, k: nat, start: nat, end: nat, rest: nat)
    requires k < |s|
    ensures var a, r := s[k], Freed(s, k, start, end, rest);
      if Exact(a, start, end) then r == Without(s, k - 1, k)
      else if start == a.start then r == s[k := a.(start := end)]
      else if end == a.end then r == s[k := a.(end := start)]
      else r == Insert(s[k := a.(end := start)], k + 1, Area(end, a.end, rest))
  {}

  predicate Within(a: Area, start: nat, end: nat) { a.start <= start && end <= a.end }

  lemma WithinMeans(a: Area, start: nat, end: nat)
    ensures Within(a, start, end) <==> a.start <= start && end <= a.end
  {}

  /** Without the places after `p` up to `k`. */
  ghost function Removed(nodes: seq<Node>, p: int, k: nat): seq<Node>
    requires -1 <= p < k < |nodes|
  {
    nodes[..p + 1] + nodes[k + 1..]
  }

  function Without(s: seq<Area>, p: int, k: nat): seq<Area>
    requires -1 <= p < k < |s|
  {
    s[..p + 1] + s[k + 1..]
  }

  lemma InsertAt(s: seq<Area>, i: nat, a: Area, k: nat)
    requires i <= |s| && k <= |s|
    ensures |Insert(s, i, a)| == |s| + 1
    ensures Insert(s, i, a)[k] == if k == i then a else s[if k < i then k else k - 1]
  {}

  lemma WithoutAt(s: seq<Area>, p: int, k: nat, i: nat)
    requires -1 <= p < k < |s|
    ensures |Without(s, p, k)| == |s| - (k - p)
    ensures i < |s| - (k - p) ==> Without(s, p, k)[i] == s[if i <= p then i else i + (k - p)]
  {}

  lemma RemovedDistinct(nodes: seq<Node>, p: int, k: nat)
    requires -1 <= p < k < |nodes| && forall i, j | 0 <= i < j < |nodes| :: nodes[i] != nodes[j]
    ensures var r := Removed(nodes, p, k);
      |r| == |nodes| - (k - p) && (forall i, j | 0 <= i < j < |r| :: r[i] != r[j]) && forall n | n in r :: n in nodes
  {}

  lemma RemovedSize(nodes: seq<Node>, p: int, k: nat)
    requires -1 <= p < k < |nodes|
    ensures |Removed(nodes, p, k)| == |nodes| - (k - p)
  {}

  lemma RemovedAt(nodes: seq<Node>, p: int, k: nat, i: nat)
    requires -1 <= p < k < |nodes| && i < |nodes| - (k - p)
    ensures var r := Removed(nodes, p, k);
      && |r| == |nodes| - (k - p)
      && r[i] == nodes[if i <= p then i else i + (k - p)]
      && NextOf(r, i) == (if i == p then NextOf(nodes, k) else NextOf(nodes, if i < p then i else i + (k - p)))
      && (p == k - 1 ==>
            PrevOf(r, i) == if i == p + 1 then PrevOf(nodes, k) else PrevOf(nodes, if i <= p then i else i + 1))
  {}

  lemma FoundFit(s: seq<Area>, size: nat, base: nat, limit: nat, found: bool, i: nat)
    requires found ==> i <= |s| && Qualifies(s, i, size, base, limit)
    requires forall k: nat | k <= |s| && (found ==> k < i) :: !Qualifies(s, k, size, base, limit)
    ensures FirstFit(s, size, base, limit, 0) == if found then Some(i) else None
  {
    hide Qualifies;
  }

  lemma AllocatedIs(s: seq<Area>, i: nat, size: nat, flags: nat, base: nat)
    requires i <= |s|
    ensures var start, s' := GapStart(s, i, base), Allocated(s, i, size, flags, base);
      if i > 0 && s[i - 1].flags == flags then s' == s[i - 1 := s[i - 1].(end := start + size)]
      else s' == Insert(s, i, Area(start, start + size, flags))
  {}

  lemma BasePositive(flags: nat, userMax: nat)
    ensures Bounds(flags, userMax).0 > 0
  {
    hide Bit;
  }

  lemma FitMeans(s: seq<Area>, i: nat, size: nat, base: nat, limit: nat)
    requires i <= |s|
    ensures var start, end := GapStart(s, i, base), GapEnd(s, i, limit);
      Qualifies(s, i, size, base, limit) <==> start + size < end && start >= base && start + size < limit
  {}

  lemma FitStart(s: seq<Area>, i: nat, size: nat, base: nat, limit: nat)
    requires i <= |s| && Qualifies(s, i, size, base, limit)
    ensures GapStart(s, i, base) >= base
  {}

  lemma PrevLink(nodes: seq<Node>, i: nat)
    requires i < |nodes|
    ensures PrevOf(nodes, i) == if i > 0 then nodes[i - 1] else null
  {}

  lemma NextLink(nodes: seq<Node>, i: nat)
    requires i < |nodes|
    ensures NextOf(nodes, i) == if i + 1 < |nodes| then nodes[i + 1] else null
  {}

  ghost function Inserted(nodes: seq<Node>, i: nat, n: Node): seq<Node>
    requires i <= |nodes|
  {
    nodes[..i] + [n] + nodes[i..]
  }

  lemma InsertedAt(nodes: seq<Node>, i: nat, n: Node, k: nat)
    requires i <= |nodes| && k <= |nodes|
    ensures var r := Inserted(nodes, i, n);
      && |r| == |nodes| + 1
      && r[k] == (if k == i then n else nodes[if k < i then k else k - 1])
      && NextOf(r, k) == (if k == i then (if i < |nodes| then nodes[i] else null) else if k + 1 == i then n
                          else NextOf(nodes, if k < i then k else k - 1))
      && PrevOf(r, k) == (if k == i then (if i > 0 then nodes[i - 1] else null) else if k == i + 1 then n
                          else PrevOf(nodes, if k < i then k else k - 1))
  {}

  lemma InsertedDistinct(nodes: seq<Node>, i: nat, n: Node)
    requires i <= |nodes| && n !in nodes && forall j, k | 0 <= j < k < |nodes| :: nodes[j] != nodes[k]
    ensures var r := Inserted(nodes, i, n); forall j, k | 0 <= j < k < |r| :: r[j] != r[k]
  {}

  lemma InsertedMembers(nodes: seq<Node>, i: nat, n: Node)
    requires i <= |nodes|
    ensures |Inserted(nodes, i, n)| == |nodes| + 1
    ensures forall m :: m in Inserted(nodes, i, n) <==> m == n || m in nodes
  {
    assert nodes == nodes[..i] + nodes[i..];
  }
}
