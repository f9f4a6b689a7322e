/** Runs of `vma_add`, `vma_alloc` and `vma_free` in any order on the list of a task (mm/vma.c), with any
    node that `kmalloc` may hand out, also one that `vma_free` has given back. */
module VmaRuns {
  import opened Base
  import opened Bits
  import opened Vma

  datatype Call =
    | CallAdd(start: nat, end: nat, flags: nat)
    | CallAlloc(size: nat, flags: nat, userMax: nat)
    | CallFree(start: nat, end: nat)

  /** What a call answers: a status or an address. */
  datatype Answer = Did(st: Status) | Gave(addr: nat)

  /** The list, its backward links and areas, and the nodes that are handed out and not given back. The
      list may have lost its end, and a node of it may have been handed out: then nothing more is said. */
  datatype Sys =
    | Listed(nodes: seq<Node>, prevs: seq<Node?>, areas: seq<Area>, live: set<Node>)
    | Endless
    | Overwritten

  /** One call: `kmalloc` has node `n` for it, or none; a node that is handed out is not handed out again. */
  ghost predicate Step(x: Sys, c: Call, n: Node?, r: Answer, x': Sys) {
    && x.Listed? && |x.prevs| == |x.nodes| == |x.areas| && (n != null ==> n !in x.live)
    && match c
       case CallAdd(start, end, flags) => StepAdd(x, start, end, flags, n, r, x')
       case CallAlloc(size, flags, userMax) => StepAlloc(x, size, flags, userMax, n, r, x')
       case CallFree(start, end) => StepFree(x, start, end, n, r, x')
  }

  /** The node is linked in at place `i`, if it is not on the list already. */
  ghost predicate PutIn(x: Sys, i: nat, n: Node?, areas: seq<Area>, x': Sys)
    requires x.Listed?
  {
    && n != null
    && if n in x.nodes then x'.Overwritten?
       else
         && x'.Listed? && LinkedIn(x.nodes, x.prevs, i, n, x'.nodes, x'.prevs)
         && x'.areas == areas && x'.live == x.live + {n}
  }

  ghost predicate StepAdd(x: Sys, start: nat, end: nat, flags: nat, n: Node?, r: Answer, x': Sys)
    requires x.Listed?
  {
    if !InRange(start, end, flags) || !Clear(x.areas, start, end) then r == Did(EINVAL) && x' == x
    else if n == null then r == Did(ENOMEM) && x' == x
    else r == Did(Ok) && exists i: nat :: AddAt(x, i, Area(start, end, flags), n, x')
  }

  ghost predicate AddAt(x: Sys, i: nat, a: Area, n: Node, x': Sys)
    requires x.Listed?
  {
    i <= |x.areas| && GapFits(x.areas, i, a.start, a.end) && PutIn(x, i, n, Insert(x.areas, i, a), x')
  }

  ghost predicate StepAlloc(x: Sys, size: nat, flags: nat, userMax: nat, n: Node?, r: Answer, x': Sys)
    requires x.Listed?
  {
    var (base, limit) := Bounds(flags, userMax);
    match FirstFit(x.areas, size, base, limit, 0)
    case None => r == Gave(0) && x' == x
    case Some(i) =>
      if Extends(x.areas, i, flags) then
        r == Gave(GapStart(x.areas, i, base)) && x' == x.(areas := Allocated(x.areas, i, size, flags, base))
      else if n == null then r == Gave(0) && x' == x
      else r == Gave(GapStart(x.areas, i, base)) && PutIn(x, i, n, Allocated(x.areas, i, size, flags, base), x')
  }

  ghost predicate StepFree(x: Sys, start: nat, end: nat, n: Node?, r: Answer, x': Sys)
    requires x.Listed? && |x.prevs| == |x.nodes| == |x.areas|
  {
    if start >= end || Straddles(start, end) || forall j | 0 <= j < |x.areas| :: !Within(x.areas[j], start, end)
    then r == Did(EINVAL) && x' == x
    else exists k: nat, p: int :: FreeAt(x, start, end, n, k, p, r, x')
  }

  /** The call frees all or part of area `k`, whose `prev` names node `p`. */
  ghost predicate FreeAt(x: Sys, start: nat, end: nat, n: Node?, k: nat, p: int, r: Answer, x': Sys)
    requires x.Listed? && |x.prevs| == |x.nodes| == |x.areas|
  {
    && k < |x.areas| && Within(x.areas[k], start, end) && Names(x.nodes, x.prevs, k, p)
    && if Inside(x.areas[k], start, end) && n == null then r == Did(ENOMEM) && x' == x
       else
         && r == Did(Ok)
         && if Inside(x.areas[k], start, end) && n in x.nodes then x'.Overwritten?
            else if Exact(x.areas[k], start, end) && p > k then x'.Endless?
            else exists rest: nat :: FreeTo(x, start, end, n, rest, k, p, x')
  }

  ghost predicate FreeTo(x: Sys, start: nat, end: nat, n: Node?, rest: nat, k: nat, p: int, x': Sys)
    requires x.Listed? && |x.prevs| == |x.nodes| == |x.areas| && k < |x.nodes|
  {
    && x'.Listed?
    && FreedList(x.nodes, x.prevs, x.areas, start, end, n, rest, k, p, x'.nodes, x'.prevs, x'.areas)
    && x'.live == (if Exact(x.areas[k], start, end) then x.live - {x.nodes[k]}
                   else if Inside(x.areas[k], start, end) && n != null then x.live + {n} else x.live)
  }

  // The methods take these steps.

  /** The method's effect is a step, for every node that is not on the list. */
  method Serve(l: VmaList, c: Call, n: Node?, ghost live: set<Node>) returns (r: Answer, ghost x': Sys)
    requires l.Forward() && Sorted(l.Areas()) && n !in l.nodes && (n != null ==> n !in live)
    modifies l, l.nodes, n, set m | m in l.nodes :: m.prev
    ensures Step(Listed(old(l.nodes), old(l.Prevs()), old(l.Areas()), live), c, n, r, x')
    ensures l.Ends() <==> !x'.Endless?
    ensures !x'.Endless? ==> l.Forward() && Sorted(l.Areas())
    ensures !x'.Endless? ==> x'.Listed? && x' == Listed(l.nodes, l.Prevs(), l.Areas(), x'.live)
  {
    hide StepAdd, StepAlloc, StepFree, Sorted, VmaList.Forward, VmaList.Ends;
    match c {
      case CallAdd(start, end, flags) =>
        r, x' := ServeAdd(l, start, end, flags, n, live);
      case CallAlloc(size, flags, userMax) =>
        r, x' := ServeAlloc(l, size, flags, userMax, n, live);
      case CallFree(start, end) =>
        r, x' := ServeFree(l, start, end, n, live);
    }
  }

  method ServeAdd(l: VmaList, start: nat, end: nat, flags: nat, n: Node?, ghost live: set<Node>)
    returns (r: Answer, ghost x': Sys)
    requires l.Forward() && Sorted(l.Areas()) && n !in l.nodes
    modifies l, l.nodes, n
    ensures StepAdd(Listed(old(l.nodes), old(l.Prevs()), old(l.Areas()), live), start, end, flags, n, r, x')
    ensures l.Ends() && l.Forward() && Sorted(l.Areas())
    ensures x'.Listed? && x' == Listed(l.nodes, l.Prevs(), l.Areas(), x'.live)
  {
    hide LinkedIn, Covers, InRange, Clear, Sorted, Insert, GapFits, Earlier;
    hide VmaList.Ends, VmaList.Forward, VmaList.Areas, VmaList.Prevs, VmaList.Back;
    ghost var x := Listed(l.nodes, l.Prevs(), l.Areas(), live);
    var st;
    ghost var i;
    st, i := l.Add(start, end, flags, n);
    r := Did(st);
    x' := Listed(l.nodes, l.Prevs(), l.Areas(), if st == Ok && n != null then live + {n} else live);
    if st == Ok { assert AddAt(x, i, Area(start, end, flags), n, x'); }
    l.ForwardEnds();
  }

  method ServeAlloc(l: VmaList, size: nat, flags: nat, userMax: nat, n: Node?, ghost live: set<Node>)
    returns (r: Answer, ghost x': Sys)
    requires l.Forward() && Sorted(l.Areas()) && n !in l.nodes
    modifies l, l.nodes, n
    ensures StepAlloc(Listed(old(l.nodes), old(l.Prevs()), old(l.Areas()), live), size, flags, userMax, n, r, x')
    ensures l.Ends() && l.Forward() && Sorted(l.Areas())
    ensures x'.Listed? && x' == Listed(l.nodes, l.Prevs(), l.Areas(), x'.live)
  {
    hide LinkedIn, Covers, Bounds, Sorted, Allocated, FirstFit, Extends, GapStart, VmaList.Ends, VmaList.Forward,
      VmaList.Back, VmaList.Prevs, VmaList.Areas, Earlier;
    ghost var s := l.Areas();
    ghost var fit := FirstFit(s, size, Bounds(flags, userMax).0, Bounds(flags, userMax).1, 0);
    var start := l.Alloc(size, flags, userMax, n);
    r := Gave(start);
    x' := Listed(l.nodes, l.Prevs(), l.Areas(),
                 if fit.Some? && !Extends(s, fit.value, flags) && n != null then live + {n} else live);
    l.ForwardEnds();
  }

  /** The state after `vma_free` with the given answer, new list, backward links and areas. */
  ghost function AfterFree(x: Sys, start: nat, end: nat, n: Node?, st: Status, k: nat, p: int,
                           nodes: seq<Node>, prevs: seq<Node?>, areas: seq<Area>): Sys
    requires x.Listed? && |x.nodes| == |x.areas| && (st == Ok ==> k < |x.nodes|)
  {
    if st != Ok then Listed(nodes, prevs, areas, x.live)
    else if Exact(x.areas[k], start, end) && p > k then Endless
    else if Exact(x.areas[k], start, end) then Listed(nodes, prevs, areas, x.live - {x.nodes[k]})
    else if Inside(x.areas[k], start, end) && n != null then Listed(nodes, prevs, areas, x.live + {n})
    else Listed(nodes, prevs, areas, x.live)
  }

  lemma FreeIsStep(x: Sys, start: nat, end: nat, n: Node?, st: Status, k: nat, p: int, rest: nat,
                   nodes: seq<Node>, prevs: seq<Node?>, areas: seq<Area>)
    requires x.Listed? && |x.prevs| == |x.nodes| == |x.areas| && n !in x.nodes
    requires st == EINVAL <==>
      (start >= end || Straddles(start, end) || forall j | 0 <= j < |x.nodes| :: !Within(x.areas[j], start, end))
    requires st != Ok ==> nodes == x.nodes && prevs == x.prevs && areas == x.areas
    requires st != EINVAL ==> k < |x.nodes| && Within(x.areas[k], start, end) && Names(x.nodes, x.prevs, k, p)
    requires st == ENOMEM <==> st != EINVAL && n == null && Inside(x.areas[k], start, end)
    requires st == Ok && !(Exact(x.areas[k], start, end) && p > k) ==>
      FreedList(x.nodes, x.prevs, x.areas, start, end, n, rest, k, p, nodes, prevs, areas)
    ensures StepFree(x, start, end, n, Did(st), AfterFree(x, start, end, n, st, k, p, nodes, prevs, areas))
  {
    hide FreedList, Names, Straddles, Within;
    var x' := AfterFree(x, start, end, n, st, k, p, nodes, prevs, areas);
    if st == Ok && !x'.Endless? { assert FreeTo(x, start, end, n, rest, k, p, x'); }
    if st != EINVAL { assert FreeAt(x, start, end, n, k, p, Did(st), x'); }
  }

  method ServeFree(l: VmaList, start: nat, end: nat, n: Node?, ghost live: set<Node>)
    returns (r: Answer, ghost x': Sys)
    requires l.Forward() && Sorted(l.Areas()) && n !in l.nodes
    modifies l, l.nodes, n, set m | m in l.nodes :: m.prev
    ensures StepFree(Listed(old(l.nodes), old(l.Prevs()), old(l.Areas()), live), start, end, n, r, x')
    ensures l.Ends() <==> !x'.Endless?
    ensures !x'.Endless? ==> l.Forward() && Sorted(l.Areas())
    ensures !x'.Endless? ==> x'.Listed? && x' == Listed(l.nodes, l.Prevs(), l.Areas(), x'.live)
  {
    hide FreedList, Names, Sorted, Within, Earlier, LooseBack, NoneOrphaned, Straddles, StepFree;
    hide VmaList.Ends, VmaList.Forward, VmaList.Areas, VmaList.Prevs, VmaList.Bent;
    ghost var x := Listed(l.nodes, l.Prevs(), l.Areas(), live);
    ghost var rest := if n == null then 0 else n.flags;
    var st, freed;
    ghost var k, p;
    st, freed, k, p := l.Free(start, end, n);
    r := Did(st);
    FreeIsStep(x, start, end, n, st, k, p, rest, l.nodes, l.Prevs(), l.Areas());
    x' := AfterFree(x, start, end, n, st, k, p, l.nodes, l.Prevs(), l.Areas());
  }

  // What every step keeps.

  /** The list is in order, without overlap. */
  ghost predicate Good(x: Sys) {
    x.Listed? ==> Different(x.nodes) && |x.prevs| == |x.areas| == |x.nodes| && Sorted(x.areas)
  }

  lemma PutInGood(x: Sys, i: nat, n: Node?, areas: seq<Area>, x': Sys)
    requires x.Listed? && Good(x) && PutIn(x, i, n, areas, x') && Sorted(areas) && |areas| == |x.nodes| + 1
    ensures Good(x')
  {
    hide Sorted, Inserted, LinkedPrevs;
    if n !in x.nodes {
      InsertedDistinct(x.nodes, i, n);
      InsertedMembers(x.nodes, i, n);
      LinkedPrevsAt(x.prevs, i, if i == 0 then null else x.nodes[i - 1], n, 0);
    }
  }

  lemma FreeToGood(x: Sys, start: nat, end: nat, n: Node?, rest: nat, k: nat, p: int, x': Sys)
    requires x.Listed? && Good(x) && k < |x.nodes| && FreeTo(x, start, end, n, rest, k, p, x')
    requires start < end && Within(x.areas[k], start, end) && (Inside(x.areas[k], start, end) ==> n !in x.nodes)
    ensures Good(x')
  {
    FreedSorted(x.nodes, x.prevs, x.areas, start, end, n, rest, k, p, x'.nodes, x'.prevs, x'.areas);
    hide Sorted, Inserted, Placed, Removed, Without, UnlinkedPrevs;
    if Exact(x.areas[k], start, end) {
      if Stuck(k, p) {
        UnlinkedStuck(x.nodes, x.prevs, k, p);
      } else {
        RemovedDistinct(x.nodes, p, k);
        UnlinkedPrevsAt(x.nodes, x.prevs, k, p, 0);
        WithoutAt(x.areas, p, k, 0);
      }
    } else if Inside(x.areas[k], start, end) {
      InsertedDistinct(x.nodes, k + 1, n);
      InsertedMembers(x.nodes, k + 1, n);
      PlacedAt(x.prevs, k + 1, x.nodes[k], 0);
      InsertAt(x.areas, k + 1, x.areas[k], 0);
    }
  }

  lemma AddGood(x: Sys, i: nat, a: Area, n: Node, x': Sys)
    requires x.Listed? && Good(x) && AddAt(x, i, a, n, x') && a.start <= a.end
    ensures Good(x')
  {
    InsertKeeps(x.areas, i, a);
    InsertAt(x.areas, i, a, 0);
    hide Sorted, Insert, PutIn;
    PutInGood(x, i, n, Insert(x.areas, i, a), x');
  }

  lemma AllocGood(x: Sys, size: nat, flags: nat, userMax: nat, n: Node?, r: Answer, x': Sys)
    requires x.Listed? && Good(x) && StepAlloc(x, size, flags, userMax, n, r, x')
    ensures Good(x')
  {
    hide Bounds, Sorted, FirstFit, Allocated, PutIn, Covers, Insert;
    var (base, limit) := Bounds(flags, userMax);
    var fit := FirstFit(x.areas, size, base, limit, 0);
    if fit.Some? {
      AllocKeeps(x.areas, fit.value, size, flags, base, limit);
      AllocatedIs(x.areas, fit.value, size, flags, base);
      InsertAt(x.areas, fit.value, Area(0, 0, 0), 0);
      AllocatedSize(x.areas, fit.value, size, flags, base);
      if !Extends(x.areas, fit.value, flags) && n != null {
        PutInGood(x, fit.value, n, Allocated(x.areas, fit.value, size, flags, base), x');
      }
    }
  }

  lemma AllocatedSize(s: seq<Area>, i: nat, size: nat, flags: nat, base: nat)
    requires i <= |s|
    ensures |Allocated(s, i, size, flags, base)| == |s| + if Extends(s, i, flags) then 0 else 1
  {}

  lemma StepGood(x: Sys, c: Call, n: Node?, r: Answer, x': Sys)
    requires Good(x) && Step(x, c, n, r, x')
    ensures Good(x')
  {
    hide Sorted, AddAt, StepAlloc, FreeTo, InRange, Clear, Straddles, Different;
    match c
    case CallAdd(start, end, flags) =>
      if x' != x {
        var i: nat :| AddAt(x, i, Area(start, end, flags), n, x');
        RangeOrder(start, end, flags);
        AddGood(x, i, Area(start, end, flags), n, x');
      }
    case CallAlloc(size, flags, userMax) => AllocGood(x, size, flags, userMax, n, r, x');
    case CallFree(start, end) =>
      if x' != x && x'.Listed? {
        var k: nat, p: int :| FreeAt(x, start, end, n, k, p, r, x');
        var rest: nat :| FreeTo(x, start, end, n, rest, k, p, x');
        FreeToGood(x, start, end, n, rest, k, p, x');
      }
  }

  // Links that name a node behind.

  /** No link names a node at the same place or behind, and the list has its end. */
  ghost predicate Ordered(x: Sys) {
    match x
    case Listed(nodes, prevs, _, _) => Earlier(nodes, prevs)
    case Endless => false
    case Overwritten => true
  }

  /** If the call links a node in, no link before its place named it. */
  ghost predicate Harmless(x: Sys, n: Node?, x': Sys) {
    x.Listed? && x'.Listed? && n !in x.nodes ==>
      forall i: nat | i < |x'.nodes| && x'.nodes[i] == n :: i <= |x.prevs| && n !in x.prevs[..i]
  }

  lemma PlaceOf(nodes: seq<Node>, i: nat, n: Node)
    requires Different(nodes) && n !in nodes && i <= |nodes|
    ensures forall j: nat | j < |Inserted(nodes, i, n)| :: Inserted(nodes, i, n)[j] == n <==> j == i
  {
    hide Inserted;
    InsertedMembers(nodes, i, n);
    forall j: nat | j < |Inserted(nodes, i, n)| ensures Inserted(nodes, i, n)[j] == n <==> j == i {
      InsertedAt(nodes, i, n, j);
    }
  }

  lemma PutInOrdered(x: Sys, i: nat, n: Node?, areas: seq<Area>, x': Sys)
    requires x.Listed? && Good(x) && PutIn(x, i, n, areas, x') && Earlier(x.nodes, x.prevs)
    ensures Ordered(x') <==> Harmless(x, n, x')
  {
    hide Sorted, Inserted, LinkedPrevs, Earlier, Different;
    if n !in x.nodes {
      PlaceOf(x.nodes, i, n);
      InsertedMembers(x.nodes, i, n);
      LinkEarlier(x.nodes, x.prevs, i, if i == 0 then null else x.nodes[i - 1], n);
    }
  }

  lemma FreeToOrdered(x: Sys, start: nat, end: nat, n: Node?, rest: nat, k: nat, p: int, x': Sys)
    requires x.Listed? && Good(x) && k < |x.nodes| && FreeTo(x, start, end, n, rest, k, p, x')
    requires Earlier(x.nodes, x.prevs) && (Inside(x.areas[k], start, end) ==> n !in x.nodes)
    ensures Ordered(x') <==> Harmless(x, n, x')
  {
    hide Sorted, Inserted, Placed, Removed, Without, UnlinkedPrevs, Earlier, Different;
    EarlierNames(x.nodes, x.prevs, k, p);
    if Exact(x.areas[k], start, end) {
      UnlinkEarlier(x.nodes, x.prevs, k, p);
      if !Stuck(k, p) { RemovedDistinct(x.nodes, p, k) by { hide *; Spread(x.nodes); } }
    } else if Inside(x.areas[k], start, end) {
      PlaceOf(x.nodes, k + 1, n);
      InsertedMembers(x.nodes, k + 1, n);
      SplitEarlier(x.nodes, x.prevs, k, n);
    }
  }

  lemma Spread(nodes: seq<Node>)
    requires Different(nodes)
    ensures forall i, j | 0 <= i < j < |nodes| :: nodes[i] != nodes[j]
  {}

  lemma SameHarmless(x: Sys, n: Node?)
    ensures Harmless(x, n, x)
  {}

  /** A step from a list without such links leads to one exactly if it is harmless, and never to a list
      without end. */
  lemma StepOrdered(x: Sys, c: Call, n: Node?, r: Answer, x': Sys)
    requires Good(x) && Step(x, c, n, r, x') && Ordered(x)
    ensures Ordered(x') <==> Harmless(x, n, x')
    ensures !x'.Endless?
  {
    hide Good, Sorted, Earlier, FreeTo, PutIn, Harmless, InRange, Clear, Straddles, Bounds, FirstFit, Names, Within;
    if x' == x { SameHarmless(x, n); }
    match c
    case CallAdd(start, end, flags) =>
      if x' != x {
        var i: nat :| AddAt(x, i, Area(start, end, flags), n, x');
        PutInOrdered(x, i, n, Insert(x.areas, i, Area(start, end, flags)), x');
        PutInListed(x, i, n, Insert(x.areas, i, Area(start, end, flags)), x');
      }
    case CallAlloc(size, flags, userMax) =>
      var (base, limit) := Bounds(flags, userMax);
      var fit := FirstFit(x.areas, size, base, limit, 0);
      if fit.Some? && !Extends(x.areas, fit.value, flags) && n != null {
        PutInOrdered(x, fit.value, n, Allocated(x.areas, fit.value, size, flags, base), x');
        PutInListed(x, fit.value, n, Allocated(x.areas, fit.value, size, flags, base), x');
      } else if fit.Some? && Extends(x.areas, fit.value, flags) {
        SameLinks(x, n, x');
      }
    case CallFree(start, end) =>
      if x' != x {
        var k: nat, p: int :| FreeAt(x, start, end, n, k, p, r, x');
        EarlierNames(x.nodes, x.prevs, k, p);
        if x'.Overwritten? {
          OverwrittenHarmless(x, n, x');
        } else {
          var rest: nat :| FreeTo(x, start, end, n, rest, k, p, x');
          FreeToOrdered(x, start, end, n, rest, k, p, x');
          FreeToListed(x, start, end, n, rest, k, p, x');
        }
      }
  }

  lemma PutInListed(x: Sys, i: nat, n: Node?, areas: seq<Area>, x': Sys)
    requires x.Listed? && PutIn(x, i, n, areas, x')
    ensures !x'.Endless?
  {}

  lemma FreeToListed(x: Sys, start: nat, end: nat, n: Node?, rest: nat, k: nat, p: int, x': Sys)
    requires x.Listed? && |x.prevs| == |x.nodes| == |x.areas| && k < |x.nodes|
    requires FreeTo(x, start, end, n, rest, k, p, x')
    ensures x'.Listed?
  {}

  lemma SameLinks(x: Sys, n: Node?, x': Sys)
    requires x.Listed? && x'.Listed? && x'.nodes == x.nodes && x'.prevs == x.prevs
    ensures Harmless(x, n, x')
  {}

  lemma OverwrittenHarmless(x: Sys, n: Node?, x': Sys)
    requires x'.Overwritten?
    ensures Harmless(x, n, x')
  {}

  // Lists without end, and nodes that are handed out while they are on the list.

  /** The call frees a whole area, number `k`, whose `prev` names node `p`. */
  ghost predicate FreesWhole(x: Sys, c: Call, k: nat, p: int) {
    && x.Listed? && |x.areas| == |x.nodes| && c.CallFree? && c.start < c.end && !Straddles(c.start, c.end)
    && k < |x.nodes| && Names(x.nodes, x.prevs, k, p) && Exact(x.areas[k], c.start, c.end)
  }

  /** The call frees a whole area whose `prev` names a node behind. */
  ghost predicate FreesBehind(x: Sys, c: Call) { exists k: nat, p: int :: FreesWhole(x, c, k, p) && p > k }

  /** The call frees a whole area that is not the first and whose `prev` names no other node of the list. */
  ghost predicate FreesStuck(x: Sys, c: Call) { exists k: nat, p: int :: FreesWhole(x, c, k, p) && Stuck(k, p) }

  lemma OneName(nodes: seq<Node>, prevs: seq<Node?>, k: nat, p: int, q: int)
    requires Different(nodes) && Names(nodes, prevs, k, p) && Names(nodes, prevs, k, q)
    ensures p == q
  {}

  /** The area of the call and what its `prev` names are determined. */
  lemma OneWhole(x: Sys, c: Call, k: nat, p: int, j: nat, q: int)
    requires Good(x) && FreesWhole(x, c, k, p) && j < |x.areas| && Within(x.areas[j], c.start, c.end)
    requires Names(x.nodes, x.prevs, j, q)
    ensures j == k && q == p
  {
    hide Names, Different, Sorted;
    WithinMeans(x.areas[k], c.start, c.end);
    OneHolder(x.areas, j, k, c.start, c.end);
    OneName(x.nodes, x.prevs, k, p, q);
  }

  /** A step leaves a list without end exactly if it frees a whole area whose `prev` names a node behind. */
  lemma StepEndless(x: Sys, c: Call, n: Node?, r: Answer, x': Sys)
    requires Good(x) && Step(x, c, n, r, x')
    ensures x'.Endless? <==> FreesBehind(x, c)
  {
    hide Good, Names, Straddles, Bounds, FirstFit, InRange, Clear, FreedList, Sorted, LinkedIn;
    if c.CallFree? {
      if x'.Endless? {
        var j: nat, q: int :| FreeAt(x, c.start, c.end, n, j, q, r, x');
        assert FreesWhole(x, c, j, q);
      } else if k: nat, p: int :| FreesWhole(x, c, k, p) && p > k {
        WithinMeans(x.areas[k], c.start, c.end);
        var j: nat, q: int :| FreeAt(x, c.start, c.end, n, j, q, r, x');
        OneWhole(x, c, k, p, j, q);
      }
    }
  }

  /** The nodes of the list are handed out. */
  ghost predicate Held(x: Sys) { x.Listed? ==> forall m | m in x.nodes :: m in x.live }

  lemma FreeToHeld(x: Sys, start: nat, end: nat, n: Node?, rest: nat, k: nat, p: int, x': Sys)
    requires x.Listed? && Good(x) && Held(x) && k < |x.nodes| && FreeTo(x, start, end, n, rest, k, p, x')
    requires Exact(x.areas[k], start, end) ==> !Stuck(k, p)
    ensures Held(x')
  {
    hide Sorted, Inserted, Placed, Removed, Without, UnlinkedPrevs;
    if Exact(x.areas[k], start, end) {
      RemovedSize(x.nodes, p, k);
      forall i: nat | i < |x'.nodes| ensures x'.nodes[i] in x'.live { RemovedAt(x.nodes, p, k, i); }
    } else if Inside(x.areas[k], start, end) {
      InsertedMembers(x.nodes, k + 1, n);
    }
  }

  lemma PutInHeld(x: Sys, i: nat, n: Node?, areas: seq<Area>, x': Sys)
    requires x.Listed? && Held(x) && PutIn(x, i, n, areas, x') && n !in x.live
    ensures Held(x') && !x'.Overwritten?
  {
    hide Inserted, LinkedPrevs;
    InsertedMembers(x.nodes, if i <= |x.nodes| then i else 0, n);
  }

  /** As long as no free gets stuck, `kmalloc` hands out no node of the list. */
  lemma StepHeld(x: Sys, c: Call, n: Node?, r: Answer, x': Sys)
    requires Good(x) && Held(x) && Step(x, c, n, r, x') && !FreesStuck(x, c)
    ensures Held(x') && !x'.Overwritten?
  {
    hide Good, Names, Straddles, Bounds, FirstFit, InRange, Clear, FreeTo, PutIn, Sorted;
    match c
    case CallAdd(start, end, flags) =>
      if x' != x {
        var i: nat :| AddAt(x, i, Area(start, end, flags), n, x');
        PutInHeld(x, i, n, Insert(x.areas, i, Area(start, end, flags)), x');
      }
    case CallAlloc(size, flags, userMax) =>
      var (base, limit) := Bounds(flags, userMax);
      var fit := FirstFit(x.areas, size, base, limit, 0);
      if fit.Some? && !Extends(x.areas, fit.value, flags) && n != null {
        PutInHeld(x, fit.value, n, Allocated(x.areas, fit.value, size, flags, base), x');
      }
    case CallFree(start, end) =>
      if x' != x && !x'.Endless? {
        assert n != null ==> n !in x.nodes;
        var k: nat, p: int :| FreeAt(x, start, end, n, k, p, r, x');
        if Exact(x.areas[k], start, end) { assert FreesWhole(x, c, k, p); }
        var rest: nat :| FreeTo(x, start, end, n, rest, k, p, x');
        FreeToListed(x, start, end, n, rest, k, p, x');
        FreeToHeld(x, start, end, n, rest, k, p, x');
      }
  }

  // What has been handed out.

  /** The call has handed out address `a`. */
  ghost predicate HandedOut(c: Call, r: Answer, a: int) {
    match c
    case CallAdd(start, end, _) => r == Did(Ok) && start <= a < end
    case CallAlloc(size, _, _) => r.Gave? && r.addr > 0 && r.addr <= a < r.addr + size
    case CallFree(_, _) => false
  }

  /** What the list covers after a call was covered before or is handed out by it. */
  lemma StepGrows(x: Sys, c: Call, n: Node?, r: Answer, x': Sys, a: int)
    requires Good(x) && Step(x, c, n, r, x') && x'.Listed? && Covers(x'.areas, a)
    ensures Covers(x.areas, a) || HandedOut(c, r, a)
  {
    hide Names, Straddles, Bounds, FirstFit, InRange, Clear, Covers, Sorted, FreedList, LinkedIn, Allocated, Insert;
    match c
    case CallAdd(start, end, flags) =>
      if x' != x {
        var i: nat :| AddAt(x, i, Area(start, end, flags), n, x');
        RangeOrder(start, end, flags);
        InsertKeeps(x.areas, i, Area(start, end, flags));
      }
    case CallAlloc(size, flags, userMax) =>
      var (base, limit) := Bounds(flags, userMax);
      var fit := FirstFit(x.areas, size, base, limit, 0);
      if fit.Some? {
        AllocKeeps(x.areas, fit.value, size, flags, base, limit);
        FitStart(x.areas, fit.value, size, base, limit);
        BasePositive(flags, userMax);
      }
    case CallFree(start, end) =>
      if x' != x {
        var k: nat, p: int :| FreeAt(x, start, end, n, k, p, r, x');
        var rest: nat :| FreeTo(x, start, end, n, rest, k, p, x');
        FreedShrinks(x.nodes, x.prevs, x.areas, start, end, n, rest, k, p, x'.nodes, x'.prevs, x'.areas);
      }
  }

  /** The address belongs to the address space that the flags of the call ask for. */
  ghost predicate InSpace(c: Call, a: int) {
    match c
    case CallAdd(_, _, flags) => if Bit(flags, VMA_USER) then KERNEL_SPACE <= a else a < KERNEL_SPACE
    case CallAlloc(_, flags, userMax) =>
      if Bit(flags, VMA_USER) then KERNEL_SPACE <= a < userMax else VMA_KERN_MIN <= a < KERNEL_SPACE
    case CallFree(_, _) => false
  }

  lemma AddGives(x: Sys, start: nat, end: nat, flags: nat, n: Node?, r: Answer, x': Sys, a: int)
    requires Good(x) && x.Listed? && StepAdd(x, start, end, flags, n, r, x')
    requires HandedOut(CallAdd(start, end, flags), r, a)
    ensures !Covers(x.areas, a) && InSpace(CallAdd(start, end, flags), a)
    ensures x'.Listed? ==> Covers(x'.areas, a)
  {
    hide Bit, LinkedIn, Sorted, Insert;
    var i: nat :| AddAt(x, i, Area(start, end, flags), n, x');
    InsertKeeps(x.areas, i, Area(start, end, flags));
  }

  lemma AllocGives(x: Sys, size: nat, flags: nat, userMax: nat, n: Node?, r: Answer, x': Sys, a: int)
    requires Good(x) && x.Listed? && StepAlloc(x, size, flags, userMax, n, r, x')
    requires HandedOut(CallAlloc(size, flags, userMax), r, a)
    ensures !Covers(x.areas, a) && InSpace(CallAlloc(size, flags, userMax), a)
    ensures x'.Listed? ==> Covers(x'.areas, a)
  {
    hide Bit, LinkedIn, Sorted, Insert, Covers, Allocated, Bounds, FirstFit, Qualifies, Follows;
    var (base, limit) := Bounds(flags, userMax);
    var fit := FirstFit(x.areas, size, base, limit, 0);
    AllocKeeps(x.areas, fit.value, size, flags, base, limit);
    FitIsEligible(x.areas, fit.value, size, flags, userMax);
  }

  // Runs.

  /** The states, calls, nodes and answers of a run. */
  ghost predicate IsRun(xs: seq<Sys>, cs: seq<Call>, ns: seq<Node?>, rs: seq<Answer>) {
    && |xs| == |cs| + 1 && |ns| == |rs| == |cs|
    && forall i: nat | i < |cs| :: StepOf(xs, cs, ns, rs, i)
  }

  ghost predicate StepOf(xs: seq<Sys>, cs: seq<Call>, ns: seq<Node?>, rs: seq<Answer>, i: nat) {
    i + 1 < |xs| && i < |cs| && i < |ns| && i < |rs| && Step(xs[i], cs[i], ns[i], rs[i], xs[i + 1])
  }

  /** The list of a new task. */
  ghost predicate Init(x: Sys) { x.Listed? && x.nodes == [] && x.prevs == [] && x.areas == [] }

  /** In every state of every run the list, as long as it has its end and no node of it was handed out,
      is in order and without overlap. */
  lemma {:induction false} AlwaysGood(xs: seq<Sys>, cs: seq<Call>, ns: seq<Node?>, rs: seq<Answer>, i: nat)
    requires IsRun(xs, cs, ns, rs) && Init(xs[0]) && i < |xs|
    ensures Good(xs[i])
  {
    hide Good, Step;
    if i == 0 {
      InitGood(xs[0]);
    } else {
      AlwaysGood(xs, cs, ns, rs, i - 1);
      assert StepOf(xs, cs, ns, rs, i - 1);
      StepGood(xs[i - 1], cs[i - 1], ns[i - 1], rs[i - 1], xs[i]);
    }
  }

  lemma InitGood(x: Sys)
    requires Init(x)
    ensures Good(x) && Ordered(x) && Held(x)
  {}

  ghost predicate HarmlessAt(xs: seq<Sys>, ns: seq<Node?>, i: nat) {
    i + 1 < |xs| && i < |ns| ==> Harmless(xs[i], ns[i], xs[i + 1])
  }

  /** No state of a run has a link that names a node behind, or a list without end, exactly if every
      node that was linked in was named by no link before its place. */
  lemma {:induction false} OrderedExactly(xs: seq<Sys>, cs: seq<Call>, ns: seq<Node?>, rs: seq<Answer>, i: nat)
    requires IsRun(xs, cs, ns, rs) && Init(xs[0]) && i < |xs|
    ensures (forall j: nat | j <= i :: Ordered(xs[j])) <==> (forall j: nat | j < i :: HarmlessAt(xs, ns, j))
  {
    hide Good, Step, Ordered, Harmless;
    if i == 0 {
      InitGood(xs[0]);
    } else {
      OrderedExactly(xs, cs, ns, rs, i - 1);
      AlwaysGood(xs, cs, ns, rs, i - 1);
      assert StepOf(xs, cs, ns, rs, i - 1);
      if Ordered(xs[i - 1]) {
        StepOrdered(xs[i - 1], cs[i - 1], ns[i - 1], rs[i - 1], xs[i]);
      }
      assert HarmlessAt(xs, ns, i - 1) <==> Harmless(xs[i - 1], ns[i - 1], xs[i]);
    }
  }

  /** A run ends with a list without end exactly if its last call frees a whole area whose `prev` names a
      node behind; then some node was linked in that a link before its place named. */
  lemma EndlessExactly(xs: seq<Sys>, cs: seq<Call>, ns: seq<Node?>, rs: seq<Answer>, i: nat)
    requires IsRun(xs, cs, ns, rs) && Init(xs[0]) && i < |cs|
    ensures xs[i + 1].Endless? <==> FreesBehind(xs[i], cs[i])
    ensures xs[i + 1].Endless? ==> exists j: nat | j < i :: !HarmlessAt(xs, ns, j)
  {
    hide Good, Step, Ordered, Harmless, FreesBehind, HarmlessAt;
    AlwaysGood(xs, cs, ns, rs, i);
    OrderedExactly(xs, cs, ns, rs, i);
    assert StepOf(xs, cs, ns, rs, i);
    StepEndless(xs[i], cs[i], ns[i], rs[i], xs[i + 1]);
    if Ordered(xs[i]) { StepOrdered(xs[i], cs[i], ns[i], rs[i], xs[i + 1]); }
  }

  ghost predicate StuckAt(xs: seq<Sys>, cs: seq<Call>, i: nat) { i < |xs| && i < |cs| && FreesStuck(xs[i], cs[i]) }

  /** A node of the list is handed out only after a call that gave it back and left it there. */
  lemma {:induction false} OverwrittenOnly(xs: seq<Sys>, cs: seq<Call>, ns: seq<Node?>, rs: seq<Answer>, i: nat)
    requires IsRun(xs, cs, ns, rs) && Init(xs[0]) && i < |xs| && forall j: nat | j < i :: !StuckAt(xs, cs, j)
    ensures Held(xs[i]) && !xs[i].Overwritten?
  {
    hide Good, Step, Held, FreesStuck;
    if i == 0 {
      InitGood(xs[0]);
    } else {
      OverwrittenOnly(xs, cs, ns, rs, i - 1);
      AlwaysGood(xs, cs, ns, rs, i - 1);
      assert StepOf(xs, cs, ns, rs, i - 1) && !StuckAt(xs, cs, i - 1);
      StepHeld(xs[i - 1], cs[i - 1], ns[i - 1], rs[i - 1], xs[i]);
    }
  }

  ghost predicate HandedOutAt(cs: seq<Call>, rs: seq<Answer>, j: nat, a: int) {
    j < |cs| && j < |rs| && HandedOut(cs[j], rs[j], a)
  }

  /** Every address that the list covers has been handed out by a call. */
  lemma {:induction false} AllHandedOut(xs: seq<Sys>, cs: seq<Call>, ns: seq<Node?>, rs: seq<Answer>, i: nat, a: int)
    requires IsRun(xs, cs, ns, rs) && Init(xs[0]) && i < |xs| && xs[i].Listed? && Covers(xs[i].areas, a)
    ensures exists j: nat | j < i :: HandedOutAt(cs, rs, j, a)
  {
    hide Good, Step, HandedOut;
    if i > 0 {
      AlwaysGood(xs, cs, ns, rs, i - 1);
      assert StepOf(xs, cs, ns, rs, i - 1);
      StepFromListed(xs[i - 1], cs[i - 1], ns[i - 1], rs[i - 1], xs[i]);
      StepGrows(xs[i - 1], cs[i - 1], ns[i - 1], rs[i - 1], xs[i], a);
      if Covers(xs[i - 1].areas, a) {
        AllHandedOut(xs, cs, ns, rs, i - 1, a);
      } else {
        assert HandedOutAt(cs, rs, i - 1, a);
      }
    }
  }

  /** What a call hands out was free, and lies in the address space that its flags ask for. */
  lemma HandedOutFree(xs: seq<Sys>, cs: seq<Call>, ns: seq<Node?>, rs: seq<Answer>, i: nat, a: int)
    requires IsRun(xs, cs, ns, rs) && Init(xs[0]) && HandedOutAt(cs, rs, i, a)
    ensures xs[i].Listed? && !Covers(xs[i].areas, a) && InSpace(cs[i], a)
    ensures xs[i + 1].Listed? ==> Covers(xs[i + 1].areas, a)
  {
    hide Good, StepAdd, StepAlloc, InSpace, Covers;
    AlwaysGood(xs, cs, ns, rs, i);
    assert StepOf(xs, cs, ns, rs, i);
    match cs[i]
    case CallAdd(start, end, flags) => AddGives(xs[i], start, end, flags, ns[i], rs[i], xs[i + 1], a);
    case CallAlloc(size, flags, userMax) => AllocGives(xs[i], size, flags, userMax, ns[i], rs[i], xs[i + 1], a);
  }

  lemma StepFromListed(x: Sys, c: Call, n: Node?, r: Answer, x': Sys)
    requires Step(x, c, n, r, x')
    ensures x.Listed?
  {}

  /** Where every node is harmless and no free gets stuck, every state of the run is a list in order, with
      links that name no node behind. */
  lemma AlwaysUsable(xs: seq<Sys>, cs: seq<Call>, ns: seq<Node?>, rs: seq<Answer>, i: nat)
    requires IsRun(xs, cs, ns, rs) && Init(xs[0]) && i < |xs|
    requires forall j: nat | j < i :: HarmlessAt(xs, ns, j) && !StuckAt(xs, cs, j)
    ensures xs[i].Listed? && Good(xs[i]) && Ordered(xs[i])
  {
    hide Good, Step, Harmless, FreesStuck, Held;
    AlwaysGood(xs, cs, ns, rs, i);
    OrderedExactly(xs, cs, ns, rs, i);
    OverwrittenOnly(xs, cs, ns, rs, i);
  }

  /** A user area: its flags hold the bit `VMA_USER` alone. */
  function UserArea(start: nat, end: nat): Area { Area(start, end, Pow2(VMA_USER)) }

  lemma UserRange(start: nat, end: nat)
    requires KERNEL_SPACE <= start < end
    ensures InRange(start, end, Pow2(VMA_USER))
  {
    hide Bit, Pow2;
    Pow2Bit(VMA_USER, VMA_USER);
  }

  /** Where an area is put behind one that ends before it. */
  lemma PutBehind(s: seq<Area>, i: nat, a: Area, s': seq<Area>)
    requires InsertedIn(s, i, a, s') && a.start < a.end && |s| <= 1
    requires forall b | b in s :: b.start < b.end <= a.start
    ensures i == |s| && s' == s + [a]
  {
    assert forall k | 0 <= k < |s| :: s[k] in s;
  }

  /** The list of a new task gets its first area. */
  method OneArea(start: nat, end: nat) returns (l: VmaList)
    requires KERNEL_SPACE <= start < end
    ensures fresh(l) && fresh(l.nodes) && l.Valid() && |l.nodes| == 1 && l.Areas() == [UserArea(start, end)]
  {
    hide Bit, Pow2, InRange, Sorted, Covers, Insert, InsertedIn, VmaList.Forward, VmaList.Usable, VmaList.Prevs;
    UserRange(start, end);
    l := new VmaList();
    var n := NewNode();
    ghost var s := l.Areas();
    var st, i := l.Add(start, end, Pow2(VMA_USER), n);
    PutBehind(s, i, UserArea(start, end), l.Areas());
  }

  /** A second area behind the first. */
  method TwoAreas(start: nat, end: nat, nextStart: nat, nextEnd: nat) returns (l: VmaList)
    requires KERNEL_SPACE <= start < end <= nextStart < nextEnd
    ensures fresh(l) && fresh(l.nodes) && l.Valid()
    ensures l.Areas() == [UserArea(start, end), UserArea(nextStart, nextEnd)]
  {
    hide Bit, Pow2, InRange, Sorted, Covers, Insert, InsertedIn, VmaList.Forward, VmaList.Usable, VmaList.Prevs;
    UserRange(nextStart, nextEnd);
    l := OneArea(start, end);
    var n := NewNode();
    ghost var s := l.Areas();
    var st, i := l.Add(nextStart, nextEnd, Pow2(VMA_USER), n);
    PutBehind(s, i, UserArea(nextStart, nextEnd), l.Areas());
  }

  /** A run from the list of a new task to a list without end: of two areas the first is split and its
      first part freed, an area is added behind with the node given back, and the second area is freed. */
  method EndlessRun() returns (l: VmaList, st: Status)
    ensures fresh(l) && st == Ok && !l.Ends()
  {
    hide Bit, Pow2, InRange, Sorted, Covers, VmaList.Ends, VmaList.Forward, VmaList.Areas, VmaList.Valid;
    hide VmaList.Walked;
    UserRange(0x4002_0000, 0x4002_1000);
    l := TwoAreas(0x4000_0000, 0x4000_3000, 0x4001_0000, 0x4001_1000);
    var spare := NewNode();
    assert Clear(l.Areas(), 0x4002_0000, 0x4002_1000);
    st := l.ReuseThenFree(0x4000_1000, 0x4000_2000, 0x4001_0000, 0x4001_1000, 0x4000_0000, spare, 0,
                          0x4002_0000, 0x4002_1000, Pow2(VMA_USER));
  }
}
