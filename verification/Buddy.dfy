/** The buddy allocator (mm/malloc.c): blocks of 2^exponent bytes, one list of free blocks per
    exponent, larger blocks split on demand, new regions from `palloc`. */
module Buddy {
  import opened Base
  import opened Arith
  import opened Bits

  const BUDDY_MIN: nat := 3
  const BUDDY_ALLOC: nat := 16
  const BUDDY_MAX: nat := 32
  const BUDDY_LISTS: nat := BUDDY_MAX - BUDDY_MIN + 1
  const BUDDY_MAGIC: nat := 0xBABE

  /** The exponents of blocks or regions by their addresses. */
  type Blocks = map<nat, nat>

  ghost predicate In(m: Blocks, a: nat, x: int) { a in m && a <= x < a + Pow2(m[a]) }

  ghost predicate Covers(m: Blocks, x: int) { exists a: nat :: In(m, a, x) }

  /** No two overlap. */
  ghost predicate Apart(m: Blocks) {
    forall a, b | a in m && b in m && a < b :: a + Pow2(m[a]) <= b
  }

  /** The sum of the sizes. */
  ghost function Total(m: Blocks): nat {
    if m.Keys == {} then 0 else var a :| a in m.Keys; Pow2(m[a]) + Total(m - {a})
  }

  lemma {:induction false} TotalRemove(m: Blocks, a: nat)
    requires a in m
    ensures Total(m) == Pow2(m[a]) + Total(m - {a})
    decreases |m|
  {
    var b :| b in m.Keys && Total(m) == Pow2(m[b]) + Total(m - {b});
    if a != b {
      TotalRemove(m - {b}, a);
      TotalRemove(m - {a}, b);
      assert m - {a} - {b} == m - {b} - {a};
    }
  }

  lemma TotalAdd(m: Blocks, a: nat, e: nat)
    requires a !in m
    ensures Total(m[a := e]) == Total(m) + Pow2(e)
  {
    TotalRemove(m[a := e], a);
    assert m[a := e] - {a} == m;
  }

  /** The blocks divide up the regions. */
  ghost predicate Partition(blocks: Blocks, regions: Blocks) {
    && Apart(blocks) && Apart(regions) && 0 !in blocks
    && (forall x :: Covers(blocks, x) <==> Covers(regions, x))
    && Total(blocks) == Total(regions)
  }

  function Split(m: Blocks, a: nat, e: nat): Blocks { m[a := e][a + Pow2(e) := e] }

  lemma Twice(e: nat)
    ensures Pow2(e + 1) == Pow2(e) + Pow2(e)
  {}

  /** Splitting a block into halves. */
  lemma SplitKeeps(blocks: Blocks, regions: Blocks, a: nat, e: nat)
    requires Partition(blocks, regions) && a in blocks && blocks[a] == e + 1
    ensures a + Pow2(e) !in blocks && Partition(Split(blocks, a, e), regions)
  {
    hide Pow2, Total;
    var m := Split(blocks, a, e);
    Twice(e);
    SplitApart(blocks, a, e);
    forall x ensures Covers(m, x) <==> Covers(blocks, x) { SplitCovers(blocks, a, e, x); }
    SplitTotal(blocks, a, e);
  }

  lemma SplitApart(blocks: Blocks, a: nat, e: nat)
    requires Apart(blocks) && a in blocks && blocks[a] == e + 1
    ensures a + Pow2(e) !in blocks && Apart(Split(blocks, a, e))
  {
    Twice(e);
    hide Pow2;
  }

  lemma SplitTotal(blocks: Blocks, a: nat, e: nat)
    requires a in blocks && blocks[a] == e + 1 && a + Pow2(e) !in blocks
    ensures Total(Split(blocks, a, e)) == Total(blocks)
  {
    hide Total;
    Twice(e);
    var rest := blocks - {a};
    TotalRemove(blocks, a);
    TotalAdd(rest, a, e);
    TotalAdd(rest[a := e], a + Pow2(e), e);
    assert rest[a := e] == blocks[a := e];
  }

  lemma SplitCovers(blocks: Blocks, a: nat, e: nat, x: int)
    requires a in blocks && blocks[a] == e + 1 && a + Pow2(e) !in blocks
    ensures Covers(Split(blocks, a, e), x) <==> Covers(blocks, x)
  {
    Twice(e);
    hide Pow2;
    var m := Split(blocks, a, e);
    if Covers(blocks, x) {
      var b: nat :| In(blocks, b, x);
      assert In(m, if b != a then b else if x < a + Pow2(e) then a else a + Pow2(e), x);
    }
    if Covers(m, x) {
      var b: nat :| In(m, b, x);
      assert In(blocks, if b == a + Pow2(e) then a else b, x);
    }
  }

  /** The region of 2^e bytes at `r` overlaps none of the regions. */
  predicate Unused(regions: Blocks, r: nat, e: nat) {
    forall q | q in regions :: r + Pow2(e) <= q || q + Pow2(regions[q]) <= r
  }

  /** A new region that becomes one block. */
  lemma RegionKeeps(blocks: Blocks, regions: Blocks, r: nat, e: nat)
    requires Partition(blocks, regions) && r > 0 && Unused(regions, r, e)
    ensures r !in blocks && r !in regions && Partition(blocks[r := e], regions[r := e])
  {
    hide Pow2, Total;
    UnusedByBlocks(blocks, regions, r, e);
    TotalAdd(blocks, r, e);
    TotalAdd(regions, r, e);
    var blocks', regions' := blocks[r := e], regions[r := e];
    forall x ensures Covers(blocks', x) <==> Covers(regions', x) {
      AddCovers(blocks, r, e, x);
      AddCovers(regions, r, e, x);
    }
  }

  lemma UnusedByBlocks(blocks: Blocks, regions: Blocks, r: nat, e: nat)
    requires Partition(blocks, regions) && Unused(regions, r, e)
    ensures r !in blocks && r !in regions && Unused(blocks, r, e)
  {
    hide Pow2, Total;
    OutsideRegions(regions, r, e, r);
    assert !Covers(blocks, r);
    forall a | a in blocks ensures a != r && (r + Pow2(e) <= a || a + Pow2(blocks[a]) <= r) {
      assert !In(blocks, a, r);
      if a > r {
        assert In(blocks, a, a) && Covers(blocks, a);
        OutsideRegions(regions, r, e, a);
      }
    }
    assert !In(regions, r, r);
  }

  lemma OutsideRegions(regions: Blocks, r: nat, e: nat, x: int)
    requires Unused(regions, r, e)
    ensures Covers(regions, x) ==> !(r <= x < r + Pow2(e))
  {
    hide Pow2;
  }

  lemma AddCovers(m: Blocks, r: nat, e: nat, x: int)
    requires r !in m
    ensures Covers(m[r := e], x) <==> Covers(m, x) || r <= x < r + Pow2(e)
  {
    hide Pow2;
    if Covers(m, x) {
      var b: nat :| In(m, b, x);
      assert In(m[r := e], b, x);
    }
    if r <= x < r + Pow2(e) { assert In(m[r := e], r, x); }
    if Covers(m[r := e], x) {
      var b: nat :| In(m[r := e], b, x);
      assert b == r || In(m, b, x);
    }
  }

  // The lists.

  /** The first word of a block: the link of a free one or the prefix of a used one. */
  datatype Word = Next(addr: nat) | Prefix(exponent: nat, magic: nat)

  function First(list: seq<nat>): nat { if list == [] then 0 else list[0] }

  function After(list: seq<nat>, i: nat): nat { if i + 1 < |list| then list[i + 1] else 0 }

  /** The blocks linked from `head` on are those of `list`. */
  ghost predicate Chained(words: map<nat, Word>, head: nat, list: seq<nat>) {
    && head == First(list)
    && forall i: nat | i < |list| :: list[i] != 0 && list[i] in words && words[list[i]] == Next(After(list, i))
  }

  ghost predicate Distinct(list: seq<nat>) {
    forall i, j | 0 <= i < j < |list| :: list[i] != list[j]
  }

  lemma ChainPush(words: map<nat, Word>, head: nat, list: seq<nat>, a: nat)
    requires Chained(words, head, list) && a != 0 && a !in list
    ensures Chained(words[a := Next(head)], a, [a] + list)
  {
    var words', list' := words[a := Next(head)], [a] + list;
    forall i: nat | i < |list'|
      ensures list'[i] != 0 && list'[i] in words' && words'[list'[i]] == Next(After(list', i))
    {
      if i > 0 { assert list'[i] == list[i - 1] && After(list', i) == After(list, i - 1); }
    }
  }

  lemma ChainPop(words: map<nat, Word>, head: nat, list: seq<nat>)
    requires Chained(words, head, list) && list != []
    ensures head in words && words[head].Next? && Chained(words, words[head].addr, list[1..])
  {
    var rest := list[1..];
    assert words[list[0]] == Next(After(list, 0));
    forall i: nat | i < |rest| ensures rest[i] != 0 && rest[i] in words && words[rest[i]] == Next(After(rest, i)) {
      assert rest[i] == list[i + 1] && After(rest, i) == After(list, i + 1);
    }
  }

  lemma ChainKept(words: map<nat, Word>, head: nat, list: seq<nat>, a: nat, w: Word)
    requires Chained(words, head, list) && a !in list
    ensures Chained(words[a := w], head, list)
  {}

  /** Every block is live, set aside, or on the list of its exponent, once. */
  ghost predicate Filed(lists: seq<seq<nat>>, blocks: Blocks, live: set<nat>, out: set<nat>) {
    && |lists| == BUDDY_LISTS && live <= blocks.Keys && out <= blocks.Keys && live !! out
    && (forall i | 0 <= i < BUDDY_LISTS :: Distinct(lists[i]))
    && (forall i, a | 0 <= i < BUDDY_LISTS && a in lists[i] ::
          a in blocks && blocks[a] == i + BUDDY_MIN && a !in live && a !in out)
    && (forall a | a in blocks :: BUDDY_MIN <= blocks[a] <= BUDDY_MAX)
    && (forall a | a in blocks && a !in live && a !in out :: a in lists[blocks[a] - BUDDY_MIN])
  }

  function Pushed(lists: seq<seq<nat>>, i: nat, a: nat): seq<seq<nat>>
    requires i < |lists|
  {
    lists[i := [a] + lists[i]]
  }

  function Popped(lists: seq<seq<nat>>, i: nat): seq<seq<nat>>
    requires i < |lists| && lists[i] != []
  {
    lists[i := lists[i][1..]]
  }

  lemma FilePop(lists: seq<seq<nat>>, blocks: Blocks, live: set<nat>, i: nat)
    requires Filed(lists, blocks, live, {}) && i < BUDDY_LISTS && lists[i] != []
    ensures Filed(Popped(lists, i), blocks, live, {lists[i][0]})
  {
    var a, lists' := lists[i][0], Popped(lists, i);
    assert lists[i] == [a] + lists'[i];
    assert a in lists[i];
    forall b | b in blocks && b !in live && b != a ensures b in lists'[blocks[b] - BUDDY_MIN] {
      var j := blocks[b] - BUDDY_MIN;
      assert b in lists[j] && (j == i ==> b in [a] + lists'[i]);
    }
    HeadOnce(lists[i]);
    forall j, b | 0 <= j < BUDDY_LISTS && b in lists'[j] ensures b in lists[j] && b != a {
      if j != i { assert blocks[b] != blocks[a]; }
    }
  }

  lemma HeadOnce(list: seq<nat>)
    requires Distinct(list) && list != []
    ensures list[0] !in list[1..] && Distinct(list[1..])
  {}

  lemma DistinctPush(list: seq<nat>, a: nat)
    requires Distinct(list) && a !in list
    ensures Distinct([a] + list)
  {}

  lemma FileSplit(lists: seq<seq<nat>>, blocks: Blocks, live: set<nat>, a: nat, e: nat)
    requires Filed(lists, blocks, live, {a}) && a in blocks && blocks[a] == e + 1
    requires e >= BUDDY_MIN && a + Pow2(e) !in blocks
    ensures Filed(Pushed(lists, e - BUDDY_MIN, a + Pow2(e)), Split(blocks, a, e), live, {a})
  {
    HalfFiled(lists, blocks, live, a, e, a + Pow2(e));
  }

  lemma HalfFiled(lists: seq<seq<nat>>, blocks: Blocks, live: set<nat>, a: nat, e: nat, h: nat)
    requires Filed(lists, blocks, live, {a}) && a in blocks && blocks[a] == e + 1
    requires e >= BUDDY_MIN && h !in blocks
    ensures Filed(Pushed(lists, e - BUDDY_MIN, h), blocks[a := e][h := e], live, {a})
  {
    hide Distinct;
    var i := e - BUDDY_MIN;
    var lists', blocks' := Pushed(lists, i, h), blocks[a := e][h := e];
    assert h !in lists[i];
    DistinctPush(lists[i], h);
    forall b | b in blocks' && b !in live && b != a ensures b in lists'[blocks'[b] - BUDDY_MIN] {
      assert b == h || b in lists[blocks[b] - BUDDY_MIN];
    }
    forall j, b | 0 <= j < BUDDY_LISTS && b in lists'[j] ensures (b == h && j == i) || b in lists[j] {
    }
  }

  lemma FileRegion(lists: seq<seq<nat>>, blocks: Blocks, live: set<nat>, r: nat, e: nat)
    requires Filed(lists, blocks, live, {}) && r !in blocks && BUDDY_MIN <= e <= BUDDY_MAX
    ensures Filed(lists, blocks[r := e], live, {r})
  {
    hide Distinct;
  }

  lemma FileUse(lists: seq<seq<nat>>, blocks: Blocks, live: set<nat>, a: nat)
    requires Filed(lists, blocks, live, {a})
    ensures Filed(lists, blocks, live + {a}, {})
  {
    hide Distinct;
  }

  lemma FilePut(lists: seq<seq<nat>>, blocks: Blocks, live: set<nat>, a: nat)
    requires Filed(lists, blocks, live, {}) && a in live
    ensures Filed(Pushed(lists, blocks[a] - BUDDY_MIN, a), blocks, live - {a}, {})
  {
    hide Distinct;
    var i := blocks[a] - BUDDY_MIN;
    var lists' := Pushed(lists, i, a);
    assert a !in lists[i];
    DistinctPush(lists[i], a);
    forall b | b in blocks && b !in live - {a} ensures b in lists'[blocks[b] - BUDDY_MIN] {
      assert b == a || b in lists[blocks[b] - BUDDY_MIN];
    }
    forall j, b | 0 <= j < BUDDY_LISTS && b in lists'[j] ensures (b == a && j == i) || b in lists[j] {
    }
  }

  /** The smallest exponent from `exp` on that has a free block, or BUDDY_MAX. */
  function Best(lists: seq<seq<nat>>, exp: nat): (j: nat)
    requires |lists| == BUDDY_LISTS && BUDDY_MIN <= exp <= BUDDY_MAX
    ensures exp <= j <= BUDDY_MAX
    ensures forall i | exp - BUDDY_MIN <= i < j - BUDDY_MIN :: lists[i] == []
    ensures j < BUDDY_MAX ==> lists[j - BUDDY_MIN] != []
    decreases BUDDY_MAX - exp
  {
    if exp == BUDDY_MAX || lists[exp - BUDDY_MIN] != [] then exp else Best(lists, exp + 1)
  }

  /** The upper halves that splitting the block at `a` from exponent `j` down to `exp` leaves. */
  function Halved(lists: seq<seq<nat>>, a: nat, exp: nat, j: nat): seq<seq<nat>> {
    seq(|lists|, i requires 0 <= i < |lists| => HalvedList(lists[i], a, exp, j, i + BUDDY_MIN))
  }

  function HalvedList(list: seq<nat>, a: nat, exp: nat, j: nat, e: nat): seq<nat> {
    if exp <= e < j then [a + Pow2(e)] + list else list
  }

  lemma HalvedStep(lists: seq<seq<nat>>, a: nat, exp: nat, j: nat)
    requires |lists| == BUDDY_LISTS && BUDDY_MIN <= exp < j <= BUDDY_MAX
    ensures Halved(lists, a, exp, j) == Pushed(Halved(lists, a, exp + 1, j), exp - BUDDY_MIN, a + Pow2(exp))
    ensures Halved(lists, a, exp + 1, j)[exp - BUDDY_MIN] == lists[exp - BUDDY_MIN]
  {
    hide Pow2;
    var all, fewer := Halved(lists, a, exp, j), Halved(lists, a, exp + 1, j);
    forall i | 0 <= i < BUDDY_LISTS ensures all[i] == Pushed(fewer, exp - BUDDY_MIN, a + Pow2(exp))[i] {
    }
  }

  lemma HalvedNone(lists: seq<seq<nat>>, a: nat, exp: nat, j: nat)
    requires j <= exp
    ensures Halved(lists, a, exp, j) == lists
  {}

  // What the operations do to free lists, blocks, regions and live blocks.

  /** `offers` is what `palloc` will answer. */
  datatype State = State(lists: seq<seq<nat>>, blocks: Blocks, regions: Blocks, offers: seq<nat>, live: map<nat, nat>)

  /** The next answer of `palloc` is not a region of 2^e bytes. */
  predicate OfferFails(s: State, e: nat) { s.offers == [] || s.offers[0] == 0 || !Unused(s.regions, s.offers[0], e) }

  /** `palloc(1 << e, 0)`. */
  function NewRegion(s: State, e: nat): (State, nat) {
    var s' := s.(offers := if s.offers == [] then [] else s.offers[1..]);
    if OfferFails(s, e) then (s', 0)
    else (s'.(regions := s.regions[s.offers[0] := e], blocks := s.blocks[s.offers[0] := e]), s.offers[0])
  }

  /** The block at `a` is halved and its second half put on the list of `e`. */
  function PutBack(s: State, a: nat, e: nat): State
    requires |s.lists| == BUDDY_LISTS && BUDDY_MIN <= e <= BUDDY_MAX
  {
    s.(lists := Pushed(s.lists, e - BUDDY_MIN, a + Pow2(e)), blocks := Split(s.blocks, a, e))
  }

  /** The block at `a` is halved from exponent `j` down to `exp`. */
  function Cut(s: State, a: nat, exp: nat, j: nat): (s': State)
    requires |s.lists| == BUDDY_LISTS && BUDDY_MIN <= exp <= j <= BUDDY_MAX
    ensures |s'.lists| == BUDDY_LISTS
    decreases j - exp
  {
    if exp == j then s else PutBack(Cut(s, a, exp + 1, j), a, exp)
  }

  /** `buddy_get`: the first of the smallest free blocks that are large enough, cut down to size.
      Only if there is none `palloc` is asked, once, for the size asked for but no less than
      2^BUDDY_ALLOC. */
  function Take(s: State, exp: nat): (State, nat)
    requires |s.lists| == BUDDY_LISTS && BUDDY_MIN <= exp < BUDDY_MAX
  {
    var j := Best(s.lists, exp);
    if j < BUDDY_MAX then
      var a := s.lists[j - BUDDY_MIN][0];
      (Cut(s.(lists := Popped(s.lists, j - BUDDY_MIN)), a, exp, j), a)
    else
      var (s', a) := NewRegion(s, Max(exp, BUDDY_ALLOC));
      if a == 0 then (s', 0) else (Cut(s', a, exp, Max(exp, BUDDY_ALLOC)), a)
  }

  predicate CanGiveBack(s: State, a: nat) {
    |s.lists| == BUDDY_LISTS && a in s.blocks && BUDDY_MIN <= s.blocks[a] <= BUDDY_MAX
  }

  /** `buddy_put`. */
  function GiveBack(s: State, a: nat): State
    requires CanGiveBack(s, a)
  {
    s.(lists := Pushed(s.lists, s.blocks[a] - BUDDY_MIN, a), live := s.live - {a})
  }

  /** Nothing large enough is free and `palloc` fails. */
  predicate OutOfMemory(s: State, exp: nat)
    requires |s.lists| == BUDDY_LISTS && BUDDY_MIN <= exp < BUDDY_MAX
  {
    Best(s.lists, exp) == BUDDY_MAX && OfferFails(s, Max(exp, BUDDY_ALLOC))
  }

  /** What cutting leaves: one upper half on each list from `exp` up to below `j`. */
  lemma {:induction false} CutLists(s: State, a: nat, exp: nat, j: nat)
    requires |s.lists| == BUDDY_LISTS && BUDDY_MIN <= exp <= j <= BUDDY_MAX
    ensures Cut(s, a, exp, j).lists == Halved(s.lists, a, exp, j)
    decreases j - exp
  {
    hide Halved, Pow2;
    if exp == j {
      HalvedNone(s.lists, a, exp, j);
    } else {
      CutLists(s, a, exp + 1, j);
      HalvedStep(s.lists, a, exp, j);
    }
  }

  /** Taking the head of the list itself. */
  lemma TakeFirst(s: State, exp: nat)
    requires |s.lists| == BUDDY_LISTS && BUDDY_MIN <= exp < BUDDY_MAX && s.lists[exp - BUDDY_MIN] != []
    ensures var i := exp - BUDDY_MIN; Take(s, exp) == (s.(lists := Popped(s.lists, i)), s.lists[i][0])
  {}

  /** Taking a new region. */
  lemma TakeRegion(s: State, exp: nat)
    requires |s.lists| == BUDDY_LISTS && BUDDY_ALLOC <= exp < BUDDY_MAX && Best(s.lists, exp) == BUDDY_MAX
    ensures Take(s, exp) == NewRegion(s, exp) && (OutOfMemory(s, exp) <==> OfferFails(s, exp))
  {
    hide Unused;
  }

  /** Memory is out for a list exactly if it is for the next one, unless the list decides. */
  lemma OutOfMemoryStep(s: State, exp: nat)
    requires |s.lists| == BUDDY_LISTS && BUDDY_MIN <= exp < BUDDY_MAX
    ensures s.lists[exp - BUDDY_MIN] != [] ==> !OutOfMemory(s, exp) && Best(s.lists, exp) == exp
    ensures s.lists[exp - BUDDY_MIN] == [] ==> Best(s.lists, exp) == Best(s.lists, exp + 1)
    ensures s.lists[exp - BUDDY_MIN] == [] && exp + 1 < BUDDY_MAX
              && (exp < BUDDY_ALLOC || Best(s.lists, exp) < BUDDY_MAX) ==>
      (OutOfMemory(s, exp) <==> OutOfMemory(s, exp + 1))
    ensures OutOfMemory(s, exp) ==> Best(s.lists, exp) == BUDDY_MAX
  {
    hide Unused;
  }

  lemma HalfThere(blocks: Blocks, a: nat, e: nat)
    ensures a in Split(blocks, a, e) && Split(blocks, a, e)[a] == e
  {}

  lemma RegionRest(blocks: Blocks, a: nat, e: nat)
    ensures forall b | b in blocks && b != a :: b in blocks[a := e] && blocks[a := e][b] == blocks[b]
  {}

  /** Taking a block from the next list and halving it. */
  lemma TakeStep(s: State, exp: nat)
    requires |s.lists| == BUDDY_LISTS && BUDDY_MIN <= exp < BUDDY_MAX - 1 && s.lists[exp - BUDDY_MIN] == []
    requires exp < BUDDY_ALLOC || Best(s.lists, exp) < BUDDY_MAX
    requires Take(s, exp + 1).1 == 0 ==> OutOfMemory(s, exp + 1)
    ensures |Take(s, exp + 1).0.lists| == BUDDY_LISTS
    ensures var (s', a) := Take(s, exp + 1); Take(s, exp) == if a == 0 then (s', 0) else (PutBack(s', a, exp), a)
  {
    hide Unused, Pow2, PutBack;
    assert Best(s.lists, exp) == Best(s.lists, exp + 1);
  }

  ghost predicate AllChained(words: map<nat, Word>, heads: seq<nat>, lists: seq<seq<nat>>) {
    |heads| == |lists| && forall i | 0 <= i < |lists| :: Chained(words, heads[i], lists[i])
  }

  /** No free block is at `a`. */
  ghost predicate OffLists(lists: seq<seq<nat>>, a: nat) { forall i | 0 <= i < |lists| :: a !in lists[i] }

  lemma PushChained(words: map<nat, Word>, heads: seq<nat>, lists: seq<seq<nat>>, i: nat, a: nat)
    requires AllChained(words, heads, lists) && i < |lists| && a != 0 && OffLists(lists, a)
    ensures AllChained(words[a := Next(heads[i])], heads[i := a], Pushed(lists, i, a))
  {
    hide Chained;
    ChainPush(words, heads[i], lists[i], a);
    forall j | 0 <= j < |lists| ensures Chained(words[a := Next(heads[i])], heads[j], lists[j]) {
      ChainKept(words, heads[j], lists[j], a, Next(heads[i]));
    }
  }

  lemma PopChained(words: map<nat, Word>, heads: seq<nat>, lists: seq<seq<nat>>, i: nat)
    requires AllChained(words, heads, lists) && i < |lists| && lists[i] != []
    ensures heads[i] == lists[i][0] != 0 && heads[i] in words && words[heads[i]].Next?
    ensures AllChained(words, heads[i := words[heads[i]].addr], Popped(lists, i))
  {
    ChainPop(words, heads[i], lists[i]);
  }

  lemma WriteChained(words: map<nat, Word>, heads: seq<nat>, lists: seq<seq<nat>>, a: nat, w: Word)
    requires AllChained(words, heads, lists) && OffLists(lists, a)
    ensures AllChained(words[a := w], heads, lists)
  {
    hide Chained;
    forall j | 0 <= j < |lists| ensures Chained(words[a := w], heads[j], lists[j]) {
      ChainKept(words, heads[j], lists[j], a, w);
    }
  }

  lemma HeadOf(words: map<nat, Word>, heads: seq<nat>, lists: seq<seq<nat>>, i: nat)
    requires AllChained(words, heads, lists) && i < |lists|
    ensures heads[i] == 0 <==> lists[i] == []
  {}

  /** Live blocks carry their prefix and hold what was asked for. */
  ghost predicate Tagged(words: map<nat, Word>, blocks: Blocks, live: map<nat, nat>, prefix: nat) {
    forall a | a in live ::
      a in blocks && a in words && words[a] == Prefix(blocks[a], BUDDY_MAGIC) && prefix + live[a] <= Pow2(blocks[a])
  }

  lemma TaggedWrite(words: map<nat, Word>, blocks: Blocks, live: map<nat, nat>, prefix: nat, a: nat, w: Word)
    requires Tagged(words, blocks, live, prefix) && a !in live
    ensures Tagged(words[a := w], blocks, live, prefix)
  {}

  class Heap {
    const prefix: nat
    var heads: seq<nat>
    var words: map<nat, Word>
    var regions: Blocks
    /** What `palloc` will answer. */
    var offers: seq<nat>
    ghost var lists: seq<seq<nat>>
    ghost var blocks: Blocks
    ghost var live: map<nat, nat>

    ghost predicate ValidBut(out: set<nat>)
      reads this
    {
      && |heads| == |lists| == BUDDY_LISTS
      && Filed(lists, blocks, live.Keys, out) && AllChained(words, heads, lists)
      && Partition(blocks, regions) && Tagged(words, blocks, live, prefix)
    }

    ghost predicate Valid()
      reads this
    {
      ValidBut({})
    }

    ghost function View(): State
      reads this
    {
      State(lists, blocks, regions, offers, live)
    }

    constructor (prefix: nat, offers: seq<nat>)
      ensures Valid() && live == map[] && regions == map[] && this.prefix == prefix && this.offers == offers
    {
      this.prefix, this.offers := prefix, offers;
      heads := seq(BUDDY_LISTS, i => 0);
      words, regions := map[], map[];
      lists := seq(BUDDY_LISTS, i => []);
      blocks, live := map[], map[];
    }

    /** `buddy_large_avail`. */
    method LargeAvail(exp: nat) returns (avail: bool)
      requires Valid() && BUDDY_MIN <= exp <= BUDDY_MAX
      ensures avail <==> Best(lists, exp) < BUDDY_MAX
    {
      hide Filed, AllChained, Partition, Tagged;
      var e := exp;
      HeadOf(words, heads, lists, e - BUDDY_MIN);
      while e < BUDDY_MAX && heads[e - BUDDY_MIN] == 0
        invariant exp <= e <= BUDDY_MAX && Best(lists, exp) == Best(lists, e)
        invariant heads[e - BUDDY_MIN] == 0 <==> lists[e - BUDDY_MIN] == []
      {
        e := e + 1;
        HeadOf(words, heads, lists, e - BUDDY_MIN);
      }
      avail := e != BUDDY_MAX;
    }

    /** `palloc(1 << e, 0)`: the next answer if it is a region that overlaps none, or failure. */
    method Palloc(e: nat) returns (r: nat)
      requires Valid() && BUDDY_MIN <= e <= BUDDY_MAX
      modifies this`offers, this`regions, this`blocks
      ensures if r == 0 then Valid() && blocks == old(blocks)
              else ValidBut({r}) && r !in old(blocks) && blocks == old(blocks)[r := e]
      ensures r == 0 <==> OfferFails(old(View()), e)
      ensures (View(), r) == NewRegion(old(View()), e)
    {
      hide Filed, AllChained, Partition, Tagged, Unused;
      r := 0;
      if offers != [] {
        r := offers[0];
        offers := offers[1..];
        if r != 0 && Unused(regions, r, e) {
          RegionKeeps(blocks, regions, r, e);
          FileRegion(lists, blocks, live.Keys, r, e);
          TaggedMore(words, blocks, live, prefix, r, e);
          blocks, regions := blocks[r := e], regions[r := e];
        } else {
          r := 0;
        }
      }
    }

    /** Takes the head off the list of `e`. */
    method Pop(e: nat) returns (a: nat)
      requires Valid() && BUDDY_MIN <= e <= BUDDY_MAX && lists[e - BUDDY_MIN] != []
      modifies this`heads, this`lists
      ensures ValidBut({a}) && a == old(lists)[e - BUDDY_MIN][0] != 0
      ensures lists == Popped(old(lists), e - BUDDY_MIN)
    {
      hide Filed, AllChained, Partition, Tagged;
      var i := e - BUDDY_MIN;
      PopChained(words, heads, lists, i);
      FilePop(lists, blocks, live.Keys, i);
      a := heads[i];
      heads := heads[i := words[a].addr];
      lists := Popped(lists, i);
    }

    /** Splits the block at `a` and puts its second half on the list of `e`. */
    method PutHalf(a: nat, e: nat)
      requires ValidBut({a}) && BUDDY_MIN <= e < BUDDY_MAX && a in blocks && blocks[a] == e + 1
      modifies this`heads, this`words, this`lists, this`blocks
      ensures ValidBut({a}) && blocks == Split(old(blocks), a, e)
      ensures lists == Pushed(old(lists), e - BUDDY_MIN, a + Pow2(e))
    {
      hide Filed, AllChained, Partition, Tagged;
      var h, i := a + Pow2(e), e - BUDDY_MIN;
      SplitKeeps(blocks, regions, a, e);
      FileSplit(lists, blocks, live.Keys, a, e);
      FreshOff(lists, blocks, live, a, h);
      PushChained(words, heads, lists, i, h);
      TaggedWrite(words, blocks, live, prefix, h, Next(heads[i]));
      TaggedSplit(words[h := Next(heads[i])], blocks, live, prefix, a, e);
      words := words[h := Next(heads[i])];
      heads := heads[i := h];
      blocks, lists := Split(blocks, a, e), Pushed(lists, i, h);
    }

    /** `buddy_get`. */
    method BuddyGet(exp: nat) returns (a: nat)
      requires Valid() && BUDDY_MIN <= exp < BUDDY_MAX && (exp < BUDDY_MAX - 1 || Best(lists, exp) < BUDDY_MAX)
      modifies this`heads, this`words, this`regions, this`offers, this`lists, this`blocks
      ensures if a == 0 then Valid() else ValidBut({a}) && a in blocks && blocks[a] == exp
      ensures a == 0 <==> OutOfMemory(old(View()), exp)
      ensures (View(), a) == Take(old(View()), exp)
      ensures forall b | b in old(blocks) && b != a :: b in blocks && blocks[b] == old(blocks)[b]
      decreases BUDDY_MAX - exp
    {
      hide Filed, AllChained, Partition, Tagged, OutOfMemory, Take, NewRegion, Split, Pow2, Best, OfferFails;
      HeadOf(words, heads, lists, exp - BUDDY_MIN);
      OutOfMemoryStep(View(), exp);
      if heads[exp - BUDDY_MIN] != 0 {
        OnList(lists, blocks, live.Keys, exp - BUDDY_MIN);
        a := Pop(exp);
        TakeFirst(old(View()), exp);
        return;
      }
      if exp >= BUDDY_ALLOC {
        var avail := LargeAvail(exp);
        if !avail {
          a := Palloc(exp);
          TakeRegion(old(View()), exp);
          RegionRest(old(blocks), a, exp);
          return;
        }
      }
      a := BuddyGet(exp + 1);
      TakeStep(old(View()), exp);
      if a != 0 {
        SplitRest(blocks, regions, a, exp);
        HalfThere(blocks, a, exp);
        PutHalf(a, exp);
      }
    }

    /** `buddy_put`. */
    method BuddyPut(a: nat)
      requires Valid() && a in live
      modifies this`heads, this`words, this`lists, this`live
      ensures Valid() && old(CanGiveBack(View(), a)) && View() == GiveBack(old(View()), a)
    {
      hide Filed, AllChained, Partition, Tagged;
      LiveBlock(lists, words, blocks, regions, live, prefix, a);
      var i := words[a].exponent - BUDDY_MIN;
      FilePut(lists, blocks, live.Keys, a);
      PushChained(words, heads, lists, i, a);
      TaggedLess(words, blocks, live, prefix, a);
      TaggedWrite(words, blocks, live - {a}, prefix, a, Next(heads[i]));
      words := words[a := Next(heads[i])];
      heads := heads[i := a];
      lists, live := Pushed(lists, i, a), live - {a};
      assert live.Keys == old(live).Keys - {a};
    }

    /** `kmalloc`, for sizes for which the shifts in the code are defined. */
    method Kmalloc(sz: nat) returns (addr: nat)
      requires Valid() && prefix + sz <= Pow2(30)
      modifies this`heads, this`words, this`regions, this`offers, this`lists, this`blocks, this`live
      ensures Valid()
      ensures |old(lists)| == BUDDY_LISTS && Exponent(prefix + sz).Some?
      ensures (View(), addr) == Malloc(old(View()), prefix, sz)
      ensures addr == 0 <==> sz == 0 || NoMemory(old(View()), prefix, sz)
      ensures addr == 0 ==> live == old(live)
      ensures addr != 0 ==> addr > prefix && addr - prefix !in old(live) && live == old(live)[addr - prefix := sz]
      ensures addr != 0 ==> Sufficient(blocks[addr - prefix], prefix + sz)
      ensures forall b | b in old(live) :: b in blocks && blocks[b] == old(blocks)[b]
    {
      hide Filed, AllChained, Partition, Tagged, Take, Sufficient, Pow2, Pow, Exponent, OutOfMemory;
      LiveBlocks(lists, blocks, regions, live);
      ExponentDefined(prefix + sz);
      addr := 0;
      if sz == 0 { return; }
      var exp := BuddyExp(prefix + sz);
      if exp.value == 0 { return; }
      var a := BuddyGet(exp.value);
      if a == 0 { return; }
      SetPrefix(a, exp.value, sz);
      addr := a + prefix;
    }

    method SetPrefix(a: nat, exp: nat, sz: nat)
      requires ValidBut({a}) && a in blocks && blocks[a] == exp && Sufficient(exp, prefix + sz)
      modifies this`words, this`live
      ensures Valid() && a !in old(live) && live == old(live)[a := sz]
    {
      hide Filed, AllChained, Partition, Tagged, Sufficient;
      OutBlock(lists, blocks, regions, live, a);
      FileUse(lists, blocks, live.Keys, a);
      WriteChained(words, heads, lists, a, Prefix(exp, BUDDY_MAGIC));
      TaggedNew(words, blocks, live, prefix, a, sz);
      words := words[a := Prefix(exp, BUDDY_MAGIC)];
      live := live[a := sz];
      assert live.Keys == old(live).Keys + {a};
    }

    /** `kfree`, of nothing or of what `kmalloc` gave. */
    method Kfree(addr: nat)
      requires Valid() && (addr == 0 || (addr > prefix && addr - prefix in live))
      modifies this`heads, this`words, this`lists, this`live
      ensures Valid() && live == if addr == 0 then old(live) else old(live) - {addr - prefix}
      ensures View() == Freed(old(View()), prefix, addr) && (addr > 0 ==> CanGiveBack(old(View()), addr - prefix))
    {
      hide Filed, AllChained, Partition, Tagged;
      if addr == 0 { return; }
      var a := addr - prefix;
      LiveBlock(lists, words, blocks, regions, live, prefix, a);
      if words[a].magic != BUDDY_MAGIC { return; }
      BuddyPut(a);
    }
  }

  lemma OnList(lists: seq<seq<nat>>, blocks: Blocks, live: set<nat>, i: nat)
    requires Filed(lists, blocks, live, {}) && i < BUDDY_LISTS && lists[i] != []
    ensures lists[i][0] in blocks && blocks[lists[i][0]] == i + BUDDY_MIN
  {
    assert lists[i][0] in lists[i];
  }

  lemma SplitRest(blocks: Blocks, regions: Blocks, a: nat, e: nat)
    requires Partition(blocks, regions) && a in blocks && blocks[a] == e + 1
    ensures forall b | b in blocks && b != a :: b in Split(blocks, a, e) && Split(blocks, a, e)[b] == blocks[b]
  {
    SplitKeeps(blocks, regions, a, e);
  }

  lemma TaggedMore(words: map<nat, Word>, blocks: Blocks, live: map<nat, nat>, prefix: nat, r: nat, e: nat)
    requires Tagged(words, blocks, live, prefix) && r !in blocks
    ensures Tagged(words, blocks[r := e], live, prefix)
  {
    hide Pow2;
  }

  lemma TaggedSplit(words: map<nat, Word>, blocks: Blocks, live: map<nat, nat>, prefix: nat, a: nat, e: nat)
    requires Tagged(words, blocks, live, prefix) && a !in live && a + Pow2(e) !in blocks
    ensures Tagged(words, Split(blocks, a, e), live, prefix)
  {
    hide Pow2;
  }

  /** An address that starts no block is on no list. */
  lemma FreshOff(lists: seq<seq<nat>>, blocks: Blocks, live: map<nat, nat>, a: nat, h: nat)
    requires Filed(lists, blocks, live.Keys, {a}) && h !in blocks
    ensures OffLists(lists, h) && h !in live && a !in live && OffLists(lists, a)
  {
    hide Distinct;
  }

  lemma TaggedLess(words: map<nat, Word>, blocks: Blocks, live: map<nat, nat>, prefix: nat, a: nat)
    requires Tagged(words, blocks, live, prefix)
    ensures Tagged(words, blocks, live - {a}, prefix)
  {}

  lemma TaggedNew(words: map<nat, Word>, blocks: Blocks, live: map<nat, nat>, prefix: nat, a: nat, sz: nat)
    requires Tagged(words, blocks, live, prefix) && a in blocks && a !in live && Sufficient(blocks[a], prefix + sz)
    ensures Tagged(words[a := Prefix(blocks[a], BUDDY_MAGIC)], blocks, live[a := sz], prefix)
  {
    hide Pow2;
  }

  lemma LiveBlock(lists: seq<seq<nat>>, words: map<nat, Word>, blocks: Blocks, regions: Blocks, live: map<nat, nat>,
                  prefix: nat, a: nat)
    requires Filed(lists, blocks, live.Keys, {}) && Tagged(words, blocks, live, prefix) && Partition(blocks, regions)
    requires a in live
    ensures a != 0 && a in blocks && a in words && words[a] == Prefix(blocks[a], BUDDY_MAGIC)
    ensures BUDDY_MIN <= blocks[a] <= BUDDY_MAX && OffLists(lists, a)
  {
    hide Distinct, Pow2, Total;
  }

  lemma LiveBlocks(lists: seq<seq<nat>>, blocks: Blocks, regions: Blocks, live: map<nat, nat>)
    requires Filed(lists, blocks, live.Keys, {}) && Partition(blocks, regions)
    ensures forall b | b in live :: b in blocks && b != 0
  {
    hide Distinct, Total, Apart;
  }

  lemma OutBlock(lists: seq<seq<nat>>, blocks: Blocks, regions: Blocks, live: map<nat, nat>, a: nat)
    requires Filed(lists, blocks, live.Keys, {a})
    ensures a !in live && OffLists(lists, a)
  {
    hide Distinct;
  }

  /** What callers hold does not overlap. */
  lemma LiveApart(h: Heap, a: nat, b: nat)
    requires h.Valid() && a in h.live && b in h.live && a < b
    ensures a + h.prefix + h.live[a] <= b
  {
    hide Pow2, Total, Chained, Distinct;
  }

  /** The smallest exponent, from BUDDY_MIN on, whose blocks hold `sz` bytes. */
  predicate Sufficient(exp: nat, sz: nat) {
    BUDDY_MIN <= exp && sz <= Pow2(exp) && (exp == BUDDY_MIN || Pow2(exp - 1) < sz)
  }

  /** `1 << e` on 32-bit ints; beyond bit 30 it is not defined (section 6.5.7 of ISO C99). */
  function ShiftOne(e: nat): Option<nat> { if e <= 30 then Some(Pow2(e)) else None }

  /** The first exponent from `e` on whose power reaches `sz`, if all the shifts up to it are defined. */
  function Reaching(sz: nat, e: nat): Option<nat>
    decreases 31 - e
  {
    match ShiftOne(e)
    case None => None
    case Some(p) => if sz > p then Reaching(sz, e + 1) else Some(e)
  }

  /** The exponent of the blocks for `sz` bytes. */
  function Exponent(sz: nat): Option<nat> {
    match Reaching(sz, 0)
    case None => None
    case Some(e) => Some(if e > BUDDY_MAX || e < BUDDY_MIN then BUDDY_MIN else e)
  }

  lemma {:induction false} ReachingDefined(sz: nat, e: nat)
    requires e <= 31
    ensures Reaching(sz, e).Some? <==> sz <= Pow2(30) && e <= 30
    ensures var r := Reaching(sz, e);
      r.Some? ==> e <= r.value <= 30 && sz <= Pow2(r.value) && (r.value == e || Pow2(r.value - 1) < sz)
    decreases 31 - e
  {
    if e <= 30 {
      PowMonotone(2, e, 30);
      hide Pow2;
      ReachingDefined(sz, e + 1);
      assert e == 30 ==> Reaching(sz, 31) == None;
    }
  }

  /** The exponent is defined exactly for sizes up to 2^30, and then it is the smallest sufficient one. */
  lemma ExponentDefined(sz: nat)
    ensures Exponent(sz).Some? <==> sz <= Pow2(30)
    ensures Exponent(sz).Some? ==> BUDDY_MIN <= Exponent(sz).value <= 30 && Sufficient(Exponent(sz).value, sz)
  {
    ReachingDefined(sz, 0);
    hide Reaching;
    if Reaching(sz, 0).Some? && Reaching(sz, 0).value < BUDDY_MIN {
      PowMonotone(2, Reaching(sz, 0).value, BUDDY_MIN);
    }
  }

  /** One byte more than that needs the shift into the sign bit. */
  lemma TooLarge()
    ensures Exponent(Pow2(30) + 1) == None
  {
    hide Pow2;
    ExponentDefined(Pow2(30) + 1);
  }

  /** `buddy_exp`, with no result where a shift is not defined. */
  method BuddyExp(sz: nat) returns (r: Option<nat>)
    ensures r == Exponent(sz)
  {
    hide Pow2;
    var exp := 0;
    while true
      invariant exp <= 31 && Reaching(sz, 0) == Reaching(sz, exp)
      decreases 31 - exp
    {
      var p := ShiftOne(exp);
      if p.None? { return None; }
      if sz <= p.value { break; }
      exp := exp + 1;
    }
    if exp > BUDDY_MAX { exp := 0; }
    if exp < BUDDY_MIN { exp := BUDDY_MIN; }
    r := Some(exp);
  }

  // Runs.

  /** What a client may ask for: memory, or to give back the k-th piece that it holds. */
  datatype Request = Get(sz: nat) | Give(k: nat)

  /** `kmalloc`. */
  function Malloc(s: State, prefix: nat, sz: nat): (State, nat)
    requires |s.lists| == BUDDY_LISTS && Exponent(prefix + sz).Some?
  {
    if sz == 0 then (s, 0)
    else
      ExponentDefined(prefix + sz);
      var (s', a) := Take(s, Exponent(prefix + sz).value);
      if a == 0 then (s', 0) else (s'.(live := s'.live[a := sz]), a + prefix)
  }

  /** `kfree`. */
  function Freed(s: State, prefix: nat, addr: nat): State {
    if addr > prefix && CanGiveBack(s, addr - prefix) then GiveBack(s, addr - prefix) else s
  }

  /** `kmalloc` has nothing to give. */
  predicate NoMemory(s: State, prefix: nat, sz: nat) {
    var e := Exponent(prefix + sz);
    |s.lists| == BUDDY_LISTS && e.Some? && BUDDY_MIN <= e.value < BUDDY_MAX && OutOfMemory(s, e.value)
  }

  /** The pieces held are live, and no piece is held twice. */
  ghost predicate Held(live: map<nat, nat>, prefix: nat, held: seq<nat>) {
    && (forall i | 0 <= i < |held| :: held[i] > prefix && held[i] - prefix in live)
    && (forall i, j | 0 <= i < j < |held| :: held[i] != held[j])
  }

  lemma HeldMore(live: map<nat, nat>, prefix: nat, held: seq<nat>, addr: nat, sz: nat)
    requires Held(live, prefix, held) && addr > prefix && addr - prefix !in live
    ensures Held(live[addr - prefix := sz], prefix, held + [addr])
  {}

  lemma HeldLess(live: map<nat, nat>, prefix: nat, held: seq<nat>, k: nat)
    requires Held(live, prefix, held) && k < |held|
    ensures Held(live - {held[k] - prefix}, prefix, held[..k] + held[k + 1..])
  {
    var rest := held[..k] + held[k + 1..];
    forall i | 0 <= i < |rest| ensures rest[i] > prefix && rest[i] - prefix in live && rest[i] != held[k] {
      assert rest[i] == held[if i < k then i else i + 1];
    }
  }

  /** What one request does to the heap and to what is held. */
  function Serve(s: State, held: seq<nat>, prefix: nat, r: Request): (State, seq<nat>) {
    match r
    case Get(sz) =>
      if |s.lists| != BUDDY_LISTS || Exponent(prefix + sz).None? then (s, held)
      else
        var (s', a) := Malloc(s, prefix, sz);
        (s', if a == 0 then held else held + [a])
    case Give(k) =>
      if k >= |held| then (s, held) else (Freed(s, prefix, held[k]), held[..k] + held[k + 1..])
  }

  /** What the first `i` requests do. */
  function ServeAll(s: State, prefix: nat, requests: seq<Request>, i: nat): (State, seq<nat>)
    requires i <= |requests|
  {
    if i == 0 then (s, [])
    else
      var (s', held) := ServeAll(s, prefix, requests, i - 1);
      Serve(s', held, prefix, requests[i - 1])
  }

  /** Every run of `kmalloc` and `kfree` in which only held memory is given back: at its end, and so
      after each of its calls, free and live blocks partition the regions, all that is held is live,
      and both are what the requests call for. */
  method Run(h: Heap, requests: seq<Request>) returns (held: seq<nat>)
    requires h.Valid() && forall i | 0 <= i < |requests| && requests[i].Get? :: h.prefix + requests[i].sz <= Pow2(30)
    modifies h
    ensures (h.View(), held) == ServeAll(old(h.View()), h.prefix, requests, |requests|)
    ensures h.Valid() && Held(h.live, h.prefix, held)
  {
    hide h.ValidBut, Held, Pow2, Malloc, Freed, Exponent, NoMemory;
    held := [];
    NoneHeld(h.live, h.prefix);
    var i := 0;
    while i < |requests|
      invariant 0 <= i <= |requests| && h.Valid() && Held(h.live, h.prefix, held)
      invariant (h.View(), held) == ServeAll(old(h.View()), h.prefix, requests, i)
    {
      match requests[i] {
        case Get(sz) =>
          ghost var live := h.live;
          var addr := h.Kmalloc(sz);
          if addr != 0 {
            HeldMore(live, h.prefix, held, addr, sz);
            held := held + [addr];
          }
        case Give(k) =>
          if k < |held| {
            HeldLess(h.live, h.prefix, held, k);
            HeldOne(h.live, h.prefix, held, k);
            h.Kfree(held[k]);
            held := held[..k] + held[k + 1..];
          }
      }
      i := i + 1;
    }
  }

  lemma NoneHeld(live: map<nat, nat>, prefix: nat)
    ensures Held(live, prefix, [])
  {}

  lemma HeldOne(live: map<nat, nat>, prefix: nat, held: seq<nat>, k: nat)
    requires Held(live, prefix, held) && k < |held|
    ensures held[k] > prefix && held[k] - prefix in live
  {}
}
