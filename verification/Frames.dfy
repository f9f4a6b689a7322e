/** The allocator of page frames (mm/memory.c): a bitmap with one bit per frame, scanned from
    behind the last allocation on. */
module Frames {
  import opened Base
  import opened Arith
  import opened Bits

  /** The bitmap's bytes. */
  ghost predicate Bytes(b: seq<nat>) { forall i | 0 <= i < |b| :: b[i] < 256 }

  /** Frame `f` is in use. */
  predicate Marked(b: seq<nat>, f: nat)
    requires f < 8 * |b|
  {
    Bit(b[f / 8], f % 8)
  }

  ghost predicate ClearRun(b: seq<nat>, f: nat, n: nat)
    requires f + n <= 8 * |b|
  {
    forall i | f <= i < f + n :: !Marked(b, i)
  }

  /** The number of frames below `k` that are in use. */
  ghost function Used(b: seq<nat>, k: nat): nat
    requires k <= 8 * |b|
  {
    if k == 0 then 0 else Used(b, k - 1) + if Marked(b, k - 1) then 1 else 0
  }

  /** The frames in use are the same but for those from `f` to `f + n`, which are all as `mark` says. */
  ghost predicate Changed(b: seq<nat>, b': seq<nat>, f: nat, n: nat, mark: bool) {
    |b'| == |b| && Bytes(b') &&
    forall i: nat | i < 8 * |b| :: Marked(b', i) == if f <= i < f + n then mark else Marked(b, i)
  }

  lemma {:induction false} UsedSame(b: seq<nat>, b': seq<nat>, k: nat)
    requires k <= 8 * |b| == 8 * |b'| && forall i: nat | i < k :: Marked(b', i) == Marked(b, i)
    ensures Used(b', k) == Used(b, k)
  {
    hide Marked;
    if k > 0 { UsedSame(b, b', k - 1); }
  }

  /** Marking one more frame. */
  lemma {:induction false} UsedOneMore(b: seq<nat>, b': seq<nat>, f: nat, k: nat)
    requires f < k <= 8 * |b| && Changed(b, b', f, 1, true) && !Marked(b, f)
    ensures Used(b', k) == Used(b, k) + 1
  {
    hide Marked;
    if k == f + 1 { UsedSame(b, b', f); } else { UsedOneMore(b, b', f, k - 1); }
  }

  lemma {:induction false} UsedOneLess(b: seq<nat>, b': seq<nat>, f: nat, k: nat)
    requires f < k <= 8 * |b| && Changed(b, b', f, 1, false) && Marked(b, f)
    ensures Used(b', k) == Used(b, k) - 1
  {
    hide Marked;
    if k == f + 1 { UsedSame(b, b', f); } else { UsedOneLess(b, b', f, k - 1); }
  }

  /** The byte that `page_set_mark` writes. */
  lemma SetMarks(b: seq<nat>, f: nat)
    requires Bytes(b) && f < 8 * |b|
    ensures Changed(b, b[f / 8 := Or(b[f / 8], Pow2(f % 8))], f, 1, true)
  {
    var x := b[f / 8];
    var b' := b[f / 8 := Or(x, Pow2(f % 8))];
    PowStrict(2, f % 8, 8);
    assert Pow(2, 8) == 256;
    OrSmall(x, Pow2(f % 8), 8);
    hide Bit, Or, Pow2;
    forall i: nat | i < 8 * |b| ensures Marked(b', i) == (i == f || Marked(b, i)) {
      OrBit(x, Pow2(f % 8), i % 8);
      Pow2Bit(f % 8, i % 8);
    }
  }

  /** The byte that `page_clear_mark` writes. */
  lemma ClearMarks(b: seq<nat>, f: nat)
    requires Bytes(b) && f < 8 * |b|
    ensures Pow2(f % 8) < Pow2(32)
    ensures Changed(b, b[f / 8 := And(b[f / 8], Not(32, Pow2(f % 8)))], f, 1, false)
  {
    var x := b[f / 8];
    PowStrict(2, f % 8, 32);
    var b' := b[f / 8 := And(x, Not(32, Pow2(f % 8)))];
    AndSmall(x, Not(32, Pow2(f % 8)));
    hide Bit, And, Pow2, Not;
    forall i: nat | i < 8 * |b| ensures Marked(b', i) == (i != f && Marked(b, i)) {
      AndBit(x, Not(32, Pow2(f % 8)), i % 8);
      NotBit(32, Pow2(f % 8), i % 8);
      Pow2Bit(f % 8, i % 8);
    }
  }

  // The scan.

  /** The place that the scan looks at in turn `off`. */
  function Place(off: nat, start: nat, m: nat): (p: nat)
    requires m > 0
    ensures p < m
  {
    (off + start) % m
  }

  /** Later turns look at later places, with wrap-around. */
  lemma PlaceLater(off: nat, start: nat, m: nat, d: nat)
    requires m > 0 && d <= m
    ensures Place(off + d, start, m) ==
      if Place(off, start, m) + d < m then Place(off, start, m) + d else Place(off, start, m) + d - m
  {
    var x, p := off + start, Place(off, start, m);
    DivModDef(x, m);
    assert p + d < 2 * m;
    if p + d < m {
      DivModUnique(x + d, m, x / m, p + d);
    } else {
      assert (x / m + 1) * m == x / m * m + m;
      if p + d - m < m { DivModUnique(x + d, m, x / m + 1, p + d - m); }
    }
  }

  /** The number of clear frames from `f` on, up to `n`. */
  function Clear(b: seq<nat>, f: nat, n: nat): (cnt: nat)
    requires f + n <= 8 * |b|
    ensures cnt <= n && ClearRun(b, f, cnt) && (cnt < n ==> Marked(b, f + cnt))
    decreases n
  {
    if n == 0 || Marked(b, f) then 0 else 1 + Clear(b, f + 1, n - 1)
  }

  /** What the scan finds from turn `off` on. */
  function Scan(b: seq<nat>, off: nat, start: nat, n: nat): Option<nat>
    requires 0 < n <= 8 * |b| && off > 0
    decreases 8 * |b| - n - off
  {
    var m := 8 * |b| - n;
    if off > m then None
    else
      var p := Place(off, start, m);
      var cnt := Clear(b, p, n);
      if cnt == n then Some(p) else Scan(b, off + cnt + 1, start, n)
  }

  /** What is found is a clear run below the last place. */
  lemma {:induction false} ScanFinds(b: seq<nat>, off: nat, start: nat, n: nat)
    requires 0 < n <= 8 * |b| && off > 0
    ensures var r := Scan(b, off, start, n); r.Some? ==> r.value + n < 8 * |b| && ClearRun(b, r.value, n)
    decreases 8 * |b| - n - off
  {
    hide Marked, Place, ClearRun;
    var m := 8 * |b| - n;
    if off <= m {
      var cnt := Clear(b, Place(off, start, m), n);
      if cnt < n { ScanFinds(b, off + cnt + 1, start, n); }
    }
  }

  /** The place where the jump that wraps around lands: the number of clear frames that end in the
      first marked one from the last place on. */
  function Landing(b: seq<nat>, n: nat): nat
    requires 0 < n < 8 * |b|
  {
    Clear(b, 8 * |b| - n - 1, n + 1)
  }

  /** The places that are still to come when the scan stands at `x`, counted on past the last place
      `m - 1`: those from `x` on and, after the wrap-around, those from the landing place up to
      where the scan began. */
  predicate ToCome(b: seq<nat>, n: nat, first: nat, x: nat, p: nat)
    requires 0 < n < 8 * |b|
  {
    var m := 8 * |b| - n;
    p < m && if x < m then p >= x || Landing(b, n) <= p < first else x - m <= p < first
  }

  /** A clear run starts at a place that is still to come. */
  ghost predicate RunToCome(b: seq<nat>, n: nat, first: nat, x: nat)
    requires 0 < n < 8 * |b|
  {
    exists p: nat :: ToCome(b, n, first, x, p) && ClearRun(b, p, n)
  }

  /** A marked frame within reach excludes a run. */
  lemma NoRun(b: seq<nat>, q: nat, cnt: nat, n: nat, p: nat)
    requires q <= p <= q + cnt && cnt < n && p + n <= 8 * |b| && q + cnt < 8 * |b| && Marked(b, q + cnt)
    ensures !ClearRun(b, p, n)
  {
    hide Marked;
  }

  /** The jump over the last place lands where the first marked frame from there on says. */
  lemma JumpLands(b: seq<nat>, q: nat, cnt: nat, n: nat)
    requires 0 < n < 8 * |b| && q < 8 * |b| - n && cnt == Clear(b, q, n) < n && q + cnt + 1 >= 8 * |b| - n
    ensures Landing(b, n) == q + cnt + 1 - (8 * |b| - n)
  {
    hide Marked;
    var m := 8 * |b| - n;
    assert ClearRun(b, m - 1, q + cnt - (m - 1));
    ClearThenMarked(b, m - 1, n + 1, q + cnt - (m - 1));
  }

  /** One turn without success leaves the same runs to come. */
  lemma TurnKeeps(b: seq<nat>, n: nat, first: nat, x: nat, q: nat, cnt: nat, p: nat)
    requires 0 < n < 8 * |b| && first < 8 * |b| - n && first <= x < first + (8 * |b| - n)
    requires q == (if x < 8 * |b| - n then x else x - (8 * |b| - n)) && cnt == Clear(b, q, n) < n
    requires p + n <= 8 * |b| && ClearRun(b, p, n)
    ensures ToCome(b, n, first, x, p) <==> ToCome(b, n, first, x + cnt + 1, p)
  {
    hide Marked, ClearRun, Landing, Clear;
    var m := 8 * |b| - n;
    if q <= p <= q + cnt {
      NoRun(b, q, cnt, n, p);
      assert false;
    }
    if x < m <= x + cnt + 1 { JumpLands(b, q, cnt, n); }
  }

  /** From turn `off` on the scan finds something exactly if a run is to come. */
  lemma {:induction false} ScanExact(b: seq<nat>, off: nat, start: nat, n: nat)
    requires 0 < n < 8 * |b| && off > 0
    ensures var first := Place(1, start, 8 * |b| - n);
      Scan(b, off, start, n).Some? <==> RunToCome(b, n, first, first + off - 1)
    decreases 8 * |b| - n - off
  {
    hide Marked, Place, ClearRun, Landing;
    var m := 8 * |b| - n;
    var first := Place(1, start, m);
    var x := first + off - 1;
    if off <= m {
      PlaceLater(1, start, m, off - 1);
      var q := Place(off, start, m);
      var cnt := Clear(b, q, n);
      if cnt == n {
        assert ToCome(b, n, first, x, q);
      } else {
        ScanExact(b, off + cnt + 1, start, n);
        SameToCome(b, n, first, x, q, cnt);
      }
    }
  }

  lemma SameToCome(b: seq<nat>, n: nat, first: nat, x: nat, q: nat, cnt: nat)
    requires 0 < n < 8 * |b| && first < 8 * |b| - n && first <= x < first + (8 * |b| - n)
    requires q == (if x < 8 * |b| - n then x else x - (8 * |b| - n)) && cnt == Clear(b, q, n) < n
    ensures RunToCome(b, n, first, x) <==> RunToCome(b, n, first, x + cnt + 1)
  {
    hide Marked, ClearRun, Landing, Clear;
    forall p: nat | p + n <= 8 * |b| && ClearRun(b, p, n)
      ensures ToCome(b, n, first, x, p) <==> ToCome(b, n, first, x + cnt + 1, p)
    {
      TurnKeeps(b, n, first, x, q, cnt, p);
    }
  }

  /** The scan finds a run exactly if one starts at or behind the place where the scan begins, or at
      or behind the place where the jump over the last place lands. */
  lemma ScanComplete(b: seq<nat>, start: nat, n: nat)
    requires 0 < n < 8 * |b|
    ensures Scan(b, 1, start, n).Some? <==> exists p: nat :: Found(b, start, n, p)
  {
    hide Marked, Place, ClearRun, Landing, Scan;
    var first := Place(1, start, 8 * |b| - n);
    ScanExact(b, 1, start, n);
    forall p: nat ensures Found(b, start, n, p) <==> ToCome(b, n, first, first, p) && ClearRun(b, p, n) {
    }
  }

  /** A clear run at place `p` that the scan does not pass over. */
  ghost predicate Found(b: seq<nat>, start: nat, n: nat, p: nat)
    requires 0 < n < 8 * |b|
  {
    var m := 8 * |b| - n;
    p < m && ClearRun(b, p, n) && (p >= Place(1, start, m) || p >= Landing(b, n))
  }

  /** The turn in which the scan would look at place `p`, going round from place `first`. */
  function Turn(p: nat, first: nat, m: nat): int { if p >= first then p - first else p - first + m }

  /** `p` is the first run that is to come. */
  ghost predicate FirstToCome(b: seq<nat>, n: nat, first: nat, x: nat, p: nat)
    requires 0 < n < 8 * |b|
  {
    && ToCome(b, n, first, x, p) && ClearRun(b, p, n)
    && forall p': nat | ToCome(b, n, first, x, p') && ClearRun(b, p', n) ::
         Turn(p, first, 8 * |b| - n) <= Turn(p', first, 8 * |b| - n)
  }

  /** What the scan finds is the first run that is to come. */
  lemma {:induction false} ScanFirst(b: seq<nat>, off: nat, start: nat, n: nat)
    requires 0 < n < 8 * |b| && off > 0 && Scan(b, off, start, n).Some?
    ensures var first := Place(1, start, 8 * |b| - n);
      FirstToCome(b, n, first, first + off - 1, Scan(b, off, start, n).value)
    decreases 8 * |b| - n - off
  {
    hide Marked, Place, ClearRun, Landing;
    var m := 8 * |b| - n;
    var first := Place(1, start, m);
    var x := first + off - 1;
    PlaceLater(1, start, m, off - 1);
    var q := Place(off, start, m);
    var cnt := Clear(b, q, n);
    if cnt < n {
      ScanFirst(b, off + cnt + 1, start, n);
      var p := Scan(b, off, start, n).value;
      hide ToCome, Clear;
      forall p': nat | p' + n <= 8 * |b| && ClearRun(b, p', n)
        ensures ToCome(b, n, first, x, p') <==> ToCome(b, n, first, x + cnt + 1, p')
      {
        TurnKeeps(b, n, first, x, q, cnt, p');
      }
      PlaceBelow(b, n, first, x + cnt + 1, p);
      forall p': nat | ToCome(b, n, first, x, p') && ClearRun(b, p', n)
        ensures Turn(p, first, m) <= Turn(p', first, m)
      {
        PlaceBelow(b, n, first, x, p');
      }
    }
  }

  lemma PlaceBelow(b: seq<nat>, n: nat, first: nat, x: nat, p: nat)
    requires 0 < n < 8 * |b| && ToCome(b, n, first, x, p)
    ensures p + n < 8 * |b|
  {}

  /** Of the runs that the scan does not pass over it finds the first, going round from where it begins. */
  lemma ScanFindsFirst(b: seq<nat>, start: nat, n: nat)
    requires 0 < n < 8 * |b| && Scan(b, 1, start, n).Some?
    ensures var p, first := Scan(b, 1, start, n).value, Place(1, start, 8 * |b| - n);
      && Found(b, start, n, p)
      && forall p': nat | Found(b, start, n, p') :: Turn(p, first, 8 * |b| - n) <= Turn(p', first, 8 * |b| - n)
  {
    hide Marked, Place, ClearRun, Landing, Scan;
    ScanFirst(b, 1, start, n);
  }

  /** So nothing is passed over when the frame before the last place is in use, and nothing from
      place `n - 1` on in any case. */
  lemma NeverPassedOver(b: seq<nat>, start: nat, n: nat, p: nat)
    requires 0 < n < 8 * |b| && p < 8 * |b| - n && ClearRun(b, p, n)
    requires p >= n - 1 || Marked(b, 8 * |b| - n - 1)
    ensures Scan(b, 1, start, n).Some?
  {
    hide Marked, Place, Scan;
    ScanComplete(b, start, n);
    var m := 8 * |b| - n;
    if Landing(b, n) <= p {
      assert Found(b, start, n, p);
    } else {
      // Then at least n clear frames start at the last place.
      assert Landing(b, n) >= n && ClearRun(b, m - 1, n);
      assert Found(b, start, n, m - 1) by { assert m - 1 >= Place(1, start, m); }
    }
  }

  /** One turn of the scan that finds a marked frame after `cnt` clear ones. */
  lemma ScanTurn(b: seq<nat>, off: nat, start: nat, n: nat, cnt: nat)
    requires 0 < n < 8 * |b| && 0 < off <= 8 * |b| - n && cnt < n
    requires Clear(b, Place(off, start, 8 * |b| - n), n) == cnt
    ensures Scan(b, off, start, n) == Scan(b, off + cnt + 1, start, n)
  {
    hide Marked, Place, ClearRun;
  }

  lemma ClearThenMarked(b: seq<nat>, f: nat, n: nat, cnt: nat)
    requires f + n <= 8 * |b| && cnt < n && ClearRun(b, f, cnt) && Marked(b, f + cnt)
    ensures Clear(b, f, n) == cnt
  {
    hide Marked;
  }

  /** A free run that is jumped over: of 16 frames 1, 2, 3, 12 and 13 are clear, three are wanted and
      the scan starts behind frame 11. */
  lemma RunMissed()
    ensures var b := [0xF1, 0xCF]; ClearRun(b, 1, 3) && Scan(b, 1, 11, 3) == None
  {
    MissedMarks();
    hide Marked, Scan, ClearRun;
    PassesOver([0xF1, 0xCF]);
  }

  /** The first turn looks at frame 12 and jumps to frame 2, where it looks at frame 4. */
  lemma PassesOver(b: seq<nat>)
    requires |b| == 2 && ClearRun(b, 12, 2) && Marked(b, 14) && ClearRun(b, 2, 2) && Marked(b, 4)
    requires forall f | 5 <= f <= 11 :: Marked(b, f)
    ensures Scan(b, 1, 11, 3) == None
  {
    hide Marked, Clear, Scan;
    ClearThenMarked(b, 12, 3, 2);
    ScanTurn(b, 1, 11, 3, 2);
    ClearThenMarked(b, 2, 3, 2);
    ScanTurn(b, 4, 11, 3, 2);
    var off := 7;
    while off < 14
      invariant 7 <= off <= 14 && Scan(b, 1, 11, 3) == Scan(b, off, 11, 3)
    {
      assert Place(off, 11, 13) == off - 2;
      ClearThenMarked(b, off - 2, 3, 0);
      ScanTurn(b, off, 11, 3, 0);
      off := off + 1;
    }
    ScanEnds(b, 14, 11, 3);
  }

  lemma ScanEnds(b: seq<nat>, off: nat, start: nat, n: nat)
    requires 0 < n <= 8 * |b| && off > 8 * |b| - n
    ensures Scan(b, off, start, n) == None
  {}

  lemma MissedMarks()
    ensures var b := [0xF1, 0xCF];
      && ClearRun(b, 1, 3) && ClearRun(b, 12, 2) && ClearRun(b, 2, 2) && Marked(b, 4) && Marked(b, 14)
      && forall f | 5 <= f <= 11 :: Marked(b, f)
  {
    var b := [0xF1, 0xCF];
    FirstByte();
    SecondByte();
    hide Bit;
    assert !Marked(b, 1) && !Marked(b, 2) && !Marked(b, 3) && !Marked(b, 12) && !Marked(b, 13);
    assert Marked(b, 5) && Marked(b, 6) && Marked(b, 7);
    assert Marked(b, 8) && Marked(b, 9) && Marked(b, 10) && Marked(b, 11);
  }

  lemma FirstByte()
    ensures !Bit(0xF1, 1) && !Bit(0xF1, 2) && !Bit(0xF1, 3)
    ensures Bit(0xF1, 4) && Bit(0xF1, 5) && Bit(0xF1, 6) && Bit(0xF1, 7)
  {
    assert Bit(0xF, 0) && Bit(0xF, 1) && Bit(0xF, 2) && Bit(0xF, 3);
    assert !Bit(0x1E, 0) && Bit(0x1E, 1) && Bit(0x1E, 2) && Bit(0x1E, 3) && Bit(0x1E, 4);
    assert !Bit(0x3C, 1) && Bit(0x3C, 2) && Bit(0x3C, 3) && Bit(0x3C, 4) && Bit(0x3C, 5);
    assert !Bit(0x78, 2) && Bit(0x78, 3) && Bit(0x78, 4) && Bit(0x78, 5) && Bit(0x78, 6);
  }

  lemma SecondByte()
    ensures Bit(0xCF, 0) && Bit(0xCF, 1) && Bit(0xCF, 2) && Bit(0xCF, 3)
    ensures !Bit(0xCF, 4) && !Bit(0xCF, 5) && Bit(0xCF, 6)
  {
    assert !Bit(0xC, 0) && !Bit(0xC, 1) && Bit(0xC, 2);
    assert Bit(0x19, 0) && !Bit(0x19, 1) && !Bit(0x19, 2) && Bit(0x19, 3);
    assert Bit(0x33, 1) && !Bit(0x33, 2) && !Bit(0x33, 3) && Bit(0x33, 4);
    assert Bit(0x67, 2) && !Bit(0x67, 3) && !Bit(0x67, 4) && Bit(0x67, 5);
  }

  class Allocator {
    const bitmap: array<nat>
    const kernelEnd: nat
    var allocStart: Option<nat>
    var allocatedPages: int
    var availablePages: int

    ghost predicate Valid()
      reads bitmap
    {
      bitmap.Length > 0 && Bytes(bitmap[..])
    }

    /** Where the next scan starts: behind the last allocation, at first behind the kernel. */
    function ScanStart(): nat
      reads this
    {
      if allocStart.Some? then allocStart.value else kernelEnd
    }

    /** `page_set_mark`. */
    method SetMark(f: nat)
      requires Valid() && f < 8 * bitmap.Length
      modifies bitmap
      ensures Valid() && Changed(old(bitmap[..]), bitmap[..], f, 1, true)
    {
      SetMarks(bitmap[..], f);
      bitmap[f / 8] := Or(bitmap[f / 8], Pow2(f % 8));
      assert bitmap[..] == old(bitmap[..])[f / 8 := Or(old(bitmap[f / 8]), Pow2(f % 8))];
    }

    /** `page_clear_mark`. */
    method ClearMark(f: nat)
      requires Valid() && f < 8 * bitmap.Length
      modifies bitmap
      ensures Valid() && Changed(old(bitmap[..]), bitmap[..], f, 1, false)
    {
      ClearMarks(bitmap[..], f);
      bitmap[f / 8] := And(bitmap[f / 8], Not(32, Pow2(f % 8)));
      assert bitmap[..] == old(bitmap[..])[f / 8 := And(old(bitmap[f / 8]), Not(32, Pow2(f % 8)))];
    }

    /** The first marked of the `n` frames from `f` on. */
    method Probe(f: nat, n: nat) returns (cnt: nat)
      requires f + n <= 8 * bitmap.Length
      ensures cnt == Clear(bitmap[..], f, n)
    {
      cnt := 0;
      while cnt < n && !Marked(bitmap[..], f + cnt)
        invariant cnt <= n && Clear(bitmap[..], f, n) == cnt + Clear(bitmap[..], f + cnt, n - cnt)
      {
        cnt := cnt + 1;
      }
    }

    /** Marks the `n` clear frames from `f` on. */
    method MarkRun(f: nat, n: nat)
      requires Valid() && f + n <= 8 * bitmap.Length && ClearRun(bitmap[..], f, n)
      modifies bitmap
      ensures Valid() && Changed(old(bitmap[..]), bitmap[..], f, n, true)
      ensures Used(bitmap[..], 8 * bitmap.Length) == Used(old(bitmap[..]), 8 * bitmap.Length) + n
    {
      hide Marked, Bytes;
      var cnt := 0;
      while cnt < n
        invariant cnt <= n && Valid() && Changed(old(bitmap[..]), bitmap[..], f, cnt, true)
        invariant Used(bitmap[..], 8 * bitmap.Length) == Used(old(bitmap[..]), 8 * bitmap.Length) + cnt
      {
        ghost var b := bitmap[..];
        SetMark(f + cnt);
        UsedOneMore(b, bitmap[..], f + cnt, 8 * bitmap.Length);
        cnt := cnt + 1;
      }
    }

    /** The scan of `get_pages`. */
    method FindRun(n: nat, start: nat) returns (run: Option<nat>)
      requires Valid() && 0 < n <= 8 * bitmap.Length
      ensures run == Scan(bitmap[..], 1, start, n)
    {
      hide Place, Marked, ClearRun;
      var m := 8 * bitmap.Length - n;
      var off := 1;
      while off <= m
        invariant off >= 1 && Scan(bitmap[..], 1, start, n) == Scan(bitmap[..], off, start, n)
        decreases m - off
      {
        var p := Place(off, start, m);
        var cnt := Probe(p, n);
        if cnt == n { return Some(p); }
        off := off + cnt + 1;
      }
      run := None;
    }

    /** `get_pages`: the address of the first of `n` frames; 0 for failure. */
    method GetPages(n: nat) returns (addr: nat, ghost run: Option<nat>)
      requires Valid() && 0 <= availablePages <= 8 * bitmap.Length
      modifies this, bitmap
      ensures Valid() && addr == if run.Some? then run.value * PAGE_SIZE else 0
      ensures run.Some? ==> n > 0 && run.value + n < 8 * bitmap.Length && ClearRun(old(bitmap[..]), run.value, n)
      ensures Changed(old(bitmap[..]), bitmap[..], if run.Some? then run.value else 0, if run.Some? then n else 0, true)
      ensures availablePages - old(availablePages) == old(allocatedPages) - allocatedPages
        == Used(old(bitmap[..]), 8 * bitmap.Length) - Used(bitmap[..], 8 * bitmap.Length)
      ensures 0 < n <= old(availablePages) ==> run == Scan(old(bitmap[..]), 1, old(ScanStart()), n)
      ensures run.Some? ==> 0 < n <= old(availablePages) && ScanStart() == run.value + n
      ensures run.Some? <==>
        (0 < n <= old(availablePages) && n < 8 * bitmap.Length
         && exists p: nat :: Found(old(bitmap[..]), old(ScanStart()), n, p))
      ensures run.Some? ==> var m := 8 * bitmap.Length - n;
        forall p: nat | Found(old(bitmap[..]), old(ScanStart()), n, p) ::
          Turn(run.value, (old(ScanStart()) + 1) % m, m) <= Turn(p, (old(ScanStart()) + 1) % m, m)
    {
      hide Marked, Bytes, Used, ClearRun, Scan, Found;
      addr, run := 0, None;
      if n == 0 || n > availablePages { return; }
      if allocStart.None? { allocStart := Some(kernelEnd); }
      var found := FindRun(n, allocStart.value);
      ScanFinds(bitmap[..], 1, allocStart.value, n);
      if n < 8 * bitmap.Length {
        ScanComplete(bitmap[..], allocStart.value, n);
      } else {
        ScanEnds(bitmap[..], 1, allocStart.value, n);
      }
      if found.None? { return; }
      ScanFindsFirst(bitmap[..], allocStart.value, n);
      run := found;
      allocStart := Some(found.value + n);
      MarkRun(found.value, n);
      allocatedPages, availablePages := allocatedPages + n, availablePages - n;
      addr := found.value * PAGE_SIZE;
    }

    /** `put_pages`: the number of frames given back, or failure. */
    method PutPages(addr: nat, n: nat) returns (ret: Option<nat>)
      requires Valid() && addr / PAGE_SIZE + n <= 8 * bitmap.Length
      modifies this, bitmap
      ensures Valid() && allocStart == old(allocStart)
      ensures ret.None? <==> addr == 0 || n == 0
      ensures Changed(old(bitmap[..]), bitmap[..], addr / PAGE_SIZE, if ret.None? then 0 else n, false)
      ensures availablePages - old(availablePages) == old(allocatedPages) - allocatedPages
        == Used(old(bitmap[..]), 8 * bitmap.Length) - Used(bitmap[..], 8 * bitmap.Length)
        == if ret.Some? then ret.value else 0
    {
      hide Marked, Bytes;
      if addr == 0 || n == 0 { return None; }
      var base, i, count := addr / PAGE_SIZE, 0, 0;
      while i < n
        invariant i <= n && Valid() && Changed(old(bitmap[..]), bitmap[..], base, i, false)
        invariant Used(bitmap[..], 8 * bitmap.Length) == Used(old(bitmap[..]), 8 * bitmap.Length) - count
        modifies bitmap
      {
        if Marked(bitmap[..], base + i) {
          ghost var b := bitmap[..];
          ClearMark(base + i);
          UsedOneLess(b, bitmap[..], base + i, 8 * bitmap.Length);
          count := count + 1;
        }
        i := i + 1;
      }
      allocatedPages, availablePages := allocatedPages - count, availablePages + count;
      ret := Some(count);
    }

    /** `put_pages` undoes `get_pages`. */
    method GetThenPut(n: nat) returns (addr: nat)
      requires Valid() && 0 <= availablePages <= 8 * bitmap.Length
      modifies this, bitmap
      ensures addr != 0 ==> bitmap[..] == old(bitmap[..])
      ensures addr != 0 ==> availablePages == old(availablePages) && allocatedPages == old(allocatedPages)
    {
      hide Marked, Used;
      ghost var run;
      addr, run := GetPages(n);
      if addr != 0 {
        var ret := PutPages(addr, n);
        SameMarks(old(bitmap[..]), bitmap[..]);
      }
    }
  }

  /** The marks determine the bytes. */
  lemma SameMarks(b: seq<nat>, b': seq<nat>)
    requires Bytes(b) && Bytes(b') && |b| == |b'| && forall i: nat | i < 8 * |b| :: Marked(b', i) == Marked(b, i)
    ensures b' == b
  {
    forall k | 0 <= k < |b| ensures b'[k] == b[k] {
      forall i: nat ensures Bit(b'[k], i) == Bit(b[k], i) {
        if i < 8 {
          assert Marked(b', 8 * k + i) == Marked(b, 8 * k + i);
        } else {
          assert Pow(2, 8) == 256;
          SmallBit(b[k], 8, i);
          SmallBit(b'[k], 8, i);
        }
      }
      SameBits(b'[k], b[k]);
    }
  }
}
