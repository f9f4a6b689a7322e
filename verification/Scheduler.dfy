/** The scheduler on its own data: task table, linked queues and priority bitmap
    (kernel/tasks.c). Task pointers are positions in the table, NULL is -1. */
module Scheduler {
  import opened Base
  import opened Arith
  import opened Bits
  import opened ReadyQueues

  const NULL: int := -1

  /** The forward chain from `first` to `last` runs through exactly the tasks of `c`. */
  ghost predicate ListOf(first: int, last: int, next: seq<int>, c: seq<nat>) {
    && (forall i | 0 <= i < |c| :: c[i] < |next|)
    && if c == [] then first == NULL && last == NULL
       else
         && first == c[0] && last == c[|c| - 1] && next[last] == NULL
         && forall i | 0 <= i < |c| - 1 :: next[c[i]] == c[i + 1]
  }

  /** The bits of the bitmap are the queues in use. */
  ghost predicate Marks(bitmap: nat, queues: seq<seq<nat>>) {
    bitmap < Pow2(32) && |queues| == MAX_PRIO
    && forall p | 0 <= p < 32 :: Bit(bitmap, p) <==> 1 <= p && queues[p - 1] != []
  }

  /** `msb`: the position of the highest bit, or the width of the word for 0. */
  function Msb(n: nat): (r: nat)
    requires n < Pow2(32)
    ensures n == 0 ==> r == 64
    ensures n > 0 ==> r < 32 && Bit(n, r) && forall i | r < i < 32 :: !Bit(n, i)
  {
    if n == 0 then 64 else TopBit(n, 32)
  }

  function TopBit(n: nat, w: nat): (r: nat)
    requires 0 < n < Pow2(w)
    ensures r < w && Bit(n, r) && forall i | r < i < w :: !Bit(n, i)
  {
    if n == 1 then
      assert forall i | 0 < i < w :: !Bit(1, i) by { OneBit(); }
      0
    else
      var r := 1 + TopBit(n / 2, w - 1);
      assert forall i | r < i < w :: Bit(n, i) == Bit(n / 2, i - 1);
      r
  }

  lemma OneBit()
    ensures forall i: nat | i > 0 :: !Bit(1, i)
  {
    forall i: nat | i > 0 ensures !Bit(1, i) { Pow2Bit(0, i); }
  }

  /** `bitmap |= (1 << p)`. */
  function SetBit(bitmap: nat, p: nat): (r: nat)
    requires bitmap < Pow2(32) && p < 32
    ensures r < Pow2(32) && forall i | 0 <= i < 32 :: Bit(r, i) == (Bit(bitmap, i) || i == p)
  {
    PowStrict(2, p, 32);
    OrSmall(bitmap, Pow2(p), 32);
    assert forall i | 0 <= i < 32 :: Bit(Or(bitmap, Pow2(p)), i) == (Bit(bitmap, i) || i == p) by {
      forall i | 0 <= i < 32 ensures Bit(Or(bitmap, Pow2(p)), i) == (Bit(bitmap, i) || i == p) {
        OrBit(bitmap, Pow2(p), i);
        Pow2Bit(p, i);
      }
    }
    Or(bitmap, Pow2(p))
  }

  /** `bitmap &= ~(1 << p)`. */
  function ClearBit(bitmap: nat, p: nat): (r: nat)
    requires bitmap < Pow2(32) && p < 32
    ensures r < Pow2(32) && forall i | 0 <= i < 32 :: Bit(r, i) == (Bit(bitmap, i) && i != p)
  {
    PowStrict(2, p, 32);
    var mask := Not(32, Pow2(p));
    AndSmall(bitmap, mask);
    assert forall i | 0 <= i < 32 :: Bit(And(bitmap, mask), i) == (Bit(bitmap, i) && i != p) by {
      forall i | 0 <= i < 32 ensures Bit(And(bitmap, mask), i) == (Bit(bitmap, i) && i != p) {
        AndBit(bitmap, mask, i);
        NotBit(32, Pow2(p), i);
        Pow2Bit(p, i);
      }
    }
    And(bitmap, mask)
  }

  /** The bitmap's highest bit names the highest queue in use. */
  lemma MsbIsHighest(bitmap: nat, queues: seq<seq<nat>>)
    requires Marks(bitmap, queues)
    ensures var h := Highest(queues, MAX_PRIO);
      if h < 0 then Msb(bitmap) > MAX_PRIO else Msb(bitmap) == h + 1
  {
    var h, m := Highest(queues, MAX_PRIO), Msb(bitmap);
    if h < 0 {
      assert forall p | 0 <= p < 32 :: !Bit(bitmap, p);
    } else {
      assert Bit(bitmap, h + 1);
      if bitmap == 0 { ZeroBit(h + 1); }
      assert forall p | h + 1 < p < 32 :: !Bit(bitmap, p);
    }
  }

  lemma ListAppend(first: int, last: int, next: seq<int>, c: seq<nat>, t: nat)
    requires ListOf(first, last, next, c) && c != [] && NoRepeats(c) && t !in c && t < |next|
    ensures ListOf(first, t, next[t := NULL][last := t], c + [t])
  {}

  lemma ListFrame(first: int, last: int, next: seq<int>, next': seq<int>, c: seq<nat>)
    requires ListOf(first, last, next, c) && |next'| == |next| && forall t | t in c :: next'[t] == next[t]
    ensures ListOf(first, last, next', c)
  {}

  lemma ListTail(first: int, last: int, next: seq<int>, c: seq<nat>)
    requires ListOf(first, last, next, c) && c != [] && NoRepeats(c)
    ensures next[first] == NULL <==> |c| == 1
    ensures ListOf(next[first], if next[first] == NULL then NULL else last, next[first := NULL], c[1..])
  {
    if |c| > 1 { assert next[c[0]] == c[1]; }
  }

  function UnlinkedNext(next: seq<int>, prev: seq<int>, id: nat): seq<int>
    requires id < |next| == |prev| && NULL <= prev[id] < |next|
  {
    if prev[id] >= 0 then next[prev[id] := next[id]] else next
  }

  function UnlinkedPrev(next: seq<int>, prev: seq<int>, id: nat): seq<int>
    requires id < |next| == |prev| && NULL <= next[id] < |prev|
  {
    if next[id] >= 0 then prev[next[id] := prev[id]] else prev
  }

  /** The backward links of a queue. */
  ghost predicate BackOf(prev: seq<int>, c: seq<nat>) {
    forall i: nat | i < |c| :: BackAt(prev, c, i)
  }

  ghost predicate BackAt(prev: seq<int>, c: seq<nat>, i: nat)
    requires i < |c|
  {
    c[i] < |prev| && prev[c[i]] == if i == 0 then NULL else c[i - 1]
  }

  function Omit(c: seq<nat>, k: nat): (r: seq<nat>)
    requires k < |c|
    ensures |r| == |c| - 1 && forall i | 0 <= i < |r| :: r[i] == c[if i < k then i else i + 1]
  {
    c[..k] + c[k + 1..]
  }

  lemma Neighbours(first: int, last: int, next: seq<int>, prev: seq<int>, c: seq<nat>, k: nat)
    requires ListOf(first, last, next, c) && BackOf(prev, c) && NoRepeats(c) && k < |c| && |next| == |prev|
    ensures c[k] < |next| && next[c[k]] == (if k + 1 < |c| then c[k + 1] else NULL)
    ensures prev[c[k]] == (if k > 0 then c[k - 1] else NULL)
    ensures (first == c[k] <==> k == 0) && (last == c[k] <==> k == |c| - 1)
    ensures forall i | 0 <= i < |c| :: c[i] < |next|
  {
    assert BackAt(prev, c, k);
    assert k < |c| - 1 ==> next[c[k]] == c[k + 1];
    assert first == c[0] && last == c[|c| - 1];
  }

  /** Unlinking a task that is on a doubly linked queue takes just that task off. */
  lemma UnlinkQueue(first: int, last: int, next: seq<int>, prev: seq<int>, c: seq<nat>, k: nat)
    requires ListOf(first, last, next, c) && BackOf(prev, c) && NoRepeats(c) && k < |c| && |next| == |prev|
    ensures var id := c[k];
      && id < |next| && NULL <= prev[id] < |next| && NULL <= next[id] < |prev|
      && var first' := if first == id then next[id] else first;
         var last' := if last != id then last else if prev[id] < 0 then first' else prev[id];
         && ListOf(first', last', UnlinkedNext(next, prev, id), Omit(c, k))
         && BackOf(UnlinkedPrev(next, prev, id), Omit(c, k))
  {
    hide Omit;
    Neighbours(first, last, next, prev, c, k);
    var id, r := c[k], Omit(c, k);
    var next', prev' := UnlinkedNext(next, prev, id), UnlinkedPrev(next, prev, id);
    forall i | 0 <= i < |r| - 1 ensures next'[r[i]] == r[i + 1] {
      assert next[c[if i < k then i else i + 1]] == c[(if i < k then i else i + 1) + 1];
    }
    forall i: nat | i < |r| ensures BackAt(prev', r, i) { assert BackAt(prev, c, if i < k then i else i + 1); }
    if |r| > 0 { assert r[|r| - 1] == c[if k == |c| - 1 then k - 1 else |c| - 1]; }
  }

  /** Either end tells whether a queue is empty, and both belong to it. */
  lemma EmptyList(first: int, last: int, next: seq<int>, c: seq<nat>)
    requires ListOf(first, last, next, c)
    ensures (first == NULL <==> c == []) && (last == NULL <==> c == [])
    ensures first >= NULL && last >= NULL
    ensures c != [] ==> first in c && last in c
  {}

  /** The links of `n` tasks agree with the queues they stand for. */
  ghost predicate ListsAre(n: nat, next: seq<int>, prev: seq<int>, first: seq<int>, last: seq<int>,
                           chain: seq<seq<nat>>)
  {
    && |next| == |prev| == n && |first| == |last| == |chain| == MAX_PRIO
    && forall q | 0 <= q < MAX_PRIO :: ListOf(first[q], last[q], next, chain[q])
  }

  lemma ListEnds(n: nat, next: seq<int>, prev: seq<int>, first: seq<int>, last: seq<int>, chain: seq<seq<nat>>, p: nat)
    requires ListsAre(n, next, prev, first, last, chain) && 1 <= p <= MAX_PRIO
    ensures |next| == |prev| == n && |first| == |last| == |chain| == MAX_PRIO
    ensures (first[p - 1] == NULL <==> chain[p - 1] == []) && (last[p - 1] == NULL <==> chain[p - 1] == [])
    ensures first[p - 1] >= NULL && last[p - 1] >= NULL
    ensures chain[p - 1] != [] ==> first[p - 1] in chain[p - 1] && last[p - 1] in chain[p - 1]
  {
    hide ListOf;
    EmptyList(first[p - 1], last[p - 1], next, chain[p - 1]);
  }

  /** Setting the bit of a queue that gains a task; it is set already if the queue was in use. */
  lemma MarkAppend(bitmap: nat, chain: seq<seq<nat>>, p: nat, t: nat)
    requires Marks(bitmap, chain) && 1 <= p <= MAX_PRIO
    ensures bitmap < Pow2(32) && |chain| == MAX_PRIO && Marks(SetBit(bitmap, p), Append(chain, p, t))
    ensures chain[p - 1] != [] ==> Marks(bitmap, Append(chain, p, t))
  {
    hide Bit, Pow2, SetBit;
  }

  /** Queue `p` holds no task twice and shares none with another queue. */
  ghost predicate Separate(chain: seq<seq<nat>>, p: nat) {
    && |chain| == MAX_PRIO && 1 <= p <= MAX_PRIO && NoRepeats(chain[p - 1])
    && forall q, x | 0 <= q < MAX_PRIO && x in chain[q] && q != p - 1 :: x !in chain[p - 1]
  }

  /** The task is on no queue. */
  ghost predicate Absent(chain: seq<seq<nat>>, t: nat) { forall q | 0 <= q < |chain| :: t !in chain[q] }

  lemma MarksBounds(bitmap: nat, chain: seq<seq<nat>>)
    requires Marks(bitmap, chain)
    ensures bitmap < Pow2(32) && |chain| == MAX_PRIO
  {
    hide Bit, Pow2;
  }

  class Kernel {
    var status: seq<Status>
    var prio: seq<nat>
    var next: seq<int>
    var prev: seq<int>
    var first: seq<int>
    var last: seq<int>
    var bitmap: nat
    var nrTasks: int
    var oldTask: int
    var current: nat
    ghost var chain: seq<seq<nat>>

    ghost function View(): Sys
      reads this
    {
      Sys(status, prio, chain, current, if oldTask < 0 then None else Some(oldTask), nrTasks)
    }

    /** The links agree with the queues they stand for. */
    ghost predicate Lists()
      reads this
    {
      ListsAre(|status|, next, prev, first, last, chain)
    }

    ghost predicate Linked()
      reads this
    {
      Lists() && Marks(bitmap, chain)
    }

    ghost predicate Valid()
      reads this
    {
      && Inv(View()) && Linked()
      // a running task has been taken out of its queue
      && forall t | 0 <= t < |status| && status[t].Running? :: next[t] == NULL && prev[t] == NULL
    }

    /** The static initialisers and `multitasking_init`, for a table of `n` tasks. */
    constructor (n: nat)
      requires n > 0
      ensures Valid() && Init(View()) && |status| == n
    {
      status := seq(n, i => if i == 0 then Idle else Invalid);
      prio := seq(n, i => 0);
      next := seq(n, i => NULL);
      prev := seq(n, i => NULL);
      first := seq(MAX_PRIO, i => NULL);
      last := seq(MAX_PRIO, i => NULL);
      bitmap, nrTasks, oldTask, current := 0, 0, NULL, 0;
      chain := seq(MAX_PRIO, i => []);
      new;
      forall p: nat ensures !Bit(0, p) { ZeroBit(p); }
      InitHolds(View());
    }

    /** Puts task `t` at the end of the queue of priority `p`; `empty` is the caller's test. */
    method Link(t: nat, p: nat, empty: bool)
      requires Lists() && 1 <= p <= MAX_PRIO && t < |status|
      requires Separate(chain, p) && empty == (chain[p - 1] == []) && Absent(chain, t)
      modifies this`next, this`prev, this`first, this`last, this`chain
      ensures Lists() && chain == Append(old(chain), p, t)
      ensures forall x | 0 <= x < |status| && x != t && x !in old(chain[p - 1]) ::
        next[x] == old(next[x]) && prev[x] == old(prev[x])
    {
      ghost var f0, l0, n0, c0 := first, last, next, chain;
      if empty {
        next, prev := next[t := NULL], prev[t := NULL];
        first, last := first[p - 1 := t], last[p - 1 := t];
      } else {
        var l := last[p - 1];
        ListAppend(f0[p - 1], l, next, c0[p - 1], t);
        assert l in c0[p - 1];
        next := next[t := NULL];
        prev := prev[t := l];
        next := next[l := t];
        last := last[p - 1 := t];
      }
      chain := Append(chain, p, t);
      forall q | 0 <= q < MAX_PRIO ensures ListOf(first[q], last[q], next, chain[q]) {
        if q != p - 1 { ListFrame(f0[q], l0[q], n0, next, c0[q]); }
      }
    }

    /** `finish_task_switch`. */
    method FinishTaskSwitch()
      requires Valid()
      modifies this
      ensures Valid() && View() == FinishSwitch(old(View())) && Finishes(old(View()), View())
    {
      hide Inv, Shape, ListsAre, Marks, Separate, Absent, Append, SetBit, Finishes;
      InvFacts(View());
      FinishEffect(View());
      FinishKeeps(View());
      var o := oldTask;
      if o >= 0 {
        if status[o].Invalid? {
          oldTask := NULL;
        } else {
          var p := prio[o];
          Unqueued(View(), o);
          QueueFacts(View(), p);
          ListEnds(|status|, next, prev, first, last, chain, p);
          MarkAppend(bitmap, chain, p, o);
          Link(o, p, first[p - 1] == NULL);
          oldTask := NULL;
          bitmap := SetBit(bitmap, p);
        }
      }
    }

    /** `wakeup_task`; the result says whether the task was blocked. */
    method WakeupTask(id: nat) returns (woken: bool)
      requires Valid() && oldTask == NULL && id < |status|
      modifies this
      ensures Valid() && View() == Wake(old(View()), id) && woken == old(status[id].Blocked?)
      ensures Wakes(old(View()), id, View())
    {
      hide Inv, Shape, ListsAre, Marks, Separate, Absent, Append, SetBit, Wakes;
      InvFacts(View());
      WakeEffect(View(), id);
      WakeKeeps(View(), id);
      woken := status[id].Blocked?;
      if woken {
        var p := prio[id];
        Unqueued(View(), id);
        QueueFacts(View(), p);
        ListEnds(|status|, next, prev, first, last, chain, p);
        MarkAppend(bitmap, chain, p, id);
        status := status[id := Ready];
        nrTasks := nrTasks + 1;
        var empty := last[p - 1] == NULL;
        Link(id, p, empty);
        if empty { bitmap := SetBit(bitmap, p); }
      }
    }

    /** The unlinking of `block_current_task`, kernel/tasks.c:307-322. A running task is not
        linked anywhere: then the lists stay as they are. */
    method Unlink(id: nat, p: nat)
      requires |next| == |prev| == |status| && |first| == |last| == MAX_PRIO && bitmap < Pow2(32)
      requires id < |status| && 1 <= p <= MAX_PRIO
      requires NULL <= next[id] < |status| && NULL <= prev[id] < |status|
      modifies this`next, this`prev, this`first, this`last, this`bitmap
      ensures |first| == MAX_PRIO
      ensures next == UnlinkedNext(old(next), old(prev), id) && prev == UnlinkedPrev(old(next), old(prev), id)
      ensures first == if old(first[p - 1]) == id then old(first)[p - 1 := old(next[id])] else old(first)
      ensures last == if old(last[p - 1]) != id then old(last)
                      else old(last)[p - 1 := if old(prev[id]) < 0 then first[p - 1] else old(prev[id])]
      ensures bitmap == if first[p - 1] < 0 then ClearBit(old(bitmap), p) else old(bitmap)
    {
      if prev[id] >= 0 { next := next[prev[id] := next[id]]; }
      if next[id] >= 0 { prev := prev[next[id] := prev[id]]; }
      if first[p - 1] == id { first := first[p - 1 := next[id]]; }
      if last[p - 1] == id {
        last := last[p - 1 := prev[id]];
        if last[p - 1] < 0 { last := last[p - 1 := first[p - 1]]; }
      }
      if first[p - 1] < 0 { bitmap := ClearBit(bitmap, p); }
    }

    /** `block_current_task`. */
    method BlockCurrentTask() returns (blocked: bool)
      requires Valid() && oldTask == NULL
      modifies this
      ensures Valid() && View() == Block(old(View())) && blocked == old(status[current].Running?)
      ensures if blocked then Retires(old(View()), Blocked, View()) else View() == old(View())
    {
      hide Inv, ListOf;
      InvFacts(View());
      BlockKeeps(View());
      var id := current;
      blocked := status[id].Running?;
      if blocked {
        var p := prio[id];
        Unqueued(View(), id);
        EmptyList(first[p - 1], last[p - 1], next, chain[p - 1]);
        status := status[id := Blocked];
        nrTasks := nrTasks - 1;
        Unlink(id, p);
      }
    }

    /** Gives the processor to the head of the queue of priority `p`, kernel/tasks.c:361-374;
        `upps` is the test for a task that should not be there. */
    method Take(p: nat) returns (upps: bool)
      requires Linked() && 1 <= p <= MAX_PRIO && Separate(chain, p) && chain[p - 1] != []
      modifies this`current, this`status, this`next, this`prev, this`first, this`last, this`bitmap, this`chain
      ensures current == old(chain[p - 1][0]) < |old(status)| && status == old(status)[current := Running]
      ensures chain == old(chain)[p - 1 := old(chain[p - 1][1..])]
      ensures Linked() && next[current] == NULL && prev[current] == NULL
      ensures upps == old(status)[current].Invalid?
    {
      ghost var f0, l0, n0, c0 := first, last, next, chain;
      ListTail(f0[p - 1], l0[p - 1], n0, c0[p - 1]);
      current := first[p - 1];
      upps := status[current].Invalid?;
      status := status[current := Running];
      first := first[p - 1 := next[current]];
      if next[current] < 0 {
        last := last[p - 1 := NULL];
        bitmap := ClearBit(bitmap, p);
      }
      next, prev := next[current := NULL], prev[current := NULL];
      chain := chain[p - 1 := chain[p - 1][1..]];
      assert current in c0[p - 1];
      forall q | 0 <= q < MAX_PRIO ensures ListOf(first[q], last[q], next, chain[q]) {
        if q != p - 1 { ListFrame(f0[q], l0[q], n0, next, c0[q]); }
      }
    }

    /** `scheduler`; a switch is reported exactly when another task becomes current, and the
        test for an invalid task never fires. */
    method RunScheduler() returns (switched: bool, upps: bool)
      requires Valid() && oldTask == NULL
      modifies this
      ensures Valid() && View() == Schedule(old(View())) && Schedules(old(View()), View())
      ensures switched == (current != old(current)) && !upps
    {
      hide Inv, Shape, ListsAre, Marks, Separate, Msb, Highest, Schedules;
      ghost var s0 := View();
      InvFacts(s0);
      ScheduleEffect(s0);
      ScheduleKeeps(s0);
      MarksBounds(bitmap, chain);
      MsbIsHighest(bitmap, chain);
      var orig := current;
      upps := false;
      if status[current].Finished? {
        status := status[current := Invalid];
        oldTask := current;
      } else {
        oldTask := NULL;
      }
      var p := Msb(bitmap);
      if p > MAX_PRIO {
        if status[current] !in {Running, Idle} { current := 0; }
      } else if !(prio[current] > p && status[current].Running?) {
        if status[current].Running? {
          status := status[current := Ready];
          oldTask := current;
        }
        QueueFacts(s0, p);
        upps := Take(p);
      }
      switched := current != orig;
    }

    /** The first free slot of the table, or its length. */
    method FindSlot() returns (i: nat)
      ensures i <= |status| && FreeSlot(status, 0) == if i == |status| then None else Some(i)
    {
      i := 0;
      while i < |status| && !status[i].Invalid?
        invariant i <= |status| && FreeSlot(status, 0) == FreeSlot(status, i)
      {
        i := i + 1;
      }
    }

    /** `create_task`; `pages` says whether a frame for the root table could be had. */
    method CreateNewTask(entry: bool, pr: nat, pages: bool) returns (r: Created)
      requires Valid() && oldTask == NULL
      modifies this
      ensures (View(), r) == Create(old(View()), entry, pr, pages)
      ensures Creates(old(View()), entry, pr, pages, View(), r)
      ensures pages || r == Failed(EINVAL) || FreeSlot(old(status), 0) == None ==> Valid()
    {
      hide Inv, Shape, ListsAre, Marks, Separate, Absent, Append, SetBit, Creates;
      ghost var s0 := View();
      InvFacts(s0);
      CreateKeeps(s0, entry, pr, pages);
      CreateAnswers(s0, entry, pr, pages);
      if !entry || pr == 0 || pr > MAX_PRIO { return Failed(EINVAL); }
      var i := FindSlot();
      if i == |status| { return Failed(ENOMEM); }
      if !pages {
        status := status[i := Ready];
        prio := prio[i := pr];
        return Failed(ENOMEM);
      }
      FillSlot(i, pr);
      r := Task(i);
    }

    /** The rest of `create_task`: the slot becomes a ready task at the end of its queue. */
    method FillSlot(i: nat, pr: nat)
      requires Valid() && oldTask == NULL && i < |status| && status[i].Invalid? && 1 <= pr <= MAX_PRIO
      modifies this
      ensures Linked() && |old(prio)| == |old(status)| && |old(chain)| == MAX_PRIO
      ensures View() == old(View()).(status := old(status)[i := Ready], prio := old(prio)[i := pr],
                                     nrTasks := old(nrTasks) + 1, queues := Append(old(chain), pr, i))
      ensures forall t | 0 <= t < |status| && status[t].Running? :: next[t] == NULL && prev[t] == NULL
    {
      hide Inv, Shape, ListsAre, Marks, Separate, Absent, Append, SetBit;
      InvFacts(View());
      Unqueued(View(), i);
      QueueFacts(View(), pr);
      ListEnds(|status|, next, prev, first, last, chain, pr);
      MarkAppend(bitmap, chain, pr, i);
      status := status[i := Ready];
      prio := prio[i := pr];
      bitmap := SetBit(bitmap, pr);
      nrTasks := nrTasks + 1;
      Link(i, pr, first[pr - 1] == NULL);
    }

    /** `do_exit`, up to the call of the scheduler. */
    method DoExit()
      requires Valid() && oldTask == NULL && status[current].Running?
      modifies this
      ensures Valid() && View() == Exit(old(View())) && Retires(old(View()), Finished, View())
    {
      hide Inv, ListOf;
      InvFacts(View());
      ExitKeeps(View());
      nrTasks := nrTasks - 1;
      status := status[current := Finished];
    }
  }

  lemma InvFacts(s: Sys)
    requires Inv(s)
    ensures Shape(s) && |s.prio| == |s.status| > s.current && |s.queues| == MAX_PRIO && s.status[0].Idle?
    ensures forall t | 0 < t < |s.status| && !s.status[t].Invalid? :: 1 <= s.prio[t] <= MAX_PRIO
    ensures s.left.Some? ==> 0 < s.left.value < |s.status| && s.status[s.left.value] in {Ready, Invalid}
    ensures forall t | 0 <= t < |s.status| && s.status[t].Running? :: t == s.current
  {
    hide Sound, Runnable;
  }

  /** A task that is not ready, or that a switch has left, is in no queue. */
  lemma Unqueued(s: Sys, t: nat)
    requires Inv(s) && t < |s.status| && (!s.status[t].Ready? || s.left == Some(t))
    ensures Absent(s.queues, t)
  {
    hide Runnable, NoRepeats;
    forall q | 0 <= q < MAX_PRIO ensures t !in s.queues[q] {
      assert s.status[t].Ready? ==> !Queued(s, t);
    }
  }

  /** No task is queued twice, and queued tasks are ready. */
  lemma QueueFacts(s: Sys, p: nat)
    requires Inv(s) && 1 <= p <= MAX_PRIO
    ensures Separate(s.queues, p)
    ensures forall x | x in s.queues[p - 1] :: x < |s.status| && s.status[x].Ready?
  {
    hide Runnable;
    forall q, x | 0 <= q < MAX_PRIO && x in s.queues[q] && q != p - 1 ensures x !in s.queues[p - 1] {
      assert s.prio[x] == q + 1;
    }
  }
}
