/** The recursive ticket lock (include/eduos/spinlock.h) under every interleaving of any number
    of tasks. One step is one read or write of the lock's fields. */
module Spinlock {
  import opened Base

  /** A number kept in an `int32_t`. */
  function Wrap(x: int): int { (x + 0x8000_0000) % WORD - 0x8000_0000 }

  /** Where a task stands in `spinlock_lock` or `spinlock_unlock`. */
  datatype Pc =
    | Away        // not using the lock
    | Check       // spinlock_lock: reads the owner
    | Draw        // draws a ticket
    | Spin        // waits for its ticket to be served
    | SetOwner    // served: writes the owner
    | SetCounter  // writes the counter
    | Again       // was the owner: counts up
    | Inside      // in the critical section
    | Drop        // spinlock_unlock: counts down
    | Test        // tests the counter
    | ClearOwner  // clears the owner
    | Release     // serves the next ticket

  /** A task: its place in the code, how many of its lock calls have no matching unlock yet, its
      ticket as the code holds it, and the place of that ticket in the order of drawing. */
  datatype Task = Task(pc: Pc, depth: nat, ticket: int, number: nat)

  /** The fields of the lock, the tasks, how many tickets have been drawn, which one is being
      served, who was granted the lock and has not given it back, and the tickets granted so far. */
  datatype Sys = Sys(
    queue: int, dequeue: int, owner: nat, counter: int,
    tasks: seq<Task>, drawn: nat, serving: nat, holder: Option<nat>, grants: seq<nat>)

  datatype Action = Lock(t: nat) | Unlock(t: nat) | Run(t: nat)

  /** A task calls lock when it is outside or inside the critical section, unlock only inside;
      nesting stays below the range of the counter. */
  predicate Enabled(s: Sys, a: Action) {
    a.t < |s.tasks| &&
    match a
    case Lock(t) => s.tasks[t].pc in {Away, Inside}
    case Unlock(t) => s.tasks[t].pc.Inside?
    case Run(t) => s.tasks[t].pc !in {Away, Inside} && (s.tasks[t].pc.Again? ==> s.tasks[t].depth + 1 < WORD)
  }

  function Goto(s: Sys, t: nat, pc: Pc): Sys
    requires t < |s.tasks|
  {
    s.(tasks := s.tasks[t := s.tasks[t].(pc := pc)])
  }

  function Do(s: Sys, a: Action): Sys
    requires Enabled(s, a)
  {
    var t := a.t;
    var me := s.tasks[t];
    if a.Lock? then Goto(s, t, Check)
    else if a.Unlock? then Goto(s, t, Drop)
    else
      match me.pc
      case Away => s
      case Inside => s
      case Check => Goto(s, t, if s.owner == t then Again else Draw)
      case Again =>
        s.(counter := (s.counter + 1) % WORD, tasks := s.tasks[t := me.(pc := Inside, depth := me.depth + 1)])
      case Draw =>
        var q := Wrap(s.queue + 1);
        s.(queue := q, drawn := s.drawn + 1,
           tasks := s.tasks[t := me.(pc := Spin, ticket := q, number := s.drawn + 1)])
      case Spin =>
        if s.dequeue == me.ticket then
          Goto(s, t, SetOwner).(holder := Some(t), grants := s.grants + [me.number])
        else s
      case SetOwner => Goto(s, t, SetCounter).(owner := t)
      case SetCounter => s.(counter := 1, tasks := s.tasks[t := me.(pc := Inside, depth := 1)])
      case Drop =>
        s.(counter := (s.counter - 1) % WORD,
           tasks := s.tasks[t := me.(pc := Test, depth := if me.depth > 0 then me.depth - 1 else 0)])
      case Test => Goto(s, t, if s.counter == 0 then ClearOwner else Inside)
      case ClearOwner => Goto(s, t, Release).(owner := |s.tasks|)
      case Release => Goto(s, t, Away).(dequeue := Wrap(s.dequeue + 1), serving := s.serving + 1, holder := None)
  }

  /** `spinlock_init`, for any number of tasks. */
  predicate Init(s: Sys) {
    && s.queue == 0 && s.dequeue == 1 && s.owner == |s.tasks| && s.counter == 0
    && s.drawn == 0 && s.serving == 1 && s.holder == None && s.grants == []
    && (forall t | 0 <= t < |s.tasks| :: s.tasks[t].pc.Away? && s.tasks[t].depth == 0)
  }

  /** The task has been granted the lock and has not given it back. */
  predicate Holds(x: Task) {
    x.depth > 0 || x.pc in {SetOwner, SetCounter, Test, ClearOwner, Release}
  }

  /** The task has a ticket that is still to be given back. */
  predicate Pending(x: Task) {
    x.pc.Spin? || Holds(x)
  }

  /** The task's id is in the owner field. */
  predicate Owns(x: Task) {
    x.depth > 0 || x.pc in {SetCounter, Test, ClearOwner}
  }

  function Waiting(tasks: seq<Task>): nat {
    if |tasks| == 0 then 0
    else Waiting(tasks[..|tasks| - 1]) + (if Pending(tasks[|tasks| - 1]) then 1 else 0)
  }

  ghost predicate PcInv(s: Sys, x: Task) {
    && (x.pc in {Away, Draw, Spin, SetOwner, SetCounter, ClearOwner, Release} ==> x.depth == 0)
    && (x.pc in {Inside, Again, Drop} ==> x.depth > 0)
    && (Pending(x) ==> s.serving <= x.number <= s.drawn)
    && (x.pc.Spin? ==> x.ticket == Wrap(x.number))
    && (Holds(x) ==> x.number == s.serving)
    && (Owns(x) && !x.pc.SetCounter? ==> s.counter == x.depth < WORD)
  }

  ghost predicate Inv(s: Sys) {
    && s.queue == Wrap(s.drawn) && s.dequeue == Wrap(s.serving)
    && 1 <= s.serving <= s.drawn + 1
    && s.drawn + 1 - s.serving == Waiting(s.tasks)
    && TasksInv(s)
    && Distinct(s.tasks)
    // tickets are granted in the order of drawing, none left out
    && (forall i | 0 <= i < |s.grants| :: s.grants[i] == i + 1)
    && |s.grants| == s.serving - (if s.holder.Some? then 0 else 1)
  }

  ghost predicate TasksInv(s: Sys) {
    && s.owner <= |s.tasks|
    && (s.holder.Some? ==> s.holder.value < |s.tasks|)
    && forall t | 0 <= t < |s.tasks| ::
      && PcInv(s, s.tasks[t])
      && (Holds(s.tasks[t]) <==> s.holder == Some(t))
      && (Owns(s.tasks[t]) <==> s.owner == t)
  }

  ghost predicate Distinct(tasks: seq<Task>) {
    forall t, u | 0 <= t < u < |tasks| && Pending(tasks[t]) && Pending(tasks[u]) :: tasks[t].number != tasks[u].number
  }

  lemma {:induction false} WaitingUpdate(tasks: seq<Task>, t: nat, x: Task)
    requires t < |tasks|
    ensures Waiting(tasks[t := x])
      == Waiting(tasks) - (if Pending(tasks[t]) then 1 else 0) + (if Pending(x) then 1 else 0)
  {
    var n := |tasks| - 1;
    if t == n {
      assert tasks[t := x][..n] == tasks[..n];
    } else {
      assert tasks[t := x][..n] == tasks[..n][t := x];
      WaitingUpdate(tasks[..n], t, x);
    }
  }

  lemma {:induction false} WaitingBound(tasks: seq<Task>)
    ensures Waiting(tasks) <= |tasks|
  {
    if |tasks| > 0 { WaitingBound(tasks[..|tasks| - 1]); }
  }

  lemma WrapInjective(x: int, y: int)
    requires Wrap(x) == Wrap(y) && -WORD < x - y < WORD
    ensures x == y
  {}

  lemma WrapNext(x: int)
    ensures Wrap(Wrap(x) + 1) == Wrap(x + 1)
  {}

  /** Even after the counters have wrapped around, the ticket being served is the holder's. */
  lemma ServedTicket(s: Sys, t: nat)
    requires Inv(s) && |s.tasks| <= WORD && t < |s.tasks| && s.tasks[t].pc.Spin?
    ensures s.dequeue == s.tasks[t].ticket <==> s.tasks[t].number == s.serving
  {
    WaitingBound(s.tasks);
    if s.dequeue == s.tasks[t].ticket { WrapInjective(s.tasks[t].number, s.serving); }
  }

  /** A step that neither draws nor gives back a ticket. */
  lemma DistinctKept(tasks: seq<Task>, t: nat, x: Task)
    requires t < |tasks| && Distinct(tasks) && x.number == tasks[t].number && (Pending(x) ==> Pending(tasks[t]))
    ensures Distinct(tasks[t := x])
  {}

  lemma DrawKeeps(s: Sys, t: nat)
    requires Inv(s) && Enabled(s, Run(t)) && s.tasks[t].pc.Draw?
    ensures Inv(Do(s, Run(t)))
  {
    hide Wrap, Distinct, Waiting;
    var s' := Do(s, Run(t));
    WaitingUpdate(s.tasks, t, s'.tasks[t]);
    WrapNext(s.drawn);
    assert forall u | 0 <= u < |s.tasks| && Pending(s.tasks[u]) :: PcInv(s, s.tasks[u]);
    DistinctDraw(s.tasks, t, s'.tasks[t]);
  }

  lemma DistinctDraw(tasks: seq<Task>, t: nat, x: Task)
    requires t < |tasks| && Distinct(tasks)
    requires forall u | 0 <= u < |tasks| && Pending(tasks[u]) :: tasks[u].number < x.number
    ensures Distinct(tasks[t := x])
  {}

  /** The task whose ticket is being served finds the lock free. */
  lemma Unheld(s: Sys, t: nat)
    requires Inv(s) && t < |s.tasks| && s.tasks[t].pc.Spin? && s.tasks[t].number == s.serving
    ensures s.holder == None
  {
    assert PcInv(s, s.tasks[t]);
    if s.holder.Some? {
      var h := s.holder.value;
      assert PcInv(s, s.tasks[h]) && Pending(s.tasks[h]) && Pending(s.tasks[t]);
    }
  }

  lemma SpinKeeps(s: Sys, t: nat)
    requires Inv(s) && |s.tasks| <= WORD && Enabled(s, Run(t)) && s.tasks[t].pc.Spin?
    ensures Inv(Do(s, Run(t)))
  {
    hide Wrap, Distinct, Waiting;
    var s' := Do(s, Run(t));
    ServedTicket(s, t);
    if s' != s {
      WaitingUpdate(s.tasks, t, s'.tasks[t]);
      DistinctKept(s.tasks, t, s'.tasks[t]);
      assert PcInv(s, s.tasks[t]);
      Unheld(s, t);
    }
  }

  lemma ReleaseKeeps(s: Sys, t: nat)
    requires Inv(s) && Enabled(s, Run(t)) && s.tasks[t].pc.Release?
    ensures Inv(Do(s, Run(t)))
  {
    hide Wrap, Waiting;
    var s' := Do(s, Run(t));
    assert PcInv(s, s.tasks[t]);
    WaitingUpdate(s.tasks, t, s'.tasks[t]);
    WrapNext(s.serving);
    DistinctKept(s.tasks, t, s'.tasks[t]);
  }

  lemma MoveKeeps(s: Sys, t: nat, pc: Pc)
    requires Inv(s) && t < |s.tasks|
    requires pc in {Check, Drop, Again, Draw}
    requires pc.Check? ==> s.tasks[t].pc in {Away, Inside}
    requires pc.Drop? ==> s.tasks[t].pc.Inside?
    requires pc in {Again, Draw} ==> s.tasks[t].pc.Check? && (s.owner == t <==> pc.Again?)
    ensures Inv(Goto(s, t, pc))
  {
    hide Wrap, Distinct, Waiting;
    var s' := Goto(s, t, pc);
    assert PcInv(s, s.tasks[t]);
    WaitingUpdate(s.tasks, t, s'.tasks[t]);
    DistinctKept(s.tasks, t, s'.tasks[t]);
  }

  lemma EnterKeeps(s: Sys, t: nat)
    requires Inv(s) && Enabled(s, Run(t)) && s.tasks[t].pc in {Again, SetOwner, SetCounter}
    ensures Inv(Do(s, Run(t)))
  {
    hide Wrap, Distinct, Waiting;
    var s' := Do(s, Run(t));
    assert PcInv(s, s.tasks[t]);
    WaitingUpdate(s.tasks, t, s'.tasks[t]);
    DistinctKept(s.tasks, t, s'.tasks[t]);
  }

  lemma LeaveKeeps(s: Sys, t: nat)
    requires Inv(s) && Enabled(s, Run(t)) && s.tasks[t].pc in {Drop, Test, ClearOwner}
    ensures Inv(Do(s, Run(t)))
  {
    hide Wrap, Distinct, Waiting;
    var s' := Do(s, Run(t));
    assert PcInv(s, s.tasks[t]);
    WaitingUpdate(s.tasks, t, s'.tasks[t]);
    DistinctKept(s.tasks, t, s'.tasks[t]);
  }

  lemma StepKeeps(s: Sys, a: Action)
    requires Inv(s) && |s.tasks| <= WORD && Enabled(s, a)
    ensures Inv(Do(s, a))
  {
    hide Inv;
    var t := a.t;
    if a.Lock? {
      MoveKeeps(s, t, Check);
    } else if a.Unlock? {
      MoveKeeps(s, t, Drop);
    } else {
      var pc := s.tasks[t].pc;
      if pc.Check? {
        MoveKeeps(s, t, if s.owner == t then Again else Draw);
      } else if pc.Draw? {
        DrawKeeps(s, t);
      } else if pc.Spin? {
        SpinKeeps(s, t);
      } else if pc in {Again, SetOwner, SetCounter} {
        EnterKeeps(s, t);
      } else if pc.Release? {
        ReleaseKeeps(s, t);
      } else {
        LeaveKeeps(s, t);
      }
    }
  }

  ghost predicate IsRun(ss: seq<Sys>, acts: seq<Action>) {
    && |ss| == |acts| + 1
    && forall i | 0 <= i < |acts| :: Enabled(ss[i], acts[i]) && ss[i + 1] == Do(ss[i], acts[i])
  }

  lemma {:induction false} AlwaysInv(ss: seq<Sys>, acts: seq<Action>, i: nat)
    requires IsRun(ss, acts) && Init(ss[0]) && |ss[0].tasks| <= WORD && i < |ss|
    ensures Inv(ss[i]) && |ss[i].tasks| == |ss[0].tasks|
  {
    hide Inv, Init;
    if i == 0 {
      InitHolds(ss[0]);
    } else {
      AlwaysInv(ss, acts, i - 1);
      StepKeeps(ss[i - 1], acts[i - 1]);
    }
  }

  lemma InitHolds(s: Sys)
    requires Init(s)
    ensures Inv(s)
  {
    NobodyWaits(s.tasks);
  }

  lemma {:induction false} NobodyWaits(tasks: seq<Task>)
    requires forall t | 0 <= t < |tasks| :: !Pending(tasks[t])
    ensures Waiting(tasks) == 0
  {
    if |tasks| > 0 { NobodyWaits(tasks[..|tasks| - 1]); }
  }

  /** What the lock promises in a state. */
  ghost predicate Safe(s: Sys) {
    // at most one task holds the lock
    && (forall t, u | 0 <= t < |s.tasks| && 0 <= u < |s.tasks| && Holds(s.tasks[t]) && Holds(s.tasks[u]) :: t == u)
    // whoever is in the critical section holds it
    && (forall t | 0 <= t < |s.tasks| && s.tasks[t].pc.Inside? :: Holds(s.tasks[t]) && s.tasks[t].depth > 0)
    // the lock has been granted to the tickets 1, 2, 3, ... in this order
    && (forall i | 0 <= i < |s.grants| :: s.grants[i] == i + 1)
    // a task that calls lock finds itself to be the owner exactly if it is inside
    && (forall t | 0 <= t < |s.tasks| && s.tasks[t].pc.Check? :: s.owner == t <==> s.tasks[t].depth > 0)
    // an unlock gives the lock back exactly if it matches the outermost lock
    && (forall t | 0 <= t < |s.tasks| && s.tasks[t].pc.Test? :: s.counter == 0 <==> s.tasks[t].depth == 0)
  }

  lemma AlwaysSafe(ss: seq<Sys>, acts: seq<Action>, i: nat)
    requires IsRun(ss, acts) && Init(ss[0]) && |ss[0].tasks| <= WORD && i < |ss|
    ensures Safe(ss[i])
  {
    AlwaysInv(ss, acts, i);
    forall t | 0 <= t < |ss[i].tasks| ensures PcInv(ss[i], ss[i].tasks[t]) {}
  }

  // How calls of lock and unlock match.

  /** How many calls of lock by task `t` have no matching call of unlock after `n` actions. */
  function Open(acts: seq<Action>, n: nat, t: nat): int
    requires n <= |acts|
  {
    if n == 0 then 0
    else Open(acts, n - 1, t) + if acts[n - 1] == Lock(t) then 1 else if acts[n - 1] == Unlock(t) then -1 else 0
  }

  /** Where a task stands when `open` of its calls have no matching one. */
  ghost predicate Matches(x: Task, open: int) {
    match x.pc
    case Away => open == 0
    case Check => open == x.depth + 1
    case Again => open == x.depth + 1
    case Inside => open == x.depth
    case Drop => open == x.depth - 1
    case Test => open == x.depth
    case ClearOwner => open == 0
    case Release => open == 0
    case _ => open == 1
  }

  lemma StepMatches(s: Sys, a: Action, t: nat, open: int)
    requires Inv(s) && |s.tasks| <= WORD && Enabled(s, a) && t < |s.tasks| && Matches(s.tasks[t], open)
    ensures |Do(s, a).tasks| == |s.tasks|
    ensures Matches(Do(s, a).tasks[t], open + if a == Lock(t) then 1 else if a == Unlock(t) then -1 else 0)
  {
    hide Wrap, Distinct, Waiting;
    assert PcInv(s, s.tasks[t]);
  }

  lemma {:induction false} AlwaysMatches(ss: seq<Sys>, acts: seq<Action>, i: nat, t: nat)
    requires IsRun(ss, acts) && Init(ss[0]) && |ss[0].tasks| <= WORD && i < |ss| && t < |ss[0].tasks|
    ensures |ss[i].tasks| == |ss[0].tasks| && Matches(ss[i].tasks[t], Open(acts, i, t))
  {
    hide Inv, Matches, Enabled;
    if i == 0 {
      assert Matches(ss[0].tasks[t], 0) by { StartMatches(ss[0], t); }
    } else {
      AlwaysMatches(ss, acts, i - 1, t);
      AlwaysInv(ss, acts, i - 1);
      StepMatches(ss[i - 1], acts[i - 1], t, Open(acts, i - 1, t));
    }
  }

  lemma StartMatches(s: Sys, t: nat)
    requires Init(s) && t < |s.tasks|
    ensures Matches(s.tasks[t], 0)
  {}

  /** Nesting is counted: in every state of every run a task in the critical section has as many open
      calls as the counter says, a task outside has none, and a task that calls lock again goes on
      without a ticket exactly if it has another open call. */
  lemma NestingCounted(ss: seq<Sys>, acts: seq<Action>, i: nat, t: nat)
    requires IsRun(ss, acts) && Init(ss[0]) && |ss[0].tasks| <= WORD && i < |ss| && t < |ss[0].tasks|
    ensures var s, open := ss[i], Open(acts, i, t);
      && t < |s.tasks| && open >= 0
      && (s.tasks[t].pc.Inside? ==> s.counter == open > 0 && s.tasks[t].depth == open && s.owner == t)
      && (s.tasks[t].pc.Away? ==> open == 0 && s.owner != t)
      && (s.tasks[t].pc.Check? ==> open > 0 && (s.owner == t <==> open > 1))
  {
    hide Wrap, Distinct, Waiting, IsRun, Init;
    AlwaysInv(ss, acts, i);
    AlwaysMatches(ss, acts, i, t);
    assert PcInv(ss[i], ss[i].tasks[t]);
  }

  /** Task `t` makes no call in the actions from `j` up to `i`. */
  ghost predicate NoCall(acts: seq<Action>, j: nat, i: nat, t: nat) {
    forall k | j <= k < i && k < |acts| :: acts[k] != Lock(t) && acts[k] != Unlock(t)
  }

  /** The task is in a call of unlock that gives the lock back, or in one that does not. */
  predicate Returning(pc: Pc, back: bool) {
    pc in {Drop, Test} || (if back then pc in {ClearOwner, Release} else pc.Inside?)
  }

  /** Action `k` serves the next ticket. */
  ghost predicate ServesNext(ss: seq<Sys>, acts: seq<Action>, k: nat, t: nat) {
    k + 1 < |ss| && k < |acts| && acts[k] == Run(t) && ss[k + 1].dequeue == Wrap(ss[k].dequeue + 1)
  }

  /** Unless its holder does it, no step serves the next ticket. */
  lemma OthersWait(s: Sys, a: Action, t: nat)
    requires Inv(s) && |s.tasks| <= WORD && Enabled(s, a) && t < |s.tasks| && Holds(s.tasks[t])
    ensures |Do(s, a).tasks| == |s.tasks|
    ensures a.t != t ==> Do(s, a).tasks[t] == s.tasks[t] && Do(s, a).dequeue == s.dequeue
    ensures a.t == t && !s.tasks[t].pc.Release? ==> Do(s, a).dequeue == s.dequeue
  {
    hide Wrap, Distinct, Waiting, PcInv;
    assert Holds(s.tasks[a.t]) ==> a.t == t;
  }

  lemma ReturnStep(s: Sys, a: Action, t: nat, open: nat)
    requires Inv(s) && |s.tasks| <= WORD && Enabled(s, a) && t < |s.tasks| && Matches(s.tasks[t], open)
    requires Returning(s.tasks[t].pc, open == 0) && a != Lock(t) && a != Unlock(t)
    ensures var s' := Do(s, a);
      && |s'.tasks| == |s.tasks|
      && if a.t == t && s.tasks[t].pc.Release? then s'.tasks[t].pc.Away? && s'.dequeue == Wrap(s.dequeue + 1)
         else s'.dequeue == s.dequeue && Returning(s'.tasks[t].pc, open == 0)
  {
    hide Wrap, Distinct, Waiting;
    assert PcInv(s, s.tasks[t]);
    OthersWait(s, a, t);
  }

  /** An unlock gives the lock back exactly if it matches the outermost lock. When the call made by action
      `j` has returned at state `i`: if the task has no open call left, then the call has served the next
      ticket and the task is outside; otherwise no ticket was served and the task is inside. */
  lemma {:induction false} GivesBack(ss: seq<Sys>, acts: seq<Action>, j: nat, i: nat, t: nat)
    requires IsRun(ss, acts) && Init(ss[0]) && |ss[0].tasks| <= WORD && t < |ss[0].tasks|
    requires j < i < |ss| && acts[j] == Unlock(t) && NoCall(acts, j + 1, i, t)
    ensures t < |ss[i].tasks| && Open(acts, i, t) == Open(acts, j + 1, t) >= 0
    ensures Open(acts, i, t) > 0 ==>
      ss[i].dequeue == ss[j].dequeue && ss[i].tasks[t].pc in {Drop, Test, Inside}
    ensures Open(acts, i, t) == 0 ==>
      if ss[i].tasks[t].pc.Away? then
        exists k | j < k < i :: ServesNext(ss, acts, k, t) && ss[k].dequeue == ss[j].dequeue
      else ss[i].dequeue == ss[j].dequeue && ss[i].tasks[t].pc in {Drop, Test, ClearOwner, Release}
    decreases i
  {
    hide Inv, Wrap, Matches, Enabled, Init, Do;
    AlwaysMatches(ss, acts, i - 1, t);
    AlwaysInv(ss, acts, i - 1);
    NestingCounted(ss, acts, i, t);
    if i == j + 1 {
      UnlockStarts(ss[j], t);
    } else {
      GivesBack(ss, acts, j, i - 1, t);
      var s := ss[i - 1];
      if s.tasks[t].pc.Away? {
        AwayStays(s, acts[i - 1], t);
      } else {
        ReturnStep(s, acts[i - 1], t, Open(acts, i - 1, t));
        if ss[i].tasks[t].pc.Away? { assert ServesNext(ss, acts, i - 1, t); }
      }
    }
  }

  lemma AwayStays(s: Sys, a: Action, t: nat)
    requires Enabled(s, a) && t < |s.tasks| && s.tasks[t].pc.Away? && a != Lock(t)
    ensures |Do(s, a).tasks| == |s.tasks| && Do(s, a).tasks[t] == s.tasks[t]
  {}

  lemma UnlockStarts(s: Sys, t: nat)
    requires Enabled(s, Unlock(t))
    ensures Do(s, Unlock(t)) == Goto(s, t, Drop)
  {}

  /** In every run a ticket is served only by a task that holds the lock and has no open call. */
  lemma ServedOnlyBack(ss: seq<Sys>, acts: seq<Action>, i: nat)
    requires IsRun(ss, acts) && Init(ss[0]) && |ss[0].tasks| <= WORD && i < |acts|
    requires ss[i + 1].dequeue != ss[i].dequeue
    ensures var t := acts[i].t;
      && acts[i].Run? && t < |ss[i].tasks| && ss[i].holder == Some(t)
      && Open(acts, i, t) == 0 && ss[i + 1].dequeue == Wrap(ss[i].dequeue + 1)
  {
    hide Inv, Wrap, Matches, Do, Enabled, Init;
    AlwaysInv(ss, acts, i);
    DequeueMoves(ss[i], acts[i]);
    AlwaysMatches(ss, acts, i, acts[i].t);
    ReleaseMatches(ss[i].tasks[acts[i].t], Open(acts, i, acts[i].t));
  }

  lemma DequeueMoves(s: Sys, a: Action)
    requires Inv(s) && Enabled(s, a) && Do(s, a).dequeue != s.dequeue
    ensures a.Run? && a.t < |s.tasks| && s.tasks[a.t].pc.Release? && s.holder == Some(a.t)
    ensures Do(s, a).dequeue == Wrap(s.dequeue + 1)
  {
    hide Wrap, Distinct, Waiting, PcInv;
  }

  lemma ReleaseMatches(x: Task, open: int)
    requires Matches(x, open) && x.pc.Release?
    ensures open == 0
  {}

  // Who comes first.

  /** Action `k` is task `t` drawing its ticket. */
  ghost predicate Draws(ss: seq<Sys>, acts: seq<Action>, k: nat, t: nat) {
    k < |ss| && k < |acts| && acts[k] == Run(t) && t < |ss[k].tasks| && ss[k].tasks[t].pc.Draw?
  }

  /** From state `a` to state `b` task `t` waits for its ticket. */
  ghost predicate WaitsFor(ss: seq<Sys>, a: nat, b: nat, t: nat) {
    forall k: nat | a <= k <= b && k < |ss| :: t < |ss[k].tasks| && ss[k].tasks[t].pc.Spin?
  }

  lemma SpinStep(s: Sys, a: Action, t: nat)
    requires Enabled(s, a) && t < |s.tasks| && s.tasks[t].pc.Spin?
    ensures |Do(s, a).tasks| == |s.tasks| && Do(s, a).tasks[t].number == s.tasks[t].number
  {}

  lemma {:induction false} DrawnGrows(ss: seq<Sys>, acts: seq<Action>, a: nat, b: nat)
    requires IsRun(ss, acts) && a <= b < |ss|
    ensures ss[a].drawn <= ss[b].drawn
    decreases b
  {
    if a < b { DrawnGrows(ss, acts, a, b - 1); }
  }

  /** While it waits, a task keeps the number of its ticket. */
  lemma {:induction false} KeepsNumber(ss: seq<Sys>, acts: seq<Action>, a: nat, b: nat, t: nat)
    requires IsRun(ss, acts) && Draws(ss, acts, a, t) && a < b < |ss| && WaitsFor(ss, a + 1, b, t)
    ensures t < |ss[b].tasks| && ss[b].tasks[t].pc.Spin? && ss[b].tasks[t].number == ss[a].drawn + 1
    decreases b
  {
    hide Wrap;
    if b > a + 1 {
      KeepsNumber(ss, acts, a, b - 1, t);
      hide Do;
      SpinStep(ss[b - 1], acts[b - 1], t);
    }
  }

  /** First come, first served: while the task that has drawn a ticket first still waits, the one that
      has drawn later is not let in. */
  lemma FirstComeFirstServed(ss: seq<Sys>, acts: seq<Action>, a: nat, b: nat, i: nat, t: nat, u: nat)
    requires IsRun(ss, acts) && Init(ss[0]) && |ss[0].tasks| <= WORD && a < b < i < |acts|
    requires Draws(ss, acts, a, t) && WaitsFor(ss, a + 1, i, t)
    requires Draws(ss, acts, b, u) && WaitsFor(ss, b + 1, i, u) && acts[i] == Run(u)
    ensures ss[i + 1] == ss[i]
  {
    AlwaysInv(ss, acts, i);
    KeepsNumber(ss, acts, a, i, t);
    KeepsNumber(ss, acts, b, i, u);
    DrawnGrows(ss, acts, a + 1, b);
    ServedTicket(ss[i], u);
    hide Wrap, Waiting, Distinct;
    assert PcInv(ss[i], ss[i].tasks[t]);
  }
}
