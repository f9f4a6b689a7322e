/** The priority round-robin scheduler as a state machine over ready queues
    (kernel/tasks.c). One step is one section that runs with interrupts off. */
module ReadyQueues {
  import opened Base

  const MAX_PRIO: int := 31

  datatype Status = Invalid | Ready | Running | Blocked | Finished | Idle

  /** Task table, ready queues (queue p - 1 holds the tasks of priority p, the next one to run
      first), the current task, the task that the last switch left to be put back, and the
      number of runnable tasks. Task 0 is the idle task. */
  datatype Sys = Sys(
    status: seq<Status>,
    prio: seq<nat>,
    queues: seq<seq<nat>>,
    current: nat,
    left: Option<nat>,
    nrTasks: int)

  predicate Shape(s: Sys) {
    && |s.status| == |s.prio| > 0
    && |s.queues| == MAX_PRIO
    && s.current < |s.status|
    && (s.left.Some? ==> s.left.value < |s.status|)
    && (forall t | 0 < t < |s.status| && !s.status[t].Invalid? :: 1 <= s.prio[t] <= MAX_PRIO)
    && (forall q, t | 0 <= q < MAX_PRIO && t in s.queues[q] :: t < |s.status|)
  }

  function Runnable(status: seq<Status>): nat {
    if |status| == 0 then 0
    else Runnable(status[..|status| - 1]) + (if status[|status| - 1] in {Ready, Running} then 1 else 0)
  }

  /** The largest index below `k` of a queue that is not empty, or -1. */
  function Highest(queues: seq<seq<nat>>, k: nat): (h: int)
    requires k <= |queues|
    ensures -1 <= h < k
    ensures h >= 0 ==> queues[h] != []
    ensures forall q | h < q < k :: queues[q] == []
  {
    if k == 0 then -1 else if queues[k - 1] != [] then k - 1 else Highest(queues, k - 1)
  }

  function Append(queues: seq<seq<nat>>, p: nat, t: nat): seq<seq<nat>>
    requires 1 <= p <= |queues|
  {
    queues[p - 1 := queues[p - 1] + [t]]
  }

  // The operations.

  /** Hands the processor to the head of the highest queue. */
  function Dispatch(s: Sys, h: nat): Sys
    requires Shape(s) && h < MAX_PRIO && s.queues[h] != []
  {
    var t := s.queues[h][0];
    assert t in s.queues[h];
    s.(current := t, status := s.status[t := Running], queues := s.queues[h := s.queues[h][1..]])
  }

  /** `scheduler`, kernel/tasks.c:331-393. */
  function Schedule(s: Sys): Sys
    requires Shape(s)
  {
    var cur, finished := s.current, s.status[s.current].Finished?;
    var s1 := if finished then s.(status := s.status[cur := Invalid], left := Some(cur)) else s.(left := None);
    var h := Highest(s.queues, MAX_PRIO);
    if h < 0 then
      if s1.status[cur] in {Running, Idle} then s1 else s1.(current := 0)
    else if s1.prio[cur] > h + 1 && s1.status[cur].Running? then s1
    else if s1.status[cur].Running? then
      Dispatch(s1.(status := s1.status[cur := Ready], left := Some(cur)), h)
    else Dispatch(s1, h)
  }

  /** `finish_task_switch`, kernel/tasks.c:84-112. */
  function FinishSwitch(s: Sys): Sys
    requires Shape(s) && (s.left.Some? ==> s.status[s.left.value].Invalid? || s.left.value > 0)
  {
    match s.left
    case None => s
    case Some(t) =>
      if s.status[t].Invalid? then s.(left := None)
      else s.(left := None, queues := Append(s.queues, s.prio[t], t))
  }

  /** The first free slot of the task table at or after `i`. */
  function FreeSlot(status: seq<Status>, i: nat): (r: Option<nat>)
    requires i <= |status|
    ensures r.Some? ==> i <= r.value < |status| && status[r.value].Invalid?
    ensures forall t | i <= t < (if r.Some? then r.value else |status|) :: !status[t].Invalid?
    decreases |status| - i
  {
    if i == |status| then None
    else if status[i].Invalid? then Some(i) else FreeSlot(status, i + 1)
  }

  datatype Error = EINVAL | ENOMEM

  datatype Created = Task(id: nat) | Failed(error: Error)

  /** `create_task`, kernel/tasks.c:160-224; `entry` says whether an entry point was given and
      `pages` whether a frame for the new root table could be had. */
  function Create(s: Sys, entry: bool, prio: nat, pages: bool): (Sys, Created)
    requires Shape(s)
  {
    if !entry || prio == 0 || prio > MAX_PRIO then (s, Failed(EINVAL))
    else
      match FreeSlot(s.status, 0)
      case None => (s, Failed(ENOMEM))
      case Some(t) =>
        var s1 := s.(status := s.status[t := Ready], prio := s.prio[t := prio]);
        if !pages then (s1, Failed(ENOMEM))
        else (s1.(nrTasks := s.nrTasks + 1, queues := Append(s.queues, prio, t)), Task(t))
  }

  /** `wakeup_task`, kernel/tasks.c:240-277. */
  function Wake(s: Sys, t: nat): Sys
    requires Shape(s) && t < |s.status| && (s.status[t].Blocked? ==> t > 0)
  {
    if s.status[t].Blocked? then
      s.(status := s.status[t := Ready], nrTasks := s.nrTasks + 1, queues := Append(s.queues, s.prio[t], t))
    else s
  }

  /** `block_current_task`, kernel/tasks.c:287-329. */
  function Block(s: Sys): Sys
    requires Shape(s)
  {
    if s.status[s.current].Running? then
      s.(status := s.status[s.current := Blocked], nrTasks := s.nrTasks - 1)
    else s
  }

  /** `do_exit`, kernel/tasks.c:120-134, up to the call of the scheduler. */
  function Exit(s: Sys): Sys
    requires Shape(s)
  {
    s.(status := s.status[s.current := Finished], nrTasks := s.nrTasks - 1)
  }

  // The invariant.

  predicate Queued(s: Sys, t: nat)
    requires Shape(s) && t < |s.status| && 1 <= s.prio[t] <= MAX_PRIO
  {
    t in s.queues[s.prio[t] - 1]
  }

  predicate NoRepeats(q: seq<nat>) {
    forall i, j | 0 <= i < j < |q| :: q[i] != q[j]
  }

  /** What holds of queues and table, `out` being a ready task that is in no queue. */
  ghost predicate Core(s: Sys, out: Option<nat>)
    requires Shape(s)
  {
    // the idle task, and nobody else, is idle
    && s.prio[0] == 0 && (forall t | 0 <= t < |s.status| :: s.status[t].Idle? <==> t == 0)
    && Sound(s)
    // every other ready task is queued
    && (forall t | 0 <= t < |s.status| && s.status[t].Ready? :: Queued(s, t) <==> out != Some(t))
    // only the current task can be running
    && (forall t | 0 <= t < |s.status| && s.status[t].Running? :: t == s.current)
    && s.nrTasks == Runnable(s.status)
  }

  /** Queue p - 1 holds ready tasks of priority p, each once. */
  ghost predicate Sound(s: Sys)
    requires Shape(s)
  {
    && (forall q, t | 0 <= q < MAX_PRIO && t in s.queues[q] :: s.status[t].Ready? && s.prio[t] == q + 1)
    && (forall q | 0 <= q < MAX_PRIO :: NoRepeats(s.queues[q]))
  }

  ghost predicate Inv(s: Sys) {
    && Shape(s) && Core(s, s.left)
    && (s.left.Some? ==> s.left.value > 0 && s.left.value != s.current && s.status[s.left.value] in {Ready, Invalid})
    && !s.status[s.current].Invalid?
  }

  // Every step keeps the invariant.

  lemma {:induction false} RunnableUpdate(status: seq<Status>, t: nat, x: Status)
    requires t < |status|
    ensures Runnable(status[t := x])
      == Runnable(status) - (if status[t] in {Ready, Running} then 1 else 0) + (if x in {Ready, Running} then 1 else 0)
  {
    var n := |status| - 1;
    if t == n {
      assert status[t := x][..n] == status[..n];
    } else {
      assert status[t := x][..n] == status[..n][t := x];
      RunnableUpdate(status[..n], t, x);
    }
  }

  lemma DispatchKeeps(s: Sys, h: nat)
    requires Shape(s) && Core(s, s.left) && h < MAX_PRIO && s.queues[h] != []
    requires forall t | 0 <= t < |s.status| :: !s.status[t].Running?
    requires s.left.Some? ==> s.left.value > 0 && s.status[s.left.value] in {Ready, Invalid}
    ensures Inv(Dispatch(s, h)) && s.status[s.queues[h][0]].Ready?
  {
    hide Sound, Runnable;
    DispatchSound(s, h);
    var t, s' := s.queues[h][0], Dispatch(s, h);
    RunnableUpdate(s.status, t, Running);
    hide Shape;
    forall x | 0 <= x < |s.status| && s'.status[x].Ready? ensures Queued(s', x) <==> Queued(s, x) {
      HeadAndTail(s.queues[h], x);
    }
  }

  lemma HeadAndTail(q: seq<nat>, x: nat)
    requires q != []
    ensures x in q <==> x == q[0] || x in q[1..]
  {}

  lemma DispatchSound(s: Sys, h: nat)
    requires Shape(s) && Sound(s) && h < MAX_PRIO && s.queues[h] != []
    ensures s.queues[h][0] in s.queues[h] && s.status[s.queues[h][0]].Ready? && s.prio[s.queues[h][0]] == h + 1
    ensures Shape(Dispatch(s, h)) && Sound(Dispatch(s, h))
  {
    var t, s' := s.queues[h][0], Dispatch(s, h);
    assert t in s.queues[h];
    assert NoRepeats(s.queues[h]);
    TailOfQueue(s.queues[h]);
    forall q, x | 0 <= q < MAX_PRIO && x in s'.queues[q] ensures x in s.queues[q] && x != t {
      assert s'.queues[q] == if q == h then s.queues[h][1..] else s.queues[q];
      assert x in s.queues[q] && s.prio[x] == q + 1;
    }
  }

  lemma TailOfQueue(q: seq<nat>)
    requires q != [] && NoRepeats(q)
    ensures NoRepeats(q[1..]) && q[0] !in q[1..] && forall x | x in q[1..] :: x in q
  {}

  /** Giving up the processor: the task finishes or goes back among the ready ones. */
  lemma SetAside(s: Sys, x: Status)
    requires Inv(s) && s.left == None && x in {Ready, Invalid}
    requires if x.Ready? then s.status[s.current].Running? else s.status[s.current].Finished?
    ensures var s' := s.(status := s.status[s.current := x], left := Some(s.current));
      && s.current > 0 && Shape(s') && Core(s', s'.left)
      && forall t | 0 <= t < |s'.status| :: !s'.status[t].Running?
  {
    hide Runnable, Sound;
    RunnableUpdate(s.status, s.current, x);
    OffQueues(s, s.current);
    SoundKept(s, s.(status := s.status[s.current := x], left := Some(s.current)), s.current);
  }

  /** A task that is not ready is on no queue. */
  lemma OffQueues(s: Sys, t: nat)
    requires Shape(s) && Sound(s) && t < |s.status| && !s.status[t].Ready?
    ensures forall q | 0 <= q < MAX_PRIO :: t !in s.queues[q]
  {
    hide NoRepeats;
  }

  /** Changing a task that is on no queue keeps the queues sound. */
  lemma SoundKept(s: Sys, s': Sys, t: nat)
    requires Shape(s) && Shape(s') && Sound(s) && s'.queues == s.queues && |s'.status| == |s.status|
    requires forall x | 0 <= x < |s.status| && x != t :: s'.status[x] == s.status[x] && s'.prio[x] == s.prio[x]
    requires forall q | 0 <= q < MAX_PRIO :: t !in s.queues[q]
    ensures Sound(s')
  {
    hide NoRepeats;
  }

  lemma ScheduleKeeps(s: Sys)
    requires Inv(s) && s.left == None
    ensures Inv(Schedule(s))
    ensures Schedule(s).left.Some? ==> Schedule(s).current != s.current
  {
    var cur, h := s.current, Highest(s.queues, MAX_PRIO);
    if s.status[cur].Finished? {
      SetAside(s, Invalid);
      hide Core;
      if h >= 0 { DispatchKeeps(s.(status := s.status[cur := Invalid], left := Some(cur)), h); }
    } else if !s.status[cur].Running? {
      if h >= 0 { DispatchKeeps(s, h); }
    } else if h >= 0 && s.prio[cur] <= h + 1 {
      SetAside(s, Ready);
      hide Core;
      DispatchKeeps(s.(status := s.status[cur := Ready], left := Some(cur)), h);
    }
  }

  lemma AppendKeeps(s: Sys, t: nat)
    requires Shape(s) && 0 < t < |s.status| && Core(s, Some(t)) && s.status[t].Ready?
    ensures var s' := s.(left := None, queues := Append(s.queues, s.prio[t], t));
      Shape(s') && Core(s', None)
  {
    var p, s' := s.prio[t] - 1, s.(left := None, queues := Append(s.queues, s.prio[t], t));
    hide Runnable, Sound;
    AppendSound(s, t);
    forall x | 0 <= x < |s.status| && s.status[x].Ready? ensures Queued(s', x) {
      assert x != t ==> Queued(s, x);
      AppendMember(s.queues, s.prio[t], t, x);
    }
  }

  lemma AppendMember(queues: seq<seq<nat>>, p: nat, t: nat, x: nat)
    requires 1 <= p <= |queues|
    ensures forall q | 0 <= q < |queues| :: x in Append(queues, p, t)[q] <==> x in queues[q] || (q == p - 1 && x == t)
  {}

  lemma AppendSound(s: Sys, t: nat)
    requires Shape(s) && 0 < t < |s.status| && s.status[t].Ready? && Sound(s) && !Queued(s, t)
    ensures var s' := s.(left := None, queues := Append(s.queues, s.prio[t], t)); Shape(s') && Sound(s')
  {
    var s' := s.(left := None, queues := Append(s.queues, s.prio[t], t));
    forall q, x | 0 <= q < MAX_PRIO && x in s'.queues[q] ensures x in s.queues[q] || (q == s.prio[t] - 1 && x == t) {
      AppendMember(s.queues, s.prio[t], t, x);
    }
  }

  lemma FinishKeeps(s: Sys)
    requires Inv(s)
    ensures Inv(FinishSwitch(s)) && FinishSwitch(s).left == None
  {
    if s.left.Some? && s.status[s.left.value].Ready? {
      hide Core;
      AppendKeeps(s, s.left.value);
    }
  }

  /** A task that becomes ready: it was not queued. */
  lemma ReadyKeeps(s: Sys, t: nat, prio: nat)
    requires Inv(s) && s.left == None && 0 < t < |s.status| && s.status[t] in {Invalid, Blocked}
    requires 1 <= prio <= MAX_PRIO && (s.status[t].Blocked? ==> prio == s.prio[t])
    ensures var s' := s.(status := s.status[t := Ready], prio := s.prio[t := prio], nrTasks := s.nrTasks + 1);
      Shape(s') && Core(s', Some(t))
  {
    hide Runnable, Sound;
    RunnableUpdate(s.status, t, Ready);
    OffQueues(s, t);
    SoundKept(s, s.(status := s.status[t := Ready], prio := s.prio[t := prio], nrTasks := s.nrTasks + 1), t);
  }

  lemma CreateInSlot(s: Sys, t: nat, prio: nat)
    requires Inv(s) && s.left == None && 0 < t < |s.status| && s.status[t].Invalid? && 1 <= prio <= MAX_PRIO
    ensures Inv(s.(status := s.status[t := Ready], prio := s.prio[t := prio], nrTasks := s.nrTasks + 1,
                   queues := Append(s.queues, prio, t)))
  {
    ReadyKeeps(s, t, prio);
    hide Core, Shape;
    AppendKeeps(s.(status := s.status[t := Ready], prio := s.prio[t := prio], nrTasks := s.nrTasks + 1), t);
  }

  lemma CreateWithoutPages(s: Sys, t: nat, prio: nat)
    requires Inv(s) && s.left == None && 0 < t < |s.status| && s.status[t].Invalid? && 1 <= prio <= MAX_PRIO
    ensures !Inv(s.(status := s.status[t := Ready], prio := s.prio[t := prio]))
  {
    var s' := s.(status := s.status[t := Ready], prio := s.prio[t := prio]);
    assert t !in s.queues[prio - 1];
    assert Shape(s') ==> !Queued(s', t);
  }

  /** Failing to get a frame for the root table leaves a ready task that is in no queue: that
      is the only way for `create_task` to break the invariant. */
  lemma CreateKeeps(s: Sys, entry: bool, prio: nat, pages: bool)
    requires Inv(s) && s.left == None
    ensures Inv(Create(s, entry, prio, pages).0)
      <==> !entry || prio == 0 || prio > MAX_PRIO || FreeSlot(s.status, 0) == None || pages
  {
    var slot := FreeSlot(s.status, 0);
    assert slot.Some? ==> slot.value > 0;
    hide Inv;
    if 1 <= prio <= MAX_PRIO && slot.Some? {
      CreateInSlot(s, slot.value, prio);
      CreateWithoutPages(s, slot.value, prio);
    }
  }

  lemma WakeKeeps(s: Sys, t: nat)
    requires Inv(s) && s.left == None && t < |s.status|
    ensures Inv(Wake(s, t))
  {
    if s.status[t].Blocked? {
      assert s.prio[t := s.prio[t]] == s.prio;
      ReadyKeeps(s, t, s.prio[t]);
      hide Core;
      AppendKeeps(s.(status := s.status[t := Ready], nrTasks := s.nrTasks + 1), t);
    }
  }

  lemma BlockKeeps(s: Sys)
    requires Inv(s) && s.left == None
    ensures Inv(Block(s))
  {
    RunnableUpdate(s.status, s.current, Blocked);
  }

  lemma ExitKeeps(s: Sys)
    requires Inv(s) && s.left == None && s.status[s.current].Running?
    ensures Inv(Exit(s))
  {
    RunnableUpdate(s.status, s.current, Finished);
  }

  // What each operation does, task by task.

  /** Nothing but task `t` changes, apart from the queues, `left` and the count. */
  ghost predicate OnlyTask(s: Sys, s': Sys, t: nat) {
    && Shape(s) && |s'.status| == |s.status| && |s'.prio| == |s.prio| && |s'.queues| == |s.queues|
    && forall u | 0 <= u < |s.status| && u != t :: s'.status[u] == s.status[u] && s'.prio[u] == s.prio[u]
  }

  /** Task `t` comes last in the queue of priority `p`, and is in no other; the queues are as before
      otherwise. */
  ghost predicate ComesLast(s: Sys, s': Sys, t: nat, p: nat) {
    && |s.queues| == |s'.queues| == MAX_PRIO && 1 <= p <= MAX_PRIO && s'.queues[p - 1] == s.queues[p - 1] + [t]
    && forall q | 0 <= q < MAX_PRIO :: t !in s.queues[q] && (q != p - 1 ==> s'.queues[q] == s.queues[q])
  }

  predicate ValidCall(entry: bool, prio: nat) { entry && 1 <= prio <= MAX_PRIO }

  /** `t` is the lowest free slot. */
  ghost predicate Lowest(s: Sys, t: nat) {
    t < |s.status| && s.status[t].Invalid? && forall u | 0 <= u < t :: !s.status[u].Invalid?
  }

  /** What `create_task` answers, and what becomes of the tables. */
  ghost predicate Creates(s: Sys, entry: bool, prio: nat, pages: bool, s': Sys, r: Created) {
    && (r == Failed(EINVAL) <==> !ValidCall(entry, prio))
    && (r == Failed(ENOMEM) <==>
          ValidCall(entry, prio) && (!pages || forall u | 0 <= u < |s.status| :: !s.status[u].Invalid?))
    && (r.Failed? && (r.error.EINVAL? || forall u | 0 <= u < |s.status| :: !s.status[u].Invalid?) ==> s' == s)
    && s'.current == s.current && s'.left == s.left
    && (r.Task? ==> CreatedTask(s, prio, s', r.id) && ComesLast(s, s', r.id, prio) && s'.nrTasks == s.nrTasks + 1)
    && (r == Failed(ENOMEM) ==>
          forall t: nat | Lowest(s, t) ::
            CreatedTask(s, prio, s', t) && s'.queues == s.queues && s'.nrTasks == s.nrTasks)
  }

  ghost predicate CreatedTask(s: Sys, prio: nat, s': Sys, t: nat) {
    && Lowest(s, t) && OnlyTask(s, s', t) && |s'.prio| == |s'.status|
    && s'.status[t].Ready? && s'.prio[t] == prio
  }

  lemma CreateAnswers(s: Sys, entry: bool, prio: nat, pages: bool)
    requires Inv(s)
    ensures Creates(s, entry, prio, pages, Create(s, entry, prio, pages).0, Create(s, entry, prio, pages).1)
  {
    hide Runnable, NoRepeats;
    var slot := FreeSlot(s.status, 0);
    if slot.Some? { OffQueues(s, slot.value); }
  }

  /** `wakeup_task`: a blocked task becomes ready, last in the queue of its priority. */
  ghost predicate Wakes(s: Sys, t: nat, s': Sys) {
    if t < |s.status| && s.status[t].Blocked? then
      && OnlyTask(s, s', t) && s'.prio == s.prio && s'.status[t].Ready? && ComesLast(s, s', t, s.prio[t])
      && s'.current == s.current && s'.left == s.left && s'.nrTasks == s.nrTasks + 1
    else s' == s
  }

  lemma WakeEffect(s: Sys, t: nat)
    requires Inv(s) && t < |s.status|
    ensures Wakes(s, t, Wake(s, t))
  {
    hide Runnable, NoRepeats;
    if s.status[t].Blocked? { OffQueues(s, t); }
  }

  /** Only the status of the current task changes, to `x`, and one task less can run. */
  ghost predicate Retires(s: Sys, x: Status, s': Sys) {
    && OnlyTask(s, s', s.current) && s'.prio == s.prio && s'.status[s.current] == x
    && s'.queues == s.queues && s'.current == s.current && s'.left == s.left && s'.nrTasks == s.nrTasks - 1
  }

  /** `finish_task_switch`: the task that was left, if it is ready, comes last in its queue. */
  ghost predicate Finishes(s: Sys, s': Sys) {
    && s'.left == None && s'.status == s.status && s'.prio == s.prio
    && s'.current == s.current && s'.nrTasks == s.nrTasks
    && if s.left.Some? && s.left.value < |s.status| == |s.prio| && s.status[s.left.value].Ready? then
         ComesLast(s, s', s.left.value, s.prio[s.left.value])
       else s'.queues == s.queues
  }

  lemma FinishEffect(s: Sys)
    requires Inv(s)
    ensures Finishes(s, FinishSwitch(s))
  {
    hide Runnable, NoRepeats;
  }

  /** The current task can go on and no task of its priority or a higher one is queued. */
  ghost predicate GoesOn(s: Sys)
    requires Shape(s)
  {
    && s.status[s.current] in {Running, Idle}
    && forall q | 0 <= q < MAX_PRIO && q + 1 >= s.prio[s.current] :: s.queues[q] == []
  }

  /** `scheduler`: the current task goes on, or else the head of the highest queue takes the processor, or
      else the idle task. A finished task frees its slot, a running one becomes ready. */
  ghost predicate Schedules(s: Sys, s': Sys) {
    && Shape(s) && s'.prio == s.prio && s'.nrTasks == s.nrTasks && |s'.status| == |s.status|
    && if GoesOn(s) then s' == s.(left := None)
       else
         && s'.left == (if s.status[s.current] in {Finished, Running} then Some(s.current) else None)
         && (if exists q | 0 <= q < MAX_PRIO :: s.queues[q] != [] then HeadRuns(s, s') && s'.status[s'.current].Running?
             else s'.current == 0 && s'.queues == s.queues)
         && (s.status[s.current].Finished? ==> s'.status[s.current].Invalid?)
         && (s.status[s.current].Running? ==> s'.status[s.current].Ready?)
         && forall t | 0 <= t < |s.status| && t != s'.current
              && !(t == s.current && s.status[t] in {Finished, Running}) :: s'.status[t] == s.status[t]
  }

  /** The head of the highest queue leaves it and becomes the current task. */
  ghost predicate HeadRuns(s: Sys, s': Sys) {
    exists q | 0 <= q < MAX_PRIO == |s.queues| == |s'.queues| && s.queues[q] != [] ::
      && s'.current == s.queues[q][0] && s'.current < |s'.status| && s'.queues[q] == s.queues[q][1..]
      && (forall r | q < r < MAX_PRIO :: s.queues[r] == [])
      && forall r | 0 <= r < MAX_PRIO && r != q :: s'.queues[r] == s.queues[r]
  }

  lemma ScheduleEffect(s: Sys)
    requires Inv(s) && s.left == None
    ensures Schedules(s, Schedule(s))
  {
    hide Core, Runnable, Inv, Sound;
    InvShape(s);
    CoreFacts(s);
    var h := Highest(s.queues, MAX_PRIO);
    if h >= 0 {
      DispatchHead(s, h);
      assert !GoesOn(s) ==> HeadRuns(s, Schedule(s));
    }
  }

  // Runs.

  datatype Step =
    | Reschedule
    | SwitchDone
    | CreateTask(entry: bool, prio: nat)
    | WakeTask(id: nat)
    | BlockCurrent
    | ExitCurrent

  /** A switch is completed before anything else happens; only a running task exits; a new
      task gets its root table. */
  ghost predicate Enabled(s: Sys, e: Step) {
    && Shape(s)
    && (e.SwitchDone? || s.left == None)
    && (e.SwitchDone? && s.left.Some? ==> s.left.value > 0)
    && (e.WakeTask? ==> e.id < |s.status| && (s.status[e.id].Blocked? ==> e.id > 0))
    && (e.ExitCurrent? ==> s.status[s.current].Running?)
  }

  function Do(s: Sys, e: Step): Sys
    requires Enabled(s, e)
  {
    match e
    case Reschedule => Schedule(s)
    case SwitchDone => FinishSwitch(s)
    case CreateTask(entry, prio) => Create(s, entry, prio, true).0
    case WakeTask(id) => Wake(s, id)
    case BlockCurrent => Block(s)
    case ExitCurrent => Exit(s)
  }

  ghost predicate IsRun(ss: seq<Sys>, es: seq<Step>) {
    && |ss| == |es| + 1
    && forall i | 0 <= i < |es| :: Enabled(ss[i], es[i]) && ss[i + 1] == Do(ss[i], es[i])
  }

  /** The state in which `multitasking_init` leaves the tables (kernel/tasks.c:43-82). */
  ghost predicate Init(s: Sys) {
    && |s.status| == |s.prio| > 0 && |s.queues| == MAX_PRIO
    && s.status[0].Idle? && s.prio[0] == 0 && (forall t | 0 < t < |s.status| :: s.status[t].Invalid?)
    && (forall q | 0 <= q < MAX_PRIO :: s.queues[q] == [])
    && s.current == 0 && s.left == None && s.nrTasks == 0
  }

  lemma {:induction false} NoneRunnable(status: seq<Status>)
    requires forall t | 0 <= t < |status| :: status[t] in {Invalid, Idle}
    ensures Runnable(status) == 0
  {
    if |status| > 0 { NoneRunnable(status[..|status| - 1]); }
  }

  lemma InitHolds(s: Sys)
    requires Init(s)
    ensures Inv(s)
  {
    NoneRunnable(s.status);
  }

  lemma InvShape(s: Sys)
    requires Inv(s)
    ensures Shape(s)
  {}

  lemma StepKeeps(s: Sys, e: Step)
    requires Inv(s) && Enabled(s, e)
    ensures Inv(Do(s, e))
  {
    hide Inv;
    match e {
      case Reschedule => ScheduleKeeps(s);
      case SwitchDone => FinishKeeps(s);
      case CreateTask(entry, prio) => CreateKeeps(s, entry, prio, true);
      case WakeTask(id) => WakeKeeps(s, id);
      case BlockCurrent => BlockKeeps(s);
      case ExitCurrent => ExitKeeps(s);
    }
  }

  /** In every state of every run from boot the queues and the table agree. */
  lemma {:induction false} AlwaysConsistent(ss: seq<Sys>, es: seq<Step>, i: nat)
    requires IsRun(ss, es) && Init(ss[0]) && i < |ss|
    ensures Inv(ss[i])
  {
    hide Inv, Init, Enabled;
    if i == 0 {
      InitHolds(ss[0]);
    } else {
      AlwaysConsistent(ss, es, i - 1);
      StepKeeps(ss[i - 1], es[i - 1]);
    }
  }

  /** What a step does. */
  ghost predicate Effect(s: Sys, e: Step, s': Sys) {
    match e
    case Reschedule => Schedules(s, s')
    case SwitchDone => Finishes(s, s')
    case CreateTask(entry, prio) => exists r :: Creates(s, entry, prio, true, s', r)
    case WakeTask(id) => Wakes(s, id, s')
    case BlockCurrent =>
      s.current < |s.status| && if s.status[s.current].Running? then Retires(s, Blocked, s') else s' == s
    case ExitCurrent => Retires(s, Finished, s')
  }

  lemma AlwaysEffect(ss: seq<Sys>, es: seq<Step>, i: nat)
    requires IsRun(ss, es) && Init(ss[0]) && i < |es|
    ensures Effect(ss[i], es[i], ss[i + 1])
  {
    hide Inv, Init, Schedule, Schedules, Wake, Wakes, FinishSwitch, Finishes, Create, Creates;
    AlwaysConsistent(ss, es, i);
    var s := ss[i];
    match es[i]
    case Reschedule => ScheduleEffect(s);
    case SwitchDone => FinishEffect(s);
    case CreateTask(entry, prio) =>
      CreateAnswers(s, entry, prio, true);
      assert Creates(s, entry, prio, true, ss[i + 1], Create(s, entry, prio, true).1);
    case WakeTask(id) => WakeEffect(s, id);
    case BlockCurrent =>
    case ExitCurrent =>
  }

  /** The choice of `scheduler`: no ready task has a higher priority than the current one, a
      task that is given the processor was ready, and the idle task runs only if nobody can. */
  ghost predicate BestChoice(s: Sys, s': Sys) {
    && Shape(s) && Shape(s') && |s'.status| == |s.status|
    && (forall t | 0 <= t < |s'.status| && s'.status[t].Ready? :: s'.prio[t] <= s'.prio[s'.current])
    && s'.status[s'.current] in {Running, Idle}
    && (s'.current != s.current && s'.current > 0 ==> s.status[s'.current].Ready?)
    && (s'.current == 0 ==> forall t | 0 <= t < |s'.status| :: s'.status[t] !in {Ready, Running})
  }

  lemma ScheduleChooses(s: Sys)
    requires Inv(s) && s.left == None
    ensures BestChoice(s, Schedule(s))
  {
    hide Core, Runnable, Inv;
    InvShape(s);
    CoreFacts(s);
    var h, s' := Highest(s.queues, MAX_PRIO), Schedule(s);
    forall t: nat | t < |s.status| && s.status[t].Ready? ensures h >= 0 && s.prio[t] <= h + 1 && t > 0 {
      ReadyBelow(s, t);
    }
    if h >= 0 {
      DispatchHead(s, h);
      TailMembers(s.queues[h]);
      assert Shape(s');
    }
  }

  lemma TailMembers(q: seq<nat>)
    requires q != []
    ensures forall t | t in q[1..] :: t in q
  {}

  lemma CoreFacts(s: Sys)
    requires Inv(s)
    ensures Shape(s) && s.prio[0] == 0 && !s.status[s.current].Invalid?
    ensures forall t | 0 <= t < |s.status| :: s.status[t].Idle? <==> t == 0
    ensures forall t | 0 <= t < |s.status| && s.status[t].Running? :: t == s.current
  {
    hide Sound, Runnable;
  }

  /** A ready task is on some queue, so no higher than the highest. */
  lemma ReadyBelow(s: Sys, t: nat)
    requires Inv(s) && s.left == None && t < |s.status| && s.status[t].Ready?
    ensures |s.queues| == MAX_PRIO && s.prio[t] <= Highest(s.queues, MAX_PRIO) + 1 && Highest(s.queues, MAX_PRIO) >= 0
    ensures t > 0
  {
    hide Runnable, NoRepeats;
    assert Queued(s, t);
  }

  lemma DispatchHead(s: Sys, h: nat)
    requires Inv(s) && h < MAX_PRIO && Shape(s) && s.queues[h] != []
    ensures var t := s.queues[h][0]; t in s.queues[h] && t < |s.status| && s.status[t].Ready? && s.prio[t] == h + 1
  {
    hide Runnable, NoRepeats;
    DispatchSound(s, h);
  }

  lemma AlwaysBestChoice(ss: seq<Sys>, es: seq<Step>, i: nat)
    requires IsRun(ss, es) && Init(ss[0]) && i < |es| && es[i].Reschedule?
    ensures BestChoice(ss[i], ss[i + 1])
  {
    hide Inv, Init, BestChoice;
    AlwaysConsistent(ss, es, i);
    ScheduleChooses(ss[i]);
  }

  // Waiting time.

  /** Task `t` is at position `k` of the queue of priority `p`, nothing ready or running has a
      higher priority. */
  ghost predicate Waits(s: Sys, p: nat, k: nat, t: nat) {
    && Inv(s) && 1 <= p <= MAX_PRIO
    && k < |s.queues[p - 1]| && s.queues[p - 1][k] == t
    && (forall q | p <= q < MAX_PRIO :: s.queues[q] == [])
    && (s.status[s.current].Running? ==> s.prio[s.current] <= p)
    && (s.left.Some? && s.status[s.left.value].Ready? ==> s.prio[s.left.value] <= p)
  }

  ghost predicate HasProcessor(s: Sys, t: nat) {
    s.current == t && t < |s.status| && s.status[t].Running?
  }

  /** The step makes no task of a priority above `p` ready. */
  ghost predicate NotAbove(s: Sys, e: Step, p: nat)
    requires Enabled(s, e)
  {
    match e
    case CreateTask(_, prio) => prio <= p
    case WakeTask(id) => s.status[id].Blocked? ==> s.prio[id] <= p
    case _ => true
  }

  /** A round serves the head of the queue and moves the others up. */
  lemma WaitRound(s: Sys, p: nat, k: nat, t: nat)
    requires Waits(s, p, k, t) && s.left == None
    ensures if k > 0 then Waits(Schedule(s), p, k - 1, t) else HasProcessor(Schedule(s), t)
  {
    ScheduleKeeps(s);
    DispatchSound(s, p - 1);
    hide Core;
    assert Highest(s.queues, MAX_PRIO) == p - 1;
    assert Schedule(s).queues == s.queues[p - 1 := s.queues[p - 1][1..]];
  }

  lemma WaitStep(s: Sys, e: Step, p: nat, k: nat, t: nat)
    requires Waits(s, p, k, t) && Enabled(s, e) && NotAbove(s, e, p)
    ensures var s' := Do(s, e);
      if !e.Reschedule? then Waits(s', p, k, t)
      else if k > 0 then Waits(s', p, k - 1, t)
      else HasProcessor(s', t)
  {
    hide Core;
    if e.Reschedule? { WaitRound(s, p, k, t); } else { StepKeeps(s, e); }
  }

  /** Scheduling rounds among the first `n` steps. */
  function Rounds(es: seq<Step>, n: nat): nat
    requires n <= |es|
  {
    if n == 0 then 0 else Rounds(es, n - 1) + (if es[n - 1].Reschedule? then 1 else 0)
  }

  /** Bounded waiting: whatever else happens at the same or a lower priority, the task at
      position k of the highest queue has the processor after the (k + 1)-st scheduling round,
      and keeps its place, one position further each round, until then. */
  lemma {:induction false} BoundedWait(ss: seq<Sys>, es: seq<Step>, p: nat, k: nat, t: nat, n: nat)
    requires IsRun(ss, es) && n <= |es| && Waits(ss[0], p, k, t)
    requires forall i | 0 <= i < |es| :: NotAbove(ss[i], es[i], p)
    ensures Rounds(es, n) <= k ==> Waits(ss[n], p, k - Rounds(es, n), t)
    ensures Rounds(es, n) > k ==> exists i | 0 < i <= n :: Rounds(es, i) == k + 1 && HasProcessor(ss[i], t)
  {
    hide Waits, HasProcessor, Enabled, NotAbove, Do;
    if n > 0 {
      BoundedWait(ss, es, p, k, t, n - 1);
      if Rounds(es, n - 1) <= k { WaitStep(ss[n - 1], es[n - 1], p, k - Rounds(es, n - 1), t); }
    }
  }
}
