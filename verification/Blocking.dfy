/** Any number of semaphores together with the scheduler: tasks block in `sem_wait` and are
    woken by `sem_post`. One step is one section that runs with interrupts off. */
module Blocking {
  import opened Base
  import RQ = ReadyQueues
  import opened Semaphores

  /** `waiters[j]` are the tasks waiting for semaphore j, the longest waiting first; the last
      three count what each semaphore started with and its posts and successful waits. */
  datatype Sys = Sys(
    kernel: RQ.Sys, sems: seq<Sem>, waiters: seq<seq<nat>>,
    initial: seq<int>, posts: seq<int>, waits: seq<int>)

  datatype Step =
    | Kernel(e: RQ.Step)
    | TryWait(j: nat)
    | Wait(j: nat)
    | Signal(j: nat)

  ghost predicate Shape(s: Sys) {
    var n := |s.sems|;
    && RQ.Shape(s.kernel)
    && |s.waiters| == |s.initial| == |s.posts| == |s.waits| == n
    && forall j | 0 <= j < n :: s.sems[j].pos < |s.sems[j].queue| == |s.kernel.status|
  }

  /** Tasks block and wake only through semaphores; only a running task calls `sem_wait`. */
  ghost predicate Enabled(s: Sys, a: Step) {
    && Shape(s) && (a.Kernel? || (a.j < |s.sems| && s.kernel.left == None))
    && match a
       case Kernel(e) => RQ.Enabled(s.kernel, e) && !e.WakeTask? && !e.BlockCurrent?
       case Wait(j) => s.kernel.status[s.kernel.current].Running?
       case TryWait(j) => true
       case Signal(j) =>
         var woken := Post(s.sems[j]).1;
         woken.Some? ==> RQ.Enabled(s.kernel, RQ.WakeTask(woken.value))
  }

  function Count(c: seq<int>, j: nat): seq<int>
    requires j < |c|
  {
    c[j := c[j] + 1]
  }

  ghost function Do(s: Sys, a: Step): Sys
    requires Enabled(s, a)
  {
    match a
    case Kernel(e) => s.(kernel := RQ.Do(s.kernel, e))
    case TryWait(j) =>
      var (m, ok) := Take(s.sems[j]);
      s.(sems := s.sems[j := m], waits := if ok then Count(s.waits, j) else s.waits)
    case Wait(j) =>
      var (m, ok) := Take(s.sems[j]);
      if ok then s.(sems := s.sems[j := m], waits := Count(s.waits, j))
      else
        var id := s.kernel.current;
        s.(sems := s.sems[j := Join(m, id)],
           waiters := s.waiters[j := s.waiters[j] + [id]],
           kernel := RQ.Block(s.kernel))
    case Signal(j) =>
      var (m, woken) := Post(s.sems[j]);
      var s' := s.(sems := s.sems[j := m], posts := Count(s.posts, j));
      if woken.None? then s'
      else
        s'.(waiters := s.waiters[j := if s.waiters[j] == [] then [] else s.waiters[j][1..]],
            kernel := RQ.Wake(s.kernel, woken.value))
  }

  /** What semaphore j should have left. */
  function Balance(s: Sys, j: int): int
    requires 0 <= j < |s.initial| && j < |s.posts| && j < |s.waits|
  {
    s.initial[j] + s.posts[j] - s.waits[j]
  }

  ghost predicate Rings(s: Sys)
    requires Shape(s)
  {
    forall j | 0 <= j < |s.sems| ::
      Ring(s.sems[j], s.waiters[j]) && Balance(s, j) >= 0 && s.sems[j].value == Balance(s, j) % WORD
  }

  /** The blocked tasks are the waiting ones, and each waits for one semaphore. */
  ghost predicate BlockedWait(status: seq<RQ.Status>, waiters: seq<seq<nat>>) {
    && (forall j, t {:trigger t in waiters[j]} | 0 <= j < |waiters| && t in waiters[j] ::
          t < |status| && status[t].Blocked?)
    && (forall j, k, t {:trigger t in waiters[j], t in waiters[k]} |
          0 <= j < |waiters| && 0 <= k < |waiters| && t in waiters[j] && t in waiters[k] :: j == k)
    && (forall t | 0 <= t < |status| && status[t].Blocked? :: exists j :: 0 <= j < |waiters| && t in waiters[j])
  }

  ghost predicate Inv(s: Sys) {
    Shape(s) && RQ.Inv(s.kernel) && Rings(s) && BlockedWait(s.kernel.status, s.waiters)
  }

  /** Steps of the kernel that are not about blocking leave every blocked task blocked. */
  lemma KernelKeepsBlocked(k: RQ.Sys, e: RQ.Step)
    requires RQ.Inv(k) && RQ.Enabled(k, e) && !e.WakeTask? && !e.BlockCurrent?
    ensures var k' := RQ.Do(k, e);
      |k'.status| == |k.status| && forall t | 0 <= t < |k.status| :: k'.status[t].Blocked? <==> k.status[t].Blocked?
  {
    var h := RQ.Highest(k.queues, RQ.MAX_PRIO);
    if h >= 0 { RQ.DispatchSound(k, h); }
  }

  lemma KernelStep(s: Sys, e: RQ.Step)
    requires Inv(s) && Enabled(s, Kernel(e))
    ensures Inv(Do(s, Kernel(e)))
  {
    hide RQ.Inv, RQ.Do, RQ.Enabled;
    KernelKeepsBlocked(s.kernel, e);
    RQ.StepKeeps(s.kernel, e);
    RQ.InvShape(RQ.Do(s.kernel, e));
  }

  lemma TakeStep(s: Sys, j: nat)
    requires Inv(s) && j < |s.sems| && s.sems[j].value > 0
    ensures var s' := s.(sems := s.sems[j := Take(s.sems[j]).0], waits := Count(s.waits, j));
      Inv(s')
  {
    hide RQ.Inv, BlockedWait;
  }

  lemma BlockedJoin(status: seq<RQ.Status>, waiters: seq<seq<nat>>, j: nat, id: nat)
    requires BlockedWait(status, waiters) && j < |waiters| && id < |status| && !status[id].Blocked?
    ensures BlockedWait(status[id := RQ.Blocked], waiters[j := waiters[j] + [id]])
  {
    var waiters' := waiters[j := waiters[j] + [id]];
    assert id in waiters'[j];
    assert forall k | 0 <= k < |waiters| :: id !in waiters[k];
    forall k, t {:trigger t in waiters'[k]} | 0 <= k < |waiters'| && t in waiters'[k]
      ensures t < |status| && if t == id then k == j else t in waiters[k] && status[t].Blocked?
    {
      assert waiters'[k] == if k == j then waiters[j] + [id] else waiters[k];
    }
    forall t | 0 <= t < |status| && (t == id || status[t].Blocked?)
      ensures exists k :: 0 <= k < |waiters'| && t in waiters'[k]
    {
      if t != id {
        var k :| 0 <= k < |waiters| && t in waiters[k];
        assert t in waiters'[k];
      }
    }
  }

  lemma BlockedLeave(status: seq<RQ.Status>, waiters: seq<seq<nat>>, j: nat)
    requires BlockedWait(status, waiters) && j < |waiters| && waiters[j] != []
    requires waiters[j][0] !in waiters[j][1..]
    ensures waiters[j][0] < |status| && status[waiters[j][0]].Blocked?
    ensures BlockedWait(status[waiters[j][0] := RQ.Ready], waiters[j := waiters[j][1..]])
  {
    var id, waiters' := waiters[j][0], waiters[j := waiters[j][1..]];
    assert id in waiters[j];
    forall k, t {:trigger t in waiters'[k]} | 0 <= k < |waiters'| && t in waiters'[k]
      ensures t < |status| && t in waiters[k] && t != id && status[t].Blocked?
    {
      assert waiters'[k] == if k == j then waiters[j][1..] else waiters[k];
      assert t in waiters[k];
    }
    forall t | 0 <= t < |status| && t != id && status[t].Blocked?
      ensures exists k :: 0 <= k < |waiters'| && t in waiters'[k]
    {
      var k :| 0 <= k < |waiters| && t in waiters[k];
      assert t in waiters'[k] by { if k == j { assert waiters[j] == [id] + waiters[j][1..]; } }
    }
  }

  lemma JoinStep(s: Sys, j: nat)
    requires Inv(s) && Enabled(s, Wait(j)) && s.sems[j].value == 0
    ensures Inv(Do(s, Wait(j)))
    ensures s.sems[j].queue[s.sems[j].pos] == |s.kernel.status|
  {
    hide RQ.Inv, Ring;
    RQ.BlockKeeps(s.kernel);
    BlockedJoin(s.kernel.status, s.waiters, j, s.kernel.current);
    JoinRing(s.sems[j], s.waiters[j], s.kernel.current);
    hide BlockedWait;
  }

  lemma SignalStep(s: Sys, j: nat)
    requires Inv(s) && Enabled(s, Signal(j))
    ensures Inv(Do(s, Signal(j)))
  {
    hide RQ.Inv, Ring, BlockedWait, Post;
    RingHead(s.sems[j], s.waiters[j]);
    PostRing(s.sems[j], s.waiters[j]);
    if s.sems[j].value == 0 && s.waiters[j] != [] {
      var t := s.waiters[j][0];
      BlockedLeave(s.kernel.status, s.waiters, j);
      RQ.WakeKeeps(s.kernel, t);
    }
  }

  /** A task taken from a ring can always be woken, so a post is never refused. */
  lemma SignalEnabled(s: Sys, j: nat)
    requires Inv(s) && j < |s.sems| && s.kernel.left == None
    ensures Enabled(s, Signal(j))
  {
    hide Ring, Post;
    RingHead(s.sems[j], s.waiters[j]);
    PostRing(s.sems[j], s.waiters[j]);
    if s.sems[j].value == 0 && s.waiters[j] != [] { BlockedLeave(s.kernel.status, s.waiters, j); }
  }

  lemma RingHead(m: Sem, w: seq<nat>)
    requires Ring(m, w)
    ensures m.value < WORD && Post(m).0.value == (m.value + 1) % WORD && |Post(m).0.queue| == |m.queue|
    ensures w != [] ==> w[0] !in w[1..]
    ensures Post(m).0.pos == m.pos
  {}

  lemma StepKeeps(s: Sys, a: Step)
    requires Inv(s) && Enabled(s, a)
    ensures Inv(Do(s, a))
  {
    hide Inv;
    match a {
      case Kernel(e) => KernelStep(s, e);
      case TryWait(j) => if s.sems[j].value > 0 { TakeStep(s, j); } else { Unchanged(s, j); }
      case Wait(j) => if s.sems[j].value > 0 { TakeStep(s, j); } else { JoinStep(s, j); }
      case Signal(j) => SignalStep(s, j);
    }
  }

  lemma Unchanged(s: Sys, j: nat)
    requires Enabled(s, TryWait(j)) && s.sems[j].value == 0
    ensures Do(s, TryWait(j)) == s
  {
    assert s.sems[j := s.sems[j]] == s.sems;
  }

  ghost predicate IsRun(ss: seq<Sys>, acts: seq<Step>) {
    && |ss| == |acts| + 1
    && forall i | 0 <= i < |acts| :: Enabled(ss[i], acts[i]) && ss[i + 1] == Do(ss[i], acts[i])
  }

  /** Freshly initialised semaphores on a freshly initialised kernel. */
  ghost predicate Init(s: Sys) {
    && Shape(s) && RQ.Init(s.kernel)
    && forall j | 0 <= j < |s.sems| ::
      && 0 <= s.initial[j] < WORD && s.sems[j] == Fresh(|s.kernel.status|, s.initial[j])
      && s.waiters[j] == [] && s.posts[j] == 0 && s.waits[j] == 0
  }

  lemma InitHolds(s: Sys)
    requires Init(s)
    ensures Inv(s)
  {
    RQ.InitHolds(s.kernel);
    forall j | 0 <= j < |s.sems| ensures Ring(s.sems[j], s.waiters[j]) {
      FreshRing(|s.kernel.status|, s.initial[j]);
    }
  }

  /** In every state of every run, the occupied entries of every ring are one window that ends
      before `pos` and holds exactly the tasks blocked on that semaphore, each once, and the
      values account for all posts and successful waits. */
  lemma {:induction false} AlwaysInv(ss: seq<Sys>, acts: seq<Step>, i: nat)
    requires IsRun(ss, acts) && Init(ss[0]) && i < |ss|
    ensures Inv(ss[i])
  {
    hide Inv, Init, Enabled;
    if i == 0 {
      InitHolds(ss[0]);
    } else {
      AlwaysInv(ss, acts, i - 1);
      StepKeeps(ss[i - 1], acts[i - 1]);
    }
  }

  /** The posts among the first `n` steps. */
  function Posts(acts: seq<Step>, n: nat, j: nat): nat
    requires n <= |acts|
  {
    if n == 0 then 0 else Posts(acts, n - 1, j) + if acts[n - 1] == Signal(j) then 1 else 0
  }

  /** The calls of `sem_wait` and `sem_trywait` among the first `n` steps that have found a unit. */
  ghost function Takes(ss: seq<Sys>, acts: seq<Step>, n: nat, j: nat): nat
    requires n <= |acts| && n <= |ss|
  {
    if n == 0 then 0 else Takes(ss, acts, n - 1, j) + if TakesUnit(ss[n - 1], acts[n - 1], j) then 1 else 0
  }

  ghost predicate TakesUnit(s: Sys, a: Step, j: nat) {
    (a == Wait(j) || a == TryWait(j)) && j < |s.sems| && s.sems[j].value > 0
  }

  /** What a step does to the counts. */
  lemma CountsMove(s: Sys, a: Step, j: nat)
    requires Enabled(s, a) && j < |s.sems|
    ensures var s' := Do(s, a);
      && |s'.sems| == |s'.posts| == |s'.waits| == |s'.initial| == |s.sems| && s'.initial == s.initial
      && s'.posts[j] == s.posts[j] + (if a == Signal(j) then 1 else 0)
      && s'.waits[j] == s.waits[j] + (if TakesUnit(s, a, j) then 1 else 0)
  {
    hide Post, Join, RQ.Do, RQ.Wake, RQ.Block, RQ.Enabled;
  }

  /** In every run the value of a semaphore is what it started with, and the posts, less the units taken,
      modulo the size of the word. */
  lemma {:induction false} ValueCounts(ss: seq<Sys>, acts: seq<Step>, i: nat, j: nat)
    requires IsRun(ss, acts) && Init(ss[0]) && i < |ss| && j < |ss[0].sems|
    ensures var left := ss[0].sems[j].value + Posts(acts, i, j) - Takes(ss, acts, i, j);
      j < |ss[i].sems| && left >= 0 && ss[i].sems[j].value == left % WORD
  {
    hide Inv, Init, Enabled, Do;
    AlwaysInv(ss, acts, i);
    CountsAre(ss, acts, i, j);
    ValueIs(ss[i], j);
  }

  lemma ValueIs(s: Sys, j: nat)
    requires Inv(s) && j < |s.sems|
    ensures j < |s.initial| && j < |s.posts| && j < |s.waits|
    ensures Balance(s, j) >= 0 && s.sems[j].value == Balance(s, j) % WORD
  {
    hide RQ.Inv, Ring, BlockedWait;
  }

  lemma {:induction false} CountsAre(ss: seq<Sys>, acts: seq<Step>, i: nat, j: nat)
    requires IsRun(ss, acts) && Init(ss[0]) && i < |ss| && j < |ss[0].sems|
    ensures |ss[i].posts| == |ss[i].waits| == |ss[i].initial| == |ss[i].sems| == |ss[0].sems|
    ensures ss[i].initial[j] == ss[0].sems[j].value
    ensures ss[i].posts[j] == Posts(acts, i, j) && ss[i].waits[j] == Takes(ss, acts, i, j)
  {
    hide Enabled, Do, TakesUnit, RQ.Init;
    if i > 0 {
      CountsAre(ss, acts, i - 1, j);
      CountsMove(ss[i - 1], acts[i - 1], j);
    }
  }

  /** The semaphores but j, and what waits for them, are as they were. */
  ghost predicate OnlySem(s: Sys, s': Sys, j: nat) {
    && |s'.sems| == |s.sems| == |s.waiters| == |s'.waiters|
    && forall k | 0 <= k < |s.sems| && k != j :: s'.sems[k] == s.sems[k] && s'.waiters[k] == s.waiters[k]
  }

  /** A call of `sem_wait` or `sem_trywait` that finds a unit takes it and goes on. Of those that find none
      `sem_trywait` changes nothing and `sem_wait` blocks the task, which waits behind all others. */
  lemma WaitTakesOrBlocks(ss: seq<Sys>, acts: seq<Step>, i: nat)
    requires IsRun(ss, acts) && Init(ss[0]) && i < |acts| && (acts[i].Wait? || acts[i].TryWait?)
    ensures var s, s', j := ss[i], ss[i + 1], acts[i].j;
      && j < |s.sems| && OnlySem(s, s', j)
      && if s.sems[j].value > 0 then
           s'.sems[j].value == s.sems[j].value - 1 && s'.waiters == s.waiters && s'.kernel == s.kernel
         else
           && s'.sems[j].value == 0
           && if acts[i].TryWait? then s' == s
              else RQ.Retires(s.kernel, RQ.Blocked, s'.kernel) && s'.waiters[j] == s.waiters[j] + [s.kernel.current]
  {
    hide RQ.Inv, Ring, BlockedWait, Join;
    AlwaysInv(ss, acts, i);
    var s, j := ss[i], acts[i].j;
    JoinKeeps(s.sems[j], s.kernel.current);
    if acts[i].TryWait? && s.sems[j].value == 0 { Unchanged(s, j); }
  }

  /** A post adds a unit. If it finds the value 0 it makes the longest-waiting task ready, last in its queue,
      and leaves the order of the others; if it finds a unit or nobody waits it does nothing else. */
  lemma SignalWakesOldest(ss: seq<Sys>, acts: seq<Step>, i: nat)
    requires IsRun(ss, acts) && Init(ss[0]) && i < |acts| && acts[i].Signal?
    ensures var s, s', j := ss[i], ss[i + 1], acts[i].j;
      && j < |s.sems| && OnlySem(s, s', j) && s'.sems[j].value == (s.sems[j].value + 1) % WORD
      && if s.sems[j].value == 0 && s.waiters[j] != [] then
           && RQ.Shape(s.kernel) && s.waiters[j][0] < |s.kernel.status|
           && s.kernel.status[s.waiters[j][0]].Blocked? && RQ.Wakes(s.kernel, s.waiters[j][0], s'.kernel)
           && s'.waiters[j] == s.waiters[j][1..]
         else s'.kernel == s.kernel && s'.waiters == s.waiters
  {
    AlwaysInv(ss, acts, i);
    var s, j := ss[i], acts[i].j;
    hide RQ.Inv, Ring, BlockedWait, Post, RQ.Wakes, RQ.Wake;
    RingHead(s.sems[j], s.waiters[j]);
    PostRing(s.sems[j], s.waiters[j]);
    if s.sems[j].value == 0 && s.waiters[j] != [] {
      BlockedLeave(s.kernel.status, s.waiters, j);
      RQ.WakeEffect(s.kernel, s.waiters[j][0]);
    }
  }
}
