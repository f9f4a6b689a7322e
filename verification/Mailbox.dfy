/** The bounded mailbox (include/eduos/mailbox.h) under every interleaving of any number of
    producers and consumers. One step is one operation on a semaphore, one acquisition or
    release of a lock, or one access to the mailbox's fields. */
module Mailbox {
  import opened Base
  import opened Arith
  import opened Semaphores

  /** Where a task stands in post, trypost, fetch or tryfetch. */
  datatype Pc =
    | Away
    // post and trypost
    | PostWait | PostTry | PostAsleep | PostLock | PostWrite | PostAdvance | PostUnlock | PostSignal
    // fetch and tryfetch
    | FetchWait | FetchTry | FetchAsleep | FetchLock | FetchRead | FetchAdvance | FetchUnlock | FetchSignal

  datatype Task<T> = Task(pc: Pc, mail: T)

  /** The fields of the mailbox, the tasks, and the mails in the order in which they were put
      into the buffer and taken out of it. */
  datatype Sys<T> = Sys(
    buffer: seq<T>, wpos: nat, rpos: nat, mails: Sem, boxes: Sem,
    wlock: Option<nat>, rlock: Option<nat>,
    tasks: seq<Task<T>>, posted: seq<T>, fetched: seq<T>)

  datatype Action<T> =
    | CallPost(t: nat, mail: T) | CallTryPost(t: nat, mail: T) | CallFetch(t: nat) | CallTryFetch(t: nat)
    | Run(t: nat)

  predicate Shape<T>(s: Sys<T>) {
    && 0 < |s.buffer| < WORD && s.wpos < |s.buffer| && s.rpos < |s.buffer|
    && s.mails.pos < |s.mails.queue| && s.boxes.pos < |s.boxes.queue|
  }

  /** A lock is taken only when it is free; a sleeping task does nothing. */
  predicate Enabled<T>(s: Sys<T>, a: Action<T>) {
    && Shape(s) && a.t < |s.tasks|
    && var pc := s.tasks[a.t].pc;
       if !a.Run? then pc.Away?
       else
         && pc !in {Away, PostAsleep, FetchAsleep}
         && (pc.PostLock? ==> s.wlock == None)
         && (pc.FetchLock? ==> s.rlock == None)
  }

  function Goto<T>(s: Sys<T>, t: nat, pc: Pc): Sys<T>
    requires t < |s.tasks|
  {
    s.(tasks := s.tasks[t := s.tasks[t].(pc := pc)])
  }

  /** A woken task tries again. */
  function WakeUp<T>(tasks: seq<Task<T>>, woken: Option<nat>): seq<Task<T>> {
    if woken.None? || woken.value >= |tasks| then tasks
    else
      var t := woken.value;
      match tasks[t].pc
      case PostAsleep => tasks[t := tasks[t].(pc := PostWait)]
      case FetchAsleep => tasks[t := tasks[t].(pc := FetchWait)]
      case _ => tasks
  }

  function Do<T>(s: Sys<T>, a: Action<T>): Sys<T>
    requires Enabled(s, a)
  {
    var t := a.t;
    match a
    case CallPost(_, mail) => s.(tasks := s.tasks[t := Task(PostWait, mail)])
    case CallTryPost(_, mail) => s.(tasks := s.tasks[t := Task(PostTry, mail)])
    case CallFetch(_) => Goto(s, t, FetchWait)
    case CallTryFetch(_) => Goto(s, t, FetchTry)
    case Run(_) => if Posts(s.tasks[t].pc) then PostStep(s, t) else FetchStep(s, t)
  }

  predicate Posts(pc: Pc) {
    pc in {PostWait, PostTry, PostAsleep, PostLock, PostWrite, PostAdvance, PostUnlock, PostSignal}
  }

  function PostStep<T>(s: Sys<T>, t: nat): Sys<T>
    requires Shape(s) && t < |s.tasks|
  {
    var me := s.tasks[t];
    match me.pc
    case PostWait =>
      var (m, ok) := Take(s.boxes);
      if ok then Goto(s, t, PostLock).(boxes := m) else Goto(s, t, PostAsleep).(boxes := Join(m, t))
    case PostTry =>
      var (m, ok) := Take(s.boxes);
      if ok then Goto(s, t, PostLock).(boxes := m) else Goto(s, t, Away)
    case PostLock => Goto(s, t, PostWrite).(wlock := Some(t))
    case PostWrite =>
      Goto(s, t, PostAdvance).(buffer := s.buffer[s.wpos := me.mail], posted := s.posted + [me.mail])
    case PostAdvance => Goto(s, t, PostUnlock).(wpos := Next(s.wpos, |s.buffer|))
    case PostUnlock => Goto(s, t, PostSignal).(wlock := None)
    case PostSignal =>
      var (m, woken) := Post(s.mails);
      Goto(s, t, Away).(mails := m, tasks := WakeUp(Goto(s, t, Away).tasks, woken))
    case _ => s
  }

  function FetchStep<T>(s: Sys<T>, t: nat): Sys<T>
    requires Shape(s) && t < |s.tasks|
  {
    match s.tasks[t].pc
    case FetchWait =>
      var (m, ok) := Take(s.mails);
      if ok then Goto(s, t, FetchLock).(mails := m) else Goto(s, t, FetchAsleep).(mails := Join(m, t))
    case FetchTry =>
      var (m, ok) := Take(s.mails);
      if ok then Goto(s, t, FetchLock).(mails := m) else Goto(s, t, Away)
    case FetchLock => Goto(s, t, FetchRead).(rlock := Some(t))
    case FetchRead =>
      s.(tasks := s.tasks[t := Task(FetchAdvance, s.buffer[s.rpos])], fetched := s.fetched + [s.buffer[s.rpos]])
    case FetchAdvance => Goto(s, t, FetchUnlock).(rpos := Next(s.rpos, |s.buffer|))
    case FetchUnlock => Goto(s, t, FetchSignal).(rlock := None)
    case FetchSignal =>
      var (m, woken) := Post(s.boxes);
      Goto(s, t, Away).(boxes := m, tasks := WakeUp(Goto(s, t, Away).tasks, woken))
    case _ => s
  }

  /** What a task has done to the count of free boxes and of mails. */
  datatype Stage = Neutral | Reserved | Written | Claimed | Taken

  function StageOf(pc: Pc): Stage {
    match pc
    case PostLock => Reserved
    case PostWrite => Reserved
    case PostAdvance => Written
    case PostUnlock => Written
    case PostSignal => Written
    case FetchLock => Claimed
    case FetchRead => Claimed
    case FetchAdvance => Taken
    case FetchUnlock => Taken
    case FetchSignal => Taken
    case _ => Neutral
  }

  function Count<T>(tasks: seq<Task<T>>, stage: Stage): nat {
    if |tasks| == 0 then 0
    else Count(tasks[..|tasks| - 1], stage) + (if StageOf(tasks[|tasks| - 1].pc) == stage then 1 else 0)
  }

  lemma {:induction false} CountUpdate<T>(tasks: seq<Task<T>>, t: nat, x: Task<T>, stage: Stage)
    requires t < |tasks|
    ensures Count(tasks[t := x], stage)
      == Count(tasks, stage)
           - (if StageOf(tasks[t].pc) == stage then 1 else 0) + (if StageOf(x.pc) == stage then 1 else 0)
  {
    var n := |tasks| - 1;
    if t == n {
      assert tasks[t := x][..n] == tasks[..n];
    } else {
      assert tasks[t := x][..n] == tasks[..n][t := x];
      CountUpdate(tasks[..n], t, x, stage);
    }
  }

  /** Mails in the buffer: put there but not yet taken out. */
  function Filled<T>(s: Sys<T>): int { |s.posted| - |s.fetched| }

  /** Every box is free, reserved, filled or being emptied, and every filled box is announced,
      about to be announced, or claimed. */
  ghost predicate Accounts<T>(s: Sys<T>) {
    && s.boxes.value + Count(s.tasks, Reserved) + Filled(s) + Count(s.tasks, Taken) == |s.buffer|
    && Filled(s) == Count(s.tasks, Written) + s.mails.value + Count(s.tasks, Claimed)
  }

  /** The locks exclude: who holds one is between taking it and giving it back. */
  ghost predicate Locks<T>(s: Sys<T>) {
    forall t | 0 <= t < |s.tasks| ::
      (Writing(s.tasks[t].pc) <==> s.wlock == Some(t)) && (Reading(s.tasks[t].pc) <==> s.rlock == Some(t))
  }

  predicate Writing(pc: Pc) { pc in {PostWrite, PostAdvance, PostUnlock} }

  predicate Reading(pc: Pc) { pc in {FetchRead, FetchAdvance, FetchUnlock} }

  predicate Advancing<T>(tasks: seq<Task<T>>, lock: Option<nat>, pc: Pc) {
    lock.Some? && lock.value < |tasks| && tasks[lock.value].pc == pc
  }

  /** The place of the i-th mail in the buffer. */
  function Box(i: int, n: nat): (r: nat)
    requires n > 0
    ensures r < n
  {
    i % n
  }

  lemma BoxNext(i: nat, n: nat)
    requires n > 0
    ensures Next(Box(i, n), n) == Box(i + 1, n)
  {
    DivModDef(i, n);
    if i % n + 1 == n {
      DivModUnique(i + 1, n, i / n + 1, 0);
    } else {
      DivModUnique(i + 1, n, i / n, i % n + 1);
    }
  }

  lemma BoxDistinct(i: int, j: int, n: nat)
    requires i < j < i + n
    ensures Box(i, n) != Box(j, n)
  {
    DivModDef(i, n);
    DivModDef(j, n);
    if i % n == j % n {
      var k := j / n - i / n;
      assert k * n == j - i;
      MulCancelLess(0, k, n);
      MulCancelLess(k, 1, n);
    }
  }

  /** The positions are those of the next mail to come and the next to go. */
  ghost predicate Positions<T>(s: Sys<T>)
    requires |s.buffer| > 0
  {
    && s.wpos == Box(|s.posted| - (if Advancing(s.tasks, s.wlock, PostAdvance) then 1 else 0), |s.buffer|)
    && s.rpos == Box(|s.fetched| - (if Advancing(s.tasks, s.rlock, FetchAdvance) then 1 else 0), |s.buffer|)
    && (Advancing(s.tasks, s.wlock, PostAdvance) ==> |s.posted| > 0)
    && (Advancing(s.tasks, s.rlock, FetchAdvance) ==> |s.fetched| > 0)
  }

  /** What has been taken out is the beginning of what was put in, and the rest is in the
      buffer. */
  ghost predicate Contents<T>(s: Sys<T>)
    requires |s.buffer| > 0
  {
    && s.fetched <= s.posted
    && forall i | |s.fetched| <= i < |s.posted| :: s.buffer[Box(i, |s.buffer|)] == s.posted[i]
  }

  ghost predicate Inv<T>(s: Sys<T>) {
    Shape(s) && Accounts(s) && Locks(s) && Positions(s) && Contents(s)
  }

  /** Waking a task changes nobody's stage and nobody's locks. */
  lemma WakeNeutral<T>(tasks: seq<Task<T>>, woken: Option<nat>)
    ensures |WakeUp(tasks, woken)| == |tasks|
    ensures forall g: Stage :: Count(WakeUp(tasks, woken), g) == Count(tasks, g)
    ensures forall t | 0 <= t < |tasks| :: SameOrWoken(tasks[t].pc, WakeUp(tasks, woken)[t].pc)
  {
    if woken.Some? && woken.value < |tasks| {
      forall g: Stage { CountUpdate(tasks, woken.value, WakeUp(tasks, woken)[woken.value], g); }
    }
  }

  predicate SameOrWoken(pc: Pc, pc': Pc) {
    pc' == pc || (pc.PostAsleep? && pc'.PostWait?) || (pc.FetchAsleep? && pc'.FetchWait?)
  }

  /** Only the acting task changes, apart from a task that is woken. */
  ghost predicate LocalStep<T>(s: Sys<T>, s': Sys<T>, me: nat) {
    && Shape(s') && |s'.tasks| == |s.tasks| && |s'.buffer| == |s.buffer|
    && forall t | 0 <= t < |s.tasks| && t != me :: SameOrWoken(s.tasks[t].pc, s'.tasks[t].pc)
  }

  lemma SignalShape<T>(s: Sys<T>, a: Action<T>)
    requires Enabled(s, a) && Signals(s, a)
    ensures LocalStep(s, Do(s, a), a.t) && Do(s, a).tasks[a.t].pc.Away?
  {
    hide Count, Post, WakeUp;
    SemShapes(s.boxes, a.t);
    SemShapes(s.mails, a.t);
    WakeNeutral(Goto(s, a.t, Away).tasks, Woken(s, a));
  }

  lemma StepShape<T>(s: Sys<T>, a: Action<T>)
    requires Enabled(s, a)
    ensures LocalStep(s, Do(s, a), a.t) && (Signals(s, a) ==> Do(s, a).tasks[a.t].pc.Away?)
  {
    hide PostStep, FetchStep;
    if Signals(s, a) {
      SignalShape(s, a);
    } else if a.Run? {
      if Posts(s.tasks[a.t].pc) { PostShape(s, a.t); } else { FetchShape(s, a.t); }
    }
  }

  lemma PostShape<T>(s: Sys<T>, t: nat)
    requires Shape(s) && t < |s.tasks| && !s.tasks[t].pc.PostSignal?
    ensures LocalStep(s, PostStep(s, t), t)
  {
    hide Join, Take, Post, WakeUp;
    SemShapes(s.boxes, t);
  }

  lemma FetchShape<T>(s: Sys<T>, t: nat)
    requires Shape(s) && t < |s.tasks| && !s.tasks[t].pc.FetchSignal?
    ensures LocalStep(s, FetchStep(s, t), t)
  {
    hide Join, Take, Post, WakeUp;
    SemShapes(s.mails, t);
  }

  predicate Signals<T>(s: Sys<T>, a: Action<T>)
    requires Enabled(s, a)
  {
    a.Run? && s.tasks[a.t].pc in {PostSignal, FetchSignal}
  }

  function Woken<T>(s: Sys<T>, a: Action<T>): Option<nat>
    requires Enabled(s, a)
  {
    Post(if s.tasks[a.t].pc.PostSignal? then s.mails else s.boxes).1
  }

  lemma SemShapes(m: Sem, t: nat)
    requires m.pos < |m.queue|
    ensures Take(m).0.pos < |Take(m).0.queue| && Post(m).0.pos < |Post(m).0.queue|
    ensures Join(Take(m).0, t).pos < |Join(Take(m).0, t).queue| && Join(Take(m).0, t).value == Take(m).0.value
  {}

  /** The acting task leaves one stage and enters another; the other counts stay. */
  lemma StageMoves<T>(s: Sys<T>, a: Action<T>, g: Stage)
    requires Enabled(s, a)
    ensures var s' := Do(s, a);
      && a.t < |s'.tasks|
      && Count(s'.tasks, g) == Count(s.tasks, g)
           - (if StageOf(s.tasks[a.t].pc) == g then 1 else 0) + (if StageOf(s'.tasks[a.t].pc) == g then 1 else 0)
  {
    hide Count, Join, Take, Next, Post;
    if Signals(s, a) {
      CountUpdate(s.tasks, a.t, s.tasks[a.t].(pc := Away), g);
      WakeNeutral(Goto(s, a.t, Away).tasks, Woken(s, a));
      hide WakeUp;
    } else {
      OwnTask(s, a);
      hide Do, StageOf;
      CountUpdate(s.tasks, a.t, Do(s, a).tasks[a.t], g);
    }
  }

  /** A step that signals nothing changes no other task. */
  lemma OwnTask<T>(s: Sys<T>, a: Action<T>)
    requires Enabled(s, a) && !Signals(s, a)
    ensures var s' := Do(s, a); |s'.tasks| == |s.tasks| && s'.tasks == s.tasks[a.t := s'.tasks[a.t]]
  {
    hide Join, Take, Next, Post, WakeUp;
  }

  lemma {:induction false} CountPositive<T>(tasks: seq<Task<T>>, t: nat)
    requires t < |tasks|
    ensures Count(tasks, StageOf(tasks[t].pc)) > 0
  {
    if t < |tasks| - 1 { CountPositive(tasks[..|tasks| - 1], t); }
  }

  /** Announcing a mail or giving back a box; the counters stay in range. */
  lemma AccountsSignal<T>(s: Sys<T>, a: Action<T>)
    requires Enabled(s, a) && Accounts(s) && Signals(s, a)
    ensures Accounts(Do(s, a))
  {
    hide Count, WakeUp;
    StepShape(s, a);
    StageMoves(s, a, Reserved);
    StageMoves(s, a, Written);
    StageMoves(s, a, Claimed);
    StageMoves(s, a, Taken);
    CountPositive(s.tasks, a.t);
  }

  /** What a step of a task that announces nothing does to the counts, its own stage included. */
  lemma StepBalance<T>(s: Sys<T>, a: Action<T>)
    requires Enabled(s, a) && !Signals(s, a)
    ensures Balanced(s, Do(s, a), a.t)
  {
    hide PostStep, FetchStep;
    if a.Run? {
      hide Balanced;
      if Posts(s.tasks[a.t].pc) { PostBalance(s, a.t); } else { FetchBalance(s, a.t); }
    }
  }

  ghost predicate Balanced<T>(s: Sys<T>, s': Sys<T>, t: nat) {
    && t < |s.tasks| && t < |s'.tasks| && |s'.buffer| == |s.buffer|
    && s'.boxes.value + Filled(s') - s.boxes.value - Filled(s) == Left(s, s', t, Reserved) + Left(s, s', t, Taken)
    && Filled(s') - Filled(s) - s'.mails.value + s.mails.value
         == -Left(s, s', t, Written) - Left(s, s', t, Claimed)
  }

  lemma PostBalance<T>(s: Sys<T>, t: nat)
    requires Shape(s) && t < |s.tasks| && !s.tasks[t].pc.PostSignal?
    ensures Balanced(s, PostStep(s, t), t)
  {
    hide WakeUp, Join, Post;
    SemShapes(s.boxes, t);
  }

  lemma FetchBalance<T>(s: Sys<T>, t: nat)
    requires Shape(s) && t < |s.tasks| && !s.tasks[t].pc.FetchSignal?
    ensures Balanced(s, FetchStep(s, t), t)
  {
    hide WakeUp, Join, Post;
    SemShapes(s.mails, t);
  }

  /** One if the task left the stage, minus one if it came into it. */
  ghost function Left<T>(s: Sys<T>, s': Sys<T>, t: nat, g: Stage): int
    requires t < |s.tasks| && t < |s'.tasks|
  {
    (if StageOf(s.tasks[t].pc) == g then 1 else 0) - (if StageOf(s'.tasks[t].pc) == g then 1 else 0)
  }

  lemma AccountsKept<T>(s: Sys<T>, a: Action<T>)
    requires Enabled(s, a) && Accounts(s)
    ensures Accounts(Do(s, a))
  {
    hide Count, Do, StageOf;
    if Signals(s, a) {
      AccountsSignal(s, a);
    } else {
      StepBalance(s, a);
      StageMoves(s, a, Reserved);
      StageMoves(s, a, Written);
      StageMoves(s, a, Claimed);
      StageMoves(s, a, Taken);
    }
  }

  lemma LocksKept<T>(s: Sys<T>, a: Action<T>)
    requires Enabled(s, a) && Locks(s)
    ensures Locks(Do(s, a))
  {
    hide WakeUp, Post, Take, Join, Next;
    StepShape(s, a);
    ghost var s' := Do(s, a);
    forall t | 0 <= t < |s.tasks| && t != a.t
      ensures Writing(s'.tasks[t].pc) == Writing(s.tasks[t].pc) && Reading(s'.tasks[t].pc) == Reading(s.tasks[t].pc)
    {
      assert SameOrWoken(s.tasks[t].pc, s'.tasks[t].pc);
    }
    LockMoves(s, a);
    hide Do, Writing, Reading;
  }

  /** How the acting task moves the locks. */
  lemma LockMoves<T>(s: Sys<T>, a: Action<T>)
    requires Enabled(s, a) && Locks(s)
    ensures var s', t := Do(s, a), a.t;
      && t < |s'.tasks|
      && (s'.wlock == s.wlock || (s.wlock in {None, Some(t)} && s'.wlock in {None, Some(t)}))
      && (s'.rlock == s.rlock || (s.rlock in {None, Some(t)} && s'.rlock in {None, Some(t)}))
      && (Writing(s'.tasks[t].pc) <==> s'.wlock == Some(t)) && (Reading(s'.tasks[t].pc) <==> s'.rlock == Some(t))
  {
    hide WakeUp, Post, Take, Join, Next, Do, Writing, Reading;
    StepShape(s, a);
    WriteLockEffect(s, a);
    ReadLockEffect(s, a);
  }

  /** What the acting task does to the lock of the writers, and where it stands afterwards. */
  lemma WriteLockEffect<T>(s: Sys<T>, a: Action<T>)
    requires Enabled(s, a) && |Do(s, a).tasks| == |s.tasks|
    requires Signals(s, a) ==> Do(s, a).tasks[a.t].pc.Away?
    ensures var s', t, pc := Do(s, a), a.t, s.tasks[a.t].pc;
      && s'.wlock == (if a.Run? && pc.PostLock? then Some(t) else if a.Run? && pc.PostUnlock? then None else s.wlock)
      && (Writing(s'.tasks[t].pc) <==> a.Run? && (pc.PostLock? || (Writing(pc) && !pc.PostUnlock?)))
      && (s'.tasks[t].pc.PostAdvance? ==> a.Run? && pc.PostWrite?)
      && (pc.PostUnlock? ==> Writing(pc)) && (!a.Run? || pc.PostLock? || pc.PostSignal? ==> !Writing(pc))
  {
    hide PostStep, FetchStep;
    if a.Run? {
      if Posts(s.tasks[a.t].pc) { PostLocks(s, a.t); } else { FetchLocks(s, a.t); }
    }
  }

  /** The same for the lock of the readers. */
  lemma ReadLockEffect<T>(s: Sys<T>, a: Action<T>)
    requires Enabled(s, a) && |Do(s, a).tasks| == |s.tasks|
    requires Signals(s, a) ==> Do(s, a).tasks[a.t].pc.Away?
    ensures var s', t, pc := Do(s, a), a.t, s.tasks[a.t].pc;
      && s'.rlock == (if a.Run? && pc.FetchLock? then Some(t) else if a.Run? && pc.FetchUnlock? then None else s.rlock)
      && (Reading(s'.tasks[t].pc) <==> a.Run? && (pc.FetchLock? || (Reading(pc) && !pc.FetchUnlock?)))
      && (s'.tasks[t].pc.FetchAdvance? ==> a.Run? && pc.FetchRead?)
      && (pc.FetchUnlock? ==> Reading(pc)) && (!a.Run? || pc.FetchLock? || pc.FetchSignal? ==> !Reading(pc))
  {
    hide PostStep, FetchStep;
    if a.Run? {
      if Posts(s.tasks[a.t].pc) { PostLocks(s, a.t); } else { FetchLocks(s, a.t); }
    }
  }

  lemma PostLocks<T>(s: Sys<T>, t: nat)
    requires Shape(s) && t < |s.tasks|
    ensures var s', pc := PostStep(s, t), s.tasks[t].pc;
      && s'.rlock == s.rlock
      && s'.wlock == (if pc.PostLock? then Some(t) else if pc.PostUnlock? then None else s.wlock)
      && (Posts(pc) && !pc.PostSignal? ==>
            && t < |s'.tasks| && !Reading(s'.tasks[t].pc)
            && (s'.tasks[t].pc.PostAdvance? <==> pc.PostWrite?)
            && (Writing(s'.tasks[t].pc) <==> pc in {PostLock, PostWrite, PostAdvance}))
  {
    hide WakeUp, Post, Take, Join, Next;
  }

  lemma FetchLocks<T>(s: Sys<T>, t: nat)
    requires Shape(s) && t < |s.tasks|
    ensures var s', pc := FetchStep(s, t), s.tasks[t].pc;
      && s'.wlock == s.wlock
      && s'.rlock == (if pc.FetchLock? then Some(t) else if pc.FetchUnlock? then None else s.rlock)
      && (!Posts(pc) && !pc.FetchSignal? ==>
            && t < |s'.tasks| && !Writing(s'.tasks[t].pc)
            && (s'.tasks[t].pc.FetchAdvance? <==> pc.FetchRead?)
            && (Reading(s'.tasks[t].pc) <==> pc in {FetchLock, FetchRead, FetchAdvance}))
  {
    hide WakeUp, Post, Take, Join, Next;
  }

  /** Most steps leave the mails and the positions alone. */
  lemma MailsStay<T>(s: Sys<T>, a: Action<T>)
    requires Enabled(s, a) && !(a.Run? && s.tasks[a.t].pc in {PostWrite, PostAdvance, FetchRead, FetchAdvance})
    ensures var s' := Do(s, a);
      && s'.buffer == s.buffer && s'.posted == s.posted && s'.fetched == s.fetched
      && s'.wpos == s.wpos && s'.rpos == s.rpos
  {
    hide WakeUp, Post, Take, Join, Next;
  }

  /** The steps that do not touch a position or a sequence of mails. */
  lemma PositionsStay<T>(s: Sys<T>, a: Action<T>)
    requires Enabled(s, a) && Locks(s) && Positions(s)
    requires !(a.Run? && s.tasks[a.t].pc in {PostWrite, PostAdvance, FetchRead, FetchAdvance})
    ensures Positions(Do(s, a))
  {
    hide Do, Box;
    StepShape(s, a);
    MailsStay(s, a);
    WriteLockEffect(s, a);
    ReadLockEffect(s, a);
  }

  lemma PositionsKept<T>(s: Sys<T>, a: Action<T>)
    requires Enabled(s, a) && Locks(s) && Positions(s)
    ensures Positions(Do(s, a))
  {
    hide WakeUp, Post, Take, Join, Box;
    if a.Run? && s.tasks[a.t].pc in {PostAdvance, FetchAdvance} {
      if s.tasks[a.t].pc.PostAdvance? {
        BoxNext(|s.posted| - 1, |s.buffer|);
      } else {
        BoxNext(|s.fetched| - 1, |s.buffer|);
      }
    } else if a.Run? && s.tasks[a.t].pc in {PostWrite, FetchRead} {
    } else {
      PositionsStay(s, a);
    }
  }

  /** A mail goes into a box whose mail has been taken out. */
  lemma WriteKeeps<T>(s: Sys<T>, t: nat)
    requires Inv(s) && Enabled(s, Run(t)) && s.tasks[t].pc.PostWrite?
    ensures Contents(Do(s, Run(t)))
    ensures |s.posted| - |s.fetched| < |s.buffer|
  {
    hide Count, Box;
    CountPositive(s.tasks, t);
    var n, s' := |s.buffer|, Do(s, Run(t));
    assert s.wpos == Box(|s.posted|, n);
    forall i | |s'.fetched| <= i < |s'.posted| ensures s'.buffer[Box(i, n)] == s'.posted[i] {
      if i < |s.posted| { BoxDistinct(i, |s.posted|, n); }
    }
  }

  /** A mail is read from a box that has been filled. */
  lemma ReadKeeps<T>(s: Sys<T>, t: nat)
    requires Inv(s) && Enabled(s, Run(t)) && s.tasks[t].pc.FetchRead?
    ensures Contents(Do(s, Run(t)))
    ensures |s.fetched| < |s.posted| && s.buffer[s.rpos] == s.posted[|s.fetched|]
  {
    hide Count, Box;
    CountPositive(s.tasks, t);
    assert s.rpos == Box(|s.fetched|, |s.buffer|);
  }

  lemma ContentsKept<T>(s: Sys<T>, a: Action<T>)
    requires Enabled(s, a) && Inv(s)
    ensures Contents(Do(s, a))
  {
    hide WakeUp, Post, Take, Join, Count, Box;
    if a.Run? && s.tasks[a.t].pc.PostWrite? {
      WriteKeeps(s, a.t);
    } else if a.Run? && s.tasks[a.t].pc.FetchRead? {
      ReadKeeps(s, a.t);
    }
  }

  lemma StepKeeps<T>(s: Sys<T>, a: Action<T>)
    requires Inv(s) && Enabled(s, a)
    ensures Inv(Do(s, a))
  {
    hide Accounts, Locks, Positions, Contents, Do;
    StepShape(s, a);
    AccountsKept(s, a);
    LocksKept(s, a);
    PositionsKept(s, a);
    ContentsKept(s, a);
  }

  /** A task at one of these places may also turn round once more in taking or giving back a lock. */
  predicate AtLock(pc: Pc) { pc in {PostLock, PostUnlock, FetchLock, FetchUnlock} }

  ghost predicate Steps<T>(s: Sys<T>, a: Action<T>, s': Sys<T>) {
    || (Enabled(s, a) && s' == Do(s, a))
    || (a.Run? && a.t < |s.tasks| && AtLock(s.tasks[a.t].pc) && s' == s)
  }

  ghost predicate IsRun<T>(ss: seq<Sys<T>>, acts: seq<Action<T>>) {
    |ss| == |acts| + 1 && forall i | 0 <= i < |acts| :: Steps(ss[i], acts[i], ss[i + 1])
  }

  /** `mailbox_init`, for any number of tasks. */
  ghost predicate Init<T>(s: Sys<T>) {
    && 0 < |s.buffer| < WORD && 0 < |s.tasks| && s.wpos == 0 && s.rpos == 0
    && s.mails == Fresh(|s.tasks|, 0) && s.boxes == Fresh(|s.tasks|, |s.buffer|)
    && s.wlock == None && s.rlock == None && s.posted == [] && s.fetched == []
    && forall t | 0 <= t < |s.tasks| :: s.tasks[t].pc.Away?
  }

  lemma {:induction false} NoneActive<T>(tasks: seq<Task<T>>, g: Stage)
    requires g != Neutral && forall t | 0 <= t < |tasks| :: tasks[t].pc.Away?
    ensures Count(tasks, g) == 0
  {
    if |tasks| > 0 { NoneActive(tasks[..|tasks| - 1], g); }
  }

  lemma InitHolds<T>(s: Sys<T>)
    requires Init(s)
    ensures Inv(s)
  {
    NoneActive(s.tasks, Reserved);
    NoneActive(s.tasks, Written);
    NoneActive(s.tasks, Claimed);
    NoneActive(s.tasks, Taken);
  }

  lemma {:induction false} AlwaysInv<T>(ss: seq<Sys<T>>, acts: seq<Action<T>>, i: nat)
    requires IsRun(ss, acts) && Init(ss[0]) && i < |ss|
    ensures Inv(ss[i])
  {
    hide Inv, Init, Enabled, Do;
    if i == 0 {
      InitHolds(ss[0]);
    } else {
      AlwaysInv(ss, acts, i - 1);
      if ss[i] != ss[i - 1] { StepKeeps(ss[i - 1], acts[i - 1]); }
    }
  }

  /** First in, first out: in every state of every run the mails taken out are the beginning of
      the mails put in, and every box is free, announced as a mail, or in some task's hands. */
  lemma FirstInFirstOut<T>(ss: seq<Sys<T>>, acts: seq<Action<T>>, i: nat)
    requires IsRun(ss, acts) && Init(ss[0]) && i < |ss|
    ensures ss[i].fetched <= ss[i].posted
    ensures ss[i].boxes.value + ss[i].mails.value
      + Count(ss[i].tasks, Reserved) + Count(ss[i].tasks, Written)
      + Count(ss[i].tasks, Claimed) + Count(ss[i].tasks, Taken) == |ss[i].buffer|
  {
    AlwaysInv(ss, acts, i);
  }

  /** In every run a mail is never written over one that has not been read, and never read
      before it has been written. */
  lemma NoOverwriteNoUnderrun<T>(ss: seq<Sys<T>>, acts: seq<Action<T>>, i: nat)
    requires IsRun(ss, acts) && Init(ss[0]) && i < |acts| && acts[i].Run?
    ensures var s, t := ss[i], acts[i].t;
      && t < |s.tasks| && 0 < |s.buffer| && s.rpos < |s.buffer|
      && (s.tasks[t].pc.PostWrite? ==>
            forall j | |s.fetched| <= j < |s.posted| :: Box(j, |s.buffer|) != s.wpos)
      && (s.tasks[t].pc.FetchRead? ==>
            |s.fetched| < |s.posted| && s.buffer[s.rpos] == s.posted[|s.fetched|])
  {
    AlwaysInv(ss, acts, i);
    var s, t := ss[i], acts[i].t;
    assert Steps(s, acts[i], ss[i + 1]);
    hide Count, Box, Do;
    if s.tasks[t].pc.FetchRead? { ReadKeeps(s, t); }
    if s.tasks[t].pc.PostWrite? {
      WriteKeeps(s, t);
      assert s.wpos == Box(|s.posted|, |s.buffer|);
      forall j | |s.fetched| <= j < |s.posted| ensures Box(j, |s.buffer|) != s.wpos {
        BoxDistinct(j, |s.posted|, |s.buffer|);
      }
    }
  }

  // What post is given and what fetch hands out.

  /** The last call of task `t` among the first `n` actions. */
  function LastCall<T>(acts: seq<Action<T>>, n: nat, t: nat): Option<Action<T>>
    requires n <= |acts|
  {
    if n == 0 then None
    else if acts[n - 1].t == t && !acts[n - 1].Run? then Some(acts[n - 1]) else LastCall(acts, n - 1, t)
  }

  /** The step in which task `t` has written or read, at `pc`, since its last call. */
  function LastAt<T>(ss: seq<Sys<T>>, acts: seq<Action<T>>, n: nat, t: nat, pc: Pc): (r: Option<nat>)
    requires n <= |acts| && n <= |ss|
    ensures r.Some? ==> r.value < n
  {
    if n == 0 then None
    else if acts[n - 1].t != t then LastAt(ss, acts, n - 1, t, pc)
    else if !acts[n - 1].Run? then None
    else if t < |ss[n - 1].tasks| && ss[n - 1].tasks[t].pc == pc then Some(n - 1)
    else LastAt(ss, acts, n - 1, t, pc)
  }

  predicate PostCall<T>(call: Option<Action<T>>) { call.Some? && (call.value.CallPost? || call.value.CallTryPost?) }

  predicate FetchCall<T>(call: Option<Action<T>>) { call.Some? && (call.value.CallFetch? || call.value.CallTryFetch?) }

  /** What a task has done since its call: a poster has the mail of its call, which has then the given
      place among the mails put in; a fetcher has, once it has read, the mail at the given place. */
  ghost predicate Holding<T>(x: Task<T>, posted: seq<T>, call: Option<Action<T>>,
                             wrote: Option<nat>, read: Option<nat>)
  {
    && (Posts(x.pc) ==> PostCall(call) && x.mail == call.value.mail)
    && (x.pc.PostTry? ==> call.value.CallTryPost?)
    && (!Posts(x.pc) && !x.pc.Away? ==> FetchCall(call))
    && (x.pc.FetchTry? ==> call.value.CallTryFetch?)
    && (!x.pc.Away? ==> (wrote.Some? <==> StageOf(x.pc).Written?) && (read.Some? <==> StageOf(x.pc).Taken?))
    && (wrote.Some? ==> PostCall(call) && wrote.value < |posted| && posted[wrote.value] == call.value.mail)
    && (read.Some? ==> read.value < |posted| && posted[read.value] == x.mail)
  }

  /** The other tasks keep their mail, and stay where they are unless woken. */
  lemma OthersKeep<T>(s: Sys<T>, a: Action<T>, t: nat)
    requires Enabled(s, a) && t < |s.tasks| && t != a.t
    ensures |Do(s, a).tasks| == |s.tasks|
    ensures Do(s, a).tasks[t].mail == s.tasks[t].mail && SameOrWoken(s.tasks[t].pc, Do(s, a).tasks[t].pc)
  {
    hide Join, Take, Next, Post;
    StepShape(s, a);
  }

  /** Which mails a step puts in and takes out. */
  lemma MailsMove<T>(s: Sys<T>, a: Action<T>)
    requires Enabled(s, a) && Inv(s)
    ensures var s', pc := Do(s, a), s.tasks[a.t].pc;
      && s'.posted == (if a.Run? && pc.PostWrite? then s.posted + [s.tasks[a.t].mail] else s.posted)
      && (a.Run? && pc.FetchRead? ==>
            && |s.fetched| < |s.posted| && s'.fetched == s.fetched + [s.posted[|s.fetched|]]
            && a.t < |s'.tasks| && s'.tasks[a.t].mail == s.posted[|s.fetched|])
      && (!(a.Run? && pc.FetchRead?) ==> s'.fetched == s.fetched)
  {
    hide WakeUp, Post, Take, Join, Next, Count, Box;
    if a.Run? && s.tasks[a.t].pc.FetchRead? { ReadKeeps(s, a.t); }
  }

  /** A task goes on from `pc` to `pc'`. */
  predicate GoesOn(pc: Pc, pc': Pc) {
    match pc
    case PostWait => pc' in {PostLock, PostAsleep}
    case PostTry => pc' in {PostLock, Away}
    case PostLock => pc'.PostWrite?
    case PostWrite => pc'.PostAdvance?
    case PostAdvance => pc'.PostUnlock?
    case PostUnlock => pc'.PostSignal?
    case FetchWait => pc' in {FetchLock, FetchAsleep}
    case FetchTry => pc' in {FetchLock, Away}
    case FetchLock => pc'.FetchRead?
    case FetchRead => pc'.FetchAdvance?
    case FetchAdvance => pc'.FetchUnlock?
    case FetchUnlock => pc'.FetchSignal?
    case _ => pc'.Away?
  }

  /** Where a poster goes next; only without a free box does it return without having written. */
  lemma PosterMoves<T>(s: Sys<T>, t: nat)
    requires Enabled(s, Run(t)) && Posts(s.tasks[t].pc)
    ensures var s', pc := Do(s, Run(t)), s.tasks[t].pc;
      && |s'.tasks| == |s.tasks| && s'.tasks[t].mail == s.tasks[t].mail
      && GoesOn(pc, s'.tasks[t].pc)
      && (s'.tasks[t].pc.Away? ==> pc.PostSignal? || (pc.PostTry? && s.boxes.value == 0))
  {
    hide Join, Next, Post;
    StepShape(s, Run(t));
  }

  lemma FetcherMoves<T>(s: Sys<T>, t: nat)
    requires Enabled(s, Run(t)) && !Posts(s.tasks[t].pc)
    ensures var s', pc := Do(s, Run(t)), s.tasks[t].pc;
      && |s'.tasks| == |s.tasks| && (!pc.FetchRead? ==> s'.tasks[t].mail == s.tasks[t].mail)
      && GoesOn(pc, s'.tasks[t].pc)
      && (s'.tasks[t].pc.Away? ==> pc.FetchSignal? || (pc.FetchTry? && s.mails.value == 0))
  {
    hide Join, Next, Post;
    StepShape(s, Run(t));
  }

  /** The place of a write or read of task `t` since its call, after one more action. */
  function Place<T>(s: Sys<T>, a: Action<T>, t: nat, pc: Pc, was: Option<nat>, place: nat): Option<nat> {
    if a.t != t then was
    else if !a.Run? then None
    else if t < |s.tasks| && s.tasks[t].pc == pc then Some(place)
    else was
  }

  lemma StepHolding<T>(s: Sys<T>, a: Action<T>, t: nat, call: Option<Action<T>>, wrote: Option<nat>, read: Option<nat>)
    requires Enabled(s, a) && Inv(s) && t < |s.tasks| && Holding(s.tasks[t], s.posted, call, wrote, read)
    ensures |Do(s, a).tasks| == |s.tasks|
    ensures Holding(Do(s, a).tasks[t], Do(s, a).posted, if a.t == t && !a.Run? then Some(a) else call,
                    Place(s, a, t, PostWrite, wrote, |s.posted|), Place(s, a, t, FetchRead, read, |s.fetched|))
  {
    hide Inv, PostStep, FetchStep, StageOf;
    MailsMove(s, a);
    if a.t != t {
      OthersKeep(s, a, t);
      hide Do;
      WokenHolding(s.tasks[t], Do(s, a).tasks[t], s.posted, Do(s, a).posted, call, wrote, read);
    } else if a.Run? {
      if Posts(s.tasks[t].pc) { PosterMoves(s, t); } else { FetcherMoves(s, t); }
      hide Do;
      OwnHolding(s.tasks[t], Do(s, a).tasks[t], s.posted, Do(s, a).posted, |s.fetched|, call, wrote, read);
    } else {
      CallHolding(Do(s, a).tasks[t], s.posted, a);
    }
  }

  lemma WokenHolding<T>(x: Task<T>, x': Task<T>, posted: seq<T>, posted': seq<T>, call: Option<Action<T>>,
                        wrote: Option<nat>, read: Option<nat>)
    requires Holding(x, posted, call, wrote, read) && posted <= posted'
    requires x'.mail == x.mail && SameOrWoken(x.pc, x'.pc)
    ensures Holding(x', posted', call, wrote, read)
  {}

  lemma CallHolding<T>(x: Task<T>, posted: seq<T>, a: Action<T>)
    requires match a
      case CallPost(_, mail) => x == Task(PostWait, mail)
      case CallTryPost(_, mail) => x == Task(PostTry, mail)
      case CallFetch(_) => x.pc.FetchWait?
      case CallTryFetch(_) => x.pc.FetchTry?
      case Run(_) => false
    ensures Holding(x, posted, Some(a), None, None)
  {}

  lemma OwnHolding<T>(x: Task<T>, x': Task<T>, posted: seq<T>, posted': seq<T>, next: nat, call: Option<Action<T>>,
                      wrote: Option<nat>, read: Option<nat>)
    requires Holding(x, posted, call, wrote, read) && !x.pc.Away? && GoesOn(x.pc, x'.pc)
    requires posted' == if x.pc.PostWrite? then posted + [x.mail] else posted
    requires if x.pc.FetchRead? then next < |posted| && x'.mail == posted[next] else x'.mail == x.mail
    ensures Holding(x', posted', call, if x.pc.PostWrite? then Some(|posted|) else wrote,
                    if x.pc.FetchRead? then Some(next) else read)
  {}

  /** The place, among the mails put in or taken out, of what was written or read in a step. */
  ghost function PlaceOf<T>(ss: seq<Sys<T>>, i: Option<nat>, write: bool): Option<nat>
    requires i.Some? ==> i.value < |ss|
  {
    if i.None? then None else Some(if write then |ss[i.value].posted| else |ss[i.value].fetched|)
  }

  ghost predicate HoldingAt<T>(ss: seq<Sys<T>>, acts: seq<Action<T>>, n: nat, t: nat) {
    && n <= |acts| && n < |ss| && t < |ss[n].tasks|
    && Holding(ss[n].tasks[t], ss[n].posted, LastCall(acts, n, t),
               PlaceOf(ss, LastAt(ss, acts, n, t, PostWrite), true),
               PlaceOf(ss, LastAt(ss, acts, n, t, FetchRead), false))
  }

  lemma {:induction false} AlwaysHolding<T>(ss: seq<Sys<T>>, acts: seq<Action<T>>, n: nat, t: nat)
    requires IsRun(ss, acts) && Init(ss[0]) && n < |ss| && t < |ss[0].tasks|
    ensures |ss[n].tasks| == |ss[0].tasks| && HoldingAt(ss, acts, n, t)
  {
    hide Inv, Holding, Do, Enabled;
    if n == 0 {
      StartHolding(ss[0].tasks[t], ss[0].posted);
    } else {
      AlwaysHolding(ss, acts, n - 1, t);
      AlwaysInv(ss, acts, n - 1);
      var s, a := ss[n - 1], acts[n - 1];
      assert Steps(s, a, ss[n]);
      if Enabled(s, a) && ss[n] == Do(s, a) {
        StepHolding(s, a, t, LastCall(acts, n - 1, t), PlaceOf(ss, LastAt(ss, acts, n - 1, t, PostWrite), true),
                    PlaceOf(ss, LastAt(ss, acts, n - 1, t, FetchRead), false));
      }
    }
  }

  lemma StartHolding<T>(x: Task<T>, posted: seq<T>)
    requires x.pc.Away?
    ensures Holding(x, posted, None, None, None)
  {}

  /** In every run, what a task puts in is the mail of its last call, a call of post or trypost. */
  lemma PutsWhatWasGiven<T>(ss: seq<Sys<T>>, acts: seq<Action<T>>, i: nat)
    requires IsRun(ss, acts) && Init(ss[0]) && i < |acts| && ss[i + 1].posted != ss[i].posted
    ensures var call := LastCall(acts, i, acts[i].t);
      acts[i].Run? && PostCall(call) && ss[i + 1].posted == ss[i].posted + [call.value.mail]
  {
    hide Inv, Do;
    AlwaysInv(ss, acts, i);
    MailsMove(ss[i], acts[i]);
    SameTasks(ss, acts, i);
    AlwaysHolding(ss, acts, i, acts[i].t);
  }

  lemma {:induction false} SameTasks<T>(ss: seq<Sys<T>>, acts: seq<Action<T>>, i: nat)
    requires IsRun(ss, acts) && i < |ss|
    ensures |ss[i].tasks| == |ss[0].tasks|
  {
    hide Do, Enabled;
    if i > 0 {
      SameTasks(ss, acts, i - 1);
      assert Steps(ss[i - 1], acts[i - 1], ss[i]);
      if ss[i] != ss[i - 1] { StepShape(ss[i - 1], acts[i - 1]); }
    }
  }

  /** When a call of post or trypost returns, its mail has been put in, in a step of that call, or it was
      trypost and there was no free box. */
  lemma PostReturns<T>(ss: seq<Sys<T>>, acts: seq<Action<T>>, n: nat, t: nat)
    requires IsRun(ss, acts) && Init(ss[0]) && n < |acts| && t < |ss[0].tasks| && acts[n] == Run(t)
    requires t < |ss[n].tasks| && Posts(ss[n].tasks[t].pc) && t < |ss[n + 1].tasks| && ss[n + 1].tasks[t].pc.Away?
    ensures var call := LastCall(acts, n, t);
      && PostCall(call)
      && match LastAt(ss, acts, n, t, PostWrite)
         case Some(i) =>
           |ss[i].posted| < |ss[n + 1].posted| && ss[n + 1].posted[|ss[i].posted|] == call.value.mail
         case None => call.value.CallTryPost? && ss[n].boxes.value == 0
  {
    hide Inv, Do;
    AlwaysInv(ss, acts, n);
    AlwaysHolding(ss, acts, n, t);
    MailsMove(ss[n], acts[n]);
    PosterMoves(ss[n], t);
  }

  /** When a call of fetch or tryfetch returns, it hands out the mail that was next when it read, or it was
      tryfetch and no mail was announced. */
  lemma FetchReturns<T>(ss: seq<Sys<T>>, acts: seq<Action<T>>, n: nat, t: nat)
    requires IsRun(ss, acts) && Init(ss[0]) && n < |acts| && t < |ss[0].tasks| && acts[n] == Run(t)
    requires t < |ss[n].tasks| && !Posts(ss[n].tasks[t].pc) && t < |ss[n + 1].tasks| && ss[n + 1].tasks[t].pc.Away?
    ensures var call := LastCall(acts, n, t);
      && FetchCall(call)
      && match LastAt(ss, acts, n, t, FetchRead)
         case Some(i) =>
           |ss[i].fetched| < |ss[n + 1].posted| && ss[n + 1].tasks[t].mail == ss[n + 1].posted[|ss[i].fetched|]
         case None => call.value.CallTryFetch? && ss[n].mails.value == 0
  {
    hide Inv, Do;
    AlwaysInv(ss, acts, n);
    AlwaysHolding(ss, acts, n, t);
    MailsMove(ss[n], acts[n]);
    FetcherMoves(ss[n], t);
  }

  ghost predicate Reads<T>(ss: seq<Sys<T>>, acts: seq<Action<T>>, i: nat) {
    && i < |acts| && i < |ss| && acts[i].Run? && acts[i].t < |ss[i].tasks|
    && ss[i].tasks[acts[i].t].pc.FetchRead?
  }

  /** No mail is handed out twice: two reads are of different places, the earlier first. */
  lemma {:induction false} HandedOutOnce<T>(ss: seq<Sys<T>>, acts: seq<Action<T>>, i: nat, j: nat)
    requires IsRun(ss, acts) && Init(ss[0]) && i < j < |ss| && Reads(ss, acts, i)
    ensures |ss[i].fetched| < |ss[j].fetched|
    decreases j
  {
    hide Inv, Do;
    AlwaysInv(ss, acts, j - 1);
    assert Steps(ss[j - 1], acts[j - 1], ss[j]);
    if Enabled(ss[j - 1], acts[j - 1]) { MailsMove(ss[j - 1], acts[j - 1]); }
    if i < j - 1 { HandedOutOnce(ss, acts, i, j - 1); }
  }

  // Who sleeps and who is woken.

  /** The two semaphores: `mails`, on which fetchers sleep, and `boxes`, on which posters do. */
  datatype Side = Mails | Boxes {
    function Wait(): Pc { if Mails? then FetchWait else PostWait }
    function Try(): Pc { if Mails? then FetchTry else PostTry }
    function Asleep(): Pc { if Mails? then FetchAsleep else PostAsleep }
    function Signal(): Pc { if Mails? then PostSignal else FetchSignal }
    function Other(): Side { if Mails? then Boxes else Mails }
  }

  function SemOf<T>(s: Sys<T>, side: Side): Sem { if side.Mails? then s.mails else s.boxes }

  /** The ring of the semaphore holds exactly the tasks that sleep on it, the longest sleeping first. */
  ghost predicate Sleep<T>(s: Sys<T>, side: Side, w: seq<nat>) {
    && Ring(SemOf(s, side), w) && |SemOf(s, side).queue| == |s.tasks|
    && forall t: nat | t < |s.tasks| :: s.tasks[t].pc == side.Asleep() <==> t in w
  }

  /** What a step does to a semaphore: wait, try and signal. */
  lemma SemEffect<T>(s: Sys<T>, a: Action<T>, side: Side)
    requires Enabled(s, a)
    ensures var m, m', pc := SemOf(s, side), SemOf(Do(s, a), side), s.tasks[a.t].pc;
      m' == if !a.Run? then m
            else if pc == side.Wait() then (if m.value > 0 then Take(m).0 else Join(m, a.t))
            else if pc == side.Try() then Take(m).0
            else if pc == side.Signal() then Post(m).0 else m
  {
    hide Join, Next, Post, WakeUp;
  }

  /** Where the acting task goes, as far as the semaphore is concerned. */
  lemma PcEffect<T>(s: Sys<T>, a: Action<T>, side: Side)
    requires Enabled(s, a)
    ensures var s', m, pc := Do(s, a), SemOf(s, side), s.tasks[a.t].pc;
      && |s'.tasks| == |s.tasks| && pc != side.Asleep()
      && (s'.tasks[a.t].pc == side.Asleep() <==> a.Run? && pc == side.Wait() && m.value == 0)
      && (s'.tasks[a.t].pc == side.Wait() <==> if side.Mails? then a.CallFetch? else a.CallPost?)
  {
    hide Join, Next, Post;
    StepShape(s, a);
    if a.Run? {
      if Posts(s.tasks[a.t].pc) { PosterMoves(s, a.t); } else { FetcherMoves(s, a.t); }
    }
  }

  /** The others stay, except that who is woken goes on from its sleep. */
  lemma OthersEffect<T>(s: Sys<T>, a: Action<T>, side: Side, t: nat)
    requires Enabled(s, a) && t < |s.tasks| && t != a.t
    ensures |Do(s, a).tasks| == |s.tasks|
    ensures var pc, pc' := s.tasks[t].pc, Do(s, a).tasks[t].pc;
      && (pc' != pc ==> Signals(s, a) && Woken(s, a) == Some(t))
      && (Signals(s, a) && Woken(s, a) == Some(t) && pc == side.Asleep() ==> pc' == side.Wait())
      && (pc' == side.Wait() ==> pc == side.Wait() || pc == side.Asleep())
      && (pc' == side.Asleep() ==> pc == side.Asleep())
  {
    hide Do;
    if Signals(s, a) { SignalTasks(s, a); } else { OwnTask(s, a); }
  }

  lemma SignalTasks<T>(s: Sys<T>, a: Action<T>)
    requires Enabled(s, a) && Signals(s, a)
    ensures Do(s, a).tasks == WakeUp(s.tasks[a.t := s.tasks[a.t].(pc := Away)], Woken(s, a))
  {
    hide Post, WakeUp;
  }

  /** The step signals this semaphore. */
  predicate SignalsTo<T>(s: Sys<T>, a: Action<T>, side: Side)
    requires Enabled(s, a)
  {
    a.Run? && s.tasks[a.t].pc == side.Signal()
  }

  lemma WokenIs<T>(s: Sys<T>, a: Action<T>, side: Side, w: seq<nat>)
    requires Enabled(s, a) && SignalsTo(s, a, side) && Sleep(s, side, w)
    ensures Signals(s, a)
    ensures Woken(s, a) == if SemOf(s, side).value == 0 && w != [] then Some(w[0]) else None
    ensures SemOf(s, side).value == 0 && w != [] ==> w[0] < |s.tasks| && s.tasks[w[0]].pc == side.Asleep()
  {
    hide Post;
    PostRing(SemOf(s, side), w);
    if w != [] { assert w[0] in w; }
  }

  /** Who sleeps on the semaphore after a step. */
  function Sleepers<T>(s: Sys<T>, a: Action<T>, side: Side, w: seq<nat>): seq<nat>
    requires Enabled(s, a)
  {
    var m := SemOf(s, side);
    if SignalsTo(s, a, side) && m.value == 0 && w != [] then w[1..]
    else if a.Run? && s.tasks[a.t].pc == side.Wait() && m.value == 0 then w + [a.t] else w
  }

  /** Whether another task sleeps changes only by waking. */
  lemma OthersSleep<T>(s: Sys<T>, a: Action<T>, side: Side, w: seq<nat>, v: seq<nat>, t: nat)
    requires Enabled(s, a) && Sleep(s, side, w) && Sleep(s, side.Other(), v) && t < |s.tasks| && t != a.t
    ensures |Do(s, a).tasks| == |s.tasks|
    ensures Do(s, a).tasks[t].pc == side.Asleep()
      <==> t in w && !(SignalsTo(s, a, side) && SemOf(s, side).value == 0 && t == w[0])
  {
    hide Do, Ring;
    OthersEffect(s, a, side, t);
    if SignalsTo(s, a, side) { WokenIs(s, a, side, w); }
    if SignalsTo(s, a, side.Other()) { WokenIs(s, a, side.Other(), v); }
  }

  lemma SleepersRing<T>(s: Sys<T>, a: Action<T>, side: Side, w: seq<nat>)
    requires Enabled(s, a) && Sleep(s, side, w)
    ensures Ring(SemOf(Do(s, a), side), Sleepers(s, a, side, w)) && |SemOf(Do(s, a), side).queue| == |s.tasks|
    ensures w != [] ==> w[0] !in w[1..]
  {
    var m := SemOf(s, side);
    SemEffect(s, a, side);
    RingDistinct(m, w);
    hide Do, Ring, Post, Join;
    if SignalsTo(s, a, side) {
      PostRing(m, w);
    } else if a.Run? && s.tasks[a.t].pc in {side.Wait(), side.Try()} {
      if m.value > 0 { TakeRing(m, w); } else { JoinRing(m, w, a.t); }
    }
  }

  lemma RingDistinct(m: Sem, w: seq<nat>)
    requires Ring(m, w)
    ensures w != [] ==> w[0] !in w[1..]
    ensures m.pos < |m.queue| && |Post(m).0.queue| == |m.queue|
    ensures forall t | t in w :: t < |m.queue|
    ensures forall t: nat :: |Join(m, t).queue| == |m.queue|
  {}

  lemma StepSleep<T>(s: Sys<T>, a: Action<T>, side: Side, w: seq<nat>, v: seq<nat>)
    requires Enabled(s, a) && Sleep(s, side, w) && Sleep(s, side.Other(), v)
    ensures Sleep(Do(s, a), side, Sleepers(s, a, side, w))
  {
    hide Do, Ring;
    SleepersRing(s, a, side, w);
    PcEffect(s, a, side);
    var w' := Sleepers(s, a, side, w);
    assert s.tasks[a.t].pc != side.Asleep() && a.t !in w;
    assert w != [] ==> w == [w[0]] + w[1..];
    forall t: nat | t < |s.tasks| ensures Do(s, a).tasks[t].pc == side.Asleep() <==> t in w' {
      if t != a.t { OthersSleep(s, a, side, w, v, t); }
    }
  }

  /** Who sleeps on the semaphore after `n` actions of a run, the longest sleeping first. */
  ghost function SleepersAt<T>(ss: seq<Sys<T>>, acts: seq<Action<T>>, n: nat, side: Side): seq<nat>
    requires n <= |acts| && n <= |ss|
  {
    if n == 0 then []
    else
      var w := SleepersAt(ss, acts, n - 1, side);
      if Enabled(ss[n - 1], acts[n - 1]) then Sleepers(ss[n - 1], acts[n - 1], side, w) else w
  }

  lemma StartSleep<T>(s: Sys<T>, side: Side)
    requires Init(s)
    ensures Sleep(s, side, [])
  {
    FreshRing(|s.tasks|, SemOf(s, side).value);
  }

  /** In every state of every run each ring holds exactly the tasks that sleep on its semaphore. */
  lemma {:induction false} AlwaysSleep<T>(ss: seq<Sys<T>>, acts: seq<Action<T>>, n: nat, side: Side)
    requires IsRun(ss, acts) && Init(ss[0]) && n < |ss|
    ensures Sleep(ss[n], side, SleepersAt(ss, acts, n, side))
    decreases n
  {
    hide Do, Enabled, Sleep, Init, SignalsTo;
    if n == 0 {
      StartSleep(ss[0], side);
    } else {
      var s, a := ss[n - 1], acts[n - 1];
      AlwaysSleep(ss, acts, n - 1, side);
      AlwaysSleep(ss, acts, n - 1, side.Other());
      assert Steps(s, a, ss[n]);
      if Enabled(s, a) {
        if ss[n] == Do(s, a) {
          StepSleep(s, a, side, SleepersAt(ss, acts, n - 1, side), SleepersAt(ss, acts, n - 1, side.Other()));
        } else {
          AtLockSleeps(s, a, side, SleepersAt(ss, acts, n - 1, side));
        }
      }
    }
  }

  lemma AtLockSleeps<T>(s: Sys<T>, a: Action<T>, side: Side, w: seq<nat>)
    requires Enabled(s, a) && a.Run? && AtLock(s.tasks[a.t].pc)
    ensures Sleepers(s, a, side, w) == w
  {}

  /** A signal that finds the value 0 and somebody asleep wakes the one who sleeps longest, who tries
      again; nobody else stops sleeping. */
  lemma SignalWakes<T>(ss: seq<Sys<T>>, acts: seq<Action<T>>, i: nat, side: Side)
    requires IsRun(ss, acts) && Init(ss[0]) && i < |acts| && acts[i].Run? && acts[i].t < |ss[i].tasks|
    requires ss[i].tasks[acts[i].t].pc == side.Signal() && SemOf(ss[i], side).value == 0
    requires SleepersAt(ss, acts, i, side) != []
    ensures var w := SleepersAt(ss, acts, i, side);
      && w[0] < |ss[i].tasks| == |ss[i + 1].tasks|
      && ss[i].tasks[w[0]].pc == side.Asleep() && ss[i + 1].tasks[w[0]].pc == side.Wait()
      && SleepersAt(ss, acts, i + 1, side) == w[1..] && Sleep(ss[i + 1], side, w[1..])
  {
    hide Do, Sleep, Init;
    AlwaysSleep(ss, acts, i, side);
    AlwaysSleep(ss, acts, i + 1, side);
    assert Steps(ss[i], acts[i], ss[i + 1]);
    var w := SleepersAt(ss, acts, i, side);
    WokenIs(ss[i], acts[i], side, w);
    OthersEffect(ss[i], acts[i], side, w[0]);
  }

  // Units that nobody is on the way to take.

  function CountAt<T>(tasks: seq<Task<T>>, pc: Pc): nat {
    if |tasks| == 0 then 0
    else CountAt(tasks[..|tasks| - 1], pc) + (if tasks[|tasks| - 1].pc == pc then 1 else 0)
  }

  lemma {:induction false} CountAtUpdate<T>(tasks: seq<Task<T>>, t: nat, x: Task<T>, pc: Pc)
    requires t < |tasks|
    ensures CountAt(tasks[t := x], pc)
      == CountAt(tasks, pc) - (if tasks[t].pc == pc then 1 else 0) + (if x.pc == pc then 1 else 0)
  {
    var n := |tasks| - 1;
    if t == n {
      assert tasks[t := x][..n] == tasks[..n];
    } else {
      assert tasks[t := x][..n] == tasks[..n][t := x];
      CountAtUpdate(tasks[..n], t, x, pc);
    }
  }

  /** As long as somebody sleeps, there are no more units than tasks on the way to take one. */
  ghost predicate Served<T>(s: Sys<T>, side: Side, w: seq<nat>) {
    w != [] ==> SemOf(s, side).value <= CountAt(s.tasks, side.Wait())
  }

  /** The step signals a semaphore with a unit for everybody who is on the way, while somebody sleeps. */
  ghost predicate Overlooks<T>(s: Sys<T>, a: Action<T>, side: Side, w: seq<nat>) {
    && Enabled(s, a) && SignalsTo(s, a, side) && w != []
    && 0 < SemOf(s, side).value == CountAt(s.tasks, side.Wait())
  }

  /** How many are on the way after a step. */
  lemma CountMoves<T>(s: Sys<T>, a: Action<T>, side: Side, w: seq<nat>, v: seq<nat>)
    requires Enabled(s, a) && Sleep(s, side, w) && Sleep(s, side.Other(), v)
    ensures CountAt(Do(s, a).tasks, side.Wait()) == CountAt(s.tasks, side.Wait())
      - (if s.tasks[a.t].pc == side.Wait() then 1 else 0)
      + (if (if side.Mails? then a.CallFetch? else a.CallPost?) then 1 else 0)
      + (if SignalsTo(s, a, side) && SemOf(s, side).value == 0 && w != [] then 1 else 0)
  {
    hide CountAt, Sleep, Do;
    PcEffect(s, a, side);
    if Signals(s, a) {
      if SignalsTo(s, a, side) { WokenIs(s, a, side, w); } else { WokenIs(s, a, side.Other(), v); }
      SignalCount(s, a, side);
    } else {
      OwnTask(s, a);
      CountAtUpdate(s.tasks, a.t, Do(s, a).tasks[a.t], side.Wait());
    }
  }

  lemma SignalCount<T>(s: Sys<T>, a: Action<T>, side: Side)
    requires Enabled(s, a) && Signals(s, a)
    ensures var woken := Woken(s, a);
      CountAt(Do(s, a).tasks, side.Wait()) == CountAt(s.tasks, side.Wait())
        + if woken.Some? && woken.value < |s.tasks| && woken.value != a.t && s.tasks[woken.value].pc == side.Asleep()
          then 1 else 0
  {
    hide CountAt, Post, Do;
    var tasks, woken := s.tasks[a.t := s.tasks[a.t].(pc := Away)], Woken(s, a);
    CountAtUpdate(s.tasks, a.t, s.tasks[a.t].(pc := Away), side.Wait());
    SignalTasks(s, a);
    if woken.Some? && woken.value < |tasks| {
      CountAtUpdate(tasks, woken.value, WakeUp(tasks, woken)[woken.value], side.Wait());
    }
  }

  /** A signalled semaphore does not overflow. */
  lemma SignalFits<T>(s: Sys<T>, a: Action<T>, side: Side)
    requires Inv(s) && Enabled(s, a) && SignalsTo(s, a, side)
    ensures SemOf(s, side).value + 1 < WORD
  {
    hide Count, Locks, Positions, Contents;
    CountPositive(s.tasks, a.t);
  }

  lemma StepServed<T>(s: Sys<T>, a: Action<T>, side: Side, w: seq<nat>, v: seq<nat>)
    requires Inv(s) && Enabled(s, a) && Sleep(s, side, w) && Sleep(s, side.Other(), v) && Served(s, side, w)
    ensures Served(Do(s, a), side, Sleepers(s, a, side, w)) <==> !Overlooks(s, a, side, w)
  {
    hide Do, CountAt, Sleep, Inv, Post, Join;
    SemEffect(s, a, side);
    CountMoves(s, a, side, w, v);
    if SignalsTo(s, a, side) {
      SignalFits(s, a, side);
      PostKeeps(SemOf(s, side));
    } else if s.tasks[a.t].pc == side.Wait() {
      SomebodyAt(s.tasks, a.t);
      JoinKeeps(SemOf(s, side), a.t);
    }
  }

  lemma {:induction false} SomebodyAt<T>(tasks: seq<Task<T>>, t: nat)
    requires t < |tasks|
    ensures CountAt(tasks, tasks[t].pc) > 0
  {
    if t < |tasks| - 1 { SomebodyAt(tasks[..|tasks| - 1], t); }
  }

  ghost predicate ServedAt<T>(ss: seq<Sys<T>>, acts: seq<Action<T>>, i: nat, side: Side) {
    i < |ss| && i <= |acts| && Served(ss[i], side, SleepersAt(ss, acts, i, side))
  }

  ghost predicate OverlooksAt<T>(ss: seq<Sys<T>>, acts: seq<Action<T>>, i: nat, side: Side) {
    i < |ss| && i < |acts| && Overlooks(ss[i], acts[i], side, SleepersAt(ss, acts, i, side))
  }

  lemma ServedNext<T>(ss: seq<Sys<T>>, acts: seq<Action<T>>, i: nat, side: Side)
    requires IsRun(ss, acts) && Init(ss[0]) && i < |acts| && ServedAt(ss, acts, i, side)
    ensures ServedAt(ss, acts, i + 1, side) <==> !OverlooksAt(ss, acts, i, side)
  {
    hide Do, Enabled, Sleep, Init, SignalsTo, Served, Overlooks, Inv, Sleepers;
    var s, a, w := ss[i], acts[i], SleepersAt(ss, acts, i, side);
    AlwaysInv(ss, acts, i);
    AlwaysSleep(ss, acts, i, side);
    AlwaysSleep(ss, acts, i, side.Other());
    assert Steps(s, a, ss[i + 1]);
    if Enabled(s, a) && ss[i + 1] == Do(s, a) {
      StepServed(s, a, side, w, SleepersAt(ss, acts, i, side.Other()));
    } else {
      LockServes(s, a, side, w);
    }
  }

  /** In a run nobody sleeps while there is a unit that nobody is on the way to take, exactly if no step
      signals a semaphore with a unit for everybody who is on the way while somebody sleeps: such a
      signal finds the value above 0 and wakes nobody. */
  lemma {:induction false} ServedExactly<T>(ss: seq<Sys<T>>, acts: seq<Action<T>>, i: nat, side: Side)
    requires IsRun(ss, acts) && Init(ss[0]) && i < |ss|
    ensures (forall j: nat | j <= i :: ServedAt(ss, acts, j, side))
      <==> (forall j: nat | j < i :: !OverlooksAt(ss, acts, j, side))
  {
    hide Init, Steps, ServedAt, OverlooksAt;
    if i == 0 {
      NobodySleeps(ss, acts, side);
    } else {
      ServedExactly(ss, acts, i - 1, side);
      if ServedAt(ss, acts, i - 1, side) { ServedNext(ss, acts, i - 1, side); }
    }
  }

  lemma LockServes<T>(s: Sys<T>, a: Action<T>, side: Side, w: seq<nat>)
    requires a.Run? && a.t < |s.tasks| && AtLock(s.tasks[a.t].pc)
    ensures !Overlooks(s, a, side, w) && (Enabled(s, a) ==> Sleepers(s, a, side, w) == w)
  {}

  lemma NobodySleeps<T>(ss: seq<Sys<T>>, acts: seq<Action<T>>, side: Side)
    requires ss != []
    ensures ServedAt(ss, acts, 0, side)
  {}
}
