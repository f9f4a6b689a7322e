/** The mailbox with its two spinlocks (include/eduos/mailbox.h, include/eduos/spinlock.h): every step
    of a task is one of `Mailbox` or, where it takes or gives back a lock, one of `Spinlock`. What the
    mailbox promises with locks that are taken and given back at once it promises with these. */
module LockedMailbox {
  import opened Base
  import L = Spinlock
  import M = Mailbox
  import S = Semaphores

  /** Where a task stands with one of the locks. */
  datatype Phase = Outside | Entering | Within | Leaving

  function WritePhase(pc: M.Pc): Phase {
    if pc.PostLock? then Entering else if pc.PostWrite? || pc.PostAdvance? then Within
    else if pc.PostUnlock? then Leaving else Outside
  }

  function ReadPhase(pc: M.Pc): Phase {
    if pc.FetchLock? then Entering else if pc.FetchRead? || pc.FetchAdvance? then Within
    else if pc.FetchUnlock? then Leaving else Outside
  }

  /** The same as seen by the lock; the mailbox does not nest its locks. */
  predicate Stands(x: L.Task, ph: Phase) {
    match ph
    case Outside => x.pc.Away? && x.depth == 0
    case Entering => x.pc in {L.Away, L.Check, L.Draw, L.Spin, L.SetOwner, L.SetCounter} && x.depth == 0
    case Within => x.pc.Inside? && x.depth == 1
    case Leaving =>
      (x.pc in {L.Inside, L.Drop} && x.depth == 1) || (x.pc in {L.Test, L.ClearOwner, L.Release} && x.depth == 0)
  }

  /** The next step of `spinlock_lock` or `spinlock_unlock`. */
  function LockAction(x: L.Task, ph: Phase, t: nat): L.Action {
    if ph.Entering? && x.pc.Away? then L.Lock(t) else if ph.Leaving? && x.pc.Inside? then L.Unlock(t) else L.Run(t)
  }

  function NextPhase(x: L.Task, ph: Phase): Phase {
    if ph.Entering? then (if x.pc.Inside? then Within else Entering) else (if x.pc.Away? then Outside else Leaving)
  }

  /** A step of a task that takes or gives back a lock can always be made, and leads on. */
  lemma LockStep(l: L.Sys, t: nat, ph: Phase)
    requires L.Inv(l) && |l.tasks| <= WORD && t < |l.tasks| && Stands(l.tasks[t], ph) && (ph.Entering? || ph.Leaving?)
    ensures var a := LockAction(l.tasks[t], ph, t);
      && L.Enabled(l, a)
      && var l' := L.Do(l, a);
         && L.Inv(l') && |l'.tasks| == |l.tasks| && Stands(l'.tasks[t], NextPhase(l'.tasks[t], ph))
         && (forall u | 0 <= u < |l.tasks| && u != t :: l'.tasks[u] == l.tasks[u])
         && (ph.Entering? && l'.tasks[t].pc.Inside? ==> L.Holds(l.tasks[t]))
  {
    hide L.Inv, L.Wrap, L.Waiting, L.Distinct;
    var a := LockAction(l.tasks[t], ph, t);
    L.StepKeeps(l, a);
    if l.tasks[t].depth == 0 { NotAgain(l, t); }
    hide L.PcInv, L.TasksInv;
  }

  /** A task that is not inside does not find itself to be the owner, and one that has counted down
      to zero lets go. */
  lemma NotAgain(l: L.Sys, t: nat)
    requires L.Inv(l) && t < |l.tasks| && l.tasks[t].depth == 0
    ensures l.tasks[t].pc.Check? ==> l.owner != t
    ensures l.tasks[t].pc.Test? ==> l.counter == 0
  {
    hide L.Wrap, L.Waiting, L.Distinct;
    assert L.PcInv(l, l.tasks[t]);
  }

  /** Only one task can be within or leaving. */
  lemma OneWithin(l: L.Sys, t: nat, u: nat, ph: Phase)
    requires L.Inv(l) && t < |l.tasks| && u < |l.tasks| && L.Holds(l.tasks[t])
    requires Stands(l.tasks[u], ph) && (ph.Within? || ph.Leaving?)
    ensures u == t
  {
    hide L.Wrap, L.Waiting, L.Distinct, L.PcInv;
    assert L.Holds(l.tasks[u]);
  }

  /** The mailbox and its locks. The flags `wlock` and `rlock` of the mailbox only record who is inside;
      no step looks at them. */
  datatype Whole<T> = Whole(mb: M.Sys<T>, w: L.Sys, r: L.Sys)

  /** A step of the mailbox, or one in taking or giving back a lock. */
  datatype Action<T> = Op(a: M.Action<T>) | Locking(t: nat)

  predicate Enabled<T>(x: Whole<T>, act: Action<T>) {
    && M.Shape(x.mb) && |x.w.tasks| == |x.r.tasks| == |x.mb.tasks|
    && match act
       case Op(a) => M.Enabled(x.mb, a) && !(a.Run? && M.AtLock(x.mb.tasks[a.t].pc))
       case Locking(t) =>
         && t < |x.mb.tasks| && M.AtLock(x.mb.tasks[t].pc)
         && if M.Posts(x.mb.tasks[t].pc) then L.Enabled(x.w, WriteAction(x, t)) else L.Enabled(x.r, ReadAction(x, t))
  }

  function WriteAction<T>(x: Whole<T>, t: nat): L.Action
    requires t < |x.mb.tasks| == |x.w.tasks|
  {
    LockAction(x.w.tasks[t], WritePhase(x.mb.tasks[t].pc), t)
  }

  function ReadAction<T>(x: Whole<T>, t: nat): L.Action
    requires t < |x.mb.tasks| == |x.r.tasks|
  {
    LockAction(x.r.tasks[t], ReadPhase(x.mb.tasks[t].pc), t)
  }

  /** The task goes on in the mailbox when the lock is taken or given back. */
  function Do<T>(x: Whole<T>, act: Action<T>): Whole<T>
    requires Enabled(x, act)
  {
    match act
    case Op(a) => x.(mb := M.Do(x.mb, a))
    case Locking(t) =>
      if M.Posts(x.mb.tasks[t].pc) then
        var w := L.Do(x.w, WriteAction(x, t));
        var done := t < |w.tasks| && NextPhase(w.tasks[t], WritePhase(x.mb.tasks[t].pc)) in {Within, Outside};
        Whole(if done then M.PostStep(x.mb, t) else x.mb, w, x.r)
      else
        var r := L.Do(x.r, ReadAction(x, t));
        var done := t < |r.tasks| && NextPhase(r.tasks[t], ReadPhase(x.mb.tasks[t].pc)) in {Within, Outside};
        Whole(if done then M.FetchStep(x.mb, t) else x.mb, x.w, r)
  }

  /** The flags name tasks. */
  predicate Named<T>(s: M.Sys<T>) {
    (s.wlock.Some? ==> s.wlock.value < |s.tasks|) && (s.rlock.Some? ==> s.rlock.value < |s.tasks|)
  }

  /** Mailbox and locks agree on where the tasks stand. */
  ghost predicate Agree<T>(x: Whole<T>) {
    && |x.w.tasks| == |x.r.tasks| == |x.mb.tasks|
    && forall t: nat | t < |x.mb.tasks| :: Agrees(x, t)
  }

  ghost predicate Agrees<T>(x: Whole<T>, t: nat)
    requires t < |x.mb.tasks| == |x.w.tasks| == |x.r.tasks|
  {
    Stands(x.w.tasks[t], WritePhase(x.mb.tasks[t].pc)) && Stands(x.r.tasks[t], ReadPhase(x.mb.tasks[t].pc))
  }

  ghost predicate Inv<T>(x: Whole<T>) {
    && M.Inv(x.mb) && Named(x.mb) && |x.mb.tasks| <= WORD
    && L.Inv(x.w) && L.Inv(x.r) && Agree(x)
  }

  /** The step of the mailbox that a step stands for, if it is one. */
  function Meant<T>(act: Action<T>): M.Action<T> {
    match act
    case Op(a) => a
    case Locking(t) => M.Run(t)
  }

  /** The moves that the mailbox makes without its locks. */
  predicate Moves(p: Phase, q: Phase) {
    p == q || (p.Outside? && q.Entering?) || (p.Within? && q.Leaving?)
  }

  predicate BothMove(pc: M.Pc, pc': M.Pc) {
    Moves(WritePhase(pc), WritePhase(pc')) && Moves(ReadPhase(pc), ReadPhase(pc'))
  }

  lemma PostMoves<T>(s: M.Sys<T>, t: nat)
    requires M.Shape(s) && t < |s.tasks| && !M.AtLock(s.tasks[t].pc) && M.Posts(s.tasks[t].pc)
    requires !s.tasks[t].pc.PostSignal?
    ensures var s' := M.PostStep(s, t); t < |s'.tasks| && BothMove(s.tasks[t].pc, s'.tasks[t].pc)
  {
    hide M.WakeUp, S.Post, S.Take, S.Join, S.Next;
  }

  lemma FetchMoves<T>(s: M.Sys<T>, t: nat)
    requires M.Shape(s) && t < |s.tasks| && !M.AtLock(s.tasks[t].pc) && !M.Posts(s.tasks[t].pc)
    requires !s.tasks[t].pc.FetchSignal?
    ensures var s' := M.FetchStep(s, t); t < |s'.tasks| && BothMove(s.tasks[t].pc, s'.tasks[t].pc)
  {
    hide M.WakeUp, S.Post, S.Take, S.Join, S.Next;
  }

  /** How the acting task moves in a step of the mailbox. */
  lemma OwnMove<T>(s: M.Sys<T>, a: M.Action<T>)
    requires M.Enabled(s, a) && !(a.Run? && M.AtLock(s.tasks[a.t].pc))
    ensures var s' := M.Do(s, a); a.t < |s'.tasks| && BothMove(s.tasks[a.t].pc, s'.tasks[a.t].pc)
  {
    hide M.PostStep, M.FetchStep;
    M.StepShape(s, a);
    if a.Run? && !M.Signals(s, a) {
      if M.Posts(s.tasks[a.t].pc) { PostMoves(s, a.t); } else { FetchMoves(s, a.t); }
    }
  }

  lemma OpKeeps<T>(x: Whole<T>, a: M.Action<T>)
    requires Inv(x) && Enabled(x, Op(a))
    ensures Inv(Do(x, Op(a)))
  {
    hide M.Do, M.Inv, L.Inv, M.PostStep, M.FetchStep, M.Enabled;
    var s' := M.Do(x.mb, a);
    M.StepKeeps(x.mb, a);
    M.StepShape(x.mb, a);
    OwnMove(x.mb, a);
    OpNamed(x.mb, a);
    hide WritePhase, ReadPhase;
    forall t: nat | t < |s'.tasks| ensures Agrees(Do(x, Op(a)), t) {
      assert Agrees(x, t);
      if t != a.t { WokenMoves(x.mb.tasks[t].pc, s'.tasks[t].pc); }
    }
  }

  lemma WokenMoves(pc: M.Pc, pc': M.Pc)
    requires M.SameOrWoken(pc, pc')
    ensures BothMove(pc, pc')
  {}

  lemma OpNamed<T>(s: M.Sys<T>, a: M.Action<T>)
    requires M.Enabled(s, a) && !(a.Run? && M.AtLock(s.tasks[a.t].pc)) && Named(s)
    ensures Named(M.Do(s, a))
  {
    M.StepShape(s, a);
    M.WriteLockEffect(s, a);
    M.ReadLockEffect(s, a);
    hide M.Do;
  }

  /** Who takes the lock of the writers finds the flag clear. */
  lemma WriteFlagClear<T>(x: Whole<T>, t: nat)
    requires Inv(x) && t < |x.mb.tasks| && x.mb.tasks[t].pc.PostLock? && |x.w.tasks| == |x.mb.tasks|
    requires L.Holds(x.w.tasks[t])
    ensures x.mb.wlock == None
  {
    hide L.Inv, M.Accounts, M.Positions, M.Contents, Stands;
    if x.mb.wlock.Some? {
      var u := x.mb.wlock.value;
      assert M.Writing(x.mb.tasks[u].pc) && Agrees(x, u);
      OneWithin(x.w, t, u, WritePhase(x.mb.tasks[u].pc));
    }
  }

  lemma ReadFlagClear<T>(x: Whole<T>, t: nat)
    requires Inv(x) && t < |x.mb.tasks| && x.mb.tasks[t].pc.FetchLock? && |x.r.tasks| == |x.mb.tasks|
    requires L.Holds(x.r.tasks[t])
    ensures x.mb.rlock == None
  {
    hide L.Inv, M.Accounts, M.Positions, M.Contents, Stands;
    if x.mb.rlock.Some? {
      var u := x.mb.rlock.value;
      assert M.Reading(x.mb.tasks[u].pc) && Agrees(x, u);
      OneWithin(x.r, t, u, ReadPhase(x.mb.tasks[u].pc));
    }
  }

  /** What a step at a lock does in the mailbox when the lock is taken or given back. */
  lemma PassLock<T>(s: M.Sys<T>, t: nat)
    requires M.Inv(s) && Named(s) && t < |s.tasks| && M.AtLock(s.tasks[t].pc) && M.Enabled(s, M.Run(t))
    ensures var s', pc := M.Do(s, M.Run(t)), s.tasks[t].pc;
      && s' == (if M.Posts(pc) then M.PostStep(s, t) else M.FetchStep(s, t))
      && M.Inv(s') && Named(s') && |s'.tasks| == |s.tasks|
      && (forall u | 0 <= u < |s.tasks| && u != t :: s'.tasks[u] == s.tasks[u])
      && s'.tasks[t].pc == (if pc.PostLock? then M.PostWrite else if pc.PostUnlock? then M.PostSignal
                            else if pc.FetchLock? then M.FetchRead else M.FetchSignal)
  {
    M.StepKeeps(s, M.Run(t));
    hide M.Inv;
  }

  /** A step at the lock of the writers. */
  lemma WriteLocking<T>(x: Whole<T>, t: nat)
    requires Inv(x) && t < |x.mb.tasks| && (x.mb.tasks[t].pc.PostLock? || x.mb.tasks[t].pc.PostUnlock?)
    ensures Enabled(x, Locking(t)) && Inv(Do(x, Locking(t)))
    ensures var mb := Do(x, Locking(t)).mb;
      mb == x.mb || (M.Enabled(x.mb, M.Run(t)) && mb == M.Do(x.mb, M.Run(t)))
  {
    hide L.Inv, L.Do, L.Enabled, L.Holds, M.Inv, M.Do, M.PostStep;
    assert Agrees(x, t);
    assert M.Shape(x.mb) by { ShapeOf(x.mb); }
    var pc := x.mb.tasks[t].pc;
    LockStep(x.w, t, WritePhase(pc));
    var x' := Do(x, Locking(t));
    if x'.w.tasks[t].pc.Inside? && pc.PostLock? { WriteFlagClear(x, t); }
    if NextPhase(x'.w.tasks[t], WritePhase(pc)) in {Within, Outside} { PassLock(x.mb, t); }
    hide Stands;
    forall u: nat | u < |x.mb.tasks| ensures Agrees(x', u) { assert Agrees(x, u); }
  }

  /** A step at the lock of the readers. */
  lemma ReadLocking<T>(x: Whole<T>, t: nat)
    requires Inv(x) && t < |x.mb.tasks| && (x.mb.tasks[t].pc.FetchLock? || x.mb.tasks[t].pc.FetchUnlock?)
    ensures Enabled(x, Locking(t)) && Inv(Do(x, Locking(t)))
    ensures var mb := Do(x, Locking(t)).mb;
      mb == x.mb || (M.Enabled(x.mb, M.Run(t)) && mb == M.Do(x.mb, M.Run(t)))
  {
    hide L.Inv, L.Do, L.Enabled, L.Holds, M.Inv, M.Do, M.FetchStep;
    assert Agrees(x, t);
    assert M.Shape(x.mb) by { ShapeOf(x.mb); }
    var pc := x.mb.tasks[t].pc;
    LockStep(x.r, t, ReadPhase(pc));
    var x' := Do(x, Locking(t));
    if x'.r.tasks[t].pc.Inside? && pc.FetchLock? { ReadFlagClear(x, t); }
    if NextPhase(x'.r.tasks[t], ReadPhase(pc)) in {Within, Outside} { PassLock(x.mb, t); }
    hide Stands;
    forall u: nat | u < |x.mb.tasks| ensures Agrees(x', u) { assert Agrees(x, u); }
  }

  lemma ShapeOf<T>(s: M.Sys<T>)
    requires M.Inv(s)
    ensures M.Shape(s)
  {}

  /** Every step keeps the invariant, and is a step of the mailbox with locks that are taken and given
      back at once. */
  lemma StepRefines<T>(x: Whole<T>, act: Action<T>)
    requires Inv(x) && Enabled(x, act)
    ensures Inv(Do(x, act)) && M.Steps(x.mb, Meant(act), Do(x, act).mb)
  {
    hide Inv, M.Do, M.Enabled, L.Do, L.Enabled, M.PostStep, M.FetchStep;
    match act
    case Op(a) => OpKeeps(x, a);
    case Locking(t) => if M.Posts(x.mb.tasks[t].pc) { WriteLocking(x, t); } else { ReadLocking(x, t); }
  }

  /** A task at a lock can always make a step. */
  lemma NeverStuck<T>(x: Whole<T>, t: nat)
    requires Inv(x) && t < |x.mb.tasks| && M.AtLock(x.mb.tasks[t].pc)
    ensures Enabled(x, Locking(t))
  {
    hide Inv, Enabled, Do, M.Do;
    if M.Posts(x.mb.tasks[t].pc) { WriteLocking(x, t); } else { ReadLocking(x, t); }
  }

  ghost predicate IsRun<T>(xs: seq<Whole<T>>, acts: seq<Action<T>>) {
    && |xs| == |acts| + 1
    && forall i | 0 <= i < |acts| :: Enabled(xs[i], acts[i]) && xs[i + 1] == Do(xs[i], acts[i])
  }

  ghost predicate Init<T>(x: Whole<T>) {
    && M.Init(x.mb) && L.Init(x.w) && L.Init(x.r)
    && |x.w.tasks| == |x.r.tasks| == |x.mb.tasks| <= WORD
  }

  lemma InitHolds<T>(x: Whole<T>)
    requires Init(x)
    ensures Inv(x)
  {
    hide L.Inv, M.Inv;
    M.InitHolds(x.mb);
    L.InitHolds(x.w);
    L.InitHolds(x.r);
    forall t: nat | t < |x.mb.tasks| ensures Agrees(x, t) {}
  }

  lemma {:induction false} AlwaysInv<T>(xs: seq<Whole<T>>, acts: seq<Action<T>>, i: nat)
    requires IsRun(xs, acts) && Init(xs[0]) && i < |xs|
    ensures Inv(xs[i])
  {
    hide Inv, Init, Enabled, Do;
    if i == 0 {
      InitHolds(xs[0]);
    } else {
      AlwaysInv(xs, acts, i - 1);
      StepRefines(xs[i - 1], acts[i - 1]);
    }
  }

  /** The run of the mailbox that a run stands for. */
  ghost function Boxes<T>(xs: seq<Whole<T>>): (ss: seq<M.Sys<T>>)
    ensures |ss| == |xs| && forall i | 0 <= i < |xs| :: ss[i] == xs[i].mb
  {
    seq(|xs|, i requires 0 <= i < |xs| => xs[i].mb)
  }

  function Meanings<T>(acts: seq<Action<T>>): (r: seq<M.Action<T>>)
    ensures |r| == |acts| && forall i | 0 <= i < |acts| :: r[i] == Meant(acts[i])
  {
    seq(|acts|, i requires 0 <= i < |acts| => Meant(acts[i]))
  }

  /** What holds of every run of the mailbox holds of every run with its spinlocks. */
  lemma RunRefines<T>(xs: seq<Whole<T>>, acts: seq<Action<T>>)
    requires IsRun(xs, acts) && Init(xs[0])
    ensures M.IsRun(Boxes(xs), Meanings(acts)) && M.Init(Boxes(xs)[0])
  {
    hide Inv, Enabled, Do, M.Init, M.Steps, L.Init, Meant;
    forall i: nat | i < |acts| ensures M.Steps(Boxes(xs)[i], Meanings(acts)[i], Boxes(xs)[i + 1]) {
      AlwaysInv(xs, acts, i);
      StepRefines(xs[i], acts[i]);
    }
  }

  /** The mailbox with its spinlocks, in every interleaving: first in, first out, and every box is free,
      announced as a mail, or in some task's hands. */
  lemma FirstInFirstOut<T>(xs: seq<Whole<T>>, acts: seq<Action<T>>, i: nat)
    requires IsRun(xs, acts) && Init(xs[0]) && i < |xs|
    ensures var s := xs[i].mb;
      && s.fetched <= s.posted
      && s.boxes.value + s.mails.value + M.Count(s.tasks, M.Reserved) + M.Count(s.tasks, M.Written)
           + M.Count(s.tasks, M.Claimed) + M.Count(s.tasks, M.Taken) == |s.buffer|
  {
    hide IsRun, Init, M.IsRun, M.Init;
    RunRefines(xs, acts);
    M.FirstInFirstOut(Boxes(xs), Meanings(acts), i);
  }

  /** The last call of task `t` among the first `n` actions. */
  ghost function LastCall<T>(acts: seq<Action<T>>, n: nat, t: nat): Option<M.Action<T>>
    requires n <= |acts|
  {
    if n == 0 then None
    else if acts[n - 1].Op? && acts[n - 1].a.t == t && !acts[n - 1].a.Run? then Some(acts[n - 1].a)
    else LastCall(acts, n - 1, t)
  }

  lemma {:induction false} SameCall<T>(acts: seq<Action<T>>, n: nat, t: nat)
    requires n <= |acts|
    ensures M.LastCall(Meanings(acts), n, t) == LastCall(acts, n, t)
  {
    if n > 0 { SameCall(acts, n - 1, t); }
  }

  /** What a task puts in is the mail of its last call. */
  lemma PutsWhatWasGiven<T>(xs: seq<Whole<T>>, acts: seq<Action<T>>, i: nat)
    requires IsRun(xs, acts) && Init(xs[0]) && i < |acts| && xs[i + 1].mb.posted != xs[i].mb.posted
    ensures var call := LastCall(acts, i, Meant(acts[i]).t);
      M.PostCall(call) && xs[i + 1].mb.posted == xs[i].mb.posted + [call.value.mail]
  {
    hide Init, M.IsRun, M.Init, Meant, Enabled, Do;
    RunRefines(xs, acts);
    M.PutsWhatWasGiven(Boxes(xs), Meanings(acts), i);
    SameCall(acts, i, Meant(acts[i]).t);
  }

  /** Step `i` is the one in which task `t` has read since its last call before step `n`. */
  ghost predicate ReadAt<T>(xs: seq<Whole<T>>, acts: seq<Action<T>>, i: nat, n: nat, t: nat) {
    && i < n <= |acts| && n < |xs| && acts[i] == Op(M.Run(t)) && t < |xs[i].mb.tasks|
    && xs[i].mb.tasks[t].pc.FetchRead? && forall k | i < k < n :: acts[k].Op? && acts[k].a.t == t ==> acts[k].a.Run?
  }

  lemma {:induction false} LastRead<T>(xs: seq<Whole<T>>, acts: seq<Action<T>>, n: nat, t: nat)
    requires IsRun(xs, acts) && n <= |acts|
    ensures var i := M.LastAt(Boxes(xs), Meanings(acts), n, t, M.FetchRead); i.Some? ==> ReadAt(xs, acts, i.value, n, t)
  {
    hide Do, Enabled, Meant, Boxes, Meanings, ReadAt;
    if n > 0 {
      LastRead(xs, acts, n - 1, t);
      var k := n - 1;
      MeantIs(acts[k]);
      LockingReads(xs[k], acts[k]);
      var i := M.LastAt(Boxes(xs), Meanings(acts), k, t, M.FetchRead);
      if i.Some? && (acts[k].Op? && acts[k].a.t == t ==> acts[k].a.Run?) { ReadLonger(xs, acts, i.value, k, t); }
      if Meanings(acts)[k] == M.Run(t) && t < |xs[k].mb.tasks| && xs[k].mb.tasks[t].pc.FetchRead? {
        ReadNow(xs, acts, k, t);
      }
    }
  }

  lemma MeantIs<T>(act: Action<T>)
    ensures Meant(act) == if act.Op? then act.a else M.Run(act.t)
  {}

  /** A task that takes or gives back a lock does not read. */
  lemma LockingReads<T>(x: Whole<T>, act: Action<T>)
    requires Enabled(x, act)
    ensures act.Locking? ==> act.t < |x.mb.tasks| && !x.mb.tasks[act.t].pc.FetchRead?
  {
    hide M.Enabled, L.Enabled, M.Shape;
  }

  lemma ReadLonger<T>(xs: seq<Whole<T>>, acts: seq<Action<T>>, i: nat, n: nat, t: nat)
    requires ReadAt(xs, acts, i, n, t) && n < |acts| && n + 1 < |xs|
    requires acts[n].Op? && acts[n].a.t == t ==> acts[n].a.Run?
    ensures ReadAt(xs, acts, i, n + 1, t)
  {}

  lemma ReadNow<T>(xs: seq<Whole<T>>, acts: seq<Action<T>>, n: nat, t: nat)
    requires n < |acts| && n + 1 < |xs| && acts[n] == Op(M.Run(t)) && t < |xs[n].mb.tasks|
    requires xs[n].mb.tasks[t].pc.FetchRead?
    ensures ReadAt(xs, acts, n, n + 1, t)
  {}

  /** When a call of fetch or tryfetch returns, it hands out the mail that was next when it read, or it was
      tryfetch and no mail was announced. */
  lemma FetchReturns<T>(xs: seq<Whole<T>>, acts: seq<Action<T>>, n: nat, t: nat)
    requires IsRun(xs, acts) && Init(xs[0]) && n < |acts| && t < |xs[0].mb.tasks| && acts[n] == Op(M.Run(t))
    requires t < |xs[n].mb.tasks| && !M.Posts(xs[n].mb.tasks[t].pc)
    requires t < |xs[n + 1].mb.tasks| && xs[n + 1].mb.tasks[t].pc.Away?
    ensures M.FetchCall(LastCall(acts, n, t))
    ensures (LastCall(acts, n, t).value.CallTryFetch? && xs[n].mb.mails.value == 0)
      || exists i: nat :: ReadAt(xs, acts, i, n, t)
           && |xs[i].mb.fetched| < |xs[n + 1].mb.posted|
           && xs[n + 1].mb.tasks[t].mail == xs[n + 1].mb.posted[|xs[i].mb.fetched|]
  {
    hide Init, M.IsRun, M.Init, Enabled, Do;
    RunRefines(xs, acts);
    M.FetchReturns(Boxes(xs), Meanings(acts), n, t);
    SameCall(acts, n, t);
    LastRead(xs, acts, n, t);
  }
}
