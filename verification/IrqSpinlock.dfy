/** The lock that also keeps interrupts off (include/eduos/spinlock.h), on one processor: while it is
    held nobody else runs, so that what counts is how its holder nests it. */
module IrqSpinlock {
  import opened Base
  import Spinlock

  /** The fields of the lock and whether interrupts are on. */
  datatype Lock = Lock(queue: int, dequeue: int, counter: nat, flags: bool, irq: bool)

  datatype Op = Enter | Leave

  /** `spinlock_irqsave_lock`; nothing if it waits for a ticket that nobody will serve. */
  function Acquire(l: Lock): Option<Lock> {
    var ticket := Spinlock.Wrap(l.queue + 1);
    if l.counter == 1 then Some(l.(counter := 2, irq := false))
    else if l.dequeue != ticket then None
    else Some(Lock(ticket, l.dequeue, 1, l.irq, false))
  }

  /** `spinlock_irqsave_unlock`. */
  function Release(l: Lock): Lock
    requires l.counter > 0
  {
    if l.counter > 1 then l.(counter := l.counter - 1)
    else Lock(l.queue, Spinlock.Wrap(l.dequeue + 1), 0, false, l.irq || l.flags)
  }

  function Perform(l: Lock, op: Op): Option<Lock> {
    match op
    case Enter => Acquire(l)
    case Leave => if l.counter > 0 then Some(Release(l)) else None
  }

  function Run(l: Lock, ops: seq<Op>): Option<Lock> {
    if ops == [] then Some(l)
    else
      match Run(l, ops[..|ops| - 1])
      case None => None
      case Some(l') => Perform(l', ops[|ops| - 1])
  }

  /** How many calls have no matching one yet. */
  function Depth(ops: seq<Op>): int {
    if ops == [] then 0
    else Depth(ops[..|ops| - 1]) + if ops[|ops| - 1].Enter? then 1 else -1
  }

  /** Nothing is left that was not entered. */
  ghost predicate Nested(ops: seq<Op>) { forall i | 0 <= i <= |ops| :: Depth(ops[..i]) >= 0 }

  /** Nobody holds the lock and the next ticket is the one to be served. */
  predicate Free(l: Lock) { l.counter == 0 && !l.flags && l.dequeue == Spinlock.Wrap(l.queue + 1) }

  ghost predicate AtMostTwo(ops: seq<Op>) { forall i | 0 <= i <= |ops| :: Depth(ops[..i]) <= 2 }

  /** The lock after some calls, when it started as `l0` at depth 0. */
  ghost predicate After(l0: Lock, l: Lock, depth: int) {
    if depth == 0 then Free(l) && l.irq == l0.irq
    else l.counter == depth <= 2 && l.queue == l.dequeue && l.flags == l0.irq && !l.irq
  }

  lemma StepAfter(l0: Lock, l: Lock, depth: int, op: Op)
    requires After(l0, l, depth) && 0 <= depth <= 2 && IsWord(l.queue) && IsWord(l.dequeue)
    requires op.Leave? ==> depth > 0
    ensures op.Enter? && depth == 2 <==> Perform(l, op) == None
    ensures Perform(l, op).Some? ==>
      var l' := Perform(l, op).value;
      After(l0, l', depth + if op.Enter? then 1 else -1) && IsWord(l'.queue) && IsWord(l'.dequeue)
  {
    NextDiffers(l.queue);
  }

  predicate IsWord(x: int) { -0x8000_0000 <= x < 0x8000_0000 }

  lemma NextDiffers(x: int)
    requires IsWord(x)
    ensures Spinlock.Wrap(x + 1) != x && IsWord(Spinlock.Wrap(x + 1))
  {}

  /** A nested sequence of calls runs through exactly if it is never more than two deep: the third
      nested call waits for its own lock. When it is over, the lock is free and interrupts are as
      they were. */
  lemma {:induction false} TwoDeep(l: Lock, ops: seq<Op>)
    requires Free(l) && IsWord(l.queue) && IsWord(l.dequeue) && Nested(ops)
    ensures Run(l, ops).Some? <==> AtMostTwo(ops)
    ensures Run(l, ops).Some? ==>
      var l' := Run(l, ops).value;
      && After(l, l', Depth(ops)) && IsWord(l'.queue) && IsWord(l'.dequeue)
      && (Depth(ops) == 0 ==> Free(l') && l'.irq == l.irq)
    decreases |ops|
  {
    assert ops[..|ops|] == ops;
    if ops != [] {
      var rest := ops[..|ops| - 1];
      assert forall i | 0 <= i <= |rest| :: rest[..i] == ops[..i];
      TwoDeep(l, rest);
      if AtMostTwo(rest) {
        assert rest[..|rest|] == rest;
        StepAfter(l, Run(l, rest).value, Depth(rest), ops[|ops| - 1]);
      }
    }
  }

  /** Three calls in a row never come back. */
  lemma ThreeDeep(l: Lock)
    requires Free(l) && IsWord(l.queue) && IsWord(l.dequeue)
    ensures Run(l, [Enter, Enter]).Some? && Run(l, [Enter, Enter, Enter]) == None
  {
    var one, two, three := [Enter], [Enter, Enter], [Enter, Enter, Enter];
    assert one[..0] == [] && two[..1] == one && three[..2] == two;
    assert Run(l, one) == Acquire(l) && Depth(one) == 1;
    StepAfter(l, l, 0, Enter);
    StepAfter(l, Run(l, one).value, 1, Enter);
    assert Run(l, two) == Acquire(Run(l, one).value);
    StepAfter(l, Run(l, two).value, 2, Enter);
  }
}
