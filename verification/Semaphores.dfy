/** The counting semaphore with its ring of waiting tasks (include/eduos/semaphore.h). */
module Semaphores {
  import opened Base

  /** `sem_t`. The ring has one entry per task; an entry that holds the number of tasks is
      free. */
  datatype Sem = Sem(value: nat, queue: seq<nat>, pos: nat)

  /** The entry `d` places before `pos`, going round. */
  function Slot(pos: nat, n: nat, d: nat): (i: nat)
    requires pos < n && 1 <= d <= n
    ensures i < n
  {
    if d <= pos then pos - d else pos - d + n
  }

  function Next(i: nat, n: nat): (r: nat)
    requires i < n
    ensures r == if i + 1 == n then 0 else i + 1
  {
    (i + 1) % n
  }

  // The operations of the source on the fields.

  /** `sem_init`. */
  function Fresh(n: nat, v: nat): Sem {
    Sem(v, seq(n, i => n), 0)
  }

  /** The part of `sem_wait` that joins the ring. */
  function Join(s: Sem, id: nat): Sem
    requires s.pos < |s.queue|
  {
    s.(queue := s.queue[s.pos := id], pos := Next(s.pos, |s.queue|))
  }

  /** `sem_trywait`, and the same test in `sem_wait`. */
  function Take(s: Sem): (Sem, bool) {
    if s.value > 0 then (s.(value := s.value - 1), true) else (s, false)
  }

  /** The search of `sem_post`: the first entry in use among the `k` entries from `i` on. */
  function Scan(queue: seq<nat>, i: nat, k: nat): (r: Option<nat>)
    requires i < |queue| && k <= |queue|
    ensures r.Some? ==> r.value < |queue| && queue[r.value] < |queue|
    decreases k
  {
    if k == 0 then None
    else if queue[i] < |queue| then Some(i)
    else Scan(queue, Next(i, |queue|), k - 1)
  }

  /** `sem_post`: the new fields and the task that is woken. */
  function Post(s: Sem): (Sem, Option<nat>)
    requires s.pos < |s.queue|
  {
    var s' := s.(value := (s.value + 1) % WORD);
    if s.value > 0 then (s', None)
    else
      match Scan(s.queue, s.pos, |s.queue|)
      case None => (s', None)
      case Some(i) => (s'.(queue := s.queue[i := |s.queue|]), Some(s.queue[i]))
  }

  /** The tasks `w`, the longest waiting first, stand in the ring in one piece that ends just
      before `pos`; the other entries are free. */
  ghost predicate Ring(s: Sem, w: seq<nat>) {
    var n := |s.queue|;
    && s.pos < n && |w| <= n && s.value < WORD
    && (forall k | 0 <= k < |w| :: w[k] < n)
    && (forall j, k | 0 <= j < k < |w| :: w[j] != w[k])
    && forall d | 1 <= d <= n :: s.queue[Slot(s.pos, n, d)] == if d <= |w| then w[|w| - d] else n
  }

  lemma FreshRing(n: nat, v: nat)
    requires 0 < n && v < WORD
    ensures Ring(Fresh(n, v), [])
  {}

  /** Joining the ring overwrites nobody. */
  lemma JoinRing(s: Sem, w: seq<nat>, id: nat)
    requires Ring(s, w) && id < |s.queue| && id !in w
    ensures s.queue[s.pos] == |s.queue|
    ensures Ring(Join(s, id), w + [id])
  {
    var n, c := |s.queue|, |w|;
    RoomLeft(n, w, id);
    assert Slot(s.pos, n, n) == s.pos;
    var s', w' := Join(s, id), w + [id];
    forall d | 1 <= d <= n ensures s'.queue[Slot(s'.pos, n, d)] == if d <= c + 1 then w'[c + 1 - d] else n {
      JoinSlot(s.pos, n, d);
      if d > 1 { assert s.queue[Slot(s.pos, n, d - 1)] == if d - 1 <= c then w[c - (d - 1)] else n; }
    }
  }

  lemma JoinSlot(pos: nat, n: nat, d: nat)
    requires pos < n && 1 <= d <= n
    ensures d == 1 ==> Slot(Next(pos, n), n, d) == pos
    ensures d > 1 ==> Slot(Next(pos, n), n, d) == Slot(pos, n, d - 1) != pos
  {}

  /** Distinct tasks other than `id` leave room for it. */
  lemma RoomLeft(n: nat, w: seq<nat>, id: nat)
    requires id < n && id !in w && (forall k | 0 <= k < |w| :: w[k] < n)
    requires forall j, k | 0 <= j < k < |w| :: w[j] != w[k]
    ensures |w| < n
  {
    SubsetSize(Members(w), Below(n) - {id});
  }

  function Below(n: nat): (r: set<nat>)
    ensures |r| == n && forall i: nat :: i in r <==> i < n
  {
    if n == 0 then {} else Below(n - 1) + {n - 1}
  }

  function Members(w: seq<nat>): (r: set<nat>)
    ensures forall x :: x in r <==> x in w
    ensures (forall j, k | 0 <= j < k < |w| :: w[j] != w[k]) ==> |r| == |w|
  {
    if w == [] then {} else Members(w[..|w| - 1]) + {w[|w| - 1]}
  }

  lemma {:induction false} SubsetSize(a: set<nat>, b: set<nat>)
    requires a <= b
    ensures |a| <= |b|
  {
    if a != {} {
      var x :| x in a;
      SubsetSize(a - {x}, b - {x});
    }
  }

  /** The search finds the longest-waiting task. */
  lemma {:induction false} ScanFindsOldest(s: Sem, w: seq<nat>, d: nat)
    requires Ring(s, w) && |w| <= d <= |s.queue| && 1 <= d
    ensures var n := |s.queue|;
      Scan(s.queue, Slot(s.pos, n, d), d) == if w == [] then None else Some(Slot(s.pos, n, |w|))
    decreases d
  {
    var n := |s.queue|;
    assert s.queue[Slot(s.pos, n, d)] == if d <= |w| then w[|w| - d] else n;
    if d > |w| && d > 1 {
      assert Next(Slot(s.pos, n, d), n) == Slot(s.pos, n, d - 1);
      ScanFindsOldest(s, w, d - 1);
    }
  }

  /** A post that finds the value 0 wakes the longest-waiting task and takes it out. */
  lemma PostRing(s: Sem, w: seq<nat>)
    requires Ring(s, w)
    ensures var (s', woken) := Post(s);
      if s.value == 0 && w != [] then woken == Some(w[0]) && Ring(s', w[1..]) else woken == None && Ring(s', w)
  {
    var n := |s.queue|;
    assert Slot(s.pos, n, n) == s.pos;
    ScanFindsOldest(s, w, n);
    if s.value == 0 && w != [] {
      var s' := Post(s).0;
      assert s.queue[Slot(s.pos, n, |w|)] == w[0];
      forall d | 1 <= d <= n ensures s'.queue[Slot(s.pos, n, d)] == if d <= |w| - 1 then w[1..][|w| - 1 - d] else n {
        assert d != |w| ==> Slot(s.pos, n, d) != Slot(s.pos, n, |w|);
      }
    }
  }

  /** `sem_t` as the code updates it. */
  class Semaphore {
    var value: nat
    var pos: nat
    const queue: array<nat>

    ghost predicate Valid()
      reads this
    {
      pos < queue.Length
    }

    ghost function View(): Sem
      reads this, queue
    {
      Sem(value, queue[..], pos)
    }

    /** `sem_init` for `n` tasks. */
    constructor (n: nat, v: nat)
      requires n > 0
      ensures Valid() && View() == Fresh(n, v) && fresh(queue)
    {
      value, pos := v, 0;
      queue := new nat[n];
      new;
      for i := 0 to n
        invariant forall j | 0 <= j < i :: queue[j] == n
        invariant value == v && pos == 0
        modifies queue
      {
        queue[i] := n;
      }
    }

    /** `sem_trywait`. */
    method TryWait() returns (ok: bool)
      requires Valid()
      modifies this
      ensures Valid() && (View(), ok) == Take(old(View()))
      ensures (ok <==> old(value) > 0) && value == old(value) - (if ok then 1 else 0)
    {
      ok := false;
      if value > 0 {
        value := value - 1;
        ok := true;
      }
    }

    /** One pass of `sem_wait` by task `id`: takes a unit, or joins the ring (and the task then
        blocks). */
    method WaitOnce(id: nat) returns (ok: bool)
      requires Valid()
      modifies this, queue
      ensures Valid()
      ensures ok == old(Take(View()).1) && View() == if ok then Take(old(View())).0 else Join(old(View()), id)
    {
      if value > 0 {
        value := value - 1;
        ok := true;
      } else {
        queue[pos] := id;
        pos := (pos + 1) % queue.Length;
        ok := false;
      }
    }

    /** `sem_post`: the task to be woken, if any. */
    method PostOnce() returns (woken: Option<nat>)
      requires Valid()
      modifies this, queue
      ensures Valid() && (View(), woken) == Post(old(View()))
    {
      woken := None;
      if value > 0 {
        value := (value + 1) % WORD;
      } else {
        value := (value + 1) % WORD;
        var n, i, k := queue.Length, pos, 0;
        while k < n
          invariant 0 <= k <= n && 0 <= i < n && woken == None
          invariant queue[..] == old(queue[..])
          invariant Scan(queue[..], pos, n) == Scan(queue[..], i, n - k)
        {
          if queue[i] < n {
            woken := Some(queue[i]);
            queue[i] := n;
            break;
          }
          i := (i + 1) % n;
          k := k + 1;
        }
      }
    }

    /** Two tasks wait, there are two posts before the first of them tries again, and it takes its unit:
        the second post has woken nobody, and the second task goes on waiting while there is a unit. */
    method LostWakeup(t: nat, u: nat) returns (ok: bool)
      requires Valid() && value == 0 && Ring(View(), []) && t < queue.Length && u < queue.Length && t != u
      modifies this, queue
      ensures ok && value == 1 && Ring(View(), [u])
    {
      hide Ring, Join, Post;
      JoinRing(View(), [], t);
      JoinKeeps(View(), t);
      ok := WaitOnce(t);
      JoinRing(View(), [t], u);
      JoinKeeps(View(), u);
      ok := WaitOnce(u);
      PostRing(View(), [t, u]);
      PostKeeps(View());
      var first := PostOnce();
      assert [t, u][1..] == [u];
      PostRing(View(), [u]);
      PostKeeps(View());
      var second := PostOnce();
      TakeRing(View(), [u]);
      ok := WaitOnce(t);
    }
  }

  lemma JoinKeeps(s: Sem, id: nat)
    requires s.pos < |s.queue|
    ensures Join(s, id).value == s.value && |Join(s, id).queue| == |s.queue|
  {}

  lemma PostKeeps(s: Sem)
    requires s.pos < |s.queue|
    ensures Post(s).0.value == (s.value + 1) % WORD && |Post(s).0.queue| == |s.queue|
  {}

  lemma TakeRing(s: Sem, w: seq<nat>)
    requires Ring(s, w)
    ensures Ring(Take(s).0, w) && |Take(s).0.queue| == |s.queue|
  {}
}
