/** 64-bit division on a 32-bit machine: Algorithm D on 16-bit digits held in five-element
    arrays (libkern/qdivrem.c). Pointers into the arrays are offsets here. */
module LongDivision {
  import opened Base
  import opened Arith
  import opened Bits
  import opened Digits

  const B: int := 0x1_0000
  const QUAD: int := 0x1_0000_0000_0000_0000

  /** A division by zero ends in the processor's divide error; the remainder is stored only
      when the caller passed a place for it. */
  datatype Result = DivideError | Quotient(q: int, rem: Option<int>)

  /** Reduction of a `u_long` expression to 32 bits. */
  function U32(x: int): (r: int)
    ensures 0 <= r < WORD
  {
    x % WORD
  }

  function HHalf(x: int): int { x / B }

  function LHalf(x: int): int { x % B }

  lemma Pow2Values()
    ensures Pow2(15) == 0x8000 && Pow2(16) == B
  {
    assert Pow(2, 5) == 32;
    PowAdd(2, 5, 5);
    PowAdd(2, 10, 5);
    assert Pow(2, 10) == 1024 && Pow(2, 15) == 0x8000;
  }

  function Combine(a: int, b: int): (r: int)
    requires 0 <= a < B && 0 <= b < B
    ensures r == a * B + b
  {
    Pow2Values();
    OrDisjoint(a * B, b, 16);
    Or(U32(a * B), b)
  }

  /** The scale factors of a shift by `s` bits and its complement multiply to the base. */
  lemma ShiftFactors(s: nat)
    requires 0 < s < 16
    ensures Pow2(s) * Pow2(16 - s) == B && 2 <= Pow2(s) <= 0x8000 && 2 <= Pow2(16 - s)
  {
    Pow2Values();
    PowAdd(2, s, 16 - s);
    PowMonotone(2, s, 15);
    PowMonotone(2, 1, s);
    PowMonotone(2, 1, 16 - s);
  }

  /** `LHALF(hi << s) | (lo >> (16 - s))`: the digit `hi` of a number moved left by `s` bits,
      with the bits that come in from the next digit `lo`. */
  function ShiftJoin(hi: int, lo: int, s: nat): (r: int)
    requires 0 <= hi < B && 0 <= lo < B && 0 < s < 16
    ensures 0 <= r < B && r == hi * Pow2(s) - hi / Pow2(16 - s) * B + lo / Pow2(16 - s)
  {
    var d, e := Pow2(s), Pow2(16 - s);
    ShiftFactors(s);
    ShiftDigit(hi, lo, d, e);
    OrDisjoint(LHalf(hi * d), lo / e, s);
    Or(LHalf(U32(hi * d)), lo / e)
  }

  lemma ShiftDigit(hi: int, lo: int, d: int, e: int)
    requires 0 < d && 0 < e && d * e == B && d <= 0x8000 && 0 <= hi < B && 0 <= lo < B
    ensures U32(hi * d) == hi * d >= 0 && 0 <= lo / e < d
    ensures LHalf(hi * d) == hi * d - hi / e * B && LHalf(hi * d) % d == 0
    ensures LHalf(hi * d) + lo / e < B
  {
    QuotientBelow(lo, e, d);
    MulMonotone(d, 0x8000, hi);
    MulMonotone(0, hi, d);
    MultipleMod(hi, d, e);
    DivModUnique(hi % e * d, d, hi % e, 0);
    MulMonotone(hi % e, e - 1, d);
    assert (e - 1) * d == B - d;
  }

  lemma QuotientBelow(x: int, e: int, d: int)
    requires 0 < e && 0 < d && 0 <= x < d * e
    ensures 0 <= x / e < d
  {
    DivModDef(x, e);
    MulCancelLess(x / e, d, e);
    MulCancelLess(-1, x / e, e);
  }

  /** Shifting left by a factor d of the base d * e drops the part above e. */
  lemma MultipleMod(x: int, d: int, e: int)
    requires 0 < d && 0 < e && 0 <= x
    ensures d * e > 0 && x * d % (d * e) == x % e * d == x * d - x / e * (d * e)
  {
    DivModDef(x, e);
    calc {
      x * d;
      (x / e * e + x % e) * d;
      x / e * e * d + x % e * d;
      { assert x / e * e * d == x / e * (d * e); }
      x / e * (d * e) + x % e * d;
    }
    MulMonotone(x % e, e - 1, d);
    assert (e - 1) * d == d * e - d;
    MulMonotone(0, x % e, d);
    MulStrict(0, d, e);
    DivModUnique(x * d, d * e, x / e, x % e * d);
  }

  /** `__shl`: shifts the digits p[lo..lo + len] left, dropping what falls out. */
  method Shl(p: array<int>, lo: nat, len: nat, sh: nat)
    requires lo + len < p.Length && 0 < sh < 16
    requires InBase(p[lo..lo + len + 1], B)
    modifies p
    ensures InBase(p[lo..lo + len + 1], B)
    ensures forall k | 0 <= k < p.Length && !(lo <= k <= lo + len) :: p[k] == old(p[k])
    ensures Shifted(p[..], old(p[..]), lo, len + 1, sh, 0)
  {
    ghost var was := p[..];
    assert forall k | lo <= k <= lo + len :: was[k] == p[lo..lo + len + 1][k - lo];
    ShlStart(was, lo, sh);
    for i := 0 to len
      invariant forall k | lo <= k <= lo + len :: 0 <= p[k] < B
      invariant forall k | 0 <= k < p.Length && !(lo <= k < lo + i) :: p[k] == was[k]
      invariant Shifted(p[..], was, lo, i, sh, was[lo + i])
    {
      ShlStep(p[..], was, lo, i, sh, was[lo + i + 1]);
      ghost var p' := p[..][lo + i := ShiftJoin(was[lo + i], was[lo + i + 1], sh)];
      p[lo + i] := ShiftJoin(p[lo + i], p[lo + i + 1], sh);
      assert p[..] == p';
    }
    ShlStep(p[..], was, lo, len, sh, 0);
    LastShift(was[lo + len], sh);
    ghost var p' := p[..][lo + len := ShiftJoin(was[lo + len], 0, sh)];
    p[lo + len] := LHalf(U32(p[lo + len] * Pow2(sh)));
    assert p[..] == p';
  }

  lemma LastShift(x: int, sh: nat)
    requires 0 <= x < B && 0 < sh < 16
    ensures ShiftJoin(x, 0, sh) == LHalf(U32(x * Pow2(sh)))
  {
    ShiftFactors(sh);
    ShiftDigit(x, 0, Pow2(sh), Pow2(16 - sh));
  }

  lemma ShlStart(was: seq<int>, lo: nat, sh: nat)
    requires lo < |was| && 0 < sh < 16
    ensures Shifted(was, was, lo, 0, sh, was[lo])
  {
    assert was[lo..lo] == [];
  }

  /** The first `i` digits have been shifted; the bits of digit `next` came in at the right,
      and what fell out at the left is accounted for. */
  ghost predicate Shifted(p: seq<int>, was: seq<int>, lo: nat, i: nat, sh: nat, next: int)
    requires |p| == |was| && lo + i <= |p| && lo < |p| && sh < 16
  {
    Val(p[lo..lo + i], B)
      == Val(was[lo..lo + i], B) * Pow2(sh) + next / Pow2(16 - sh) - was[lo] / Pow2(16 - sh) * Pow(B, i)
  }

  lemma ShlStep(p: seq<int>, was: seq<int>, lo: nat, i: nat, sh: nat, next: int)
    requires |p| == |was| && lo + i < |p| && 0 < sh < 16
    requires 0 <= was[lo + i] < B && 0 <= next < B
    requires Shifted(p, was, lo, i, sh, was[lo + i])
    ensures Shifted(p[lo + i := ShiftJoin(was[lo + i], next, sh)], was, lo, i + 1, sh, next)
  {
    var d, e := Pow2(sh), Pow2(16 - sh);
    var p' := p[lo + i := ShiftJoin(was[lo + i], next, sh)];
    assert p'[lo..lo + i] == p[lo..lo + i];
    ValSliceBack(p', lo, lo + i, B);
    ValSliceBack(was, lo, lo + i, B);
    ShlArith(Val(was[lo..lo + i], B), was[lo + i], d, was[lo] / e, Pow(B, i));
  }

  lemma ShlArith(h: int, x: int, d: int, c: int, p: int)
    ensures (h * B + x) * d == h * d * B + x * d && c * (B * p) == c * p * B
  {}

  /** What the loop of step D3 keeps: rhat is the rest of the two leading digits `nn`, and
      qhat is not below the capped quotient of the leading digits. */
  ghost predicate Trial(qhat: int, rhat: int, nn: int, u2: int, v1: int, v2: int) {
    && 0 <= qhat <= B && 0 <= rhat && qhat * v1 + rhat == nn
    && (qhat >= B - 1 || nn * B + u2 < (qhat + 1) * (v1 * B + v2))
  }

  /** Step D3. The loop settles on the capped quotient of the leading digits; with a divisor
      that starts with a set bit it runs at most twice. */
  method TrialDigit(u: seq<int>, v: seq<int>) returns (qhat: int, ghost rounds: nat)
    requires |u| >= 3 && |v| >= 2 && InBase(u, B) && InBase(v, B)
    requires v[0] > 0 && u[0] <= v[0]
    ensures IsTrialDigit(qhat, u, v, B)
    ensures v[0] >= B / 2 ==> rounds <= 2
  {
    var v1, v2 := v[0], v[1];
    var uj0, uj1, uj2 := u[0], u[1], u[2];
    var rhat: int;
    ghost var nn := uj0 * B + uj1;
    var tooBig := uj0 == v1;
    if tooBig {
      qhat, rhat := B, uj1;
    } else {
      var nn := Combine(uj0, uj1);
      qhat, rhat := nn / v1, nn % v1;
      FirstTrial(uj0, uj1, uj2, v1, v2);
    }
    rounds := 0;
    while tooBig || U32(v2 * qhat) > Combine(rhat, uj2)
      invariant Trial(qhat, rhat, nn, uj2, v1, v2) && rhat < B && tooBig == (qhat == B)
      invariant v1 >= B / 2 ==> rounds * (B / 2) <= rhat
      decreases B - rhat
    {
      TrialStep(qhat, rhat, nn, uj2, v1, v2);
      tooBig := false;
      qhat := qhat - 1;
      rhat := rhat + v1;
      rounds := rounds + 1;
      if rhat >= B { break; }
    }
    TrialEnd(qhat, rhat, nn, u, v);
  }

  lemma FirstTrial(u0: int, u1: int, u2: int, v1: int, v2: int)
    requires 0 <= u0 < v1 < B && 0 <= u1 < B && 0 <= u2 < B && 0 <= v2
    ensures var nn := u0 * B + u1;
      nn / v1 < B && nn % v1 < v1 && Trial(nn / v1, nn % v1, nn, u2, v1, v2)
  {
    var nn := u0 * B + u1;
    QuotientBelow(nn, v1, B);
    DivModDef(nn, v1);
    MulMonotone(0, nn / v1 + 1, v2);
    assert (nn / v1 + 1) * (v1 * B + v2) == (nn / v1 * v1 + v1) * B + (nn / v1 + 1) * v2;
  }

  /** `v2 * qhat > rhat * B + u2` says that qhat is too big for the leading digits. */
  lemma TrialStep(qhat: int, rhat: int, nn: int, u2: int, v1: int, v2: int)
    requires Trial(qhat, rhat, nn, u2, v1, v2) && 0 <= v2 < B && 0 <= u2 && 0 < v1
    requires qhat == B || U32(v2 * qhat) > rhat * B + u2
    ensures Trial(qhat - 1, rhat + v1, nn, u2, v1, v2)
  {
    assert (qhat - 1) * v1 == qhat * v1 - v1;
    if qhat < B {
      ProductFits(v2, qhat);
      assert qhat * (v1 * B + v2) == qhat * v1 * B + v2 * qhat;
    }
  }

  lemma TrialEnd(qhat: int, rhat: int, nn: int, u: seq<int>, v: seq<int>)
    requires |u| >= 3 && |v| >= 2 && InBase(u, B) && InBase(v, B) && nn == u[0] * B + u[1]
    requires Trial(qhat, rhat, nn, u[2], v[0], v[1]) && qhat < B
    requires rhat >= B || U32(v[1] * qhat) <= rhat * B + u[2]
    ensures IsTrialDigit(qhat, u, v, B)
  {
    var v1, v2 := v[0], v[1];
    ProductFits(v2, qhat);
    assert qhat * (v1 * B + v2) == qhat * v1 * B + v2 * qhat;
    ThreeDigits(u, B);
    TwoDigits(v, B);
  }

  lemma ProductFits(x: int, y: int)
    requires 0 <= x < B && 0 <= y < B
    ensures 0 <= x * y <= (B - 1) * (B - 1) && U32(x * y) == x * y
  {
    MulMonotone(x, B - 1, y);
    MulMonotone(0, x, y);
  }

  /** The window u - f * v after the digits from `i` on: `t` is the pending borrow. Adding
      back is subtracting with f = -1, a carry being a negative borrow. */
  ghost predicate Subtracted(x: seq<int>, u: seq<int>, v: seq<int>, i: nat, f: int, t: int)
    requires |x| == |u| == |v| + 1 && i <= |v|
  {
    Val(x[i + 1..|u|], B) == Val(u[i + 1..|u|], B) - f * Val(v[i..|v|], B) + t * Pow(B, |v| - i)
  }

  /** The whole window u - f * v, with `k` units taken from the digit to its left. */
  ghost predicate Difference(x: seq<int>, u: seq<int>, v: seq<int>, f: int, k: int) {
    Val(x, B) == Val(u, B) - f * Val(v, B) + k * Pow(B, |u|)
  }

  lemma SubtractStart(u: seq<int>, v: seq<int>, f: int)
    requires |u| == |v| + 1
    ensures Subtracted(u, u, v, |v|, f, 0)
  {
    assert v[|v|..|v|] == [];
  }

  lemma SubtractStep(x: seq<int>, u: seq<int>, v: seq<int>, i: nat, f: int, t: int, d: int, t': int)
    requires |x| == |u| == |v| + 1 && 0 < i <= |v|
    requires Subtracted(x, u, v, i, f, t)
    requires d == u[i] - v[i - 1] * f - t + t' * B
    ensures Subtracted(x[i := d], u, v, i - 1, f, t')
  {
    var n := |u|;
    var x' := x[i := d];
    assert x'[i + 1..n] == x[i + 1..n];
    ValSliceFront(x', i, n, B);
    ValSliceFront(u, i, n, B);
    ValSliceFront(v, i - 1, |v|, B);
    SubtractArith(u[i], v[i - 1], f, t, t', Pow(B, |v| - i), Val(v[i..|v|], B));
  }

  lemma SubtractEnd(x: seq<int>, u: seq<int>, v: seq<int>, f: int, t: int, d: int, k: int)
    requires |x| == |u| == |v| + 1
    requires Subtracted(x, u, v, 0, f, t)
    requires d == u[0] - t + k * B
    ensures Difference(x[0 := d], u, v, f, k)
  {
    var xs, us, p := x[1..|u|], u[1..|u|], Pow(B, |v|);
    assert x[0 := d] == [d] + xs && u == [u[0]] + us && v[0..|v|] == v;
    ValCons(d, xs, B);
    ValCons(u[0], us, B);
    var fv := f * Val(v, B);
    assert Val(xs, B) == Val(us, B) - fv + t * p;
    EndArith(u[0], Val(us, B), fv, t, k, p);
  }

  lemma SubtractArith(u: int, v: int, f: int, t: int, t': int, p: int, vv: int)
    ensures (u - v * f - t + t' * B) * p + t * p == u * p - v * f * p + t' * (B * p)
    ensures f * (v * p + vv) == v * f * p + f * vv
  {}

  lemma EndArith(u: int, rest: int, fv: int, t: int, k: int, p: int)
    ensures (u - t + k * B) * p + (rest - fv + t * p) == u * p + rest - fv + k * (B * p)
  {}

  /** `(B - HHALF(t)) & (B - 1)`: the borrow that the difference `t` leaves. */
  function BorrowOf(t: int): int { (B - HHalf(t)) % B }

  /** One digit of step D4: the 32-bit wrap-around of `t` leaves the digit and the borrow. */
  lemma BorrowDigit(u: int, v: int, qhat: int, t: int)
    requires 0 <= u < B && 0 <= v < B && 0 <= qhat < B && 0 <= t < B
    ensures var x := U32(u - v * qhat - t);
      && 0 <= BorrowOf(x) < B && 0 <= LHalf(x) < B
      && LHalf(x) == u - v * qhat - t + BorrowOf(x) * B
  {
    ProductFits(v, qhat);
    BorrowArith(u - v * qhat - t);
  }

  /** One digit of step D6. */
  lemma CarryDigit(y: int)
    requires 0 <= y < 2 * B
    ensures 0 <= HHalf(U32(y)) <= 1 && 0 <= LHalf(U32(y)) < B && LHalf(U32(y)) == y - HHalf(U32(y)) * B
  {}

  lemma LastBorrow(u: int, t: int)
    requires 0 <= u < B && 0 <= t < B
    ensures var x := U32(u - t);
      0 <= LHalf(x) < B && LHalf(x) == u - t + (if HHalf(x) != 0 then 1 else 0) * B
  {}

  lemma BorrowArith(y: int)
    requires -(B - 1) * B <= y < B
    ensures LHalf(U32(y)) == y + BorrowOf(U32(y)) * B
  {
    if y >= 0 {
      assert U32(y) == y && HHalf(y) == 0;
    } else {
      var h, l := y / B, y % B;
      assert U32(y) == y + WORD;
      DivModUnique(y + WORD, B, h + B, l);
      assert B - HHalf(U32(y)) == -h && 0 < -h < B;
    }
  }

  /** `x` stands at u[a..] and the rest of the array is as it was. */
  ghost predicate Holds(u: seq<int>, was: seq<int>, a: nat, x: seq<int>) {
    && |u| == |was| && a + |x| <= |was|
    && forall k | 0 <= k < |u| :: u[k] == if a <= k < a + |x| then x[k - a] else was[k]
  }

  /** Step D4: u[a..a + n] minus qhat * v[c..c + n - 1], modulo B^(n + 1). */
  method MulSub(u: array<int>, a: nat, v: array<int>, c: nat, n: nat, qhat: int)
    returns (borrow: bool, ghost x: seq<int>)
    requires u != v && a + n < u.Length && c + n <= v.Length
    requires InBase(u[..], B) && InBase(v[c..c + n], B) && 0 <= qhat < B
    modifies u
    ensures |x| == n + 1 && InBase(x, B) && Holds(u[..], old(u[..]), a, x)
    ensures Difference(x, old(u[a..a + n + 1]), v[c..c + n], qhat, if borrow then 1 else 0)
  {
    hide Subtracted, Difference, Val, U32, HHalf, LHalf, BorrowOf;
    ghost var was, w, dv := u[..], u[a..a + n + 1], v[c..c + n];
    x := w;
    SubtractStart(w, dv, qhat);
    var t, i := 0, n;
    while i > 0
      invariant 0 <= i <= n && 0 <= t < B
      invariant |x| == n + 1 && InBase(x, B) && Holds(u[..], was, a, x)
      invariant forall k | 0 <= k <= i :: x[k] == w[k]
      invariant Subtracted(x, w, dv, i, qhat, t)
    {
      assert u[a + i] == w[i] && v[c + i - 1] == dv[i - 1];
      BorrowDigit(w[i], dv[i - 1], qhat, t);
      ghost var t0 := t;
      t := U32(u[a + i] - v[c + i - 1] * qhat - t);
      ghost var d := LHalf(t);
      u[a + i] := LHalf(t);
      t := BorrowOf(t);
      SubtractStep(x, w, dv, i, qhat, t0, d, t);
      x := x[i := d];
      i := i - 1;
    }
    assert u[a] == w[0];
    LastBorrow(w[0], t);
    ghost var t0 := t;
    t := U32(u[a] - t);
    ghost var d := LHalf(t);
    u[a] := LHalf(t);
    borrow := HHalf(t) != 0;
    SubtractEnd(x, w, dv, qhat, t0, d, if borrow then 1 else 0);
    x := x[0 := d];
  }

  /** Step D6: u[a..a + n] plus v[c..c + n - 1], the carry out of the window ignored. */
  method AddBack(u: array<int>, a: nat, v: array<int>, c: nat, n: nat)
    returns (ghost carry: int, ghost x: seq<int>)
    requires u != v && a + n < u.Length && c + n <= v.Length
    requires InBase(u[..], B) && InBase(v[c..c + n], B)
    modifies u
    ensures |x| == n + 1 && InBase(x, B) && Holds(u[..], old(u[..]), a, x)
    ensures Difference(x, old(u[a..a + n + 1]), v[c..c + n], -1, -carry) && 0 <= carry <= 1
  {
    hide Subtracted, Difference, Val, U32, HHalf, LHalf;
    ghost var was, w, dv := u[..], u[a..a + n + 1], v[c..c + n];
    x := w;
    SubtractStart(w, dv, -1);
    var t, i := 0, n;
    while i > 0
      invariant 0 <= i <= n && 0 <= t <= 1
      invariant |x| == n + 1 && InBase(x, B) && Holds(u[..], was, a, x)
      invariant forall k | 0 <= k <= i :: x[k] == w[k]
      invariant Subtracted(x, w, dv, i, -1, -t)
    {
      assert u[a + i] == w[i] && v[c + i - 1] == dv[i - 1];
      CarryDigit(t + w[i] + dv[i - 1]);
      ghost var t0 := t;
      t := U32(t + u[a + i] + v[c + i - 1]);
      ghost var d := LHalf(t);
      u[a + i] := LHalf(t);
      t := HHalf(t);
      SubtractStep(x, w, dv, i, -1, -t0, d, -t);
      x := x[i := d];
      i := i - 1;
    }
    assert u[a] == w[0];
    CarryDigit(w[0] + t);
    carry := HHalf(U32(w[0] + t));
    ghost var d := LHalf(U32(w[0] + t));
    SubtractEnd(x, w, dv, -1, -t, d, -carry);
    x := x[0 := d];
    u[a] := LHalf(U32(u[a] + t));
  }

  ghost predicate DivMod(x: int, d: int, q: int, r: int) {
    x == q * d + r && 0 <= r < d
  }

  lemma DivModExact(x: int, d: int, q: int, r: int)
    requires DivMod(x, d, q, r)
    ensures d > 0 && x / d == q && x % d == r
  {
    DivModUnique(x, d, q, r);
  }

  /** Step D5: the borrow test is set exactly when the trial digit was too big. */
  lemma BorrowTest(x: seq<int>, u: seq<int>, v: seq<int>, qhat: int, borrow: bool)
    requires |x| == |u| && InBase(x, B) && InBase(u, B)
    requires Difference(x, u, v, qhat, if borrow then 1 else 0)
    ensures borrow <==> qhat * Val(v, B) > Val(u, B)
  {
    ValBound(x, B);
    ValBound(u, B);
  }

  /** A single addition of the divisor undoes one subtraction too many. */
  lemma AddBackRestores(x: seq<int>, y: seq<int>, u: seq<int>, v: seq<int>, qhat: int, carry: int)
    requires |x| == |y| == |u| == |v| + 1 && InBase(y, B) && InBase(v, B)
    requires Difference(x, u, v, qhat, 1) && Difference(y, x, v, -1, -carry) && 0 <= carry <= 1
    requires 0 <= Val(u, B) - (qhat - 1) * Val(v, B) < Val(v, B)
    ensures Difference(y, u, v, qhat - 1, 0)
  {
    ValBound(y, B);
    ValBound(v, B);
    RestoreArith(Val(u, B), Val(v, B), Val(x, B), Val(y, B), Pow(B, |v|), qhat, carry);
  }

  lemma RestoreArith(u: int, v: int, x: int, y: int, p: int, f: int, carry: int)
    requires x == u - f * v + B * p && y == x + v - carry * (B * p)
    requires 0 <= y < B * p && v < p && 0 <= u - (f - 1) * v < v && 0 <= carry <= 1
    ensures y == u - (f - 1) * v
  {
    assert (f - 1) * v == f * v - v;
    assert carry == 1;
  }

  /** The dividend's leading digit does not exceed the divisor's. */
  lemma LeadingDigits(u: seq<int>, v: seq<int>)
    requires OneDigit(u, v, B)
    ensures u[0] <= v[0]
  {
    var n := |v|;
    var p, ulo := Leading(u[..n], 1, B);
    var p', vlo := Leading(v, 1, B);
    assert u[..n][..1] == [u[0]] && v[..1] == [v[0]];
    assert Val([u[0]], B) == u[0] && Val([v[0]], B) == v[0];
    if v[0] < u[0] {
      MulMonotone(v[0] + 1, u[0], p);
    }
  }

  /** Steps D3 to D6: one digit of the quotient, leaving the remainder in the window. */
  method DigitStep(u: array<int>, a: nat, v: array<int>, c: nat, n: nat)
    returns (q: int, ghost x: seq<int>)
    requires u != v && a + n < u.Length && c + n <= v.Length
    requires InBase(u[..], B) && OneDigit(u[a..a + n + 1], v[c..c + n], B)
    modifies u
    ensures |x| == n + 1 && InBase(x, B) && Holds(u[..], old(u[..]), a, x)
    ensures 0 <= q < B && DivMod(old(Val(u[a..a + n + 1], B)), Val(v[c..c + n], B), q, Val(x, B))
  {
    hide Val, IsTrialDigit, Pow;
    ghost var was, w, dv := u[..], u[a..a + n + 1], v[c..c + n];
    LeadingDigits(w, dv);
    QuotientIsDigit(w, dv, B);
    var qhat, _ := TrialDigit(u[a..a + n + 1], v[c..c + n]);
    TrialDigitTheorem(qhat, w, dv, B);
    var borrow;
    borrow, x := MulSub(u, a, v, c, n, qhat);
    BorrowTest(x, w, dv, qhat, borrow);
    DivModDef(Val(w, B), Val(dv, B));
    ghost var q0 := Val(w, B) / Val(dv, B);
    if borrow {
      qhat := qhat - 1;
      assert u[a..a + n + 1] == x;
      ghost var carry, y := AddBack(u, a, v, c, n);
      AddBackRestores(x, y, w, dv, qhat + 1, carry);
      x := y;
    }
    q := qhat;
    assert Difference(x, w, dv, q0, 0);
  }

  /** Long division of u0[k..] when the window stands at `a`: u[k..] holds zeros up to there,
      then the partial remainder of n digits, then the digits not yet brought down; `q` is the
      quotient so far. */
  ghost predicate Divided(u: seq<int>, u0: seq<int>, k: nat, a: nat, v: seq<int>, q: seq<int>) {
    && |u| == |u0| && k + |q| == a && a + |v| <= |u|
    && InBase(u, B) && InBase(q, B)
    && (forall i | k <= i < a :: u[i] == 0)
    && (forall i | 0 <= i < k || a + |v| <= i < |u| :: u[i] == u0[i])
    && Val(u[a..a + |v|], B) < Val(v, B)
    && QuotientSoFar(u, u0, k, a, a + |v|, v, q)
  }

  ghost predicate QuotientSoFar(u: seq<int>, u0: seq<int>, k: nat, a: nat, e: nat, v: seq<int>, q: seq<int>)
    requires k <= a <= e <= |u| == |u0|
  {
    Val(u0[k..e], B) == Val(q, B) * Val(v, B) + Val(u[a..e], B)
  }

  lemma DivideStep(u: seq<int>, u': seq<int>, u0: seq<int>, k: nat, a: nat, v: seq<int>, q: seq<int>, d: int,
                   x: seq<int>)
    requires Divided(u, u0, k, a, v, q) && a + |v| < |u| && InBase(v, B)
    requires Holds(u', u, a, x) && |x| == |v| + 1 && InBase(x, B) && 0 <= d < B
    requires DivMod(Val(u[a..a + |v| + 1], B), Val(v, B), d, Val(x, B))
    ensures Divided(u', u0, k, a + 1, v, q + [d])
  {
    hide QuotientSoFar, DivMod, Val, InBase, Holds;
    RemainderWindow(u', u, a, x, v, Val(u[a..a + |v| + 1], B), d);
    StepShape(u, u', u0, k, a, v, q, d, x);
    DivideValue(u, u', u0, k, a, a + |v|, v, q, d);
  }

  lemma StepShape(u: seq<int>, u': seq<int>, u0: seq<int>, k: nat, a: nat, v: seq<int>, q: seq<int>, d: int,
                  x: seq<int>)
    requires Divided(u, u0, k, a, v, q) && a + |v| < |u|
    requires Holds(u', u, a, x) && |x| == |v| + 1 && InBase(x, B) && x[0] == 0 && 0 <= d < B
    ensures |u'| == |u| && InBase(u', B) && InBase(q + [d], B) && u[a + |v|] == u0[a + |v|]
    ensures forall i | k <= i < a + 1 :: u'[i] == 0
    ensures forall i | 0 <= i < k || a + 1 + |v| <= i < |u| :: u'[i] == u0[i]
  {
    hide QuotientSoFar, Val;
  }

  /** The remainder frees the leading digit of its window. */
  lemma RemainderWindow(u': seq<int>, u: seq<int>, a: nat, x: seq<int>, v: seq<int>, y: int, d: int)
    requires Holds(u', u, a, x) && |x| == |v| + 1 && InBase(x, B) && InBase(v, B)
    requires DivMod(y, Val(v, B), d, Val(x, B))
    ensures x[0] == 0 && Val(u'[a + 1..a + 1 + |v|], B) == Val(x, B) < Val(v, B)
  {
    ValBound(v, B);
    LeadingZero(x, B);
    assert u'[a + 1..a + 1 + |v|] == x[1..];
  }

  lemma DivideValue(u: seq<int>, u': seq<int>, u0: seq<int>, k: nat, a: nat, e: nat, v: seq<int>, q: seq<int>,
                    d: int)
    requires k <= a <= e < |u| == |u'| == |u0| && u[e] == u0[e]
    requires QuotientSoFar(u, u0, k, a, e, v, q)
    requires DivMod(Val(u[a..e + 1], B), Val(v, B), d, Val(u'[a + 1..e + 1], B))
    ensures QuotientSoFar(u', u0, k, a + 1, e + 1, v, q + [d])
  {
    ValSliceBack(u, a, e, B);
    ValSliceBack(u0, k, e, B);
    assert (q + [d])[..|q|] == q;
    BringDown(Val(q, B), Val(v, B), Val(u[a..e], B), u0[e], d, Val(u'[a + 1..e + 1], B));
  }

  lemma BringDown(q: int, v: int, r: int, x: int, d: int, r': int)
    requires DivMod(r * B + x, v, d, r')
    ensures (q * v + r) * B + x == (q * B + d) * v + r'
  {
    assert (q * B + d) * v == q * v * B + d * v;
  }

  /** Steps D2 to D7: the quotient of u[k..k + m + n] by v[c..c + n - 1] goes to q[o..o + m]. */
  method LongDivide(u: array<int>, k: nat, m: nat, v: array<int>, c: nat, n: nat, q: array<int>, o: nat)
    requires u != v && u != q && v != q && n >= 2
    requires k + m + n < u.Length && c + n <= v.Length && o + m < q.Length
    requires InBase(u[..], B) && InBase(v[c..c + n], B) && v[c] > 0
    requires Val(u[k..k + n], B) < Val(v[c..c + n], B)
    modifies u, q
    ensures q[..o] == old(q[..o]) && q[o + m + 1..] == old(q[o + m + 1..])
    ensures Divided(u[..], old(u[..]), k, k + m + 1, v[c..c + n], q[o..o + m + 1])
  {
    hide Divided, OneDigit, Val, Holds, DivMod, InBase;
    ghost var was, dv, q0 := u[..], v[c..c + n], q[..];
    ghost var qd: seq<int> := [];
    DivideStart(was, k, dv);
    var j := 0;
    while j <= m
      invariant 0 <= j <= m + 1 && |qd| == j
      invariant Divided(u[..], was, k, k + j, dv, qd)
      invariant forall i | 0 <= i < o || o + j <= i < q.Length :: q[i] == q0[i]
      invariant forall i | 0 <= i < j :: q[o + i] == qd[i]
    {
      ghost var us := u[..];
      NextWindow(us, was, k, k + j, dv, qd);
      var d, x := DigitStep(u, k + j, v, c, n);
      DivideStep(us, u[..], was, k, k + j, dv, qd, d, x);
      q[o + j] := d;
      qd := qd + [d];
      j := j + 1;
    }
    assert q[o..o + m + 1] == qd;
  }

  lemma DivideStart(u: seq<int>, k: nat, v: seq<int>)
    requires k + |v| <= |u| && InBase(u, B) && Val(u[k..k + |v|], B) < Val(v, B)
    ensures Divided(u, u, k, k, v, [])
  {}

  lemma NextWindow(u: seq<int>, u0: seq<int>, k: nat, a: nat, v: seq<int>, q: seq<int>)
    requires Divided(u, u0, k, a, v, q) && a + |v| < |u|
    requires |v| >= 2 && InBase(v, B) && v[0] > 0
    ensures InBase(u, B) && OneDigit(u[a..a + |v| + 1], v, B)
  {
    hide QuotientSoFar;
    assert u[a..a + |v| + 1][..|v|] == u[a..a + |v|];
  }

  /** The digits from `i` on have been shifted right by `s` bits; `rest` fell out. */
  ghost predicate ShiftedRight(x: seq<int>, u: seq<int>, i: nat, s: nat, rest: int)
    requires |x| == |u| && 0 < i <= |u|
  {
    Pow2(s) * Val(x[i..|u|], B) + rest == u[i - 1] % Pow2(s) * Pow(B, |u| - i) + Val(u[i..|u|], B)
  }

  lemma ShrStep(x: seq<int>, u: seq<int>, i: nat, s: nat, rest: int)
    requires |x| == |u| && 0 < i < |u| && 0 < s < 16 && InBase(u, B)
    requires ShiftedRight(x, u, i + 1, s, rest)
    ensures ShiftedRight(x[i := ShiftJoin(u[i - 1], u[i], 16 - s)], u, i, s, rest)
  {
    var d, p := Pow2(s), Pow(B, |u| - i - 1);
    var nd := ShiftJoin(u[i - 1], u[i], 16 - s);
    var x' := x[i := nd];
    assert x'[i + 1..|u|] == x[i + 1..|u|];
    ValSliceFront(x', i, |u|, B);
    ValSliceFront(u, i, |u|, B);
    ShiftFactors(s);
    ShrDigit(u[i - 1], u[i], d, Pow2(16 - s), nd);
    ShrArith(d, nd, p, Val(x[i + 1..|u|], B), u[i - 1] % d, u[i], u[i] % d);
  }

  lemma ShrDigit(hi: int, lo: int, d: int, e: int, nd: int)
    requires d > 0 && d * e == B && nd == hi * e - hi / d * B + lo / d
    ensures d * nd == hi % d * B + lo - lo % d
  {
    DivModDef(hi, d);
    DivModDef(lo, d);
    assert d * (hi * e) == hi * B;
    assert d * (hi / d * B) == (hi - hi % d) * B;
    assert d * nd == d * (hi * e) - d * (hi / d * B) + d * (lo / d);
  }

  lemma ShrArith(d: int, nd: int, p: int, v: int, h: int, l: int, ld: int)
    requires d * nd == h * B + l - ld
    ensures d * (nd * p + v) == h * (B * p) + l * p - ld * p + d * v
  {
    assert d * (nd * p + v) == d * nd * p + d * v;
    assert (h * B + l - ld) * p == h * (B * p) + l * p - ld * p;
  }

  lemma ShrEnd(x: seq<int>, u: seq<int>, s: nat, rest: int)
    requires |x| == |u| > 0 && x[0] == u[0] == 0 && 0 <= rest < Pow2(s)
    requires ShiftedRight(x, u, 1, s, rest)
    ensures Val(x, B) == Val(u, B) / Pow2(s)
  {
    var xs, us, d := Val(x[1..|u|], B), Val(u[1..|u|], B), Pow2(s);
    assert d * xs + rest == us by { assert 0 % d == 0; }
    hide ShiftedRight, Val, Pow2;
    assert x == [0] + x[1..|u|] && u == [0] + u[1..|u|];
    ValCons(0, x[1..|u|], B);
    ValCons(0, u[1..|u|], B);
    DivModUnique(us, d, xs, rest);
  }

  lemma ShrStart(u: seq<int>, s: nat)
    requires |u| > 0
    ensures ShiftedRight(u, u, |u|, s, u[|u| - 1] % Pow2(s))
  {
    assert u[|u|..|u|] == [];
  }

  /** The tail of `__qdivrem`: undoes the normalisation of u[lo..hi], whose leading digit is
      zero. */
  method Denormalise(u: array<int>, lo: nat, hi: nat, s: nat) returns (ghost x: seq<int>)
    requires lo < hi < u.Length && 0 < s < 16 && InBase(u[..], B) && u[lo] == 0
    modifies u
    ensures |x| == hi - lo + 1 && InBase(x, B) && x[0] == 0 && Holds(u[..], old(u[..]), lo, x)
    ensures Val(x, B) == old(Val(u[lo..hi + 1], B)) / Pow2(s)
  {
    hide ShiftedRight, Val, Pow2;
    ghost var was, w := u[..], u[lo..hi + 1];
    x := w;
    ghost var rest := w[|w| - 1] % Pow2(s);
    ShrStart(w, s);
    var i := hi;
    while i > lo
      invariant lo <= i <= hi && |x| == |w| && InBase(x, B) && Holds(u[..], was, lo, x)
      invariant forall k | 0 <= k <= i - lo :: x[k] == w[k]
      invariant ShiftedRight(x, w, i + 1 - lo, s, rest)
    {
      assert u[i - 1] == w[i - 1 - lo] && u[i] == w[i - lo];
      ShrStep(x, w, i - lo, s, rest);
      u[i] := ShiftJoin(u[i - 1], u[i], 16 - s);
      x := x[i - lo := u[i]];
      i := i - 1;
    }
    u[i] := 0;
    ShrEnd(x, w, s, rest);
  }

  /** The 64-bit word whose 32-bit halves are put together from four digits. */
  function Assemble(a: int, b: int, c: int, d: int): (r: int)
    requires 0 <= a < B && 0 <= b < B && 0 <= c < B && 0 <= d < B
    ensures r == Val([a, b, c, d], B)
  {
    FourDigits(a, b, c, d);
    Combine(a, b) * WORD + Combine(c, d)
  }

  lemma FourDigits(a: int, b: int, c: int, d: int)
    ensures Val([a, b, c, d], B) == ((a * B + b) * B + c) * B + d
  {
    var s := [a, b, c, d];
    assert s[..3][..3] == s[..3];
    ThreeDigits(s, B);
  }

  /** The four digits of a 64-bit word, taken from its 32-bit halves. */
  lemma SplitDigits(x: int)
    requires 0 <= x < QUAD
    ensures var h, l := x / WORD, x % WORD;
      && InBase([HHalf(h), LHalf(h), HHalf(l), LHalf(l)], B)
      && Val([HHalf(h), LHalf(h), HHalf(l), LHalf(l)], B) == x
  {
    var h, l := x / WORD, x % WORD;
    FourDigits(HHalf(h), LHalf(h), HHalf(l), LHalf(l));
  }

  lemma DivModChain(y: int, x: int, t: int, q: int, r: int)
    requires DivMod(y, t, q, r) && 0 <= x < B
    ensures t > 0 && 0 <= (r * B + x) / t < B && 0 <= (r * B + x) % t < t
    ensures DivMod(y * B + x, t, q * B + (r * B + x) / t, (r * B + x) % t)
  {
    var z := r * B + x;
    DivModDef(z, t);
    QuotientBelow(z, t, B);
    assert (q * B + z / t) * t == q * t * B + z / t * t;
  }

  /** The one-digit path: schoolbook division by a single digit, unrolled. */
  method OneDigitDivide(u: seq<int>, t: int) returns (q: int, r: int)
    requires |u| == 4 && InBase(u, B) && 0 < t < B
    ensures DivMod(Val(u, B), t, q, r)
  {
    assert DivMod(0, t, 0, 0);
    DivModChain(0, u[0], t, 0, 0);
    var q1, r1 := u[0] / t, u[0] % t;
    DivModChain(u[0], u[1], t, q1, r1);
    hide DivMod, Val;
    var rbj := Combine(r1, u[1]);
    var q2, r2 := rbj / t, rbj % t;
    DivModChain(u[0] * B + u[1], u[2], t, q1 * B + q2, r2);
    rbj := Combine(r2, u[2]);
    var q3, r3 := rbj / t, rbj % t;
    DivModChain((u[0] * B + u[1]) * B + u[2], u[3], t, (q1 * B + q2) * B + q3, r3);
    rbj := Combine(r3, u[3]);
    var q4 := rbj / t;
    r := rbj % t;
    q := Assemble(q1, q2, q3, q4);
    assert u == [u[0], u[1], u[2], u[3]];
    FourDigits(u[0], u[1], u[2], u[3]);
    FourDigits(q1, q2, q3, q4);
  }

  lemma ShiftBelow16(x: int, d: nat)
    requires 0 < x && x * Pow2(d) < B
    ensures d < 16
  {
    MulMonotone(1, x, Pow2(d));
    Pow2Values();
    if d >= 16 { PowMonotone(2, 16, d); }
  }

  /** A shift that loses no bit is a multiplication, and the leading digit grows with it. */
  lemma ShiftExact(p: seq<int>, was: seq<int>, lo: nat, d: nat)
    requires |p| == |was| && lo < |p| && 0 < d < 16
    requires InBase(p[lo..], B) && InBase(was[lo..], B) && was[lo] * Pow2(d) < B
    requires Shifted(p, was, lo, |p| - lo, d, 0)
    ensures Val(p[lo..], B) == Val(was[lo..], B) * Pow2(d)
    ensures was[lo] * Pow2(d) <= p[lo]
  {
    hide Val, Pow2, Pow;
    assert was[lo] == was[lo..][0];
    assert was[lo] / Pow2(16 - d) == 0 by {
      hide Shifted;
      ShiftFactors(d);
      MulCancelLess(was[lo], Pow2(16 - d), Pow2(d));
    }
    assert p[lo..|p|] == p[lo..] && was[lo..|p|] == was[lo..];
    ScaledLeading(p[lo..], was[lo..], Pow2(d));
  }

  lemma ScaledLeading(x: seq<int>, w: seq<int>, f: int)
    requires |x| == |w| > 0 && InBase(x, B) && InBase(w, B) && 0 < f && Val(x, B) == Val(w, B) * f
    ensures w[0] * f <= x[0]
  {
    hide Val;
    var q, xlo := Leading(x, 1, B);
    var q', wlo := Leading(w, 1, B);
    assert x[..1] == [x[0]] && w[..1] == [w[0]];
    SingleDigit(x[0]);
    SingleDigit(w[0]);
    LeadingGrows(x[0], xlo, w[0], wlo, q, f);
  }

  lemma SingleDigit(x: int)
    ensures Val([x], B) == x
  {}

  lemma LeadingGrows(x: int, xlo: int, w: int, wlo: int, p: int, f: int)
    requires 0 <= xlo < p && 0 <= wlo && 0 < f && x * p + xlo == (w * p + wlo) * f
    ensures w * f <= x
  {
    assert (w * p + wlo) * f == w * f * p + wlo * f;
    MulMonotone(0, wlo, f);
    assert (x + 1) * p == x * p + p;
    MulCancelLess(w * f, x + 1, p);
  }

  /** Step D1: shifts both operands left until the divisor starts with a set bit. */
  method Normalise(u: array<int>, k: nat, v: array<int>, c: nat) returns (d: nat)
    requires u != v && u.Length == v.Length == 5 && k < 5 && c < 5
    requires InBase(u[..], B) && u[k] == 0 && InBase(v[c..], B) && v[c] > 0
    modifies u, v
    ensures d < 16 && InBase(u[..], B) && InBase(v[c..], B) && v[c] >= B / 2
    ensures forall i | 0 <= i < k :: u[i] == old(u[i])
    ensures Val(u[k..], B) == old(Val(u[k..], B)) * Pow2(d)
    ensures Val(v[c..], B) == old(Val(v[c..], B)) * Pow2(d)
  {
    hide Val;
    assert v[c] == v[c..][0];
    d := ShiftCount(v[c]);
    if d > 0 {
      ShiftOperands(u, k, v, c, d);
    } else {
      assert Pow2(d) == 1;
    }
  }

  /** The number of places that makes a digit start with a set bit. */
  method ShiftCount(x: int) returns (d: nat)
    requires 0 < x < B
    ensures d < 16 && B / 2 <= x * Pow2(d) < B
  {
    d := 0;
    var t := x;
    while t < B / 2
      invariant t == x * Pow2(d) && 0 < t < B && d < 16
      decreases B - t
    {
      assert x * Pow2(d + 1) == 2 * t;
      t := U32(t * 2);
      d := d + 1;
      ShiftBelow16(x, d);
    }
  }

  /** The two calls of `__shl`. */
  method ShiftOperands(u: array<int>, k: nat, v: array<int>, c: nat, d: nat)
    requires u != v && u.Length == v.Length == 5 && k < 5 && c < 5 && 0 < d < 16
    requires InBase(u[..], B) && u[k] == 0 && InBase(v[c..], B) && v[c] * Pow2(d) < B
    modifies u, v
    ensures InBase(u[..], B) && InBase(v[c..], B) && old(v[c] * Pow2(d)) <= v[c]
    ensures forall i | 0 <= i < k :: u[i] == old(u[i])
    ensures Val(u[k..], B) == old(Val(u[k..], B)) * Pow2(d)
    ensures Val(v[c..], B) == old(Val(v[c..], B)) * Pow2(d)
  {
    hide Val, Shifted, Pow2;
    ghost var u0, v0 := u[..], v[..];
    assert u[k..5] == u0[k..] && v[c..5] == v0[c..];
    Shl(u, k, 4 - k, d);
    assert u[k..5] == u[..][k..] && v[..] == v0;
    ShiftExact(u[..], u0, k, d);
    ghost var u1 := u[..];
    Shl(v, c, 4 - c, d);
    assert v[c..5] == v[..][c..] && u[..] == u1;
    ShiftExact(v[..], v0, c, d);
  }

  /** A leading zero can go. */
  lemma SkipZero(s: seq<int>, i: nat)
    requires i < |s| && s[i] == 0
    ensures Val(s[i..], B) == Val(s[i + 1..], B)
  {
    assert s[i..] == [0] + s[i + 1..];
    ValCons(0, s[i + 1..], B);
  }

  lemma SkipZeros(s: seq<int>, i: nat, j: nat)
    requires i <= j <= |s| && forall k | i <= k < j :: s[k] == 0
    ensures Val(s[i..], B) == Val(s[j..], B)
    decreases j - i
  {
    if i < j {
      SkipZero(s, i);
      SkipZeros(s, i + 1, j);
    }
  }

  /** A number with a nonzero leading digit has no fewer digits than one below it. */
  lemma LeadingNonzero(s: seq<int>)
    requires |s| > 0 && InBase(s, B) && s[0] > 0
    ensures Pow(B, |s| - 1) <= Val(s, B)
  {
    var p, lo := Leading(s, 1, B);
    assert s[..1] == [s[0]];
    SingleDigit(s[0]);
    MulMonotone(1, s[0], p);
  }

  /** After step D1 the n leading digits of the dividend are below the divisor. */
  lemma StartsBelow(u: seq<int>, n: nat, m: nat, v: seq<int>, uq: int, vq: int, f: int)
    requires |u| == m + n + 1 && |v| == n > 0 && InBase(u, B) && f > 0
    requires Val(u, B) == uq * f && uq < Pow(B, m + n)
    requires Val(v, B) == vq * f && Pow(B, n - 1) <= vq
    ensures Val(u[..n], B) < Val(v, B)
  {
    hide Val, Pow;
    var p, lo := Leading(u, n, B);
    PowAdd(B, m + 1, n - 1);
    BelowArith(Val(u[..n], B), p, lo, uq, Pow(B, n - 1), vq, f);
  }

  lemma BelowArith(top: int, p: int, lo: int, uq: int, w: int, vq: int, f: int)
    requires top * p + lo == uq * f && 0 <= lo && uq < p * w && w <= vq && 0 < f && 0 < p
    ensures top < vq * f
  {
    MulStrict(uq, p * w, f);
    assert p * w * f == w * f * p by { MulAssoc(p, w, f); }
    MulMonotone(w, vq, f);
    MulMonotone(w * f, vq * f, p);
    MulCancelLess(top, vq * f, p);
  }

  /** Scaling dividend and divisor scales the remainder and keeps the quotient. */
  lemma Unscale(uq: int, vq: int, q: int, r: int, f: int)
    requires uq * f == q * (vq * f) + r && 0 <= r < vq * f && f > 0
    ensures vq > 0 && uq / vq == q && uq % vq == r / f
  {
    var x := uq - q * vq;
    assert x * f == uq * f - q * (vq * f) == r;
    MulCancelLess(-1, x, f);
    MulCancelLess(x, vq, f);
    DivModUnique(uq, vq, q, x);
    DivModUnique(r, f, x, 0);
  }

  /** The general path, for a divisor of two digits or more: drops the leading zeros of the
      dividend and clears the quotient digits that the division will not write. */
  method GeneralDivide(u: array<int>, v: array<int>, c: nat, wantRem: bool, ghost uq: int, ghost vq: int)
    returns (quotient: int, rem: Option<int>)
    requires u != v && u.Length == v.Length == 5 && 1 <= c <= 3
    requires InBase(u[..], B) && u[0] == 0 && Val(u[1..], B) == uq
    requires InBase(v[c..], B) && v[c] > 0 && Val(v[c..], B) == vq && vq <= uq
    modifies u, v
    ensures vq > 0 && quotient == uq / vq
    ensures rem == if wantRem then Some(uq % vq) else None
  {
    hide Val, Pow;
    var n := 5 - c;
    ghost var us, vs := u[..], v[c..];
    LeadingNonzero(vs);
    var k, m := 0, 4 - n;
    while u[k + 1] == 0
      invariant 0 <= m && k + m + n == 4
      invariant forall i | 0 <= i <= k :: u[i] == 0
      invariant Val(us[k + 1..], B) == uq
      modifies {}
      decreases m
    {
      SkipZero(us, k + 1);
      ValBound(us[k + 2..], B);
      assert m > 0;
      m, k := m - 1, k + 1;
    }
    var q := new int[5];
    var i := 4 - m;
    while i > 0
      invariant 0 <= i <= 4 - m
      invariant forall j | i <= j < 4 - m :: q[j] == 0
      modifies q
    {
      i := i - 1;
      q[i] := 0;
    }
    assert u[..] == us && v[c..] == vs;
    SkipZero(us, k);
    ValBound(us[k + 1..], B);
    quotient, rem := ProgramD(u, k, m, v, c, n, q, wantRem, uq, vq);
  }

  /** Program D proper, on trimmed operands: u[k..4] has m + n + 1 digits, the first zero. */
  method ProgramD(u: array<int>, k: nat, m: nat, v: array<int>, c: nat, n: nat, q: array<int>, wantRem: bool,
                  ghost uq: int, ghost vq: int)
    returns (quotient: int, rem: Option<int>)
    requires u != v && u != q && v != q && u.Length == v.Length == q.Length == 5
    requires n >= 2 && k + m + n == 4 && c + n == 5
    requires InBase(u[..], B) && (forall i | 0 <= i <= k :: u[i] == 0) && forall i | 0 <= i < 4 - m :: q[i] == 0
    requires Val(u[k..], B) == uq && uq < Pow(B, m + n)
    requires InBase(v[c..], B) && v[c] > 0 && Val(v[c..], B) == vq && Pow(B, n - 1) <= vq
    modifies u, v, q
    ensures vq > 0 && quotient == uq / vq
    ensures rem == if wantRem then Some(uq % vq) else None
  {
    hide Val, Pow, Pow2, Divided;
    var d := Normalise(u, k, v, c);
    ghost var u0 := u[..];
    StartsBelow(u[k..], n, m, v[c..], uq, vq, Pow2(d));
    assert u[k..][..n] == u[k..k + n] && v[c..] == v[c..c + n];
    LongDivide(u, k, m, v, c, n, q, 4 - m);
    Finish(u[..], u0, k, v[c..], q[..], m, uq, vq, Pow2(d));
    if wantRem {
      var r := Remainder(u, k + m, d);
      rem := Some(r);
    } else {
      rem := None;
    }
    quotient := Assemble(q[1], q[2], q[3], q[4]);
    assert q[..][1..] == [q[1], q[2], q[3], q[4]];
  }

  /** The remainder, shifted back and put together from the dividend's array. */
  method Remainder(u: array<int>, lo: nat, d: nat) returns (r: int)
    requires u.Length == 5 && lo < 4 && d < 16 && InBase(u[..], B) && forall i | 0 <= i <= lo :: u[i] == 0
    modifies u
    ensures r == old(Val(u[lo..], B)) / Pow2(d)
  {
    hide Val, Pow2, Pow;
    assert u[lo..] == u[lo..5];
    if d > 0 {
      ghost var x := Denormalise(u, lo, 4, d);
      assert u[..][lo..] == x;
    } else {
      UnitDivisor(Val(u[lo..], B));
    }
    SkipZeros(u[..], lo, lo + 1);
    SkipZeros(u[..], 1, lo + 1);
    assert u[..][1..] == [u[1], u[2], u[3], u[4]];
    r := Assemble(u[1], u[2], u[3], u[4]);
  }

  lemma UnitDivisor(x: int)
    ensures x / Pow2(0) == x
  {
    assert Pow2(0) == 1;
  }

  /** What the arrays hold after the long division. */
  lemma Finish(u: seq<int>, u0: seq<int>, k: nat, v: seq<int>, q: seq<int>, m: nat, uq: int, vq: int, f: int)
    requires |q| == 5 && k + m + |v| == 4 && |u| == 5 && f > 0
    requires Divided(u, u0, k, k + m + 1, v, q[4 - m..5]) && InBase(v, B)
    requires forall i | 0 <= i < 4 - m :: q[i] == 0
    requires Val(u0[k..], B) == uq * f && Val(v, B) == vq * f
    ensures InBase(u, B) && InBase(q, B) && vq > 0
    ensures (forall i | k <= i <= k + m :: u[i] == 0) && forall i | 0 <= i < k :: u[i] == u0[i]
    ensures Val(u[k + m..], B) / f == uq % vq
    ensures Val(q[1..], B) == uq / vq
  {
    hide Val, Pow;
    var qs := q[4 - m..5];
    assert forall i | 4 - m <= i < 5 :: q[i] == qs[i - (4 - m)];
    assert u0[k..] == u0[k..5] && u[k + m + 1..] == u[k + m + 1..5] && q[4 - m..] == qs;
    var r, qv := Val(u[k + m + 1..], B), Val(qs, B);
    assert uq * f == qv * (vq * f) + r;
    hide Divided, QuotientSoFar;
    SkipZeros(u, k + m, k + m + 1);
    SkipZeros(q, 1, 4 - m);
    ValBound(u[k + m + 1..], B);
    Unscale(uq, vq, qv, r, f);
  }

  /** Breaks a 64-bit word into the digits w[1..4]. */
  method LoadDigits(w: array<int>, x: int)
    requires w.Length == 5 && 0 <= x < QUAD
    modifies w
    ensures w[0] == old(w[0]) && InBase(w[1..], B) && Val(w[1..], B) == x
  {
    hide Val, HHalf, LHalf;
    SplitDigits(x);
    var h, l := x / WORD, x % WORD;
    w[1], w[2], w[3], w[4] := HHalf(h), LHalf(h), HHalf(l), LHalf(l);
    assert w[1..] == [HHalf(h), LHalf(h), HHalf(l), LHalf(l)];
  }

  /** `__qdivrem`: for every 64-bit dividend and divisor, the exact quotient and remainder. */
  method Qdivrem(uq: int, vq: int, wantRem: bool) returns (r: Result)
    requires 0 <= uq < QUAD && 0 <= vq < QUAD
    ensures vq == 0 ==> r == DivideError
    ensures vq > 0 ==> r == Quotient(uq / vq, if wantRem then Some(uq % vq) else None)
  {
    hide Val, DivMod;
    if vq == 0 { return DivideError; }
    if uq < vq {
      DivModUnique(uq, vq, 0, uq);
      return Quotient(0, if wantRem then Some(uq) else None);
    }
    var u, v := new int[5], new int[5];
    u[0] := 0;
    LoadDigits(u, uq);
    ghost var us := u[..];
    LoadDigits(v, vq);
    assert u[..] == us && us[1..] == u[1..];
    assert forall i | 1 <= i < 5 :: u[i] == u[1..][i - 1] && v[i] == v[1..][i - 1];
    var n, c := 4, 1;
    while v[c] == 0
      invariant 2 <= n && 1 <= c && c + n == 5 && Val(v[c..], B) == vq
      invariant Val(u[1..], B) == uq
      modifies {}
      decreases n
    {
      n := n - 1;
      SkipZero(v[..], c);
      if n == 1 {
        var t := v[c + 1];
        assert v[c + 1..] == [t];
        SingleDigit(t);
        var q, rem := OneDigitDivide(u[1..], t);
        DivModExact(uq, vq, q, rem);
        return Quotient(q, if wantRem then Some(rem) else None);
      }
      c := c + 1;
    }
    var q, rem := GeneralDivide(u, v, c, wantRem, uq, vq);
    return Quotient(q, rem);
  }
}
