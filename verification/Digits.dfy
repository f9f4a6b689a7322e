/** Numbers as sequences of digits, the most significant first, in any base, and the
    theorem behind the trial digit of Knuth's Algorithm D. */
module Digits {
  import opened Arith

  function Val(s: seq<int>, b: nat): int {
    if |s| == 0 then 0 else Val(s[..|s| - 1], b) * b + s[|s| - 1]
  }

  ghost predicate InBase(s: seq<int>, b: nat) {
    forall i | 0 <= i < |s| :: 0 <= s[i] < b
  }

  lemma {:induction false} ValBound(s: seq<int>, b: nat)
    requires b > 0 && InBase(s, b)
    ensures 0 <= Val(s, b) < Pow(b, |s|)
  {
    if |s| > 0 {
      var hi := s[..|s| - 1];
      ValBound(hi, b);
      DigitBound(Val(hi, b), Pow(b, |hi|), s[|s| - 1], b);
    }
  }

  lemma DigitBound(h: int, p: int, d: int, b: int)
    requires 0 <= h < p && 0 <= d < b
    ensures 0 <= h * b + d < b * p
  {
    MulMonotone(h, p - 1, b);
  }

  lemma {:induction false} ValConcat(s: seq<int>, t: seq<int>, b: nat)
    ensures Val(s + t, b) == Val(s, b) * Pow(b, |t|) + Val(t, b)
  {
    if |t| == 0 {
      assert s + t == s;
    } else {
      var t' := t[..|t| - 1];
      assert (s + t)[..|s + t| - 1] == s + t';
      ValConcat(s, t', b);
      ShiftUp(Val(s, b), Pow(b, |t'|), Val(t', b), b);
    }
  }

  lemma ShiftUp(x: int, p: int, y: int, b: int)
    ensures (x * p + y) * b == x * (p * b) + y * b
  {
    MulAssoc(x, p, b);
  }

  lemma ValCons(d: int, t: seq<int>, b: nat)
    ensures Val([d] + t, b) == d * Pow(b, |t|) + Val(t, b)
  {
    ValConcat([d], t, b);
    assert Val([d], b) == d;
  }

  /** The slice from `i` gains its digit `i`. */
  lemma ValSliceFront(s: seq<int>, i: nat, k: nat, b: nat)
    requires i < k <= |s|
    ensures Val(s[i..k], b) == s[i] * Pow(b, k - i - 1) + Val(s[i + 1..k], b)
  {
    assert s[i..k] == [s[i]] + s[i + 1..k];
    ValCons(s[i], s[i + 1..k], b);
  }

  /** The slice up to `k` gains its digit `k`. */
  lemma ValSliceBack(s: seq<int>, i: nat, k: nat, b: nat)
    requires i <= k < |s|
    ensures Val(s[i..k + 1], b) == Val(s[i..k], b) * b + s[k]
  {
    assert s[i..k + 1][..k - i] == s[i..k];
  }

  lemma ValSliceSplit(s: seq<int>, i: nat, j: nat, k: nat, b: nat)
    requires i <= j <= k <= |s|
    ensures Val(s[i..k], b) == Val(s[i..j], b) * Pow(b, k - j) + Val(s[j..k], b)
  {
    assert s[i..k] == s[i..j] + s[j..k];
    ValConcat(s[i..j], s[j..k], b);
  }

  /** A leading zero is forced when the number has room to spare. */
  lemma LeadingZero(s: seq<int>, b: nat)
    requires b > 0 && |s| > 0 && InBase(s, b) && Val(s, b) < Pow(b, |s| - 1)
    ensures s[0] == 0 && Val(s, b) == Val(s[1..], b)
  {
    assert s == [s[0]] + s[1..];
    ValCons(s[0], s[1..], b);
    ValBound(s[1..], b);
    MulCancelLess(s[0], 1, Pow(b, |s| - 1));
  }

  lemma {:induction false} ZeroVal(s: seq<int>, b: nat)
    requires forall i | 0 <= i < |s| :: s[i] == 0
    ensures Val(s, b) == 0
  {
    if |s| > 0 { ZeroVal(s[..|s| - 1], b); }
  }

  /** The digit that step D3 settles on: the three leading digits of the dividend over the
      two leading digits of the divisor, capped at the largest digit. */
  ghost predicate IsTrialDigit(q: int, u: seq<int>, v: seq<int>, b: nat)
    requires |u| >= 3 && |v| >= 2
  {
    var top, w := Val(u[..3], b), Val(v[..2], b);
    0 <= q < b && q * w <= top && (q == b - 1 || top < (q + 1) * w)
  }

  /** Dividend and divisor of one quotient digit: n + 1 digits over n, with the n leading
      digits of the dividend below the divisor. */
  ghost predicate OneDigit(u: seq<int>, v: seq<int>, b: nat) {
    b >= 2 && |v| >= 2 && |u| == |v| + 1 && InBase(u, b) && InBase(v, b) && v[0] > 0
    && Val(u[..|v|], b) < Val(v, b)
  }

  lemma QuotientIsDigit(u: seq<int>, v: seq<int>, b: nat)
    requires OneDigit(u, v, b)
    ensures Val(v, b) > 0 && 0 <= Val(u, b) && 0 <= Val(u, b) / Val(v, b) < b
  {
    var n := |v|;
    ValBound(v, b);
    ValBound(u, b);
    ValBound(u[..n], b);
    BoundedQuotient(Val(u[..n], b), u[n], Val(v, b), b);
  }

  lemma BoundedQuotient(h: int, d: int, V: int, b: int)
    requires 0 <= h < V && 0 <= d < b
    ensures 0 <= (h * b + d) / V < b
  {
    var x := h * b + d;
    MulMonotone(h, V - 1, b);
    MulMonotone(0, h, b);
    DivModDef(x, V);
    MulCancelLess(x / V, b, V);
    MulCancelLess(-1, x / V, V);
  }

  /** Leading digits and the rest. */
  lemma Leading(s: seq<int>, k: nat, b: nat) returns (p: nat, lo: nat)
    requires b > 0 && InBase(s, b) && k <= |s|
    ensures p == Pow(b, |s| - k) && lo < p && Val(s, b) == Val(s[..k], b) * p + lo
  {
    assert s == s[0..|s|] && s[..k] == s[0..k];
    ValSliceSplit(s, 0, k, |s|, b);
    ValBound(s[k..|s|], b);
    p, lo := Pow(b, |s| - k), Val(s[k..|s|], b);
  }

  lemma TwoDigits(v: seq<int>, b: nat)
    requires |v| >= 2
    ensures Val(v[..2], b) == v[0] * b + v[1]
  {
    assert v[..2][..1] == [v[0]];
    assert Val([v[0]], b) == v[0];
  }

  lemma ThreeDigits(u: seq<int>, b: nat)
    requires |u| >= 3
    ensures Val(u[..3], b) == (u[0] * b + u[1]) * b + u[2]
  {
    assert u[..3][..2] == u[..2];
    TwoDigits(u, b);
  }

  /** Knuth's bound for every base and every n >= 2: the trial digit is the true quotient
      digit or one more, and it is one more exactly when subtracting its multiple of the
      divisor goes below zero. */
  lemma TrialDigitTheorem(qhat: int, u: seq<int>, v: seq<int>, b: nat)
    requires OneDigit(u, v, b) && IsTrialDigit(qhat, u, v, b)
    ensures var U, V := Val(u, b), Val(v, b);
      && V > 0 && U / V <= qhat <= U / V + 1
      && (qhat * V > U <==> qhat == U / V + 1)
  {
    hide Val;
    QuotientIsDigit(u, v, b);
    var top, w := Val(u[..3], b), Val(v[..2], b);
    var p, ulo := Leading(u, 3, b);
    var p', vlo := Leading(v, 2, b);
    TwoDigitsBound(v, b);
    TrialArith(qhat, top, w, p, ulo, vlo, b, Val(u, b), Val(v, b));
  }

  lemma TwoDigitsBound(v: seq<int>, b: nat)
    requires |v| >= 2 && InBase(v, b) && v[0] > 0
    ensures Val(v[..2], b) >= b
  {
    TwoDigits(v, b);
    MulMonotone(1, v[0], b);
  }

  lemma TrialArith(qhat: int, top: int, w: int, p: int, ulo: int, vlo: int, b: int, U: int, V: int)
    requires U == top * p + ulo >= 0 && V == w * p + vlo > 0 && U / V < b
    requires 0 <= ulo < p && 0 <= vlo < p && 2 <= b <= w
    requires 0 <= qhat < b && qhat * w <= top && (qhat == b - 1 || top < (qhat + 1) * w)
    ensures U / V <= qhat <= U / V + 1 && (qhat * V > U <==> qhat == U / V + 1)
  {
    var q := U / V;
    DivModDef(U, V);
    assert (q + 1) * V == q * V + V;
    assert q >= 0 by { MulCancelLess(-1, q, V); }
    TrialNotTooSmall(qhat, q, top, w, p, ulo, vlo, b);
    TrialNotTooBig(qhat, q, top, w, p, ulo, vlo, b);
    assert qhat == q || qhat == q + 1;
  }

  lemma TrialNotTooSmall(qhat: int, q: int, top: int, w: int, p: int, ulo: int, vlo: int, b: int)
    requires 0 <= ulo < p && 0 <= vlo < p && 0 < w && 0 <= q < b
    requires q * (w * p + vlo) <= top * p + ulo
    requires qhat == b - 1 || top < (qhat + 1) * w
    ensures q <= qhat
  {
    assert q * (w * p + vlo) == (q * w) * p + q * vlo;
    MulMonotone(0, q, vlo);
    assert (top + 1) * p == top * p + p;
    MulCancelLess(q * w, top + 1, p);
    if qhat < q { MulMonotone(qhat + 1, q, w); }
  }

  lemma TrialNotTooBig(qhat: int, q: int, top: int, w: int, p: int, ulo: int, vlo: int, b: int)
    requires 0 <= ulo < p && 0 <= vlo < p && 2 <= b <= w && 0 <= qhat < b && qhat * w <= top
    requires top * p + ulo < (q + 1) * (w * p + vlo)
    ensures qhat <= q + 1
  {
    ExpandTrial(qhat, w, p, vlo);
    MulMonotone(qhat * w, top, p);
    MulMonotone(qhat - 1, w, vlo);
    MulMonotone(vlo, p, w);
    MulMonotone(1, w, p);
    MulCancelLess(qhat - 1, q + 1, w * p + vlo);
  }

  lemma ExpandTrial(f: int, w: int, p: int, vlo: int)
    ensures (f - 1) * (w * p + vlo) == f * w * p - w * p + (f - 1) * vlo
  {
    MulAssoc(f, w, p);
    assert (f - 1) * (w * p) == f * (w * p) - w * p;
  }
}
