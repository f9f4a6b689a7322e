/** The signed 64-bit operators of the 32-bit kernel (libkern/divdi3.c, libkern/moddi3.c):
    sign handling around the unsigned division. */
module SignedDivision {
  import opened Base
  import opened Arith
  import opened LongDivision

  const MIN: int := -0x8000_0000_0000_0000

  ghost predicate IsQuad(x: int) { MIN <= x < -MIN }

  /** A 64-bit word read as a signed number. */
  function Signed(x: int): (r: int)
    requires 0 <= x < QUAD
    ensures IsQuad(r)
  {
    if x < -MIN then x else x - QUAD
  }

  /** `-(u_quad_t)x`. */
  function Negate(x: int): (r: int)
    ensures 0 <= r < QUAD
  {
    -x % QUAD
  }

  function Abs(x: int): nat { if x < 0 then -x else x }

  /** Division as section 6.5.5 of ISO C99 defines it: q * b + r is a, and r is smaller than
      b in absolute value and does not have the sign opposite to a's. */
  ghost predicate Truncated(a: int, b: int, q: int, r: int) {
    q * b + r == a && Abs(r) < Abs(b) && (r == 0 || (r < 0 <==> a < 0))
  }

  /** In absolute values, truncated division is Euclidean division. */
  lemma TruncatedAbs(a: int, b: int, q: int, r: int)
    requires Truncated(a, b, q, r)
    ensures Abs(a) == Abs(q) * Abs(b) + Abs(r)
  {
    assert Abs(q * b) == Abs(q) * Abs(b) by { AbsProduct(q, b); }
    if q != 0 { MulMonotone(1, Abs(q), Abs(b)); }
  }

  lemma AbsProduct(x: int, y: int)
    ensures Abs(x * y) == Abs(x) * Abs(y)
  {
    if x >= 0 { MulMonotone(0, x, Abs(y)); } else { MulMonotone(0, -x, Abs(y)); }
    if y < 0 { assert x * y == -(x * -y); }
    if x < 0 { assert x * Abs(y) == -(-x * Abs(y)); }
  }

  /** The definition leaves one quotient and one remainder. */
  lemma TruncatedUnique(a: int, b: int, q: int, r: int, q': int, r': int)
    requires Truncated(a, b, q, r) && Truncated(a, b, q', r')
    ensures q == q' && r == r'
  {
    TruncatedAbs(a, b, q, r);
    TruncatedAbs(a, b, q', r');
    DivModUnique(Abs(a), Abs(b), Abs(q), Abs(r));
    DivModUnique(Abs(a), Abs(b), Abs(q'), Abs(r'));
    assert q * b == q' * b;
  }

  /** Quotient and remainder of the absolute values, with the signs the code gives them. */
  lemma SignCases(a: int, b: int, q: int, r: int)
    requires b != 0 && q == Abs(a) / Abs(b) && r == Abs(a) % Abs(b)
    ensures Truncated(a, b, if a < 0 <==> b < 0 then q else -q, if a < 0 then -r else r)
    ensures 0 <= q <= Abs(a) && 0 <= r < Abs(b)
    ensures Abs(b) > 1 ==> 2 * q <= Abs(a)
  {
    DivModDef(Abs(a), Abs(b));
    QuotientRange(Abs(a), Abs(b), q, r);
    SignProduct(q, b);
  }

  lemma QuotientRange(a: int, b: int, q: int, r: int)
    requires a == q * b + r && 0 <= r < b && 0 <= a
    ensures 0 <= q <= a && (b > 1 ==> 2 * q <= a)
  {
    MulCancelLess(-1, q, b);
    MulMonotone(1, b, q);
    if b > 1 { MulMonotone(2, b, q); }
  }

  lemma SignProduct(q: int, b: int)
    ensures (-q) * b == -(q * b) && q * -b == -(q * b)
  {}

  /** Taking the sign off: also of the most negative number. */
  lemma Magnitude(a: int)
    requires IsQuad(a)
    ensures (if a < 0 then Negate(a) else a) == Abs(a) <= -MIN
  {}

  /** Putting a sign back on a magnitude. */
  lemma Resigned(neg: bool, q: int)
    requires 0 <= q <= -MIN
    ensures Signed(if neg then Negate(q) else q) == if neg then -q else if q == -MIN then MIN else q
  {}

  /** `__divdi3`: the truncated quotient, except that the one quotient that does not fit wraps
      around to the dividend. */
  method Divdi3(a: int, b: int) returns (r: Option<int>)
    requires IsQuad(a) && IsQuad(b)
    ensures r.None? <==> b == 0
    ensures b != 0 && !(a == MIN && b == -1) ==> exists rem :: Truncated(a, b, r.value, rem)
    ensures a == MIN && b == -1 ==> r.value == MIN
  {
    hide Truncated, Signed, Negate;
    Magnitude(a);
    Magnitude(b);
    var neg := a < 0;
    var ua := if a < 0 then Negate(a) else a;
    if b < 0 { neg := !neg; }
    var ub := if b < 0 then Negate(b) else b;
    var d := Qdivrem(ua, ub, false);
    if d.DivideError? { return None; }
    SignCases(a, b, d.q, Abs(a) % Abs(b));
    Resigned(neg, d.q);
    r := Some(Signed(if neg then Negate(d.q) else d.q));
  }

  /** `__moddi3`: the truncated remainder, always. */
  method Moddi3(a: int, b: int) returns (r: Option<int>)
    requires IsQuad(a) && IsQuad(b)
    ensures r.None? <==> b == 0
    ensures b != 0 ==> exists q :: Truncated(a, b, q, r.value)
  {
    hide Truncated, Signed, Negate;
    Magnitude(a);
    Magnitude(b);
    var neg := a < 0;
    var ua := if a < 0 then Negate(a) else a;
    var ub := if b < 0 then Negate(b) else b;
    var d := Qdivrem(ua, ub, true);
    if d.DivideError? { return None; }
    SignCases(a, b, Abs(a) / Abs(b), d.rem.value);
    Resigned(neg, d.rem.value);
    r := Some(Signed(if neg then Negate(d.rem.value) else d.rem.value));
  }
}
