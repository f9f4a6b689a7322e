/** Numbers as text: `ksprintn` and the number fields of `kvprintf` (libkern/printf.c), `strtoul`
    and `strtol` (libkern/strtoul.c, libkern/strtol.c). */
module Numbers {
  import opened Base
  import opened Arith
  import opened Digits

  const NOT_A_DIGIT: nat := 255
  const ULONG_MAX: nat := 0xffff_ffff
  const LONG_MAX: nat := 0x7fff_ffff
  const LONG_MIN: int := -0x8000_0000
  /** The length of the conversion buffer. */
  const MAXNBUF: nat := 65

  predicate IsSpace(c: char) { c == ' ' || c == '\n' || c == '\r' || c == '\t' || c == '\U{0B}' || c == '\U{0C}' }

  function DigitOf(c: char): nat {
    if '0' <= c <= '9' then c as int - '0' as int
    else if 'A' <= c <= 'Z' then c as int - 'A' as int + 10
    else if 'a' <= c <= 'z' then c as int - 'a' as int + 10
    else NOT_A_DIGIT
  }

  function DigitsOf(s: seq<char>): (r: seq<int>)
    ensures |r| == |s| && forall i | 0 <= i < |s| :: r[i] == DigitOf(s[i])
  {
    seq(|s|, i requires 0 <= i < |s| => DigitOf(s[i]))
  }

  /** A string of C: its terminator is its last character and its only NUL. */
  predicate CString(s: seq<char>) {
    |s| > 0 && s[|s| - 1] == '\0' && forall i | 0 <= i < |s| - 1 :: s[i] != '\0'
  }

  // What stands in the text, as the code reads it.

  /** The first place from `i` on that holds no white space. */
  function AfterSpaces(s: seq<char>, i: nat): (j: nat)
    requires CString(s) && i < |s|
    ensures i <= j < |s| && !IsSpace(s[j]) && forall k | i <= k < j :: IsSpace(s[k])
    decreases |s| - i
  {
    if IsSpace(s[i]) then AfterSpaces(s, i + 1) else i
  }

  function AfterSign(s: seq<char>, i: nat): (j: nat)
    requires CString(s) && i < |s|
    ensures i <= j < |s|
  {
    if s[i] == '-' || s[i] == '+' then i + 1 else i
  }

  predicate HexPrefix(s: seq<char>, i: nat, base: nat)
    requires CString(s) && i < |s|
  {
    (base == 0 || base == 16) && s[i] == '0' && (s[i + 1] == 'x' || s[i + 1] == 'X')
  }

  /** What stands before the digits: the sign, the base and the place where digits start. */
  datatype Head = Head(neg: bool, base: nat, from: nat)

  function HeadOf(s: seq<char>, base: nat): (h: Head)
    requires CString(s) && (base == 0 || 2 <= base <= 36)
    ensures 2 <= h.base <= 36 && h.from < |s|
  {
    var i := AfterSpaces(s, 0);
    var j := AfterSign(s, i);
    if HexPrefix(s, j, base) then Head(s[i] == '-', 16, j + 2)
    else Head(s[i] == '-', if base != 0 then base else if s[j] == '0' then 8 else 10, j)
  }

  /** The end of the digits that start at `i`. */
  function DigitsEnd(s: seq<char>, i: nat, b: nat): (j: nat)
    requires CString(s) && i < |s| && b <= 36
    ensures i <= j < |s| && DigitOf(s[j]) >= b && forall k | i <= k < j :: DigitOf(s[k]) < b
    decreases |s| - i
  {
    if DigitOf(s[i]) < b then DigitsEnd(s, i + 1, b) else i
  }

  /** The number that the digits stand for. */
  function Number(s: seq<char>, h: Head): int
    requires CString(s) && h.from < |s| && h.base <= 36
  {
    Val(DigitsOf(s)[h.from..DigitsEnd(s, h.from, h.base)], h.base)
  }

  // strtoul and strtol.

  /** The test against the cut-off values is the test for a number beyond the limit. */
  lemma CutOff(acc: nat, c: nat, b: nat, max: nat)
    requires b > 0 && c < b
    ensures acc > max / b || (acc == max / b && c > max % b) <==> acc * b + c > max
  {
    var q, r := max / b, max % b;
    DivModDef(max, b);
    if acc > q {
      MulMonotone(q + 1, acc, b);
      assert (q + 1) * b == q * b + b;
    } else if acc < q {
      MulMonotone(acc + 1, q, b);
      assert (acc + 1) * b == acc * b + b;
    }
  }

  /** The start of `strtoul` and `strtol`. */
  method ReadHead(s: seq<char>, base: nat) returns (h: Head)
    requires CString(s) && (base == 0 || 2 <= base <= 36)
    ensures h == HeadOf(s, base)
  {
    var i, neg, b := 0, false, base;
    while IsSpace(s[i])
      invariant i < |s| && AfterSpaces(s, 0) == AfterSpaces(s, i)
      decreases |s| - i
    {
      i := i + 1;
    }
    if s[i] == '-' {
      neg := true;
      i := i + 1;
    } else if s[i] == '+' {
      i := i + 1;
    }
    if (b == 0 || b == 16) && s[i] == '0' && (s[i + 1] == 'x' || s[i + 1] == 'X') {
      i := i + 2;
      b := 16;
    }
    if b == 0 { b := if s[i] == '0' then 8 else 10; }
    h := Head(neg, b, i);
  }

  /** How the digits were taken in. */
  datatype Any = Nothing | Fits | Overflow

  /** The loop of `strtoul` and `strtol`. */
  method ReadDigits(s: seq<char>, h: Head, max: nat) returns (acc: nat, any: Any, end: nat)
    requires CString(s) && h.from < |s| && 2 <= h.base <= 36
    ensures end == DigitsEnd(s, h.from, h.base)
    ensures any.Nothing? <==> end == h.from
    ensures any.Overflow? <==> Number(s, h) > max
    ensures any.Overflow? || acc == Number(s, h)
  {
    hide Val, DigitOf, DigitsOf;
    var b, cutoff, cutlim := h.base, max / h.base, max % h.base;
    ghost var ds := DigitsOf(s);
    var i := h.from;
    acc, any := 0, Nothing;
    NothingRead(ds, i, b);
    while DigitOf(s[i]) < b
      invariant h.from <= i < |s| && DigitsEnd(s, h.from, b) == DigitsEnd(s, i, b)
      invariant any.Nothing? <==> i == h.from
      invariant any.Overflow? <==> Val(ds[h.from..i], b) > max
      invariant any.Overflow? || acc == Val(ds[h.from..i], b)
      decreases |s| - i
    {
      var c := DigitOf(s[i]);
      DigitRead(ds, h.from, i, b, c, max);
      CutOff(acc, c, b, max);
      if any.Overflow? || acc > cutoff || (acc == cutoff && c > cutlim) {
        any := Overflow;
      } else {
        any, acc := Fits, acc * b + c;
      }
      i := i + 1;
    }
    end := i;
  }

  lemma NothingRead(ds: seq<int>, i: nat, b: nat)
    requires i <= |ds|
    ensures Val(ds[i..i], b) == 0
  {}

  /** One more digit. */
  lemma DigitRead(ds: seq<int>, k: nat, i: nat, b: nat, c: nat, max: nat)
    requires k <= i < |ds| && b > 0 && ds[i] == c
    ensures var v := Val(ds[k..i], b); Val(ds[k..i + 1], b) == v * b + c && (v > max ==> v * b + c > max)
  {
    ValSliceBack(ds, k, i, b);
    hide Val;
    var v := Val(ds[k..i], b);
    if v > max { MulMonotone(1, b, v); }
  }

  /** The result for the number `v` in unsigned words of `w` bits, clipped at `max`. */
  function Unsigned(v: int, neg: bool, max: nat, w: nat): int {
    if v > max then max else if neg && v > 0 then Pow(2, w) - v else v
  }

  /** The result for the number `v`, clipped on either side. */
  function Signed(v: int, neg: bool, min: int, max: int): int { if neg then Max(min, -v) else Min(max, v) }

  /** `strtoul`, for unsigned longs of `w` bits; the place of the end pointer. */
  method Strtoul(s: seq<char>, base: nat, w: nat) returns (value: nat, end: nat)
    requires CString(s) && (base == 0 || 2 <= base <= 36) && w >= 32
    ensures var h := HeadOf(s, base); var v, e := Number(s, h), DigitsEnd(s, h.from, h.base);
      && end == (if e == h.from then 0 else e)
      && value == Unsigned(v, h.neg, ULONG_MAX, w)
  {
    hide Pow, Val, Negated;
    var h := ReadHead(s, base);
    var acc, any, i := ReadDigits(s, h, ULONG_MAX);
    if any.Overflow? {
      acc := ULONG_MAX;
    } else if h.neg {
      NegatedMeans(acc, w);
      acc := Negated(acc, w);
    }
    value := acc;
    end := if any.Nothing? then 0 else i;
  }

  /** `-acc` in a word of `w` bits. */
  function Negated(acc: nat, w: nat): nat {
    (Pow(2, w) - acc) % Pow(2, w)
  }

  lemma NegatedMeans(acc: nat, w: nat)
    requires w >= 32 && acc <= ULONG_MAX
    ensures Negated(acc, w) == if acc == 0 then 0 else Pow(2, w) - acc
  {
    ULongFits(w);
    hide Pow;
    var p := Pow(2, w);
    if acc == 0 { DivModUnique(p, p, 1, 0); } else { DivModUnique(p - acc, p, 0, p - acc); }
  }

  lemma ULongFits(w: nat)
    requires w >= 32
    ensures ULONG_MAX < Pow(2, w)
  {
    WordLimits(w);
  }

  /** `strtol`. */
  method Strtol(s: seq<char>, base: nat) returns (value: int, end: nat)
    requires CString(s) && (base == 0 || 2 <= base <= 36)
    ensures var h := HeadOf(s, base); var v, e := Number(s, h), DigitsEnd(s, h.from, h.base);
      && end == (if e == h.from then 0 else e)
      && value == Signed(v, h.neg, LONG_MIN, LONG_MAX)
  {
    var h := ReadHead(s, base);
    var limit := if h.neg then -LONG_MIN else LONG_MAX;
    var acc, any, i := ReadDigits(s, h, limit);
    if any.Overflow? {
      value := if h.neg then LONG_MIN else LONG_MAX;
    } else {
      value := acc;
      if h.neg { value := -value; }
    }
    end := if any.Nothing? then 0 else i;
  }

  // The reading of section 7.20.1.4 of ISO C99.

  /** A prefix without a hexadecimal digit behind it. */
  predicate BarePrefix(s: seq<char>, base: nat)
    requires CString(s)
  {
    var j := AfterSign(s, AfterSpaces(s, 0));
    HexPrefix(s, j, base) && DigitOf(s[j + 2]) >= 16
  }

  /** The head by the standard: a prefix counts only if a hexadecimal digit follows. */
  function StandardHead(s: seq<char>, base: nat): (h: Head)
    requires CString(s) && (base == 0 || 2 <= base <= 36)
    ensures 2 <= h.base <= 36 && h.from < |s|
  {
    var i := AfterSpaces(s, 0);
    var j := AfterSign(s, i);
    if HexPrefix(s, j, base) && DigitOf(s[j + 2]) < 16 then Head(s[i] == '-', 16, j + 2)
    else Head(s[i] == '-', if base != 0 then base else if s[j] == '0' then 8 else 10, j)
  }

  /** What a head makes of the text: sign, value, and the place of the end pointer. */
  datatype Reading = Reading(neg: bool, value: int, end: nat)

  function ReadingOf(s: seq<char>, h: Head): Reading
    requires CString(s) && h.from < |s| && h.base <= 36
  {
    var e := DigitsEnd(s, h.from, h.base);
    Reading(h.neg, Number(s, h), if e == h.from then 0 else e)
  }

  /** The code finds the digits that the standard asks for exactly if there is no bare prefix. */
  lemma StandardReading(s: seq<char>, base: nat)
    requires CString(s) && (base == 0 || 2 <= base <= 36)
    ensures ReadingOf(s, HeadOf(s, base)) == ReadingOf(s, StandardHead(s, base)) <==> !BarePrefix(s, base)
  {
    hide Val, Number;
    var j := AfterSign(s, AfterSpaces(s, 0));
    if BarePrefix(s, base) {
      var h := StandardHead(s, base);
      assert DigitOf('0') == 0 && DigitOf(s[j]) < h.base;
      assert DigitsEnd(s, j, h.base) > j;
      assert DigitsEnd(s, j + 2, 16) == j + 2;
    }
  }

  /** `strtoul` answers as the standard asks, for unsigned longs of `w` bits, exactly if there is no bare
      prefix and the number is not clipped at the 32-bit limit; of the clipped numbers one comes out
      right by chance. */
  lemma StandardStrtoul(s: seq<char>, base: nat, w: nat)
    requires CString(s) && (base == 0 || 2 <= base <= 36) && w >= 32
    ensures var r, t := ReadingOf(s, HeadOf(s, base)), ReadingOf(s, StandardHead(s, base));
      var code, standard := Unsigned(r.value, r.neg, ULONG_MAX, w), Unsigned(t.value, t.neg, Pow(2, w) - 1, w);
      (code, r.end) == (standard, t.end) <==>
        (!BarePrefix(s, base)
         && (w == 32 || r.value <= ULONG_MAX || (r.neg && r.value == Pow(2, w) - ULONG_MAX)))
  {
    hide Val, Number, Pow;
    WordLimits(w);
    StandardReading(s, base);
    if BarePrefix(s, base) { BareEnds(s, base); }
  }

  /** `strtol` does, for longs of `w` bits, exactly if there is no bare prefix and the number fits 32
      bits. */
  lemma StandardStrtol(s: seq<char>, base: nat, w: nat)
    requires CString(s) && (base == 0 || 2 <= base <= 36) && w >= 32
    ensures var r, t := ReadingOf(s, HeadOf(s, base)), ReadingOf(s, StandardHead(s, base));
      var p: int := Pow(2, w - 1);
      (Signed(r.value, r.neg, LONG_MIN, LONG_MAX), r.end) == (Signed(t.value, t.neg, -p, p - 1), t.end) <==>
        (!BarePrefix(s, base) && (w == 32 || LONG_MIN <= (if r.neg then -r.value else r.value) <= LONG_MAX))
  {
    hide Val, Number, Pow;
    WordLimits(w);
    StandardReading(s, base);
    ReadingNonNegative(s, HeadOf(s, base));
    if BarePrefix(s, base) { BareEnds(s, base); }
  }

  lemma WordLimits(w: nat)
    requires w >= 32
    ensures Pow(2, 32) == ULONG_MAX + 1 && Pow(2, 31) == LONG_MAX + 1 == -LONG_MIN
    ensures w > 32 ==> Pow(2, w) >= 2 * (ULONG_MAX + 1) && Pow(2, w - 1) >= 2 * (LONG_MAX + 1)
  {
    assert Pow(2, 8) == 256;
    PowAdd(2, 8, 8);
    PowAdd(2, 16, 16);
    assert Pow(2, 32) == 2 * Pow(2, 31) && Pow(2, 33) == 2 * Pow(2, 32);
    if w > 32 {
      PowMonotone(2, 33, w);
      PowMonotone(2, 32, w - 1);
    }
  }

  lemma BareEnds(s: seq<char>, base: nat)
    requires CString(s) && (base == 0 || 2 <= base <= 36) && BarePrefix(s, base)
    ensures ReadingOf(s, HeadOf(s, base)).end != ReadingOf(s, StandardHead(s, base)).end
  {
    hide Val, Number;
    var j := AfterSign(s, AfterSpaces(s, 0));
    var h := StandardHead(s, base);
    assert DigitOf('0') == 0 && DigitOf(s[j]) < h.base;
    assert DigitsEnd(s, j, h.base) > j;
    assert DigitsEnd(s, j + 2, 16) == j + 2;
  }

  lemma ReadingNonNegative(s: seq<char>, h: Head)
    requires CString(s) && h.from < |s| && 2 <= h.base <= 36
    ensures ReadingOf(s, h).value >= 0
  {
    hide Val;
    var e := DigitsEnd(s, h.from, h.base);
    var ds := DigitsOf(s)[h.from..e];
    assert forall i | 0 <= i < |ds| :: 0 <= ds[i] < h.base;
    ValBound(ds, h.base);
  }

  /** A number that fits a word of 64 bits and is clipped all the same. */
  lemma ClippedWord()
    ensures var s := "4294967296" + ['\0'];
      CString(s) && !BarePrefix(s, 10) && ReadingOf(s, HeadOf(s, 10)) == Reading(false, ULONG_MAX + 1, 10)
  {
    var t := "4294967296";
    var s := t + ['\0'];
    var ds := [4, 2, 9, 4, 9, 6, 7, 2, 9, 6];
    assert AfterSpaces(s, 0) == 0 && AfterSign(s, 0) == 0;
    forall k | 0 <= k < |s| - 1 ensures DigitOf(s[k]) < 10 { assert s[k] == t[k]; }
    DigitsToEnd(s, 0, 10);
    assert DigitsOf(s)[0..10] == ds;
    Decimal(ds);
  }

  lemma Decimal(ds: seq<int>)
    requires ds == [4, 2, 9, 4, 9, 6, 7, 2, 9, 6]
    ensures Val(ds, 10) == 4294967296
  {
    assert Val(ds[..1], 10) == 4;
    assert ds[..2][..1] == ds[..1] && Val(ds[..2], 10) == 42;
    assert ds[..3][..2] == ds[..2] && Val(ds[..3], 10) == 429;
    assert ds[..4][..3] == ds[..3] && Val(ds[..4], 10) == 4294;
    assert ds[..5][..4] == ds[..4] && Val(ds[..5], 10) == 42949;
    assert ds[..6][..5] == ds[..5] && Val(ds[..6], 10) == 429496;
    assert ds[..7][..6] == ds[..6] && Val(ds[..7], 10) == 4294967;
    assert ds[..8][..7] == ds[..7] && Val(ds[..8], 10) == 42949672;
    assert ds[..9][..8] == ds[..8] && Val(ds[..9], 10) == 429496729;
  }

  /** "0x" is such a text: the standard ends it after the 0, the code takes it for no number. */
  lemma BareHex()
    ensures var s := ['0', 'x', '\0'];
      && CString(s) && BarePrefix(s, 0) && BarePrefix(s, 16)
      && ReadingOf(s, HeadOf(s, 16)).end == 0 && ReadingOf(s, StandardHead(s, 16)).end == 1
  {
    hide Val, Number;
    var s := ['0', 'x', '\0'];
    assert AfterSpaces(s, 0) == 0 && AfterSign(s, 0) == 0;
    assert DigitOf('0') == 0 && DigitOf('x') == 33 && DigitOf('\0') == NOT_A_DIGIT;
    assert DigitsEnd(s, 1, 16) == 1;
  }

  // What a text means, told from its parts.

  const DECIMAL: string := "0123456789"
  const LOWER: string := "abcdefghijklmnopqrstuvwxyz"
  const UPPER: string := "ABCDEFGHIJKLMNOPQRSTUVWXYZ"

  /** The character stands for digit `d`. */
  predicate StandsFor(c: char, d: int) {
    if 0 <= d < 10 then c == DECIMAL[d] else 10 <= d < 36 && (c == LOWER[d - 10] || c == UPPER[d - 10])
  }

  lemma DecimalDigit(d: nat)
    requires d < 10
    ensures DECIMAL[d] == (d + '0' as int) as char
  {}

  lemma LowerDigit(d: nat)
    requires d < 26
    ensures LOWER[d] == (d + 'a' as int) as char
  {}

  lemma UpperDigit(d: nat)
    requires d < 26
    ensures UPPER[d] == (d + 'A' as int) as char
  {}

  /** The digits that the code reads are these. */
  lemma DigitOfExactly(c: char, d: int)
    requires 0 <= d < 36
    ensures DigitOf(c) == d <==> StandsFor(c, d)
  {
    if d < 10 {
      DecimalDigit(d);
    } else {
      LowerDigit(d - 10);
      UpperDigit(d - 10);
    }
  }

  /** A text by section 7.20.1.4 of ISO C99: white space, a sign, a prefix, the digits, and the rest with
      its terminator. */
  datatype Parts = Parts(space: seq<char>, sign: seq<char>, prefix: seq<char>, digits: seq<char>, rest: seq<char>) {
    function Text(): seq<char> { space + sign + prefix + digits + rest }

    function End(): nat { |space| + |sign| + |prefix| + |digits| }

    /** The base of the number, when `base` is asked for. */
    function Base(base: nat): nat {
      if prefix != [] then 16
      else if base != 0 then base
      else if digits != [] && digits[0] == '0' then 8 else 10
    }

    /** The white space is that of C, the sign is + or - or missing, and a prefix stands only where the base
        allows it. */
    ghost predicate HeadValid(base: nat) {
      && (forall c | c in space :: c in {' ', '\n', '\r', '\t', '\U{0B}', '\U{0C}'})
      && (sign == [] || sign == ['+'] || sign == ['-'])
      && (prefix == [] || ((prefix == ['0', 'x'] || prefix == ['0', 'X']) && (base == 0 || base == 16)))
    }

    /** The digits are those of the base, and the rest does not go on with another one. */
    ghost predicate DigitsValid(b: nat, ds: seq<int>) {
      && |ds| == |digits| && (forall i | 0 <= i < |ds| :: ds[i] < b && StandsFor(digits[i], ds[i]))
      && rest != [] && forall d | 0 <= d < b :: !StandsFor(rest[0], d)
    }

    ghost predicate Valid(base: nat, ds: seq<int>) {
      && HeadValid(base) && DigitsValid(Base(base), ds)
      && CString(rest) && '\0' !in space + sign + prefix + digits
    }

    /** There is no prefix and no digit, and the rest is not white space or a sign. */
    predicate Empty() {
      && prefix == digits == [] && rest != []
      && (sign == [] ==> rest[0] !in {' ', '\n', '\r', '\t', '\U{0B}', '\U{0C}', '+', '-'})
    }

    /** The digits are not a 0 that could belong to a prefix. */
    predicate NoPrefixAhead(base: nat)
      requires rest != []
    {
      (base == 0 || base == 16) && prefix == [] && digits == ['0'] ==> rest[0] != 'x' && rest[0] != 'X'
    }
  }

  lemma TextAt(p: Parts, i: nat)
    requires p.rest != [] && i < |p.Text()|
    ensures |p.Text()| == p.End() + |p.rest|
    ensures var a, b, c := |p.space|, |p.space| + |p.sign|, |p.space| + |p.sign| + |p.prefix|;
      p.Text()[i] == if i < a then p.space[i] else if i < b then p.sign[i - a] else if i < c then p.prefix[i - b]
                     else if i < p.End() then p.digits[i - c] else p.rest[i - p.End()]
  {}

  lemma TextIsString(p: Parts)
    requires CString(p.rest) && '\0' !in p.space + p.sign + p.prefix + p.digits
    ensures CString(p.Text())
  {
    var t := p.space + p.sign + p.prefix + p.digits;
    assert p.Text() == t + p.rest;
    assert forall i | 0 <= i < |t| :: t[i] in t;
  }

  lemma SpacesEnd(s: seq<char>, n: nat)
    requires CString(s) && n < |s| && !IsSpace(s[n]) && forall k | 0 <= k < n :: IsSpace(s[k])
    ensures AfterSpaces(s, 0) == n
  {}

  lemma DigitsStop(s: seq<char>, i: nat, b: nat, n: nat)
    requires CString(s) && i <= n < |s| && b <= 36 && DigitOf(s[n]) >= b && forall k | i <= k < n :: DigitOf(s[k]) < b
    ensures DigitsEnd(s, i, b) == n
  {}

  /** A digit is no white space, no sign, and with a value below 33 no x. */
  lemma DigitMeans(c: char, d: int)
    requires StandsFor(c, d)
    ensures DigitOf(c) == d && !IsSpace(c) && c != '-' && c != '+' && (d < 33 ==> c != 'x' && c != 'X')
  {
    DigitOfExactly(c, d);
    hide StandsFor;
  }

  lemma NoDigitMeans(c: char, b: nat)
    requires b <= 36 && forall d | 0 <= d < b :: !StandsFor(c, d)
    ensures DigitOf(c) >= b
  {
    hide StandsFor, DigitOf;
    if DigitOf(c) < b { DigitOfExactly(c, DigitOf(c)); }
  }

  lemma NoSpace(c: char)
    ensures IsSpace(c) <==> c in {' ', '\n', '\r', '\t', '\U{0B}', '\U{0C}'}
    ensures c == '+' || c == '-' || c == '0' ==> !IsSpace(c)
  {}

  /** The first character behind the white space is none. */
  lemma SpaceRead(p: Parts, base: nat, ds: seq<int>)
    requires p.Valid(base, ds) && (p.digits == [] && p.sign == [] && p.prefix == [] ==> !IsSpace(p.rest[0]))
    ensures CString(p.Text()) && AfterSpaces(p.Text(), 0) == |p.space|
  {
    hide StandsFor, IsSpace, DigitOf;
    TextIsString(p);
    var s, n := p.Text(), |p.space|;
    TextAt(p, n);
    NoSpace(s[n]);
    if p.sign == [] && p.prefix == [] && p.digits != [] { DigitMeans(p.digits[0], ds[0]); }
    forall k | 0 <= k < n ensures IsSpace(s[k]) {
      TextAt(p, k);
      assert p.space[k] in p.space;
      NoSpace(s[k]);
    }
    SpacesEnd(s, n);
  }

  lemma SignRead(p: Parts, base: nat, ds: seq<int>)
    requires p.Valid(base, ds) && CString(p.Text())
    requires p.digits == [] && p.sign == [] && p.prefix == [] ==> p.rest[0] != '+' && p.rest[0] != '-'
    ensures |p.space| < |p.Text()| && AfterSign(p.Text(), |p.space|) == |p.space| + |p.sign|
    ensures p.Text()[|p.space|] == '-' <==> p.sign == ['-']
  {
    hide StandsFor;
    TextAt(p, |p.space|);
    if p.sign == [] && p.prefix == [] && p.digits != [] { DigitMeans(p.digits[0], ds[0]); }
  }

  lemma PrefixRead(p: Parts, base: nat, ds: seq<int>)
    requires p.Valid(base, ds) && CString(p.Text()) && p.NoPrefixAhead(base)
    requires p.digits == [] && p.prefix == [] ==> p.rest[0] != '0'
    ensures |p.space| + |p.sign| < |p.Text()|
    ensures HexPrefix(p.Text(), |p.space| + |p.sign|, base) <==> p.prefix != []
  {
    hide StandsFor;
    var s, m := p.Text(), |p.space| + |p.sign|;
    TextAt(p, m);
    if m + 1 < |s| { TextAt(p, m + 1); }
    if p.prefix == [] && |p.digits| > 0 { DigitMeans(p.digits[0], ds[0]); }
    if p.prefix == [] && |p.digits| > 1 { DigitMeans(p.digits[1], ds[1]); }
  }

  /** What the code skips before the digits, and the base it takes. */
  lemma HeadRead(p: Parts, base: nat, ds: seq<int>)
    requires (base == 0 || 2 <= base <= 36) && p.Valid(base, ds) && p.digits != [] && p.NoPrefixAhead(base)
    ensures CString(p.Text())
    ensures HeadOf(p.Text(), base) == Head(p.sign == ['-'], p.Base(base), p.End() - |p.digits|)
    ensures StandardHead(p.Text(), base) == Head(p.sign == ['-'], p.Base(base), p.End() - |p.digits|)
  {
    hide StandsFor, DigitOf, IsSpace, AfterSpaces, AfterSign, HexPrefix;
    SpaceRead(p, base, ds);
    SignRead(p, base, ds);
    PrefixRead(p, base, ds);
    TextAt(p, p.End() - |p.digits|);
    DigitMeans(p.digits[0], ds[0]);
  }

  /** The digits are read up to their end, as the number that they stand for. */
  lemma DigitsRead(p: Parts, base: nat, ds: seq<int>, i: nat)
    requires p.Valid(base, ds) && CString(p.Text()) && i == p.End() - |p.digits| && p.Base(base) <= 36
    ensures i < |p.Text()| && DigitsEnd(p.Text(), i, p.Base(base)) == p.End()
    ensures DigitsOf(p.Text())[i..p.End()] == ds
  {
    hide StandsFor, DigitOf, DigitsEnd;
    var s, b := p.Text(), p.Base(base);
    forall k | i <= k < p.End() ensures s[k] == p.digits[k - i] && DigitOf(s[k]) == ds[k - i] {
      TextAt(p, k);
      DigitMeans(p.digits[k - i], ds[k - i]);
    }
    TextAt(p, p.End());
    NoDigitMeans(p.rest[0], b);
    DigitsStop(s, i, b, p.End());
  }

  /** The code reads a text, and the standard has it read, as the number that its digits stand for in the
      base, negative exactly with the sign -, up to the end of the digits. */
  lemma TextReads(p: Parts, base: nat, ds: seq<int>)
    requires (base == 0 || 2 <= base <= 36) && p.Valid(base, ds) && p.digits != [] && p.NoPrefixAhead(base)
    ensures CString(p.Text())
    ensures var r := Reading(p.sign == ['-'], Val(ds, p.Base(base)), p.End());
      ReadingOf(p.Text(), HeadOf(p.Text(), base)) == ReadingOf(p.Text(), StandardHead(p.Text(), base)) == r
  {
    hide Val, HeadOf, StandardHead, DigitsOf, DigitsEnd, CString;
    HeadRead(p, base, ds);
    hide Parts.Valid, Parts.Text;
    DigitsRead(p, base, ds, p.End() - |p.digits|);
  }

  /** A text without digits is read as 0, with the end pointer at its start. */
  lemma NothingReads(p: Parts, base: nat)
    requires (base == 0 || 2 <= base <= 36) && p.Valid(base, []) && p.Empty()
    ensures CString(p.Text())
    ensures var r := Reading(p.sign == ['-'], 0, 0);
      ReadingOf(p.Text(), HeadOf(p.Text(), base)) == ReadingOf(p.Text(), StandardHead(p.Text(), base)) == r
  {
    hide Val, StandsFor, DigitOf, IsSpace, AfterSpaces, AfterSign, HexPrefix, DigitsOf, DigitsEnd;
    NoSpace(p.rest[0]);
    SpaceRead(p, base, []);
    SignRead(p, base, []);
    NoDigitMeans(p.rest[0], p.Base(base));
    assert p.rest[0] != '0' by { NullDigit(); }
    PrefixRead(p, base, []);
    TextAt(p, p.End());
    DigitsRead(p, base, [], p.End());
    NothingRead(DigitsOf(p.Text()), p.End(), p.Base(base));
  }

  /** After a prefix without a hexadecimal digit the code has read nothing; the standard has the 0 read. */
  lemma BareReads(p: Parts, base: nat)
    requires (base == 0 || 2 <= base <= 36) && p.Valid(base, []) && p.prefix != []
    ensures CString(p.Text())
    ensures ReadingOf(p.Text(), HeadOf(p.Text(), base)) == Reading(p.sign == ['-'], 0, 0)
    ensures ReadingOf(p.Text(), StandardHead(p.Text(), base)) == Reading(p.sign == ['-'], 0, |p.space| + |p.sign| + 1)
  {
    hide Val, StandsFor, DigitOf, IsSpace, AfterSpaces, AfterSign, HexPrefix, DigitsOf, DigitsEnd;
    SpaceRead(p, base, []);
    SignRead(p, base, []);
    PrefixRead(p, base, []);
    NoDigitMeans(p.rest[0], 16);
    TextAt(p, p.End());
    DigitsRead(p, base, [], p.End());
    NothingRead(DigitsOf(p.Text()), p.End(), 16);
    ZeroRead(p, base);
  }

  /** The 0 of a bare prefix. */
  lemma ZeroRead(p: Parts, base: nat)
    requires p.Valid(base, []) && p.prefix != [] && CString(p.Text())
    ensures var s, m := p.Text(), |p.space| + |p.sign|;
      && m + 1 < |s| && s[m] == '0' && (forall b | 2 <= b <= 16 :: DigitsEnd(s, m, b) == m + 1)
      && DigitsOf(s)[m..m + 1] == [0] && forall b :: Val([0], b) == 0
  {
    hide StandsFor, IsSpace;
    var s, m := p.Text(), |p.space| + |p.sign|;
    TextAt(p, m);
    TextAt(p, m + 1);
    assert DigitOf('x') == DigitOf('X') == 33 && DigitOf('0') == 0;
    hide DigitOf;
    forall b | 2 <= b <= 16 ensures DigitsEnd(s, m, b) == m + 1 { DigitsStop(s, m, b, m + 1); }
  }

  lemma Reassembled(s: seq<char>, i: nat, j: nat, k: nat, e: nat)
    requires i <= j <= k <= e <= |s|
    ensures s[..i] + s[i..j] + s[j..k] + s[k..e] + s[e..] == s && s[..i] + s[i..j] + s[j..k] + s[k..e] == s[..e]
  {}

  lemma StringEnd(s: seq<char>, e: nat)
    requires CString(s) && e < |s|
    ensures CString(s[e..]) && '\0' !in s[..e]
  {}

  lemma AllStand(t: seq<char>, b: nat)
    requires b <= 36 && forall i | 0 <= i < |t| :: DigitOf(t[i]) < b
    ensures forall i | 0 <= i < |t| :: DigitsOf(t)[i] < b && StandsFor(t[i], DigitsOf(t)[i])
  {
    hide DigitOf, StandsFor;
    forall i | 0 <= i < |t| ensures StandsFor(t[i], DigitOf(t[i])) { DigitOfExactly(t[i], DigitOf(t[i])); }
  }

  lemma NoneStands(c: char, b: nat)
    requires b <= 36 && DigitOf(c) >= b
    ensures forall d | 0 <= d < b :: !StandsFor(c, d)
  {
    hide DigitOf, StandsFor;
    forall d | 0 <= d < b ensures !StandsFor(c, d) { DigitOfExactly(c, d); }
  }

  /** What stands before the digits has the right form. */
  lemma HeadForm(s: seq<char>, base: nat)
    requires CString(s) && (base == 0 || 2 <= base <= 36)
    ensures var i := AfterSpaces(s, 0); var j, from := AfterSign(s, i), HeadOf(s, base).from;
      && i <= j <= from < |s|
      && (forall c | c in s[..i] :: c in {' ', '\n', '\r', '\t', '\U{0B}', '\U{0C}'})
      && (s[i..j] == [] || s[i..j] == ['+'] || s[i..j] == ['-'])
      && (if HexPrefix(s, j, base) then s[j..from] == ['0', 'x'] || s[j..from] == ['0', 'X'] else from == j)
      && (i == j ==> s[i] !in {' ', '\n', '\r', '\t', '\U{0B}', '\U{0C}', '+', '-'})
  {
    var i := AfterSpaces(s, 0);
    forall c | c in s[..i] ensures c in {' ', '\n', '\r', '\t', '\U{0B}', '\U{0C}'} { NoSpace(c); }
    NoSpace(s[i]);
  }

  /** The parts as the code finds them. */
  function PartsOf(s: seq<char>, base: nat): Parts
    requires CString(s) && (base == 0 || 2 <= base <= 36)
  {
    var i, h := AfterSpaces(s, 0), HeadOf(s, base);
    var j, e := AfterSign(s, i), DigitsEnd(s, h.from, h.base);
    Parts(s[..i], s[i..j], s[j..h.from], s[h.from..e], s[e..])
  }

  lemma PartsForm(s: seq<char>, base: nat)
    requires CString(s) && (base == 0 || 2 <= base <= 36)
    ensures var p, h := PartsOf(s, base), HeadOf(s, base);
      && p.Text() == s && p.Base(base) == h.base
      && p.digits == s[h.from..DigitsEnd(s, h.from, h.base)] && p.rest == s[DigitsEnd(s, h.from, h.base)..]
      && (p.prefix != [] <==> HexPrefix(s, AfterSign(s, AfterSpaces(s, 0)), base))
  {
    var i, h := AfterSpaces(s, 0), HeadOf(s, base);
    var j, e := AfterSign(s, i), DigitsEnd(s, h.from, h.base);
    Reassembled(s, i, j, h.from, e);
    NullDigit();
    hide DigitOf, IsSpace, AfterSpaces, AfterSign;
  }

  lemma PartsValid(s: seq<char>, base: nat)
    requires CString(s) && (base == 0 || 2 <= base <= 36)
    ensures PartsOf(s, base).Valid(base, DigitsOf(PartsOf(s, base).digits))
  {
    PartsForm(s, base);
    HeadPartsValid(s, base);
    DigitPartsValid(s, base);
    var h := HeadOf(s, base);
    var i, e := AfterSpaces(s, 0), DigitsEnd(s, h.from, h.base);
    StringEnd(s, e);
    Reassembled(s, i, AfterSign(s, i), h.from, e);
    hide CString, Parts.HeadValid, Parts.DigitsValid, Parts.Base, DigitOf, AfterSpaces, AfterSign, DigitsEnd, HexPrefix;
  }

  lemma HeadPartsValid(s: seq<char>, base: nat)
    requires CString(s) && (base == 0 || 2 <= base <= 36)
    ensures PartsOf(s, base).HeadValid(base)
  {
    HeadForm(s, base);
    hide CString, DigitOf, AfterSpaces, AfterSign, DigitsEnd, HeadOf;
  }

  lemma DigitPartsValid(s: seq<char>, base: nat)
    requires CString(s) && (base == 0 || 2 <= base <= 36)
    ensures PartsOf(s, base).DigitsValid(HeadOf(s, base).base, DigitsOf(PartsOf(s, base).digits))
  {
    var h := HeadOf(s, base);
    var e := DigitsEnd(s, h.from, h.base);
    AllStand(s[h.from..e], h.base);
    NoneStands(s[e], h.base);
    hide CString, DigitOf, AfterSpaces, AfterSign, StandsFor, HeadOf, DigitsOf;
  }

  lemma NoneAhead(s: seq<char>, base: nat)
    requires CString(s) && (base == 0 || 2 <= base <= 36)
    ensures PartsOf(s, base).rest != [] && PartsOf(s, base).NoPrefixAhead(base)
  {
    hide DigitOf, AfterSpaces, AfterSign, DigitsEnd;
    var p, j := PartsOf(s, base), AfterSign(s, AfterSpaces(s, 0));
    if p.prefix == [] && p.digits == ['0'] && (base == 0 || base == 16) {
      assert s[j..][..1] == p.digits && s[j] == '0' && s[j + 1] == p.rest[0];
    }
  }

  lemma NothingThere(s: seq<char>, base: nat)
    requires CString(s) && (base == 0 || 2 <= base <= 36)
    ensures var p := PartsOf(s, base); p.prefix == p.digits == [] ==> p.Empty()
  {
    HeadForm(s, base);
    hide DigitOf, AfterSpaces, AfterSign, DigitsEnd, IsSpace;
  }

  /** Every text has one of these forms. */
  lemma EveryText(s: seq<char>, base: nat) returns (p: Parts, ds: seq<int>)
    requires CString(s) && (base == 0 || 2 <= base <= 36)
    ensures p.Text() == s && p.Valid(base, ds)
    ensures (p.digits != [] && p.NoPrefixAhead(base)) || p.Empty() || p.digits == [] != p.prefix
  {
    p := PartsOf(s, base);
    ds := DigitsOf(p.digits);
    PartsForm(s, base);
    PartsValid(s, base);
    NoneAhead(s, base);
    NothingThere(s, base);
    hide *;
  }

  lemma NullDigit()
    ensures DigitOf('0') == 0
  {}

  /** `strtoul` of a text with digits. */
  method StrtoulOfText(p: Parts, base: nat, w: nat, ghost ds: seq<int>) returns (value: nat, end: nat)
    requires (base == 0 || 2 <= base <= 36) && w >= 32
    requires p.Valid(base, ds) && p.digits != [] && p.NoPrefixAhead(base)
    ensures var v := Val(ds, p.Base(base));
      && end == p.End()
      && value == (if v > 0xffff_ffff then 0xffff_ffff else if p.sign == ['-'] && v > 0 then Pow(2, w) - v else v)
  {
    hide Val, Pow, HeadOf, StandardHead, DigitsEnd, CString;
    TextReads(p, base, ds);
    value, end := Strtoul(p.Text(), base, w);
  }

  /** `strtol` of a text with digits. */
  method StrtolOfText(p: Parts, base: nat, ghost ds: seq<int>) returns (value: int, end: nat)
    requires (base == 0 || 2 <= base <= 36) && p.Valid(base, ds) && p.digits != [] && p.NoPrefixAhead(base)
    ensures var v := Val(ds, p.Base(base));
      && end == p.End()
      && value == (if p.sign == ['-'] then (if v > 0x8000_0000 then -0x8000_0000 else -v)
                   else if v > 0x7fff_ffff then 0x7fff_ffff else v)
  {
    hide Val, HeadOf, StandardHead, DigitsEnd, CString;
    TextReads(p, base, ds);
    value, end := Strtol(p.Text(), base);
  }

  // ksprintn.

  function DigitChar(d: nat, upper: bool): (c: char)
    requires d < 36
    ensures DigitOf(c) == d && c != '\0'
  {
    if d < 10 then (d + '0' as int) as char else (d - 10 + (if upper then 'A' else 'a') as int) as char
  }

  /** Letters come in the case asked for. */
  lemma DigitCharIs(d: nat, upper: bool)
    requires d < 36
    ensures DigitChar(d, upper) == if d < 10 then DECIMAL[d] else (if upper then UPPER else LOWER)[d - 10]
  {
    if d < 10 {
      DecimalDigit(d);
    } else {
      LowerDigit(d - 10);
      UpperDigit(d - 10);
    }
  }

  /** The characters that are read when going down from place `len` of the buffer to its start. */
  function Text(b: seq<char>, len: nat): (t: seq<char>)
    requires len < |b|
    ensures |t| == len && forall i | 0 <= i < len :: t[i] == b[len - i]
  {
    seq(len, i requires 0 <= i < len => b[len - i])
  }

  /** The numeral of `num`: its digits without a leading zero. */
  ghost predicate IsNumeral(t: seq<char>, num: nat, base: nat, upper: bool)
    requires base <= 36
  {
    && |t| > 0 && Val(DigitsOf(t), base) == num
    && (forall i | 0 <= i < |t| :: DigitOf(t[i]) < base && t[i] == DigitChar(DigitOf(t[i]), upper))
    && (|t| == 1 || DigitOf(t[0]) > 0)
  }

  /** `n` is what is left of `num` after the digits of `t`. */
  ghost predicate Left(num: nat, n: nat, t: seq<char>, base: nat) {
    num == n * Pow(base, |t|) + Val(DigitsOf(t), base)
  }

  lemma LeftStep(num: nat, n: nat, t: seq<char>, base: nat, c: char)
    requires base > 0 && Left(num, n, t, base) && DigitOf(c) == n % base && n / base >= 0
    ensures Left(num, n / base, [c] + t, base)
  {
    hide Val, DigitOf;
    var d, p := DigitOf(c), Pow(base, |t|);
    assert DigitsOf([c] + t) == [d] + DigitsOf(t);
    ValCons(d, DigitsOf(t), base);
    DivModDef(n, base);
    assert Pow(base, |t| + 1) == base * p;
    hide Pow, DigitsOf;
    TakeDigit(n, n / base, d, base, p);
  }

  lemma TakeDigit(n: int, q: int, d: int, base: int, p: int)
    requires n == q * base + d
    ensures n * p == q * (base * p) + d * p
  {
    assert (q * base + d) * p == q * base * p + d * p;
    MulAssoc(q, base, p);
  }

  /** As long as something is left there is room for a digit. */
  lemma LeftFits(num: nat, n: nat, t: seq<char>, base: nat)
    requires Left(num, n, t, base) && n > 0 && base >= 2 && num < Pow(2, 64)
    requires forall i | 0 <= i < |t| :: DigitOf(t[i]) < base
    ensures |t| < 64
  {
    ValBound(DigitsOf(t), base);
    hide Val, Pow;
    MulMonotone(1, n, Pow(base, |t|));
    PowBase(2, base, |t|);
    if |t| >= 64 { PowMonotone(2, 64, |t|); }
  }

  lemma {:induction false} PowBase(a: nat, b: nat, n: nat)
    requires a <= b
    ensures Pow(a, n) <= Pow(b, n)
  {
    if n > 0 {
      PowBase(a, b, n - 1);
      MulMonotone(a, b, Pow(a, n - 1));
      MulMonotone(Pow(a, n - 1), Pow(b, n - 1), b);
    }
  }

  /** `ksprintn`: the numeral of `num`, backwards, behind a terminator. */
  method Ksprintn(nbuf: array<char>, num: nat, base: nat, upper: bool) returns (len: nat)
    requires nbuf.Length >= MAXNBUF && num < Pow(2, 64) && 2 <= base <= 36
    modifies nbuf
    ensures 1 <= len < MAXNBUF && nbuf[0] == '\0'
    ensures IsNumeral(Text(nbuf[..], len), num, base, upper)
  {
    hide Val, Pow, DigitOf, DigitChar, Left;
    var p, n: nat := 0, num;
    nbuf[0] := '\0';
    ghost var t: seq<char> := [];
    LeftAll(num, base);
    while true
      invariant |t| == p < 64 && nbuf[0] == '\0' && Left(num, n, t, base) && (p > 0 ==> n > 0)
      invariant forall i | 0 <= i < p :: nbuf[p - i] == t[i]
      invariant forall i | 0 <= i < p :: DigitOf(t[i]) < base && t[i] == DigitChar(DigitOf(t[i]), upper)
      decreases n
    {
      TopDigit(n, base);
      var c := DigitChar(n % base, upper);
      LeftStep(num, n, t, base, c);
      p := p + 1;
      nbuf[p] := c;
      t := [c] + t;
      n := n / base;
      if n == 0 { break; }
      LeftFits(num, n, t, base);
    }
    len := p;
    LeftNone(num, t, base);
    assert Text(nbuf[..], len) == t;
  }

  lemma LeftAll(num: nat, base: nat)
    ensures Left(num, num, [], base)
  {}

  lemma LeftNone(num: nat, t: seq<char>, base: nat)
    requires Left(num, 0, t, base)
    ensures Val(DigitsOf(t), base) == num
  {}

  lemma TopDigit(n: nat, base: nat)
    requires base >= 2
    ensures 0 <= n / base && 0 <= n % base < base && (n > 0 ==> n / base < n) && (n / base == 0 ==> n % base == n)
  {
    DivModDef(n, base);
    if n / base > 0 { MulMonotone(2, base, n / base); }
  }

  // Printing and reading.

  /** A numeral reads as all digits, without a sign or a prefix. */
  lemma NumeralReads(t: seq<char>, num: nat, base: nat, upper: bool)
    requires 2 <= base <= 36 && IsNumeral(t, num, base, upper)
    ensures CString(t + ['\0']) && HeadOf(t + ['\0'], base) == Head(false, base, 0)
    ensures DigitsEnd(t + ['\0'], 0, base) == |t| && Number(t + ['\0'], Head(false, base, 0)) == num
  {
    var s := t + ['\0'];
    forall i | 0 <= i < |t| ensures s[i] != '\0' && DigitOf(s[i]) < base { assert s[i] == t[i]; }
    assert DigitOf('x') == DigitOf('X') == 33;
    DigitsToEnd(s, 0, base);
    hide Val;
    assert DigitsOf(s)[0..|t|] == DigitsOf(t);
  }

  lemma {:induction false} DigitsToEnd(s: seq<char>, i: nat, b: nat)
    requires CString(s) && i < |s| && b <= 36 && forall k | i <= k < |s| - 1 :: DigitOf(s[k]) < b
    ensures DigitsEnd(s, i, b) == |s| - 1
    decreases |s| - i
  {
    hide DigitOf;
    if i < |s| - 1 { DigitsToEnd(s, i + 1, b); } else { NulEnds(); }
  }

  lemma NulEnds()
    ensures DigitOf('\0') == NOT_A_DIGIT
  {}

  /** `strtoul` inverts `ksprintn`. */
  method PrintThenRead(num: nat, base: nat, upper: bool, w: nat) returns (value: nat, end: nat, len: nat)
    requires num <= ULONG_MAX && 2 <= base <= 36 && w >= 32
    ensures value == num && end == len
  {
    ULongFits(64);
    hide Pow;
    var nbuf := new char[MAXNBUF];
    len := Ksprintn(nbuf, num, base, upper);
    var t := Text(nbuf[..], len);
    NumeralReads(t, num, base, upper);
    value, end := Strtoul(t + ['\0'], base, w);
  }

  // Number fields.

  function Repeat(c: char, n: int): seq<char> { if n <= 0 then [] else Repeat(c, n - 1) + [c] }

  lemma {:induction false} RepeatLength(c: char, n: int)
    ensures |Repeat(c, n)| == Max(0, n)
  {
    if n > 0 { RepeatLength(c, n - 1); }
  }

  /** What stands before the digits of a field. */
  function FieldPrefix(neg: bool, sharp: bool, base: nat, num: nat): seq<char> {
    (if neg then "-" else "")
      + (if !sharp || num == 0 then "" else if base == 8 then "0" else if base == 16 then "0x" else "")
  }

  /** A field of the given width: padded in front with blanks, after the prefix with zeros, or, if
      adjusted to the left, behind with either. */
  function Field(pre: seq<char>, t: seq<char>, ladjust: bool, padc: char, width: nat): seq<char> {
    var pad := Repeat(padc, width - |pre| - |t|);
    if ladjust then pre + t + pad else if padc == '0' then pre + pad + t else pad + pre + t
  }

  // The field of section 7.19.6.1 of ISO C99.

  /** The conversion: sign, flags, base and precision, if one is given. */
  datatype Format = Format(neg: bool, sharp: bool, base: nat, upper: bool, ladjust: bool, padc: char, width: nat,
                           precision: Option<nat>)
  {
    predicate Valid(num: nat) {
      2 <= base <= 36 && (padc == ' ' || padc == '0') && (neg ==> num > 0)
    }
    predicate Octal() { sharp && base == 8 }
    function Precision(): nat { if precision.None? then 1 else precision.value }
    predicate Hex(num: nat) { sharp && base == 16 && num > 0 }
  }

  /** What the code prints for numeral `t`. */
  function CodeField(f: Format, num: nat, t: seq<char>): seq<char> {
    Field(FieldPrefix(f.neg, f.sharp, f.base, num), t, f.ladjust, f.padc, f.width)
  }

  function StandardPrefix(f: Format, num: nat): seq<char> {
    (if f.neg then "-" else "") + (if !f.Hex(num) then "" else if f.upper then "0X" else "0x")
  }

  /** At least as many digits as the precision; none for 0 with precision 0; in the alternative octal
      form the first digit is 0. */
  function StandardDigits(p: nat, octal: bool, num: nat, t: seq<char>): seq<char> {
    var d := if num == 0 && p == 0 then [] else Repeat('0', p - |t|) + t;
    if octal && (d == [] || d[0] != '0') then ['0'] + d else d
  }

  /** The zero flag is ignored with adjustment to the left and with a precision. */
  function StandardField(f: Format, num: nat, t: seq<char>): seq<char> {
    Field(StandardPrefix(f, num), StandardDigits(f.Precision(), f.Octal(), num, t), f.ladjust,
          if f.ladjust || f.precision.Some? then ' ' else f.padc, f.width)
  }

  /** The length of what the code prints before padding. */
  function CodeLength(f: Format, num: nat, digits: nat): nat {
    (if f.neg then 1 else 0) + (if f.Hex(num) then 2 else if f.Octal() && num > 0 then 1 else 0) + digits
  }

  /** The length of what the standard asks for before padding. */
  function StandardLength(f: Format, num: nat, digits: nat): nat {
    (if f.neg then 1 else 0) + (if f.Hex(num) then 2 else 0)
      + if num == 0 && f.Precision() == 0 then (if f.Octal() then 1 else 0)
        else Max(f.Precision(), digits + if f.Octal() && num > 0 then 1 else 0)
  }

  /** When the code prints what the standard asks for: the prefix 0X is not called for; zeros are not
      filled in behind, save for 0; and the precision makes no difference, or is what the zero flag
      fills in. */
  predicate Conforms(f: Format, num: nat, digits: nat) {
    var c, m := CodeLength(f, num, digits), StandardLength(f, num, digits);
    var zeros := f.padc == '0' && f.width > c;
    && !(f.Hex(num) && f.upper)
    && if f.precision.None? then !(zeros && f.ladjust)
       else m == (if zeros then f.width else c) && (zeros && f.ladjust ==> num == 0)
  }

  lemma RepeatAt(c: char, n: int)
    ensures |Repeat(c, n)| == Max(0, n) && forall i | 0 <= i < n :: Repeat(c, n)[i] == c
  {
    RepeatLength(c, n);
    if n > 0 { RepeatAt(c, n - 1); }
  }

  /** Fields that are padded with blanks, seen as one piece. */
  function Blanked(c: seq<char>, ladjust: bool, width: nat): seq<char> {
    if ladjust then c + Repeat(' ', width - |c|) else Repeat(' ', width - |c|) + c
  }

  lemma FieldBlanked(pre: seq<char>, t: seq<char>, ladjust: bool, padc: char, width: nat)
    requires padc == ' ' || width <= |pre| + |t|
    ensures Field(pre, t, ladjust, padc, width) == Blanked(pre + t, ladjust, width)
  {
    hide Repeat;
    NoPadding(padc, width - |pre| - |t|);
    NoPadding(' ', width - |pre| - |t|);
    var pad := Repeat(' ', width - |pre| - |t|);
    assert pad + pre + t == pad + (pre + t);
  }

  /** Blanks cannot make up for a piece without blanks that is longer. */
  lemma BlankedDiffer(a: seq<char>, b: seq<char>, ladjust: bool, width: nat)
    requires |a| < |b| && ' ' !in b
    ensures Blanked(a, ladjust, width) != Blanked(b, ladjust, width)
  {
    RepeatAt(' ', width - |a|);
    RepeatAt(' ', width - |b|);
    hide Repeat;
    var x, y := Blanked(a, ladjust, width), Blanked(b, ladjust, width);
    if |a| < width && |b| <= width {
      if ladjust {
        assert x[|a|] == ' ' && y[|a|] == b[|a|];
      } else {
        var i := width - |a| - 1;
        assert x[i] == ' ' && y[i] == b[i - (width - |b|)];
      }
    }
  }

  lemma {:induction false} NumeralClean(t: seq<char>, num: nat, base: nat, upper: bool)
    requires 2 <= base <= 36 && IsNumeral(t, num, base, upper)
    ensures ' ' !in t && |t| > 0 && (num > 0 ==> t[0] != '0') && (num == 0 ==> t == "0")
    ensures base <= 16 && upper ==> 'x' !in t
  {
    assert DigitOf(' ') == NOT_A_DIGIT && DigitOf('0') == 0 && DigitChar(0, upper) == '0';
    assert DigitOf('x') == 33;
    forall i | 0 <= i < |t| ensures DigitOf(t[i]) < base { }
    assert t[0] == DigitChar(DigitOf(t[0]), upper);
    hide DigitOf, DigitChar;
    var ds := DigitsOf(t);
    if |t| == 1 {
      assert ds[..0] == [] && Val(ds, base) == ds[0];
    } else {
      assert ds[0..|ds|] == ds;
      ValSliceFront(ds, 0, |ds|, base);
      ValBound(ds[1..|ds|], base);
      MulMonotone(1, ds[0], Pow(base, |ds| - 1));
    }
  }

  /** A numeral as the lemmas below need it. */
  ghost predicate Clean(t: seq<char>, num: nat) {
    ' ' !in t && |t| > 0 && (num > 0 ==> t[0] != '0') && (num == 0 ==> t == ['0'])
  }

  lemma FewDigits(p: nat, octal: bool, num: nat, t: seq<char>)
    requires Clean(t, num) && p <= |t| && (num > 0 || p > 0)
    ensures StandardDigits(p, octal, num, t) == if octal && num > 0 then ['0'] + t else t
  {
    NoPadding('0', p - |t|);
    hide Repeat;
    assert [] + t == t;
  }

  lemma ManyDigits(p: nat, octal: bool, num: nat, t: seq<char>)
    requires Clean(t, num) && p > |t|
    ensures StandardDigits(p, octal, num, t) == Repeat('0', p - |t|) + t
  {
    RepeatAt('0', p - |t|);
    hide Repeat;
    var zeros := Repeat('0', p - |t|);
    assert (zeros + t)[0] == zeros[0];
  }

  lemma NoDigits(octal: bool, t: seq<char>)
    ensures StandardDigits(0, octal, 0, t) == if octal then ['0'] else []
  {}

  /** The length of the digits, which are not blank. */
  lemma DigitCount(p: nat, octal: bool, num: nat, t: seq<char>)
    requires Clean(t, num)
    ensures var d := StandardDigits(p, octal, num, t);
      ' ' !in d && |d| == if num == 0 && p == 0 then (if octal then 1 else 0)
                          else Max(p, |t| + if octal && num > 0 then 1 else 0)
  {
    hide StandardDigits, Repeat;
    if num == 0 && p == 0 {
      NoDigits(octal, t);
    } else if p <= |t| {
      FewDigits(p, octal, num, t);
    } else {
      ManyDigits(p, octal, num, t);
      RepeatAt('0', p - |t|);
    }
  }

  lemma PrefixClean(f: Format, num: nat)
    ensures var pre, spre := FieldPrefix(f.neg, f.sharp, f.base, num), StandardPrefix(f, num);
      && ' ' !in pre && ' ' !in spre
      && |pre| == (if f.neg then 1 else 0) + (if f.Hex(num) then 2 else if f.Octal() && num > 0 then 1 else 0)
      && |spre| == (if f.neg then 1 else 0) + (if f.Hex(num) then 2 else 0)
  {}

  /** What is to be printed, before padding. */
  lemma Contents(f: Format, num: nat, t: seq<char>)
    requires Clean(t, num)
    ensures var pre, spre := FieldPrefix(f.neg, f.sharp, f.base, num), StandardPrefix(f, num);
      var sd := StandardDigits(f.Precision(), f.Octal(), num, t);
      && |pre + t| == CodeLength(f, num, |t|) && |spre + sd| == StandardLength(f, num, |t|)
      && ' ' !in pre + t && ' ' !in spre + sd
  {
    hide StandardDigits, FieldPrefix, StandardPrefix;
    PrefixClean(f, num);
    DigitCount(f.Precision(), f.Octal(), num, t);
  }

  /** The prefixes differ by the 0 of the alternative octal form. */
  lemma Prefixes(f: Format, num: nat)
    requires !(f.Hex(num) && f.upper)
    ensures FieldPrefix(f.neg, f.sharp, f.base, num)
      == StandardPrefix(f, num) + if f.Octal() && num > 0 then ['0'] else []
  {}

  /** Equal lengths mean equal contents. */
  lemma SameContents(f: Format, num: nat, t: seq<char>)
    requires Clean(t, num) && !(f.Hex(num) && f.upper)
    requires CodeLength(f, num, |t|) == StandardLength(f, num, |t|)
    ensures FieldPrefix(f.neg, f.sharp, f.base, num) + t
      == StandardPrefix(f, num) + StandardDigits(f.Precision(), f.Octal(), num, t)
  {
    var p, octal, spre := f.Precision(), f.Octal(), StandardPrefix(f, num);
    Prefixes(f, num);
    assert Repeat('0', 1) == ['0'];
    hide StandardDigits, FieldPrefix, StandardPrefix, Repeat;
    if num == 0 && p == 0 {
      NoDigits(octal, t);
      assert spre + [] == spre;
    } else if p <= |t| {
      FewDigits(p, octal, num, t);
      assert (spre + ['0']) + t == spre + (['0'] + t) && spre + [] == spre;
    } else {
      ManyDigits(p, octal, num, t);
      assert (spre + ['0']) + t == spre + (['0'] + t);
    }
  }

  lemma RepeatFront(c: char, n: nat)
    ensures [c] + Repeat(c, n) == Repeat(c, n + 1)
  {
    RepeatAt(c, n);
    RepeatAt(c, n + 1);
  }

  /** Zeros that the zero flag fills in, where the standard has them as digits. */
  lemma ZerosAsDigits(f: Format, num: nat, t: seq<char>)
    requires Clean(t, num) && !(f.Hex(num) && f.upper)
    requires f.width > CodeLength(f, num, |t|) && StandardLength(f, num, |t|) == f.width
    ensures Field(FieldPrefix(f.neg, f.sharp, f.base, num), t, false, '0', f.width)
      == StandardPrefix(f, num) + StandardDigits(f.Precision(), f.Octal(), num, t)
  {
    var p, pre, spre := f.Precision(), FieldPrefix(f.neg, f.sharp, f.base, num), StandardPrefix(f, num);
    Prefixes(f, num);
    PrefixClean(f, num);
    hide StandardDigits, FieldPrefix, StandardPrefix, Repeat;
    ManyDigits(p, f.Octal(), num, t);
    FieldZero(pre, t, f.width);
    hide Field;
    var pad := Repeat('0', f.width - |pre| - |t|);
    Regroup(spre, if f.Octal() && num > 0 then ['0'] else [], pad, t);
    if f.Octal() && num > 0 {
      RepeatFront('0', p - |t| - 1);
    } else {
      assert [] + pad == pad;
    }
  }

  lemma FieldZero(pre: seq<char>, t: seq<char>, width: nat)
    ensures Field(pre, t, false, '0', width) == pre + Repeat('0', width - |pre| - |t|) + t
  {}

  lemma Regroup(a: seq<char>, b: seq<char>, c: seq<char>, d: seq<char>)
    ensures a + b + c + d == a + ((b + c) + d) && a + c + (b + d) == a + ((c + b) + d)
  {}

  /** The zero flag without a precision, not adjusted to the left. */
  lemma ZeroFlag(f: Format, num: nat, t: seq<char>)
    requires Clean(t, num) && !(f.Hex(num) && f.upper) && f.precision.None? && f.padc == '0' && !f.ladjust
    ensures CodeField(f, num, t) == StandardField(f, num, t)
  {
    var pre, spre := FieldPrefix(f.neg, f.sharp, f.base, num), StandardPrefix(f, num);
    Prefixes(f, num);
    FewDigits(1, f.Octal(), num, t);
    hide StandardDigits, FieldPrefix, StandardPrefix, Repeat;
    var k := f.width - |pre| - |t|;
    FieldZero(pre, t, f.width);
    if f.Octal() && num > 0 {
      FieldZero(spre, ['0'] + t, f.width);
      hide Field;
      ZerosMove(k);
      Regroup(spre, ['0'], Repeat('0', k), t);
    } else {
      hide Field;
      assert spre + [] == spre;
    }
  }

  lemma ZerosMove(k: int)
    ensures ['0'] + Repeat('0', k) == Repeat('0', k) + ['0']
  {
    if k > 0 { RepeatFront('0', k); }
  }

  /** Left-adjusted with zeros behind: the text ends in 0. */
  lemma ZerosAtEnd(pre: seq<char>, t: seq<char>, width: nat)
    requires width > |pre| + |t|
    ensures var r := Field(pre, t, true, '0', width);
      |r| == width && r[width - 1] == '0' && forall i | 0 <= i < |pre| + |t| :: r[i] == (pre + t)[i]
  {
    RepeatAt('0', width - |pre| - |t|);
    hide Repeat;
  }

  lemma BlankedEnds(c: seq<char>, ladjust: bool, width: nat)
    ensures var r := Blanked(c, ladjust, width);
      && |r| == Max(width, |c|) && (|c| >= width ==> r == c)
      && (|c| < width ==> r[if ladjust then width - 1 else 0] == ' ')
  {
    RepeatAt(' ', width - |c|);
    hide Repeat;
  }

  /** The cases in which the code pads with blanks or not at all. */
  lemma BlankCase(f: Format, num: nat, t: seq<char>)
    requires Clean(t, num) && !(f.Hex(num) && f.upper)
    requires f.padc == ' ' || f.width <= CodeLength(f, num, |t|)
    requires f.padc == ' ' || f.ladjust || f.precision.Some?
    ensures CodeField(f, num, t) == StandardField(f, num, t)
      <==> CodeLength(f, num, |t|) == StandardLength(f, num, |t|)
  {
    var pre, spre := FieldPrefix(f.neg, f.sharp, f.base, num), StandardPrefix(f, num);
    var sd := StandardDigits(f.Precision(), f.Octal(), num, t);
    Contents(f, num, t);
    hide StandardDigits, FieldPrefix, StandardPrefix, Repeat, Field, Blanked;
    FieldBlanked(pre, t, f.ladjust, f.padc, f.width);
    FieldBlanked(spre, sd, f.ladjust, ' ', f.width);
    if |pre + t| == |spre + sd| {
      SameContents(f, num, t);
    } else if |pre + t| < |spre + sd| {
      BlankedDiffer(pre + t, spre + sd, f.ladjust, f.width);
    } else {
      BlankedDiffer(spre + sd, pre + t, f.ladjust, f.width);
    }
  }

  /** Zeros in front, where the standard has blanks or digits. */
  lemma ZerosInFront(f: Format, num: nat, t: seq<char>)
    requires Clean(t, num) && !(f.Hex(num) && f.upper) && f.padc == '0' && !f.ladjust && f.precision.Some?
    requires f.width > CodeLength(f, num, |t|)
    ensures CodeField(f, num, t) == StandardField(f, num, t) <==> StandardLength(f, num, |t|) == f.width
  {
    var pre, spre := FieldPrefix(f.neg, f.sharp, f.base, num), StandardPrefix(f, num);
    var sd := StandardDigits(f.Precision(), f.Octal(), num, t);
    Contents(f, num, t);
    hide StandardDigits, FieldPrefix, StandardPrefix, Repeat, Blanked;
    FieldBlanked(spre, sd, false, ' ', f.width);
    BlankedEnds(spre + sd, false, f.width);
    if |spre + sd| == f.width {
      ZerosAsDigits(f, num, t);
    } else if |spre + sd| < f.width {
      RepeatAt('0', f.width - |pre| - |t|);
      assert CodeField(f, num, t)[0] != ' ';
    } else {
      FieldLength(pre, t, false, '0', f.width);
    }
  }

  /** Zeros behind, where the standard has blanks. */
  lemma ZerosFollow(f: Format, num: nat, t: seq<char>)
    requires Clean(t, num) && !(f.Hex(num) && f.upper) && f.padc == '0' && f.ladjust && (f.neg ==> num > 0)
    requires f.width > CodeLength(f, num, |t|)
    ensures CodeField(f, num, t) == StandardField(f, num, t)
      <==> f.precision.Some? && StandardLength(f, num, |t|) == f.width && num == 0
  {
    var pre, spre := FieldPrefix(f.neg, f.sharp, f.base, num), StandardPrefix(f, num);
    var sd := StandardDigits(f.Precision(), f.Octal(), num, t);
    Contents(f, num, t);
    hide StandardDigits, FieldPrefix, StandardPrefix, Repeat, Blanked, Field;
    FieldBlanked(spre, sd, true, ' ', f.width);
    BlankedEnds(spre + sd, true, f.width);
    ZerosAtEnd(pre, t, f.width);
    if |spre + sd| == f.width {
      if num == 0 { AllZeros(f, t); } else { ZeroAfterPrefix(f, num, t); }
    }
  }

  /** With more digits than the number has, a zero stands where the code has the first digit. */
  lemma ZeroAfterPrefix(f: Format, num: nat, t: seq<char>)
    requires Clean(t, num) && !(f.Hex(num) && f.upper) && num > 0
    requires StandardLength(f, num, |t|) > CodeLength(f, num, |t|)
    ensures var pre, spre := FieldPrefix(f.neg, f.sharp, f.base, num), StandardPrefix(f, num);
      var sd := StandardDigits(f.Precision(), f.Octal(), num, t);
      |pre| < |spre + sd| && (spre + sd)[|pre|] == '0' && (pre + t)[|pre|] != '0'
  {
    Prefixes(f, num);
    PrefixClean(f, num);
    ManyDigits(f.Precision(), f.Octal(), num, t);
    hide StandardDigits, FieldPrefix, StandardPrefix, Repeat;
    RepeatAt('0', f.Precision() - |t|);
  }

  /** 0 is printed as zeros only. */
  lemma AllZeros(f: Format, t: seq<char>)
    requires t == ['0'] && !f.neg && f.width > 1 && f.Precision() == f.width
    ensures Field(FieldPrefix(f.neg, f.sharp, f.base, 0), t, true, '0', f.width)
      == StandardPrefix(f, 0) + StandardDigits(f.Precision(), f.Octal(), 0, t)
  {
    ManyDigits(f.width, f.Octal(), 0, t);
    hide StandardDigits;
    ZerosMove(f.width - 1);
    assert FieldPrefix(f.neg, f.sharp, f.base, 0) == [] == StandardPrefix(f, 0);
  }

  lemma FieldHas(x: char, pre: seq<char>, t: seq<char>, ladjust: bool, padc: char, width: nat)
    requires x != padc
    ensures x in Field(pre, t, ladjust, padc, width) <==> x in pre || x in t
  {
    RepeatAt(padc, width - |pre| - |t|);
    hide Repeat;
    assert x !in Repeat(padc, width - |pre| - |t|);
  }

  /** The prefix 0X is printed as 0x. */
  lemma UpperPrefix(f: Format, num: nat, t: seq<char>)
    requires f.Valid(num) && f.Hex(num) && f.upper && 'x' !in t
    ensures CodeField(f, num, t) != StandardField(f, num, t)
  {
    var pre, spre := FieldPrefix(f.neg, f.sharp, f.base, num), StandardPrefix(f, num);
    var sd := StandardDigits(f.Precision(), false, num, t);
    assert pre[|pre| - 1] == 'x' && 'x' !in spre;
    RepeatAt('0', f.Precision() - |t|);
    hide Repeat, FieldPrefix, StandardPrefix, Field;
    assert 'x' !in sd;
    FieldHas('x', pre, t, f.ladjust, f.padc, f.width);
    FieldHas('x', spre, sd, f.ladjust, if f.ladjust || f.precision.Some? then ' ' else f.padc, f.width);
  }

  /** The number part of `kvprintf` prints what section 7.19.6.1 of ISO C99 asks for exactly in the cases
      of `Conforms`. */
  lemma StandardPadding(f: Format, num: nat, t: seq<char>)
    requires f.Valid(num) && IsNumeral(t, num, f.base, f.upper)
    ensures CodeField(f, num, t) == StandardField(f, num, t) <==> Conforms(f, num, |t|)
  {
    NumeralClean(t, num, f.base, f.upper);
    hide CodeField, StandardField, IsNumeral;
    var c := CodeLength(f, num, |t|);
    if f.Hex(num) && f.upper {
      UpperPrefix(f, num, t);
    } else if f.precision.None? && f.padc == '0' && !f.ladjust {
      ZeroFlag(f, num, t);
    } else if f.padc == '0' && f.width > c {
      if f.ladjust { ZerosFollow(f, num, t); } else { ZerosInFront(f, num, t); }
    } else {
      BlankCase(f, num, t);
    }
  }

  /** 42 in a field of five, adjusted to the left with the zero flag. */
  lemma ZerosBehind()
    ensures var f := Format(false, false, 10, false, true, '0', 5, None);
      CodeField(f, 42, "42") == "42000" && StandardField(f, 42, "42") == "42   "
  {
    assert Repeat('0', 1) == "0" && Repeat('0', 2) == "00" && Repeat('0', 3) == "000";
    assert Repeat(' ', 1) == " " && Repeat(' ', 2) == "  " && Repeat(' ', 3) == "   ";
    hide Repeat;
    NoPadding('0', -1);
  }

  /** 42 with three digits in a field of eight with the zero flag. */
  lemma PrecisionIgnored()
    ensures var f := Format(false, false, 10, false, false, '0', 8, Some(3));
      CodeField(f, 42, "42") == "00000042" && StandardField(f, 42, "42") == "     042"
  {
    assert Repeat('0', 1) == "0" && Repeat('0', 2) == "00" && Repeat('0', 3) == "000";
    assert Repeat('0', 4) == "0000" && Repeat('0', 5) == "00000" && Repeat('0', 6) == "000000";
    assert Repeat(' ', 1) == " " && Repeat(' ', 2) == "  " && Repeat(' ', 3) == "   ";
    assert Repeat(' ', 4) == "    " && Repeat(' ', 5) == "     ";
    hide Repeat;
  }

  /** 255 in the alternative form with upper-case digits. */
  lemma PrefixLower()
    ensures var f := Format(false, true, 16, true, false, ' ', 0, None);
      CodeField(f, 255, "FF") == "0xFF" && StandardField(f, 255, "FF") == "0XFF"
  {
    NoPadding(' ', -4);
    NoPadding('0', -1);
    hide Repeat;
  }

  /** Its length is the larger of the width and the natural length. */
  lemma FieldLength(pre: seq<char>, t: seq<char>, ladjust: bool, padc: char, width: nat)
    ensures |Field(pre, t, ladjust, padc, width)| == Max(width, |pre| + |t|)
  {
    RepeatLength(padc, width - |pre| - |t|);
  }

  /** Character by character: adjusted to the left, prefix, digits, padding; else with blanks, padding,
      prefix, digits; with zeros, prefix, padding, digits. */
  lemma FieldLayout(pre: seq<char>, t: seq<char>, ladjust: bool, padc: char, width: nat, i: nat)
    requires i < Max(width, |pre| + |t|)
    ensures |Field(pre, t, ladjust, padc, width)| == Max(width, |pre| + |t|)
    ensures var pad, a, b := Max(0, width - |pre| - |t|), |pre|, |t|;
      Field(pre, t, ladjust, padc, width)[i] ==
        if ladjust then (if i < a then pre[i] else if i < a + b then t[i - a] else padc)
        else if padc == '0' then (if i < a then pre[i] else if i < a + pad then '0' else t[i - a - pad])
        else if i < pad then padc else if i < pad + a then pre[i - pad] else t[i - pad - a]
  {
    RepeatAt(padc, width - |pre| - |t|);
    hide Repeat;
  }

  /** The output has grown by the field, by as many characters as the wider of width and content. */
  ghost predicate IsField(res: seq<char>, out: seq<char>, pre: seq<char>, t: seq<char>,
                          ladjust: bool, padc: char, width: nat)
  {
    res == out + Field(pre, t, ladjust, padc, width) && |res| == |out| + Max(width, |pre| + |t|)
  }

  /** The padding loops; the count ends below zero. */
  method Pad(out: seq<char>, padc: char, width: int) returns (res: seq<char>, left: int)
    requires width > 0
    ensures res == out + Repeat(padc, width) && left == -1
  {
    res, left := out, width;
    while left != 0
      invariant 0 <= left <= width && res == out + Repeat(padc, width - left)
      decreases left
    {
      res := res + [padc];
      left := left - 1;
    }
    left := left - 1;
  }

  /** One of the places where `kvprintf` may pad. */
  method PadIf(out: seq<char>, here: bool, padc: char, width: int, tmp: nat) returns (res: seq<char>, w: int)
    ensures res == out + if here then Repeat(padc, width - tmp) else []
    ensures w == if !here || width == 0 then width else if width > tmp then -1 else width - tmp
  {
    hide Repeat;
    NoPadding(padc, width - tmp);
    res, w := out, width;
    if here && w != 0 {
      w := w - tmp;
      if w > 0 { res, w := Pad(res, padc, w); }
    }
  }

  method EmitPrefix(out: seq<char>, neg: bool, sharp: bool, base: nat, num: nat) returns (res: seq<char>)
    ensures res == out + FieldPrefix(neg, sharp, base, num)
  {
    res := out;
    if neg { res := res + ['-']; }
    if sharp && num != 0 {
      if base == 8 { res := res + ['0']; } else if base == 16 { res := res + ['0'] + ['x']; }
    }
  }

  /** Emits the buffer from place `len` down to its terminator. */
  method EmitDigits(out: seq<char>, nbuf: seq<char>, len: nat) returns (res: seq<char>)
    requires len < |nbuf| && nbuf[0] == '\0' && forall i | 0 < i <= len :: nbuf[i] != '\0'
    ensures res == out + Text(nbuf, len)
  {
    var p := len;
    res := out;
    while nbuf[p] != '\0'
      invariant 0 <= p <= len && res == out + Text(nbuf, len)[..len - p]
      decreases p
    {
      res := res + [nbuf[p]];
      p := p - 1;
    }
  }

  /** The number part of `kvprintf`: what it adds to the output is the field with the numeral of the
      argument's absolute value. */
  method NumberField(out: seq<char>, arg: nat, base: nat, sign: bool, upper: bool, sharp: bool, ladjust: bool,
                     padc: char, width: nat)
    returns (res: seq<char>)
    requires arg < Pow(2, 64) && 2 <= base <= 36
    ensures var neg := sign && arg >= Pow(2, 63);
      var num := if neg then Pow(2, 64) - arg else arg;
      exists t: seq<char> ::
        IsNumeral(t, num, base, upper) && IsField(res, out, FieldPrefix(neg, sharp, base, num), t, ladjust, padc, width)
  {
    hide Pow, IsNumeral, Repeat, FieldPrefix, IsField;
    var neg, num := false, arg;
    if sign && arg >= Pow(2, 63) {
      neg := true;
      num := Pow(2, 64) - arg;
    }
    var nbuf := new char[MAXNBUF];
    var p := Ksprintn(nbuf, num, base, upper);
    var tmp: int := p;
    ghost var t := Text(nbuf[..], p);
    NumeralNonNul(nbuf[..], p, num, base, upper);
    ghost var pre := FieldPrefix(neg, sharp, base, num);
    if sharp && num != 0 {
      if base == 8 { tmp := tmp + 1; } else if base == 16 { tmp := tmp + 2; }
    }
    if neg { tmp := tmp + 1; }
    PrefixLength(neg, sharp, base, num);
    NoPadding(padc, width - tmp);
    NoPadding(padc, -1 - tmp);
    NoPadding(padc, width - tmp - tmp);
    var w;
    res, w := PadIf(out, !ladjust && padc != '0', padc, width, tmp);
    res := EmitPrefix(res, neg, sharp, base, num);
    res, w := PadIf(res, !ladjust, padc, w, tmp);
    res := EmitDigits(res, nbuf[..], p);
    res, w := PadIf(res, ladjust, padc, w, tmp);
    FieldParts(out, pre, t, ladjust, padc, width, res);
  }

  lemma FieldParts(out: seq<char>, pre: seq<char>, t: seq<char>, ladjust: bool, padc: char, width: nat, res: seq<char>)
    requires var pad := Repeat(padc, width - |pre| - |t|);
      res == out + (if !ladjust && padc != '0' then pad else []) + pre
               + (if !ladjust && padc == '0' then pad else []) + t
        + (if ladjust then pad else [])
    ensures IsField(res, out, pre, t, ladjust, padc, width)
  {
    hide Repeat, Field;
    FieldLength(pre, t, ladjust, padc, width);
    FieldIs(out, pre, t, ladjust, padc, width);
  }

  lemma FieldIs(out: seq<char>, pre: seq<char>, t: seq<char>, ladjust: bool, padc: char, width: nat)
    ensures var pad := Repeat(padc, width - |pre| - |t|);
      out + Field(pre, t, ladjust, padc, width) ==
        if ladjust then out + pre + t + pad else if padc == '0' then out + pre + pad + t else out + pad + pre + t
  {
    hide Repeat;
  }

  lemma PrefixLength(neg: bool, sharp: bool, base: nat, num: nat)
    ensures |FieldPrefix(neg, sharp, base, num)| == (if neg then 1 else 0)
      + (if !sharp || num == 0 then 0 else if base == 8 then 1 else if base == 16 then 2 else 0)
  {}

  lemma NoPadding(c: char, n: int)
    ensures n <= 0 ==> Repeat(c, n) == []
  {}

  lemma NumeralNonNul(nbuf: seq<char>, len: nat, num: nat, base: nat, upper: bool)
    requires len < |nbuf| && base <= 36 && IsNumeral(Text(nbuf, len), num, base, upper)
    ensures forall i | 0 < i <= len :: nbuf[i] != '\0'
  {
    hide Val, DigitOf;
    var t := Text(nbuf, len);
    forall i | 0 < i <= len ensures nbuf[i] != '\0' { assert t[len - i] == nbuf[i]; }
  }
}
