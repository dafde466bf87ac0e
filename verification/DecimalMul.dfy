/** Schoolbook multiplication of decimal digit strings, most significant digit
    first. The cursor helpers the code calls are not part of the repository:
    here a cursor that falls off the front stays there, reads 0 and writes
    nothing, and one that moves past the last digit stands behind it. */
module DecimalMul {
  function Pow10(n: nat): (p: nat)
    ensures p > 0
  {
    if n == 0 then 1 else 10 * Pow10(n - 1)
  }

  predicate Digits(s: seq<nat>) { forall i :: 0 <= i < |s| ==> s[i] < 10 }

  /** The k-th digit from the end; 0 in front of the first one. */
  function DigitAt(s: seq<nat>, k: nat): nat { if k < |s| then s[|s| - 1 - k] else 0 }

  /** The value of the k lowest digits. */
  function Low(s: seq<nat>, k: nat): nat {
    if k == 0 then 0 else Low(s, k - 1) + DigitAt(s, k - 1) * Pow10(k - 1)
  }

  function Val(s: seq<nat>): nat { Low(s, |s|) }

  // ------------------------------------------------------------ arithmetic

  lemma {:induction false} Pow10Sum(m: nat, n: nat)
    ensures Pow10(m + n) == Pow10(m) * Pow10(n)
  {
    if m > 0 { Pow10Sum(m - 1, n); }
  }

  lemma {:induction false} Pow10Grows(m: nat, n: nat)
    requires m <= n
    ensures Pow10(m) <= Pow10(n)
    decreases n - m
  {
    if m < n { Pow10Grows(m, n - 1); }
  }

  lemma {:induction false} LowBound(s: seq<nat>, k: nat)
    requires Digits(s)
    ensures Low(s, k) < Pow10(k)
  {
    if k > 0 {
      LowBound(s, k - 1);
      Times(DigitAt(s, k - 1), 9, Pow10(k - 1));
    }
  }

  lemma Times(a: nat, b: nat, p: nat)
    requires a <= b
    ensures a * p <= b * p
  {
  }

  /** In front of the first digit nothing is added. */
  lemma {:induction false} LowAbove(s: seq<nat>, k: nat)
    requires k >= |s|
    ensures Low(s, k) == Val(s)
    decreases k
  {
    if k > |s| { LowAbove(s, k - 1); }
  }

  lemma {:induction false} LowGrows(s: seq<nat>, m: nat, n: nat)
    requires m <= n
    ensures Low(s, m) <= Low(s, n)
    decreases n - m
  {
    if m < n { LowGrows(s, m, n - 1); }
  }

  /** The lowest k digits are the last k places. */
  lemma {:induction false} LowSame(s: seq<nat>, t: seq<nat>, k: nat)
    requires |s| == |t| && forall i :: 0 <= i < |s| && |s| - k <= i ==> s[i] == t[i]
    ensures Low(s, k) == Low(t, k)
    decreases k
  {
    if k > 0 { LowSame(s, t, k - 1); }
  }

  /** Digits in front that are the same add the same. */
  lemma {:induction false} HighSame(s: seq<nat>, t: seq<nat>, k: nat, n: nat)
    requires |s| == |t| && k <= n && forall i :: 0 <= i < |s| - k ==> s[i] == t[i]
    ensures Low(s, n) - Low(s, k) == Low(t, n) - Low(t, k)
    decreases n - k
  {
    if k < n { HighSame(s, t, k, n - 1); }
  }

  lemma {:induction false} ZerosInFront(s: seq<nat>, k: nat, n: nat)
    requires k <= n && forall i :: k <= i < n ==> DigitAt(s, i) == 0
    ensures Low(s, n) == Low(s, k)
    decreases n - k
  {
    if k < n { ZerosInFront(s, k, n - 1); }
  }

  // ------------------------------------------------------------- one digit

  /** Product, accumulator and carry in one step; the carry stays a digit. */
  method MulChar(carry: nat, acc: nat, c1: nat, c2: nat) returns (high: nat, low: nat)
    requires carry < 10 && acc < 10 && c1 < 10 && c2 < 10
    ensures 10 * high + low == c1 * c2 + carry + acc && high < 10 && low < 10
  {
    Times(c1, 9, c2);
    var i := c1 * c2 + carry + acc;
    high, low := i / 10, i % 10;
  }

  /** An operand times one digit, `j` places up. */
  function Shifted(part: nat, c: nat, j: nat): nat { part * c * Pow10(j) }

  lemma Spread(d: nat, q: nat, c: nat, r: nat)
    ensures d * q * c * r == d * c * (q * r)
  {
    assert d * q * c == d * c * q;
    Associate(d * c, q, r);
  }

  lemma Associate(a: nat, b: nat, c: nat)
    ensures a * b * c == a * (b * c)
  {
  }

  lemma Distribute(a: nat, b: nat, c: nat)
    ensures (a + b) * c == a * c + b * c
  {
  }

  /** One more digit of the operand. */
  lemma ShiftedStep(part: nat, d: nat, c: nat, m: nat, j: nat)
    ensures Shifted(part + d * Pow10(m), c, j) == Shifted(part, c, j) + d * c * Pow10(m + j)
  {
    var q, r := Pow10(m), Pow10(j);
    Pow10Sum(m, j);
    hide Pow10;
    Distribute(part, d * q, c);
    Distribute(part * c, d * q * c, r);
    Spread(d, q, c, r);
  }

  lemma ShiftedGrows(part: nat, more: nat, c: nat, j: nat)
    requires part <= more
    ensures Shifted(part, c, j) <= Shifted(more, c, j)
  {
    Times(part, more, c);
    Times(part * c, more * c, Pow10(j));
  }

  /** A digit and a carry out of a digit sum. */
  lemma CarryStep(high: nat, low: nat, product: nat, carry: nat, acc: nat, p: nat)
    requires 10 * high + low == product + carry + acc
    ensures low * p + high * (10 * p) == product * p + carry * p + acc * p
  {
    assert high * (10 * p) == 10 * high * p;
    Distribute(low, 10 * high, p);
    Distribute(product, carry, p);
    Distribute(product + carry, acc, p);
  }

  /** What one step of a row keeps: digits written, plus carry, is the old value
      plus the part of the operand multiplied so far. */
  lemma RowStep(written: nat, old0: nat, part: nat, c: nat, carry: nat, acc: nat, d: nat, high: nat, low: nat,
                m: nat, j: nat)
    requires written + carry * Pow10(m + j) == old0 + Shifted(part, c, j)
    requires 10 * high + low == d * c + carry + acc
    ensures written + low * Pow10(m + j) + high * Pow10(m + j + 1) ==
            old0 + acc * Pow10(m + j) + Shifted(part + d * Pow10(m), c, j)
  {
    ShiftedStep(part, d, c, m, j);
    CarryStep(high, low, d * c, carry, acc, Pow10(m + j));
    assert Pow10(m + j + 1) == 10 * Pow10(m + j);
    hide Shifted, Pow10;
  }

  // ---------------------------------------------------------------- one row

  /** How far a row is: `k = m + j` places of `s` are written. */
  predicate RowDone(s: seq<nat>, was: seq<nat>, s1: seq<nat>, c: nat, carry: nat, m: nat, j: nat) {
    && |s| == |was| && m + j <= |s| && Digits(s) && carry < 10
    && Low(s, m + j) + carry * Pow10(m + j) == Low(was, m + j) + Shifted(Low(s1, m), c, j)
    && forall i :: 0 <= i < |s| - (m + j) ==> s[i] == was[i]
  }

  lemma RowStart(s: seq<nat>, s1: seq<nat>, c: nat, j: nat)
    requires Digits(s) && j <= |s|
    ensures RowDone(s, s, s1, c, 0, 0, j)
  {
  }

  lemma RowNext(s: seq<nat>, was: seq<nat>, s1: seq<nat>, c: nat, carry: nat, m: nat, j: nat, high: nat, low: nat)
    requires RowDone(s, was, s1, c, carry, m, j) && m + j < |s| && high < 10 && low < 10
    requires 10 * high + low == DigitAt(s1, m) * c + carry + DigitAt(s, m + j)
    ensures RowDone(s[|s| - 1 - (m + j) := low], was, s1, c, high, m + 1, j)
  {
    var k := m + j;
    var t := s[|s| - 1 - k := low];
    LowSame(s, t, k);
    assert DigitAt(t, k) == low && DigitAt(was, k) == DigitAt(s, k);
    RowStep(Low(s, k), Low(was, k), Low(s1, m), c, carry, DigitAt(s, k), DigitAt(s1, m), high, low, m, j);
    assert m + 1 + j == k + 1;
  }

  /** When the carry is used up behind the last digit, the row has been added. */
  lemma RowEnd(s: seq<nat>, was: seq<nat>, s1: seq<nat>, c: nat, m: nat, j: nat)
    requires RowDone(s, was, s1, c, 0, m, j) && m >= |s1|
    ensures Val(s) == Val(was) + Shifted(Val(s1), c, j)
  {
    LowAbove(s1, m);
    HighSame(s, was, m + j, |s|);
  }

  /** When the row reaches the front, nothing can be left over. */
  lemma RowFront(s: seq<nat>, was: seq<nat>, s1: seq<nat>, c: nat, carry: nat, m: nat, j: nat)
    requires RowDone(s, was, s1, c, carry, m, j) && m + j == |s|
    requires Val(was) + Shifted(Val(s1), c, j) < Pow10(|s|)
    ensures carry == 0 && Val(s) == Val(was) + Shifted(Val(s1), c, j)
  {
    var n := if |s1| > m then |s1| else m;
    LowAbove(s1, n);
    LowGrows(s1, m, n);
    hide Low, Shifted, Pow10;
    ShiftedGrows(Low(s1, m), Val(s1), c, j);
    NoCarry(carry, Pow10(|s|), Low(s, m + j));
    NothingAbove(s1, c, m, j, n);
  }

  lemma NoCarry(carry: nat, p: nat, written: nat)
    requires written + carry * p < p
    ensures carry == 0
  {
    if carry > 0 { Times(1, carry, p); }
  }

  /** Digits beyond the front of the result are zero, or are multiplied by zero. */
  lemma NothingAbove(s1: seq<nat>, c: nat, m: nat, j: nat, n: nat)
    requires m <= n && Low(s1, n) == Val(s1) && Shifted(Val(s1), c, j) < Pow10(m + j)
    ensures Shifted(Low(s1, m), c, j) == Shifted(Val(s1), c, j)
  {
    if c > 0 {
      if Val(s1) >= Pow10(m) {
        ShiftedGrows(Pow10(m), Val(s1), c, j);
        ShiftedPower(m, c, j);
      }
      hide Shifted, Pow10, Low;
      SmallIsLow(s1, m, n);
    }
  }

  lemma ShiftedPower(m: nat, c: nat, j: nat)
    requires c > 0
    ensures Shifted(Pow10(m), c, j) >= Pow10(m + j)
  {
    Pow10Sum(m, j);
    hide Pow10;
    Times(1, c, Pow10(m) * Pow10(j));
    assert Pow10(m) * c == c * Pow10(m);
    Associate(c, Pow10(m), Pow10(j));
  }

  lemma {:induction false} SmallIsLow(s: seq<nat>, m: nat, n: nat)
    requires m <= n && Low(s, n) < Pow10(m)
    ensures Low(s, m) == Low(s, n)
    decreases n - m
  {
    if m < n {
      Pow10Grows(m, n - 1);
      if DigitAt(s, n - 1) > 0 { Times(1, DigitAt(s, n - 1), Pow10(n - 1)); }
      SmallIsLow(s, m, n - 1);
    }
  }

  /** Adds one digit's multiple of the operand at the cursor; returns the carry. */
  method AddRow(s: array<nat>, s1: seq<nat>, start: int, c: nat) returns (carry: nat)
    requires Digits(s1) && s1 != [] && Digits(s[..]) && c < 10 && -1 <= start < s.Length
    requires start < 0 ==> c == 0
    requires start >= 0 ==> Val(s[..]) + Shifted(Val(s1), c, s.Length - 1 - start) < Pow10(s.Length)
    modifies s
    ensures carry == 0 && Digits(s[..])
    ensures start < 0 ==> s[..] == old(s[..])
    ensures start >= 0 ==> Val(s[..]) == Val(old(s[..])) + Shifted(Val(s1), c, s.Length - 1 - start)
  {
    hide Low, Val, Shifted, Pow10, RowDone;
    ghost var was := s[..];
    ghost var m, j: nat := 0, if start >= 0 then s.Length - 1 - start else 0;
    RowStart(was, s1, c, j);
    carry := 0;
    var p, p1 := start, |s1| - 1;
    while true
      invariant Digits(s[..]) && carry < 10 && -1 <= p1 < |s1|
      invariant p1 == if m < |s1| then |s1| - 1 - m else -1
      invariant start < 0 ==> p == -1 && m == 0 && carry == 0 && s[..] == was
      invariant start >= 0 ==> p == start - m && p >= 0 && RowDone(s[..], was, s1, c, carry, m, j)
      decreases p
    {
      var acc := if p >= 0 then s[p] else 0;
      var d := if p1 >= 0 then s1[p1] else 0;
      var high, low := MulChar(carry, acc, d, c);
      if p >= 0 {
        RowNext(s[..], was, s1, c, carry, m, j, high, low);
        assert s.Length - 1 - (m + j) == p;
        ghost var t := s[..][p := low];
        s[p] := low;
        assert s[..] == t;
        RowDigits(t, was, s1, c, high, m + 1, j);
      }
      carry := high;
      if p <= 0 {
        if p == 0 { RowFront(s[..], was, s1, c, carry, m + 1, j); }
        break;
      }
      p, m := p - 1, m + 1;
      if p1 <= 0 {
        p1 := -1;
        if carry == 0 {
          RowEnd(s[..], was, s1, c, m, j);
          break;
        }
      } else {
        p1 := p1 - 1;
      }
    }
  }

  lemma RowDigits(s: seq<nat>, was: seq<nat>, s1: seq<nat>, c: nat, carry: nat, m: nat, j: nat)
    requires RowDone(s, was, s1, c, carry, m, j)
    ensures Digits(s)
  {
  }

  // ------------------------------------------------------------ whole product

  /** Counts the zeros the operands start with. */
  method LeadingZeros(s: seq<nat>) returns (n: nat)
    ensures n <= |s| && (forall i :: 0 <= i < n ==> s[i] == 0) && (n < |s| ==> s[n] != 0)
  {
    n := 0;
    while n < |s| && s[n] == 0
      invariant n <= |s| && forall i :: 0 <= i < n ==> s[i] == 0
    {
      n := n + 1;
    }
  }

  lemma ValueBound(s: seq<nat>, zeros: nat)
    requires Digits(s) && zeros <= |s| && forall i :: 0 <= i < zeros ==> s[i] == 0
    ensures Val(s) < Pow10(|s| - zeros)
  {
    ZerosInFront(s, |s| - zeros, |s|);
    LowBound(s, |s| - zeros);
  }

  lemma ProductBound(a: nat, b: nat, m: nat, n: nat)
    requires a < Pow10(m) && b < Pow10(n)
    ensures a * b < Pow10(m + n + 1)
  {
    Pow10Sum(m, n);
    Times(a, Pow10(m), b);
    Times(b, Pow10(n), Pow10(m));
    assert Pow10(m + n + 1) == 10 * Pow10(m + n);
  }

  /** A row adds the operand times the next digit of the other operand. */
  lemma NextDigit(a: nat, s2: seq<nat>, j: nat)
    ensures a * Low(s2, j) + Shifted(a, DigitAt(s2, j), j) == a * Low(s2, j + 1)
  {
    var d, r := DigitAt(s2, j), Pow10(j);
    Associate(a, d, r);
    Distribute(Low(s2, j), d * r, a);
    assert Low(s2, j + 1) == Low(s2, j) + d * r;
    assert (Low(s2, j) + d * r) * a == a * Low(s2, j + 1);
    assert d * r * a == a * (d * r);
  }

  lemma TimesLeft(a: nat, b: nat, c: nat)
    requires b <= c
    ensures a * b <= a * c
  {
  }

  lemma RowFits(a: nat, s2: seq<nat>, j: nat, bound: nat)
    requires j < |s2| && a * Val(s2) < bound
    ensures a * Low(s2, j) + Shifted(a, DigitAt(s2, j), j) < bound
  {
    hide Low, Shifted, Val;
    NextDigit(a, s2, j);
    LowGrows(s2, j + 1, |s2|);
    ValIsLow(s2);
    TimesLeft(a, Low(s2, j + 1), Val(s2));
  }

  lemma NothingToAdd(a: nat, j: nat)
    ensures Shifted(a, 0, j) == 0
  {
    assert a * 0 == 0;
  }

  lemma {:induction false} AllZeros(s: seq<nat>, k: nat)
    requires forall i :: 0 <= i < |s| ==> s[i] == 0
    ensures Low(s, k) == 0
  {
    if k > 0 { AllZeros(s, k - 1); }
  }

  /** The digits of the product of two digit strings of any length. */
  method Mul(s1: seq<nat>, s2: seq<nat>) returns (s: array<nat>)
    requires Digits(s1) && Digits(s2) && s1 != [] && s2 != []
    ensures fresh(s) && Digits(s[..]) && Val(s[..]) == Val(s1) * Val(s2)
  {
    hide Low, Val, Shifted, Pow10;
    var z1 := LeadingZeros(s1);
    var z2 := LeadingZeros(s2);
    var size := (|s1| - z1) + (|s2| - z2) + 1;
    ValueBound(s1, z1);
    ValueBound(s2, z2);
    ProductBound(Val(s1), Val(s2), |s1| - z1, |s2| - z2);
    s := new nat[size](_ => 0);
    ghost var j := 0;
    ProductStart(s[..], Val(s1), s2);
    var pos, p2 := size - 1, |s2| - 1;
    while true
      invariant 0 <= p2 < |s2| && j == |s2| - 1 - p2 && pos == if j < size then size - 1 - j else -1
      invariant Digits(s[..]) && Val(s[..]) == Val(s1) * Low(s2, j)
      decreases p2
    {
      var c := s2[p2];
      RowFits(Val(s1), s2, j, Pow10(size));
      NextDigit(Val(s1), s2, j);
      NothingToAdd(Val(s1), j);
      var carry := AddRow(s, s1, pos, c);
      j := j + 1;
      if p2 == 0 {
        ValIsLow(s2);
        break;
      }
      p2 := p2 - 1;
      pos := if pos > 0 then pos - 1 else -1;
    }
  }

  lemma ProductStart(s: seq<nat>, a: nat, s2: seq<nat>)
    requires forall i :: 0 <= i < |s| ==> s[i] == 0
    ensures Digits(s) && Val(s) == a * Low(s2, 0)
  {
    AllZeros(s, |s|);
  }

  lemma ValIsLow(s: seq<nat>)
    ensures Val(s) == Low(s, |s|)
  {
  }

  // ------------------------------------------------------------- digit strings

  /** A digit string is its digits: one more digit behind it is ten times the
      value and the digit. */
  lemma ValMore(s: seq<nat>, d: nat)
    ensures Val([]) == 0 && Val(s + [d]) == 10 * Val(s) + d
  {
    LowShift(s, d, |s|);
  }

  lemma {:induction false} LowShift(s: seq<nat>, d: nat, k: nat)
    requires k <= |s|
    ensures Low(s + [d], k + 1) == 10 * Low(s, k) + d
  {
    if k > 0 {
      LowShift(s, d, k - 1);
      assert DigitAt(s + [d], k) == DigitAt(s, k - 1);
      TenTimes(DigitAt(s, k - 1), Pow10(k - 1));
    }
  }

  lemma TenTimes(d: nat, p: nat)
    ensures d * (10 * p) == 10 * (d * p)
  {
  }

  /** Digit strings of one length with the same value are the same. */
  lemma {:induction false} ValIsInjective(s: seq<nat>, t: seq<nat>)
    requires Digits(s) && Digits(t) && |s| == |t| && Val(s) == Val(t)
    ensures s == t
    decreases |s|
  {
    hide Low;
    if s != [] {
      var n := |s| - 1;
      assert s == s[..n] + [s[n]] && t == t[..n] + [t[n]];
      ValMore(s[..n], s[n]);
      ValMore(t[..n], t[n]);
      ValIsInjective(s[..n], t[..n]);
    }
  }
}
