/**
 Positional numerals over an arbitrary radix: powers, the value of a digit sequence read
 most-significant-first (big-endian) or least-significant-first (little-endian), the
 fixed-width expansion of a number, and the facts that tie them together.
 */
module Numeral {

  /** A byte as the token generator reads it from its entropy buffer. */
  type Byte = x: nat | x < 256

  function Pow(b: nat, e: nat): nat
  {
    if e == 0 then 1 else b * Pow(b, e - 1)
  }

  /** Every digit of `ds` is a valid digit in radix `b`. */
  predicate AllBelow(ds: seq<nat>, b: nat)
  {
    forall k :: 0 <= k < |ds| ==> ds[k] < b
  }

  function Zeros(n: nat): (z: seq<nat>)
    ensures |z| == n && forall k :: 0 <= k < n ==> z[k] == 0
  {
    seq(n, _ => 0)
  }

  function Reverse(s: seq<nat>): (r: seq<nat>)
    ensures |r| == |s|
    ensures forall k :: 0 <= k < |s| ==> r[k] == s[|s| - 1 - k]
  {
    if s == [] then [] else Reverse(s[1..]) + [s[0]]
  }

  /** The number that `ds` denotes in radix `b`, most significant digit first. */
  function BigEndian(ds: seq<nat>, b: nat): nat
  {
    if ds == [] then 0 else BigEndian(ds[..|ds| - 1], b) * b + ds[|ds| - 1]
  }

  /** The number that `ds` denotes in radix `b`, least significant digit first. */
  function LittleEndian(ds: seq<nat>, b: nat): nat
  {
    if ds == [] then 0 else ds[0] + b * LittleEndian(ds[1..], b)
  }

  /** The `w` lowest radix-`b` digits of `v`, most significant first. */
  function FixedWidth(v: nat, b: nat, w: nat): (ds: seq<nat>)
    requires b >= 2
    ensures |ds| == w && AllBelow(ds, b)
    decreases w
  {
    if w == 0 then [] else FixedWidth(v / b, b, w - 1) + [v % b]
  }

  /** The number of radix-`b` digits `v` needs: the least `n` with `v < b^n`. */
  function NumDigits(v: nat, b: nat): (n: nat)
    requires b >= 2
    ensures v < Pow(b, n)
    ensures n == 0 || Pow(b, n - 1) <= v
  {
    if v == 0 then 0
    else
      var n := 1 + NumDigits(v / b, b);
      QuotientBelow(v, b, Pow(b, n - 1));
      if v / b == 0 then n
      else
        QuotientAtLeast(v, b, Pow(b, n - 2));
        n
  }

  // ---------------------------------------------------------------------------
  // Arithmetic helpers

  lemma MulLeft(b: nat, x: nat, y: nat)
    requires x <= y
    ensures b * x <= b * y
  {
  }

  lemma DivMod(v: nat, b: nat)
    requires b >= 1
    ensures v == (v / b) * b + v % b
  {
  }

  lemma DivModUnique(q: nat, b: nat, r: nat)
    requires r < b
    ensures (q * b + r) / b == q && (q * b + r) % b == r
  {
    var n := q * b + r;
    QuotientBelow(n, b, q + 1);
    QuotientBelow(n, b, q);
    assert n / b == q;
  }

  /** `v / b < p` exactly when `v < b * p`. */
  lemma QuotientBelow(v: nat, b: nat, p: nat)
    requires b >= 1
    ensures v / b < p <==> v < b * p
  {
    if v / b < p {
      MulLeft(b, v / b + 1, p);
    } else {
      MulLeft(b, p, v / b);
    }
  }

  /** `p <= v / b` implies `b * p <= v`. */
  lemma QuotientAtLeast(v: nat, b: nat, p: nat)
    requires b >= 1 && p <= v / b
    ensures b * p <= v
  {
    MulLeft(b, p, v / b);
  }

  /** Quotient and remainder put back together, each scaled by `p`. */
  lemma ScaleSplit(t: nat, b: nat, p: nat)
    requires b >= 1
    ensures (t % b) * p + (t / b) * (b * p) == t * p
  {
    var q, r := t / b, t % b;
    assert t == q * b + r;
    assert q * (b * p) == (q * b) * p;
    assert r * p + (q * b) * p == (r + q * b) * p;
  }

  lemma QuotientShrinks(c: nat, b: nat)
    requires c > 0 && b >= 2
    ensures c / b < c
    ensures c / b == 0 ==> c % b == c
  {
    QuotientBelow(c, b, c);
    MulLeft(c, 2, b);
  }

  lemma MulRotate(a: nat, x: nat, y: nat)
    ensures a * (x * y) == x * (a * y)
  {
  }

  lemma MulSucc(m: nat, k: nat)
    ensures m * (k + 1) == m * k + m
  {
  }

  lemma Distribute(a: nat, x: nat, y: nat)
    ensures a * (x + y) == a * x + a * y
  {
  }

  // ---------------------------------------------------------------------------
  // Powers

  lemma PowSucc(b: nat, n: nat)
    ensures Pow(b, n + 1) == b * Pow(b, n)
  {
  }

  lemma {:induction false} PowPositive(b: nat, e: nat)
    requires b >= 1
    ensures Pow(b, e) >= 1
  {
    if e > 0 {
      PowPositive(b, e - 1);
      MulLeft(b, 1, Pow(b, e - 1));
    }
  }

  lemma {:induction false} PowStrictlyIncreasing(b: nat, m: nat, n: nat)
    requires b >= 2 && m < n
    ensures Pow(b, m) < Pow(b, n)
  {
    PowPositive(b, n - 1);
    if m < n - 1 {
      PowStrictlyIncreasing(b, m, n - 1);
    }
    MulLeft(b - 1, 1, Pow(b, n - 1));
  }

  lemma {:induction false} PowAdd(b: nat, m: nat, n: nat)
    ensures Pow(b, m + n) == Pow(b, m) * Pow(b, n)
  {
    if n > 0 {
      PowAdd(b, m, n - 1);
      var x, y := Pow(b, m), Pow(b, n - 1);
      assert Pow(b, m + n) == b * (x * y);
      MulRotate(b, x, y);
    }
  }

  lemma {:induction false} PowMul(b: nat, m: nat, n: nat)
    ensures Pow(b, m * n) == Pow(Pow(b, m), n)
  {
    if n > 0 {
      var k, x := n - 1, Pow(b, m);
      PowMul(b, m, k);
      MulSucc(m, k);
      PowAdd(b, m * k, m);
      assert Pow(b, m * n) == Pow(b, m * k) * x;
      assert Pow(x, n) == x * Pow(x, k);
    }
  }

  // ---------------------------------------------------------------------------
  // Big-endian values and fixed-width expansions

  lemma {:induction false} BigEndianBound(ds: seq<nat>, b: nat)
    requires b >= 1 && AllBelow(ds, b)
    ensures BigEndian(ds, b) < Pow(b, |ds|)
  {
    if ds != [] {
      var init := ds[..|ds| - 1];
      BigEndianBound(init, b);
      var v, p, d := BigEndian(init, b), Pow(b, |init|), ds[|ds| - 1];
      MulLeft(b, v + 1, p);
      Distribute(b, v, 1);
      assert BigEndian(ds, b) == v * b + d;
      assert v * b + d < b * (v + 1);
      assert Pow(b, |ds|) == b * p;
    }
  }

  /** A number below `b^w` survives the trip through its `w`-digit expansion. */
  lemma {:induction false} FixedWidthValue(v: nat, b: nat, w: nat)
    requires b >= 2 && v < Pow(b, w)
    ensures BigEndian(FixedWidth(v, b, w), b) == v
    decreases w
  {
    if w > 0 {
      var q, r := v / b, v % b;
      var ds, init := FixedWidth(v, b, w), FixedWidth(q, b, w - 1);
      assert ds == init + [r];
      assert ds[..w - 1] == init && ds[w - 1] == r;
      assert q < Pow(b, w - 1) by {
        assert v < b * Pow(b, w - 1);
        QuotientBelow(v, b, Pow(b, w - 1));
      }
      FixedWidthValue(q, b, w - 1);
      var high := BigEndian(init, b);
      assert BigEndian(ds, b) == high * b + r;
      assert high == q;
      DivMod(v, b);
    } else {
      assert v == 0;
    }
  }

  /** A digit sequence is the fixed-width expansion of its own value. */
  lemma {:induction false} FixedWidthOfBigEndian(ds: seq<nat>, b: nat)
    requires b >= 2 && AllBelow(ds, b)
    ensures FixedWidth(BigEndian(ds, b), b, |ds|) == ds
  {
    if ds != [] {
      var init, last := ds[..|ds| - 1], ds[|ds| - 1];
      DivModUnique(BigEndian(init, b), b, last);
      FixedWidthOfBigEndian(init, b);
      assert ds == init + [last];
    }
  }

  lemma {:induction false} FixedWidthOfZero(b: nat, w: nat)
    requires b >= 2
    ensures FixedWidth(0, b, w) == Zeros(w)
  {
    if w > 0 {
      FixedWidthOfZero(b, w - 1);
    }
  }

  /** Widening an expansion only adds zero digits on the most significant side. */
  lemma {:induction false} FixedWidthPad(v: nat, b: nat, w: nat, k: nat)
    requires b >= 2 && v < Pow(b, w)
    ensures FixedWidth(v, b, w + k) == Zeros(k) + FixedWidth(v, b, w)
    decreases w
  {
    if w == 0 {
      FixedWidthOfZero(b, k);
    } else {
      QuotientBelow(v, b, Pow(b, w - 1));
      FixedWidthPad(v / b, b, w - 1, k);
      assert w + k - 1 == (w - 1) + k;
    }
  }

  /** A run of zero digits denotes zero. */
  lemma {:induction false} BigEndianOfZeros(n: nat, b: nat)
    ensures BigEndian(Zeros(n), b) == 0
  {
    if n > 0 {
      assert Zeros(n)[..n - 1] == Zeros(n - 1);
      BigEndianOfZeros(n - 1, b);
    }
  }

  /** A leading zero digit does not change a big-endian value. */
  lemma {:induction false} BigEndianLeadingZero(ds: seq<nat>, b: nat)
    ensures BigEndian([0] + ds, b) == BigEndian(ds, b)
  {
    if ds != [] {
      assert ([0] + ds)[..|ds|] == [0] + ds[..|ds| - 1];
      BigEndianLeadingZero(ds[..|ds| - 1], b);
    }
  }

  // ---------------------------------------------------------------------------
  // Little-endian digit arrays, as the converter builds them

  lemma {:induction false} LittleEndianAppend(ds: seq<nat>, d: nat, b: nat)
    ensures LittleEndian(ds + [d], b) == LittleEndian(ds, b) + d * Pow(b, |ds|)
  {
    if ds != [] {
      var tail := ds[1..];
      assert (ds + [d])[1..] == tail + [d];
      LittleEndianAppend(tail, d, b);
      var r, q := LittleEndian(tail, b), Pow(b, |tail|);
      assert LittleEndian(ds + [d], b) == ds[0] + b * (r + d * q);
      Distribute(b, r, d * q);
      MulRotate(b, d, q);
    }
  }

  lemma {:induction false} LittleEndianBound(ds: seq<nat>, b: nat)
    requires b >= 1 && AllBelow(ds, b)
    ensures LittleEndian(ds, b) < Pow(b, |ds|)
  {
    if ds != [] {
      LittleEndianBound(ds[1..], b);
      MulLeft(b, LittleEndian(ds[1..], b) + 1, Pow(b, |ds| - 1));
    }
  }

  /**
   A digit array without leading zeros: a single digit, or a non-zero most significant digit.
   */
  predicate Canonical(ds: seq<nat>)
  {
    |ds| >= 1 && (|ds| == 1 || ds[|ds| - 1] != 0)
  }

  /** A digit array of `n >= 2` digits with a non-zero top digit denotes at least `b^(n-1)`. */
  lemma CanonicalLowerBound(ds: seq<nat>, b: nat)
    requires |ds| >= 2 && Canonical(ds)
    ensures Pow(b, |ds| - 1) <= LittleEndian(ds, b)
  {
    var init := ds[..|ds| - 1];
    assert ds == init + [ds[|ds| - 1]];
    LittleEndianAppend(init, ds[|ds| - 1], b);
    MulLeft(Pow(b, |init|), 1, ds[|ds| - 1]);
  }

  /** A digit array whose value reaches `b^(n-1)` has a non-zero top digit. */
  lemma TopDigitNonZero(ds: seq<nat>, b: nat)
    requires |ds| >= 2 && b >= 1 && AllBelow(ds, b)
    requires Pow(b, |ds| - 1) <= LittleEndian(ds, b)
    ensures ds[|ds| - 1] != 0
  {
    var init := ds[..|ds| - 1];
    assert ds == init + [ds[|ds| - 1]];
    LittleEndianAppend(init, ds[|ds| - 1], b);
    LittleEndianBound(init, b);
  }

  /**
   Reading a little-endian digit array most-significant-first and padding it on the left with
   zeros gives the fixed-width expansion of its value.
   */
  lemma {:induction false} FixedWidthOfLittleEndian(ds: seq<nat>, b: nat, w: nat)
    requires b >= 2 && AllBelow(ds, b) && |ds| <= w
    ensures FixedWidth(LittleEndian(ds, b), b, w) == Zeros(w - |ds|) + Reverse(ds)
  {
    if ds == [] {
      FixedWidthOfZero(b, w);
    } else {
      var rest := LittleEndian(ds[1..], b);
      assert LittleEndian(ds, b) == rest * b + ds[0];
      DivModUnique(rest, b, ds[0]);
      FixedWidthOfLittleEndian(ds[1..], b, w - 1);
      assert w - 1 - |ds[1..]| == w - |ds|;
    }
  }
}
