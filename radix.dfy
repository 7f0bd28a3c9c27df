/** Positional notation. toString and parse, the byte codecs and base64
    all read and write a number as a sequence of digits in some base, most
    significant digit first; only the base and the alphabet differ. Digits
    here are plain numbers; each codec spells them with its own alphabet. */
module Radix {
  import opened Numbers

  /** The value of the digits ds in base b, most significant first
      (the accumulation retval = retval * b + digit of parse). */
  function Horner(ds: seq<nat>, b: nat): nat
  {
    if |ds| == 0 then 0 else Horner(ds[..|ds| - 1], b) * b + ds[|ds| - 1]
  }

  /** Every digit is a digit of base b. */
  predicate Below(ds: seq<nat>, b: nat)
  {
    forall i :: 0 <= i < |ds| ==> ds[i] < b
  }

  /** The digits of v in base b, most significant first, without leading
      zeros; zero is the single digit 0. */
  function Expansion(v: nat, b: nat): (r: seq<nat>)
    requires b >= 2
    ensures |r| >= 1 && Below(r, b)
    ensures r[0] == 0 <==> v == 0
    ensures |r| == 1 <==> v < b
    decreases v
  {
    DigitSplit(v, b);
    if v < b then [v] else Expansion(v / b, b) + [v % b]
  }

  /** v is (v / b) * b + v % b with a digit v % b, and the quotient of a
      number of at least two digits is positive and smaller. */
  lemma DigitSplit(v: nat, b: nat)
    requires b >= 2
    ensures v == v / b * b + v % b && 0 <= v % b < b && v / b >= 0
    ensures v >= b ==> v / b >= 1
    ensures v > 0 ==> v / b < v
    ensures v < b ==> v / b == 0 && v % b == v
  {
    var q := v / b;
    if v < b {
      DivModUnique(v, b, 0, v);
    }
    if v > 0 {
      MulLeftMonotone(q, 2, b);
    }
  }

  /** Reading the expansion back gives the number. */
  lemma {:induction false} ExpansionValue(v: nat, b: nat)
    requires b >= 2
    ensures Horner(Expansion(v, b), b) == v
    decreases v
  {
    DigitSplit(v, b);
    if v >= b {
      var e := Expansion(v / b, b);
      ExpansionValue(v / b, b);
      assert (e + [v % b])[..|e|] == e;
    }
  }

  /** Digits without a leading zero are the expansion of their value: the
      expansion is the only such spelling of a number. */
  lemma {:induction false} ExpansionUnique(ds: seq<nat>, b: nat)
    requires b >= 2 && |ds| >= 1 && Below(ds, b) && (|ds| > 1 ==> ds[0] != 0)
    ensures ds == Expansion(Horner(ds, b), b)
  {
    var n := |ds|;
    var d := ds[n - 1];
    if n == 1 {
      assert ds[..0] == [];
    } else {
      var p := ds[..n - 1];
      ExpansionUnique(p, b);
      var h := Horner(p, b);
      assert h != 0;
      MulLeftMonotone(b, 1, h);
      DivModUnique(h * b + d, b, h, d);
      assert ds == p + [d];
      assert Horner(ds, b) == h * b + d;
      assert h * b + d >= b;
    }
  }

  /** The digits of v in base b, least significant first; none for zero.
      This is the order toString and toBase64 produce digits in. */
  function LowFirst(v: nat, b: nat): (r: seq<nat>)
    requires b >= 2
    ensures Below(r, b)
    decreases v
  {
    DigitSplit(v, b);
    if v == 0 then [] else [v % b] + LowFirst(v / b, b)
  }

  /** Exactly k digits of x, least significant first, zeros included: the
      digits toString emits for one block. */
  function FixedLow(x: nat, k: nat, b: nat): (r: seq<nat>)
    requires b >= 2
    ensures |r| == k && Below(r, b)
  {
    DigitSplit(x, b);
    if k == 0 then [] else [x % b] + FixedLow(x / b, k - 1, b)
  }

  /** Splitting a number into a block of k low digits and the rest. */
  lemma {:induction false} BlockDigits(q: nat, r: nat, k: nat, b: nat)
    requires b >= 2 && q > 0 && r < Pow(b, k)
    ensures LowFirst(q * Pow(b, k) + r, b) == FixedLow(r, k, b) + LowFirst(q, b)
  {
    if k > 0 {
      var p := Pow(b, k - 1);
      var v := q * Pow(b, k) + r;
      PowPositive(b, k - 1);
      DigitSplit(r, b);
      DivBound(r, b, p);
      BlockSplit(v, q, p, r, r / b, r % b, b);
      DivModUnique(v, b, q * p + r / b, r % b);
      BlockDigits(q, r / b, k - 1, b);
    }
  }

  lemma BlockSplit(v: nat, q: nat, p: nat, r: nat, rq: nat, rd: nat, b: nat)
    requires v == q * (b * p) + r && r == rq * b + rd
    ensures v == (q * p + rq) * b + rd
  {
  }

  /** The reversal of a sequence. */
  function Reverse<T>(s: seq<T>): (r: seq<T>)
    ensures |r| == |s|
  {
    if |s| == 0 then [] else Reverse(s[1..]) + [s[0]]
  }

  lemma {:induction false} ReverseAt<T>(s: seq<T>, i: nat)
    requires i < |s|
    ensures Reverse(s)[i] == s[|s| - 1 - i]
  {
    if i < |s| - 1 {
      ReverseAt(s[1..], i);
    }
  }

  lemma ReverseCons<T>(x: T, s: seq<T>)
    ensures Reverse([x] + s) == Reverse(s) + [x]
  {
    assert ([x] + s)[1..] == s;
  }

  /** The low-first digits of a positive number, reversed, are its
      expansion. */
  lemma {:induction false} ReverseLowFirst(v: nat, b: nat)
    requires b >= 2 && v > 0
    ensures Reverse(LowFirst(v, b)) == Expansion(v, b)
    decreases v
  {
    DigitSplit(v, b);
    var q, d := v / b, v % b;
    var low := LowFirst(v, b);
    assert low == [d] + LowFirst(q, b);
    ReverseCons(d, LowFirst(q, b));
    if v >= b {
      ReverseLowFirst(q, b);
      assert Expansion(v, b) == Expansion(q, b) + [d];
    } else {
      assert q == 0 && d == v;
    }
  }

  /** A leading digit weighs b to the number of digits after it. */
  lemma {:induction false} HornerCons(x: nat, ds: seq<nat>, b: nat)
    ensures Horner([x] + ds, b) == x * Pow(b, |ds|) + Horner(ds, b)
  {
    if |ds| > 0 {
      var p, d := ds[..|ds| - 1], ds[|ds| - 1];
      HornerCons(x, p, b);
      assert ([x] + ds)[..|ds|] == [x] + p;
      assert Horner([x] + ds, b) == Horner([x] + p, b) * b + d;
      assert Pow(b, |ds|) == b * Pow(b, |p|);
      MulAssoc(x, Pow(b, |p|), b);
    }
  }
}
