/** pow, powMod and gcd (bigmath.h:570-628, 646-662): square-and-multiply
    over the bits of the exponent, least significant first, and Euclid's
    remainder loop, all on whole values. */
module NumberTheory {
  import opened Numbers
  import opened Words
  import opened Limbs
  import opened Errors
  import opened Order
  import opened Arith
  import opened Division

  /* ---------- The exponent scan ---------- */

  /** words[k] & (1 << b) != 0: bit b of the word. */
  function TestBit(w: Word, b: nat): (r: bool)
    requires b < BITS
    ensures r <==> (w / Pow2(b)) % 2 == 1
  {
    AndSingleBit(w, b, Pow2(b));
    And(w, Pow2(b)) != 0
  }

  /** words[k] & ~(1 << b): the word with bit b cleared. */
  function ClearBit(w: Word, b: nat): (r: Word)
    requires b < BITS
    ensures r == w - Pow2(b) * ((w / Pow2(b)) % 2)
  {
    Pow2Word();
    PowStrict(2, b, BITS);
    AndClearBit(w, b, BITS, WORD_MAX - Pow2(b));
    OrAndBounds(w, WORD_MAX - Pow2(b));
    And(w, WORD_MAX - Pow2(b))
  }

  /** The bit position the scan has reached: word k, bit b. */
  function Position(k: nat, b: nat): nat
  {
    BITS * k + b
  }

  /** The scan copy e of the exponent E with the bits below position
      (k, b) consumed: it holds E with those bits cleared, and its top word
      is untouched until the scan reaches the top word. */
  ghost predicate Scanned(e: seq<Word>, E: seq<Word>, k: nat, b: nat)
  {
    |e| == |E| && k <= |e| && b < BITS && (k == |e| ==> b == 0)
    && Val(e) == Val(E) / Pow2(Position(k, b)) * Pow2(Position(k, b))
    && (k + 1 < |e| ==> e[|e| - 1] == E[|E| - 1])
  }

  /** One step of the scan: test bit (k, b), clear it when set. */
  function Consume(e: seq<Word>, k: nat, b: nat): (r: seq<Word>)
    requires k < |e| && b < BITS
    ensures |r| == |e|
  {
    if TestBit(e[k], b) then e[k := ClearBit(e[k], b)] else e
  }

  /** ++exponentWordBitIndex, wrapping into the next word at BitsPerWord. */
  function Advance(k: nat, b: nat): (r: (nat, nat))
    requires b < BITS
    ensures Position(r.0, r.1) == Position(k, b) + 1 && r.1 < BITS
  {
    if b + 1 >= BITS then (k + 1, 0) else (k, b + 1)
  }

  /** Nothing is consumed before the scan starts. */
  lemma ScanStart(E: seq<Word>)
    requires |E| >= 1
    ensures Scanned(E, E, 0, 0)
  {
    assert Pow2(Position(0, 0)) == 1;
  }

  /** One step keeps the scan invariant, and the consumed part of the
      exponent grows by the bit just tested. */
  lemma ScanStep(e: seq<Word>, E: seq<Word>, k: nat, b: nat)
    requires Scanned(e, E, k, b) && k < |e|
    ensures Scanned(Consume(e, k, b), E, Advance(k, b).0, Advance(k, b).1)
    ensures Val(E) % Pow2(Position(k, b) + 1)
      == Val(E) % Pow2(Position(k, b)) + (if TestBit(e[k], b) then Pow2(Position(k, b)) else 0)
  {
    var p := Position(k, b);
    var P := Pow2(p);
    var rest := Val(E) / P;
    BitAt(e, k, b, rest);
    ClearValue(e, k, b, rest);
    Pow2Succ(p);
    NextPosition(Val(E), P, Pow2(p + 1), Val(Consume(e, k, b)));
  }

  /** Moving from position p to p + 1 halves the unconsumed part and adds
      bit p to the consumed part. */
  lemma NextPosition(V: nat, P: nat, P2: nat, after: nat)
    requires P > 0 && P2 == 2 * P && after == (V / P - (V / P) % 2) * P
    ensures after == V / P2 * P2
    ensures V % P2 == V % P + (if (V / P) % 2 == 1 then P else 0)
  {
    var rest := V / P;
    DivDiv(V, P, 2);
    assert P * 2 == P2;
    assert rest - rest % 2 == 2 * (rest / 2);
    MulAssoc(rest / 2, 2, P);
  }

  /** Bit (k, b) of a scan copy holding rest at position (k, b) is the low
      bit of rest. */
  lemma BitAt(e: seq<Word>, k: nat, b: nat, rest: nat)
    requires k < |e| && b < BITS && Val(e) == rest * Pow2(Position(k, b))
    ensures (e[k] / Pow2(b)) % 2 == rest % 2
  {
    Pow2Words(k);
    PowAdd(2, BITS * k, b);
    WordAt(e, k);
    WordPowPositive(k);
    LowWordsZero(Val(e), rest, WordPow(k), Pow2(b), Val(e[..k]), e[k], Val(e[k + 1..]));
    BitOfRest(e[k], Val(e[k + 1..]), rest, b);
  }

  /** Words below position k hold nothing when the value is a multiple of
      the weight of word k. */
  lemma LowWordsZero(v: int, rest: int, W: int, q: int, L: int, x: int, H: int)
    requires W > 0 && 0 <= L < W
    requires v == rest * (W * q) && v == L + W * (x + BASE * H)
    ensures x + BASE * H == rest * q
  {
    var d := rest * q - x - BASE * H;
    assert d * W == L;
    MulSmall(d, W);
  }

  lemma BitOfRest(x: nat, H: nat, rest: nat, b: nat)
    requires b < BITS && x + BASE * H == rest * Pow2(b)
    ensures (x / Pow2(b)) % 2 == rest % 2
  {
    var q := Pow2(b);
    var t := Pow2(BITS - b - 1);
    Pow2Split(b);
    Pow2Succ(BITS - b - 1);
    assert BASE == q * (2 * t);
    var y := rest - 2 * t * H;
    assert x == q * y;
    PositiveFactor(q, y);
    DivModUnique(x, q, y, 0);
    DivMulAdd(t * H, 2, y);
    assert rest == t * H * 2 + y;
  }

  lemma PositiveFactor(q: int, y: int)
    requires q > 0 && q * y >= 0
    ensures y >= 0
  {
  }

  /** Clearing bit (k, b) takes the low bit of rest away at weight 2^p. */
  lemma ClearValue(e: seq<Word>, k: nat, b: nat, rest: nat)
    requires k < |e| && b < BITS && Val(e) == rest * Pow2(Position(k, b))
    ensures Val(Consume(e, k, b)) == (rest - rest % 2) * Pow2(Position(k, b))
  {
    BitAt(e, k, b, rest);
    if TestBit(e[k], b) {
      var x := e[k];
      var v := ClearBit(x, b);
      assert v == x - Pow2(b);
      ValUpdate(e, k, v);
      Pow2Words(k);
      PowAdd(2, BITS * k, b);
      ClearArith(Val(e), Val(e[k := v]), rest, WordPow(k), Pow2(b), x, v);
    }
  }

  lemma ClearArith(before: int, after: int, rest: int, W: int, q: int, x: int, v: int)
    requires v == x - q && after + W * x == before + W * v && before == rest * (W * q)
    ensures after == (rest - 1) * (W * q)
  {
  }

  /** The scan stops once the exponent is used up: either every word was
      scanned, or the top word has been cleared, which happens only in the
      last word of a normalized exponent. */
  lemma ScanDone(e: seq<Word>, E: seq<Word>, k: nat, b: nat)
    requires Normal(E) && Scanned(e, E, k, b)
    requires !(k < |e| && e[|e| - 1] != 0)
    ensures Val(E) % Pow2(Position(k, b)) == Val(E)
  {
    var P := Pow2(Position(k, b));
    ScannedBelow(e, E, k, b);
    ZeroQuotient(Val(E), P, Val(e));
  }

  lemma ScannedBelow(e: seq<Word>, E: seq<Word>, k: nat, b: nat)
    requires Normal(E) && Scanned(e, E, k, b)
    requires !(k < |e| && e[|e| - 1] != 0)
    ensures Val(e) < Pow2(Position(k, b))
  {
    Pow2Words(k);
    if k < |e| {
      assert k + 1 == |e|;
      ValLast(e);
      ValBound(e[..k]);
      PowMonotone(2, BITS * k, Position(k, b));
    } else {
      ValBound(e);
    }
  }

  lemma ZeroQuotient(V: nat, P: nat, v: nat)
    requires P > 0 && v == V / P * P && v < P
    ensures V % P == V
  {
    MulCancel(V / P, 1, P);
  }

  /* ---------- pow and powMod ---------- */

  /** Squaring b^(2^(p-1)) gives b^(2^p). */
  lemma Square(B: nat, p: nat)
    requires p >= 1
    ensures Pow(B, Pow2(p - 1)) * Pow(B, Pow2(p - 1)) == Pow(B, Pow2(p))
  {
    Pow2Succ(p - 1);
    PowAdd(B, Pow2(p - 1), Pow2(p - 1));
  }

  /** The state of pow's loop at position p: the scan copy has consumed
      the bits below p, retval holds base to the power of those bits, and
      the running base has been squared p - 1 times. */
  ghost predicate PowerState(e: seq<Word>, E: seq<Word>, k: nat, b: nat, r: seq<Word>, x: seq<Word>, B: nat)
  {
    Scanned(e, E, k, b) && Position(k, b) >= 1
    && Normal(r) && Val(r) == Pow(B, Val(E) % Pow2(Position(k, b)))
    && Normal(x) && Val(x) == Pow(B, Pow2(Position(k, b) - 1))
  }

  /** pow(base, exponent) (bigmath.h:570-596): retval starts at 1 (or base
      when bit 0 is set); each later bit squares the running base and, when
      set, multiplies it in and clears the bit, until the top word of the
      exponent is clear. */
  method Power(base: seq<Word>, exponent: seq<Word>) returns (r: seq<Word>)
    requires Normal(base) && Normal(exponent)
    ensures Normal(r) && Val(r) == Pow(Val(base), Val(exponent))
  {
    ghost var B := Val(base);
    r := [1];
    ValSingle(1);
    var x := base;
    var e := exponent;
    var k: nat, b: nat := 0, 0;
    ScanStart(exponent);
    ScanStep(e, exponent, k, b);
    assert Pow2(1) == 2 && Pow(B, 1) == B;
    if TestBit(e[k], b) {
      r := x;
    }
    e := Consume(e, k, b);
    k, b := Advance(k, b).0, Advance(k, b).1;
    while k < |e| && e[|e| - 1] != 0
      invariant PowerState(e, exponent, k, b, r, x, B)
      decreases |e| - k, BITS - b
    {
      e, k, b, r, x := PowerStep(e, exponent, k, b, r, x, B);
    }
    ScanDone(e, exponent, k, b);
  }

  /** One pass of pow's loop: base *= base, then retval *= base and clear
      the bit when it is set, then move to the next bit. */
  method PowerStep(e: seq<Word>, E: seq<Word>, k: nat, b: nat, r: seq<Word>, x: seq<Word>, ghost B: nat)
    returns (e': seq<Word>, k': nat, b': nat, r': seq<Word>, x': seq<Word>)
    requires PowerState(e, E, k, b, r, x, B) && k < |e|
    ensures PowerState(e', E, k', b', r', x', B) && (k', b') == Advance(k, b)
  {
    ghost var p := Position(k, b);
    x' := Mul(x, x);
    Square(B, p);
    ScanStep(e, E, k, b);
    r' := r;
    if TestBit(e[k], b) {
      r' := Mul(r, x');
      PowAdd(B, Val(E) % Pow2(p), Pow2(p));
    }
    e' := Consume(e, k, b);
    k', b' := Advance(k, b).0, Advance(k, b).1;
  }

  /** Reducing the factors first does not change a product's remainder. */
  lemma ModProduct(x: nat, y: nat, m: nat)
    requires m > 0
    ensures (x % m) * (y % m) % m == (x * y) % m
  {
    var a, c := x / m, y / m;
    var rx, ry := x % m, y % m;
    assert x == a * m + rx && y == c * m + ry;
    var k := a * c * m + a * ry + rx * c;
    calc {
      x * y;
      (a * m + rx) * (c * m + ry);
      (a * c * m + a * ry + rx * c) * m + rx * ry;
    }
    MulNonneg(a, ry);
    MulNonneg(rx, c);
    MulNonneg(a * c, m);
    MulNonneg(rx, ry);
    DivMulAdd(k, m, rx * ry);
  }

  /** powMod(base, exponent, modulus) (bigmath.h:597-628): a modulus of 1
      gives 0; base %= modulus fails on a zero modulus; otherwise the scan
      of pow with a reduction after every squaring and every multiply. */
  method PowerMod(base: seq<Word>, exponent: seq<Word>, modulus: seq<Word>)
    returns (r: Result<seq<Word>>)
    requires Normal(base) && Normal(exponent) && Normal(modulus)
    ensures r.Err? <==> Val(modulus) == 0
    ensures r.Err? ==> r.error == DivisionByZero
    ensures r.Ok? ==> (Normal(r.value)
      && Val(r.value) == Pow(Val(base), Val(exponent)) % Val(modulus))
  {
    ghost var B, E, M := Val(base), Val(exponent), Val(modulus);
    if EqualsWord(modulus, 1) {
      ValSingle(0);
      return Ok([0]);
    }
    var reduced := DivMod(base, modulus);
    if reduced.Err? {
      return Err(DivisionByZero);
    }
    var x := reduced.value.remainder;
    var acc: seq<Word> := [1];
    ValSingle(1);
    DivModUnique(1, M, 0, 1);
    var e := exponent;
    var k: nat, b: nat := 0, 0;
    ScanStart(exponent);
    ScanStep(e, exponent, k, b);
    assert Pow2(1) == 2;
    assert Pow(B, 1) == B;
    if TestBit(e[k], b) {
      acc := x;
    }
    e := Consume(e, k, b);
    k, b := Advance(k, b).0, Advance(k, b).1;
    while k < |e| && e[|e| - 1] != 0
      invariant PowerModState(e, exponent, k, b, acc, x, B, M)
      decreases |e| - k, BITS - b
    {
      e, k, b, acc, x := PowerModStep(e, exponent, k, b, acc, x, modulus, B);
    }
    ScanDone(e, exponent, k, b);
    r := Ok(acc);
  }

  /** The state of powMod's loop: that of pow, with retval and the
      running base reduced modulo M. */
  ghost predicate PowerModState(e: seq<Word>, E: seq<Word>, k: nat, b: nat, r: seq<Word>, x: seq<Word>, B: nat, M: nat)
  {
    Scanned(e, E, k, b) && Position(k, b) >= 1 && M > 0
    && Normal(r) && Val(r) == Pow(B, Val(E) % Pow2(Position(k, b))) % M
    && Normal(x) && Val(x) == Pow(B, Pow2(Position(k, b) - 1)) % M
  }

  /** One pass of powMod's loop: base *= base; base %= modulus, then
      retval *= base; retval %= modulus and clear the bit when it is set. */
  method PowerModStep(e: seq<Word>, E: seq<Word>, k: nat, b: nat, r: seq<Word>, x: seq<Word>,
                      modulus: seq<Word>, ghost B: nat)
    returns (e': seq<Word>, k': nat, b': nat, r': seq<Word>, x': seq<Word>)
    requires Normal(modulus) && PowerModState(e, E, k, b, r, x, B, Val(modulus)) && k < |e|
    ensures PowerModState(e', E, k', b', r', x', B, Val(modulus)) && (k', b') == Advance(k, b)
  {
    ghost var p := Position(k, b);
    x' := MulMod(x, x, modulus, Pow(B, Pow2(p - 1)), Pow(B, Pow2(p - 1)));
    Square(B, p);
    ScanStep(e, E, k, b);
    r' := r;
    if TestBit(e[k], b) {
      r' := MulMod(r, x', modulus, Pow(B, Val(E) % Pow2(p)), Pow(B, Pow2(p)));
      PowAdd(B, Val(E) % Pow2(p), Pow2(p));
    }
    e' := Consume(e, k, b);
    k', b' := Advance(k, b).0, Advance(k, b).1;
  }

  /** x *= y; x %= modulus, as powMod does after every squaring and every
      multiply: on residues of u and v it gives the residue of u v. */
  method MulMod(x: seq<Word>, y: seq<Word>, modulus: seq<Word>, ghost u: nat, ghost v: nat)
    returns (r: seq<Word>)
    requires Normal(x) && Normal(y) && Normal(modulus) && Val(modulus) > 0
    requires Val(x) == u % Val(modulus) && Val(y) == v % Val(modulus)
    ensures Normal(r) && Val(r) == (u * v) % Val(modulus)
  {
    var product := Mul(x, y);
    var d := DivMod(product, modulus);
    r := d.value.remainder;
    ModProduct(u, v, Val(modulus));
  }

  /* ---------- gcd ---------- */

  /** d is a positive divisor of x. */
  predicate Divides(d: nat, x: nat)
  {
    d > 0 && x % d == 0
  }

  /** Euclid's algorithm on the integers, with gcd(x, 0) = x: the reference
      the remainder loop of gcd is measured against. */
  function Euclid(x: nat, y: nat): nat
    decreases y
  {
    if y == 0 then x else Euclid(y, x % y)
  }

  /** A divisor of y and of r divides n y + r. */
  lemma DividesSum(d: nat, n: nat, y: nat, r: nat)
    requires Divides(d, y) && Divides(d, r)
    ensures Divides(d, n * y + r)
  {
    var a, c := y / d, r / d;
    assert y == a * d && r == c * d;
    MulAssoc(n, a, d);
    assert n * y + r == (n * a + c) * d;
    MulNonneg(n, a);
    DivModUnique(n * y + r, d, n * a + c, 0);
  }

  /** A divisor of x and of y divides x mod y. */
  lemma DividesRemainder(d: nat, x: nat, y: nat)
    requires Divides(d, x) && Divides(d, y) && y > 0
    ensures Divides(d, x % y)
  {
    var n := x / y;
    var a, c := x / d, y / d;
    assert x == a * d && y == c * d;
    assert x % y == x - n * y;
    MulAssoc(n, c, d);
    assert x % y == (a - n * c) * d;
    PositiveFactor(d, a - n * c);
    DivModUnique(x % y, d, a - n * c, 0);
  }

  /** Euclid's result divides both operands. */
  lemma {:induction false} EuclidDivides(x: nat, y: nat)
    requires x > 0 || y > 0
    ensures Divides(Euclid(x, y), x) && Divides(Euclid(x, y), y)
    decreases y
  {
    if y == 0 {
      DivModUnique(0, x, 0, 0);
      DivModUnique(x, x, 1, 0);
    } else {
      var g := Euclid(x, y);
      EuclidDivides(y, x % y);
      DividesSum(g, x / y, y, x % y);
      assert x == x / y * y + x % y;
    }
  }

  /** Every common divisor of the operands divides Euclid's result and is
      at most it, so the result is their greatest common divisor. */
  lemma {:induction false} EuclidGreatest(x: nat, y: nat, d: nat)
    requires Divides(d, x) && Divides(d, y) && (x > 0 || y > 0)
    ensures Divides(d, Euclid(x, y)) && d <= Euclid(x, y)
    decreases y
  {
    if y == 0 {
      DivisorBound(d, x);
    } else {
      DividesRemainder(d, x, y);
      EuclidGreatest(y, x % y, d);
    }
  }

  lemma DivisorBound(d: nat, x: nat)
    requires Divides(d, x) && x > 0
    ensures d <= x
  {
    var a := x / d;
    assert x == a * d;
    if a == 0 {
      assert false;
    }
    MulLeftMonotone(d, 1, a);
  }

  /** The greatest common divisor of 1 and anything positive is 1. */
  lemma EuclidOne(x: nat)
    requires x > 0
    ensures Euclid(x, 1) == 1 && Euclid(1, x) == 1
  {
    assert x % 1 == 0;
    if x > 1 {
      DivModUnique(1, x, 0, 1);
      assert Euclid(1, x) == Euclid(x, 1);
    }
  }

  /** gcd(a, b) (bigmath.h:646-662): 0 when either operand is 0, 1 when
      either is 1; otherwise the larger goes first and a, b := b, a % b
      until the remainder is 0. */
  method Gcd(a: seq<Word>, b: seq<Word>) returns (r: seq<Word>)
    requires Normal(a) && Normal(b)
    ensures Normal(r)
    ensures Val(a) == 0 || Val(b) == 0 ==> Val(r) == 0
    ensures Val(a) > 0 && Val(b) > 0 ==> Val(r) == Euclid(Val(a), Val(b))
  {
    ghost var G := Euclid(Val(a), Val(b));
    if EqualsWord(a, 0) || EqualsWord(b, 0) {
      ValSingle(0);
      return [0];
    }
    if EqualsWord(a, 1) || EqualsWord(b, 1) {
      ValSingle(1);
      EuclidOne(Val(a));
      EuclidOne(Val(b));
      return [1];
    }
    var x, y := a, b;
    var less := Less(a, b);
    if less {
      DivModUnique(Val(a), Val(b), 0, Val(a));
      assert G == Euclid(Val(b), Val(a));
      x, y := b, a;
    }
    while true
      invariant Normal(x) && Normal(y) && Val(y) > 0
      invariant Euclid(Val(x), Val(y)) == G
      decreases Val(y)
    {
      var d := DivMod(x, y);
      var c := d.value.remainder;
      if EqualsWord(c, 0) {
        return y;
      }
      x, y := y, c;
    }
  }
}
