/** Division of bigmath.cpp: the word-by-word division by a single word,
    and the long division of Knuth, The Art of Computer Programming Vol. 2,
    section 4.3.1, Algorithm D, in the form of submul_1 and divide
    (bigmath.cpp:409-503), driven by the three divMod overloads. */
module Division {
  import opened Numbers
  import opened Words
  import opened Limbs
  import opened Order
  import opened Errors
  import Arith
  import Shifts

  /** The quotient and remainder divMod hands back. */
  datatype Division = Division(quotient: seq<Word>, remainder: seq<Word>)

  /** d is a division of a by b: a == quotient * b + remainder with the
      remainder below b. */
  predicate IsDivision(a: nat, b: nat, d: Division)
  {
    Val(d.quotient) * b + Val(d.remainder) == a && Val(d.remainder) < b
  }

  /** Both halves in normal form. */
  predicate NormalDivision(d: Division)
  {
    Normal(d.quotient) && Normal(d.remainder)
  }

  /** The quotient and remainder of the integers, in normal form. */
  function IntegerDivision(a: nat, b: nat): Division
    requires b > 0
  {
    Division(FromNat(a / b), FromNat(a % b))
  }

  /** A division in normal form is unique: it is the quotient and remainder
      of the integers. */
  lemma DivisionUnique(a: nat, b: nat, d: Division)
    requires IsDivision(a, b, d) && NormalDivision(d)
    ensures b > 0 && d == IntegerDivision(a, b)
  {
    DivModUnique(a, b, Val(d.quotient), Val(d.remainder));
    NormalUnique(d.quotient, FromNat(a / b));
    NormalUnique(d.remainder, FromNat(a % b));
  }

  /** ::divMod(WordType, WordType) (bigmath.cpp:361-369): a zero divisor is
      an error; otherwise the one-word quotient and remainder. */
  function WordDivMod(a: Word, b: Word): (r: Result<Division>)
    ensures r.Err? <==> b == 0
    ensures r.Err? ==> r.error == DivisionByZero
    ensures r.Ok? ==> IsDivision(a, b, r.value) && NormalDivision(r.value)
  {
    if b == 0 then
      Err(DivisionByZero)
    else
      ValSingle(a / b);
      ValSingle(a % b);
      Ok(Division([a / b], [a % b]))
  }

  /** divMod(WordType, BigUnsigned) (bigmath.cpp:578-589): a one-word
      divisor goes to the word division; a longer divisor exceeds every
      word, so the quotient is 0 and the remainder the dividend. */
  function DivModWordBig(a: Word, b: seq<Word>): (r: Result<Division>)
    requires Normal(b)
    ensures r.Err? <==> Val(b) == 0
    ensures r.Err? ==> r.error == DivisionByZero
    ensures r.Ok? ==> IsDivision(a, Val(b), r.value) && NormalDivision(r.value)
    ensures |b| >= 2 ==> r == Ok(Division([0], [a]))
  {
    if |b| == 1 then
      ValSingle(b[0]);
      assert b == [b[0]];
      WordDivMod(a, b[0])
    else
      NormalLower(b);
      WordPowSucc(0);
      PowMonotone(BASE, 1, |b| - 1);
      ValSingle(0);
      ValSingle(a);
      Ok(Division([0], [a]))
  }

  /** submul_1 (bigmath.cpp:425-441) on the window dest[offset..offset+len]
      it works on: subtracts x * y from the window word by word and returns
      the top word of the product plus the borrows, so the window and the
      returned carry satisfy new + x * y == old + carry * BASE^len. */
  method SubMul1(dest: seq<Word>, x: seq<Word>, y: Word) returns (r: seq<Word>, carry: Word)
    requires |dest| == |x| >= 1
    ensures |r| == |dest|
    ensures Val(r) + Val(x) * y == Val(dest) + carry * WordPow(|x|)
  {
    r := dest;
    carry := 0;
    assert x[..0] == [];
    var j := 0;
    while j < |x|
      invariant 0 <= j <= |x| && |r| == |dest|
      invariant r[j..] == dest[j..]
      invariant Val(r) + Val(x[..j]) * y == Val(dest) + carry * WordPow(j)
    {
      var prod := MultiplyDoubleWordAndAdd(y, x[j], carry);
      var xj := r[j];
      var low := (xj - prod.1) % BASE;
      var next := prod.0;
      if low > xj {
        SubMulCarry(y, x[j], carry, prod.0, prod.1, xj);
        next := next + 1;
      }
      SubMulColumn(r, x, Val(dest), j, y, carry, prod.0, prod.1, low, next);
      r := r[j := low];
      carry := next;
      j := j + 1;
    }
    assert x[..j] == x;
  }

  /** The wrapped difference borrows exactly when the low product word
      exceeds the destination word, and then the high word has room for
      the borrow. */
  lemma SubMulCarry(y: Word, xw: Word, cin: Word, hi: Word, lo: Word, dw: Word)
    requires hi * BASE + lo == y * xw + cin
    requires (dw - lo) % BASE > dw
    ensures hi + 1 < BASE
  {
    ProductBound(y, xw, 0, 0);
    MulBound(y, xw, BASE, BASE);
    assert y * xw <= (BASE - 1) * (BASE - 1) by {
      MulLeftMonotone(y, xw, BASE - 1);
      MulLeftMonotone(BASE - 1, y, BASE - 1);
    }
    assert lo > dw;
  }

  /** One column of submul_1 keeps its invariant. */
  lemma SubMulColumn(r: seq<Word>, x: seq<Word>, vd: nat, j: nat, y: Word, carry: Word,
                     hi: Word, lo: Word, low: Word, next: nat)
    requires j < |x| && |r| == |x|
    requires Val(r) + Val(x[..j]) * y == vd + carry * WordPow(j)
    requires hi * BASE + lo == y * x[j] + carry
    requires low == (r[j] - lo) % BASE
    requires next == if low > r[j] then hi + 1 else hi
    ensures Val(r[j := low]) + Val(x[..j + 1]) * y == vd + next * WordPow(j + 1)
  {
    ValUpdate(r, j, low);
    ValPrefix(x, j);
    WordPowSucc(j);
    var b := if low > r[j] then 1 else 0;
    assert low == r[j] - lo + b * BASE;
    SubMulStep(Val(r), Val(r[j := low]), WordPow(j), WordPow(j + 1), r[j], low,
      Val(x[..j]), Val(x[..j + 1]), x[j], y, carry, next, vd, hi, lo, b);
  }

  lemma SubMulStep(v: int, v': int, p: int, q: int, o: int, n: int, vx: int, vx': int, xw: int,
                   y: int, cin: int, cout: int, vd: int, hi: int, lo: int, b: int)
    requires v' + p * o == v + p * n && vx' == vx + p * xw && q == p * BASE
    requires v + vx * y == vd + cin * p
    requires hi * BASE + lo == y * xw + cin && n == o - lo + b * BASE && cout == hi + b
    ensures v' + vx' * y == vd + cout * q
  {
    assert n + xw * y + cin == o + cout * BASE;
    assert p * (n + xw * y + cin) == p * (o + cout * BASE);
    assert vx' * y == vx * y + p * (xw * y);
  }

  /** One pass of the add-back loop of divide (bigmath.cpp:486-497): the
      divisor is added back into the window with a ripple carry. */
  method AddBack(rem: seq<Word>, y: seq<Word>) returns (r: seq<Word>, carry: bool)
    requires |rem| == |y|
    ensures |r| == |rem|
    ensures Val(r) + Bit(carry) * WordPow(|y|) == Val(rem) + Val(y)
  {
    r := rem;
    carry := false;
    assert y[..Min(0, |y|)] == [];
    var i := 0;
    while i < |y|
      invariant 0 <= i <= |y| && |r| == |rem|
      invariant Val(r) + Bit(carry) * WordPow(i) == Val(rem) + Val(y[..Min(i, |y|)])
    {
      var sum := AddWithCarry(r[i], y[i], carry);
      Arith.AddColumn(r, y, Val(rem), i, y[i], carry);
      r := r[i := sum.0];
      carry := sum.1;
      i := i + 1;
    }
    assert y[..Min(i, |y|)] == y;
  }

  /** The quotient-digit estimate of divide (bigmath.cpp:472-478), from the
      top two words of the window and the top word of the divisor, never
      undershoots the true digit and overshoots it by less than
      BASE^ny / v (Knuth's Theorem 4.3.1 B, first half): with the window
      W = (top * BASE + next) * P + low and the divisor v = vt * P + vlow,
      W - qhat * v lies strictly between -BASE * P and v. */
  lemma EstimateBounds(w: int, top: int, next: int, low: int, vt: int, vlow: int, p: int, v: int, qhat: int)
    requires p >= 1 && 1 <= vt < BASE && 0 <= top <= vt && 0 <= next < BASE
    requires 0 <= low < p && 0 <= vlow < p
    requires w == (top * BASE + next) * p + low && v == vlow + p * vt
    requires w < BASE * v
    requires qhat == if top == vt then BASE - 1 else (top * BASE + next) / vt
    ensures 0 <= qhat < BASE
    ensures w - qhat * v < v
    ensures w - qhat * v > -(BASE * p)
  {
    var u := top * BASE + next;
    if top == vt {
      EstimateAtTop(u, top, next, vt, qhat);
    } else {
      EstimateQuotient(u, top, next, vt, qhat);
      EstimateUpper(w, u, low, vt, vlow, p, v, qhat);
    }
    EstimateLower(w, u, low, vt, vlow, p, v, qhat);
  }

  /** When the window's top word equals the divisor's, the estimate is the
      largest word, and the window bound alone gives the upper bound. */
  lemma EstimateAtTop(u: int, top: int, next: int, vt: int, qhat: int)
    requires 0 <= top == vt && 0 <= next && u == top * BASE + next && qhat == BASE - 1
    ensures qhat * vt <= u
  {
    MulLeftMonotone(vt, BASE - 1, BASE);
  }

  /** Otherwise the estimate is the quotient of the top two words by vt,
      which fits a word. */
  lemma EstimateQuotient(u: int, top: int, next: int, vt: int, qhat: int)
    requires 0 <= top < vt && 0 <= next < BASE && u == top * BASE + next && qhat == u / vt
    ensures 0 <= qhat < BASE && qhat * vt <= u && u - vt + 1 <= qhat * vt
  {
    assert u < vt * BASE by {
      MulLeftMonotone(BASE, top + 1, vt);
    }
    DivModUnique(u, vt, qhat, u % vt);
    if qhat >= BASE {
      MulLeftMonotone(vt, BASE, qhat);
    }
  }

  /** The estimate from the top words is at least the digit. */
  lemma EstimateUpper(w: int, u: int, low: int, vt: int, vlow: int, p: int, v: int, qhat: int)
    requires p >= 1 && vt >= 1 && 0 <= low < p && 0 <= vlow && qhat >= 0 && u >= 0
    requires w == u * p + low && v == vlow + p * vt
    requires u - vt + 1 <= qhat * vt
    ensures w - qhat * v < v
  {
    assert qhat * v == qhat * vt * p + qhat * vlow;
    if u - vt + 1 >= 0 {
      MulLeftMonotone(p, u - vt + 1, qhat * vt);
      assert (u - vt + 1) * p <= qhat * vt * p;
    } else {
      MulLeftMonotone(p, u + 1, vt);
    }
  }

  /** The estimate from the top words overshoots by less than BASE * p. */
  lemma EstimateLower(w: int, u: int, low: int, vt: int, vlow: int, p: int, v: int, qhat: int)
    requires p >= 1 && vt >= 1 && 0 <= low && 0 <= vlow < p && 0 <= qhat < BASE && u >= 0
    requires w == u * p + low && v == vlow + p * vt
    requires qhat * vt <= u
    ensures w - qhat * v > -(BASE * p)
  {
    assert qhat * v == qhat * vt * p + qhat * vlow;
    assert qhat * vt * p <= u * p by {
      MulLeftMonotone(p, qhat * vt, u);
    }
    assert qhat * vlow < BASE * p by {
      MulBound(qhat, vlow, BASE, p);
    }
  }

  /** One quotient digit of divide (bigmath.cpp:471-500) on the window
      zds[j-ny..j] of ny + 1 words: the estimate qhat is multiplied by the
      divisor and subtracted from the low ny words; when the subtraction
      borrows past the window's top word, the divisor is added back and
      qhat decremented until an addition carries out. The window's low ny
      words become the remainder and the digit goes to zds[j]. (The source
      also increments zds[j] on that last carry; zds[j] is overwritten with
      the digit right after, so the model leaves the increment out.) */
  method DivideDigit(win: seq<Word>, y: seq<Word>) returns (rem: seq<Word>, q: Word)
    requires |y| >= 1 && |win| == |y| + 1 && y[|y| - 1] != 0
    requires Val(win) < BASE * Val(y)
    ensures |rem| == |y|
    ensures Val(rem) < Val(y)
    ensures Val(win) == q * Val(y) + Val(rem)
  {
    var n := |y|;
    var top := win[n];
    var vt := y[n - 1];
    WindowSplit(win, n);
    DivisorSplit(y);
    TopAtMost(Val(win), top, win[n - 1], Val(win[..n - 1]), vt, Val(y[..n - 1]), WordPow(n - 1), Val(y));
    var qhat: Word;
    if top == vt {
      qhat := WORD_MAX;
    } else {
      var d := DivideDoubleWord(top, win[n - 1], vt);
      DivModUnique(top * BASE + win[n - 1], vt, d.0, d.1);
      qhat := d.0;
    }
    EstimateBounds(Val(win), top, win[n - 1], Val(win[..n - 1]), vt, Val(y[..n - 1]),
      WordPow(n - 1), Val(y), qhat);
    WordPowSucc(n - 1);
    ValBound(y);
    rem := win[..n];
    if qhat != 0 {
      var borrow;
      rem, borrow := SubMul1(win[..n], y, qhat);
      ValBound(rem);
      AfterSubMul(Val(win), Val(win[..n]), top, WordPow(n), Val(rem), Val(y), qhat, borrow);
      if top != borrow {
        var carry := false;
        while !carry
          invariant |rem| == n
          invariant !carry ==> Val(rem) == Val(win) - qhat * Val(y) + WordPow(n)
          invariant carry ==> Val(rem) == Val(win) - qhat * Val(y) && Val(rem) < Val(y)
          decreases qhat
        {
          ValBound(rem);
          QhatPositive(Val(win), Val(y), qhat, Val(rem), WordPow(n));
          var rem';
          rem', carry := AddBack(rem, y);
          ValBound(rem');
          AddBackStep(Val(win), Val(y), qhat, Val(rem), Val(rem'), carry, WordPow(n));
          rem := rem';
          qhat := qhat - 1;
        }
      }
    } else {
      ZeroDigit(Val(win), Val(win[..n]), top, WordPow(n), Val(y));
    }
    q := qhat;
  }

  /** The window splits at its top two words. */
  lemma WindowSplit(win: seq<Word>, n: nat)
    requires n >= 1 && |win| == n + 1
    ensures Val(win) == (win[n] * BASE + win[n - 1]) * WordPow(n - 1) + Val(win[..n - 1])
    ensures Val(win) == Val(win[..n]) + WordPow(n) * win[n]
    ensures Val(win[..n - 1]) < WordPow(n - 1)
  {
    ValLast(win);
    ValLast(win[..n]);
    assert win[..n][..n - 1] == win[..n - 1];
    WordPowSucc(n - 1);
    ValBound(win[..n - 1]);
    SplitTwo(Val(win), Val(win[..n]), Val(win[..n - 1]), win[n], win[n - 1], WordPow(n - 1), WordPow(n));
  }

  /** The divisor splits at its top word. */
  lemma DivisorSplit(y: seq<Word>)
    requires |y| >= 1
    ensures Val(y) == Val(y[..|y| - 1]) + WordPow(|y| - 1) * y[|y| - 1]
    ensures Val(y[..|y| - 1]) < WordPow(|y| - 1)
  {
    ValLast(y);
    ValBound(y[..|y| - 1]);
  }

  lemma SplitTwo(w: int, w1: int, w0: int, top: int, next: int, p: int, q: int)
    requires w == w1 + q * top && w1 == w0 + p * next && q == p * BASE
    ensures w == (top * BASE + next) * p + w0
  {
  }

  /** A window below BASE * v has a top word at most the divisor's. */
  lemma TopAtMost(w: int, top: int, next: int, low: int, vt: int, vlow: int, p: int, v: int)
    requires p >= 1 && 0 <= next && 0 <= low && 0 <= vlow < p && 0 <= vt && 0 <= top
    requires w == (top * BASE + next) * p + low && v == vlow + p * vt
    requires w < BASE * v
    ensures top <= vt
  {
    assert top * (BASE * p) <= w;
    assert BASE * v < (vt + 1) * (BASE * p);
    MulCancel(top, vt + 1, BASE * p);
  }

  /** After the multiply-and-subtract the window's value less qhat * v is
      the new low words, less BASE^n when the borrow exceeds the top word;
      the bounds of the estimate leave no other case. */
  lemma AfterSubMul(w: int, lowv: int, top: int, bn: int, remv: int, v: int, qhat: int, borrow: int)
    requires w == lowv + bn * top && remv + v * qhat == lowv + borrow * bn
    requires -bn < w - qhat * v < v && 0 <= remv < bn && v <= bn
    ensures top == borrow ==> remv == w - qhat * v && remv < v
    ensures top != borrow ==> remv == w - qhat * v + bn
  {
    var d := top - borrow;
    assert w - qhat * v == remv + d * bn;
    MulCancel(d, 1, bn);
    MulCancel(-2, d, bn);
  }

  /** While the add-back has not carried, the value is negative, so qhat
      is at least 1. */
  lemma QhatPositive(w: nat, v: int, qhat: int, remv: int, bn: int)
    requires remv == w - qhat * v + bn && remv < bn && qhat >= 0
    ensures qhat >= 1
  {
  }

  /** One add-back pass: adding v raises the value by v; the pass carries
      out exactly when the value becomes non-negative, and then it is
      below v. */
  lemma AddBackStep(w: int, v: int, qhat: int, remv: int, remv': int, carry: bool, bn: int)
    requires remv == w - qhat * v + bn && 0 <= remv < bn
    requires remv' + Bit(carry) * bn == remv + v && 0 <= remv' < bn
    ensures carry ==> remv' == w - (qhat - 1) * v && remv' < v
    ensures !carry ==> remv' == w - (qhat - 1) * v + bn
  {
    Arith.BitTimes(carry, bn);
  }

  /** A zero estimate leaves a window below v, whose top word is then 0. */
  lemma ZeroDigit(w: int, lowv: int, top: nat, bn: int, v: int)
    requires w == lowv + bn * top && 0 <= lowv && w < v && v <= bn && bn > 0
    ensures lowv == w
  {
    MulCancel(top, 1, bn);
  }

  /** divide (bigmath.cpp:451-503): Algorithm D on zds[0..nx] by y[0..ny-1].
      Going down from j = nx to j = ny, each step computes one quotient
      digit on the window zds[j-ny..j]; at the end zds[0..ny-1] holds the
      remainder and zds[ny..nx] the quotient. The callers leave the top
      words low enough that the quotient fits: the value of zds is below
      y * BASE^(nx+1-ny). The top bit of y is not needed for the result,
      only to bound the number of add-back passes. */
  method Divide(zds: seq<Word>, nx: nat, y: seq<Word>) returns (z: seq<Word>)
    requires |zds| == nx + 1 && 1 <= |y| <= nx && y[|y| - 1] != 0
    requires Val(zds) < Val(y) * WordPow(nx + 1 - |y|)
    ensures |z| == |zds|
    ensures Val(z[..|y|]) < Val(y)
    ensures Val(z[|y|..]) * Val(y) + Val(z[..|y|]) == Val(zds)
  {
    var ny := |y|;
    z := zds;
    assert zds[..nx + 1] == zds && zds[nx + 1..] == [];
    var j: int := nx;
    while j >= ny
      invariant ny - 1 <= j <= nx && |z| == nx + 1
      invariant Val(z[..j + 1]) < Val(y) * WordPow(j + 1 - ny)
      invariant Val(z[..j + 1]) + Val(z[j + 1..]) * (Val(y) * WordPow(j + 1 - ny)) == Val(zds)
      decreases j
    {
      var k := j - ny;
      var win := z[k..j + 1];
      DigitShape(z, k, ny, j);
      WindowBelow(z, k, ny, j, Val(y));
      var rem, q := DivideDigit(win, y);
      var z' := z[..k] + rem + [q] + z[j + 1..];
      ResultShape(z, z', k, ny, j, rem, q);
      DigitValue(z, z', k, ny, j, win, rem, q, Val(y), Val(zds));
      z := z';
      j := j - 1;
    }
    assert j + 1 - ny == 0;
  }

  /** The prefix up to the window's top is the part below the window and
      the window. */
  lemma DigitShape(z: seq<Word>, k: nat, ny: nat, j: nat)
    requires j == k + ny && j < |z|
    ensures z[..j + 1] == z[..k] + z[k..j + 1]
  {
  }

  /** The words after the step: the part below the window, the new low
      words, the digit, and the untouched words above. */
  lemma ResultShape(z: seq<Word>, z': seq<Word>, k: nat, ny: nat, j: nat, rem: seq<Word>, q: Word)
    requires j == k + ny && j < |z| && |rem| == ny
    requires z' == z[..k] + rem + [q] + z[j + 1..]
    ensures |z'| == |z|
    ensures z'[..j] == z[..k] + rem
    ensures z'[j..] == [q] + z[j + 1..]
  {
  }

  /** The prefix invariant bounds the window by BASE * v. */
  lemma WindowBelow(z: seq<Word>, k: nat, ny: nat, j: nat, v: nat)
    requires j == k + ny && j < |z|
    requires z[..j + 1] == z[..k] + z[k..j + 1]
    requires Val(z[..j + 1]) < v * WordPow(j + 1 - ny)
    ensures Val(z[k..j + 1]) < BASE * v
  {
    ValAppend(z[..k], z[k..j + 1]);
    WordPowSucc(k);
    WordPowPositive(k);
    assert j + 1 - ny == k + 1;
    WindowArith(Val(z[..j + 1]), Val(z[..k]), WordPow(k), Val(z[k..j + 1]), v, WordPow(k + 1));
  }

  lemma WindowArith(whole: int, lo: int, p: int, vw: int, v: int, pb: int)
    requires whole == lo + p * vw && whole < v * pb && pb == p * BASE && lo >= 0 && p >= 1
    ensures vw < BASE * v
  {
    assert vw * p < (BASE * v) * p;
    MulCancel(vw, BASE * v, p);
  }

  /** One digit step keeps the loop invariant of divide. */
  lemma DigitValue(z: seq<Word>, z': seq<Word>, k: nat, ny: nat, j: nat, win: seq<Word>,
                   rem: seq<Word>, q: Word, v: nat, d: nat)
    requires j == k + ny && ny >= 1 && j < |z| && |z'| == |z| && win == z[k..j + 1]
    requires z[..j + 1] == z[..k] + win
    requires z'[..j] == z[..k] + rem && z'[j..] == [q] + z[j + 1..]
    requires Val(rem) < v && Val(win) == q * v + Val(rem)
    requires Val(z[..j + 1]) + Val(z[j + 1..]) * (v * WordPow(j + 1 - ny)) == d
    ensures Val(z'[..j]) < v * WordPow(j - ny)
    ensures Val(z'[..j]) + Val(z'[j..]) * (v * WordPow(j - ny)) == d
  {
    ValAppend(z[..k], win);
    ValAppend(z[..k], rem);
    ValCons(q, z[j + 1..]);
    ValBound(z[..k]);
    WordPowSucc(k);
    assert j - ny == k && j + 1 - ny == k + 1;
    DigitArith(Val(z[..j + 1]), Val(z'[..j]), Val(z'[j..]), Val(z[..k]), Val(win), Val(rem),
      Val(z[j + 1..]), q, v, WordPow(k), WordPow(k + 1), d);
  }

  lemma DigitArith(before: int, lo': int, hi': int, lo: int, vw: int, vr: int, hi: int, q: int,
                   v: int, p: int, pb: int, d: int)
    requires before == lo + p * vw && lo' == lo + p * vr && hi' == q + BASE * hi
    requires 0 <= lo < p && 0 <= vr < v && vw == q * v + vr && pb == p * BASE
    requires before + hi * (v * pb) == d
    ensures lo' < v * p
    ensures lo' + hi' * (v * p) == d
  {
    assert p * vr <= p * (v - 1) by {
      MulLeftMonotone(p, vr, v - 1);
    }
    assert hi' * (v * p) == q * (v * p) + hi * (v * pb);
  }

  /** divMod(BigUnsigned, WordType) (bigmath.cpp:591-646): a zero divisor
      is an error, a divisor of 1 gives the dividend back, one word and
      two words whose top is below the divisor are divided directly, and
      otherwise the quotient words are produced from the top down, each
      from the running remainder and the next dividend word; the quotient
      is then normalized. */
  method DivModBigWord(a: seq<Word>, d: Word) returns (r: Result<Division>)
    requires Normal(a)
    ensures r.Err? <==> d == 0
    ensures r.Err? ==> r.error == DivisionByZero
    ensures r.Ok? ==> IsDivision(Val(a), d, r.value) && NormalDivision(r.value)
  {
    if d == 0 {
      return Err(DivisionByZero);
    }
    if d == 1 {
      ValSingle(0);
      return Ok(Division(a, [0]));
    }
    if |a| == 1 {
      ValSingle(a[0]);
      assert a == [a[0]];
      return WordDivMod(a[0], d);
    }
    if |a| == 2 && a[1] < d {
      var qr := DivideDoubleWord(a[1], a[0], d);
      TwoWords(a);
      ValSingle(qr.0);
      ValSingle(qr.1);
      return Ok(Division([qr.0], [qr.1]));
    }
    var quotient: seq<Word> := [];
    var remainder: Word := 0;
    var j := |a|;
    assert a[j..] == [];
    while j > 0
      invariant 0 <= j <= |a| && |quotient| == |a| - j
      invariant remainder < d
      invariant Val(a[j..]) == Val(quotient) * d + remainder
    {
      j := j - 1;
      var qr := DivideDoubleWord(remainder, a[j], d);
      assert a[j..] == [a[j]] + a[j + 1..];
      ValCons(a[j], a[j + 1..]);
      ValCons(qr.0, quotient);
      WordDivColumn(Val(a[j..]), Val(a[j + 1..]), a[j], Val(quotient), Val([qr.0] + quotient),
        qr.0, remainder, qr.1, d);
      quotient := [qr.0] + quotient;
      remainder := qr.1;
    }
    ValSingle(remainder);
    r := Ok(Division(Trim(quotient), [remainder]));
  }

  /** operator %(BigUnsigned, WordType): divMod(BigUnsigned, WordType)
      without a quotient (bigmath.cpp:591-634), whose general case runs the
      same loop keeping only the running remainder. */
  method ModWord(a: seq<Word>, d: Word) returns (r: Result<seq<Word>>)
    requires Normal(a)
    ensures r.Err? <==> d == 0
    ensures r.Err? ==> r.error == DivisionByZero
    ensures r.Ok? ==> Val(r.value) == Val(a) % d && Normal(r.value)
  {
    if d == 0 {
      return Err(DivisionByZero);
    }
    if d == 1 {
      ValSingle(0);
      return Ok([0]);
    }
    if |a| == 1 {
      ValSingle(a[0]);
      ValSingle(a[0] % d);
      assert a == [a[0]];
      return Ok([a[0] % d]);
    }
    if |a| == 2 && a[1] < d {
      var qr := DivideDoubleWord(a[1], a[0], d);
      TwoWords(a);
      ValSingle(qr.1);
      DivModUnique(Val(a), d, qr.0, qr.1);
      return Ok([qr.1]);
    }
    ghost var quotient: nat := 0;
    var remainder: Word := 0;
    var j := |a|;
    assert a[j..] == [];
    while j > 0
      invariant 0 <= j <= |a|
      invariant remainder < d
      invariant Val(a[j..]) == quotient * d + remainder
    {
      j := j - 1;
      var qr := DivideDoubleWord(remainder, a[j], d);
      assert a[j..] == [a[j]] + a[j + 1..];
      ValCons(a[j], a[j + 1..]);
      WordDivColumn(Val(a[j..]), Val(a[j + 1..]), a[j], quotient, qr.0 + BASE * quotient,
        qr.0, remainder, qr.1, d);
      quotient := qr.0 + BASE * quotient;
      remainder := qr.1;
    }
    ValSingle(remainder);
    DivModUnique(Val(a), d, quotient, remainder);
    r := Ok([remainder]);
  }

  /** Two words are the double word hi:lo. */
  lemma TwoWords(a: seq<Word>)
    requires |a| == 2
    ensures Val(a) == a[1] * BASE + a[0]
  {
    assert a == [a[0]] + [a[1]];
    ValCons(a[0], [a[1]]);
    ValSingle(a[1]);
  }

  /** One step of the word division loop: the remainder and the next word
      form a double word whose quotient is the next quotient word. */
  lemma WordDivColumn(va': int, va: int, w: int, vq: int, vq': int, q: int, rem: int, rem': int, d: int)
    requires va' == w + BASE * va && vq' == q + BASE * vq
    requires va == vq * d + rem && q * d + rem' == rem * BASE + w
    ensures va' == vq' * d + rem'
  {
    assert BASE * va == (BASE * vq) * d + BASE * rem;
  }

  /** The words of zero padding divMod adds on top of the dividend before
      divide: two when the divisor must be shifted or is as long as the
      dividend, one otherwise. The quotient gets |a| + Headroom(a, b) - |b|
      words. */
  function Headroom(a: seq<Word>, b: seq<Word>): (r: nat)
    requires |b| >= 1
    ensures 1 <= r <= 2
    ensures r == 1 <==> b[|b| - 1] >= 0x8000_0000 && |a| != |b|
  {
    if b[|b| - 1] < 0x8000_0000 || |a| == |b| then 2 else 1
  }

  /** The long-division path of divMod(BigUnsigned, BigUnsigned)
      (bigmath.cpp:538-575), as written: the divisor and dividend are
      shifted left until the divisor's top bit is set (the dividend grown
      by two words first), or the dividend grown by two or one zero words;
      divide runs on them; the remainder is shifted back and normalized;
      the quotient words are copied out without normalize(). */
  method LongDivide(a: seq<Word>, b: seq<Word>) returns (quotient: seq<Word>, remainder: seq<Word>)
    requires Normal(a) && Normal(b) && |a| >= 2 && |b| >= 2 && Val(a) > Val(b)
    ensures IsDivision(Val(a), Val(b), Division(quotient, remainder)) && Normal(remainder)
    ensures |quotient| == |a| + Headroom(a, b) - |b|
  {
    if |a| < |b| {
      NormalSizeOrder(a, b);
    }
    var sh := CountLeadingZeros(b[|b| - 1]);
    ShiftNeeded(b[|b| - 1], sh);
    var zds: seq<Word>;
    var y: seq<Word>;
    if sh != 0 {
      var buf := Shifts.Expanded(a, |a| + 2);
      var low := Shifts.LshiftWords(buf[..|a| + 1], sh);
      zds := low + buf[|a| + 1..];
      y := Shifts.LshiftWords(b, sh);
      PaddedShape(a, buf);
      SpillOfPadded(a, sh);
      SpillOfTop(b, sh);
      ValPush(a, 0);
      ValPush(low, 0);
    } else {
      zds := Shifts.Expanded(a, |a| + Headroom(a, b));
      y := b;
      ValPadded(a, Headroom(a, b));
      assert Pow2(0) == 1;
    }
    ValBound(a);
    NormalLower(b);
    DivideFits(Val(a), Val(b), Pow2(sh), |a|, |b|, |zds|, Val(zds), Val(y));
    var z := Divide(zds, |zds| - 1, y);
    var shifted := Shifts.RshiftWords(z[..|y|], sh);
    remainder := Trim(shifted);
    quotient := z[|y|..];
    Unshift(Val(a), Val(b), Pow2(sh), Val(quotient), Val(z[..|y|]), Val(shifted), Val(y), Val(zds));
  }

  /** countLeadingZeros leaves the divisor unshifted exactly when its top
      bit is already set. */
  lemma ShiftNeeded(top: Word, sh: nat)
    requires sh < BITS && 0x8000_0000 <= top * Pow2(sh) < BASE
    ensures sh != 0 <==> top < 0x8000_0000
  {
    if sh == 0 {
      assert Pow2(0) == 1;
    } else {
      Pow2Succ(sh - 1);
      Pow2Positive(sh - 1);
      MulLeftMonotone(top, 2, Pow2(sh));
    }
  }

  /** The dividend grown by two zero words: its first |a| + 1 words are
      the dividend and a zero, and the last word is zero. */
  lemma PaddedShape(a: seq<Word>, buf: seq<Word>)
    requires buf == Shifts.Expanded(a, |a| + 2)
    ensures buf[..|a| + 1] == a + [0] && buf[|a| + 1..] == [0]
  {
  }

  lemma SpillOfPadded(a: seq<Word>, sh: nat)
    requires sh < BITS
    ensures Shifts.Spill(a + [0], sh) == 0
  {
  }

  /** Shifting the divisor by its leading zeros spills nothing. */
  lemma SpillOfTop(b: seq<Word>, sh: nat)
    requires |b| >= 1 && 0 < sh < BITS && b[|b| - 1] * Pow2(sh) < BASE
    ensures Shifts.Spill(b, sh) == 0
  {
    var top := b[|b| - 1];
    Pow2Split(sh);
    assert top * Pow2(sh) < Pow2(BITS - sh) * Pow2(sh);
    MulCancel(top, Pow2(BITS - sh), Pow2(sh));
    DivModUnique(top, Pow2(BITS - sh), 0, top);
  }

  /** The padded and shifted dividend is below the shifted divisor times
      BASE^(|zds| - |b|), as divide needs. */
  lemma DivideFits(va: nat, vb: nat, m: nat, la: nat, lb: nat, lz: nat, vz: nat, vy: nat)
    requires 1 <= lb <= la && la + 1 <= lz && m >= 1
    requires va < WordPow(la) && vb >= WordPow(lb - 1)
    requires vz == va * m && vy == vb * m
    ensures vz < vy * WordPow(lz - lb)
  {
    WordPowAdd(la + 1 - lb, lb - 1);
    PowMonotone(BASE, la + 1 - lb, lz - lb);
    var e := WordPow(lz - lb);
    assert va < e * vb by {
      MulLeftMonotone(WordPow(la + 1 - lb), WordPow(lb - 1), vb);
      MulLeftMonotone(vb, WordPow(la + 1 - lb), e);
    }
    assert va * m < (e * vb) * m by {
      MulStrict(m, va, e * vb);
    }
  }

  /** Undoing the normalization shift: dividing the shifted remainder by
      2^sh gives the remainder of the unshifted operands. */
  lemma Unshift(va: nat, vb: nat, m: nat, q: nat, rs: nat, r: nat, vy: nat, vz: nat)
    requires m >= 1 && vy == vb * m && vz == va * m
    requires q * vy + rs == vz && rs < vy && r == rs / m
    ensures q * vb + r == va && r < vb
  {
    assert rs == m * (va - q * vb);
    assert m * (va - q * vb) >= 0;
    if va - q * vb < 0 {
      MulLeftMonotone(m, 0, q * vb - va);
    }
    DivModUnique(rs, m, va - q * vb, 0);
    assert (va - q * vb) * m < vb * m;
    MulCancel(va - q * vb, vb, m);
  }

  /** divMod(BigUnsigned, BigUnsigned) (bigmath.cpp:505-576), as written:
      single-word operands go to the word overloads, a dividend below the
      divisor gives 0 remainder dividend, equal operands give 1 remainder
      0, and otherwise the long division runs. Its quotient is not
      normalized: whenever two words of headroom were added it carries a
      zero top word. */
  method DivModAsWritten(a: seq<Word>, b: seq<Word>) returns (r: Result<Division>)
    requires Normal(a) && Normal(b)
    ensures r.Err? <==> Val(b) == 0
    ensures r.Err? ==> r.error == DivisionByZero
    ensures r.Ok? ==> IsDivision(Val(a), Val(b), r.value) && Normal(r.value.remainder)
    ensures r.Ok? ==> |r.value.quotient| >= 1 && LongQuotientShape(a, b, r.value.quotient)
  {
    if |a| == 1 && |b| == 1 {
      assert a == [a[0]] && b == [b[0]];
      ValSingle(a[0]);
      ValSingle(b[0]);
      return WordDivMod(a[0], b[0]);
    }
    if |a| == 1 {
      assert a == [a[0]];
      ValSingle(a[0]);
      return DivModWordBig(a[0], b);
    }
    if |b| == 1 {
      assert b == [b[0]];
      ValSingle(b[0]);
      r := DivModBigWord(a, b[0]);
      return;
    }
    NormalLower(b);
    WordPowPositive(|b| - 1);
    var less := Less(a, b);
    if less {
      ValSingle(0);
      return Ok(Division([0], a));
    }
    var equal := Equal(a, b);
    if equal {
      ValSingle(1);
      ValSingle(0);
      return Ok(Division([1], [0]));
    }
    EqualValue(a, b);
    var quotient, remainder := LongDivide(a, b);
    if Headroom(a, b) == 2 {
      ValBound(a);
      QuotientTopZero(Val(a), Val(b), quotient, remainder, |a|, |b|);
    }
    return Ok(Division(quotient, remainder));
  }

  /** The shape of the quotient the long division path copies out: its
      length follows the headroom, and with two words of headroom it is
      not in normal form. */
  predicate LongQuotientShape(a: seq<Word>, b: seq<Word>, quotient: seq<Word>)
  {
    |a| >= 2 && |b| >= 2 && Val(a) > Val(b) ==>
      |quotient| == |a| + Headroom(a, b) - |b| &&
      (Headroom(a, b) == 2 ==> !Normal(quotient))
  }

  /** With two words of headroom the quotient has one word more than its
      value can fill: its top word is zero. */
  lemma QuotientTopZero(va: nat, vb: nat, quotient: seq<Word>, remainder: seq<Word>, la: nat, lb: nat)
    requires 1 <= lb <= la && |quotient| == la + 2 - lb
    requires va < WordPow(la) && vb >= WordPow(lb - 1)
    requires IsDivision(va, vb, Division(quotient, remainder))
    ensures !Normal(quotient) && quotient[|quotient| - 1] == 0
  {
    var n := |quotient|;
    WordPowAdd(n - 1, lb - 1);
    WordPowPositive(lb - 1);
    QuotientBelow(Val(quotient), vb, va, WordPow(n - 1), WordPow(lb - 1), WordPow(la));
    ValLast(quotient);
    TopWordZero(Val(quotient), Val(quotient[..n - 1]), WordPow(n - 1), quotient[n - 1]);
  }

  lemma QuotientBelow(vq: nat, vb: nat, va: nat, p: nat, pb: nat, pa: nat)
    requires vq * vb <= va < pa && pa == p * pb && 0 < pb <= vb
    ensures vq < p
  {
    MulLeftMonotone(p, pb, vb);
    MulCancel(vq, p, vb);
  }

  lemma TopWordZero(v: nat, low: nat, p: nat, t: nat)
    requires v == low + p * t && v < p
    ensures t == 0
  {
    assert t * p < 1 * p;
    MulCancel(t, 1, p);
  }

  /** divMod(BigUnsigned, BigUnsigned) with its quotient normalized, as
      the other overloads and the rest of the class expect: the result is
      the integer quotient and remainder in normal form. */
  method DivMod(a: seq<Word>, b: seq<Word>) returns (r: Result<Division>)
    requires Normal(a) && Normal(b)
    ensures r.Err? <==> Val(b) == 0
    ensures r.Err? ==> r.error == DivisionByZero
    ensures r.Ok? ==> IsDivision(Val(a), Val(b), r.value) && NormalDivision(r.value)
    ensures r.Ok? ==> Val(b) > 0 && r.value == IntegerDivision(Val(a), Val(b))
  {
    r := DivModAsWritten(a, b);
    if r.Ok? {
      var d := Division(Trim(r.value.quotient), r.value.remainder);
      DivisionUnique(Val(a), Val(b), d);
      r := Ok(d);
    }
  }

  /** The smallest input the unnormalized quotient shows on: 2^33 / 2^32
      has two words of headroom, so its quotient is the two words [2, 0],
      which operator ==(BigUnsigned, WordType) finds unequal to 2. */
  lemma QuotientNotNormal(quotient: seq<Word>)
    requires |quotient| == |[0, 2]| + Headroom([0, 2], [0, 1]) - |[0, 1]|
    requires IsDivision(Val([0, 2]), Val([0, 1]), Division(quotient, [0]))
    ensures quotient == [2, 0] && !EqualsWord(quotient, 2)
  {
    TwoWords([0, 2]);
    TwoWords([0, 1]);
    TwoWords(quotient);
    ValSingle(0);
  }
}
