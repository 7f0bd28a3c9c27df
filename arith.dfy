/** Addition, subtraction and multiplication of bigmath.cpp on the words of
    the operands. Each method follows the loop of the operator it models,
    writing the result's words one at a time, and ends with normalize(),
    whose effect is the function Trim. */
module Arith {
  import opened Numbers
  import opened Words
  import opened Limbs
  import opened Order
  import opened Errors

  /** operator +=(WordType) (bigmath.cpp:246-261): add the word to the
      bottom word; on a carry, grow by one zero word and ripple the carry
      up by incrementing words until one does not wrap. */
  method AddWord(a: seq<Word>, b: Word) returns (r: seq<Word>)
    requires |a| >= 1
    ensures Val(r) == Val(a) + b
    ensures Normal(a) ==> Normal(r)
    ensures |r| <= |a| + 1
  {
    var sum := AddWithCarry(a[0], b, false);
    var words: seq<Word> := a[0 := sum.0];
    ValUpdate(a, 0, sum.0);
    if !sum.1 {
      return words;
    }
    assert Zeros(1) == [0];
    ValPadded(words, 1);
    words := words + [0];
    ghost var top := words;
    assert WordPow(1) == BASE && WordPow(0) == 1;
    var i := 1;
    while i < |words|
      invariant 1 <= i <= |a| && |words| == |a| + 1
      invariant words[i..] == top[i..]
      invariant Val(words) + WordPow(i) == Val(a) + b
    {
      var w := words[i];
      ValUpdate(words, i, (w + 1) % BASE);
      WordPowAdd(i, 1);
      IncrementStep(Val(words), Val(words[i := (w + 1) % BASE]), WordPow(i), w);
      words := words[i := (w + 1) % BASE];
      if w != WORD_MAX {
        break;
      }
      i := i + 1;
    }
    r := Trim(words);
  }

  /** operator +=(BigUnsigned) (bigmath.cpp:225-244): a one-word addend
      goes to the word version; otherwise the sum is formed in
      max(size, b.size) + 1 words with a ripple carry that stops early once
      the addend's words are used up and no carry is left. */
  method Add(a: seq<Word>, b: seq<Word>) returns (r: seq<Word>)
    requires |a| >= 1 && |b| >= 1
    ensures Val(r) == Val(a) + Val(b)
    ensures |b| > 1 || Normal(a) ==> Normal(r)
    ensures |r| <= Max(|a|, |b|) + 1
  {
    if |b| == 1 {
      ValSingle(b[0]);
      assert b == [b[0]];
      r := AddWord(a, b[0]);
      return;
    }
    var words := RippleAdd(a, b);
    r := Trim(words);
  }

  /** The carry loop of Add over a buffer of max(|a|, |b|) + 1 words that
      starts as a copy of a: word i takes a[i] + b[i] + carry, and once the
      words of b are used up the loop stops as soon as no carry is left. */
  method RippleAdd(a: seq<Word>, b: seq<Word>) returns (words: seq<Word>)
    ensures |words| == Max(|a|, |b|) + 1
    ensures Val(words) == Val(a) + Val(b)
  {
    var size := Max(|a|, |b|) + 1;
    words := a + Zeros(size - |a|);
    ValPadded(a, size - |a|);
    assert b[..0] == [];
    var carry := false;
    var i := 0;
    while i < size
      invariant 0 <= i <= size && |words| == size
      invariant Val(words) + Bit(carry) * WordPow(i) == Val(a) + Val(b[..Min(i, |b|)])
    {
      var bWord := 0;
      if i < |b| {
        bWord := b[i];
      } else if !carry {
        assert b[..Min(i, |b|)] == b;
        break;
      }
      var sum := AddWithCarry(words[i], bWord, carry);
      AddColumn(words, b, Val(a), i, bWord, carry);
      words := words[i := sum.0];
      carry := sum.1;
      i := i + 1;
    }
    if i == size {
      assert b[..Min(i, |b|)] == b;
      NoTopCarry(words, a, b, carry);
    }
  }

  /** One column of the addition loop keeps its invariant: the word i of
      the buffer is replaced by the low half of its sum with b's word and
      the carry. */
  lemma AddColumn(words: seq<Word>, b: seq<Word>, va: nat, i: nat, bWord: Word, carry: bool)
    requires i < |words| && bWord == (if i < |b| then b[i] else 0)
    requires Val(words) + Bit(carry) * WordPow(i) == va + Val(b[..Min(i, |b|)])
    ensures var sum := AddWithCarry(words[i], bWord, carry);
      Val(words[i := sum.0]) + Bit(sum.1) * WordPow(i + 1) == va + Val(b[..Min(i + 1, |b|)])
  {
    var sum := AddWithCarry(words[i], bWord, carry);
    ValUpdate(words, i, sum.0);
    WordPowSucc(i);
    if i < |b| {
      ValPrefix(b, i);
    }
    RippleStep(Val(words), Val(words[i := sum.0]), WordPow(i), WordPow(i + 1), words[i], sum.0,
      bWord, Bit(carry), Bit(sum.1), va, Val(b[..Min(i, |b|)]), Val(b[..Min(i + 1, |b|)]));
  }

  /** A carry out of the top word cannot happen: the extra word holds it. */
  lemma NoTopCarry(words: seq<Word>, a: seq<Word>, b: seq<Word>, carry: bool)
    requires |a| < |words| && |b| < |words|
    requires Val(words) + Bit(carry) * WordPow(|words|) == Val(a) + Val(b)
    ensures !carry
  {
    ValBound(a);
    ValBound(b);
    PowMonotone(BASE, |a|, |words| - 1);
    PowMonotone(BASE, |b|, |words| - 1);
    WordPowSucc(|words| - 1);
    CarryBelow(Val(words), Val(a), Val(b), carry, WordPow(|words| - 1), WordPow(|words|));
  }

  lemma CarryBelow(v: nat, va: nat, vb: nat, carry: bool, p: nat, w: nat)
    requires va < p && vb < p && w == p * BASE && v + Bit(carry) * w == va + vb
    ensures !carry
  {
    BitTimes(carry, w);
  }

  lemma BitTimes(b: bool, x: nat)
    ensures Bit(b) * x == if b then x else 0
  {
  }

  /** One column of a ripple-carry addition: the old word o at weight p is
      replaced by n, with n + cout * BASE == o + bw + cin. */
  lemma RippleStep(v: nat, v': nat, p: nat, q: nat, o: nat, n: nat, bw: nat, cin: nat, cout: nat,
                   va: nat, vb: nat, vb': nat)
    requires v' + p * o == v + p * n && q == p * BASE
    requires v + cin * p == va + vb && vb' == vb + p * bw
    requires n + cout * BASE == o + bw + cin
    ensures v' + cout * q == va + vb'
  {
    assert p * (n + cout * BASE) == p * (o + bw + cin);
  }

  /** Incrementing the word of weight p either absorbs a carry of p or, on
      wrap-around, passes a carry of p * BASE up. */
  lemma IncrementStep(before: nat, after: nat, p: nat, w: Word)
    requires after + p * w == before + p * ((w + 1) % BASE)
    ensures w != WORD_MAX ==> after == before + p
    ensures w == WORD_MAX ==> after + p * BASE == before + p
  {
  }

  /** operator -=(BigUnsigned) (bigmath.cpp:263-284): a minuend below the
      subtrahend is an error; otherwise a borrow chain over the subtrahend's
      words, a decrement ripple while the borrow lasts, and normalize(). */
  method Sub(a: seq<Word>, b: seq<Word>) returns (r: Result<seq<Word>>)
    requires Normal(a) && Normal(b)
    ensures r.Err? <==> Val(a) < Val(b)
    ensures r.Err? ==> r.error == NegativeResult
    ensures r.Ok? ==> Normal(r.value) && Val(r.value) == Val(a) - Val(b)
  {
    var less := Less(a, b);
    if less {
      return Err(NegativeResult);
    }
    var words: seq<Word> := a;
    var borrow := false;
    var i := 0;
    assert b[..0] == [];
    while i < |b|
      invariant 0 <= i <= |b| <= |words| == |a|
      invariant Val(words) + Val(b[..i]) == Val(a) + Bit(borrow) * WordPow(i)
    {
      var diff := SubtractWithBorrow(words[i], b[i], borrow);
      SubColumn(words, b, Val(a), i, borrow);
      words := words[i := diff.0];
      borrow := diff.1;
      i := i + 1;
    }
    assert b[..i] == b;
    SubValue(Val(words), Val(a), Val(b), borrow, WordPow(i));
    if borrow {
      words := BorrowRipple(words, i);
    }
    r := Ok(Trim(words));
  }

  /** The decrement loop shared by both subtractions (bigmath.cpp:276-281
      and 297-301): words[i]-- from `start` up, stopping at the first word
      that was not zero. The value covers the borrow, so the loop always
      stops inside the sequence. */
  method BorrowRipple(words: seq<Word>, start: nat) returns (r: seq<Word>)
    requires start <= |words| && Val(words) >= WordPow(start)
    ensures |r| == |words| && r[..start] == words[..start]
    ensures Val(r) + WordPow(start) == Val(words)
  {
    r := words;
    var i := start;
    while i < |r|
      invariant start <= i <= |r| == |words|
      invariant r[..start] == words[..start]
      invariant Val(r) + WordPow(start) == Val(words) + WordPow(i)
    {
      var w := r[i];
      ValUpdate(r, i, (w + WORD_MAX) % BASE);
      WordPowAdd(i, 1);
      DecrementStep(Val(r), Val(r[i := (w + WORD_MAX) % BASE]), WordPow(i), w);
      r := r[i := (w + WORD_MAX) % BASE];
      if w != 0 {
        assert Val(r) + WordPow(start) == Val(words);
        return;
      }
      i := i + 1;
    }
    ValBound(r);
  }

  /** One column of the subtraction loop keeps its invariant: word i of
      the buffer is replaced by the low half of its difference with b's
      word and the borrow. */
  lemma SubColumn(words: seq<Word>, b: seq<Word>, va: nat, i: nat, borrow: bool)
    requires i < |b| && i < |words|
    requires Val(words) + Val(b[..i]) == va + Bit(borrow) * WordPow(i)
    ensures var diff := SubtractWithBorrow(words[i], b[i], borrow);
      Val(words[i := diff.0]) + Val(b[..i + 1]) == va + Bit(diff.1) * WordPow(i + 1)
  {
    var diff := SubtractWithBorrow(words[i], b[i], borrow);
    ValUpdate(words, i, diff.0);
    WordPowSucc(i);
    ValPrefix(b, i);
    BorrowStep(Val(words), Val(words[i := diff.0]), WordPow(i), WordPow(i + 1), words[i], diff.0,
      b[i], Bit(borrow), Bit(diff.1), va, Val(b[..i]), Val(b[..i + 1]));
  }

  /** One column of a ripple-borrow subtraction: the old word o at weight p
      is replaced by n, with n - bout * BASE == o - bw - bin. */
  lemma BorrowStep(v: nat, v': nat, p: nat, q: nat, o: nat, n: nat, bw: nat, bin: nat, bout: nat,
                   va: nat, vb: nat, vb': nat)
    requires v' + p * o == v + p * n && q == p * BASE
    requires v + vb == va + bin * p && vb' == vb + p * bw
    requires o - bw - bin == n - bout * BASE
    ensures v' + vb' == va + bout * q
  {
    assert p * (o + bout * BASE) == p * (n + bw + bin);
  }

  /** With the minuend at least the subtrahend, a final borrow is covered
      by the words above the subtrahend's. */
  lemma SubValue(v: nat, va: nat, vb: nat, borrow: bool, p: nat)
    requires va >= vb && v + vb == va + Bit(borrow) * p
    ensures borrow ==> v >= p
    ensures v - Bit(borrow) * p == va - vb
  {
    BitTimes(borrow, p);
  }

  /** Decrementing the word of weight p either settles a borrow of p or, on
      wrap-around from 0, passes a borrow of p * BASE up. */
  lemma DecrementStep(before: nat, after: nat, p: nat, w: Word)
    requires after + p * w == before + p * ((w + WORD_MAX) % BASE)
    ensures w != 0 ==> after + p == before
    ensures w == 0 ==> after + p == before + p * BASE
  {
    if w != 0 {
      assert (w + WORD_MAX) % BASE == w - 1;
    }
  }

  /** operator -=(WordType) (bigmath.cpp:286-304): the error test is
      b > *this; without a borrow the value is returned as it is, without
      normalize(). */
  method SubWord(a: seq<Word>, b: Word) returns (r: Result<seq<Word>>)
    requires Normal(a)
    ensures r.Err? <==> Val(a) < b
    ensures r.Err? ==> r.error == NegativeResult
    ensures r.Ok? ==> Normal(r.value) && Val(r.value) == Val(a) - b
  {
    if WordGreaterThan(b, a) {
      return Err(NegativeResult);
    }
    NormalValWord(a);
    var diff := SubtractWithBorrow(a[0], b, false);
    var words: seq<Word> := a[0 := diff.0];
    ValUpdate(a, 0, diff.0);
    assert WordPow(0) == 1 && WordPow(1) == BASE;
    if !diff.1 {
      return Ok(words);
    }
    words := BorrowRipple(words, 1);
    r := Ok(Trim(words));
  }

  /** operator -(WordType, BigUnsigned) (bigmath.h:344-355): a word minus
      a value; when the word is not below the value, the value is one word
      and the difference replaces it. */
  method WordMinus(a: Word, b: seq<Word>) returns (r: Result<seq<Word>>)
    requires Normal(b)
    ensures r.Err? <==> a < Val(b)
    ensures r.Err? ==> r.error == NegativeResult
    ensures r.Ok? ==> Normal(r.value) && Val(r.value) == a - Val(b)
  {
    NormalValWord(b);
    if GreaterThanWord(b, a) {
      return Err(NegativeResult);
    }
    ValSingle(a - b[0]);
    r := Ok(b[0 := a - b[0]]);
    assert r.value == [a - b[0]];
  }

  /** A normalized zero is the single word 0. */
  lemma NormalZero(r: seq<Word>)
    requires Normal(r) && Val(r) == 0
    ensures r == [0]
  {
    ValSingle(0);
    NormalUnique(r, [0]);
  }

  /** operator *(BigUnsigned, WordType) (bigmath.cpp:306-333): 0 and 1 are
      answered directly, a one-word value by one double-word product, and a
      longer one by a carry chain over its own words grown by one word. */
  method MulWord(a: seq<Word>, b: Word) returns (r: seq<Word>)
    requires |a| >= 1
    ensures Val(r) == Val(a) * b
    ensures |r| <= |a| + 1
    ensures Normal(a) || b != 1 ==> Normal(r)
    ensures b == 0 ==> r == [0]
  {
    if b == 0 {
      ValSingle(0);
      return [0];
    }
    if b == 1 {
      return a;
    }
    if |a| == 1 {
      ValSingle(a[0]);
      var prod := MultiplyDoubleWord(a[0], b);
      if prod.0 == 0 {
        ValSingle(prod.1);
        return [prod.1];
      }
      r := [prod.1, prod.0];
      ValAppend([prod.1], [prod.0]);
      ValSingle(prod.1);
      ValSingle(prod.0);
      assert WordPow(1) == BASE;
      return;
    }
    var words := ScaleRow(a + [0], a, b);
    assert words[..|a| + 1] == words;
    r := Trim(words);
  }

  /** The first row of a product: word j of the destination becomes the low
      half of a[j] * w plus the running carry, and the last carry lands on
      word |a|. Words above |a| are left alone. */
  method ScaleRow(dest: seq<Word>, a: seq<Word>, w: Word) returns (r: seq<Word>)
    requires |a| < |dest|
    ensures |r| == |dest| && forall k :: |a| < k < |r| ==> r[k] == dest[k]
    ensures Val(r[..|a| + 1]) == Val(a) * w
  {
    r := dest;
    var carry: Word := 0;
    var j := 0;
    while j < |a|
      invariant 0 <= j <= |a| && |r| == |dest|
      invariant r[j..] == dest[j..]
      invariant Val(r[..j]) + carry * WordPow(j) == Val(a[..j]) * w
    {
      var prod := MultiplyDoubleWordAndAdd(a[j], w, carry);
      ScaleColumn(r, a, j, w, carry);
      r := r[j := prod.1];
      carry := prod.0;
      j := j + 1;
    }
    assert a[..j] == a;
    assert r[|a| := carry][..j] == r[..j];
    assert r[|a| := carry][j + 1..] == r[j + 1..];
    r := r[|a| := carry];
    ValPrefix(r, j);
  }

  /** One column of ScaleRow keeps its invariant. */
  lemma ScaleColumn(r: seq<Word>, a: seq<Word>, j: nat, w: Word, carry: Word)
    requires j < |a| && j < |r|
    requires Val(r[..j]) + carry * WordPow(j) == Val(a[..j]) * w
    ensures var prod := MultiplyDoubleWordAndAdd(a[j], w, carry);
      Val(r[j := prod.1][..j + 1]) + prod.0 * WordPow(j + 1) == Val(a[..j + 1]) * w
      && r[j := prod.1][j + 1..] == r[j + 1..]
  {
    var prod := MultiplyDoubleWordAndAdd(a[j], w, carry);
    ValPrefix(r[j := prod.1], j);
    ValPrefix(a, j);
    WordPowAdd(j, 1);
    assert r[j := prod.1][..j] == r[..j];
    MulStep(Val(r[..j]), Val(a[..j]), WordPow(j), prod.1, a[j], w, carry, prod.0);
  }

  /** One column of a multiply-accumulate chain, scaled by its weight p. */
  lemma MulStep(low: nat, lowA: nat, p: nat, w: nat, aw: nat, b: nat, cin: nat, cout: nat)
    requires low + cin * p == lowA * b
    requires aw * b + cin == cout * BASE + w
    ensures (low + p * w) + cout * (p * BASE) == (lowA + p * aw) * b
  {
    calc {
      (low + p * w) + cout * (p * BASE);
      low + p * (w + cout * BASE);
      low + p * (aw * b + cin);
      low + cin * p + p * (aw * b);
      lowA * b + (p * aw) * b;
    }
  }

  /** operator *(BigUnsigned, BigUnsigned) (bigmath.cpp:335-359): the
      longer operand is a; a one-word b goes to the word version; otherwise
      a zeroed buffer of |a| + |b| words takes the first row a * b[0] and
      then accumulates each further row a * b[i] at word offset i. */
  method Mul(a: seq<Word>, b: seq<Word>) returns (r: seq<Word>)
    requires |a| >= 1 && |b| >= 1
    ensures Val(r) == Val(a) * Val(b)
    ensures |r| <= |a| + |b|
    ensures Normal(a) && Normal(b) ==> Normal(r)
  {
    var x, y := a, b;
    if |x| < |y| {
      x, y := b, a;
    }
    assert Val(x) * Val(y) == Val(a) * Val(b);
    if |y| == 1 {
      ValSingle(y[0]);
      assert y == [y[0]];
      r := MulWord(x, y[0]);
      return;
    }
    var words := MulRows(x, y);
    r := Trim(words);
  }

  /** The schoolbook product of Mul for |a| >= |b| >= 2, before normalize(). */
  method MulRows(x: seq<Word>, y: seq<Word>) returns (words: seq<Word>)
    requires |x| >= |y| >= 2
    ensures |words| == |x| + |y|
    ensures Val(words) == Val(x) * Val(y)
  {
    words := ScaleRow(Zeros(|x| + |y|), x, y[0]);
    assert forall k :: |x| < k < |words| ==> words[k] == Zeros(|x| + |y|)[k];
    ProductFirstRow(words, x, y);
    var i := 1;
    while i < |y|
      invariant 1 <= i <= |y| && |words| == |x| + |y|
      invariant forall k :: i + |x| <= k < |words| ==> words[k] == 0
      invariant Val(words) == Val(x) * Val(y[..i])
    {
      var next := AccumulateRow(words, x, y[i], i);
      ProductRow(words, next, x, y, i);
      words := next;
      i := i + 1;
    }
    assert y[..i] == y;
  }

  /** After the first row the buffer holds a * b[0]: its words above |a|
      are still zero. */
  lemma ProductFirstRow(words: seq<Word>, x: seq<Word>, y: seq<Word>)
    requires |y| >= 1 && |words| == |x| + |y|
    requires forall k :: |x| < k < |words| ==> words[k] == 0
    requires Val(words[..|x| + 1]) == Val(x) * y[0]
    ensures Val(words) == Val(x) * Val(y[..1])
  {
    ValZeroTail(words, |x| + 1);
    assert y[..1] == [y[0]];
    ValSingle(y[0]);
  }

  /** Adding row a * b[i] at weight BASE^i extends the product by word i
      of b. */
  lemma ProductRow(words: seq<Word>, next: seq<Word>, x: seq<Word>, y: seq<Word>, i: nat)
    requires i < |y|
    requires Val(words) == Val(x) * Val(y[..i])
    requires Val(next) == Val(words) + WordPow(i) * (Val(x) * y[i])
    ensures Val(next) == Val(x) * Val(y[..i + 1])
  {
    ValPrefix(y, i);
    RowArithmetic(Val(words), Val(x), Val(y[..i]), Val(y[..i + 1]), WordPow(i), y[i]);
  }

  lemma RowArithmetic(before: nat, va: nat, vb: nat, vb': nat, p: nat, w: nat)
    requires before == va * vb && vb' == vb + p * w
    ensures before + p * (va * w) == va * vb'
  {
    calc {
      va * (vb + p * w);
      va * vb + va * (p * w);
      { MulAssoc(va, p, w); MulAssoc(p, va, w); }
      before + p * (va * w);
    }
  }

  /** A later row of a product: a * w is added into the buffer at word
      offset off, column by column with a carry, and the final carry is
      stored in the word above the row, which is still zero. */
  method AccumulateRow(acc: seq<Word>, a: seq<Word>, w: Word, off: nat) returns (r: seq<Word>)
    requires off + |a| < |acc|
    requires forall k :: off + |a| <= k < |acc| ==> acc[k] == 0
    ensures |r| == |acc|
    ensures forall k :: off + |a| + 1 <= k < |r| ==> r[k] == 0
    ensures Val(r) == Val(acc) + WordPow(off) * (Val(a) * w)
  {
    r := acc;
    var carry: Word := 0;
    var j := 0;
    while j < |a|
      invariant 0 <= j <= |a| && |r| == |acc|
      invariant r[off + j..] == acc[off + j..]
      invariant Val(r) + carry * WordPow(off + j) == Val(acc) + WordPow(off) * (Val(a[..j]) * w)
    {
      var prod := MultiplyDoubleWordAndAddTwo(a[j], w, carry, r[off + j]);
      AccumulateColumn(r, acc, a, off, j, w, carry);
      r := r[off + j := prod.1];
      carry := prod.0;
      j := j + 1;
    }
    AccumulateTop(r, acc, a, off, w, carry);
    r := r[off + |a| := carry];
  }

  /** Storing the last carry above the row completes AccumulateRow. */
  lemma AccumulateTop(r: seq<Word>, acc: seq<Word>, a: seq<Word>, off: nat, w: Word, carry: Word)
    requires off + |a| < |r| == |acc|
    requires forall k :: off + |a| <= k < |acc| ==> acc[k] == 0
    requires r[off + |a|..] == acc[off + |a|..]
    requires Val(r) + carry * WordPow(off + |a|) == Val(acc) + WordPow(off) * (Val(a[..|a|]) * w)
    ensures var last := r[off + |a| := carry];
      (forall k :: off + |a| + 1 <= k < |r| ==> last[k] == 0)
      && Val(last) == Val(acc) + WordPow(off) * (Val(a) * w)
  {
    var top := off + |a|;
    assert a[..|a|] == a;
    assert r[top] == acc[top..][0];
    ValUpdate(r, top, carry);
    ZeroSlot(Val(r[top := carry]), Val(r), WordPow(top), r[top], carry);
    forall k | top + 1 <= k < |r|
      ensures r[k] == 0
    {
      assert r[k] == r[top..][k - top];
    }
  }

  lemma ZeroSlot(after: nat, before: nat, p: nat, o: nat, c: nat)
    requires o == 0 && after + p * o == before + p * c
    ensures after == before + c * p
  {
  }

  /** One column of AccumulateRow keeps its invariant. */
  lemma AccumulateColumn(r: seq<Word>, acc: seq<Word>, a: seq<Word>, off: nat, j: nat, w: Word, carry: Word)
    requires j < |a| && off + j < |r| == |acc|
    requires r[off + j..] == acc[off + j..]
    requires Val(r) + carry * WordPow(off + j) == Val(acc) + WordPow(off) * (Val(a[..j]) * w)
    ensures var prod := MultiplyDoubleWordAndAddTwo(a[j], w, carry, r[off + j]);
      var next := r[off + j := prod.1];
      next[off + j + 1..] == acc[off + j + 1..]
      && Val(next) + prod.0 * WordPow(off + j + 1) == Val(acc) + WordPow(off) * (Val(a[..j + 1]) * w)
  {
    var prod := MultiplyDoubleWordAndAddTwo(a[j], w, carry, r[off + j]);
    var next := r[off + j := prod.1];
    assert next[off + j + 1..] == r[off + j + 1..];
    assert r[off + j + 1..] == acc[off + j..][1..];
    ValUpdate(r, off + j, prod.1);
    ValPrefix(a, j);
    WordPowAdd(off, j);
    WordPowAdd(off + j, 1);
    AccumulateStep(Val(r), Val(next), Val(acc), Val(a[..j]), WordPow(off), WordPow(j),
      r[off + j], prod.1, a[j], w, carry, prod.0);
  }

  /** The arithmetic of one accumulate column: the old word o at weight
      q * pj is replaced by the low half n of a[j] * w + carry + o. */
  lemma AccumulateStep(v: nat, v': nat, base: nat, low: nat, q: nat, pj: nat,
                       o: nat, n: nat, aw: nat, w: nat, cin: nat, cout: nat)
    requires v' + (q * pj) * o == v + (q * pj) * n
    requires v + cin * (q * pj) == base + q * (low * w)
    requires aw * w + cin + o == cout * BASE + n
    ensures v' + cout * ((q * pj) * BASE) == base + q * ((low + pj * aw) * w)
  {
    var p := q * pj;
    calc {
      v' + cout * (p * BASE);
      v' + p * (cout * BASE);
      v' + p * (aw * w + cin + o - n);
      v + p * (aw * w) + p * cin;
      base + q * (low * w) + p * (aw * w);
      { MulAssoc(q, pj, aw * w); MulAssoc(pj, aw, w); }
      base + q * (low * w) + q * ((pj * aw) * w);
      base + q * ((low + pj * aw) * w);
    }
  }
}
