/** The bitwise operators and conversions of bigmath.h on the words of a
    value: ^= and |= widen the left operand to the right one's size and
    combine word by word, &= keeps the shorter size, and the WordType
    variants touch only the bottom word. Each is shown to be the bitwise
    operation on the numbers the words stand for. */
module Bitwise {
  import opened Numbers
  import opened Words
  import opened Limbs
  import opened Order

  /** The three word-wise operators. */
  datatype BitOp = AndOp | OrOp | XorOp

  function Apply(op: BitOp, a: nat, b: nat): nat
  {
    match op
    case AndOp => And(a, b)
    case OrOp => Or(a, b)
    case XorOp => Xor(a, b)
  }

  /** The result bit of op on two bits. */
  function BitOf(op: BitOp, x: nat, y: nat): nat
  {
    match op
    case AndOp => if x == 1 && y == 1 then 1 else 0
    case OrOp => if x == 1 || y == 1 then 1 else 0
    case XorOp => if x != y then 1 else 0
  }

  lemma ApplyStep(op: BitOp, a: nat, b: nat)
    ensures Apply(op, a, b) == 2 * Apply(op, a / 2, b / 2) + BitOf(op, a % 2, b % 2)
  {
  }

  lemma ApplyWord(op: BitOp, a: Word, b: Word)
    ensures Apply(op, a, b) < BASE
  {
    WordBitwise(a, b);
  }

  /** Against a zero operand, & gives zero and | and ^ give the other
      operand. */
  lemma {:induction false} ApplyZero(op: BitOp, x: nat)
    ensures Apply(op, x, 0) == (if op == AndOp then 0 else x)
    ensures Apply(op, 0, x) == (if op == AndOp then 0 else x)
  {
    if x != 0 {
      ApplyZero(op, x / 2);
      ApplyStep(op, x, 0);
      ApplyStep(op, 0, x);
    }
  }

  /** A bitwise operation acts separately on the low k bits and on the
      rest. */
  lemma {:induction false} ApplySplit(op: BitOp, x: nat, y: nat, hx: nat, hy: nat, k: nat, P: nat, X: nat, Y: nat)
    requires P == Pow2(k) && x < P && y < P
    requires X == x + P * hx && Y == y + P * hy
    ensures Apply(op, X, Y) == Apply(op, x, y) + P * Apply(op, hx, hy)
    decreases k
  {
    if k == 0 {
      assert x == 0 && y == 0;
      ApplyZero(op, 0);
    } else {
      var p := Pow2(k - 1);
      Pow2Succ(k - 1);
      MulNonneg(p, hx);
      MulNonneg(p, hy);
      MulNonneg(p, Apply(op, hx, hy));
      ScaleDouble(P, p, hx);
      ScaleDouble(P, p, hy);
      ScaleDouble(P, p, Apply(op, hx, hy));
      DivModUnique(X, 2, x / 2 + p * hx, x % 2);
      DivModUnique(Y, 2, y / 2 + p * hy, y % 2);
      DivBound(x, 2, p);
      DivBound(y, 2, p);
      ApplySplit(op, x / 2, y / 2, hx, hy, k - 1, p, X / 2, Y / 2);
      ApplyStep(op, X, Y);
      ApplyStep(op, x, y);
      SplitCombine(Apply(op, X, Y), Apply(op, X / 2, Y / 2), Apply(op, x, y), Apply(op, x / 2, y / 2),
        BitOf(op, X % 2, Y % 2), BitOf(op, x % 2, y % 2), p * Apply(op, hx, hy));
    }
  }

  lemma SplitCombine(whole: nat, half: nat, low: nat, lowHalf: nat, bit: nat, bit': nat, high: nat)
    requires whole == 2 * half + bit && low == 2 * lowHalf + bit' && bit == bit'
    requires half == lowHalf + high
    ensures whole == low + 2 * high
  {
  }

  lemma ScaleDouble(P: nat, p: nat, h: nat)
    requires P == 2 * p
    ensures P * h == 2 * (p * h)
  {
  }

  /** Word i of s, or 0 above its size. */
  function At(s: seq<Word>, i: nat): Word
  {
    if i < |s| then s[i] else 0
  }

  function Tail(s: seq<Word>): seq<Word>
  {
    if |s| == 0 then [] else s[1..]
  }

  lemma ValTail(s: seq<Word>)
    ensures Val(s) == At(s, 0) + BASE * Val(Tail(s))
  {
  }

  /** The word-wise result of op on two word sequences, the shorter one
      read as if padded with zero words. */
  function Wordwise(op: BitOp, u: seq<Word>, v: seq<Word>): (r: seq<Word>)
    ensures |r| == Max(|u|, |v|)
    decreases |u| + |v|
  {
    if |u| == 0 && |v| == 0 then []
    else
      ApplyWord(op, At(u, 0), At(v, 0));
      [Apply(op, At(u, 0), At(v, 0)) as Word] + Wordwise(op, Tail(u), Tail(v))
  }

  lemma {:induction false} WordwiseAt(op: BitOp, u: seq<Word>, v: seq<Word>, i: nat)
    requires i < Max(|u|, |v|)
    ensures Wordwise(op, u, v)[i] == Apply(op, At(u, i), At(v, i))
    decreases |u| + |v|
  {
    if i > 0 {
      WordwiseAt(op, Tail(u), Tail(v), i - 1);
    }
  }

  /** Word-wise application is the bitwise operation on the values. */
  lemma {:induction false} WordwiseValue(op: BitOp, u: seq<Word>, v: seq<Word>)
    ensures Val(Wordwise(op, u, v)) == Apply(op, Val(u), Val(v))
    decreases |u| + |v|
  {
    if |u| == 0 && |v| == 0 {
      ApplyZero(op, 0);
    } else {
      var r := Wordwise(op, u, v);
      WordwiseValue(op, Tail(u), Tail(v));
      assert r[1..] == Wordwise(op, Tail(u), Tail(v));
      ValTail(u);
      ValTail(v);
      Pow2Bits();
      ApplySplit(op, At(u, 0), At(v, 0), Val(Tail(u)), Val(Tail(v)), BITS, BASE, Val(u), Val(v));
    }
  }

  /** Data::expand at the value level: zero words on top up to n words. */
  function Widen(a: seq<Word>, n: nat): (r: seq<Word>)
    ensures |r| == Max(|a|, n)
    ensures forall i :: 0 <= i < |r| ==> r[i] == At(a, i)
  {
    if n <= |a| then a else a + Zeros(n - |a|)
  }

  /** The loop shared by ^=, |= and &= (bigmath.h:462-542): word i of the
      buffer is combined in place with word i of b, for i below n. */
  method CombineInPlace(op: BitOp, words: seq<Word>, b: seq<Word>, n: nat) returns (r: seq<Word>)
    requires n <= |words| && n <= |b|
    ensures |r| == |words|
    ensures forall i :: 0 <= i < n ==> r[i] == Apply(op, words[i], b[i])
    ensures forall i :: n <= i < |r| ==> r[i] == words[i]
  {
    r := words;
    var i := 0;
    while i < n
      invariant 0 <= i <= n && |r| == |words|
      invariant forall j :: 0 <= j < i ==> r[j] == Apply(op, words[j], b[j])
      invariant forall j :: i <= j < |r| ==> r[j] == words[j]
    {
      ApplyWord(op, r[i], b[i]);
      r := r[i := Apply(op, r[i], b[i]) as Word];
      i := i + 1;
    }
  }

  /** operator ^=(BigUnsigned) (bigmath.h:462-472): widen to b's size,
      XOR word by word, normalize. */
  method XorAssign(a: seq<Word>, b: seq<Word>) returns (r: seq<Word>)
    requires |a| >= 1 && |b| >= 1
    ensures Normal(r) && Val(r) == Xor(Val(a), Val(b))
  {
    var words := CombineInPlace(XorOp, Widen(a, |b|), b, |b|);
    WidenedValue(XorOp, a, b, words);
    r := Trim(words);
  }

  /** operator |=(BigUnsigned) (bigmath.h:494-503): widen to b's size and
      OR word by word. There is no normalize(), and none is needed: the
      OR of two normalized values is normalized. */
  method OrAssign(a: seq<Word>, b: seq<Word>) returns (r: seq<Word>)
    requires |a| >= 1 && |b| >= 1
    ensures |r| == Max(|a|, |b|)
    ensures Val(r) == Or(Val(a), Val(b))
    ensures Normal(a) && Normal(b) ==> Normal(r)
  {
    r := CombineInPlace(OrOp, Widen(a, |b|), b, |b|);
    WidenedValue(OrOp, a, b, r);
    if Normal(a) && Normal(b) {
      OrNormal(a, b, r);
    }
  }

  /** operator &=(BigUnsigned) (bigmath.h:532-542): the size drops to the
      smaller one, the kept words are ANDed, and the value is normalized. */
  method AndAssign(a: seq<Word>, b: seq<Word>) returns (r: seq<Word>)
    requires |a| >= 1 && |b| >= 1
    ensures Normal(r) && Val(r) == And(Val(a), Val(b))
    ensures |r| <= Min(|a|, |b|)
  {
    var m := Min(|a|, |b|);
    var words := CombineInPlace(AndOp, a[..m], b, m);
    assert words == Wordwise(AndOp, a[..m], b[..m]) by {
      forall i | 0 <= i < m
        ensures words[i] == Wordwise(AndOp, a[..m], b[..m])[i]
      {
        WordwiseAt(AndOp, a[..m], b[..m], i);
      }
    }
    WordwiseValue(AndOp, a[..m], b[..m]);
    AndTruncate(a, b);
    r := Trim(words);
  }

  /** The widened, combined buffer of ^= and |= holds the bitwise result. */
  lemma WidenedValue(op: BitOp, a: seq<Word>, b: seq<Word>, words: seq<Word>)
    requires op != AndOp && |words| == Max(|a|, |b|)
    requires forall i :: 0 <= i < |b| ==> words[i] == Apply(op, At(a, i), b[i])
    requires forall i :: |b| <= i < |words| ==> words[i] == At(a, i)
    ensures words == Wordwise(op, a, b)
    ensures Val(words) == Apply(op, Val(a), Val(b))
  {
    forall i | 0 <= i < |words|
      ensures words[i] == Wordwise(op, a, b)[i]
    {
      WordwiseAt(op, a, b, i);
      ApplyZero(op, At(a, i));
    }
    WordwiseValue(op, a, b);
  }

  /** The top word of an OR is at least the top word of the longer operand. */
  lemma OrNormal(a: seq<Word>, b: seq<Word>, words: seq<Word>)
    requires Normal(a) && Normal(b) && words == Wordwise(OrOp, a, b)
    ensures Normal(words)
  {
    var t := |words| - 1;
    if t > 0 {
      WordwiseAt(OrOp, a, b, t);
      OrAndBounds(At(a, t), At(b, t));
    }
  }

  /** Words of the longer operand above the shorter one's size do not
      survive an AND. */
  lemma AndTruncate(a: seq<Word>, b: seq<Word>)
    ensures var m := Min(|a|, |b|);
      And(Val(a), Val(b)) == And(Val(a[..m]), Val(b[..m]))
  {
    var m := Min(|a|, |b|);
    Pow2Words(m);
    ValBound(a[..m]);
    ValBound(b[..m]);
    if |a| >= |b| {
      assert b[..m] == b;
      ValSplit(a, m);
      AndHigh(Val(a[..m]), Val(b), Val(a[m..]), BITS * m, WordPow(m), Val(a));
    } else {
      assert a[..m] == a;
      ValSplit(b, m);
      AndHigh(Val(b[..m]), Val(a), Val(b[m..]), BITS * m, WordPow(m), Val(b));
    }
  }

  /** Bits of one operand above the other's top bit do not survive an AND. */
  lemma AndHigh(x: nat, y: nat, hx: nat, k: nat, P: nat, X: nat)
    requires P == Pow2(k) && x < P && y < P && X == x + P * hx
    ensures And(X, y) == And(x, y)
    ensures And(y, X) == And(y, x)
  {
    ApplySplit(AndOp, x, y, hx, 0, k, P, X, y);
    ApplySplit(AndOp, y, x, 0, hx, k, P, y, X);
    ApplyZero(AndOp, hx);
  }

  /** A bitwise operation with a word touches only the bottom word: the
      words above meet zero bits. */
  lemma BottomWord(op: BitOp, a: seq<Word>, b: Word)
    requires |a| >= 1
    ensures Apply(op, Val(a), b) == Apply(op, a[0], b) + BASE * Apply(op, Val(a[1..]), 0)
  {
    Pow2Bits();
    ApplySplit(op, a[0], b, Val(a[1..]), 0, BITS, BASE, Val(a), b);
  }

  /** operator &=(WordType) (bigmath.h:525-531): the size becomes 1 and the
      bottom word is ANDed. */
  function AndWord(a: seq<Word>, b: Word): (r: seq<Word>)
    requires |a| >= 1
    ensures Normal(r) && Val(r) == And(Val(a), b)
  {
    BottomWord(AndOp, a, b);
    ApplyZero(AndOp, Val(a[1..]));
    ApplyWord(AndOp, a[0], b);
    ValSingle(And(a[0], b));
    [And(a[0], b) as Word]
  }

  /** operator |=(WordType) (bigmath.h:504-509): only the bottom word
      changes. */
  function OrWord(a: seq<Word>, b: Word): (r: seq<Word>)
    requires |a| >= 1
    ensures |r| == |a| && Val(r) == Or(Val(a), b)
    ensures Normal(a) ==> Normal(r)
  {
    BottomWord(OrOp, a, b);
    ApplyZero(OrOp, Val(a[1..]));
    ApplyWord(OrOp, a[0], b);
    var r := a[0 := Or(a[0], b) as Word];
    assert r[1..] == a[1..];
    r
  }

  /** operator ^=(WordType) (bigmath.h:473-478): only the bottom word
      changes, and there is no normalize(). */
  function XorWord(a: seq<Word>, b: Word): (r: seq<Word>)
    requires |a| >= 1
    ensures |r| == |a| && Val(r) == Xor(Val(a), b)
    ensures Normal(a) ==> Normal(r)
  {
    BottomWord(XorOp, a, b);
    ApplyZero(XorOp, Val(a[1..]));
    ApplyWord(XorOp, a[0], b);
    var r := a[0 := Xor(a[0], b) as Word];
    assert r[1..] == a[1..];
    r
  }

  /** operator WordType (bigmath.h:450-453): the bottom word, that is the
      value truncated to 32 bits. */
  function ToWord(a: seq<Word>): (r: Word)
    requires |a| >= 1
    ensures r == Val(a) % BASE
  {
    DivMulAdd(Val(a[1..]), BASE, a[0]);
    a[0]
  }

  /** operator bool (bigmath.h:454-457): anything but the single word 0. */
  function IsNonzero(a: seq<Word>): (r: bool)
    requires |a| >= 1
    ensures Normal(a) ==> (r <==> Val(a) != 0)
  {
    NormalValWord(a);
    |a| != 1 || a[0] != 0
  }

  /** operator ! (bigmath.h:458-461): exactly the single word 0. */
  function IsZero(a: seq<Word>): (r: bool)
    requires |a| >= 1
    ensures r != IsNonzero(a)
    ensures Normal(a) ==> (r <==> Val(a) == 0)
  {
    NormalValWord(a);
    |a| == 1 && a[0] == 0
  }
}
