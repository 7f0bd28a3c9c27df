/** Comparisons of bigmath.h: equality, the strict orders and compare(),
    both between two BigUnsigned values and between a value and a word.
    The two-value comparisons order by word count first and then by the
    most significant differing word; on normalized operands that is the
    numeric order. */
module Order {
  import opened Numbers
  import opened Words
  import opened Limbs

  /** -1, 0 or 1 by the sign of x. */
  function Sign(x: int): int
  {
    if x > 0 then 1 else if x < 0 then -1 else 0
  }

  /** Compares equal-length sequences from the top word down. */
  function TopDown(a: seq<Word>, b: seq<Word>): int
    requires |a| == |b|
  {
    if |a| == 0 then 0
    else if a[|a| - 1] > b[|a| - 1] then 1
    else if a[|a| - 1] < b[|a| - 1] then -1
    else TopDown(a[..|a| - 1], b[..|a| - 1])
  }

  /** The order compare() implements: the longer sequence is larger, and
      equal lengths are decided by the most significant differing word. */
  function CompareSpec(a: seq<Word>, b: seq<Word>): int
  {
    if |a| > |b| then 1
    else if |a| < |b| then -1
    else TopDown(a, b)
  }

  /** For equal lengths the top-down comparison is the numeric one. */
  lemma {:induction false} TopDownValue(a: seq<Word>, b: seq<Word>)
    requires |a| == |b|
    ensures TopDown(a, b) == Sign(Val(a) - Val(b))
  {
    if |a| > 0 {
      var n := |a| - 1;
      ValLast(a);
      ValLast(b);
      ValBound(a[..n]);
      ValBound(b[..n]);
      if a[n] > b[n] {
        TopWordDominates(Val(a[..n]), Val(b[..n]), WordPow(n), a[n], b[n]);
      } else if a[n] < b[n] {
        TopWordDominates(Val(b[..n]), Val(a[..n]), WordPow(n), b[n], a[n]);
      } else {
        TopDownValue(a[..n], b[..n]);
      }
    }
  }

  /** A larger top word outweighs anything the lower words hold. */
  lemma TopWordDominates(la: nat, lb: nat, p: nat, x: nat, y: nat)
    requires la < p && lb < p && x > y
    ensures la + p * x > lb + p * y
  {
    MulLeftMonotone(p, y + 1, x);
  }

  /** On normalized operands compare() gives the sign of the difference. */
  lemma CompareValue(a: seq<Word>, b: seq<Word>)
    requires Normal(a) && Normal(b)
    ensures CompareSpec(a, b) == Sign(Val(a) - Val(b))
  {
    if |a| > |b| {
      NormalSizeOrder(b, a);
    } else if |a| < |b| {
      NormalSizeOrder(a, b);
    } else {
      TopDownValue(a, b);
    }
  }

  /** compare() (bigmath.h:267-283) on the words of two values. */
  method Compare(a: seq<Word>, b: seq<Word>) returns (c: int)
    ensures c == CompareSpec(a, b)
  {
    if |a| > |b| {
      return 1;
    }
    if |a| < |b| {
      return -1;
    }
    var j := |a|;
    assert a[..j] == a && b[..j] == b;
    while j > 0
      invariant 0 <= j <= |a|
      invariant TopDown(a, b) == TopDown(a[..j], b[..j])
    {
      assert a[..j][..j - 1] == a[..j - 1] && b[..j][..j - 1] == b[..j - 1];
      if a[j - 1] > b[j - 1] {
        return 1;
      }
      if a[j - 1] < b[j - 1] {
        return -1;
      }
      j := j - 1;
    }
    return 0;
  }

  /** operator > (bigmath.h:250-266) on the words of two values. */
  method Greater(a: seq<Word>, b: seq<Word>) returns (g: bool)
    ensures g <==> CompareSpec(a, b) == 1
  {
    if |a| > |b| {
      return true;
    }
    if |a| < |b| {
      return false;
    }
    var j := |a|;
    assert a[..j] == a && b[..j] == b;
    while j > 0
      invariant 0 <= j <= |a|
      invariant TopDown(a, b) == TopDown(a[..j], b[..j])
    {
      assert a[..j][..j - 1] == a[..j - 1] && b[..j][..j - 1] == b[..j - 1];
      if a[j - 1] > b[j - 1] {
        return true;
      }
      if a[j - 1] < b[j - 1] {
        return false;
      }
      j := j - 1;
    }
    return false;
  }

  /** operator == (bigmath.h:213-225): equal sizes and equal words. */
  method Equal(a: seq<Word>, b: seq<Word>) returns (e: bool)
    ensures e <==> a == b
  {
    if |a| != |b| {
      return false;
    }
    var i := 0;
    while i < |a|
      invariant 0 <= i <= |a|
      invariant a[..i] == b[..i]
    {
      if a[i] != b[i] {
        return false;
      }
      i := i + 1;
    }
    assert a == a[..i] && b == b[..i];
    return true;
  }

  /** On normalized operands, word-wise equality is numeric equality. */
  lemma EqualValue(a: seq<Word>, b: seq<Word>)
    requires Normal(a) && Normal(b)
    ensures a == b <==> Val(a) == Val(b)
  {
    if Val(a) == Val(b) {
      NormalUnique(a, b);
    }
  }

  /** operator < (bigmath.h:292-295), written as b > a. */
  method Less(a: seq<Word>, b: seq<Word>) returns (l: bool)
    ensures l <==> CompareSpec(b, a) == 1
    ensures Normal(a) && Normal(b) ==> (l <==> Val(a) < Val(b))
  {
    l := Greater(b, a);
    if Normal(a) && Normal(b) {
      CompareValue(b, a);
    }
  }

  /** operator >= (bigmath.h:304-307), written as !(a < b). */
  method AtLeast(a: seq<Word>, b: seq<Word>) returns (r: bool)
    ensures r <==> CompareSpec(b, a) != 1
    ensures Normal(a) && Normal(b) ==> (r <==> Val(a) >= Val(b))
  {
    var l := Less(a, b);
    r := !l;
  }

  /** operator <= (bigmath.h:316-319), written as !(a > b). */
  method AtMost(a: seq<Word>, b: seq<Word>) returns (r: bool)
    ensures r <==> CompareSpec(a, b) != 1
    ensures Normal(a) && Normal(b) ==> (r <==> Val(a) <= Val(b))
  {
    var g := Greater(a, b);
    if Normal(a) && Normal(b) {
      CompareValue(a, b);
    }
    r := !g;
  }

  /** operator ==(BigUnsigned, WordType) (bigmath.h:207-212): more than
      one word is never equal to a word. */
  function EqualsWord(n: seq<Word>, w: Word): (r: bool)
    requires |n| >= 1
    ensures Normal(n) ==> (r <==> Val(n) == w)
  {
    NormalValWord(n);
    if |n| > 1 then false else n[0] == w
  }

  /** operator >(BigUnsigned, WordType) (bigmath.h:244-249). */
  function GreaterThanWord(n: seq<Word>, w: Word): (r: bool)
    requires |n| >= 1
    ensures Normal(n) ==> (r <==> Val(n) > w)
  {
    NormalValWord(n);
    if |n| > 1 then true else n[0] > w
  }

  /** operator >(WordType, BigUnsigned) (bigmath.h:238-243). */
  function WordGreaterThan(w: Word, n: seq<Word>): (r: bool)
    requires |n| >= 1
    ensures Normal(n) ==> (r <==> w > Val(n))
  {
    NormalValWord(n);
    if |n| > 1 then false else w > n[0]
  }

  /** A normalized value is one word exactly when it fits a word. */
  lemma NormalValWord(n: seq<Word>)
    requires |n| >= 1
    ensures |n| == 1 ==> Val(n) == n[0]
    ensures Normal(n) && |n| > 1 ==> Val(n) >= BASE
  {
    if |n| == 1 {
      ValSingle(n[0]);
    } else if Normal(n) {
      NormalLower(n);
      PowMonotone(BASE, 1, |n| - 1);
    }
  }
}
