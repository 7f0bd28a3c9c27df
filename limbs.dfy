/** The representation of a BigUnsigned: a sequence of 32-bit words, least
    significant first, whose numeric value is the sum of w[i] * 2^(32 i).
    A normalized sequence has at least one word and no zero word on top
    unless it is the single word of zero. */
module Limbs {
  import opened Numbers
  import opened Words

  /** The numeric value of a little-endian word sequence. */
  function Val(ws: seq<Word>): nat
  {
    if |ws| == 0 then 0 else ws[0] + BASE * Val(ws[1..])
  }

  /** The form normalize() leaves behind: size >= 1 and a nonzero top word
      unless the size is 1. */
  predicate Normal(ws: seq<Word>)
  {
    |ws| >= 1 && (|ws| == 1 || ws[|ws| - 1] != 0)
  }

  function Min(x: nat, y: nat): nat
  {
    if x < y then x else y
  }

  function Max(x: nat, y: nat): nat
  {
    if x > y then x else y
  }

  function Zeros(n: nat): seq<Word>
  {
    seq(n, _ => 0)
  }

  function WordPow(n: nat): nat
  {
    Pow(BASE, n)
  }

  lemma WordPowPositive(n: nat)
    ensures WordPow(n) >= 1
  {
    PowPositive(BASE, n);
  }

  lemma WordPowAdd(m: nat, n: nat)
    ensures WordPow(m + n) == WordPow(m) * WordPow(n)
  {
    PowAdd(BASE, m, n);
  }

  lemma WordPowSucc(n: nat)
    ensures WordPow(n + 1) == WordPow(n) * BASE
  {
  }

  /** m words are 32 m bits. */
  lemma Pow2Words(m: nat)
    ensures Pow2(BITS * m) == WordPow(m)
  {
    PowMul(2, BITS, m);
    Pow2Word();
  }

  /** A shift by n is a shift by whole words and then by the remaining bits. */
  lemma Pow2WordsBits(n: nat)
    ensures Pow2(n) == WordPow(n / BITS) * Pow2(n % BITS)
  {
    PowAdd(2, BITS * (n / BITS), n % BITS);
    Pow2Words(n / BITS);
  }

  /** Appending words above a sequence adds them scaled by its weight. */
  lemma {:induction false} ValAppend(a: seq<Word>, b: seq<Word>)
    ensures Val(a + b) == Val(a) + WordPow(|a|) * Val(b)
  {
    if |a| > 0 {
      assert (a + b)[1..] == a[1..] + b;
      ValAppend(a[1..], b);
      assert Val(a + b) == a[0] + BASE * Val(a[1..] + b);
      ScaleSum(BASE, Val(a[1..]), WordPow(|a| - 1), Val(b));
    } else {
      assert a + b == b;
    }
  }

  lemma ScaleSum(c: nat, x: nat, w: nat, y: nat)
    ensures c * (x + w * y) == c * x + (c * w) * y
  {
    MulAssoc(c, w, y);
  }

  lemma ValSplit(a: seq<Word>, k: nat)
    requires k <= |a|
    ensures Val(a) == Val(a[..k]) + WordPow(k) * Val(a[k..])
  {
    assert a == a[..k] + a[k..];
    ValAppend(a[..k], a[k..]);
  }

  /** The top word of a sequence carries the weight BASE^(n-1). */
  lemma ValLast(a: seq<Word>)
    requires |a| >= 1
    ensures Val(a) == Val(a[..|a| - 1]) + WordPow(|a| - 1) * a[|a| - 1]
  {
    ValSplit(a, |a| - 1);
    var t := a[|a| - 1..];
    assert Val(t) == t[0] + BASE * Val(t[1..]);
    assert t[1..] == [];
  }

  lemma ValSingle(w: Word)
    ensures Val([w]) == w
  {
    assert [w][1..] == [];
  }

  /** Pushing a word on top adds it at weight BASE^|s|. */
  lemma ValPush(s: seq<Word>, w: Word)
    ensures Val(s + [w]) == Val(s) + WordPow(|s|) * w
  {
    ValAppend(s, [w]);
    ValSingle(w);
  }

  /** Putting a word underneath shifts the rest up one word. */
  lemma ValCons(w: Word, s: seq<Word>)
    ensures Val([w] + s) == w + BASE * Val(s)
  {
    assert ([w] + s)[1..] == s;
  }

  /** n words hold a value below BASE^n. */
  lemma {:induction false} ValBound(a: seq<Word>)
    ensures Val(a) < WordPow(|a|)
  {
    if |a| > 0 {
      ValBound(a[1..]);
      assert Val(a) <= BASE - 1 + BASE * (WordPow(|a| - 1) - 1);
    }
  }

  /** The value is zero exactly when every word is zero. */
  lemma {:induction false} ValZero(a: seq<Word>)
    ensures Val(a) == 0 <==> forall i :: 0 <= i < |a| ==> a[i] == 0
  {
    if |a| > 0 {
      ValZero(a[1..]);
      if Val(a) == 0 {
        forall i | 0 <= i < |a|
          ensures a[i] == 0
        {
          if i > 0 {
            assert a[i] == a[1..][i - 1];
          }
        }
      } else {
        assert a[0] != 0 || Val(a[1..]) != 0;
        if a[0] == 0 {
          var i :| 0 <= i < |a[1..]| && a[1..][i] != 0;
          assert a[i + 1] != 0;
        }
      }
    }
  }

  /** Zero words on top of a prefix add nothing to its value. */
  lemma {:induction false} ValZeroTail(s: seq<Word>, k: nat)
    requires k <= |s|
    requires forall j :: k <= j < |s| ==> s[j] == 0
    ensures Val(s) == Val(s[..k])
    decreases |s| - k
  {
    if k < |s| {
      ValPrefix(s, k);
      ValZeroTail(s, k + 1);
    } else {
      assert s[..k] == s;
    }
  }

  lemma ValZeros(n: nat)
    ensures Val(Zeros(n)) == 0
  {
    ValZero(Zeros(n));
  }

  /** Zero words on top do not change the value. */
  lemma ValPadded(a: seq<Word>, n: nat)
    ensures Val(a + Zeros(n)) == Val(a)
  {
    ValAppend(a, Zeros(n));
    ValZeros(n);
  }

  /** A normalized sequence of n >= 2 words is at least BASE^(n-1). */
  lemma NormalLower(a: seq<Word>)
    requires Normal(a) && |a| >= 2
    ensures Val(a) >= WordPow(|a| - 1)
  {
    ValLast(a);
    MulLeftMonotone(WordPow(|a| - 1), 1, a[|a| - 1]);
  }

  /** Between normalized sequences, fewer words means a smaller value. */
  lemma NormalSizeOrder(a: seq<Word>, b: seq<Word>)
    requires Normal(a) && Normal(b) && |a| < |b|
    ensures Val(a) < Val(b)
  {
    ValBound(a);
    NormalLower(b);
    PowMonotone(BASE, |a|, |b| - 1);
  }

  /** A normalized sequence is determined by its value. */
  lemma {:induction false} NormalUnique(a: seq<Word>, b: seq<Word>)
    requires Normal(a) && Normal(b) && Val(a) == Val(b)
    ensures a == b
  {
    if |a| < |b| {
      NormalSizeOrder(a, b);
    } else if |b| < |a| {
      NormalSizeOrder(b, a);
    } else {
      SameSizeUnique(a, b);
    }
  }

  lemma {:induction false} SameSizeUnique(a: seq<Word>, b: seq<Word>)
    requires |a| == |b| && Val(a) == Val(b)
    ensures a == b
  {
    if |a| > 0 {
      DivMulAdd(Val(a[1..]), BASE, a[0]);
      DivMulAdd(Val(b[1..]), BASE, b[0]);
      SameSizeUnique(a[1..], b[1..]);
      assert a == [a[0]] + a[1..];
      assert b == [b[0]] + b[1..];
    }
  }

  /** The canonical representation of a natural number. */
  function FromNat(n: nat): (r: seq<Word>)
    ensures Normal(r) && Val(r) == n
    decreases n
  {
    if n < BASE then
      ValSingle(n);
      [n]
    else
      var rest := FromNat(n / BASE);
      assert Val([n % BASE] + rest) == n % BASE + BASE * (n / BASE) by {
        ValAppend([n % BASE], rest);
        ValSingle(n % BASE);
      }
      [n % BASE] + rest
  }

  /** What normalize() computes: the sequence with its zero top words
      dropped, keeping at least one word. */
  function Trim(ws: seq<Word>): (r: seq<Word>)
    ensures |r| <= |ws| && r == ws[..|r|]
    ensures Val(r) == Val(ws)
    ensures |ws| >= 1 ==> Normal(r)
    ensures forall i :: |r| <= i < |ws| ==> ws[i] == 0
  {
    if |ws| > 1 && ws[|ws| - 1] == 0 then
      ValLast(ws);
      Trim(ws[..|ws| - 1])
    else
      ws
  }

  /** The prefix of i + 1 words adds word i at weight BASE^i. */
  lemma ValPrefix(s: seq<Word>, i: nat)
    requires i < |s|
    ensures Val(s[..i + 1]) == Val(s[..i]) + WordPow(i) * s[i]
  {
    ValLast(s[..i + 1]);
    assert s[..i + 1][..i] == s[..i];
  }

  /** Replacing word i changes the value by the difference at weight BASE^i. */
  lemma ValUpdate(s: seq<Word>, i: nat, v: Word)
    requires i < |s|
    ensures Val(s[i := v]) + WordPow(i) * s[i] == Val(s) + WordPow(i) * v
  {
    var t := s[i := v];
    ValSplit(s, i);
    ValSplit(t, i);
    assert t[..i] == s[..i];
    var rest := Val(s[i + 1..]);
    assert Val(t[i..]) == v + BASE * rest by {
      assert t[i..][1..] == s[i + 1..];
    }
    assert Val(s[i..]) == s[i] + BASE * rest by {
      assert s[i..][1..] == s[i + 1..];
    }
    Distribute(WordPow(i), v, s[i], BASE * rest);
  }

  lemma Distribute(p: nat, x: nat, y: nat, z: nat)
    ensures p * (x + z) + p * y == p * (y + z) + p * x
  {
  }

  /** A normalized sequence is its own trimmed form. */
  lemma TrimNormal(ws: seq<Word>)
    requires Normal(ws)
    ensures Trim(ws) == ws
  {
  }

  /** The value seen from word k: the words below it, the word itself and
      the words above it. */
  lemma WordAt(words: seq<Word>, k: nat)
    requires k < |words|
    ensures Val(words) == Val(words[..k]) + WordPow(k) * (words[k] + BASE * Val(words[k + 1..]))
    ensures Val(words[..k]) < WordPow(k)
  {
    var low, mid, high := words[..k], words[k..], words[k + 1..];
    ValSplit(words, k);
    ValTail(words, k);
    ValBound(low);
    Substitute(Val(words), Val(low), WordPow(k), Val(mid), words[k] + BASE * Val(high));
  }

  lemma ValTail(words: seq<Word>, k: nat)
    requires k < |words|
    ensures Val(words[k..]) == words[k] + BASE * Val(words[k + 1..])
  {
    assert words[k..][1..] == words[k + 1..];
  }

  lemma Substitute(v: int, a: int, p: int, m: int, e: int)
    requires v == a + p * m && m == e
    ensures v == a + p * e
  {
  }
}
