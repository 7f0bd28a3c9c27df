/** Bit shifts of a word sequence: the lshiftWords / rshiftWords loops of
    bigmath.cpp and the operators <<= and >>= built on them. */
module Shifts {
  import opened Numbers
  import opened Words
  import opened Limbs

  /** The bits a shift by s < 32 pushes out of the top word (topWord in
      operator <<=). For s == 0 the C++ expression shifts a 32-bit word by
      32 bits; the model takes the result as 0, as a barrel shifter that
      uses the full shift amount does. */
  function Spill(a: seq<Word>, s: nat): (r: Word)
    requires s < BITS
    ensures r < Pow2(s)
  {
    if |a| == 0 || s == 0 then 0
    else
      Pow2Split(s);
      QuotientBelow(a[|a| - 1], Pow2(BITS - s), Pow2(s));
      a[|a| - 1] / Pow2(BITS - s)
  }

  /** lshiftWords with a fresh destination: every word moves up by s bits
      and takes the top s bits of the word below; what leaves the top word
      is the spill. */
  method LshiftWords(src: seq<Word>, s: nat) returns (dest: seq<Word>)
    requires s < BITS
    ensures |dest| == |src|
    ensures Val(dest) + Spill(src, s) * WordPow(|src|) == Val(src) * Pow2(s)
    ensures |src| >= 1 && Spill(src, s) == 0 && src[|src| - 1] != 0 ==> dest[|dest| - 1] != 0
  {
    if s == 0 {
      dest := src;
      return;
    }
    dest := [];
    var lastWord: Word := 0;
    ghost var carry: nat := 0;
    var i := 0;
    while i < |src|
      invariant 0 <= i <= |src| && |dest| == i
      invariant lastWord == if i == 0 then 0 else src[i - 1]
      invariant carry == lastWord / Pow2(BITS - s)
      invariant Val(dest) + carry * WordPow(i) == Val(src[..i]) * Pow2(s)
      invariant i >= 1 && carry == 0 && src[i - 1] != 0 ==> dest[i - 1] != 0
    {
      var word := src[i];
      var out := LshiftDoubleWord(word, lastWord, s);
      LshiftColumn(dest, src, i, Pow2(s), carry, word / Pow2(BITS - s), out);
      dest := dest + [out];
      lastWord := word;
      carry := word / Pow2(BITS - s);
      i := i + 1;
    }
    assert src[..i] == src;
    SpillLast(src, s, carry);
  }

  /** The carry out of the top word is the spill. */
  lemma SpillLast(src: seq<Word>, s: nat, carry: nat)
    requires 0 < s < BITS
    requires carry == if |src| == 0 then 0 else src[|src| - 1] / Pow2(BITS - s)
    ensures Spill(src, s) == carry
  {
  }

  /** One column of lshiftWords keeps the loop invariant; m is 2^s, c and
      c2 the bits shifted out of the word below and of this word. */
  lemma LshiftColumn(dest: seq<Word>, src: seq<Word>, i: nat, m: nat, c: nat, c2: nat, out: Word)
    requires i < |src| && |dest| == i && m >= 1
    requires Val(dest) + c * WordPow(i) == Val(src[..i]) * m
    requires out + c2 * BASE == src[i] * m + c
    ensures Val(dest + [out]) + c2 * WordPow(i + 1) == Val(src[..i + 1]) * m
    ensures c2 == 0 && src[i] != 0 ==> out != 0
  {
    ValPush(dest, out);
    ValPrefix(src, i);
    WordPowSucc(i);
    LshiftArith(Val(dest), c, c2, WordPow(i), m, Val(src[..i]), Val(src[..i + 1]), out, src[i]);
    MulLeftMonotone(src[i], 1, m);
  }

  lemma LshiftArith(v: int, c: int, c2: int, p: int, m: int, vs: int, vs2: int, out: int, w: int)
    requires v + c * p == vs * m
    requires out + c2 * BASE == w * m + c
    requires vs2 == vs + p * w
    ensures v + p * out + c2 * (p * BASE) == vs2 * m
  {
    assert p * out + p * (c2 * BASE) == p * (w * m) + p * c;
    assert p * (c2 * BASE) == c2 * (p * BASE);
    assert p * (w * m) == (p * w) * m;
  }

  /** rshiftWords with a fresh destination: every word moves down by s bits
      and takes the low s bits of the word above; the value is the floor of
      the source over 2^s. */
  method RshiftWords(src: seq<Word>, s: nat) returns (dest: seq<Word>)
    requires s < BITS
    ensures |dest| == |src|
    ensures Val(dest) == Val(src) / Pow2(s)
  {
    if s == 0 {
      dest := src;
      return;
    }
    dest := [];
    var lastWord: Word := 0;
    var j := |src|;
    assert src[j..] == [];
    while j > 0
      invariant 0 <= j <= |src| && |dest| == |src| - j
      invariant lastWord == if j == |src| then 0 else src[j]
      invariant Val(dest) * Pow2(s) + lastWord % Pow2(s) == Val(src[j..])
    {
      j := j - 1;
      var word := src[j];
      var out := RshiftDoubleWord(lastWord, word, s);
      RshiftColumn(dest, src, j, Pow2(s), lastWord % Pow2(s), word % Pow2(s), out);
      dest := [out] + dest;
      lastWord := word;
    }
    assert src[0..] == src;
    DivModUnique(Val(src), Pow2(s), Val(dest), lastWord % Pow2(s));
  }

  /** One column of rshiftWords, from the top down, keeps the loop
      invariant; m is 2^s, h and l the low s bits of the word above and of
      this word. */
  lemma RshiftColumn(dest: seq<Word>, src: seq<Word>, j: nat, m: nat, h: nat, l: nat, out: Word)
    requires j < |src|
    requires Val(dest) * m + h == Val(src[j + 1..])
    requires out * m + l == h * BASE + src[j]
    ensures Val([out] + dest) * m + l == Val(src[j..])
  {
    ValCons(out, dest);
    ValCons(src[j], src[j + 1..]);
    assert src[j..] == [src[j]] + src[j + 1..];
    RshiftArith(Val(dest), m, h, Val(src[j + 1..]), out, l, src[j], Val([out] + dest), Val(src[j..]));
  }

  lemma RshiftArith(v: int, m: int, h: int, vs: int, out: int, l: int, w: int, v2: int, vs2: int)
    requires v * m + h == vs
    requires out * m + l == h * BASE + w
    requires v2 == out + BASE * v && vs2 == w + BASE * vs
    ensures v2 * m + l == vs2
  {
    assert v2 * m == out * m + BASE * (v * m);
  }

  /** The spill word that operator <<= as written loses: when the shift
      covers at least one whole word, the spill is stored at index size
      before the shifted words are written over that same index. */
  function Lost(a: seq<Word>, n: nat): (r: Word)
    ensures n < BITS ==> r == 0
  {
    if n < BITS then 0 else Spill(a, n % BITS)
  }

  /** Data::expand: the buffer grows to size words, the new words zero. */
  function Expanded(a: seq<Word>, size: nat): (r: seq<Word>)
    requires |a| <= size
    ensures |r| == size
    ensures forall i :: 0 <= i < |a| ==> r[i] == a[i]
    ensures forall i :: |a| <= i < size ==> r[i] == 0
  {
    a + Zeros(size - |a|)
  }

  /** Writing the words ws into buf from index at on (lshiftWords with
      destination words + at). */
  function Overwrite(buf: seq<Word>, at: nat, ws: seq<Word>): (r: seq<Word>)
    requires at + |ws| <= |buf|
    ensures |r| == |buf|
    ensures forall i :: at <= i < at + |ws| ==> r[i] == ws[i - at]
    ensures forall i :: 0 <= i < |buf| && !(at <= i < at + |ws|) ==> r[i] == buf[i]
  {
    buf[..at] + ws + buf[at + |ws|..]
  }

  /** The final loop of operator <<=: the bottom k words become zero. */
  function ZeroBelow(buf: seq<Word>, k: nat): (r: seq<Word>)
    requires k <= |buf|
    ensures |r| == |buf|
    ensures forall i :: k <= i < |buf| ==> r[i] == buf[i]
    ensures forall i :: 0 <= i < k ==> r[i] == 0
  {
    Zeros(k) + buf[k..]
  }

  /** operator <<= exactly as written: the spill is stored at index size
      of the expanded buffer, which the shifted words then overwrite unless
      the shift is below one word. The result is the true product less the
      lost spill at weight BASE^(size + n / 32). */
  method ShiftLeftAsWritten(a: seq<Word>, n: nat) returns (r: seq<Word>)
    requires |a| >= 1
    ensures Val(r) + Lost(a, n) * WordPow(|a| + n / BITS) == Val(a) * Pow2(n)
  {
    if n == 0 || (|a| == 1 && a[0] == 0) {
      return a;
    }
    if |a| == 1 && n < BITS && a[0] / Pow2(BITS - n) == 0 {
      r := SingleWordShift(a[0], n);
      return;
    }
    r := ShiftWordsAsWritten(a, n);
  }

  /** The general path of operator <<= as written, which stores the spill
      at index |a| before the shifted words are copied over it. */
  method ShiftWordsAsWritten(a: seq<Word>, n: nat) returns (r: seq<Word>)
    requires |a| >= 1
    ensures Val(r) + Lost(a, n) * WordPow(|a| + n / BITS) == Val(a) * Pow2(n)
  {
    var wordCount := n / BITS;
    var s := n % BITS;
    var topWord := Spill(a, s);
    var newSize := |a| + wordCount + (if topWord != 0 then 1 else 0);
    var words := Expanded(a, newSize);
    if topWord != 0 {
      words := words[|a| := topWord];
    }
    var shifted := LshiftWords(a, s);
    r := ZeroBelow(Overwrite(words, wordCount, shifted), wordCount);
    var stored := if |a| == |a| + wordCount then topWord else 0;
    LostSpill(a, n, topWord, stored);
    LeftShiftResult(a, n, wordCount, s, |a|, topWord, stored, words, shifted, r);
    assert Val(r) + Lost(a, n) * WordPow(|a| + n / BITS) == Val(a) * Pow2(n);
  }

  /** What the buffer of operator <<= as written misses is the spill when
      the shift covers a whole word, and nothing otherwise. */
  lemma LostSpill(a: seq<Word>, n: nat, top: Word, stored: Word)
    requires top == Spill(a, n % BITS)
    requires stored == if |a| == |a| + n / BITS then top else 0
    ensures top - stored == Lost(a, n)
  {
  }

  /** operator <<= with the spill stored above the shifted words, at index
      size + n / 32: the value is multiplied by 2^n and a normalized value
      stays normalized. */
  method ShiftLeft(a: seq<Word>, n: nat) returns (r: seq<Word>)
    requires |a| >= 1
    ensures Val(r) == Val(a) * Pow2(n)
    ensures Normal(a) ==> Normal(r)
  {
    if n == 0 || (|a| == 1 && a[0] == 0) {
      return a;
    }
    if |a| == 1 && n < BITS && a[0] / Pow2(BITS - n) == 0 {
      r := SingleWordShift(a[0], n);
      return;
    }
    r := ShiftWords(a, n);
  }

  /** The general path of operator <<=, with the spill stored above the
      shifted words. */
  method ShiftWords(a: seq<Word>, n: nat) returns (r: seq<Word>)
    requires |a| >= 1
    ensures Val(r) == Val(a) * Pow2(n)
    ensures Normal(a) && !(|a| == 1 && a[0] == 0) ==> Normal(r)
  {
    var wordCount := n / BITS;
    var s := n % BITS;
    var topWord := Spill(a, s);
    var newSize := |a| + wordCount + (if topWord != 0 then 1 else 0);
    var words := Expanded(a, newSize);
    if topWord != 0 {
      words := words[|a| + wordCount := topWord];
    }
    var shifted := LshiftWords(a, s);
    r := ZeroBelow(Overwrite(words, wordCount, shifted), wordCount);
    LeftShiftResult(a, n, wordCount, s, |a| + wordCount, topWord, topWord, words, shifted, r);
    if Normal(a) && !(|a| == 1 && a[0] == 0) {
      LeftShiftNormal(a, s, topWord, topWord, shifted, r);
    }
  }

  /** The single-word path of operator <<=: no bit leaves the word. */
  method SingleWordShift(w: Word, n: nat) returns (r: seq<Word>)
    requires 0 < n < BITS && w / Pow2(BITS - n) == 0
    ensures Val(r) == w * Pow2(n) && Normal(r)
  {
    Pow2Split(n);
    QuotientZero(w, Pow2(BITS - n), Pow2(n));
    var product := w * Pow2(n);
    DivModUnique(product, BASE, 0, product);
    r := [product % BASE];
    ValSingle(product % BASE);
  }

  lemma QuotientZero(w: nat, q: nat, p: nat)
    requires q >= 1 && p >= 1 && w / q == 0 && p * q == BASE
    ensures w * p < BASE
  {
    assert w < q;
    MulStrict(p, w, q);
  }

  /** The word left on top of the buffer operator <<= builds: the stored
      spill when there is a spill, nothing otherwise. */
  function Tail(top: Word, stored: Word): (r: seq<Word>)
    ensures |r| == if top != 0 then 1 else 0
  {
    if top != 0 then [stored] else []
  }

  /** The buffer operator <<= builds, with the shifted words in place,
      the spill stored at index at and the words below wc cleared: its
      value and its top word. */
  lemma LeftShiftResult(a: seq<Word>, n: nat, wc: nat, s: nat, at: nat, top: Word, stored: Word,
                        buf: seq<Word>, shifted: seq<Word>, words: seq<Word>)
    requires |a| >= 1 && wc == n / BITS && s == n % BITS && (at == |a| || at == |a| + wc)
    requires stored == if at == |a| + wc then top else 0
    requires buf == if top != 0 then Expanded(a, |a| + wc + 1)[at := top] else Expanded(a, |a| + wc)
    requires |shifted| == |a| && Val(shifted) + top * WordPow(|a|) == Val(a) * Pow2(s)
    requires words == ZeroBelow(Overwrite(buf, wc, shifted), wc)
    ensures Val(words) + (top - stored) * WordPow(|a| + wc) == Val(a) * Pow2(n)
    ensures |words| >= 1 && words[|words| - 1] == if top != 0 then stored else shifted[|shifted| - 1]
  {
    LeftShiftShape(a, wc, at, top, stored, buf, shifted, words);
    LeftShiftBuffer(wc, top, stored, shifted, words);
    LeftShiftTop(wc, top, stored, shifted, words);
    LeftShiftValue(a, n, wc, s, top, stored, shifted, words);
  }

  /** The buffer operator <<= builds from the words shifted by wc words and
      s bits, with the spill top stored at index at (size as written,
      size + wc as intended): zero words, the shifted words, and on top the
      word left at index size + wc, which is the spill only when it was
      stored there. */
  lemma LeftShiftShape(a: seq<Word>, wc: nat, at: nat, top: Word, stored: Word, buf: seq<Word>, shifted: seq<Word>, words: seq<Word>)
    requires |a| >= 1 && (at == |a| || at == |a| + wc)
    requires stored == if at == |a| + wc then top else 0
    requires buf == if top != 0 then Expanded(a, |a| + wc + 1)[at := top] else Expanded(a, |a| + wc)
    requires |shifted| == |a|
    requires words == ZeroBelow(Overwrite(buf, wc, shifted), wc)
    ensures words == Zeros(wc) + shifted + Tail(top, stored)
  {
    var o := Overwrite(buf, wc, shifted);
    var model := Zeros(wc) + shifted + Tail(top, stored);
    assert |words| == |model|;
    forall i | 0 <= i < |words|
      ensures words[i] == model[i]
    {
      if i < wc {
      } else if i < wc + |a| {
        assert words[i] == o[i];
      } else {
        assert words[i] == o[i] == buf[i];
      }
    }
  }

  /** Value and top word of the assembled buffer. */
  lemma LeftShiftBuffer(wc: nat, top: Word, stored: Word, shifted: seq<Word>, words: seq<Word>)
    requires |shifted| >= 1 && (stored == 0 || stored == top)
    requires words == Zeros(wc) + shifted + Tail(top, stored)
    ensures Val(words) == WordPow(wc) * (Val(shifted) + WordPow(|shifted|) * stored)
  {
    var tail := Tail(top, stored);
    TailValue(top, stored);
    BufferValue(wc, |shifted|, shifted, tail, stored, words);
  }

  /** The top word of the assembled buffer. */
  lemma LeftShiftTop(wc: nat, top: Word, stored: Word, shifted: seq<Word>, words: seq<Word>)
    requires |shifted| >= 1
    requires words == Zeros(wc) + shifted + Tail(top, stored)
    ensures |words| >= 1 && words[|words| - 1] == if top != 0 then stored else shifted[|shifted| - 1]
  {
  }

  lemma TailValue(top: Word, stored: Word)
    requires stored == 0 || stored == top
    ensures Val(Tail(top, stored)) == stored
  {
    if top != 0 {
      ValSingle(stored);
    }
  }

  /** A normal operand shifts to a normal buffer: its top word is either
      the nonzero spill or the shifted top word, nonzero when nothing
      spilled. */
  lemma LeftShiftNormal(a: seq<Word>, s: nat, top: Word, stored: Word, shifted: seq<Word>, r: seq<Word>)
    requires s < BITS && Normal(a) && !(|a| == 1 && a[0] == 0) && |shifted| == |a|
    requires top == Spill(a, s) && stored == top
    requires |a| >= 1 && Spill(a, s) == 0 && a[|a| - 1] != 0 ==> shifted[|shifted| - 1] != 0
    requires |r| >= 1 && r[|r| - 1] == if top != 0 then stored else shifted[|shifted| - 1]
    ensures Normal(r)
  {
  }

  /** Zero words below and a tail above: the value of the assembled buffer. */
  lemma BufferValue(wc: nat, k: nat, shifted: seq<Word>, tail: seq<Word>, vt: nat, words: seq<Word>)
    requires words == Zeros(wc) + shifted + tail && |shifted| == k && Val(tail) == vt
    ensures Val(words) == WordPow(wc) * (Val(shifted) + WordPow(k) * vt)
  {
    var zs := Zeros(wc) + shifted;
    assert words == zs + tail;
    ValAppend(zs, tail);
    assert |zs| == wc + k;
    ZerosBelow(wc, shifted, zs);
    WordPowAdd(wc, k);
    Distribute3(WordPow(wc), Val(shifted), WordPow(k), Val(tail), vt, Val(words), WordPow(|zs|), Val(zs));
  }

  /** Words shifted up by wc zero words. */
  lemma ZerosBelow(wc: nat, shifted: seq<Word>, zs: seq<Word>)
    requires zs == Zeros(wc) + shifted
    ensures Val(zs) == WordPow(wc) * Val(shifted)
  {
    ValAppend(Zeros(wc), shifted);
    ValZeros(wc);
  }

  lemma Distribute3(p: int, x: int, q: int, y: int, y': int, v: int, pq: int, vzs: int)
    requires v == vzs + pq * y && vzs == p * x && pq == p * q && y == y'
    ensures v == p * (x + q * y')
  {
  }

  /** The value of the buffer: the true product, less the spill when it was
      not stored on top. */
  lemma LeftShiftValue(a: seq<Word>, n: nat, wc: nat, s: nat, top: Word, stored: Word, shifted: seq<Word>, words: seq<Word>)
    requires wc == n / BITS && s == n % BITS && |shifted| == |a|
    requires Val(shifted) + top * WordPow(|a|) == Val(a) * Pow2(s)
    requires Val(words) == WordPow(wc) * (Val(shifted) + WordPow(|shifted|) * stored)
    ensures Val(words) + (top - stored) * WordPow(|a| + wc) == Val(a) * Pow2(n)
  {
    WordPowAdd(|a|, wc);
    Pow2WordsBits(n);
    ShiftLeftValue(Val(a), Val(shifted), Val(words), WordPow(wc), WordPow(|a|), stored,
      top - stored, top, Pow2(s), WordPow(|a| + wc));
  }

  /** The arithmetic behind LeftShiftValue: shifted words plus the stored
      word, weighed, make the product, less what was not stored. */
  lemma ShiftLeftValue(va: int, vs: int, vw: int, pw: int, pa: int, stored: int, lost: int, top: int, m: int, paw: int)
    requires vs + top * pa == va * m
    requires vw == pw * (vs + pa * stored)
    requires stored + lost == top && paw == pa * pw
    ensures vw + lost * paw == va * (pw * m)
  {
    assert vs + pa * stored + lost * pa == va * m;
    assert pw * (vs + pa * stored) + pw * (lost * pa) == pw * (va * m);
  }

  /** The input that shows the loss: the single word 2^31 shifted left by
      33 bits is 2^64, yet operator <<= as written yields 0. */
  lemma ShiftLeftDropsSpill()
    ensures Lost([0x8000_0000], 33) == 1
    ensures Val([0x8000_0000]) * Pow2(33) == WordPow(2)
    ensures Val([0x8000_0000]) * Pow2(33) - Lost([0x8000_0000], 33) * WordPow(|[0x8000_0000]| + 33 / BITS) == 0
  {
    Pow2Word();
    ValSingle(0x8000_0000);
    assert Pow2(33) == 2 * Pow2(32);
    assert WordPow(2) == BASE * BASE by {
      assert WordPow(2) == BASE * WordPow(1);
    }
  }

  /** operator >>=: the floor of the value over 2^n, normalized. */
  method ShiftRight(a: seq<Word>, n: nat) returns (r: seq<Word>)
    requires |a| >= 1
    ensures Val(r) == Val(a) / Pow2(n)
    ensures Normal(a) || n > 0 ==> Normal(r)
  {
    if n == 0 || (|a| == 1 && a[0] == 0) {
      return a;
    }
    var wordCount := n / BITS;
    var s := n % BITS;
    if |a| <= wordCount {
      ShiftRightAll(a, n);
      ValSingle(0);
      return [0];
    }
    if |a| == 1 + wordCount {
      r := [a[wordCount] / Pow2(s)];
      ShiftRightTop(a, n, r);
      return;
    }
    var temp := a[wordCount..];
    var shifted := RshiftWords(temp, s);
    ShiftRightValue(a, n);
    r := Trim(shifted);
  }

  /** Only the top word survives the word shift. */
  lemma ShiftRightTop(a: seq<Word>, n: nat, r: seq<Word>)
    requires |a| == n / BITS + 1
    requires r == [a[n / BITS] / Pow2(n % BITS)]
    ensures Val(r) == Val(a) / Pow2(n)
  {
    ShiftRightValue(a, n);
    assert a[n / BITS..] == [a[n / BITS]];
    ValSingle(a[n / BITS]);
    ValSingle(a[n / BITS] / Pow2(n % BITS));
  }

  /** Shifting out every word leaves zero. */
  lemma ShiftRightAll(a: seq<Word>, n: nat)
    requires |a| <= n / BITS
    ensures Val(a) / Pow2(n) == 0
  {
    ValBound(a);
    PowMonotone(BASE, |a|, n / BITS);
    Pow2WordsBits(n);
    MulLeftMonotone(WordPow(n / BITS), 1, Pow2(n % BITS));
    DivModUnique(Val(a), Pow2(n), 0, Val(a));
  }

  /** Dropping the bottom n / 32 words and shifting the rest by n % 32 bits
      divides by 2^n. */
  lemma ShiftRightValue(a: seq<Word>, n: nat)
    requires n / BITS <= |a|
    ensures Val(a[n / BITS..]) / Pow2(n % BITS) == Val(a) / Pow2(n)
  {
    ValSplit(a, n / BITS);
    ValBound(a[..n / BITS]);
    WordPowPositive(n / BITS);
    DivSplit(Val(a), Val(a[..n / BITS]), WordPow(n / BITS), Val(a[n / BITS..]));
    Pow2WordsBits(n);
    DivDiv(Val(a), WordPow(n / BITS), Pow2(n % BITS));
  }

  /** (x << n) >> n == x: shifting back right undoes a left shift. */
  method ShiftRoundTrip(a: seq<Word>, n: nat) returns (r: seq<Word>)
    requires Normal(a)
    ensures r == a
  {
    var up := ShiftLeft(a, n);
    r := ShiftRight(up, n);
    Pow2Positive(n);
    DivMulAdd(Val(a), Pow2(n), 0);
    NormalUnique(r, a);
  }
}
