/** The byte codecs of BigUnsigned (bigmath.cpp:90-223): the colon-separated
    hex byte string ("DE:AD:BE:EF", most significant byte first) and the raw
    byte string, which is stored behind a sentinel byte 1 so that leading
    zero bytes survive. Bytes are numbers 0..255. */
module ByteCodecs {
  import opened Numbers
  import opened Words
  import opened Limbs
  import opened Errors
  import opened Radix

  /** BytesPerWord: a 32-bit word holds four bytes. */
  const BYTES_PER_WORD: nat := 4

  // ---------------------------------------------------------------------
  // Bytes inside words
  // ---------------------------------------------------------------------

  /** 256^n is 2^(8 n). */
  lemma BytePow(n: nat)
    ensures Pow(256, n) == Pow2(8 * n)
  {
    PowMul(2, 8, n);
    assert Pow(2, 8) == 256;
  }

  /** Byte position 4 k + j has weight BASE^k 256^j. */
  lemma WordBytePow(k: nat, j: nat)
    ensures Pow(256, 4 * k + j) == WordPow(k) * Pow(256, j)
  {
    PowAdd(256, 4 * k, j);
    PowMul(256, 4, k);
    assert Pow(256, 4) == BASE;
  }

  /** A byte moved to byte j of a word stays inside the word and below the
      bytes above it. */
  lemma ShiftedByte(byte: Byte, j: nat)
    requires j < BYTES_PER_WORD
    ensures 0 <= byte * Pow2(8 * j) < Pow2(8 * j + 8) <= BASE
  {
    var s := Pow2(8 * j);
    MulNonneg(byte, s);
    PowAdd(2, 8 * j, 8);
    assert Pow(2, 8) == 256;
    MulStrict(s, byte, 256);
    PowMonotone(2, 8 * j + 8, BITS);
    Pow2Word();
  }

  /** words[bytePos / 4] |= byte << 8 * (bytePos % 4): the step of
      parseHexByteString and fromByteString that stores one byte. */
  function Place(words: seq<Word>, bytePos: nat, byte: Byte): (r: seq<Word>)
    requires bytePos < BYTES_PER_WORD * |words|
    ensures |r| == |words|
  {
    var wp, j := bytePos / BYTES_PER_WORD, bytePos % BYTES_PER_WORD;
    ShiftedByte(byte, j);
    WordBitwise(words[wp], byte * Pow2(8 * j));
    words[wp := Or(words[wp], byte * Pow2(8 * j))]
  }

  /** While the bytes are stored from the most significant down, the
      buffer holds the bytes stored so far, above f free byte positions. */
  lemma PlaceValue(words: seq<Word>, h: nat, f: nat, byte: Byte)
    requires 1 <= f <= BYTES_PER_WORD * |words|
    requires Val(words) == h * Pow(256, f)
    ensures Val(Place(words, f - 1, byte)) == (h * 256 + byte) * Pow(256, f - 1)
  {
    var wp, j := (f - 1) / BYTES_PER_WORD, (f - 1) % BYTES_PER_WORD;
    var r := Place(words, f - 1, byte);
    var x := words[wp];
    var s := Pow(256, j);
    SlotEmpty(words, h, f);
    PlacedWord(x, byte, j);
    assert r == words[wp := r[wp]];
    ValUpdate(words, wp, r[wp]);
    WordBytePow(wp, j);
    PowAdd(256, f - 1, 1);
    assert Pow(256, 1) == 256;
    PlaceStep(Val(r), Val(words), WordPow(wp), x, r[wp], h, byte, s, Pow(256, f - 1), Pow(256, f));
  }

  /** A byte or-ed into a clear byte position adds its weight. */
  lemma PlacedWord(x: Word, byte: Byte, j: nat)
    requires j < BYTES_PER_WORD && x % Pow2(8 * j + 8) == 0
    ensures Or(x, byte * Pow2(8 * j)) == x + byte * Pow(256, j)
  {
    var p, s := Pow2(8 * j + 8), Pow(256, j);
    BytePow(j);
    ShiftedByte(byte, j);
    DivModUnique(x, p, x / p, 0);
    OrDisjoint(x / p, byte * s, 8 * j + 8);
  }

  lemma PlaceStep(v': int, v: int, w: int, x: int, x': int, h: int, byte: int, s: int, t: int, t': int)
    requires v' + w * x == v + w * x' && x' == x + byte * s
    requires v == h * t' && t' == t * 256 && t == w * s
    ensures v' == (h * 256 + byte) * t
  {
  }

  /** The byte positions below the stored bytes are still zero: the word
      that receives byte f - 1 has its bytes 0..j clear. */
  lemma SlotEmpty(words: seq<Word>, h: nat, f: nat)
    requires 1 <= f <= BYTES_PER_WORD * |words|
    requires Val(words) == h * Pow(256, f)
    ensures words[(f - 1) / BYTES_PER_WORD] % Pow2(8 * ((f - 1) % BYTES_PER_WORD) + 8) == 0
  {
    var wp, j := (f - 1) / BYTES_PER_WORD, (f - 1) % BYTES_PER_WORD;
    assert f == 4 * wp + (j + 1);
    SlotEmptyAt(words, h, wp, j);
  }

  lemma SlotEmptyAt(words: seq<Word>, h: nat, wp: nat, j: nat)
    requires j < BYTES_PER_WORD && wp < |words|
    requires Val(words) == h * Pow(256, 4 * wp + (j + 1))
    ensures words[wp] % Pow2(8 * j + 8) == 0
  {
    WordAt(words, wp);
    WordPowPositive(wp);
    WordBytePow(wp, j + 1);
    PowAdd(256, j + 1, 3 - j);
    assert Pow(256, 4) == BASE;
    PowPositive(256, j + 1);
    BytePow(j + 1);
    SlotZero(Val(words), h, Pow(256, 4 * wp + (j + 1)), WordPow(wp), Pow(256, j + 1), Pow(256, 3 - j),
      Val(words[..wp]), words[wp] + BASE * Val(words[wp + 1..]), words[wp], Val(words[wp + 1..]));
  }

  lemma SlotZero(v: int, h: int, t: int, w: int, p: int, q: int, low: int, vs: int, x: int, rest: int)
    requires w > 0 && p > 0 && 0 <= low < w
    requires v == h * t && t == w * p && v == low + w * vs && vs == x + BASE * rest && BASE == p * q
    ensures x % p == 0
  {
    var d := h * p - x - p * q * rest;
    assert w * d == low;
    MulSmall(d, w);
    DivModUnique(x, p, h - q * rest, 0);
  }

  // ---------------------------------------------------------------------
  // parseHexByteString (bigmath.cpp:90-166)
  // ---------------------------------------------------------------------

  /** isxdigit */
  predicate IsHexDigit(c: char)
  {
    '0' <= c <= '9' || 'a' <= c <= 'f' || 'A' <= c <= 'F'
  }

  /** The value of a hex digit: isdigit, else isupper, else lower case. */
  function HexValue(c: char): (r: nat)
    requires IsHexDigit(c)
    ensures r < 16
  {
    if '0' <= c <= '9' then c as int - '0' as int
    else if 'A' <= c <= 'F' then c as int - 'A' as int + 10
    else c as int - 'a' as int + 10
  }

  /** getHexDigit (bigmath.h:126-131): the upper-case hex digit of d, which
      HexValue reads back. */
  function HexDigit(d: nat): (c: char)
    requires d < 16
    ensures IsHexDigit(c) && HexValue(c) == d && !('a' <= c <= 'f')
  {
    if d <= 9 then (d + '0' as int) as char else (d - 10 + 'A' as int) as char
  }

  /** A colon-separated list of bytes of one or two hex digits each; the
      list may end with ':'. */
  predicate WellFormedHex(s: string)
  {
    HexOrColon(s) && ColonAfterDigit(s) && AtMostTwoDigits(s)
  }

  predicate HexOrColon(s: string)
  {
    forall i :: 0 <= i < |s| ==> IsHexDigit(s[i]) || s[i] == ':'
  }

  predicate ColonAfterDigit(s: string)
  {
    forall i :: 0 <= i < |s| && s[i] == ':' ==> i > 0 && IsHexDigit(s[i - 1])
  }

  predicate AtMostTwoDigits(s: string)
  {
    forall i :: 2 <= i < |s| && IsHexDigit(s[i]) ==> !(IsHexDigit(s[i - 1]) && IsHexDigit(s[i - 2]))
  }

  /** The number of hex digits at the end of s. */
  function Run(s: string): nat
  {
    if |s| == 0 || !IsHexDigit(s[|s| - 1]) then 0 else Run(s[..|s| - 1]) + 1
  }

  /** What the first pass of parseHexByteString knows after a prefix: the
      bytes begun so far and the digits of the current byte. */
  datatype Count = Count(bytes: nat, digits: nat)

  function CountStep(st: Count, c: char): Result<Count>
  {
    if IsHexDigit(c) then
      if st.digits + 1 > 2 then Err(TooManyHexDigits)
      else Ok(Count(if st.digits == 0 then st.bytes + 1 else st.bytes, st.digits + 1))
    else if c == ':' then
      if st.digits == 0 then Err(NoHexDigits) else Ok(Count(st.bytes, 0))
    else Err(InvalidHexCharacter)
  }

  /** The first pass over s: the first error met, or the counts. */
  function CountBytes(s: string): Result<Count>
  {
    if |s| == 0 then Ok(Count(0, 0))
    else match CountBytes(s[..|s| - 1])
      case Err(e) => Err(e)
      case Ok(st) => CountStep(st, s[|s| - 1])
  }

  /** The first pass rejects exactly the strings that are not well formed:
      a non-hex character, a ':' without digits before it, a third digit. */
  lemma {:induction false} CountWellFormed(s: string)
    ensures CountBytes(s).Ok? <==> WellFormedHex(s)
    ensures CountBytes(s).Ok? ==> CountBytes(s).value.digits == Run(s)
  {
    if |s| > 0 {
      var p, c := s[..|s| - 1], s[|s| - 1];
      CountWellFormed(p);
      assert s == p + [c];
      WellFormedSnoc(p, c);
    }
  }

  /** A character may follow a well-formed string when it is a digit after
      fewer than two digits, or a ':' after a digit. */
  lemma WellFormedSnoc(p: string, c: char)
    ensures WellFormedHex(p + [c]) <==>
      WellFormedHex(p) && (IsHexDigit(c) || c == ':') &&
      (IsHexDigit(c) ==> Run(p) < 2) && (c == ':' ==> Run(p) > 0)
  {
    var s, n := p + [c], |p|;
    RunEnd(p);
    assert s[n] == c && s[..n] == p;
    SnocHexOrColon(p, c);
    SnocColon(p, c);
    SnocTwoDigits(p, c);
    if n >= 1 {
      assert s[n - 1] == p[n - 1];
    }
    if n >= 2 {
      assert s[n - 2] == p[n - 2];
    }
  }

  lemma SnocHexOrColon(p: string, c: char)
    ensures HexOrColon(p + [c]) <==> HexOrColon(p) && (IsHexDigit(c) || c == ':')
  {
    var s := p + [c];
    assert forall i :: 0 <= i < |p| ==> s[i] == p[i];
    assert s[|p|] == c;
  }

  lemma SnocColon(p: string, c: char)
    ensures ColonAfterDigit(p + [c]) <==>
      ColonAfterDigit(p) && (c == ':' ==> |p| > 0 && IsHexDigit((p + [c])[|p| - 1]))
  {
    var s := p + [c];
    assert forall i :: 0 <= i < |p| ==> s[i] == p[i];
    assert s[|p|] == c;
  }

  lemma SnocTwoDigits(p: string, c: char)
    ensures AtMostTwoDigits(p + [c]) <==> (AtMostTwoDigits(p) &&
      (IsHexDigit(c) && |p| >= 2 ==> !(IsHexDigit((p + [c])[|p| - 1]) && IsHexDigit((p + [c])[|p| - 2]))))
  {
    var s := p + [c];
    assert forall i :: 0 <= i < |p| ==> s[i] == p[i];
    assert s[|p|] == c;
  }

  /** The last one or two characters as counted by Run. */
  lemma RunEnd(p: string)
    ensures Run(p) > 0 <==> |p| > 0 && IsHexDigit(p[|p| - 1])
    ensures Run(p) >= 2 <==> |p| >= 2 && IsHexDigit(p[|p| - 1]) && IsHexDigit(p[|p| - 2])
  {
    var n := |p|;
    if n > 0 && IsHexDigit(p[n - 1]) {
      var q := p[..n - 1];
      if n >= 2 {
        assert q[|q| - 1] == p[n - 2];
      }
    }
  }

  /** Once the first pass fails it stays failed. */
  lemma {:induction false} CountErrSticky(s: string, i: nat)
    requires i <= |s| && CountBytes(s[..i]).Err?
    ensures CountBytes(s) == CountBytes(s[..i])
    decreases |s| - i
  {
    if i < |s| {
      assert s[..i + 1][..i] == s[..i];
      CountErrSticky(s, i + 1);
    } else {
      assert s[..i] == s;
    }
  }

  /** Every prefix of an accepted string is accepted, with no more bytes. */
  lemma {:induction false} CountPrefix(s: string, i: nat)
    requires i <= |s| && CountBytes(s).Ok?
    ensures CountBytes(s[..i]).Ok? && CountBytes(s[..i]).value.bytes <= CountBytes(s).value.bytes
    decreases |s| - i
  {
    if i < |s| {
      var p := s[..|s| - 1];
      assert p[..i] == s[..i];
      CountPrefix(p, i);
    } else {
      assert s[..i] == s;
    }
  }

  /** A non-empty accepted string begins a byte. */
  lemma {:induction false} CountNonEmpty(s: string)
    requires |s| > 0 && CountBytes(s).Ok?
    ensures CountBytes(s).value.bytes >= 1
  {
    if |s| > 1 {
      CountNonEmpty(s[..|s| - 1]);
    }
  }

  /** What the second pass has after a prefix: the completed bytes, most
      significant first, and the byte being read. */
  datatype Gather = Gather(done: seq<nat>, current: nat, have: bool)

  function GatherStep(g: Gather, c: char): Gather
  {
    if IsHexDigit(c) then Gather(g.done, g.current * 16 + HexValue(c), true)
    else if g.have then Gather(g.done + [g.current], 0, false)
    else g
  }

  function GatherAll(s: string): Gather
  {
    if |s| == 0 then Gather([], 0, false) else GatherStep(GatherAll(s[..|s| - 1]), s[|s| - 1])
  }

  /** The bytes a hex byte string spells, most significant first. */
  function HexBytes(s: string): seq<nat>
  {
    var g := GatherAll(s);
    if g.have then g.done + [g.current] else g.done
  }

  /** The two passes agree: on an accepted prefix the second pass has
      completed all but the current byte the first pass counted, and every
      byte fits in 8 bits because it has at most two digits. */
  lemma {:induction false} GatherCount(s: string)
    requires CountBytes(s).Ok?
    ensures var g, st := GatherAll(s), CountBytes(s).value;
      |g.done| + (if g.have then 1 else 0) == st.bytes && (g.have <==> st.digits > 0) &&
      (st.digits == 0 ==> g.current == 0) && (st.digits <= 1 ==> g.current < 16) &&
      g.current < 256 && Below(g.done, 256)
  {
    if |s| > 0 {
      GatherCount(s[..|s| - 1]);
    }
  }

  /** On a prefix of an accepted string the second pass has met no more
      bytes than the first pass counts in all. */
  lemma GatherPrefix(s: string, i: nat)
    requires i <= |s| && CountBytes(s).Ok?
    ensures var g := GatherAll(s[..i]);
      |g.done| + (if g.have then 1 else 0) <= CountBytes(s).value.bytes && g.current < 256
  {
    CountPrefix(s, i);
    GatherCount(s[..i]);
  }

  /** At the end of the second pass the bytes are all there but the last
      one, which is still being read if the string does not end in ':'. */
  lemma FillComplete(s: string, done: seq<nat>, current: nat, have: bool, byteCount: nat)
    requires CountBytes(s).Ok? && byteCount == CountBytes(s).value.bytes
    requires GatherAll(s) == Gather(done, current, have)
    ensures HexBytes(s) == (if have then done + [current] else done)
    ensures |HexBytes(s)| == byteCount && Below(HexBytes(s), 256) && current < 256
  {
    GatherCount(s);
  }

  /** Storing the next byte below the ones already stored. */
  lemma StoreByteValue(words: seq<Word>, done: seq<nat>, current: Byte, byteCount: nat)
    requires |done| < byteCount <= BYTES_PER_WORD * |words|
    requires Val(words) == Horner(done, 256) * Pow(256, byteCount - |done|)
    ensures Val(Place(words, byteCount - (|done| + 1), current))
      == Horner(done + [current], 256) * Pow(256, byteCount - (|done| + 1))
  {
    assert (done + [current])[..|done|] == done;
    PlaceValue(words, Horner(done, 256), byteCount - |done|, current);
  }

  /** The block that stores a completed byte: byteNumber++, then the byte
      goes to byte position byteCount - byteNumber. */
  method StoreByte(words: seq<Word>, byteCount: nat, byteNumber: nat, currentByte: Byte, ghost done: seq<nat>)
    returns (words': seq<Word>, byteNumber': nat)
    requires |done| == byteNumber < byteCount <= BYTES_PER_WORD * |words|
    requires Val(words) == Horner(done, 256) * Pow(256, byteCount - byteNumber)
    ensures |words'| == |words| && byteNumber' == byteNumber + 1
    ensures Val(words') == Horner(done + [currentByte], 256) * Pow(256, byteCount - byteNumber')
  {
    StoreByteValue(words, done, currentByte, byteCount);
    byteNumber' := byteNumber + 1;
    var bytePos := byteCount - byteNumber';
    words' := Place(words, bytePos, currentByte);
  }

  /** The first pass of parseHexByteString: checks the format and counts
      the bytes. */
  method CountHexBytes(s: string) returns (r: Result<nat>)
    ensures r.Err? ==> CountBytes(s) == Err(r.error)
    ensures r.Ok? ==> CountBytes(s).Ok? && r.value == CountBytes(s).value.bytes
  {
    var byteCount: nat := 0;
    var hexDigitCount: nat := 0;
    var i := 0;
    while i < |s|
      invariant 0 <= i <= |s|
      invariant CountBytes(s[..i]) == Ok(Count(byteCount, hexDigitCount))
    {
      assert s[..i + 1][..i] == s[..i];
      if IsHexDigit(s[i]) {
        if hexDigitCount == 0 {
          byteCount := byteCount + 1;
        }
        hexDigitCount := hexDigitCount + 1;
        if hexDigitCount > 2 {
          CountErrSticky(s, i + 1);
          return Err(TooManyHexDigits);
        }
      } else if s[i] == ':' {
        if hexDigitCount == 0 {
          CountErrSticky(s, i + 1);
          return Err(NoHexDigits);
        }
        hexDigitCount := 0;
      } else {
        CountErrSticky(s, i + 1);
        return Err(InvalidHexCharacter);
      }
      i := i + 1;
    }
    assert s[..i] == s;
    r := Ok(byteCount);
  }

  /** One character of the second pass of parseHexByteString: a digit
      extends the current byte, a ':' stores it. */
  method FillStep(c: char, words: seq<Word>, byteCount: nat, byteNumber: nat, currentByte: nat,
                  haveByte: bool, ghost done: seq<nat>)
    returns (words': seq<Word>, byteNumber': nat, currentByte': nat, haveByte': bool, ghost done': seq<nat>)
    requires byteCount <= BYTES_PER_WORD * |words| && byteNumber == |done| && currentByte < 256
    requires byteNumber + (if haveByte then 1 else 0) <= byteCount
    requires Val(words) == Horner(done, 256) * Pow(256, byteCount - byteNumber)
    requires var g := GatherStep(Gather(done, currentByte, haveByte), c);
      |g.done| + (if g.have then 1 else 0) <= byteCount && g.current < 256
    ensures Gather(done', currentByte', haveByte') == GatherStep(Gather(done, currentByte, haveByte), c)
    ensures |words'| == |words| && byteNumber' == |done'|
    ensures Val(words') == Horner(done', 256) * Pow(256, byteCount - byteNumber')
  {
    words', byteNumber', currentByte', haveByte', done' := words, byteNumber, currentByte, haveByte, done;
    if IsHexDigit(c) {
      currentByte' := currentByte * 16 + HexValue(c);
      haveByte' := true;
    } else if haveByte {
      words', byteNumber' := StoreByte(words, byteCount, byteNumber, currentByte, done);
      done' := done + [currentByte];
      haveByte' := false;
      currentByte' := 0;
    }
  }

  /** The second pass of parseHexByteString: each byte, once complete, is
      stored at its position counted from the top of the buffer. */
  method FillHexBytes(s: string, byteCount: nat) returns (words: seq<Word>)
    requires CountBytes(s).Ok? && byteCount == CountBytes(s).value.bytes
    ensures |words| == (byteCount + BYTES_PER_WORD - 1) / BYTES_PER_WORD
    ensures Below(HexBytes(s), 256) && Val(words) == Horner(HexBytes(s), 256)
  {
    var wordCount := (byteCount + BYTES_PER_WORD - 1) / BYTES_PER_WORD;
    words := Zeros(wordCount);
    ValZeros(wordCount);
    var byteNumber: nat := 0;
    var currentByte: nat := 0;
    var haveByte := false;
    ghost var done: seq<nat> := [];
    var i := 0;
    while i < |s|
      invariant 0 <= i <= |s| && |words| == wordCount
      invariant GatherAll(s[..i]) == Gather(done, currentByte, haveByte)
      invariant byteNumber == |done| && byteNumber + (if haveByte then 1 else 0) <= byteCount
      invariant currentByte < 256
      invariant Val(words) == Horner(done, 256) * Pow(256, byteCount - byteNumber)
    {
      assert s[..i + 1][..i] == s[..i];
      GatherPrefix(s, i + 1);
      assert GatherAll(s[..i + 1]) == GatherStep(GatherAll(s[..i]), s[i]);
      words, byteNumber, currentByte, haveByte, done :=
        FillStep(s[i], words, byteCount, byteNumber, currentByte, haveByte, done);
      i := i + 1;
    }
    assert s[..i] == s;
    FillComplete(s, done, currentByte, haveByte, byteCount);
    words := StoreLastByte(words, byteCount, byteNumber, currentByte, haveByte, done);
  }

  /** The end of the second pass: a byte still being read is stored at
      position 0. */
  method StoreLastByte(words: seq<Word>, byteCount: nat, byteNumber: nat, currentByte: Byte, haveByte: bool,
                       ghost done: seq<nat>)
    returns (words': seq<Word>)
    requires byteCount <= BYTES_PER_WORD * |words| && byteNumber == |done|
    requires byteNumber + (if haveByte then 1 else 0) == byteCount
    requires Val(words) == Horner(done, 256) * Pow(256, byteCount - byteNumber)
    ensures |words'| == |words|
    ensures Val(words') == Horner(if haveByte then done + [currentByte] else done, 256)
  {
    words' := words;
    var byteNumber' := byteNumber;
    if haveByte {
      words', byteNumber' := StoreByte(words, byteCount, byteNumber, currentByte, done);
    }
    assert byteCount - byteNumber' == 0;
    assert Pow(256, 0) == 1;
  }

  /** parseHexByteString as written: the empty string passes both passes
      and yields a buffer of no words, which is not a number. */
  method ParseHexByteStringAsWritten(s: string) returns (r: Result<seq<Word>>)
    ensures r.Err? <==> !WellFormedHex(s)
    ensures r.Err? ==> CountBytes(s) == Err(r.error)
    ensures r.Ok? ==> Below(HexBytes(s), 256) && Val(r.value) == Horner(HexBytes(s), 256)
    ensures s != "" && r.Ok? ==> Normal(r.value)
    ensures s == "" ==> r == Ok([])
  {
    CountWellFormed(s);
    var counted := CountHexBytes(s);
    if counted.Err? {
      return Err(counted.error);
    }
    var words := FillHexBytes(s, counted.value);
    if s != "" {
      CountNonEmpty(s);
    }
    r := Ok(Trim(words));
  }

  /** parseHexByteString with the buffer given at least one word, as every
      other constructor does: the empty string reads as zero. */
  method ParseHexByteString(s: string) returns (r: Result<seq<Word>>)
    ensures r.Err? <==> !WellFormedHex(s)
    ensures r.Err? ==> CountBytes(s) == Err(r.error)
    ensures r.Ok? ==> Normal(r.value) && Below(HexBytes(s), 256)
    ensures r.Ok? ==> Val(r.value) == Horner(HexBytes(s), 256)
  {
    r := ParseHexByteStringAsWritten(s);
    if r.Ok? && |r.value| == 0 {
      r := Ok([0]);
    }
  }

  // ---------------------------------------------------------------------
  // Reading the bytes back (toHexByteString, toByteString)
  // ---------------------------------------------------------------------

  /** Byte j of the buffer: (words[j / 4] >> (j % 4) * 8) & 0xFF. */
  function ByteAt(words: seq<Word>, j: nat): (r: Byte)
    requires j < BYTES_PER_WORD * |words|
    ensures r == (words[j / BYTES_PER_WORD] / Pow2(8 * (j % BYTES_PER_WORD))) % 256
  {
    var v := words[j / BYTES_PER_WORD] / Pow2(8 * (j % BYTES_PER_WORD));
    assert Pow2(8) == 256 by {
      BytePow(1);
    }
    AndLowMask(v, 8, 0xFF);
    And(v, 0xFF)
  }

  /** The value of the low n bytes of the buffer. */
  function LowBytes(words: seq<Word>, n: nat): nat
    requires n <= BYTES_PER_WORD * |words|
  {
    if n == 0 then 0
    else
      var b, p := ByteAt(words, n - 1), Pow(256, n - 1);
      MulNonneg(b, p);
      LowBytes(words, n - 1) + b * p
  }

  /** A word is the sum of its four bytes. */
  lemma WordBytes(x: Word)
    ensures x == x % 256 + 256 * ((x / 256) % 256) + 65536 * ((x / 65536) % 256) + 16777216 * ((x / 16777216) % 256)
  {
    var q1 := x / 256;
    var q2 := q1 / 256;
    var q3 := q2 / 256;
    DivDiv(x, 256, 256);
    DivDiv(x, 65536, 256);
    assert x / 65536 == q2 && x / 16777216 == q3;
    assert q3 < 256;
  }

  /** The low bytes only read the words that hold them. */
  lemma {:induction false} LowBytesPrefix(words: seq<Word>, k: nat, n: nat)
    requires k <= |words| && n <= BYTES_PER_WORD * k
    ensures LowBytes(words, n) == LowBytes(words[..k], n)
  {
    if n > 0 {
      LowBytesPrefix(words, k, n - 1);
      assert words[..k][(n - 1) / BYTES_PER_WORD] == words[(n - 1) / BYTES_PER_WORD];
    }
  }

  /** All the bytes of the buffer make up its value. */
  lemma {:induction false} LowBytesAll(words: seq<Word>)
    ensures LowBytes(words, BYTES_PER_WORD * |words|) == Val(words)
  {
    if |words| > 0 {
      var k := |words| - 1;
      var x := words[k];
      LowBytesAll(words[..k]);
      LowBytesPrefix(words, k, 4 * k);
      ValLast(words);
      TopWordBytes(words, k);
    }
  }

  /** The four bytes of word k weigh BASE^k times their weight inside it. */
  lemma TopWordBytes(words: seq<Word>, k: nat)
    requires k < |words|
    ensures LowBytes(words, 4 * k + 4) == LowBytes(words, 4 * k) + WordPow(k) * words[k]
  {
    LowBytesStep(words, 4 * k);
    LowBytesStep(words, 4 * k + 1);
    LowBytesStep(words, 4 * k + 2);
    LowBytesStep(words, 4 * k + 3);
    WordWeights(k);
    WordOfBytes(words, k);
    SumFour(LowBytes(words, 4 * k), LowBytes(words, 4 * k + 1), LowBytes(words, 4 * k + 2),
      LowBytes(words, 4 * k + 3), LowBytes(words, 4 * k + 4),
      ByteAt(words, 4 * k), ByteAt(words, 4 * k + 1), ByteAt(words, 4 * k + 2), ByteAt(words, 4 * k + 3),
      Pow(256, 4 * k), Pow(256, 4 * k + 1), Pow(256, 4 * k + 2), Pow(256, 4 * k + 3), WordPow(k), words[k]);
  }

  lemma LowBytesStep(words: seq<Word>, m: nat)
    requires m < BYTES_PER_WORD * |words|
    ensures LowBytes(words, m + 1) == LowBytes(words, m) + ByteAt(words, m) * Pow(256, m)
  {
  }

  /** The weights of the four bytes of word k. */
  lemma WordWeights(k: nat)
    ensures Pow(256, 4 * k) == WordPow(k) * 1 && Pow(256, 4 * k + 1) == WordPow(k) * 256
    ensures Pow(256, 4 * k + 2) == WordPow(k) * 65536 && Pow(256, 4 * k + 3) == WordPow(k) * 16777216
  {
    PowMul(256, 4, k);
    assert Pow(256, 4) == BASE;
    WordBytePow(k, 1);
    WordBytePow(k, 2);
    WordBytePow(k, 3);
    SmallPowers();
  }

  /** A word is the sum of its four bytes at their weights. */
  lemma WordOfBytes(words: seq<Word>, k: nat)
    requires k < |words|
    ensures words[k] == ByteAt(words, 4 * k) + 256 * ByteAt(words, 4 * k + 1) +
      65536 * ByteAt(words, 4 * k + 2) + 16777216 * ByteAt(words, 4 * k + 3)
  {
    SmallPowers();
    ByteOfWord(words, k, 0, 1);
    ByteOfWord(words, k, 1, 256);
    ByteOfWord(words, k, 2, 65536);
    ByteOfWord(words, k, 3, 16777216);
    WordBytes(words[k]);
  }

  lemma ByteOfWord(words: seq<Word>, k: nat, j: nat, p: nat)
    requires k < |words| && j < BYTES_PER_WORD && p == Pow2(8 * j)
    ensures ByteAt(words, 4 * k + j) == (words[k] / p) % 256
  {
    assert (4 * k + j) / BYTES_PER_WORD == k && (4 * k + j) % BYTES_PER_WORD == j;
  }

  /** The weights of the four bytes of a word. */
  lemma SmallPowers()
    ensures Pow(256, 0) == 1 && Pow(256, 1) == 256 && Pow(256, 2) == 65536 && Pow(256, 3) == 16777216
    ensures Pow2(0) == 1 && Pow2(8) == 256 && Pow2(16) == 65536 && Pow2(24) == 16777216
  {
    BytePow(1);
    BytePow(2);
    BytePow(3);
    assert Pow(256, 3) == 16777216;
  }

  lemma SumFour(l0: int, l1: int, l2: int, l3: int, l4: int, b0: int, b1: int, b2: int, b3: int,
                p0: int, p1: int, p2: int, p3: int, w: int, x: int)
    requires l1 == l0 + b0 * p0 && l2 == l1 + b1 * p1 && l3 == l2 + b2 * p2 && l4 == l3 + b3 * p3
    requires p0 == w * 1 && p1 == w * 256 && p2 == w * 65536 && p3 == w * 16777216
    requires x == b0 + 256 * b1 + 65536 * b2 + 16777216 * b3
    ensures l4 == l0 + w * x
  {
  }

  /** The low n bytes of the buffer, most significant first: the order
      toHexByteString and toByteString emit them in. */
  function HighFirst(words: seq<Word>, n: nat): (r: seq<nat>)
    requires n <= BYTES_PER_WORD * |words|
    ensures |r| == n && Below(r, 256)
  {
    seq(n, i requires 0 <= i < n => ByteAt(words, n - 1 - i))
  }

  /** Read in base 256, the bytes most significant first are the low n
      bytes of the buffer. */
  lemma {:induction false} HighFirstValue(words: seq<Word>, n: nat)
    requires n <= BYTES_PER_WORD * |words|
    ensures Horner(HighFirst(words, n), 256) == LowBytes(words, n)
  {
    if n > 0 {
      HighFirstValue(words, n - 1);
      assert HighFirst(words, n) == [ByteAt(words, n - 1)] + HighFirst(words, n - 1);
      HornerCons(ByteAt(words, n - 1), HighFirst(words, n - 1), 256);
    }
  }

  /** The opening loop of toHexByteString and toByteString: the number of
      bytes up to the highest non-zero one, and at least one. */
  method SignificantBytes(a: seq<Word>) returns (byteCount: nat)
    requires |a| >= 1
    ensures 1 <= byteCount <= BYTES_PER_WORD * |a|
    ensures HighFirst(a, byteCount) == Expansion(Val(a), 256)
  {
    byteCount := BYTES_PER_WORD * |a|;
    LowBytesAll(a);
    while byteCount > 1 && ByteAt(a, byteCount - 1) == 0
      invariant 1 <= byteCount <= BYTES_PER_WORD * |a|
      invariant LowBytes(a, byteCount) == Val(a)
    {
      byteCount := byteCount - 1;
    }
    SignificantExpansion(a, byteCount);
  }

  /** The bytes from the highest non-zero one down are the base-256
      expansion of the number. */
  lemma SignificantExpansion(a: seq<Word>, n: nat)
    requires 1 <= n <= BYTES_PER_WORD * |a| && LowBytes(a, n) == Val(a)
    requires n > 1 ==> ByteAt(a, n - 1) != 0
    ensures HighFirst(a, n) == Expansion(Val(a), 256)
  {
    var bs := HighFirst(a, n);
    HighFirstValue(a, n);
    assert bs[0] == ByteAt(a, n - 1);
    ExpansionUnique(bs, 256);
  }

  /** Bytes as two upper-case hex digits each, separated by ':'. */
  function HexText(bs: seq<nat>): (r: string)
    requires |bs| >= 1 && Below(bs, 256)
    ensures |r| == 3 * |bs| - 1
  {
    seq(3 * |bs| - 1, k requires 0 <= k < 3 * |bs| - 1 =>
      if k % 3 == 2 then ':'
      else if k % 3 == 0 then HexDigit(bs[k / 3] / 16)
      else HexDigit(bs[k / 3] % 16))
  }

  /** toHexByteString (bigmath.cpp:168-184): the bytes of the number from
      the highest non-zero one down, each as two hex digits. */
  method ToHexByteString(a: seq<Word>) returns (r: string)
    requires |a| >= 1
    ensures r == HexText(Expansion(Val(a), 256))
  {
    var byteCount := SignificantBytes(a);
    ghost var bs := HighFirst(a, byteCount);
    r := seq(3 * byteCount - 1, _ => ':');
    var i := 0;
    while i < byteCount
      invariant 0 <= i <= byteCount && HexFilled(bs, r, i)
    {
      var j := byteCount - 1 - i;
      var currentByte := ByteAt(a, j);
      var highNibble := currentByte / 16;
      AndLowMask(currentByte, 4, 0xF);
      assert Pow2(4) == 16;
      var lowNibble := And(currentByte, 0xF);
      HexFillStep(bs, r, i);
      r := r[3 * i := HexDigit(highNibble)][3 * i + 1 := HexDigit(lowNibble)];
      i := i + 1;
    }
    assert r == HexText(bs);
  }

  /** The first i bytes of the hex text are written; the rest is still
      the ':' the string was filled with. */
  predicate HexFilled(bs: seq<nat>, r: string, i: nat)
    requires |bs| >= 1 && Below(bs, 256)
  {
    |r| == 3 * |bs| - 1 &&
    forall k :: 0 <= k < |r| ==> r[k] == if k < 3 * i || k % 3 == 2 then HexText(bs)[k] else ':'
  }

  lemma HexFillStep(bs: seq<nat>, r: string, i: nat)
    requires |bs| >= 1 && Below(bs, 256) && i < |bs| && HexFilled(bs, r, i)
    ensures HexFilled(bs, r[3 * i := HexDigit(bs[i] / 16)][3 * i + 1 := HexDigit(bs[i] % 16)], i + 1)
  {
    assert (3 * i) / 3 == i && (3 * i + 1) / 3 == i;
  }

  /** toByteString (bigmath.cpp:207-223): the bytes below the sentinel,
      most significant first; a number whose top byte is not 1 is not an
      encoded byte string. */
  method ToByteString(a: seq<Word>) returns (r: Result<seq<Byte>>)
    requires |a| >= 1
    ensures r.Ok? <==> Expansion(Val(a), 256)[0] == 1
    ensures r.Err? ==> r.error == NotByteString
    ensures r.Ok? ==> r.value == Expansion(Val(a), 256)[1..]
  {
    var byteCount := SignificantBytes(a);
    ghost var bs := HighFirst(a, byteCount);
    var retval: seq<Byte> := seq(byteCount - 1, _ => 0);
    var i := 0;
    while i < byteCount
      invariant 0 <= i <= byteCount && |retval| == byteCount - 1
      invariant i > 0 ==> bs[0] == 1
      invariant forall k :: 0 <= k < |retval| ==> retval[k] == if k + 1 < i then bs[k + 1] else 0
    {
      var j := byteCount - 1 - i;
      var currentByte := ByteAt(a, j);
      if i != 0 {
        retval := retval[i - 1 := currentByte];
      } else if currentByte != 1 {
        return Err(NotByteString);
      }
      i := i + 1;
    }
    assert retval == bs[1..];
    r := Ok(retval);
  }

  /** fromByteString (bigmath.cpp:186-205): the sentinel byte 1 followed by
      the bytes of s, most significant first. */
  method FromByteString(s: seq<Byte>) returns (r: seq<Word>)
    ensures Normal(r) && Val(r) == Horner([1] + s, 256)
  {
    var byteCount := |s| + 1;
    var wordCount := (byteCount + BYTES_PER_WORD - 1) / BYTES_PER_WORD;
    var words := Zeros(wordCount);
    ValZeros(wordCount);
    var byteNumber := 0;
    words, byteNumber := StoreByte(words, byteCount, byteNumber, 1, []);
    var i := 0;
    while i < |s|
      invariant 0 <= i <= |s| && byteNumber == i + 1 && |words| == wordCount
      invariant Val(words) == Horner([1] + s[..i], 256) * Pow(256, byteCount - byteNumber)
    {
      words, byteNumber := StoreByte(words, byteCount, byteNumber, s[i], [1] + s[..i]);
      assert [1] + s[..i + 1] == [1] + s[..i] + [s[i]];
      i := i + 1;
    }
    assert s[..i] == s;
    ghost var h := Horner([1] + s, 256);
    assert Val(words) == h * Pow(256, 0);
    assert Pow(256, 0) == 1;
    r := Trim(words);
  }

  /** The sentinel and the bytes are the base-256 expansion of the number
      fromByteString builds. */
  lemma SentinelExpansion(s: seq<Byte>)
    ensures Expansion(Horner([1] + s, 256), 256) == [1] + s
  {
    ExpansionUnique([1] + s, 256);
  }

  /** toByteString(fromByteString(s)) gives s back, leading zero bytes and
      the empty string included. */
  method ByteStringRoundTrip(s: seq<Byte>) returns (r: Result<seq<Byte>>)
    ensures r == Ok(s)
  {
    var v := FromByteString(s);
    SentinelExpansion(s);
    r := ToByteString(v);
    assert ([1] + s)[1..] == s;
  }

  /** Appending a character to what the two passes have read. */
  lemma ScanSnoc(t: string, c: char)
    ensures CountBytes(t + [c]) == match CountBytes(t) case Err(e) => Err(e) case Ok(st) => CountStep(st, c)
    ensures GatherAll(t + [c]) == GatherStep(GatherAll(t), c)
  {
    assert (t + [c])[..|t|] == t;
  }

  /** A further byte in the hex text. */
  lemma HexTextSnoc(bs: seq<nat>, x: nat)
    requires |bs| >= 1 && Below(bs, 256) && x < 256 && Below(bs + [x], 256)
    ensures HexText(bs + [x]) == HexText(bs) + [':'] + [HexDigit(x / 16)] + [HexDigit(x % 16)]
  {
    var n := |bs|;
    var l, r := HexText(bs + [x]), HexText(bs) + [':'] + [HexDigit(x / 16)] + [HexDigit(x % 16)];
    forall k | 0 <= k < 3 * n + 2
      ensures l[k] == r[k]
    {
      if k < 3 * n - 1 {
        assert (bs + [x])[k / 3] == bs[k / 3];
      }
    }
  }

  /** Reading the hex text of bytes: the first pass counts them all, with
      two digits in the last, and the second pass has all but the last
      completed. */
  lemma {:induction false} HexTextScan(bs: seq<nat>)
    requires |bs| >= 1 && Below(bs, 256)
    ensures CountBytes(HexText(bs)) == Ok(Count(|bs|, 2))
    ensures GatherAll(HexText(bs)) == Gather(bs[..|bs| - 1], bs[|bs| - 1], true)
  {
    var n := |bs|;
    var x := bs[n - 1];
    if n == 1 {
      assert bs == [x];
      HexTextOne(x);
    } else {
      var p := bs[..n - 1];
      HexTextScan(p);
      assert bs == p + [x];
      HexTextSnoc(p, x);
      ScanByte(HexText(p), n - 1, p[..n - 2], p[n - 2], x);
      assert p[..n - 2] + [p[n - 2]] == p;
    }
  }

  /** Reading the two digits of a single byte. */
  lemma HexTextOne(x: nat)
    requires x < 256
    ensures CountBytes(HexText([x])) == Ok(Count(1, 2))
    ensures GatherAll(HexText([x])) == Gather([], x, true)
  {
    var hi, lo := HexDigit(x / 16), HexDigit(x % 16);
    assert HexText([x]) == [hi] + [lo];
    ScanSnoc([], hi);
    ScanSnoc([hi], lo);
    assert [] + [hi] == [hi];
  }

  /** Reading ':' and the two digits of one more byte. */
  lemma ScanByte(t: string, count: nat, done: seq<nat>, current: nat, x: nat)
    requires x < 256
    requires CountBytes(t) == Ok(Count(count, 2)) && GatherAll(t) == Gather(done, current, true)
    ensures var t' := t + [':'] + [HexDigit(x / 16)] + [HexDigit(x % 16)];
      CountBytes(t') == Ok(Count(count + 1, 2)) && GatherAll(t') == Gather(done + [current], x, true)
  {
    var hi, lo := HexDigit(x / 16), HexDigit(x % 16);
    ScanSnoc(t, ':');
    ScanSnoc(t + [':'], hi);
    ScanSnoc(t + [':'] + [hi], lo);
  }

  /** The hex text of bytes is well formed and spells those bytes. */
  lemma HexTextParsed(bs: seq<nat>)
    requires |bs| >= 1 && Below(bs, 256)
    ensures WellFormedHex(HexText(bs)) && HexBytes(HexText(bs)) == bs
  {
    HexTextScan(bs);
    CountWellFormed(HexText(bs));
    assert bs[..|bs| - 1] + [bs[|bs| - 1]] == bs;
  }

  /** parseHexByteString(toHexByteString(v)) gives v back. */
  method HexRoundTrip(a: seq<Word>) returns (r: Result<seq<Word>>)
    requires Normal(a)
    ensures r == Ok(a)
  {
    var text := ToHexByteString(a);
    HexTextParsed(Expansion(Val(a), 256));
    ExpansionValue(Val(a), 256);
    r := ParseHexByteString(text);
    NormalUnique(r.value, a);
  }
}
