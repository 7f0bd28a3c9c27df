/** The text codecs of BigUnsigned: base-N strings (parse and toString,
    bigmath.cpp:710-788, and the prefix-sniffing parse of bigmath.h) and
    the base64 integer encoding (bigmath.cpp:790-853), which spells the
    number's 6-bit groups, most significant first, with the alphabet of
    section 4 of RFC 4648. */
module Codecs {
  import opened Numbers
  import opened Words
  import opened Limbs
  import opened Order
  import opened Errors
  import opened Radix
  import Arith
  import Shifts
  import Bitwise
  import Division

  // ---------------------------------------------------------------- base N

  /** getCharacterValue (bigmath.cpp:710-719): decimal digits, then
      letters of either case from 10 up; anything else is ~0. */
  function CharValue(ch: char): (r: Word)
    ensures r == WORD_MAX || r < 36
  {
    if '0' <= ch <= '9' then ch as int - '0' as int
    else if 'A' <= ch <= 'Z' then ch as int - 'A' as int + 10
    else if 'a' <= ch <= 'z' then ch as int - 'a' as int + 10
    else WORD_MAX
  }

  /** getCharacter (bigmath.cpp:721-726): decimal digits, then upper-case
      letters. It inverts CharValue. */
  function DigitChar(v: nat): (c: char)
    requires v < 36
    ensures CharValue(c) == v
    ensures '0' <= c <= '9' || 'A' <= c <= 'Z'
  {
    if v < 10 then (v + '0' as int) as char else (v - 10 + 'A' as int) as char
  }

  /** Digits written with getCharacter. */
  function Spell(ds: seq<nat>): (s: string)
    requires Below(ds, 36)
    ensures |s| == |ds|
  {
    seq(|ds|, i requires 0 <= i < |ds| => DigitChar(ds[i]))
  }

  /** The digit values of a string's characters. */
  function Values(s: string): (ds: seq<nat>)
    ensures |ds| == |s|
  {
    seq(|s|, i requires 0 <= i < |s| => CharValue(s[i]) as nat)
  }

  /** Every character is a digit of the base. */
  predicate ValidDigits(s: string, base: nat)
  {
    forall i :: 0 <= i < |s| ==> CharValue(s[i]) < base
  }

  /** What parse(string, unsigned) yields: an invalid base, a character
      that is not a digit of the base, or the number the digits spell. */
  function Parsed(s: string, base: nat): Result<nat>
  {
    if base < 2 || base > 36 then Err(InvalidBase)
    else if !ValidDigits(s, base) then Err(InvalidCharacter)
    else Ok(Horner(Values(s), base))
  }

  /** parse(string, unsigned) (bigmath.cpp:728-742): check the base, then
      for each character check the digit and accumulate
      retval = retval * base + digit. */
  method Parse(s: string, base: nat) returns (r: Result<seq<Word>>)
    ensures r.Err? ==> Parsed(s, base) == Err(r.error)
    ensures r.Ok? ==> Parsed(s, base) == Ok(Val(r.value)) && Normal(r.value)
  {
    if base < 2 || base > 36 {
      return Err(InvalidBase);
    }
    var retval: seq<Word> := [0];
    ValSingle(0);
    var i := 0;
    while i < |s|
      invariant 0 <= i <= |s|
      invariant ValidDigits(s[..i], base)
      invariant Normal(retval) && Val(retval) == Horner(Values(s[..i]), base)
    {
      var digit := CharValue(s[i]);
      if digit >= base {
        return Err(InvalidCharacter);
      }
      retval := Arith.MulWord(retval, base);
      retval := Arith.AddWord(retval, digit);
      assert Values(s[..i + 1])[..i] == Values(s[..i]);
      i := i + 1;
    }
    assert s[..i] == s;
    r := Ok(retval);
  }

  /** The base and digits parse(string, bool) (bigmath.h:190-197) settles
      on: a "0x" or "0X" prefix means hexadecimal, a leading "0" means
      octal when asked for, and decimal otherwise. It follows the
      branches of the method below; what is checked independently is that
      text toString writes survives the sniffing (DecimalRoundTrip,
      HexPrefixRoundTrip). */
  function Sniff(s: string, useOctal: bool): (string, nat)
  {
    if |s| >= 2 && (s[..2] == "0x" || s[..2] == "0X") then (s[2..], 16)
    else if useOctal && |s| >= 1 && s[0] == '0' then (s[1..], 8)
    else (s, 10)
  }

  /** parse(string, bool) (bigmath.h:190-197). */
  method ParsePrefixed(s: string, useOctal: bool) returns (r: Result<seq<Word>>)
    ensures r.Err? ==> Parsed(Sniff(s, useOctal).0, Sniff(s, useOctal).1) == Err(r.error)
    ensures r.Ok? ==> Parsed(Sniff(s, useOctal).0, Sniff(s, useOctal).1) == Ok(Val(r.value)) && Normal(r.value)
  {
    if |s| >= 2 && (s[..2] == "0x" || s[..2] == "0X") {
      r := Parse(s[2..], 16);
    } else if useOctal && |s| >= 1 && s[0] == '0' {
      r := Parse(s[1..], 8);
    } else {
      r := Parse(s, 10);
    }
  }

  /** toString(unsigned) (bigmath.cpp:744-788): check the base; find the
      largest power of the base below WordMax / base; while the value is at
      least that power, divide by it and emit the remainder as a block of
      exactly digitCount digits, low digit first; emit the digits of what is
      left; reverse; and write "0" for nothing. */
  method ToString(a: seq<Word>, base: nat) returns (r: Result<string>)
    requires Normal(a)
    ensures r.Err? <==> base < 2 || base > 36
    ensures r.Err? ==> r.error == InvalidBase
    ensures r.Ok? ==> r.value == Spell(Expansion(Val(a), base))
  {
    if base < 2 || base > 36 {
      return Err(InvalidBase);
    }
    var basePower, digitCount := BlockPower(base);
    var retval, v := EmitBlocks(a, base, basePower, digitCount);
    var currentBlock := Bitwise.ToWord(v);
    DivModUnique(Val(v), BASE, 0, Val(v));
    retval := EmitDigits(retval, currentBlock, base);
    retval := ReverseInPlace(retval);
    SpellReverse(LowFirst(Val(a), base));
    if retval == "" {
      assert Val(a) == 0;
      retval := "0";
    } else {
      ReverseLowFirst(Val(a), base);
    }
    r := Ok(retval);
  }

  /** The block loop of toString (bigmath.cpp:760-770): while the value
      is at least basePower, divide it by basePower and emit the remainder
      as one block. What is left is below basePower, and its digits
      complete the low-first digits of the value. */
  method EmitBlocks(a: seq<Word>, base: nat, basePower: Word, digitCount: nat) returns (retval: string, v: seq<Word>)
    requires Normal(a) && 2 <= base <= 36 && 2 <= basePower == Pow(base, digitCount)
    ensures Normal(v) && Val(v) < basePower
    ensures retval + Spell(LowFirst(Val(v), base)) == Spell(LowFirst(Val(a), base))
  {
    retval := [];
    v := a;
    while !WordGreaterThan(basePower, v)
      invariant Normal(v)
      invariant retval + Spell(LowFirst(Val(v), base)) == Spell(LowFirst(Val(a), base))
      decreases Val(v)
    {
      var division := Division.DivModBigWord(v, basePower);
      var quotient, remainder := division.value.quotient, division.value.remainder;
      BlockQuotient(Val(v), Val(quotient), Val(remainder), basePower);
      var currentBlock := Bitwise.ToWord(remainder);
      DivModUnique(Val(remainder), BASE, 0, Val(remainder));
      BlockStep(retval, Val(v), Val(quotient), currentBlock, digitCount, base, Spell(LowFirst(Val(a), base)));
      retval := EmitBlock(retval, currentBlock, digitCount, base);
      v := quotient;
    }
  }

  /** Emitting one block keeps the emitted digits a prefix of the value's
      low-first digits. */
  lemma BlockStep(retval: string, v: nat, q: nat, rem: nat, k: nat, base: nat, all: string)
    requires 2 <= base <= 36 && q > 0 && rem < Pow(base, k) && v == q * Pow(base, k) + rem
    requires retval + Spell(LowFirst(v, base)) == all
    ensures (retval + Spell(FixedLow(rem, k, base))) + Spell(LowFirst(q, base)) == all
  {
    BlockDigits(q, rem, k, base);
    SpellAppend(FixedLow(rem, k, base), LowFirst(q, base));
  }

  /** The block size of toString (bigmath.cpp:748-754): the power of the
      base is multiplied up while it is below WordMax / base, so it fits a
      word and counts digitCount digits. */
  method BlockPower(base: nat) returns (basePower: Word, digitCount: nat)
    requires 2 <= base <= 36
    ensures basePower == Pow(base, digitCount) && basePower >= 2 && digitCount >= 1
    ensures basePower >= WORD_MAX / base
  {
    basePower := base;
    digitCount := 1;
    while basePower < WORD_MAX / base
      invariant basePower == Pow(base, digitCount) && basePower >= 2 && digitCount >= 1
      decreases BASE - basePower
    {
      NextPower(basePower, base);
      basePower := basePower * base;
      digitCount := digitCount + 1;
    }
  }

  /** One block of toString (bigmath.cpp:763-769): exactly digitCount
      digits of the block, low digit first, leading zeros included. */
  method EmitBlock(retval: string, block: Word, digitCount: nat, base: nat) returns (r: string)
    requires 2 <= base <= 36
    ensures r == retval + Spell(FixedLow(block, digitCount, base))
  {
    r := retval;
    var currentBlock: Word := block;
    var i := 0;
    while i < digitCount
      invariant 0 <= i <= digitCount
      invariant r + Spell(FixedLow(currentBlock, digitCount - i, base)) == retval + Spell(FixedLow(block, digitCount, base))
    {
      DigitSplit(currentBlock, base);
      var digit: nat := currentBlock % base;
      SpellCons(digit, FixedLow(currentBlock / base, digitCount - i - 1, base));
      currentBlock := currentBlock / base;
      r := r + [DigitChar(digit)];
      i := i + 1;
    }
  }

  /** The last digits of toString (bigmath.cpp:771-777): those of the word
      left over, low digit first, until it is zero. */
  method EmitDigits(retval: string, block: Word, base: nat) returns (r: string)
    requires 2 <= base <= 36
    ensures r == retval + Spell(LowFirst(block, base))
  {
    r := retval;
    var currentBlock: Word := block;
    while currentBlock != 0
      invariant r + Spell(LowFirst(currentBlock, base)) == retval + Spell(LowFirst(block, base))
      decreases currentBlock
    {
      DigitSplit(currentBlock, base);
      var digit: nat := currentBlock % base;
      SpellCons(digit, LowFirst(currentBlock / base, base));
      currentBlock := currentBlock / base;
      r := r + [DigitChar(digit)];
    }
  }

  /** The power of the base grows while it stays below WordMax / base. */
  lemma NextPower(p: nat, base: nat)
    requires 2 <= base <= 36 && 2 <= p < WORD_MAX / base
    ensures p < p * base < BASE
  {
    DigitSplit(WORD_MAX, base);
    MulLeftMonotone(base, p + 1, WORD_MAX / base);
    MulStrict(p, 1, base);
  }

  /** A value of at least the divisor has a positive, smaller quotient. */
  lemma BlockQuotient(v: nat, q: nat, rem: nat, d: nat)
    requires 2 <= d < BASE && v >= d && q * d + rem == v && rem < d
    ensures 0 < q < v && rem < BASE
  {
    assert 0 * d < q * d;
    MulCancel(0, q, d);
    MulStrict(q, 1, d);
  }

  lemma SpellCons(d: nat, ds: seq<nat>)
    requires Below(ds, 36) && d < 36
    ensures Below([d] + ds, 36) && Spell([d] + ds) == [DigitChar(d)] + Spell(ds)
  {
  }

  lemma SpellAppend(xs: seq<nat>, ys: seq<nat>)
    requires Below(xs, 36) && Below(ys, 36)
    ensures Below(xs + ys, 36) && Spell(xs + ys) == Spell(xs) + Spell(ys)
  {
  }

  lemma SpellReverse(ds: seq<nat>)
    requires Below(ds, 36)
    ensures Below(Reverse(ds), 36) && Reverse(Spell(ds)) == Spell(Reverse(ds))
  {
    forall i | 0 <= i < |ds|
      ensures Reverse(ds)[i] == ds[|ds| - 1 - i] && Reverse(Spell(ds))[i] == Spell(ds)[|ds| - 1 - i]
    {
      ReverseAt(ds, i);
      ReverseAt(Spell(ds), i);
    }
  }

  /** The swap loop toString and toBase64 end with
      (bigmath.cpp:778-784 and bigmath.cpp:845-851): reverses the string in
      place. */
  method ReverseInPlace(s: string) returns (r: string)
    ensures r == Reverse(s)
  {
    r := s;
    if |r| >= 2 {
      var i, j := 0, |r| - 1;
      while j > i
        invariant 0 <= i <= j + 1 && j < |r| == |s| && i + j == |s| - 1
        invariant forall k :: 0 <= k < i ==> r[k] == s[|s| - 1 - k] && r[|s| - 1 - k] == s[k]
        invariant forall k :: i <= k <= j ==> r[k] == s[k]
      {
        r := r[i := r[j]][j := r[i]];
        i, j := i + 1, j - 1;
      }
    }
    forall k | 0 <= k < |s|
      ensures r[k] == Reverse(s)[k]
    {
      ReverseAt(s, k);
    }
  }

  /** parse undoes toString: the digits toString writes are digits of the
      base and spell the number back. */
  lemma RadixRoundTrip(v: nat, base: nat)
    requires 2 <= base <= 36
    ensures Parsed(Spell(Expansion(v, base)), base) == Ok(v)
  {
    var ds := Expansion(v, base);
    assert Values(Spell(ds)) == ds;
    ExpansionValue(v, base);
  }

  /** toString writes no leading zero except for zero itself, and no
      lower-case letter. */
  lemma ToStringCanonical(v: nat, base: nat)
    requires 2 <= base <= 36
    ensures Spell(Expansion(v, base)) == "0" <==> v == 0
    ensures Spell(Expansion(v, base))[0] == '0' <==> v == 0
    ensures forall c :: c in Spell(Expansion(v, base)) ==> '0' <= c <= '9' || 'A' <= c <= 'Z'
  {
    var ds := Expansion(v, base);
    assert Spell(ds)[0] == DigitChar(ds[0]);
    if v == 0 {
      assert ds == [0];
    }
  }

  /** toString undoes parse on canonical text: a string of upper-case
      digits of the base without a leading zero is what toString writes
      for the number it spells. */
  lemma ParseRoundTrip(s: string, base: nat)
    requires 2 <= base <= 36 && |s| >= 1 && (|s| > 1 ==> s[0] != '0')
    requires forall c :: c in s ==> '0' <= c <= '9' || 'A' <= c <= 'Z'
    requires ValidDigits(s, base)
    ensures Parsed(s, base).Ok? && Spell(Expansion(Parsed(s, base).value, base)) == s
  {
    var ds := Values(s);
    assert Below(ds, base);
    assert |s| > 1 ==> ds[0] != 0;
    ExpansionUnique(ds, base);
    forall i | 0 <= i < |s|
      ensures Spell(ds)[i] == s[i]
    {
      assert s[i] in s;
    }
  }

  /** Decimal text from toString parses back through the prefix-sniffing
      parse, with or without octal: only zero starts with '0', and an
      empty octal string is zero too. */
  lemma DecimalRoundTrip(v: nat, useOctal: bool)
    ensures Parsed(Sniff(Spell(Expansion(v, 10)), useOctal).0, Sniff(Spell(Expansion(v, 10)), useOctal).1) == Ok(v)
  {
    var s := Spell(Expansion(v, 10));
    ToStringCanonical(v, 10);
    if |s| >= 2 {
      assert s[..2][0] == s[0];
    }
    if useOctal && s[0] == '0' {
      assert s == "0" && s[1..] == [];
    } else {
      RadixRoundTrip(v, 10);
    }
  }

  /** Hexadecimal text from toString behind "0x" parses back. */
  lemma HexPrefixRoundTrip(v: nat, useOctal: bool)
    ensures Parsed(Sniff("0x" + Spell(Expansion(v, 16)), useOctal).0, Sniff("0x" + Spell(Expansion(v, 16)), useOctal).1) == Ok(v)
  {
    var s := Spell(Expansion(v, 16));
    assert ("0x" + s)[..2] == "0x" && ("0x" + s)[2..] == s;
    RadixRoundTrip(v, 16);
  }

  // ---------------------------------------------------------------- base64

  /** getBase64Value (bigmath.cpp:805-818): upper-case letters 0-25,
      lower-case 26-51, digits 52-61, '+' 62, '/' 63, and WordMax for
      anything else. */
  function Base64Value(ch: char): (r: Word)
    ensures r == WORD_MAX || r < 64
  {
    if 'A' <= ch <= 'Z' then ch as int - 'A' as int
    else if 'a' <= ch <= 'z' then ch as int - 'a' as int + 26
    else if '0' <= ch <= '9' then ch as int - '0' as int + 52
    else if ch == '+' then 62
    else if ch == '/' then 63
    else WORD_MAX
  }

  /** getBase64Character (bigmath.cpp:790-803) on a 6-bit group. It
      inverts Base64Value and never writes the padding '='. */
  function Base64Char(v: nat): (c: char)
    requires v < 64
    ensures Base64Value(c) == v && c != '='
  {
    if v < 26 then (v + 'A' as int) as char
    else if v < 52 then (v - 26 + 'a' as int) as char
    else if v < 62 then (v - 52 + '0' as int) as char
    else if v == 62 then '+'
    else '/'
  }

  /** 6-bit groups written with getBase64Character. */
  function Spell64(ds: seq<nat>): (s: string)
    requires Below(ds, 64)
    ensures |s| == |ds| && '=' !in s
  {
    seq(|ds|, i requires 0 <= i < |ds| => Base64Char(ds[i]))
  }

  /** The 6-bit group values of a string's characters. */
  function Values64(s: string): (ds: seq<nat>)
    ensures |ds| == |s|
  {
    seq(|s|, i requires 0 <= i < |s| => Base64Value(s[i]) as nat)
  }

  /** The string without its trailing '=' characters. */
  function StripPadding(s: string): (t: string)
    ensures t <= s && (|t| == 0 || t[|t| - 1] != '=')
    ensures forall i :: |t| <= i < |s| ==> s[i] == '='
  {
    if |s| > 0 && s[|s| - 1] == '=' then
      var t := StripPadding(s[..|s| - 1]);
      assert forall i :: |t| <= i < |s| - 1 ==> s[..|s| - 1][i] == s[i];
      t
    else
      s
  }

  /** What parseBase64 yields: after the padding is stripped, a character
      outside the alphabet is an error, and otherwise the groups spell the
      number in base 64. */
  function Base64Parsed(s: string): Result<nat>
  {
    var t := StripPadding(s);
    if exists i :: 0 <= i < |t| && Base64Value(t[i]) >= 64 then Err(InvalidBase64Character)
    else Ok(Horner(Values64(t), 64))
  }

  /** parseBase64 (bigmath.cpp:820-834): drop trailing '=', then for each
      character check it and shift it in: retval <<= 6; retval |= v. */
  method ParseBase64(s: string) returns (r: Result<seq<Word>>)
    ensures r.Err? ==> Base64Parsed(s) == Err(r.error)
    ensures r.Ok? ==> Base64Parsed(s) == Ok(Val(r.value)) && Normal(r.value)
  {
    var str := s;
    while |str| > 0 && str[|str| - 1] == '='
      invariant StripPadding(str) == StripPadding(s)
    {
      str := str[..|str| - 1];
    }
    var retval: seq<Word> := [0];
    ValSingle(0);
    var i := 0;
    while i < |str|
      invariant 0 <= i <= |str|
      invariant forall k :: 0 <= k < i ==> Base64Value(str[k]) < 64
      invariant Normal(retval) && Val(retval) == Horner(Values64(str[..i]), 64)
    {
      var v := Base64Value(str[i]);
      if v >= 64 {
        return Err(InvalidBase64Character);
      }
      var before := Val(retval);
      retval := Shifts.ShiftLeft(retval, 6);
      retval := Bitwise.OrWord(retval, v);
      Pow2Six();
      OrDisjoint(before, v, 6);
      assert Values64(str[..i + 1])[..i] == Values64(str[..i]);
      i := i + 1;
    }
    assert str[..i] == str;
    r := Ok(retval);
  }

  lemma Pow2Six()
    ensures Pow2(6) == 64
  {
    assert Pow(2, 6) == 64;
  }

  /** toBase64 (bigmath.cpp:836-853): emit the low six bits of the value
      and shift it right by six, at least once and until it is zero; then
      reverse. */
  method ToBase64(a: seq<Word>) returns (r: string)
    requires Normal(a)
    ensures r == Spell64(Expansion(Val(a), 64))
  {
    var retval: string := [];
    var first := true;
    var v := a;
    Pow2Six();
    while !EqualsWord(v, 0) || first
      invariant Normal(v)
      invariant first ==> retval == [] && v == a
      invariant !first ==> retval + Spell64(LowFirst(Val(v), 64)) == Spell64(Digits64(Val(a)))
      decreases Val(v) + (if first then 1 else 0)
    {
      var low := Bitwise.AndWord(v, 0x3F);
      AndLowMask(Val(v), 6, 0x3F);
      var group := Bitwise.ToWord(low);
      DigitSplit(Val(v), 64);
      DivModUnique(Val(low), BASE, 0, Val(low));
      ghost var rest := LowFirst(Val(v) / 64, 64);
      if Val(v) != 0 {
        assert LowFirst(Val(v), 64) == [group] + rest;
      }
      Spell64Cons(group, rest);
      retval := retval + [Base64Char(group)];
      v := Shifts.ShiftRight(v, 6);
      first := false;
    }
    assert LowFirst(Val(v), 64) == [];
    assert retval == Spell64(Digits64(Val(a)));
    retval := ReverseInPlace(retval);
    Spell64Reverse(Digits64(Val(a)));
    if Val(a) == 0 {
      assert Reverse([0]) == [0];
    } else {
      ReverseLowFirst(Val(a), 64);
    }
    r := retval;
  }

  /** The groups toBase64 emits, low first: a single zero for zero. */
  function Digits64(v: nat): (ds: seq<nat>)
    ensures Below(ds, 64)
  {
    if v == 0 then [0] else LowFirst(v, 64)
  }

  lemma Spell64Cons(d: nat, ds: seq<nat>)
    requires Below(ds, 64) && d < 64
    ensures Below([d] + ds, 64) && Spell64([d] + ds) == [Base64Char(d)] + Spell64(ds)
  {
  }

  lemma Spell64Reverse(ds: seq<nat>)
    requires Below(ds, 64)
    ensures Below(Reverse(ds), 64) && Reverse(Spell64(ds)) == Spell64(Reverse(ds))
  {
    forall i | 0 <= i < |ds|
      ensures Reverse(ds)[i] == ds[|ds| - 1 - i] && Reverse(Spell64(ds))[i] == Spell64(ds)[|ds| - 1 - i]
    {
      ReverseAt(ds, i);
      ReverseAt(Spell64(ds), i);
    }
  }

  /** parseBase64 undoes toBase64. */
  lemma Base64RoundTrip(v: nat)
    ensures Base64Parsed(Spell64(Expansion(v, 64))) == Ok(v)
  {
    var ds := Expansion(v, 64);
    var s := Spell64(ds);
    if |s| > 0 {
      assert s[|s| - 1] in s;
    }
    assert StripPadding(s) == s;
    assert Values64(s) == ds;
    ExpansionValue(v, 64);
  }

  /** toBase64(0) is "A". */
  lemma Base64OfZero()
    ensures Spell64(Expansion(0, 64)) == "A"
  {
  }

  /** Padding is ignored: any number of '=' after the groups parses the
      same. */
  lemma Base64Padding(s: string, n: nat)
    ensures Base64Parsed(s + seq(n, i => '=')) == Base64Parsed(s)
  {
    var p := s + seq(n, i => '=');
    if n > 0 {
      assert p[|p| - 1] == '=';
      assert p[..|p| - 1] == s + seq(n - 1, i => '=');
      Base64Padding(s, n - 1);
    } else {
      assert p == s;
    }
  }
}
