/** The storage of a BigUnsigned: a reference-counted word buffer that
    several values may share (bigmath.h:22-106). */
module Storage {
  import opened Numbers
  import opened Words
  import opened Limbs

  /** The words of a buffer after resize(n): cut to n words, or padded with
      zero words up to n. */
  function Resized(ws: seq<Word>, n: nat): (r: seq<Word>)
    ensures |r| == n
  {
    if n <= |ws| then ws[..n] else ws + Zeros(n - |ws|)
  }

  /** Growing a buffer never changes the value it holds. */
  lemma ResizedValue(ws: seq<Word>, n: nat)
    requires n >= |ws|
    ensures Val(Resized(ws, n)) == Val(ws)
    ensures Resized(ws, n)[..|ws|] == ws
  {
    assert Resized(ws, n) == ws + Zeros(n - |ws|) by {
      if n == |ws| {
        assert Zeros(0) == [];
      }
    }
    ValPadded(ws, n - |ws|);
  }

  /** BigUnsigned::Data. words is the storage; it always has room for at
      least one word, which stands for the inline `word` a small buffer
      lives in. size words are in use, allocation is the capacity the buffer
      claims, and refCount counts the values sharing it. */
  class Data {
    var words: array<Word>
    var size: nat
    var allocation: nat
    var refCount: nat

    ghost predicate Valid()
      reads this
    {
      1 <= words.Length && size <= allocation <= words.Length
    }

    /** The words in use, least significant first. */
    function Contents(): (r: seq<Word>)
      reads this, words
      requires Valid()
      ensures |r| == size
    {
      words[..size]
    }

    /** Data(v, size) (bigmath.h:28-38): v in the bottom word and zeros
        above it, one holder. A size of 0 leaves no word in use. */
    constructor (v: Word, n: nat)
      ensures Valid() && fresh(words)
      ensures size == n && allocation == n && refCount == 1
      ensures Contents() == if n == 0 then [] else [v] + Zeros(n - 1)
      ensures n >= 1 ==> Val(Contents()) == v
    {
      var buffer := new Word[if n > 1 then n else 1];
      buffer[0] := v;
      var i := 1;
      while i < n
        invariant 1 <= i && (n > 1 ==> i <= n) && buffer.Length == (if n > 1 then n else 1)
        invariant buffer[0] == v && forall j :: 1 <= j < i && j < buffer.Length ==> buffer[j] == 0
      {
        buffer[i] := 0;
        i := i + 1;
      }
      words, size, allocation, refCount := buffer, n, n, 1;
      new;
      if n >= 1 {
        assert Contents() == [v] + Zeros(n - 1);
        ValCons(v, Zeros(n - 1));
        ValZeros(n - 1);
      }
    }

    /** Data(Data & rt) (bigmath.h:39-61): a private copy with one holder.
        A buffer of at most one word becomes a one-word buffer (0 when rt
        had no word in use); a longer one is copied word by word. */
    constructor Copy(rt: Data)
      requires rt.Valid()
      ensures Valid() && fresh(words) && refCount == 1
      ensures Contents() == if rt.size == 0 then [0] else rt.Contents()
      ensures allocation == Max(rt.size, 1)
      ensures Val(Contents()) == Val(rt.Contents())
    {
      if rt.size <= 1 {
        var buffer := new Word[1];
        buffer[0] := if rt.size != 0 then rt.words[0] else 0;
        words, size, allocation := buffer, 1, 1;
      } else {
        var buffer := new Word[rt.size];
        var i := 0;
        while i < rt.size
          invariant i <= rt.size && buffer[..i] == rt.words[..i]
        {
          buffer[i] := rt.words[i];
          i := i + 1;
        }
        words, size, allocation := buffer, rt.size, rt.size;
      }
      refCount := 1;
      new;
      ValSingle(0);
      assert rt.size == 1 ==> rt.Contents() == [rt.words[0]];
    }

    /** expand(newSize) (bigmath.h:67-88): nothing when the buffer already
        has newSize words in use; otherwise a larger allocation (with a
        quarter of the old size as slack) when the capacity is short, the
        new words zeroed, and size set to newSize. */
    method Expand(newSize: nat)
      requires Valid()
      modifies this, words
      ensures Valid() && refCount == old(refCount)
      ensures size == Max(old(size), newSize) && allocation >= newSize
      ensures Contents() == Resized(old(Contents()), Max(old(size), newSize))
      ensures words == old(words) || fresh(words)
    {
      if newSize <= size {
        return;
      }
      ghost var before := Contents();
      if newSize > allocation {
        Reallocate(newSize + size / 4);
      }
      var i := size;
      while i < newSize
        invariant size <= i <= newSize <= words.Length
        invariant words[..size] == before
        invariant forall j :: size <= j < i ==> words[j] == 0
        modifies words
      {
        words[i] := 0;
        i := i + 1;
      }
      size := newSize;
      assert Contents() == before + Zeros(newSize - |before|);
    }

    /** The reallocation inside expand (bigmath.h:72-82): a fresh buffer of
        the new capacity with the words in use copied into it. */
    method Reallocate(capacity: nat)
      requires Valid() && capacity > size
      modifies this
      ensures Valid() && fresh(words) && allocation == capacity
      ensures size == old(size) && refCount == old(refCount) && Contents() == old(Contents())
    {
      var newWords := new Word[capacity];
      var i := 0;
      while i < size
        invariant i <= size && newWords[..i] == words[..i]
        modifies newWords
      {
        newWords[i] := words[i];
        i := i + 1;
      }
      words, allocation := newWords, capacity;
    }

    /** resize(newSize) (bigmath.h:89-93): expand, then set the size, which
        drops the words above newSize from use. */
    method Resize(newSize: nat)
      requires Valid()
      modifies this, words
      ensures Valid() && refCount == old(refCount) && size == newSize
      ensures Contents() == Resized(old(Contents()), newSize)
      ensures words == old(words) || fresh(words)
    {
      ghost var before := Contents();
      Expand(newSize);
      size := newSize;
      assert Contents() == Resized(before, newSize);
    }

    /** addRef (bigmath.h:94-97): one more holder. */
    method AddRef()
      modifies this
      ensures refCount == old(refCount) + 1
      ensures words == old(words) && size == old(size) && allocation == old(allocation)
    {
      refCount := refCount + 1;
    }

    /** delRef (bigmath.h:98-105): one holder fewer. The buffer is deleted
        when no holder is left; here it is simply no longer referenced. */
    method DelRef()
      requires refCount >= 1
      modifies this
      ensures refCount == old(refCount) - 1
      ensures words == old(words) && size == old(size) && allocation == old(allocation)
    {
      refCount := refCount - 1;
    }

    /** The loop of normalize (bigmath.h:119-120): drop zero words from the
        top while more than one word is in use. A buffer with no word in use
        is left as it is. */
    method DropTopZeros()
      requires Valid()
      modifies this
      ensures Valid() && Contents() == Trim(old(Contents()))
      ensures size >= 1 <==> old(size) >= 1
      ensures words == old(words) && refCount == old(refCount) && allocation == old(allocation)
    {
      ghost var start := Contents();
      while size > 1 && words[size - 1] == 0
        invariant Valid() && (size >= 1 <==> old(size) >= 1) && Trim(Contents()) == Trim(start)
        invariant words == old(words) && refCount == old(refCount) && allocation == old(allocation)
        decreases size
      {
        assert Contents()[..size - 1] == words[..size - 1];
        size := size - 1;
      }
    }

    /** The in-place branch of operator =(WordType) (bigmath.h:179-182): one
        word in use, holding v. */
    method SetSingle(v: Word)
      requires Valid() && size >= 1
      modifies this, words
      ensures Valid() && Contents() == [v] && Val(Contents()) == v
      ensures words == old(words) && refCount == old(refCount) && allocation == old(allocation)
    {
      size := 1;
      words[0] := v;
      assert Contents() == [v];
      ValSingle(v);
    }

    /** Writes a result into the buffer: resize to its length and copy its
        words in, as every operator that computes into data->words does. */
    method Store(ws: seq<Word>)
      requires Valid()
      modifies this, words
      ensures Valid() && refCount == old(refCount) && Contents() == ws
      ensures words == old(words) || fresh(words)
    {
      Resize(|ws|);
      var i := 0;
      while i < |ws|
        invariant Valid() && size == |ws| && i <= |ws|
        invariant words[..i] == ws[..i]
        modifies words
      {
        words[i] := ws[i];
        i := i + 1;
      }
    }
  }
}
