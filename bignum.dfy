/** The BigUnsigned handle (bigmath.h:20-200, 663-691): a reference to a
    shared Data buffer, the small-value cache, the copy-on-write gate every
    write goes through, and the operations that work on the handle itself
    rather than on the words. */
module BigNum {
  import opened Numbers
  import opened Words
  import opened Limbs
  import opened Errors
  import opened Order
  import opened Storage
  import Arith

  /** SmallNumberCount: the values 0..31 come from a shared table. */
  const SMALL_NUMBER_COUNT: nat := 32

  /** Entry i of the table: a one-word buffer holding i that the table
      itself holds once. */
  ghost predicate Entry(d: Data, i: nat)
    reads d, d.words
  {
    d.Valid() && d.refCount >= 1 && d.size == 1 && d.words[0] == i
  }

  /** smallNumbers (bigmath.h:133): empty until the first small value is
      made, then SMALL_NUMBER_COUNT buffers. */
  class SmallNumbers {
    var table: seq<Data>

    /** The buffers of the entries. */
    ghost function Arrays(): set<array<Word>>
      reads this, table
    {
      set e | e in table :: e.words
    }

    ghost predicate Valid()
      reads this, table, Arrays()
    {
      (|table| == 0 || |table| == SMALL_NUMBER_COUNT)
      && forall i :: 0 <= i < |table| ==> Entry(table[i], i)
    }

    /** A buffer held by a value is safe from writes reaching the table: an
        entry is held by the table and by the value, so its count is at
        least 2 and the gate copies it; any other buffer has storage of its
        own. */
    ghost predicate Guards(d: Data)
      reads this, table, d
    {
      if d in table then d.refCount >= 2 else d.words !in Arrays()
    }

    constructor ()
      ensures Valid() && table == []
    {
      table := [];
    }

    /** The lazy construction of the table (bigmath.h:139-146): default
        one-word buffers whose word is then set to the index. */
    method Fill()
      requires Valid() && |table| == 0
      modifies this
      ensures Valid() && |table| == SMALL_NUMBER_COUNT
      ensures forall d :: d in table ==> fresh(d)
    {
      var i := 0;
      while i < SMALL_NUMBER_COUNT
        invariant i <= SMALL_NUMBER_COUNT && |table| == i
        invariant forall j :: 0 <= j < i ==> Entry(table[j], j)
        invariant forall d :: d in table ==> fresh(d)
      {
        var d := new Data(0, 1);
        d.words[0] := i;
        table := table + [d];
        i := i + 1;
      }
    }
  }

  class BigUnsigned {
    var data: Data

    /** The handle holds a buffer with at least one word in use. */
    ghost predicate Held()
      reads this, data, data.words
    {
      data.Valid() && data.size >= 1 && data.refCount >= 1
    }

    /** A value between operations: its words are in normal form. */
    ghost predicate Valid()
      reads this, data, data.words
    {
      Held() && Normal(data.Contents())
    }

    function Words(): (r: seq<Word>)
      reads this, data, data.words
      requires Held()
      ensures |r| >= 1
    {
      data.Contents()
    }

    /** BigUnsigned(WordType v) (bigmath.h:135-152): a value below
        SMALL_NUMBER_COUNT shares the table's buffer (building the table on
        first use); a larger one gets a buffer of its own. */
    constructor (v: Word, cache: SmallNumbers)
      requires cache.Valid()
      modifies cache, cache.table
      ensures Valid() && Words() == [v] && Val(Words()) == v
      ensures cache.Valid() && cache.Guards(data)
      ensures v < SMALL_NUMBER_COUNT ==> |cache.table| == SMALL_NUMBER_COUNT && data == cache.table[v]
      ensures v >= SMALL_NUMBER_COUNT ==> cache.table == old(cache.table) && fresh(data) && data.refCount == 1
      ensures forall d :: d in old(cache.table) && d != data ==> unchanged(d)
      ensures old(|cache.table|) != 0 ==> cache.table == old(cache.table)
      ensures forall d :: d in cache.table && d !in old(cache.table) ==> fresh(d)
    {
      if v < SMALL_NUMBER_COUNT {
        if |cache.table| == 0 {
          cache.Fill();
        }
        var d := cache.table[v];
        assert d in cache.table;
        d.AddRef();
        data := d;
      } else {
        data := new Data(v, 1);
      }
      new;
      ValSingle(v);
      assert Words() == [v];
    }

    /** BigUnsigned(const BigUnsigned &) (bigmath.h:157-161): share the
        buffer and count one more holder. */
    constructor Share(rt: BigUnsigned)
      requires rt.Valid()
      modifies rt.data
      ensures Valid() && data == rt.data && Words() == old(rt.Words())
      ensures data.refCount == old(rt.data.refCount) + 1
    {
      rt.data.AddRef();
      data := rt.data;
    }

    /** onWrite (bigmath.h:108-115): a buffer with other holders is
        replaced by a private copy, and the old buffer loses one holder but
        keeps its words, so every other holder still sees the same value. */
    method OnWrite(ghost cache: SmallNumbers)
      requires Held() && cache.Valid() && cache.Guards(data)
      modifies this, data
      ensures Held() && data.refCount == 1 && Words() == old(Words())
      ensures old(data.refCount) <= 1 ==> data == old(data) && unchanged(data)
      ensures old(data.refCount) > 1 ==> (fresh(data) && fresh(data.words)
        && old(data).refCount == old(data.refCount) - 1)
      ensures old(data).Valid() && old(data).words == old(data.words) && old(data).Contents() == old(Words())
      ensures cache.Valid() && data !in cache.table && data.words !in cache.Arrays()
    {
      if data.refCount <= 1 {
        return;
      }
      var copy := new Data.Copy(data);
      data.DelRef();
      data := copy;
    }

    /** normalize (bigmath.h:116-121): through the gate, then drop zero
        words from the top while more than one word is in use. The value
        does not change and the words end in normal form. */
    method Normalize(ghost cache: SmallNumbers)
      requires Held() && cache.Valid() && cache.Guards(data)
      modifies this, data
      ensures Valid() && data.refCount == 1
      ensures Words() == Trim(old(Words())) && Val(Words()) == Val(old(Words()))
      ensures old(data.refCount) > 1 ==> (old(data).Valid() && old(data).words == old(data.words)
        && old(data).refCount == old(data.refCount) - 1 && old(data).Contents() == old(Words()))
      ensures cache.Valid() && cache.Guards(data)
    {
      OnWrite(cache);
      data.DropTopZeros();
    }

    /** operator =(const BigUnsigned &) (bigmath.h:162-168): count the new
        buffer before releasing the old one, so assigning a value to itself
        leaves the count as it was. */
    method Assign(rt: BigUnsigned)
      requires Valid() && rt.Valid()
      modifies this, data, rt.data
      ensures Valid() && data == rt.data && Words() == old(rt.Words())
      ensures old(data) == rt.data ==> data.refCount == old(data.refCount)
      ensures old(data) != rt.data ==> (data.refCount == old(rt.data.refCount) + 1
        && old(data).refCount == old(data.refCount) - 1)
    {
      rt.data.AddRef();
      data.DelRef();
      data := rt.data;
    }

    /** operator =(WordType v) (bigmath.h:169-184): nothing when the value
        already is v; a shared buffer is swapped for BigUnsigned(v); a
        private one is overwritten in place. */
    method AssignWord(v: Word, cache: SmallNumbers)
      requires Valid() && cache.Valid() && cache.Guards(data)
      modifies this, data, data.words, cache, cache.table
      ensures Valid() && Words() == [v] && Val(Words()) == v
      ensures old(Words()) == [v] ==> data == old(data) && data.refCount == old(data.refCount)
      ensures old(Words()) != [v] && old(data.refCount) > 1 ==> (old(data).Valid()
        && old(data).words == old(data.words) && old(data).refCount == old(data.refCount) - 1
        && old(data).Contents() == old(Words()))
      ensures cache.Valid() && cache.Guards(data)
    {
      if data.size == 1 && data.words[0] == v {
        assert Words() == [v];
        ValSingle(v);
        return;
      }
      if data.refCount > 1 {
        assert v < SMALL_NUMBER_COUNT && |cache.table| != 0 ==> cache.table[v] != data;
        var bv := new BigUnsigned(v, cache);
        data, bv.data := bv.data, data;
        bv.data.DelRef();
      } else {
        data.SetSingle(v);
      }
    }

    /** swap (bigmath.h:375-380 and the std::swap specialisation at bigmath.h:688-691): the two
        handles exchange buffers. */
    method Swap(other: BigUnsigned)
      requires Valid() && other.Valid()
      modifies this, other
      ensures Valid() && other.Valid()
      ensures data == old(other.data) && other.data == old(data)
      ensures Words() == old(other.Words()) && other.Words() == old(Words())
    {
      data, other.data := other.data, data;
    }

    /** operator ++() (bigmath.h:663-666): += 1 through the gate. */
    method Increment(ghost cache: SmallNumbers)
      requires Valid() && cache.Valid() && cache.Guards(data)
      modifies this, data, data.words
      ensures Valid() && Val(Words()) == Val(old(Words())) + 1
      ensures old(data.refCount) > 1 ==> (old(data).Valid() && old(data).words == old(data.words)
        && old(data).refCount == old(data.refCount) - 1 && old(data).Contents() == old(Words()))
      ensures cache.Valid() && cache.Guards(data)
    {
      OnWrite(cache);
      var sum := Arith.AddWord(Words(), 1);
      data.Store(sum);
    }

    /** operator --() (bigmath.h:673-676): -= 1 through the gate; zero has
        no predecessor. */
    method Decrement(ghost cache: SmallNumbers) returns (r: Result<()>)
      requires Valid() && cache.Valid() && cache.Guards(data)
      modifies this, data, data.words
      ensures Valid() && cache.Valid() && cache.Guards(data)
      ensures r.Err? <==> Val(old(Words())) == 0
      ensures r.Err? ==> r.error == NegativeResult && Words() == old(Words())
      ensures r.Ok? ==> Val(Words()) == Val(old(Words())) - 1
      ensures old(data.refCount) > 1 ==> (old(data).Valid() && old(data).words == old(data.words)
        && old(data).refCount == old(data.refCount) - 1 && old(data).Contents() == old(Words()))
    {
      OnWrite(cache);
      var difference := Arith.SubWord(Words(), 1);
      if difference.Err? {
        return Err(difference.error);
      }
      data.Store(difference.value);
      r := Ok(());
    }
  }

  /** Two values sharing one buffer (as after a copy): incrementing one
      leaves the other's words as they were, and the buffer it keeps loses
      one holder. This is the promise of the copy-on-write gate
      (bigmath.h:108-115) seen from the other holder. */
  method IncrementShared(a: BigUnsigned, b: BigUnsigned, ghost cache: SmallNumbers)
    requires a != b && a.data == b.data && a.Valid() && b.Valid()
    requires cache.Valid() && cache.Guards(b.data) && b.data.refCount >= 2
    modifies b, b.data, b.data.words
    ensures a.Valid() && a.Words() == old(a.Words()) && a.data == old(a.data)
    ensures a.data.refCount == old(a.data.refCount) - 1
    ensures b.Valid() && b.data != a.data && Val(b.Words()) == Val(old(b.Words())) + 1
  {
    b.Increment(cache);
  }

  /** Equal-length words compared with themselves give 0. */
  lemma {:induction false} TopDownSame(a: seq<Word>)
    ensures TopDown(a, a) == 0
  {
    if |a| > 0 {
      TopDownSame(a[..|a| - 1]);
    }
  }

  /** compare (bigmath.h:267-283): two handles on the same buffer are equal
      without looking at the words; otherwise the word-by-word order. */
  method Compare(a: BigUnsigned, b: BigUnsigned) returns (c: int)
    requires a.Valid() && b.Valid()
    ensures c == CompareSpec(a.Words(), b.Words())
    ensures c == Sign(Val(a.Words()) - Val(b.Words()))
  {
    CompareValue(a.Words(), b.Words());
    if a.data == b.data {
      TopDownSame(a.Words());
      return 0;
    }
    c := Order.Compare(a.Words(), b.Words());
  }

  /** operator ==(BigUnsigned, BigUnsigned) (bigmath.h:213-225): the same
      buffer is equal at once; otherwise sizes and words. */
  method Equal(a: BigUnsigned, b: BigUnsigned) returns (e: bool)
    requires a.Valid() && b.Valid()
    ensures e <==> a.Words() == b.Words()
    ensures e <==> Val(a.Words()) == Val(b.Words())
  {
    EqualValue(a.Words(), b.Words());
    if a.data == b.data {
      return true;
    }
    e := Order.Equal(a.Words(), b.Words());
  }

  /** operator >(BigUnsigned, BigUnsigned) (bigmath.h:250-266): the same
      buffer is never greater than itself. */
  method Greater(a: BigUnsigned, b: BigUnsigned) returns (g: bool)
    requires a.Valid() && b.Valid()
    ensures g <==> CompareSpec(a.Words(), b.Words()) == 1
    ensures g <==> Val(a.Words()) > Val(b.Words())
  {
    CompareValue(a.Words(), b.Words());
    if a.data == b.data {
      TopDownSame(a.Words());
      return false;
    }
    g := Order.Greater(a.Words(), b.Words());
  }
}
