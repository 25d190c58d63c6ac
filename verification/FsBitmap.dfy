/** fs/bitmap.c: an array of bits, allocated first-fit. */
module FsBitmap {

  const ENOSPC: int := 28
  const BITS_PER_WORD: nat := 8

  /** v[ix] & mask, for the mask of one offset */
  predicate Bit(w: bv8, offset: nat)
    requires offset < BITS_PER_WORD
  {
    w & ((1 as bv8) << offset) != 0
  }

  lemma BitSet(w: bv8, o: nat, p: nat)
    requires o < BITS_PER_WORD && p < BITS_PER_WORD
    ensures Bit(w | ((1 as bv8) << o), p) <==> p == o || Bit(w, p)
  {}

  lemma BitCleared(w: bv8, o: nat, p: nat)
    requires o < BITS_PER_WORD && p < BITS_PER_WORD
    ensures Bit(w & !((1 as bv8) << o), p) <==> p != o && Bit(w, p)
  {}

  /** A word differs from WORD_ALLBITS exactly when it has a clear bit. */
  lemma AllBits(w: bv8)
    ensures w == 0xff <==> forall o: nat | o < BITS_PER_WORD :: Bit(w, o)
  {
    if forall o: nat | o < BITS_PER_WORD :: Bit(w, o) {
      assert Bit(w, 0) && Bit(w, 1) && Bit(w, 2) && Bit(w, 3) && Bit(w, 4) && Bit(w, 5) && Bit(w, 6) && Bit(w, 7);
    }
  }

  lemma ZeroBits(o: nat)
    requires o < BITS_PER_WORD
    ensures !Bit(0, o)
  {}

  /** Bit number i of a sequence of words. */
  predicate BitAt(v: seq<bv8>, i: nat)
    requires i < BITS_PER_WORD * |v|
  {
    Bit(v[i / BITS_PER_WORD], i % BITS_PER_WORD)
  }

  /** The numbers below n of the bits that are set. */
  ghost function SetBits(v: seq<bv8>, n: nat): set<nat>
    requires n <= BITS_PER_WORD * |v|
  {
    set i: nat | i < n && BitAt(v, i)
  }

  class Bitmap {
    const nbits: nat
    const v: array<bv8>

    /** Bits past nbits in the last word count as in use. */
    ghost predicate Valid()
      reads v
    {
      && v.Length == (nbits + BITS_PER_WORD - 1) / BITS_PER_WORD
      && forall i: nat :: nbits <= i < BITS_PER_WORD * v.Length ==> BitAt(v[..], i)
    }

    /** The bits in use. */
    ghost function Marked(): set<nat>
      requires Valid()
      reads v
    {
      SetBits(v[..], nbits)
    }

    constructor (nbits: nat)
      ensures Valid() && fresh(v) && this.nbits == nbits
      ensures Marked() == {}
    {
      var words := (nbits + BITS_PER_WORD - 1) / BITS_PER_WORD;
      this.nbits := nbits;
      v := new bv8[words](_ => 0);
      new;
      forall i: nat | i < BITS_PER_WORD * words ensures !BitAt(v[..], i) { ZeroBits(i % BITS_PER_WORD); }
      if nbits / BITS_PER_WORD < words {
        var ix := words - 1;
        var overbits := nbits - ix * BITS_PER_WORD;
        for j := overbits to BITS_PER_WORD
          invariant forall i: nat :: i < BITS_PER_WORD * words ==>
                      (BitAt(v[..], i) <==> nbits <= i < ix * BITS_PER_WORD + j)
        {
          ghost var before := v[..];
          v[ix] := v[ix] | ((1 as bv8) << j);
          MarkedAfterSet(before, v[..], ix * BITS_PER_WORD + j);
        }
      }
    }

    /** First fit: the least clear bit is set and returned; -ENOSPC only when
        every bit is in use. */
    method Alloc() returns (ret: int, index: nat)
      requires Valid()
      modifies v
      ensures Valid()
      ensures ret == 0 || ret == -ENOSPC
      ensures ret == 0 ==>
                && index < nbits && index !in old(Marked())
                && (forall i: nat :: i < index ==> i in old(Marked()))
                && Marked() == old(Marked()) + {index}
      ensures ret == 0 ==> forall k :: 0 <= k < v.Length && k != index / BITS_PER_WORD ==> v[k] == old(v[k])
      ensures ret == -ENOSPC ==> v[..] == old(v[..]) && forall i: nat :: i < nbits ==> i in Marked()
    {
      var maxix := (nbits + BITS_PER_WORD - 1) / BITS_PER_WORD;
      index := 0;
      var ix := 0;
      while ix < maxix
        invariant 0 <= ix <= maxix
        invariant v[..] == old(v[..])
        invariant forall i: nat :: i < BITS_PER_WORD * ix ==> BitAt(v[..], i)
      {
        AllBits(v[ix]);
        if v[ix] != 0xff {
          var offset := 0;
          while offset < BITS_PER_WORD
            invariant 0 <= offset <= BITS_PER_WORD
            invariant v[..] == old(v[..])
            invariant forall o: nat :: o < offset ==> Bit(v[ix], o)
          {
            var mask := (1 as bv8) << offset;
            if v[ix] & mask == 0 {
              index := ix * BITS_PER_WORD + offset;
              assert !BitAt(v[..], index);
              v[ix] := v[ix] | mask;
              MarkedAfterSet(old(v[..]), v[..], index);
              return 0, index;
            }
            offset := offset + 1;
          }
          assert false;
        }
        ix := ix + 1;
      }
      return -ENOSPC, index;
    }

    /** The bit must be in use: the source asserts it. */
    method Unmark(index: nat)
      requires Valid() && index < nbits && index in Marked()
      modifies v
      ensures Valid() && Marked() == old(Marked()) - {index}
      ensures forall k :: 0 <= k < v.Length && k != index / BITS_PER_WORD ==> v[k] == old(v[k])
    {
      var ix, offset := index / BITS_PER_WORD, index % BITS_PER_WORD;
      v[ix] := v[ix] & !((1 as bv8) << offset);
      MarkedAfterClear(old(v[..]), v[..], index);
    }

    method IsSet(index: nat) returns (r: bool)
      requires Valid() && index < nbits
      ensures r <==> index in Marked()
    {
      r := v[index / BITS_PER_WORD] & ((1 as bv8) << (index % BITS_PER_WORD)) != 0;
    }

    /** Counts the bits in use. */
    method NrAllocated() returns (nr: nat)
      requires Valid()
      ensures nr == |Marked()|
    {
      nr := 0;
      for i := 0 to nbits
        invariant nr == |SetBits(v[..], i)|
      {
        var set_ := IsSet(i);
        if set_ {
          nr := nr + 1;
          assert SetBits(v[..], i + 1) == SetBits(v[..], i) + {i};
        } else {
          assert SetBits(v[..], i + 1) == SetBits(v[..], i);
        }
      }
    }
  }

  /** Setting one bit of one word sets that bit and leaves all others. */
  lemma MarkedAfterSet(v: seq<bv8>, v': seq<bv8>, index: nat)
    requires index < BITS_PER_WORD * |v|
    requires v' == v[index / BITS_PER_WORD := v[index / BITS_PER_WORD] | ((1 as bv8) << (index % BITS_PER_WORD))]
    ensures forall i: nat :: i < BITS_PER_WORD * |v| ==> (BitAt(v', i) <==> i == index || BitAt(v, i))
  {
    forall i: nat | i < BITS_PER_WORD * |v| ensures BitAt(v', i) <==> i == index || BitAt(v, i) {
      BitSet(v[index / BITS_PER_WORD], index % BITS_PER_WORD, i % BITS_PER_WORD);
    }
  }

  lemma MarkedAfterClear(v: seq<bv8>, v': seq<bv8>, index: nat)
    requires index < BITS_PER_WORD * |v|
    requires v' == v[index / BITS_PER_WORD := v[index / BITS_PER_WORD] & !((1 as bv8) << (index % BITS_PER_WORD))]
    ensures forall i: nat :: i < BITS_PER_WORD * |v| ==> (BitAt(v', i) <==> i != index && BitAt(v, i))
  {
    forall i: nat | i < BITS_PER_WORD * |v| ensures BitAt(v', i) <==> i != index && BitAt(v, i) {
      BitCleared(v[index / BITS_PER_WORD], index % BITS_PER_WORD, i % BITS_PER_WORD);
    }
  }
}
