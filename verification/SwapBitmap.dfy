/** The bitmap that manages slots of the swap file (swap.c). */
module SwapBitmap {
  const BITS_PER_WORD := 32
  const WORD_ALLBITS := 0xffff_ffff

  /** w & (1 << offset) is not zero. */
  predicate Bit(w: nat, offset: nat) {
    if offset == 0 then w % 2 == 1 else Bit(w / 2, offset - 1)
  }

  /** w | (1 << offset). */
  function Or(w: nat, offset: nat): nat {
    if offset == 0 then w / 2 * 2 + 1 else Or(w / 2, offset - 1) * 2 + w % 2
  }

  /** w & ~(1 << offset). */
  function AndNot(w: nat, offset: nat): nat {
    if offset == 0 then w / 2 * 2 else AndNot(w / 2, offset - 1) * 2 + w % 2
  }

  function PowerOfTwo(bits: nat): (n: nat)
    ensures 0 < n
  {
    if bits == 0 then 1 else 2 * PowerOfTwo(bits - 1)
  }

  lemma {:induction false} OrBit(w: nat, o: nat, q: nat)
    ensures Bit(Or(w, o), q) <==> (q == o || Bit(w, q))
  {
    if o > 0 && q > 0 { OrBit(w / 2, o - 1, q - 1); }
  }

  lemma {:induction false} AndNotBit(w: nat, o: nat, q: nat)
    ensures Bit(AndNot(w, o), q) <==> (q != o && Bit(w, q))
  {
    if o > 0 && q > 0 { AndNotBit(w / 2, o - 1, q - 1); }
  }

  lemma {:induction false} OrFits(w: nat, o: nat, bits: nat)
    requires o < bits && w < PowerOfTwo(bits)
    ensures Or(w, o) < PowerOfTwo(bits) && AndNot(w, o) < PowerOfTwo(bits)
  {
    assert PowerOfTwo(bits) == 2 * PowerOfTwo(bits - 1);
    hide PowerOfTwo;
    if o > 0 { OrFits(w / 2, o - 1, bits - 1); }
  }

  lemma {:induction false} ZeroBit(q: nat)
    ensures !Bit(0, q)
  {
    if q > 0 { ZeroBit(q - 1); }
  }

  /** A word with every bit set is all ones. */
  lemma {:induction false} AllBits(w: nat, bits: nat)
    requires w < PowerOfTwo(bits)
    requires forall o: nat :: o < bits ==> Bit(w, o)
    ensures w == PowerOfTwo(bits) - 1
  {
    if bits > 0 {
      assert Bit(w, 0);
      forall o: nat | o < bits - 1 ensures Bit(w / 2, o) { assert Bit(w, o + 1); }
      AllBits(w / 2, bits - 1);
    }
  }

  lemma {:induction false} OnesBit(bits: nat, q: nat)
    requires q < bits
    ensures Bit(PowerOfTwo(bits) - 1, q)
  {
    if q > 0 {
      OnesBit(bits - 1, q - 1);
      assert (PowerOfTwo(bits) - 1) / 2 == PowerOfTwo(bits - 1) - 1;
    }
  }

  lemma WordSize()
    ensures PowerOfTwo(BITS_PER_WORD) == WORD_ALLBITS + 1
  {
    assert PowerOfTwo(8) == 0x100;
    assert PowerOfTwo(16) == 0x1_0000;
    assert PowerOfTwo(24) == 0x100_0000;
  }

  lemma OrWord(w: nat, o: nat)
    requires w <= WORD_ALLBITS && o < BITS_PER_WORD
    ensures Or(w, o) <= WORD_ALLBITS && AndNot(w, o) <= WORD_ALLBITS
    ensures forall q: nat :: Bit(Or(w, o), q) <==> (q == o || Bit(w, q))
  {
    WordSize();
    OrFits(w, o, BITS_PER_WORD);
    forall q: nat ensures Bit(Or(w, o), q) <==> (q == o || Bit(w, q)) { OrBit(w, o, q); }
  }

  /** The inner loop of bitmap_alloc, up to the clear bit it finds. */
  method FirstClear(w: nat) returns (offset: nat)
    requires w < WORD_ALLBITS
    ensures offset < BITS_PER_WORD && !Bit(w, offset)
    ensures forall o :: 0 <= o < offset ==> Bit(w, o)
  {
    offset := 0;
    while offset < BITS_PER_WORD
      invariant offset <= BITS_PER_WORD
      invariant forall o :: 0 <= o < offset ==> Bit(w, o)
    {
      if !Bit(w, offset) {
        return;
      }
      offset := offset + 1;
    }
    WordSize();
    AllBits(w, BITS_PER_WORD);
    assert false;
  }

  class Bitmap {
    const nbits: nat
    const v: array<nat>

    ghost predicate IsSet(i: nat)
      requires i / BITS_PER_WORD < v.Length
      reads v
    {
      Bit(v[i / BITS_PER_WORD], i % BITS_PER_WORD)
    }

    /** The words just cover nbits, and the bits past nbits are set. */
    ghost predicate Valid()
      reads v
    {
      && v.Length == (nbits + BITS_PER_WORD - 1) / BITS_PER_WORD
      && (forall i :: 0 <= i < v.Length ==> v[i] <= WORD_ALLBITS)
      && forall i: nat :: nbits <= i && i / BITS_PER_WORD < v.Length ==> IsSet(i)
    }

    /** The indices in use. */
    ghost function Used(): set<nat>
      requires Valid()
      reads v
    {
      set i: nat | i < nbits && IsSet(i)
    }

    /** bitmap_create: every index is free.  The size is rounded up in 32-bit arithmetic. */
    constructor (nbits: nat)
      requires nbits + BITS_PER_WORD - 1 < 0x1_0000_0000
      ensures Valid() && Used() == {} && this.nbits == nbits && fresh(v)
    {
      var words := (nbits + BITS_PER_WORD - 1) / BITS_PER_WORD;
      var w := new nat[words](_ => 0);
      if words > nbits / BITS_PER_WORD {
        var ix := words - 1;
        var overbits := nbits - ix * BITS_PER_WORD;
        assert nbits / BITS_PER_WORD == words - 1;
        assert 0 < overbits < BITS_PER_WORD;
        forall q: nat ensures !Bit(0, q) { ZeroBit(q); }
        for j := overbits to BITS_PER_WORD
          invariant w[ix] <= WORD_ALLBITS
          invariant forall q: nat :: Bit(w[ix], q) <==> overbits <= q < j
          invariant forall i :: 0 <= i < words && i != ix ==> w[i] == 0
        {
          ghost var before := w[ix];
          w[ix] := Or(w[ix], j);
          OrWord(before, j);
        }
      }
      this.nbits := nbits;
      v := w;
      new;
      forall i: nat | i / BITS_PER_WORD < v.Length ensures IsSet(i) <==> nbits <= i {
        ZeroBit(i % BITS_PER_WORD);
      }
    }

    /** Setting one bit changes one index. */
    twostate lemma SetOne(index: nat)
      requires old(Valid()) && index < nbits
      requires v[index / BITS_PER_WORD] == Or(old(v[index / BITS_PER_WORD]), index % BITS_PER_WORD)
      requires forall i :: 0 <= i < v.Length && i != index / BITS_PER_WORD ==> v[i] == old(v[i])
      ensures Valid() && Used() == old(Used()) + {index}
    {
      forall i: nat | i / BITS_PER_WORD < v.Length ensures IsSet(i) <==> (i == index || old(IsSet(i))) {
        OrBit(old(v[index / BITS_PER_WORD]), index % BITS_PER_WORD, i % BITS_PER_WORD);
      }
      OrWord(old(v[index / BITS_PER_WORD]), index % BITS_PER_WORD);
    }

    /** Clearing one bit changes one index. */
    twostate lemma ClearOne(index: nat)
      requires old(Valid()) && index < nbits
      requires v[index / BITS_PER_WORD] == AndNot(old(v[index / BITS_PER_WORD]), index % BITS_PER_WORD)
      requires forall i :: 0 <= i < v.Length && i != index / BITS_PER_WORD ==> v[i] == old(v[i])
      ensures Valid() && Used() == old(Used()) - {index}
    {
      forall i: nat | i / BITS_PER_WORD < v.Length ensures IsSet(i) <==> (i != index && old(IsSet(i))) {
        AndNotBit(old(v[index / BITS_PER_WORD]), index % BITS_PER_WORD, i % BITS_PER_WORD);
      }
      OrWord(old(v[index / BITS_PER_WORD]), index % BITS_PER_WORD);
    }

    /** bitmap_alloc: the least free index is taken; it fails just when none is free. */
    method Alloc() returns (r: int, index: nat)
      requires Valid()
      modifies v
      ensures Valid() && (r == 0 || r == 1)
      ensures r == 0 ==>
                && index < nbits && index !in old(Used())
                && (forall i: nat :: i < index ==> i in old(Used()))
                && Used() == old(Used()) + {index}
      ensures r == 1 ==> Used() == old(Used()) && forall i: nat :: i < nbits ==> i in Used()
    {
      index := 0;
      var maxix := (nbits + BITS_PER_WORD - 1) / BITS_PER_WORD;
      for ix := 0 to maxix
        invariant v[..] == old(v[..])
        invariant forall i: nat :: i < ix * BITS_PER_WORD ==> IsSet(i)
      {
        if v[ix] != WORD_ALLBITS {
          var offset := FirstClear(v[ix]);
          index := ix * BITS_PER_WORD + offset;
          v[ix] := Or(v[ix], offset);
          assert index / BITS_PER_WORD == ix && index % BITS_PER_WORD == offset && !old(IsSet(index));
          SetOne(index);
          return 0, index;
        }
        forall i: nat | i < (ix + 1) * BITS_PER_WORD ensures IsSet(i) {
          WordSize();
          if i / BITS_PER_WORD == ix { OnesBit(BITS_PER_WORD, i % BITS_PER_WORD); }
        }
      }
      r := 1;
    }

    /** bitmap_mark; both asserts of the source are the caller's duty. */
    method Mark(index: nat)
      requires Valid() && index < nbits && index !in Used()
      modifies v
      ensures Valid() && Used() == old(Used()) + {index}
    {
      var ix, offset := index / BITS_PER_WORD, index % BITS_PER_WORD;  // bitmap_translate
      v[ix] := Or(v[ix], offset);
      SetOne(index);
    }

    /** bitmap_unmark. */
    method Unmark(index: nat)
      requires Valid() && index < nbits && index in Used()
      modifies v
      ensures Valid() && Used() == old(Used()) - {index}
    {
      var ix, offset := index / BITS_PER_WORD, index % BITS_PER_WORD;
      v[ix] := AndNot(v[ix], offset);
      ClearOne(index);
    }

    /** bitmap_isset. */
    method Test(index: nat) returns (b: bool)
      requires Valid() && index < nbits
      ensures b <==> index in Used()
    {
      b := Bit(v[index / BITS_PER_WORD], index % BITS_PER_WORD);
    }
  }
}
