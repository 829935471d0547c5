/** Words in the bytes of the kernel heap.  Requests are not aligned, so headers can lie anywhere: two
    words are independent exactly when their bytes are. */
module HeapMemory {
  import opened LittleEndian

  /** The bytes from address `base` on. */
  datatype Bytes = Bytes(base: nat, data: seq<Byte>) {

    predicate Has(a: int, n: nat) {
      base <= a && a + n <= base + |data|
    }

    function At(a: int): Byte
      requires Has(a, 1)
    {
      data[a - base]
    }

    function Load(a: int): nat
      requires Has(a, 8)
    {
      FromBytes(data[a - base..a - base + 8])
    }

    function Store(a: int, v: nat): (m: Bytes)
      requires Has(a, 8)
      ensures m.base == base && |m.data| == |data|
    {
      this.(data := data[..a - base] + ToBytes(v, 8) + data[a - base + 8..])
    }
  }

  /** Only bytes of the word at `w` differ. */
  ghost predicate OnlyWord(m: Bytes, m': Bytes, w: int) {
    && m'.base == m.base && |m'.data| == |m.data|
    && forall x | m.Has(x, 1) && !(w <= x < w + 8) :: m'.At(x) == m.At(x)
  }

  lemma StoreLoad(m: Bytes, a: int, v: nat)
    requires m.Has(a, 8) && v <= MAX_WORD
    ensures m.Store(a, v).Load(a) == v && OnlyWord(m, m.Store(a, v), a)
  {
    WordRoundTrip(v);
    assert m.Store(a, v).data[a - m.base..a - m.base + 8] == ToBytes(v, 8);
  }

  lemma LoadSame(m: Bytes, m': Bytes, a: int)
    requires m'.base == m.base && |m'.data| == |m.data| && m.Has(a, 8)
    requires forall x | a <= x < a + 8 :: m'.At(x) == m.At(x)
    ensures m'.Load(a) == m.Load(a)
  {
    var i := a - m.base;
    var s, s' := m.data[i..i + 8], m'.data[i..i + 8];
    forall k | 0 <= k < 8
      ensures s'[k] == s[k]
    {
      assert m'.At(a + k) == m.At(a + k);
    }
    assert s' == s;
  }

  /** A store leaves every other word alone that shares no byte with it. */
  lemma StoreElsewhere(m: Bytes, w: int, v: nat, a: int)
    requires m.Has(w, 8) && v <= MAX_WORD && m.Has(a, 8) && (a + 8 <= w || w + 8 <= a)
    ensures m.Store(w, v).Load(a) == m.Load(a)
  {
    StoreLoad(m, w, v);
    LoadSame(m, m.Store(w, v), a);
  }
}
