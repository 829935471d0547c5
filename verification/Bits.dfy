/** Bitwise or and and of unsigned machine words, as whole numbers: binary digit by digit from the lowest. */
module Bits {

  function Pow2(k: nat): (p: nat)
    ensures p > 0
  {
    if k == 0 then 1 else 2 * Pow2(k - 1)
  }

  function Or(a: nat, b: nat): nat
    decreases a + b
  {
    if a == 0 && b == 0 then 0
    else (if a % 2 == 1 || b % 2 == 1 then 1 else 0) + 2 * Or(a / 2, b / 2)
  }

  function And(a: nat, b: nat): nat
    decreases a
  {
    if a == 0 then 0 else (if a % 2 == 1 && b % 2 == 1 then 1 else 0) + 2 * And(a / 2, b / 2)
  }

  /** The number made of the lowest `k` digits, and the number without them. */
  function Low(a: nat, k: nat): (l: nat)
    ensures l < Pow2(k)
    decreases k
  {
    if k == 0 then 0 else a % 2 + 2 * Low(a / 2, k - 1)
  }

  function High(a: nat, k: nat): nat
    decreases k
  {
    if k == 0 then a else High(a / 2, k - 1)
  }

  lemma {:induction false} Parts(a: nat, k: nat)
    ensures a == High(a, k) * Pow2(k) + Low(a, k)
    decreases k
  {
    if k > 0 {
      Parts(a / 2, k - 1);
      Twice(High(a, k), Pow2(k - 1));
    }
  }

  lemma {:induction false} OrNone(a: nat)
    ensures Or(a, 0) == a
  {
    if a > 0 {
      OrNone(a / 2);
    }
  }

  /** If the numbers have no digit in common, the or is an addition. */
  lemma {:induction false} OrAdds(a: nat, b: nat, k: nat)
    requires Low(a, k) == 0 && b < Pow2(k)
    ensures Or(a, b) == a + b
    decreases k
  {
    if k == 0 {
      OrNone(a);
    } else {
      OrAdds(a / 2, b / 2, k - 1);
    }
  }

  lemma {:induction false} AndNone(a: nat)
    ensures And(a, 0) == 0
  {
    if a > 0 {
      AndNone(a / 2);
    }
  }

  /** A mask of the lowest `k` digits keeps them. */
  lemma {:induction false} AndLow(a: nat, k: nat)
    ensures And(a, Pow2(k) - 1) == Low(a, k)
    decreases k
  {
    if k == 0 {
      AndNone(a);
    } else {
      AndLow(a / 2, k - 1);
      if a == 0 {
        assert And(0, Pow2(k - 1) - 1) == 0;
      }
    }
  }

  /** A mask of the digits from `k` up to `n` drops them. */
  lemma {:induction false} AndHigh(a: nat, k: nat, n: nat, mask: nat)
    requires k <= n && a < Pow2(n) && mask == Pow2(n) - Pow2(k)
    ensures And(a, mask) == a - Low(a, k)
    decreases k
  {
    if k == 0 {
      AndLow(a, n);
      LowWhole(a, n);
    } else {
      Pow2Grows(k - 1, n - 1);
      AndHigh(a / 2, k - 1, n - 1, mask / 2);
    }
  }

  lemma {:induction false} LowWhole(a: nat, n: nat)
    requires a < Pow2(n)
    ensures Low(a, n) == a
    decreases n
  {
    if n > 0 {
      LowWhole(a / 2, n - 1);
    }
  }

  lemma {:induction false} Pow2Grows(k: nat, n: nat)
    requires k <= n
    ensures Pow2(k) <= Pow2(n)
    decreases n
  {
    if k < n {
      Pow2Grows(k, n - 1);
    }
  }

  lemma {:induction false} Pow2Add(j: nat, k: nat)
    ensures Pow2(j + k) == Pow2(j) * Pow2(k)
    decreases j
  {
    if j > 0 {
      Pow2Add(j - 1, k);
      Twice(Pow2(j - 1), Pow2(k));
    }
  }

  lemma Twice(p: nat, q: nat)
    ensures (2 * p) * q == 2 * (p * q) == p * (2 * q)
  {
  }

  lemma Pow2Of4()
    ensures Pow2(4) == 16
  {
    assert Pow2(2) == 4;
  }

  lemma Pow2Of9And12()
    ensures Pow2(8) == 256 && Pow2(9) == 512 && Pow2(12) == 0x1000
  {
    Pow2Of4();
    Pow2Add(4, 4);
    Pow2Add(8, 1);
    Pow2Add(8, 4);
  }

  lemma Pow2Of32()
    ensures Pow2(32) == 0x1_0000_0000
  {
    Pow2Of9And12();
    Pow2Add(8, 8);
    Pow2Add(16, 16);
  }

  lemma Pow2Of64()
    ensures Pow2(64) == 0x1_0000_0000_0000_0000
  {
    Pow2Of32();
    Pow2Add(32, 32);
  }

  lemma Rest(a: nat, h: nat, p: nat, l: nat)
    requires a == h * p + l && l < p && (p == 512 || p == 0x1000)
    ensures a % p == l
  {
    if p == 512 {
      RestOf512(a, h, l);
    } else {
      RestOf4096(a, h, l);
    }
  }

  lemma RestOf512(a: nat, h: nat, l: nat)
    requires a == 512 * h + l && l < 512
    ensures a % 512 == l
  {
  }

  lemma RestOf4096(a: nat, h: nat, l: nat)
    requires a == 0x1000 * h + l && l < 0x1000
    ensures a % 0x1000 == l
  {
  }

  lemma LowIs(a: nat, k: nat, p: nat)
    requires p == Pow2(k) && (p == 512 || p == 0x1000)
    ensures Low(a, k) == a % p
  {
    Parts(a, k);
    Rest(a, High(a, k), p, Low(a, k));
  }

  /** The masks of 9 index bits, and of all but 12 offset bits of a 64-bit word. */
  lemma Masks(a: nat)
    ensures And(a, 511) == a % 512
    ensures a < 0x1_0000_0000_0000_0000 ==> And(a, 0xffff_ffff_ffff_f000) == a - a % 0x1000
  {
    Pow2Of9And12();
    Pow2Of64();
    LowIs(a, 9, 512);
    LowIs(a, 12, 0x1000);
    AndLow(a, 9);
    if a < 0x1_0000_0000_0000_0000 {
      AndHigh(a, 12, 64, 0xffff_ffff_ffff_f000);
    }
  }

  /** The or of flags into an aligned address. */
  lemma Flags(a: nat, flags: nat)
    requires a % 0x1000 == 0 && flags < 0x1000
    ensures Or(a, flags) == a + flags
  {
    Pow2Of9And12();
    LowIs(a, 12, 0x1000);
    OrAdds(a, flags, 12);
  }
}
