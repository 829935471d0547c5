/** Numbers written and read by src/utils/printf.c. */
module NumberFormat {

  const UINT_LIMIT := 0x1_0000_0000
  const INT_MAX := 0x7fff_ffff
  const BUFFER_SIZE := 12
  const NUL := '\0'

  // ---------- Division ----------

  lemma DivMod(n: nat, base: nat)
    requires base > 0
    ensures n == base * (n / base) + n % base && 0 <= n % base < base && 0 <= n / base
  {
  }

  lemma DivLess(n: nat, base: nat)
    requires base >= 2 && n >= base
    ensures 0 < n / base < n
  {
  }

  lemma MulMono(a: nat, b: nat, c: nat)
    requires a <= b
    ensures a * c <= b * c && c * a <= c * b
  {
  }

  lemma MulStep(a: nat, b: nat, c: nat)
    requires a < b
    ensures c * a + c <= c * b
  {
    MulMono(a + 1, b, c);
  }

  lemma QuotientRemainder(p: nat, q: nat, r: nat, s: nat, base: nat)
    requires r < base && s < base && base * p + r == base * q + s
    ensures p == q && r == s
  {
    if p < q {
      MulStep(p, q, base);
    } else if q < p {
      MulStep(q, p, base);
    }
  }

  lemma DivIs(n: nat, base: nat, q: nat, r: nat)
    requires base > 0 && r < base && n == base * q + r
    ensures n / base == q && n % base == r
  {
    DivMod(n, base);
    QuotientRemainder(n / base, q, n % base, r, base);
  }

  lemma DivBounds(n: nat, base: nat, lo: nat, hi: nat)
    requires base > 0 && base * lo <= n < base * hi
    ensures lo <= n / base < hi
  {
    DivMod(n, base);
    if n / base < lo {
      MulStep(n / base, lo, base);
    }
    if n / base >= hi {
      MulMono(hi, n / base, base);
    }
  }

  // ---------- Numerals ----------

  /** The digits of a number, most significant first, without leading zeros. */
  function Numeral(n: nat, base: nat): (ds: seq<nat>)
    requires base >= 2
    decreases n
  {
    if n < base then [n]
    else
      DivLess(n, base);
      DivMod(n, base);
      Numeral(n / base, base) + [n % base]
  }

  function Value(ds: seq<nat>, base: nat): nat {
    if ds == [] then 0 else base * Value(ds[..|ds| - 1], base) + ds[|ds| - 1]
  }

  function Pow(base: nat, k: nat): nat {
    if k == 0 then 1 else base * Pow(base, k - 1)
  }

  predicate DigitsBelow(ds: seq<nat>, base: nat) {
    forall i | 0 <= i < |ds| :: ds[i] < base
  }

  lemma ValueSnoc(ds: seq<nat>, d: nat, base: nat)
    ensures Value(ds + [d], base) == base * Value(ds, base) + d
  {
    assert (ds + [d])[..|ds|] == ds;
  }

  lemma {:induction false} NumeralMeaning(n: nat, base: nat)
    requires base >= 2
    ensures var ds := Numeral(n, base);
      |ds| > 0 && DigitsBelow(ds, base) && Value(ds, base) == n && (|ds| > 1 ==> ds[0] > 0)
    decreases n
  {
    if n < base {
      assert [n][..0] == [];
    } else {
      DivLess(n, base);
      DivMod(n, base);
      NumeralMeaning(n / base, base);
      ValueSnoc(Numeral(n / base, base), n % base, base);
      HeadPositive(n / base, base);
    }
  }

  lemma {:induction false} HeadPositive(n: nat, base: nat)
    requires base >= 2 && n > 0
    ensures Numeral(n, base)[0] > 0
    decreases n
  {
    if n >= base {
      DivLess(n, base);
      HeadPositive(n / base, base);
    }
  }

  /** Digits of the same number, and as many, are the same digits. */
  lemma {:induction false} SameDigits(a: seq<nat>, b: seq<nat>, base: nat)
    requires base >= 2 && |a| == |b| && DigitsBelow(a, base) && DigitsBelow(b, base) && Value(a, base) == Value(b, base)
    ensures a == b
    decreases |a|
  {
    if a != [] {
      var k := |a| - 1;
      QuotientRemainder(Value(a[..k], base), Value(b[..k], base), a[k], b[k], base);
      SameDigits(a[..k], b[..k], base);
      assert a == a[..k] + [a[k]] && b == b[..k] + [b[k]];
    }
  }

  /** A numeral with as many digits as powers of the base fit. */
  lemma {:induction false} NumeralLength(n: nat, base: nat, k: nat)
    requires base >= 2 && n < Pow(base, k + 1) && (k > 0 ==> Pow(base, k) <= n)
    ensures |Numeral(n, base)| == k + 1
    decreases k
  {
    if k > 0 {
      OnePowerLess(n, base, k);
      NumeralLength(n / base, base, k - 1);
      OneDigitMore(n, base);
    }
  }

  lemma OnePowerLess(n: nat, base: nat, k: nat)
    requires base >= 2 && k > 0 && Pow(base, k) <= n < Pow(base, k + 1)
    ensures n >= base && 0 <= n / base < Pow(base, k) && Pow(base, k - 1) <= n / base
  {
    PowPositive(base, k - 1);
    PowNext(base, k - 1);
    PowNext(base, k);
    MulMono(1, Pow(base, k - 1), base);
    MulCommute(base, Pow(base, k - 1));
    DivBounds(n, base, Pow(base, k - 1), Pow(base, k));
  }

  lemma PowNext(base: nat, k: nat)
    ensures Pow(base, k + 1) == base * Pow(base, k)
  {
  }

  lemma OneDigitMore(n: nat, base: nat)
    requires base >= 2 && n >= base
    ensures n / base >= 0 && |Numeral(n, base)| == |Numeral(n / base, base)| + 1
  {
  }

  lemma {:induction false} PowPositive(base: nat, k: nat)
    requires base > 0
    ensures Pow(base, k) > 0
  {
    if k > 0 {
      PowPositive(base, k - 1);
    }
  }

  // ---------- Digits from the front ----------

  /** `k` digits of a number, by dividing by smaller and smaller powers. */
  function Spread(n: nat, base: nat, k: nat): (ds: seq<nat>)
    requires base > 0
    ensures |ds| == k
  {
    if k == 0 then []
    else
      PowPositive(base, k - 1);
      DivMod(n, Pow(base, k - 1));
      [n / Pow(base, k - 1)] + Spread(n % Pow(base, k - 1), base, k - 1)
  }

  lemma {:induction false} ValueCons(d: nat, ds: seq<nat>, base: nat)
    ensures Value([d] + ds, base) == d * Pow(base, |ds|) + Value(ds, base)
    decreases |ds|
  {
    if ds == [] {
      assert [d] + ds == [d] && [d][..0] == [];
    } else {
      var k := |ds| - 1;
      ValueCons(d, ds[..k], base);
      assert ([d] + ds)[..|ds|] == [d] + ds[..k];
      MulAssoc(base, d, Pow(base, k), Value(ds[..k], base));
    }
  }

  lemma MulCommute(a: nat, b: nat)
    ensures a * b == b * a
  {
  }

  lemma MulAssoc(base: nat, d: nat, p: nat, v: nat)
    ensures base * (d * p + v) == d * (base * p) + base * v
  {
  }

  lemma {:induction false} SpreadMeaning(n: nat, base: nat, k: nat)
    requires base >= 2 && n < Pow(base, k)
    ensures DigitsBelow(Spread(n, base, k), base) && Value(Spread(n, base, k), base) == n
    decreases k
  {
    if k > 0 {
      var p := Pow(base, k - 1);
      PowPositive(base, k - 1);
      DivMod(n, p);
      MulCommute(base, p);
      MulCommute(n / p, p);
      DivBounds(n, p, 0, base);
      SpreadMeaning(n % p, base, k - 1);
      ValueCons(n / p, Spread(n % p, base, k - 1), base);
    }
  }

  lemma SpreadIsNumeral(n: nat, base: nat, k: nat)
    requires base >= 2 && n < Pow(base, k + 1) && (k > 0 ==> Pow(base, k) <= n)
    ensures Spread(n, base, k + 1) == Numeral(n, base)
  {
    NumeralLength(n, base, k);
    NumeralMeaning(n, base);
    SpreadMeaning(n, base, k + 1);
    SameDigits(Spread(n, base, k + 1), Numeral(n, base), base);
  }

  // ---------- `ui2a` and `i2a` ----------

  function DigitChar(d: nat, uc: bool): char
    requires d < 16
  {
    if d < 10 then '0' + d as char else (if uc then 'A' else 'a') + (d - 10) as char
  }

  /** The digits of base 16, in either case. */
  lemma DigitTable(d: nat, uc: bool)
    requires d < 16
    ensures DigitChar(d, uc) == (if uc then "0123456789ABCDEF" else "0123456789abcdef")[d]
  {
  }

  function Text(ds: seq<nat>, uc: bool): (s: string)
    requires DigitsBelow(ds, 16)
    ensures |s| == |ds| && forall i | 0 <= i < |s| :: s[i] == DigitChar(ds[i], uc)
  {
    if ds == [] then [] else [DigitChar(ds[0], uc)] + Text(ds[1..], uc)
  }

  /** The bases that `tfp_format` asks for. */
  predicate IsBase(base: nat) {
    base == 10 || base == 16
  }

  /** How many characters a 32-bit number takes. */
  function MaxDigits(base: nat): nat {
    if base == 10 then 10 else 8
  }

  lemma DigitsFit(n: nat, base: nat, k: nat)
    requires IsBase(base) && n < UINT_LIMIT && (k > 0 ==> Pow(base, k) <= n)
    ensures k < MaxDigits(base)
  {
    assert Pow(10, 5) == 100000;
    assert Pow(10, 10) == 10000000000;
    assert Pow(16, 4) == 0x1_0000;
    assert Pow(16, 8) == 0x1_0000_0000;
    if k >= MaxDigits(base) {
      PowMono(base, MaxDigits(base), k);
    }
  }

  lemma {:induction false} PowMono(base: nat, j: nat, k: nat)
    requires base > 0 && j <= k
    ensures Pow(base, j) <= Pow(base, k)
    decreases k
  {
    if j < k {
      PowMono(base, j, k - 1);
      MulMono(1, base, Pow(base, k - 1));
    }
  }

  /** The first loop: the highest power of the base that is not above the number, in 32 bits. */
  method FindPower(num: nat, base: nat) returns (d: nat, ghost k: nat)
    requires num < UINT_LIMIT && IsBase(base)
    ensures d == Pow(base, k) && num < Pow(base, k + 1) && (k > 0 ==> d <= num)
    ensures 0 < d && num / d < base && (d == 1 || d <= num)
  {
    d, k := 1, 0;
    while num / d >= base
      invariant 0 < d == Pow(base, k) && (k > 0 ==> d <= num)
      decreases UINT_LIMIT - d
    {
      PowerStep(num, base, d, k);
      d := Times(d, base);
      k := k + 1;
    }
    PowerStops(num, base, d);
  }

  /** A product in 32 bits. */
  method Times(d: nat, base: nat) returns (product: nat)
    requires d * base < UINT_LIMIT
    ensures product == d * base
  {
    product := d * base % UINT_LIMIT;
  }

  /** As long as the quotient has more than one digit, the next power is still not above the number. */
  lemma PowerStep(num: nat, base: nat, d: nat, k: nat)
    requires d > 0 && base >= 2 && num / d >= base && d == Pow(base, k)
    ensures d < d * base <= num && d * base == Pow(base, k + 1)
  {
    DivMod(num, d);
    MulMono(base, num / d, d);
    MulMono(2, base, d);
    MulCommute(d, base);
  }

  lemma PowerStops(num: nat, base: nat, d: nat)
    requires d > 0 && num / d < base
    ensures num < base * d
  {
    DivMod(num, d);
    MulStep(num / d, base, d);
    MulCommute(d, base);
  }

  /** `ui2a`: the numeral, and a NUL. */
  method Ui2a(num: nat, base: nat, uc: bool, bf: array<char>, at: nat) returns (end: nat)
    requires num < UINT_LIMIT && IsBase(base) && at + MaxDigits(base) < bf.Length
    modifies bf
    ensures NumeralFits(num, base) && end == at + |Numeral(num, base)| < bf.Length
    ensures bf[at..end] == Text(Numeral(num, base), uc) && bf[end] == NUL
    ensures bf[..at] == old(bf[..at]) && bf[end + 1..] == old(bf[end + 1..])
  {
    var d, k := FindPower(num, base);
    SpreadReady(num, base, k);
    end := PutDigits(num, base, uc, bf, at, d, k);
    bf[end] := NUL;
    TextIs(bf[at..end], Numeral(num, base), uc);
  }

  lemma TextIs(s: string, ds: seq<nat>, uc: bool)
    requires DigitsBelow(ds, 16) && |s| == |ds| && forall i | 0 <= i < |s| :: s[i] == DigitChar(ds[i], uc)
    ensures s == Text(ds, uc)
  {
  }

  lemma SpreadReady(num: nat, base: nat, k: nat)
    requires num < UINT_LIMIT && IsBase(base) && num < Pow(base, k + 1) && (k > 0 ==> Pow(base, k) <= num)
    ensures Spread(num, base, k + 1) == Numeral(num, base) && |Numeral(num, base)| == k + 1 <= MaxDigits(base)
    ensures DigitsBelow(Numeral(num, base), 16)
  {
    DigitsFit(num, base, k);
    SpreadIsNumeral(num, base, k);
    NumeralMeaning(num, base);
  }

  predicate NumeralFits(num: nat, base: nat)
    requires base >= 2
  {
    DigitsBelow(Numeral(num, base), 16) && |Numeral(num, base)| <= MaxDigits(base)
  }

  lemma SpreadStep(num: nat, base: nat, left: nat, p: nat)
    requires base >= 2 && left > 0 && num < Pow(base, left) && p == Pow(base, left - 1)
    ensures p > 0 && 0 <= num % p && num / p >= 0
    ensures Spread(num, base, left) == [num / p] + Spread(num % p, base, left - 1)
    ensures num % p < Pow(base, left - 1)
    ensures p / base == if left == 1 then 0 else Pow(base, left - 2)
    ensures p / base == 0 <==> left == 1
    ensures p <= num ==> num / p > 0
  {
    PowPositive(base, left - 1);
    DivMod(num, p);
    if left > 1 {
      PowPositive(base, left - 2);
      DivIs(p, base, Pow(base, left - 2), 0);
    } else {
      DivIs(p, base, 0, 1);
    }
    if p <= num {
      QuotientPositive(num, p);
    }
  }

  lemma QuotientPositive(n: nat, p: nat)
    requires 0 < p <= n
    ensures n / p > 0
  {
    DivMod(n, p);
  }

  lemma Dropped(ds: seq<nat>, i: nat, d: nat, rest: seq<nat>)
    requires i < |ds| && ds[i..] == [d] + rest
    ensures ds[i] == d && ds[i + 1..] == rest
  {
    assert ds[i..][1..] == ds[i + 1..];
  }

  /** One round of the second loop. */
  lemma DigitStep(num: nat, base: nat, k: nat, n: nat, d: nat, ds: seq<nat>)
    requires base >= 2 && n <= k && d == Pow(base, k - n) && num < Pow(base, k + 1 - n)
    requires |ds| == k + 1 && ds[n..] == Spread(num, base, k + 1 - n)
    ensures d > 0 && num % d >= 0 && num / d >= 0 && d / base >= 0
    ensures ds[n] == num / d && ds[n + 1..] == Spread(num % d, base, k - n) && num % d < Pow(base, k - n)
    ensures d / base == (if n == k then 0 else Pow(base, k - n - 1)) && (d / base == 0 <==> n == k)
    ensures d <= num ==> num / d > 0
  {
    SpreadStep(num, base, k + 1 - n, d);
    Dropped(ds, n, num / d, Spread(num % d, base, k - n));
  }

  /** The second loop: one digit for each power, `k + 1` of them. */
  method PutDigits(num0: nat, base: nat, uc: bool, bf: array<char>, at: nat, d0: nat, ghost k: nat) returns (p: nat)
    requires IsBase(base) && d0 == Pow(base, k) && num0 < Pow(base, k + 1) && (k > 0 ==> d0 <= num0)
    requires at + k + 1 < bf.Length && DigitsBelow(Spread(num0, base, k + 1), 16)
    modifies bf
    ensures p == at + k + 1 && forall j | at <= j < p :: bf[j] == DigitChar(Spread(num0, base, k + 1)[j - at], uc)
    ensures forall i | 0 <= i < at || p <= i < bf.Length :: bf[i] == old(bf[i])
  {
    var num: nat, d: nat, n: nat := num0, d0, 0;
    p := at;
    PowPositive(base, k);
    ghost var ds := Spread(num0, base, k + 1);
    while d != 0
      invariant n <= k + 1 && p == at + n
      invariant d == (if n == k + 1 then 0 else Pow(base, k - n)) && (d == 0 <==> n == k + 1)
      invariant num < Pow(base, k + 1 - n) && (n == 0 ==> num == num0)
      invariant ds[n..] == Spread(num, base, k + 1 - n)
      invariant forall j | at <= j < p :: bf[j] == DigitChar(ds[j - at], uc)
      invariant forall i | 0 <= i < at || p <= i < bf.Length :: bf[i] == old(bf[i])
      decreases k + 1 - n
    {
      DigitStep(num, base, k, n, d, ds);
      var dgt := num / d;
      num := num % d;
      d := d / base;
      if n != 0 || dgt > 0 || d == 0 {
        bf[p] := DigitChar(dgt, uc);
        p := p + 1;
        n := n + 1;
      }
    }
  }

  /** `-num` in a 32-bit int: the least number is its own negation. */
  function Negated(num: int): int {
    if num == -INT_MAX - 1 then num else -num
  }

  function ToUnsigned(num: int): int {
    if num < 0 then num + UINT_LIMIT else num
  }

  function Magnitude(num: int): nat {
    if num < 0 then -num else num
  }

  function SignOf(num: int): string {
    if num < 0 then "-" else ""
  }

  /** `i2a`: sign, numeral and NUL fit the buffer of `tfp_format`, for every 32-bit int. */
  method I2a(num: int, bf: array<char>) returns (end: nat)
    requires -INT_MAX - 1 <= num <= INT_MAX && bf.Length == BUFFER_SIZE
    modifies bf
    ensures NumeralFits(Magnitude(num), 10)
    ensures end == |SignOf(num)| + |Numeral(Magnitude(num), 10)| < BUFFER_SIZE && bf[end] == NUL
    ensures bf[..end] == SignOf(num) + Text(Numeral(Magnitude(num), 10), false)
    ensures num < 0 ==> bf[0] == '-' && Magnitude(num) == -num && end == 1 + |Numeral(-num, 10)|
    ensures num >= 0 ==> Magnitude(num) == num && end == |Numeral(num, 10)|
  {
    var n, at := num, 0;
    if n < 0 {
      n := Negated(n);
      bf[at] := '-';
      at := at + 1;
    }
    assert bf[..at] == SignOf(num);
    end := Ui2a(ToUnsigned(n), 10, false, bf, at);
    JoinSlices(bf[..], at, end);
  }

  lemma JoinSlices(s: string, at: nat, end: nat)
    requires at <= end <= |s|
    ensures s[..end] == s[..at] + s[at..end]
  {
  }

  /** The most significant digit comes first. */
  lemma InOrder()
    ensures Numeral(1234, 10) == [1, 2, 3, 4] && Value([1, 2, 3, 4], 10) == 1234
  {
    assert Numeral(12, 10) == [1, 2];
    NumeralMeaning(1234, 10);
  }

  // ---------- `a2d` and `a2i` ----------

  function A2d(ch: char): int {
    if '0' <= ch <= '9' then ch as int - '0' as int
    else if 'a' <= ch <= 'f' then ch as int - 'a' as int + 10
    else if 'A' <= ch <= 'F' then ch as int - 'A' as int + 10
    else -1
  }

  /** Only those characters are digits. */
  lemma OnlyDigits(ch: char)
    ensures -1 <= A2d(ch) < 16
    ensures A2d(ch) >= 0 ==> ch == DigitChar(A2d(ch), false) || ch == DigitChar(A2d(ch), true)
  {
  }

  /** How many characters `a2i` takes: the test is `digit > base`, so the digit equal to the base passes. */
  function Taken(s: string, base: nat): (n: nat)
    ensures n <= |s| && forall i | 0 <= i < n :: 0 <= A2d(s[i]) <= base
    ensures n < |s| ==> !(0 <= A2d(s[n]) <= base)
  {
    if s == [] || !(0 <= A2d(s[0]) <= base) then 0 else 1 + Taken(s[1..], base)
  }

  /** How many characters are digits in the base. */
  function Proper(s: string, base: nat): (n: nat)
    ensures n <= |s| && forall i | 0 <= i < n :: 0 <= A2d(s[i]) < base
    ensures n < |s| ==> !(0 <= A2d(s[n]) < base)
  {
    if s == [] || !(0 <= A2d(s[0]) < base) then 0 else 1 + Proper(s[1..], base)
  }

  function DigitsIn(s: string): (ds: seq<nat>)
    requires forall i | 0 <= i < |s| :: A2d(s[i]) >= 0
    ensures |ds| == |s| && forall i | 0 <= i < |ds| :: ds[i] == A2d(s[i])
  {
    if s == [] then [] else [A2d(s[0])] + DigitsIn(s[1..])
  }

  /** The number `a2i` reads. */
  function ReadNumber(s: string, base: nat): nat {
    Value(DigitsIn(s[..Taken(s, base)]), base)
  }

  lemma {:induction false} ValuePrefix(ds: seq<nat>, base: nat, i: nat)
    requires i <= |ds| && base > 0
    ensures Value(ds[..i], base) <= Value(ds, base)
    decreases |ds|
  {
    if i < |ds| {
      var k := |ds| - 1;
      ValuePrefix(ds[..k], base, i);
      assert ds[..k][..i] == ds[..i];
      MulMono(1, base, Value(ds[..k], base));
    } else {
      assert ds[..i] == ds;
    }
  }

  lemma NextDigit(ds: seq<nat>, i: nat, base: nat, num: nat, digit: int)
    requires i < |ds| && base > 0 && num == Value(ds[..i], base) && digit == ds[i]
    ensures Value(ds[..i + 1], base) == num * base + digit <= Value(ds, base)
  {
    MulCommute(num, base);
    ValueSnoc(ds[..i], ds[i], base);
    assert ds[..i] + [ds[i]] == ds[..i + 1];
    ValuePrefix(ds, base, i + 1);
  }

  /** `a2i` on text that ends in NUL, from `at`, where `ch` was read.  The number must fit an int. */
  method A2i(s: string, at: nat, base: nat) returns (ch: char, src: nat, num: nat)
    requires at < |s| && s[|s| - 1] == NUL && IsBase(base) && ReadNumber(s[at..], base) <= INT_MAX
    ensures src == at + Taken(s[at..], base) + 1 <= |s| && ch == s[src - 1]
    ensures num == ReadNumber(s[at..], base)
  {
    ghost var n, ds := TakenFrom(s, at, base);
    ch, src, num := s[at], at + 1, 0;
    ghost var i: nat := 0;
    while A2d(ch) >= 0
      invariant i <= n && src == at + i + 1 && ch == s[at + i] && num == Value(ds[..i], base)
      decreases n - i
    {
      var digit := A2d(ch);
      if digit > base {
        break;
      }
      NextDigit(ds, i, base, num, digit);
      num := num * base + digit;
      assert num <= INT_MAX;
      ch := s[src];
      src := src + 1;
      i := i + 1;
    }
    assert ds[..n] == ds;
  }

  lemma TakenFrom(s: string, at: nat, base: nat) returns (n: nat, ds: seq<nat>)
    requires at < |s| && s[|s| - 1] == NUL && base < 36
    ensures n == Taken(s[at..], base) && at + n < |s| && |ds| == n && Value(ds, base) == ReadNumber(s[at..], base)
    ensures forall i | 0 <= i < n :: ds[i] == A2d(s[at + i]) && 0 <= A2d(s[at + i]) <= base
    ensures !(0 <= A2d(s[at + n]) <= base)
  {
    var rest := s[at..];
    n := Taken(rest, base);
    assert rest[|rest| - 1] == NUL;
    ds := DigitsIn(rest[..n]);
    forall i | 0 <= i < n
      ensures ds[i] == A2d(s[at + i]) && 0 <= A2d(s[at + i]) <= base
    {
      assert rest[i] == s[at + i] && rest[..n][i] == rest[i];
    }
  }

  lemma {:induction false} TakenAll(s: string, rest: string, base: nat)
    requires (forall i | 0 <= i < |s| :: 0 <= A2d(s[i]) <= base) && (rest != [] ==> !(0 <= A2d(rest[0]) <= base))
    ensures Taken(s + rest, base) == |s|
  {
    if s != [] {
      assert (s + rest)[1..] == s[1..] + rest;
      TakenAll(s[1..], rest, base);
    } else {
      assert s + rest == rest;
    }
  }

  lemma CharBack(d: nat, uc: bool)
    requires d < 16
    ensures A2d(DigitChar(d, uc)) == d
  {
  }

  lemma TextDigits(ds: seq<nat>, uc: bool)
    requires DigitsBelow(ds, 16)
    ensures forall i | 0 <= i < |ds| :: A2d(Text(ds, uc)[i]) == ds[i]
    ensures DigitsIn(Text(ds, uc)) == ds
  {
    forall i | 0 <= i < |ds|
      ensures A2d(Text(ds, uc)[i]) == ds[i]
    {
      CharBack(ds[i], uc);
    }
  }

  lemma ReadText(s: string, ds: seq<nat>, base: nat, rest: string)
    requires DigitsBelow(ds, base) && |s| == |ds| && (forall i | 0 <= i < |s| :: A2d(s[i]) == ds[i])
    requires DigitsIn(s) == ds
    requires rest != [] ==> !(0 <= A2d(rest[0]) <= base)
    ensures Taken(s + rest, base) == |ds| && ReadNumber(s + rest, base) == Value(ds, base)
  {
    TakenAll(s, rest, base);
    assert (s + rest)[..|s|] == s;
  }

  /** What `ui2a` writes, `a2i` reads back, if the next character is not one it accepts. */
  lemma ReadBack(n: nat, base: nat, uc: bool, rest: string)
    requires IsBase(base) && DigitsBelow(Numeral(n, base), 16)
    requires rest != [] ==> !(0 <= A2d(rest[0]) <= base)
    ensures Taken(Text(Numeral(n, base), uc) + rest, base) == |Numeral(n, base)|
    ensures ReadNumber(Text(Numeral(n, base), uc) + rest, base) == n
  {
    NumeralMeaning(n, base);
    TextDigits(Numeral(n, base), uc);
    ReadText(Text(Numeral(n, base), uc), Numeral(n, base), base, rest);
  }

  /** `a2i` stops where the digits of the base stop, except before a digit equal to the base. */
  lemma {:induction false} StopsIff(s: string, base: nat)
    ensures Taken(s, base) == Proper(s, base) <==> !(Proper(s, base) < |s| && A2d(s[Proper(s, base)]) == base)
  {
    if s != [] && 0 <= A2d(s[0]) < base {
      StopsIff(s[1..], base);
    }
  }

  /** In base 10, "1a" is read as 20. */
  lemma TenIsADigit()
    ensures ReadNumber("1a", 10) == 20 && Proper("1a", 10) == 1
  {
    assert "1a"[1..] == "a" && "a"[1..] == "";
    assert Taken("1a", 10) == 2 && "1a"[..2] == "1a";
    assert DigitsIn("1a") == [1, 10];
    assert [1, 10][..1] == [1] && [1][..0] == [];
  }

  // ---------- `putchw` ----------

  function Repeat(c: char, n: int): (s: string)
    ensures |s| == (if n <= 0 then 0 else n) && forall i | 0 <= i < |s| :: s[i] == c
    decreases n
  {
    if n <= 0 then "" else Repeat(c, n - 1) + [c]
  }

  /** The text of `bf` up to its NUL, padded in front to `width` characters. */
  method Putchw(width: int, z: bool, bf: array<char>, ghost len: nat) returns (out: string)
    requires len < bf.Length && bf[len] == NUL && forall i | 0 <= i < len :: bf[i] != NUL
    ensures out == Repeat(if z then '0' else ' ', width - len) + bf[..len]
  {
    var fc := if z then '0' else ' ';
    out := "";
    var n, p := width, 0;
    while bf[p] != NUL && n > 0
      invariant p <= len && n == width - p && (p > 0 ==> n >= 0)
      decreases n
    {
      p := p + 1;
      n := n - 1;
    }
    ghost var pad := n;
    while n > 0
      invariant out == Repeat(fc, pad - n) && (pad <= 0 ==> n == pad) && (pad > 0 ==> 0 <= n <= pad)
      decreases n
    {
      n := n - 1;
      out := out + [fc];
    }
    ghost var padding := out;
    p := 0;
    while bf[p] != NUL
      invariant p <= len && out == padding + bf[..p]
      decreases len - p
    {
      out := out + [bf[p]];
      p := p + 1;
    }
  }
}
