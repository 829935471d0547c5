/** Facts about sequences and sets that several modules use. */
module Collections {

  lemma Assoc<T>(a: seq<T>, b: seq<T>, c: seq<T>)
    ensures (a + b) + c == a + (b + c)
  {
  }

  /** `part` stands in `all` from position `k` on. */
  predicate StandsAt<T(==)>(all: seq<T>, k: nat, part: seq<T>) {
    k + |part| <= |all| && all[k..k + |part|] == part
  }

  lemma StandsInTail<T>(a: seq<T>, b: seq<T>, k: nat, part: seq<T>)
    requires StandsAt(b, k, part)
    ensures StandsAt(a + b, |a| + k, part)
  {
    assert (a + b)[|a| + k..|a| + k + |part|] == b[k..k + |part|];
  }

  lemma StandsInHead<T>(a: seq<T>, b: seq<T>, k: nat, part: seq<T>)
    requires StandsAt(a, k, part)
    ensures StandsAt(a + b, k, part)
  {
    assert (a + b)[k..k + |part|] == a[k..k + |part|];
  }

  /** What is found in the part is found in the whole. */
  lemma StandingAt<T>(all: seq<T>, k: nat, part: seq<T>, i: nat)
    requires StandsAt(all, k, part) && i < |part|
    ensures all[k + i] == part[i]
  {
    assert all[k..k + |part|][i] == part[i];
  }

  lemma SubsetSize<T>(a: set<T>, b: set<T>)
    requires a <= b
    ensures |a| <= |b|
  {
    assert b == a + (b - a);
  }

  lemma UnionSize<T>(a: set<T>, b: set<T>)
    ensures |a + b| == |a| + |b - a|
  {
    assert a + b == a + (b - a);
  }
}
