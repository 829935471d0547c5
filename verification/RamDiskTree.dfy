/** The directory tree that tools/fs/genRamDisk.py turns into an image, and the numbering of its nodes. */
module RamDiskTrees {
  import opened Collections
  import opened LittleEndian
  import opened Wrappers

  type Name = seq<Byte>

  datatype Tree =
    | Dir(name: Name, children: seq<Tree>)
    | File(name: Name, content: seq<Byte>)

  const SLASH: Byte := 47
  const FILE_NAME_SIZE := 71

  /** A name that fits its field with a terminator and can be a path component. */
  predicate NameOk(name: Name) {
    0 < |name| < FILE_NAME_SIZE && 0 !in name && SLASH !in name
  }

  predicate WellNamed(t: Tree)
    decreases t
  {
    t.Dir? ==> AllWellNamed(t.children)
  }

  /** Siblings have distinct names. */
  predicate AllWellNamed(ts: seq<Tree>)
    decreases ts
  {
    ts == [] || (NameOk(ts[0].name) && !Names(ts[1..], ts[0].name) && WellNamed(ts[0]) && AllWellNamed(ts[1..]))
  }

  predicate Names(ts: seq<Tree>, name: Name) {
    exists j :: 0 <= j < |ts| && ts[j].name == name
  }

  // ---------- Numbering ----------

  /** The nodes in the order of their ids: a directory before what is in it. */
  function Preorder(t: Tree): seq<Tree>
    decreases t
  {
    [t] + if t.Dir? then PreorderAll(t.children) else []
  }

  function PreorderAll(ts: seq<Tree>): seq<Tree>
    decreases ts
  {
    if ts == [] then [] else Preorder(ts[0]) + PreorderAll(ts[1..])
  }

  /** The ids of siblings, when the first gets `id`: each follows the whole subtree of the one before. */
  function Ids(ts: seq<Tree>, id: nat): (ids: seq<nat>)
    ensures |ids| == |ts|
    decreases |ts|
  {
    if ts == [] then [] else [id] + Ids(ts[1..], id + |Preorder(ts[0])|)
  }

  function Children(t: Tree): seq<Tree> {
    if t.Dir? then t.children else []
  }

  /** Sibling `j` gets the id behind the subtrees of the siblings before it. */
  lemma {:induction false} IdsAt(ts: seq<Tree>, id: nat, j: nat)
    requires j < |ts|
    ensures Ids(ts, id)[j] == id + |PreorderAll(ts[..j])|
    ensures |PreorderAll(ts[..j])| < |PreorderAll(ts)| && PreorderAll(ts)[|PreorderAll(ts[..j])|] == ts[j]
    decreases j
  {
    if j > 0 {
      IdsAt(ts[1..], id + |Preorder(ts[0])|, j - 1);
      assert ts[..j][1..] == ts[1..][..j - 1];
    }
  }

  /** The subtree of the node at position `k` follows it. */
  predicate SubtreeAt(ns: seq<Tree>, k: nat) {
    k < |ns| && StandsAt(ns, k, Preorder(ns[k]))
  }

  /** Every subtree is numbered without a gap. */
  lemma {:induction false} SubtreeContiguous(t: Tree, k: nat)
    requires k < |Preorder(t)|
    ensures SubtreeAt(Preorder(t), k)
    decreases t
  {
    if k > 0 {
      SubtreesContiguous(t.children, k - 1);
      var rest := PreorderAll(t.children);
      StandsInTail([t], rest, k - 1, Preorder(rest[k - 1]));
    } else {
      assert Preorder(t)[0..|Preorder(t)|] == Preorder(t);
    }
  }

  lemma {:induction false} SubtreesContiguous(ts: seq<Tree>, k: nat)
    requires k < |PreorderAll(ts)|
    ensures SubtreeAt(PreorderAll(ts), k)
    decreases ts
  {
    var head, tail := Preorder(ts[0]), PreorderAll(ts[1..]);
    if k < |head| {
      SubtreeContiguous(ts[0], k);
      SubtreeInHead(head, tail, k);
    } else {
      SubtreesContiguous(ts[1..], k - |head|);
      SubtreeInTail(head, tail, k - |head|);
    }
  }

  lemma SubtreeInHead(head: seq<Tree>, tail: seq<Tree>, k: nat)
    requires SubtreeAt(head, k)
    ensures SubtreeAt(head + tail, k)
  {
    StandsInHead(head, tail, k, Preorder(head[k]));
  }

  lemma SubtreeInTail(head: seq<Tree>, tail: seq<Tree>, k: nat)
    requires SubtreeAt(tail, k)
    ensures SubtreeAt(head + tail, |head| + k)
  {
    StandsInTail(head, tail, k, Preorder(tail[k]));
  }

  /** The ids written for a directory are the numbers of its children. */
  lemma ChildAt(t: Tree, k: nat, j: nat)
    requires k < |Preorder(t)| && j < |Children(Preorder(t)[k])|
    ensures var u := Preorder(t)[k];
      var i := Ids(Children(u), k + 1)[j];
      k < i < |Preorder(t)| && Preorder(t)[i] == u.children[j]
  {
    var u := Preorder(t)[k];
    SubtreeContiguous(t, k);
    ChildWithin(u, k, j);
    StandingAt(Preorder(t), k, Preorder(u), Ids(Children(u), k + 1)[j] - k);
  }

  lemma ChildWithin(u: Tree, k: nat, j: nat)
    requires j < |Children(u)|
    ensures var i := Ids(Children(u), k + 1)[j]; k < i < k + |Preorder(u)| && Preorder(u)[i - k] == u.children[j]
  {
    IdsAt(u.children, k + 1, j);
    assert Preorder(u)[1..] == PreorderAll(u.children);
  }

  // ---------- Paths ----------

  /** The names on the way to node `k`. */
  function NamesTo(t: Tree, k: nat): seq<Name>
    requires k < |Preorder(t)|
    decreases t
  {
    if k == 0 then [] else NamesToAmong(t.children, k - 1)
  }

  function NamesToAmong(ts: seq<Tree>, k: nat): (names: seq<Name>)
    requires k < |PreorderAll(ts)|
    ensures names != []
    decreases ts
  {
    if k < |Preorder(ts[0])| then [ts[0].name] + NamesTo(ts[0], k) else NamesToAmong(ts[1..], k - |Preorder(ts[0])|)
  }

  /** The node that a list of names leads to, if the tree has id `id`: what path resolution is for. */
  function Resolve(t: Tree, id: nat, names: seq<Name>): Option<nat>
    decreases t
  {
    if names == [] then Some(id) else if t.File? then None else ResolveAmong(t.children, id + 1, names)
  }

  function ResolveAmong(ts: seq<Tree>, id: nat, names: seq<Name>): Option<nat>
    requires names != []
    decreases ts
  {
    if ts == [] then None
    else if ts[0].name == names[0] then Resolve(ts[0], id, names[1..])
    else ResolveAmong(ts[1..], id + |Preorder(ts[0])|, names)
  }

  /** Names lead to node `k` exactly if they are the names on the way to it. */
  lemma {:induction false} ResolveIff(t: Tree, id: nat, names: seq<Name>, k: nat)
    requires WellNamed(t)
    ensures Resolve(t, id, names) == Some(id + k) <==> k < |Preorder(t)| && names == NamesTo(t, k)
    decreases t
  {
    if names != [] && t.Dir? {
      if k > 0 {
        ResolveAmongIff(t.children, id + 1, names, k - 1);
      } else {
        ResolveAmongAbove(t.children, id + 1, names);
      }
    }
  }

  lemma {:induction false} ResolveAmongIff(ts: seq<Tree>, id: nat, names: seq<Name>, k: nat)
    requires AllWellNamed(ts) && names != []
    ensures ResolveAmong(ts, id, names) == Some(id + k) <==> k < |PreorderAll(ts)| && names == NamesToAmong(ts, k)
    decreases ts
  {
    if ts != [] {
      var n := |Preorder(ts[0])|;
      if ts[0].name == names[0] {
        ResolveIff(ts[0], id, names[1..], k);
        if k < n {
          assert ([ts[0].name] + NamesTo(ts[0], k))[1..] == NamesTo(ts[0], k);
          assert names == [names[0]] + names[1..];
        } else if k < |PreorderAll(ts)| {
          FirstName(ts[1..], k - n);
        }
      } else if k >= n {
        ResolveAmongIff(ts[1..], id + n, names, k - n);
      } else {
        ResolveAmongAbove(ts[1..], id + n, names);
      }
    }
  }

  /** The way to a node among siblings starts with the name of one of them. */
  lemma {:induction false} FirstName(ts: seq<Tree>, k: nat)
    requires k < |PreorderAll(ts)|
    ensures Names(ts, NamesToAmong(ts, k)[0])
    decreases ts
  {
    if k < |Preorder(ts[0])| {
      assert ts[0].name == NamesToAmong(ts, k)[0];
    } else {
      FirstName(ts[1..], k - |Preorder(ts[0])|);
      var j :| 0 <= j < |ts[1..]| && ts[1..][j].name == NamesToAmong(ts, k)[0];
      assert ts[j + 1].name == NamesToAmong(ts, k)[0];
    }
  }

  lemma {:induction false} ResolveAbove(t: Tree, id: nat, names: seq<Name>)
    ensures Resolve(t, id, names).Some? ==> id <= Resolve(t, id, names).value < id + |Preorder(t)|
    decreases t
  {
    if names != [] && t.Dir? {
      ResolveAmongAbove(t.children, id + 1, names);
    }
  }

  lemma {:induction false} ResolveAmongAbove(ts: seq<Tree>, id: nat, names: seq<Name>)
    requires names != []
    ensures ResolveAmong(ts, id, names).Some? ==> id <= ResolveAmong(ts, id, names).value < id + |PreorderAll(ts)|
    decreases ts
  {
    if ts != [] {
      if ts[0].name == names[0] {
        ResolveAbove(ts[0], id, names[1..]);
      } else {
        ResolveAmongAbove(ts[1..], id + |Preorder(ts[0])|, names);
      }
    }
  }

  /** One component: the first child of that name, and its id. */
  function ChildNamed(ts: seq<Tree>, name: Name): (j: nat)
    ensures j <= |ts| && (j < |ts| ==> ts[j].name == name) && forall i | 0 <= i < j :: ts[i].name != name
  {
    if ts == [] || ts[0].name == name then 0 else 1 + ChildNamed(ts[1..], name)
  }

  lemma {:induction false} ResolveStep(ts: seq<Tree>, id: nat, names: seq<Name>)
    requires names != []
    ensures var j := ChildNamed(ts, names[0]);
      ResolveAmong(ts, id, names) == if j == |ts| then None else Resolve(ts[j], Ids(ts, id)[j], names[1..])
    decreases |ts|
  {
    if ts != [] && ts[0].name != names[0] {
      ResolveStep(ts[1..], id + |Preorder(ts[0])|, names);
    }
  }

  /** From node `k`, the first `n` names lead to a node that has no child with the next name. */
  ghost predicate MissesAt(t: Tree, k: nat, names: seq<Name>, n: int)
    requires k < |Preorder(t)|
  {
    0 <= n < |names| && var r := Resolve(Preorder(t)[k], k, names[..n]);
      r.Some? && r.value < |Preorder(t)| && !Names(Children(Preorder(t)[r.value]), names[n])
  }

  ghost predicate Misses(t: Tree, k: nat, names: seq<Name>)
    requires k < |Preorder(t)|
  {
    exists n :: MissesAt(t, k, names, n)
  }

  /** One name more, in front of those that lead on from child `j`. */
  lemma ResolveLater(t: Tree, k: nat, names: seq<Name>, ts: seq<Tree>, j: nat, i: nat)
    requires k < |Preorder(t)| && names != [] && ts == Children(Preorder(t)[k])
    requires j == ChildNamed(ts, names[0]) < |ts| && i == Ids(ts, k + 1)[j]
    ensures Resolve(Preorder(t)[k], k, names) == Resolve(ts[j], i, names[1..])
  {
    ResolveStep(ts, k + 1, names);
  }

  lemma MissesLater(t: Tree, k: nat, names: seq<Name>, n: int, j: nat)
    requires k < |Preorder(t)| && names != []
    requires j == ChildNamed(Children(Preorder(t)[k]), names[0]) < |Children(Preorder(t)[k])|
    requires var i := Ids(Children(Preorder(t)[k]), k + 1)[j];
      i < |Preorder(t)| && Preorder(t)[i] == Children(Preorder(t)[k])[j]
    ensures MissesAt(t, k, names, n + 1) <==>
      n >= 0 && MissesAt(t, Ids(Children(Preorder(t)[k]), k + 1)[j], names[1..], n)
  {
    if 0 <= n < |names| - 1 {
      var first, ts := names[..n + 1], Children(Preorder(t)[k]);
      assert first[1..] == names[1..][..n] && first[0] == names[0];
      ResolveLater(t, k, first, ts, j, Ids(ts, k + 1)[j]);
    }
  }

  /** If the first component names a child, whatever is missed is missed from there. */
  lemma MissesThere(t: Tree, k: nat, names: seq<Name>, j: nat, i: nat)
    requires k < |Preorder(t)| && names != []
    requires j == ChildNamed(Children(Preorder(t)[k]), names[0]) < |Children(Preorder(t)[k])|
    requires i == Ids(Children(Preorder(t)[k]), k + 1)[j] < |Preorder(t)|
    requires Preorder(t)[i] == Children(Preorder(t)[k])[j]
    ensures var there, here := Misses(t, i, names[1..]), Misses(t, k, names); there <==> here
  {
    if Misses(t, i, names[1..]) {
      var n :| MissesAt(t, i, names[1..], n);
      OneLater(t, k, names, n, j, i);
    } else if Misses(t, k, names) {
      var n :| MissesAt(t, k, names, n);
      OneEarlier(t, k, names, n, j, i);
      assert false;
    }
  }

  lemma OneLater(t: Tree, k: nat, names: seq<Name>, n: int, j: nat, i: nat)
    requires k < |Preorder(t)| && names != []
    requires j == ChildNamed(Children(Preorder(t)[k]), names[0]) < |Children(Preorder(t)[k])|
    requires i == Ids(Children(Preorder(t)[k]), k + 1)[j] < |Preorder(t)|
    requires Preorder(t)[i] == Children(Preorder(t)[k])[j]
    requires var at := MissesAt(t, i, names[1..], n); at
    ensures var misses := Misses(t, k, names); misses
  {
    MissesLater(t, k, names, n, j);
    assert MissesAt(t, k, names, n + 1);
  }

  lemma OneEarlier(t: Tree, k: nat, names: seq<Name>, n: int, j: nat, i: nat)
    requires k < |Preorder(t)| && names != []
    requires j == ChildNamed(Children(Preorder(t)[k]), names[0]) < |Children(Preorder(t)[k])|
    requires i == Ids(Children(Preorder(t)[k]), k + 1)[j] < |Preorder(t)|
    requires Preorder(t)[i] == Children(Preorder(t)[k])[j]
    requires var at := MissesAt(t, k, names, n); at
    ensures var misses := Misses(t, i, names[1..]); misses
  {
    NotHere(t, k, names);
    MissesLater(t, k, names, n - 1, j);
    assert MissesAt(t, i, names[1..], n - 1);
  }

  lemma NotHere(t: Tree, k: nat, names: seq<Name>)
    requires k < |Preorder(t)| && names != []
    requires ChildNamed(Children(Preorder(t)[k]), names[0]) < |Children(Preorder(t)[k])|
    ensures !MissesAt(t, k, names, 0)
  {
    assert names[..0] == [];
  }

  lemma MissesHere(t: Tree, k: nat, names: seq<Name>)
    requires k < |Preorder(t)| && names != []
    requires ChildNamed(Children(Preorder(t)[k]), names[0]) == |Children(Preorder(t)[k])|
    ensures var misses := Misses(t, k, names); misses
  {
    assert names[..0] == [];
    assert MissesAt(t, k, names, 0);
  }

  /** Resolution fails exactly where some component names no child of what the components before it lead to. */
  lemma {:induction false} ResolveFails(t: Tree, k: nat, names: seq<Name>)
    requires k < |Preorder(t)|
    ensures var misses := Misses(t, k, names); Resolve(Preorder(t)[k], k, names) == None <==> misses
    decreases |names|
  {
    if names != [] {
      var ts := Children(Preorder(t)[k]);
      var j := ChildNamed(ts, names[0]);
      ResolveStep(ts, k + 1, names);
      if j < |ts| {
        var i := Ids(ts, k + 1)[j];
        ChildAt(t, k, j);
        ResolveFails(t, i, names[1..]);
        MissesThere(t, k, names, j, i);
      } else {
        MissesHere(t, k, names);
      }
    }
  }
}
