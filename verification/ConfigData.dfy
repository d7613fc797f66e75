/** Configuration data (include/bchat/config.hpp, src/config.cpp): nested dicts whose leaves are
    scalars and sets of scalars, and the normal form (no empty dict, no empty set) that `prune_`
    establishes. */
module ConfigData {
  import opened Options
  import opened Ordering

  /** Scalars are signed 64-bit integers or byte strings. */
  type int64 = i: int | -0x8000_0000_0000_0000 <= i < 0x8000_0000_0000_0000

  datatype Scalar = Int(i: int64) | Str(s: string)

  datatype Value =
    | ScalarV(scalar: Scalar)
    | SetV(elems: set<Scalar>)
    | DictV(entries: Dict)

  type Dict = map<string, Value>

  function Lookup(d: Dict, k: string): Option<Value> {
    if k in d then Some(d[k]) else None
  }

  /** The set stored under `k`; a missing key or another kind of value counts as the empty set. */
  function SetAt(d: Dict, k: string): set<Scalar> {
    if k in d && d[k].SetV? then d[k].elems else {}
  }

  /** The dict stored under `k`; a missing key or another kind of value counts as the empty dict. */
  function DictAt(d: Dict, k: string): Dict {
    if k in d && d[k].DictV? then d[k].entries else map[]
  }

  lemma DictExtensionality(d: Dict, e: Dict)
    requires forall k :: Lookup(d, k) == Lookup(e, k)
    ensures d == e
  {
    forall k ensures k in d <==> k in e {
      assert Lookup(d, k) == Lookup(e, k);
    }
    forall k | k in d ensures d[k] == e[k] {
      assert Lookup(d, k) == Lookup(e, k);
    }
  }

  // ----- iteration order

  function Keys(d: Dict): (ks: seq<string>)
    ensures Ascending(ks, KeyLess) && forall k :: k in ks <==> k in d
  {
    KeyOrder();
    Ascend(d.Keys, KeyLess)
  }

  method KeysInOrder(d: Dict) returns (ks: seq<string>)
    ensures Ascending(ks, KeyLess) && forall k :: k in ks <==> k in d
  {
    ks := Keys(d);
  }

  lemma PassedKey(ks: seq<string>, i: nat)
    requires Ascending(ks, KeyLess) && i < |ks|
    ensures ks[i] in ks && ks[i] !in ks[..i]
    ensures forall k :: k in ks[..i + 1] <==> k in ks[..i] || k == ks[i]
  {
    KeyOrder();
    Passed(ks, i, KeyLess);
  }

  /** `std::variant` order: integers come before strings. */
  predicate ScalarLess(a: Scalar, b: Scalar) {
    match (a, b)
    case (Int(i), Int(j)) => i < j
    case (Int(_), Str(_)) => true
    case (Str(_), Int(_)) => false
    case (Str(s), Str(t)) => KeyLess(s, t)
  }

  lemma ScalarLessTransitive(a: Scalar, b: Scalar, c: Scalar)
    requires ScalarLess(a, b) && ScalarLess(b, c)
    ensures ScalarLess(a, c)
  {
    if a.Str? && b.Str? && c.Str? {
      KeyLessTransitive(a.s, b.s, c.s);
    }
  }

  lemma ScalarLessConnected(a: Scalar, b: Scalar)
    ensures !ScalarLess(a, a)
    ensures ScalarLess(a, b) || a == b || ScalarLess(b, a)
  {
    if a.Str? { KeyLessIrreflexive(a.s); }
    if a.Str? && b.Str? { KeyLessConnected(a.s, b.s); }
  }

  lemma ScalarOrder()
    ensures TotalOrder(ScalarLess)
  {
    forall a, b ensures !ScalarLess(a, a) && (ScalarLess(a, b) || a == b || ScalarLess(b, a)) {
      ScalarLessConnected(a, b);
    }
    forall a, b, c | ScalarLess(a, b) && ScalarLess(b, c) ensures ScalarLess(a, c) {
      ScalarLessTransitive(a, b, c);
    }
  }

  function Elements(s: set<Scalar>): (es: seq<Scalar>)
    ensures Ascending(es, ScalarLess) && forall e :: e in es <==> e in s
  {
    ScalarOrder();
    Ascend(s, ScalarLess)
  }

  // ----- the pruned form

  /** No dict or set below `d` is empty (`d` itself may be). */
  ghost predicate Pruned(d: Dict)
    decreases DictV(d)
  {
    forall k | k in d :: PrunedValue(d[k])
  }

  ghost predicate PrunedValue(v: Value)
    decreases v, 0
  {
    match v
    case ScalarV(_) => true
    case SetV(s) => s != {}
    case DictV(e) => e != map[] && forall k | k in e :: PrunedValue(e[k])
  }

  lemma PrunedSub(d: Dict, k: string)
    requires Pruned(d)
    ensures Pruned(DictAt(d, k))
  {
    if k in d {
      assert PrunedValue(d[k]);
    }
  }

  /** What pruning leaves: every empty container is dropped, bottom up. */
  function Prune(d: Dict): Dict
    decreases DictV(d), 1
  {
    map k | k in d && PruneValue(d[k]).Some? :: PruneValue(d[k]).value
  }

  /** None when the value must be removed from its parent. */
  function PruneValue(v: Value): Option<Value>
    decreases v, 2
  {
    match v
    case ScalarV(_) => Some(v)
    case SetV(s) => if s == {} then None else Some(v)
    case DictV(e) => var e' := Prune(e); if e' == map[] then None else Some(DictV(e'))
  }

  lemma PruneLookup(d: Dict, k: string)
    ensures Lookup(Prune(d), k) == if k in d then PruneValue(d[k]) else None
  {
  }

  /** A leaf of a dict: a scalar, or one element of a set. */
  datatype Leaf = ScalarLeaf(s: Scalar) | ElemLeaf(e: Scalar)

  ghost predicate HasLeaf(d: Dict, path: seq<string>, leaf: Leaf)
    decreases |path|
  {
    path != [] && path[0] in d &&
    match d[path[0]]
    case ScalarV(s) => |path| == 1 && leaf == ScalarLeaf(s)
    case SetV(s) => |path| == 1 && leaf.ElemLeaf? && leaf.e in s
    case DictV(e) => HasLeaf(e, path[1..], leaf)
  }

  /** Pruning keeps every scalar and every set element at its place, and adds none. */
  lemma {:induction false} PruneKeepsLeaves(d: Dict, path: seq<string>, leaf: Leaf)
    ensures HasLeaf(Prune(d), path, leaf) <==> HasLeaf(d, path, leaf)
    decreases |path|
  {
    if path == [] {
    } else {
      var k := path[0];
      PruneLookup(d, k);
      if k in d && d[k].DictV? {
        PruneKeepsLeaves(d[k].entries, path[1..], leaf);
      }
    }
  }

  lemma {:induction false} PruneEstablishesPruned(d: Dict)
    ensures Pruned(Prune(d))
    decreases DictV(d)
  {
    forall k | k in Prune(d) ensures PrunedValue(Prune(d)[k]) {
      PruneLookup(d, k);
      if d[k].DictV? {
        PruneEstablishesPruned(d[k].entries);
      }
    }
  }

  lemma {:induction false} PrunedHasLeaf(d: Dict)
    requires Pruned(d) && d != map[]
    ensures exists path, leaf :: HasLeaf(d, path, leaf)
    decreases DictV(d)
  {
    var k :| k in d;
    assert PrunedValue(d[k]);
    match d[k]
    case ScalarV(s) => assert HasLeaf(d, [k], ScalarLeaf(s));
    case SetV(s) =>
      var e :| e in s;
      assert HasLeaf(d, [k], ElemLeaf(e));
    case DictV(sub) =>
      PrunedHasLeaf(sub);
      var path, leaf :| HasLeaf(sub, path, leaf);
      assert ([k] + path)[1..] == path;
      assert HasLeaf(d, [k] + path, leaf);
  }

  ghost predicate SameLeaves(d: Dict, e: Dict) {
    forall path, leaf :: HasLeaf(d, path, leaf) <==> HasLeaf(e, path, leaf)
  }

  lemma SameLeavesSub(d: Dict, e: Dict, k: string)
    requires SameLeaves(d, e) && k in d && k in e && d[k].DictV? && e[k].DictV?
    ensures SameLeaves(d[k].entries, e[k].entries)
  {
    forall path, leaf ensures HasLeaf(d[k].entries, path, leaf) <==> HasLeaf(e[k].entries, path, leaf) {
      var p := [k] + path;
      assert p[1..] == path;
      assert HasLeaf(d, p, leaf) <==> HasLeaf(e, p, leaf);
    }
  }

  /** A leaf below `k` in one dict fixes the kind of the value under `k` in the other. */
  lemma {:induction false} SameLeavesKey(d: Dict, e: Dict, k: string)
    requires Pruned(d) && Pruned(e) && SameLeaves(d, e) && k in d
    ensures k in e && (d[k].DictV? <==> e[k].DictV?) && (d[k].SetV? <==> e[k].SetV?)
  {
    assert PrunedValue(d[k]);
    match d[k]
    case ScalarV(s) => OneKeyLeaf(d, e, k, ScalarLeaf(s));
    case SetV(s) =>
      var x :| x in s;
      OneKeyLeaf(d, e, k, ElemLeaf(x));
    case DictV(sub) =>
      PrunedHasLeaf(sub);
      var path, leaf :| HasLeaf(sub, path, leaf);
      var p := [k] + path;
      assert p[1..] == path;
      assert HasLeaf(d, p, leaf);
      assert HasLeaf(e, p, leaf);
  }

  lemma OneKeyLeaf(d: Dict, e: Dict, k: string, leaf: Leaf)
    requires SameLeaves(d, e) && k in d && !d[k].DictV?
    ensures HasLeaf(d, [k], leaf) ==>
              k in e && match e[k]
                        case ScalarV(s) => leaf == ScalarLeaf(s)
                        case SetV(s) => leaf.ElemLeaf? && leaf.e in s
                        case DictV(_) => false
  {
    assert [k][1..] == [];
    assert HasLeaf(d, [k], leaf) <==> HasLeaf(e, [k], leaf);
  }

  /** The pruned form of a dict is determined by its leaves. */
  lemma {:induction false} PrunedFormUnique(d: Dict, e: Dict)
    requires Pruned(d) && Pruned(e) && SameLeaves(d, e)
    ensures d == e
    decreases DictV(d)
  {
    forall k ensures Lookup(d, k) == Lookup(e, k) {
      if k in d {
        SameLeavesKey(d, e, k);
        match d[k]
        case ScalarV(s) => OneKeyLeaf(d, e, k, ScalarLeaf(s));
        case SetV(s) =>
          forall x ensures x in s <==> x in e[k].elems {
            OneKeyLeaf(d, e, k, ElemLeaf(x));
            OneKeyLeaf(e, d, k, ElemLeaf(x));
          }
          assert s == e[k].elems;
        case DictV(sub) =>
          SameLeavesSub(d, e, k);
          assert PrunedValue(d[k]) && PrunedValue(e[k]);
          PrunedFormUnique(sub, e[k].entries);
      } else if k in e {
        SameLeavesKey(e, d, k);
      }
    }
    DictExtensionality(d, e);
  }

  /** `Prune` yields the only pruned dict with the same leaves; so it is idempotent and changes
      exactly the dicts that are not pruned. */
  lemma PruneIsNormalForm(d: Dict, e: Dict)
    ensures e == Prune(d) <==> Pruned(e) && SameLeaves(d, e)
    ensures Prune(Prune(d)) == Prune(d)
    ensures Prune(d) == d <==> Pruned(d)
  {
    PruneEstablishesPruned(d);
    forall path, leaf ensures HasLeaf(Prune(d), path, leaf) <==> HasLeaf(d, path, leaf) {
      PruneKeepsLeaves(d, path, leaf);
    }
    if Pruned(e) && SameLeaves(d, e) {
      PrunedFormUnique(e, Prune(d));
    }
    if Pruned(d) {
      PrunedFormUnique(d, Prune(d));
    }
    PruneEstablishesPruned(Prune(d));
    forall path, leaf ensures HasLeaf(Prune(Prune(d)), path, leaf) <==> HasLeaf(Prune(d), path, leaf) {
      PruneKeepsLeaves(Prune(d), path, leaf);
    }
    PrunedFormUnique(Prune(Prune(d)), Prune(d));
  }

  lemma PrunedKey(d: Dict, k: string)
    requires Pruned(d)
    ensures k in d ==> PruneValue(d[k]) == Some(d[k])
  {
    PruneIsNormalForm(d, d);
    PruneLookup(d, k);
  }

  // ----- prune_

  /** The in-place dict traversal: erases the keys whose value must go and tells the caller
      whether the dict is now empty and whether anything below it was erased. */
  method PruneDict(d: Dict) returns (r: Dict, shouldRemove: bool, removedSubkeys: bool)
    ensures r == Prune(d)
    ensures shouldRemove <==> r == map[]
    ensures removedSubkeys <==> !Pruned(d)
    decreases DictV(d), 1
  {
    hide PruneValue, Prune, Pruned, Ascending;
    r, removedSubkeys := d, false;
    var ks := KeysInOrder(d);
    for i := 0 to |ks|
      invariant forall k :: Lookup(r, k) == if k in ks[..i] && k in d then PruneValue(d[k]) else Lookup(d, k)
      invariant removedSubkeys <==> !AllKept(d, ks[..i])
    {
      var k := ks[i];
      PassedKey(ks, i);
      assert Lookup(r, k) == Lookup(d, k);
      var removed;
      r, removed := PruneEntry(r, k, r[k]);
      if removed {
        removedSubkeys := true;
      }
    }
    assert ks[..|ks|] == ks;
    PruneComplete(d, r, ks);
    shouldRemove := r == map[];
  }

  /** One round of the loop: the entry under `k` is pruned, or erased. */
  method PruneEntry(d: Dict, k: string, v: Value) returns (r: Dict, removed: bool)
    requires Lookup(d, k) == Some(v)
    ensures forall j :: Lookup(r, j) == if j == k then PruneValue(v) else Lookup(d, j)
    ensures removed <==> PruneValue(v) != Some(v)
    decreases v, 3
  {
    hide PruneValue;
    var v', rmKey, rmSubkeys := PruneDictValue(v);
    r := if rmKey then d - {k} else d[k := v'];
    removed := rmKey || rmSubkeys;
  }

  ghost predicate AllKept(d: Dict, ks: seq<string>) {
    forall k | k in ks && k in d :: PruneValue(d[k]) == Some(d[k])
  }

  lemma PruneComplete(d: Dict, r: Dict, ks: seq<string>)
    requires forall k :: k in ks <==> k in d
    requires forall k :: Lookup(r, k) == if k in d then PruneValue(d[k]) else Lookup(d, k)
    ensures r == Prune(d) && (AllKept(d, ks) <==> Pruned(d))
  {
    PruneIsNormalForm(d, d);
    forall k ensures Lookup(r, k) == Lookup(Prune(d), k) { PruneLookup(d, k); }
    DictExtensionality(r, Prune(d));
    if AllKept(d, ks) {
      DictExtensionality(r, d);
    } else {
      var k :| k in ks && k in d && PruneValue(d[k]) != Some(d[k]);
      assert Lookup(r, k) != Lookup(d, k);
    }
  }

  /** The visitor over the three kinds; only a dict is edited. */
  method PruneDictValue(v: Value) returns (r: Value, shouldRemove: bool, removedSubkeys: bool)
    ensures shouldRemove <==> PruneValue(v).None?
    ensures !shouldRemove ==> r == PruneValue(v).value
    ensures removedSubkeys || shouldRemove <==> PruneValue(v) != Some(v)
    decreases v, 2
  {
    match v
    case ScalarV(_) => r, shouldRemove, removedSubkeys := v, false, false;
    case SetV(s) => r, shouldRemove, removedSubkeys := v, s == {}, false;
    case DictV(e) =>
      var e';
      e', shouldRemove, removedSubkeys := PruneDict(e);
      r := DictV(e');
      PruneIsNormalForm(e, e);
  }
}
