/** Two edited versions `c1` and `c2` of one base `b`, merged by replaying `c2`'s diff and then
    `c1`'s (`c1` is the one with the greater hash).  The replay is compared with the three-way
    merge of the two edits. */
module ConfigFork {
  import opened Options
  import opened ConfigData
  import opened ConfigDiff
  import opened ConfigApply

  /** The two diffs touch no scalar and no set element in common; they may meet in dicts and sets. */
  ghost predicate Disjoint(e: Diff, f: Diff)
    decreases DictDiff(e)
  {
    forall k | k in e && k in f :: DisjointChange(e[k], f[k])
  }

  ghost predicate DisjointChange(c: Change, d: Change)
    decreases c, 0
  {
    match (c, d)
    case (SetDiff(a, r), SetDiff(a', r')) => (a + r) !! (a' + r')
    case (DictDiff(e), DictDiff(f)) => forall k | k in e && k in f :: DisjointChange(e[k], f[k])
    case _ => false
  }

  /** The three-way merge: each change is taken from the version that made it, and containers left
      empty by both together are dropped. */
  ghost function Merge3(b: Dict, c1: Dict, c2: Dict): Dict
    decreases b != map[], DictV(b), DictV(c1), 1
  {
    map k | k in b.Keys + c1.Keys + c2.Keys && Merge3At(b, c1, c2, k).Some? :: Merge3At(b, c1, c2, k).value
  }

  ghost function Merge3At(b: Dict, c1: Dict, c2: Dict, k: string): Option<Value>
    decreases b != map[], DictV(b), DictV(c1), 0
  {
    if Lookup(c1, k) == Lookup(b, k) then Lookup(c2, k)
    else if Lookup(c2, k) == Lookup(b, k) then Lookup(c1, k)
    else match (ChangeAt(b, c1, k), ChangeAt(b, c2, k))
      case (SetDiff(a1, r1), SetDiff(a2, r2)) =>
        var s := SetAt(b, k) - r1 - r2 + a1 + a2;
        if s == {} then None else Some(SetV(s))
      case (DictDiff(_), DictDiff(_)) =>
        var d := Merge3(DictAt(b, k), DictAt(c1, k), DictAt(c2, k));
        if d == map[] then None else Some(DictV(d))
      case _ => Lookup(c1, k)
  }

  lemma Merge3Lookup(b: Dict, c1: Dict, c2: Dict, k: string)
    ensures Lookup(Merge3(b, c1, c2), k) == Merge3At(b, c1, c2, k)
  {
  }

  /** Every dict or set that both edits changed still exists in `c1`. */
  ghost predicate KeepsShared(b: Dict, c1: Dict, c2: Dict)
    decreases b != map[], DictV(b), DictV(c1), 1
  {
    forall k :: KeyKept(b, c1, c2, k)
  }

  ghost predicate KeyKept(b: Dict, c1: Dict, c2: Dict, k: string)
    decreases b != map[], DictV(b), DictV(c1), 0
  {
    Lookup(b, k) != Lookup(c1, k) && Lookup(b, k) != Lookup(c2, k) ==>
      && k in c1
      && (c1[k].DictV? ==> KeepsShared(DictAt(b, k), c1[k].entries, DictAt(c2, k)))
  }

  /** The replay of the two diffs onto `x`, the lesser first. */
  ghost function ForkReplay(x: Dict, b: Dict, c1: Dict, c2: Dict): Dict {
    Apply(Apply(x, DiffDict(b, c2), c2), DiffDict(b, c1), c1)
  }

  // ----- key by key

  /** Only `c2` changed `k`, or neither did. */
  lemma OnlyLesser(x: Dict, b: Dict, c1: Dict, c2: Dict, k: string)
    requires Agrees(x, b, c1) && Pruned(c1) && Pruned(c2)
    requires Lookup(b, k) == Lookup(c1, k)
    ensures Lookup(ForkReplay(x, b, c1, c2), k) == Lookup(c2, k)
  {
    var e1, e2 := DiffDict(b, c1), DiffDict(b, c2);
    var y := Apply(x, e2, c2);
    AgreesSameKey(x, b, c1, k);
    ApplyLookup(x, e2, c2, k);
    ApplyLookup(b, e2, c2, k);
    ApplyLookup(y, e1, c1, k);
    DiffLookup(b, c1, k);
    DiffLookup(b, c2, k);
    RoundTrip(b, c2);
    if k in e2 {
      ApplyAtLocal(x, b, k, e2[k], c2);
    }
  }

  /** Only `c1` changed `k`. */
  lemma OnlyGreater(x: Dict, b: Dict, c1: Dict, c2: Dict, k: string)
    requires Agrees(x, b, c1) && Pruned(c1) && Pruned(c2)
    requires Lookup(b, k) != Lookup(c1, k) && Lookup(b, k) == Lookup(c2, k)
    ensures Lookup(ForkReplay(x, b, c1, c2), k) == Lookup(c1, k)
  {
    var e1, e2 := DiffDict(b, c1), DiffDict(b, c2);
    var y := Apply(x, e2, c2);
    ApplyLookup(x, e2, c2, k);
    ApplyLookup(x, e1, c1, k);
    ApplyLookup(y, e1, c1, k);
    DiffLookup(b, c1, k);
    DiffLookup(b, c2, k);
    AgreesStep(x, b, c1, c1);
    AgreesEnd(Apply(x, e1, c1), c1);
    ApplyAtLocal(x, y, k, e1[k], c1);
  }

  /** When one edit empties a dict the other one can only have added to it, and the three-way merge
      keeps what it added. */
  lemma {:induction false} MergeKeepsAdditions(b: Dict, c2: Dict)
    requires Pruned(b) && Pruned(c2) && b != c2
    requires Disjoint(DiffDict(b, map[]), DiffDict(b, c2))
    ensures Merge3(b, map[], c2) != map[]
    decreases DictV(b), 1
  {
    var k := DifferingKey(b, c2);
    DiffLookup(b, map[], k);
    DiffLookup(b, c2, k);
    Merge3Lookup(b, map[], c2, k);
    if k in b {
      SharedContainerKept(b, map[], c2, k);
    }
  }

  lemma DifferingKey(d: Dict, e: Dict) returns (k: string)
    requires d != e
    ensures Lookup(d, k) != Lookup(e, k)
  {
    DiffEmptyIffEqual(d, e);
    k :| k in DiffDict(d, e);
    DiffLookup(d, e, k);
  }

  lemma SharedContainerKept(b: Dict, c1: Dict, c2: Dict, k: string)
    requires Pruned(b) && Pruned(c2) && k in b && k !in c1 && Lookup(b, k) != Lookup(c2, k)
    requires k in DiffDict(b, c1) && k in DiffDict(b, c2)
    requires DisjointChange(DiffDict(b, c1)[k], DiffDict(b, c2)[k])
    ensures Merge3At(b, c1, c2, k).Some?
    decreases DictV(b), 0
  {
    hide DiffDict, Merge3;
    DiffLookup(b, c1, k);
    DiffLookup(b, c2, k);
    assert PrunedValue(b[k]);
    match b[k]
    case ScalarV(_) =>
    case SetV(s) =>
      var s2 := SetAt(c2, k);
      assert s - s2 == {} by {
        assert DiffDict(b, c1)[k] == SetDiff({} - s, s - {});
        assert s - {} == s;
      }
      forall e | e in s ensures e in s2 { assert e !in s - s2; }
      assert s != s2;
      assert s < s2;
      var e :| e in s2 - s;
      assert e in s - s - (s - s2) + ({} - s) + (s2 - s);
    case DictV(d) =>
      MergeKeepsAdditions(d, DictAt(c2, k));
  }

  /** Both edits changed the set under `k`. */
  lemma SharedSet(x: Dict, b: Dict, c1: Dict, c2: Dict, k: string)
    requires Agrees(x, b, c1) && k in c1 && c1[k].SetV?
    requires k in DiffDict(b, c1) && k in DiffDict(b, c2)
    requires DisjointChange(DiffDict(b, c1)[k], DiffDict(b, c2)[k])
    ensures Lookup(Prune(ForkReplay(x, b, c1, c2)), k) == Merge3At(b, c1, c2, k)
  {
    hide DiffDict, Apply, Prune;
    var e1, e2 := DiffDict(b, c1), DiffDict(b, c2);
    var y := Apply(x, e2, c2);
    var z := Apply(y, e1, c1);
    ApplyLookup(x, e2, c2, k);
    ApplyLookup(y, e1, c1, k);
    DiffLookup(b, c1, k);
    DiffLookup(b, c2, k);
    PruneLookup(z, k);
    assert AgreesAt(x, b, c1, k);
    var a1, r1, a2, r2 := e1[k].added, e1[k].removed, e2[k].added, e2[k].removed;
    assert SetAt(z, k) == SetAt(y, k) + a1 - r1;
    assert SetAt(z, k) == SetAt(b, k) - r1 - r2 + a1 + a2 by {
      forall e ensures e in SetAt(y, k) + a1 - r1 <==> e in SetAt(b, k) - r1 - r2 + a1 + a2 {
        if e !in a1 + r1 {
          assert e in SetAt(b, k) <==> e in c1[k].elems;
          assert e in SetAt(x, k) <==> e in SetAt(b, k);
        }
      }
    }
  }

  /** Both edits changed the dict under `k`: the replay goes on inside it. */
  lemma SharedDictReplay(x: Dict, b: Dict, c1: Dict, c2: Dict, k: string) returns (xd: Dict)
    requires Agrees(x, b, c1) && k in c1 && c1[k].DictV?
    requires Lookup(b, k) != Lookup(c1, k) && Lookup(b, k) != Lookup(c2, k)
    requires DiffDict(b, c2)[k].DictDiff?
    ensures Agrees(xd, DictAt(b, k), c1[k].entries)
    ensures Lookup(ForkReplay(x, b, c1, c2), k) ==
            Some(DictV(ForkReplay(xd, DictAt(b, k), c1[k].entries, DictAt(c2, k))))
  {
    hide DiffDict, Apply;
    var e1, e2 := DiffDict(b, c1), DiffDict(b, c2);
    var y := Apply(x, e2, c2);
    ApplyLookup(x, e2, c2, k);
    ApplyLookup(y, e1, c1, k);
    DiffLookup(b, c1, k);
    DiffLookup(b, c2, k);
    assert AgreesAt(x, b, c1, k);
    if k in c2 {
      xd := DictAt(x, k);
    } else {
      xd := DictAt(b, k);
      AgreesStart(xd, c1[k].entries);
      RoundTrip(xd, map[]);
    }
  }

  lemma SharedDictMerge(b: Dict, c1: Dict, c2: Dict, k: string)
    requires k in c1 && c1[k].DictV?
    requires Lookup(b, k) != Lookup(c1, k) && Lookup(b, k) != Lookup(c2, k)
    requires DisjointChange(DiffDict(b, c1)[k], DiffDict(b, c2)[k])
    ensures DiffDict(b, c2)[k].DictDiff?
    ensures Disjoint(DiffDict(DictAt(b, k), c1[k].entries), DiffDict(DictAt(b, k), DictAt(c2, k)))
    ensures var d := Merge3(DictAt(b, k), c1[k].entries, DictAt(c2, k));
            Merge3At(b, c1, c2, k) == if d == map[] then None else Some(DictV(d))
  {
    hide DiffDict, Merge3;
    DiffLookup(b, c1, k);
    DiffLookup(b, c2, k);
  }

  lemma {:induction false} SharedDict(x: Dict, b: Dict, c1: Dict, c2: Dict, k: string)
    requires Agrees(x, b, c1) && k in c1 && c1[k].DictV? && Pruned(b) && Pruned(c1) && Pruned(c2)
    requires Lookup(b, k) != Lookup(c1, k) && Lookup(b, k) != Lookup(c2, k)
    requires DisjointChange(DiffDict(b, c1)[k], DiffDict(b, c2)[k])
    ensures Lookup(Prune(ForkReplay(x, b, c1, c2)), k) == Merge3At(b, c1, c2, k) <==>
            KeepsShared(DictAt(b, k), c1[k].entries, DictAt(c2, k))
    decreases b != map[], DictV(b), DictV(c1), 0
  {
    hide Merge3, Merge3At, Prune, ForkReplay, KeepsShared, DiffDict, Agrees, Disjoint;
    SharedDictMerge(b, c1, c2, k);
    PrunedSub(b, k);
    PrunedSub(c1, k);
    PrunedSub(c2, k);
    var xd := SharedDictReplay(x, b, c1, c2, k);
    ForkReplayExact(xd, DictAt(b, k), c1[k].entries, DictAt(c2, k));
    PruneLookup(ForkReplay(x, b, c1, c2), k);
  }

  lemma {:induction false} ForkReplayKey(x: Dict, b: Dict, c1: Dict, c2: Dict, k: string)
    requires Agrees(x, b, c1) && Pruned(b) && Pruned(c1) && Pruned(c2)
    requires Disjoint(DiffDict(b, c1), DiffDict(b, c2))
    ensures Lookup(Prune(ForkReplay(x, b, c1, c2)), k) == Merge3At(b, c1, c2, k) <==> KeyKept(b, c1, c2, k)
    decreases b != map[], DictV(b), DictV(c1), 1
  {
    DiffLookup(b, c1, k);
    DiffLookup(b, c2, k);
    var z := ForkReplay(x, b, c1, c2);
    PruneLookup(z, k);
    if Lookup(b, k) == Lookup(c1, k) {
      OnlyLesser(x, b, c1, c2, k);
      PrunedKey(c2, k);
    } else if Lookup(b, k) == Lookup(c2, k) {
      OnlyGreater(x, b, c1, c2, k);
      PrunedKey(c1, k);
    } else if k !in c1 {
      SharedContainerKept(b, c1, c2, k);
      ApplyLookup(Apply(x, DiffDict(b, c2), c2), DiffDict(b, c1), c1, k);
    } else if c1[k].SetV? {
      SharedSet(x, b, c1, c2, k);
    } else if c1[k].DictV? {
      SharedDict(x, b, c1, c2, k);
    }
  }

  /** The replay yields the three-way merge of disjoint edits exactly when `c1` keeps every container
      that both changed.  (If `c1` dropped one, replaying `c1` erases what `c2` put there.) */
  lemma {:induction false} ForkReplayExact(x: Dict, b: Dict, c1: Dict, c2: Dict)
    requires Agrees(x, b, c1) && Pruned(b) && Pruned(c1) && Pruned(c2)
    requires Disjoint(DiffDict(b, c1), DiffDict(b, c2))
    ensures Prune(ForkReplay(x, b, c1, c2)) == Merge3(b, c1, c2) <==> KeepsShared(b, c1, c2)
    decreases b != map[], DictV(b), DictV(c1), 2
  {
    hide Prune, ForkReplay, Merge3, KeyKept, Agrees, Pruned, Disjoint, DiffDict, Merge3At;
    var z, m := Prune(ForkReplay(x, b, c1, c2)), Merge3(b, c1, c2);
    forall k ensures (Lookup(z, k) == Lookup(m, k)) <==> KeyKept(b, c1, c2, k) {
      ForkReplayKey(x, b, c1, c2, k);
      Merge3Lookup(b, c1, c2, k);
    }
    if KeepsShared(b, c1, c2) {
      DictExtensionality(z, m);
    }
  }

  // ----- what the three-way merge is

  /** What two edits of a base make of one leaf: whichever changed it wins. */
  predicate ThreeWay(base: bool, first: bool, second: bool) {
    if first == base then second else first
  }

  /** Leaves below a key depend on nothing else in the dict. */
  lemma LeafLocal(d: Dict, e: Dict, path: seq<string>, leaf: Leaf)
    requires path != [] ==> Lookup(d, path[0]) == Lookup(e, path[0])
    ensures HasLeaf(d, path, leaf) <==> HasLeaf(e, path, leaf)
  {
    if path != [] {
      var k := path[0];
      assert k in d <==> k in e;
    }
  }

  lemma SetLeaf(d: Dict, k: string, path: seq<string>, leaf: Leaf)
    requires path != [] && path[0] == k && (k in d ==> d[k].SetV?)
    ensures HasLeaf(d, path, leaf) <==> |path| == 1 && leaf.ElemLeaf? && leaf.e in SetAt(d, k)
  {
  }

  lemma DictLeaf(d: Dict, k: string, path: seq<string>, leaf: Leaf)
    requires path != [] && path[0] == k && (k in d ==> d[k].DictV?)
    ensures HasLeaf(d, path, leaf) <==> HasLeaf(DictAt(d, k), path[1..], leaf)
  {
  }

  lemma NotSetLeaf(d: Dict, k: string, path: seq<string>, leaf: Leaf)
    requires path != [] && path[0] == k && k in d && !d[k].SetV?
    ensures |path| == 1 && leaf.ElemLeaf? ==> !HasLeaf(d, path, leaf)
  {
    assert |path| == 1 ==> path[1..] == [];
  }

  lemma NotDictLeaf(d: Dict, k: string, path: seq<string>, leaf: Leaf)
    requires path != [] && path[0] == k && k in d && !d[k].DictV?
    ensures |path| > 1 ==> !HasLeaf(d, path, leaf)
    ensures !HasLeaf(DictAt(d, k), path[1..], leaf)
  {
  }

  /** In the merge of two disjoint edits each leaf is as in the edit that changed it, and as in the
      base when neither did. */
  lemma {:induction false} Merge3Leaves(b: Dict, c1: Dict, c2: Dict, path: seq<string>, leaf: Leaf)
    requires Disjoint(DiffDict(b, c1), DiffDict(b, c2))
    ensures HasLeaf(Merge3(b, c1, c2), path, leaf) <==>
            ThreeWay(HasLeaf(b, path, leaf), HasLeaf(c1, path, leaf), HasLeaf(c2, path, leaf))
    decreases |path|
  {
    if path != [] {
      var k, m := path[0], Merge3(b, c1, c2);
      Merge3Lookup(b, c1, c2, k);
      DiffLookup(b, c1, k);
      DiffLookup(b, c2, k);
      if Lookup(b, k) == Lookup(c1, k) {
        LeafLocal(b, c1, path, leaf);
        LeafLocal(m, c2, path, leaf);
      } else if Lookup(b, k) == Lookup(c2, k) {
        LeafLocal(b, c2, path, leaf);
        LeafLocal(m, c1, path, leaf);
      } else {
        assert DisjointChange(DiffDict(b, c1)[k], DiffDict(b, c2)[k]);
        SharedLeaves(b, c1, c2, path, leaf);
      }
    }
  }

  lemma {:induction false} SharedLeaves(b: Dict, c1: Dict, c2: Dict, path: seq<string>, leaf: Leaf)
    requires path != [] && Lookup(b, path[0]) != Lookup(c1, path[0]) && Lookup(b, path[0]) != Lookup(c2, path[0])
    requires Lookup(Merge3(b, c1, c2), path[0]) == Merge3At(b, c1, c2, path[0])
    requires DisjointChange(ChangeAt(b, c1, path[0]), ChangeAt(b, c2, path[0]))
    ensures HasLeaf(Merge3(b, c1, c2), path, leaf) <==>
            ThreeWay(HasLeaf(b, path, leaf), HasLeaf(c1, path, leaf), HasLeaf(c2, path, leaf))
    decreases |path|, 0
  {
    hide DiffDict, Merge3;
    var k, m := path[0], Merge3(b, c1, c2);
    if ChangeAt(b, c1, k).SetDiff? {
      SetLeaf(c1, k, path, leaf);
      SetLeaf(c2, k, path, leaf);
      SetLeaf(m, k, path, leaf);
      if k in b && !b[k].SetV? { NotSetLeaf(b, k, path, leaf); } else { SetLeaf(b, k, path, leaf); }
    } else {
      DictLeaf(c1, k, path, leaf);
      DictLeaf(c2, k, path, leaf);
      DictLeaf(m, k, path, leaf);
      if k in b && !b[k].DictV? { NotDictLeaf(b, k, path, leaf); } else { DictLeaf(b, k, path, leaf); }
      Merge3Leaves(DictAt(b, k), DictAt(c1, k), DictAt(c2, k), path[1..], leaf);
    }
  }

  lemma {:induction false} Merge3Pruned(b: Dict, c1: Dict, c2: Dict)
    requires Pruned(c1) && Pruned(c2)
    ensures Pruned(Merge3(b, c1, c2))
    decreases b != map[], DictV(b), DictV(c1)
  {
    forall k | k in Merge3(b, c1, c2) ensures PrunedValue(Merge3(b, c1, c2)[k]) {
      Merge3Lookup(b, c1, c2, k);
      if k in c1 { assert PrunedValue(c1[k]); }
      if k in c2 { assert PrunedValue(c2[k]); }
      if Lookup(b, k) != Lookup(c1, k) && Lookup(b, k) != Lookup(c2, k)
         && ChangeAt(b, c1, k).DictDiff? && ChangeAt(b, c2, k).DictDiff? {
        PrunedSub(c1, k);
        PrunedSub(c2, k);
        Merge3Pruned(DictAt(b, k), DictAt(c1, k), DictAt(c2, k));
      }
    }
  }

  /** Each leaf of `m` is as in the edit that changed it, and as in the base when neither did. */
  ghost predicate NoUpdateLost(m: Dict, b: Dict, c1: Dict, c2: Dict) {
    forall path, leaf :: HasLeaf(m, path, leaf) <==>
      ThreeWay(HasLeaf(b, path, leaf), HasLeaf(c1, path, leaf), HasLeaf(c2, path, leaf))
  }

  lemma Merge3LosesNothing(m: Dict, b: Dict, c1: Dict, c2: Dict)
    requires Pruned(m) && Pruned(c1) && Pruned(c2) && Disjoint(DiffDict(b, c1), DiffDict(b, c2))
    ensures NoUpdateLost(m, b, c1, c2) <==> m == Merge3(b, c1, c2)
  {
    var t := Merge3(b, c1, c2);
    hide Merge3, Disjoint, DiffDict;
    forall path, leaf ensures HasLeaf(t, path, leaf) <==>
      ThreeWay(HasLeaf(b, path, leaf), HasLeaf(c1, path, leaf), HasLeaf(c2, path, leaf))
    {
      Merge3Leaves(b, c1, c2, path, leaf);
    }
    if NoUpdateLost(m, b, c1, c2) {
      Merge3Pruned(b, c1, c2);
      assert SameLeaves(m, t) by {
        forall path, leaf ensures HasLeaf(m, path, leaf) <==> HasLeaf(t, path, leaf) {}
      }
      PrunedFormUnique(m, t);
    }
  }

  /** Merging disjoint edits loses no update exactly when the version with the greater hash keeps
      every container that both edits changed. */
  lemma NoLostUpdateExactly(x: Dict, b: Dict, c1: Dict, c2: Dict)
    requires Agrees(x, b, c1) && Pruned(b) && Pruned(c1) && Pruned(c2)
    requires Disjoint(DiffDict(b, c1), DiffDict(b, c2))
    ensures NoUpdateLost(Prune(ForkReplay(x, b, c1, c2)), b, c1, c2) <==> KeepsShared(b, c1, c2)
  {
    hide NoUpdateLost, KeepsShared, ForkReplay, Prune, Merge3, Agrees, Disjoint, DiffDict;
    PruneEstablishesPruned(ForkReplay(x, b, c1, c2));
    Merge3LosesNothing(Prune(ForkReplay(x, b, c1, c2)), b, c1, c2);
    ForkReplayExact(x, b, c1, c2);
  }

  /** Edits of different top-level keys never lose anything, whichever hash is greater. */
  lemma SeparateKeysKept(b: Dict, c1: Dict, c2: Dict)
    requires DiffDict(b, c1).Keys !! DiffDict(b, c2).Keys
    ensures Disjoint(DiffDict(b, c1), DiffDict(b, c2)) && Disjoint(DiffDict(b, c2), DiffDict(b, c1))
    ensures KeepsShared(b, c1, c2) && KeepsShared(b, c2, c1)
  {
    forall k ensures Lookup(b, k) == Lookup(c1, k) || Lookup(b, k) == Lookup(c2, k) {
      DiffLookup(b, c1, k);
      DiffLookup(b, c2, k);
      assert !(k in DiffDict(b, c1) && k in DiffDict(b, c2));
    }
    forall k ensures KeyKept(b, c1, c2, k) && KeyKept(b, c2, c1, k) {}
  }

  /** An update does get lost: one device empties a set while another adds to it.  The element added
      is gone when the emptying message has the greater hash. */
  lemma LostUpdate(b: Dict, c1: Dict, c2: Dict)
    requires b == map["s" := SetV({Int(1)})] && c1 == map[] && c2 == map["s" := SetV({Int(1), Int(2)})]
    ensures Disjoint(DiffDict(b, c1), DiffDict(b, c2)) && !KeepsShared(b, c1, c2) && KeepsShared(b, c2, c1)
    ensures HasLeaf(c2, ["s"], ElemLeaf(Int(2))) && !HasLeaf(Prune(ForkReplay(c1, b, c1, c2)), ["s"], ElemLeaf(Int(2)))
  {
    DiffLookup(b, c1, "s");
    DiffLookup(b, c2, "s");
    var added, removed := SetAt(c2, "s") - SetAt(b, "s"), SetAt(b, "s") - SetAt(c2, "s");
    assert added == {Int(2)} && removed == {};
    assert DiffDict(b, c2)["s"] == SetDiff({Int(2)}, {});
    assert DiffDict(b, c1)["s"] == SetDiff({}, {Int(1)});
    assert !KeyKept(b, c1, c2, "s");
    forall k ensures KeyKept(b, c2, c1, k) {}
    var y := Apply(c1, DiffDict(b, c2), c2);
    ApplyLookup(y, DiffDict(b, c1), c1, "s");
    PruneLookup(ForkReplay(c1, b, c1, c2), "s");
  }
}
