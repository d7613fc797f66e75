/** Structural diffs between two versions of the config data (`diff_impl`). */
module ConfigDiff {
  import opened Options
  import opened Ordering
  import opened ConfigData
  import opened ConfigTree

  /** What a diff says about one key: a scalar was assigned ("") or deleted ("-"), elements of a
      set came and went, or a dict changed inside.  A set change that was read from elsewhere can hold
      a lone value that is no element; it is found out only when it is applied. */
  datatype Change =
    | Assigned
    | Deleted
    | SetDiff(added: set<Scalar>, removed: set<Scalar>)
    | DictDiff(changes: Diff)
    | BadSet(parts: BadParts)

  datatype BadParts =
    | LoneAdded(a: LoneWire, removed: set<Scalar>)
    | LoneRemoved(added: set<Scalar>, r: LoneWire)
    | BothLone(a: LoneWire, r: LoneWire)

  type Diff = map<string, Change>

  function DiffKeys(diff: Diff): (ks: seq<string>)
    ensures Ascending(ks, KeyLess) && forall k :: k in ks <==> k in diff
  {
    KeyOrder();
    Ascend(diff.Keys, KeyLess)
  }

  method DiffKeysInOrder(diff: Diff) returns (ks: seq<string>)
    ensures Ascending(ks, KeyLess) && forall k :: k in ks <==> k in diff
  {
    ks := DiffKeys(diff);
  }

  /** The diff from `before` to `after` names exactly the keys whose value differs. */
  function DiffDict(before: Dict, after: Dict): Diff
    decreases before != map[], DictV(before), DictV(after), 1
  {
    map k | k in before.Keys + after.Keys && Lookup(before, k) != Lookup(after, k) :: ChangeAt(before, after, k)
  }

  /** The kind of the change is the kind of the new value, or of the removed one.  A container that
      appears, vanishes or replaces a value of another kind is compared with the empty one. */
  function ChangeAt(before: Dict, after: Dict, k: string): Change
    requires k in before.Keys + after.Keys
    decreases before != map[], DictV(before), DictV(after), 0
  {
    match if k in after then after[k] else before[k]
    case ScalarV(_) => if k in after then Assigned else Deleted
    case SetV(_) => SetDiff(SetAt(after, k) - SetAt(before, k), SetAt(before, k) - SetAt(after, k))
    case DictV(_) => DictDiff(DiffDict(DictAt(before, k), DictAt(after, k)))
  }

  lemma DiffLookup(a: Dict, b: Dict, k: string)
    ensures k in DiffDict(a, b) <==> Lookup(a, k) != Lookup(b, k)
    ensures k in DiffDict(a, b) ==> k in a.Keys + b.Keys && DiffDict(a, b)[k] == ChangeAt(a, b, k)
  {
  }

  lemma DiffEmptyIffEqual(a: Dict, b: Dict)
    ensures DiffDict(a, b) == map[] <==> a == b
  {
    if DiffDict(a, b) == map[] {
      forall k ensures Lookup(a, k) == Lookup(b, k) { DiffLookup(a, b, k); }
      DictExtensionality(a, b);
    }
  }

  /** Removing a container records what emptying it records: each thing that was in it. */
  lemma RemovedAsEmptied(a: Dict, k: string)
    requires k in a && !a[k].ScalarV?
    ensures a[k].DictV? && a[k].entries != map[] ==> DiffDict(a, a - {k}) == DiffDict(a, a[k := DictV(map[])])
    ensures a[k].SetV? && a[k].elems != {} ==> DiffDict(a, a - {k}) == DiffDict(a, a[k := SetV({})])
  {
    var gone, empty := a - {k}, a[k := if a[k].DictV? then DictV(map[]) else SetV({})];
    if empty[k] != a[k] {
      var d, e := DiffDict(a, gone), DiffDict(a, empty);
      forall j ensures j in d <==> j in e ensures j in d ==> d[j] == e[j] {
        DiffLookup(a, gone, j);
        DiffLookup(a, empty, j);
      }
    }
  }

  // ----- diff_impl on sets

  method ElementsInOrder(s: set<Scalar>) returns (es: seq<Scalar>)
    ensures Ascending(es, ScalarLess) && forall e :: e in es <==> e in s
  {
    es := Elements(s);
  }

  /** Two cursors over the ascending elements; nothing is returned exactly for equal sets. */
  method DiffSets(before: set<Scalar>, after: set<Scalar>) returns (r: Option<Change>)
    ensures r.None? <==> before == after
    ensures r.Some? ==> r.value == SetDiff(after - before, before - after)
  {
    var added, removed: set<Scalar> := {}, {};
    var xs := ElementsInOrder(before);
    var ys := ElementsInOrder(after);
    var i, j := 0, 0;
    ScalarOrder();
    while i < |xs| || j < |ys|
      invariant i <= |xs| && j <= |ys| && InStep(xs, i, ys, j)
      invariant forall e :: e in added <==> e in ys[..j] && e !in before
      invariant forall e :: e in removed <==> e in xs[..i] && e !in after
      decreases |xs| - i + |ys| - j
    {
      if i == |xs| || (j < |ys| && ScalarLess(ys[j], xs[i])) {
        StepLeft(ys, j, xs, i, ScalarLess);
        added := added + {ys[j]};
        j := j + 1;
      } else if j == |ys| || ScalarLess(xs[i], ys[j]) {
        StepLeft(xs, i, ys, j, ScalarLess);
        removed := removed + {xs[i]};
        i := i + 1;
      } else {
        StepBoth(xs, i, ys, j, ScalarLess);
        i, j := i + 1, j + 1;
      }
    }
    assert xs[..|xs|] == xs && ys[..|ys|] == ys;
    assert added == after - before && removed == before - after;
    if added == {} && removed == {} {
      assert before == after;
      return None;
    }
    return Some(SetDiff(added, removed));
  }

  // ----- diff_impl on dicts

  lemma StepLeftKey(xs: seq<string>, i: nat, ys: seq<string>, j: nat)
    requires Ascending(xs, KeyLess) && Ascending(ys, KeyLess)
    requires i < |xs| && j <= |ys| && InStep(xs, i, ys, j)
    requires j == |ys| || KeyLess(xs[i], ys[j])
    ensures xs[i] in xs && xs[i] !in xs[..i] && xs[i] !in ys
    ensures forall x :: x in xs[..i + 1] <==> x in xs[..i] || x == xs[i]
    ensures InStep(xs, i + 1, ys, j)
  {
    KeyOrder();
    StepLeft(xs, i, ys, j, KeyLess);
  }

  lemma StepBothKey(xs: seq<string>, i: nat, ys: seq<string>, j: nat)
    requires Ascending(xs, KeyLess) && Ascending(ys, KeyLess)
    requires i < |xs| && j < |ys| && InStep(xs, i, ys, j)
    requires !KeyLess(xs[i], ys[j]) && !KeyLess(ys[j], xs[i])
    ensures xs[i] == ys[j] && xs[i] in xs && xs[i] in ys && xs[i] !in xs[..i] && xs[i] !in ys[..j]
    ensures forall x :: x in xs[..i + 1] <==> x in xs[..i] || x == xs[i]
    ensures forall y :: y in ys[..j + 1] <==> y in ys[..j] || y == ys[j]
    ensures InStep(xs, i + 1, ys, j + 1)
  {
    KeyOrder();
    StepBoth(xs, i, ys, j, KeyLess);
  }

  /** The two-cursor walk over the ascending keys.  The entries recorded for added, removed and
      retyped containers are dereferenced unconditionally; on pruned dicts they always exist. */
  method DiffDicts(before: Dict, after: Dict) returns (r: Option<Diff>)
    requires Pruned(before) && Pruned(after)
    ensures r.None? <==> before == after
    ensures r.Some? ==> r.value == DiffDict(before, after)
    decreases before != map[], DictV(before), DictV(after), 1
  {
    hide KeyLess, ChangeAt, DiffDict, Pruned;
    var df: Diff := map[];
    var xs := KeysInOrder(before);
    var ys := KeysInOrder(after);
    var i, j := 0, 0;
    while i < |xs| || j < |ys|
      invariant i <= |xs| && j <= |ys| && InStep(xs, i, ys, j)
      invariant forall k :: k in df <==> (k in xs[..i] || k in ys[..j]) && Lookup(before, k) != Lookup(after, k)
      invariant forall k :: k in df ==> df[k] == ChangeAt(before, after, k)
      decreases |xs| - i + |ys| - j
    {
      if i == |xs| || (j < |ys| && KeyLess(ys[j], xs[i])) {
        StepLeftKey(ys, j, xs, i);
        var c := ChangeOfNew(before, after, ys[j]);
        df := df[ys[j] := c];
        j := j + 1;
      } else if j == |ys| || KeyLess(xs[i], ys[j]) {
        StepLeftKey(xs, i, ys, j);
        var c := ChangeOfRemoved(before, after, xs[i]);
        df := df[xs[i] := c];
        i := i + 1;
      } else {
        StepBothKey(xs, i, ys, j);
        var k := ys[j];
        if SameIndex(before[k], after[k]) {
          var c := ChangeOfKept(before, after, k);
          if c.Some? {
            df := df[k := c.value];
          }
        } else {
          var c := ChangeOfNew(before, after, k);
          df := df[k := c];
        }
        i, j := i + 1, j + 1;
      }
    }
    assert xs[..|xs|] == xs && ys[..|ys|] == ys;
    DiffComplete(before, after, df);
    if df == map[] {
      return None;
    }
    return Some(df);
  }

  lemma DiffComplete(before: Dict, after: Dict, df: Diff)
    requires forall k :: k in df <==> (k in before || k in after) && Lookup(before, k) != Lookup(after, k)
    requires forall k :: k in df ==> df[k] == ChangeAt(before, after, k)
    ensures df == DiffDict(before, after)
    ensures df == map[] <==> before == after
  {
    forall k ensures k in df <==> k in DiffDict(before, after) { DiffLookup(before, after, k); }
    forall k | k in df ensures df[k] == DiffDict(before, after)[k] { DiffLookup(before, after, k); }
    DiffEmptyIffEqual(before, after);
  }

  predicate SameIndex(v: Value, w: Value) {
    (v.ScalarV? <==> w.ScalarV?) && (v.SetV? <==> w.SetV?)
  }

  /** A key that is new, or whose kind changed. */
  method ChangeOfNew(before: Dict, after: Dict, k: string) returns (c: Change)
    requires Pruned(before) && Pruned(after)
    requires k in after && (k in before ==> !SameIndex(before[k], after[k]))
    ensures c == ChangeAt(before, after, k)
    decreases before != map[], DictV(before), DictV(after), 0
  {
    assert PrunedValue(after[k]);
    match after[k]
    case ScalarV(_) => c := Assigned;
    case SetV(s) =>
      var r := DiffSets({}, s);
      c := r.value;
    case DictV(d) =>
      var r := DiffDicts(map[], d);
      c := DictDiff(r.value);
  }

  method ChangeOfRemoved(before: Dict, after: Dict, k: string) returns (c: Change)
    requires Pruned(before) && Pruned(after)
    requires k in before && k !in after
    ensures c == ChangeAt(before, after, k)
    decreases before != map[], DictV(before), DictV(after), 0
  {
    assert PrunedValue(before[k]);
    match before[k]
    case ScalarV(_) => c := Deleted;
    case SetV(s) =>
      var r := DiffSets(s, {});
      c := r.value;
    case DictV(d) =>
      var r := DiffDicts(d, map[]);
      c := DictDiff(r.value);
  }

  /** A key present on both sides with the same kind of value. */
  method ChangeOfKept(before: Dict, after: Dict, k: string) returns (c: Option<Change>)
    requires Pruned(before) && Pruned(after)
    requires k in before && k in after && SameIndex(before[k], after[k])
    ensures c.None? <==> before[k] == after[k]
    ensures c.Some? ==> c.value == ChangeAt(before, after, k)
    decreases before != map[], DictV(before), DictV(after), 0
  {
    assert PrunedValue(before[k]) && PrunedValue(after[k]);
    match after[k]
    case ScalarV(_) => c := if before[k] != after[k] then Some(Assigned) else None;
    case SetV(s) => c := DiffSets(before[k].elems, s);
    case DictV(d) =>
      var r := DiffDicts(before[k].entries, d);
      c := if r.Some? then Some(DictDiff(r.value)) else None;
  }
}
