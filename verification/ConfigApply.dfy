/** Replaying diffs onto config data (`apply_diff`), and what a whole replay leaves. */
module ConfigApply {
  import opened Options
  import opened ConfigData
  import opened ConfigDiff

  predicate SameKind(c: Change, v: Value) {
    match c
    case Assigned => v.ScalarV?
    case Deleted => v.ScalarV?
    case SetDiff(_, _) => v.SetV?
    case DictDiff(_) => v.DictV?
    case BadSet(_) => v.SetV?
  }

  /** `data` with `diff` replayed onto it; values of assigned scalars come from `source`. */
  function Apply(data: Dict, diff: Diff, source: Dict): Dict
    decreases DictDiff(diff), 0
  {
    map k | k in data.Keys + diff.Keys && (k in diff ==> ApplyAt(data, k, diff[k], source).Some?) ::
      if k in diff then ApplyAt(data, k, diff[k], source).value else data[k]
  }

  /** The value left under `k`.  When the source no longer holds a value of the kind the change
      speaks of, the key is erased: a later diff removes it or changes its kind. */
  function ApplyAt(data: Dict, k: string, c: Change, source: Dict): Option<Value>
    decreases c, 1
  {
    if k !in source || !SameKind(c, source[k]) then None
    else match c
      case Assigned => Some(source[k])
      case Deleted => None
      case SetDiff(added, removed) => Some(SetV(SetAt(data, k) + added - removed))
      case DictDiff(sub) => Some(DictV(Apply(DictAt(data, k), sub, source[k].entries)))
      case BadSet(_) => None
  }

  /** Applying the diff fails: it gets to a malformed set change whose source does have a set there. */
  predicate Throws(diff: Diff, source: Dict)
    decreases DictDiff(diff), 0
  {
    exists k :: k in diff && ThrowsAt(diff[k], k, source)
  }

  /** There is a malformed set change at the path. */
  ghost predicate BadAt(diff: Diff, path: seq<string>)
    decreases |path|
  {
    path != [] && path[0] in diff &&
    if |path| == 1 then diff[path[0]].BadSet? else diff[path[0]].DictDiff? && BadAt(diff[path[0]].changes, path[1..])
  }

  /** There is a set at the path. */
  ghost predicate HasSet(d: Dict, path: seq<string>)
    decreases |path|
  {
    path != [] && path[0] in d &&
    if |path| == 1 then d[path[0]].SetV? else d[path[0]].DictV? && HasSet(d[path[0]].entries, path[1..])
  }

  lemma {:induction false} BadThrows(diff: Diff, source: Dict, path: seq<string>)
    requires BadAt(diff, path) && HasSet(source, path)
    ensures Throws(diff, source)
    decreases |path|
  {
    var k := path[0];
    if |path| > 1 {
      BadThrows(diff[k].changes, source[k].entries, path[1..]);
    }
    assert ThrowsAt(diff[k], k, source);
  }

  lemma {:induction false} ThrowsBad(diff: Diff, source: Dict) returns (path: seq<string>)
    requires Throws(diff, source)
    ensures BadAt(diff, path) && HasSet(source, path)
    decreases DictDiff(diff)
  {
    var k :| k in diff && ThrowsAt(diff[k], k, source);
    if diff[k].BadSet? {
      path := [k];
    } else {
      var rest := ThrowsBad(diff[k].changes, source[k].entries);
      path := [k] + rest;
      assert path[1..] == rest;
    }
  }

  ghost predicate BadSpot(diff: Diff, source: Dict, path: seq<string>) {
    BadAt(diff, path) && HasSet(source, path)
  }

  /** A diff cannot be applied exactly when it has a malformed set change somewhere the source has a set. */
  lemma ThrowsExactly(diff: Diff, source: Dict)
    ensures Throws(diff, source) <==> exists path :: BadSpot(diff, source, path)
  {
    hide Throws;
    if Throws(diff, source) {
      var path := ThrowsBad(diff, source);
      assert BadSpot(diff, source, path);
    }
    if path :| BadSpot(diff, source, path) {
      BadThrows(diff, source, path);
    }
  }

  /** There is no malformed set change in it. */
  ghost predicate Clean(diff: Diff)
    decreases DictDiff(diff)
  {
    forall k :: k in diff ==> !diff[k].BadSet? && (diff[k].DictDiff? ==> Clean(diff[k].changes))
  }

  /** The diff of two versions is clean. */
  lemma {:induction false} DiffIsClean(a: Dict, b: Dict)
    ensures Clean(DiffDict(a, b))
    decreases a != map[], DictV(a), DictV(b)
  {
    forall k | k in DiffDict(a, b)
      ensures var c := DiffDict(a, b)[k]; !c.BadSet? && (c.DictDiff? ==> Clean(c.changes))
    {
      DiffLookup(a, b, k);
      if DiffDict(a, b)[k].DictDiff? {
        DiffIsClean(DictAt(a, k), DictAt(b, k));
      }
    }
  }

  /** A clean diff can always be applied. */
  lemma {:induction false} CleanApplies(diff: Diff, source: Dict)
    requires Clean(diff)
    ensures !Throws(diff, source)
    decreases DictDiff(diff)
  {
    forall k | k in diff ensures !ThrowsAt(diff[k], k, source) {
      if diff[k].DictDiff? && k in source && source[k].DictV? {
        CleanApplies(diff[k].changes, source[k].entries);
      }
    }
  }

  predicate ThrowsAt(c: Change, k: string, source: Dict)
    decreases c, 1
  {
    k in source && SameKind(c, source[k]) &&
    (c.BadSet? || (c.DictDiff? && Throws(c.changes, source[k].entries)))
  }

  lemma ApplyLookup(data: Dict, diff: Diff, source: Dict, k: string)
    ensures Lookup(Apply(data, diff, source), k) ==
            if k in diff then ApplyAt(data, k, diff[k], source) else Lookup(data, k)
  {
  }

  /** The change of one key looks at nothing else in the data. */
  lemma ApplyAtLocal(x: Dict, y: Dict, k: string, c: Change, n: Dict)
    requires Lookup(x, k) == Lookup(y, k)
    ensures ApplyAt(x, k, c, n) == ApplyAt(y, k, c, n)
  {
  }

  // ----- apply_diff

  /** The in-place loop over the diff's keys. */
  method ApplyDiff(data: Dict, diff: Diff, source: Dict) returns (r: Option<Dict>)
    ensures r.None? <==> Throws(diff, source)
    ensures r.Some? ==> r.value == Apply(data, diff, source)
    decreases DictDiff(diff), 0
  {
    hide Apply, ApplyAt, ThrowsAt;
    var d := data;
    var ks := DiffKeysInOrder(diff);
    for i := 0 to |ks|
      invariant forall k :: Lookup(d, k) ==
                  if k in ks[..i] && k in diff then ApplyAt(data, k, diff[k], source) else Lookup(data, k)
      invariant forall k :: k in ks[..i] && k in diff ==> !ThrowsAt(diff[k], k, source)
    {
      var k := ks[i];
      PassedKey(ks, i);
      assert Lookup(d, k) == Lookup(data, k);
      ApplyAtLocal(d, data, k, diff[k], source);
      var next := ApplyChange(d, k, diff[k], source);
      if next.None? {
        return None;
      }
      d := next.value;
    }
    assert ks[..|ks|] == ks;
    ApplyComplete(data, diff, source, d);
    return Some(d);
  }

  /** One round of the loop: only the entry under `k` is edited. */
  method ApplyChange(data: Dict, k: string, c: Change, source: Dict) returns (r: Option<Dict>)
    ensures r.None? <==> ThrowsAt(c, k, source)
    ensures r.Some? ==>
              forall j :: Lookup(r.value, j) == if j == k then ApplyAt(data, k, c, source) else Lookup(data, j)
    decreases c, 1
  {
    if k !in source || !SameKind(c, source[k]) {
      return Some(data - {k});
    }
    match c
    case Assigned => r := Some(data[k := source[k]]);
    case Deleted => r := Some(data - {k});
    case DictDiff(sub) =>
      var subdict := if k in data && data[k].DictV? then data[k].entries else map[];
      var applied := ApplyDiff(subdict, sub, source[k].entries);
      r := if applied.Some? then Some(data[k := DictV(applied.value)]) else None;
    case SetDiff(added, removed) =>
      var subset := if k in data && data[k].SetV? then data[k].elems else {};
      subset := ApplySetDiff(subset, added, removed);
      r := Some(data[k := SetV(subset)]);
    case BadSet(_) => r := None;
  }

  lemma ApplyComplete(data: Dict, diff: Diff, source: Dict, r: Dict)
    requires forall k :: Lookup(r, k) ==
               if k in diff then ApplyAt(data, k, diff[k], source) else Lookup(data, k)
    ensures r == Apply(data, diff, source)
  {
    forall k ensures Lookup(r, k) == Lookup(Apply(data, diff, source), k) {
      ApplyLookup(data, diff, source, k);
    }
    DictExtensionality(r, Apply(data, diff, source));
  }

  /** Insertions first, then removals. */
  method ApplySetDiff(s: set<Scalar>, added: set<Scalar>, removed: set<Scalar>) returns (r: set<Scalar>)
    ensures r == s + added - removed
  {
    r := s;
    var xs := ElementsInOrder(added);
    for i := 0 to |xs|
      invariant forall e :: e in r <==> e in s || e in xs[..i]
    {
      r := r + {xs[i]};
    }
    assert xs[..|xs|] == xs;
    var ys := ElementsInOrder(removed);
    for i := 0 to |ys|
      invariant forall e :: e in r <==> (e in s || e in added) && e !in ys[..i]
    {
      r := r - {ys[i]};
    }
    assert ys[..|ys|] == ys;
  }

  // ----- agreement: the invariant of replaying a linear history

  /** Wherever the history's state `a` already equals the newest state `n`, so does `x`. */
  ghost predicate Agrees(x: Dict, a: Dict, n: Dict)
    decreases DictV(n), 1
  {
    forall k :: AgreesAt(x, a, n, k)
  }

  ghost predicate AgreesAt(x: Dict, a: Dict, n: Dict, k: string)
    decreases DictV(n), 0
  {
    match Lookup(n, k)
    case None => k !in a ==> k !in x
    case Some(ScalarV(_)) => Lookup(a, k) == Lookup(n, k) ==> Lookup(x, k) == Lookup(n, k)
    case Some(SetV(s)) => forall e :: (e in SetAt(a, k) <==> e in s) ==> (e in SetAt(x, k) <==> e in s)
    case Some(DictV(d)) => Agrees(DictAt(x, k), DictAt(a, k), d)
  }

  lemma {:induction false} AgreesStart(a: Dict, n: Dict)
    ensures Agrees(n, a, n) && Agrees(a, a, n)
    decreases DictV(n)
  {
    forall k ensures AgreesAt(n, a, n, k) && AgreesAt(a, a, n, k) {
      if k in n && n[k].DictV? {
        AgreesStart(DictAt(a, k), n[k].entries);
      }
    }
  }

  /** Replaying one step of the history keeps the agreement, whatever the step changed: kinds may
      change and keys may vanish and return. */
  lemma {:induction false} AgreesStep(x: Dict, a: Dict, b: Dict, n: Dict)
    requires Agrees(x, a, n)
    ensures Agrees(Apply(x, DiffDict(a, b), n), b, n)
    decreases DictV(n)
  {
    hide DiffDict, Apply;
    var diff := DiffDict(a, b);
    var x' := Apply(x, diff, n);
    forall k ensures AgreesAt(x', b, n, k) {
      assert AgreesAt(x, a, n, k);
      ApplyLookup(x, diff, n, k);
      DiffLookup(a, b, k);
      if k in n && n[k].DictV? {
        var d := n[k].entries;
        if k !in diff {
          assert DictAt(a, k) == DictAt(b, k);
        } else if diff[k].DictDiff? {
          AgreesStep(DictAt(x, k), DictAt(a, k), DictAt(b, k), d);
        } else {
          AgreesStart(map[], d);
        }
      }
    }
  }

  lemma {:induction false} AgreesEnd(x: Dict, n: Dict)
    requires Agrees(x, n, n) && Pruned(n)
    ensures x == n
    decreases DictV(n)
  {
    forall k ensures Lookup(x, k) == Lookup(n, k) {
      assert AgreesAt(x, n, n, k);
      if k in n {
        assert PrunedValue(n[k]);
        match n[k]
        case ScalarV(_) =>
        case SetV(s) => assert SetAt(x, k) == s;
        case DictV(d) => AgreesEnd(DictAt(x, k), d);
      }
    }
    DictExtensionality(x, n);
  }

  /** Where the history has reached the newest value of a key, so has the replay. */
  lemma AgreesSameKey(x: Dict, a: Dict, n: Dict, k: string)
    requires Agrees(x, a, n) && Pruned(n)
    requires Lookup(a, k) == Lookup(n, k)
    ensures Lookup(x, k) == Lookup(n, k)
  {
    assert AgreesAt(x, a, n, k);
    if k in n {
      assert PrunedValue(n[k]);
      match n[k]
      case ScalarV(_) =>
      case SetV(s) => assert SetAt(x, k) == s;
      case DictV(d) => AgreesEnd(DictAt(x, k), d);
    }
  }

  /** Applying the diff of two versions to the older one gives the newer one. */
  lemma RoundTrip(a: Dict, b: Dict)
    requires Pruned(b)
    ensures Apply(a, DiffDict(a, b), b) == b
  {
    AgreesStart(a, b);
    AgreesStep(a, a, b, b);
    AgreesEnd(Apply(a, DiffDict(a, b), b), b);
  }

  // ----- replay of a sequence of diffs

  /** A diff to replay, with the data of the message it is taken from. */
  datatype Entry = Entry(diff: Diff, source: Dict)

  function Replay(data: Dict, entries: seq<Entry>): Dict {
    if entries == [] then data
    else
      var n := |entries| - 1;
      Apply(Replay(data, entries[..n]), entries[n].diff, entries[n].source)
  }

  /** The diffs of a linear history, oldest first, all replayed from one source. */
  function HistoryEntries(history: seq<Dict>, source: Dict): (es: seq<Entry>)
    requires history != []
    ensures |es| == |history| - 1
  {
    seq(|history| - 1, i requires 0 <= i < |history| - 1 => Entry(DiffDict(history[i], history[i + 1]), source))
  }

  lemma {:induction false} ReplayAgrees(x: Dict, history: seq<Dict>, n: Dict)
    requires history != [] && Agrees(x, history[0], n)
    ensures Agrees(Replay(x, HistoryEntries(history, n)), history[|history| - 1], n)
    decreases |history|
  {
    if |history| <= 1 {
    } else {
      var m := |history| - 1;
      ReplayAgrees(x, history[..m], n);
      assert HistoryEntries(history, n)[..m - 1] == HistoryEntries(history[..m], n);
      AgreesStep(Replay(x, HistoryEntries(history[..m], n)), history[m - 1], history[m], n);
    }
  }

  /** Replaying a linear history ending in `n` onto `n` itself, or onto the oldest version, gives `n`. */
  lemma LinearReplay(history: seq<Dict>)
    requires history != [] && Pruned(history[|history| - 1])
    ensures var n := history[|history| - 1];
            && Replay(n, HistoryEntries(history, n)) == n
            && Replay(history[0], HistoryEntries(history, n)) == n
  {
    var n := history[|history| - 1];
    AgreesStart(history[0], n);
    ReplayAgrees(n, history, n);
    ReplayAgrees(history[0], history, n);
    AgreesEnd(Replay(n, HistoryEntries(history, n)), n);
    AgreesEnd(Replay(history[0], HistoryEntries(history, n)), n);
  }

  // ----- last writer wins, leaf by leaf

  datatype Effect = Keeps | Drops | Adds

  /** What replaying `diff` from `source` does to one leaf, whatever the data it is replayed onto. */
  ghost function LeafEffect(diff: Diff, source: Dict, path: seq<string>, leaf: Leaf): Effect
    decreases |path|
  {
    if path == [] || path[0] !in diff then Keeps
    else
      var k, c := path[0], diff[path[0]];
      if k !in source || !SameKind(c, source[k]) then Drops
      else match c
        case Assigned => if HasLeaf(source, path, leaf) then Adds else Drops
        case Deleted => Drops
        case SetDiff(added, removed) =>
          if |path| > 1 || !leaf.ElemLeaf? || leaf.e in removed then Drops
          else if leaf.e in added then Adds else Keeps
        case DictDiff(sub) =>
          if |path| == 1 then Drops else LeafEffect(sub, source[k].entries, path[1..], leaf)
        case BadSet(_) => Drops
  }

  ghost predicate After(e: Effect, held: bool) {
    e.Adds? || (e.Keeps? && held)
  }

  lemma {:induction false} ApplyLeaf(data: Dict, diff: Diff, source: Dict, path: seq<string>, leaf: Leaf)
    ensures HasLeaf(Apply(data, diff, source), path, leaf) <==>
            After(LeafEffect(diff, source, path, leaf), HasLeaf(data, path, leaf))
    decreases |path|
  {
    if path != [] && path[0] in diff {
      var k := path[0];
      ApplyLookup(data, diff, source, k);
      var c := diff[k];
      if k in source && SameKind(c, source[k]) && c.DictDiff? {
        ApplyLeaf(DictAt(data, k), c.changes, source[k].entries, path[1..], leaf);
      }
    } else if path != [] {
      ApplyLookup(data, diff, source, path[0]);
    }
  }

  /** The effect of the last entry that does not keep the leaf. */
  ghost function LastEffect(entries: seq<Entry>, path: seq<string>, leaf: Leaf): Effect {
    if entries == [] then Keeps
    else
      var n := |entries| - 1;
      var e := LeafEffect(entries[n].diff, entries[n].source, path, leaf);
      if e.Keeps? then LastEffect(entries[..n], path, leaf) else e
  }

  /** Every scalar and every set element, at any depth, is decided by the last entry that touches
      it, and by the data the replay started from when none does. */
  lemma {:induction false} LastWriterWins(data: Dict, entries: seq<Entry>, path: seq<string>, leaf: Leaf)
    ensures HasLeaf(Replay(data, entries), path, leaf) <==>
            After(LastEffect(entries, path, leaf), HasLeaf(data, path, leaf))
  {
    if entries == [] {
    } else {
      var n := |entries| - 1;
      LastWriterWins(data, entries[..n], path, leaf);
      ApplyLeaf(Replay(data, entries[..n]), entries[n].diff, entries[n].source, path, leaf);
    }
  }
}
