/** What replayed diffs do to single leaves: which entry decides a leaf, and how much of that depends on
    the data an entry is replayed from. */
module ConfigEffects {
  import opened Options
  import opened Ordering
  import opened ConfigData
  import opened ConfigDiff
  import opened ConfigApply
  import opened ConfigMessage
  import opened ConfigMerge

  // ----- the source of a diff

  /** The containers on the way to a leaf are there and of the right kind, and a scalar where it is one. */
  ghost predicate Shaped(n: Dict, path: seq<string>, leaf: Leaf)
    decreases |path|
  {
    path != [] && path[0] in n &&
    match n[path[0]]
    case ScalarV(_) => |path| == 1 && leaf.ScalarLeaf?
    case SetV(_) => |path| == 1 && leaf.ElemLeaf?
    case DictV(d) => |path| > 1 && Shaped(d, path[1..], leaf)
  }

  lemma {:induction false} HasLeafShaped(n: Dict, path: seq<string>, leaf: Leaf)
    requires HasLeaf(n, path, leaf)
    ensures Shaped(n, path, leaf)
    decreases |path|
  {
    if !n[path[0]].DictV? {
    } else {
      HasLeafShaped(n[path[0]].entries, path[1..], leaf);
    }
  }

  /** A diff puts a leaf only where its source has the containers for it. */
  lemma {:induction false} AddsShaped(d: Diff, n: Dict, path: seq<string>, leaf: Leaf)
    requires LeafEffect(d, n, path, leaf).Adds?
    ensures Shaped(n, path, leaf)
    decreases |path|
  {
    match d[path[0]]
    case Assigned => HasLeafShaped(n, path, leaf);
    case SetDiff(_, _) =>
    case DictDiff(sub) => AddsShaped(sub, n[path[0]].entries, path[1..], leaf);
  }

  /** A diff that keeps a leaf from one source keeps it from every source that has the containers. */
  lemma {:induction false} KeepsFromShaped(d: Diff, s: Dict, n: Dict, path: seq<string>, leaf: Leaf)
    requires LeafEffect(d, s, path, leaf).Keeps? && Shaped(n, path, leaf)
    ensures LeafEffect(d, n, path, leaf).Keeps?
    decreases |path|
  {
    if path[0] !in d || !d[path[0]].DictDiff? {
    } else {
      KeepsFromShaped(d[path[0]].changes, s[path[0]].entries, n[path[0]].entries, path[1..], leaf);
    }
  }

  /** A diff that puts a leaf from one source puts it from every source that has the leaf. */
  lemma {:induction false} AddsFromHolder(d: Diff, s: Dict, n: Dict, path: seq<string>, leaf: Leaf)
    requires LeafEffect(d, s, path, leaf).Adds? && HasLeaf(n, path, leaf)
    ensures LeafEffect(d, n, path, leaf).Adds?
    decreases |path|
  {
    match d[path[0]]
    case Assigned =>
    case SetDiff(_, _) =>
    case DictDiff(sub) => AddsFromHolder(sub, s[path[0]].entries, n[path[0]].entries, path[1..], leaf);
  }

  /** Among sources that have a leaf it makes no difference to that leaf which one a diff is replayed from. */
  lemma SameEffectFromHolders(d: Diff, s: Dict, n: Dict, path: seq<string>, leaf: Leaf)
    requires HasLeaf(s, path, leaf) && HasLeaf(n, path, leaf)
    ensures LeafEffect(d, s, path, leaf) == LeafEffect(d, n, path, leaf)
  {
    hide LeafEffect, HasLeaf;
    HasLeafShaped(s, path, leaf);
    HasLeafShaped(n, path, leaf);
    match LeafEffect(d, s, path, leaf)
    case Keeps => KeepsFromShaped(d, s, n, path, leaf);
    case Adds => AddsFromHolder(d, s, n, path, leaf);
    case Drops =>
      match LeafEffect(d, n, path, leaf)
      case Keeps => KeepsFromShaped(d, n, s, path, leaf);
      case Adds => AddsFromHolder(d, n, s, path, leaf);
      case Drops =>
  }

  /** Only the value under the leaf's top-level key matters. */
  lemma EffectLocal(d: Diff, s: Dict, n: Dict, path: seq<string>, leaf: Leaf)
    requires path != [] ==> Lookup(s, path[0]) == Lookup(n, path[0])
    ensures LeafEffect(d, s, path, leaf) == LeafEffect(d, n, path, leaf)
    ensures HasLeaf(s, path, leaf) == HasLeaf(n, path, leaf)
  {
    assert path != [] ==> (path[0] in s <==> path[0] in n);
    assert path != [] && path[0] in s ==> s[path[0]] == n[path[0]];
  }

  /** The diff of two versions touches every leaf they differ in, whatever it is replayed from. */
  lemma {:induction false} ChangesTouch(a: Dict, b: Dict, s: Dict, path: seq<string>, leaf: Leaf)
    requires HasLeaf(a, path, leaf) != HasLeaf(b, path, leaf)
    ensures !LeafEffect(DiffDict(a, b), s, path, leaf).Keeps?
    decreases |path|
  {
    var k := path[0];
    DiffLookup(a, b, k);
    assert Lookup(a, k) != Lookup(b, k);
    var c := ChangeAt(a, b, k);
    if !c.DictDiff? || |path| <= 1 || k !in s || !s[k].DictV? {
    } else {
      ChangesTouch(DictAt(a, k), DictAt(b, k), s[k].entries, path[1..], leaf);
    }
  }

  /** Nothing on the way to a leaf, or in its place, is of another kind. */
  ghost predicate Fitting(d: Dict, path: seq<string>, leaf: Leaf)
    decreases |path|
  {
    path != [] && (path[0] in d ==>
      match d[path[0]]
      case ScalarV(_) => |path| == 1 && leaf.ScalarLeaf?
      case SetV(_) => |path| == 1 && leaf.ElemLeaf?
      case DictV(e) => |path| > 1 && Fitting(e, path[1..], leaf))
  }

  lemma FittingEmpty(path: seq<string>, leaf: Leaf)
    requires path != []
    ensures Fitting(map[], path, leaf) && !HasLeaf(map[], path, leaf)
  {
  }

  /** The diff of two versions says of each set element exactly what became of it, also where containers
      came or went: it is left alone, added or removed, in every source that has the containers for it. */
  lemma {:induction false} ElementEffect(a: Dict, b: Dict, n: Dict, path: seq<string>, e: Scalar)
    requires Shaped(n, path, ElemLeaf(e)) && Fitting(a, path, ElemLeaf(e)) && Fitting(b, path, ElemLeaf(e))
    ensures LeafEffect(DiffDict(a, b), n, path, ElemLeaf(e)) ==
            if HasLeaf(a, path, ElemLeaf(e)) == HasLeaf(b, path, ElemLeaf(e)) then Keeps
            else if HasLeaf(b, path, ElemLeaf(e)) then Adds else Drops
    decreases |path|
  {
    var k := path[0];
    DiffLookup(a, b, k);
    if Lookup(a, k) == Lookup(b, k) {
      EffectLocal(map[], a, b, path, ElemLeaf(e));
    } else if |path| > 1 {
      FittingEmpty(path[1..], ElemLeaf(e));
      ElementEffect(DictAt(a, k), DictAt(b, k), n[k].entries, path[1..], e);
    }
  }

  /** The scalar at a path, if there is one. */
  ghost function ScalarAt(d: Dict, path: seq<string>): Option<Scalar>
    decreases |path|
  {
    if path == [] || path[0] !in d then None
    else match d[path[0]]
      case ScalarV(s) => if |path| == 1 then Some(s) else None
      case SetV(_) => None
      case DictV(e) => ScalarAt(e, path[1..])
  }

  /** And of each scalar: it is left alone when it is the same in both, and otherwise becomes what the source
      has, or nothing when it was removed. */
  lemma {:induction false} ScalarEffect(a: Dict, b: Dict, n: Dict, path: seq<string>, s: Scalar)
    requires Shaped(n, path, ScalarLeaf(s)) && Fitting(a, path, ScalarLeaf(s)) && Fitting(b, path, ScalarLeaf(s))
    ensures LeafEffect(DiffDict(a, b), n, path, ScalarLeaf(s)) ==
            if ScalarAt(a, path) == ScalarAt(b, path) then Keeps
            else if ScalarAt(b, path).Some? && ScalarAt(n, path) == Some(s) then Adds else Drops
    decreases |path|
  {
    var k := path[0];
    DiffLookup(a, b, k);
    if Lookup(a, k) == Lookup(b, k) {
      assert k in a <==> k in b;
    } else if |path| > 1 {
      FittingEmpty(path[1..], ScalarLeaf(s));
      ScalarEffect(DictAt(a, k), DictAt(b, k), n[k].entries, path[1..], s);
    }
  }

  /** Replayed from the newer version it puts every leaf that is new, and drops none that is there. */
  lemma {:induction false} OwnEffect(a: Dict, b: Dict, path: seq<string>, leaf: Leaf)
    requires HasLeaf(b, path, leaf)
    ensures var e := LeafEffect(DiffDict(a, b), b, path, leaf);
            !e.Drops? && (!HasLeaf(a, path, leaf) ==> e.Adds?)
    decreases |path|
  {
    var k := path[0];
    DiffLookup(a, b, k);
    if !b[k].DictV? {
    } else {
      OwnEffect(DictAt(a, k), b[k].entries, path[1..], leaf);
    }
  }

  // ----- which entry decides

  ghost function EffectAt(replay: map<MsgId, Entry>, id: MsgId, path: seq<string>, leaf: Leaf): Effect
    requires id in replay
  {
    LeafEffect(replay[id].diff, replay[id].source, path, leaf)
  }

  /** `id` touches the leaf, and nothing after it does. */
  ghost predicate Decides(replay: map<MsgId, Entry>, id: MsgId, path: seq<string>, leaf: Leaf) {
    && id in replay && !EffectAt(replay, id, path, leaf).Keeps?
    && forall id' :: id' in replay && IdLess(id, id') ==> EffectAt(replay, id', path, leaf).Keeps?
  }

  ghost function Decided(replay: map<MsgId, Entry>, path: seq<string>, leaf: Leaf): Effect {
    LastEffect(Entries(replay), path, leaf)
  }

  lemma {:induction false} LastTouch(es: seq<Entry>, path: seq<string>, leaf: Leaf) returns (i: nat)
    ensures LastEffect(es, path, leaf).Keeps? ==>
              forall j :: 0 <= j < |es| ==> LeafEffect(es[j].diff, es[j].source, path, leaf).Keeps?
    ensures !LastEffect(es, path, leaf).Keeps? ==>
              && i < |es| && LeafEffect(es[i].diff, es[i].source, path, leaf) == LastEffect(es, path, leaf)
              && forall j :: i < j < |es| ==> LeafEffect(es[j].diff, es[j].source, path, leaf).Keeps?
    decreases |es|
  {
    hide LeafEffect;
    i := 0;
    if es == [] {
    } else {
      var n := |es| - 1;
      if LeafEffect(es[n].diff, es[n].source, path, leaf).Keeps? {
        i := LastTouch(es[..n], path, leaf);
        assert forall j :: 0 <= j < n ==> es[j] == es[..n][j];
      } else {
        i := n;
      }
    }
  }

  lemma EntryOf(replay: map<MsgId, Entry>, id: MsgId) returns (j: nat)
    requires id in replay
    ensures j < |Ids(replay)| && Ids(replay)[j] == id && Entries(replay)[j] == replay[id]
  {
    var ids := Ids(replay);
    assert id in ids;
    j :| 0 <= j < |ids| && ids[j] == id;
  }

  /** In an ascending list what is greater comes later. */
  lemma LaterIndex(ids: seq<MsgId>, i: nat, j: nat)
    requires i < |ids| && j < |ids| && Ascending(ids, IdLess) && IdLess(ids[i], ids[j])
    ensures i < j
  {
    IdOrder();
  }

  /** The leaf is kept when no entry touches it; otherwise the last entry that does decides. */
  lemma Decider(replay: map<MsgId, Entry>, path: seq<string>, leaf: Leaf) returns (id: MsgId)
    ensures Decided(replay, path, leaf).Keeps? ==>
              forall id' :: id' in replay ==> EffectAt(replay, id', path, leaf).Keeps?
    ensures !Decided(replay, path, leaf).Keeps? ==>
              Decides(replay, id, path, leaf) && EffectAt(replay, id, path, leaf) == Decided(replay, path, leaf)
  {
    hide LeafEffect, LastEffect, Ascending, IdLess;
    var ids, es := Ids(replay), Entries(replay);
    var i := LastTouch(es, path, leaf);
    if Decided(replay, path, leaf).Keeps? {
      id := MsgId(0, seq(32, i => '0'));
      forall id' | id' in replay ensures EffectAt(replay, id', path, leaf).Keeps? {
        var j := EntryOf(replay, id');
      }
    } else {
      id := ids[i];
      forall id' | id' in replay && IdLess(id, id') ensures EffectAt(replay, id', path, leaf).Keeps? {
        var j := EntryOf(replay, id');
        LaterIndex(ids, i, j);
      }
    }
  }

  /** There is only one such entry. */
  lemma DecidesUnique(replay: map<MsgId, Entry>, id: MsgId, path: seq<string>, leaf: Leaf)
    requires Decides(replay, id, path, leaf)
    ensures Decided(replay, path, leaf) == EffectAt(replay, id, path, leaf)
  {
    hide LeafEffect, Decided;
    var other := Decider(replay, path, leaf);
    IdOrder();
    assert other == id || IdLess(id, other) || IdLess(other, id);
  }

  /** A leaf is as the deciding entry says, and as in the greatest message when none touches it. */
  lemma MergedLeaf(v: set<Msg>, path: seq<string>, leaf: Leaf)
    requires v != {}
    ensures HasLeaf(MergedData(v), path, leaf) <==>
            After(Decided(ReplayMap(v), path, leaf), HasLeaf(Greatest(v).data, path, leaf))
  {
    MergeLastWriterWins(v, path, leaf);
  }
}
