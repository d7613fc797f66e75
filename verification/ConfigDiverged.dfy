/** Two devices that each publish a whole run of edits to the same message before they meet: exactly
    which of the edits the merge keeps. */
module ConfigDiverged {
  import opened Options
  import opened ConfigData
  import opened ConfigDiff
  import opened ConfigApply
  import opened ConfigFork
  import opened ConfigTree
  import opened ConfigMessage
  import opened ConfigMerge
  import opened ConfigRuns
  import opened ConfigEffects

  // ----- what a message can replay

  /** What `q`'s diff for `id` does to a leaf, replayed from `q`. */
  ghost function Eff(q: Msg, id: MsgId, path: seq<string>, leaf: Leaf): Effect
    requires Holds(q, id)
  {
    LeafEffect(DiffFor(q, id), q.data, path, leaf)
  }

  /** `q` holds a diff that touches the leaf. */
  ghost predicate Touches(q: Msg, path: seq<string>, leaf: Leaf) {
    exists id :: Holds(q, id) && !Eff(q, id, path, leaf).Keeps?
  }

  /** `id` is the last diff of `q` that touches the leaf. */
  ghost predicate DecidesFor(q: Msg, id: MsgId, path: seq<string>, leaf: Leaf) {
    && Holds(q, id) && !Eff(q, id, path, leaf).Keeps?
    && forall id' :: Holds(q, id') && IdLess(id, id') ==> Eff(q, id', path, leaf).Keeps?
  }

  /** Replaying its own diffs changes nothing. */
  ghost predicate Settled(q: Msg) {
    Pruned(q.data) && MergedData({q}) == q.data
  }

  lemma SelfMap(q: Msg, id: MsgId)
    ensures id in ReplayMap({q}) <==> Holds(q, id)
    ensures Holds(q, id) ==> ReplayMap({q})[id] == Entry(DiffFor(q, id), q.data)
  {
    hide ReplayMap;
    SelfHolds(q, id);
    if Holds(q, id) {
      OnlyHolder({q}, id, q);
    }
  }

  lemma LastOfSelf(q: Msg, path: seq<string>, leaf: Leaf) returns (id: MsgId)
    requires Touches(q, path, leaf)
    ensures DecidesFor(q, id, path, leaf) && Decided(ReplayMap({q}), path, leaf) == Eff(q, id, path, leaf)
  {
    hide ReplayMap, LeafEffect, Decided;
    var replay := ReplayMap({q});
    forall id' ensures id' in replay <==> Holds(q, id')
      ensures Holds(q, id') ==> EffectAt(replay, id', path, leaf) == Eff(q, id', path, leaf)
    {
      SelfMap(q, id');
    }
    id := Decider(replay, path, leaf);
  }

  /** The last diff of a settled message that touches a leaf leaves it as the message has it. */
  lemma SettledLeaf(q: Msg, id: MsgId, path: seq<string>, leaf: Leaf)
    requires Settled(q) && DecidesFor(q, id, path, leaf)
    ensures Eff(q, id, path, leaf).Adds? <==> HasLeaf(q.data, path, leaf)
  {
    hide ReplayMap, LeafEffect, Decided, HasLeaf, MergedData;
    var replay := ReplayMap({q});
    forall id' ensures id' in replay <==> Holds(q, id')
      ensures Holds(q, id') ==> EffectAt(replay, id', path, leaf) == Eff(q, id', path, leaf)
    {
      SelfMap(q, id');
    }
    DecidesUnique(replay, id, path, leaf);
    MergedLeaf({q}, path, leaf);
  }

  // ----- descent

  /** `q` was reached from `p` by edits of keys in `ks`: it holds what `p` held, as far as the lag allows,
      and diffs of those keys. */
  ghost predicate Descends(p: Msg, q: Msg, lag: int, ks: set<string>) {
    && p.id.seqno <= q.id.seqno && ValidMsg(q, lag)
    && (forall id :: Holds(q, id) && id.seqno <= p.id.seqno ==> Holds(p, id) && DiffFor(q, id) == DiffFor(p, id))
    && (forall id :: Holds(p, id) && id.seqno > q.id.seqno - lag ==> Holds(q, id))
    && (forall id :: Holds(q, id) && id.seqno > p.id.seqno ==> DiffFor(q, id).Keys <= ks)
    && (forall k :: k !in ks ==> Lookup(q.data, k) == Lookup(p.data, k))
  }

  /** The diff touches the leaf whatever it is replayed from. */
  ghost predicate Stirs(d: Diff, path: seq<string>, leaf: Leaf) {
    forall s: Dict :: !LeafEffect(d, s, path, leaf).Keeps?
  }

  /** As long as the lag covers the run, every leaf that changed is touched by a diff of the run. */
  ghost predicate Remembers(p: Msg, q: Msg, lag: int) {
    q.id.seqno - p.id.seqno <= lag ==>
      forall path, leaf | HasLeaf(p.data, path, leaf) != HasLeaf(q.data, path, leaf) ::
        exists id :: Holds(q, id) && id.seqno > p.id.seqno && Stirs(DiffFor(q, id), path, leaf)
  }

  ghost predicate EditsOnly(p: Dict, d: Dict, ks: set<string>) {
    forall k :: k !in ks ==> Lookup(d, k) == Lookup(p, k)
  }

  lemma DiffWithin(p: Dict, a: Dict, b: Dict, ks: set<string>)
    requires EditsOnly(p, a, ks) && EditsOnly(p, b, ks)
    ensures DiffDict(a, b).Keys <= ks
  {
    forall k | k in DiffDict(a, b) ensures k in ks {
      DiffLookup(a, b, k);
    }
  }

  lemma UpdateHolds(q: Msg, d: Dict, lag: int, hashOf: seq<Pair> -> Hash, id: MsgId)
    requires lag >= 1 && ValidMsg(q, lag)
    ensures var q' := Update(q, d, lag, hashOf);
            && (Holds(q', id) <==> id == q'.id || (Holds(q, id) && id.seqno > q'.id.seqno - lag))
            && (Holds(q', id) && id != q'.id ==> DiffFor(q', id) == DiffFor(q, id))
  {
    hide Update;
    UpdateLagged(q, d, lag, hashOf);
    UpdateFields(q, d, lag, hashOf);
  }

  lemma UpdateDescends(p: Msg, q: Msg, d: Dict, lag: int, hashOf: seq<Pair> -> Hash, ks: set<string>)
    requires lag >= 1 && Descends(p, q, lag, ks) && EditsOnly(p.data, Prune(d), ks)
    ensures Descends(p, Update(q, d, lag, hashOf), lag, ks)
  {
    hide Update, Prune, DiffDict, Pruned;
    var q' := Update(q, d, lag, hashOf);
    UpdateFields(q, d, lag, hashOf);
    DiffWithin(p.data, q.data, Prune(d), ks);
    forall id ensures Holds(q', id) <==> id == q'.id || (Holds(q, id) && id.seqno > q'.id.seqno - lag)
      ensures Holds(q', id) && id != q'.id ==> DiffFor(q', id) == DiffFor(q, id)
    {
      UpdateHolds(q, d, lag, hashOf, id);
    }
    forall id | Holds(p, id) && id.seqno > q'.id.seqno - lag ensures Holds(q', id) {
      assert Holds(q, id);
    }
  }

  lemma UpdateRemembers(p: Msg, q: Msg, d: Dict, lag: int, hashOf: seq<Pair> -> Hash)
    requires lag >= 1 && ValidMsg(q, lag) && p.id.seqno <= q.id.seqno && Remembers(p, q, lag)
    ensures Remembers(p, Update(q, d, lag, hashOf), lag)
  {
    hide Update, Prune, DiffDict, Pruned, HasLeaf, Stirs;
    var q' := Update(q, d, lag, hashOf);
    UpdateFields(q, d, lag, hashOf);
    if q'.id.seqno - p.id.seqno <= lag {
      forall path, leaf | HasLeaf(p.data, path, leaf) != HasLeaf(q'.data, path, leaf)
        ensures exists id :: Holds(q', id) && id.seqno > p.id.seqno && Stirs(DiffFor(q', id), path, leaf)
      {
        if HasLeaf(q.data, path, leaf) != HasLeaf(q'.data, path, leaf) {
          DiffStirs(q.data, q'.data, path, leaf);
          assert Holds(q', q'.id) && DiffFor(q', q'.id) == q'.diff;
        } else {
          var id :| Holds(q, id) && id.seqno > p.id.seqno && Stirs(DiffFor(q, id), path, leaf);
          UpdateHolds(q, d, lag, hashOf, id);
        }
      }
    }
  }

  lemma DiffStirs(a: Dict, b: Dict, path: seq<string>, leaf: Leaf)
    requires HasLeaf(a, path, leaf) != HasLeaf(b, path, leaf)
    ensures Stirs(DiffDict(a, b), path, leaf)
  {
    forall s: Dict ensures !LeafEffect(DiffDict(a, b), s, path, leaf).Keeps? {
      ChangesTouch(a, b, s, path, leaf);
    }
  }

  lemma {:induction false} RunDescends(p: Msg, ds: seq<Dict>, lag: int, hashOf: seq<Pair> -> Hash, ks: set<string>)
    requires lag >= 1 && ValidMsg(p, lag)
    requires forall i :: 0 <= i < |ds| ==> EditsOnly(p.data, Prune(ds[i]), ks)
    ensures var q := Run(p, ds, lag, hashOf);
            Descends(p, q, lag, ks) && Remembers(p, q, lag) && q.id.seqno == p.id.seqno + |ds|
  {
    hide Update, Remembers, Prune, EditsOnly;
    if ds == [] {
      RemembersItself(p, lag);
    } else {
      var n := |ds| - 1;
      var q := Run(p, ds[..n], lag, hashOf);
      RunDescends(p, ds[..n], lag, hashOf, ks);
      UpdateDescends(p, q, ds[n], lag, hashOf, ks);
      UpdateRemembers(p, q, ds[n], lag, hashOf);
      UpdateFields(q, ds[n], lag, hashOf);
    }
  }

  lemma RemembersItself(p: Msg, lag: int)
    ensures Remembers(p, p, lag)
  {
  }

  // ----- the merge of two descendants

  /** `q1` and `q2`, the lesser, come of `p` by edits of keys in `ks1` and `ks2`, and have no message of
      their runs in common. */
  ghost predicate Forked(p: Msg, q1: Msg, q2: Msg, lag: int, ks1: set<string>, ks2: set<string>) {
    && ValidMsg(p, lag) && Descends(p, q1, lag, ks1) && Descends(p, q2, lag, ks2)
    && Remembers(p, q1, lag) && Remembers(p, q2, lag)
    && Settled(p) && Settled(q1) && Settled(q2)
    && IdLess(q2.id, q1.id)
    && forall id :: Holds(q1, id) && Holds(q2, id) ==> id.seqno <= p.id.seqno
  }

  /** The keys are different ones. */
  ghost predicate Diverged(p: Msg, q1: Msg, q2: Msg, lag: int, ks1: set<string>, ks2: set<string>) {
    Forked(p, q1, q2, lag, ks1, ks2) && ks1 !! ks2
  }

  /** What the merge replays for `id`: the greater message's diff if it holds one. */
  ghost function PairEff(q1: Msg, q2: Msg, id: MsgId, path: seq<string>, leaf: Leaf): Effect
    requires Holds(q1, id) || Holds(q2, id)
  {
    if Holds(q1, id) then Eff(q1, id, path, leaf) else Eff(q2, id, path, leaf)
  }

  lemma PairMap(q1: Msg, q2: Msg, id: MsgId)
    requires IdLess(q2.id, q1.id)
    ensures id in ReplayMap({q1, q2}) <==> Holds(q1, id) || Holds(q2, id)
    ensures Holds(q1, id) ==> ReplayMap({q1, q2})[id] == Entry(DiffFor(q1, id), q1.data)
    ensures !Holds(q1, id) && Holds(q2, id) ==> ReplayMap({q1, q2})[id] == Entry(DiffFor(q2, id), q2.data)
  {
    hide ReplayMap;
    var v := {q1, q2};
    PairGreatest(q1, q2);
    if Holds(q1, id) {
      OnlyHolder(v, id, q1);
    } else if Holds(q2, id) {
      OnlyHolder(v, id, q2);
    } else {
      HeldSomewhere(v, id);
      assert Holders(v, id) == {};
    }
  }

  lemma PairGreatest(q1: Msg, q2: Msg)
    requires IdLess(q2.id, q1.id)
    ensures IdsDistinguish({q1, q2}) && Greatest({q1, q2}) == q1
  {
    IdOrder();
    assert IsGreatest(q1, {q1, q2});
    GreatestUnique(q1, {q1, q2});
  }

  /** `id` is the last diff of the merge that touches the leaf. */
  ghost predicate PairDecides(q1: Msg, q2: Msg, id: MsgId, path: seq<string>, leaf: Leaf) {
    && (Holds(q1, id) || Holds(q2, id)) && !PairEff(q1, q2, id, path, leaf).Keeps?
    && forall id' :: (Holds(q1, id') || Holds(q2, id')) && IdLess(id, id') ==> PairEff(q1, q2, id', path, leaf).Keeps?
  }

  ghost predicate PairTouches(q1: Msg, q2: Msg, path: seq<string>, leaf: Leaf) {
    exists id :: (Holds(q1, id) || Holds(q2, id)) && !PairEff(q1, q2, id, path, leaf).Keeps?
  }

  lemma PairEffects(q1: Msg, q2: Msg, path: seq<string>, leaf: Leaf)
    requires IdLess(q2.id, q1.id)
    ensures var replay := ReplayMap({q1, q2});
            forall id :: (id in replay <==> Holds(q1, id) || Holds(q2, id)) &&
              (id in replay ==> EffectAt(replay, id, path, leaf) == PairEff(q1, q2, id, path, leaf))
  {
    hide ReplayMap, LeafEffect;
    var replay := ReplayMap({q1, q2});
    forall id ensures (id in replay <==> Holds(q1, id) || Holds(q2, id)) &&
                      (id in replay ==> EffectAt(replay, id, path, leaf) == PairEff(q1, q2, id, path, leaf))
    {
      PairMap(q1, q2, id);
    }
  }

  lemma PairDecided(q1: Msg, q2: Msg, id: MsgId, path: seq<string>, leaf: Leaf)
    requires IdLess(q2.id, q1.id) && PairDecides(q1, q2, id, path, leaf)
    ensures HasLeaf(MergedData({q1, q2}), path, leaf) <==> PairEff(q1, q2, id, path, leaf).Adds?
  {
    hide ReplayMap, LeafEffect, Decided, HasLeaf, MergedData, PairEff;
    PairEffects(q1, q2, path, leaf);
    DecidesUnique(ReplayMap({q1, q2}), id, path, leaf);
    MergedLeaf({q1, q2}, path, leaf);
  }

  lemma PairKept(q1: Msg, q2: Msg, path: seq<string>, leaf: Leaf)
    requires IdLess(q2.id, q1.id) && !PairTouches(q1, q2, path, leaf)
    ensures HasLeaf(MergedData({q1, q2}), path, leaf) <==> HasLeaf(q1.data, path, leaf)
  {
    hide ReplayMap, LeafEffect, Decided, HasLeaf, MergedData, PairEff;
    PairEffects(q1, q2, path, leaf);
    var id := Decider(ReplayMap({q1, q2}), path, leaf);
    PairGreatest(q1, q2);
    MergedLeaf({q1, q2}, path, leaf);
  }

  lemma LastOfPair(q1: Msg, q2: Msg, path: seq<string>, leaf: Leaf) returns (id: MsgId)
    requires IdLess(q2.id, q1.id) && PairTouches(q1, q2, path, leaf)
    ensures PairDecides(q1, q2, id, path, leaf)
  {
    hide ReplayMap, LeafEffect, Decided, PairEff;
    PairEffects(q1, q2, path, leaf);
    id := Decider(ReplayMap({q1, q2}), path, leaf);
  }

  /** The last diff of the lesser message that touches the leaf decides, unless the greater one replays
      it too or touches the leaf later. */
  lemma LesserDecides(q1: Msg, q2: Msg, id: MsgId, path: seq<string>, leaf: Leaf)
    requires DecidesFor(q2, id, path, leaf) && !Holds(q1, id)
    requires forall id' :: Holds(q1, id') && IdLess(id, id') ==> Eff(q1, id', path, leaf).Keeps?
    ensures PairDecides(q1, q2, id, path, leaf)
  {
    hide Eff;
  }

  lemma GreaterDecides(q1: Msg, q2: Msg, id: MsgId, path: seq<string>, leaf: Leaf)
    requires DecidesFor(q1, id, path, leaf)
    requires forall id' :: Holds(q2, id') && !Holds(q1, id') && IdLess(id, id') ==> Eff(q2, id', path, leaf).Keeps?
    ensures PairDecides(q1, q2, id, path, leaf)
  {
    hide Eff;
  }

  // ----- leaf by leaf

  /** Diffs of other keys keep the leaf. */
  lemma OtherKeys(q: Msg, id: MsgId, path: seq<string>, leaf: Leaf, ks: set<string>)
    requires Holds(q, id) && DiffFor(q, id).Keys <= ks && path != [] && path[0] !in ks
    ensures Eff(q, id, path, leaf).Keeps?
  {
  }

  /** A diff that both can replay from before the fork, and whose key one of them left alone, has the
      same effect there as in the message they fork from. */
  lemma SharedEff(p: Msg, q: Msg, id: MsgId, path: seq<string>, leaf: Leaf, lag: int, ks: set<string>)
    requires Descends(p, q, lag, ks) && Holds(q, id) && id.seqno <= p.id.seqno && path != [] && path[0] !in ks
    ensures Holds(p, id) && Eff(q, id, path, leaf) == Eff(p, id, path, leaf)
  {
    EffectLocal(DiffFor(q, id), q.data, p.data, path, leaf);
  }

  /** What only the lesser message holds, and comes after a diff of the greater one, is of its own run. */
  lemma LaterOfLesser(p: Msg, q1: Msg, q2: Msg, lag: int, ks1: set<string>, ks2: set<string>, id: MsgId, id': MsgId)
    requires lag >= 1 && Descends(p, q1, lag, ks1) && Descends(p, q2, lag, ks2)
    requires Holds(q1, id) && Holds(q2, id') && !Holds(q1, id') && IdLess(id, id')
    ensures id'.seqno > p.id.seqno && DiffFor(q2, id').Keys <= ks2
  {
  }

  /** Where the greater run may have changed the key and its window touches the leaf, it stays as there. */
  lemma GreaterTouched(p: Msg, q1: Msg, q2: Msg, lag: int, ks1: set<string>, ks2: set<string>,
        path: seq<string>, leaf: Leaf)
    requires lag >= 1 && Diverged(p, q1, q2, lag, ks1, ks2) && path != [] && path[0] !in ks2
    requires Touches(q1, path, leaf)
    ensures HasLeaf(MergedData({q1, q2}), path, leaf) <==> HasLeaf(q1.data, path, leaf)
  {
    hide LeafEffect, HasLeaf, MergedData, Remembers, Settled, Eff, Descends, PairDecides;
    var id := LastOfSelf(q1, path, leaf);
    forall id' | Holds(q2, id') && !Holds(q1, id') && IdLess(id, id') ensures Eff(q2, id', path, leaf).Keeps? {
      LaterOfLesser(p, q1, q2, lag, ks1, ks2, id, id');
      OtherKeys(q2, id', path, leaf, ks2);
    }
    GreaterDecides(q1, q2, id, path, leaf);
    PairDecided(q1, q2, id, path, leaf);
    SettledLeaf(q1, id, path, leaf);
  }

  /** A diff that keeps the leaf from one message and touches it from another shows that the other lacks
      the containers for it; so that one does not have the leaf, and no diff puts it there. */
  lemma Unshaped(d: Diff, s: Dict, n: Dict, path: seq<string>, leaf: Leaf)
    requires LeafEffect(d, s, path, leaf).Keeps? && !LeafEffect(d, n, path, leaf).Keeps?
    ensures !HasLeaf(n, path, leaf)
    ensures forall x :: !LeafEffect(x, n, path, leaf).Adds?
  {
    hide LeafEffect, HasLeaf, Shaped;
    if Shaped(n, path, leaf) {
      KeepsFromShaped(d, s, n, path, leaf);
    }
    if HasLeaf(n, path, leaf) {
      HasLeafShaped(n, path, leaf);
    }
    forall x ensures !LeafEffect(x, n, path, leaf).Adds? {
      if LeafEffect(x, n, path, leaf).Adds? {
        AddsShaped(x, n, path, leaf);
      }
    }
  }

  /** A run that the lag covers and that does not touch a leaf did not change it. */
  lemma QuietRun(p: Msg, q: Msg, lag: int, path: seq<string>, leaf: Leaf)
    requires Remembers(p, q, lag) && q.id.seqno - p.id.seqno <= lag
    requires HasLeaf(p.data, path, leaf) != HasLeaf(q.data, path, leaf)
    ensures exists id :: Holds(q, id) && id.seqno > p.id.seqno && !Eff(q, id, path, leaf).Keeps?
  {
    hide LeafEffect, HasLeaf;
    var id :| Holds(q, id) && id.seqno > p.id.seqno && Stirs(DiffFor(q, id), path, leaf);
    assert !Eff(q, id, path, leaf).Keeps?;
  }

  /** Where the greater run may have changed the key but its window does not touch the leaf, which is as
      before the fork, it stays so. */
  lemma GreaterQuiet(p: Msg, q1: Msg, q2: Msg, lag: int, ks1: set<string>, ks2: set<string>, path: seq<string>,
        leaf: Leaf)
    requires lag >= 1 && Diverged(p, q1, q2, lag, ks1, ks2) && path != [] && path[0] !in ks2
    requires !Touches(q1, path, leaf) && HasLeaf(q1.data, path, leaf) == HasLeaf(p.data, path, leaf)
    ensures HasLeaf(MergedData({q1, q2}), path, leaf) <==> HasLeaf(p.data, path, leaf)
  {
    hide LeafEffect, HasLeaf, MergedData, Remembers, Settled, Eff;
    if PairTouches(q1, q2, path, leaf) {
      var id := LastOfPair(q1, q2, path, leaf);
      assert !Holds(q1, id);
      if id.seqno > p.id.seqno {
        OtherKeys(q2, id, path, leaf, ks2);
      }
      SharedEff(p, q2, id, path, leaf, lag, ks2);
      PairDecided(q1, q2, id, path, leaf);
      QuietBefore(p, q1, q2, lag, ks1, ks2, path, leaf, id);
    } else {
      PairKept(q1, q2, path, leaf);
    }
  }

  lemma QuietBefore(
        p: Msg, q1: Msg, q2: Msg, lag: int, ks1: set<string>, ks2: set<string>, path: seq<string>, leaf: Leaf,
        id: MsgId)
    requires lag >= 1 && Diverged(p, q1, q2, lag, ks1, ks2) && path != [] && path[0] !in ks2
    requires !Holds(q1, id) && Holds(q2, id) && Holds(p, id) && Eff(q2, id, path, leaf) == Eff(p, id, path, leaf)
    requires PairDecides(q1, q2, id, path, leaf)
    ensures Eff(p, id, path, leaf).Adds? <==> HasLeaf(p.data, path, leaf)
  {
    hide LeafEffect, HasLeaf, Remembers, Settled;
    if id1 :| Holds(p, id1) && IdLess(id, id1) && !Eff(p, id1, path, leaf).Keeps? {
      assert Holds(q2, id1);
      assert PairEff(q1, q2, id1, path, leaf).Keeps?;
      if Holds(q1, id1) {
        Unshaped(DiffFor(p, id1), q1.data, p.data, path, leaf);
      } else {
        SharedEff(p, q2, id1, path, leaf, lag, ks2);
      }
    } else {
      SettledLeaf(p, id, path, leaf);
    }
  }

  /** A window that the run has outgrown holds nothing from before the fork. */
  lemma Outgrown(p: Msg, q: Msg, lag: int, path: seq<string>, leaf: Leaf, id: MsgId)
    requires lag >= 1 && ValidMsg(q, lag) && Remembers(p, q, lag) && !Touches(q, path, leaf)
    requires HasLeaf(q.data, path, leaf) != HasLeaf(p.data, path, leaf)
    ensures Holds(q, id) ==> id.seqno > p.id.seqno
  {
    hide LeafEffect, HasLeaf, Remembers, Eff;
    if q.id.seqno - p.id.seqno <= lag {
      QuietRun(p, q, lag, path, leaf);
    }
  }

  /** Where the greater run changed the leaf and its window no longer touches it, an older diff in the
      lesser window undoes the change. */
  lemma GreaterUndone(p: Msg, q1: Msg, q2: Msg, lag: int, ks1: set<string>, ks2: set<string>,
        path: seq<string>, leaf: Leaf)
    requires lag >= 1 && Diverged(p, q1, q2, lag, ks1, ks2) && path != [] && path[0] !in ks2
    requires !Touches(q1, path, leaf) && HasLeaf(q1.data, path, leaf) != HasLeaf(p.data, path, leaf)
    requires Touches(q2, path, leaf)
    ensures HasLeaf(MergedData({q1, q2}), path, leaf) <==> HasLeaf(q2.data, path, leaf)
  {
    hide LeafEffect, HasLeaf, MergedData, Remembers, Settled, Eff, Descends, PairDecides;
    DescendsValid(p, q1, lag, ks1);
    var id := LastOfSelf(q2, path, leaf);
    WithinWindow(p, q2, lag, ks2, path, leaf, id);
    Outgrown(p, q1, lag, path, leaf, id);
    LesserDecides(q1, q2, id, path, leaf);
    PairDecided(q1, q2, id, path, leaf);
    SettledLeaf(q2, id, path, leaf);
  }

  lemma DescendsValid(p: Msg, q: Msg, lag: int, ks: set<string>)
    requires Descends(p, q, lag, ks)
    ensures ValidMsg(q, lag)
  {
  }

  /** A diff that touches a leaf under a key the run left alone is from before the fork. */
  lemma WithinWindow(p: Msg, q: Msg, lag: int, ks: set<string>, path: seq<string>, leaf: Leaf, id: MsgId)
    requires Descends(p, q, lag, ks) && path != [] && path[0] !in ks && Holds(q, id) && !Eff(q, id, path, leaf).Keeps?
    ensures id.seqno <= p.id.seqno
  {
    hide LeafEffect, Eff;
    if id.seqno > p.id.seqno {
      OtherKeys(q, id, path, leaf, ks);
    }
  }

  lemma GreaterForgotten(p: Msg, q1: Msg, q2: Msg, lag: int, ks1: set<string>, ks2: set<string>,
        path: seq<string>, leaf: Leaf)
    requires lag >= 1 && Diverged(p, q1, q2, lag, ks1, ks2) && path != [] && path[0] !in ks2
    requires !Touches(q1, path, leaf) && HasLeaf(q1.data, path, leaf) != HasLeaf(p.data, path, leaf)
    ensures (HasLeaf(MergedData({q1, q2}), path, leaf) <==> HasLeaf(q1.data, path, leaf)) <==> !Touches(q2, path, leaf)
  {
    hide LeafEffect, HasLeaf, MergedData, Remembers, Settled, Eff;
    EffectLocal(map[], q2.data, p.data, path, leaf);
    if Touches(q2, path, leaf) {
      GreaterUndone(p, q1, q2, lag, ks1, ks2, path, leaf);
    } else {
      assert !PairTouches(q1, q2, path, leaf);
      PairKept(q1, q2, path, leaf);
    }
  }

  /** The last diff that touches a leaf the run changed is one of the run. */
  lemma OfTheRun(p: Msg, q: Msg, lag: int, path: seq<string>, leaf: Leaf, id: MsgId)
    requires lag >= 1 && ValidMsg(q, lag) && Remembers(p, q, lag) && DecidesFor(q, id, path, leaf)
    requires HasLeaf(q.data, path, leaf) != HasLeaf(p.data, path, leaf)
    ensures id.seqno > p.id.seqno
  {
    hide LeafEffect, HasLeaf, Remembers, Eff;
    if q.id.seqno - p.id.seqno <= lag {
      QuietRun(p, q, lag, path, leaf);
      var id1 :| Holds(q, id1) && id1.seqno > p.id.seqno && !Eff(q, id1, path, leaf).Keeps?;
      assert !IdLess(id, id1);
    }
  }

  lemma OfOtherKeys(p: Msg, q: Msg, lag: int, ks: set<string>, path: seq<string>, leaf: Leaf, id: MsgId)
    requires Descends(p, q, lag, ks) && path != [] && path[0] !in ks && Holds(q, id) && id.seqno > p.id.seqno
    ensures Eff(q, id, path, leaf).Keeps?
  {
    hide LeafEffect, Eff;
    OtherKeys(q, id, path, leaf, ks);
  }

  /** Where the lesser run changed the leaf and its window touches it, the change is kept. */
  lemma LesserTouched(p: Msg, q1: Msg, q2: Msg, lag: int, ks1: set<string>, ks2: set<string>,
        path: seq<string>, leaf: Leaf)
    requires lag >= 1 && Diverged(p, q1, q2, lag, ks1, ks2) && path != [] && path[0] !in ks1
    requires Touches(q2, path, leaf) && HasLeaf(q2.data, path, leaf) != HasLeaf(p.data, path, leaf)
    ensures HasLeaf(MergedData({q1, q2}), path, leaf) <==> HasLeaf(q2.data, path, leaf)
  {
    hide LeafEffect, HasLeaf, MergedData, Remembers, Settled, Eff, Descends, PairDecides;
    DescendsValid(p, q2, lag, ks2);
    var id := LastOfSelf(q2, path, leaf);
    OfTheRun(p, q2, lag, path, leaf, id);
    forall id' | Holds(q1, id') && IdLess(id, id') ensures Eff(q1, id', path, leaf).Keeps? {
      OfOtherKeys(p, q1, lag, ks1, path, leaf, id');
    }
    LesserDecides(q1, q2, id, path, leaf);
    PairDecided(q1, q2, id, path, leaf);
    SettledLeaf(q2, id, path, leaf);
  }

  /** Where the lesser run changed the leaf and its window no longer touches it, the change is lost. */
  lemma LesserForgotten(p: Msg, q1: Msg, q2: Msg, lag: int, ks1: set<string>, ks2: set<string>,
        path: seq<string>, leaf: Leaf)
    requires lag >= 1 && Diverged(p, q1, q2, lag, ks1, ks2) && path != [] && path[0] !in ks1
    requires !Touches(q2, path, leaf) && HasLeaf(q2.data, path, leaf) != HasLeaf(p.data, path, leaf)
    ensures HasLeaf(MergedData({q1, q2}), path, leaf) <==> HasLeaf(p.data, path, leaf)
  {
    hide LeafEffect, HasLeaf, MergedData, Remembers, Settled, Eff;
    if q2.id.seqno - p.id.seqno <= lag {
      QuietRun(p, q2, lag, path, leaf);
    }
    EffectLocal(map[], q1.data, p.data, path, leaf);
    forall id | Holds(q1, id) || Holds(q2, id) ensures PairEff(q1, q2, id, path, leaf).Keeps? {
      if Holds(q1, id) {
        OtherKeys(q1, id, path, leaf, ks1);
      }
    }
    PairKept(q1, q2, path, leaf);
  }

  /** A leaf under a key that the greater run left alone, and that the lesser left as it was, stays. */
  lemma LesserQuiet(p: Msg, q1: Msg, q2: Msg, lag: int, ks1: set<string>, ks2: set<string>, path: seq<string>,
        leaf: Leaf)
    requires lag >= 1 && Diverged(p, q1, q2, lag, ks1, ks2) && path != [] && path[0] !in ks1
    requires HasLeaf(q2.data, path, leaf) == HasLeaf(p.data, path, leaf)
    ensures HasLeaf(MergedData({q1, q2}), path, leaf) <==> HasLeaf(p.data, path, leaf)
  {
    hide LeafEffect, HasLeaf, MergedData, Remembers, Settled, Eff;
    EffectLocal(map[], q1.data, p.data, path, leaf);
    if PairTouches(q1, q2, path, leaf) {
      var id := LastOfPair(q1, q2, path, leaf);
      PairDecided(q1, q2, id, path, leaf);
      if Holds(q1, id) {
        if id.seqno > p.id.seqno {
          OtherKeys(q1, id, path, leaf, ks1);
        }
        SharedLast(p, q1, q2, lag, ks1, ks2, path, leaf, id);
      } else {
        LesserLast(p, q1, q2, lag, ks1, ks2, path, leaf, id);
      }
    } else {
      PairKept(q1, q2, path, leaf);
    }
  }

  lemma SharedLast(
        p: Msg, q1: Msg, q2: Msg, lag: int, ks1: set<string>, ks2: set<string>, path: seq<string>, leaf: Leaf,
        id: MsgId)
    requires lag >= 1 && Diverged(p, q1, q2, lag, ks1, ks2) && path != [] && path[0] !in ks1
    requires Holds(q1, id) && id.seqno <= p.id.seqno && PairDecides(q1, q2, id, path, leaf)
    ensures Eff(q1, id, path, leaf).Adds? <==> HasLeaf(p.data, path, leaf)
  {
    hide LeafEffect, HasLeaf, Remembers, Settled, Eff;
    SharedEff(p, q1, id, path, leaf, lag, ks1);
    forall id1 | Holds(p, id1) && IdLess(id, id1) ensures Eff(p, id1, path, leaf).Keeps? {
      assert Holds(q1, id1);
      if id1.seqno <= p.id.seqno {
        SharedEff(p, q1, id1, path, leaf, lag, ks1);
      }
    }
    SettledLeaf(p, id, path, leaf);
  }

  lemma LesserLast(
        p: Msg, q1: Msg, q2: Msg, lag: int, ks1: set<string>, ks2: set<string>, path: seq<string>, leaf: Leaf,
        id: MsgId)
    requires lag >= 1 && Diverged(p, q1, q2, lag, ks1, ks2) && path != [] && path[0] !in ks1
    requires !Holds(q1, id) && Holds(q2, id) && PairDecides(q1, q2, id, path, leaf)
    ensures Eff(q2, id, path, leaf).Adds? <==> HasLeaf(q2.data, path, leaf)
  {
    hide LeafEffect, HasLeaf, Remembers, Settled;
    if id1 :| Holds(q2, id1) && IdLess(id, id1) && !Eff(q2, id1, path, leaf).Keeps? {
      assert Holds(q1, id1);
      SharedEff(p, q1, id1, path, leaf, lag, ks1);
      Unshaped(DiffFor(q2, id1), q1.data, q2.data, path, leaf);
    } else {
      SettledLeaf(q2, id, path, leaf);
    }
  }

  // ----- the result

  /** The windows still hold what the merge needs: a diff for every leaf the lesser run changed, and one
      for every leaf the greater run changed that a diff of the lesser window touches. */
  ghost predicate StillHeld(p: Msg, q1: Msg, q2: Msg) {
    forall path, leaf :: LeafHeld(p, q1, q2, path, leaf)
  }

  ghost predicate LeafHeld(p: Msg, q1: Msg, q2: Msg, path: seq<string>, leaf: Leaf) {
    && (HasLeaf(q2.data, path, leaf) != HasLeaf(p.data, path, leaf) ==> Touches(q2, path, leaf))
    && (HasLeaf(q1.data, path, leaf) != HasLeaf(p.data, path, leaf) && Touches(q2, path, leaf) ==>
          Touches(q1, path, leaf))
  }

  lemma DivergedLeaf(p: Msg, q1: Msg, q2: Msg, lag: int, ks1: set<string>, ks2: set<string>, path: seq<string>,
        leaf: Leaf)
    requires lag >= 1 && Diverged(p, q1, q2, lag, ks1, ks2)
    ensures (HasLeaf(MergedData({q1, q2}), path, leaf) <==>
             ThreeWay(HasLeaf(p.data, path, leaf), HasLeaf(q1.data, path, leaf), HasLeaf(q2.data, path, leaf)))
            <==> LeafHeld(p, q1, q2, path, leaf)
  {
    if path != [] {
      hide LeafEffect, HasLeaf, MergedData, Remembers, Settled, Touches;
      if path[0] !in ks2 {
        EffectLocal(map[], q2.data, p.data, path, leaf);
        if Touches(q1, path, leaf) {
          GreaterTouched(p, q1, q2, lag, ks1, ks2, path, leaf);
        } else if HasLeaf(q1.data, path, leaf) == HasLeaf(p.data, path, leaf) {
          GreaterQuiet(p, q1, q2, lag, ks1, ks2, path, leaf);
        } else {
          GreaterForgotten(p, q1, q2, lag, ks1, ks2, path, leaf);
        }
      } else {
        EffectLocal(map[], q1.data, p.data, path, leaf);
        if HasLeaf(q2.data, path, leaf) == HasLeaf(p.data, path, leaf) {
          LesserQuiet(p, q1, q2, lag, ks1, ks2, path, leaf);
        } else if Touches(q2, path, leaf) {
          LesserTouched(p, q1, q2, lag, ks1, ks2, path, leaf);
        } else {
          LesserForgotten(p, q1, q2, lag, ks1, ks2, path, leaf);
        }
      }
    }
  }

  /** Which of the two take part. */
  lemma DivergedSurvive(p: Msg, q1: Msg, q2: Msg, lag: int, ks1: set<string>, ks2: set<string>)
    requires lag >= 1 && Forked(p, q1, q2, lag, ks1, ks2) && p.id.seqno < q2.id.seqno
    ensures Survivors({q1, q2}, lag) == if q1.id.seqno - q2.id.seqno < lag then {q1, q2} else {q1}
  {
    hide Remembers, Settled, Pruned, DiffDict;
    var v := {q1, q2};
    PairGreatest(q1, q2);
    assert Holds(q1, q1.id) && Holds(q2, q2.id);
    assert !Holds(q1, q2.id) && !Holds(q2, q1.id);
    forall o | o in v ensures !Included(o, v) {}
  }

  /** With separate keys no update is lost exactly when the windows still hold what the merge needs. */
  lemma DivergedMerge(p: Msg, q1: Msg, q2: Msg, lag: int, ks1: set<string>, ks2: set<string>)
    requires lag >= 1 && Diverged(p, q1, q2, lag, ks1, ks2)
    ensures NoUpdateLost(MergedData({q1, q2}), p.data, q1.data, q2.data) <==> StillHeld(p, q1, q2)
  {
    hide Diverged, HasLeaf, MergedData, LeafHeld, ThreeWay;
    forall path, leaf
      ensures (HasLeaf(MergedData({q1, q2}), path, leaf) <==>
               ThreeWay(HasLeaf(p.data, path, leaf), HasLeaf(q1.data, path, leaf), HasLeaf(q2.data, path, leaf)))
              <==> LeafHeld(p, q1, q2, path, leaf)
    {
      DivergedLeaf(p, q1, q2, lag, ks1, ks2, path, leaf);
    }
  }

  /** They hold it as long as the longer run is no longer than the lag. */
  lemma CoveredRunsHeld(p: Msg, q1: Msg, q2: Msg, lag: int)
    requires Remembers(p, q1, lag) && Remembers(p, q2, lag)
    requires q1.id.seqno - p.id.seqno <= lag && q2.id.seqno - p.id.seqno <= lag
    ensures StillHeld(p, q1, q2)
  {
    hide Remembers, HasLeaf, Eff;
    forall path, leaf ensures LeafHeld(p, q1, q2, path, leaf) {
      if HasLeaf(q1.data, path, leaf) != HasLeaf(p.data, path, leaf) {
        QuietRun(p, q1, lag, path, leaf);
      }
      if HasLeaf(q2.data, path, leaf) != HasLeaf(p.data, path, leaf) {
        QuietRun(p, q2, lag, path, leaf);
      }
    }
  }

  lemma RunSettled(p: Msg, h: seq<Dict>, ds: seq<Dict>, lag: int, hashOf: seq<Pair> -> Hash)
    requires lag >= 1 && ValidMsg(p, lag) && Linear(p, h)
    ensures Settled(Run(p, ds, lag, hashOf))
  {
    hide Linear, MergedData, Pruned, Run;
    var k := RunStaysLinear(p, h, ds, lag, hashOf);
    var q := Run(p, ds, lag, hashOf);
    SelfReplay(q, (h + PruneEach(ds))[k..], lag);
  }

  lemma RunsFork(
        p: Msg, h: seq<Dict>, ds: seq<Dict>, es: seq<Dict>, lag: int, hashOf: seq<Pair> -> Hash,
        ks1: set<string>, ks2: set<string>)
    requires lag >= 1 && ValidMsg(p, lag) && Linear(p, h)
    requires forall i :: 0 <= i < |ds| ==> EditsOnly(p.data, Prune(ds[i]), ks1)
    requires forall i :: 0 <= i < |es| ==> EditsOnly(p.data, Prune(es[i]), ks2)
    requires var q1, q2 := Run(p, ds, lag, hashOf), Run(p, es, lag, hashOf);
             && IdLess(q2.id, q1.id)
             && forall id :: Holds(q1, id) && Holds(q2, id) ==> id.seqno <= p.id.seqno
    ensures var q1, q2 := Run(p, ds, lag, hashOf), Run(p, es, lag, hashOf);
            && Forked(p, q1, q2, lag, ks1, ks2)
            && q1.id.seqno == p.id.seqno + |ds| && q2.id.seqno == p.id.seqno + |es|
  {
    hide Run, Descends, Remembers, Settled, EditsOnly, Linear, Pruned;
    RunDescends(p, ds, lag, hashOf, ks1);
    RunDescends(p, es, lag, hashOf, ks2);
    RunSettled(p, h, ds, lag, hashOf);
    RunSettled(p, h, es, lag, hashOf);
    EmptyRunSettled(p, h, lag, hashOf);
  }

  lemma EmptyRunSettled(p: Msg, h: seq<Dict>, lag: int, hashOf: seq<Pair> -> Hash)
    requires lag >= 1 && ValidMsg(p, lag) && Linear(p, h)
    ensures Settled(p)
  {
    hide Linear, MergedData;
    RunSettled(p, h, [], lag, hashOf);
  }

  /** Two devices publish `ds` and `es`, edits of different top-level keys, from the same message.  The
      lesser run takes no part exactly when it is `lag` or more behind; otherwise no update is lost exactly
      when the windows still hold what is needed, as they do for runs of up to `lag` messages. */
  lemma RunsMerge(
        p: Msg, h: seq<Dict>, ds: seq<Dict>, es: seq<Dict>, lag: int, hashOf: seq<Pair> -> Hash,
        ks1: set<string>, ks2: set<string>)
    requires lag >= 1 && ValidMsg(p, lag) && Linear(p, h) && ks1 !! ks2 && es != []
    requires forall i :: 0 <= i < |ds| ==> EditsOnly(p.data, Prune(ds[i]), ks1)
    requires forall i :: 0 <= i < |es| ==> EditsOnly(p.data, Prune(es[i]), ks2)
    requires var q1, q2 := Run(p, ds, lag, hashOf), Run(p, es, lag, hashOf);
             && IdLess(q2.id, q1.id)
             && forall id :: Holds(q1, id) && Holds(q2, id) ==> id.seqno <= p.id.seqno
    ensures var q1, q2 := Run(p, ds, lag, hashOf), Run(p, es, lag, hashOf);
            && Survivors({q1, q2}, lag) == (if |ds| - |es| < lag then {q1, q2} else {q1})
            && (NoUpdateLost(MergedData({q1, q2}), p.data, q1.data, q2.data) <==> StillHeld(p, q1, q2))
            && (|ds| <= lag ==> StillHeld(p, q1, q2))
  {
    hide Run, Descends, Remembers, Settled, EditsOnly, Linear, Pruned, StillHeld, NoUpdateLost, MergedData, Survivors;
    RunsFork(p, h, ds, es, lag, hashOf, ks1, ks2);
    var q1, q2 := Run(p, ds, lag, hashOf), Run(p, es, lag, hashOf);
    DivergedSurvive(p, q1, q2, lag, ks1, ks2);
    DivergedMerge(p, q1, q2, lag, ks1, ks2);
    if |ds| <= lag {
      CoveredRunsHeld(p, q1, q2, lag);
    }
  }

  /** The lesser run alone is lost when it is too far behind: nothing is lost exactly when it changed nothing. */
  lemma TooFarBehind(p: Msg, q1: Msg, q2: Msg, lag: int, ks1: set<string>, ks2: set<string>)
    requires lag >= 1 && Diverged(p, q1, q2, lag, ks1, ks2)
    ensures NoUpdateLost(q1.data, p.data, q1.data, q2.data) <==> q2.data == p.data
  {
    hide LeafEffect, Remembers, MergedData;
    if NoUpdateLost(q1.data, p.data, q1.data, q2.data) {
      forall path, leaf ensures HasLeaf(q2.data, path, leaf) <==> HasLeaf(p.data, path, leaf) {
        if path != [] {
          if path[0] in ks1 {
            EffectLocal(map[], q2.data, p.data, path, leaf);
          } else {
            EffectLocal(map[], q1.data, p.data, path, leaf);
          }
        }
      }
      PrunedFormUnique(q2.data, p.data);
    }
  }

  // ----- the bound on the runs is sharp

  lemma SameUnder(a: Dict, b: Dict, s: Dict, path: seq<string>, leaf: Leaf)
    requires path != [] && Lookup(a, path[0]) == Lookup(b, path[0])
    ensures LeafEffect(DiffDict(a, b), s, path, leaf).Keeps?
  {
    DiffLookup(a, b, path[0]);
  }

  /** A linear message whose versions are all the same under a key does not touch what is there. */
  lemma SteadyKey(q: Msg, h: seq<Dict>, path: seq<string>, leaf: Leaf)
    requires Linear(q, h) && path != []
    requires forall i :: 0 <= i < |h| - 1 ==> Lookup(h[i], path[0]) == Lookup(h[i + 1], path[0])
    ensures !Touches(q, path, leaf)
  {
    hide LeafEffect, DiffDict;
    forall id | Holds(q, id) ensures Eff(q, id, path, leaf).Keeps? {
      assert id in Chain(q);
      var i :| 0 <= i < |Chain(q)| && Chain(q)[i] == id;
      assert LinearAt(q, h, i);
      SameUnder(h[i], h[i + 1], q.data, path, leaf);
    }
  }

  /** A run of one message more than the lag: first the key `k` is set, then `other` comes and goes. */
  function LongRun(k: string, other: string, lag: nat): (ds: seq<Dict>)
    ensures |ds| == lag + 1
  {
    var one := ScalarV(Int(1));
    seq(lag + 1, i => if i % 2 == 0 then map[k := one] else map[k := one, other := one])
  }

  lemma LongRunPruned(k: string, other: string, lag: nat, i: nat)
    requires i <= lag
    ensures var d := LongRun(k, other, lag)[i];
            && Prune(d) == d && d.Keys <= {k, other} && k in d && d[k] == ScalarV(Int(1))
  {
    var d := LongRun(k, other, lag)[i];
    forall j | j in d ensures PrunedValue(d[j]) {
      assert d[j].ScalarV?;
    }
    PruneIsNormalForm(d, d);
  }

  lemma LongRunEdits(p: Dict, k: string, other: string, lag: nat)
    requires p == map[]
    ensures forall i :: 0 <= i < |LongRun(k, other, lag)| ==> EditsOnly(p, Prune(LongRun(k, other, lag)[i]), {k, other})
  {
    hide LongRun;
    forall i | 0 <= i < |LongRun(k, other, lag)|
      ensures EditsOnly(p, Prune(LongRun(k, other, lag)[i]), {k, other})
    {
      LongRunPruned(k, other, lag, i);
    }
  }

  /** At its end the window no longer reaches back to the first edit. */
  lemma LongRunForgets(p: Msg, k: string, other: string, lag: nat, hashOf: seq<Pair> -> Hash)
    requires lag >= 1 && p.data == map[] && p.diff == map[] && p.lagged == map[]
    ensures var q, leaf := Run(p, LongRun(k, other, lag), lag, hashOf), ScalarLeaf(Int(1));
            !Touches(q, [k], leaf) && HasLeaf(q.data, [k], leaf)
  {
    hide Run, LongRun, Pruned, LeafEffect, Prune, DiffDict, Touches;
    var ds, h := LongRun(k, other, lag), [map[], map[]];
    var q, versions := Run(p, ds, lag, hashOf), h + PruneEach(ds);
    DefaultIsLinear(p, lag);
    DefaultChain(p);
    var j := RunStaysLinear(p, h, ds, lag, hashOf);
    assert |versions[j..]| == lag + 1;
    forall i | 0 <= i < |versions[j..]| ensures Lookup(versions[j..][i], k) == Some(ScalarV(Int(1))) {
      assert j == 2 && versions[j..][i] == Prune(ds[i]);
      LongRunPruned(k, other, lag, i);
    }
    SteadyKey(q, versions[j..], [k], ScalarLeaf(Int(1)));
    assert q.data == versions[j..][lag];
  }

  lemma DefaultChain(p: Msg)
    requires p.lagged == map[]
    ensures |Chain(p)| == 1
  {
    assert Ids(p.lagged) == [];
  }

  /** For every lag: of two runs of one message more than the lag, whatever their hashes, the lesser one's
      first edit is lost. */
  lemma LagTooShort(p: Msg, lag: nat, hashOf: seq<Pair> -> Hash, ds: seq<Dict>, es: seq<Dict>)
    requires p.data == map[] && p.diff == map[] && p.lagged == map[] && lag >= 1
    requires ds == LongRun("a", "b", lag) && es == LongRun("x", "y", lag)
    requires var q1, q2 := Run(p, ds, lag, hashOf), Run(p, es, lag, hashOf);
             && IdLess(q2.id, q1.id)
             && forall id :: Holds(q1, id) && Holds(q2, id) ==> id.seqno <= p.id.seqno
    ensures var q1, q2, leaf := Run(p, ds, lag, hashOf), Run(p, es, lag, hashOf), ScalarLeaf(Int(1));
            && Survivors({q1, q2}, lag) == {q1, q2}
            && HasLeaf(q2.data, ["x"], leaf) && !HasLeaf(MergedData({q1, q2}), ["x"], leaf)
  {
    hide Run, Survivors, MergedData, Prune, Pruned, EditsOnly, Forked, LeafEffect, DiffDict, Linear, LongRun, Touches;
    var q1, q2, ks1, ks2 := Run(p, ds, lag, hashOf), Run(p, es, lag, hashOf), {"a", "b"}, {"x", "y"};
    LongRunEdits(p.data, "a", "b", lag);
    LongRunEdits(p.data, "x", "y", lag);
    DefaultIsLinear(p, lag);
    RunsFork(p, [map[], map[]], ds, es, lag, hashOf, ks1, ks2);
    DivergedSurvive(p, q1, q2, lag, ks1, ks2);
    LongRunForgets(p, "x", "y", lag, hashOf);
    LesserForgotten(p, q1, q2, lag, ks1, ks2, ["x"], ScalarLeaf(Int(1)));
  }

  // ----- runs that the lag covers, whatever they edit

  /** A diff of `q`'s run, since `p`, that touches the leaf. */
  ghost predicate RunTouches(p: Msg, q: Msg, id: MsgId, path: seq<string>, leaf: Leaf) {
    Holds(q, id) && id.seqno > p.id.seqno && !Eff(q, id, path, leaf).Keeps?
  }

  /** The run to `a` touches the leaf after the run to `b` last did. */
  ghost predicate Outlasts(p: Msg, a: Msg, b: Msg, path: seq<string>, leaf: Leaf) {
    exists id :: RunTouches(p, a, id, path, leaf) && forall id' :: RunTouches(p, b, id', path, leaf) ==> IdLess(id', id)
  }

  /** The run that changed the leaf is the last to touch it; leaves on which both agree do not matter. */
  ghost predicate ChangerLast(p: Msg, q1: Msg, q2: Msg, path: seq<string>, leaf: Leaf) {
    HasLeaf(q1.data, path, leaf) != HasLeaf(q2.data, path, leaf) ==>
      if HasLeaf(q1.data, path, leaf) != HasLeaf(p.data, path, leaf)
      then Outlasts(p, q1, q2, path, leaf) else Outlasts(p, q2, q1, path, leaf)
  }

  /** The last diff of the merge, if it is of a run, leaves the leaf as that run has it. */
  lemma LastOfRun(
        p: Msg, q1: Msg, q2: Msg, lag: int, ks1: set<string>, ks2: set<string>, path: seq<string>, leaf: Leaf,
        id: MsgId)
    requires Forked(p, q1, q2, lag, ks1, ks2) && PairDecides(q1, q2, id, path, leaf) && id.seqno > p.id.seqno
    ensures var q := if Holds(q1, id) then q1 else q2;
            HasLeaf(MergedData({q1, q2}), path, leaf) <==> HasLeaf(q.data, path, leaf)
  {
    hide LeafEffect, HasLeaf, MergedData, Remembers, Settled, Descends, Eff;
    PairDecided(q1, q2, id, path, leaf);
    if Holds(q1, id) {
      assert DecidesFor(q1, id, path, leaf);
      SettledLeaf(q1, id, path, leaf);
    } else {
      forall id' | Holds(q2, id') && IdLess(id, id') ensures Eff(q2, id', path, leaf).Keeps? {
        assert id'.seqno > p.id.seqno && !Holds(q1, id');
      }
      SettledLeaf(q2, id, path, leaf);
    }
  }

  /** The last diff of the merge, if it is from before the fork, leaves the leaf as one of the messages
      has it. */
  lemma LastBeforeFork(
        p: Msg, q1: Msg, q2: Msg, lag: int, ks1: set<string>, ks2: set<string>, path: seq<string>, leaf: Leaf,
        id: MsgId)
    requires Forked(p, q1, q2, lag, ks1, ks2) && PairDecides(q1, q2, id, path, leaf) && id.seqno <= p.id.seqno
    requires HasLeaf(q1.data, path, leaf) == HasLeaf(q2.data, path, leaf)
    ensures HasLeaf(MergedData({q1, q2}), path, leaf) <==> HasLeaf(q1.data, path, leaf)
  {
    hide LeafEffect, HasLeaf, MergedData, Remembers, Settled;
    PairDecided(q1, q2, id, path, leaf);
    if Holds(q1, id) {
      assert DecidesFor(q1, id, path, leaf);
      SettledLeaf(q1, id, path, leaf);
    } else if id1 :| Holds(q2, id1) && IdLess(id, id1) && !Eff(q2, id1, path, leaf).Keeps? {
      assert Holds(q1, id1) && DiffFor(q1, id1) == DiffFor(q2, id1);
      Unshaped(DiffFor(q2, id1), q1.data, q2.data, path, leaf);
    } else {
      SettledLeaf(q2, id, path, leaf);
    }
  }

  /** The order of two touching diffs of the runs, when one of them is the last of the merge. */
  lemma LastIsLater(
        p: Msg, q1: Msg, q2: Msg, lag: int, ks1: set<string>, ks2: set<string>, path: seq<string>, leaf: Leaf,
        id: MsgId, other: MsgId)
    requires Forked(p, q1, q2, lag, ks1, ks2) && PairDecides(q1, q2, id, path, leaf) && other != id
    requires RunTouches(p, q1, other, path, leaf) || RunTouches(p, q2, other, path, leaf)
    ensures IdLess(other, id) && !IdLess(id, other)
  {
    hide LeafEffect, Eff, Remembers, Settled, Descends;
    IdOrder();
    assert IdLess(id, other) || IdLess(other, id);
  }

  /** Leaf by leaf: the merge is right exactly when the run that changed the leaf is the last to touch it. */
  lemma CoveredLeaf(p: Msg, q1: Msg, q2: Msg, lag: int, ks1: set<string>, ks2: set<string>, path: seq<string>,
        leaf: Leaf)
    requires Forked(p, q1, q2, lag, ks1, ks2)
    requires q1.id.seqno - p.id.seqno <= lag && q2.id.seqno - p.id.seqno <= lag
    ensures (HasLeaf(MergedData({q1, q2}), path, leaf) <==>
             ThreeWay(HasLeaf(p.data, path, leaf), HasLeaf(q1.data, path, leaf), HasLeaf(q2.data, path, leaf)))
            <==> ChangerLast(p, q1, q2, path, leaf)
  {
    hide LeafEffect, HasLeaf, MergedData, Remembers, Settled, Descends, Eff, Outlasts, PairDecides;
    if PairTouches(q1, q2, path, leaf) {
      var id := LastOfPair(q1, q2, path, leaf);
      if id.seqno > p.id.seqno {
        LastOfRun(p, q1, q2, lag, ks1, ks2, path, leaf, id);
        LastOutlasts(p, q1, q2, lag, ks1, ks2, path, leaf, id);
      } else {
        QuietSince(p, q1, q2, lag, ks1, ks2, path, leaf, id);
        LastBeforeFork(p, q1, q2, lag, ks1, ks2, path, leaf, id);
      }
    } else {
      UntouchedRuns(p, q1, q2, lag, ks1, ks2, path, leaf);
      PairKept(q1, q2, path, leaf);
    }
  }

  /** The run with the last diff outlasts the other, and is not outlasted. */
  lemma LastOutlasts(
        p: Msg, q1: Msg, q2: Msg, lag: int, ks1: set<string>, ks2: set<string>, path: seq<string>, leaf: Leaf,
        id: MsgId)
    requires Forked(p, q1, q2, lag, ks1, ks2) && PairDecides(q1, q2, id, path, leaf) && id.seqno > p.id.seqno
    ensures Holds(q1, id) ==> Outlasts(p, q1, q2, path, leaf) && !Outlasts(p, q2, q1, path, leaf)
    ensures !Holds(q1, id) ==> Outlasts(p, q2, q1, path, leaf) && !Outlasts(p, q1, q2, path, leaf)
  {
    hide LeafEffect, Eff, Remembers, Settled, Descends, IdLess;
    var (a, b) := if Holds(q1, id) then (q1, q2) else (q2, q1);
    assert RunTouches(p, a, id, path, leaf) && !Holds(b, id);
    forall id' | RunTouches(p, b, id', path, leaf) ensures IdLess(id', id) && !IdLess(id, id') {
      LastIsLater(p, q1, q2, lag, ks1, ks2, path, leaf, id, id');
    }
  }

  /** If the last diff is from before the fork, neither run changed the leaf. */
  lemma QuietSince(
        p: Msg, q1: Msg, q2: Msg, lag: int, ks1: set<string>, ks2: set<string>, path: seq<string>, leaf: Leaf,
        id: MsgId)
    requires Forked(p, q1, q2, lag, ks1, ks2) && PairDecides(q1, q2, id, path, leaf) && id.seqno <= p.id.seqno
    requires q1.id.seqno - p.id.seqno <= lag && q2.id.seqno - p.id.seqno <= lag
    ensures HasLeaf(q1.data, path, leaf) == HasLeaf(p.data, path, leaf) == HasLeaf(q2.data, path, leaf)
  {
    hide LeafEffect, HasLeaf, Eff, Remembers, Settled, Descends, PairDecides;
    forall q | q == q1 || q == q2 ensures HasLeaf(q.data, path, leaf) == HasLeaf(p.data, path, leaf) {
      if HasLeaf(q.data, path, leaf) != HasLeaf(p.data, path, leaf) {
        QuietRun(p, q, lag, path, leaf);
        var other :| Holds(q, other) && other.seqno > p.id.seqno && !Eff(q, other, path, leaf).Keeps?;
        LastIsLater(p, q1, q2, lag, ks1, ks2, path, leaf, id, other);
      }
    }
  }

  lemma UntouchedRuns(p: Msg, q1: Msg, q2: Msg, lag: int, ks1: set<string>, ks2: set<string>,
        path: seq<string>, leaf: Leaf)
    requires Forked(p, q1, q2, lag, ks1, ks2) && !PairTouches(q1, q2, path, leaf)
    requires q1.id.seqno - p.id.seqno <= lag && q2.id.seqno - p.id.seqno <= lag
    ensures HasLeaf(q1.data, path, leaf) == HasLeaf(p.data, path, leaf) == HasLeaf(q2.data, path, leaf)
  {
    hide LeafEffect, HasLeaf, Eff, Remembers, Settled, Descends;
    if HasLeaf(q1.data, path, leaf) != HasLeaf(p.data, path, leaf) {
      QuietRun(p, q1, lag, path, leaf);
    }
    if HasLeaf(q2.data, path, leaf) != HasLeaf(p.data, path, leaf) {
      QuietRun(p, q2, lag, path, leaf);
    }
  }

  /** No update is lost exactly when every leaf is last touched by the run that changed it. */
  lemma CoveredMerge(p: Msg, q1: Msg, q2: Msg, lag: int, ks1: set<string>, ks2: set<string>)
    requires Forked(p, q1, q2, lag, ks1, ks2)
    requires q1.id.seqno - p.id.seqno <= lag && q2.id.seqno - p.id.seqno <= lag
    ensures NoUpdateLost(MergedData({q1, q2}), p.data, q1.data, q2.data) <==>
            forall path, leaf :: ChangerLast(p, q1, q2, path, leaf)
  {
    hide Forked, HasLeaf, MergedData, ChangerLast, ThreeWay;
    forall path, leaf
      ensures (HasLeaf(MergedData({q1, q2}), path, leaf) <==>
               ThreeWay(HasLeaf(p.data, path, leaf), HasLeaf(q1.data, path, leaf), HasLeaf(q2.data, path, leaf)))
              <==> ChangerLast(p, q1, q2, path, leaf)
    {
      CoveredLeaf(p, q1, q2, lag, ks1, ks2, path, leaf);
    }
  }

  /** The keys of all versions of a run. */
  function KeysOf(ds: seq<Dict>): set<string> {
    if ds == [] then {} else Prune(ds[0]).Keys + KeysOf(ds[1..])
  }

  lemma {:induction false} KeysOfAll(p: Dict, ds: seq<Dict>, ks: set<string>)
    requires p.Keys + KeysOf(ds) <= ks
    ensures forall i :: 0 <= i < |ds| ==> EditsOnly(p, Prune(ds[i]), ks)
  {
    if ds == [] {
    } else {
      KeysOfAll(p, ds[1..], ks);
      forall i | 0 <= i < |ds| ensures EditsOnly(p, Prune(ds[i]), ks) {
        assert i > 0 ==> ds[i] == ds[1..][i - 1];
      }
    }
  }

  /** Two devices publish any edits `ds` and `es`, up to `lag` of them, from the same message: both take
      part, and no update is lost exactly when every leaf is last touched by the run that changed it. */
  lemma RunsMergeExactly(p: Msg, h: seq<Dict>, ds: seq<Dict>, es: seq<Dict>, lag: int, hashOf: seq<Pair> -> Hash)
    requires lag >= 1 && ValidMsg(p, lag) && Linear(p, h) && es != [] && |ds| <= lag
    requires var q1, q2 := Run(p, ds, lag, hashOf), Run(p, es, lag, hashOf);
             && IdLess(q2.id, q1.id)
             && forall id :: Holds(q1, id) && Holds(q2, id) ==> id.seqno <= p.id.seqno
    ensures var q1, q2 := Run(p, ds, lag, hashOf), Run(p, es, lag, hashOf);
            && Survivors({q1, q2}, lag) == {q1, q2}
            && (NoUpdateLost(MergedData({q1, q2}), p.data, q1.data, q2.data) <==>
                forall path, leaf :: ChangerLast(p, q1, q2, path, leaf))
  {
    hide Run, Descends, Remembers, Settled, EditsOnly, Linear, Pruned, NoUpdateLost, MergedData, Survivors;
    hide ChangerLast, Prune, KeysOf;
    var ks1, ks2 := p.data.Keys + KeysOf(ds), p.data.Keys + KeysOf(es);
    KeysOfAll(p.data, ds, ks1);
    KeysOfAll(p.data, es, ks2);
    RunsFork(p, h, ds, es, lag, hashOf, ks1, ks2);
    var q1, q2 := Run(p, ds, lag, hashOf), Run(p, es, lag, hashOf);
    DivergedSurvive(p, q1, q2, lag, ks1, ks2);
    CoveredMerge(p, q1, q2, lag, ks1, ks2);
  }

  /** In particular nothing is lost when no leaf is touched by both runs. */
  lemma ApartRunsKept(p: Msg, q1: Msg, q2: Msg, lag: int, ks1: set<string>, ks2: set<string>)
    requires Forked(p, q1, q2, lag, ks1, ks2)
    requires q1.id.seqno - p.id.seqno <= lag && q2.id.seqno - p.id.seqno <= lag
    requires forall path, leaf, id, id' ::
               !(RunTouches(p, q1, id, path, leaf) && RunTouches(p, q2, id', path, leaf))
    ensures NoUpdateLost(MergedData({q1, q2}), p.data, q1.data, q2.data)
  {
    hide HasLeaf, MergedData, LeafEffect, Eff, Remembers, Settled, Descends, NoUpdateLost;
    CoveredMerge(p, q1, q2, lag, ks1, ks2);
    forall path, leaf ensures ChangerLast(p, q1, q2, path, leaf) {
      forall q | q == q1 || q == q2
        ensures HasLeaf(q.data, path, leaf) != HasLeaf(p.data, path, leaf) ==>
            exists id :: RunTouches(p, q, id, path, leaf)
      {
        if HasLeaf(q.data, path, leaf) != HasLeaf(p.data, path, leaf) {
          QuietRun(p, q, lag, path, leaf);
          var id :| Holds(q, id) && id.seqno > p.id.seqno && !Eff(q, id, path, leaf).Keeps?;
          assert RunTouches(p, q, id, path, leaf);
        }
      }
    }
  }
}
