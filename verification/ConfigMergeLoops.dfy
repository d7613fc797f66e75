/** The merging constructor itself: its passes over the list of parsed messages, each proved to
    compute the corresponding function of the set of messages. */
module ConfigMergeLoops {
  import opened Options
  import opened Ordering
  import opened ConfigData
  import opened ConfigApply
  import opened ConfigTree
  import opened ConfigMessage
  import opened ConfigMerge

  ghost function AsSet(configs: seq<Msg>): (s: set<Msg>)
    ensures configs != [] ==> s != {}
  {
    var s := set m | m in configs;
    assert configs != [] ==> configs[0] in s;
    s
  }

  // ----- the redundancy pass

  /** `configs[i]` is carried by another message's lagged diffs, or repeats an earlier message. */
  ghost predicate CoveredAt(configs: seq<Msg>, i: nat, j: nat)
    requires i < |configs| && j < |configs|
  {
    i != j && (configs[i].id in configs[j].lagged || (j < i && configs[j].id == configs[i].id))
  }

  ghost predicate Covered(configs: seq<Msg>, i: nat)
    requires i < |configs|
  {
    exists j :: 0 <= j < |configs| && CoveredAt(configs, i, j)
  }

  method IsCovered(configs: seq<Msg>, i: nat) returns (redundant: bool)
    requires i < |configs|
    ensures redundant <==> Covered(configs, i)
  {
    redundant := false;
    var j := 0;
    while !redundant && j < |configs|
      invariant 0 <= j <= |configs|
      invariant redundant <==> exists k :: 0 <= k < j && CoveredAt(configs, i, k)
    {
      if i != j {
        if configs[i].id in configs[j].lagged {
          redundant := true;
        } else if j < i && configs[j].id == configs[i].id {
          redundant := true;
        }
      }
      assert redundant ==> CoveredAt(configs, i, j);
      j := j + 1;
    }
  }

  ghost predicate Dropped(configs: seq<Msg>, i: nat, lag: int, maxSeqno: int)
    requires i < |configs|
  {
    Covered(configs, i) || configs[i].id.seqno + lag <= maxSeqno
  }

  lemma HighestSeqno(configs: seq<Msg>, at: nat)
    requires at < |configs| && forall k :: 0 <= k < |configs| ==> configs[k].id.seqno <= configs[at].id.seqno
    ensures configs[at].id.seqno == Greatest(AsSet(configs)).id.seqno
  {
    var top := Greatest(AsSet(configs));
    assert configs[at] in AsSet(configs);
    var t :| 0 <= t < |configs| && configs[t] == top;
  }

  /** Marks covered and duplicate messages while finding the highest seqno, then the too old ones. */
  method MarkRedundant(configs: seq<Msg>, lag: int) returns (redundant: seq<bool>, maxSeqno: int)
    requires configs != []
    ensures |redundant| == |configs|
    ensures maxSeqno == Greatest(AsSet(configs)).id.seqno
    ensures forall i :: 0 <= i < |configs| ==> (redundant[i] <==> Dropped(configs, i, lag, maxSeqno))
  {
    var covered: seq<bool> := [];
    maxSeqno := configs[0].id.seqno;
    ghost var at := 0;
    for i := 0 to |configs|
      invariant |covered| == i
      invariant 0 <= at < |configs| && configs[at].id.seqno == maxSeqno
      invariant forall k :: 0 <= k < i ==> configs[k].id.seqno <= maxSeqno
      invariant forall k :: 0 <= k < i ==> (covered[k] <==> Covered(configs, k))
    {
      if configs[i].id.seqno > maxSeqno {
        maxSeqno, at := configs[i].id.seqno, i;
      }
      var c := IsCovered(configs, i);
      covered := covered + [c];
    }
    HighestSeqno(configs, at);
    redundant := seq(|covered|, i requires 0 <= i < |covered| =>
      covered[i] || configs[i].id.seqno + lag <= maxSeqno);
  }

  /** A message that is kept takes part. */
  lemma KeptSurvives(configs: seq<Msg>, i: nat, lag: int)
    requires i < |configs| && lag >= 1 && AllValid(AsSet(configs), lag)
    requires !Dropped(configs, i, lag, Greatest(AsSet(configs)).id.seqno)
    ensures configs[i] in Survivors(AsSet(configs), lag)
  {
    var s, m := AsSet(configs), configs[i];
    forall o | o in s ensures m.id !in o.lagged {
      var j :| 0 <= j < |configs| && configs[j] == o;
      if j == i {
        assert ValidMsg(o, lag);
      } else {
        assert !CoveredAt(configs, i, j);
      }
    }
  }

  /** The first occurrence of a message that takes part is kept, and no later one is. */
  lemma FirstSurvivorKept(configs: seq<Msg>, i: nat, lag: int)
    requires i < |configs| && IdsDistinguish(AsSet(configs))
    requires configs[i] in Survivors(AsSet(configs), lag)
    ensures Dropped(configs, i, lag, Greatest(AsSet(configs)).id.seqno) <==> configs[i] in configs[..i]
  {
    var s, m := AsSet(configs), configs[i];
    if configs[i] in configs[..i] {
      var j :| 0 <= j < i && configs[j] == configs[i];
      assert CoveredAt(configs, i, j);
    } else {
      forall j | 0 <= j < |configs| ensures !CoveredAt(configs, i, j) {
        assert configs[j] in s;
        assert j < i ==> configs[j] in configs[..i];
      }
    }
  }

  ghost predicate DistinctMsgs(configs: seq<Msg>) {
    forall i, j :: 0 <= i < j < |configs| ==> configs[i] != configs[j]
  }

  /** Erases the redundant messages; what is left are the survivors, each once. */
  method KeepSurvivors(configs: seq<Msg>, redundant: seq<bool>, lag: int) returns (kept: seq<nat>)
    requires configs != [] && lag >= 1 && |redundant| == |configs|
    requires AllValid(AsSet(configs), lag) && IdsDistinguish(AsSet(configs))
    requires forall i :: 0 <= i < |configs| ==>
               (redundant[i] <==> Dropped(configs, i, lag, Greatest(AsSet(configs)).id.seqno))
    ensures forall k :: 0 <= k < |kept| ==> kept[k] < |configs| && !redundant[kept[k]]
    ensures DistinctMsgs(Chosen(configs, kept))
    ensures AsSet(Chosen(configs, kept)) == Survivors(AsSet(configs), lag)
    ensures forall i :: 0 <= i < |configs| && !redundant[i] ==> configs[i] in Survivors(AsSet(configs), lag)
  {
    hide Dropped, Survivors;
    kept := [];
    ghost var v := Survivors(AsSet(configs), lag);
    for i := 0 to |configs|
      invariant forall k :: 0 <= k < |kept| ==> kept[k] < i && !redundant[kept[k]]
      invariant DistinctMsgs(Chosen(configs, kept))
      invariant forall m :: m in Chosen(configs, kept) <==> m in configs[..i] && m in v
      invariant forall k :: 0 <= k < i && !redundant[k] ==> configs[k] in v
    {
      TakeNext(configs, i);
      assert configs[i] in AsSet(configs);
      if configs[i] in v {
        FirstSurvivorKept(configs, i, lag);
      } else if !redundant[i] {
        KeptSurvives(configs, i, lag);
      }
      if !redundant[i] {
        assert Chosen(configs, kept + [i]) == Chosen(configs, kept) + [configs[i]];
        kept := kept + [i];
      }
    }
    assert configs[..|configs|] == configs;
    forall m ensures m in AsSet(Chosen(configs, kept)) <==> m in v {
      SurvivorsListed(configs, lag, m);
    }
  }

  lemma SurvivorsListed(configs: seq<Msg>, lag: int, m: Msg)
    requires AsSet(configs) != {}
    ensures m in Survivors(AsSet(configs), lag) ==> m in configs
  {
  }

  function Chosen(configs: seq<Msg>, kept: seq<nat>): seq<Msg>
    requires forall k :: 0 <= k < |kept| ==> kept[k] < |configs|
  {
    seq(|kept|, k requires 0 <= k < |kept| => configs[kept[k]])
  }

  // ----- choosing one message

  /** `std::max_element` with redundant messages below all others. */
  method BestConfig(configs: seq<Msg>, redundant: seq<bool>, kept: seq<nat>) returns (best: nat)
    requires |redundant| == |configs| && kept != []
    requires forall k :: 0 <= k < |kept| ==> kept[k] < |configs| && !redundant[kept[k]]
    ensures best < |configs| && !redundant[best]
    ensures forall i :: 0 <= i < |configs| && !redundant[i] ==>
              configs[i].id == configs[best].id || IdLess(configs[i].id, configs[best].id)
  {
    assert kept[0] < |configs|;
    best := 0;
    for i := 0 to |configs|
      invariant best < |configs|
      invariant forall k :: 0 <= k < i && !redundant[k] ==>
                  !redundant[best] && (configs[k].id == configs[best].id || IdLess(configs[k].id, configs[best].id))
    {
      if if redundant[best] != redundant[i] then redundant[best] else IdLess(configs[best].id, configs[i].id) {
        assert forall k :: 0 <= k < i && !redundant[k] ==> IdLess(configs[k].id, configs[i].id) by {
          IdOrder();
        }
        best := i;
      } else {
        IdLessConnected(configs[i].id, configs[best].id);
      }
    }
    assert !redundant[kept[0]];
  }

  lemma IdLessConnected(a: MsgId, b: MsgId)
    ensures IdLess(a, b) || a == b || IdLess(b, a)
  {
    IdOrder();
  }

  // ----- the replay map

  predicate IdGreater(a: MsgId, b: MsgId) {
    IdLess(b, a)
  }

  ghost predicate Descending(configs: seq<Msg>) {
    forall i, j :: 0 <= i < j < |configs| ==> IdLess(configs[j].id, configs[i].id)
  }

  function ById(configs: seq<Msg>): (m: map<MsgId, Msg>)
    ensures forall id :: id in m ==> m[id] in configs && m[id].id == id
    ensures forall c :: c in configs ==> c.id in m
  {
    if configs == [] then map[]
    else
      var n := |configs| - 1;
      assert configs == configs[..n] + [configs[n]];
      ById(configs[..n])[configs[n].id := configs[n]]
  }

  /** The messages listed by `ids`. */
  function Listed(byId: map<MsgId, Msg>, ids: seq<MsgId>): (ms: seq<Msg>)
    requires forall id :: id in ids ==> id in byId
    ensures |ms| == |ids| && forall i :: 0 <= i < |ids| ==> ids[i] in byId && ms[i] == byId[ids[i]]
  {
    assert forall i :: 0 <= i < |ids| ==> ids[i] in ids;
    seq(|ids|, i requires 0 <= i < |ids| => byId[ids[i]])
  }

  lemma ListedAll(configs: seq<Msg>, byId: map<MsgId, Msg>, ids: seq<MsgId>)
    requires IdsDistinguish(AsSet(configs))
    requires forall id :: id in byId ==> byId[id] in configs && byId[id].id == id
    requires forall c :: c in configs ==> c.id in byId
    requires forall id :: id in ids <==> id in byId
    ensures AsSet(Listed(byId, ids)) == AsSet(configs)
  {
    var sorted := Listed(byId, ids);
    forall m ensures m in sorted <==> m in configs {
      if m in configs {
        assert byId[m.id] in AsSet(configs) && m in AsSet(configs);
        assert m.id in ids;
        var i :| 0 <= i < |ids| && ids[i] == m.id;
        assert sorted[i] == m;
      }
      if m in sorted {
        var i :| 0 <= i < |sorted| && sorted[i] == m;
        assert ids[i] in ids;
      }
    }
  }

  lemma ListedDescending(byId: map<MsgId, Msg>, ids: seq<MsgId>)
    requires Ascending(ids, IdGreater) && forall id :: id in ids ==> id in byId
    requires forall id :: id in byId ==> byId[id].id == id
    ensures Descending(Listed(byId, ids))
  {
    var ms := Listed(byId, ids);
    forall i, j | 0 <= i < j < |ms| ensures IdLess(ms[j].id, ms[i].id) {
      assert IdGreater(ids[i], ids[j]);
    }
  }

  method IdsDescending(byId: map<MsgId, Msg>) returns (ids: seq<MsgId>)
    ensures Ascending(ids, IdGreater) && forall id :: id in ids <==> id in byId
  {
    assert TotalOrder(IdGreater) by { IdOrder(); }
    ids := Ascend(byId.Keys, IdGreater);
  }

  /** `std::sort` by descending (seqno, hash). */
  method SortDescending(configs: seq<Msg>) returns (sorted: seq<Msg>)
    requires IdsDistinguish(AsSet(configs))
    ensures Descending(sorted)
    ensures AsSet(sorted) == AsSet(configs)
  {
    hide ById, AsSet, Ascending, Descending;
    var byId := ById(configs);
    var ids := IdsDescending(byId);
    ListedAll(configs, byId, ids);
    ListedDescending(byId, ids);
    sorted := Listed(byId, ids);
  }

  // ----- emplacing

  ghost function At(replay: map<MsgId, Entry>, id: MsgId): Option<Entry> {
    if id in replay then Some(replay[id]) else None
  }

  /** The entry a message offers for an id, if it holds it. */
  ghost function Offer(conf: Msg, id: MsgId): Option<Entry> {
    if Holds(conf, id) then Some(Entry(DiffFor(conf, id), conf.data)) else None
  }

  /** `emplace` of a message's own diff and of its lagged ones: nothing already there is replaced. */
  method EmplaceAll(replay: map<MsgId, Entry>, conf: Msg) returns (r: map<MsgId, Entry>)
    requires conf.id !in conf.lagged
    ensures forall id :: At(r, id) == if id in replay then At(replay, id) else Offer(conf, id)
  {
    r := if conf.id in replay then replay else replay[conf.id := Entry(conf.diff, conf.data)];
    var ids := IdsInOrder(conf.lagged);
    hide Ascending;
    for i := 0 to |ids|
      invariant forall id :: At(r, id) ==
                  if id in replay || !(id == conf.id || id in ids[..i]) then At(replay, id) else Offer(conf, id)
    {
      var id := ids[i];
      PassedId(ids, i);
      if id !in r {
        r := r[id := Entry(conf.lagged[id], conf.data)];
      } else {
        assert At(r, id).Some?;
      }
    }
    assert ids[..|ids|] == ids;
  }

  ghost predicate FirstHolder(sorted: seq<Msg>, n: nat, id: MsgId, e: Entry)
    requires n <= |sorted|
  {
    exists j :: 0 <= j < n && Holds(sorted[j], id) && e == Entry(DiffFor(sorted[j], id), sorted[j].data)
                && forall k :: 0 <= k < j ==> !Holds(sorted[k], id)
  }

  ghost predicate ReplaySoFar(sorted: seq<Msg>, n: nat, replay: map<MsgId, Entry>)
    requires n <= |sorted|
  {
    && (forall id, j :: 0 <= j < n && Holds(sorted[j], id) ==> id in replay)
    && (forall id :: id in replay ==> FirstHolder(sorted, n, id, replay[id]))
  }

  lemma EmplaceNext(sorted: seq<Msg>, i: nat, replay: map<MsgId, Entry>, next: map<MsgId, Entry>)
    requires i < |sorted| && ReplaySoFar(sorted, i, replay)
    requires forall id :: At(next, id) == if id in replay then At(replay, id) else Offer(sorted[i], id)
    ensures ReplaySoFar(sorted, i + 1, next)
  {
    forall id, j | 0 <= j < i + 1 && Holds(sorted[j], id) ensures id in next {
      assert At(next, id) == if id in replay then At(replay, id) else Offer(sorted[i], id);
    }
    forall id | id in next ensures FirstHolder(sorted, i + 1, id, next[id]) {
      assert At(next, id) == if id in replay then At(replay, id) else Offer(sorted[i], id);
      if id in replay {
        assert FirstHolder(sorted, i, id, replay[id]);
      } else {
        assert Holds(sorted[i], id);
      }
    }
  }

  /** Walking the messages from the greatest down, so that the greatest holder's entry stays. */
  method BuildReplay(sorted: seq<Msg>) returns (replay: map<MsgId, Entry>)
    requires Descending(sorted) && forall m :: m in sorted ==> m.id !in m.lagged
    ensures replay == ReplayMap(AsSet(sorted))
  {
    hide Descending, At, Offer;
    replay := map[];
    for i := 0 to |sorted|
      invariant ReplaySoFar(sorted, i, replay)
    {
      var next := EmplaceAll(replay, sorted[i]);
      EmplaceNext(sorted, i, replay, next);
      replay := next;
    }
    ReplayComplete(sorted, replay);
  }

  lemma FirstIsGreatest(sorted: seq<Msg>, id: MsgId, e: Entry)
    requires Descending(sorted) && FirstHolder(sorted, |sorted|, id, e)
    ensures Holders(AsSet(sorted), id) != {} && e == EntryFor(AsSet(sorted), id)
  {
    var j :| 0 <= j < |sorted| && Holds(sorted[j], id) && e == Entry(DiffFor(sorted[j], id), sorted[j].data)
             && forall k :: 0 <= k < j ==> !Holds(sorted[k], id);
    var h := Holders(AsSet(sorted), id);
    assert sorted[j] in h;
    forall o | o in h ensures o == sorted[j] || IdLess(o.id, sorted[j].id) {
      var k :| 0 <= k < |sorted| && sorted[k] == o;
      assert k >= j;
    }
    assert IsGreatest(sorted[j], h);
    GreatestSameId(sorted[j], Greatest(h), h);
    KeyLessIrreflexive(sorted[j].id.hash);
  }

  lemma ReplayCoversHolders(sorted: seq<Msg>, replay: map<MsgId, Entry>, id: MsgId)
    requires ReplaySoFar(sorted, |sorted|, replay)
    ensures id in replay <==> id in ReplayIds(AsSet(sorted))
  {
    var v := AsSet(sorted);
    HeldSomewhere(v, id);
    if id in replay {
      assert FirstHolder(sorted, |sorted|, id, replay[id]);
      var j :| 0 <= j < |sorted| && Holds(sorted[j], id);
      assert sorted[j] in Holders(v, id);
    }
    if Holders(v, id) != {} {
      var m :| m in Holders(v, id);
      var j :| 0 <= j < |sorted| && sorted[j] == m;
    }
  }

  lemma ReplayComplete(sorted: seq<Msg>, replay: map<MsgId, Entry>)
    requires Descending(sorted) && ReplaySoFar(sorted, |sorted|, replay)
    ensures replay == ReplayMap(AsSet(sorted))
  {
    var v := AsSet(sorted);
    hide AsSet, Descending, FirstHolder, ReplayIds;
    forall id ensures id in replay <==> id in ReplayMap(v) {
      ReplayCoversHolders(sorted, replay, id);
    }
    forall id | id in replay ensures replay[id] == ReplayMap(v)[id] {
      FirstIsGreatest(sorted, id, replay[id]);
    }
  }

  // ----- replaying

  /** Applies every entry in ascending order and records its diff among the new lagged ones. */
  method ReplayAll(start: Dict, replay: map<MsgId, Entry>) returns (r: Option<Dict>, lagged: Lagged)
    ensures r.None? <==> exists id :: id in replay && Throws(replay[id].diff, replay[id].source)
    ensures r.Some? ==> r.value == Replay(start, Entries(replay))
    ensures r.Some? ==> lagged == map id | id in replay :: replay[id].diff
  {
    hide Ids, Ascending, Apply, Replay, Throws;
    EntriesAt(replay);
    var data := start;
    lagged := map[];
    var ids := Ids(replay);
    ghost var es := Entries(replay);
    assert es[..0] == [];
    ReplayNone(start);
    hide Entries;
    for i := 0 to |ids|
      invariant data == Replay(start, es[..i])
      invariant forall id :: id in lagged <==> id in ids[..i]
      invariant forall id :: id in lagged ==>
                  id in replay && lagged[id] == replay[id].diff && !Throws(replay[id].diff, replay[id].source)
    {
      PassedId(ids, i);
      var e := replay[ids[i]];
      var applied := ApplyDiff(data, e.diff, e.source);
      if applied.None? {
        return None, lagged;
      }
      data := applied.value;
      ReplayNext(start, es, i);
      lagged := lagged[ids[i] := e.diff];
    }
    assert ids[..|ids|] == ids && es[..|ids|] == es;
    return Some(data), lagged;
  }

  lemma EntriesAt(replay: map<MsgId, Entry>)
    ensures var ids := Ids(replay);
            forall i :: 0 <= i < |ids| ==> ids[i] in replay && Entries(replay)[i] == replay[ids[i]]
  {
    var ids := Ids(replay);
    assert forall i :: 0 <= i < |ids| ==> ids[i] in ids;
  }

  lemma ReplayNone(start: Dict)
    ensures Replay(start, []) == start
  {
  }

  lemma ReplayNext(start: Dict, es: seq<Entry>, i: nat)
    requires i < |es|
    ensures Replay(start, es[..i + 1]) == Apply(Replay(start, es[..i]), es[i].diff, es[i].source)
  {
    assert es[..i + 1][..i] == es[..i];
  }

  // ----- the constructor

  lemma BestIsGreatest(configs: seq<Msg>, redundant: seq<bool>, kept: seq<nat>, best: nat, v: set<Msg>)
    requires |redundant| == |configs| && best < |configs| && configs[best] in v && IdsDistinguish(v)
    requires forall k :: 0 <= k < |kept| ==> kept[k] < |configs| && !redundant[kept[k]]
    requires AsSet(Chosen(configs, kept)) == v
    requires forall i :: 0 <= i < |configs| && !redundant[i] ==>
               configs[i].id == configs[best].id || IdLess(configs[i].id, configs[best].id)
    ensures configs[best] == Greatest(v)
  {
    forall o | o in v ensures o.id == configs[best].id || IdLess(o.id, configs[best].id) {
      assert o in Chosen(configs, kept);
      var k :| 0 <= k < |kept| && Chosen(configs, kept)[k] == o;
    }
    GreatestUnique(configs[best], v);
  }

  lemma FirstSortedIsGreatest(sorted: seq<Msg>)
    requires sorted != [] && Descending(sorted) && IdsDistinguish(AsSet(sorted))
    ensures sorted[0] == Greatest(AsSet(sorted))
  {
    forall o | o in AsSet(sorted) ensures o.id == sorted[0].id || IdLess(o.id, sorted[0].id) {
      var k :| 0 <= k < |sorted| && sorted[k] == o;
    }
    GreatestUnique(sorted[0], AsSet(sorted));
  }

  /** Sorting, building the replay map, replaying, pruning and hashing. */
  method MergeSurvivors(chosen: seq<Msg>, maxSeqno: int, lag: int, hashOf: seq<Pair> -> Hash)
    returns (r: Option<Msg>)
    requires chosen != [] && IdsDistinguish(AsSet(chosen)) && AllValid(AsSet(chosen), lag)
    requires maxSeqno == Greatest(AsSet(chosen)).id.seqno
    ensures r.None? <==> Breaks(AsSet(chosen))
    ensures r.Some? ==> r.value == MergedMsg(AsSet(chosen), lag, hashOf)
  {
    hide Prune, Replay, Entries, ReplayMap, WireMsg, Pruned, Descending, Throws;
    var sorted := SortDescending(chosen);
    assert sorted != [] by {
      assert chosen[0] in AsSet(chosen);
    }
    forall m | m in sorted ensures m.id !in m.lagged {
      assert m in AsSet(sorted);
      assert ValidMsg(m, lag);
    }
    var replay := BuildReplay(sorted);
    FirstSortedIsGreatest(sorted);
    var replayed, lagged := ReplayAll(sorted[0].data, replay);
    if replayed.None? {
      return None;
    }
    var data, _, _ := PruneDict(replayed.value);
    r := Some(Hashed(maxSeqno + 1, data, lagged, lag, hashOf));
  }

  lemma OneOrMany(chosen: seq<Msg>, v: set<Msg>)
    requires DistinctMsgs(chosen) && AsSet(chosen) == v && v != {}
    ensures chosen != []
    ensures |chosen| == 1 ==> v == {chosen[0]}
    ensures |chosen| > 1 ==> forall m :: v != {m}
  {
    if |chosen| == 1 {
      forall m | m in v ensures m == chosen[0] {
        assert m in chosen;
      }
      assert chosen[0] in v;
    } else {
      assert chosen[0] in v && chosen[1] in v && chosen[0] != chosen[1];
    }
  }

  lemma GreatestOfAll(configs: seq<Msg>)
    ensures forall m | m in configs :: m.id == Greatest(AsSet(configs)).id || IdLess(m.id, Greatest(AsSet(configs)).id)
  {
    forall m | m in configs ensures m.id == Greatest(AsSet(configs)).id || IdLess(m.id, Greatest(AsSet(configs)).id) {
      assert m in AsSet(configs);
    }
  }

  /** Of repeated messages the first is kept. */
  lemma KeptIsFirst(configs: seq<Msg>, lag: int, maxSeqno: int, i: nat)
    requires i < |configs| && !Dropped(configs, i, lag, maxSeqno)
    ensures configs[i] !in configs[..i]
  {
    forall j | 0 <= j < i ensures configs[j] != configs[i] {
      assert !CoveredAt(configs, i, j);
    }
  }

  /** The message the constructor becomes, and the index of the input it was taken from, if it was
      taken from one.  It is an error when there is no input, and when a merge is needed and a diff
      cannot be applied.  The outcome depends on the set of messages only, not on their order or on
      duplicates. */
  method MergeConfigs(configs: seq<Msg>, lag: int, canSign: bool, hashOf: seq<Pair> -> Hash)
    returns (r: Option<Msg>, unmerged: Option<nat>)
    requires lag >= 1 && AllValid(AsSet(configs), lag) && IdsDistinguish(AsSet(configs))
    ensures r.None? <==> configs == [] || CannotMerge(AsSet(configs), lag, canSign)
    ensures r.Some? ==> r.value == MergeOf(AsSet(configs), lag, canSign, hashOf)
    ensures unmerged.Some? ==> unmerged.value < |configs| && r == Some(configs[unmerged.value])
    ensures unmerged.Some? ==> configs[unmerged.value] !in configs[..unmerged.value]
    ensures r.Some? ==> (unmerged.None? <==> NeedsMerge(AsSet(configs), lag, canSign))
    ensures !canSign && configs != [] ==>
              unmerged.Some? && forall m | m in configs :: m.id == r.value.id || IdLess(m.id, r.value.id)
    ensures canSign && r.Some? ==>
              (unmerged.None? <==>
               exists a, b :: a in Survivors(AsSet(configs), lag) && b in Survivors(AsSet(configs), lag) && a != b)
  {
    hide MergedMsg, AsSet, Dropped, Breaks;
    if configs == [] {
      return None, None;
    }
    ghost var s := AsSet(configs);
    ghost var v := Survivors(s, lag);
    GreatestSurvives(s, lag);
    GreatestSameId(Greatest(s), Greatest(v), v);
    var redundant, maxSeqno := MarkRedundant(configs, lag);
    var kept := KeepSurvivors(configs, redundant, lag);
    var chosen := Chosen(configs, kept);
    OneOrMany(chosen, v);
    MergeOrTake(s, lag, hashOf);
    GreatestOfAll(configs);
    if |kept| == 1 {
      KeptIsFirst(configs, lag, maxSeqno, kept[0]);
      return Some(configs[kept[0]]), Some(kept[0]);
    }
    if !canSign {
      var best := BestConfig(configs, redundant, kept);
      BestIsGreatest(configs, redundant, kept, best, v);
      KeptIsFirst(configs, lag, maxSeqno, best);
      return Some(configs[best]), Some(best);
    }
    var m := MergeSurvivors(chosen, maxSeqno, lag, hashOf);
    return m, None;
  }
}
