/** Whole runs: messages made by a chain of local updates, and the merge of two updates made from
    the same message. */
module ConfigRuns {
  import opened Ordering
  import opened ConfigData
  import opened ConfigDiff
  import opened ConfigApply
  import opened ConfigFork
  import opened ConfigTree
  import opened ConfigMessage
  import opened ConfigMerge

  /** The lagged diffs of the message that follows `p`: its window, and its own diff. */
  function CarriedOver(p: Msg, lag: int): Lagged {
    Window(p.lagged, p.id.seqno, lag)[p.id := p.diff]
  }

  /** What others read after a draft with base data `orig` is serialised: pruned data, its diff to
      the base, the strict window, and the hash of the serialised form. */
  function Published(draft: Msg, orig: Dict, lag: int, hashOf: seq<Pair> -> Hash): Msg {
    var m := draft.(data := Prune(draft.data), diff := DiffDict(orig, Prune(draft.data)));
    m.(id := MsgId(m.id.seqno, hashOf(WireMsg(m, lag))), lagged := Window(m.lagged, m.id.seqno, lag))
  }

  /** The message published after editing `p`'s data into `d`. */
  function Update(p: Msg, d: Dict, lag: int, hashOf: seq<Pair> -> Hash): Msg {
    var blank: Hash := seq(32, i => '0');
    Published(Msg(MsgId(p.id.seqno + 1, blank), d, map[], CarriedOver(p, lag)), p.data, lag, hashOf)
  }

  /** The message published after the messages of `s` were merged and the result was edited into `d`: a
      merge keeps the seqno it has, and a message taken over as it is gets the next one. */
  ghost function EditedMerge(s: set<Msg>, d: Dict, lag: int, canSign: bool, hashOf: seq<Pair> -> Hash): Msg
    requires s != {} && AllValid(s, lag) && lag >= 1
  {
    GreatestSurvives(s, lag);
    if NeedsMerge(s, lag, canSign) then
      var m := MergedMsg(Survivors(s, lag), lag, hashOf);
      Published(m.(data := d), m.data, lag, hashOf)
    else Update(Greatest(s), d, lag, hashOf)
  }

  /** Everything `p` can replay, oldest first: its window and itself. */
  function Chain(p: Msg): (ids: seq<MsgId>)
    ensures ids != [] && ids[|ids| - 1] == p.id
    ensures forall id :: id in ids <==> id in p.lagged || id == p.id
  {
    Ids(p.lagged) + [p.id]
  }

  /** The `i`-th diff of the chain leads from version `i` to version `i + 1`, without gaps in seqno. */
  ghost predicate LinearAt(p: Msg, h: seq<Dict>, i: nat)
    requires i < |Chain(p)| && |h| == |Chain(p)| + 1
  {
    var id := Chain(p)[i];
    && id.seqno == p.id.seqno - |Chain(p)| + 1 + i
    && Holds(p, id) && DiffFor(p, id) == DiffDict(h[i], h[i + 1])
  }

  /** `p`'s window and own diff are the diffs of the versions `h`, ending in `p`'s data. */
  ghost predicate Linear(p: Msg, h: seq<Dict>) {
    && |h| == |Chain(p)| + 1 && h[|h| - 1] == p.data
    && forall i :: 0 <= i < |Chain(p)| ==> LinearAt(p, h, i)
  }

  /** The message every config starts from: nothing in it, and nothing to replay. */
  lemma DefaultIsLinear(p: Msg, lag: int)
    requires p.data == map[] && p.diff == map[] && p.lagged == map[]
    ensures ValidMsg(p, lag) && Linear(p, [map[], map[]])
  {
    assert Ids(p.lagged) == [];
    assert Chain(p) == [p.id];
    assert LinearAt(p, [map[], map[]], 0);
  }

  // ----- the window of an update

  lemma LinearIds(p: Msg, h: seq<Dict>, lag: int)
    requires lag >= 1 && ValidMsg(p, lag) && Linear(p, h)
    ensures |Chain(p)| <= lag && Ascending(Chain(p), IdLess)
    ensures forall i :: 0 <= i < |Chain(p)| ==> Chain(p)[i].seqno == p.id.seqno - |Chain(p)| + 1 + i
  {
    hide DiffDict, Pruned;
    var all := Chain(p);
    assert LinearAt(p, h, 0);
    assert all[0] in all;
    forall i, j | 0 <= i < j < |all| ensures IdLess(all[i], all[j]) {
      assert LinearAt(p, h, i) && LinearAt(p, h, j);
    }
    forall i | 0 <= i < |all| ensures all[i].seqno == p.id.seqno - |all| + 1 + i {
      assert LinearAt(p, h, i);
    }
  }

  lemma UpdateLagged(p: Msg, d: Dict, lag: int, hashOf: seq<Pair> -> Hash)
    requires ValidMsg(p, lag)
    ensures var l := Update(p, d, lag, hashOf).lagged;
            && (forall id :: id in l <==> (id in p.lagged || id == p.id) && p.id.seqno + 1 - lag < id.seqno)
            && (forall id :: id in l ==> l[id] == if id == p.id then p.diff else p.lagged[id])
  {
    hide Prune, Pruned, DiffDict, WireMsg;
  }

  lemma SuffixMembers(all: seq<MsgId>, k: nat, first: int, id: MsgId)
    requires k <= |all| && forall i :: 0 <= i < |all| ==> all[i].seqno == first + i
    ensures id in all[k..] <==> id in all && id.seqno >= first + k
  {
    if id in all && id.seqno >= first + k {
      var i :| 0 <= i < |all| && all[i] == id;
      assert all[k..][i - k] == id;
    }
    if id in all[k..] {
      var i :| 0 <= i < |all[k..]| && all[k..][i] == id;
      assert all[k + i] == id;
    }
  }

  /** How many of `p`'s diffs an update drops: one exactly when the window is full. */
  function Shift(p: Msg, lag: int): nat {
    if |Chain(p)| < lag then 0 else 1
  }

  lemma UpdateWindow(p: Msg, d: Dict, lag: int, hashOf: seq<Pair> -> Hash, h: seq<Dict>)
    requires lag >= 1 && ValidMsg(p, lag) && Linear(p, h)
    ensures var q := Update(p, d, lag, hashOf); Chain(q) == Chain(p)[Shift(p, lag)..] + [q.id]
  {
    hide Linear, Update, Ascending, Ids;
    LinearIds(p, h, lag);
    UpdateLagged(p, d, lag, hashOf);
    var all, k, l := Chain(p), Shift(p, lag), Update(p, d, lag, hashOf).lagged;
    forall id ensures id in all[k..] <==> id in l {
      SuffixMembers(all, k, p.id.seqno - |all| + 1, id);
    }
    AscendingSuffix(all, k);
    IdsAre(all[k..], l);
  }

  lemma AscendingSuffix(ids: seq<MsgId>, k: nat)
    requires k <= |ids| && Ascending(ids, IdLess)
    ensures Ascending(ids[k..], IdLess)
  {
  }

  lemma IdsAre(ids: seq<MsgId>, l: Lagged)
    requires Ascending(ids, IdLess) && forall id :: id in ids <==> id in l
    ensures ids == Ids(l)
  {
    IdOrder();
    AscendOf(ids, l.Keys, IdLess);
  }

  // ----- runs of local updates stay linear

  /** An update of a linear message is linear, and its chain is exactly the last `lag` diffs. */
  lemma UpdateStaysLinear(p: Msg, d: Dict, lag: int, hashOf: seq<Pair> -> Hash, h: seq<Dict>)
    requires lag >= 1 && ValidMsg(p, lag) && Linear(p, h)
    ensures var q := Update(p, d, lag, hashOf);
            && ValidMsg(q, lag) && Linear(q, (h + [Prune(d)])[Shift(p, lag)..])
            && |Chain(q)| == if |Chain(p)| < lag then |Chain(p)| + 1 else lag
  {
    hide Update, Prune, Linear, Chain, LinearAt, DiffDict, Ascending, ValidMsg;
    LinearIds(p, h, lag);
    UpdateWindow(p, d, lag, hashOf, h);
    UpdateFields(p, d, lag, hashOf);
    var q, k := Update(p, d, lag, hashOf), Shift(p, lag);
    var h' := (h + [Prune(d)])[k..];
    LinearEnd(p, h);
    UpdateLagged(p, d, lag, hashOf);
    forall i | 0 <= i < |Chain(q)| ensures LinearAt(q, h', i) {
      NextLinearAt(p, h, q, k, i);
    }
    LinearIntro(q, h');
  }

  lemma LinearEnd(p: Msg, h: seq<Dict>)
    requires Linear(p, h)
    ensures |h| == |Chain(p)| + 1 && h[|h| - 1] == p.data
    ensures forall i :: 0 <= i < |Chain(p)| ==> LinearAt(p, h, i)
  {
  }

  lemma LinearIntro(p: Msg, h: seq<Dict>)
    requires |h| == |Chain(p)| + 1 && h[|h| - 1] == p.data
    requires forall i :: 0 <= i < |Chain(p)| ==> LinearAt(p, h, i)
    ensures Linear(p, h)
  {
  }

  lemma UpdateFields(p: Msg, d: Dict, lag: int, hashOf: seq<Pair> -> Hash)
    ensures var q := Update(p, d, lag, hashOf);
            && q.id.seqno == p.id.seqno + 1 && q.data == Prune(d) && q.diff == DiffDict(p.data, Prune(d))
            && ValidMsg(q, lag)
  {
    hide Prune, Pruned, WireMsg, DiffDict;
    PruneEstablishesPruned(d);
  }

  lemma NextLinearAt(p: Msg, h: seq<Dict>, q: Msg, k: nat, i: nat)
    requires |h| == |Chain(p)| + 1 && h[|h| - 1] == p.data
    requires forall j :: 0 <= j < |Chain(p)| ==> LinearAt(p, h, j)
    requires k <= |Chain(p)| && Chain(q) == Chain(p)[k..] + [q.id] && i < |Chain(q)|
    requires q.id.seqno == p.id.seqno + 1 && q.diff == DiffDict(p.data, q.data)
    requires q.id !in q.lagged && forall id :: id in q.lagged ==> Holds(p, id) && q.lagged[id] == DiffFor(p, id)
    ensures LinearAt(q, (h + [q.data])[k..], i)
  {
    hide DiffDict, Chain;
    var h' := (h + [q.data])[k..];
    if i < |Chain(q)| - 1 {
      assert Chain(q)[i] == Chain(p)[k + i];
      assert LinearAt(p, h, k + i);
      assert h'[i] == h[k + i] && h'[i + 1] == h[k + i + 1];
      assert Chain(q)[i] in Chain(q);
      assert Chain(q)[i] in q.lagged;
    } else {
      assert Chain(q)[i] == q.id;
      assert h'[i] == p.data && h'[i + 1] == q.data;
    }
  }

  /** The message reached from `p` by publishing the edits `ds` one after the other. */
  function Run(p: Msg, ds: seq<Dict>, lag: int, hashOf: seq<Pair> -> Hash): Msg {
    if ds == [] then p
    else Update(Run(p, ds[..|ds| - 1], lag, hashOf), ds[|ds| - 1], lag, hashOf)
  }

  function PruneEach(ds: seq<Dict>): (r: seq<Dict>)
    ensures |r| == |ds|
  {
    seq(|ds|, i requires 0 <= i < |ds| => Prune(ds[i]))
  }

  /** In every run the window holds the diffs of the latest versions, as many as the lag allows,
      with consecutive seqnos. */
  lemma {:induction false} RunStaysLinear(p: Msg, h: seq<Dict>, ds: seq<Dict>, lag: int, hashOf: seq<Pair> -> Hash)
    returns (k: nat)
    requires lag >= 1 && ValidMsg(p, lag) && Linear(p, h)
    ensures var q, versions := Run(p, ds, lag, hashOf), h + PruneEach(ds);
            && ValidMsg(q, lag) && k <= |versions| && Linear(q, versions[k..])
            && q.id.seqno == p.id.seqno + |ds|
            && |Chain(q)| == if |Chain(p)| + |ds| <= lag then |Chain(p)| + |ds| else lag
  {
    hide Update, Linear, Prune, Chain;
    if ds == [] {
      k := 0;
      LinearIds(p, h, lag);
      assert (h + PruneEach(ds))[0..] == h;
    } else {
      var n := |ds| - 1;
      var j := RunStaysLinear(p, h, ds[..n], lag, hashOf);
      var q := Run(p, ds[..n], lag, hashOf);
      var versions := h + PruneEach(ds[..n]);
      UpdateStaysLinear(q, ds[n], lag, hashOf, versions[j..]);
      UpdateFields(q, ds[n], lag, hashOf);
      LinearEnd(q, versions[j..]);
      k := j + Shift(q, lag);
      assert PruneEach(ds) == PruneEach(ds[..n]) + [Prune(ds[n])];
      assert (versions[j..] + [Prune(ds[n])])[Shift(q, lag)..] == (h + PruneEach(ds))[k..];
    }
  }

  // ----- an ancestor never comes back

  /** A message merged with one reached from it takes no part: it is in the other's window, or it
      is too old. */
  lemma StaleAncestor(p: Msg, h: seq<Dict>, ds: seq<Dict>, lag: int, hashOf: seq<Pair> -> Hash)
    requires lag >= 1 && ValidMsg(p, lag) && Linear(p, h) && ds != []
    ensures var q := Run(p, ds, lag, hashOf); Survivors({p, q}, lag) == {q}
  {
    hide Run, Linear, Survivors, ValidMsg;
    var q := Run(p, ds, lag, hashOf);
    var k := RunStaysLinear(p, h, ds, lag, hashOf);
    if |ds| < lag {
      AncestorInWindow(p, h, ds, lag, hashOf);
    }
    OneSupersedes(p, q, lag);
  }

  lemma OneSupersedes(p: Msg, q: Msg, lag: int)
    requires lag >= 1 && ValidMsg(p, lag) && ValidMsg(q, lag) && p.id.seqno < q.id.seqno
    requires p.id in q.lagged || p.id.seqno + lag <= q.id.seqno
    ensures Survivors({p, q}, lag) == {q}
  {
    var s := {p, q};
    assert IsGreatest(q, s);
    GreatestSameId(q, Greatest(s), s);
    assert Greatest(s) == q;
    GreatestSurvives(s, lag);
    assert q in s;
    assert p !in Survivors(s, lag);
  }

  lemma {:induction false} AncestorInWindow(p: Msg, h: seq<Dict>, ds: seq<Dict>, lag: int, hashOf: seq<Pair> -> Hash)
    requires lag >= 1 && ValidMsg(p, lag) && Linear(p, h) && 0 < |ds| < lag
    ensures p.id in Run(p, ds, lag, hashOf).lagged
  {
    hide Update, Linear, Chain;
    var n := |ds| - 1;
    var q := Run(p, ds[..n], lag, hashOf);
    var k := RunStaysLinear(p, h, ds[..n], lag, hashOf);
    if n > 0 {
      AncestorInWindow(p, h, ds[..n], lag, hashOf);
    }
    UpdateLagged(q, ds[n], lag, hashOf);
  }

  // ----- replaying a linear message onto itself

  lemma OnlyHolder(v: set<Msg>, id: MsgId, m: Msg)
    requires m in v && Holds(m, id) && forall o | o in v && Holds(o, id) :: o.id == m.id || IdLess(o.id, m.id)
    requires IdsDistinguish(v)
    ensures id in ReplayMap(v) && ReplayMap(v)[id] == Entry(DiffFor(m, id), m.data)
  {
    var hs := Holders(v, id);
    assert m in hs && IsGreatest(m, hs);
    GreatestUnique(m, hs);
    HeldSomewhere(v, id);
  }

  lemma EntriesAre(replay: map<MsgId, Entry>, ids: seq<MsgId>, es: seq<Entry>)
    requires Ascending(ids, IdLess) && (forall id :: id in ids <==> id in replay) && |es| == |ids|
    requires forall i :: 0 <= i < |ids| ==> ids[i] in replay && replay[ids[i]] == es[i]
    ensures Entries(replay) == es
  {
    IdOrder();
    AscendOf(ids, replay.Keys, IdLess);
  }

  lemma SelfHolds(p: Msg, id: MsgId)
    ensures id in Chain(p) <==> id in ReplayMap({p})
  {
    HeldSomewhere({p}, id);
    assert id in Chain(p) ==> p in Holders({p}, id);
  }

  lemma SelfEntries(p: Msg, h: seq<Dict>, lag: int)
    requires lag >= 1 && ValidMsg(p, lag) && Linear(p, h)
    ensures Entries(ReplayMap({p})) == HistoryEntries(h, p.data)
  {
    hide DiffDict, ValidMsg, Entries, Linear, ReplayMap, Chain, Ascending;
    LinearIds(p, h, lag);
    LinearEnd(p, h);
    var v, replay, es := {p}, ReplayMap({p}), HistoryEntries(h, p.data);
    forall id ensures id in Chain(p) <==> id in replay { SelfHolds(p, id); }
    forall i | 0 <= i < |Chain(p)| ensures Chain(p)[i] in replay && replay[Chain(p)[i]] == es[i] {
      assert LinearAt(p, h, i);
      OnlyHolder(v, Chain(p)[i], p);
    }
    EntriesAre(replay, Chain(p), es);
  }

  /** The window and own diff of a linear message, replayed onto its data, change nothing. */
  lemma SelfReplay(p: Msg, h: seq<Dict>, lag: int)
    requires lag >= 1 && ValidMsg(p, lag) && Linear(p, h)
    ensures MergedData({p}) == p.data
  {
    hide Linear, Entries, ReplayMap, Replay, Prune;
    SelfEntries(p, h, lag);
    LinearEnd(p, h);
    LinearReplay(h);
    PruneIsNormalForm(p.data, p.data);
    assert Greatest({p}) == p;
  }

  // ----- two updates of the same message

  lemma SameWindow(p: Msg, d1: Dict, d2: Dict, lag: int, hashOf: seq<Pair> -> Hash)
    ensures Update(p, d1, lag, hashOf).lagged == Update(p, d2, lag, hashOf).lagged
  {
    hide Prune, DiffDict, WireMsg;
  }

  /** Two messages with the same window, made from the same message. */
  ghost predicate Siblings(p: Msg, c1: Msg, c2: Msg, lag: int) {
    && ValidMsg(c1, lag) && ValidMsg(c2, lag) && c1.lagged == c2.lagged
    && c1.id.seqno == c2.id.seqno == p.id.seqno + 1 && IdLess(c2.id, c1.id)
    && c1.diff == DiffDict(p.data, c1.data) && c2.diff == DiffDict(p.data, c2.data)
  }

  lemma SiblingsSurvive(p: Msg, c1: Msg, c2: Msg, lag: int)
    requires lag >= 1 && Siblings(p, c1, c2, lag)
    ensures Survivors({c1, c2}, lag) == {c1, c2}
    ensures IdsDistinguish({c1, c2}) && Greatest({c1, c2}) == c1
  {
    var s := {c1, c2};
    KeyLessIrreflexive(c1.id.hash);
    assert IsGreatest(c1, s);
    GreatestUnique(c1, s);
    forall o | o in s ensures !Included(o, s) {}
  }

  lemma SiblingEntry(p: Msg, c1: Msg, c2: Msg, lag: int, id: MsgId)
    requires lag >= 1 && Siblings(p, c1, c2, lag)
    requires id in c1.lagged || id == c1.id || id == c2.id
    ensures id in ReplayMap({c1, c2})
    ensures ReplayMap({c1, c2})[id] ==
            if id == c2.id then Entry(c2.diff, c2.data) else Entry(DiffFor(c1, id), c1.data)
  {
    SiblingsSurvive(p, c1, c2, lag);
    KeyLessIrreflexive(c1.id.hash);
    OnlyHolder({c1, c2}, id, if id == c2.id then c2 else c1);
  }

  lemma SiblingIds(p: Msg, c1: Msg, c2: Msg, lag: int, id: MsgId)
    requires Siblings(p, c1, c2, lag)
    ensures id in ReplayMap({c1, c2}) <==> id in Ids(c1.lagged) + [c2.id, c1.id]
  {
    var v := {c1, c2};
    HeldSomewhere(v, id);
    assert Holders(v, id) != {} <==> Holds(c1, id) || Holds(c2, id) by {
      if Holds(c1, id) { assert c1 in Holders(v, id); }
      if Holds(c2, id) { assert c2 in Holders(v, id); }
    }
  }

  lemma SiblingOrder(p: Msg, c1: Msg, c2: Msg, lag: int)
    requires Siblings(p, c1, c2, lag)
    ensures Ascending(Ids(c1.lagged) + [c2.id, c1.id], IdLess)
  {
    var ids := Ids(c1.lagged);
    forall i | 0 <= i < |ids| ensures ids[i].seqno < c1.id.seqno {
      assert ids[i] in ids;
    }
  }

  lemma SharedEntry(p: Msg, c1: Msg, c2: Msg, lag: int, id: MsgId, d: Diff)
    requires lag >= 1 && Siblings(p, c1, c2, lag) && id in c1.lagged && c1.lagged[id] == d
    ensures id in ReplayMap({c1, c2}) && ReplayMap({c1, c2})[id] == Entry(d, c1.data)
  {
    hide ReplayMap;
    SiblingEntry(p, c1, c2, lag, id);
  }

  lemma OwnEntries(p: Msg, c1: Msg, c2: Msg, lag: int)
    requires lag >= 1 && Siblings(p, c1, c2, lag)
    ensures var replay := ReplayMap({c1, c2});
            && c1.id in replay && replay[c1.id] == Entry(c1.diff, c1.data)
            && c2.id in replay && replay[c2.id] == Entry(c2.diff, c2.data)
  {
    hide ReplayMap;
    KeyLessIrreflexive(c1.id.hash);
    SiblingEntry(p, c1, c2, lag, c1.id);
    SiblingEntry(p, c1, c2, lag, c2.id);
  }

  /** The shared window is replayed from the greater sibling, then come the two siblings' diffs. */
  lemma SiblingEntries(p: Msg, c1: Msg, c2: Msg, lag: int, hw: seq<Dict>)
    requires lag >= 1 && Siblings(p, c1, c2, lag)
    requires |hw| == |Ids(c1.lagged)| + 1
    requires forall i :: 0 <= i < |Ids(c1.lagged)| ==>
               Ids(c1.lagged)[i] in c1.lagged && c1.lagged[Ids(c1.lagged)[i]] == DiffDict(hw[i], hw[i + 1])
    ensures Entries(ReplayMap({c1, c2})) ==
            HistoryEntries(hw, c1.data) + [Entry(c2.diff, c2.data), Entry(c1.diff, c1.data)]
  {
    hide Entries, DiffDict, ReplayMap, Ascending, Pruned, Ids, Siblings;
    var ids := Ids(c1.lagged);
    var all, replay := ids + [c2.id, c1.id], ReplayMap({c1, c2});
    var es := HistoryEntries(hw, c1.data) + [Entry(c2.diff, c2.data), Entry(c1.diff, c1.data)];
    SiblingOrder(p, c1, c2, lag);
    forall id ensures id in all <==> id in replay { SiblingIds(p, c1, c2, lag, id); }
    OwnEntries(p, c1, c2, lag);
    forall i | 0 <= i < |all| ensures all[i] in replay && replay[all[i]] == es[i] {
      if i < |ids| {
        SharedEntry(p, c1, c2, lag, ids[i], DiffDict(hw[i], hw[i + 1]));
      }
    }
    EntriesAre(replay, all, es);
  }

  lemma ReplayTwo(x: Dict, es: seq<Entry>, e: Entry, f: Entry)
    ensures Replay(x, es + [e, f]) == Apply(Apply(Replay(x, es), e.diff, e.source), f.diff, f.source)
  {
    var all := es + [e, f];
    assert all[..|all| - 1] == es + [e];
    assert (es + [e])[..|es|] == es;
  }

  lemma SiblingsMerge(p: Msg, c1: Msg, c2: Msg, lag: int, hw: seq<Dict>)
    requires lag >= 1 && Siblings(p, c1, c2, lag)
    requires |hw| == |Ids(c1.lagged)| + 1 && hw[|hw| - 1] == p.data
    requires forall i :: 0 <= i < |Ids(c1.lagged)| ==>
               Ids(c1.lagged)[i] in c1.lagged && c1.lagged[Ids(c1.lagged)[i]] == DiffDict(hw[i], hw[i + 1])
    requires Pruned(p.data) && Disjoint(c1.diff, c2.diff)
    ensures NoUpdateLost(MergedData({c1, c2}), p.data, c1.data, c2.data) <==> KeepsShared(p.data, c1.data, c2.data)
  {
    hide Entries, ReplayMap, Replay, Prune, DiffDict, Ids, NoUpdateLost, KeepsShared, Disjoint, Apply, Agrees;
    SiblingsSurvive(p, c1, c2, lag);
    SiblingEntries(p, c1, c2, lag, hw);
    var x := Replay(c1.data, HistoryEntries(hw, c1.data));
    ReplayTwo(c1.data, HistoryEntries(hw, c1.data), Entry(c2.diff, c2.data), Entry(c1.diff, c1.data));
    AgreesStart(hw[0], c1.data);
    ReplayAgrees(c1.data, hw, c1.data);
    NoLostUpdateExactly(x, p.data, c1.data, c2.data);
  }

  /** The window of a linear message, without its own diff. */
  lemma WindowHistory(c: Msg, h: seq<Dict>, hw: seq<Dict>, lag: int)
    requires ValidMsg(c, lag) && Linear(c, h) && hw + [c.data] == h
    ensures |hw| == |Ids(c.lagged)| + 1
    ensures forall i :: 0 <= i < |Ids(c.lagged)| ==>
              Ids(c.lagged)[i] in c.lagged && c.lagged[Ids(c.lagged)[i]] == DiffDict(hw[i], hw[i + 1])
  {
    hide DiffDict, Pruned;
    var ids := Ids(c.lagged);
    forall i | 0 <= i < |ids| ensures ids[i] in c.lagged && c.lagged[ids[i]] == DiffDict(hw[i], hw[i + 1]) {
      assert ids[i] in ids && Chain(c)[i] == ids[i];
      assert LinearAt(c, h, i);
      assert h[i] == hw[i] && h[i + 1] == hw[i + 1];
    }
  }

  lemma SharedHistory(p: Msg, d: Dict, lag: int, hashOf: seq<Pair> -> Hash, h: seq<Dict>) returns (hw: seq<Dict>)
    requires lag >= 1 && ValidMsg(p, lag) && Linear(p, h)
    ensures var c := Update(p, d, lag, hashOf);
            && |hw| == |Ids(c.lagged)| + 1 && hw[|hw| - 1] == p.data
            && (forall i :: 0 <= i < |Ids(c.lagged)| ==>
                 Ids(c.lagged)[i] in c.lagged && c.lagged[Ids(c.lagged)[i]] == DiffDict(hw[i], hw[i + 1]))
  {
    hide Update, Linear, LinearAt, Prune, DiffDict, Chain, Ids;
    var c, k := Update(p, d, lag, hashOf), Shift(p, lag);
    UpdateFields(p, d, lag, hashOf);
    UpdateStaysLinear(p, d, lag, hashOf, h);
    LinearEnd(p, h);
    hw := h[k..];
    assert hw + [c.data] == (h + [c.data])[k..];
    WindowHistory(c, (h + [c.data])[k..], hw, lag);
  }

  lemma UpdatesAreSiblings(p: Msg, d1: Dict, d2: Dict, lag: int, hashOf: seq<Pair> -> Hash)
    requires var c1, c2 := Update(p, d1, lag, hashOf), Update(p, d2, lag, hashOf); IdLess(c2.id, c1.id)
    ensures Siblings(p, Update(p, d1, lag, hashOf), Update(p, d2, lag, hashOf), lag)
  {
    hide Update, Prune, DiffDict;
    UpdateFields(p, d1, lag, hashOf);
    UpdateFields(p, d2, lag, hashOf);
    SameWindow(p, d1, d2, lag, hashOf);
  }

  /** Two edits of the same message that touch different places: both take part, and no update is
      lost exactly when the edit with the greater hash keeps every container both of them changed. */
  lemma ForkMerge(p: Msg, h: seq<Dict>, d1: Dict, d2: Dict, lag: int, hashOf: seq<Pair> -> Hash)
    requires lag >= 1 && ValidMsg(p, lag) && Linear(p, h)
    requires var c1, c2 := Update(p, d1, lag, hashOf), Update(p, d2, lag, hashOf);
             IdLess(c2.id, c1.id) && Disjoint(c1.diff, c2.diff)
    ensures var c1, c2 := Update(p, d1, lag, hashOf), Update(p, d2, lag, hashOf);
            && Survivors({c1, c2}, lag) == {c1, c2}
            && (NoUpdateLost(MergedData({c1, c2}), p.data, Prune(d1), Prune(d2)) <==>
                KeepsShared(p.data, Prune(d1), Prune(d2)))
  {
    hide Update, Linear, LinearAt, Prune, DiffDict, Survivors, MergedData, NoUpdateLost, KeepsShared, Disjoint,
         Siblings, Chain, Pruned, Ids;
    var c1, c2 := Update(p, d1, lag, hashOf), Update(p, d2, lag, hashOf);
    UpdateFields(p, d1, lag, hashOf);
    UpdateFields(p, d2, lag, hashOf);
    UpdatesAreSiblings(p, d1, d2, lag, hashOf);
    SiblingsSurvive(p, c1, c2, lag);
    var hw := SharedHistory(p, d1, lag, hashOf, h);
    SiblingsMerge(p, c1, c2, lag, hw);
  }

  /** Edits of different top-level keys are both kept, whichever message has the greater hash. */
  lemma ForkOfSeparateKeys(p: Msg, h: seq<Dict>, d1: Dict, d2: Dict, lag: int, hashOf: seq<Pair> -> Hash)
    requires lag >= 1 && ValidMsg(p, lag) && Linear(p, h)
    requires var c1, c2 := Update(p, d1, lag, hashOf), Update(p, d2, lag, hashOf);
             c1.id != c2.id && c1.diff.Keys !! c2.diff.Keys
    ensures var c1, c2 := Update(p, d1, lag, hashOf), Update(p, d2, lag, hashOf);
            && Survivors({c1, c2}, lag) == {c1, c2}
            && NoUpdateLost(MergedData({c1, c2}), p.data, Prune(d1), Prune(d2))
  {
    hide Update, Linear, Prune, DiffDict, Survivors, MergedData, KeepsShared, Disjoint, Pruned, HasLeaf;
    var c1, c2 := Update(p, d1, lag, hashOf), Update(p, d2, lag, hashOf);
    UpdateFields(p, d1, lag, hashOf);
    UpdateFields(p, d2, lag, hashOf);
    SeparateKeysKept(p.data, Prune(d1), Prune(d2));
    IdOrder();
    if IdLess(c2.id, c1.id) {
      ForkMerge(p, h, d1, d2, lag, hashOf);
    } else {
      ForkMerge(p, h, d2, d1, lag, hashOf);
      assert {c1, c2} == {c2, c1};
    }
  }
}
