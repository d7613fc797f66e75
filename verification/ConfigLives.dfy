/** Messages whose windows come from merges.  Whatever was edited and merged before, replaying a
    message's own diffs onto it loses nothing; exactly when it brings something back is stated too. */
module ConfigLives {
  import opened Ordering
  import opened ConfigData
  import opened ConfigDiff
  import opened ConfigApply
  import opened ConfigFork
  import opened ConfigTree
  import opened ConfigMessage
  import opened ConfigMerge
  import opened ConfigRuns
  import opened ConfigEffects
  import opened ConfigDiverged
  import opened MutableConfig

  /** Replaying its own diffs onto the message's data loses no scalar and no set element. */
  ghost predicate KeepsOwn(q: Msg) {
    Pruned(q.data) && forall path, leaf | HasLeaf(q.data, path, leaf) :: HasLeaf(MergedData({q}), path, leaf)
  }

  /** The leaf after the replay: as the last diff that touches it says, and as before when none does. */
  lemma SelfLeaf(q: Msg, path: seq<string>, leaf: Leaf) returns (id: MsgId)
    ensures Touches(q, path, leaf) ==>
              DecidesFor(q, id, path, leaf) &&
              (HasLeaf(MergedData({q}), path, leaf) <==> Eff(q, id, path, leaf).Adds?)
    ensures !Touches(q, path, leaf) ==> (HasLeaf(MergedData({q}), path, leaf) <==> HasLeaf(q.data, path, leaf))
  {
    hide LeafEffect, HasLeaf, MergedData, ReplayMap, Decided;
    MergedLeaf({q}, path, leaf);
    if Touches(q, path, leaf) {
      id := LastOfSelf(q, path, leaf);
    } else {
      id := Decider(ReplayMap({q}), path, leaf);
      if !Decided(ReplayMap({q}), path, leaf).Keeps? {
        SelfMap(q, id);
      }
    }
  }

  lemma DecidesForUnique(q: Msg, id: MsgId, other: MsgId, path: seq<string>, leaf: Leaf)
    requires DecidesFor(q, id, path, leaf) && DecidesFor(q, other, path, leaf)
    ensures id == other
  {
    hide Eff;
    IdOrder();
  }

  lemma KeepsOwnLeaf(q: Msg, id: MsgId, path: seq<string>, leaf: Leaf)
    requires KeepsOwn(q) && HasLeaf(q.data, path, leaf) && DecidesFor(q, id, path, leaf)
    ensures Eff(q, id, path, leaf).Adds?
  {
    hide LeafEffect, HasLeaf, MergedData;
    var other := SelfLeaf(q, path, leaf);
    DecidesForUnique(q, id, other, path, leaf);
  }

  lemma KeepsOwnIntro(q: Msg)
    requires Pruned(q.data)
    requires forall path, leaf, id | HasLeaf(q.data, path, leaf) && DecidesFor(q, id, path, leaf) ::
               !Eff(q, id, path, leaf).Drops?
    ensures KeepsOwn(q)
  {
    hide LeafEffect, HasLeaf, MergedData, Pruned;
    forall path, leaf | HasLeaf(q.data, path, leaf) ensures HasLeaf(MergedData({q}), path, leaf) {
      var id := SelfLeaf(q, path, leaf);
    }
  }

  // ----- merging

  /** A published merge holds the replayed diffs that are recent enough, and an empty one of its own. */
  lemma RepublishedHolds(v: set<Msg>, lag: int, hashOf: seq<Pair> -> Hash, id: MsgId)
    requires v != {} && AllValid(v, lag) && lag >= 1
    ensures var r := Republished(MergedMsg(v, lag, hashOf), lag);
            && r.data == MergedData(v) && r.diff == map[] && r.id.seqno == Greatest(v).id.seqno + 1
            && (Holds(r, id) && id != r.id ==> id in ReplayMap(v) && DiffFor(r, id) == ReplayMap(v)[id].diff)
            && (id in ReplayMap(v) && id.seqno > r.id.seqno - lag ==> Holds(r, id) && id != r.id)
  {
    hide MergedData, WireMsg, ReplayMap, Pruned;
    MergedMsgFields(v, lag, hashOf);
    if id in MergedLagged(v) {
      LaggedBelow(v, lag, id);
    }
  }

  /** If the merge kept the leaf, then no diff that is replayed from the merged data drops it for good. */
  lemma NoDrop(r: Msg, replay: map<MsgId, Entry>, path: seq<string>, leaf: Leaf, id: MsgId, last: MsgId)
    requires HasLeaf(r.data, path, leaf) && DecidesFor(r, id, path, leaf)
    requires id in replay && DiffFor(r, id) == replay[id].diff
    requires Decides(replay, last, path, leaf) ==> EffectAt(replay, last, path, leaf).Adds?
    requires Decides(replay, last, path, leaf) || EffectAt(replay, id, path, leaf).Keeps?
    requires last in replay && IdLess(id, last) ==> Holds(r, last) && DiffFor(r, last) == replay[last].diff
    ensures !Eff(r, id, path, leaf).Drops?
  {
    hide LeafEffect, HasLeaf;
    FromMerge(replay[id].diff, replay[id].source, r.data, path, leaf);
    if EffectAt(replay, id, path, leaf).Drops? {
      DropsBefore(replay, id, last, path, leaf);
      FromMerge(replay[last].diff, replay[last].source, r.data, path, leaf);
    }
  }

  lemma MergedDrop(v: set<Msg>, lag: int, hashOf: seq<Pair> -> Hash, path: seq<string>, leaf: Leaf, id: MsgId)
    requires v != {} && AllValid(v, lag) && lag >= 1
    requires var r := Republished(MergedMsg(v, lag, hashOf), lag);
             HasLeaf(r.data, path, leaf) && DecidesFor(r, id, path, leaf)
    ensures !Eff(Republished(MergedMsg(v, lag, hashOf), lag), id, path, leaf).Drops?
  {
    hide LeafEffect, HasLeaf, MergedData, ReplayMap, MergedMsg, Republished, Decided, AllValid, Pruned;
    var r, replay := Republished(MergedMsg(v, lag, hashOf), lag), ReplayMap(v);
    RepublishedHolds(v, lag, hashOf, id);
    if id == r.id {
      EmptyDiff(r.data, path, leaf);
    } else {
      MergedWindow(v, lag, hashOf);
      MergedLeaf(v, path, leaf);
      var last := Decider(replay, path, leaf);
      RepublishedHolds(v, lag, hashOf, last);
      NoDrop(r, replay, path, leaf, id, last);
    }
  }

  lemma EmptyDiff(s: Dict, path: seq<string>, leaf: Leaf)
    ensures LeafEffect(map[], s, path, leaf).Keeps?
  {
  }

  /** Replayed from data that has the leaf, a diff that kept it keeps it and one that put it puts it. */
  lemma FromMerge(d: Diff, s: Dict, n: Dict, path: seq<string>, leaf: Leaf)
    requires HasLeaf(n, path, leaf)
    ensures LeafEffect(d, s, path, leaf).Keeps? ==> LeafEffect(d, n, path, leaf).Keeps?
    ensures LeafEffect(d, s, path, leaf).Adds? ==> LeafEffect(d, n, path, leaf).Adds?
  {
    hide LeafEffect, HasLeaf;
    HasLeafShaped(n, path, leaf);
    match LeafEffect(d, s, path, leaf)
    case Keeps => KeepsFromShaped(d, s, n, path, leaf);
    case Adds => AddsFromHolder(d, s, n, path, leaf);
    case Drops =>
  }

  lemma DropsBefore(replay: map<MsgId, Entry>, id: MsgId, last: MsgId, path: seq<string>, leaf: Leaf)
    requires id in replay && EffectAt(replay, id, path, leaf).Drops?
    requires Decides(replay, last, path, leaf) && EffectAt(replay, last, path, leaf).Adds?
    ensures IdLess(id, last)
  {
    hide LeafEffect;
    IdOrder();
  }

  /** A published merge of any messages at all loses nothing when its own diffs are replayed. */
  lemma MergedKeepsOwn(v: set<Msg>, lag: int, hashOf: seq<Pair> -> Hash)
    requires v != {} && AllValid(v, lag) && lag >= 1
    ensures KeepsOwn(Republished(MergedMsg(v, lag, hashOf), lag))
  {
    hide LeafEffect, HasLeaf, MergedData, MergedMsg, Republished, AllValid, Eff, DecidesFor, KeepsOwn;
    var r := Republished(MergedMsg(v, lag, hashOf), lag);
    MergedWindow(v, lag, hashOf);
    forall path, leaf, id | HasLeaf(r.data, path, leaf) && DecidesFor(r, id, path, leaf)
      ensures Holds(r, id) && !Eff(r, id, path, leaf).Drops?
    {
      DecidesHeld(r, id, path, leaf);
      MergedDrop(v, lag, hashOf, path, leaf, id);
    }
    KeepsOwnIntro(r);
  }

  lemma DecidesHeld(q: Msg, id: MsgId, path: seq<string>, leaf: Leaf)
    requires DecidesFor(q, id, path, leaf)
    ensures Holds(q, id)
  {
  }

  // ----- editing

  /** `q` is an edit of `r`: its own diff leads from `r`'s data to its own, and otherwise it holds what `r`
      holds from some point on, except for empty diffs. */
  ghost predicate EditOf(r: Msg, q: Msg) {
    && Pruned(q.data) && q.diff == DiffDict(r.data, q.data)
    && (forall id :: Holds(q, id) && id != q.id ==>
        IdLess(id, q.id) && Holds(r, id) && DiffFor(q, id) == DiffFor(r, id))
    && (forall id, id1 :: Holds(q, id) && id != q.id && Holds(r, id1) && IdLess(id, id1) ==>
          (Holds(q, id1) && id1 != q.id) || DiffFor(r, id1) == map[])
  }

  lemma EditDrop(r: Msg, q: Msg, path: seq<string>, leaf: Leaf, id: MsgId)
    requires EditOf(r, q) && KeepsOwn(r) && HasLeaf(q.data, path, leaf) && DecidesFor(q, id, path, leaf)
    ensures !Eff(q, id, path, leaf).Drops?
  {
    hide LeafEffect, HasLeaf, MergedData, KeepsOwn, Pruned, DiffDict;
    OwnEffect(r.data, q.data, path, leaf);
    if id != q.id {
      assert Holds(q, q.id) && Eff(q, q.id, path, leaf).Keeps?;
      SameEffectFromHolders(DiffFor(r, id), r.data, q.data, path, leaf);
      forall id1 | Holds(r, id1) && IdLess(id, id1) ensures Eff(r, id1, path, leaf).Keeps? {
        EmptyDiff(r.data, path, leaf);
        SameEffectFromHolders(DiffFor(r, id1), r.data, q.data, path, leaf);
      }
      KeepsOwnLeaf(r, id, path, leaf);
    }
  }

  /** An edit of a message whose own replay loses nothing has that property too. */
  lemma EditKeepsOwn(r: Msg, q: Msg)
    requires EditOf(r, q) && KeepsOwn(r)
    ensures KeepsOwn(q)
  {
    hide LeafEffect, HasLeaf, MergedData, KeepsOwn, Eff, DecidesFor;
    forall path, leaf, id | HasLeaf(q.data, path, leaf) && DecidesFor(q, id, path, leaf)
      ensures Holds(q, id) && !Eff(q, id, path, leaf).Drops?
    {
      DecidesHeld(q, id, path, leaf);
      EditDrop(r, q, path, leaf, id);
    }
    KeepsOwnIntro(q);
  }

  lemma UpdateIsEdit(q: Msg, d: Dict, lag: int, hashOf: seq<Pair> -> Hash)
    requires lag >= 1 && ValidMsg(q, lag)
    ensures EditOf(q, Update(q, d, lag, hashOf))
  {
    hide Update, Prune, DiffDict, Pruned;
    var q' := Update(q, d, lag, hashOf);
    UpdateFields(q, d, lag, hashOf);
    forall id ensures Holds(q', id) <==> id == q'.id || (Holds(q, id) && id.seqno > q'.id.seqno - lag)
      ensures Holds(q', id) && id != q'.id ==> DiffFor(q', id) == DiffFor(q, id)
    {
      UpdateHolds(q, d, lag, hashOf, id);
    }
  }

  lemma UpdateKeepsOwn(q: Msg, d: Dict, lag: int, hashOf: seq<Pair> -> Hash)
    requires lag >= 1 && ValidMsg(q, lag) && KeepsOwn(q)
    ensures KeepsOwn(Update(q, d, lag, hashOf))
  {
    hide Update, EditOf, KeepsOwn;
    UpdateIsEdit(q, d, lag, hashOf);
    EditKeepsOwn(q, Update(q, d, lag, hashOf));
  }

  /** A draft, when published, is an edit of the message that would be read if it were left alone. */
  lemma PublishedIsEdit(m: Msg, d: Dict, lag: int, hashOf: seq<Pair> -> Hash)
    requires m.diff == map[] && forall id | id in m.lagged :: id.seqno < m.id.seqno
    ensures var q := Published(m.(data := d), m.data, lag, hashOf);
            EditOf(Republished(m, lag), q) && ValidMsg(q, lag)
  {
    hide Prune, DiffDict, Pruned, WireMsg;
    PruneEstablishesPruned(d);
  }

  /** So a merge that is edited before it is published loses nothing when its own diffs are replayed. */
  lemma EditedMergeKeepsOwn(v: set<Msg>, d: Dict, lag: int, hashOf: seq<Pair> -> Hash)
    requires v != {} && AllValid(v, lag) && lag >= 1
    ensures var m := MergedMsg(v, lag, hashOf);
            var q := Published(m.(data := d), m.data, lag, hashOf);
            KeepsOwn(q) && ValidMsg(q, lag)
  {
    hide MergedMsg, Published, Republished, EditOf, KeepsOwn, AllValid;
    var m := MergedMsg(v, lag, hashOf);
    MergedDraft(v, lag, hashOf);
    PublishedIsEdit(m, d, lag, hashOf);
    MergedKeepsOwn(v, lag, hashOf);
    EditKeepsOwn(Republished(m, lag), Published(m.(data := d), m.data, lag, hashOf));
  }

  lemma MergedDraft(v: set<Msg>, lag: int, hashOf: seq<Pair> -> Hash)
    requires v != {} && AllValid(v, lag)
    ensures var m := MergedMsg(v, lag, hashOf);
            m.diff == map[] && m.data == MergedData(v) && forall id | id in m.lagged :: id.seqno < m.id.seqno
  {
    hide MergedData, WireMsg, Pruned;
    MergedMsgFields(v, lag, hashOf);
    forall id | id in MergedLagged(v) ensures id.seqno <= Greatest(v).id.seqno {
      LaggedBelow(v, lag, id);
    }
  }

  // ----- merges that fail

  ghost predicate CleanMsg(m: Msg) {
    forall id :: Holds(m, id) ==> Clean(DiffFor(m, id))
  }

  lemma ReplayIsClean(v: set<Msg>, id: MsgId)
    requires id in ReplayMap(v) && forall m | m in v :: CleanMsg(m)
    ensures Clean(ReplayMap(v)[id].diff)
  {
    hide Clean;
    HeldSomewhere(v, id);
    assert Greatest(Holders(v, id)) in Holders(v, id);
  }

  /** Clean messages can always be merged. */
  lemma CleanNeverBreaks(v: set<Msg>)
    requires forall m | m in v :: CleanMsg(m)
    ensures !Breaks(v)
  {
    hide ReplayMap, CleanMsg, Clean, Throws;
    forall id | id in ReplayMap(v) ensures !Throws(ReplayMap(v)[id].diff, ReplayMap(v)[id].source) {
      ReplayIsClean(v, id);
      CleanApplies(ReplayMap(v)[id].diff, ReplayMap(v)[id].source);
    }
  }

  lemma EditIsClean(r: Msg, q: Msg)
    requires EditOf(r, q) && CleanMsg(r)
    ensures CleanMsg(q)
  {
    hide Clean, Pruned, DiffDict;
    DiffIsClean(r.data, q.data);
  }

  lemma MergedIsClean(v: set<Msg>, lag: int, hashOf: seq<Pair> -> Hash)
    requires v != {} && AllValid(v, lag) && lag >= 1 && forall m | m in v :: CleanMsg(m)
    ensures CleanMsg(Republished(MergedMsg(v, lag, hashOf), lag))
  {
    hide MergedMsg, Republished, AllValid, ReplayMap, MergedData;
    var r := Republished(MergedMsg(v, lag, hashOf), lag);
    forall id | Holds(r, id) ensures Clean(DiffFor(r, id)) {
      RepublishedHolds(v, lag, hashOf, id);
      if id != r.id {
        ReplayIsClean(v, id);
      }
    }
  }

  /** A malformed set change makes every merge in which it takes part fail, if its message is in no other's
      window and has a set there. */
  lemma BadSetBreaks(v: set<Msg>, m: Msg, k: string)
    requires IdsDistinguish(v) && m in v && forall o | o in v :: m.id !in o.lagged
    requires k in m.diff && m.diff[k].BadSet? && k in m.data && m.data[k].SetV?
    ensures Breaks(v)
  {
    hide ReplayMap;
    OnlyHolder(v, m.id, m);
    assert ThrowsAt(m.diff[k], k, m.data);
    assert Throws(m.diff, m.data);
  }

  // ----- every message there can be

  /** How a message came about: as the empty message, as a new one with a seqno of its own, by an edit of a
      message, by a merge of some, or by a merge that was edited before it was published. */
  datatype Life =
    | Start
    | Fresh(seqno: int, data: Dict)
    | Edited(before: Life, data: Dict)
    | Met(lives: seq<Life>, canSign: bool)
    | MetAndEdited(lives: seq<Life>, canSign: bool, data: Dict)

  function Blank(seqno: int): Msg {
    Msg(MsgId(seqno, seq(32, i => '0')), map[], map[], map[])
  }

  function StartMsg(lag: int, hashOf: seq<Pair> -> Hash): Msg {
    Blank(0).(id := MsgId(0, hashOf(WireMsg(Blank(0), lag))))
  }

  /** What others read of the merge of `s`, and the empty message when there is nothing to merge. */
  ghost function MergeRead(s: set<Msg>, lag: int, canSign: bool, hashOf: seq<Pair> -> Hash): (m: Msg)
    requires AllValid(s, lag) && lag >= 1
    ensures ValidMsg(m, lag)
  {
    if s == {} then StartMsg(lag, hashOf)
    else
      MergeIsValid(s, lag, canSign, hashOf);
      Republished(MergeOf(s, lag, canSign, hashOf), lag)
  }

  /** The message, as others read it. */
  ghost function Reached(life: Life, lag: int, hashOf: seq<Pair> -> Hash): (m: Msg)
    requires lag >= 1
    ensures ValidMsg(m, lag)
    decreases life
  {
    match life
    case Start => StartMsg(lag, hashOf)
    case Fresh(seqno, data) =>
      PublishedIsEdit(Blank(seqno), data, lag, hashOf);
      Published(Blank(seqno).(data := data), map[], lag, hashOf)
    case Edited(before, data) =>
      UpdateFields(Reached(before, lag, hashOf), data, lag, hashOf);
      Update(Reached(before, lag, hashOf), data, lag, hashOf)
    case Met(lives, canSign) =>
      MergeRead(set i | 0 <= i < |lives| :: Reached(lives[i], lag, hashOf), lag, canSign, hashOf)
    case MetAndEdited(lives, canSign, data) =>
      var s := set i | 0 <= i < |lives| :: Reached(lives[i], lag, hashOf);
      if s == {} then StartMsg(lag, hashOf)
      else
        EditedMergeIsValid(s, data, lag, canSign, hashOf);
        EditedMerge(s, data, lag, canSign, hashOf)
  }

  lemma MergeIsValid(s: set<Msg>, lag: int, canSign: bool, hashOf: seq<Pair> -> Hash)
    requires s != {} && AllValid(s, lag) && lag >= 1
    ensures ValidMsg(Republished(MergeOf(s, lag, canSign, hashOf), lag), lag)
  {
    hide MergedMsg, Survivors, Pruned;
    if NeedsMerge(s, lag, canSign) {
      RepublishedWindow(s, lag, hashOf);
    } else {
      assert Greatest(s) in s;
    }
  }

  lemma EditedMergeIsValid(s: set<Msg>, d: Dict, lag: int, canSign: bool, hashOf: seq<Pair> -> Hash)
    requires s != {} && AllValid(s, lag) && lag >= 1
    ensures ValidMsg(EditedMerge(s, d, lag, canSign, hashOf), lag)
  {
    hide MergedMsg, Survivors, Pruned, Published, Update, KeepsOwn;
    GreatestSurvives(s, lag);
    SurvivorsAllValid(s, lag);
    if NeedsMerge(s, lag, canSign) {
      EditedMergeKeepsOwn(Survivors(s, lag), d, lag, hashOf);
    } else {
      UpdateFields(Greatest(s), d, lag, hashOf);
    }
  }

  /** A message that is taken over as it is stays as it is. */
  lemma RepublishedSame(m: Msg, lag: int)
    requires ValidMsg(m, lag)
    ensures Republished(m, lag) == m
  {
    assert Window(m.lagged, m.id.seqno, lag) == m.lagged;
  }

  /** Its own diffs lose nothing when they are replayed, and can all be applied. */
  ghost predicate Good(m: Msg) {
    KeepsOwn(m) && CleanMsg(m)
  }

  lemma EditIsGood(r: Msg, q: Msg)
    requires EditOf(r, q) && Good(r)
    ensures Good(q)
  {
    hide EditOf, KeepsOwn, CleanMsg;
    EditKeepsOwn(r, q);
    EditIsClean(r, q);
  }

  lemma UpdateIsGood(q: Msg, d: Dict, lag: int, hashOf: seq<Pair> -> Hash)
    requires lag >= 1 && ValidMsg(q, lag) && Good(q)
    ensures Good(Update(q, d, lag, hashOf))
  {
    hide Update, EditOf, Good;
    UpdateIsEdit(q, d, lag, hashOf);
    EditIsGood(q, Update(q, d, lag, hashOf));
  }

  /** Merging good messages, and editing the outcome, gives good messages. */
  lemma MergeIsGood(s: set<Msg>, d: Dict, lag: int, canSign: bool, hashOf: seq<Pair> -> Hash)
    requires s != {} && AllValid(s, lag) && lag >= 1 && forall m | m in s :: Good(m)
    ensures Good(Republished(MergeOf(s, lag, canSign, hashOf), lag))
    ensures Good(EditedMerge(s, d, lag, canSign, hashOf))
  {
    hide MergedMsg, KeepsOwn, CleanMsg, Pruned, Republished, Published, Update, EditOf;
    GreatestSurvives(s, lag);
    SurvivorsAllValid(s, lag);
    if NeedsMerge(s, lag, canSign) {
      var v := Survivors(s, lag);
      var m := MergedMsg(v, lag, hashOf);
      MergedKeepsOwn(v, lag, hashOf);
      MergedIsClean(v, lag, hashOf);
      MergedDraft(v, lag, hashOf);
      PublishedIsEdit(m, d, lag, hashOf);
      EditIsGood(Republished(m, lag), Published(m.(data := d), m.data, lag, hashOf));
    } else {
      assert Greatest(s) in s;
      RepublishedSame(Greatest(s), lag);
      UpdateIsGood(Greatest(s), d, lag, hashOf);
    }
  }

  lemma SurvivorsAllValid(s: set<Msg>, lag: int)
    requires s != {} && AllValid(s, lag)
    ensures AllValid(Survivors(s, lag), lag) && Survivors(s, lag) <= s && ValidMsg(Greatest(s), lag)
  {
    assert Greatest(s) in s;
  }

  /** A message without data has nothing to lose. */
  lemma NothingToLose(m: Msg)
    requires m.data == map[] && m.diff == map[] && m.lagged == map[]
    ensures Good(m)
  {
    hide MergedData;
    assert forall path, leaf :: !HasLeaf(map[], path, leaf);
  }

  lemma FreshIsGood(seqno: int, d: Dict, lag: int, hashOf: seq<Pair> -> Hash)
    ensures Good(Published(Blank(seqno).(data := d), map[], lag, hashOf))
  {
    hide Good, Published, EditOf;
    PublishedIsEdit(Blank(seqno), d, lag, hashOf);
    NothingToLose(Republished(Blank(seqno), lag));
    EditIsGood(Republished(Blank(seqno), lag), Published(Blank(seqno).(data := d), map[], lag, hashOf));
  }

  /** Every message that edits and merges lead to is good: its own diffs lose nothing when they are
      replayed, and none of them makes a merge fail. */
  lemma {:induction false} EveryMessageIsGood(life: Life, lag: int, hashOf: seq<Pair> -> Hash)
    requires lag >= 1
    ensures Good(Reached(life, lag, hashOf))
    decreases life
  {
    hide Good, Update, MergeOf, Republished, Pruned, EditedMerge, Published;
    NothingToLose(StartMsg(lag, hashOf));
    match life
    case Start =>
    case Fresh(seqno, data) => FreshIsGood(seqno, data, lag, hashOf);
    case Edited(before, data) =>
      EveryMessageIsGood(before, lag, hashOf);
      UpdateIsGood(Reached(before, lag, hashOf), data, lag, hashOf);
    case Met(lives, canSign) =>
      var s := set i | 0 <= i < |lives| :: Reached(lives[i], lag, hashOf);
      forall i | 0 <= i < |lives| ensures Good(Reached(lives[i], lag, hashOf)) {
        EveryMessageIsGood(lives[i], lag, hashOf);
      }
      if s != {} {
        MergeIsGood(s, map[], lag, canSign, hashOf);
      }
    case MetAndEdited(lives, canSign, data) =>
      var s := set i | 0 <= i < |lives| :: Reached(lives[i], lag, hashOf);
      forall i | 0 <= i < |lives| ensures Good(Reached(lives[i], lag, hashOf)) {
        EveryMessageIsGood(lives[i], lag, hashOf);
      }
      if s != {} {
        MergeIsGood(s, data, lag, canSign, hashOf);
      }
  }

  // ----- what the replay may bring back

  /** A diff of the message adds an element that the message does not have, and no later one removes it. */
  ghost predicate Revives(q: Msg, path: seq<string>, e: Scalar, id: MsgId) {
    && !HasLeaf(q.data, path, ElemLeaf(e))
    && DecidesFor(q, id, path, ElemLeaf(e)) && Eff(q, id, path, ElemLeaf(e)).Adds?
  }

  lemma {:induction false} ScalarsFromSource(d: Diff, n: Dict, path: seq<string>, leaf: Leaf)
    requires leaf.ScalarLeaf? && LeafEffect(d, n, path, leaf).Adds?
    ensures HasLeaf(n, path, leaf)
    decreases |path|
  {
    match d[path[0]]
    case Assigned =>
    case DictDiff(sub) => ScalarsFromSource(sub, n[path[0]].entries, path[1..], leaf);
  }

  /** Replaying a message's own diffs changes nothing exactly when none of them revives an element. */
  lemma SelfReplayExactly(q: Msg)
    requires KeepsOwn(q)
    ensures MergedData({q}) == q.data <==> forall path, e, id :: !Revives(q, path, e, id)
  {
    hide LeafEffect, HasLeaf, Eff, DecidesFor;
    var m := MergedData({q});
    PruneEstablishesPruned(Replay(Greatest({q}).data, Entries(ReplayMap({q}))));
    hide MergedData;
    if m == q.data {
      forall path, e, id ensures !Revives(q, path, e, id) {
        if Revives(q, path, e, id) {
          var other := SelfLeaf(q, path, ElemLeaf(e));
          RevivesTouches(q, path, e, id);
          DecidesForUnique(q, id, other, path, ElemLeaf(e));
        }
      }
    } else if forall path, e, id :: !Revives(q, path, e, id) {
      forall path, leaf ensures HasLeaf(m, path, leaf) <==> HasLeaf(q.data, path, leaf) {
        NotRevived(q, path, leaf);
      }
      PrunedFormUnique(m, q.data);
    }
  }

  lemma RevivesTouches(q: Msg, path: seq<string>, e: Scalar, id: MsgId)
    requires Revives(q, path, e, id)
    ensures Touches(q, path, ElemLeaf(e))
  {
  }

  lemma NotRevived(q: Msg, path: seq<string>, leaf: Leaf)
    requires KeepsOwn(q) && forall e, id :: !Revives(q, path, e, id)
    ensures HasLeaf(MergedData({q}), path, leaf) <==> HasLeaf(q.data, path, leaf)
  {
    hide LeafEffect, HasLeaf, MergedData;
    var id := SelfLeaf(q, path, leaf);
    if leaf.ScalarLeaf? && Touches(q, path, leaf) && Eff(q, id, path, leaf).Adds? {
      ScalarsFromSource(DiffFor(q, id), q.data, path, leaf);
    } else if leaf.ElemLeaf? {
      assert !Revives(q, path, leaf.e, id);
    }
  }

  /** Three edits of a message with the set {1}: one adds 2, a greater one empties the set, and the
      greatest adds 3.  They share a window `w`, in which that set came about. */
  ghost predicate ThreeEdits(c1: Msg, c2: Msg, c3: Msg, w: Lagged, lag: int) {
    && c1.lagged == w && c2.lagged == w && c3.lagged == w && InWindow(w, c1.id.seqno, lag)
    && c1.id.seqno == c2.id.seqno == c3.id.seqno && IdLess(c2.id, c1.id) && IdLess(c1.id, c3.id)
    && c1.data == map[] && c1.diff == map["s" := SetDiff({}, {Int(1)})]
    && c2.data == map["s" := SetV({Int(1), Int(2)})] && c2.diff == map["s" := SetDiff({Int(2)}, {})]
    && c3.data == map["s" := SetV({Int(1), Int(3)})] && c3.diff == map["s" := SetDiff({Int(3)}, {})]
  }

  lemma NotAfter(a: MsgId, b: MsgId)
    requires IdLess(b, a)
    ensures a != b && !IdLess(a, b) && !IdLess(a, a) && !IdLess(b, b)
  {
    hide KeyLess;
    KeyLessIrreflexive(a.hash);
    KeyLessIrreflexive(b.hash);
    if KeyLess(a.hash, b.hash) && KeyLess(b.hash, a.hash) {
      KeyLessTransitive(a.hash, b.hash, a.hash);
    }
  }

  lemma ThreeIds(a: MsgId, b: MsgId, c: MsgId)
    requires IdLess(b, a) && IdLess(a, c)
    ensures IdLess(b, c) && a != b && b != c && a != c
    ensures !IdLess(a, b) && !IdLess(c, a) && !IdLess(c, b)
    ensures !IdLess(a, a) && !IdLess(b, b) && !IdLess(c, c)
  {
    hide IdLess;
    IdLessTransitive(b, a, c);
    NotAfter(a, b);
    NotAfter(c, a);
    NotAfter(c, b);
  }

  lemma ThreeValid(c1: Msg, c2: Msg, c3: Msg, w: Lagged, lag: int)
    requires ThreeEdits(c1, c2, c3, w, lag)
    ensures AllValid({c1, c2, c3}, lag)
  {
    hide IdLess;
    assert ValidMsg(c1, lag) && ValidMsg(c2, lag) && ValidMsg(c3, lag);
  }

  lemma ThreeTakePart(c1: Msg, c2: Msg, c3: Msg, w: Lagged, lag: int)
    requires lag >= 1 && ThreeEdits(c1, c2, c3, w, lag)
    ensures var v := {c1, c2, c3};
            && AllValid(v, lag) && IdsDistinguish(v) && Greatest(v) == c3 && Survivors(v, lag) == v
  {
    hide IdLess, AllValid;
    var v := {c1, c2, c3};
    ThreeIds(c1.id, c2.id, c3.id);
    assert IdsDistinguish(v);
    assert IsGreatest(c3, v);
    GreatestUnique(c3, v);
    ThreeValid(c1, c2, c3, w, lag);
    forall o | o in v ensures !Included(o, v) {}
    assert Survivors(v, lag) == v;
  }

  /** The diff of a message that no other holds is replayed from that message. */
  lemma SoleHolder(v: set<Msg>, m: Msg)
    requires m in v && IdsDistinguish(v) && forall o | o in v :: m.id !in o.lagged
    ensures m.id in ReplayMap(v) && ReplayMap(v)[m.id] == Entry(m.diff, m.data)
  {
    hide ReplayMap;
    OnlyHolder(v, m.id, m);
  }

  lemma ReplayKeys(v: set<Msg>, id: MsgId)
    ensures id in ReplayMap(v) <==> exists m :: m in v && Holds(m, id)
  {
    hide ReplayMap;
    HeldSomewhere(v, id);
    if id in ReplayIds(v) {
      var m :| m in Holders(v, id);
      assert m in v && Holds(m, id);
    }
    if m :| m in v && Holds(m, id) {
      assert m in Holders(v, id);
    }
  }

  lemma ThreeHeld(c1: Msg, c2: Msg, c3: Msg, w: Lagged, lag: int)
    requires ThreeEdits(c1, c2, c3, w, lag)
    ensures forall o | o in {c1, c2, c3} :: o.lagged == w
    ensures c1.id !in w && c2.id !in w && c3.id !in w
  {
    hide IdLess;
  }

  /** The three edits are replayed from themselves, and everything else comes before them. */
  lemma ThreeReplayed(c1: Msg, c2: Msg, c3: Msg, w: Lagged, lag: int)
    requires lag >= 1 && ThreeEdits(c1, c2, c3, w, lag)
    ensures var replay := ReplayMap({c1, c2, c3});
            && (forall id :: id in replay ==> id in {c1.id, c2.id, c3.id} || id in w)
            && c1.id in replay && replay[c1.id] == Entry(c1.diff, c1.data)
            && c2.id in replay && replay[c2.id] == Entry(c2.diff, c2.data)
            && c3.id in replay && replay[c3.id] == Entry(c3.diff, c3.data)
  {
    hide ReplayMap, IdLess, Survivors, AllValid, Greatest, IsGreatest, ThreeEdits;
    var v := {c1, c2, c3};
    ThreeTakePart(c1, c2, c3, w, lag);
    ThreeHeld(c1, c2, c3, w, lag);
    SoleHolder(v, c1);
    SoleHolder(v, c2);
    SoleHolder(v, c3);
    forall id | id in ReplayMap(v) ensures id in {c1.id, c2.id, c3.id} || id in w {
      ReplayKeys(v, id);
    }
  }

  lemma WindowBefore(w: Lagged, seqno: int, lag: int, c: MsgId, id: MsgId)
    requires InWindow(w, seqno, lag) && c.seqno == seqno && id in w
    ensures !IdLess(c, id)
  {
  }

  /** What the three edits do to the elements 2 and 3. */
  lemma ThreeEffects(c1: Msg, c2: Msg, c3: Msg, w: Lagged, lag: int)
    requires ThreeEdits(c1, c2, c3, w, lag)
    ensures LeafEffect(c1.diff, c1.data, ["s"], ElemLeaf(Int(2))).Drops?
    ensures LeafEffect(c3.diff, c3.data, ["s"], ElemLeaf(Int(2))).Keeps?
    ensures LeafEffect(c3.diff, c3.data, ["s"], ElemLeaf(Int(3))).Adds?
  {
    hide IdLess;
  }

  lemma ThreeMerged(c1: Msg, c2: Msg, c3: Msg, w: Lagged, lag: int)
    requires lag >= 1 && ThreeEdits(c1, c2, c3, w, lag)
    ensures !HasLeaf(MergedData({c1, c2, c3}), ["s"], ElemLeaf(Int(2)))
    ensures HasLeaf(MergedData({c1, c2, c3}), ["s"], ElemLeaf(Int(3)))
  {
    hide ReplayMap, MergedData, Decided, IdLess, LeafEffect, HasLeaf;
    var v, replay := {c1, c2, c3}, ReplayMap({c1, c2, c3});
    ThreeReplayed(c1, c2, c3, w, lag);
    ThreeIds(c1.id, c2.id, c3.id);
    ThreeEffects(c1, c2, c3, w, lag);
    forall id | id in w ensures !IdLess(c1.id, id) && !IdLess(c3.id, id) {
      WindowBefore(w, c1.id.seqno, lag, c1.id, id);
      WindowBefore(w, c1.id.seqno, lag, c3.id, id);
    }
    DecidesUnique(replay, c1.id, ["s"], ElemLeaf(Int(2)));
    DecidesUnique(replay, c3.id, ["s"], ElemLeaf(Int(3)));
    MergedLeaf(v, ["s"], ElemLeaf(Int(2)));
    MergedLeaf(v, ["s"], ElemLeaf(Int(3)));
  }

  /** The merge of the three drops 2 with the set; replayed from the merged data, which has the set
      again, the diff that added 2 brings it back. */
  lemma ThreeRevive(c1: Msg, c2: Msg, c3: Msg, w: Lagged, lag: int, hashOf: seq<Pair> -> Hash)
    requires lag >= 2 && ThreeEdits(c1, c2, c3, w, lag)
    ensures var v := {c1, c2, c3};
            && v != {} && AllValid(v, lag) && Survivors(v, lag) == v
            && var r := Republished(MergedMsg(v, lag, hashOf), lag);
               !HasLeaf(r.data, ["s"], ElemLeaf(Int(2))) && HasLeaf(MergedData({r}), ["s"], ElemLeaf(Int(2)))
  {
    hide ReplayMap, MergedData, Survivors, AllValid, MergedMsg, Republished, IdLess;
    var v := {c1, c2, c3};
    ThreeTakePart(c1, c2, c3, w, lag);
    ThreeReplayed(c1, c2, c3, w, lag);
    ThreeMerged(c1, c2, c3, w, lag);
    var r := Republished(MergedMsg(v, lag, hashOf), lag);
    forall id ensures Holds(r, id) ==> id == r.id || id in {c1.id, c2.id, c3.id} || id in w
      ensures id in {c1.id, c2.id, c3.id} ==>
                id != r.id && Holds(r, id) && DiffFor(r, id) == ReplayMap(v)[id].diff
      ensures r.diff == map[] && r.data == MergedData(v)
    {
      RepublishedHolds(v, lag, hashOf, id);
    }
    ElementBack(r, c1, c2, c3, w, lag);
  }

  lemma ElementBack(r: Msg, c1: Msg, c2: Msg, c3: Msg, w: Lagged, lag: int)
    requires ThreeEdits(c1, c2, c3, w, lag) && r.diff == map[]
    requires forall id :: Holds(r, id) ==> id == r.id || id in {c1.id, c2.id, c3.id} || id in w
    requires Holds(r, c1.id) && Holds(r, c2.id) && Holds(r, c3.id) && r.id !in {c1.id, c2.id, c3.id}
    requires DiffFor(r, c1.id) == c1.diff && DiffFor(r, c2.id) == c2.diff && DiffFor(r, c3.id) == c3.diff
    requires HasLeaf(r.data, ["s"], ElemLeaf(Int(3)))
    ensures HasLeaf(MergedData({r}), ["s"], ElemLeaf(Int(2)))
  {
    hide MergedData, KeyLess;
    var leaf := ElemLeaf(Int(2));
    ThreeIds(c1.id, c2.id, c3.id);
    assert Eff(r, c2.id, ["s"], leaf).Adds?;
    assert DecidesFor(r, c2.id, ["s"], leaf);
    var id := SelfLeaf(r, ["s"], leaf);
    DecidesForUnique(r, c2.id, id, ["s"], leaf);
  }

  // Three devices start from a message with the set {1}.

  function Numbers(ns: set<Scalar>): Dict {
    if ns == {} then map[] else map["s" := SetV(ns)]
  }

  lemma NumbersPruned(ns: set<Scalar>)
    ensures Pruned(Numbers(ns)) && Prune(Numbers(ns)) == Numbers(ns)
  {
    assert Pruned(Numbers(ns));
    PruneIsNormalForm(Numbers(ns), Numbers(ns));
  }

  lemma NumbersDiff(a: set<Scalar>, b: set<Scalar>)
    requires a != b
    ensures DiffDict(Numbers(a), Numbers(b)) == map["s" := SetDiff(b - a, a - b)]
  {
    var d := DiffDict(Numbers(a), Numbers(b));
    DiffLookup(Numbers(a), Numbers(b), "s");
    forall k | k in d ensures k == "s" {
      DiffLookup(Numbers(a), Numbers(b), k);
    }
    assert d["s"] == SetDiff(b - a, a - b);
  }

  function BaseLife(): Life {
    Edited(Start, Numbers({Int(1)}))
  }

  /** The edit of the base into the given set. */
  function EditLife(ns: set<Scalar>): Life {
    Edited(BaseLife(), Numbers(ns))
  }

  lemma BaseData(lag: int, hashOf: seq<Pair> -> Hash)
    requires lag >= 1
    ensures Reached(BaseLife(), lag, hashOf).data == Numbers({Int(1)})
  {
    hide Update, Numbers, Prune;
    UpdateFields(StartMsg(lag, hashOf), Numbers({Int(1)}), lag, hashOf);
    NumbersPruned({Int(1)});
  }

  lemma EditFields(ns: set<Scalar>, lag: int, hashOf: seq<Pair> -> Hash)
    requires lag >= 1 && ns != {Int(1)}
    ensures var p, c := Reached(BaseLife(), lag, hashOf), Reached(EditLife(ns), lag, hashOf);
            && c.data == Numbers(ns) && c.diff == map["s" := SetDiff(ns - {Int(1)}, {Int(1)} - ns)]
            && c.id.seqno == p.id.seqno + 1
            && c.lagged == Window(CarriedOver(p, lag), p.id.seqno + 1, lag) && ValidMsg(c, lag)
  {
    hide Numbers, Prune, DiffDict, CarriedOver, WireMsg, Pruned;
    var p := Reached(BaseLife(), lag, hashOf);
    UpdateFields(p, Numbers(ns), lag, hashOf);
    NumbersPruned(ns);
    BaseData(lag, hashOf);
    NumbersDiff({Int(1)}, ns);
  }

  /** A message that comes of edits and a merge, and whose own diffs, replayed onto it, bring an element
      back: whenever the hashes of the three edits are in this order. */
  lemma RevivedElement(lag: int, hashOf: seq<Pair> -> Hash, e1: Life, e2: Life, e3: Life)
    requires lag >= 2 && e1 == EditLife({}) && e2 == EditLife({Int(1), Int(2)}) && e3 == EditLife({Int(1), Int(3)})
    requires IdLess(Reached(e2, lag, hashOf).id, Reached(e1, lag, hashOf).id)
    requires IdLess(Reached(e1, lag, hashOf).id, Reached(e3, lag, hashOf).id)
    ensures var r := Reached(Met([e1, e2, e3], true), lag, hashOf);
            !HasLeaf(r.data, ["s"], ElemLeaf(Int(2))) && HasLeaf(MergedData({r}), ["s"], ElemLeaf(Int(2)))
  {
    hide Reached, IdLess, HasLeaf, MergedData, MergedMsg, Republished, Survivors, AllValid, Numbers, Pruned;
    hide EditLife, ThreeEdits;
    var c1, c2, c3 := Reached(e1, lag, hashOf), Reached(e2, lag, hashOf), Reached(e3, lag, hashOf);
    EditFields({}, lag, hashOf);
    EditFields({Int(1), Int(2)}, lag, hashOf);
    EditFields({Int(1), Int(3)}, lag, hashOf);
    ThreeFromEdits(c1, c2, c3, c1.lagged, lag);
    ThreeRevive(c1, c2, c3, c1.lagged, lag, hashOf);
    ThreeIds(c1.id, c2.id, c3.id);
    ThreeMet(e1, e2, e3, lag, hashOf);
  }

  lemma ThreeFromEdits(c1: Msg, c2: Msg, c3: Msg, w: Lagged, lag: int)
    requires c1.lagged == w && c2.lagged == w && c3.lagged == w && InWindow(w, c1.id.seqno, lag)
    requires c1.id.seqno == c2.id.seqno == c3.id.seqno && IdLess(c2.id, c1.id) && IdLess(c1.id, c3.id)
    requires c1.data == Numbers({}) && c1.diff == map["s" := SetDiff({} - {Int(1)}, {Int(1)} - {})]
    requires c2.data == Numbers({Int(1), Int(2)})
    requires c2.diff == map["s" := SetDiff({Int(1), Int(2)} - {Int(1)}, {Int(1)} - {Int(1), Int(2)})]
    requires c3.data == Numbers({Int(1), Int(3)})
    requires c3.diff == map["s" := SetDiff({Int(1), Int(3)} - {Int(1)}, {Int(1)} - {Int(1), Int(3)})]
    ensures ThreeEdits(c1, c2, c3, w, lag)
  {
    hide IdLess;
    var one: set<Scalar> := {Int(1)};
    assert {} - one == {} && one - {} == one;
    assert {Int(1), Int(2)} - {Int(1)} == {Int(2)} && {Int(1), Int(3)} - {Int(1)} == {Int(3)};
    assert {Int(1)} - {Int(1), Int(2)} == {} && {Int(1)} - {Int(1), Int(3)} == {};
  }

  lemma SetOfThree(e1: Life, e2: Life, e3: Life, lag: int, hashOf: seq<Pair> -> Hash)
    requires lag >= 1
    ensures (set i | 0 <= i < |[e1, e2, e3]| :: Reached([e1, e2, e3][i], lag, hashOf)) ==
            {Reached(e1, lag, hashOf), Reached(e2, lag, hashOf), Reached(e3, lag, hashOf)}
  {
    hide Reached;
    var lives := [e1, e2, e3];
    assert lives[0] == e1 && lives[1] == e2 && lives[2] == e3;
  }

  lemma ThreeMet(e1: Life, e2: Life, e3: Life, lag: int, hashOf: seq<Pair> -> Hash)
    requires lag >= 1
    requires var v := {Reached(e1, lag, hashOf), Reached(e2, lag, hashOf), Reached(e3, lag, hashOf)};
             Survivors(v, lag) == v && Reached(e1, lag, hashOf) != Reached(e2, lag, hashOf)
    ensures var v := {Reached(e1, lag, hashOf), Reached(e2, lag, hashOf), Reached(e3, lag, hashOf)};
            Reached(Met([e1, e2, e3], true), lag, hashOf) == Republished(MergedMsg(v, lag, hashOf), lag)
  {
    hide MergedMsg, Republished, Survivors, Reached;
    SetOfThree(e1, e2, e3, lag, hashOf);
    var v := {Reached(e1, lag, hashOf), Reached(e2, lag, hashOf), Reached(e3, lag, hashOf)};
    TwoApart(v, Reached(e1, lag, hashOf), Reached(e2, lag, hashOf));
    MetIs([e1, e2, e3], v, lag, hashOf);
  }

  lemma MetIs(lives: seq<Life>, s: set<Msg>, lag: int, hashOf: seq<Pair> -> Hash)
    requires lag >= 1 && s == (set i | 0 <= i < |lives| :: Reached(lives[i], lag, hashOf))
    requires s != {} && (forall m :: s != {m}) && Survivors(s, lag) == s
    ensures Reached(Met(lives, true), lag, hashOf) == Republished(MergedMsg(s, lag, hashOf), lag)
  {
    hide MergedMsg, Republished, Survivors, ValidMsg, MergeRead;
    MetUnfolds(lives, s, lag, hashOf);
    ReadOfMany(s, lag, hashOf);
  }

  lemma MetUnfolds(lives: seq<Life>, s: set<Msg>, lag: int, hashOf: seq<Pair> -> Hash)
    requires lag >= 1 && s == (set i | 0 <= i < |lives| :: Reached(lives[i], lag, hashOf))
    ensures AllValid(s, lag) && Reached(Met(lives, true), lag, hashOf) == MergeRead(s, lag, true, hashOf)
  {
    hide MergeRead, ValidMsg, EditedMerge, Update, Published, StartMsg;
    var t := set i | 0 <= i < |lives| :: Reached(lives[i], lag, hashOf);
    assert t == s;
    assert Reached(Met(lives, true), lag, hashOf) == MergeRead(t, lag, true, hashOf);
  }

  lemma ReadOfMany(s: set<Msg>, lag: int, hashOf: seq<Pair> -> Hash)
    requires lag >= 1 && AllValid(s, lag) && s != {} && (forall m :: s != {m}) && Survivors(s, lag) == s
    ensures MergeRead(s, lag, true, hashOf) == Republished(MergedMsg(s, lag, hashOf), lag)
  {
    hide MergedMsg, Republished, Survivors, AllValid, ValidMsg;
  }

  lemma TwoApart(v: set<Msg>, a: Msg, b: Msg)
    requires a in v && b in v && a != b
    ensures forall m :: v != {m}
  {
  }

  /** Two devices edit the message with the set {1}: when the one that empties the set has the greater hash,
      what the other added is lost, although the two edits touch no element in common. */
  lemma ForkLosesUpdate(lag: int, hashOf: seq<Pair> -> Hash, e1: Life, e2: Life)
    requires lag >= 1 && e1 == EditLife({}) && e2 == EditLife({Int(1), Int(2)})
    requires IdLess(Reached(e2, lag, hashOf).id, Reached(e1, lag, hashOf).id)
    ensures var p, c1, c2 := Reached(BaseLife(), lag, hashOf), Reached(e1, lag, hashOf), Reached(e2, lag, hashOf);
            && Survivors({c1, c2}, lag) == {c1, c2} && Disjoint(c1.diff, c2.diff)
            && !NoUpdateLost(MergedData({c1, c2}), p.data, c1.data, c2.data)
  {
    hide IdLess, Survivors, MergedData, NoUpdateLost, Disjoint, Update, Prune, Pruned, KeepsShared, DiffDict, Linear;
    var start, one := StartMsg(lag, hashOf), Numbers({Int(1)});
    var p := Update(start, one, lag, hashOf);
    var none, two := Numbers({}), Numbers({Int(1), Int(2)});
    NumbersPruned({Int(1)});
    NumbersPruned({});
    NumbersPruned({Int(1), Int(2)});
    BaseData(lag, hashOf);
    DefaultIsLinear(start, lag);
    UpdateStaysLinear(start, one, lag, hashOf, [map[], map[]]);
    UpdateFields(start, one, lag, hashOf);
    UpdateFields(p, none, lag, hashOf);
    UpdateFields(p, two, lag, hashOf);
    LostUpdate(one, none, two);
    ForkMerge(p, ([map[], map[]] + [Prune(one)])[Shift(start, lag)..], none, two, lag, hashOf);
  }
}
