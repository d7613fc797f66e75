/** `MutableConfigMessage`: a message under edit, and the whole pipeline from serialised messages
    to a merged one. */
module MutableConfig {
  import opened Options
  import opened Ordering
  import opened ConfigData
  import opened ConfigDiff
  import opened ConfigTree
  import opened ConfigWire
  import opened ConfigMessage
  import opened ConfigMerge
  import opened ConfigMergeLoops
  import opened ConfigRuns

  // ----- trimming the window

  /** `r` is `lagged` without the ids in `gone`. */
  ghost predicate Erased(r: Lagged, lagged: Lagged, gone: seq<MsgId>) {
    && (forall id :: id in r <==> id in lagged && id !in gone)
    && (forall id :: id in r ==> r[id] == lagged[id])
  }

  lemma EraseOne(r: Lagged, lagged: Lagged, gone: seq<MsgId>, id: MsgId, gone': seq<MsgId>)
    requires Erased(r, lagged, gone) && forall x :: x in gone' <==> x in gone || x == id
    ensures Erased(r - {id}, lagged, gone')
  {
  }

  /** Ascending ids up to a position where the seqno passes `bound`: exactly those at or below it. */
  lemma FrontSplit(ids: seq<MsgId>, i: nat, bound: int, id: MsgId)
    requires Ascending(ids, IdLess) && i <= |ids| && id in ids
    requires i == 0 || ids[i - 1].seqno <= bound
    requires i == |ids| || ids[i].seqno > bound
    ensures id in ids[..i] <==> id.seqno <= bound
  {
    var k :| 0 <= k < |ids| && ids[k] == id;
    if k < i {
      assert ids[..i][k] == id;
      assert k == i - 1 || IdLess(ids[k], ids[i - 1]);
    } else {
      assert k == i || IdLess(ids[i], ids[k]);
      assert id.seqno > bound;
      forall j | 0 <= j < i ensures ids[j] != id {
        assert j == i - 1 || IdLess(ids[j], ids[i - 1]);
      }
    }
  }

  /** Erases the diffs at or below `bound`, from the oldest on. */
  method TrimFront(lagged: Lagged, bound: int) returns (r: Lagged)
    ensures r == map id | id in lagged && id.seqno > bound :: lagged[id]
  {
    r := lagged;
    var ids := IdsInOrder(lagged);
    hide Ascending, Erased;
    var i := 0;
    assert Erased(r, lagged, ids[..0]) by { ErasedNone(lagged); assert ids[..0] == []; }
    while i < |ids| && ids[i].seqno <= bound
      invariant 0 <= i <= |ids| && Erased(r, lagged, ids[..i])
      invariant i == 0 || ids[i - 1].seqno <= bound
    {
      PassedId(ids, i);
      EraseOne(r, lagged, ids[..i], ids[i], ids[..i + 1]);
      r := r - {ids[i]};
      i := i + 1;
    }
    TrimmedFront(lagged, bound, ids, i, r);
  }

  lemma ErasedNone(lagged: Lagged)
    ensures Erased(lagged, lagged, [])
  {
  }

  lemma TrimmedFront(lagged: Lagged, bound: int, ids: seq<MsgId>, i: nat, r: Lagged)
    requires Ascending(ids, IdLess) && (forall id :: id in ids <==> id in lagged) && i <= |ids|
    requires Erased(r, lagged, ids[..i])
    requires i == 0 || ids[i - 1].seqno <= bound
    requires i == |ids| || ids[i].seqno > bound
    ensures r == map id | id in lagged && id.seqno > bound :: lagged[id]
  {
    forall id | id in lagged ensures id in r <==> id.seqno > bound {
      FrontSplit(ids, i, bound, id);
    }
  }

  /** Erases the diffs at or above `seqno`, from the newest on; `erased` counts them. */
  method TrimBack(lagged: Lagged, seqno: int) returns (r: Lagged, erased: nat)
    ensures r == map id | id in lagged && id.seqno < seqno :: lagged[id]
    ensures (forall id | id in lagged :: id.seqno < seqno) ==> erased == 0
  {
    r, erased := lagged, 0;
    var ids := IdsInOrder(lagged);
    hide Ascending, Erased;
    var j := |ids|;
    assert Erased(r, lagged, ids[|ids|..]) by { ErasedNone(lagged); assert ids[|ids|..] == []; }
    while j > 0 && ids[j - 1].seqno >= seqno
      invariant 0 <= j <= |ids| && Erased(r, lagged, ids[j..])
      invariant j == |ids| || ids[j].seqno >= seqno
      invariant erased == |ids| - j
    {
      j := j - 1;
      DropPrevious(ids, j);
      EraseOne(r, lagged, ids[j + 1..], ids[j], ids[j..]);
      r := r - {ids[j]};
      erased := erased + 1;
    }
    TrimmedBack(lagged, seqno, ids, j, r);
    assert erased > 0 ==> ids[j] in ids;
  }

  lemma DropPrevious(ids: seq<MsgId>, j: nat)
    requires j < |ids|
    ensures forall x :: x in ids[j..] <==> x in ids[j + 1..] || x == ids[j]
  {
    assert ids[j..] == [ids[j]] + ids[j + 1..];
  }

  lemma TrimmedBack(lagged: Lagged, seqno: int, ids: seq<MsgId>, j: nat, r: Lagged)
    requires Ascending(ids, IdLess) && (forall id :: id in ids <==> id in lagged) && j <= |ids|
    requires Erased(r, lagged, ids[j..])
    requires j == 0 || ids[j - 1].seqno < seqno
    requires j == |ids| || ids[j].seqno >= seqno
    ensures r == map id | id in lagged && id.seqno < seqno :: lagged[id]
  {
    hide Ascending;
    forall id | id in lagged ensures id in r <==> id.seqno < seqno {
      FrontSplit(ids, j, seqno - 1, id);
      SplitDistinct(ids, j, id);
    }
  }

  lemma SplitDistinct(ids: seq<MsgId>, j: nat, id: MsgId)
    requires Ascending(ids, IdLess) && j <= |ids| && id in ids
    ensures id in ids[j..] <==> id !in ids[..j]
  {
    var k :| 0 <= k < |ids| && ids[k] == id;
    IdOrder();
    if k < j {
      assert ids[..j][k] == id;
      forall i | j <= i < |ids| ensures ids[i] != id {
        assert IdLess(ids[k], ids[i]);
      }
    } else {
      assert ids[j..][k - j] == id;
      forall i | 0 <= i < j ensures ids[i] != id {
        assert IdLess(ids[i], ids[k]);
      }
    }
  }

  /** What `increment_impl` keeps: nothing is left to the defensive pass as long as every lagged
      seqno is below the message's own. */
  method TrimLagged(lagged: Lagged, seqno: int, lag: int) returns (r: Lagged, defensive: nat)
    ensures r == Window(lagged, seqno, lag)
    ensures (forall id | id in lagged :: id.seqno < seqno) ==> defensive == 0
  {
    var recent := TrimFront(lagged, seqno - lag);
    r, defensive := TrimBack(recent, seqno);
  }

  // ----- a message under edit

  class MutableConfigMessage {
    var data: Dict
    var origData: Dict
    var diff: Diff
    var lagged: Lagged
    var seqno: int
    var hash: Hash
    const lag: int
    const hashOf: seq<Pair> -> Hash

    /** Holds after construction and is kept by every operation: every lagged seqno is below the
        message's own. */
    ghost predicate Valid()
      reads this
    {
      lag >= 1 && Pruned(origData) && forall id | id in lagged :: id.seqno < seqno
    }

    function Snapshot(): Msg
      reads this
    {
      Msg(MsgId(seqno, hash), data, diff, lagged)
    }

    /** A copy of a read-only message, incremented. */
    constructor FromMessage(m: Msg, lag: int, hashOf: seq<Pair> -> Hash)
      requires lag >= 1 && ValidMsg(m, lag)
      ensures Valid() && this.lag == lag && this.hashOf == hashOf
      ensures data == m.data && origData == m.data && diff == map[]
      ensures seqno == m.id.seqno + 1 && lagged == CarriedOver(m, lag)
    {
      this.lag, this.hashOf := lag, hashOf;
      data, origData, diff, lagged := m.data, m.data, m.diff, m.lagged;
      seqno, hash := m.id.seqno, m.id.hash;
      new;
      IncrementImpl();
    }

    /** The merging constructor: a merge already has a new seqno; a message taken over as it is gets
        incremented. */
    constructor FromConfigs(configs: seq<Msg>, lag: int, canSign: bool, hashOf: seq<Pair> -> Hash)
      requires configs != [] && lag >= 1 && AllValid(AsSet(configs), lag) && IdsDistinguish(AsSet(configs))
      requires !CannotMerge(AsSet(configs), lag, canSign)
      ensures Valid() && this.lag == lag && this.hashOf == hashOf
      ensures origData == data && diff == map[] && seqno == Greatest(AsSet(configs)).id.seqno + 1
      ensures NeedsMerge(AsSet(configs), lag, canSign) ==>
                Snapshot() == MergedMsg(Survivors(AsSet(configs), lag), lag, hashOf)
      ensures !NeedsMerge(AsSet(configs), lag, canSign) ==>
                data == Greatest(AsSet(configs)).data && lagged == CarriedOver(Greatest(AsSet(configs)), lag)
    {
      var r, unmerged := MergeConfigs(configs, lag, canSign, hashOf);
      var m := r.value;
      this.lag, this.hashOf := lag, hashOf;
      data, origData, diff, lagged := m.data, m.data, m.diff, m.lagged;
      seqno, hash := m.id.seqno, m.id.hash;
      new;
      OutcomeIsSound(AsSet(configs), lag, canSign, hashOf);
      if unmerged.Some? {
        IncrementImpl();
      }
    }

    /** The merging constructor, with the cases in which it throws: no message, and a merge that fails. */
    static method Merge(configs: seq<Msg>, lag: int, canSign: bool, hashOf: seq<Pair> -> Hash)
      returns (c: MutableConfigMessage?)
      requires lag >= 1 && AllValid(AsSet(configs), lag) && IdsDistinguish(AsSet(configs))
      ensures c == null <==> configs == [] || CannotMerge(AsSet(configs), lag, canSign)
      ensures c != null ==>
                && fresh(c) && c.Valid() && c.lag == lag && c.hashOf == hashOf
                && c.origData == c.data && c.diff == map[] && AsSet(configs) != {}
                && c.seqno == Greatest(AsSet(configs)).id.seqno + 1
                && (NeedsMerge(AsSet(configs), lag, canSign) ==>
                      c.Snapshot() == MergedMsg(Survivors(AsSet(configs), lag), lag, hashOf))
                && (!NeedsMerge(AsSet(configs), lag, canSign) ==>
                      && c.data == Greatest(AsSet(configs)).data
                      && c.lagged == CarriedOver(Greatest(AsSet(configs)), lag))
    {
      hide CarriedOver, CannotMerge, MergedMsg;
      var r, unmerged := MergeConfigs(configs, lag, canSign, hashOf);
      if r.None? {
        return null;
      }
      assert configs[0] in AsSet(configs);
      c := new MutableConfigMessage.FromConfigs(configs, lag, canSign, hashOf);
    }

    /** Starts the next message: its base is the current data, and the current diff joins the window. */
    method IncrementImpl()
      requires Valid() && Pruned(data)
      modifies this
      ensures Valid()
      ensures data == old(data) && origData == data && diff == map[]
      ensures seqno == old(seqno) + 1 && lagged == CarriedOver(old(Snapshot()), lag)
    {
      origData := data;
      var trimmed, defensive := TrimLagged(lagged, seqno, lag);
      assert defensive == 0;
      lagged := trimmed[MsgId(seqno, hash) := diff];
      seqno := seqno + 1;
      hash := seq(32, i => '0');
      diff := map[];
    }

    /** Any edit made through the mutable accessor. */
    method Edit(d: Dict)
      requires Valid()
      modifies this`data
      ensures Valid() && data == d
    {
      data := d;
    }

    /** Prunes the data and recomputes the diff against the base. */
    method RefreshDiff()
      requires Valid()
      modifies this`data, this`diff
      ensures Valid() && Pruned(data)
      ensures data == Prune(old(data)) && diff == DiffDict(origData, data)
    {
      var pruned, _, _ := PruneDict(data);
      PruneEstablishesPruned(data);
      data := pruned;
      var r := DiffDicts(origData, data);
      DiffEmptyIffEqual(origData, data);
      diff := if r.Some? then r.value else map[];
    }

    /** The wire form, with the strict window. */
    method Serialize() returns (top: seq<Pair>)
      requires Valid()
      modifies this`data, this`diff
      ensures Valid() && Pruned(data)
      ensures data == Prune(old(data)) && diff == DiffDict(origData, data)
      ensures top == WireMsg(Snapshot(), lag)
    {
      RefreshDiff();
      var rows := SerializeLagged(lagged, seqno, lag);
      top := [Pair("#", WInt(seqno)), Pair("&", WDict(WireData(data))),
              Pair("<", WList(rows)), Pair("=", WDict(WireDiff(diff)))];
    }

    method RefreshHash()
      requires Valid()
      modifies this`data, this`diff, this`hash
      ensures Valid() && Pruned(data)
      ensures data == Prune(old(data)) && diff == DiffDict(origData, data)
      ensures hash == hashOf(WireMsg(Snapshot(), lag))
    {
      var top := Serialize();
      hash := hashOf(top);
      HashNotSerialized(Snapshot(), hash, lag);
    }

    /** Finishes the current message and starts the next one: the same window as if it had been
        published and read back. */
    method Increment()
      requires Valid()
      modifies this
      ensures Valid()
      ensures data == Prune(old(data)) && origData == data && diff == map[] && seqno == old(seqno) + 1
      ensures lagged == CarriedOver(Published(old(Snapshot()), old(origData), lag, hashOf), lag)
    {
      RefreshHash();
      ghost var done := Snapshot();
      IncrementImpl();
      CarriedAsPublished(old(Snapshot()), old(origData), done, lag, hashOf);
    }
  }

  lemma HashNotSerialized(m: Msg, hash: Hash, lag: int)
    ensures WireMsg(m.(id := MsgId(m.id.seqno, hash)), lag) == WireMsg(m, lag)
  {
  }

  lemma CarriedAsPublished(draft: Msg, orig: Dict, done: Msg, lag: int, hashOf: seq<Pair> -> Hash)
    requires done.id.seqno == draft.id.seqno && done.lagged == draft.lagged
    requires done.data == Prune(draft.data) && done.diff == DiffDict(orig, done.data)
    requires done.id.hash == hashOf(WireMsg(done, lag))
    ensures CarriedOver(done, lag) == CarriedOver(Published(draft, orig, lag, hashOf), lag)
  {
    hide Prune, DiffDict, WireMsg;
    var m := draft.(data := Prune(draft.data), diff := DiffDict(orig, Prune(draft.data)));
    HashNotSerialized(m, done.id.hash, lag);
    assert done == m.(id := done.id);
    assert Published(draft, orig, lag, hashOf).id == done.id;
  }

  /** The greatest message, or the merge of the survivors, satisfies what editing needs. */
  lemma OutcomeIsSound(s: set<Msg>, lag: int, canSign: bool, hashOf: seq<Pair> -> Hash)
    requires s != {} && AllValid(s, lag) && lag >= 1
    ensures var m := MergeOf(s, lag, canSign, hashOf);
            && Pruned(m.data) && (forall id | id in m.lagged :: id.seqno < m.id.seqno)
            && (NeedsMerge(s, lag, canSign) ==> m.diff == map[] && m.id.seqno == Greatest(s).id.seqno + 1)
  {
    hide MergedLagged, Pruned;
    GreatestSurvives(s, lag);
    var v := Survivors(s, lag);
    if NeedsMerge(s, lag, canSign) {
      GreatestSameId(Greatest(s), Greatest(v), v);
      MergedMsgFields(v, lag, hashOf);
      forall id | id in MergedLagged(v) ensures id.seqno <= Greatest(v).id.seqno {
        LaggedBelow(v, lag, id);
      }
    } else {
      assert ValidMsg(Greatest(s), lag);
    }
  }

  lemma LaggedBelow(v: set<Msg>, lag: int, id: MsgId)
    requires v != {} && AllValid(v, lag) && id in MergedLagged(v)
    ensures id.seqno <= Greatest(v).id.seqno
  {
    hide MergedLagged, ReplayIds, Pruned;
    HeldSomewhere(v, id);
    var m :| m in Holders(v, id);
    assert ValidMsg(m, lag);
    assert m.id == Greatest(v).id || IdLess(m.id, Greatest(v).id);
  }

  // ----- from serialised messages to a merged one, and back

  /** Editing a message and publishing it: what the others read is the update of the message. */
  method PublishEdit(m: Msg, d: Dict, lag: int, hashOf: seq<Pair> -> Hash) returns (top: seq<Pair>)
    requires lag >= 1 && ValidMsg(m, lag)
    ensures MsgOf(top, lag, hashOf) == Some(Update(m, d, lag, hashOf))
  {
    var draft := new MutableConfigMessage.FromMessage(m, lag, hashOf);
    draft.Edit(d);
    top := draft.Serialize();
    ReadsAsUpdate(m, d, draft.Snapshot(), lag, hashOf);
  }

  /** What others read of a finished draft. */
  lemma ReadsAsPublished(draft: Msg, orig: Dict, done: Msg, lag: int, hashOf: seq<Pair> -> Hash)
    requires lag >= 1 && done.id.seqno == draft.id.seqno && done.lagged == draft.lagged
    requires Pruned(done.data) && done.data == Prune(draft.data) && done.diff == DiffDict(orig, done.data)
    ensures MsgOf(WireMsg(done, lag), lag, hashOf) == Some(Published(draft, orig, lag, hashOf))
  {
    hide Prune, DiffDict, WireMsg, MsgOf, Pruned;
    MessageRoundTrip(done, lag, hashOf);
    HashNotSerialized(done, draft.id.hash, lag);
    assert done.(id := MsgId(done.id.seqno, draft.id.hash)) == draft.(data := done.data, diff := done.diff);
  }

  /** Merging messages, editing the outcome and publishing it; nothing when the merge fails. */
  method PublishMerge(configs: seq<Msg>, d: Dict, lag: int, canSign: bool, hashOf: seq<Pair> -> Hash)
    returns (top: Option<seq<Pair>>)
    requires lag >= 1 && AllValid(AsSet(configs), lag) && IdsDistinguish(AsSet(configs))
    ensures top.None? <==> configs == [] || CannotMerge(AsSet(configs), lag, canSign)
    ensures top.Some? ==>
              && AsSet(configs) != {}
              && MsgOf(top.value, lag, hashOf) == Some(EditedMerge(AsSet(configs), d, lag, canSign, hashOf))
  {
    hide Update, Published, CarriedOver, CannotMerge, MergedMsg, MsgOf;
    var draft := MutableConfigMessage.Merge(configs, lag, canSign, hashOf);
    if draft == null {
      return None;
    }
    assert configs[0] in AsSet(configs);
    ghost var s, base := AsSet(configs), draft.Snapshot();
    draft.Edit(d);
    var serialized := draft.Serialize();
    top := Some(serialized);
    GreatestSurvives(s, lag);
    if NeedsMerge(s, lag, canSign) {
      assert base == MergedMsg(Survivors(s, lag), lag, hashOf);
      ReadsAsPublished(base.(data := d), base.data, draft.Snapshot(), lag, hashOf);
    } else {
      ReadsAsUpdate(Greatest(s), d, draft.Snapshot(), lag, hashOf);
    }
  }

  lemma ReadsAsUpdate(m: Msg, d: Dict, done: Msg, lag: int, hashOf: seq<Pair> -> Hash)
    requires lag >= 1 && done.id.seqno == m.id.seqno + 1 && done.lagged == CarriedOver(m, lag)
    requires Pruned(done.data) && done.data == Prune(d) && done.diff == DiffDict(m.data, done.data)
    ensures MsgOf(WireMsg(done, lag), lag, hashOf) == Some(Update(m, d, lag, hashOf))
  {
    hide Prune, DiffDict, WireMsg, MsgOf, CarriedOver, Pruned;
    var blank: Hash := seq(32, i => '0');
    MessageRoundTrip(done, lag, hashOf);
    HashNotSerialized(done, blank, lag);
  }

  /** The messages that could be read. */
  ghost function Readable(tops: seq<seq<Pair>>, lag: int, hashOf: seq<Pair> -> Hash): set<Msg> {
    set top | top in tops && MsgOf(top, lag, hashOf).Some? :: MsgOf(top, lag, hashOf).value
  }

  /** No two different messages among `tops` have the same hash. */
  ghost predicate NoCollision(tops: seq<seq<Pair>>, hashOf: seq<Pair> -> Hash) {
    forall a, b | a in tops && b in tops && hashOf(a) == hashOf(b) :: a == b
  }

  lemma ReadableDistinguished(tops: seq<seq<Pair>>, lag: int, hashOf: seq<Pair> -> Hash)
    requires NoCollision(tops, hashOf)
    ensures IdsDistinguish(Readable(tops, lag, hashOf))
  {
  }

  /** Parses every serialised message, skipping the invalid ones, and merges the rest.  The outcome
      is determined by the set of valid messages: devices that see the same messages, in any order
      and any number of times, end up with the same one. */
  method MergeSerialized(tops: seq<seq<Pair>>, lag: int, canSign: bool, hashOf: seq<Pair> -> Hash)
    returns (r: Option<Msg>)
    requires lag >= 1 && NoCollision(tops, hashOf)
    ensures AllValid(Readable(tops, lag, hashOf), lag)
    ensures r.None? <==>
            Readable(tops, lag, hashOf) == {} || CannotMerge(Readable(tops, lag, hashOf), lag, canSign)
    ensures r.Some? ==> r.value == MergeOf(Readable(tops, lag, hashOf), lag, canSign, hashOf)
  {
    hide NoCollision;
    var configs: seq<Msg> := [];
    for i := 0 to |tops|
      invariant forall m :: m in configs <==> m in Readable(tops[..i], lag, hashOf)
      invariant forall m :: m in configs ==> ValidMsg(m, lag)
    {
      var m := ParseMsg(tops[i], lag, hashOf);
      ReadableNext(tops, i, lag, hashOf);
      if m.Some? {
        configs := configs + [m.value];
      }
    }
    assert tops[..|tops|] == tops;
    assert AsSet(configs) == Readable(tops, lag, hashOf);
    ReadableDistinguished(tops, lag, hashOf);
    var unmerged;
    r, unmerged := MergeConfigs(configs, lag, canSign, hashOf);
    assert configs == [] ==> AsSet(configs) == {};
  }

  lemma ReadableNext(tops: seq<seq<Pair>>, i: nat, lag: int, hashOf: seq<Pair> -> Hash)
    requires i < |tops|
    ensures Readable(tops[..i + 1], lag, hashOf) ==
            Readable(tops[..i], lag, hashOf) +
            (var m := MsgOf(tops[i], lag, hashOf); if m.Some? then {m.value} else {})
  {
    TakeNext(tops, i);
  }
}
