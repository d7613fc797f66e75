/** Merging several config messages (the multi-message `ConfigMessage` constructor), first as a
    function of the set of messages, then as the loops that compute it. */
module ConfigMerge {
  import opened Options
  import opened ConfigData
  import opened ConfigDiff
  import opened ConfigApply
  import opened ConfigTree
  import opened ConfigMessage

  /** Equal ids mean equal messages: what an injective hash gives. */
  ghost predicate IdsDistinguish(s: set<Msg>) {
    forall a, b | a in s && b in s && a.id == b.id :: a == b
  }

  ghost predicate AllValid(s: set<Msg>, lag: int) {
    forall m | m in s :: ValidMsg(m, lag)
  }

  // ----- the greatest message

  ghost predicate IsGreatest(m: Msg, s: set<Msg>) {
    m in s && forall o | o in s :: o.id == m.id || IdLess(o.id, m.id)
  }

  lemma {:induction false} GreatestExists(s: set<Msg>)
    requires s != {}
    ensures exists m :: IsGreatest(m, s)
  {
    var x :| x in s;
    if s == {x} {
      assert IsGreatest(x, s);
    } else {
      GreatestExists(s - {x});
      var m :| IsGreatest(m, s - {x});
      IdOrder();
      assert IsGreatest(if IdLess(m.id, x.id) then x else m, s);
    }
  }

  /** The message with the highest (seqno, hash). */
  ghost function Greatest(s: set<Msg>): (m: Msg)
    requires s != {}
    ensures IsGreatest(m, s)
  {
    GreatestExists(s);
    var m :| IsGreatest(m, s);
    m
  }

  lemma GreatestUnique(m: Msg, s: set<Msg>)
    requires IdsDistinguish(s) && IsGreatest(m, s)
    ensures m == Greatest(s)
  {
    GreatestSameId(m, Greatest(s), s);
  }

  lemma GreatestSameId(m: Msg, n: Msg, s: set<Msg>)
    requires IsGreatest(m, s) && IsGreatest(n, s)
    ensures m.id == n.id
  {
    IdOrder();
  }

  // ----- which messages take part

  /** Some message of `s` carries `m`'s diff among its lagged ones. */
  ghost predicate Included(m: Msg, s: set<Msg>) {
    exists o :: o in s && m.id in o.lagged
  }

  /** Neither included in another message nor `lag` or more behind the highest seqno. */
  ghost function Survivors(s: set<Msg>, lag: int): set<Msg>
    requires s != {}
  {
    set m | m in s && !Included(m, s) && Greatest(s).id.seqno < m.id.seqno + lag
  }

  /** Being included strictly lowers the seqno, so the greatest message always takes part. */
  lemma GreatestSurvives(s: set<Msg>, lag: int)
    requires s != {} && AllValid(s, lag) && lag >= 1
    ensures Greatest(s) in Survivors(s, lag) && IsGreatest(Greatest(s), Survivors(s, lag))
  {
    var g := Greatest(s);
    forall o | o in s ensures g.id !in o.lagged {
      assert ValidMsg(o, lag);
    }
  }

  /** The assertion that some message is left after the redundancy pass holds exactly for lag >= 1. */
  lemma SurvivorsExistIffLag(s: set<Msg>, lag: int)
    requires s != {} && AllValid(s, lag)
    ensures Survivors(s, lag) != {} <==> lag >= 1
  {
    if lag >= 1 {
      GreatestSurvives(s, lag);
    }
  }

  // ----- the replay

  ghost predicate Holds(m: Msg, id: MsgId) {
    id == m.id || id in m.lagged
  }

  function DiffFor(m: Msg, id: MsgId): Diff
    requires Holds(m, id)
  {
    if id == m.id then m.diff else m.lagged[id]
  }

  ghost function Holders(v: set<Msg>, id: MsgId): set<Msg> {
    set m | m in v && Holds(m, id)
  }

  ghost function ReplayIds(v: set<Msg>): set<MsgId> {
    set m, id | m in v && id in m.lagged.Keys + {m.id} :: id
  }

  /** A diff is taken from, and its scalars are read from, the greatest message that holds it. */
  ghost function EntryFor(v: set<Msg>, id: MsgId): Entry
    requires Holders(v, id) != {}
  {
    var p := Greatest(Holders(v, id));
    Entry(DiffFor(p, id), p.data)
  }

  ghost function ReplayMap(v: set<Msg>): (r: map<MsgId, Entry>)
    ensures r.Keys == ReplayIds(v)
  {
    map id | id in ReplayIds(v) :: (HeldSomewhere(v, id); EntryFor(v, id))
  }

  lemma HeldSomewhere(v: set<Msg>, id: MsgId)
    ensures Holders(v, id) != {} <==> id in ReplayIds(v)
  {
    if id in ReplayIds(v) {
      var m :| m in v && id in m.lagged.Keys + {m.id};
      assert m in Holders(v, id);
    }
    if Holders(v, id) != {} {
      var m :| m in Holders(v, id);
      assert m in v && id in m.lagged.Keys + {m.id};
    }
  }

  /** The entries in ascending (seqno, hash) order. */
  function Entries(replay: map<MsgId, Entry>): (es: seq<Entry>)
    ensures |es| == |Ids(replay)|
  {
    var ids := Ids(replay);
    seq(|ids|, i requires 0 <= i < |ids| => replay[ids[i]])
  }

  ghost function MergedData(v: set<Msg>): Dict
    requires v != {}
  {
    Prune(Replay(Greatest(v).data, Entries(ReplayMap(v))))
  }

  /** The replay fails: some diff cannot be applied. */
  ghost predicate Breaks(v: set<Msg>) {
    exists id :: id in ReplayMap(v) && Throws(ReplayMap(v)[id].diff, ReplayMap(v)[id].source)
  }

  ghost function MergedLagged(v: set<Msg>): (l: Lagged)
    ensures l.Keys == ReplayIds(v)
  {
    map id | id in ReplayMap(v) :: ReplayMap(v)[id].diff
  }

  function Hashed(seqno: int, data: Dict, lagged: Lagged, lag: int, hashOf: seq<Pair> -> Hash): Msg {
    var blank: Hash := seq(32, i => '0');
    var m := Msg(MsgId(seqno, blank), data, map[], lagged);
    m.(id := MsgId(seqno, hashOf(WireMsg(m, lag))))
  }

  /** The new message: one past the highest seqno, with an empty diff of its own. */
  ghost function MergedMsg(v: set<Msg>, lag: int, hashOf: seq<Pair> -> Hash): Msg
    requires v != {}
  {
    Hashed(Greatest(v).id.seqno + 1, MergedData(v), MergedLagged(v), lag, hashOf)
  }

  /** A single survivor is taken as it is, and so is the greatest one when a merge could not be signed. */
  ghost predicate NeedsMerge(s: set<Msg>, lag: int, canSign: bool)
    requires s != {}
  {
    canSign && Survivors(s, lag) != {Greatest(s)}
  }

  /** A merge is needed and fails. */
  ghost predicate CannotMerge(s: set<Msg>, lag: int, canSign: bool) {
    s != {} && NeedsMerge(s, lag, canSign) && Breaks(Survivors(s, lag))
  }

  /** The outcome of merging the messages of `s`: a function of the set alone. */
  ghost function MergeOf(s: set<Msg>, lag: int, canSign: bool, hashOf: seq<Pair> -> Hash): Msg
    requires s != {} && AllValid(s, lag) && lag >= 1
  {
    GreatestSurvives(s, lag);
    if NeedsMerge(s, lag, canSign) then MergedMsg(Survivors(s, lag), lag, hashOf) else Greatest(s)
  }

  /** Whoever cannot sign takes the greatest message as it is; whoever can merges exactly when two
      different messages take part. */
  lemma MergeOrTake(s: set<Msg>, lag: int, hashOf: seq<Pair> -> Hash)
    requires s != {} && AllValid(s, lag) && lag >= 1
    ensures MergeOf(s, lag, false, hashOf) == Greatest(s)
    ensures NeedsMerge(s, lag, true) <==> exists a, b :: a in Survivors(s, lag) && b in Survivors(s, lag) && a != b
    ensures !NeedsMerge(s, lag, true) ==> MergeOf(s, lag, true, hashOf) == Greatest(s)
    ensures NeedsMerge(s, lag, true) ==> MergeOf(s, lag, true, hashOf).id.seqno == Greatest(s).id.seqno + 1
  {
    hide MergedMsg, Survivors, Greatest;
    GreatestSurvives(s, lag);
    var v, g := Survivors(s, lag), Greatest(s);
    if NeedsMerge(s, lag, true) {
      var a :| a in v && a != g;
      MergedMsgFields(v, lag, hashOf);
      GreatestSameId(g, Greatest(v), v);
    }
  }

  // ----- what merging promises

  /** Every scalar and set element of the merged data is decided by the last replayed diff that
      touches it, and by the greatest message when none does. */
  lemma MergeLastWriterWins(v: set<Msg>, path: seq<string>, leaf: Leaf)
    requires v != {}
    ensures Pruned(MergedData(v))
    ensures HasLeaf(MergedData(v), path, leaf) <==>
            After(LastEffect(Entries(ReplayMap(v)), path, leaf), HasLeaf(Greatest(v).data, path, leaf))
  {
    var replayed := Replay(Greatest(v).data, Entries(ReplayMap(v)));
    PruneKeepsLeaves(replayed, path, leaf);
    PruneEstablishesPruned(replayed);
    LastWriterWins(Greatest(v).data, Entries(ReplayMap(v)), path, leaf);
  }

  /** The merged message read back from its wire form. */
  ghost function Republished(m: Msg, lag: int): Msg {
    m.(lagged := Window(m.lagged, m.id.seqno, lag))
  }

  lemma MergedMsgReadsBack(v: set<Msg>, lag: int, hashOf: seq<Pair> -> Hash)
    requires v != {} && lag >= 1
    ensures var m := MergedMsg(v, lag, hashOf);
            MsgOf(WireMsg(m, lag), lag, hashOf) == Some(Republished(m, lag))
  {
    hide MergedData, MergedLagged, Pruned, MsgOf;
    var m := MergedMsg(v, lag, hashOf);
    MergedMsgFields(v, lag, hashOf);
    MessageRoundTrip(m, lag, hashOf);
    var blank: Hash := seq(32, i => '0');
    assert WireMsg(m.(id := MsgId(m.id.seqno, blank)), lag) == WireMsg(m, lag);
  }

  lemma MergedMsgFields(v: set<Msg>, lag: int, hashOf: seq<Pair> -> Hash)
    requires v != {}
    ensures var m := MergedMsg(v, lag, hashOf);
            && m.id.seqno == Greatest(v).id.seqno + 1
            && Pruned(m.data) && m.lagged == MergedLagged(v)
  {
    hide Prune, Pruned, WireMsg, MergedLagged;
    PruneEstablishesPruned(Replay(Greatest(v).data, Entries(ReplayMap(v))));
  }

  lemma SurvivorsInLagged(v: set<Msg>)
    ensures forall o | o in v :: o.id in MergedLagged(v)
  {
    forall o | o in v ensures o.id in MergedLagged(v) {
      assert o in Holders(v, o.id);
      HeldSomewhere(v, o.id);
    }
  }

  lemma MergedIsNewest(s: set<Msg>, r: Msg)
    requires s != {} && r.id.seqno == Greatest(s).id.seqno + 1
    ensures Greatest(s + {r}) == r
  {
    var g, top := Greatest(s), Greatest(s + {r});
    IdOrder();
    assert top == r || top in s;
    assert top in s ==> top.id == g.id || IdLess(top.id, g.id);
    assert r in s + {r};
  }

  /** Whatever took part is in the merged message's window or too old for its seqno; whatever did
      not take part still does not. */
  lemma Superseded(s: set<Msg>, r: Msg, lag: int, o: Msg)
    requires s != {} && o in s && lag >= 1
    requires r.id.seqno == Greatest(s).id.seqno + 1 && Greatest(s + {r}) == r
    requires o in Survivors(s, lag) && o.id.seqno > r.id.seqno - lag ==> o.id in r.lagged
    ensures o !in Survivors(s + {r}, lag) || o == r
  {
    var t := s + {r};
    if Included(o, s) {
      var w :| w in s && o.id in w.lagged;
      assert w in t;
    } else if o in Survivors(s, lag) && o.id.seqno > r.id.seqno - lag {
      assert r in t;
    }
  }

  lemma SoleSurvivor(s: set<Msg>, r: Msg, lag: int)
    requires s != {} && lag >= 1
    requires r.id.seqno == Greatest(s).id.seqno + 1
    requires forall o | o in Survivors(s, lag) && o.id.seqno > r.id.seqno - lag :: o.id in r.lagged
    requires AllValid(s + {r}, lag)
    ensures Survivors(s + {r}, lag) == {r} && Greatest(s + {r}) == r
  {
    hide Survivors;
    MergedIsNewest(s, r);
    GreatestSurvives(s + {r}, lag);
    var survivors := Survivors(s + {r}, lag);
    forall o | o in survivors ensures o == r {
      SurvivorsAmong(s + {r}, lag, o);
      if o in s {
        Superseded(s, r, lag, o);
      }
    }
    assert survivors == {r};
  }

  lemma SurvivorsAmong(s: set<Msg>, lag: int, o: Msg)
    requires s != {} && o in Survivors(s, lag)
    ensures o in s
  {
  }

  /** No message is newer than the greatest. */
  lemma GreatestNewest(s: set<Msg>, o: Msg)
    requires o in s
    ensures o.id.seqno <= Greatest(s).id.seqno
  {
    assert o.id == Greatest(s).id || IdLess(o.id, Greatest(s).id);
  }

  lemma MergedWindow(v: set<Msg>, lag: int, hashOf: seq<Pair> -> Hash)
    requires v != {} && lag >= 1
    ensures var r := Republished(MergedMsg(v, lag, hashOf), lag);
            && r.id.seqno == Greatest(v).id.seqno + 1
            && ValidMsg(r, lag)
            && forall o | o in v && o.id.seqno > r.id.seqno - lag :: o.id in r.lagged
  {
    hide MergedMsg, MergedLagged, WireMsg, Pruned, Greatest;
    MergedMsgFields(v, lag, hashOf);
    SurvivorsInLagged(v);
    forall o | o in v ensures o.id.seqno <= Greatest(v).id.seqno {
      GreatestNewest(v, o);
    }
  }

  lemma RepublishedWindow(s: set<Msg>, lag: int, hashOf: seq<Pair> -> Hash)
    requires s != {} && AllValid(s, lag) && lag >= 1
    ensures Survivors(s, lag) != {}
    ensures var r := Republished(MergedMsg(Survivors(s, lag), lag, hashOf), lag);
            && r.id.seqno == Greatest(s).id.seqno + 1
            && ValidMsg(r, lag)
            && forall o | o in Survivors(s, lag) && o.id.seqno > r.id.seqno - lag :: o.id in r.lagged
  {
    hide MergedMsg, Republished, ValidMsg;
    GreatestSurvives(s, lag);
    var v := Survivors(s, lag);
    GreatestSameId(Greatest(s), Greatest(v), v);
    MergedWindow(v, lag, hashOf);
  }

  lemma AllValidWith(s: set<Msg>, r: Msg, lag: int)
    requires AllValid(s, lag) && ValidMsg(r, lag)
    ensures AllValid(s + {r}, lag)
  {
  }

  lemma SoleSurvivorMerges(t: set<Msg>, r: Msg, lag: int, canSign: bool, hashOf: seq<Pair> -> Hash)
    requires t != {} && AllValid(t, lag) && lag >= 1 && Survivors(t, lag) == {r} && Greatest(t) == r
    ensures MergeOf(t, lag, canSign, hashOf) == r
  {
    hide Survivors, Greatest, MergedMsg, AllValid;
  }

  /** A merged message, published and read back together with everything it was merged from,
      is the only one left: merging again changes nothing. */
  lemma Absorption(s: set<Msg>, lag: int, canSign: bool, hashOf: seq<Pair> -> Hash)
    requires s != {} && AllValid(s, lag) && lag >= 1
    ensures Survivors(s, lag) != {}
    ensures var r := Republished(MergedMsg(Survivors(s, lag), lag, hashOf), lag);
            && AllValid(s + {r}, lag)
            && Survivors(s + {r}, lag) == {r}
            && MergeOf(s + {r}, lag, canSign, hashOf) == r
  {
    hide MergedMsg, Republished, Survivors, Greatest, ValidMsg, AllValid, MergeOf;
    RepublishedWindow(s, lag, hashOf);
    var r := Republished(MergedMsg(Survivors(s, lag), lag, hashOf), lag);
    AllValidWith(s, r, lag);
    SoleSurvivor(s, r, lag);
    SoleSurvivorMerges(s + {r}, r, lag, canSign, hashOf);
  }
}
