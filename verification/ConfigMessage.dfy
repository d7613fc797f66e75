/** Config messages: identity, bounded window of lagged diffs, and their wire form. */
module ConfigMessage {
  import opened Options
  import opened Ordering
  import opened ConfigData
  import opened ConfigDiff
  import opened ConfigTree
  import opened ConfigWire

  /** A 32-byte message hash. */
  type Hash = h: string | |h| == 32 witness seq(32, i => 'h')

  datatype MsgId = MsgId(seqno: int, hash: Hash)

  /** `seqno_hash_t` order: by seqno, then by hash. */
  predicate IdLess(a: MsgId, b: MsgId) {
    a.seqno < b.seqno || (a.seqno == b.seqno && KeyLess(a.hash, b.hash))
  }

  /** The greater seqno wins; among equal ones the hash that is greater at the first difference does. */
  lemma IdLessExactly(a: MsgId, b: MsgId)
    ensures IdLess(a, b) <==> a.seqno < b.seqno || (a.seqno == b.seqno && FirstDifference(a.hash, b.hash))
  {
    hide KeyLess, FirstDifference;
    KeyLessExactly(a.hash, b.hash);
  }

  lemma IdLessTransitive(a: MsgId, b: MsgId, c: MsgId)
    requires IdLess(a, b) && IdLess(b, c)
    ensures IdLess(a, c)
  {
    if a.seqno == b.seqno == c.seqno {
      KeyLessTransitive(a.hash, b.hash, c.hash);
    }
  }

  lemma IdOrder()
    ensures TotalOrder(IdLess)
  {
    forall a, b ensures !IdLess(a, a) && (IdLess(a, b) || a == b || IdLess(b, a)) {
      KeyLessIrreflexive(a.hash);
      KeyLessConnected(a.hash, b.hash);
    }
    forall a, b, c | IdLess(a, b) && IdLess(b, c) ensures IdLess(a, c) {
      IdLessTransitive(a, b, c);
    }
  }

  type Lagged = map<MsgId, Diff>

  /** A parsed, read-only message: its data, its own diff, and the diffs of earlier messages. */
  datatype Msg = Msg(id: MsgId, data: Dict, diff: Diff, lagged: Lagged)

  /** The ids in ascending (seqno, hash) order. */
  function Ids<T>(m: map<MsgId, T>): (ids: seq<MsgId>)
    ensures Ascending(ids, IdLess) && forall id :: id in ids <==> id in m
  {
    IdOrder();
    Ascend(m.Keys, IdLess)
  }

  /** Every lagged seqno lies strictly between `seqno - lag` and `seqno`. */
  ghost predicate InWindow(lagged: Lagged, seqno: int, lag: int) {
    forall id | id in lagged :: seqno - lag < id.seqno < seqno
  }

  function Window(lagged: Lagged, seqno: int, lag: int): (w: Lagged)
    ensures InWindow(w, seqno, lag)
  {
    map id | id in lagged && seqno - lag < id.seqno < seqno :: lagged[id]
  }

  /** What parsing guarantees of a message. */
  ghost predicate ValidMsg(m: Msg, lag: int) {
    Pruned(m.data) && InWindow(m.lagged, m.id.seqno, lag)
  }

  // ----- wire form

  function WireRow(id: MsgId, diff: Diff): Wire {
    WList([WInt(id.seqno), WStr(id.hash), WDict(WireDiff(diff))])
  }

  function WireLagged(lagged: Lagged): (rows: seq<Wire>)
    ensures |rows| == |Ids(lagged)|
  {
    var ids := Ids(lagged);
    seq(|ids|, i requires 0 <= i < |ids| => WireRow(ids[i], lagged[ids[i]]))
  }

  /** `serialize_impl`, without unknown keys and signature; the hash is not part of it. */
  function WireMsg(m: Msg, lag: int): seq<Pair> {
    [Pair("#", WInt(m.id.seqno)),
     Pair("&", WDict(WireData(m.data))),
     Pair("<", WList(WireLagged(Window(m.lagged, m.id.seqno, lag)))),
     Pair("=", WDict(WireDiff(m.diff)))]
  }

  lemma WireRowInjective(a: MsgId, d: Diff, b: MsgId, e: Diff)
    requires WireRow(a, d) == WireRow(b, e)
    ensures a == b && d == e
  {
    var r, q := WireRow(a, d).items, WireRow(b, e).items;
    assert r[0] == q[0] && r[1] == q[1] && r[2] == q[2];
    WireDiffInjective(d, e);
  }

  lemma {:induction false} WireLaggedInjective(l: Lagged, m: Lagged)
    requires WireLagged(l) == WireLagged(m)
    ensures l == m
  {
    var xs, ys := Ids(l), Ids(m);
    forall i | 0 <= i < |xs| ensures xs[i] == ys[i] && l[xs[i]] == m[ys[i]] {
      assert xs[i] in xs && ys[i] in ys;
      assert WireLagged(l)[i] == WireLagged(m)[i];
      WireRowInjective(xs[i], l[xs[i]], ys[i], m[ys[i]]);
    }
    assert xs == ys;
    forall id ensures id in l <==> id in m {
      assert (id in l <==> id in xs) && (id in m <==> id in ys);
    }
    forall id | id in l ensures l[id] == m[id] {
      assert id in xs;
      var i :| 0 <= i < |xs| && xs[i] == id;
    }
  }

  lemma IdsSnoc(l: Lagged, id: MsgId, d: Diff)
    requires var ids := Ids(l); ids == [] || IdLess(ids[|ids| - 1], id)
    ensures id !in l && Ids(l[id := d]) == Ids(l) + [id]
  {
    var ids := Ids(l);
    IdOrder();
    AscendingSnoc(ids, id, IdLess);
    assert id !in ids by {
      Passed(ids + [id], |ids|, IdLess);
      assert (ids + [id])[..|ids|] == ids;
    }
    AscendOf(ids + [id], l[id := d].Keys, IdLess);
  }

  lemma WireLaggedSnoc(l: Lagged, id: MsgId, d: Diff)
    requires var ids := Ids(l); ids == [] || IdLess(ids[|ids| - 1], id)
    ensures id !in l && Ids(l[id := d]) == Ids(l) + [id]
    ensures WireLagged(l[id := d]) == WireLagged(l) + [WireRow(id, d)]
  {
    hide WireRow, Ids, Ascending;
    var ids, l' := Ids(l), l[id := d];
    IdsSnoc(l, id, d);
    forall i | 0 <= i < |ids| ensures WireLagged(l')[i] == WireLagged(l)[i] {
      assert ids[i] in ids;
      assert Ids(l')[i] == ids[i] && ids[i] != id;
    }
    assert WireLagged(l') == WireLagged(l) + [WireRow(id, d)];
  }

  /** `kept` is the part of the window among the ids passed so far. */
  ghost predicate KeptSoFar(kept: Lagged, lagged: Lagged, passed: seq<MsgId>, seqno: int, lag: int) {
    && (forall id :: id in kept <==> id in passed && seqno - lag < id.seqno < seqno)
    && (forall id :: id in kept ==> id in lagged && kept[id] == lagged[id])
  }

  lemma KeepNext(kept: Lagged, lagged: Lagged, ids: seq<MsgId>, i: nat, seqno: int, lag: int)
    requires Ascending(ids, IdLess) && (forall id :: id in ids <==> id in lagged) && i < |ids|
    requires KeptSoFar(kept, lagged, ids[..i], seqno, lag) && seqno - lag < ids[i].seqno < seqno
    ensures ids[i] in lagged
    ensures KeptSoFar(kept[ids[i] := lagged[ids[i]]], lagged, ids[..i + 1], seqno, lag)
  {
    PassedId(ids, i);
    var kept' := kept[ids[i] := lagged[ids[i]]];
    forall id ensures id in kept' <==> id in ids[..i + 1] && seqno - lag < id.seqno < seqno {
      assert id in kept' <==> id in kept || id == ids[i];
    }
  }

  lemma AppendNext(kept: Lagged, lagged: Lagged, ids: seq<MsgId>, i: nat, seqno: int, lag: int, diff: Diff)
    requires Ascending(ids, IdLess) && i < |ids|
    requires KeptSoFar(kept, lagged, ids[..i], seqno, lag)
    ensures WireLagged(kept[ids[i] := diff]) == WireLagged(kept) + [WireRow(ids[i], diff)]
  {
    PassedId(ids, i);
    var ks := Ids(kept);
    if ks != [] {
      assert ks[|ks| - 1] in ks;
    }
    WireLaggedSnoc(kept, ids[i], diff);
  }

  lemma SkipNext(kept: Lagged, lagged: Lagged, ids: seq<MsgId>, i: nat, seqno: int, lag: int)
    requires Ascending(ids, IdLess) && i < |ids|
    requires KeptSoFar(kept, lagged, ids[..i], seqno, lag) && !(seqno - lag < ids[i].seqno < seqno)
    ensures KeptSoFar(kept, lagged, ids[..i + 1], seqno, lag)
  {
    PassedId(ids, i);
  }

  /** The loop of `serialize_impl` over the lagged diffs, skipping those outside the window. */
  method SerializeLagged(lagged: Lagged, seqno: int, lag: int) returns (rows: seq<Wire>)
    ensures rows == WireLagged(Window(lagged, seqno, lag))
  {
    hide WireLagged, WireRow;
    rows := [];
    ghost var kept: Lagged := map[];
    WireLaggedEmpty(kept);
    var ids := IdsInOrder(lagged);
    for i := 0 to |ids|
      invariant rows == WireLagged(kept)
      invariant KeptSoFar(kept, lagged, ids[..i], seqno, lag)
    {
      var id := ids[i];
      if id.seqno <= seqno - lag || id.seqno >= seqno {
        SkipNext(kept, lagged, ids, i, seqno, lag);
        continue;
      }
      KeepNext(kept, lagged, ids, i, seqno, lag);
      AppendNext(kept, lagged, ids, i, seqno, lag, lagged[id]);
      rows := rows + [WireRow(id, lagged[id])];
      kept := kept[id := lagged[id]];
    }
    assert ids[..|ids|] == ids;
    assert kept == Window(lagged, seqno, lag);
  }

  lemma WireLaggedEmpty(lagged: Lagged)
    requires lagged == map[]
    ensures WireLagged(lagged) == []
  {
  }

  method IdsInOrder(lagged: Lagged) returns (ids: seq<MsgId>)
    ensures Ascending(ids, IdLess) && forall id :: id in ids <==> id in lagged
  {
    ids := Ids(lagged);
  }

  lemma PassedId(ids: seq<MsgId>, i: nat)
    requires Ascending(ids, IdLess) && i < |ids|
    ensures ids[i] in ids && ids[i] !in ids[..i]
    ensures forall id :: id in ids[..i + 1] <==> id in ids[..i] || id == ids[i]
    ensures forall id :: id in ids[..i] ==> IdLess(id, ids[i])
  {
    IdOrder();
    Passed(ids, i, IdLess);
  }

  // ----- parse_lagged_diffs

  /** A row whose seqno is `lag` or more behind: skipped before anything else in it is read. */
  predicate TooOld(row: Wire, bound: int) {
    row.WList? && row.items != [] && row.items[0].WInt? && row.items[0].n <= bound
  }

  function Recent(rows: seq<Wire>, bound: int): seq<Wire> {
    if rows == [] then []
    else
      var n := |rows| - 1;
      Recent(rows[..n], bound) + if TooOld(rows[n], bound) then [] else [rows[n]]
  }

  /** The window a list of rows stands for, if any. */
  ghost function LaggedOf(rows: seq<Wire>, seqno: int, lag: int): Option<Lagged> {
    if exists l :: InWindow(l, seqno, lag) && WireLagged(l) == Recent(rows, seqno - lag) then
      var l :| InWindow(l, seqno, lag) && WireLagged(l) == Recent(rows, seqno - lag);
      Some(l)
    else None
  }

  lemma CanonicalLagged(rows: seq<Wire>, seqno: int, lag: int, l: Lagged)
    ensures LaggedOf(rows, seqno, lag) == Some(l) <==>
            InWindow(l, seqno, lag) && WireLagged(l) == Recent(rows, seqno - lag)
  {
    if InWindow(l, seqno, lag) && WireLagged(l) == Recent(rows, seqno - lag) {
      WireLaggedInjective(l, LaggedOf(rows, seqno, lag).value);
    }
  }

  lemma RecentNext(rows: seq<Wire>, bound: int, i: nat)
    requires i < |rows|
    ensures Recent(rows[..i + 1], bound) ==
            Recent(rows[..i], bound) + if TooOld(rows[i], bound) then [] else [rows[i]]
  {
    assert rows[..i + 1][..i] == rows[..i];
  }

  lemma {:induction false} RecentPrefix(rows: seq<Wire>, bound: int, i: nat)
    requires i <= |rows|
    ensures Recent(rows[..i], bound) <= Recent(rows, bound)
    decreases |rows| - i
  {
    if i == |rows| {
      assert rows[..i] == rows;
    } else {
      RecentNext(rows, bound, i);
      RecentPrefix(rows, bound, i + 1);
    }
  }

  lemma WireLaggedAt(l: Lagged, rows: seq<Wire>, i: nat)
    requires WireLagged(l) == rows && i < |rows|
    ensures |Ids(l)| == |rows| && Ids(l)[i] in l && rows[i] == WireRow(Ids(l)[i], l[Ids(l)[i]])
    ensures i > 0 ==> IdLess(Ids(l)[i - 1], Ids(l)[i])
  {
    assert Ids(l)[i] in Ids(l);
  }

  datatype Row = BadRow | OldRow | GoodRow(id: MsgId, diff: Diff)

  /** One row `[seqno, hash, diff]`: skipped when too old, otherwise read completely or rejected. */
  method ReadRow(row: Wire, seqno: int, lag: int) returns (r: Row)
    requires lag >= 1
    ensures r.OldRow? <==> TooOld(row, seqno - lag)
    ensures r.GoodRow? ==> row == WireRow(r.id, r.diff) && seqno - lag < r.id.seqno < seqno
    ensures r.BadRow? ==> forall id: MsgId, d | seqno - lag < id.seqno < seqno :: row != WireRow(id, d)
  {
    if !row.WList? || row.items == [] || !row.items[0].WInt? {
      return BadRow;
    }
    var items := row.items;
    if items[0].n >= seqno {
      return BadRow;
    } else if items[0].n <= seqno - lag {
      return OldRow;
    }
    if |items| != 3 || !items[1].WStr? || |items[1].s| != 32 || !items[2].WDict? {
      return BadRow;
    }
    var d := LoadDiff(items[2].pairs);
    if d.None? {
      return BadRow;
    }
    r := GoodRow(MsgId(items[0].n, items[1].s), d.value);
    assert row.items == WireRow(r.id, r.diff).items;
  }

  /** Where a row that is not skipped ends up among the recent ones. */
  lemma RecentPosition(rows: seq<Wire>, bound: int, i: nat)
    requires i < |rows| && !TooOld(rows[i], bound)
    ensures var before, recent := Recent(rows[..i], bound), Recent(rows, bound);
            |before| < |recent| && recent[..|before|] == before && recent[|before|] == rows[i]
  {
    RecentNext(rows, bound, i);
    RecentPrefix(rows, bound, i + 1);
  }

  lemma RejectRow(rows: seq<Wire>, i: nat, seqno: int, lag: int)
    requires i < |rows| && !TooOld(rows[i], seqno - lag)
    requires forall id: MsgId, d | seqno - lag < id.seqno < seqno :: rows[i] != WireRow(id, d)
    ensures LaggedOf(rows, seqno, lag) == None
  {
    hide Recent, Ids, WireRow, WireLagged, TooOld;
    RecentPosition(rows, seqno - lag, i);
    if LaggedOf(rows, seqno, lag).Some? {
      WireLaggedAt(LaggedOf(rows, seqno, lag).value, Recent(rows, seqno - lag), |Recent(rows[..i], seqno - lag)|);
    }
  }

  lemma RowsAscend(l: Lagged, rows: seq<Wire>, i: nat, a: MsgId, d: Diff, b: MsgId, e: Diff)
    requires WireLagged(l) == rows && 0 < i < |rows|
    requires rows[i - 1] == WireRow(a, d) && rows[i] == WireRow(b, e)
    ensures IdLess(a, b)
  {
    WireLaggedAt(l, rows, i - 1);
    WireLaggedAt(l, rows, i);
    WireRowInjective(a, d, Ids(l)[i - 1], l[Ids(l)[i - 1]]);
    WireRowInjective(b, e, Ids(l)[i], l[Ids(l)[i]]);
  }

  lemma RejectRowOrder(rows: seq<Wire>, i: nat, seqno: int, lag: int, l: Lagged, id: MsgId, d: Diff)
    requires i < |rows| && !TooOld(rows[i], seqno - lag) && rows[i] == WireRow(id, d)
    requires WireLagged(l) == Recent(rows[..i], seqno - lag)
    requires var ids := Ids(l); ids != [] && !IdLess(ids[|ids| - 1], id)
    ensures LaggedOf(rows, seqno, lag) == None
  {
    hide Recent, WireLagged, Ids, WireRow, TooOld;
    var before, recent := Recent(rows[..i], seqno - lag), Recent(rows, seqno - lag);
    var p := |before|;
    RecentPosition(rows, seqno - lag, i);
    WireLaggedAt(l, before, p - 1);
    var last := Ids(l)[p - 1];
    assert recent[p - 1] == before[p - 1];
    if LaggedOf(rows, seqno, lag).Some? {
      RowsAscend(LaggedOf(rows, seqno, lag).value, recent, p, last, l[last], id, d);
    }
  }

  /** Adds a row behind the last one; refused when it does not come after it. */
  method AppendRow(l: Lagged, id: MsgId, d: Diff) returns (r: Option<Lagged>)
    ensures r.Some? ==> r.value == l[id := d] && WireLagged(r.value) == WireLagged(l) + [WireRow(id, d)]
    ensures r.None? ==> var ids := Ids(l); ids != [] && !IdLess(ids[|ids| - 1], id)
  {
    var ids := Ids(l);
    if ids != [] && !IdLess(ids[|ids| - 1], id) {
      return None;
    }
    WireLaggedSnoc(l, id, d);
    return Some(l[id := d]);
  }

  /** Accepts exactly the lists whose recent rows are the wire form of a window. */
  method ParseLagged(rows: seq<Wire>, seqno: int, lag: int) returns (r: Option<Lagged>)
    requires lag >= 1
    ensures r == LaggedOf(rows, seqno, lag)
  {
    var l: Lagged := map[];
    for i := 0 to |rows|
      invariant InWindow(l, seqno, lag) && WireLagged(l) == Recent(rows[..i], seqno - lag)
    {
      var row := ReadRow(rows[i], seqno, lag);
      RecentNext(rows, seqno - lag, i);
      if row.BadRow? {
        RejectRow(rows, i, seqno, lag);
        return None;
      }
      if row.GoodRow? {
        var next := AppendRow(l, row.id, row.diff);
        if next.None? {
          RejectRowOrder(rows, i, seqno, lag, l, row.id, row.diff);
          return None;
        }
        l := next.value;
      }
    }
    assert rows[..|rows|] == rows;
    CanonicalLagged(rows, seqno, lag, l);
    return Some(l);
  }

  // ----- a whole message

  datatype Parts = Parts(seqno: int, data: seq<Pair>, rows: seq<Wire>, diff: seq<Pair>)

  /** The fields of a serialised message: "#" and "&" are required, "<" and "=" may be missing. */
  function PartsOf(top: seq<Pair>): Option<Parts> {
    if |top| < 2 || top[0].key != "#" || !top[0].value.WInt? || top[1].key != "&" || !top[1].value.WDict? then None
    else
      var i := if |top| > 2 && top[2].key == "<" then 3 else 2;
      if i == 3 && !top[2].value.WList? then None
      else
        var j := if |top| > i && top[i].key == "=" then i + 1 else i;
        if |top| != j || (j > i && !top[i].value.WDict?) then None
        else Some(Parts(top[0].value.n, top[1].value.pairs,
                        if i == 3 then top[2].value.items else [],
                        if j > i then top[i].value.pairs else []))
  }

  /** The message a serialised one stands for, if any; its hash is that of the serialised form. */
  ghost function MsgOf(top: seq<Pair>, lag: int, hashOf: seq<Pair> -> Hash): Option<Msg> {
    match PartsOf(top)
    case None => None
    case Some(Parts(seqno, data, rows, diff)) =>
      var d, l, f := DataOf(data), LaggedOf(rows, seqno, lag), DiffOf(diff);
      if d.None? || l.None? || f.None? then None
      else Some(Msg(MsgId(seqno, hashOf(top)), d.value, f.value, l.value))
  }

  method ParseMsg(top: seq<Pair>, lag: int, hashOf: seq<Pair> -> Hash) returns (r: Option<Msg>)
    requires lag >= 1
    ensures r == MsgOf(top, lag, hashOf)
    ensures r.Some? ==> ValidMsg(r.value, lag) && r.value.id.hash == hashOf(top)
  {
    var parts := PartsOf(top);
    if parts.None? {
      return None;
    }
    var Parts(seqno, data, rows, diff) := parts.value;
    var d := ParseData(data, true);
    if d.None? {
      return None;
    }
    CanonicalData(data, d.value);
    var l := ParseLagged(rows, seqno, lag);
    if l.None? {
      return None;
    }
    CanonicalLagged(rows, seqno, lag, l.value);
    var f := LoadDiff(diff);
    if f.None? {
      return None;
    }
    CanonicalDiff(diff, f.value);
    return Some(Msg(MsgId(seqno, hashOf(top)), d.value, f.value, l.value));
  }

  lemma PartsOfWire(m: Msg, lag: int)
    ensures PartsOf(WireMsg(m, lag)) ==
            Some(Parts(m.id.seqno, WireData(m.data),
                       WireLagged(Window(m.lagged, m.id.seqno, lag)), WireDiff(m.diff)))
  {
    var top := WireMsg(m, lag);
    assert |top| == 4 && top[0].key == "#" && top[1].key == "&" && top[2].key == "<" && top[3].key == "=";
  }

  lemma WindowIsRecent(w: Lagged, seqno: int, lag: int)
    requires InWindow(w, seqno, lag)
    ensures Recent(WireLagged(w), seqno - lag) == WireLagged(w)
  {
    hide Recent, Ids, WireDiff;
    var rows := WireLagged(w);
    forall i | 0 <= i < |rows| ensures !TooOld(rows[i], seqno - lag) {
      WireLaggedAt(w, rows, i);
      assert WireRow(Ids(w)[i], w[Ids(w)[i]]).items[0] == WInt(Ids(w)[i].seqno);
    }
    RecentAll(rows, seqno - lag);
  }

  lemma LaggedOfWire(w: Lagged, seqno: int, lag: int)
    requires InWindow(w, seqno, lag)
    ensures LaggedOf(WireLagged(w), seqno, lag) == Some(w)
  {
    WindowIsRecent(w, seqno, lag);
    CanonicalLagged(WireLagged(w), seqno, lag, w);
  }

  /** Serialising and reading back keeps everything but the diffs outside the window. */
  lemma MessageRoundTrip(m: Msg, lag: int, hashOf: seq<Pair> -> Hash)
    requires lag >= 1 && Pruned(m.data)
    ensures MsgOf(WireMsg(m, lag), lag, hashOf) ==
            Some(Msg(MsgId(m.id.seqno, hashOf(WireMsg(m, lag))), m.data, m.diff,
                     Window(m.lagged, m.id.seqno, lag)))
  {
    PartsOfWire(m, lag);
    CanonicalData(WireData(m.data), m.data);
    CanonicalDiff(WireDiff(m.diff), m.diff);
    LaggedOfWire(Window(m.lagged, m.id.seqno, lag), m.id.seqno, lag);
  }

  lemma {:induction false} RecentAll(rows: seq<Wire>, bound: int)
    requires forall i :: 0 <= i < |rows| ==> !TooOld(rows[i], bound)
    ensures Recent(rows, bound) == rows
  {
    if rows == [] {
    } else {
      var n := |rows| - 1;
      RecentAll(rows[..n], bound);
    }
  }
}
