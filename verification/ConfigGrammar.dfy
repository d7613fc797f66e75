/** The wire form of config messages in its own terms: which trees are accepted, what they hold, and what a
    serialised diff does when it is applied. */
module ConfigGrammar {
  import opened Options
  import opened Ordering
  import opened ConfigData
  import opened ConfigDiff
  import opened ConfigTree
  import opened ConfigWire
  import opened ConfigApply
  import opened ConfigMessage

  // ----- sets

  /** An integer of 64 bits or a string. */
  ghost predicate IsScalar(w: Wire) {
    (w.WInt? && -0x8000_0000_0000_0000 <= w.n <= 0x7fff_ffff_ffff_ffff) || w.WStr?
  }

  /** Integers come before strings, each kind in ascending order. */
  ghost predicate Before(v: Wire, w: Wire) {
    match (v, w)
    case (WInt(m), WInt(n)) => m < n
    case (WInt(_), WStr(_)) => true
    case (WStr(s), WStr(t)) => FirstDifference(s, t)
    case _ => false
  }

  ghost predicate ElementList(items: seq<Wire>) {
    && (forall i :: 0 <= i < |items| ==> IsScalar(items[i]))
    && forall i, j :: 0 <= i < j < |items| ==> Before(items[i], items[j])
  }

  lemma ScalarForm(s: Scalar, t: Scalar)
    ensures IsScalar(WireScalar(s)) && (ScalarLess(s, t) <==> Before(WireScalar(s), WireScalar(t)))
  {
    hide KeyLess, FirstDifference;
    if s.Str? && t.Str? {
      KeyLessExactly(s.s, t.s);
    }
  }

  lemma ScalarRead(w: Wire)
    ensures IsScalar(w) <==> ReadScalar(w).Some?
  {
  }

  /** A set is written as its elements in ascending order. */
  lemma SetForm(s: set<Scalar>)
    ensures ElementList(WireSet(s)) && forall e :: e in s <==> WireScalar(e) in WireSet(s)
  {
    hide ScalarLess, Before, IsScalar;
    var es, items := Elements(s), WireSet(s);
    forall i | 0 <= i < |items| ensures IsScalar(items[i]) {
      ScalarForm(es[i], es[i]);
    }
    forall i, j | 0 <= i < j < |items| ensures Before(items[i], items[j]) {
      ScalarForm(es[i], es[j]);
    }
    forall e ensures e in s <==> WireScalar(e) in items {
      if e in s {
        assert e in es;
        var i :| 0 <= i < |es| && es[i] == e;
        assert items[i] == WireScalar(e);
      }
      if WireScalar(e) in items {
        var i :| 0 <= i < |items| && items[i] == WireScalar(e);
        assert es[i] == e && es[i] in es;
      }
    }
  }

  /** The set a list of elements stands for. */
  lemma {:induction false} SetOfList(items: seq<Wire>) returns (s: set<Scalar>)
    requires ElementList(items)
    ensures WireSet(s) == items
  {
    hide ScalarLess, Before, IsScalar, WireSet;
    if items == [] {
      s := {};
      EmptySetForm();
    } else {
      var n := |items| - 1;
      assert ElementList(items[..n]) by {
        assert forall i :: 0 <= i < n ==> items[..n][i] == items[i];
      }
      var t := SetOfList(items[..n]);
      ScalarRead(items[n]);
      var e := ReadScalar(items[n]).value;
      LastBefore(t, items, n, e);
      WireSetSnoc(t, e);
      s := t + {e};
      assert items == items[..n] + [items[n]];
    }
  }

  lemma EmptySetForm()
    ensures WireSet({}) == []
  {
    assert Elements({}) == [];
  }

  lemma LastBefore(t: set<Scalar>, items: seq<Wire>, n: nat, e: Scalar)
    requires n < |items| && ElementList(items) && WireSet(t) == items[..n] && WireScalar(e) == items[n]
    ensures var es := Elements(t); es == [] || ScalarLess(es[|es| - 1], e)
  {
    hide ScalarLess, Before, IsScalar;
    if n > 0 {
      WireSetAt(t, items[..n], n - 1);
      ScalarForm(Elements(t)[n - 1], e);
      assert Before(items[n - 1], items[n]);
    }
  }

  /** A list is the form of some set exactly when it is a list of scalars in ascending order. */
  lemma SetGrammar(items: seq<Wire>)
    ensures (exists s :: WireSet(s) == items) <==> ElementList(items)
  {
    hide ElementList, WireSet;
    if s :| WireSet(s) == items {
      SetForm(s);
    }
    if ElementList(items) {
      var s := SetOfList(items);
    }
  }

  // ----- data

  ghost predicate AscendingKeys(pairs: seq<Pair>) {
    forall i, j :: 0 <= i < j < |pairs| ==> FirstDifference(pairs[i].key, pairs[j].key)
  }

  /** A dict with ascending keys, whose values are scalars, non-empty lists of elements and non-empty dicts. */
  ghost predicate DataPairs(pairs: seq<Pair>)
    decreases WDict(pairs), 0
  {
    AscendingKeys(pairs) && forall i :: 0 <= i < |pairs| ==> DataValue(pairs[i].value)
  }

  ghost predicate DataValue(w: Wire)
    decreases w, 1
  {
    match w
    case WList(items) => items != [] && ElementList(items)
    case WDict(pairs) => pairs != [] && DataPairs(pairs)
    case _ => IsScalar(w)
  }

  lemma KeysForm(d: Dict)
    ensures AscendingKeys(WireData(d))
  {
    hide KeyLess, FirstDifference;
    var pairs := WireData(d);
    forall i, j | 0 <= i < j < |pairs| ensures FirstDifference(pairs[i].key, pairs[j].key) {
      assert KeyLess(Keys(d)[i], Keys(d)[j]);
      KeyLessExactly(pairs[i].key, pairs[j].key);
    }
  }

  lemma {:induction false} DataForm(d: Dict)
    requires Pruned(d)
    ensures DataPairs(WireData(d))
    decreases DictV(d), 0
  {
    hide AscendingKeys, DataValue, WireValue, PrunedValue, Keys;
    KeysForm(d);
    var pairs := WireData(d);
    forall i | 0 <= i < |pairs| ensures DataValue(pairs[i].value) {
      WireDataAt(d, pairs, i);
      ValueForm(d[pairs[i].key]);
    }
  }

  lemma {:induction false} ValueForm(v: Value)
    requires PrunedValue(v)
    ensures DataValue(WireValue(v))
    decreases v, 1
  {
    hide ElementList, WireSet, WireData, DataPairs, Keys;
    match v
    case ScalarV(s) => ScalarForm(s, s);
    case SetV(s) =>
      SetForm(s);
      var e :| e in s;
      assert WireScalar(e) in WireSet(s);
    case DictV(d) =>
      DataForm(d);
      var k :| k in d;
      var i := PairOf(d, k);
  }

  /** The dict the first `n` pairs stand for. */
  lemma {:induction false} DataOfPairs(pairs: seq<Pair>, n: nat) returns (d: Dict)
    requires DataPairs(pairs) && n <= |pairs|
    ensures Pruned(d) && WireData(d) == pairs[..n]
    decreases WDict(pairs), 0, n
  {
    hide WireData, Pruned, KeyLess, AscendingKeys, DataValue, Keys, WireValue, PrunedValue;
    if n == 0 {
      d := map[];
      WireDataEmpty();
      EmptyPruned();
    } else {
      var m := n - 1;
      var rest := DataOfPairs(pairs, m);
      assert DataValue(pairs[m].value);
      var v := ValueOf(pairs[m].value);
      KeyAfter(pairs, m, rest);
      WireDataSnoc(rest, pairs[m].key, v);
      PrunedUpdate(rest, pairs[m].key, v);
      d := rest[pairs[m].key := v];
      assert pairs[..n] == pairs[..m] + [pairs[m]];
    }
  }

  lemma EmptyPruned()
    ensures Pruned(map[])
  {
  }

  /** The next key comes after those there are. */
  lemma KeyAfter(pairs: seq<Pair>, m: nat, d: Dict)
    requires m < |pairs| && AscendingKeys(pairs) && WireData(d) == pairs[..m]
    ensures var ks := Keys(d); ks == [] || KeyLess(ks[|ks| - 1], pairs[m].key)
  {
    hide KeyLess, FirstDifference, WireValue;
    if m > 0 {
      WireDataAt(d, pairs[..m], m - 1);
      KeyLessExactly(pairs[m - 1].key, pairs[m].key);
    }
  }

  lemma {:induction false} ValueOf(w: Wire) returns (v: Value)
    requires DataValue(w)
    ensures PrunedValue(v) && WireValue(v) == w
    decreases w, 1
  {
    match w
    case WList(items) =>
      var s := SetOfList(items);
      v := SetV(s);
      if s == {} {
        EmptySetForm();
      }
    case WDict(pairs) =>
      var d := DataOfPairs(pairs, |pairs|);
      assert pairs[..|pairs|] == pairs;
      v := DictV(d);
      if d == map[] {
        WireDataEmpty();
      }
    case _ =>
      ScalarRead(w);
      v := ScalarV(ReadScalar(w).value);
  }

  /** Data is accepted exactly when it follows the grammar. */
  lemma DataGrammar(pairs: seq<Pair>)
    ensures DataOf(pairs).Some? <==> DataPairs(pairs)
  {
    hide DataPairs, Pruned, WireData;
    if DataOf(pairs).Some? {
      var d := DataOf(pairs).value;
      CanonicalData(pairs, d);
      DataForm(d);
    }
    if DataPairs(pairs) {
      var d := DataOfPairs(pairs, |pairs|);
      assert pairs[..|pairs|] == pairs;
      CanonicalData(pairs, d);
    }
  }

  /** A scalar or an element of a list, under the keys of nested dicts. */
  ghost predicate WireLeaf(pairs: seq<Pair>, path: seq<string>, leaf: Leaf)
    decreases |path|, 0
  {
    path != [] && exists i :: 0 <= i < |pairs| && pairs[i].key == path[0] && LeafIn(pairs[i].value, path[1..], leaf)
  }

  ghost predicate LeafIn(w: Wire, path: seq<string>, leaf: Leaf)
    decreases |path|, 1
  {
    match w
    case WList(items) => path == [] && leaf.ElemLeaf? && WireScalar(leaf.e) in items
    case WDict(pairs) => WireLeaf(pairs, path, leaf)
    case _ => path == [] && leaf.ScalarLeaf? && w == WireScalar(leaf.s)
  }

  /** The pair of a key. */
  lemma PairOf(d: Dict, k: string) returns (i: nat)
    requires k in d
    ensures i < |WireData(d)| && WireData(d)[i] == Pair(k, WireValue(d[k]))
    ensures forall j :: 0 <= j < |WireData(d)| && WireData(d)[j].key == k ==> WireData(d)[j].value == WireValue(d[k])
  {
    hide WireValue, Keys;
    assert k in Keys(d);
    i :| 0 <= i < |Keys(d)| && Keys(d)[i] == k;
    WireDataAt(d, WireData(d), i);
    forall j | 0 <= j < |WireData(d)| && WireData(d)[j].key == k ensures WireData(d)[j].value == WireValue(d[k]) {
      WireDataAt(d, WireData(d), j);
    }
  }

  /** The leaves of a dict are those of its wire form. */
  lemma {:induction false} DataLeaves(d: Dict, path: seq<string>, leaf: Leaf)
    ensures HasLeaf(d, path, leaf) <==> WireLeaf(WireData(d), path, leaf)
    decreases |path|, 0
  {
    hide WireData, WireValue, LeafIn;
    if path == [] {
    } else if path[0] in d {
      var i := PairOf(d, path[0]);
      ValueLeaves(d[path[0]], path[1..], leaf);
    } else {
      forall j | 0 <= j < |WireData(d)| ensures WireData(d)[j].key != path[0] {
        WireDataAt(d, WireData(d), j);
      }
    }
  }

  lemma {:induction false} ValueLeaves(v: Value, path: seq<string>, leaf: Leaf)
    ensures LeafIn(WireValue(v), path, leaf) <==>
            match v
            case ScalarV(s) => path == [] && leaf == ScalarLeaf(s)
            case SetV(s) => path == [] && leaf.ElemLeaf? && leaf.e in s
            case DictV(e) => HasLeaf(e, path, leaf)
    decreases |path|, 1
  {
    hide WireData, WireSet, HasLeaf, WireLeaf;
    match v
    case ScalarV(s) =>
    case SetV(s) => SetForm(s);
    case DictV(e) => DataLeaves(e, path, leaf);
  }

  // ----- diffs

  /** A list of elements, or a single value that is no scalar. */
  ghost predicate ChangeList(items: seq<Wire>) {
    ElementList(items) || (|items| == 1 && !IsScalar(items[0]))
  }

  ghost predicate DiffPairs(pairs: seq<Pair>)
    decreases WDict(pairs), 0
  {
    AscendingKeys(pairs) && forall i :: 0 <= i < |pairs| ==> DiffValue(pairs[i].value)
  }

  /** "" or "-", two lists, or a dict of changes. */
  ghost predicate DiffValue(w: Wire)
    decreases w, 1
  {
    match w
    case WStr(mode) => mode == "" || mode == "-"
    case WList(lists) => |lists| == 2 && lists[0].WList? && lists[1].WList? &&
                         ChangeList(lists[0].items) && ChangeList(lists[1].items)
    case WDict(pairs) => DiffPairs(pairs)
    case WInt(_) => false
  }

  lemma LoneForm(x: LoneWire)
    ensures ChangeList([x])
  {
    ScalarRead(x);
  }

  lemma DiffKeysForm(d: Diff)
    ensures AscendingKeys(WireDiff(d))
  {
    hide KeyLess, FirstDifference;
    var pairs := WireDiff(d);
    forall i, j | 0 <= i < j < |pairs| ensures FirstDifference(pairs[i].key, pairs[j].key) {
      assert KeyLess(DiffKeys(d)[i], DiffKeys(d)[j]);
      KeyLessExactly(pairs[i].key, pairs[j].key);
    }
  }

  lemma {:induction false} DiffForm(d: Diff)
    ensures DiffPairs(WireDiff(d))
    decreases DictDiff(d), 0
  {
    hide AscendingKeys, DiffValue, WireChange;
    DiffKeysForm(d);
    var pairs := WireDiff(d);
    forall i | 0 <= i < |pairs| ensures DiffValue(pairs[i].value) {
      WireDiffAt(d, pairs, i);
      ChangeForm(d[pairs[i].key]);
    }
  }

  lemma {:induction false} ChangeForm(c: Change)
    ensures DiffValue(WireChange(c))
    decreases c, 1
  {
    hide WireSet, WireDiff, ElementList, DiffPairs;
    match c
    case Assigned =>
    case Deleted =>
    case SetDiff(added, removed) =>
      SetForm(added);
      SetForm(removed);
    case DictDiff(sub) => DiffForm(sub);
    case BadSet(LoneAdded(x, removed)) =>
      LoneForm(x);
      SetForm(removed);
    case BadSet(LoneRemoved(added, y)) =>
      SetForm(added);
      LoneForm(y);
    case BadSet(BothLone(x, y)) =>
      LoneForm(x);
      LoneForm(y);
  }

  lemma {:induction false} DiffOfPairs(pairs: seq<Pair>, n: nat) returns (d: Diff)
    requires DiffPairs(pairs) && n <= |pairs|
    ensures WireDiff(d) == pairs[..n]
    decreases WDict(pairs), 0, n
  {
    hide WireDiff, KeyLess, AscendingKeys, DiffValue, DiffKeys, WireChange;
    if n == 0 {
      d := map[];
      WireDiffEmpty();
    } else {
      var m := n - 1;
      var rest := DiffOfPairs(pairs, m);
      assert DiffValue(pairs[m].value);
      var c := ChangeOf(pairs[m].value);
      DiffKeyAfter(pairs, m, rest);
      WireDiffSnoc(rest, pairs[m].key, c);
      d := rest[pairs[m].key := c];
      assert pairs[..n] == pairs[..m] + [pairs[m]];
    }
  }

  lemma DiffKeyAfter(pairs: seq<Pair>, m: nat, d: Diff)
    requires m < |pairs| && AscendingKeys(pairs) && WireDiff(d) == pairs[..m]
    ensures var ks := DiffKeys(d); ks == [] || KeyLess(ks[|ks| - 1], pairs[m].key)
  {
    hide KeyLess, FirstDifference, WireChange;
    if m > 0 {
      WireDiffAt(d, pairs[..m], m - 1);
      KeyLessExactly(pairs[m - 1].key, pairs[m].key);
    }
  }

  lemma {:induction false} ChangeOf(w: Wire) returns (c: Change)
    requires DiffValue(w)
    ensures WireChange(c) == w
    decreases w, 1
  {
    hide WireSet, ElementList;
    match w
    case WStr(mode) => c := if mode == "" then Assigned else Deleted;
    case WDict(pairs) =>
      var d := DiffOfPairs(pairs, |pairs|);
      assert pairs[..|pairs|] == pairs;
      c := DictDiff(d);
    case WList(lists) =>
      c := SetChangeOf(lists[0].items, lists[1].items);
      assert lists == [WList(lists[0].items), WList(lists[1].items)];
  }

  lemma SetChangeOf(a: seq<Wire>, r: seq<Wire>) returns (c: Change)
    requires ChangeList(a) && ChangeList(r)
    ensures WireChange(c) == WList([WList(a), WList(r)])
  {
    hide WireSet, ElementList;
    if ElementList(a) && ElementList(r) {
      var added := SetOfList(a);
      var removed := SetOfList(r);
      c := SetDiff(added, removed);
    } else if ElementList(r) {
      ScalarRead(a[0]);
      var removed := SetOfList(r);
      assert a == [a[0]];
      c := BadSet(LoneAdded(a[0], removed));
    } else if ElementList(a) {
      ScalarRead(r[0]);
      var added := SetOfList(a);
      assert r == [r[0]];
      c := BadSet(LoneRemoved(added, r[0]));
    } else {
      ScalarRead(a[0]);
      ScalarRead(r[0]);
      assert a == [a[0]] && r == [r[0]];
      c := BadSet(BothLone(a[0], r[0]));
    }
  }

  /** A diff is accepted exactly when it follows the grammar. */
  lemma DiffGrammar(pairs: seq<Pair>)
    ensures DiffOf(pairs).Some? <==> DiffPairs(pairs)
  {
    hide DiffPairs, WireDiff;
    if DiffOf(pairs).Some? {
      var d := DiffOf(pairs).value;
      CanonicalDiff(pairs, d);
      DiffForm(d);
    }
    if DiffPairs(pairs) {
      var d := DiffOfPairs(pairs, |pairs|);
      assert pairs[..|pairs|] == pairs;
      CanonicalDiff(pairs, d);
    }
  }

  lemma {:induction false} DiffPairOf(d: Diff, k: string) returns (i: nat)
    requires k in d
    ensures i < |WireDiff(d)| && WireDiff(d)[i] == Pair(k, WireChange(d[k]))
  {
    hide WireChange, DiffKeys;
    assert k in DiffKeys(d);
    i :| 0 <= i < |DiffKeys(d)| && DiffKeys(d)[i] == k;
    WireDiffAt(d, WireDiff(d), i);
  }

  /** What a serialised diff does to each key when it is applied.  A key it does not name is left alone; "-"
      removes the key; "" gives it the scalar of the source; of two lists the elements of the first are
      inserted and those of the second erased; a dict is applied to the dict there.  Where the source has
      nothing of that kind, the key is removed. */
  lemma WireApplied(data: Dict, d: Diff, source: Dict, k: string)
    ensures var after := Lookup(Apply(data, d, source), k);
            (forall i :: 0 <= i < |WireDiff(d)| ==> WireDiff(d)[i].key != k) ==> after == Lookup(data, k)
    ensures forall i :: 0 <= i < |WireDiff(d)| && WireDiff(d)[i].key == k ==>
              WireChanged(data, k, WireDiff(d)[i].value, source, Lookup(Apply(data, d, source), k))
  {
    hide WireDiff, WireChange, WireChanged, Apply;
    ApplyLookup(data, d, source, k);
    if k in d {
      var j := DiffPairOf(d, k);
      forall i | 0 <= i < |WireDiff(d)| && WireDiff(d)[i].key == k
        ensures WireChanged(data, k, WireDiff(d)[i].value, source, Lookup(Apply(data, d, source), k))
      {
        WireDiffAt(d, WireDiff(d), i);
        ChangeApplied(data, k, d[k], source);
      }
    } else {
      forall i | 0 <= i < |WireDiff(d)| ensures WireDiff(d)[i].key != k {
        WireDiffAt(d, WireDiff(d), i);
      }
    }
  }

  ghost predicate WireChanged(data: Dict, k: string, w: Wire, source: Dict, after: Option<Value>) {
    match w
    case WStr(mode) =>
      && (mode == "-" ==> after == None)
      && (mode == "" ==> after == if k in source && source[k].ScalarV? then Some(source[k]) else None)
    case WList(lists) =>
      if k !in source || !source[k].SetV? then after == None
      else |lists| == 2 && lists[0].WList? && lists[1].WList? &&
           (ElementList(lists[0].items) && ElementList(lists[1].items) ==>
              after.Some? && after.value.SetV? &&
              forall e :: e in after.value.elems <==>
                (e in SetAt(data, k) || WireScalar(e) in lists[0].items) && WireScalar(e) !in lists[1].items)
    case WDict(pairs) =>
      if k !in source || !source[k].DictV? then after == None
      else DiffOf(pairs).Some? &&
           after == Some(DictV(Apply(DictAt(data, k), DiffOf(pairs).value, source[k].entries)))
    case WInt(_) => false
  }

  lemma ChangeApplied(data: Dict, k: string, c: Change, source: Dict)
    ensures WireChanged(data, k, WireChange(c), source, ApplyAt(data, k, c, source))
  {
    hide Apply, WireSet, ElementList, WireDiff;
    match c
    case Assigned =>
    case Deleted =>
    case SetDiff(added, removed) =>
      SetForm(added);
      SetForm(removed);
    case DictDiff(sub) => CanonicalDiff(WireDiff(sub), sub);
    case BadSet(LoneAdded(x, _)) => LoneNoList(x);
    case BadSet(LoneRemoved(_, y)) => LoneNoList(y);
    case BadSet(BothLone(x, y)) => LoneNoList(x);
  }

  lemma LoneNoList(x: LoneWire)
    ensures !ElementList([x])
  {
    ScalarRead(x);
    assert !IsScalar([x][0]);
  }

  // ----- messages

  /** A row of the window: seqno, hash of 32 bytes, and diff. */
  ghost predicate RowOf(row: Wire, id: MsgId, d: Diff) {
    row == WList([WInt(id.seqno), WStr(id.hash), WDict(WireDiff(d))]) && |id.hash| == 32
  }

  /** A row that is too old to be looked at further. */
  ghost predicate Skipped(row: Wire, bound: int) {
    row.WList? && row.items != [] && row.items[0].WInt? && row.items[0].n <= bound
  }

  /** The rows that are recent enough are those of the window, in ascending order. */
  ghost predicate WindowRows(rows: seq<Wire>, seqno: int, lag: int, l: Lagged) {
    && (forall id | id in l :: seqno - lag < id.seqno < seqno)
    && (forall i :: 0 <= i < |rows| ==> Skipped(rows[i], seqno - lag) || IsRowOf(rows[i], l))
    && (forall id :: id in l ==> Among(rows, |rows|, id, l[id]))
    && RowsOrdered(rows, l)
  }

  ghost predicate IsRowOf(row: Wire, l: Lagged) {
    exists id :: id in l && RowOf(row, id, l[id])
  }

  /** The row is among the first `n`. */
  ghost predicate Among(rows: seq<Wire>, n: nat, id: MsgId, d: Diff)
    requires n <= |rows|
  {
    exists i :: 0 <= i < n && RowOf(rows[i], id, d)
  }

  ghost predicate RowsOrdered(rows: seq<Wire>, l: Lagged) {
    forall i, j, id, id' | 0 <= i < j < |rows| && id in l && id' in l ::
      RowOf(rows[i], id, l[id]) && RowOf(rows[j], id', l[id']) ==>
        id.seqno < id'.seqno || (id.seqno == id'.seqno && FirstDifference(id.hash, id'.hash))
  }

  lemma RowForm(row: Wire, id: MsgId, d: Diff, bound: int)
    ensures RowOf(row, id, d) <==> row == WireRow(id, d)
    ensures RowOf(row, id, d) && id.seqno > bound ==> !TooOld(row, bound)
    ensures TooOld(row, bound) <==> Skipped(row, bound)
  {
    hide WireDiff;
    if row == WireRow(id, d) {
      assert row.items[0] == WInt(id.seqno);
    }
  }

  lemma {:induction false} RecentRow(rows: seq<Wire>, bound: int, row: Wire)
    requires row in Recent(rows, bound)
    ensures row in rows
  {
    if rows == [] {
    } else {
      var n := |rows| - 1;
      if row in Recent(rows[..n], bound) {
        RecentRow(rows[..n], bound, row);
      }
    }
  }

  /** The place of a recent row of a window. */
  lemma PlaceOf(rows: seq<Wire>, seqno: int, lag: int, l: Lagged, i: nat) returns (p: nat)
    requires WireLagged(l) == Recent(rows, seqno - lag) && i < |rows| && !TooOld(rows[i], seqno - lag)
    ensures p == |Recent(rows[..i], seqno - lag)| < |Ids(l)| && Ids(l)[p] in l
    ensures rows[i] == WireRow(Ids(l)[p], l[Ids(l)[p]])
  {
    hide Recent, TooOld, WireRow, Ids, WireLagged;
    RecentPosition(rows, seqno - lag, i);
    p := |Recent(rows[..i], seqno - lag)|;
    WireLaggedAt(l, Recent(rows, seqno - lag), p);
  }

  lemma PlacesAscend(rows: seq<Wire>, bound: int, i: nat, j: nat)
    requires i < j < |rows| && !TooOld(rows[i], bound)
    ensures |Recent(rows[..i], bound)| < |Recent(rows[..j], bound)|
  {
    hide TooOld;
    RecentNext(rows, bound, i);
    RecentPrefix(rows[..j], bound, i + 1);
    assert rows[..j][..i + 1] == rows[..i + 1];
  }

  lemma RowInWindow(rows: seq<Wire>, seqno: int, lag: int, l: Lagged, i: nat)
    requires WireLagged(l) == Recent(rows, seqno - lag) && i < |rows|
    ensures Skipped(rows[i], seqno - lag) || IsRowOf(rows[i], l)
  {
    hide Recent, TooOld, Skipped, RowOf, WireRow, WireLagged, Ids, Ascending;
    if TooOld(rows[i], seqno - lag) {
      RowForm(rows[i], MsgId(0, seq(32, i => '0')), map[], seqno - lag);
    } else {
      var p := PlaceOf(rows, seqno, lag, l, i);
      RowForm(rows[i], Ids(l)[p], l[Ids(l)[p]], seqno - lag);
    }
  }

  lemma PlaceOfId(l: Lagged, id: MsgId) returns (p: nat)
    requires id in l
    ensures p < |Ids(l)| && Ids(l)[p] == id
  {
    hide Ids, Ascending;
    assert id in Ids(l);
    p :| 0 <= p < |Ids(l)| && Ids(l)[p] == id;
  }

  lemma RowOfId(rows: seq<Wire>, seqno: int, lag: int, l: Lagged, id: MsgId)
    requires WireLagged(l) == Recent(rows, seqno - lag) && id in l
    ensures Among(rows, |rows|, id, l[id])
  {
    hide Recent, RowOf, WireRow, WireLagged, Ids, Ascending;
    var recent := Recent(rows, seqno - lag);
    var p := PlaceOfId(l, id);
    RowAt(l, recent, p);
    RecentRow(rows, seqno - lag, recent[p]);
    var i :| 0 <= i < |rows| && rows[i] == recent[p];
    RowForm(rows[i], id, l[id], seqno - lag);
  }

  lemma WindowOrdered(rows: seq<Wire>, seqno: int, lag: int, l: Lagged)
    requires InWindow(l, seqno, lag) && WireLagged(l) == Recent(rows, seqno - lag)
    ensures RowsOrdered(rows, l)
  {
    hide Recent, RowOf, FirstDifference, WireLagged, InWindow;
    forall i, j, id, id' | 0 <= i < j < |rows| && id in l && id' in l
                           && RowOf(rows[i], id, l[id]) && RowOf(rows[j], id', l[id'])
      ensures id.seqno < id'.seqno || (id.seqno == id'.seqno && FirstDifference(id.hash, id'.hash))
    {
      RowsInOrder(rows, seqno, lag, l, i, j, id, id');
    }
  }

  lemma WindowToRows(rows: seq<Wire>, seqno: int, lag: int, l: Lagged)
    requires InWindow(l, seqno, lag) && WireLagged(l) == Recent(rows, seqno - lag)
    ensures WindowRows(rows, seqno, lag, l)
  {
    hide Recent, Skipped, IsRowOf, Among, RowsOrdered, WireLagged;
    forall i | 0 <= i < |rows| ensures Skipped(rows[i], seqno - lag) || IsRowOf(rows[i], l) {
      RowInWindow(rows, seqno, lag, l, i);
    }
    forall id | id in l ensures Among(rows, |rows|, id, l[id]) {
      RowOfId(rows, seqno, lag, l, id);
    }
    WindowOrdered(rows, seqno, lag, l);
  }

  lemma RowAt(l: Lagged, recent: seq<Wire>, p: nat)
    requires WireLagged(l) == recent && p < |Ids(l)|
    ensures p < |recent| && Ids(l)[p] in l && recent[p] == WireRow(Ids(l)[p], l[Ids(l)[p]])
  {
    WireLaggedAt(l, recent, p);
  }

  lemma RowsInOrder(rows: seq<Wire>, seqno: int, lag: int, l: Lagged, i: nat, j: nat, id: MsgId, id': MsgId)
    requires InWindow(l, seqno, lag) && WireLagged(l) == Recent(rows, seqno - lag)
    requires i < j < |rows| && id in l && id' in l && RowOf(rows[i], id, l[id]) && RowOf(rows[j], id', l[id'])
    ensures id.seqno < id'.seqno || (id.seqno == id'.seqno && FirstDifference(id.hash, id'.hash))
  {
    hide Recent, TooOld, Skipped, RowOf, WireRow, FirstDifference, WireLagged, IdLess, Ids, Ascending;
    RowForm(rows[i], id, l[id], seqno - lag);
    RowForm(rows[j], id', l[id'], seqno - lag);
    var p := PlaceOf(rows, seqno, lag, l, i);
    var q := PlaceOf(rows, seqno, lag, l, j);
    PlacesAscend(rows, seqno - lag, i, j);
    WireRowInjective(id, l[id], Ids(l)[p], l[Ids(l)[p]]);
    WireRowInjective(id', l[id'], Ids(l)[q], l[Ids(l)[q]]);
    IdsAscend(l, p, q);
    IdLessExactly(id, id');
  }

  lemma IdsAscend(l: Lagged, p: nat, q: nat)
    requires p < q < |Ids(l)|
    ensures IdLess(Ids(l)[p], Ids(l)[q])
  {
    hide Ids;
  }

  lemma AmongNext(rows: seq<Wire>, n: nat, id: MsgId, d: Diff)
    requires n < |rows|
    ensures Among(rows, n + 1, id, d) <==> Among(rows, n, id, d) || RowOf(rows[n], id, d)
  {
    hide RowOf;
  }

  /** The part of a window that comes from the first `n` rows. */
  ghost predicate PartOf(part: Lagged, l: Lagged, rows: seq<Wire>, n: nat)
    requires n <= |rows|
  {
    && (forall id :: id in part <==> id in l && Among(rows, n, id, l[id]))
    && forall id :: id in part ==> part[id] == l[id]
  }

  lemma {:induction false} RowsToWindow(rows: seq<Wire>, seqno: int, lag: int, l: Lagged, n: nat) returns (part: Lagged)
    requires WindowRows(rows, seqno, lag, l) && n <= |rows|
    ensures PartOf(part, l, rows, n) && WireLagged(part) == Recent(rows[..n], seqno - lag)
    decreases n
  {
    hide TooOld, Skipped, RowOf, WireRow, WireLagged, Ids, IdLess, Recent, RowsOrdered, WindowRows, PartOf, Among;
    var b := seqno - lag;
    if n == 0 {
      part := map[];
      WireLaggedEmpty(part);
      NoRows(rows, b);
      NoPart(rows, l);
    } else {
      var m := n - 1;
      var before := RowsToWindow(rows, seqno, lag, l, m);
      RecentNext(rows, b, m);
      if TooOld(rows[m], b) {
        part := before;
        OldPart(rows, seqno, lag, l, before, m);
      } else {
        var id := RowId(rows, seqno, lag, l, m);
        LastRow(rows, seqno, lag, l, before, m, id);
        WireLaggedSnoc(before, id, l[id]);
        part := before[id := l[id]];
        NewPart(rows, l, before, m, id);
        RowForm(rows[m], id, l[id], b);
      }
    }
  }

  lemma NoRows(rows: seq<Wire>, bound: int)
    ensures Recent(rows[..0], bound) == []
  {
  }

  lemma NoPart(rows: seq<Wire>, l: Lagged)
    ensures PartOf(map[], l, rows, 0)
  {
  }

  lemma OldPart(rows: seq<Wire>, seqno: int, lag: int, l: Lagged, part: Lagged, m: nat)
    requires WindowRows(rows, seqno, lag, l) && m < |rows| && PartOf(part, l, rows, m) && TooOld(rows[m], seqno - lag)
    ensures PartOf(part, l, rows, m + 1)
  {
    hide TooOld, Skipped, RowOf, RowsOrdered, Among;
    forall id | id in l ensures Among(rows, m + 1, id, l[id]) <==> Among(rows, m, id, l[id]) {
      RowForm(rows[m], id, l[id], seqno - lag);
      AmongNext(rows, m, id, l[id]);
    }
  }

  lemma RowId(rows: seq<Wire>, seqno: int, lag: int, l: Lagged, m: nat) returns (id: MsgId)
    requires WindowRows(rows, seqno, lag, l) && m < |rows| && !TooOld(rows[m], seqno - lag)
    ensures id in l && RowOf(rows[m], id, l[id])
  {
    hide TooOld, Skipped, RowOf, RowsOrdered;
    RowForm(rows[m], MsgId(0, seq(32, i => '0')), map[], seqno - lag);
    id :| id in l && RowOf(rows[m], id, l[id]);
  }

  lemma NewPart(rows: seq<Wire>, l: Lagged, part: Lagged, m: nat, id: MsgId)
    requires m < |rows| && PartOf(part, l, rows, m) && id in l && RowOf(rows[m], id, l[id])
    ensures PartOf(part[id := l[id]], l, rows, m + 1)
  {
    hide RowOf, Among, WireRow;
    forall id' | id' in l ensures Among(rows, m + 1, id', l[id']) <==> Among(rows, m, id', l[id']) || id' == id {
      AmongNext(rows, m, id', l[id']);
      if RowOf(rows[m], id', l[id']) {
        RowForm(rows[m], id, l[id], 0);
        RowForm(rows[m], id', l[id'], 0);
        WireRowInjective(id, l[id], id', l[id']);
      }
    }
  }

  lemma LastRow(rows: seq<Wire>, seqno: int, lag: int, l: Lagged, part: Lagged, m: nat, id: MsgId)
    requires WindowRows(rows, seqno, lag, l) && m < |rows| && PartOf(part, l, rows, m)
    requires id in l && RowOf(rows[m], id, l[id])
    ensures var ids := Ids(part); ids == [] || IdLess(ids[|ids| - 1], id)
  {
    hide Skipped, RowOf, FirstDifference, IdLess, Ids, Ascending, RowsOrdered, IsRowOf;
    var ids := Ids(part);
    if ids != [] {
      var last := ids[|ids| - 1];
      assert last in ids;
      var i :| 0 <= i < m && RowOf(rows[i], last, l[last]);
      RowsApart(rows, l, i, m, last, id);
    }
  }

  lemma RowsApart(rows: seq<Wire>, l: Lagged, i: nat, j: nat, id: MsgId, id': MsgId)
    requires RowsOrdered(rows, l) && i < j < |rows| && id in l && id' in l
    requires RowOf(rows[i], id, l[id]) && RowOf(rows[j], id', l[id'])
    ensures IdLess(id, id')
  {
    hide RowOf, FirstDifference, IdLess;
    IdLessExactly(id, id');
  }

  /** A list of rows is accepted as a window exactly when its recent rows are the window's. */
  lemma WindowGrammar(rows: seq<Wire>, seqno: int, lag: int, l: Lagged)
    ensures LaggedOf(rows, seqno, lag) == Some(l) <==> WindowRows(rows, seqno, lag, l)
  {
    hide Recent, WireLagged, LaggedOf;
    CanonicalLagged(rows, seqno, lag, l);
    if WindowRows(rows, seqno, lag, l) {
      var part := RowsToWindow(rows, seqno, lag, l, |rows|);
      assert rows[..|rows|] == rows;
      WholePart(rows, seqno, lag, l, part);
    } else if InWindow(l, seqno, lag) && WireLagged(l) == Recent(rows, seqno - lag) {
      WindowToRows(rows, seqno, lag, l);
    }
  }

  lemma WholePart(rows: seq<Wire>, seqno: int, lag: int, l: Lagged, part: Lagged)
    requires WindowRows(rows, seqno, lag, l) && PartOf(part, l, rows, |rows|)
    ensures part == l
  {
    hide RowOf, Skipped, RowsOrdered;
    forall id ensures id in part <==> id in l {}
  }

  /** A serialised message: seqno, data, and, if present, window and diff. */
  function Top(seqno: int, data: seq<Pair>, rows: Option<seq<Wire>>, diff: Option<seq<Pair>>): seq<Pair> {
    [Pair("#", WInt(seqno)), Pair("&", WDict(data))] +
    (if rows.Some? then [Pair("<", WList(rows.value))] else []) +
    (if diff.Some? then [Pair("=", WDict(diff.value))] else [])
  }

  function OrEmpty<T>(o: Option<seq<T>>): seq<T> {
    if o.Some? then o.value else []
  }

  lemma TopParts(seqno: int, data: seq<Pair>, rows: Option<seq<Wire>>, diff: Option<seq<Pair>>)
    ensures PartsOf(Top(seqno, data, rows, diff)) == Some(Parts(seqno, data, OrEmpty(rows), OrEmpty(diff)))
  {
    var top := Top(seqno, data, rows, diff);
    assert top[0] == Pair("#", WInt(seqno)) && top[1] == Pair("&", WDict(data));
    assert rows.Some? ==> top[2] == Pair("<", WList(rows.value));
  }

  lemma PartsTop(top: seq<Pair>) returns (rows: Option<seq<Wire>>, diff: Option<seq<Pair>>)
    requires PartsOf(top).Some?
    ensures var Parts(seqno, data, rs, d) := PartsOf(top).value;
            top == Top(seqno, data, rows, diff) && rs == OrEmpty(rows) && d == OrEmpty(diff)
  {
    var p := PartsOf(top).value;
    var i := if |top| > 2 && top[2].key == "<" then 3 else 2;
    rows := if i == 3 then Some(p.rows) else None;
    diff := if |top| > i then Some(p.diff) else None;
    assert top[0] == Pair("#", WInt(p.seqno)) && top[1] == Pair("&", WDict(p.data));
    assert top == Top(p.seqno, p.data, rows, diff);
  }

  /** What message, if any, serialised bytes stand for: the seqno under "#", the data under "&", the window
      under "<" and the diff under "=", both of which may be missing, and the hash of the bytes. */
  lemma MessageGrammar(top: seq<Pair>, lag: int, hashOf: seq<Pair> -> Hash, m: Msg)
    ensures MsgOf(top, lag, hashOf) == Some(m) <==>
            m.id.hash == hashOf(top) &&
            exists data, rows, diff ::
              && top == Top(m.id.seqno, data, rows, diff)
              && DataOf(data) == Some(m.data) && WindowRows(OrEmpty(rows), m.id.seqno, lag, m.lagged)
              && DiffOf(OrEmpty(diff)) == Some(m.diff)
  {
    hide PartsOf, Top, DataOf, DiffOf, WindowRows, LaggedOf;
    if MsgOf(top, lag, hashOf) == Some(m) {
      var rows, diff := PartsTop(top);
      WindowGrammar(OrEmpty(rows), m.id.seqno, lag, m.lagged);
    }
    if data, rows, diff :|
      && top == Top(m.id.seqno, data, rows, diff)
      && DataOf(data) == Some(m.data) && WindowRows(OrEmpty(rows), m.id.seqno, lag, m.lagged)
      && DiffOf(OrEmpty(diff)) == Some(m.diff)
    {
      TopParts(m.id.seqno, data, rows, diff);
      WindowGrammar(OrEmpty(rows), m.id.seqno, lag, m.lagged);
    }
  }

  /** A message is written with all four parts. */
  lemma MessageForm(m: Msg, lag: int)
    requires Pruned(m.data)
    ensures var w := Window(m.lagged, m.id.seqno, lag);
            && WireMsg(m, lag) == Top(m.id.seqno, WireData(m.data), Some(WireLagged(w)), Some(WireDiff(m.diff)))
            && DataPairs(WireData(m.data)) && DiffPairs(WireDiff(m.diff))
            && WindowRows(WireLagged(w), m.id.seqno, lag, w)
  {
    hide WireData, WireDiff, WireLagged, DataPairs, DiffPairs, WindowRows, Window, Pruned, LaggedOf;
    DataForm(m.data);
    DiffForm(m.diff);
    var w := Window(m.lagged, m.id.seqno, lag);
    LaggedOfWire(w, m.id.seqno, lag);
    WindowGrammar(WireLagged(w), m.id.seqno, lag, w);
  }
}
