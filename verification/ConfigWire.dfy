/** The bencoded form of config data and diffs, as value trees (`serialize_data`, `parse_data`,
    `load_diff`). */
module ConfigWire {
  import opened Options
  import opened Ordering
  import opened ConfigData
  import opened ConfigDiff
  import opened ConfigTree

  // ----- serialisation

  function WireSet(s: set<Scalar>): (items: seq<Wire>)
    ensures |items| == |Elements(s)|
  {
    var es := Elements(s);
    seq(|es|, i requires 0 <= i < |es| => WireScalar(es[i]))
  }

  function WireData(d: Dict): (pairs: seq<Pair>)
    ensures |pairs| == |Keys(d)| && forall i :: 0 <= i < |pairs| ==> pairs[i].key == Keys(d)[i]
    decreases DictV(d), 0
  {
    var ks := Keys(d);
    seq(|ks|, i requires 0 <= i < |ks| => Pair(ks[i], WireValue(d[ks[i]])))
  }

  function WireValue(v: Value): Wire
    decreases v, 1
  {
    match v
    case ScalarV(s) => WireScalar(s)
    case SetV(s) => WList(WireSet(s))
    case DictV(e) => WDict(WireData(e))
  }

  lemma {:induction false} WireSetInjective(s: set<Scalar>, t: set<Scalar>)
    requires WireSet(s) == WireSet(t)
    ensures s == t
  {
    var es, fs := Elements(s), Elements(t);
    forall i | 0 <= i < |es| ensures es[i] == fs[i] {
      assert WireSet(s)[i] == WireSet(t)[i];
    }
    assert es == fs;
    forall e ensures e in s <==> e in t {
      assert e in es <==> e in fs;
    }
  }

  /** Different data never serialise alike. */
  lemma {:induction false} WireDataInjective(d: Dict, e: Dict)
    requires WireData(d) == WireData(e)
    ensures d == e
    decreases DictV(d), 0
  {
    var ks, js := Keys(d), Keys(e);
    assert ks == js by {
      forall i | 0 <= i < |ks| ensures ks[i] == js[i] {
        assert WireData(d)[i].key == WireData(e)[i].key;
      }
    }
    forall k ensures Lookup(d, k) == Lookup(e, k) {
      assert (k in d <==> k in ks) && (k in e <==> k in js);
      if k in d {
        var i :| 0 <= i < |ks| && ks[i] == k;
        assert WireData(d)[i].value == WireData(e)[i].value;
        WireValueInjective(d[k], e[k]);
      }
    }
    DictExtensionality(d, e);
  }

  lemma {:induction false} WireValueInjective(v: Value, w: Value)
    requires WireValue(v) == WireValue(w)
    ensures v == w
    decreases v, 1
  {
    if v.SetV? && w.SetV? {
      WireSetInjective(v.elems, w.elems);
    } else if v.DictV? && w.DictV? {
      WireDataInjective(v.entries, w.entries);
    }
  }

  // ----- appending at the end, as the parsers do

  lemma AscendingSnoc<T(!new)>(xs: seq<T>, x: T, less: (T, T) -> bool)
    requires TotalOrder(less) && Ascending(xs, less)
    requires xs == [] || less(xs[|xs| - 1], x)
    ensures Ascending(xs + [x], less)
  {
  }

  lemma WireSetSnoc(s: set<Scalar>, e: Scalar)
    requires var es := Elements(s); es == [] || ScalarLess(es[|es| - 1], e)
    ensures Elements(s + {e}) == Elements(s) + [e]
    ensures WireSet(s + {e}) == WireSet(s) + [WireScalar(e)]
  {
    var es := Elements(s);
    ScalarOrder();
    AscendingSnoc(es, e, ScalarLess);
    AscendOf(es + [e], s + {e}, ScalarLess);
  }

  lemma KeysSnoc(d: Dict, k: string, v: Value)
    requires var ks := Keys(d); ks == [] || KeyLess(ks[|ks| - 1], k)
    ensures k !in d && Keys(d[k := v]) == Keys(d) + [k]
  {
    var ks := Keys(d);
    KeyOrder();
    AscendingSnoc(ks, k, KeyLess);
    assert k !in ks by {
      Passed(ks + [k], |ks|, KeyLess);
      assert (ks + [k])[..|ks|] == ks;
    }
    AscendOf(ks + [k], d[k := v].Keys, KeyLess);
  }

  lemma WireDataSnoc(d: Dict, k: string, v: Value)
    requires var ks := Keys(d); ks == [] || KeyLess(ks[|ks| - 1], k)
    ensures k !in d && WireData(d[k := v]) == WireData(d) + [Pair(k, WireValue(v))]
  {
    KeysSnoc(d, k, v);
    var ks, d' := Keys(d), d[k := v];
    forall i | 0 <= i < |ks| ensures WireData(d')[i] == WireData(d)[i] {
      assert ks[i] in ks;
      assert Keys(d')[i] == ks[i] && ks[i] != k;
    }
    assert WireData(d') == WireData(d) + [Pair(k, WireValue(v))];
  }

  // ----- parse_data

  lemma WireSetAt(s: set<Scalar>, items: seq<Wire>, i: nat)
    requires WireSet(s) == items && i < |items|
    ensures |Elements(s)| == |items| && items[i] == WireScalar(Elements(s)[i])
    ensures i > 0 ==> ScalarLess(Elements(s)[i - 1], Elements(s)[i])
  {
  }

  lemma RejectScalar(items: seq<Wire>, i: nat)
    requires i < |items| && ReadScalar(items[i]).None?
    ensures forall s :: WireSet(s) != items
  {
    forall s ensures WireSet(s) != items {
      if WireSet(s) == items { WireSetAt(s, items, i); }
    }
  }

  lemma WireSetAscends(s: set<Scalar>, items: seq<Wire>, i: nat, e: Scalar, f: Scalar)
    requires WireSet(s) == items && 0 < i < |items|
    requires items[i - 1] == WireScalar(e) && items[i] == WireScalar(f)
    ensures ScalarLess(e, f)
  {
    WireSetAt(s, items, i - 1);
    WireSetAt(s, items, i);
  }

  lemma RejectElementOrder(items: seq<Wire>, i: nat, e: Scalar, f: Scalar)
    requires 0 < i < |items| && items[i - 1] == WireScalar(e) && items[i] == WireScalar(f)
    requires !ScalarLess(e, f)
    ensures forall s :: WireSet(s) != items
  {
    forall s ensures WireSet(s) != items {
      if WireSet(s) == items { WireSetAscends(s, items, i, e, f); }
    }
  }

  /** The greatest element so far, `*s.rbegin()`. */
  method LastElement(s: set<Scalar>) returns (e: Option<Scalar>)
    ensures e == var es := Elements(s); if es == [] then None else Some(es[|es| - 1])
  {
    var es := Elements(s);
    e := if es == [] then None else Some(es[|es| - 1]);
  }

  /** Reads scalars that must be strictly ascending; an empty list is accepted here. */
  method ParseElements(items: seq<Wire>) returns (r: Option<set<Scalar>>)
    ensures r.Some? ==> WireSet(r.value) == items
    ensures r.None? ==> forall s :: WireSet(s) != items
  {
    var s: set<Scalar> := {};
    for i := 0 to |items|
      invariant WireSet(s) == items[..i]
    {
      var val := ReadScalar(items[i]);
      if val.None? {
        RejectScalar(items, i);
        return None;
      }
      var last := LastElement(s);
      if last.Some? && !ScalarLess(last.value, val.value) {
        WireSetAt(s, items[..i], i - 1);
        RejectElementOrder(items, i, last.value, val.value);
        return None;
      }
      WireSetSnoc(s, val.value);
      s := s + {val.value};
      TakeNext(items, i);
    }
    assert items[..|items|] == items;
    return Some(s);
  }

  /** The value is accepted exactly when it is what some pruned value serialises to. */
  method ParseValue(w: Wire) returns (r: Option<Value>)
    ensures r.Some? ==> PrunedValue(r.value) && WireValue(r.value) == w
    ensures r.None? ==> forall v | PrunedValue(v) :: WireValue(v) != w
    decreases w, 2
  {
    match w
    case WInt(_) =>
      var s := ReadScalar(w);
      r := if s.Some? then Some(ScalarV(s.value)) else None;
    case WStr(t) => r := Some(ScalarV(Str(t)));
    case WList(items) =>
      if items == [] {
        return None;
      }
      var s := ParseElements(items);
      r := if s.Some? then Some(SetV(s.value)) else None;
    case WDict(pairs) =>
      var d := ParseData(pairs, false);
      r := if d.Some? then Some(DictV(d.value)) else None;
  }

  lemma WireDataAt(d: Dict, pairs: seq<Pair>, i: nat)
    requires WireData(d) == pairs && i < |pairs|
    ensures |Keys(d)| == |pairs| && pairs[i].key == Keys(d)[i] && pairs[i].key in d
    ensures pairs[i].value == WireValue(d[pairs[i].key])
    ensures i > 0 ==> KeyLess(pairs[i - 1].key, pairs[i].key)
  {
    assert Keys(d)[i] in Keys(d);
  }

  lemma RejectKeyOrder(pairs: seq<Pair>, i: nat)
    requires 0 < i < |pairs| && !KeyLess(pairs[i - 1].key, pairs[i].key)
    ensures forall d :: WireData(d) != pairs
  {
    forall d ensures WireData(d) != pairs {
      if WireData(d) == pairs { WireDataAt(d, pairs, i); }
    }
  }

  lemma RejectValue(pairs: seq<Pair>, i: nat)
    requires i < |pairs| && forall v | PrunedValue(v) :: WireValue(v) != pairs[i].value
    ensures forall d | Pruned(d) :: WireData(d) != pairs
  {
    forall d | Pruned(d) ensures WireData(d) != pairs {
      if WireData(d) == pairs { WireDataAt(d, pairs, i); }
    }
  }

  lemma RejectEmpty(pairs: seq<Pair>)
    requires pairs == []
    ensures forall d: Dict | d != map[] :: WireData(d) != pairs
  {
    forall d: Dict | d != map[] ensures WireData(d) != pairs {
      var k :| k in d;
      assert k in Keys(d);
    }
  }

  /** The greatest key so far, `d.rbegin()->first`. */
  method LastKey(d: Dict) returns (k: Option<string>)
    ensures k == var ks := Keys(d); if ks == [] then None else Some(ks[|ks| - 1])
  {
    var ks := Keys(d);
    k := if ks == [] then None else Some(ks[|ks| - 1]);
  }

  lemma WireDataEmpty()
    ensures WireData(map[]) == [] && Pruned(map[])
  {
    assert Keys(map[]) == [];
  }

  lemma PrunedUpdate(d: Dict, k: string, v: Value)
    requires Pruned(d) && PrunedValue(v)
    ensures Pruned(d[k := v])
  {
  }

  /** Reads pair `i` on top of what the pairs before it gave; nothing when no dict starts this way. */
  method ParsePair(pairs: seq<Pair>, i: nat, d: Dict) returns (r: Option<Dict>)
    requires i < |pairs| && WireData(d) == pairs[..i] && Pruned(d)
    ensures r.Some? ==> WireData(r.value) == pairs[..i + 1] && Pruned(r.value)
    ensures r.None? ==> forall e | Pruned(e) :: WireData(e) != pairs
    decreases WDict(pairs), 0
  {
    hide WireValue, WireData, PrunedValue, Pruned, Keys, KeyLess;
    var Pair(key, w) := pairs[i];
    var last := LastKey(d);
    if last.Some? && !KeyLess(last.value, key) {
      WireDataAt(d, pairs[..i], i - 1);
      RejectKeyOrder(pairs, i);
      return None;
    }
    var v := ParseValue(w);
    if v.None? {
      RejectValue(pairs, i);
      return None;
    }
    WireDataSnoc(d, key, v.value);
    PrunedUpdate(d, key, v.value);
    TakeNext(pairs, i);
    return Some(d[key := v.value]);
  }

  /** The dict is accepted exactly when it is what some pruned dict (below the top level: a
      non-empty one) serialises to, and that dict is the result. */
  method ParseData(pairs: seq<Pair>, topLevel: bool) returns (r: Option<Dict>)
    ensures r.Some? ==> Pruned(r.value) && (topLevel || r.value != map[]) && WireData(r.value) == pairs
    ensures r.None? ==> forall d | Pruned(d) && (topLevel || d != map[]) :: WireData(d) != pairs
    decreases WDict(pairs), 1
  {
    if !topLevel && pairs == [] {
      RejectEmpty(pairs);
      return None;
    }
    hide WireData, Pruned;
    var d: Dict := map[];
    WireDataEmpty();
    for i := 0 to |pairs|
      invariant WireData(d) == pairs[..i] && Pruned(d)
    {
      var next := ParsePair(pairs, i, d);
      if next.None? {
        return None;
      }
      d := next.value;
    }
    assert pairs[..|pairs|] == pairs;
    return Some(d);
  }

  /** The data a wire dict stands for, if any. */
  ghost function DataOf(pairs: seq<Pair>): Option<Dict> {
    if exists d :: Pruned(d) && WireData(d) == pairs then
      var d :| Pruned(d) && WireData(d) == pairs;
      Some(d)
    else None
  }

  /** Accepted data re-serialises to exactly what was read, and every pruned dict is read back. */
  lemma CanonicalData(pairs: seq<Pair>, d: Dict)
    ensures DataOf(pairs) == Some(d) <==> Pruned(d) && WireData(d) == pairs
  {
    if Pruned(d) && WireData(d) == pairs {
      WireDataInjective(d, DataOf(pairs).value);
    }
  }

  // ----- diffs

  function WireDiff(diff: Diff): (pairs: seq<Pair>)
    ensures |pairs| == |DiffKeys(diff)| && forall i :: 0 <= i < |pairs| ==> pairs[i].key == DiffKeys(diff)[i]
    decreases DictDiff(diff), 0
  {
    var ks := DiffKeys(diff);
    seq(|ks|, i requires 0 <= i < |ks| => Pair(ks[i], WireChange(diff[ks[i]])))
  }

  function WireChange(c: Change): Wire
    decreases c, 1
  {
    match c
    case Assigned => WStr("")
    case Deleted => WStr("-")
    case SetDiff(added, removed) => WList([WList(WireSet(added)), WList(WireSet(removed))])
    case DictDiff(sub) => WDict(WireDiff(sub))
    case BadSet(LoneAdded(x, removed)) => WList([WList([x]), WList(WireSet(removed))])
    case BadSet(LoneRemoved(added, y)) => WList([WList(WireSet(added)), WList([y])])
    case BadSet(BothLone(x, y)) => WList([WList([x]), WList([y])])
  }

  /** A lone value that is no scalar is not a set. */
  lemma LoneNotSet(x: LoneWire, s: set<Scalar>)
    ensures WireSet(s) != [x]
  {
    if Elements(s) != [] {
      assert WireSet(s)[0] == WireScalar(Elements(s)[0]);
    }
  }

  lemma {:induction false} WireDiffInjective(d: Diff, e: Diff)
    requires WireDiff(d) == WireDiff(e)
    ensures d == e
    decreases DictDiff(d), 0
  {
    var ks, js := DiffKeys(d), DiffKeys(e);
    assert ks == js by {
      forall i | 0 <= i < |ks| ensures ks[i] == js[i] {
        assert WireDiff(d)[i].key == WireDiff(e)[i].key;
      }
    }
    forall k ensures k in d <==> k in e {
      assert (k in d <==> k in ks) && (k in e <==> k in js);
    }
    forall k | k in d ensures d[k] == e[k] {
      assert k in ks;
      var i :| 0 <= i < |ks| && ks[i] == k;
      assert WireDiff(d)[i].value == WireDiff(e)[i].value;
      WireChangeInjective(d[k], e[k]);
    }
  }

  /** The two lists of a set change, good or bad. */
  function PartsOfChange(c: Change): (seq<Wire>, seq<Wire>)
    requires c.SetDiff? || c.BadSet?
  {
    (WireChange(c).items[0].items, WireChange(c).items[1].items)
  }

  lemma LonePart(x: LoneWire, y: LoneWire)
    requires [x] == [y]
    ensures x == y
  {
    assert [x][0] == [y][0];
  }

  lemma SetChangeInjective(c: Change, d: Change)
    requires (c.SetDiff? || c.BadSet?) && (d.SetDiff? || d.BadSet?) && PartsOfChange(c) == PartsOfChange(d)
    ensures c == d
  {
    hide WireSet;
    forall x: LoneWire, s: set<Scalar> ensures WireSet(s) != [x] {
      LoneNotSet(x, s);
    }
    match (c, d)
    case (SetDiff(a, r), SetDiff(a', r')) =>
      WireSetInjective(a, a');
      WireSetInjective(r, r');
    case (BadSet(LoneAdded(x, r)), BadSet(LoneAdded(x', r'))) =>
      LonePart(x, x');
      WireSetInjective(r, r');
    case (BadSet(LoneRemoved(a, y)), BadSet(LoneRemoved(a', y'))) =>
      WireSetInjective(a, a');
      LonePart(y, y');
    case (BadSet(BothLone(x, y)), BadSet(BothLone(x', y'))) =>
      LonePart(x, x');
      LonePart(y, y');
    case _ =>
  }

  lemma {:induction false} WireChangeInjective(c: Change, d: Change)
    requires WireChange(c) == WireChange(d)
    ensures c == d
    decreases c, 1
  {
    if (c.SetDiff? || c.BadSet?) && (d.SetDiff? || d.BadSet?) {
      SetChangeInjective(c, d);
    } else if c.DictDiff? && d.DictDiff? {
      WireDiffInjective(c.changes, d.changes);
    }
  }

  lemma DiffKeysSnoc(d: Diff, k: string, c: Change)
    requires var ks := DiffKeys(d); ks == [] || KeyLess(ks[|ks| - 1], k)
    ensures k !in d && DiffKeys(d[k := c]) == DiffKeys(d) + [k]
  {
    var ks, d' := DiffKeys(d), d[k := c];
    KeyOrder();
    AscendingSnoc(ks, k, KeyLess);
    assert k !in ks by {
      Passed(ks + [k], |ks|, KeyLess);
      assert (ks + [k])[..|ks|] == ks;
    }
    AscendOf(ks + [k], d'.Keys, KeyLess);
  }

  lemma WireDiffSnoc(d: Diff, k: string, c: Change)
    requires var ks := DiffKeys(d); ks == [] || KeyLess(ks[|ks| - 1], k)
    ensures k !in d && WireDiff(d[k := c]) == WireDiff(d) + [Pair(k, WireChange(c))]
  {
    hide DiffKeys, KeyLess, WireChange;
    var ks, d' := DiffKeys(d), d[k := c];
    DiffKeysSnoc(d, k, c);
    forall i | 0 <= i < |ks| ensures WireDiff(d')[i] == WireDiff(d)[i] {
      assert ks[i] in ks;
      assert DiffKeys(d')[i] == ks[i] && ks[i] != k;
    }
    assert WireDiff(d') == WireDiff(d) + [Pair(k, WireChange(c))];
  }

  lemma WireDiffAt(d: Diff, pairs: seq<Pair>, i: nat)
    requires WireDiff(d) == pairs && i < |pairs|
    ensures |DiffKeys(d)| == |pairs| && pairs[i].key == DiffKeys(d)[i] && pairs[i].key in d
    ensures pairs[i].value == WireChange(d[pairs[i].key])
    ensures i > 0 ==> KeyLess(pairs[i - 1].key, pairs[i].key)
  {
    assert DiffKeys(d)[i] in DiffKeys(d);
  }

  lemma RejectDiffKeyOrder(pairs: seq<Pair>, i: nat)
    requires 0 < i < |pairs| && !KeyLess(pairs[i - 1].key, pairs[i].key)
    ensures forall d :: WireDiff(d) != pairs
  {
    forall d ensures WireDiff(d) != pairs {
      if WireDiff(d) == pairs { WireDiffAt(d, pairs, i); }
    }
  }

  lemma RejectChange(pairs: seq<Pair>, i: nat)
    requires i < |pairs| && forall c :: WireChange(c) != pairs[i].value
    ensures forall d :: WireDiff(d) != pairs
  {
    forall d ensures WireDiff(d) != pairs {
      if WireDiff(d) == pairs { WireDiffAt(d, pairs, i); }
    }
  }

  method LastDiffKey(d: Diff) returns (k: Option<string>)
    ensures k == var ks := DiffKeys(d); if ks == [] then None else Some(ks[|ks| - 1])
  {
    var ks := DiffKeys(d);
    k := if ks == [] then None else Some(ks[|ks| - 1]);
  }

  /** One of the two lists of a set change: a set, or a lone value that is no scalar.  Only neighbours
      are compared, so that a list of one is never looked at. */
  method LoadPart(items: seq<Wire>) returns (s: Option<set<Scalar>>, lone: Option<LoneWire>)
    ensures s.Some? ==> lone.None? && WireSet(s.value) == items
    ensures s.None? ==> forall t :: WireSet(t) != items
    ensures lone.Some? ==> s.None? && items == [lone.value]
    ensures s.None? && lone.None? ==> forall x: LoneWire :: items != [x]
  {
    hide WireSet;
    s := ParseElements(items);
    lone := None;
    if s.None? {
      if |items| == 1 && ReadScalar(items[0]).None? {
        lone := Some(items[0]);
      } else {
        LoneRejected(items);
      }
    }
  }

  lemma LoneRejected(items: seq<Wire>)
    requires |items| == 1 ==> ReadScalar(items[0]).Some?
    ensures forall x: LoneWire :: items != [x]
  {
    forall x: LoneWire ensures items != [x] {
      assert [x][0] == x;
    }
  }

  /** The two lists of a set change, read. */
  method LoadSetChange(a: seq<Wire>, r: seq<Wire>) returns (c: Option<Change>)
    ensures c.Some? ==> WireChange(c.value) == WList([WList(a), WList(r)])
    ensures c.None? ==> forall d :: WireChange(d) != WList([WList(a), WList(r)])
  {
    hide WireSet;
    var added, x := LoadPart(a);
    var removed, y := LoadPart(r);
    if added.Some? && removed.Some? {
      c := Some(SetDiff(added.value, removed.value));
    } else if x.Some? && removed.Some? {
      c := Some(BadSet(LoneAdded(x.value, removed.value)));
    } else if added.Some? && y.Some? {
      c := Some(BadSet(LoneRemoved(added.value, y.value)));
    } else if x.Some? && y.Some? {
      c := Some(BadSet(BothLone(x.value, y.value)));
    } else {
      c := None;
      forall d ensures WireChange(d) != WList([WList(a), WList(r)]) {
        RejectSetChange(a, r, d);
      }
    }
  }

  /** Neither a set nor a lone value. */
  ghost predicate NoPart(items: seq<Wire>) {
    (forall t :: WireSet(t) != items) && forall x: LoneWire :: items != [x]
  }

  lemma RejectSetChange(a: seq<Wire>, r: seq<Wire>, d: Change)
    requires NoPart(a) || NoPart(r)
    ensures WireChange(d) != WList([WList(a), WList(r)])
  {
    hide WireSet;
    var lists := [WList(a), WList(r)];
    assert lists[0].items == a && lists[1].items == r;
    if d.SetDiff? || d.BadSet? {
      assert PartsOfChange(d).0 != a || PartsOfChange(d).1 != r;
    }
  }

  /** The string "" or "-", a pair of element lists, or a nested diff; nothing else is a change. */
  method LoadChange(w: Wire) returns (r: Option<Change>)
    ensures r.Some? ==> WireChange(r.value) == w
    ensures r.None? ==> forall c :: WireChange(c) != w
    decreases w, 2
  {
    match w
    case WStr(mode) =>
      r := if mode == "" then Some(Assigned) else if mode == "-" then Some(Deleted) else None;
    case WList(changed) =>
      if |changed| != 2 || !changed[0].WList? || !changed[1].WList? {
        return None;
      }
      assert changed == [WList(changed[0].items), WList(changed[1].items)];
      r := LoadSetChange(changed[0].items, changed[1].items);
    case WDict(pairs) =>
      var sub := LoadDiff(pairs);
      r := if sub.Some? then Some(DictDiff(sub.value)) else None;
    case WInt(_) => r := None;
  }

  lemma WireDiffEmpty()
    ensures WireDiff(map[]) == []
  {
    assert DiffKeys(map[]) == [];
  }

  /** Reads pair `i` on top of what the pairs before it gave; nothing when no diff starts this way. */
  method LoadPair(pairs: seq<Pair>, i: nat, d: Diff) returns (r: Option<Diff>)
    requires i < |pairs| && WireDiff(d) == pairs[..i]
    ensures r.Some? ==> WireDiff(r.value) == pairs[..i + 1]
    ensures r.None? ==> forall e :: WireDiff(e) != pairs
    decreases WDict(pairs), 0
  {
    hide WireChange, WireDiff, DiffKeys, KeyLess;
    var Pair(key, w) := pairs[i];
    var last := LastDiffKey(d);
    if last.Some? && !KeyLess(last.value, key) {
      WireDiffAt(d, pairs[..i], i - 1);
      RejectDiffKeyOrder(pairs, i);
      return None;
    }
    var c := LoadChange(w);
    if c.None? {
      RejectChange(pairs, i);
      return None;
    }
    WireDiffSnoc(d, key, c.value);
    TakeNext(pairs, i);
    return Some(d[key := c.value]);
  }

  method LoadDiff(pairs: seq<Pair>) returns (r: Option<Diff>)
    ensures r.Some? ==> WireDiff(r.value) == pairs
    ensures r.None? ==> forall d :: WireDiff(d) != pairs
    decreases WDict(pairs), 1
  {
    hide WireDiff;
    var d: Diff := map[];
    WireDiffEmpty();
    for i := 0 to |pairs|
      invariant WireDiff(d) == pairs[..i]
    {
      var next := LoadPair(pairs, i, d);
      if next.None? {
        return None;
      }
      d := next.value;
    }
    assert pairs[..|pairs|] == pairs;
    return Some(d);
  }

  ghost function DiffOf(pairs: seq<Pair>): Option<Diff> {
    if exists d :: WireDiff(d) == pairs then
      var d :| WireDiff(d) == pairs;
      Some(d)
    else None
  }

  lemma CanonicalDiff(pairs: seq<Pair>, d: Diff)
    ensures DiffOf(pairs) == Some(d) <==> WireDiff(d) == pairs
  {
    if WireDiff(d) == pairs {
      WireDiffInjective(d, DiffOf(pairs).value);
    }
  }
}
