/** What an index holds, as a reader of amlayer sees it: keys in strictly increasing
    order, each with the list of record ids stored under it (newest first).  Every
    operation of the index is specified by a function on such a sequence. */
module AmEntries {

  type Key = int
  type RecId = int

  /** Sign of value compared with the key in a page (AM_Compare). */
  function Compare(bufKey: Key, value: Key): int {
    if value < bufKey then -1 else if value > bufKey then 1 else 0
  }

  datatype Entry = Entry(key: Key, recIds: seq<RecId>)

  ghost predicate Sorted(es: seq<Entry>) {
    forall i, j | 0 <= i < j < |es| :: es[i].key < es[j].key
  }

  ghost predicate AllBelow(es: seq<Entry>, k: Key) {
    forall i | 0 <= i < |es| :: es[i].key < k
  }

  ghost predicate AllAbove(es: seq<Entry>, k: Key) {
    forall i | 0 <= i < |es| :: k < es[i].key
  }

  ghost predicate NoEmptyList(es: seq<Entry>) {
    forall i | 0 <= i < |es| :: es[i].recIds != []
  }

  /** The map a sorted sequence stands for. */
  ghost function AsMap(es: seq<Entry>): map<Key, seq<RecId>> {
    if es == [] then map[] else AsMap(es[..|es| - 1])[es[|es| - 1].key := es[|es| - 1].recIds]
  }

  ghost function Lookup(m: map<Key, seq<RecId>>, k: Key): seq<RecId> {
    if k in m then m[k] else []
  }

  /** es with recId put in front of k's list, a new list if k has none. */
  ghost function InsertOn(es: seq<Entry>, k: Key, r: RecId): seq<Entry> {
    if es == [] then [Entry(k, [r])]
    else if k < es[0].key then [Entry(k, [r])] + es
    else if k == es[0].key then [Entry(k, [r] + es[0].recIds)] + es[1..]
    else [es[0]] + InsertOn(es[1..], k, r)
  }

  ghost function RemoveFirst(rs: seq<RecId>, r: RecId): seq<RecId> {
    if rs == [] then [] else if rs[0] == r then rs[1..] else [rs[0]] + RemoveFirst(rs[1..], r)
  }

  /** es with the first r taken off k's list, and k itself dropped when its list runs out. */
  ghost function DeleteOn(es: seq<Entry>, k: Key, r: RecId): seq<Entry> {
    if es == [] then []
    else if k == es[0].key then
      var rs := RemoveFirst(es[0].recIds, r);
      if rs == [] then es[1..] else [Entry(k, rs)] + es[1..]
    else [es[0]] + DeleteOn(es[1..], k, r)
  }

  ghost predicate Has(es: seq<Entry>, k: Key, r: RecId) {
    exists i | 0 <= i < |es| :: es[i].key == k && r in es[i].recIds
  }

  /** All (key, recId) pairs in scan order. */
  ghost function Pairs(es: seq<Entry>): seq<(Key, RecId)> {
    if es == [] then [] else ListPairs(es[0].key, es[0].recIds) + Pairs(es[1..])
  }

  ghost function ListPairs(k: Key, rs: seq<RecId>): seq<(Key, RecId)> {
    seq(|rs|, i requires 0 <= i < |rs| => (k, rs[i]))
  }

  // ---- positional forms: what a leaf does once its search has found the place ----

  ghost function InsertAt(es: seq<Entry>, i: nat, found: bool, k: Key, r: RecId): seq<Entry>
    requires if found then i < |es| else i <= |es|
  {
    if found then es[i := Entry(es[i].key, [r] + es[i].recIds)]
    else es[..i] + [Entry(k, [r])] + es[i..]
  }

  ghost function DeleteAt(es: seq<Entry>, i: nat, r: RecId): seq<Entry>
    requires i < |es|
  {
    var rs := RemoveFirst(es[i].recIds, r);
    if rs == [] then es[..i] + es[i + 1..] else es[i := Entry(es[i].key, rs)]
  }

  /** (found, i) is the place of k in es: its position, or the position it belongs at. */
  ghost predicate IsPlace(es: seq<Entry>, k: Key, found: bool, i: nat) {
    && i <= |es|
    && AllBelow(es[..i], k)
    && (if found then i < |es| && es[i].key == k else AllAbove(es[i..], k))
  }

  // ---- laws ----

  lemma {:induction false} InsertOnConcat(a: seq<Entry>, es: seq<Entry>, b: seq<Entry>, k: Key, r: RecId)
    requires AllBelow(a, k) && AllAbove(b, k)
    ensures InsertOn(a + es + b, k, r) == a + InsertOn(es, k, r) + b
  {
    if a != [] {
      InsertOnConcat(a[1..], es, b, k, r);
      assert (a + es + b)[1..] == a[1..] + es + b;
      assert [a[0]] + (a[1..] + InsertOn(es, k, r) + b) == a + InsertOn(es, k, r) + b;
    } else {
      assert a + es + b == es + b;
      assert a + InsertOn(es, k, r) + b == InsertOn(es, k, r) + b;
      InsertOnBefore(es, b, k, r);
    }
  }

  lemma {:induction false} InsertOnBefore(es: seq<Entry>, b: seq<Entry>, k: Key, r: RecId)
    requires AllAbove(b, k)
    ensures InsertOn(es + b, k, r) == InsertOn(es, k, r) + b
  {
    if es == [] {
      assert es + b == b;
    } else {
      assert (es + b)[1..] == es[1..] + b;
      if k > es[0].key {
        InsertOnBefore(es[1..], b, k, r);
      }
    }
  }

  lemma {:induction false} DeleteOnConcat(a: seq<Entry>, es: seq<Entry>, b: seq<Entry>, k: Key, r: RecId)
    requires AllBelow(a, k) && AllAbove(b, k)
    ensures DeleteOn(a + es + b, k, r) == a + DeleteOn(es, k, r) + b
  {
    if a != [] {
      DeleteOnConcat(a[1..], es, b, k, r);
      assert (a + es + b)[1..] == a[1..] + es + b;
      assert [a[0]] + (a[1..] + DeleteOn(es, k, r) + b) == a + DeleteOn(es, k, r) + b;
    } else {
      assert a + es + b == es + b;
      assert a + DeleteOn(es, k, r) + b == DeleteOn(es, k, r) + b;
      DeleteOnBefore(es, b, k, r);
    }
  }

  lemma {:induction false} DeleteOnBefore(es: seq<Entry>, b: seq<Entry>, k: Key, r: RecId)
    requires AllAbove(b, k)
    ensures DeleteOn(es + b, k, r) == DeleteOn(es, k, r) + b
  {
    if es == [] {
      assert es + b == b;
      DeleteOnAbove(b, k, r);
    } else {
      assert (es + b)[1..] == es[1..] + b;
      if k != es[0].key {
        DeleteOnBefore(es[1..], b, k, r);
      }
    }
  }

  lemma {:induction false} DeleteOnAbove(b: seq<Entry>, k: Key, r: RecId)
    requires AllAbove(b, k)
    ensures DeleteOn(b, k, r) == b
  {
    if b != [] {
      DeleteOnAbove(b[1..], k, r);
    }
  }

  /** At the place of k the positional insert is the insert. */
  lemma InsertAtIsInsertOn(es: seq<Entry>, k: Key, r: RecId, found: bool, i: nat)
    requires Sorted(es) && IsPlace(es, k, found, i)
    ensures InsertAt(es, i, found, k, r) == InsertOn(es, k, r)
  {
    if found {
      assert es == es[..i] + [es[i]] + es[i + 1..];
      InsertOnConcat(es[..i], [es[i]], es[i + 1..], k, r);
      assert [es[i]][1..] == [];
      assert InsertOn([es[i]], k, r) == [Entry(k, [r] + es[i].recIds)];
    } else {
      assert es == es[..i] + [] + es[i..];
      InsertOnConcat(es[..i], [], es[i..], k, r);
    }
  }

  lemma DeleteAtIsDeleteOn(es: seq<Entry>, k: Key, r: RecId, i: nat)
    requires Sorted(es) && IsPlace(es, k, true, i)
    ensures DeleteAt(es, i, r) == DeleteOn(es, k, r)
  {
    assert es == es[..i] + [es[i]] + es[i + 1..];
    DeleteOnConcat(es[..i], [es[i]], es[i + 1..], k, r);
    DeleteOnOne(es[i], r);
  }

  lemma DeleteOnOne(e: Entry, r: RecId)
    ensures var rs := RemoveFirst(e.recIds, r);
            DeleteOn([e], e.key, r) == if rs == [] then [] else [Entry(e.key, rs)]
  {
    assert [e][1..] == [];
  }

  /** The place of k in a sorted sequence. */
  lemma {:induction false} PlaceExists(es: seq<Entry>, k: Key) returns (found: bool, i: nat)
    requires Sorted(es)
    ensures IsPlace(es, k, found, i)
  {
    if es == [] || k < es[0].key {
      found, i := false, 0;
    } else if es[0].key == k {
      found, i := true, 0;
    } else {
      found, i := PlaceExists(es[1..], k);
      i := i + 1;
      assert es[..i] == [es[0]] + es[1..][..i - 1];
      assert es[i..] == es[1..][i - 1..];
    }
  }

  lemma {:induction false} AsMapMiss(es: seq<Entry>, k: Key)
    requires forall i | 0 <= i < |es| :: es[i].key != k
    ensures k !in AsMap(es)
  {
    if es != [] {
      AsMapMiss(es[..|es| - 1], k);
    }
  }

  lemma {:induction false} AsMapHit(es: seq<Entry>, i: nat)
    requires Sorted(es) && i < |es|
    ensures es[i].key in AsMap(es) && AsMap(es)[es[i].key] == es[i].recIds
  {
    var n := |es| - 1;
    if i < n {
      AsMapHit(es[..n], i);
      assert es[..n][i] == es[i];
    }
  }

  /** Looking k up in the map of a sorted sequence finds the entry at k's place, or none. */
  lemma MapAt(es: seq<Entry>, k: Key) returns (found: bool, i: nat)
    requires Sorted(es)
    ensures IsPlace(es, k, found, i)
    ensures found ==> k in AsMap(es) && AsMap(es)[k] == es[i].recIds
    ensures !found ==> k !in AsMap(es) && forall x | 0 <= x < |es| :: es[x].key != k
  {
    found, i := PlaceExists(es, k);
    if found {
      AsMapHit(es, i);
    } else {
      forall x | 0 <= x < |es| ensures es[x].key != k {
        if x < i { assert es[..i][x].key < k; } else { assert k < es[i..][x - i].key; }
      }
      AsMapMiss(es, k);
    }
  }

  lemma AsMapInit(a: seq<Entry>)
    requires Sorted(a) && a != []
    ensures AsMap(a[..|a| - 1]) == AsMap(a) - {a[|a| - 1].key}
  {
    var k := a[|a| - 1].key;
    AsMapMiss(a[..|a| - 1], k);
    AddThenRemove(AsMap(a[..|a| - 1]), k, a[|a| - 1].recIds);
  }

  lemma AddThenRemove<X, Y>(m: map<X, Y>, k: X, v: Y)
    requires k !in m
    ensures m[k := v] - {k} == m
  {
  }

  /** A sorted sequence is determined by its map, so the map is the whole content. */
  lemma {:induction false} AsMapInjective(a: seq<Entry>, b: seq<Entry>)
    requires Sorted(a) && Sorted(b) && AsMap(a) == AsMap(b)
    ensures a == b
  {
    if a == [] || b == [] {
      if a != [] { AsMapHit(a, 0); }
      if b != [] { AsMapHit(b, 0); }
    } else {
      var m, n := |a| - 1, |b| - 1;
      AsMapHit(a, m);
      AsMapHit(b, n);
      var _, i := MapAt(b, a[m].key);
      var _, j := MapAt(a, b[n].key);
      assert a[m] == b[n];
      var k := a[m].key;
      AsMapInit(a);
      AsMapInit(b);
      AsMapInjective(a[..m], b[..n]);
      assert a == a[..m] + [a[m]] && b == b[..n] + [b[n]];
    }
  }

  lemma InsertAtSorted(es: seq<Entry>, k: Key, r: RecId, found: bool, i: nat)
    requires Sorted(es) && IsPlace(es, k, found, i)
    ensures Sorted(InsertAt(es, i, found, k, r))
    ensures NoEmptyList(es) ==> NoEmptyList(InsertAt(es, i, found, k, r))
  {
    forall x | 0 <= x < i ensures es[x].key < k {
      assert es[..i][x].key < k;
    }
    if !found {
      forall x | i <= x < |es| ensures k < es[x].key {
        assert k < es[i..][x - i].key;
      }
    }
  }

  lemma InsertOnSorted(es: seq<Entry>, k: Key, r: RecId)
    requires Sorted(es)
    ensures Sorted(InsertOn(es, k, r))
    ensures NoEmptyList(es) ==> NoEmptyList(InsertOn(es, k, r))
  {
    var found, i := PlaceExists(es, k);
    InsertAtIsInsertOn(es, k, r, found, i);
    InsertAtSorted(es, k, r, found, i);
  }

  lemma DeleteOnSorted(es: seq<Entry>, k: Key, r: RecId)
    requires Sorted(es)
    ensures Sorted(DeleteOn(es, k, r))
    ensures NoEmptyList(es) ==> NoEmptyList(DeleteOn(es, k, r))
  {
    var found, i := PlaceExists(es, k);
    if found {
      DeleteAtIsDeleteOn(es, k, r, i);
    } else {
      assert es == es[..i] + [] + es[i..];
      DeleteOnConcat(es[..i], [], es[i..], k, r);
    }
  }

  /** Where each old entry sits after an insert, and where the entry of k is. */
  lemma InsertShape(es: seq<Entry>, k: Key, r: RecId) returns (found: bool, i: nat)
    requires Sorted(es)
    ensures IsPlace(es, k, found, i)
    ensures var t := InsertOn(es, k, r);
            && Sorted(t) && |t| == |es| + (if found then 0 else 1)
            && t[i] == Entry(k, [r] + if found then es[i].recIds else [])
            && (forall j | 0 <= j < i :: t[j] == es[j])
            && (forall j | i < j < |t| :: t[j] == es[if found then j else j - 1])
  {
    found, i := PlaceExists(es, k);
    InsertAtIsInsertOn(es, k, r, found, i);
    InsertOnSorted(es, k, r);
  }

  lemma InsertMapAt(es: seq<Entry>, k: Key, r: RecId, x: Key)
    requires Sorted(es) && x != k
    ensures var t := AsMap(InsertOn(es, k, r));
            && (x in t <==> x in AsMap(es))
            && (x in t ==> t[x] == AsMap(es)[x])
  {
    var found, i := InsertShape(es, k, r);
    var t := InsertOn(es, k, r);
    var hit, j := MapAt(es, x);
    if hit {
      var m := if found || j < i then j else j + 1;
      assert t[m] == es[j];
      AsMapHit(t, m);
    } else {
      AsMapMiss(t, x);
    }
  }

  lemma InsertMapAtKey(es: seq<Entry>, k: Key, r: RecId)
    requires Sorted(es)
    ensures var t := AsMap(InsertOn(es, k, r)); k in t && t[k] == [r] + Lookup(AsMap(es), k)
  {
    var found, i := InsertShape(es, k, r);
    if found { AsMapHit(es, i); } else { NotPlaced(es, k, i); }
    AsMapHit(InsertOn(es, k, r), i);
  }

  lemma NotPlaced(es: seq<Entry>, k: Key, i: nat)
    requires IsPlace(es, k, false, i)
    ensures k !in AsMap(es)
  {
    forall x | 0 <= x < |es| ensures es[x].key != k {
      if x < i { assert es[..i][x].key < k; } else { assert k < es[i..][x - i].key; }
    }
    AsMapMiss(es, k);
  }

  /** Inserting changes the map at k and nowhere else. */
  lemma InsertOnMap(es: seq<Entry>, k: Key, r: RecId)
    requires Sorted(es)
    ensures var m := AsMap(es); AsMap(InsertOn(es, k, r)) == m[k := [r] + if k in m then m[k] else []]
  {
    var t, m := AsMap(InsertOn(es, k, r)), AsMap(es);
    InsertMapAtKey(es, k, r);
    forall x | x != k ensures (x in t <==> x in m) && (x in t ==> t[x] == m[x]) {
      InsertMapAt(es, k, r, x);
    }
  }

  /** t is es with the recIds of entry i cut down to rs, and without entry i if rs is empty. */
  ghost predicate CutAt(es: seq<Entry>, t: seq<Entry>, i: nat, rs: seq<RecId>)
    requires i < |es|
  {
    && |t| == |es| - (if rs == [] then 1 else 0)
    && (forall j | 0 <= j < i :: t[j] == es[j])
    && (forall j | i < j < |es| :: t[if rs == [] then j - 1 else j] == es[j])
    && (rs != [] ==> t[i] == Entry(es[i].key, rs))
  }

  lemma DeleteAtCuts(es: seq<Entry>, i: nat, r: RecId)
    requires i < |es|
    ensures CutAt(es, DeleteAt(es, i, r), i, RemoveFirst(es[i].recIds, r))
  {
  }

  lemma DeleteShape(es: seq<Entry>, k: Key, r: RecId) returns (i: nat)
    requires Sorted(es) && k in AsMap(es)
    ensures IsPlace(es, k, true, i) && AsMap(es)[k] == es[i].recIds
    ensures Sorted(DeleteOn(es, k, r))
    ensures CutAt(es, DeleteOn(es, k, r), i, RemoveFirst(es[i].recIds, r))
  {
    var found, j := MapAt(es, k);
    i := j;
    DeleteAtIsDeleteOn(es, k, r, i);
    DeleteAtCuts(es, i, r);
    DeleteOnSorted(es, k, r);
  }

  lemma DeleteMapAt(es: seq<Entry>, k: Key, r: RecId, x: Key)
    requires Sorted(es) && k in AsMap(es) && x != k
    ensures var t := AsMap(DeleteOn(es, k, r));
            && (x in t <==> x in AsMap(es))
            && (x in t ==> t[x] == AsMap(es)[x])
  {
    var i := DeleteShape(es, k, r);
    var t, rs := DeleteOn(es, k, r), RemoveFirst(es[i].recIds, r);
    var hit, j := MapAt(es, x);
    if hit {
      AsMapHit(t, if rs == [] && j > i then j - 1 else j);
    } else {
      CutKeys(es, t, i, rs, x);
      AsMapMiss(t, x);
    }
  }

  lemma CutKeys(es: seq<Entry>, t: seq<Entry>, i: nat, rs: seq<RecId>, x: Key)
    requires i < |es| && CutAt(es, t, i, rs)
    requires forall j | 0 <= j < |es| && (rs != [] || j != i) :: es[j].key != x
    ensures forall m | 0 <= m < |t| :: t[m].key != x
  {
    forall m | 0 <= m < |t| ensures t[m].key != x {
      var j := if rs == [] && m >= i then m + 1 else m;
      assert es[j].key != x;
    }
  }

  lemma DeleteMapAtKey(es: seq<Entry>, k: Key, r: RecId)
    requires Sorted(es) && k in AsMap(es)
    ensures var t, rs := AsMap(DeleteOn(es, k, r)), RemoveFirst(AsMap(es)[k], r);
            && (k in t <==> rs != []) && (k in t ==> t[k] == rs)
  {
    var i := DeleteShape(es, k, r);
    var t, rs := DeleteOn(es, k, r), RemoveFirst(es[i].recIds, r);
    if rs != [] {
      AsMapHit(t, i);
    } else {
      CutKeys(es, t, i, rs, k);
      AsMapMiss(t, k);
    }
  }

  lemma DeleteOnMissing(es: seq<Entry>, k: Key, r: RecId)
    requires Sorted(es) && k !in AsMap(es)
    ensures DeleteOn(es, k, r) == es
  {
    var found, i := MapAt(es, k);
    assert es == es[..i] + [] + es[i..];
    DeleteOnConcat(es[..i], [], es[i..], k, r);
  }

  /** RemoveFirst takes out the first r and nothing else. */
  lemma {:induction false} RemoveFirstIs(rs: seq<RecId>, r: RecId)
    ensures r !in rs ==> RemoveFirst(rs, r) == rs
    ensures forall p | 0 <= p < |rs| && rs[p] == r && r !in rs[..p] :: RemoveFirst(rs, r) == rs[..p] + rs[p + 1..]
  {
    if rs != [] {
      RemoveFirstIs(rs[1..], r);
      forall p | 0 <= p < |rs| && rs[p] == r && r !in rs[..p] ensures RemoveFirst(rs, r) == rs[..p] + rs[p + 1..] {
        if p > 0 {
          assert rs[..p][0] == rs[0] && rs[..p][1..] == rs[1..][..p - 1];
          assert rs[..p] == [rs[0]] + rs[1..][..p - 1];
        }
      }
    }
  }

  lemma HasIs(es: seq<Entry>, k: Key, r: RecId)
    requires Sorted(es)
    ensures Has(es, k, r) <==> k in AsMap(es) && r in AsMap(es)[k]
  {
    var found, i := MapAt(es, k);
    if found && r in es[i].recIds { assert es[i].key == k; }
    if j :| 0 <= j < |es| && es[j].key == k && r in es[j].recIds { AsMapHit(es, j); }
  }

  /** Deleting takes the first r off k's list, drops k when that empties it, and changes
      the map nowhere else. */
  lemma DeleteOnMap(es: seq<Entry>, k: Key, r: RecId)
    requires Sorted(es)
    ensures k !in AsMap(es) ==> DeleteOn(es, k, r) == es
    ensures k in AsMap(es) ==>
              var rs := RemoveFirst(AsMap(es)[k], r);
              AsMap(DeleteOn(es, k, r)) == if rs == [] then AsMap(es) - {k} else AsMap(es)[k := rs]
  {
    if k !in AsMap(es) {
      DeleteOnMissing(es, k, r);
    } else {
      var t, m := AsMap(DeleteOn(es, k, r)), AsMap(es);
      DeleteMapAtKey(es, k, r);
      forall x | x != k ensures (x in t <==> x in m) && (x in t ==> t[x] == m[x]) {
        DeleteMapAt(es, k, r, x);
      }
    }
  }

  lemma {:induction false} PairsConcat(a: seq<Entry>, b: seq<Entry>)
    ensures Pairs(a + b) == Pairs(a) + Pairs(b)
  {
    if a == [] {
      assert a + b == b;
    } else {
      assert (a + b)[1..] == a[1..] + b;
      PairsConcat(a[1..], b);
      assert Pairs(a + b) == ListPairs(a[0].key, a[0].recIds) + (Pairs(a[1..]) + Pairs(b));
    }
  }
}
