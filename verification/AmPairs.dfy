/** The (key, recId) pairs of an index as a scan lists them: what deleting, keeping and
    selecting by key do to that list. */
module AmPairs {
  import opened Sequences
  import opened AmEntries

  ghost function DropFirst<T>(s: seq<T>, x: T): seq<T> {
    if s == [] then [] else if s[0] == x then s[1..] else [s[0]] + DropFirst(s[1..], x)
  }

  lemma {:induction false} DropFirstAt<T>(a: seq<T>, x: T, b: seq<T>)
    requires x !in a
    ensures DropFirst(a + [x] + b, x) == a + b
  {
    if a == [] {
      assert [] + [x] + b == [x] + b;
    } else {
      assert (a + [x] + b)[1..] == a[1..] + [x] + b;
      DropFirstAt(a[1..], x, b);
      assert [a[0]] + (a[1..] + b) == a + b;
    }
  }

  /** Dropping x from the middle part, when x is in it and not before it. */
  lemma {:induction false} DropFirstIn<T>(a: seq<T>, m: seq<T>, b: seq<T>, x: T)
    requires x !in a && x in m
    ensures DropFirst(a + m + b, x) == a + DropFirst(m, x) + b
  {
    if a == [] {
      assert a + m + b == m + b && a + DropFirst(m, x) + b == DropFirst(m, x) + b;
      if m[0] == x {
        assert (m + b)[1..] == m[1..] + b;
      } else {
        assert (m + b)[1..] == [] + m[1..] + b;
        DropFirstIn([], m[1..], b, x);
        assert [m[0]] + ([] + DropFirst(m[1..], x) + b) == DropFirst(m, x) + b;
      }
    } else {
      assert (a + m + b)[1..] == a[1..] + m + b;
      DropFirstIn(a[1..], m, b, x);
      assert [a[0]] + (a[1..] + DropFirst(m, x) + b) == a + DropFirst(m, x) + b;
    }
  }

  lemma {:induction false} ListPairsDrop(k: Key, rs: seq<RecId>, r: RecId)
    ensures ListPairs(k, RemoveFirst(rs, r)) == DropFirst(ListPairs(k, rs), (k, r))
  {
    if rs != [] {
      ListPairsDrop(k, rs[1..], r);
      assert ListPairs(k, rs)[1..] == ListPairs(k, rs[1..]);
      if rs[0] != r {
        assert ListPairs(k, [rs[0]] + RemoveFirst(rs[1..], r)) == [(k, rs[0])] + ListPairs(k, RemoveFirst(rs[1..], r));
      }
    }
  }

  /** A key of a pair is the key of an entry. */
  lemma {:induction false} PairFrom(es: seq<Entry>, x: nat) returns (i: nat)
    requires x < |Pairs(es)|
    ensures i < |es| && es[i].key == Pairs(es)[x].0 && Pairs(es)[x].1 in es[i].recIds
  {
    var n := |es[0].recIds|;
    if x < n {
      i := 0;
    } else {
      i := PairFrom(es[1..], x - n);
      i := i + 1;
    }
  }

  lemma PairsEmpty(es: seq<Entry>)
    requires NoEmptyList(es)
    ensures Pairs(es) == [] ==> es == []
  {
    if es != [] {
      assert |ListPairs(es[0].key, es[0].recIds)| > 0;
    }
  }

  lemma PairsAround(a: seq<Entry>, e: Entry, b: seq<Entry>)
    ensures Pairs(a + [e] + b) == Pairs(a) + ListPairs(e.key, e.recIds) + Pairs(b)
  {
    PairsConcat(a + [e], b);
    PairsConcat(a, [e]);
    assert [e][1..] == [] && Pairs([e]) == ListPairs(e.key, e.recIds) + [];
  }

  lemma PairsDropAt(a: seq<Entry>, e: Entry, b: seq<Entry>, r: RecId)
    requires r in e.recIds && forall x | 0 <= x < |a| :: a[x].key != e.key
    ensures var rs := RemoveFirst(e.recIds, r);
            DropFirst(Pairs(a + [e] + b), (e.key, r)) == Pairs(a) + ListPairs(e.key, rs) + Pairs(b)
  {
    var k := e.key;
    PairsAround(a, e, b);
    forall x | 0 <= x < |Pairs(a)| ensures Pairs(a)[x] != (k, r) {
      var y := PairFrom(a, x);
    }
    InList(e.recIds, k, r);
    DropFirstIn(Pairs(a), ListPairs(k, e.recIds), Pairs(b), (k, r));
    ListPairsDrop(k, e.recIds, r);
  }

  lemma PairsCut(es: seq<Entry>, i: nat, r: RecId)
    requires i < |es|
    ensures Pairs(DeleteAt(es, i, r))
            == Pairs(es[..i]) + ListPairs(es[i].key, RemoveFirst(es[i].recIds, r)) + Pairs(es[i + 1..])
  {
    var a, k, b, rs := es[..i], es[i].key, es[i + 1..], RemoveFirst(es[i].recIds, r);
    hide Pairs;
    if rs == [] {
      PairsConcat(a, b);
      assert Pairs(a) + ListPairs(k, rs) == Pairs(a);
    } else {
      PairsAround(a, Entry(k, rs), b);
      assert es[i := Entry(k, rs)] == a + [Entry(k, rs)] + b;
    }
  }

  /** Deleting from an index drops the first such pair from its list of pairs. */
  lemma PairsDelete(es: seq<Entry>, k: Key, r: RecId)
    requires Sorted(es) && Has(es, k, r)
    ensures Pairs(DeleteOn(es, k, r)) == DropFirst(Pairs(es), (k, r))
  {
    hide DropFirst, Pairs, DeleteAt, DeleteOn;
    var found, i := MapAt(es, k);
    DeleteAtIsDeleteOn(es, k, r, i);
    SplitSeq(es, i);
    PairsDropAt(es[..i], es[i], es[i + 1..], r);
    PairsCut(es, i, r);
  }

  lemma InList(rs: seq<RecId>, k: Key, r: RecId)
    requires r in rs
    ensures (k, r) in ListPairs(k, rs)
  {
    var x :| 0 <= x < |rs| && rs[x] == r;
    assert ListPairs(k, rs)[x] == (k, r);
  }

  /** Which records a client deletes. */
  type Choice = (Key, RecId) -> bool

  /** The pairs that are not chosen. */
  ghost function Keep(ps: seq<(Key, RecId)>, gone: Choice): seq<(Key, RecId)> {
    if ps == [] then []
    else
      var n := |ps| - 1;
      Keep(ps[..n], gone) + if gone(ps[n].0, ps[n].1) then [] else [ps[n]]
  }

  lemma {:induction false} KeepNone(ps: seq<(Key, RecId)>, gone: Choice)
    ensures forall p | p in Keep(ps, gone) :: !gone(p.0, p.1)
    ensures (forall p | p in ps :: gone(p.0, p.1)) ==> Keep(ps, gone) == []
  {
    if ps != [] {
      KeepNone(ps[..|ps| - 1], gone);
    }
  }

  /** They are all the pairs that are not chosen, in their order. */
  lemma {:induction false} KeepIs(ps: seq<(Key, RecId)>, gone: Choice) returns (at: seq<nat>)
    ensures |at| == |Keep(ps, gone)| && forall i | 0 <= i < |at| :: at[i] < |ps| && Keep(ps, gone)[i] == ps[at[i]]
    ensures forall i, j | 0 <= i < j < |at| :: at[i] < at[j]
    ensures forall x | 0 <= x < |ps| :: x in at <==> !gone(ps[x].0, ps[x].1)
  {
    if ps == [] {
      at := [];
    } else {
      var n := |ps| - 1;
      var kept := Keep(ps[..n], gone);
      var some := KeepIs(ps[..n], gone);
      assert n !in some;
      at := if gone(ps[n].0, ps[n].1) then some else some + [n];
      assert Keep(ps, gone) == if gone(ps[n].0, ps[n].1) then kept else kept + [ps[n]];
      hide Keep;
      forall x | 0 <= x < n ensures x in at <==> !gone(ps[x].0, ps[x].1) {
        assert ps[..n][x] == ps[x] && (x in at <==> x in some);
      }
    }
  }

  ghost function Ids(ps: seq<(Key, RecId)>): (rs: seq<RecId>)
    ensures |rs| == |ps| && forall i | 0 <= i < |ps| :: rs[i] == ps[i].1
  {
    seq(|ps|, i requires 0 <= i < |ps| => ps[i].1)
  }

  /** The entries with keys from k on, or above k. */
  ghost function KeysFrom(es: seq<Entry>, k: Key, strict: bool): seq<Entry> {
    if es == [] then []
    else (if es[0].key > k || (es[0].key == k && !strict) then [es[0]] else []) + KeysFrom(es[1..], k, strict)
  }

  lemma {:induction false} KeysFromConcat(a: seq<Entry>, b: seq<Entry>, k: Key, strict: bool)
    ensures KeysFrom(a + b, k, strict) == KeysFrom(a, k, strict) + KeysFrom(b, k, strict)
  {
    if a == [] {
      assert a + b == b;
    } else {
      assert (a + b)[1..] == a[1..] + b;
      KeysFromConcat(a[1..], b, k, strict);
      var first := if a[0].key > k || (a[0].key == k && !strict) then [a[0]] else [];
      assert first + (KeysFrom(a[1..], k, strict) + KeysFrom(b, k, strict))
          == (first + KeysFrom(a[1..], k, strict)) + KeysFrom(b, k, strict);
    }
  }

  lemma {:induction false} KeysFromBelow(a: seq<Entry>, k: Key, strict: bool)
    requires AllBelow(a, k)
    ensures KeysFrom(a, k, strict) == []
  {
    if a != [] {
      KeysFromBelow(a[1..], k, strict);
    }
  }

  lemma {:induction false} KeysFromAbove(a: seq<Entry>, k: Key, strict: bool)
    requires AllAbove(a, k)
    ensures KeysFrom(a, k, strict) == a
  {
    if a != [] {
      KeysFromAbove(a[1..], k, strict);
    }
  }

  lemma KeysFromOne(e: Entry, strict: bool)
    ensures KeysFrom([e], e.key, strict) == if strict then [] else [e]
  {
  }

  lemma PlaceSides(es: seq<Entry>, k: Key, found: bool, i: nat)
    requires Sorted(es) && IsPlace(es, k, found, i)
    ensures AllBelow(es[..i], k) && AllAbove(es[if found then i + 1 else i..], k)
  {
  }

  /** In a sorted sequence the entries from k on are a suffix. */
  lemma KeysFromAt(es: seq<Entry>, k: Key, strict: bool, found: bool, i: nat)
    requires Sorted(es) && IsPlace(es, k, found, i)
    ensures KeysFrom(es, k, strict) == if found && strict then es[i + 1..] else es[i..]
  {
    hide KeysFrom;
    PlaceSides(es, k, found, i);
    KeysFromBelow(es[..i], k, strict);
    assert es == es[..i] + es[i..];
    KeysFromConcat(es[..i], es[i..], k, strict);
    if found {
      assert es[i..] == [es[i]] + es[i + 1..];
      KeysFromConcat([es[i]], es[i + 1..], k, strict);
      KeysFromOne(es[i], strict);
      KeysFromAbove(es[i + 1..], k, strict);
    } else {
      KeysFromAbove(es[i..], k, strict);
    }
  }
}
