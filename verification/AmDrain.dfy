/** Deleting from an index while scanning it, as a caller of AM_FindNextEntry and
    AM_DeleteEntry does: each pair comes once, in order, whatever has been deleted behind it. */
module AmDrain {
  import opened AmEntries
  import opened AmTree
  import opened AmLeaves
  import opened AmUpdate
  import opened AmIndex
  import opened AmPairs
  import opened AmCursor
  import opened AmScan

  /** The caller knows the key of each record that it deletes: it finds it in the n-th record. */
  ghost predicate Keyed(ps: seq<(Key, RecId)>, keyOf: nat -> Key, gone: Choice) {
    forall n | 0 <= n < |ps| && (gone(ps[n].0, ps[n].1) || gone(keyOf(n), ps[n].1)) :: keyOf(n) == ps[n].0
  }

  /** Calls AM_FindNextEntry until AME_EOF and deletes the records chosen as they come.  The scan
      returns all recIds of the pairs ps it was opened on, in order, and afterwards the index has
      lost just those of them that were chosen. */
  method Follow(idx: Index, scan: Scan, attrType: char, attrLength: int, keyOf: nat -> Key, gone: Choice,
                ghost pre: seq<(Key, RecId)>, ghost ps: seq<(Key, RecId)>, ghost post: seq<(Key, RecId)>)
      returns (recs: seq<RecId>)
    requires idx.Valid() && |idx.stack| + idx.h <= AM_MAXSTACK
    requires attrType in {'c', 'f', 'i'} && attrLength == idx.c.attrLength
    requires Keyed(ps, keyOf, gone) && Pairs(idx.Content()) == pre + ps + post && forall p | p in ps :: p !in pre
    requires scan.Will(idx, ps)
    modifies idx, scan
    ensures idx.Valid() && recs == Ids(ps)
    ensures Pairs(idx.Content()) == pre + Keep(ps, gone) + post
  {
    hide TreeOk, LeftOk, Contents, Leaves, Scanning, Returned, Has, DeleteOn, CutFrom, Pairs, Keep, ListPairs, LeavesOk;
    ghost var n := 0;
    recs := [];
    LeftAll(pre, ps, post, gone);
    var more := true;
    while more
      invariant 0 <= n <= |ps| && recs == Ids(ps[..n])
      invariant idx.Valid() && |idx.stack| + idx.h <= AM_MAXSTACK
      invariant Pairs(idx.Content()) == Left(pre, ps, post, n, gone)
      invariant scan.Will(idx, ps[n..])
      invariant !more ==> n == |ps|
      decreases |ps| - n, more
    {
      var next := scan.FindNextEntry(idx, ps[n..]);
      if next == Eof {
        more := false;
      } else {
        assert ps[n..][1..] == ps[n + 1..] && ps[n..][0] == ps[n];
        recs := recs + [next.recId];
        IdsStep(ps, n);
        ghost var es := idx.Content();
        LeftStep(pre, ps, post, n, gone);
        var key := keyOf(|recs| - 1);
        if gone(key, next.recId) {
          ghost var f, k, r := idx.pages, ps[n].0, ps[n].1;
          LeavesOfTree(f, idx.ht, idx.h, idx.c);
          ContentsSorted(f, idx.ht, Leaves(f, idx.h), idx.c);
          PairInContents(es, pre + Keep(ps[..n], gone), (k, r), ps[n + 1..] + post);
          var errVal;
          ghost var cut;
          errVal, cut := idx.DeleteEntry(0, attrType, attrLength, Of(key), next.recId);
          ScanSurvivesDelete(scan.Value(), f, idx.ht, idx.h, idx.c, ps[n + 1..], k, r, cut, idx.pages);
          SameLeaves(f, idx.h, k, r, cut, idx.pages);
        }
        n := n + 1;
      }
    }
    assert ps[..n] == ps;
  }

  /** Scans the whole index and deletes the records chosen as they come.  The scan returns all
      recIds in order, and afterwards the index holds the pairs not chosen, in order. */
  method ScanAndDelete(idx: Index, attrType: char, attrLength: int, keyOf: nat -> Key, gone: Choice)
      returns (recs: seq<RecId>)
    requires idx.Valid() && idx.stack == [] && |idx.pages| < 0x8000_0000
    requires attrType in {'c', 'f', 'i'} && attrLength == idx.c.attrLength
    requires Keyed(Pairs(idx.Content()), keyOf, gone)
    modifies idx
    ensures idx.Valid() && recs == Ids(old(Pairs(idx.Content())))
    ensures Pairs(idx.Content()) == Keep(old(Pairs(idx.Content())), gone)
  {
    hide TreeOk, LeftOk, Contents, Leaves, Scanning, Pairs, Keep;
    ghost var ps := Pairs(idx.Content());
    DepthBound(idx.pages, idx.ht, idx.h, idx.c);
    var errVal, scan := OpenIndexScan(idx, 0, attrType, attrLength, ALL, Null);
    assert [] + ps + [] == ps && [] + Keep(ps, gone) + [] == Keep(ps, gone);
    recs := Follow(idx, scan, attrType, attrLength, keyOf, gone, [], ps, []);
  }

  /** A scan for EQUAL, GREATER_THAN or GREATER_THAN_EQUAL to its end: if it opens it returns the
      recIds that the operator selects, in order, and the index loses just those of them that were
      chosen.  (The open leaves a path on the stack, so there must be room for two.) */
  method SelectAndDelete(idx: Index, attrType: char, attrLength: int, op: int, value: Key, keyOf: nat -> Key,
                         gone: Choice) returns (errVal: int, recs: seq<RecId>)
    requires idx.Valid() && idx.stack == [] && 2 * idx.h <= AM_MAXSTACK
    requires op == EQUAL || op == GREATER_THAN || op == GREATER_THAN_EQUAL
    requires attrType in {'c', 'f', 'i'} && attrLength == idx.c.attrLength
    requires Keyed(Wanted(op, idx.Content(), value), keyOf, gone)
    modifies idx
    ensures idx.Valid() && errVal == if old(Opens(idx.pages, idx.h, value)) then AME_OK else AME_PF
    ensures errVal != AME_OK ==> idx.Content() == old(idx.Content())
    ensures errVal == AME_OK && op == EQUAL ==>
              var m := AsMap(old(idx.Content())); recs == if value in m then m[value] else []
    ensures errVal == AME_OK ==>
              exists pre, sel, post ::
                && old(Pairs(idx.Content())) == pre + sel + post && recs == Ids(sel)
                && Pairs(idx.Content()) == pre + Keep(sel, gone) + post
                && (forall p | p in sel :: (op == EQUAL && p.0 == value) || (op == GREATER_THAN && p.0 > value)
                                           || (op == GREATER_THAN_EQUAL && p.0 >= value))
                && (forall p | p in pre + post :: !(op == EQUAL && p.0 == value) && !(op == GREATER_THAN && p.0 > value)
                                                  && !(op == GREATER_THAN_EQUAL && p.0 >= value))
  {
    hide TreeOk, LeftOk, Contents, Leaves, Scanning, Pairs, Keep, Wanted, Opens, LeavesOk;
    ghost var es := idx.Content();
    LeavesOfTree(idx.pages, idx.ht, idx.h, idx.c);
    ContentsSorted(idx.pages, idx.ht, Leaves(idx.pages, idx.h), idx.c);
    ghost var pre, post := WantedSlice(op, es, value);
    var scan;
    errVal, scan := OpenIndexScan(idx, 0, attrType, attrLength, op, Of(value));
    recs := [];
    if errVal == AME_OK {
      recs := Follow(idx, scan, attrType, attrLength, keyOf, gone, pre, Wanted(op, es, value), post);
      WantedEqual(es, value);
    }
  }

  /** An EQUAL scan is for the whole list of its key. */
  lemma WantedEqual(es: seq<Entry>, k: Key)
    ensures var m := AsMap(es); Ids(Wanted(EQUAL, es, k)) == if k in m then m[k] else []
  {
  }

  /** Every record. */
  const ALL_GONE: Choice := (_, _) => true

  /** Draining: with every record deleted as it comes, the scan still returns everything in
      order, and leaves the index empty. */
  method Drain(idx: Index, attrType: char, attrLength: int, keyOf: nat -> Key) returns (recs: seq<RecId>)
    requires idx.Valid() && idx.stack == [] && |idx.pages| < 0x8000_0000
    requires attrType in {'c', 'f', 'i'} && attrLength == idx.c.attrLength
    requires Keyed(Pairs(idx.Content()), keyOf, ALL_GONE)
    modifies idx
    ensures idx.Valid() && recs == Ids(old(Pairs(idx.Content()))) && idx.Content() == []
  {
    hide TreeOk, LeftOk, Contents, Leaves, Pairs, Keep;
    ghost var ps := Pairs(idx.Content());
    recs := ScanAndDelete(idx, attrType, attrLength, keyOf, ALL_GONE);
    KeepNone(ps, ALL_GONE);
    LeavesOfTree(idx.pages, idx.ht, idx.h, idx.c);
    ContentsSorted(idx.pages, idx.ht, Leaves(idx.pages, idx.h), idx.c);
    PairsEmpty(idx.Content());
  }

  /** What an operator selects is a stretch of the pairs of the index, and none of it comes before. */
  lemma WantedSlice(op: int, es: seq<Entry>, k: Key)
      returns (pre: seq<(Key, RecId)>, post: seq<(Key, RecId)>)
    requires Sorted(es) && (op == EQUAL || op == GREATER_THAN || op == GREATER_THAN_EQUAL)
    ensures Pairs(es) == pre + Wanted(op, es, k) + post
    ensures forall p | p in Wanted(op, es, k) ::
              (op == EQUAL && p.0 == k) || (op == GREATER_THAN && p.0 > k) || (op == GREATER_THAN_EQUAL && p.0 >= k)
    ensures forall p | p in pre + post ::
              !(op == EQUAL && p.0 == k) && !(op == GREATER_THAN && p.0 > k) && !(op == GREATER_THAN_EQUAL && p.0 >= k)
  {
    hide Pairs, Keep, KeysFrom, AsMap, ListPairs;
    var found, i := MapAt(es, k);
    PlaceKeyIs(es, k, found, i);
    var x := if op == GREATER_THAN && found then i + 1 else i;
    var y := if op != EQUAL then |es| else if found then i + 1 else i;
    pre, post := Pairs(es[..x]), Pairs(es[y..]);
    assert es == es[..x] + es[x..y] + es[y..];
    PairsConcat(es[..x] + es[x..y], es[y..]);
    PairsConcat(es[..x], es[x..y]);
    NoPairs(k);
    if op != EQUAL {
      KeysFromAt(es, k, op == GREATER_THAN, found, i);
      assert es[x..y] == es[x..];
    } else if found {
      var list := ListPairs(k, es[i].recIds);
      assert es[x..y] == [es[i]] + [];
      PairsOne(es[i], []);
      assert list + [] == list;
    } else {
      assert es[x..y] == [];
    }
    assert Pairs(es[x..y]) == Wanted(op, es, k);
    assert es[..x] == es[0..x] && es[y..] == es[y..|es|];
    KeysOf(es, 0, x);
    KeysOf(es, x, y);
    KeysOf(es, y, |es|);
    BelowAbove(es, k, found, i);
  }

  lemma BelowAbove(es: seq<Entry>, k: Key, found: bool, i: nat)
    requires Sorted(es) && IsPlace(es, k, found, i)
    ensures forall j | 0 <= j < |es| ::
              (es[j].key < k <==> j < i) && (es[j].key == k <==> found && j == i)
  {
  }

  /** The keys of the pairs of a stretch of entries are those of the entries. */
  lemma KeysOf(es: seq<Entry>, x: nat, y: nat)
    requires x <= y <= |es|
    ensures forall p | p in Pairs(es[x..y]) :: exists j :: x <= j < y && es[j].key == p.0
  {
    hide Pairs;
    forall p | p in Pairs(es[x..y]) ensures exists j :: x <= j < y && es[j].key == p.0 {
      var u :| 0 <= u < |Pairs(es[x..y])| && Pairs(es[x..y])[u] == p;
      var i := PairFrom(es[x..y], u);
      assert es[x + i].key == p.0;
    }
  }

  /** The pairs of the index when the scan has returned the first n of ps. */
  ghost function Left(pre: seq<(Key, RecId)>, ps: seq<(Key, RecId)>, post: seq<(Key, RecId)>, n: nat, gone: Choice)
      : seq<(Key, RecId)>
    requires n <= |ps|
  {
    pre + Keep(ps[..n], gone) + (ps[n..] + post)
  }

  lemma LeftStep(pre: seq<(Key, RecId)>, ps: seq<(Key, RecId)>, post: seq<(Key, RecId)>, n: nat, gone: Choice)
    requires n < |ps| && forall p | p in ps :: p !in pre
    ensures Left(pre, ps, post, n, gone) == pre + Keep(ps[..n], gone) + [ps[n]] + (ps[n + 1..] + post)
    ensures gone(ps[n].0, ps[n].1) ==> ps[n] !in pre + Keep(ps[..n], gone)
    ensures gone(ps[n].0, ps[n].1) ==>
              Left(pre, ps, post, n + 1, gone) == pre + Keep(ps[..n], gone) + (ps[n + 1..] + post)
    ensures !gone(ps[n].0, ps[n].1) ==> Left(pre, ps, post, n + 1, gone) == Left(pre, ps, post, n, gone)
  {
    hide Keep;
    KeepStep(ps, n, gone);
    assert ps[n..] == [ps[n]] + ps[n + 1..];
  }

  lemma LeftAll(pre: seq<(Key, RecId)>, ps: seq<(Key, RecId)>, post: seq<(Key, RecId)>, gone: Choice)
    ensures Left(pre, ps, post, 0, gone) == pre + ps + post
    ensures Left(pre, ps, post, |ps|, gone) == pre + Keep(ps, gone) + post
  {
    hide Keep;
    KeepStart(ps, gone);
    assert ps[..|ps|] == ps && ps[|ps|..] == [];
    assert pre + [] == pre && [] + post == post && pre + (ps + post) == pre + ps + post;
  }

  lemma KeepStart(ps: seq<(Key, RecId)>, gone: Choice)
    ensures Keep(ps[..0], gone) == [] && ps[0..] == ps && Ids(ps[..0]) == []
  {
  }

  lemma KeepStep(ps: seq<(Key, RecId)>, n: nat, gone: Choice)
    requires n < |ps|
    ensures Keep(ps[..n + 1], gone) == Keep(ps[..n], gone) + (if gone(ps[n].0, ps[n].1) then [] else [ps[n]])
    ensures Keep(ps[..n], gone) + ps[n..] == Keep(ps[..n], gone) + [ps[n]] + ps[n + 1..]
    ensures gone(ps[n].0, ps[n].1) ==> ps[n] !in Keep(ps[..n], gone)
    ensures gone(ps[n].0, ps[n].1) ==> Keep(ps[..n + 1], gone) == Keep(ps[..n], gone)
  {
    assert ps[..n + 1][..n] == ps[..n];
    assert ps[n..] == [ps[n]] + ps[n + 1..];
    KeepNone(ps[..n], gone);
  }

  lemma IdsStep(ps: seq<(Key, RecId)>, n: nat)
    requires n < |ps|
    ensures Ids(ps[..n + 1]) == Ids(ps[..n]) + [ps[n].1]
  {
  }

  /** The pair that comes next is in the index, and deleting it takes just it off the list. */
  lemma PairInContents(es: seq<Entry>, a: seq<(Key, RecId)>, p: (Key, RecId), b: seq<(Key, RecId)>)
    requires Sorted(es) && Pairs(es) == a + [p] + b && p !in a
    ensures Has(es, p.0, p.1) && Pairs(DeleteOn(es, p.0, p.1)) == a + b
  {
    hide Pairs, DeleteOn;
    assert Pairs(es)[|a|] == p;
    var i := PairFrom(es, |a|);
    PairsDelete(es, p.0, p.1);
    DropFirstAt(a, p, b);
  }

  lemma SameLeaves(f: File, h: nat, k: Key, r: RecId, cut: Cut, g: File)
    requires CutFrom(f, h, k, r, cut, g)
    ensures Leaves(g, h) == Leaves(f, h)
  {
  }
}
