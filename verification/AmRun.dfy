/** Whole runs of the index, and the insertions that amlayer cannot carry out: exactly those
    that make AM_Compact work on an empty range of keys. */
module AmRun {
  import opened AmEntries
  import opened AmLeafPage
  import opened AmLeafSteps
  import opened AmHalves
  import opened AmTree
  import opened AmLeaves
  import opened AmUpdate
  import opened AmIndex

  datatype Op = Insert(key: Key, recId: RecId) | Delete(key: Key, recId: RecId)

  ghost function Apply(op: Op, es: seq<Entry>): seq<Entry> {
    match op
    case Insert(k, r) => InsertOn(es, k, r)
    case Delete(k, r) => DeleteOn(es, k, r)
  }

  ghost function ApplyAll(ops: seq<Op>): seq<Entry> {
    if ops == [] then [] else Apply(ops[|ops| - 1], ApplyAll(ops[..|ops| - 1]))
  }

  /** The same run on a map from keys to lists of recIds. */
  ghost function MapAll(ops: seq<Op>): map<Key, seq<RecId>> {
    if ops == [] then map[]
    else
      var m := MapAll(ops[..|ops| - 1]);
      match ops[|ops| - 1]
      case Insert(k, r) => m[k := [r] + Lookup(m, k)]
      case Delete(k, r) =>
        var rs := RemoveFirst(Lookup(m, k), r);
        if rs == [] then m - {k} else m[k := rs]
  }

  /** An index run keeps exactly the map. */
  lemma {:induction false} RunIsMap(ops: seq<Op>)
    ensures Sorted(ApplyAll(ops)) && NoEmptyList(ApplyAll(ops)) && AsMap(ApplyAll(ops)) == MapAll(ops)
  {
    if ops != [] {
      var es := ApplyAll(ops[..|ops| - 1]);
      RunIsMap(ops[..|ops| - 1]);
      match ops[|ops| - 1]
      case Insert(k, r) =>
        InsertOnSorted(es, k, r);
        InsertOnMap(es, k, r);
      case Delete(k, r) =>
        DeleteOnSorted(es, k, r);
        DeleteOnMap(es, k, r);
        if k !in AsMap(es) { assert AsMap(es) - {k} == AsMap(es); }
    }
  }

  ghost function InsertCount(ops: seq<Op>, k: Key): nat {
    if ops == [] then 0
    else InsertCount(ops[..|ops| - 1], k) + if ops[|ops| - 1].Insert? && ops[|ops| - 1].key == k then 1 else 0
  }

  lemma {:induction false} RemoveFirstShorter(rs: seq<RecId>, r: RecId)
    ensures |RemoveFirst(rs, r)| <= |rs|
  {
    if rs != [] {
      RemoveFirstShorter(rs[1..], r);
    }
  }

  /** A key has no more recIds than were inserted under it. */
  lemma {:induction false} ListAtMostInserted(ops: seq<Op>, k: Key)
    ensures |Lookup(MapAll(ops), k)| <= InsertCount(ops, k)
  {
    if ops != [] {
      var m := MapAll(ops[..|ops| - 1]);
      ListAtMostInserted(ops[..|ops| - 1], k);
      if ops[|ops| - 1].Delete? {
        RemoveFirstShorter(Lookup(m, ops[|ops| - 1].key), ops[|ops| - 1].recId);
      }
    }
  }

  /** A run that amlayer can carry out: no key ever has more than max recIds, and deletions
      are of pairs in the index (a failing deletion leaves its path on the stack). */
  ghost predicate Orderly(ops: seq<Op>, max: int) {
    forall i | 0 <= i < |ops| ::
      match ops[i]
      case Insert(k, r) => |Lookup(AsMap(ApplyAll(ops[..i])), k)| < max
      case Delete(k, r) => Has(ApplyAll(ops[..i]), k, r)
  }

  /** A run that inserts each key at most max times, and deletes what is there, is orderly. */
  lemma FewInsertsOrderly(ops: seq<Op>, max: int)
    requires forall i | 0 <= i < |ops| ::
               if ops[i].Insert? then InsertCount(ops[..i], ops[i].key) < max
               else Has(ApplyAll(ops[..i]), ops[i].key, ops[i].recId)
    ensures Orderly(ops, max)
  {
    forall i | 0 <= i < |ops| && ops[i].Insert?
      ensures |Lookup(AsMap(ApplyAll(ops[..i])), ops[i].key)| < max
    {
      ListAtMostInserted(ops[..i], ops[i].key);
      RunIsMap(ops[..i]);
    }
  }

  /** The most new pages one insertion can take, for any file with int page numbers. */
  const GROWTH := 32

  /** Every orderly run from AM_CreateIndex on succeeds, keeps the tree and holds what the
      same run on a sorted list of entries holds. */
  method Run(attrType: char, attrLength: int, ops: seq<Op>) returns (index: Index)
    requires (attrType == 'c' && 1 <= attrLength <= 255) || ((attrType == 'i' || attrType == 'f') && attrLength == 4)
    requires Orderly(ops, (985 - 2 * attrLength) / 6) && GROWTH * |ops| + 1 < 0x8000_0000
    ensures index.Valid() && index.Content() == ApplyAll(ops) && index.stack == []
    ensures RoomyFile(index.pages, index.h)
    ensures fresh(index) && index.c.attrLength == attrLength && |index.pages| <= GROWTH * |ops| + 1
  {
    hide TreeOk, LeftOk, RoomyFile, Contents, Leaves, Takes, InsertOn, DeleteOn, Has, AsMap, Lookup, MaxRecIds, CutFrom;
    MaxRecIdsIs(attrLength);
    var errVal, created := CreateIndex(attrType, attrLength, ALL_WELL);
    index := created;
    var i := 0;
    while i < |ops|
      invariant 0 <= i <= |ops| && fresh(index)
      invariant index.Valid() && index.Content() == ApplyAll(ops[..i]) && index.stack == []
      invariant index.c.attrLength == attrLength && RoomyFile(index.pages, index.h)
      invariant |index.pages| <= GROWTH * i + 1
    {
      assert ops[..i + 1][..i] == ops[..i];
      DepthBound(index.pages, index.ht, index.h, index.c);
      match ops[i] {
        case Insert(k, r) =>
          RoomyTakes(index.pages, index.h, k);
          var status := index.InsertEntry(0, attrType, attrLength, Of(k), r);
        case Delete(k, r) =>
          ghost var f := index.pages;
          var status;
          ghost var cut;
          status, cut := index.DeleteEntry(0, attrType, attrLength, Of(k), r);
          CutSize(f, index.h, k, r, cut, index.pages);
      }
      i := i + 1;
    }
    assert ops[..i] == ops;
  }

  lemma MaxRecIdsIs(attrLength: int)
    ensures MaxRecIds(attrLength) == (985 - 2 * attrLength) / 6
  {
  }

  lemma CutSize(f: File, h: nat, k: Key, r: RecId, cut: Cut, g: File)
    requires CutFrom(f, h, k, r, cut, g)
    ensures |g| == |f|
  {
    hide Leaves, Deleted, LeafOk;
  }
}
