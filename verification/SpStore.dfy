/** What a slotted file stores: for each page its records, None where one was deleted, and the
    offset where the free space ends. Records go in at the first page with room; deleting one
    compacts the page when more than half of it would be free (sp.c). */
module SpStore {
  import opened SpBytes

  const PF_PAGE_SIZE := 4096
  const SP_HEADER := 20
  const SP_SLOT := 8

  datatype Option<T> = None | Some(value: T)

  type Rec = seq<Byte>

  datatype Pg = Pg(recs: seq<Option<Rec>>, free: int)

  datatype Rid = Rid(page: nat, slot: nat)

  type Store = seq<Pg>

  /** Where the slot directory ends when it has n slots. */
  function Dir(n: int): int { SP_HEADER + SP_SLOT * n }

  ghost function SizeOf(r: Option<Rec>): nat { if r.Some? then |r.value| else 0 }

  /** The bytes of the live records. */
  ghost function Used(recs: seq<Option<Rec>>): nat {
    if |recs| == 0 then 0 else Used(recs[..|recs| - 1]) + SizeOf(recs[|recs| - 1])
  }

  /** The free bytes between the directory and the records. */
  ghost function Gap(pg: Pg): int { pg.free - Dir(|pg.recs|) }

  /** All the free bytes, those of deleted records included. */
  ghost function Total(pg: Pg): int { PF_PAGE_SIZE - Dir(|pg.recs|) - Used(pg.recs) }

  /** The bytes of deleted records that no compaction has reclaimed. */
  ghost function Dead(pg: Pg): int { Total(pg) - Gap(pg) }

  ghost predicate SpaceOk(pg: Pg) { pg.free <= PF_PAGE_SIZE && Gap(pg) >= 0 && 0 <= Dead(pg) <= PF_PAGE_SIZE / 2 }

  ghost predicate StoreOk(st: Store) { forall i | 0 <= i < |st| :: SpaceOk(st[i]) }

  // ---- the operations on one page ----

  ghost predicate HasRoom(pg: Pg, r: Rec) { Gap(pg) >= |r| + SP_SLOT }

  const NEW_PAGE := Pg([], PF_PAGE_SIZE)

  ghost function Added(pg: Pg, r: Rec): Pg { Pg(pg.recs + [Some(r)], pg.free - |r|) }

  ghost function Removed(pg: Pg, slot: nat): Pg
    requires slot < |pg.recs|
  {
    if pg.recs[slot].None? then pg
    else
      var gone := Pg(pg.recs[slot := None], pg.free);
      if Total(gone) > PF_PAGE_SIZE / 2 then Compacted(gone) else gone
  }

  ghost function Compacted(pg: Pg): Pg { Pg(pg.recs, PF_PAGE_SIZE - Used(pg.recs)) }

  // ---- the operations on the file ----

  /** The first page from i on with room for the record, or one past the last page. */
  ghost function FirstFit(st: Store, r: Rec, i: nat): (p: nat)
    requires i <= |st|
    ensures i <= p <= |st| && (p < |st| ==> HasRoom(st[p], r))
    ensures forall j | i <= j < p :: !HasRoom(st[j], r)
    decreases |st| - i
  {
    if i == |st| || HasRoom(st[i], r) then i else FirstFit(st, r, i + 1)
  }

  ghost function RidFor(st: Store, r: Rec): Rid {
    var p := FirstFit(st, r, 0);
    Rid(p, if p < |st| then |st[p].recs| else 0)
  }

  ghost function Inserted(st: Store, r: Rec): Store {
    var p := FirstFit(st, r, 0);
    if p < |st| then st[p := Added(st[p], r)] else st + [Added(NEW_PAGE, r)]
  }

  /** A page that does not exist is an error; a slot must be one the page has handed out. */
  ghost predicate CanDelete(st: Store, rid: Rid) { rid.page < |st| ==> rid.slot < |st[rid.page].recs| }

  ghost function Deleted(st: Store, rid: Rid): Store
    requires CanDelete(st, rid)
  {
    if rid.page < |st| then st[rid.page := Removed(st[rid.page], rid.slot)] else st
  }

  /** The record a RID names, if it was handed out and not deleted. */
  ghost function Lookup(st: Store, rid: Rid): Option<Rec> {
    if Issued(st, rid) then st[rid.page].recs[rid.slot] else None
  }

  ghost predicate Issued(st: Store, rid: Rid) { rid.page < |st| && rid.slot < |st[rid.page].recs| }

  // ---- space ----

  lemma {:induction false} UsedSet(recs: seq<Option<Rec>>, i: nat)
    requires i < |recs|
    ensures Used(recs[i := None]) == Used(recs) - SizeOf(recs[i])
  {
    var n := |recs| - 1;
    var rest := recs[i := None];
    if i < n {
      assert rest[..n] == recs[..n][i := None];
      UsedSet(recs[..n], i);
    } else {
      assert rest[..n] == recs[..n];
    }
  }

  lemma UsedMore(recs: seq<Option<Rec>>, r: Rec)
    ensures Used(recs + [Some(r)]) == Used(recs) + |r|
  {
    var more := recs + [Some(r)];
    assert more[..|recs|] == recs;
  }

  /** An insert leaves the dead bytes as they are; a delete adds the record's, or compacts them all away. */
  lemma AddedDead(pg: Pg, r: Rec)
    requires SpaceOk(pg) && HasRoom(pg, r)
    ensures SpaceOk(Added(pg, r)) && Dead(Added(pg, r)) == Dead(pg)
    ensures Gap(Added(pg, r)) == Gap(pg) - |r| - SP_SLOT && Total(Added(pg, r)) == Total(pg) - |r| - SP_SLOT
  {
    UsedMore(pg.recs, r);
  }

  lemma RemovedDead(pg: Pg, slot: nat)
    requires SpaceOk(pg) && slot < |pg.recs|
    ensures SpaceOk(Removed(pg, slot)) && Total(Removed(pg, slot)) == Total(pg) + SizeOf(pg.recs[slot])
    ensures Dead(Removed(pg, slot)) == if pg.recs[slot].Some? && Total(pg) + SizeOf(pg.recs[slot]) > PF_PAGE_SIZE / 2
                                       then 0 else Dead(pg) + SizeOf(pg.recs[slot])
  {
    if pg.recs[slot].Some? { UsedSet(pg.recs, slot); }
  }

  lemma InsertKeepsSpace(st: Store, r: Rec)
    requires StoreOk(st) && |r| <= 4068
    ensures StoreOk(Inserted(st, r))
  {
    var p := FirstFit(st, r, 0);
    AddedDead(if p < |st| then st[p] else NEW_PAGE, r);
  }

  lemma DeleteKeepsSpace(st: Store, rid: Rid)
    requires StoreOk(st) && CanDelete(st, rid)
    ensures StoreOk(Deleted(st, rid))
  {
    if rid.page < |st| { RemovedDead(st[rid.page], rid.slot); }
  }

  // ---- records ----

  /** An insert hands out a RID never handed out before, and changes no other record. */
  lemma InsertLookup(st: Store, r: Rec, rid: Rid)
    ensures !Issued(st, RidFor(st, r)) && Issued(Inserted(st, r), RidFor(st, r))
    ensures Issued(st, rid) ==> Issued(Inserted(st, r), rid)
    ensures Issued(Inserted(st, r), rid) ==> Issued(st, rid) || rid == RidFor(st, r)
    ensures Lookup(Inserted(st, r), rid) == if rid == RidFor(st, r) then Some(r) else Lookup(st, rid)
  {
  }

  /** A delete makes its own record None and changes no other. */
  lemma DeleteLookup(st: Store, gone: Rid, rid: Rid)
    requires CanDelete(st, gone)
    ensures Issued(Deleted(st, gone), rid) <==> Issued(st, rid)
    ensures Lookup(Deleted(st, gone), rid) == if rid == gone then None else Lookup(st, rid)
  {
  }

  // ---- the order of a scan ----

  ghost predicate Before(a: Rid, b: Rid) { a.page < b.page || (a.page == b.page && a.slot < b.slot) }

  ghost predicate Live(st: Store, rid: Rid) { Lookup(st, rid).Some? }

  /** The first live RID at (p, s) or after it. */
  ghost function NextLive(st: Store, p: nat, s: nat): Option<Rid>
    decreases |st| - p, if p < |st| then |st[p].recs| - s else 0
  {
    if p >= |st| then None
    else if s >= |st[p].recs| then NextLive(st, p + 1, 0)
    else if st[p].recs[s].Some? then Some(Rid(p, s))
    else NextLive(st, p, s + 1)
  }

  lemma {:induction false} NextLiveIsNext(st: Store, p: nat, s: nat, rid: Rid)
    requires Live(st, rid) && !Before(rid, Rid(p, s))
    ensures var r := NextLive(st, p, s);
            r.Some? && Live(st, r.value) && !Before(r.value, Rid(p, s)) && !Before(rid, r.value)
    decreases |st| - p, if p < |st| then |st[p].recs| - s else 0
  {
    if s >= |st[p].recs| {
      NextLiveIsNext(st, p + 1, 0, rid);
    } else if st[p].recs[s].None? {
      NextLiveIsNext(st, p, s + 1, rid);
    }
  }

  lemma {:induction false} NextLiveIsLive(st: Store, p: nat, s: nat)
    ensures var r := NextLive(st, p, s); r.Some? ==> Live(st, r.value) && !Before(r.value, Rid(p, s))
    decreases |st| - p, if p < |st| then |st[p].recs| - s else 0
  {
    if p < |st| {
      if s >= |st[p].recs| {
        NextLiveIsLive(st, p + 1, 0);
      } else if st[p].recs[s].None? {
        NextLiveIsLive(st, p, s + 1);
      }
    }
  }
}
