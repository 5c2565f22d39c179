/** Whole runs of inserts and deletes on a slotted file. */
module SpHistory {
  import opened SpFile
  import opened SpStore

  datatype Op = Insert(rec: Rec) | Delete(rid: Rid)

  ghost predicate CanStep(st: Store, op: Op) {
    match op
    case Insert(r) => |r| <= 4068
    case Delete(rid) => CanDelete(st, rid)
  }

  ghost function Step(st: Store, op: Op): Store {
    match op
    case Insert(r) => Inserted(st, r)
    case Delete(rid) => if CanDelete(st, rid) then Deleted(st, rid) else st
  }

  /** The file after the operations, starting from an empty one. */
  ghost function Run(ops: seq<Op>): Store {
    if |ops| == 0 then [] else Step(Run(ops[..|ops| - 1]), ops[|ops| - 1])
  }

  /** Every record fits on an empty page, and every delete names a slot its page has handed out. */
  ghost predicate RunOk(ops: seq<Op>) {
    |ops| > 0 ==> RunOk(ops[..|ops| - 1]) && CanStep(Run(ops[..|ops| - 1]), ops[|ops| - 1])
  }

  /** The RID that operation i returned. */
  ghost function RidOf(ops: seq<Op>, i: nat): Rid
    requires i < |ops| && ops[i].Insert?
  {
    RidFor(Run(ops[..i]), ops[i].rec)
  }

  ghost predicate DeletedIn(ops: seq<Op>, i: nat, rid: Rid) {
    exists j :: i < j < |ops| && ops[j] == Delete(rid)
  }

  lemma StepIssues(st: Store, op: Op, rid: Rid)
    ensures Issued(st, rid) ==> Issued(Step(st, op), rid)
    ensures Issued(Step(st, op), rid) && !Issued(st, rid) ==> op.Insert? && rid == RidFor(st, op.rec)
    ensures op.Insert? ==> !Issued(st, RidFor(st, op.rec)) && Issued(Step(st, op), RidFor(st, op.rec))
  {
    match op
    case Insert(r) => InsertLookup(st, r, rid);
    case Delete(gone) => if CanDelete(st, gone) { DeleteLookup(st, gone, rid); }
  }

  lemma StepLookup(st: Store, op: Op, rid: Rid)
    requires CanStep(st, op)
    ensures Lookup(Step(st, op), rid) ==
            if op.Insert? && rid == RidFor(st, op.rec) then Some(op.rec)
            else if op == Delete(rid) then None else Lookup(st, rid)
  {
    match op
    case Insert(r) => InsertLookup(st, r, rid);
    case Delete(gone) => DeleteLookup(st, gone, rid);
  }

  lemma {:induction false} StaysIssued(ops: seq<Op>, i: nat, rid: Rid)
    requires i <= |ops| && Issued(Run(ops[..i]), rid)
    ensures Issued(Run(ops), rid)
  {
    hide Issued, Step;
    var n := |ops| - 1;
    if i == |ops| {
      assert ops[..i] == ops;
    } else {
      assert ops[..n][..i] == ops[..i];
      StaysIssued(ops[..n], i, rid);
      StepIssues(Run(ops[..n]), ops[n], rid);
    }
  }

  lemma RidIssued(ops: seq<Op>, i: nat)
    requires i < |ops| && ops[i].Insert?
    ensures !Issued(Run(ops[..i]), RidOf(ops, i)) && Issued(Run(ops[..i + 1]), RidOf(ops, i))
  {
    hide Issued, Step, RidFor;
    assert ops[..i + 1][..i] == ops[..i];
    StepIssues(Run(ops[..i]), ops[i], RidOf(ops, i));
  }

  /** No RID is handed out twice, even after its record is deleted. */
  lemma NeverReissued(ops: seq<Op>, i: nat, j: nat)
    requires i < j < |ops| && ops[i].Insert? && ops[j].Insert?
    ensures RidOf(ops, i) != RidOf(ops, j)
  {
    hide Issued, Run, RidFor;
    RidIssued(ops, i);
    RidIssued(ops, j);
    assert ops[..j][..i + 1] == ops[..i + 1];
    StaysIssued(ops[..j], i + 1, RidOf(ops, i));
  }

  /** A record is there, byte for byte, until its RID is deleted, and never after. */
  lemma {:induction false} Remembered(ops: seq<Op>, i: nat)
    requires RunOk(ops) && i < |ops| && ops[i].Insert?
    ensures Lookup(Run(ops), RidOf(ops, i)) == if DeletedIn(ops, i, RidOf(ops, i)) then None else Some(ops[i].rec)
  {
    hide Lookup, Step, RidFor;
    var n, rid := |ops| - 1, RidOf(ops, i);
    var before := ops[..n];
    StepLookup(Run(before), ops[n], rid);
    if i < n {
      assert before[..i] == ops[..i];
      Remembered(before, i);
      DeletedLater(ops, i, rid);
      if ops[n].Insert? { NeverReissued(ops, i, n); }
    }
  }

  lemma DeletedLater(ops: seq<Op>, i: nat, rid: Rid)
    requires i < |ops| - 1
    ensures DeletedIn(ops, i, rid) <==> DeletedIn(ops[..|ops| - 1], i, rid) || ops[|ops| - 1] == Delete(rid)
  {
    var n := |ops| - 1;
    var before := ops[..n];
    if j :| i < j < |before| && before[j] == Delete(rid) {
      assert ops[j] == Delete(rid);
    }
    if j :| i < j < |ops| && ops[j] == Delete(rid) {
      assert j == n || before[j] == Delete(rid);
    }
  }

  /** Every RID with a record was returned by an insert of that record. */
  lemma {:induction false} OnlyInserted(ops: seq<Op>, rid: Rid) returns (i: nat)
    requires RunOk(ops) && Live(Run(ops), rid)
    ensures i < |ops| && ops[i].Insert? && RidOf(ops, i) == rid && Lookup(Run(ops), rid) == Some(ops[i].rec)
  {
    hide Lookup, Step, RidFor;
    EmptyHasNone(rid);
    var n := |ops| - 1;
    var before := ops[..n];
    StepLookup(Run(before), ops[n], rid);
    if ops[n].Insert? && rid == RidFor(Run(before), ops[n].rec) {
      i := n;
    } else {
      i := OnlyInserted(before, rid);
      assert before[..i] == ops[..i];
    }
  }

  lemma EmptyHasNone(rid: Rid)
    ensures Lookup([], rid).None?
  {
  }

  /** On every page of every run: the free bytes add up, and at most half a page of them is dead. */
  lemma RunSpace(ops: seq<Op>, i: nat)
    requires RunOk(ops) && i < |Run(ops)|
    ensures var pg := Run(ops)[i];
            && Dir(|pg.recs|) <= pg.free <= PF_PAGE_SIZE && Used(pg.recs) <= PF_PAGE_SIZE - pg.free
            && Dead(pg) == PF_PAGE_SIZE - pg.free - Used(pg.recs) <= PF_PAGE_SIZE / 2
  {
    RunStoreOk(ops);
  }

  lemma {:induction false} RunStoreOk(ops: seq<Op>)
    requires RunOk(ops)
    ensures StoreOk(Run(ops))
  {
    hide StoreOk, Inserted, Deleted;
    if |ops| == 0 {
      EmptyStoreOk();
    } else {
      var st, op := Run(ops[..|ops| - 1]), ops[|ops| - 1];
      RunStoreOk(ops[..|ops| - 1]);
      match op
      case Insert(r) => InsertKeepsSpace(st, r);
      case Delete(rid) => DeleteKeepsSpace(st, rid);
    }
  }

  lemma EmptyStoreOk()
    ensures StoreOk([])
  {
  }

  lemma {:induction false} PrefixOk(ops: seq<Op>, k: nat)
    requires RunOk(ops) && k <= |ops|
    ensures RunOk(ops[..k]) && (k < |ops| ==> CanStep(Run(ops[..k]), ops[k]))
  {
    var n := |ops| - 1;
    if k == |ops| {
      assert ops[..k] == ops;
    } else if k < n {
      PrefixOk(ops[..n], k);
      assert ops[..n][..k] == ops[..k];
    }
  }

  lemma {:induction false} AllSteps(ops: seq<Op>)
    ensures RunOk(ops) <==> forall k | 0 <= k < |ops| :: CanStep(Run(ops[..k]), ops[k])
  {
    hide CanStep, Run;
    if ops != [] {
      var n := |ops| - 1;
      AllSteps(ops[..n]);
      assert RunOk(ops) <==> RunOk(ops[..n]) && CanStep(Run(ops[..n]), ops[n]);
      assert forall k | 0 <= k < n :: ops[..n][..k] == ops[..k] && ops[..n][k] == ops[k];
    }
  }

  /** The runs considered here: each record fits on an empty page, and each delete names a slot that its page
      has handed out, or no page. */
  lemma RunOkIff(ops: seq<Op>)
    ensures RunOk(ops) <==> forall k | 0 <= k < |ops| ::
              match ops[k]
              case Insert(r) => |r| <= 4068
              case Delete(rid) => var st := Run(ops[..k]); rid.page < |st| ==> rid.slot < |st[rid.page].recs|
  {
    hide Run, RunOk;
    AllSteps(ops);
  }

  lemma RunMore(ops: seq<Op>, k: nat)
    requires k < |ops|
    ensures Run(ops[..k + 1]) == Step(Run(ops[..k]), ops[k])
  {
    assert ops[..k + 1][..k] == ops[..k];
  }

  lemma DeletePage(st: Store, rid: Rid)
    ensures rid.page >= |st| ==> CanDelete(st, rid) && Deleted(st, rid) == st
    ensures CanDelete(st, rid) && rid.page < |st| ==> rid.slot < |st[rid.page].recs|
  {
  }

  /** Running the operations on the pages themselves gives the file of Run, and the RIDs of RidOf. */
  method Perform(ops: seq<Op>) returns (f: File, rids: seq<Option<Rid>>)
    requires RunOk(ops)
    ensures f.Valid() && Stored(f.pages) == Run(ops)
    ensures |rids| == |ops|
    ensures forall i | 0 <= i < |ops| :: rids[i] == if ops[i].Insert? then Some(RidOf(ops, i)) else None
  {
    hide Run, RidFor, PagesOk, Inserted, Deleted, CanDelete, Stored;
    f := new File.CreateFile();
    rids := [];
    EmptyRun(ops);
    var k := 0;
    while k < |ops|
      invariant 0 <= k == |rids| <= |ops| && fresh(f) && f.Valid() && Stored(f.pages) == Run(ops[..k])
      invariant forall i | 0 <= i < k :: rids[i] == if ops[i].Insert? then Some(RidOf(ops, i)) else None
    {
      PrefixOk(ops, k);
      RunMore(ops, k);
      match ops[k] {
        case Insert(r) =>
          var rid := f.InsertRec(r);
          rids := rids + [Some(rid)];
        case Delete(rid) =>
          StoredIs(f.pages);
          DeletePage(Stored(f.pages), rid);
          if rid.page < |f.pages| { HandedOut(f.pages, rid.page, rid.slot); }
          var ok := f.DeleteRec(rid.page, rid.slot);
          rids := rids + [None];
      }
      k := k + 1;
    }
    assert ops[..k] == ops;
  }

  lemma EmptyRun(ops: seq<Op>)
    ensures Run(ops[..0]) == []
  {
  }

  /** A buffer of exactly the record's length reads back what operation i inserted, as long as its RID has
      not been deleted, and an error afterwards; a smaller buffer always gives an error. */
  method ReadBack(ops: seq<Op>, i: nat, bufSize: int) returns (r: Fetched)
    requires RunOk(ops) && i < |ops| && ops[i].Insert?
    ensures r == if bufSize >= |ops[i].rec| && !DeletedIn(ops, i, RidOf(ops, i)) then SP_OK(RidOf(ops, i), ops[i].rec)
                 else SP_ERROR
  {
    hide Run, RidFor, PagesOk, Inserted, Deleted, CanDelete, Stored;
    var f, rids := Perform(ops);
    Remembered(ops, i);
    var rid := rids[i].value;
    r := f.GetThisRec(rid.page, rid.slot, bufSize);
  }
}
