/** The record operations of sp.c on a file of slotted pages. */
module SpFile {
  import opened SpBytes
  import opened SpStore
  import opened SpPage

  datatype Fetched = SP_OK(rid: Rid, rec: Rec) | SP_ERROR

  ghost function Stored(pages: seq<seq<Byte>>): Store { seq(|pages|, i requires 0 <= i < |pages| => View(pages[i])) }

  ghost predicate PagesOk(pages: seq<seq<Byte>>) { forall i | 0 <= i < |pages| :: PageOk(pages[i]) }

  /** Reading a RID into a buffer: an error when it names no live record or the buffer is too small. */
  ghost function Read(st: Store, rid: Rid, bufSize: int): Fetched {
    if Live(st, rid) && |Lookup(st, rid).value| <= bufSize then SP_OK(rid, Lookup(st, rid).value) else SP_ERROR
  }

  /** What a page of the file answers to the questions the code puts to its integers. */
  lemma PageAnswers(p: seq<Byte>)
    requires PageOk(p)
    ensures |p| == PF_PAGE_SIZE && GetInt(p, 0) == |View(p).recs|
    ensures GetInt(p, 8) - Dir(GetInt(p, 0)) == Gap(View(p))
  {
    PageHas(p);
  }

  lemma SlotAnswers(p: seq<Byte>, i: nat)
    requires PageOk(p) && i < GetInt(p, 0)
    ensures |p| == PF_PAGE_SIZE && i < |View(p).recs|
    ensures var s := SlotAt(p, i);
            if s.Live() then 0 <= s.length && 0 <= s.offset && s.offset + s.length <= PF_PAGE_SIZE
                             && View(p).recs[i] == Some(p[s.offset..s.offset + s.length])
            else View(p).recs[i].None?
  {
    PageHas(p);
    LiveRec(p, Decode(p), i);
    if SlotAt(p, i).Live() { LiveLength(Decode(p), i); }
  }

  lemma StoredIs(pages: seq<seq<Byte>>)
    ensures |Stored(pages)| == |pages| && forall i | 0 <= i < |pages| :: Stored(pages)[i] == View(pages[i])
  {
  }

  lemma PageSet(pages: seq<seq<Byte>>, i: nat, p: seq<Byte>)
    requires PagesOk(pages) && i < |pages| && PageOk(p)
    ensures PagesOk(pages[i := p]) && Stored(pages[i := p]) == Stored(pages)[i := View(p)]
  {
    hide View, PageOk;
  }

  lemma PageMore(pages: seq<seq<Byte>>, more: seq<seq<Byte>>, i: nat, p: seq<Byte>)
    requires PagesOk(pages) && PageOk(p) && i == |pages| && |more| == i + 1 && more[..i] == pages
    ensures PagesOk(more[i := p]) && Stored(more[i := p]) == Stored(pages) + [View(p)]
  {
    hide View, PageOk;
    forall j | 0 <= j < i ensures more[j] == pages[j] {
      assert more[..i][j] == pages[j];
    }
  }

  /** A slot that the page has handed out lies in the page, and its length can be added to the free bytes. */
  lemma HandedOut(pages: seq<seq<Byte>>, page: nat, slot: nat)
    requires PagesOk(pages) && page < |pages| && slot < |View(pages[page]).recs|
    ensures 20 + 8 * slot <= 4088 == |pages[page]| - 8
    ensures var p := pages[page]; SlotAt(p, slot).Live() ==> IsInt(GetInt(p, 12) + SlotAt(p, slot).length)
  {
    hide View, GetInt, SpaceOk, Records;
    var p := pages[page];
    PageHas(p);
    if SlotAt(p, slot).Live() { LiveLength(Decode(p), slot); }
  }

  class File {
    var pages: seq<seq<Byte>>

    ghost predicate Valid()
      reads this
    {
      PagesOk(pages)
    }

    /** SP_CreateFile: a file with no pages. */
    constructor CreateFile()
      ensures Valid() && Stored(pages) == []
    {
      pages := [];
    }

    /** PF_GetThisPage: the page in a buffer, or PFE_INVALIDPAGE. */
    method GetThisPage(pageNum: int) returns (ok: bool, buf: array<Byte>)
      ensures ok <==> 0 <= pageNum < |pages|
      ensures fresh(buf) && (ok ==> buf[..] == pages[pageNum])
    {
      ok := 0 <= pageNum < |pages|;
      var p := if ok then pages[pageNum] else [];
      buf := new Byte[|p|](i requires 0 <= i < |p| => p[i]);
    }

    /** PF_AllocPage: a page of unknown content at the end, in a buffer. */
    method AllocPage() returns (pageNum: nat, buf: array<Byte>)
      modifies this
      ensures pageNum == |old(pages)| && |pages| == pageNum + 1 && pages[..pageNum] == old(pages)
      ensures fresh(buf) && buf.Length == PF_PAGE_SIZE
    {
      pageNum := |pages|;
      buf := new Byte[PF_PAGE_SIZE];
      pages := pages + [buf[..]];
    }

    /** PF_UnfixPage of a page that was changed. */
    method UnfixDirty(pageNum: nat, buf: array<Byte>)
      requires pageNum < |pages|
      modifies this
      ensures pages == old(pages)[pageNum := buf[..]]
    {
      pages := pages[pageNum := buf[..]];
    }

    /** The first phase of SP_InsertRec: the first page with room, or none. */
    method FindRoom(r: Rec) returns (pageNum: nat, found: bool, buf: array<Byte>)
      requires Valid()
      ensures pageNum == FirstFit(Stored(pages), r, 0) <= |pages| && (found <==> pageNum < |pages|)
      ensures forall j | 0 <= j < pageNum :: GetInt(pages[j], 8) - (20 + 8 * GetInt(pages[j], 0)) < |r| + 8
      ensures found ==> GetInt(pages[pageNum], 8) - (20 + 8 * GetInt(pages[pageNum], 0)) >= |r| + 8
      ensures fresh(buf) && (found ==> buf[..] == pages[pageNum] && buf.Length == PF_PAGE_SIZE)
    {
      hide PageOk, View;
      ghost var st := Stored(pages);
      StoredIs(pages);
      pageNum := 0;
      while true
        invariant 0 <= pageNum <= |pages| && FirstFit(st, r, pageNum) == FirstFit(st, r, 0)
        invariant forall j | 0 <= j < pageNum :: GetInt(pages[j], 8) - (20 + 8 * GetInt(pages[j], 0)) < |r| + 8
        decreases |pages| - pageNum
      {
        found, buf := GetThisPage(pageNum);
        if found {
          PageAnswers(pages[pageNum]);
          var available := GetInt(buf[..], 8) - Dir(GetInt(buf[..], 0));
          if available >= |r| + SP_SLOT { return; }
        } else {
          return;
        }
        pageNum := pageNum + 1;
      }
    }

    /** SP_InsertRec: the record goes to the first page whose gap takes it and a slot, in a new slot. */
    method InsertRec(r: Rec) returns (rid: Rid)
      requires Valid() && |r| <= 4068
      modifies this
      ensures var was := old(pages);
              && rid.page <= |was| && |pages| == (if rid.page < |was| then |was| else |was| + 1)
              && (forall j | 0 <= j < rid.page :: GetInt(was[j], 8) - (20 + 8 * GetInt(was[j], 0)) < |r| + 8)
              && (if rid.page < |was| then
                    && GetInt(was[rid.page], 8) - (20 + 8 * GetInt(was[rid.page], 0)) >= |r| + 8
                    && rid.slot == GetInt(was[rid.page], 0)
                  else rid.slot == 0)
      ensures Valid() && Stored(pages) == Inserted(old(Stored(pages)), r) && rid == RidFor(old(Stored(pages)), r)
    {
      hide PageOk, View, FirstFit, GetInt;
      ghost var st, was := Stored(pages), pages;
      StoredIs(pages);
      var pageNum, found, buf := FindRoom(r);
      if found {
        PageAnswers(buf[..]);
        var slot := AddRoom(buf, r, st, pageNum);
        PageSet(pages, pageNum, buf[..]);
        UnfixDirty(pageNum, buf);
        rid := Rid(pageNum, slot);
      } else {
        pageNum, buf := AllocPage();
        InitNewPage(buf);
        var slot := AddRecord(buf, r);
        PageMore(was, pages, pageNum, buf[..]);
        UnfixDirty(pageNum, buf);
        rid := Rid(pageNum, slot);
      }
    }

    method AddRoom(buf: array<Byte>, r: Rec, ghost st: Store, ghost p: nat) returns (slot: nat)
      requires buf.Length == PF_PAGE_SIZE && PageOk(buf[..]) && p < |st| && View(buf[..]) == st[p]
      requires p == FirstFit(st, r, 0)
      modifies buf
      ensures PageOk(buf[..]) && View(buf[..]) == Added(st[p], r) && slot == |st[p].recs|
    {
      slot := AddRecord(buf, r);
    }

    /** SP_DeleteRec: an error when there is no such page. It does not ask whether the page has handed
        the slot out: when it has not, the file stays in order if and only if the bytes there read as
        a deleted slot. */
    method DeleteRec(page: int, slot: int) returns (ok: bool)
      requires Valid() && (0 <= page < |pages| ==> slot >= 0 && 20 + 8 * slot <= 4088 == |pages[page]| - 8)
      requires 0 <= page < |pages| ==>
                 var p := pages[page]; SlotAt(p, slot).Live() ==> IsInt(GetInt(p, 12) + SlotAt(p, slot).length)
      modifies this
      ensures ok <==> 0 <= page < |old(pages)|
      ensures !ok ==> pages == old(pages)
      ensures ok && slot < |old(View(pages[page])).recs| ==>
                Valid() && Stored(pages) == Deleted(old(Stored(pages)), Rid(page, slot))
      ensures ok && slot >= |old(View(pages[page])).recs| ==>
                && (Valid() <==> !SlotAt(old(pages[page]), slot).Live())
                && (Valid() ==> pages == old(pages))
    {
      hide PageOk, View, SlotAt, GetInt;
      StoredIs(pages);
      var buf;
      ok, buf := GetThisPage(page);
      if !ok { return; }
      PageAnswers(buf[..]);
      RemoveRecord(buf, slot);
      if PageOk(buf[..]) {
        PageSet(pages, page, buf[..]);
      }
      UnfixDirty(page, buf);
      assert pages[page] == buf[..];
    }

    /** SP_GetThisRec: the record, or an error when the RID names none or the buffer is too small. */
    method GetThisRec(page: int, slot: int, bufSize: int) returns (r: Fetched)
      requires Valid()
      ensures r == if 0 <= page && 0 <= slot then Read(Stored(pages), Rid(page, slot), bufSize) else SP_ERROR
      ensures r.SP_OK? <==>
                && 0 <= page < |pages| && 0 <= slot < |Stored(pages)[page].recs|
                && var rec := Stored(pages)[page].recs[slot]; rec.Some? && |rec.value| <= bufSize
      ensures r.SP_OK? ==> r.rid == Rid(page, slot) && Some(r.rec) == Stored(pages)[page].recs[slot]
    {
      hide PageOk, View;
      StoredIs(pages);
      if page < 0 || slot < 0 { return SP_ERROR; }
      var ok, buf := GetThisPage(page);
      if !ok { return SP_ERROR; }
      PageAnswers(buf[..]);
      if slot >= GetInt(buf[..], 0) { return SP_ERROR; }
      SlotAnswers(buf[..], slot);
      var s := SlotAt(buf[..], slot);
      if !s.Live() { return SP_ERROR; }
      if bufSize < s.length { return SP_ERROR; }
      return SP_OK(Rid(page, slot), buf[s.offset..s.offset + s.length]);
    }

    /** SP_GetNextRec: the first live record after the RID. Past the last page PF_GetThisPage answers
        PFE_INVALIDPAGE and not PFE_EOF, so the scan ends in SP_ERROR and never in SP_EOF. */
    method GetNextRec(page: int, slot: int, bufSize: int) returns (r: Fetched)
      requires Valid() && slot >= -1
      ensures page < 0 ==> r == SP_ERROR
      ensures page >= 0 ==>
                var next := NextLive(Stored(pages), page, slot + 1);
                r == if next.Some? then Read(Stored(pages), next.value, bufSize) else SP_ERROR
      ensures page >= 0 ==>
                var st, next := Stored(pages), NextLive(Stored(pages), page, slot + 1);
                && (r.SP_OK? <==> next.Some? && Live(st, next.value) && |Lookup(st, next.value).value| <= bufSize)
                && (r.SP_OK? ==> r.rid == next.value && Some(r.rec) == Lookup(st, next.value))
    {
      hide PageOk, View;
      ghost var st := Stored(pages);
      StoredIs(pages);
      var pageNum := page;
      while true
        invariant if page < 0 then pageNum == page else page <= pageNum
        invariant page >= 0 ==>
                    NextLive(st, page, slot + 1) == NextLive(st, pageNum, if pageNum == page then slot + 1 else 0)
        decreases |pages| - pageNum
      {
        var ok, buf := GetThisPage(pageNum);
        if !ok { return SP_ERROR; }
        var p := buf[..];
        PageAnswers(p);
        var slotNum: nat := if pageNum == page then slot + 1 else 0;
        while slotNum < GetInt(p, 0)
          invariant NextLive(st, page, slot + 1) == NextLive(st, pageNum, slotNum)
        {
          SlotAnswers(p, slotNum);
          var s := SlotAt(p, slotNum);
          if s.Live() {
            if bufSize < s.length { return SP_ERROR; }
            return SP_OK(Rid(pageNum, slotNum), p[s.offset..s.offset + s.length]);
          }
          slotNum := slotNum + 1;
        }
        pageNum := pageNum + 1;
      }
    }
  }

  /** The scan has returned the rows, and everything live up to the cursor. */
  ghost predicate Scanned(st: Store, rows: seq<Fetched>, page: nat, slot: int) {
    && slot >= -1
    && (forall i | 0 <= i < |rows| ::
          rows[i].SP_OK? && Live(st, rows[i].rid) && rows[i].rec == Lookup(st, rows[i].rid).value)
    && (forall i, j | 0 <= i < j < |rows| :: Before(rows[i].rid, rows[j].rid))
    && (forall i | 0 <= i < |rows| :: slot >= 0 && !Before(Rid(page, slot), rows[i].rid))
    && (forall rid | Live(st, rid) && Before(rid, Rid(page, slot + 1)) ::
          exists i :: 0 <= i < |rows| && rows[i].rid == rid)
  }

  lemma ScannedMore(st: Store, rows: seq<Fetched>, page: nat, slot: int, rid: Rid)
    requires slot >= -1 && Scanned(st, rows, page, slot) && NextLive(st, page, slot + 1) == Some(rid)
    ensures Live(st, rid) && Scanned(st, rows + [SP_OK(rid, Lookup(st, rid).value)], rid.page, rid.slot)
    ensures Before(Rid(page, slot + 1), rid) || rid == Rid(page, slot + 1)
  {
    hide NextLive, Lookup;
    NextLiveIsLive(st, page, slot + 1);
    var more := rows + [SP_OK(rid, Lookup(st, rid).value)];
    forall q | Live(st, q) && Before(q, Rid(rid.page, rid.slot + 1))
      ensures exists i :: 0 <= i < |more| && more[i].rid == q
    {
      if Before(q, Rid(page, slot + 1)) {
        var i :| 0 <= i < |rows| && rows[i].rid == q;
        assert more[i].rid == q;
      } else {
        NextLiveIsNext(st, page, slot + 1, q);
        assert more[|rows|].rid == rid;
      }
    }
  }

  lemma RecordsFit(pages: seq<seq<Byte>>, rid: Rid)
    requires PagesOk(pages) && Live(Stored(pages), rid)
    ensures |Lookup(Stored(pages), rid).value| <= PF_PAGE_SIZE
  {
    hide View, PageOk;
    PageAnswers(pages[rid.page]);
    SlotAnswers(pages[rid.page], rid.slot);
  }

  /** SP_GetFirstRec, then SP_GetNextRec until it fails: every live record exactly once, in RID order. */
  method ScanAll(f: File) returns (rows: seq<Fetched>)
    requires f.Valid()
    ensures forall i | 0 <= i < |rows| :: rows[i].SP_OK?
    ensures forall i, j | 0 <= i < j < |rows| :: Before(rows[i].rid, rows[j].rid)
    ensures forall i | 0 <= i < |rows| :: Lookup(Stored(f.pages), rows[i].rid) == Some(rows[i].rec)
    ensures forall rid | Live(Stored(f.pages), rid) :: exists i :: 0 <= i < |rows| && rows[i].rid == rid
  {
    hide View, PageOk, NextLive;
    ghost var st := Stored(f.pages);
    rows := [];
    var page, slot: int := 0, -1;
    var r := f.GetNextRec(page, slot, PF_PAGE_SIZE);
    while r.SP_OK?
      invariant slot >= -1 && Scanned(st, rows, page, slot)
      invariant r == if NextLive(st, page, slot + 1).Some?
              then Read(st, NextLive(st, page, slot + 1).value, PF_PAGE_SIZE) else SP_ERROR
      decreases |st| - page, if page < |st| then |st[page].recs| - slot else 0
    {
      ScannedMore(st, rows, page, slot, r.rid);
      rows := rows + [r];
      page, slot := r.rid.page, r.rid.slot;
      r := f.GetNextRec(page, slot, PF_PAGE_SIZE);
    }
    forall rid | Live(st, rid) ensures exists i :: 0 <= i < |rows| && rows[i].rid == rid {
      if !Before(rid, Rid(page, slot + 1)) {
        NextLiveIsNext(st, page, slot + 1, rid);
        RecordsFit(f.pages, NextLive(st, page, slot + 1).value);
        assert false;
      }
    }
  }
}
