/** The hash table of hash.c: an array of doubly linked chains that finds the buffer page of a
    page of a file. */
module PfHash {
  import opened PfPool

  const PF_HASH_TBL_SIZE := 20
  const PFE_HASHNOTFOUND := -18
  const PFE_HASHPAGEEXIST := -19

  /** A buffer page: a frame of the pool and what is in it. */
  class BufPage {
    var nextpage: BufPage?
    var prevpage: BufPage?
    var dirty: bool
    var fixed: bool
    var page: int
    var fd: int
    var fpage: FPage

    /** malloc: what a new frame holds is arbitrary. */
    constructor ()
    {
      dirty, fixed, page, fd, fpage := *, *, *, *, *;
      nextpage, prevpage := null, null;
    }
  }

  class HashEntry {
    var nextentry: HashEntry?
    var preventry: HashEntry?
    const fd: int
    const page: int
    const bpage: BufPage

    constructor (id: Pid, bpage: BufPage)
      ensures this.fd == id.fd && this.page == id.page && this.bpage == bpage
      ensures nextentry == null && preventry == null
    {
      fd, page, this.bpage := id.fd, id.page, bpage;
      nextentry, preventry := null, null;
    }

    function Id(): Pid { Pid(fd, page) }
  }

  /** The bucket of a page.  Descriptors and page numbers are not negative. */
  function Bucket(id: Pid): int { (id.fd + id.page) % PF_HASH_TBL_SIZE }

  ghost predicate Linked(c: seq<HashEntry>, i: nat)
    requires i < |c|
    reads c
  {
    && c[i].nextentry == (if i + 1 < |c| then c[i + 1] else null)
    && c[i].preventry == (if i > 0 then c[i - 1] else null)
  }

  /** The entries of c, linked both ways, with different pages, all of bucket b. */
  ghost predicate BucketOk(head: HashEntry?, c: seq<HashEntry>, b: int)
    reads c
  {
    && head == (if |c| > 0 then c[0] else null)
    && (forall i | 0 <= i < |c| :: Linked(c, i))
    && (forall i | 0 <= i < |c| :: Bucket(c[i].Id()) == b)
    && (forall i, j | 0 <= i < j < |c| :: c[i].Id() != c[j].Id())
  }

  /** Linking entry in front of a chain. */
  method LinkFirst(head: HashEntry?, entry: HashEntry, ghost c: seq<HashEntry>, ghost b: int)
    requires BucketOk(head, c, b) && entry !in c && Bucket(entry.Id()) == b
    requires entry.preventry == null && forall i | 0 <= i < |c| :: c[i].Id() != entry.Id()
    modifies c, entry
    ensures BucketOk(entry, [entry] + c, b)
  {
    assert forall i | 0 <= i < |c| :: Linked(c, i);
    entry.nextentry := head;
    if head != null {
      head.preventry := entry;
    }
    ghost var d := [entry] + c;
    forall i | 0 <= i < |d| ensures Linked(d, i) {
      if i > 0 { assert d[i] == c[i - 1] && old(Linked(c, i - 1)); }
      if i > 1 { assert d[i - 1] == c[i - 2]; }
      if i + 1 < |d| { assert d[i + 1] == c[i]; }
    }
  }

  /** Taking the i-th entry off a chain. */
  method Unlink(head: HashEntry?, entry: HashEntry, ghost c: seq<HashEntry>, ghost i: nat, ghost b: int)
      returns (newHead: HashEntry?)
    requires BucketOk(head, c, b) && i < |c| && c[i] == entry
    modifies c
    ensures BucketOk(newHead, c[..i] + c[i + 1..], b)
  {
    newHead := head;
    assert Linked(c, i);
    if i > 0 { assert Linked(c, i - 1); }
    if i + 1 < |c| { assert Linked(c, i + 1); }
    if entry == head {
      newHead := entry.nextentry;
    }
    if entry.preventry != null {
      entry.preventry.nextentry := entry.nextentry;
    }
    if entry.nextentry != null {
      entry.nextentry.preventry := entry.preventry;
    }
    ghost var d := c[..i] + c[i + 1..];
    forall j | 0 <= j < |d| ensures d[j] == c[if j < i then j else j + 1] {
    }
    forall j | 0 <= j < |d| ensures Linked(d, j) {
      var k := if j < i then j else j + 1;
      assert old(Linked(c, k));
      if j > 0 { assert d[j - 1] == c[if j - 1 < i then j - 1 else j]; }
      if j + 1 < |d| { assert d[j + 1] == c[if j + 1 < i then j + 1 else j + 2]; }
    }
  }

  /** The entries of the chains are the pages of the map. */
  ghost predicate Indexes(chains: seq<seq<HashEntry>>, pages: map<Pid, BufPage>) {
    && |chains| == PF_HASH_TBL_SIZE
    && (forall b, i | 0 <= b < |chains| && 0 <= i < |chains[b]| ::
          && chains[b][i].Id() in pages && pages[chains[b][i].Id()] == chains[b][i].bpage
          && Bucket(chains[b][i].Id()) == b)
    && (forall id | id in pages :: exists i :: 0 <= i < |chains[Bucket(id)]| && chains[Bucket(id)][i].Id() == id)
  }

  lemma IndexesInsert(chains: seq<seq<HashEntry>>, pages: map<Pid, BufPage>, e: HashEntry)
    requires Indexes(chains, pages) && e.Id() !in pages
    ensures var b := Bucket(e.Id());
            Indexes(chains[b := [e] + chains[b]], pages[e.Id() := e.bpage])
  {
    var b := Bucket(e.Id());
    var ds: seq<seq<HashEntry>> := chains[b := [e] + chains[b]];
    var ps := pages[e.Id() := e.bpage];
    forall id | id in ps ensures exists i :: 0 <= i < |ds[Bucket(id)]| && ds[Bucket(id)][i].Id() == id {
      if id == e.Id() {
        assert ds[b][0].Id() == id;
      } else {
        var i :| 0 <= i < |chains[Bucket(id)]| && chains[Bucket(id)][i].Id() == id;
        assert ds[Bucket(id)][if Bucket(id) == b then i + 1 else i] == chains[Bucket(id)][i];
      }
    }
  }

  lemma IndexesDelete(chains: seq<seq<HashEntry>>, pages: map<Pid, BufPage>, b: int, i: nat)
    requires Indexes(chains, pages) && 0 <= b < |chains| && i < |chains[b]|
    requires forall x, y | 0 <= x < y < |chains[b]| :: chains[b][x].Id() != chains[b][y].Id()
    ensures Indexes(chains[b := chains[b][..i] + chains[b][i + 1..]], pages - {chains[b][i].Id()})
  {
    var gone, c := chains[b][i].Id(), chains[b][..i] + chains[b][i + 1..];
    var ds: seq<seq<HashEntry>> := chains[b := c];
    var ps := pages - {gone};
    assert forall j | 0 <= j < |c| :: c[j] == chains[b][if j < i then j else j + 1];
    forall id | id in ps ensures exists j :: 0 <= j < |ds[Bucket(id)]| && ds[Bucket(id)][j].Id() == id {
      var j :| 0 <= j < |chains[Bucket(id)]| && chains[Bucket(id)][j].Id() == id;
      assert ds[Bucket(id)][if Bucket(id) == b && j > i then j - 1 else j] == chains[Bucket(id)][j];
    }
  }

  class HashTable {
    const tbl: array<HashEntry?>
    ghost var chains: seq<seq<HashEntry>>
    ghost var entries: set<HashEntry>
    /** What the table says: the buffer page of each page that has one. */
    ghost var pages: map<Pid, BufPage>

    ghost predicate Valid()
      reads this, tbl, entries
    {
      && tbl.Length == |chains| == PF_HASH_TBL_SIZE
      && (forall b, i | 0 <= b < |chains| && 0 <= i < |chains[b]| :: chains[b][i] in entries)
      && (forall b | 0 <= b < |chains| :: BucketOk(tbl[b], chains[b], b))
      && Indexes(chains, pages)
    }

    /** PFhashInit */
    constructor Init()
      ensures Valid() && fresh(tbl) && entries == {} && pages == map[]
    {
      tbl := new HashEntry?[PF_HASH_TBL_SIZE](_ => null);
      chains := seq(PF_HASH_TBL_SIZE, _ => []);
      entries, pages := {}, map[];
    }

    /** The loop along a chain that all three routines have. */
    method FindEntry(id: Pid) returns (entry: HashEntry?, ghost i: nat)
      requires Valid()
      ensures i <= |chains[Bucket(id)]|
      ensures entry == if i < |chains[Bucket(id)]| then chains[Bucket(id)][i] else null
      ensures id in pages <==> entry != null
      ensures entry != null ==> entry.Id() == id && entry.bpage == pages[id]
    {
      var bucket := Bucket(id);
      ghost var c := chains[bucket];
      entry, i := tbl[bucket], 0;
      assert BucketOk(tbl[bucket], c, bucket);
      while entry != null
        invariant i <= |c| && entry == if i < |c| then c[i] else null
        invariant forall j | 0 <= j < i :: c[j].Id() != id
        decreases |c| - i
      {
        if entry.fd == id.fd && entry.page == id.page {
          return;
        }
        assert Linked(c, i);
        entry, i := entry.nextentry, i + 1;
      }
    }

    /** PFhashFind */
    method Find(id: Pid) returns (bpage: BufPage?)
      requires Valid()
      ensures bpage == if id in pages then pages[id] else null
    {
      var entry;
      ghost var i;
      entry, i := FindEntry(id);
      if entry != null {
        return entry.bpage;
      }
      return null;
    }

    /** PFhashInsert */
    method Insert(id: Pid, bpage: BufPage) returns (error: int)
      requires Valid()
      modifies this, tbl, entries
      ensures Valid() && fresh(entries - old(entries))
      ensures error == if id in old(pages) then PFE_HASHPAGEEXIST else PFE_OK
      ensures pages == if id in old(pages) then old(pages) else old(pages)[id := bpage]
    {
      hide Linked, Indexes;
      var found := Find(id);
      if found != null {
        return PFE_HASHPAGEEXIST;
      }
      var bucket := Bucket(id);
      ghost var c := chains[bucket];
      var entry := new HashEntry(id, bpage);
      OthersApart(bucket);
      IndexesInsert(chains, pages, entry);
      LinkFirst(tbl[bucket], entry, c, bucket);
      tbl[bucket] := entry;
      chains := chains[bucket := [entry] + c];
      entries := entries + {entry};
      pages := pages[id := bpage];
      error := PFE_OK;
    }

    /** No entry is in two chains. */
    lemma OthersApart(b: int)
      requires Valid() && 0 <= b < |chains|
      ensures forall d, i | 0 <= d < |chains| && d != b && 0 <= i < |chains[d]| :: chains[d][i] !in chains[b]
      ensures forall i | 0 <= i < |chains[b]| :: chains[b][i].Id() in pages
    {
      forall d, i | 0 <= d < |chains| && d != b && 0 <= i < |chains[d]| ensures chains[d][i] !in chains[b] {
        assert BucketOk(tbl[d], chains[d], d) && BucketOk(tbl[b], chains[b], b);
      }
    }

    /** PFhashDelete */
    method Delete(id: Pid) returns (error: int)
      requires Valid()
      modifies this, tbl, entries
      ensures Valid() && entries == old(entries)
      ensures error == if id in old(pages) then PFE_OK else PFE_HASHNOTFOUND
      ensures pages == old(pages) - {id}
    {
      hide Linked, Indexes;
      var bucket := Bucket(id);
      ghost var c := chains[bucket];
      assert BucketOk(tbl[bucket], c, bucket);
      var entry;
      ghost var i;
      entry, i := FindEntry(id);
      if entry == null {
        return PFE_HASHNOTFOUND;
      }
      OthersApart(bucket);
      IndexesDelete(chains, pages, bucket, i);
      tbl[bucket] := Unlink(tbl[bucket], entry, c, i, bucket);
      chains := chains[bucket := c[..i] + c[i + 1..]];
      pages := pages - {id};
      error := PFE_OK;
    }
  }
}
