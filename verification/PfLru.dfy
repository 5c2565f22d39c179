/** Least-recently-used replacement: the pool holds the pages of the last different requests,
    so a request is a physical read exactly when the page has not been among them, and a larger
    pool never reads more. */
module PfLru {
  import opened Sequences
  import opened PfPool

  // ---- recency ----

  ghost function Remove(s: seq<Pid>, id: Pid): seq<Pid> {
    if s == [] then [] else (if s[0] == id then [] else [s[0]]) + Remove(s[1..], id)
  }

  /** The pages requested, each once, the last one first. */
  ghost function Recent(reqs: seq<Pid>): seq<Pid> {
    if reqs == [] then [] else [reqs[|reqs| - 1]] + Remove(Recent(reqs[..|reqs| - 1]), reqs[|reqs| - 1])
  }

  ghost function Pos(s: seq<Pid>, id: Pid): (i: nat)
    ensures i <= |s| && (i < |s| ==> s[i] == id) && forall j | 0 <= j < i :: s[j] != id
  {
    if s == [] || s[0] == id then 0 else Pos(s[1..], id) + 1
  }

  ghost predicate NoTwice(s: seq<Pid>) {
    forall i, j | 0 <= i < j < |s| :: s[i] != s[j]
  }

  lemma {:induction false} RemoveFacts(s: seq<Pid>, id: Pid)
    requires NoTwice(s)
    ensures var i, r := Pos(s, id), Remove(s, id);
            && |r| == (if i < |s| then |s| - 1 else |s|)
            && forall j | 0 <= j < |r| :: r[j] == s[if j < i then j else j + 1]
  {
    if s != [] {
      var t := s[1..];
      forall x, y | 0 <= x < y < |t| ensures t[x] != t[y] {
        assert s[x + 1] != s[y + 1];
      }
      RemoveFacts(t, id);
      if s[0] == id {
        forall j | 0 <= j < |t| ensures t[j] != id {
          assert t[j] == s[j + 1];
        }
        NotThere(t, id);
      }
    }
  }

  lemma NotThere(t: seq<Pid>, id: Pid)
    requires forall j | 0 <= j < |t| :: t[j] != id
    ensures Pos(t, id) == |t|
  {
  }

  lemma {:induction false} RemoveMembers(s: seq<Pid>, x: Pid)
    ensures forall id :: id in Remove(s, x) <==> id in s && id != x
    ensures NoTwice(s) ==> NoTwice(Remove(s, x))
  {
    if s != [] {
      RemoveMembers(s[1..], x);
      var r := Remove(s[1..], x);
      assert s == [s[0]] + s[1..];
      if NoTwice(s) {
        forall i, j | 0 <= i < j < |s[1..]| ensures s[1..][i] != s[1..][j] {
          assert s[i + 1] != s[j + 1];
        }
        forall j | 0 <= j < |r| ensures r[j] != s[0] {
          assert r[j] in s[1..];
        }
      }
    }
  }

  lemma {:induction false} RecentFacts(reqs: seq<Pid>)
    ensures NoTwice(Recent(reqs))
    ensures forall id :: id in Recent(reqs) <==> id in reqs
  {
    if reqs != [] {
      var init, x := reqs[..|reqs| - 1], reqs[|reqs| - 1];
      RecentFacts(init);
      RemoveMembers(Recent(init), x);
      FrontNoTwice(x, Remove(Recent(init), x));
      assert reqs == init + [x];
    }
  }

  lemma FrontNoTwice(x: Pid, s: seq<Pid>)
    requires NoTwice(s) && x !in s
    ensures NoTwice([x] + s)
  {
  }

  /** One more request, place by place: x goes to the front. */
  lemma RecentStep(reqs: seq<Pid>, x: Pid)
    ensures NoTwice(Recent(reqs)) && x in Recent(reqs + [x])
    ensures var s, r := Recent(reqs), Recent(reqs + [x]);
            var k := Pos(s, x);
            && |r| == (if k < |s| then |s| else |s| + 1) && r[0] == x
            && (k == |s| ==> x !in s)
            && forall j | 1 <= j < |r| :: r[j] == s[if j - 1 < k then j - 1 else j]
  {
    hide Recent, Remove;
    RecentFacts(reqs);
    RecentMore(reqs, x);
    RemoveFacts(Recent(reqs), x);
  }

  lemma RecentMore(reqs: seq<Pid>, x: Pid)
    ensures Recent(reqs + [x]) == [x] + Remove(Recent(reqs), x)
  {
    assert (reqs + [x])[..|reqs|] == reqs;
  }

  /** The pages requested since the last request of id. */
  ghost function Since(reqs: seq<Pid>, id: Pid): set<Pid> {
    if reqs == [] || reqs[|reqs| - 1] == id then {}
    else Since(reqs[..|reqs| - 1], id) + {reqs[|reqs| - 1]}
  }

  lemma {:induction false} SinceIs(reqs: seq<Pid>, id: Pid, y: Pid)
    ensures y in Since(reqs, id) <==> exists j :: 0 <= j < |reqs| && reqs[j] == y && id !in reqs[j..]
  {
    if reqs != [] {
      var n := |reqs| - 1;
      SinceIs(reqs[..n], id, y);
      assert forall j | 0 <= j < n :: reqs[j..] == reqs[..n][j..] + [reqs[n]];
      assert reqs[n..] == [reqs[n]];
      if reqs[n] == id {
        assert forall j | 0 <= j <= n :: reqs[j..][n - j] == id;
      }
    }
  }

  /** The pages ahead of id in the order of recency are those requested since. */
  lemma {:induction false} AheadIsSince(reqs: seq<Pid>, id: Pid)
    requires id in reqs
    ensures var i := Pos(Recent(reqs), id);
            && i < |Recent(reqs)|
            && forall y :: y in Recent(reqs)[..i] <==> y in Since(reqs, id)
  {
    hide Recent;
    var init, x := reqs[..|reqs| - 1], reqs[|reqs| - 1];
    assert reqs == init + [x];
    RecentStep(init, x);
    if x == id {
      PosIs(Recent(reqs), 0, id);
    } else {
      AheadIsSince(init, id);
      var s, r := Recent(init), Recent(reqs);
      var i, k := Pos(s, id), Pos(s, x);
      MovedAhead(s, r, i, k, id, x);
      PosIs(r, if k < i then i else i + 1, id);
    }
  }

  /** Taking x to the front puts it ahead of id and changes nothing else there. */
  lemma MovedAhead(s: seq<Pid>, r: seq<Pid>, i: nat, k: nat, id: Pid, x: Pid)
    requires NoTwice(s) && i < |s| && s[i] == id && x != id && k <= |s| && (k < |s| ==> s[k] == x)
    requires k == |s| ==> x !in s
    requires |r| == (if k < |s| then |s| else |s| + 1) && r[0] == x
    requires forall j | 1 <= j < |r| :: r[j] == s[if j - 1 < k then j - 1 else j]
    ensures var p := if k < i then i else i + 1;
            && p < |r| && r[p] == id && (forall j | 0 <= j < p :: r[j] != id)
            && (forall j | 0 <= j < p :: r[j] == x || r[j] in s[..i])
            && (forall j | 0 <= j < i :: s[j] in r[..p]) && x in r[..p]
  {
    var p := if k < i then i else i + 1;
    forall j | 0 <= j < p ensures r[j] != id && (r[j] == x || r[j] in s[..i]) {
      if j > 0 {
        var m := if j - 1 < k then j - 1 else j;
        assert r[j] == s[m];
        assert m < i && s[..i][m] == s[m];
      }
    }
    forall j | 0 <= j < i ensures s[j] in r[..p] {
      if j == k { assert r[..p][0] == s[j]; } else { assert r[..p][if j < k then j + 1 else j] == s[j]; }
    }
    assert r[..p][0] == x;
  }

  lemma PosIs(s: seq<Pid>, i: nat, id: Pid)
    requires i < |s| && s[i] == id && forall j | 0 <= j < i :: s[j] != id
    ensures Pos(s, id) == i
  {
  }

  lemma SetSize(s: seq<Pid>, a: set<Pid>)
    requires NoTwice(s) && forall y :: y in s <==> y in a
    ensures |s| == |a|
  {
    DistinctCount(s);
    assert SetOf(s) == a;
  }

  /** How far back a page is: as many places as different pages were requested since. */
  lemma RecencyDistance(reqs: seq<Pid>, id: Pid)
    ensures id in reqs ==> Pos(Recent(reqs), id) == |Since(reqs, id)| && Pos(Recent(reqs), id) < |Recent(reqs)|
    ensures id !in reqs ==> Pos(Recent(reqs), id) == |Recent(reqs)|
  {
    RecentFacts(reqs);
    if id in reqs {
      AheadIsSince(reqs, id);
      SetSize(Recent(reqs)[..Pos(Recent(reqs), id)], Since(reqs, id));
    }
  }

  // ---- the pool ----

  /** One request: the page is got and unfixed again. */
  function Request(p: Pool, cap: nat, id: Pid, dirty: bool): Pool {
    Unfix(Get(p, cap, 0, id).1, id, dirty).1
  }

  /** A physical read: the page was not in the pool. */
  predicate Misses(p: Pool, id: Pid) { !Resident(p, id) }

  ghost function AfterRequests(p: Pool, cap: nat, reqs: seq<Pid>, dirty: seq<bool>): Pool
    requires |dirty| == |reqs|
  {
    if reqs == [] then p
    else
      var i := |reqs| - 1;
      Request(AfterRequests(p, cap, reqs[..i], dirty[..i]), cap, reqs[i], dirty[i])
  }

  ghost function Min(a: nat, b: nat): nat { if a < b then a else b }

  ghost function Ids(used: seq<BPage>): (s: seq<Pid>)
    ensures |s| == |used| && forall i | 0 <= i < |s| :: s[i] == used[i].id
  {
    seq(|used|, i requires 0 <= i < |used| => used[i].id)
  }

  /** The pool holds the last cap different pages requested, in order of recency. */
  ghost predicate Lru(p: Pool, cap: nat, d: Disk, reqs: seq<Pid>) {
    && Ids(p.used) == Recent(reqs)[..Min(cap, |Recent(reqs)|)]
    && p.nfree == 0 && p.numbpage == |p.used| && (forall i | 0 <= i < |p.used| :: !p.used[i].fixed)
    && d.Keys <= p.disk.Keys
  }

  lemma FindIsPos(used: seq<BPage>, s: seq<Pid>, m: nat, id: Pid)
    requires m <= |s| && Ids(used) == s[..m]
    ensures Find(used, id) < |used| <==> Pos(s, id) < m
    ensures Find(used, id) < |used| ==> Find(used, id) == Pos(s, id)
  {
    var i, k := Find(used, id), Pos(s, id);
    assert forall j | 0 <= j < m :: Ids(used)[j] == s[j];
  }

  /** A hit: the page goes to the front. */
  lemma HitPool(p: Pool, cap: nat, id: Pid, dirty: bool)
    requires Resident(p, id) && !p.used[Find(p.used, id)].fixed
    ensures var i := Find(p.used, id);
            Request(p, cap, id, dirty)
            == p.(used := [p.used[i].(dirty := p.used[i].dirty || dirty)] + Without(p.used, i))
  {
    var i := Find(p.used, id);
    var b := p.used[i].(fixed := true);
    var u := p.used[i := b];
    FindHere(u, i, id);
    assert Without(u, i) == Without(p.used, i);
    assert b.(fixed := false, dirty := b.dirty || dirty) == p.used[i].(dirty := p.used[i].dirty || dirty);
  }

  lemma FindHere(used: seq<BPage>, i: nat, id: Pid)
    requires i < |used| && used[i].id == id && forall j | 0 <= j < i :: used[j].id != id
    ensures Find(used, id) == i
  {
  }

  lemma RequestHits(p: Pool, cap: nat, d: Disk, reqs: seq<Pid>, id: Pid, dirty: bool)
    requires Lru(p, cap, d, reqs) && Resident(p, id)
    ensures Lru(Request(p, cap, id, dirty), cap, d, reqs + [id])
  {
    hide Recent, Request, Find, Without;
    var s, m := Recent(reqs), Min(cap, |Recent(reqs)|);
    RecentStep(reqs, id);
    FindIsPos(p.used, s, m, id);
    var i := Find(p.used, id);
    HitPool(p, cap, id, dirty);
    WithoutFacts(p.used, i);
    var u := Request(p, cap, id, dirty);
    var r := Recent(reqs + [id]);
    forall j | 0 <= j < |u.used| ensures u.used[j].id == r[j] && !u.used[j].fixed {
      if j > 0 {
        var x := if j - 1 < i then j - 1 else j;
        assert u.used[j] == p.used[x] && Ids(p.used)[x] == s[x];
      }
    }
    SameIds(u.used, r, m);
  }

  lemma SameIds(used: seq<BPage>, r: seq<Pid>, m: nat)
    requires |used| == m <= |r| && forall j | 0 <= j < m :: used[j].id == r[j]
    ensures Ids(used) == r[..m]
  {
  }

  lemma AllFree(used: seq<BPage>)
    requires forall i | 0 <= i < |used| :: !used[i].fixed
    ensures used != [] ==> Victim(used, 0) == |used| - 1
  {
  }

  /** A miss: the page comes to the front, and the last one goes if there is no other frame. */
  lemma MissPool(p: Pool, cap: nat, id: Pid, dirty: bool) returns (b: BPage)
    requires !Resident(p, id) && id in p.disk && cap >= 1 && p.nfree == 0 && p.numbpage == |p.used| <= cap
    requires forall i | 0 <= i < |p.used| :: !p.used[i].fixed
    ensures var n := if |p.used| < cap then |p.used| else cap - 1;
            var t := Request(p, cap, id, dirty);
            && b.id == id && !b.fixed && t.used == [b] + p.used[..n] && t.nfree == 0 && t.numbpage == n + 1
            && p.disk.Keys <= t.disk.Keys
  {
    AllFree(p.used);
    var (error, t) := FrameTaken(p, cap, 0);
    var n := if |p.used| < cap then |p.used| else cap - 1;
    assert t.used == p.used[..n];
    b := BPage(id, false, true, t.disk[id]);
    var u := t.(used := [b] + t.used);
    assert Get(p, cap, 0, id) == (PFE_OK, u);
    FindHere(u.used, 0, id);
    assert Without(u.used, 0) == t.used;
    b := b.(fixed := false, dirty := dirty);
  }

  lemma RequestMisses(p: Pool, cap: nat, d: Disk, reqs: seq<Pid>, id: Pid, dirty: bool)
    requires Lru(p, cap, d, reqs) && !Resident(p, id) && id in d && cap >= 1
    ensures Lru(Request(p, cap, id, dirty), cap, d, reqs + [id])
  {
    hide Recent, Request, Victim, FrameTaken;
    var s, m := Recent(reqs), Min(cap, |Recent(reqs)|);
    RecentStep(reqs, id);
    FindIsPos(p.used, s, m, id);
    var r := Recent(reqs + [id]);
    var b := MissPool(p, cap, id, dirty);
    var v := Request(p, cap, id, dirty);
    var n := if |p.used| < cap then |p.used| else cap - 1;
    forall j | 0 <= j < |v.used| ensures v.used[j].id == r[j] && !v.used[j].fixed {
      if j > 0 {
        assert v.used[j] == p.used[j - 1] && Ids(p.used)[j - 1] == s[j - 1];
      }
    }
    SameIds(v.used, r, n + 1);
  }

  /** Between requests nothing is fixed, so every request succeeds. */
  lemma RequestWorks(p: Pool, cap: nat, d: Disk, reqs: seq<Pid>, id: Pid)
    requires Lru(p, cap, d, reqs) && id in d && cap >= 1
    ensures Get(p, cap, 0, id).0 == PFE_OK
  {
    AllFree(p.used);
  }

  lemma {:induction false} LruKept(p: Pool, cap: nat, reqs: seq<Pid>, dirty: seq<bool>)
    requires p.used == [] && p.nfree == p.numbpage == 0 && cap >= 1 && |dirty| == |reqs|
    requires forall i | 0 <= i < |reqs| :: reqs[i] in p.disk
    ensures Lru(AfterRequests(p, cap, reqs, dirty), cap, p.disk, reqs)
  {
    if reqs != [] {
      var n := |reqs| - 1;
      LruKept(p, cap, reqs[..n], dirty[..n]);
      var t := AfterRequests(p, cap, reqs[..n], dirty[..n]);
      assert reqs == reqs[..n] + [reqs[n]];
      if Resident(t, reqs[n]) {
        RequestHits(t, cap, p.disk, reqs[..n], reqs[n], dirty[n]);
      } else {
        RequestMisses(t, cap, p.disk, reqs[..n], reqs[n], dirty[n]);
      }
    }
  }

  /** A request is a physical read exactly when the page was never requested before or at least
      cap different other pages have been requested since its last request. */
  lemma MissIff(p: Pool, cap: nat, reqs: seq<Pid>, dirty: seq<bool>, id: Pid)
    requires p.used == [] && p.nfree == p.numbpage == 0 && cap >= 1 && |dirty| == |reqs|
    requires forall i | 0 <= i < |reqs| :: reqs[i] in p.disk
    ensures Misses(AfterRequests(p, cap, reqs, dirty), id) <==> id !in reqs || |Since(reqs, id)| >= cap
  {
    LruKept(p, cap, reqs, dirty);
    var t, s := AfterRequests(p, cap, reqs, dirty), Recent(reqs);
    FindIsPos(t.used, s, Min(cap, |s|), id);
    RecencyDistance(reqs, id);
  }

  /** The physical reads of a run of requests. */
  ghost function Reads(p: Pool, cap: nat, reqs: seq<Pid>, dirty: seq<bool>): nat
    requires |dirty| == |reqs|
  {
    if reqs == [] then 0
    else
      var n := |reqs| - 1;
      Reads(p, cap, reqs[..n], dirty[..n])
      + if Misses(AfterRequests(p, cap, reqs[..n], dirty[..n]), reqs[n]) then 1 else 0
  }

  /** A larger pool never reads more. */
  lemma {:induction false} ReadsMonotone(p: Pool, small: nat, large: nat, reqs: seq<Pid>, dirty: seq<bool>)
    requires p.used == [] && p.nfree == p.numbpage == 0 && 1 <= small <= large && |dirty| == |reqs|
    requires forall i | 0 <= i < |reqs| :: reqs[i] in p.disk
    ensures Reads(p, large, reqs, dirty) <= Reads(p, small, reqs, dirty)
  {
    if reqs != [] {
      var n := |reqs| - 1;
      ReadsMonotone(p, small, large, reqs[..n], dirty[..n]);
      MissIff(p, small, reqs[..n], dirty[..n], reqs[n]);
      MissIff(p, large, reqs[..n], dirty[..n], reqs[n]);
    }
  }

  /** The requests that are a physical read in a pool of cap frames. */
  ghost function Faults(reqs: seq<Pid>, cap: nat): (a: set<nat>)
    ensures forall i: nat :: i in a <==> i < |reqs| && (reqs[i] !in reqs[..i] || |Since(reqs[..i], reqs[i])| >= cap)
  {
    set i: nat | i < |reqs| && (reqs[i] !in reqs[..i] || |Since(reqs[..i], reqs[i])| >= cap)
  }

  /** The physical reads of a run are counted by the order of its requests alone. */
  lemma {:induction false} ReadsAre(p: Pool, cap: nat, reqs: seq<Pid>, dirty: seq<bool>)
    requires p.used == [] && p.nfree == p.numbpage == 0 && cap >= 1 && |dirty| == |reqs|
    requires forall i | 0 <= i < |reqs| :: reqs[i] in p.disk
    ensures Reads(p, cap, reqs, dirty) == |Faults(reqs, cap)|
  {
    hide Since, Misses, AfterRequests, Faults;
    if reqs != [] {
      var n := |reqs| - 1;
      var init := reqs[..n];
      ReadsAre(p, cap, init, dirty[..n]);
      MissIff(p, cap, init, dirty[..n], reqs[n]);
      FaultsStep(reqs, cap);
    } else {
      assert Faults(reqs, cap) == {};
    }
  }

  lemma FaultsStep(reqs: seq<Pid>, cap: nat)
    requires reqs != []
    ensures var n := |reqs| - 1; var some := Faults(reqs[..n], cap);
            n !in some && Faults(reqs, cap) ==
            if reqs[n] !in reqs[..n] || |Since(reqs[..n], reqs[n])| >= cap then some + {n} else some
  {
    hide Since, Faults;
    var n := |reqs| - 1;
    forall i: nat | i < n ensures i in Faults(reqs, cap) <==> i in Faults(reqs[..n], cap) {
      assert reqs[..n][..i] == reqs[..i];
    }
  }
}
