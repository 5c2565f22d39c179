/** Sequence vocabulary shared by the models: concatenation of a sequence of sequences,
    and removal at a position. */
module Sequences {

  /** All elements of ss, in order. */
  ghost function Cat<T>(ss: seq<seq<T>>): seq<T> {
    if ss == [] then [] else ss[0] + Cat(ss[1..])
  }

  lemma {:induction false} CatConcat<T>(a: seq<seq<T>>, b: seq<seq<T>>)
    ensures Cat(a + b) == Cat(a) + Cat(b)
  {
    if a == [] {
      assert a + b == b;
    } else {
      assert (a + b)[1..] == a[1..] + b;
      CatConcat(a[1..], b);
      assert Cat(a + b) == a[0] + (Cat(a[1..]) + Cat(b));
    }
  }

  lemma CatMiddle<T>(a: seq<seq<T>>, s: seq<T>, b: seq<seq<T>>)
    ensures Cat(a + [s] + b) == Cat(a) + s + Cat(b)
  {
    assert a + [s] + b == a + ([s] + b);
    CatConcat(a, [s] + b);
    assert ([s] + b)[1..] == b;
  }

  lemma SplitSeq<T>(s: seq<T>, i: nat)
    requires i < |s|
    ensures s == s[..i] + [s[i]] + s[i + 1..]
  {
  }

  /** Cat around position i. */
  lemma CatSplit<T>(ss: seq<seq<T>>, i: nat)
    requires i < |ss|
    ensures Cat(ss) == Cat(ss[..i]) + ss[i] + Cat(ss[i + 1..])
  {
    SplitSeq(ss, i);
    CatMiddle(ss[..i], ss[i], ss[i + 1..]);
  }

  lemma CatAppend<T>(ss: seq<seq<T>>, s: seq<T>)
    ensures Cat(ss + [s]) == Cat(ss) + s
  {
    CatMiddle(ss, s, []);
    assert ss + [s] + [] == ss + [s];
  }

  /** Element j of ss[i] is where the lists before i end, plus j. */
  lemma CatAt<T>(ss: seq<seq<T>>, i: nat, j: nat)
    requires i < |ss| && j < |ss[i]|
    ensures |Cat(ss[..i])| + j < |Cat(ss)|
    ensures Cat(ss)[|Cat(ss[..i])| + j] == ss[i][j]
  {
    CatSplit(ss, i);
  }

  lemma CatTake<T>(ss: seq<seq<T>>, i: nat)
    requires i < |ss|
    ensures Cat(ss[..i + 1]) == Cat(ss[..i]) + ss[i]
  {
    assert ss[..i + 1] == ss[..i] + [ss[i]];
    CatAppend(ss[..i], ss[i]);
  }

  /** Every element of Cat(ss) is an element of one of the ss. */
  lemma {:induction false} CatFrom<T>(ss: seq<seq<T>>, x: nat) returns (i: nat, j: nat)
    requires x < |Cat(ss)|
    ensures i < |ss| && j < |ss[i]| && x == |Cat(ss[..i])| + j && Cat(ss)[x] == ss[i][j]
  {
    var n := |ss[0]|;
    if x < n {
      i, j := 0, x;
      assert ss[..0] == [];
    } else {
      i, j := CatFrom(ss[1..], x - n);
      assert ss[..i + 1] == [ss[0]] + ss[1..][..i];
      i := i + 1;
    }
  }

  ghost function RemoveAt<T>(s: seq<T>, p: nat): seq<T>
    requires p < |s|
  {
    s[..p] + s[p + 1..]
  }

  lemma RemoveAtIndex<T>(s: seq<T>, p: nat)
    requires p < |s|
    ensures |RemoveAt(s, p)| == |s| - 1
    ensures forall j | 0 <= j < |s| - 1 :: RemoveAt(s, p)[j] == s[if j < p then j else j + 1]
  {
  }

  /** s with x put in right after position i. */
  ghost function AddAfter<T>(s: seq<T>, i: nat, x: T): (t: seq<T>)
    requires i < |s|
    ensures |t| == |s| + 1
    ensures forall j | 0 <= j < |t| :: t[j] == if j <= i then s[j] else if j == i + 1 then x else s[j - 1]
  {
    s[..i + 1] + [x] + s[i + 1..]
  }

  /** If the lists a and b together are ss[q] with x after position o, then replacing ss[q]
      by a and b puts x after the same element of the concatenation. */
  lemma CatAdd<T>(ss: seq<seq<T>>, q: nat, o: nat, x: T, ab: seq<seq<T>>)
    requires q < |ss| && o < |ss[q]| && Cat(ab) == AddAfter(ss[q], o, x)
    ensures |Cat(ss[..q])| + o < |Cat(ss)|
    ensures Cat(ss[..q] + ab + ss[q + 1..]) == AddAfter(Cat(ss), |Cat(ss[..q])| + o, x)
  {
    hide Cat;
    var l, r := ss[..q], ss[q + 1..];
    CatSplit(ss, q);
    CatConcat(l + ab, r);
    CatConcat(l, ab);
    var i := |Cat(l)| + o;
    var t := Cat(l) + AddAfter(ss[q], o, x) + Cat(r);
    assert forall j | 0 <= j < |t| :: t[j] == AddAfter(Cat(ss), i, x)[j];
  }

  lemma CatPair<T>(a: seq<T>, b: seq<T>)
    ensures Cat([a, b]) == a + b
  {
    assert [a, b][1..] == [b];
    CatOne(b);
  }

  lemma CatOne<T>(a: seq<T>)
    ensures Cat([a]) == a
  {
    assert [a][1..] == [];
  }

  // ---- counting ----

  ghost function Range(n: nat): set<int> {
    if n == 0 then {} else Range(n - 1) + {n - 1}
  }

  lemma {:induction false} RangeFacts(n: nat)
    ensures |Range(n)| == n && forall x: int :: x in Range(n) <==> 0 <= x < n
  {
    if n > 0 {
      RangeFacts(n - 1);
    }
  }

  lemma {:induction false} SubsetCount<T>(a: set<T>, b: set<T>)
    requires a <= b
    ensures |a| <= |b|
    decreases a
  {
    if x :| x in a {
      SubsetCount(a - {x}, b - {x});
    }
  }

  ghost function SetOf<T>(s: seq<T>): set<T> {
    set x | x in s
  }

  lemma {:induction false} DistinctCount<T>(s: seq<T>)
    requires forall i, j | 0 <= i < j < |s| :: s[i] != s[j]
    ensures |SetOf(s)| == |s|
  {
    if s != [] {
      var t, x := s[..|s| - 1], s[|s| - 1];
      DistinctCount(t);
      assert SetOf(s) == SetOf(t) + {x};
    }
  }

  /** Different numbers below n: there are at most n of them. */
  lemma Pigeonhole(s: seq<int>, n: nat)
    requires forall i | 0 <= i < |s| :: 0 <= s[i] < n
    requires forall i, j | 0 <= i < j < |s| :: s[i] != s[j]
    ensures |s| <= n
  {
    DistinctCount(s);
    RangeFacts(n);
    SubsetCount(SetOf(s), Range(n));
  }
}
