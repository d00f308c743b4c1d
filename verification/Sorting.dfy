/** Array.prototype.sort: a stable sort by a comparison function. */
module Sorting {
  /** A consistent comparison: total, antisymmetric up to ties, transitive. */
  ghost predicate Preorder<T(!new)>(cmp: (T, T) -> int) {
    && (forall a: T, b: T :: cmp(a, b) <= 0 <==> cmp(b, a) >= 0)
    && (forall a: T, b: T, c: T :: cmp(a, b) <= 0 && cmp(b, c) <= 0 ==> cmp(a, c) <= 0)
  }

  ghost predicate Sorted<T>(s: seq<T>, cmp: (T, T) -> int) {
    forall i, j :: 0 <= i < j < |s| ==> cmp(s[i], s[j]) <= 0
  }

  /** x put into sorted s, after what it ties with. */
  function Insert<T>(x: T, s: seq<T>, cmp: (T, T) -> int): (r: seq<T>)
    ensures |r| == |s| + 1
  {
    if s == [] || cmp(s[|s| - 1], x) <= 0 then s + [x] else Insert(x, s[..|s| - 1], cmp) + [s[|s| - 1]]
  }

  function Sort<T>(s: seq<T>, cmp: (T, T) -> int): (r: seq<T>)
    ensures |r| == |s|
  {
    if s == [] then [] else Insert(s[|s| - 1], Sort(s[..|s| - 1], cmp), cmp)
  }

  lemma {:induction false} InsertKeeps<T>(x: T, s: seq<T>, cmp: (T, T) -> int)
    ensures multiset(Insert(x, s, cmp)) == multiset(s) + multiset{x}
    decreases |s|
  {
    if s != [] && cmp(s[|s| - 1], x) > 0 {
      InsertKeeps(x, s[..|s| - 1], cmp);
      assert s == s[..|s| - 1] + [s[|s| - 1]];
    }
  }

  lemma {:induction false} SortKeeps<T>(s: seq<T>, cmp: (T, T) -> int)
    ensures multiset(Sort(s, cmp)) == multiset(s)
    decreases |s|
  {
    if s != [] {
      SortKeeps(s[..|s| - 1], cmp);
      InsertKeeps(s[|s| - 1], Sort(s[..|s| - 1], cmp), cmp);
      assert s == s[..|s| - 1] + [s[|s| - 1]];
    }
  }

  lemma InMultiset<T>(s: seq<T>, t: seq<T>, x: T)
    requires multiset(s) == multiset(t)
    ensures x in s <==> x in t
  {
    assert x in s <==> x in multiset(s);
  }

  lemma {:induction false} InsertSorts<T(!new)>(x: T, s: seq<T>, cmp: (T, T) -> int)
    requires Preorder(cmp) && Sorted(s, cmp)
    ensures Sorted(Insert(x, s, cmp), cmp)
    decreases |s|
  {
    if s != [] {
      var last := s[|s| - 1];
      if cmp(last, x) <= 0 {
        forall i | 0 <= i < |s| ensures cmp(s[i], x) <= 0 {
          assert i < |s| - 1 ==> cmp(s[i], last) <= 0;
        }
      } else {
        var init := s[..|s| - 1];
        InsertSorts(x, init, cmp);
        InsertKeeps(x, init, cmp);
        var r := Insert(x, init, cmp);
        forall i | 0 <= i < |r| ensures cmp(r[i], last) <= 0 {
          assert r[i] in multiset(r);
          assert r[i] == x || r[i] in init;
        }
      }
    }
  }

  /** The sorted list is the list, rearranged, in order. */
  lemma {:induction false} SortSorts<T(!new)>(s: seq<T>, cmp: (T, T) -> int)
    requires Preorder(cmp)
    ensures Sorted(Sort(s, cmp), cmp) && multiset(Sort(s, cmp)) == multiset(s)
    decreases |s|
  {
    SortKeeps(s, cmp);
    if s != [] {
      SortSorts(s[..|s| - 1], cmp);
      InsertSorts(s[|s| - 1], Sort(s[..|s| - 1], cmp), cmp);
    }
  }

  /** In a sorted list the first element comes before all. */
  lemma FirstIsLeast<T(!new)>(s: seq<T>, cmp: (T, T) -> int, x: T)
    requires Preorder(cmp) && Sorted(s, cmp) && x in s
    ensures cmp(s[0], x) <= 0
  {
    var i :| 0 <= i < |s| && s[i] == x;
    assert cmp(x, x) <= 0;
  }
}
