/** The database's ORDER BY, as an insertion sort by a strict order that is total on the rows sorted. */
module Sorting {

  type Order<!T> = (T, T) -> bool

  /** `less` is a strict total order on the elements of `s`. */
  ghost predicate TotalOn<T(!new)>(less: Order<T>, s: set<T>) {
    && (forall x :: x in s ==> !less(x, x))
    && (forall x, y, z :: x in s && y in s && z in s && less(x, y) && less(y, z) ==> less(x, z))
    && (forall x, y :: x in s && y in s && x != y ==> less(x, y) || less(y, x))
  }

  ghost function Elems<T>(s: seq<T>): set<T> {
    set x | x in s
  }

  ghost predicate NoDup<T>(s: seq<T>) {
    forall i, j :: 0 <= i < j < |s| ==> s[i] != s[j]
  }

  /** Strictly ascending in `less`: every row stands before the rows after it. */
  ghost predicate Ascending<T>(less: Order<T>, s: seq<T>) {
    s == [] || ((forall y :: y in s[1..] ==> less(s[0], y)) && Ascending(less, s[1..]))
  }

  function Insert<T>(less: Order<T>, x: T, s: seq<T>): seq<T> {
    if s == [] || less(x, s[0]) then [x] + s else [s[0]] + Insert(less, x, s[1..])
  }

  lemma {:induction false} InsertLength<T>(less: Order<T>, x: T, s: seq<T>)
    ensures |Insert(less, x, s)| == |s| + 1
  {
    if !(s == [] || less(x, s[0])) {
      InsertLength(less, x, s[1..]);
    }
  }

  function Sort<T>(less: Order<T>, s: seq<T>): (r: seq<T>)
    ensures |r| == |s|
  {
    if s == [] then []
    else
      InsertLength(less, s[0], Sort(less, s[1..]));
      Insert(less, s[0], Sort(less, s[1..]))
  }

  lemma {:induction false} InsertElems<T>(less: Order<T>, x: T, s: seq<T>)
    ensures forall y :: y in Insert(less, x, s) <==> y == x || y in s
  {
    if !(s == [] || less(x, s[0])) {
      InsertElems(less, x, s[1..]);
      assert s == [s[0]] + s[1..];
    }
  }

  lemma {:induction false} InsertNoDup<T>(less: Order<T>, x: T, s: seq<T>)
    requires NoDup(s) && x !in s
    ensures NoDup(Insert(less, x, s))
  {
    if !(s == [] || less(x, s[0])) {
      InsertNoDup(less, x, s[1..]);
      InsertElems(less, x, s[1..]);
      assert s[0] !in s[1..];
    }
  }

  /** Sorting by any comparison at all permutes pairwise distinct rows. */
  lemma {:induction false} SortPermutes<T>(less: Order<T>, s: seq<T>)
    requires NoDup(s)
    ensures NoDup(Sort(less, s)) && forall y :: y in Sort(less, s) <==> y in s
  {
    if s != [] {
      assert s[0] !in s[1..] && forall y :: y in s <==> y == s[0] || y in s[1..];
      SortPermutes(less, s[1..]);
      InsertElems(less, s[0], Sort(less, s[1..]));
      InsertNoDup(less, s[0], Sort(less, s[1..]));
    }
  }

  lemma {:induction false} InsertAscending<T(!new)>(less: Order<T>, x: T, s: seq<T>)
    requires TotalOn(less, Elems(s) + {x}) && x !in s && Ascending(less, s)
    ensures Ascending(less, Insert(less, x, s))
  {
    if s == [] {
    } else if less(x, s[0]) {
      assert ([x] + s)[1..] == s;
      assert forall y :: y in s ==> y == s[0] || y in s[1..];
      assert s[0] in s;
    } else {
      var rest := Insert(less, x, s[1..]);
      assert s[0] in s && forall y :: y in s[1..] ==> y in s;
      InsertAscending(less, x, s[1..]);
      InsertElems(less, x, s[1..]);
      assert ([s[0]] + rest)[1..] == rest;
    }
  }

  /** Sorting rows that are pairwise distinct yields the same rows, strictly ascending. */
  lemma {:induction false} SortSorts<T(!new)>(less: Order<T>, s: seq<T>)
    requires TotalOn(less, Elems(s)) && NoDup(s)
    ensures Ascending(less, Sort(less, s))
    ensures forall y :: y in Sort(less, s) <==> y in s
  {
    if s != [] {
      assert s[0] in s && forall y :: y in s[1..] ==> y in s;
      SortSorts(less, s[1..]);
      var rest := Sort(less, s[1..]);
      assert s[0] !in s[1..];
      assert Elems(rest) + {s[0]} <= Elems(s);
      InsertAscending(less, s[0], rest);
      InsertElems(less, s[0], rest);
    }
  }

  lemma {:induction false} AscendingAt<T(!new)>(less: Order<T>, s: seq<T>, i: nat, j: nat)
    requires Ascending(less, s) && i < j < |s|
    ensures less(s[i], s[j])
  {
    if i == 0 {
      assert s[1..][j - 1] in s[1..];
    } else {
      AscendingAt(less, s[1..], i - 1, j - 1);
    }
  }

  lemma {:induction false} AscendingSuffix<T(!new)>(less: Order<T>, s: seq<T>, k: nat)
    requires Ascending(less, s) && k <= |s|
    ensures Ascending(less, s[k..])
  {
    if k > 0 {
      AscendingSuffix(less, s[1..], k - 1);
      assert s[k..] == s[1..][k - 1..];
    }
  }

  lemma {:induction false} AscendingConcat<T(!new)>(less: Order<T>, a: seq<T>, b: seq<T>)
    ensures Ascending(less, a + b) <==>
      Ascending(less, a) && Ascending(less, b) && forall x, y :: x in a && y in b ==> less(x, y)
  {
    if a == [] {
      assert a + b == b;
    } else {
      AscendingConcat(less, a[1..], b);
      assert (a + b)[0] == a[0] && (a + b)[1..] == a[1..] + b;
      assert a[0] in a && forall x :: x in a <==> x == a[0] || x in a[1..];
      assert forall x :: x in (a + b)[1..] <==> x in a[1..] || x in b;
    }
  }

  lemma NotAfter<T(!new)>(less: Order<T>, s: seq<T>, i: nat, k: nat)
    requires TotalOn(less, Elems(s)) && Ascending(less, s) && i < k <= |s|
    ensures s[i] !in s[k..] && !less(s[k - 1], s[i])
  {
    assert s[i] in s && s[k - 1] in s;
    forall j | k <= j < |s|
      ensures s[j] != s[i]
    {
      AscendingAt(less, s, i, j);
    }
    if i < k - 1 {
      AscendingAt(less, s, i, k - 1);
    }
  }

  /** The rows that come after the k-th row of an ascending sequence are those at positions from k on. */
  lemma AfterIsSuffix<T(!new)>(less: Order<T>, s: seq<T>, k: nat)
    requires TotalOn(less, Elems(s)) && Ascending(less, s) && 0 < k <= |s|
    ensures forall x :: x in s && less(s[k - 1], x) <==> x in s[k..]
  {
    assert s[k - 1] in s;
    forall x | x in s
      ensures less(s[k - 1], x) <==> x in s[k..]
    {
      var i :| 0 <= i < |s| && s[i] == x;
      if i >= k {
        assert s[k..][i - k] == x;
        AscendingAt(less, s, k - 1, i);
      } else {
        NotAfter(less, s, i, k);
      }
    }
    assert forall x :: x in s[k..] ==> x in s;
  }

  lemma NonemptyHasElement<T>(s: seq<T>)
    ensures s != [] ==> exists x :: x in s
  {
    if s != [] {
      assert s[0] in s;
    }
  }

  lemma SameHead<T(!new)>(less: Order<T>, a: seq<T>, b: seq<T>)
    requires TotalOn(less, Elems(a)) && Ascending(less, a) && Ascending(less, b) && a != [] && b != []
    requires forall x :: x in a <==> x in b
    ensures a[0] == b[0]
    ensures forall x :: x in a[1..] <==> x in b[1..]
  {
    assert a[0] in a && b[0] in b;
    assert forall x :: x in a <==> x == a[0] || x in a[1..];
    assert forall x :: x in b <==> x == b[0] || x in b[1..];
    assert forall x :: x in a[1..] ==> less(a[0], x);
  }

  /** Two strictly ascending sequences of the same rows are equal. */
  lemma {:induction false} AscendingUnique<T(!new)>(less: Order<T>, a: seq<T>, b: seq<T>)
    requires TotalOn(less, Elems(a)) && Ascending(less, a) && Ascending(less, b)
    requires forall x :: x in a <==> x in b
    ensures a == b
  {
    if a == [] {
      NonemptyHasElement(b);
    } else {
      assert a[0] in a && a[0] in b;
      assert b[0] in b && b[0] in a;
      SameHead(less, a, b);
      assert forall x :: x in a[1..] ==> x in a;
      assert forall x :: x in a[1..] <==> x in b[1..];
      AscendingUnique(less, a[1..], b[1..]);
    }
  }
}
