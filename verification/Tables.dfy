/** Database tables as sequences of rows: the WHERE clause and the laws of filtering. */
module Tables {
  import opened Wrappers

  function Where<T(!new)>(rows: seq<T>, keep: T -> bool): (found: seq<T>)
    ensures |found| <= |rows|
    ensures forall r :: r in found <==> r in rows && keep(r)
  {
    if rows == [] then []
    else
      assert forall r :: r in rows <==> r == rows[0] || r in rows[1..];
      (if keep(rows[0]) then [rows[0]] else []) + Where(rows[1..], keep)
  }

  /** The first row that satisfies `p`. */
  function Find<T(!new)>(rows: seq<T>, p: T -> bool): (found: Option<T>)
    ensures found.Some? ==> found.value in rows && p(found.value)
    ensures found.None? ==> forall r :: r in rows ==> !p(r)
  {
    if rows == [] then None
    else
      assert forall r :: r in rows <==> r == rows[0] || r in rows[1..];
      if p(rows[0]) then Some(rows[0]) else Find(rows[1..], p)
  }

  lemma {:induction false} WhereAll<T(!new)>(rows: seq<T>, keep: T -> bool)
    requires forall r :: r in rows ==> keep(r)
    ensures Where(rows, keep) == rows
  {
    if rows != [] {
      assert rows[0] in rows && forall r :: r in rows[1..] ==> r in rows;
      WhereAll(rows[1..], keep);
    }
  }

  lemma {:induction false} WhereFirst<T(!new)>(rows: seq<T>, keep: T -> bool, i: nat)
    requires i < |rows| && keep(rows[i]) && forall j :: 0 <= j < i ==> !keep(rows[j])
    ensures Where(rows, keep) != [] && Where(rows, keep)[0] == rows[i]
  {
    if i > 0 {
      WhereFirst(rows[1..], keep, i - 1);
    }
  }

  lemma {:induction false} WhereNone<T(!new)>(rows: seq<T>, keep: T -> bool)
    requires forall r :: r in rows ==> !keep(r)
    ensures Where(rows, keep) == []
  {
    if rows != [] {
      assert rows[0] in rows && forall r :: r in rows[1..] ==> r in rows;
      WhereNone(rows[1..], keep);
    }
  }

  lemma {:induction false} WhereSame<T(!new)>(rows: seq<T>, p: T -> bool, q: T -> bool)
    requires forall r :: r in rows ==> (p(r) <==> q(r))
    ensures Where(rows, p) == Where(rows, q)
  {
    if rows != [] {
      assert rows[0] in rows && forall r :: r in rows[1..] ==> r in rows;
      WhereSame(rows[1..], p, q);
    }
  }

  lemma {:induction false} WhereTwice<T(!new)>(rows: seq<T>, p: T -> bool, q: T -> bool, both: T -> bool)
    requires forall r :: r in rows ==> (both(r) <==> p(r) && q(r))
    ensures Where(Where(rows, p), q) == Where(rows, both)
  {
    if rows != [] {
      assert rows[0] in rows && forall r :: r in rows[1..] ==> r in rows;
      var rest := Where(rows[1..], p);
      WhereTwice(rows[1..], p, q, both);
      if p(rows[0]) {
        assert ([rows[0]] + rest)[1..] == rest;
      } else {
        assert Where(rows, p) == rest;
      }
    }
  }

  lemma {:induction false} WhereConcat<T(!new)>(a: seq<T>, b: seq<T>, keep: T -> bool)
    ensures Where(a + b, keep) == Where(a, keep) + Where(b, keep)
  {
    if a == [] {
      assert a + b == b;
    } else {
      assert (a + b)[0] == a[0] && (a + b)[1..] == a[1..] + b;
      WhereConcat(a[1..], b, keep);
    }
  }

  /** Searching filtered rows for rows the filter keeps is searching all rows. */
  lemma {:induction false} FindInWhere<T(!new)>(rows: seq<T>, keep: T -> bool, p: T -> bool)
    requires forall r :: r in rows && p(r) ==> keep(r)
    ensures Find(Where(rows, keep), p) == Find(rows, p)
  {
    if rows != [] {
      assert rows[0] in rows && forall r :: r in rows[1..] ==> r in rows;
      FindInWhere(rows[1..], keep, p);
      var rest := Where(rows[1..], keep);
      if keep(rows[0]) {
        assert ([rows[0]] + rest)[1..] == rest;
      } else {
        assert Where(rows, keep) == rest;
      }
    }
  }
}
