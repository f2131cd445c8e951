/**
 Scans in primary-key order.  A key stands for its rank in the collation of the
 database: only equality and order of keys matter to the queries modelled here.
 */
module SortedIds {
  import opened Wrappers

  /** The rank of a video_id in the collation of the database. */
  type VideoId = int

  ghost predicate Ascending(s: seq<int>) {
    forall i, j :: 0 <= i < j < |s| ==> s[i] < s[j]
  }

  lemma NonEmpty(s: set<int>)
    ensures s == {} || exists x :: x in s
  {
    if forall x :: x !in s { assert s == {}; }
  }

  lemma MinExists(s: set<int>) returns (m: int)
    requires s != {}
    ensures m in s && forall x :: x in s ==> m <= x
  {
    NonEmpty(s);
    var x :| x in s;
    m := x;
    if s != {x} {
      var rest := s - {x};
      var n := MinExists(rest);
      assert forall y :: y in s ==> y == x || y in rest;
      if n < m { m := n; }
    }
  }

  function Min(s: set<int>): (m: int)
    requires s != {}
    ensures m in s && forall x :: x in s ==> m <= x
  {
    assert exists m :: m in s && forall x :: x in s ==> m <= x by {
      var m := MinExists(s);
    }
    var m :| m in s && forall x :: x in s ==> m <= x;
    m
  }

  /** ORDER BY key: the keys of a table in ascending order. */
  function Sorted(s: set<int>): (r: seq<int>)
    ensures |r| == |s|
  {
    if s == {} then [] else
      var m := Min(s);
      [m] + Sorted(s - {m})
  }

  lemma {:induction false} SortedIsAscending(s: set<int>)
    ensures Ascending(Sorted(s))
    ensures forall x :: x in Sorted(s) <==> x in s
  {
    if s != {} {
      var m := Min(s);
      var rest := s - {m};
      SortedIsAscending(rest);
      var tail := Sorted(rest);
      assert Sorted(s) == [m] + tail;
      forall j | 0 <= j < |tail| ensures m < tail[j] { assert tail[j] in tail && tail[j] in rest; }
      assert forall x :: x in s <==> x == m || x in rest;
    }
  }

  lemma SortedOrder(s: set<int>)
    ensures Ascending(Sorted(s))
  {
    SortedIsAscending(s);
  }

  lemma SortedHas(s: set<int>, x: int)
    ensures x in Sorted(s) <==> x in s
  {
    SortedIsAscending(s);
  }

  lemma SortedMember(s: set<int>, k: nat)
    requires k < |s|
    ensures Sorted(s)[k] in s
  {
    SortedIsAscending(s);
    assert Sorted(s)[k] in Sorted(s);
  }

  /** An ascending sequence is determined by its elements. */
  lemma {:induction false} AscendingUnique(a: seq<int>, b: seq<int>)
    requires Ascending(a) && Ascending(b)
    requires forall x :: x in a <==> x in b
    ensures a == b
  {
    assert a != [] ==> a[0] in a;
    assert b != [] ==> b[0] in b;
    if a != [] {
      assert a[0] in b && b[0] in a;
      var i :| 0 <= i < |b| && b[i] == a[0];
      var j :| 0 <= j < |a| && a[j] == b[0];
      assert i == 0 && j == 0;
      var a', b' := a[1..], b[1..];
      forall x ensures x in a' <==> x in b' {
        if x in a' {
          var k :| 0 <= k < |a'| && a'[k] == x;
          assert a[k + 1] == x && x in b && x != b[0];
          assert b == [b[0]] + b';
        }
        if x in b' {
          var k :| 0 <= k < |b'| && b'[k] == x;
          assert b[k + 1] == x && x in a && x != a[0];
          assert a == [a[0]] + a';
        }
      }
      AscendingUnique(a', b');
      assert a == [a[0]] + a' && b == [b[0]] + b';
    }
  }

  function Least(a: int, b: int): int { if a < b then a else b }

  /** `key > $1` with a NULL parameter meaning no bound. */
  predicate After(after: Option<int>, key: int) {
    after.None? || after.value < key
  }

  /** The first `limit` keys of a scan. */
  function FirstRows(s: seq<int>, limit: nat): seq<int> {
    if limit <= |s| then s[..limit] else s
  }

  lemma TailElements(all: seq<int>, n: nat, x: int)
    requires Ascending(all) && n <= |all|
    ensures x in all[n..] <==> x in all && (n == 0 || all[n - 1] < x)
  {
    if x in all[n..] {
      var k :| 0 <= k < |all| - n && all[n..][k] == x;
      assert all[n + k] == x;
    }
    if x in all && (n == 0 || all[n - 1] < x) {
      var k :| 0 <= k < |all| && all[k] == x;
      assert k >= n;
      assert all[n..][k - n] == x;
    }
  }

  /** What remains of an ordered scan after its first n keys is the scan restricted to later keys. */
  lemma ScanResumes(s: set<int>, n: nat, after: Option<int>, rest: set<int>)
    requires n <= |s|
    requires after == if n == 0 then None else Some(Sorted(s)[n - 1])
    requires forall x :: x in rest <==> x in s && After(after, x)
    ensures Sorted(rest) == Sorted(s)[n..]
  {
    var all := Sorted(s);
    SortedOrder(s);
    SortedOrder(rest);
    forall x ensures x in all[n..] <==> x in Sorted(rest) {
      TailElements(all, n, x);
      SortedHas(s, x);
      SortedHas(rest, x);
    }
    assert Ascending(all[n..]);
    AscendingUnique(Sorted(rest), all[n..]);
  }

  lemma FirstPageIsPrefix(s: set<int>, limit: nat)
    ensures var rows := FirstRows(Sorted(s), limit);
            && |rows| <= limit && |rows| <= |s| && rows == Sorted(s)[..|rows|]
            && (rows == [] <==> s == {} || limit == 0)
  {
    hide Sorted;
    var all := Sorted(s);
    assert |all| == |s|;
  }

  /** The first page of a scan holds its least keys. */
  lemma FirstPage(s: set<int>, limit: nat)
    ensures var rows := FirstRows(Sorted(s), limit);
            && (rows == [] <==> s == {} || limit == 0)
            && |rows| <= limit
            && (forall x :: x in rows ==> x in s && x <= rows[|rows| - 1])
            && (rows != [] ==> forall x :: x in s ==> x in rows || rows[|rows| - 1] < x)
  {
    hide Sorted, FirstRows;
    FirstPageIsPrefix(s, limit);
    var all := Sorted(s);
    var n := |FirstRows(all, limit)|;
    SortedOrder(s);
    forall x | x in all[..n] ensures x in s && x <= all[n - 1] {
      SortedHas(s, x);
    }
    forall x | x in s && n > 0 ensures x in all[..n] || all[n - 1] < x {
      SortedHas(s, x);
      TailElements(all, n, x);
      assert all == all[..n] + all[n..];
    }
  }

  function Elements(s: seq<int>): set<int> {
    set x | x in s
  }

  lemma {:induction false} FewerElements(s: seq<int>)
    ensures |Elements(s)| <= |s|
  {
    if s != [] {
      FewerElements(s[1..]);
      assert Elements(s) == Elements(s[1..]) + {s[0]};
    }
  }

  lemma {:induction false} DistinctElements(s: seq<int>)
    requires Ascending(s)
    ensures |Elements(s)| == |s|
  {
    if s != [] {
      DistinctElements(s[1..]);
      assert s[0] !in s[1..];
      assert Elements(s) == Elements(s[1..]) + {s[0]};
    }
  }

  /** SELECT key ... ORDER BY key LIMIT limit: which rows a page may hold. */
  ghost predicate IsPage(rows: seq<int>, s: set<int>, limit: int) {
    && Ascending(rows) && |rows| <= limit
    && (forall x :: x in rows ==> x in s)
    && (forall x :: x in s && x !in rows ==> |rows| == limit && forall y :: y in rows ==> y < x)
  }

  /** Of two sequences without repetitions, the one that is no shorter has an element the other lacks. */
  lemma SomeOtherElement(p: seq<int>, q: seq<int>, x: int) returns (y: int)
    requires Ascending(p) && Ascending(q) && |p| <= |q| && x in p && x !in q
    ensures y in q && y !in p
  {
    var a, b := Elements(p), Elements(q);
    DistinctElements(p);
    DistinctElements(q);
    assert a == (a * b) + (a - b) && b == (a * b) + (b - a);
    assert x in a - b;
    assert |b - a| > 0;
    NonEmpty(b - a);
    y :| y in b - a;
  }

  lemma PageHas(p: seq<int>, q: seq<int>, s: set<int>, limit: int, x: int)
    requires IsPage(p, s, limit) && IsPage(q, s, limit) && x in p
    ensures x in q
  {
    if x !in q {
      var y := SomeOtherElement(p, q, x);
    }
  }

  /** A page query has one answer: the first rows of the scan. */
  lemma FirstRowsAreThePage(rows: seq<int>, s: set<int>, limit: nat)
    ensures IsPage(rows, s, limit) <==> rows == FirstRows(Sorted(s), limit)
  {
    var first := FirstRows(Sorted(s), limit);
    FirstPage(s, limit);
    FirstPageIsPrefix(s, limit);
    SortedOrder(s);
    FirstRowsIsPage(s, limit);
    if IsPage(rows, s, limit) {
      forall x ensures x in rows <==> x in first {
        if x in rows { PageHas(rows, first, s, limit, x); }
        if x in first { PageHas(first, rows, s, limit, x); }
      }
      AscendingUnique(rows, first);
    }
  }

  lemma FirstRowsIsPage(s: set<int>, limit: nat)
    ensures IsPage(FirstRows(Sorted(s), limit), s, limit)
  {
    hide Sorted;
    SortedOrder(s);
    FirstPage(s, limit);
    var all, rows := Sorted(s), FirstRows(Sorted(s), limit);
    forall x | x in s && x !in rows
      ensures |rows| == limit
    {
      SortedHas(s, x);
      assert rows != all;
    }
  }
}
