/** ORDER BY name ASC LIMIT n: rows in byte order of their names, and the first n of them. */
module NameOrder {
  import opened Tables

  predicate NameLeq(a: Name, b: Name) {
    a == [] || (b != [] && (a[0] < b[0] || (a[0] == b[0] && NameLeq(a[1..], b[1..]))))
  }

  /** Byte order: the first difference decides, and a name comes before those that continue it. */
  lemma {:induction false} NameLeqIs(prefix: Name, a: Name, b: Name)
    ensures a == [] ==> NameLeq(prefix + a, prefix + b)
    ensures a != [] && b == [] ==> !NameLeq(prefix + a, prefix + b)
    ensures a != [] && b != [] && a[0] != b[0] ==> (NameLeq(prefix + a, prefix + b) <==> a[0] < b[0])
  {
    if prefix == [] {
      assert prefix + a == a && prefix + b == b;
    } else {
      assert (prefix + a)[1..] == prefix[1..] + a && (prefix + b)[1..] == prefix[1..] + b;
      NameLeqIs(prefix[1..], a, b);
    }
  }

  lemma {:induction false} Total(a: Name, b: Name)
    ensures NameLeq(a, b) || NameLeq(b, a)
  {
    if a != [] && b != [] {
      Total(a[1..], b[1..]);
    }
  }

  lemma {:induction false} Transitive(a: Name, b: Name, c: Name)
    requires NameLeq(a, b) && NameLeq(b, c)
    ensures NameLeq(a, c)
  {
    if a != [] && a[0] == b[0] && b[0] == c[0] {
      Transitive(a[1..], b[1..], c[1..]);
    }
  }

  ghost predicate Sorted(rows: seq<HandleRow>) {
    forall i, j :: 0 <= i < j < |rows| ==> NameLeq(rows[i].name, rows[j].name)
  }

  /** Put a row behind everything that is not above it. */
  function InsertByName(rows: seq<HandleRow>, r: HandleRow): (s: seq<HandleRow>)
    ensures multiset(s) == multiset(rows) + multiset{r}
  {
    if rows == [] || NameLeq(rows[|rows| - 1].name, r.name) then rows + [r]
    else
      var n := |rows| - 1;
      assert rows == rows[..n] + [rows[n]];
      InsertByName(rows[..n], r) + [rows[n]]
  }

  function SortByName(rows: seq<HandleRow>): (s: seq<HandleRow>)
    ensures multiset(s) == multiset(rows) && |s| == |rows|
  {
    if rows == [] then []
    else
      var n := |rows| - 1;
      assert rows == rows[..n] + [rows[n]];
      var s := InsertByName(SortByName(rows[..n]), rows[n]);
      assert |s| == |multiset(s)| == |multiset(rows)|;
      s
  }

  lemma InsertMembers(rows: seq<HandleRow>, r: HandleRow)
    ensures forall x :: x in InsertByName(rows, r) <==> x in rows || x == r
  {
    var s := InsertByName(rows, r);
    forall x ensures x in s <==> x in rows || x == r {
      assert x in s <==> x in multiset(s);
      assert x in rows <==> x in multiset(rows);
    }
  }

  lemma {:induction false} InsertSorted(rows: seq<HandleRow>, r: HandleRow)
    requires Sorted(rows)
    ensures Sorted(InsertByName(rows, r))
  {
    if rows != [] {
      var n := |rows| - 1;
      if NameLeq(rows[n].name, r.name) {
        forall i | 0 <= i < n ensures NameLeq(rows[i].name, r.name) {
          Transitive(rows[i].name, rows[n].name, r.name);
        }
      } else {
        Total(rows[n].name, r.name);
        InsertSorted(rows[..n], r);
        InsertMembers(rows[..n], r);
        var s := InsertByName(rows[..n], r);
        forall i | 0 <= i < |s| ensures NameLeq(s[i].name, rows[n].name) {
          assert s[i] in s;
        }
      }
    }
  }

  lemma {:induction false} SortSorted(rows: seq<HandleRow>)
    ensures Sorted(SortByName(rows))
  {
    if rows != [] {
      SortSorted(rows[..|rows| - 1]);
      InsertSorted(SortByName(rows[..|rows| - 1]), rows[|rows| - 1]);
    }
  }

  lemma SortMembers(rows: seq<HandleRow>)
    ensures forall r :: r in SortByName(rows) <==> r in rows
  {
    forall r ensures r in SortByName(rows) <==> r in rows {
      assert r in SortByName(rows) <==> r in multiset(SortByName(rows));
      assert r in rows <==> r in multiset(rows);
    }
  }

  lemma {:induction false} InsertKeepsUnique(rows: seq<HandleRow>, r: HandleRow)
    requires UniqueNames(rows) && r.name !in Names(rows)
    ensures UniqueNames(InsertByName(rows, r))
  {
    assert forall i :: 0 <= i < |rows| ==> rows[i] in rows;
    if rows != [] && !NameLeq(rows[|rows| - 1].name, r.name) {
      var n := |rows| - 1;
      InsertKeepsUnique(rows[..n], r);
      InsertMembers(rows[..n], r);
      var s := InsertByName(rows[..n], r);
      forall x | x in rows[..n] ensures x.name != rows[n].name {
        var j :| 0 <= j < n && rows[j] == x;
      }
      forall i | 0 <= i < |s| ensures s[i].name != rows[n].name {
        assert s[i] in s;
      }
    }
  }

  lemma {:induction false} SortKeepsUnique(rows: seq<HandleRow>)
    requires UniqueNames(rows)
    ensures UniqueNames(SortByName(rows))
  {
    if rows != [] {
      var n := |rows| - 1;
      SortKeepsUnique(rows[..n]);
      SortMembers(rows[..n]);
      forall x | x in rows[..n] ensures x.name != rows[n].name {
        var i :| 0 <= i < n && rows[i] == x;
      }
      InsertKeepsUnique(SortByName(rows[..n]), rows[n]);
    }
  }

  function First(rows: seq<HandleRow>, n: nat): seq<HandleRow> {
    if n < |rows| then rows[..n] else rows
  }

  /** SELECT ... WHERE w ORDER BY name LIMIT n. */
  function SelectByName(rows: seq<HandleRow>, w: Where, n: nat): (s: seq<HandleRow>)
    ensures |s| == if n < Count(rows, w) then n else Count(rows, w)
  {
    CountIsSelected(rows, w);
    First(SortByName(Select(rows, w)), n)
  }

  /** The selection takes as many matching rows as the limit allows, each once, and none that it leaves out comes before one it takes. */
  lemma SelectByNameIs(rows: seq<HandleRow>, w: Where, n: nat)
    requires UniqueNames(rows)
    ensures var s := SelectByName(rows, w, n);
      && UniqueNames(s)
      && (forall r :: r in s ==> r in rows && w.Holds(r))
      && (forall a, b :: a in s && b in Select(rows, w) && b !in s ==> NameLeq(a.name, b.name))
      && Sorted(s)
      && (n >= Count(rows, w) ==> forall r :: r in rows && w.Holds(r) ==> r in s)
  {
    var sorted := SortByName(Select(rows, w));
    var s := SelectByName(rows, w, n);
    SelectUnique(rows, w);
    SortKeepsUnique(Select(rows, w));
    SortMembers(Select(rows, w));
    SortSorted(Select(rows, w));
    CountIsSelected(rows, w);
    forall a, b | a in s && b in Select(rows, w) && b !in s ensures NameLeq(a.name, b.name) {
      FirstBeforeRest(sorted, n, a, b);
    }
  }

  lemma FirstBeforeRest(sorted: seq<HandleRow>, n: nat, a: HandleRow, b: HandleRow)
    requires Sorted(sorted) && a in First(sorted, n) && b in sorted && b !in First(sorted, n)
    ensures NameLeq(a.name, b.name)
  {
    var s := First(sorted, n);
    var i :| 0 <= i < |s| && s[i] == a;
    var j :| 0 <= j < |sorted| && sorted[j] == b;
    assert forall k :: 0 <= k < |s| ==> sorted[k] == s[k] && s[k] in s;
  }
}
