/** The SQL operators the access queries are built from, over tables as lists of rows. */
module Queries {
  import opened Wrappers

  function MatchesOf<L, R>(l: L, rs: seq<R>, on: (L, R) -> bool): seq<(L, Option<R>)> {
    if rs == [] then []
    else (if on(l, rs[0]) then [(l, Some(rs[0]))] else []) + MatchesOf(l, rs[1..], on)
  }

  function LeftJoin<L, R>(ls: seq<L>, rs: seq<R>, on: (L, R) -> bool): seq<(L, Option<R>)> {
    if ls == [] then []
    else
      var matches := MatchesOf(ls[0], rs, on);
      (if matches == [] then [(ls[0], None)] else matches) + LeftJoin(ls[1..], rs, on)
  }

  function Where<T>(rows: seq<T>, keep: T -> bool): seq<T> {
    if rows == [] then [] else (if keep(rows[0]) then [rows[0]] else []) + Where(rows[1..], keep)
  }

  function Select<T, U>(rows: seq<T>, column: T -> U): (r: seq<U>)
    ensures |r| == |rows| && forall i :: 0 <= i < |rows| ==> r[i] == column(rows[i])
  {
    seq(|rows|, i requires 0 <= i < |rows| => column(rows[i]))
  }

  function Distinct<T(==)>(rows: seq<T>): seq<T> {
    if rows == [] then []
    else
      var front, last := Distinct(rows[..|rows| - 1]), rows[|rows| - 1];
      if last in front then front else front + [last]
  }

  ghost predicate NoDuplicates<T>(rows: seq<T>) {
    forall i, k :: 0 <= i < k < |rows| ==> rows[i] != rows[k]
  }

  ghost predicate AllMatched<L, R>(rows: seq<(L, Option<R>)>, l: L, rs: seq<R>, on: (L, R) -> bool) {
    forall k :: 0 <= k < |rows| ==>
      rows[k].0 == l && rows[k].1.Some? && rows[k].1.value in rs && on(l, rows[k].1.value)
  }

  lemma {:induction false} MatchRows<L, R>(l: L, rs: seq<R>, on: (L, R) -> bool)
    ensures AllMatched(MatchesOf(l, rs, on), l, rs, on)
    ensures forall r :: r in rs && on(l, r) ==> (l, Some(r)) in MatchesOf(l, rs, on)
  {
    if rs != [] {
      MatchRows(l, rs[1..], on);
      assert rs == [rs[0]] + rs[1..];
      var ms, rest := MatchesOf(l, rs, on), MatchesOf(l, rs[1..], on);
      assert AllMatched(rest, l, rs[1..], on);
      assert AllMatched(ms, l, rs, on) by {
        if on(l, rs[0]) { assert ms == [(l, Some(rs[0]))] + rest; } else { assert ms == rest; }
      }
    }
  }

  /** Nothing on the right matches. */
  ghost predicate Alone<L, R>(l: L, rs: seq<R>, on: (L, R) -> bool) {
    forall k :: 0 <= k < |rs| ==> !on(l, rs[k])
  }

  ghost predicate AllJoined<L, R>(rows: seq<(L, Option<R>)>, ls: seq<L>, rs: seq<R>, on: (L, R) -> bool) {
    forall k :: 0 <= k < |rows| ==>
      && rows[k].0 in ls
      && (rows[k].1.Some? ==> rows[k].1.value in rs && on(rows[k].0, rows[k].1.value))
      && (rows[k].1.None? ==> Alone(rows[k].0, rs, on))
  }

  /** A left join pairs a row with each match, or with NULL if it has none. */
  lemma {:induction false} LeftJoinRows<L, R>(ls: seq<L>, rs: seq<R>, on: (L, R) -> bool)
    ensures AllJoined(LeftJoin(ls, rs, on), ls, rs, on)
    ensures forall l, r :: l in ls && r in rs && on(l, r) ==> (l, Some(r)) in LeftJoin(ls, rs, on)
    ensures forall l :: l in ls && Alone(l, rs, on) ==> (l, None) in LeftJoin(ls, rs, on)
  {
    if ls != [] {
      LeftJoinRows(ls[1..], rs, on);
      MatchRows(ls[0], rs, on);
      assert ls == [ls[0]] + ls[1..];
      var matches, rest, js := MatchesOf(ls[0], rs, on), LeftJoin(ls[1..], rs, on), LeftJoin(ls, rs, on);
      assert AllMatched(matches, ls[0], rs, on);
      assert AllJoined(rest, ls[1..], rs, on);
      if matches == [] {
        assert Alone(ls[0], rs, on) by {
          forall k | 0 <= k < |rs| ensures !on(ls[0], rs[k]) {
            assert (ls[0], Some(rs[k])) !in matches;
          }
        }
        assert js == [(ls[0], None)] + rest;
      } else {
        assert !Alone(ls[0], rs, on) by { assert on(ls[0], matches[0].1.value); }
        assert js == matches + rest;
      }
    }
  }

  lemma {:induction false} WhereRows<T>(rows: seq<T>, keep: T -> bool)
    ensures forall row :: row in Where(rows, keep) <==> row in rows && keep(row)
  {
    if rows != [] {
      WhereRows(rows[1..], keep);
      assert rows == [rows[0]] + rows[1..];
    }
  }

  lemma SelectRows<T, U>(rows: seq<T>, column: T -> U)
    ensures forall u :: u in Select(rows, column) <==> exists row :: row in rows && column(row) == u
  {
    forall row | row in rows ensures column(row) in Select(rows, column) {
      var i :| 0 <= i < |rows| && rows[i] == row;
      assert Select(rows, column)[i] == column(row);
    }
    forall u | u in Select(rows, column) ensures exists row :: row in rows && column(row) == u {
      var i :| 0 <= i < |rows| && Select(rows, column)[i] == u;
      assert rows[i] in rows;
    }
  }

  lemma {:induction false} DistinctRows<T>(rows: seq<T>)
    ensures NoDuplicates(Distinct(rows))
    ensures forall i :: 0 <= i < |Distinct(rows)| ==> Distinct(rows)[i] in rows
    ensures forall row :: row in Distinct(rows) <==> row in rows
  {
    if rows != [] {
      DistinctRows(rows[..|rows| - 1]);
      assert rows == rows[..|rows| - 1] + [rows[|rows| - 1]];
    }
  }

  lemma {:induction false} DistinctLength<T>(rows: seq<T>, members: set<T>)
    requires NoDuplicates(rows) && forall x :: x in rows <==> x in members
    ensures |rows| == |members|
  {
    if rows == [] {
      assert members == {};
    } else {
      var last, front := rows[|rows| - 1], rows[..|rows| - 1];
      assert rows == front + [last];
      DistinctLength(front, members - {last});
    }
  }

  /** Two lists of the same rows without repetition are equally long. */
  lemma SameRowsSameLength<T>(a: seq<T>, b: seq<T>)
    requires NoDuplicates(a) && NoDuplicates(b) && forall x :: x in a <==> x in b
    ensures |a| == |b|
  {
    var members := set x | x in a;
    DistinctLength(a, members);
    DistinctLength(b, members);
  }

  /** COUNT(DISTINCT key) counts the distinct entities of the rows, if the key identifies them. */
  lemma CountByKey<T, U, K>(rows: seq<T>, entity: T -> U, key: U -> K, column: T -> K)
    requires forall row :: row in rows ==> column(row) == key(entity(row))
    requires forall a, b :: a in rows && b in rows && key(entity(a)) == key(entity(b)) ==> entity(a) == entity(b)
    ensures |Distinct(Select(rows, column))| == |Distinct(Select(rows, entity))|
  {
    var entities, ids := Distinct(Select(rows, entity)), Select(rows, column);
    DistinctRows(Select(rows, entity));
    DistinctRows(ids);
    SelectRows(rows, entity);
    SelectRows(rows, column);
    SelectRows(entities, key);
    forall i, k | 0 <= i < k < |entities| ensures key(entities[i]) != key(entities[k]) {
      var m :| 0 <= m < |rows| && Select(rows, entity)[m] == entities[i];
      var n :| 0 <= n < |rows| && Select(rows, entity)[n] == entities[k];
      assert rows[m] in rows && rows[n] in rows;
    }
    forall id ensures id in ids <==> id in Select(entities, key) {
      if id in ids {
        var row :| row in rows && column(row) == id;
        assert entity(row) in entities && key(entity(row)) == id;
      }
      if id in Select(entities, key) {
        var e :| e in entities && key(e) == id;
        var row :| row in rows && entity(row) == e;
        assert column(row) == id;
      }
    }
    SameRowsSameLength(Distinct(ids), Select(entities, key));
  }
}
