/** Tables of grants: deleting by key, adding, merging, and looking a key up afterwards. */
module Grants {
  import opened Wrappers

  type Id = string

  /** A row of project_permissions or issue_permissions; the scope is the project or the issue. */
  datatype Grant = Grant(scope: Id, subjectType: string, subjectId: string, permission: string, effect: string)

  datatype Key = Key(scope: Id, subjectType: string, subjectId: string)

  type Table = seq<Grant>

  function KeyOf(g: Grant): Key {
    Key(g.scope, g.subjectType, g.subjectId)
  }

  ghost predicate UniqueKeys(rows: Table) {
    forall i, k :: 0 <= i < k < |rows| ==> KeyOf(rows[i]) != KeyOf(rows[k])
  }

  predicate HasKey(rows: Table, key: Key) {
    exists i :: 0 <= i < |rows| && KeyOf(rows[i]) == key
  }

  function Lookup(rows: Table, key: Key): (found: Option<Grant>)
    ensures found.Some? ==> KeyOf(found.value) == key && found.value in rows
  {
    if rows == [] then None
    else if KeyOf(rows[|rows| - 1]) == key then Some(rows[|rows| - 1])
    else Lookup(rows[..|rows| - 1], key)
  }

  /** DELETE ... WHERE: the rows whose key `gone` does not name. */
  function Without(rows: Table, gone: Key -> bool): Table {
    if rows == [] then []
    else Without(rows[..|rows| - 1], gone) + (if gone(KeyOf(rows[|rows| - 1])) then [] else [rows[|rows| - 1]])
  }

  lemma {:induction false} LookupFinds(rows: Table, key: Key)
    ensures Lookup(rows, key).Some? <==> HasKey(rows, key)
  {
    if rows != [] {
      var front := rows[..|rows| - 1];
      LookupFinds(front, key);
      if HasKey(front, key) {
        var i :| 0 <= i < |front| && KeyOf(front[i]) == key;
        assert KeyOf(rows[i]) == key;
      }
      forall i | 0 <= i < |rows| && KeyOf(rows[i]) == key ensures HasKey(front, key) || KeyOf(rows[|rows| - 1]) == key {
        if i < |front| { assert KeyOf(front[i]) == key; }
      }
      assert KeyOf(rows[|rows| - 1]) == key ==> HasKey(rows, key);
    }
  }

  lemma {:induction false} LookupUnique(rows: Table, i: nat)
    requires UniqueKeys(rows) && i < |rows|
    ensures Lookup(rows, KeyOf(rows[i])) == Some(rows[i])
  {
    if i < |rows| - 1 { LookupUnique(rows[..|rows| - 1], i); }
  }

  lemma {:induction false} LookupWithout(rows: Table, gone: Key -> bool, key: Key)
    ensures Lookup(Without(rows, gone), key) == if gone(key) then None else Lookup(rows, key)
  {
    if rows != [] {
      var front, last := Without(rows[..|rows| - 1], gone), rows[|rows| - 1];
      LookupWithout(rows[..|rows| - 1], gone, key);
      LookupAppend(front, [last], key);
      assert front + [] == front && [last][..0] == [];
    }
  }

  lemma {:induction false} WithoutLeaves(rows: Table, gone: Key -> bool)
    ensures forall i :: 0 <= i < |Without(rows, gone)| ==> !gone(KeyOf(Without(rows, gone)[i])) && HasKey(rows, KeyOf(Without(rows, gone)[i]))
  {
    if rows != [] {
      var front := rows[..|rows| - 1];
      WithoutLeaves(front, gone);
      forall key | HasKey(front, key) ensures HasKey(rows, key) {
        var i :| 0 <= i < |front| && KeyOf(front[i]) == key;
        assert KeyOf(rows[i]) == key;
      }
      assert HasKey(rows, KeyOf(rows[|rows| - 1]));
    }
  }

  lemma {:induction false} WithoutUnique(rows: Table, gone: Key -> bool)
    requires UniqueKeys(rows)
    ensures UniqueKeys(Without(rows, gone))
  {
    if rows != [] {
      var front, last := rows[..|rows| - 1], rows[|rows| - 1];
      WithoutUnique(front, gone);
      WithoutLeaves(front, gone);
      assert !HasKey(front, KeyOf(last));
    }
  }

  lemma {:induction false} LookupAppend(a: Table, b: Table, key: Key)
    ensures Lookup(a + b, key) == if Lookup(b, key).Some? then Lookup(b, key) else Lookup(a, key)
    decreases |b|
  {
    if b == [] {
      assert a + b == a;
    } else {
      assert (a + b)[..|a + b| - 1] == a + b[..|b| - 1];
      LookupAppend(a, b[..|b| - 1], key);
    }
  }

  lemma AppendUnique(a: Table, b: Table)
    requires UniqueKeys(a) && UniqueKeys(b)
    requires forall i, k :: 0 <= i < |a| && 0 <= k < |b| ==> KeyOf(a[i]) != KeyOf(b[k])
    ensures UniqueKeys(a + b)
  {
  }

  // ---------------------------------------------------------------- INSERT ... ON CONFLICT DO UPDATE

  function Stronger(a: string, b: string): string {
    if a == "admin" || b == "admin" then "admin"
    else if a == "create_issue" || b == "create_issue" then "create_issue"
    else "view"
  }

  /** `view`, `create_issue`, `admin`, from weak to strong. */
  function Rank(permission: string): nat {
    if permission == "admin" then 2 else if permission == "create_issue" then 1 else 0
  }

  /** Of two permissions a project can be shared with, the stronger one. */
  lemma StrongerIsOneOfThem(a: string, b: string)
    requires a in {"view", "create_issue", "admin"} && b in {"view", "create_issue", "admin"}
    ensures Stronger(a, b) == if Rank(a) < Rank(b) then b else a
  {
  }

  function Merged(held: Grant, g: Grant): Grant {
    held.(permission := Stronger(held.permission, g.permission), effect := "allow")
  }

  function Merge(rows: Table, g: Grant): Table {
    if rows == [] then [g]
    else if KeyOf(rows[|rows| - 1]) == KeyOf(g) then rows[..|rows| - 1] + [Merged(rows[|rows| - 1], g)]
    else Merge(rows[..|rows| - 1], g) + [rows[|rows| - 1]]
  }

  lemma {:induction false} LookupMerge(rows: Table, g: Grant, key: Key)
    ensures Lookup(Merge(rows, g), key) ==
      if key != KeyOf(g) then Lookup(rows, key)
      else match Lookup(rows, key) case None => Some(g) case Some(held) => Some(Merged(held, g))
  {
    if rows == [] {
      assert Lookup([], key) == None;
    } else {
      var front, last := rows[..|rows| - 1], rows[|rows| - 1];
      LookupMerge(front, g, key);
      var merged := Merge(rows, g);
      assert merged[..|merged| - 1] == if KeyOf(last) == KeyOf(g) then front else Merge(front, g);
    }
  }

  lemma {:induction false} MergeKeys(rows: Table, g: Grant)
    ensures forall i :: 0 <= i < |Merge(rows, g)| ==> KeyOf(Merge(rows, g)[i]) == KeyOf(g) || HasKey(rows, KeyOf(Merge(rows, g)[i]))
  {
    if rows != [] {
      var front := rows[..|rows| - 1];
      MergeKeys(front, g);
      forall key | HasKey(front, key) ensures HasKey(rows, key) {
        var i :| 0 <= i < |front| && KeyOf(front[i]) == key;
        assert KeyOf(rows[i]) == key;
      }
      assert HasKey(rows, KeyOf(rows[|rows| - 1]));
    }
  }

  lemma {:induction false} MergeUnique(rows: Table, g: Grant)
    requires UniqueKeys(rows)
    ensures UniqueKeys(Merge(rows, g))
  {
    if rows != [] {
      var front, last := rows[..|rows| - 1], rows[|rows| - 1];
      MergeUnique(front, g);
      MergeKeys(front, g);
      assert !HasKey(front, KeyOf(last));
    }
  }

  function MergeAll(rows: Table, gs: Table): Table {
    if gs == [] then rows else Merge(MergeAll(rows, gs[..|gs| - 1]), gs[|gs| - 1])
  }

  lemma {:induction false} LookupMergeAll(rows: Table, gs: Table, key: Key)
    requires UniqueKeys(gs)
    ensures Lookup(MergeAll(rows, gs), key) == match Lookup(gs, key)
      case None => Lookup(rows, key)
      case Some(g) => (match Lookup(rows, key) case None => Some(g) case Some(held) => Some(Merged(held, g)))
  {
    if gs != [] {
      var front, last := gs[..|gs| - 1], gs[|gs| - 1];
      LookupMergeAll(rows, front, key);
      LookupMerge(MergeAll(rows, front), last, key);
      LookupFinds(front, key);
      if KeyOf(last) == key { assert !HasKey(front, key); }
    }
  }

  lemma {:induction false} MergeAllUnique(rows: Table, gs: Table)
    requires UniqueKeys(rows)
    ensures UniqueKeys(MergeAll(rows, gs))
  {
    if gs != [] {
      MergeAllUnique(rows, gs[..|gs| - 1]);
      MergeUnique(MergeAll(rows, gs[..|gs| - 1]), gs[|gs| - 1]);
    }
  }
}
