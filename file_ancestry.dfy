/** The parent relation of the `file` table: ancestor chains, acyclicity and
    subtrees, with the facts the table operations rely on. */
module FileAncestry {
  import opened Common
  import opened FileSchema

  /** The parent of `x`, or `None` for a root or a missing row. */
  function Parent(rows: Table, x: Id): Option<Id>
  {
    if x in rows then rows[x].parentId else None
  }

  /** The ancestor `n` levels above `x`; `None` once the chain has ended. */
  function Up(rows: Table, x: Id, n: nat): Option<Id>
  {
    if n == 0 then Some(x)
    else match Up(rows, x, n - 1)
      case None => None
      case Some(y) => Parent(rows, y)
  }

  ghost predicate IsStrictAncestor(rows: Table, a: Id, x: Id)
  {
    exists n: nat :: 1 <= n && Up(rows, x, n) == Some(a)
  }

  /** `x` is `a` or lies below it. */
  ghost predicate InSubtree(rows: Table, a: Id, x: Id)
  {
    x == a || IsStrictAncestor(rows, a, x)
  }

  /** No row is its own ancestor. */
  ghost predicate Acyclic(rows: Table)
  {
    forall x: Id, n: nat :: 1 <= n ==> Up(rows, x, n) != Some(x)
  }

  /** Every parent reference names an existing row (the foreign key on `parent_id`). */
  ghost predicate ParentsExist(rows: Table)
  {
    forall x :: x in rows && rows[x].parentId.Some? ==> rows[x].parentId.value in rows
  }

  /** The rows of the subtree rooted at `a`, `a` included. */
  ghost function Subtree(rows: Table, a: Id): set<Id>
  {
    set x | x in rows && InSubtree(rows, a, x)
  }

  /** The rows whose chain passes through `p` strictly above them (for
      `p == None`: whose chain ends); the termination measure of tree walks. */
  ghost function Below(rows: Table, p: Option<Id>): set<Id>
  {
    set x | x in rows && exists n: nat :: 1 <= n && Up(rows, x, n) == p
  }

  // ---------------------------------------------------------------------
  // Chain arithmetic

  lemma {:induction false} UpFirstStep(rows: Table, x: Id, n: nat)
    ensures Up(rows, x, n + 1) == match Parent(rows, x)
      case None => None
      case Some(p) => Up(rows, p, n)
  {
    if n > 0 {
      UpFirstStep(rows, x, n - 1);
    }
  }

  lemma {:induction false} UpAdd(rows: Table, x: Id, a: nat, b: nat)
    requires Up(rows, x, a).Some?
    ensures Up(rows, x, a + b) == Up(rows, Up(rows, x, a).value, b)
  {
    if b > 0 {
      UpAdd(rows, x, a, b - 1);
    }
  }

  lemma {:induction false} UpNoneStays(rows: Table, x: Id, n: nat, m: nat)
    requires n <= m && Up(rows, x, n).None?
    ensures Up(rows, x, m).None?
  {
    if m > n {
      UpNoneStays(rows, x, n, m - 1);
    }
  }

  /** A chain that goes on past level `n` passes through an existing row there. */
  lemma UpContinues(rows: Table, x: Id, n: nat, m: nat)
    requires n < m && Up(rows, x, m).Some?
    ensures Up(rows, x, n).Some? && Up(rows, x, n).value in rows
  {
    if Up(rows, x, n).None? {
      UpNoneStays(rows, x, n, m);
    } else if Up(rows, x, n).value !in rows {
      UpNoneStays(rows, x, n + 1, m);
    }
  }

  /** Transitivity of "lies below". */
  lemma InSubtreeTrans(rows: Table, a: Id, b: Id, x: Id)
    requires InSubtree(rows, a, b) && InSubtree(rows, b, x)
    ensures InSubtree(rows, a, x)
  {
    if x != b && b != a {
      var n: nat :| 1 <= n && Up(rows, x, n) == Some(b);
      var m: nat :| 1 <= m && Up(rows, b, m) == Some(a);
      UpAdd(rows, x, n, m);
    } else if b != a {
      assert x == b;
    }
  }

  // ---------------------------------------------------------------------
  // Chains in an acyclic table are short

  lemma {:induction false} Pigeonhole(s: seq<Id>, keys: set<Id>)
    requires forall i :: 0 <= i < |s| ==> s[i] in keys
    requires |s| > |keys|
    ensures exists i, j :: 0 <= i < j < |s| && s[i] == s[j]
  {
    if s[0] in s[1..] {
      var k :| 0 <= k < |s[1..]| && s[1..][k] == s[0];
      assert s[0] == s[k + 1];
    } else {
      var rest := keys - {s[0]};
      assert |rest| == |keys| - 1;
      Pigeonhole(s[1..], rest);
      var i, j :| 0 <= i < j < |s[1..]| && s[1..][i] == s[1..][j];
      assert s[i + 1] == s[j + 1];
    }
  }

  /** In an acyclic table every ancestor chain ends within `|rows| + 1` steps. */
  lemma ChainEnds(rows: Table, x: Id)
    requires Acyclic(rows)
    ensures Up(rows, x, |rows| + 1).None?
  {
    var N := |rows|;
    if Up(rows, x, N + 1).Some? {
      forall i | 0 <= i <= N
        ensures Up(rows, x, i).Some? && Up(rows, x, i).value in rows
      {
        UpContinues(rows, x, i, N + 1);
      }
      var s := seq(N + 1, i requires 0 <= i <= N => Up(rows, x, i).value);
      Pigeonhole(s, rows.Keys);
      var i, j :| 0 <= i < j < |s| && s[i] == s[j];
      UpAdd(rows, x, i, j - i);
      assert false;
    }
  }

  // ---------------------------------------------------------------------
  // Chains under a change of the table

  /** Two tables whose parents agree except at `d` give the same chain up to
      the first visit of `d`. */
  lemma {:induction false} UpAgreeExcept(r1: Table, r2: Table, x: Id, n: nat, d: Id)
    requires forall y :: y != d ==> Parent(r1, y) == Parent(r2, y)
    requires forall k: nat :: k < n ==> Up(r1, x, k) != Some(d)
    ensures Up(r1, x, n) == Up(r2, x, n)
  {
    if n > 0 {
      UpAgreeExcept(r1, r2, x, n - 1, d);
    }
  }

  /** A chain of a sub-table is a chain of the full table. */
  lemma {:induction false} UpInSubtable(sub: Table, full: Table, x: Id, n: nat)
    requires forall y :: y in sub ==> y in full && full[y].parentId == sub[y].parentId
    requires Up(sub, x, n).Some?
    ensures Up(full, x, n) == Up(sub, x, n)
  {
    if n > 0 {
      UpInSubtable(sub, full, x, n - 1);
    }
  }

  /** A chain of the full table that stays among the rows of a sub-table is
      a chain of the sub-table. */
  lemma {:induction false} UpStaysInSubtable(sub: Table, full: Table, x: Id, n: nat)
    requires forall y :: y in sub ==> y in full && full[y].parentId == sub[y].parentId
    requires forall k: nat :: k < n && Up(full, x, k).Some? ==> Up(full, x, k).value in sub
    ensures Up(sub, x, n) == Up(full, x, n)
  {
    if n > 0 {
      UpStaysInSubtable(sub, full, x, n - 1);
    }
  }

  /** Removing rows keeps a table acyclic. */
  lemma SubtableAcyclic(sub: Table, full: Table)
    requires forall y :: y in sub ==> y in full && full[y].parentId == sub[y].parentId
    requires Acyclic(full)
    ensures Acyclic(sub)
  {
    forall x: Id, n: nat | 1 <= n
      ensures Up(sub, x, n) != Some(x)
    {
      if Up(sub, x, n).Some? {
        UpInSubtable(sub, full, x, n);
      }
    }
  }

  /** Tables with the same parents have the same chains. */
  lemma SameParentsAcyclic(r1: Table, r2: Table)
    requires r1.Keys == r2.Keys
    requires forall y :: y in r1 ==> r1[y].parentId == r2[y].parentId
    requires Acyclic(r1)
    ensures Acyclic(r2)
  {
    SubtableAcyclic(r2, r1);
  }

  lemma SameParentsSubtree(r1: Table, r2: Table, a: Id, x: Id)
    requires r1.Keys == r2.Keys
    requires forall y :: y in r1 ==> r1[y].parentId == r2[y].parentId
    ensures InSubtree(r1, a, x) <==> InSubtree(r2, a, x)
  {
    if IsStrictAncestor(r1, a, x) {
      var n: nat :| 1 <= n && Up(r1, x, n) == Some(a);
      UpInSubtable(r1, r2, x, n);
    }
    if IsStrictAncestor(r2, a, x) {
      var n: nat :| 1 <= n && Up(r2, x, n) == Some(a);
      UpInSubtable(r2, r1, x, n);
    }
  }

  /** Giving `id` a new parent `q` that is not in `id`'s own subtree keeps the
      table acyclic. This covers `move`, `rename`, and inserting a new row
      (an `id` nobody refers to). */
  lemma Reparent(rows: Table, r2: Table, id: Id, q: Option<Id>)
    requires Acyclic(rows)
    requires forall y :: y != id ==> Parent(r2, y) == Parent(rows, y)
    requires Parent(r2, id) == q
    requires q.None? || !InSubtree(rows, id, q.value)
    ensures Acyclic(r2)
  {
    forall y: Id, n: nat | 1 <= n
      ensures Up(r2, y, n) != Some(y)
    {
      if Up(r2, y, n) == Some(y) {
        if k: nat :| k < n && Up(r2, y, k) == Some(id) {
          UpAdd(r2, y, k, n);
          UpAdd(r2, y, n, k);
          assert Up(r2, id, n) == Some(id);
          UpFirstStep(r2, id, n - 1);
          var p := q.value;
          forall j: nat | j < n - 1
            ensures Up(rows, p, j) != Some(id)
          {
            assert j > 0 ==> Up(rows, p, j) != Some(id);
          }
          UpAgreeExcept(rows, r2, p, n - 1, id);
          assert false;
        } else {
          UpAgreeExcept(r2, rows, y, n, id);
          assert false;
        }
      }
    }
  }

  /** Inserting a row with a fresh id below an existing row (or at the root)
      keeps the table acyclic and leaves every other chain as it was. */
  lemma InsertFresh(rows: Table, f: Id, row: FileRow)
    requires Acyclic(rows) && ParentsExist(rows)
    requires f !in rows
    requires row.parentId.None? || row.parentId.value in rows
    ensures Acyclic(rows[f := row]) && ParentsExist(rows[f := row])
    ensures forall y: Id, n: nat :: y != f ==> Up(rows[f := row], y, n) == Up(rows, y, n)
  {
    var r2 := rows[f := row];
    forall y: Id, n: nat | y != f
      ensures Up(r2, y, n) == Up(rows, y, n)
    {
      NeverVisits(rows, y, f, n);
      UpAgreeExcept(rows, r2, y, n, f);
    }
    if row.parentId.Some? && InSubtree(rows, f, row.parentId.value) {
      var n: nat :| 1 <= n && Up(rows, row.parentId.value, n) == Some(f);
      NeverVisits(rows, row.parentId.value, f, n + 1);
    }
    Reparent(rows, r2, f, row.parentId);
  }

  /** A chain that does not start at an id nobody refers to never reaches it. */
  lemma NeverVisits(rows: Table, y: Id, f: Id, n: nat)
    requires ParentsExist(rows) && f !in rows && y != f
    ensures forall k: nat :: k < n ==> Up(rows, y, k) != Some(f)
  {
    forall k: nat | k < n
      ensures Up(rows, y, k) != Some(f)
    {
      if k > 0 && Up(rows, y, k) == Some(f) {
        UpContinues(rows, y, k - 1, k);
      }
    }
  }

  // ---------------------------------------------------------------------
  // Subtrees

  /** A child's strict descendants are fewer than its parent's: the measure
      that makes walks down the tree terminate. */
  lemma BelowShrinks(rows: Table, c: Id)
    requires Acyclic(rows) && c in rows
    ensures Below(rows, Some(c)) < Below(rows, Parent(rows, c))
    ensures |Below(rows, Some(c))| < |Below(rows, Parent(rows, c))|
  {
    var p := Parent(rows, c);
    forall x | x in Below(rows, Some(c))
      ensures x in Below(rows, p)
    {
      var n: nat :| 1 <= n && Up(rows, x, n) == Some(c);
      assert Up(rows, x, n + 1) == p;
    }
    assert Up(rows, c, 1) == p;
    assert c in Below(rows, p);
    assert c !in Below(rows, Some(c));
    var small, big := Below(rows, Some(c)), Below(rows, p);
    assert small <= big - {c};
    SubsetCard(small, big - {c});
  }

  lemma SubsetCard(a: set<Id>, b: set<Id>)
    requires a <= b
    ensures |a| <= |b|
  {
    assert b == a + (b - a);
  }

  /** A row other than `a` lies below `a` exactly when it lies in the subtree
      of one of `a`'s children. */
  lemma SubtreeByChildren(rows: Table, a: Id, x: Id)
    requires x != a
    ensures IsStrictAncestor(rows, a, x) <==>
      exists c :: c in rows && rows[c].parentId == Some(a) && InSubtree(rows, c, x)
  {
    if IsStrictAncestor(rows, a, x) {
      var n: nat :| 1 <= n && Up(rows, x, n) == Some(a);
      UpContinues(rows, x, n - 1, n);
      var c := Up(rows, x, n - 1).value;
      assert n - 1 >= 1 ==> IsStrictAncestor(rows, c, x);
      assert InSubtree(rows, c, x);
    }
    if c :| c in rows && rows[c].parentId == Some(a) && InSubtree(rows, c, x) {
      assert Up(rows, c, 1) == Some(a);
      InSubtreeTrans(rows, a, c, x);
    }
  }

  /** A row's parent never lies in the row's own subtree. */
  lemma ParentOutside(rows: Table, x: Id, p: Id)
    requires Acyclic(rows) && x in rows && rows[x].parentId == Some(p)
    ensures !InSubtree(rows, x, p)
  {
    assert Up(rows, x, 1) == Some(p);
    if p == x {
      assert false;
    } else if IsStrictAncestor(rows, x, p) {
      var n: nat :| 1 <= n && Up(rows, p, n) == Some(x);
      UpFirstStep(rows, x, n);
      assert false;
    }
  }

  /** A child of a row outside `a`'s subtree is outside it too, unless it is `a`. */
  lemma ChildOutside(rows: Table, a: Id, c: Id, cur: Option<Id>)
    requires c in rows && c != a && rows[c].parentId == cur
    requires cur.None? || !InSubtree(rows, a, cur.value)
    ensures !InSubtree(rows, a, c)
  {
    if IsStrictAncestor(rows, a, c) {
      var n: nat :| 1 <= n && Up(rows, c, n) == Some(a);
      UpFirstStep(rows, c, n - 1);
    }
  }

  /** One step of the ancestor relation: `a` is above `t` exactly when it is
      `t`'s parent or above that parent. */
  lemma StrictAncestorStep(rows: Table, a: Id, t: Id)
    ensures IsStrictAncestor(rows, a, t) <==>
      Parent(rows, t).Some? && (Parent(rows, t) == Some(a) || IsStrictAncestor(rows, a, Parent(rows, t).value))
  {
    if IsStrictAncestor(rows, a, t) {
      var n: nat :| 1 <= n && Up(rows, t, n) == Some(a);
      UpFirstStep(rows, t, n - 1);
      if n - 1 > 0 {
        assert IsStrictAncestor(rows, a, Parent(rows, t).value);
      }
    }
    if Parent(rows, t).Some? {
      var p := Parent(rows, t).value;
      assert Up(rows, t, 1) == Some(p);
      if IsStrictAncestor(rows, a, p) {
        var n: nat :| 1 <= n && Up(rows, p, n) == Some(a);
        UpFirstStep(rows, t, n);
        assert Up(rows, t, n + 1) == Some(a);
      }
    }
  }

  /** Inserting a fresh row changes no other row's subtree membership. */
  lemma InsertKeepsSubtree(rows: Table, f: Id, row: FileRow, a: Id, x: Id)
    requires Acyclic(rows) && ParentsExist(rows)
    requires f !in rows && x != f
    requires row.parentId.None? || row.parentId.value in rows
    ensures InSubtree(rows[f := row], a, x) <==> InSubtree(rows, a, x)
  {
    InsertFresh(rows, f, row);
    var r2 := rows[f := row];
    if IsStrictAncestor(rows, a, x) {
      var n: nat :| 1 <= n && Up(rows, x, n) == Some(a);
      assert Up(r2, x, n) == Some(a);
    }
    if IsStrictAncestor(r2, a, x) {
      var n: nat :| 1 <= n && Up(r2, x, n) == Some(a);
      assert Up(rows, x, n) == Some(a);
    }
  }

  // ---------------------------------------------------------------------
  // Removing whole subtrees

  /** `d` holds, with every row it holds, that row's whole subtree. */
  ghost predicate DownClosed(rows: Table, d: set<Id>)
  {
    forall y, x :: y in d && x in rows && InSubtree(rows, y, x) ==> x in d
  }

  lemma SubtreeDownClosed(rows: Table, a: Id)
    ensures DownClosed(rows, Subtree(rows, a))
  {
    forall y, x | y in Subtree(rows, a) && x in rows && InSubtree(rows, y, x)
      ensures x in Subtree(rows, a)
    {
      InSubtreeTrans(rows, a, y, x);
    }
  }

  /** Removing a set of rows closed under "lies below" keeps the foreign key
      and acyclicity. */
  lemma RemoveClosed(rows: Table, d: set<Id>)
    requires ParentsExist(rows) && Acyclic(rows) && DownClosed(rows, d)
    ensures ParentsExist(rows - d) && Acyclic(rows - d)
  {
    SubtableAcyclic(rows - d, rows);
    forall x | x in rows - d && (rows - d)[x].parentId.Some?
      ensures (rows - d)[x].parentId.value in rows - d
    {
      var p := rows[x].parentId.value;
      assert Up(rows, x, 1) == Some(p);
      assert InSubtree(rows, p, x);
    }
  }

  /** After removing such a set, the remaining rows have the subtrees they had. */
  lemma RemoveClosedSubtree(rows: Table, d: set<Id>, c: Id, x: Id)
    requires DownClosed(rows, d) && x in rows && x !in d
    ensures InSubtree(rows - d, c, x) <==> InSubtree(rows, c, x)
  {
    var sub := rows - d;
    if IsStrictAncestor(sub, c, x) {
      var n: nat :| 1 <= n && Up(sub, x, n) == Some(c);
      UpInSubtable(sub, rows, x, n);
    }
    if IsStrictAncestor(rows, c, x) {
      var n: nat :| 1 <= n && Up(rows, x, n) == Some(c);
      forall k: nat | k < n && Up(rows, x, k).Some?
        ensures Up(rows, x, k).value in sub
      {
        UpContinues(rows, x, k, n);
        var z := Up(rows, x, k).value;
        if k > 0 {
          assert IsStrictAncestor(rows, z, x);
        }
        assert InSubtree(rows, z, x);
      }
      UpStaysInSubtable(sub, rows, x, n);
    }
  }
}
