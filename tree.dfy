/**
 Tree queries over parent links: direct children, descendants (everything reachable by
 repeatedly following children, excluding the comment itself) and their counts.
 */
module Tree {
  import opened Records

  /** The rows whose parent is one of `s`. */
  function ChildrenOf(db: Rows, s: set<Id>): (r: set<Id>)
    ensures forall k :: k in r <==> k in db && db[k].parent.Some? && db[k].parent.value in s
  {
    set k | k in db && db[k].parent.Some? && db[k].parent.value in s
  }

  /** The direct children of `id`. */
  function Children(db: Rows, id: Id): (r: set<Id>)
    ensures forall k :: k in r <==> k in db && db[k].parent == Some(id)
  {
    ChildrenOf(db, {id})
  }

  /** `t` contains every child of each of its members. */
  ghost predicate ClosedUnderChildren(db: Rows, t: set<Id>)
  {
    forall k :: k in db && db[k].parent.Some? && db[k].parent.value in t ==> k in t
  }

  /** The least set that contains `s` and is closed under taking children. */
  function Close(db: Rows, s: set<Id>): (r: set<Id>)
    requires s <= db.Keys
    ensures s <= r <= db.Keys
    ensures ClosedUnderChildren(db, r)
    ensures forall t :: s <= t && ClosedUnderChildren(db, t) ==> r <= t
    decreases |db.Keys - s|
  {
    var next := s + ChildrenOf(db, s);
    if next == s then s
    else
      assert db.Keys - next < db.Keys - s;
      ProperSubsetSmaller(db.Keys - next, db.Keys - s);
      Close(db, next)
  }

  /** The strict descendants of `id`. */
  function Descendants(db: Rows, id: Id): (r: set<Id>)
    ensures r <= db.Keys && id !in r
  {
    Close(db, Children(db, id)) - {id}
  }

  /** `children_count`: the number of direct children. */
  function ChildrenCount(db: Rows, id: Id): nat
  {
    |Children(db, id)|
  }

  /** `descendant_count`: the number of strict descendants. */
  function DescendantCount(db: Rows, id: Id): nat
  {
    |Descendants(db, id)|
  }

  /** `p` walks down the tree: every entry after the first is a stored child of the entry before it. */
  ghost predicate ChildPath(db: Rows, p: seq<Id>)
  {
    |p| >= 1 && forall i :: 1 <= i < |p| ==> p[i] in db && db[p[i]].parent == Some(p[i - 1])
  }

  /** `k` is reached from `a` by following children one or more times. */
  ghost predicate Reachable(db: Rows, a: Id, k: Id)
  {
    exists p :: ChildPath(db, p) && |p| >= 2 && p[0] == a && p[|p| - 1] == k
  }

  /** No comment is its own descendant. */
  ghost predicate Acyclic(db: Rows)
  {
    forall k :: k in db ==> !Reachable(db, k, k)
  }

  lemma {:induction false} PathInClosure(db: Rows, p: seq<Id>, i: nat)
    requires ChildPath(db, p) && 1 <= i < |p|
    ensures p[i] in Close(db, Children(db, p[0]))
  {
    if i > 1 {
      PathInClosure(db, p, i - 1);
    }
  }

  /** The descendants are exactly the comments reachable through children, excluding the comment itself. */
  lemma DescendantsAreReachable(db: Rows, a: Id, k: Id)
    ensures k in Descendants(db, a) <==> k != a && Reachable(db, a, k)
  {
    if k != a && Reachable(db, a, k) {
      var p :| ChildPath(db, p) && |p| >= 2 && p[0] == a && p[|p| - 1] == k;
      PathInClosure(db, p, |p| - 1);
    }
    if k in Descendants(db, a) {
      var t := set j | j in db && Reachable(db, a, j);
      forall j | j in Children(db, a) ensures j in t {
        assert ChildPath(db, [a, j]);
      }
      forall j | j in db && db[j].parent.Some? && db[j].parent.value in t ensures j in t {
        var q := db[j].parent.value;
        var p :| ChildPath(db, p) && |p| >= 2 && p[0] == a && p[|p| - 1] == q;
        assert ChildPath(db, p + [j]);
      }
      assert ClosedUnderChildren(db, t);
    }
  }

  /** In an acyclic store the direct children are among the descendants, so they are never more. */
  lemma ChildrenWithinDescendants(db: Rows, id: Id)
    requires Acyclic(db)
    ensures Children(db, id) <= Descendants(db, id)
    ensures ChildrenCount(db, id) <= DescendantCount(db, id)
    ensures id in db ==> DescendantCount(db, id) < |db|
  {
    forall k | k in Children(db, id) ensures k in Descendants(db, id) {
      assert ChildPath(db, [id, k]);
      DescendantsAreReachable(db, id, k);
    }
    SubsetCard(Children(db, id), Descendants(db, id));
    if id in db {
      SubsetCard(Descendants(db, id), db.Keys);
      assert id in db.Keys - Descendants(db, id);
    }
  }

  /** Attaching a fresh comment `n` whose parent, if any, is already stored. */
  ghost predicate FreshAttach(db: Rows, n: Id, c: Comment)
  {
    Linked(db) && n !in db && (c.parent.Some? ==> c.parent.value in db)
  }

  /** Reachability after attaching `n`: old paths survive, and `n` is reached exactly through its parent. */
  lemma AttachReachable(db: Rows, n: Id, c: Comment, a: Id, k: Id)
    requires FreshAttach(db, n, c)
    ensures Reachable(db[n := c], a, k) <==>
      (k != n && Reachable(db, a, k)) ||
      (k == n && c.parent.Some? && (c.parent.value == a || Reachable(db, a, c.parent.value)))
  {
    var db' := db[n := c];
    if Reachable(db', a, k) {
      var p :| ChildPath(db', p) && |p| >= 2 && p[0] == a && p[|p| - 1] == k;
      // no inner node of the path is `n`: `n` has no children
      forall i | 0 <= i < |p| - 1 ensures p[i] != n && (i >= 1 ==> p[i] in db && db[p[i]] == db'[p[i]]) {
        assert p[i + 1] in db' && db'[p[i + 1]].parent == Some(p[i]);
        if p[i + 1] != n {
          assert db[p[i + 1]].parent == Some(p[i]);
        }
      }
      if k != n {
        assert ChildPath(db, p);
      } else {
        assert db'[n].parent == Some(p[|p| - 2]);
        if |p| > 2 {
          var q := p[..|p| - 1];
          assert ChildPath(db, q);
          assert q[0] == a && q[|q| - 1] == c.parent.value;
        }
      }
    }
    if k != n && Reachable(db, a, k) {
      var p :| ChildPath(db, p) && |p| >= 2 && p[0] == a && p[|p| - 1] == k;
      assert ChildPath(db', p);
    }
    if k == n && c.parent.Some? {
      if c.parent.value == a {
        assert ChildPath(db', [a, n]);
        assert Reachable(db', a, k);
      } else if Reachable(db, a, c.parent.value) {
        var p :| ChildPath(db, p) && |p| >= 2 && p[0] == a && p[|p| - 1] == c.parent.value;
        var q := p + [n];
        assert ChildPath(db', q);
        assert q[0] == a && q[|q| - 1] == n;
        assert Reachable(db', a, k);
      }
    }
  }

  /** Under referential integrity a walk down the tree can only start at a stored comment. */
  lemma ReachableFromStored(db: Rows, a: Id, x: Id)
    requires Linked(db) && Reachable(db, a, x)
    ensures a in db
  {
    var p :| ChildPath(db, p) && |p| >= 2 && p[0] == a && p[|p| - 1] == x;
    assert p[1] in db;
  }

  /** Attaching a fresh comment under an existing parent never closes a cycle. */
  lemma AttachKeepsAcyclic(db: Rows, n: Id, c: Comment)
    requires FreshAttach(db, n, c) && Acyclic(db)
    ensures Linked(db[n := c]) && Acyclic(db[n := c])
  {
    var db' := db[n := c];
    forall k | k in db' ensures !Reachable(db', k, k) {
      AttachReachable(db, n, c, k, k);
      if c.parent.Some? && Reachable(db, n, c.parent.value) {
        ReachableFromStored(db, n, c.parent.value);
      }
    }
  }

  /**
   Attaching `n` adds it to the descendants of its parent and of every ancestor of its parent,
   and leaves every other descendant set as it was; `n` itself starts with none.
   */
  lemma AttachDescendants(db: Rows, n: Id, c: Comment, a: Id)
    requires FreshAttach(db, n, c)
    ensures Descendants(db[n := c], a) ==
      if a == n then {}
      else if c.parent.Some? && (c.parent.value == a || c.parent.value in Descendants(db, a))
      then Descendants(db, a) + {n}
      else Descendants(db, a)
  {
    var db' := db[n := c];
    forall k ensures k in Descendants(db', a) <==>
      (a != n && (k in Descendants(db, a) ||
        (k == n && c.parent.Some? && (c.parent.value == a || c.parent.value in Descendants(db, a)))))
    {
      DescendantsAreReachable(db', a, k);
      DescendantsAreReachable(db, a, k);
      AttachReachable(db, n, c, a, k);
      if c.parent.Some? {
        DescendantsAreReachable(db, a, c.parent.value);
      }
    }
  }

  /** The counts after attaching `n`: its parent gains one child, each ancestor one descendant. */
  lemma AttachCounts(db: Rows, n: Id, c: Comment, a: Id)
    requires FreshAttach(db, n, c)
    ensures ChildrenCount(db[n := c], a) == ChildrenCount(db, a) + (if c.parent == Some(a) then 1 else 0)
    ensures DescendantCount(db[n := c], a) == DescendantCount(db, a) +
      (if a != n && c.parent.Some? && (c.parent.value == a || c.parent.value in Descendants(db, a)) then 1 else 0)
    ensures ChildrenCount(db[n := c], n) == 0 && DescendantCount(db[n := c], n) == 0
  {
    var db' := db[n := c];
    assert Children(db', a) == Children(db, a) + (if c.parent == Some(a) then {n} else {});
    AttachDescendants(db, n, c, a);
    AttachDescendants(db, n, c, n);
    assert Children(db', n) == {};
  }

  /** Giving the stored comment `n` the record `c`, whose parent (if any) is stored and lies outside the subtree of `n`. */
  ghost predicate SafeReparent(db: Rows, n: Id, c: Comment)
  {
    Linked(db) && n in db &&
    (c.parent.Some? ==> c.parent.value in db && c.parent.value != n && c.parent.value !in Descendants(db, n))
  }

  /** After such a re-parent, a walk down from `n` stays among the old descendants of `n`, so it never returns to `n`. */
  lemma {:induction false} ReparentPathStaysBelow(db: Rows, n: Id, c: Comment, q: seq<Id>, i: nat)
    requires SafeReparent(db, n, c)
    requires ChildPath(db[n := c], q) && q[0] == n && 1 <= i < |q|
    ensures q[i] in Descendants(db, n)
  {
    var db' := db[n := c];
    if i > 1 {
      ReparentPathStaysBelow(db, n, c, q, i - 1);
    }
    assert db'[q[i]].parent == Some(q[i - 1]);
    assert q[i] != n;
    assert db[q[i]].parent == Some(q[i - 1]);
    if i == 1 {
      assert q[i] in Children(db, n);
    }
  }

  /** A re-parent outside the comment's own subtree keeps an acyclic store acyclic. */
  lemma ReparentKeepsAcyclic(db: Rows, n: Id, c: Comment)
    requires SafeReparent(db, n, c) && Acyclic(db)
    ensures Linked(db[n := c]) && Acyclic(db[n := c])
  {
    var db' := db[n := c];
    forall k | k in db' ensures !Reachable(db', k, k) {
      if Reachable(db', k, k) {
        var p :| ChildPath(db', p) && |p| >= 2 && p[0] == k && p[|p| - 1] == k;
        if j :| 1 <= j < |p| && p[j] == n {
          // rotate the cycle so that it starts and ends at `n`
          var q := p[j..] + p[1..j + 1];
          var t := |p| - j;
          forall m | 1 <= m < |q| ensures q[m] in db' && db'[q[m]].parent == Some(q[m - 1]) {
            if m < t {
              assert q[m] == p[j + m] && q[m - 1] == p[j + m - 1];
            } else if m == t {
              assert q[m] == p[1] && q[m - 1] == p[0];
            } else {
              assert q[m] == p[m - t + 1] && q[m - 1] == p[m - t];
            }
          }
          assert ChildPath(db', q);
          ReparentPathStaysBelow(db, n, c, q, |q| - 1);
        }
      }
    }
  }

  /** In an acyclic store a comment's own parent lies outside its subtree. */
  lemma StoredParentOutsideSubtree(db: Rows, n: Id)
    requires Linked(db) && Acyclic(db) && n in db && db[n].parent.Some?
    ensures db[n].parent.value != n && db[n].parent.value !in Descendants(db, n)
  {
    var parent := db[n].parent.value;
    assert ChildPath(db, [parent, n]);
    DescendantsAreReachable(db, n, parent);
    if parent in Descendants(db, n) {
      var p :| ChildPath(db, p) && |p| >= 2 && p[0] == n && p[|p| - 1] == parent;
      assert ChildPath(db, p + [n]);
    }
  }

  /** Cardinality splits over a subset and its complement. */
  lemma SubsetCard<T>(a: set<T>, b: set<T>)
    requires a <= b
    ensures |a| + |b - a| == |b|
  {
  }

  lemma ProperSubsetSmaller<T>(a: set<T>, b: set<T>)
    requires a < b
    ensures |a| < |b|
  {
    SubsetCard(a, b);
    var x :| x in b - a;
  }
}
