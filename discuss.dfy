/**
 The `Discuss` model: parent validation (`clean`), the save-time derivation (`save`) and the
 subtree delete (`delete`), over a store of comment rows keyed by id. The profanity filter and
 the markdown renderer are opaque string functions handed to the store when it is created.
 */
module Discuss {
  import opened Records
  import opened Tree
  import Managers

  const SelfParentMessage := "Parent discuss cannot be self."
  const CircularParentsMessage := "Cannot have circular Parents."
  const SelfMoveMessage := "A node may not be made a child of itself."
  const DescendantMoveMessage := "A node may not be made a child of any of its descendants."

  /**
   `clean`: the parent-validity check for saving `c` under key `id`. The parent row is fetched
   first; then the parent must not be the comment itself (compared by key), and the parent's own
   parent must not be the comment. Only these two cycle lengths are looked at.
   */
  function Clean(db: Rows, id: Id, c: Comment): (r: Check)
    ensures c.parent.None? ==> r == Pass
    ensures c.parent.Some? && c.parent.value !in db ==> r == Fail(DoesNotExist)
    ensures c.parent == Some(id) && id in db ==> r == Fail(ValidationError(SelfParentMessage))
    ensures c.parent.Some? && c.parent.value != id && c.parent.value in db ==>
      if db[c.parent.value].parent == Some(id) then r == Fail(ValidationError(CircularParentsMessage))
      else r == Pass
  {
    match c.parent
    case None => Pass
    case Some(p) =>
      if p !in db then Fail(DoesNotExist)
      else if p == id then Fail(ValidationError(SelfParentMessage))
      else
        var grandparent := db[p].parent;
        if grandparent.Some? && grandparent.value == id then Fail(ValidationError(CircularParentsMessage))
        else Pass
  }

  /**
   `save`: the record that is written for `c`. A comment with a parent takes the parent's
   `objectId` and `application`; then the content is censored and the HTML is rendered from the
   censored text. Fetching a parent that is not stored fails.
   */
  function SaveRecord(db: Rows, c: Comment, censor: string -> string, parse: string -> string): (r: Result<Comment>)
    ensures r.Err? <==> c.parent.Some? && c.parent.value !in db
    ensures r.Err? ==> r.error == DoesNotExist
    ensures r.Ok? ==>
      && r.value.parent == c.parent
      && r.value.user == c.user
      && (c.parent.Some? ==>
            r.value.objectId == db[c.parent.value].objectId && r.value.application == db[c.parent.value].application)
      && (c.parent.None? ==> r.value.objectId == c.objectId && r.value.application == c.application)
      && r.value.content == censor(c.content)
      && r.value.contentHtml == parse(censor(c.content))
  {
    match Inherit(db, c)
    case Err(e) => Err(e)
    case Ok(scoped) =>
      var censored := censor(scoped.content);
      Ok(scoped.(content := censored, contentHtml := parse(censored)))
  }

  /** Scope inheritance: a child is moved into its parent's object and application. */
  function Inherit(db: Rows, c: Comment): (r: Result<Comment>)
  {
    match c.parent
    case None => Ok(c)
    case Some(p) =>
      if p in db then Ok(c.(objectId := db[p].objectId, application := db[p].application))
      else Err(DoesNotExist)
  }

  /**
   The move rule of the tree library's own save, which ends `save`: when a stored comment is
   given a different parent, that parent must be neither the comment itself nor one of its
   descendants. New comments and unchanged parents are not checked.
   */
  function MoveCheck(db: Rows, id: Id, parent: Option<Id>): (r: Check)
    ensures r.Fail? <==>
      id in db && parent != db[id].parent && parent.Some? &&
      (parent.value == id || parent.value in Descendants(db, id))
    ensures r.Fail? ==>
      r.error == InvalidMove(if parent.value == id then SelfMoveMessage else DescendantMoveMessage)
  {
    if id in db && parent != db[id].parent && parent.Some? then
      if parent.value == id then Fail(InvalidMove(SelfMoveMessage))
      else if parent.value in Descendants(db, id) then Fail(InvalidMove(DescendantMoveMessage))
      else Pass
    else Pass
  }

  /**
   Row removal as the database's deletion collector performs it: the rows in `gone` disappear, and
   every surviving row whose parent was removed has its parent set to null.
   */
  function DeleteRows(db: Rows, gone: set<Id>): (r: Rows)
    ensures r.Keys == db.Keys - gone
    ensures forall k :: k in r ==>
      r[k] == if db[k].parent.Some? && db[k].parent.value in gone then db[k].(parent := None) else db[k]
  {
    map k | k in db && k !in gone :: if db[k].parent.Some? && db[k].parent.value in gone then db[k].(parent := None) else db[k]
  }

  /** The cycle of length one or two through `id` that `clean` looks for. */
  ghost predicate ShortCycleAt(db: Rows, id: Id)
    requires id in db
  {
    db[id].parent == Some(id) ||
    (db[id].parent.Some? && db[id].parent.value in db && db[db[id].parent.value].parent == Some(id))
  }

  /**
   Whenever the derived record exists, `clean` passes exactly when writing it would put the
   comment on no cycle of length one or two.
   */
  lemma CleanDetectsShortCycles(db: Rows, id: Id, c: Comment, censor: string -> string, parse: string -> string)
    requires SaveRecord(db, c, censor, parse).Ok?
    ensures var after := db[id := SaveRecord(db, c, censor, parse).value];
      Clean(db, id, c) == Pass <==> !ShortCycleAt(after, id)
  {
  }

  /**
   `clean` does not look further than the grandparent: re-parenting the root `a` of a chain
   `a <- b <- x` under `x` passes it, although writing the derived record would close the cycle
   `a -> b -> x -> a`. It is the tree library's move rule that refuses this save.
   */
  lemma CleanMissesThreeCycle(db: Rows, a: Id, b: Id, x: Id, c: Comment, censor: string -> string, parse: string -> string)
    requires a != b && b != x && x != a
    requires a in db && b in db && x in db && db[a].parent.None?
    requires db[b].parent == Some(a) && db[x].parent == Some(b)
    requires c.parent == Some(x)
    ensures SaveRecord(db, c, censor, parse).Ok?
    ensures Clean(db, a, c) == Pass
    ensures Reachable(db[a := SaveRecord(db, c, censor, parse).value], a, a)
    ensures MoveCheck(db, a, c.parent) == Fail(InvalidMove(DescendantMoveMessage))
  {
    var after := db[a := SaveRecord(db, c, censor, parse).value];
    assert ChildPath(after, [a, b, x, a]);
    assert ChildPath(db, [a, b, x]);
    DescendantsAreReachable(db, a, x);
  }

  /**
   A save that passes the parent lookup and the move rule keeps the store linked and acyclic,
   whether it inserts a fresh comment or updates a stored one.
   */
  lemma SaveKeepsAcyclic(db: Rows, id: Id, c: Comment, censor: string -> string, parse: string -> string)
    requires Linked(db) && Acyclic(db)
    requires SaveRecord(db, c, censor, parse).Ok?
    requires MoveCheck(db, id, c.parent) == Pass
    ensures var after := db[id := SaveRecord(db, c, censor, parse).value];
      Linked(after) && Acyclic(after)
  {
    var record := SaveRecord(db, c, censor, parse).value;
    if id !in db {
      AttachKeepsAcyclic(db, id, record);
    } else {
      if record.parent.Some? && record.parent == db[id].parent {
        StoredParentOutsideSubtree(db, id);
      }
      ReparentKeepsAcyclic(db, id, record);
    }
  }

  /**
   Cascading delete: removing the strict descendants of `id` and then `id` itself removes exactly
   the subtree, and, because the subtree is closed under children, no surviving row loses its parent.
   */
  lemma CascadeDeleteRemovesSubtree(db: Rows, id: Id)
    requires Linked(db)
    ensures var r := DeleteRows(DeleteRows(db, Descendants(db, id)), {id});
      && r.Keys == db.Keys - ({id} + Descendants(db, id))
      && (forall k :: k in r ==> r[k] == db[k])
      && Linked(r)
  {
  }

  /**
   Non-cascading delete: only `id` is removed; its direct children become roots and every other
   row is left as it was.
   */
  lemma DetachRemovesOnlySelf(db: Rows, id: Id)
    requires Linked(db)
    ensures var r := DeleteRows(db, {id});
      && r.Keys == db.Keys - {id}
      && (forall k :: k in r && k in Children(db, id) ==> r[k] == db[k].(parent := None))
      && (forall k :: k in r && k !in Children(db, id) ==> r[k] == db[k])
      && ChildrenCount(r, id) == 0
      && Linked(r)
  {
  }

  /** Removing rows only ever cuts parent links, so it cannot create a cycle. */
  lemma DeleteRowsKeepsAcyclic(db: Rows, gone: set<Id>)
    requires Acyclic(db)
    ensures Acyclic(DeleteRows(db, gone))
  {
  }

  /** The store of comment rows, with the content pipeline it was configured with. */
  class DiscussStore {
    var rows: Rows
    const censor: string -> string
    const parse: string -> string

    /** Referential integrity, and no comment is its own descendant. */
    ghost predicate Valid()
      reads this
    {
      Linked(rows) && Acyclic(rows)
    }

    constructor (censor: string -> string, parse: string -> string)
      ensures Valid() && rows == map[]
      ensures this.censor == censor && this.parse == parse
    {
      rows := map[];
      this.censor := censor;
      this.parse := parse;
    }

    /**
     `save`: derive the scope and the content of `c`, then let the tree library's save check a
     change of parent, and write the record under `id` (an insert when `id` is new, an update
     otherwise). Every successful save keeps the store free of cycles.
     */
    method Save(id: Id, c: Comment) returns (r: Result<Comment>)
      requires Valid()
      modifies this
      ensures Valid()
      ensures SaveRecord(old(rows), c, censor, parse).Err? ==>
        r == SaveRecord(old(rows), c, censor, parse) && rows == old(rows)
      ensures SaveRecord(old(rows), c, censor, parse).Ok? ==>
        var record := SaveRecord(old(rows), c, censor, parse).value;
        match MoveCheck(old(rows), id, record.parent)
        case Fail(e) => r == Err(e) && rows == old(rows)
        case Pass => r == Ok(record) && rows == old(rows)[id := record]
    {
      var record := c;
      if record.parent.Some? {
        var p := record.parent.value;
        if p !in rows {
          return Err(DoesNotExist);
        }
        record := record.(objectId := rows[p].objectId);
        record := record.(application := rows[p].application);
      }
      record := record.(content := censor(record.content));
      record := record.(contentHtml := parse(record.content));
      var move := MoveCheck(rows, id, record.parent);
      if move.Fail? {
        return Err(move.error);
      }
      SaveKeepsAcyclic(rows, id, c, censor, parse);
      rows := rows[id := record];
      r := Ok(record);
    }

    /**
     `delete`: with `descendants` (the default) the strict descendants are deleted first and then
     the comment, so the whole subtree goes and nothing else changes; without it only the
     comment is deleted and its direct children are detached.
     */
    method Delete(id: Id, descendants: bool := true)
      requires Valid()
      modifies this
      ensures Valid()
      ensures descendants ==>
        && rows.Keys == old(rows).Keys - ({id} + Descendants(old(rows), id))
        && forall k :: k in rows ==> rows[k] == old(rows)[k]
      ensures !descendants ==>
        && rows.Keys == old(rows).Keys - {id}
        && forall k :: k in rows ==>
             rows[k] == if old(rows)[k].parent == Some(id) then old(rows)[k].(parent := None) else old(rows)[k]
    {
      ghost var before := rows;
      if descendants {
        var below := Descendants(rows, id);
        DeleteRowsKeepsAcyclic(rows, below);
        rows := DeleteRows(rows, below);
        CascadeDeleteRemovesSubtree(before, id);
      } else {
        DetachRemovesOnlySelf(rows, id);
      }
      DeleteRowsKeepsAcyclic(rows, {id});
      rows := DeleteRows(rows, {id});
    }

    /** `children_count` of a stored comment. */
    function ChildrenCountOf(id: Id): (n: nat)
      reads this
      ensures n == |set k | k in rows && rows[k].parent == Some(id)|
    {
      assert Children(rows, id) == set k | k in rows && rows[k].parent == Some(id);
      ChildrenCount(rows, id)
    }

    /** `descendant_count` of a stored comment: the comments reachable through children, itself excluded. */
    function DescendantCountOf(id: Id): (n: nat)
      reads this
      ensures n == |set k | k in rows && k != id && Reachable(rows, id, k)|
    {
      ReachableSet(rows, id);
      DescendantCount(rows, id)
    }
  }

  lemma ReachableSet(db: Rows, id: Id)
    ensures Descendants(db, id) == set k | k in db && k != id && Reachable(db, id, k)
  {
    forall k ensures k in Descendants(db, id) <==> k in db && k != id && Reachable(db, id, k) {
      DescendantsAreReachable(db, id, k);
    }
  }

  /** After a cascading delete no manager finds the comment or any of its former descendants. */
  lemma DeletedNotFound(db: Rows, id: Id, k: Id, m: Managers.DiscussManager)
    requires Linked(db)
    requires k == id || k in Descendants(db, id)
    ensures m.Get(DeleteRows(DeleteRows(db, Descendants(db, id)), {id}), k) == Err(DoesNotExist)
  {
  }
}
