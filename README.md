# Threaded comment store of discuss-server, modelled in Dafny

This project models the comment rules of the `Discuss` Django model and its manager in
`discuss/models.py`. Comments are rows of a store, a map from comment id to a record holding
`parent`, `object_id`, `application`, `user` (with the user's active flag), `content` and
`content_html`. The tree is given by the `parent` links alone. The rules modelled are:

- the read filter of `DiscussManager`. `objects` hides comments by inactive users. `all_objects` is built with `hide_blocked_user=False` and sees every row. `get` applies the same condition as the queryset.
- `clean`, the parent check. It rejects a comment that is its own parent and a two-hop cycle. Nothing longer is checked.
- `save`, the save-time derivation. A child takes its parent's `object_id` and `application`. The content is censored, and the HTML is rendered from the censored text. The save then ends in the tree library's save. When a stored comment gets a different parent, that save refuses a parent that is the comment itself or one of its descendants.
- `delete`. By default it removes the comment and all its descendants. With `descendants=False`, only the comment is removed, and the `SET_NULL` rule of the parent key detaches its direct children.
- `children_count` and `descendant_count`, stated over parent links. The first counts direct children. The second counts everything reachable through children, the comment itself excluded.

Files:

- `records.dfy`: the record, user, error and result types, plus the `Linked` referential-integrity invariant.
- `tree.dfy`: children, descendants (the least children-closed set, proved equal to path reachability), the counts, what attaching a fresh comment does to reachability, acyclicity and the counts, and why a re-parent outside the comment's own subtree keeps the store acyclic.
- `manager.dfy`: `DiscussManager` with `GetQueryset` and `Get`, and the two managers `Objects` and `AllObjects`.
- `discuss.dfy`: `Clean`, `SaveRecord`, `MoveCheck` (the tree library's move rule), `DeleteRows` (how the deletion collector removes rows and applies `SET_NULL`), the lemmas about them, and the class `DiscussStore`. The class holds the rows as a `map` field and has `Save` and `Delete` methods. Its invariant is referential integrity plus the absence of parent cycles.

The profanity filter (`ProfanityFilter().censor`) and the markdown renderer (`markdown.parse`) are
foreign calls. They are modelled as arbitrary functions `censor` and `parse` of type
`string -> string`, which are fixed when a `DiscussStore` is constructed. Nothing is assumed about them.

Three points of the code's own behaviour:

- `delete(descendants=False)` leaves the children in place, with their parent set to null.
- `clean` checks only cycles of length one and two, and `save` does not call it. Longer cycles are refused by the tree library's save when it moves a stored comment to a new parent. The model includes that move rule.
- The reaction and flag methods (`add_reaction`, `remove_reaction`, `add_flag`, `remove_flag`) return `{}` and keep no counters.

## Model

| member | source | states |
|---|---|---|
| `Managers.DiscussManager.GetQueryset` | discuss/models.py:22-26 | the queryset holds only stored rows, unchanged; when hiding blocked users it holds exactly the rows whose user is active, otherwise every row |
| `Managers.DiscussManager.Get` | discuss/models.py:28-31 | a key lookup succeeds exactly when the row is stored and, if the manager hides blocked users, its user is active; it returns that row, and otherwise fails with DoesNotExist |
| `Managers.ManagersAgree` | discuss/models.py:89-90 | `all_objects` returns the whole store; `objects` returns exactly the rows of active users; `get` through any manager finds exactly the keys of its queryset |
| `Discuss.Clean` | discuss/models.py:127-133 | no parent passes; a parent that is not stored fails the fetch with DoesNotExist; a stored parent equal to the comment fails with "Parent discuss cannot be self."; a stored parent whose own parent is the comment fails with "Cannot have circular Parents."; every other case passes |
| `Discuss.CleanDetectsShortCycles` | discuss/models.py:127-133 | whenever the derived record exists, `clean` passes if and only if writing it would put the comment on no cycle of length one or two |
| `Discuss.CleanMissesThreeCycle` | discuss/models.py:132-133 | re-parenting the root of a chain a <- b <- x under x passes `clean`, although writing the derived record would make a reachable from itself; the move rule of the library's save refuses it with "A node may not be made a child of any of its descendants." |
| `Discuss.SaveRecord` | discuss/models.py:142-154 | saving fails exactly when the named parent is not stored; otherwise a child gets its parent's object_id and application whatever it held, a root keeps its own, parent and user are kept, content is censor(old content) and content_html is parse(censor(old content)) |
| `Discuss.DiscussStore.Save` | discuss/models.py:142-154 | a failed parent fetch returns DoesNotExist and changes nothing; a change of parent that the move rule refuses returns InvalidMove and changes nothing; otherwise the derived record is written under the id and no other row changes; referential integrity and acyclicity are kept |
| `Discuss.MoveCheck` | discuss/models.py:154-154 | the library's save refuses exactly a change of parent of a stored comment to the comment itself ("A node may not be made a child of itself.") or to one of its descendants ("A node may not be made a child of any of its descendants."); new comments and unchanged parents pass |
| `Discuss.SaveKeepsAcyclic` | discuss/models.py:142-154 | a save that passes the parent fetch and the move rule, insert or update, leaves the store linked and free of parent cycles |
| `Discuss.DeleteRows` | discuss/models.py:54-62 | removing a set of rows leaves every other row, except that a surviving row whose parent was removed gets a null parent (the `SET_NULL` rule) |
| `Discuss.CascadeDeleteRemovesSubtree` | discuss/models.py:135-140 | deleting the descendants and then the comment removes exactly the comment and its descendants; every other row is unchanged, because none of them loses its parent; referential integrity is kept |
| `Discuss.DetachRemovesOnlySelf` | discuss/models.py:58-58 | deleting only the comment removes just that row; its direct children become roots, every other row is unchanged, and referential integrity is kept |
| `Discuss.DeleteRowsKeepsAcyclic` | discuss/models.py:135-140 | deleting rows never creates a cycle |
| `Discuss.DiscussStore.Delete` | discuss/models.py:135-140 | with `descendants` (the default), the rows left are the old ones minus the comment and its descendants, each unchanged; without it, only the comment goes and its children get a null parent; referential integrity and acyclicity are kept |
| `Discuss.DeletedNotFound` | discuss/models.py:135-140 | after a cascading delete, a lookup of the comment or of any former descendant fails with DoesNotExist through every manager |
| `Discuss.DiscussStore.ChildrenCountOf` | discuss/models.py:103-105 | `children_count` is the number of stored comments whose parent is this comment |
| `Discuss.DiscussStore.DescendantCountOf` | discuss/models.py:107-109 | `descendant_count` is the number of stored comments reachable by repeatedly following children, the comment itself excluded |
| `Tree.Children` | discuss/models.py:103-105 | the direct children are exactly the stored rows whose parent is the comment |
| `Tree.Close` | discuss/models.py:137-139 | the descendant query is the least set that contains the given rows, stays inside the store and is closed under taking children |
| `Tree.Descendants` | discuss/models.py:107-109 | the strict descendants are stored rows and never include the comment itself |
| `Tree.DescendantsAreReachable` | discuss/models.py:107-109 | a row is a descendant if and only if it differs from the comment and a chain of child links leads to it from the comment |
| `Tree.ChildrenWithinDescendants` | discuss/models.py:103-109 | in an acyclic store the children are among the descendants, so `children_count <= descendant_count`, and `descendant_count` is below the store size |
| `Tree.AttachReachable` | discuss/models.py:148-154 | after a fresh comment is saved under a stored parent, every old path survives, and the new comment is reached exactly from its parent and from that parent's ancestors |
| `Tree.AttachKeepsAcyclic` | discuss/models.py:148-154 | saving a fresh comment whose parent is already stored never creates a parent cycle, so `clean` checking only depth two is enough when parents are never changed |
| `Tree.ReparentPathStaysBelow` | discuss/models.py:154-154 | after a stored comment is given a parent outside its own subtree, every walk down from it stays among its old descendants |
| `Tree.ReparentKeepsAcyclic` | discuss/models.py:154-154 | giving a stored comment a stored parent outside its own subtree keeps an acyclic store acyclic |
| `Tree.StoredParentOutsideSubtree` | discuss/models.py:148-150 | in an acyclic store a comment's current parent is neither the comment nor one of its descendants, so saving with the parent unchanged is safe |
| `Tree.AttachDescendants` | discuss/models.py:148-154 | saving a fresh comment adds it to the descendants of its parent and of every ancestor of that parent, leaves all other descendant sets unchanged, and gives the new comment no descendants |
| `Tree.AttachCounts` | discuss/models.py:148-154 | after such a save the parent's `children_count` grows by one, each ancestor's `descendant_count` grows by one, all other counts are unchanged, and the new comment's counts are zero |

## Left out

- Reactions and flags: `add_reaction`, `remove_reaction`, `add_flag` and `remove_flag` return `{}`, and `reactions` returns `[]`. They keep no state, so there is nothing to model. The reaction and flag kind lists they would be checked against are not defined in `discuss/models.py`.
- django-mptt nested-set bookkeeping (`lft`, `rght`, `level`, `tree_id`, and the renumbering on insert and delete) lives in a library that is not part of this model. The tree is the `parent` links, and the counts and the delete are stated over reachability.
- Child order: the library returns children in tree order. The model gives children and descendants as sets, not sequences.
- Discuss.DiscussStore.ChildrenCountOf: ignores that the library may run its children query through the default manager `objects`, which would skip children by inactive users; the model counts every child, as the library's interface describes.
- Discuss.DiscussStore.Delete: ignores that the library may run its descendants query through the default manager `objects`; if it does, descendants by inactive users are not deleted with the subtree but detached by `SET_NULL`. The model deletes every descendant.
- Discuss.Clean: the parent is named by id and fetched from the store. An in-memory `parent` object that was never saved is not modelled. A grandparent row missing from the store is not modelled either, because referential integrity rules it out.
- Discuss.MoveCheck: only the refusal of the tree library's move is modelled, with the library's two messages. The library's renumbering of the tree and its placement of the moved comment are not modelled.
- Records.Comment: each row carries a copy of its user's `is_active` flag. The model does not tie together two rows by the same user, which in the database share one flag. Changing a user's flag is not modelled.
- `delete` on a bare model instance that was never stored: the model allows any id. Removing an id that is not stored changes nothing.
- The content pipeline internals: `censor` and `parse` are arbitrary functions. The model only proves the order they are applied in, and which text each one receives.
- Field widths (`max_length` of `id` and `object_id`), UUID generation for `id`, and the `created`/`modified` timestamps are not modelled.
- Database transactions, concurrency, and the cascades that follow deletion of an `Application` or a `User` are not modelled.
- `__str__` and `opts` are display helpers, and are not modelled.
- `discuss/api/v1/viewsets.py` and `discuss/api/v1/serializers.py` are HTTP routing, permission classes, API-key application lookup, pagination and field declarations, and are not modelled. Two of their rules are also left out: `object_id` is required on create, and the list view returns only root comments of one object.
