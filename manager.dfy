/**
 The read filter of the comment manager: built with `hideBlockedUser` (the default), it hides
 every comment whose user is inactive; built without it, it returns every stored comment.
 */
module Managers {
  import opened Records

  datatype DiscussManager = DiscussManager(hideBlockedUser: bool) {

    /** The rows this manager's queries start from. */
    function GetQueryset(db: Rows): (r: Rows)
      ensures r.Keys <= db.Keys
      ensures forall k :: k in r ==> r[k] == db[k]
      ensures forall k :: k in db ==> (k in r <==> !hideBlockedUser || db[k].user.isActive)
    {
      if hideBlockedUser then map k | k in db && db[k].user.isActive :: db[k] else db
    }

    /**
     Lookup by primary key. The manager adds the active-user condition to the lookup itself and
     then runs it against its own (already filtered) queryset.
     */
    function Get(db: Rows, id: Id): (r: Result<Comment>)
      ensures r.Ok? <==> id in db && (!hideBlockedUser || db[id].user.isActive)
      ensures r.Ok? ==> r.value == db[id]
      ensures r.Err? ==> r.error == DoesNotExist
    {
      var q := GetQueryset(db);
      if id in q && (!hideBlockedUser || q[id].user.isActive) then Ok(q[id]) else Err(DoesNotExist)
    }
  }

  /** `Discuss.objects`: hides comments by inactive users. */
  const Objects := DiscussManager(true)

  /** `Discuss.all_objects`: built with `hide_blocked_user=False`, sees everything. */
  const AllObjects := DiscussManager(false)

  /**
   The two managers agree on every comment by an active user; `all_objects` returns the whole
   store and a lookup through a manager finds exactly what its queryset holds.
   */
  lemma ManagersAgree(db: Rows, id: Id)
    ensures AllObjects.GetQueryset(db) == db
    ensures Objects.GetQueryset(db).Keys == set k | k in db && db[k].user.isActive
    ensures forall m: DiscussManager :: m.Get(db, id).Ok? <==> id in m.GetQueryset(db)
  {
  }
}
