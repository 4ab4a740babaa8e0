/** The shared alarm list `alarm_list` and the routines that walk and relink
    it.  Each method walks the list as the C routine does and is proved to
    leave the list the corresponding function of AlarmSpec prescribes. */
module AlarmRegistry {
  import opened AlarmSpec

  class AlarmList {
    /** The nodes of `alarm_list`, head first. */
    var alarms: seq<Alarm>

    /** The list is kept in ascending order of id. */
    ghost predicate Valid()
      reads this
    {
      Sorted(alarms)
    }

    /** The empty list the server starts with. */
    constructor ()
      ensures Valid() && alarms == []
    {
      alarms := [];
    }

    /** alarm_insert: walk to the first node whose id is not smaller and link
        the new node in front of it, or at the tail; then set the deadline. */
    method Insert(a: Alarm, now: int)
      requires Valid()
      modifies this
      ensures Valid()
      ensures alarms == Inserted(old(alarms), a, now)
    {
      var i := 0;
      while i < |alarms| && alarms[i].id < a.id
        invariant i <= |alarms|
        invariant forall j :: 0 <= j < i ==> alarms[j].id < a.id
      {
        i := i + 1;
      }
      FirstWhereIs(alarms, IdAtLeast(a.id), i);
      var node := a;
      if i == |alarms| {
        node := node.(flag := false);
      }
      node := node.(time := now + a.seconds);
      InsertKeepsSorted(alarms, a, now);
      alarms := alarms[..i] + [node] + alarms[i..];
    }

    /** Insertion as it is meant to behave: ids are unique among live
        alarms, so a registered id is rejected and the list left alone, and a
        new alarm has not been changed yet, so its `flag` starts cleared.
        Keeps the ids distinct. */
    method InsertChecked(a: Alarm, now: int) returns (ok: bool)
      requires Valid() && DistinctIds(alarms)
      modifies this
      ensures Valid() && DistinctIds(alarms)
      ensures ok <==> !HasId(old(alarms), a.id)
      ensures ok ==> alarms == Inserted(old(alarms), a.(flag := false), now)
      ensures ok ==> |alarms| == |old(alarms)| + 1
      ensures !ok ==> alarms == old(alarms)
      ensures ok ==> forall j :: 0 <= j < |alarms| && alarms[j].id == a.id ==> !alarms[j].flag
    {
      var i := 0;
      while i < |alarms| && alarms[i].id != a.id
        invariant i <= |alarms|
        invariant forall j :: 0 <= j < i ==> alarms[j].id != a.id
      {
        i := i + 1;
      }
      ok := i == |alarms|;
      if ok {
        InsertFreshKeepsDistinct(alarms, a.(flag := false), now);
        InsertPlacement(alarms, a.(flag := false), now);
        InsertedNode(alarms, a.(flag := false), now);
        InsertFreshOnlyNode(alarms, a.(flag := false), now);
        Insert(a.(flag := false), now);
      } else {
        assert alarms[i].id == a.id;
      }
    }

    /** update_alarm: rewrite the first node with the id in place; report
        whether there was one. */
    method Update(id: int, groupId: int, seconds: int, message: string, now: int) returns (found: bool)
      requires Valid()
      modifies this
      ensures Valid()
      ensures found <==> HasId(old(alarms), id)
      ensures alarms == Updated(old(alarms), id, groupId, seconds, message, now)
    {
      var i := 0;
      while i < |alarms| && alarms[i].id != id
        invariant i <= |alarms|
        invariant forall j :: 0 <= j < i ==> alarms[j].id != id
      {
        i := i + 1;
      }
      FirstWhereIs(alarms, IdIs(id), i);
      IndexOfFound(alarms, id);
      UpdateKeepsIds(alarms, id, groupId, seconds, message, now);
      found := i < |alarms|;
      if found {
        alarms := alarms[i := alarms[i].(message := message, seconds := seconds, groupId := groupId,
                                         time := now + seconds, flag := true)];
      }
    }

    /** alarm_remove applied to the node at position `k`: walk to the first
        node with the same id and unlink it.  The argument must be a node of
        the list, as at its only call site: on a non-empty list without the id
        the C routine dereferences NULL, and on an empty list it does so
        unless the argument's own link is NULL. */
    method Remove(k: nat)
      requires Valid()
      requires k < |alarms|
      modifies this
      ensures Valid()
      ensures alarms == Unlinked(old(alarms), k)
    {
      var i := 0;
      while i < |alarms| && alarms[i].id != alarms[k].id
        invariant i <= k
        invariant forall j :: 0 <= j < i ==> alarms[j].id != alarms[k].id
      {
        i := i + 1;
      }
      FirstWhereIs(alarms, IdIs(alarms[k].id), i);
      UnlinkKeepsSorted(alarms, k);
      if i > 0 {
        alarms := alarms[..i] + alarms[i + 1..];
      } else if k == |alarms| - 1 {
        alarms := [];
      } else {
        alarms := alarms[1..];
      }
    }

    /** alarm_queue: whether some node has the id.  On a non-empty list
        without the id the C routine returns an uninitialised variable, so
        callers may only ask about an empty list or a registered id. */
    method Queued(id: int) returns (r: bool)
      requires alarms == [] || HasId(alarms, id)
      ensures r <==> HasId(alarms, id)
    {
      r := false;
      if alarms != [] {
        var i := 0;
        while i < |alarms|
          invariant i <= |alarms|
          invariant r <==> exists j :: 0 <= j < i && alarms[j].id == id
        {
          if alarms[i].id == id {
            r := true;
          }
          i := i + 1;
        }
      }
    }

    /** Membership as alarm_queue is meant to answer it: false for an id the
        list does not hold, whether or not the list is empty. */
    method Contains(id: int) returns (r: bool)
      ensures r <==> HasId(alarms, id)
    {
      var i := 0;
      while i < |alarms| && alarms[i].id != id
        invariant i <= |alarms|
        invariant forall j :: 0 <= j < i ==> alarms[j].id != id
      {
        i := i + 1;
      }
      r := i < |alarms|;
    }

    /** One pass of the reaper in alarm_dequeue at time `now`: remove the
        first node, in list order, whose deadline has passed, and return it;
        return None and change nothing when no node is due. */
    method Reap(now: int) returns (removed: Option<Alarm>)
      requires Valid()
      modifies this
      ensures Valid()
      ensures alarms == Reaped(old(alarms), now)
      ensures removed.None? <==> forall j :: 0 <= j < |old(alarms)| ==> now < old(alarms)[j].time
      ensures removed.Some? ==> removed == Some(old(alarms)[FirstDue(old(alarms), now)])
    {
      removed := None;
      if alarms == [] {
        return;
      }
      var i := 0;
      while i < |alarms|
        invariant i <= |alarms|
        invariant alarms == old(alarms)
        invariant forall j :: 0 <= j < i ==> now < alarms[j].time
      {
        if now >= alarms[i].time {
          FirstWhereIs(alarms, DueAt(now), i);
          removed := Some(alarms[i]);
          Remove(i);
          return;
        }
        i := i + 1;
      }
      ReapNothingDue(alarms, now);
    }
  }
}
