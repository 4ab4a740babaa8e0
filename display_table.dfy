/** The list of display-thread records `display_thread` and the routines of
    the group dispatcher that search and extend it. */
module DisplayRegistry {
  import opened AlarmSpec
  import opened DisplaySpec

  class DisplayTable {
    /** The records of `display_thread`, head first. */
    var records: seq<Display>

    /** The table the dispatcher builds: one record per group, each holding
        the alarm it was created for. */
    ghost predicate Valid()
      reads this
    {
      OnePerGroup(records) && AllAssigned(records)
    }

    /** The server starts with no display thread. */
    constructor ()
      ensures Valid() && records == []
    {
      records := [];
    }

    /** display_tag_thread: the first record of the group, or None. */
    method FindByGroup(groupId: int) returns (r: Option<nat>)
      ensures r.Some? ==> r.value < |records| && records[r.value].groupId == groupId
      ensures r.Some? ==> forall j :: 0 <= j < r.value ==> records[j].groupId != groupId
      ensures r.None? <==> forall j :: 0 <= j < |records| ==> records[j].groupId != groupId
      ensures r == FindGroup(records, groupId)
    {
      var i := 0;
      while i < |records| && records[i].groupId != groupId
        invariant i <= |records|
        invariant forall j :: 0 <= j < i ==> records[j].groupId != groupId
      {
        i := i + 1;
      }
      FirstWhereIs(records, GroupIs(groupId), i);
      r := if i == |records| then None else Some(i);
    }

    /** show_display: give the alarm to the record at `k` when that record has
        no alarm yet; otherwise leave the table alone. */
    method Show(alarmId: int, k: nat)
      requires k < |records|
      modifies this
      ensures old(Valid()) ==> Valid()
      ensures records == Shown(old(records), k, alarmId)
    {
      if records[k].alarmId.None? {
        records := records[k := records[k].(alarmId := Some(alarmId))];
      }
    }

    /** The tail append of alarm_thread: walk to the last record and link the
        new one behind it, or make it the head of an empty table.  It runs only
        for a group display_tag_thread found no record of, and the new record
        already holds its alarm. */
    method Append(d: Display)
      requires Valid()
      requires d.alarmId.Some?
      requires forall j :: 0 <= j < |records| ==> records[j].groupId != d.groupId
      modifies this
      ensures Valid()
      ensures records == old(records) + [d]
    {
      if records == [] {
        records := [d];
      } else {
        var last := 0;
        while last + 1 < |records|
          invariant last < |records|
        {
          last := last + 1;
        }
        records := records[..last + 1] + [d];
      }
    }

    /** One pass of the dispatcher in alarm_thread for the alarm last inserted:
        offer it to the record of its group (which takes it only when free),
        or append a new record holding it.  Never creates a second record for a group, and leaves every
        record with an alarm. */
    method Dispatch(present: Option<Alarm>)
      requires Valid()
      modifies this
      ensures Valid()
      ensures records == Dispatched(old(records), present)
    {
      DispatchKeepsOnePerGroup(records, present);
      DispatchNeverReassigns(records, present);
      if present.Some? {
        var a := present.value;
        var found := FindByGroup(a.groupId);
        if found.Some? && records[found.value].groupId == a.groupId {
          Show(a.id, found.value);
        } else {
          Append(Display(a.groupId, Some(a.id)));
        }
      }
    }
  }
}
