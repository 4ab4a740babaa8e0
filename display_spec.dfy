/** The table of display threads (`display_thread`) as values, and the step of
    the group dispatcher in alarm_thread that offers the most recently inserted
    alarm to the display record of its group, or appends a new record holding
    it when the group has none. */
module DisplaySpec {
  import opened AlarmSpec

  /** One `display_t` record: the group it serves and the alarm assigned to it
      (`link_alarm`), referred to by the alarm's id.  The thread handle is not
      represented. */
  datatype Display = Display(groupId: int, alarmId: Option<int>)

  /** The loop condition of display_tag_thread. */
  function GroupIs(groupId: int): Display -> bool {
    (d: Display) => d.groupId == groupId
  }

  /** display_tag_thread: the position of the first record of the group, or
      None when no record serves it. */
  function FindGroup(ds: seq<Display>, groupId: int): (r: Option<nat>)
    ensures r.Some? ==> r.value < |ds| && ds[r.value].groupId == groupId
    ensures r.Some? ==> forall j :: 0 <= j < r.value ==> ds[j].groupId != groupId
    ensures r.None? <==> forall j :: 0 <= j < |ds| ==> ds[j].groupId != groupId
  {
    var k := FirstWhere(ds, GroupIs(groupId));
    if k == |ds| then None else Some(k)
  }

  /** show_display: the record at `k` takes the alarm only when it has none. */
  function Shown(ds: seq<Display>, k: nat, alarmId: int): seq<Display>
    requires k < |ds|
  {
    if ds[k].alarmId.None? then ds[k := ds[k].(alarmId := Some(alarmId))] else ds
  }

  /** One pass of the dispatcher in alarm_thread for the alarm `present` last
      inserted (None when no alarm has been inserted yet). */
  function Dispatched(ds: seq<Display>, present: Option<Alarm>): seq<Display> {
    match present
    case None => ds
    case Some(a) =>
      match FindGroup(ds, a.groupId)
      case Some(k) => Shown(ds, k, a.id)
      case None => ds + [Display(a.groupId, Some(a.id))]
  }

  /** At most one display record per group. */
  predicate OnePerGroup(ds: seq<Display>) {
    forall i, j :: 0 <= i < j < |ds| ==> ds[i].groupId != ds[j].groupId
  }

  /** show_display never moves, adds or re-groups a record and never replaces
      an alarm a record already has; it assigns only to a free record. */
  lemma ShowOnlyWhenFree(ds: seq<Display>, k: nat, alarmId: int)
    requires k < |ds|
    ensures var r := Shown(ds, k, alarmId);
      && |r| == |ds|
      && (forall j :: 0 <= j < |ds| && j != k ==> r[j] == ds[j])
      && r[k].groupId == ds[k].groupId
      && (ds[k].alarmId.None? ==> r[k].alarmId == Some(alarmId))
      && (ds[k].alarmId.Some? ==> r == ds)
  {
  }

  /** A dispatcher pass for an alarm leaves a record of the alarm's group that
      has an alarm; it either reuses the first record of the group or appends
      a new record for it at the tail, leaving the existing records in order. */
  lemma DispatchServesGroup(ds: seq<Display>, a: Alarm)
    ensures var r := Dispatched(ds, Some(a));
      && |ds| <= |r| <= |ds| + 1
      && (forall j :: 0 <= j < |ds| ==> r[j].groupId == ds[j].groupId)
      && (forall j :: 0 <= j < |ds| && ds[j].alarmId.Some? ==> r[j] == ds[j])
      && (|r| == |ds| + 1 <==> forall j :: 0 <= j < |ds| ==> ds[j].groupId != a.groupId)
      && (|r| == |ds| + 1 ==> r[|ds|] == Display(a.groupId, Some(a.id)))
      && exists k :: 0 <= k < |r| && r[k].groupId == a.groupId && r[k].alarmId.Some?
  {
    var r := Dispatched(ds, Some(a));
    match FindGroup(ds, a.groupId)
    case Some(k) =>
      ShowOnlyWhenFree(ds, k, a.id);
      assert r[k].groupId == a.groupId && r[k].alarmId.Some?;
    case None =>
      assert r[|ds|].groupId == a.groupId && r[|ds|].alarmId.Some?;
  }

  /** The dispatcher never creates a second record for a group it already
      serves, so at most one display thread is created per group. */
  lemma DispatchKeepsOnePerGroup(ds: seq<Display>, present: Option<Alarm>)
    requires OnePerGroup(ds)
    ensures OnePerGroup(Dispatched(ds, present))
  {
    match present
    case None =>
    case Some(a) =>
      var r := Dispatched(ds, present);
      DispatchServesGroup(ds, a);
      forall i, j | 0 <= i < j < |r|
        ensures r[i].groupId != r[j].groupId
      {
        if j == |ds| {
          assert r[i].groupId == ds[i].groupId;
        }
      }
  }

  /** Every record holds an alarm. */
  predicate AllAssigned(ds: seq<Display>) {
    forall j :: 0 <= j < |ds| ==> ds[j].alarmId.Some?
  }

  /** The dispatcher creates every record with an alarm already assigned and
      nothing clears it, so a table built by dispatcher passes has an alarm in
      every record.  show_display's assignment is then never taken: a later
      alarm of a group that already has a record leaves the table unchanged
      and is served by no display thread. */
  lemma DispatchNeverReassigns(ds: seq<Display>, present: Option<Alarm>)
    requires AllAssigned(ds)
    ensures AllAssigned(Dispatched(ds, present))
    ensures present.Some? && FindGroup(ds, present.value.groupId).Some? ==> Dispatched(ds, present) == ds
  {
    match present
    case None =>
    case Some(a) =>
      match FindGroup(ds, a.groupId)
      case Some(k) =>
        assert ds[k].alarmId.Some?;
      case None =>
        var r := Dispatched(ds, present);
        assert r == ds + [Display(a.groupId, Some(a.id))];
        assert forall j :: 0 <= j < |ds| ==> r[j] == ds[j];
  }
}
