# Alarm registry of the alarm server, in Dafny

The alarm server keeps every live alarm in one linked list, `alarm_list`,
in ascending order of alarm id. Each alarm has an id, a group id, an
interval in seconds, an absolute deadline (`time`), a message and a
`flag` that marks it as changed. The main thread inserts alarms
(`alarm_insert`) and changes them in place (`update_alarm`). A reaper
thread (`alarm_dequeue`) removes expired alarms through `alarm_remove`.
With distinct ids it removes at most one alarm per pass; with a duplicate
id one pass can remove two (`AlarmSpec.ReapWithDuplicateDropsAll`).
A dispatcher thread (`alarm_thread`) looks up the display record of the
group of the alarm inserted last (`display_tag_thread`). When the group has
no record, it fills in a record holding that alarm and appends it to the
display list `display_thread`. When the group has a record, it calls
`show_display`, which assigns the alarm only to a record without one. Every
record is created with its alarm already set and nothing clears it, so that
assignment is never taken: a later alarm of a group that already has a
record is handed to no display thread (`DisplaySpec.DispatchNeverReassigns`).
The display threads test membership with `alarm_queue`.

This project models those list routines without the threads.

- `AlarmSpec` (alarm_spec.dfy) gives each operation on the alarm list as a
  function from the old list to the new one. Its lemmas state what each
  operation keeps: order, length, which node changes and which nodes are
  left alone. Insertion, update, removal and the reaper pass are also
  written a second time as recursions over the list. Lemmas prove that
  insertion and update equal their recursions for every list. With distinct
  ids, the reaper pass equals its recursion ("drop the first due node"). For
  removal, a lemma proves it deletes the first node with the given node's
  id, except when that first node is the head and the given node is the last
  one: then it clears the list.
- `DisplaySpec` (display_spec.dfy) gives `display_tag_thread`,
  `show_display` and one dispatcher pass as functions on the display list,
  with lemmas about what each keeps and what each changes. These have no
  second, recursive definition.
- `AlarmRegistry.AlarmList` (alarm_list.dfy) and
  `DisplayRegistry.DisplayTable` (display_table.dfy) are classes that
  hold the two lists as mutable sequences. Their methods walk the lists
  with loops, as the C routines do, and each is proved to produce exactly
  the list its `AlarmSpec` or `DisplaySpec` function prescribes.

The current time `now` is passed in as a parameter wherever the source
calls `time(NULL)`.

Where the source is defective, the model keeps the defective behaviour and
states it:
- `alarm_insert` accepts an id that is already registered. The new node goes
  in front of the old one.
- `alarm_insert` clears `flag` only when the node goes at the tail.
  Elsewhere the node keeps the `flag` of the record it was given, and that
  record comes uninitialised from `malloc`.
- `alarm_remove` is given a node of the list. It walks to the first node
  with the same id. If that node is the head, it tests the `link` of the
  node it was given, not the head's. With distinct ids this unlinks exactly
  the given node. With a duplicate id it can unlink the wrong node or clear
  the whole list (`AlarmSpec.ReapWithDuplicateDropsAll`). On a non-empty
  list that does not hold the id it dereferences NULL (line 186). On an
  empty list it dereferences NULL unless the argument's own `link` is NULL,
  in which case it sets the list to NULL and changes nothing (lines
  188-192). Its only caller passes a node of the list, so `Remove`
  requires a position inside the list.
- `alarm_queue` returns an uninitialised variable when a non-empty list does
  not hold the id. `Queued` therefore requires the list to be empty or to
  hold the id.

Ids are meant to be unique among live alarms, a removal of an absent id
is meant to be a no-op, and a new alarm is meant to start unchanged. The
model follows the code where the code does otherwise:
- Insertion does not reject a duplicate id.
- Removing an absent id dereferences NULL on a non-empty list, and on an
  empty list unless the argument's own `link` is NULL.
- `flag` is not cleared on every insertion.
- No routine computes the earliest deadline.

## Model

| member | source | states |
|---|---|---|
| AlarmSpec.FirstWhere | New_Alarm_Cond.c:91-101 | the scan shared by all list walks stops at the first element satisfying the condition, or past the end when none does |
| AlarmSpec.InsertPlacement | New_Alarm_Cond.c:88-113 | insertion adds exactly one node, before the first node whose id is not smaller (an equal id goes in front); every earlier node has a smaller id, and deleting the new node gives back the old list in its old order |
| AlarmSpec.InsertedNode | New_Alarm_Cond.c:109-115 | the new node carries the request's id, group, interval and message; its deadline is now + seconds wherever it lands; flag is false on the tail path and is the caller's flag otherwise |
| AlarmSpec.InsertKeepsSorted | New_Alarm_Cond.c:88-113 | insertion keeps an id-sorted list sorted |
| AlarmSpec.InsertKeepsDuplicate | New_Alarm_Cond.c:91-96 | inserting an id that is already registered leaves two nodes with that id, the new one in front of the old one |
| AlarmSpec.InsertKeepsCallerFlag | New_Alarm_Cond.c:109-113 | a node linked in front of another keeps the caller's flag: inserting alarm 3 (flag true) in front of alarm 7 yields a head node with flag true |
| AlarmSpec.InsertFreshKeepsDistinct | New_Alarm_Cond.c:88-113 | inserting an id that is not registered into a list with distinct ids keeps the ids distinct |
| AlarmSpec.InsertMatchesReference | New_Alarm_Cond.c:88-115 | the walk-based insertion equals the recursive definition: pass smaller ids, link in front of the first id that is not smaller with deadline now + seconds, and clear flag only when appending at the tail |
| AlarmSpec.InsertThenRemove | New_Alarm_Cond.c:88-113 | with distinct ids, removing the node just inserted under a fresh id gives back the old list |
| AlarmSpec.UpdateAbsentUnchanged | New_Alarm_Cond.c:124-138 | updating an id that is not registered leaves the list unchanged |
| AlarmSpec.UpdatePresent | New_Alarm_Cond.c:124-134 | updating a registered id rewrites only the first node with that id: new group, interval and message, deadline now + seconds whatever it was, flag true; every other node is unchanged |
| AlarmSpec.UpdateKeepsIds | New_Alarm_Cond.c:124-134 | an update keeps the length, every id and the order, so it keeps the list sorted and its ids distinct |
| AlarmSpec.UpdateMatchesReference | New_Alarm_Cond.c:124-137 | the walk-based update equals the recursive definition that rewrites the first node with the id and copies every other node |
| AlarmSpec.UnlinkRemovesNode | New_Alarm_Cond.c:176-197 | with distinct ids, removing the node at position k leaves exactly the other nodes in their old order |
| AlarmSpec.UnlinkKeepsSorted | New_Alarm_Cond.c:176-197 | removal keeps a sorted list sorted and always shortens it |
| AlarmSpec.UnlinkKeepsDistinct | New_Alarm_Cond.c:176-197 | removal keeps distinct ids distinct |
| AlarmSpec.UnlinkMatchesReference | New_Alarm_Cond.c:176-197 | alarm_remove deletes the first node with the given node's id, except when that first node is the head and the given node is the last one, where it clears the list |
| AlarmSpec.ReapNothingDue | New_Alarm_Cond.c:402-412 | when no deadline has passed, a reaper pass leaves the list unchanged |
| AlarmSpec.ReapRemovesFirstDue | New_Alarm_Cond.c:402-412 | with distinct ids and some alarm due, a reaper pass removes exactly one node: the first in list order with now >= time; the nodes before it are all not due |
| AlarmSpec.ReapKeepsSorted | New_Alarm_Cond.c:398-412 | a reaper pass keeps the list sorted |
| AlarmSpec.ReapKeepsDistinct | New_Alarm_Cond.c:398-412 | with distinct ids a reaper pass keeps them distinct and removes at most one node |
| AlarmSpec.ReapMatchesReference | New_Alarm_Cond.c:402-412 | with distinct ids the scan followed by alarm_remove equals the recursive definition "drop the first due node, keep the rest" |
| AlarmSpec.QueueMissAfterReap | New_Alarm_Cond.c:402-412 | after the reaper removes alarm 1 from a list that still holds alarm 2, a membership test for alarm 1 asks about a missing id on a non-empty list |
| AlarmSpec.ReapWithDuplicateDropsAll | New_Alarm_Cond.c:176-197 | with alarm 5 inserted twice (deadlines 10 and 105), a reaper pass at time 20 empties the list, dropping the alarm that is not due |
| DisplaySpec.FindGroup | New_Alarm_Cond.c:153-159 | display_tag_thread yields the first record of the group, or none exactly when no record has the group |
| DisplaySpec.ShowOnlyWhenFree | New_Alarm_Cond.c:162-173 | show_display assigns the alarm only to a record without one; a record that has an alarm keeps it, and no other record changes |
| DisplaySpec.DispatchServesGroup | New_Alarm_Cond.c:325-371 | after a dispatcher pass a record of the alarm's group holds an alarm; a record is appended at the tail exactly when no record had the group; existing records keep their order and group, and keep any alarm they had |
| DisplaySpec.DispatchKeepsOnePerGroup | New_Alarm_Cond.c:325-371 | a dispatcher pass never creates a second record for a group |
| DisplaySpec.DispatchNeverReassigns | New_Alarm_Cond.c:325-371 | when every record holds an alarm (as every record the dispatcher creates does), a pass keeps it so, and an alarm of a group that already has a record leaves the table unchanged |
| AlarmRegistry.AlarmList.constructor | New_Alarm_Cond.c:70 | the alarm list starts empty |
| AlarmRegistry.AlarmList.Insert | New_Alarm_Cond.c:78-117 | the walk and relink leave the list exactly as the insertion function says, and the list stays sorted |
| AlarmRegistry.AlarmList.InsertChecked | New_Alarm_Cond.c:78-117 | corrected insertion: an id that is already registered is rejected and the list left unchanged; otherwise one node is added with flag false; ids stay distinct and the list sorted |
| AlarmRegistry.AlarmList.Update | New_Alarm_Cond.c:120-139 | reports whether the id was registered and leaves the list exactly as the update function says, still sorted |
| AlarmRegistry.AlarmList.Remove | New_Alarm_Cond.c:176-197 | given a node of the list, leaves the list exactly as the removal function says, still sorted |
| AlarmRegistry.AlarmList.Queued | New_Alarm_Cond.c:199-213 | on an empty list or a registered id, the result is true exactly when some node has the id |
| AlarmRegistry.AlarmList.Contains | New_Alarm_Cond.c:199-213 | corrected membership test: for every list, the result is true exactly when some node has the id, so a missing id gives false |
| AlarmRegistry.AlarmList.Reap | New_Alarm_Cond.c:398-412 | one reaper pass: returns nothing and changes nothing exactly when no alarm is due; otherwise returns the first due node and leaves the list as the reaper function says |
| DisplayRegistry.DisplayTable.constructor | New_Alarm_Cond.c:74 | the display list starts empty, with one record per group and an alarm in every record |
| DisplayRegistry.DisplayTable.FindByGroup | New_Alarm_Cond.c:153-159 | returns the position of the first record of the group, or none exactly when no record has the group |
| DisplayRegistry.DisplayTable.Show | New_Alarm_Cond.c:162-173 | leaves the display list as show_display's function says, and keeps the table's invariant (one record per group, an alarm in every record) |
| DisplayRegistry.DisplayTable.Append | New_Alarm_Cond.c:350-360 | for a group with no record and a record that holds its alarm, the tail walk adds the new record at the end, keeps every existing record in place, and keeps one record per group with an alarm in every record |
| DisplayRegistry.DisplayTable.Dispatch | New_Alarm_Cond.c:325-371 | one dispatcher pass leaves the display list as the dispatch function says, and keeps one record per group with an alarm in every record |

## Findings

| source | as written | input that shows it | evidently intended | confidence | as-written member | corrected member |
|---|---|---|---|---|---|---|
| New_Alarm_Cond.c:91-113 | alarm_insert links a node whose id is already registered | list holding alarm 5, insert alarm 5 again; with deadlines 10 and 105 a reaper pass at time 20 then empties the list (AlarmSpec.ReapWithDuplicateDropsAll) | reject the duplicate id and leave the list unchanged | high; not executed | AlarmSpec.InsertKeepsDuplicate | AlarmRegistry.AlarmList.InsertChecked |
| New_Alarm_Cond.c:109-113 | flag is cleared only when the new node goes at the tail; elsewhere it keeps the uninitialised value from malloc | list holding alarm 7, insert alarm 3 whose record carries flag true | every new node starts with flag false | high; not executed | AlarmSpec.InsertKeepsCallerFlag | AlarmRegistry.AlarmList.InsertChecked |
| New_Alarm_Cond.c:199-213 | alarm_queue returns an uninitialised variable for an id a non-empty list does not hold, which is how the display thread (New_Alarm_Cond.c:237, 276) tries to notice a removed alarm | list holding alarms 1 (deadline 10) and 2 (deadline 60); reaper pass at time 20 removes alarm 1; alarm_queue then asks for 1 | false for every id the list does not hold | high; not executed | AlarmSpec.QueueMissAfterReap | AlarmRegistry.AlarmList.Contains |

## Left out

- Threads, the mutexes, the semaphores and the condition variables (New_Alarm_Cond.c:58-65, 312-323, 395-396, 442-449, 469-486). Each routine is modelled as one atomic step. The semaphore initialised to 2, which admits two threads at once, is not modelled.
- The display worker `alarm_display` (New_Alarm_Cond.c:219-292). It is driven by `sleep`, `pthread_self` and printing, and its only effect is output.
- The command loop and request parsing in `main` (New_Alarm_Cond.c:431-516), all `printf` output, and the debug dump `output_alarm` (New_Alarm_Cond.c:142-150).
- `time(NULL)` is replaced by the parameter `now`. A reaper pass uses one `now` for the whole scan, whereas the source reads the clock at every node.
- Messages are unbounded strings. The 128-byte buffers, `strcpy` and the 64-character limit of the parser are not modelled.
- Integers are unbounded. Overflow of `int` ids and intervals, and of the `time_t` sum `now + seconds`, is not modelled.
- `malloc` and `free` are not modelled.
- DisplayRegistry.DisplayTable.Dispatch: appends a fresh record for every new group. The source allocates one display record for the whole run (New_Alarm_Cond.c:298). A second new group overwrites that record's `group_id` and `link_alarm` (340-342), so the first group loses its record. It then sets the record's `link` to NULL (341), and the tail walk (355-359) links the record to itself. The display list becomes a one-node cycle, and `display_tag_thread` (155-157) never returns for any other group. The model does not capture this aliasing.
- The thread handle `tid` of a display record is not modelled. `link_alarm` is modelled as the id of the assigned alarm rather than the address of its node.
- The else-branch of `show_display` (New_Alarm_Cond.c:167-170) walks the alarm chain into a local variable and has no effect. The model treats it as no change and has no loop for it.
- `update_alarm` also writes the new deadline into the caller's request record (New_Alarm_Cond.c:129). Only the node's deadline is modelled.
- The scheduling of the dispatcher, including the `presentAlarm` variable and `sleep_time`, is not modelled. `Dispatch` takes the alarm inserted last as a parameter.
