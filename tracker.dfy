// The tracker's editable state: the group table with its expansion flags,
// and the running-task machine that appends a record to the work log on
// every transition out of a running task.
module TaskTracker {
  import opened Wrappers
  import opened GroupDict

  /** The status shown while no task runs. */
  const Idle: string := "停止中"

  /** One row of the work log, as save_log receives it; `start` and `end`
      are clock readings. */
  datatype LogRecord = LogRecord(task: string, start: int, end: int, memo: string)

  /** The loop of load_settings that marks every group expanded. */
  method AllExpanded(keys: seq<string>) returns (flags: map<string, bool>)
    ensures forall k :: k in flags <==> k in keys
    ensures forall k :: k in flags ==> flags[k]
  {
    flags := map[];
    var i := 0;
    while i < |keys|
      invariant 0 <= i <= |keys|
      invariant forall k :: k in flags <==> k in keys[..i]
      invariant forall k :: k in flags ==> flags[k]
    {
      assert keys[..i + 1] == keys[..i] + [keys[i]];
      flags := flags[keys[i] := true];
      i := i + 1;
    }
    assert keys[..i] == keys;
  }

  class Tracker {
    var groups: Dict
    var expanded: map<string, bool>
    var current: string
    var memo: string
    var start: Option<int>
    /** The records save_log has appended, oldest first. */
    var log: seq<LogRecord>

    /** Every group has an expansion flag, and a running task has a start
        time. */
    ghost predicate Valid()
      reads this
    {
      groups.Valid()
      && (forall g :: g in groups.vals ==> g in expanded)
      && (current != Idle ==> start.Some?)
    }

    /** __init__ with load_settings: the saved groups, or the default ones
        on a first run, every group expanded, and no task running. */
    constructor (saved: Option<Dict>)
      requires saved.Some? ==> saved.value.Valid()
      ensures Valid()
      ensures groups == (if saved.Some? then saved.value else DefaultGroups)
      ensures forall g :: g in expanded <==> g in groups.vals
      ensures forall g :: g in expanded ==> expanded[g]
      ensures current == Idle && memo == "" && start == None && log == []
    {
      DefaultGroupsValid();
      var g := if saved.Some? then saved.value else DefaultGroups;
      var flags := AllExpanded(g.keys);
      groups := g;
      expanded := flags;
      current := Idle;
      memo := "";
      start := None;
      log := [];
    }

    // -------------------------------------------------------------------
    // The group table. A method returns `ok == false` where the source
    // raises KeyError or ValueError, and then changes nothing.

    /** move_group_up. */
    method MoveGroupUp(group: string) returns (ok: bool)
      requires Valid()
      modifies this
      ensures Valid()
      ensures ok <==> group in old(groups.vals)
      ensures groups == if ok then MovedUp(old(groups), group) else old(groups)
      ensures expanded == old(expanded) && current == old(current) && memo == old(memo)
      ensures start == old(start) && log == old(log)
    {
      if group !in groups.vals {
        return false;
      }
      MovedUpSpec(groups, group);
      var gl := groups.keys;
      var idx := IndexOf(gl, group);
      if idx > 0 {
        gl := Swap(gl, idx, idx - 1);
        RebuildSwapped(groups, idx, idx - 1);
        groups := Rebuild(gl, groups.vals);
      }
      return true;
    }

    /** move_group_down. */
    method MoveGroupDown(group: string) returns (ok: bool)
      requires Valid()
      modifies this
      ensures Valid()
      ensures ok <==> group in old(groups.vals)
      ensures groups == if ok then MovedDown(old(groups), group) else old(groups)
      ensures expanded == old(expanded) && current == old(current) && memo == old(memo)
      ensures start == old(start) && log == old(log)
    {
      if group !in groups.vals {
        return false;
      }
      MovedDownSpec(groups, group);
      var gl := groups.keys;
      var idx := IndexOf(gl, group);
      if idx < |gl| - 1 {
        gl := Swap(gl, idx, idx + 1);
        RebuildSwapped(groups, idx, idx + 1);
        groups := Rebuild(gl, groups.vals);
      }
      return true;
    }

    /** move_task_up: the swap happens in the group's own list. */
    method MoveTaskUp(group: string, task: string) returns (ok: bool)
      requires Valid()
      modifies this
      ensures Valid()
      ensures ok <==> group in old(groups.vals) && task in old(groups.vals)[group]
      ensures groups == if ok then WithTasks(old(groups), group, MovedTaskUp(old(groups.vals)[group], task)) else old(groups)
      ensures expanded == old(expanded) && current == old(current) && memo == old(memo)
      ensures start == old(start) && log == old(log)
    {
      if group !in groups.vals || task !in groups.vals[group] {
        return false;
      }
      var tasks := groups.vals[group];
      var idx := IndexOf(tasks, task);
      if idx > 0 {
        groups := WithTasks(groups, group, Swap(tasks, idx, idx - 1));
      } else {
        assert groups == WithTasks(groups, group, MovedTaskUp(tasks, task));
      }
      return true;
    }

    /** move_task_down. */
    method MoveTaskDown(group: string, task: string) returns (ok: bool)
      requires Valid()
      modifies this
      ensures Valid()
      ensures ok <==> group in old(groups.vals) && task in old(groups.vals)[group]
      ensures groups == if ok then WithTasks(old(groups), group, MovedTaskDown(old(groups.vals)[group], task)) else old(groups)
      ensures expanded == old(expanded) && current == old(current) && memo == old(memo)
      ensures start == old(start) && log == old(log)
    {
      if group !in groups.vals || task !in groups.vals[group] {
        return false;
      }
      var tasks := groups.vals[group];
      var idx := IndexOf(tasks, task);
      if idx < |tasks| - 1 {
        groups := WithTasks(groups, group, Swap(tasks, idx, idx + 1));
      } else {
        assert groups == WithTasks(groups, group, MovedTaskDown(tasks, task));
      }
      return true;
    }

    /** toggle_group: the flag flips, a name without one counting as
        expanded. */
    method ToggleGroup(group: string)
      requires Valid()
      modifies this
      ensures Valid()
      ensures expanded == old(expanded)[group := !(if group in old(expanded) then old(expanded)[group] else true)]
      ensures groups == old(groups) && current == old(current) && memo == old(memo)
      ensures start == old(start) && log == old(log)
    {
      var shown := if group in expanded then expanded[group] else true;
      expanded := expanded[group := !shown];
    }

    /** add_group, `name` being the dialog's answer (None when cancelled):
        only a non-empty name that is not a group yet is added, last, empty
        and expanded. */
    method AddGroup(name: Option<string>)
      requires Valid()
      modifies this
      ensures Valid()
      ensures name.Some? && name.value != "" && name.value !in old(groups.vals) ==>
        groups == AddedGroup(old(groups), name.value) && expanded == old(expanded)[name.value := true]
      ensures !(name.Some? && name.value != "" && name.value !in old(groups.vals)) ==>
        groups == old(groups) && expanded == old(expanded)
      ensures current == old(current) && memo == old(memo) && start == old(start) && log == old(log)
    {
      if name.Some? && name.value != "" && name.value !in groups.vals {
        groups := AddedGroup(groups, name.value);
        expanded := expanded[name.value := true];
      }
    }

    /** edit_group_name, `newName` being the dialog's answer: the table is
        rebuilt entry by entry with `oldName` filed under the new name, and
        the expansion flag moves with it. */
    method EditGroupName(oldName: string, newName: Option<string>)
      requires Valid()
      modifies this
      ensures Valid()
      ensures newName.Some? && newName.value != "" && newName.value != oldName ==>
        groups == Renamed(old(groups), oldName, newName.value)
        && expanded == (old(expanded) - {oldName})[newName.value := if oldName in old(expanded) then old(expanded)[oldName] else true]
      ensures !(newName.Some? && newName.value != "" && newName.value != oldName) ==>
        groups == old(groups) && expanded == old(expanded)
      ensures current == old(current) && memo == old(memo) && start == old(start) && log == old(log)
    {
      if newName.None? || newName.value == "" || newName.value == oldName {
        return;
      }
      var target := newName.value;
      var keys := groups.keys;
      var acc := Empty;
      var i := 0;
      while i < |keys|
        invariant 0 <= i <= |keys|
        invariant RebuildRenamed(acc, keys[i..], groups.vals, oldName, target) == Renamed(groups, oldName, target)
      {
        assert keys[i..][1..] == keys[i + 1..];
        acc := Put(acc, if keys[i] == oldName then target else keys[i], groups.vals[keys[i]]);
        i := i + 1;
      }
      RenamedNames(groups, oldName, target);
      var flag := if oldName in expanded then expanded[oldName] else true;
      groups := acc;
      expanded := (expanded - {oldName})[target := flag];
    }

    /** delete_group, `confirmed` being the answer to the confirmation: the
        group goes, its expansion flag stays. */
    method DeleteGroup(group: string, confirmed: bool) returns (ok: bool)
      requires Valid()
      modifies this
      ensures Valid()
      ensures ok <==> !confirmed || group in old(groups.vals)
      ensures groups == if confirmed && ok then Removed(old(groups), group) else old(groups)
      ensures expanded == old(expanded) && current == old(current) && memo == old(memo)
      ensures start == old(start) && log == old(log)
    {
      if !confirmed {
        return true;
      }
      if group !in groups.vals {
        return false;
      }
      groups := Removed(groups, group);
      return true;
    }

    /** add_task: a non-empty name not yet in the group's list is appended;
        the group is looked up only for a non-empty name. */
    method AddTask(group: string, name: Option<string>) returns (ok: bool)
      requires Valid()
      modifies this
      ensures Valid()
      ensures ok <==> name.None? || name.value == "" || group in old(groups.vals)
      ensures groups == if ok && name.Some? && name.value != "" && name.value !in old(groups.vals)[group]
        then WithTasks(old(groups), group, old(groups.vals)[group] + [name.value]) else old(groups)
      ensures expanded == old(expanded) && current == old(current) && memo == old(memo)
      ensures start == old(start) && log == old(log)
    {
      if name.None? || name.value == "" {
        return true;
      }
      if group !in groups.vals {
        return false;
      }
      if name.value !in groups.vals[group] {
        groups := WithTasks(groups, group, groups.vals[group] + [name.value]);
      }
      return true;
    }

    /** edit_task: the first occurrence of `oldName` in the group's list
        takes the dialog's answer, when that is non-empty and different. */
    method EditTask(group: string, oldName: string, newName: Option<string>) returns (ok: bool)
      requires Valid()
      modifies this
      ensures Valid()
      ensures ok <==> (newName.None? || newName.value == "" || newName.value == oldName
        || (group in old(groups.vals) && oldName in old(groups.vals)[group]))
      ensures groups == if ok && newName.Some? && newName.value != "" && newName.value != oldName
        then WithTasks(old(groups), group, EditedTasks(old(groups.vals)[group], oldName, newName.value)) else old(groups)
      ensures expanded == old(expanded) && current == old(current) && memo == old(memo)
      ensures start == old(start) && log == old(log)
    {
      if newName.None? || newName.value == "" || newName.value == oldName {
        return true;
      }
      if group !in groups.vals || oldName !in groups.vals[group] {
        return false;
      }
      var tasks := groups.vals[group];
      var idx := IndexOf(tasks, oldName);
      groups := WithTasks(groups, group, tasks[idx := newName.value]);
      return true;
    }

    /** delete_task: the first occurrence of the task leaves the group's
        list. */
    method DeleteTask(group: string, task: string, confirmed: bool) returns (ok: bool)
      requires Valid()
      modifies this
      ensures Valid()
      ensures ok <==> !confirmed || (group in old(groups.vals) && task in old(groups.vals)[group])
      ensures groups == if confirmed && ok
        then WithTasks(old(groups), group, RemoveFirst(old(groups.vals)[group], task)) else old(groups)
      ensures expanded == old(expanded) && current == old(current) && memo == old(memo)
      ensures start == old(start) && log == old(log)
    {
      if !confirmed {
        return true;
      }
      if group !in groups.vals || task !in groups.vals[group] {
        return false;
      }
      groups := WithTasks(groups, group, RemoveFirst(groups.vals[group], task));
      return true;
    }

    // -------------------------------------------------------------------
    // The running task

    /** add_memo: while a task runs, the dialog's answer (even an empty
        one) replaces the memo; a cancelled dialog keeps it. */
    method AddMemo(answer: Option<string>)
      requires Valid()
      modifies this
      ensures Valid()
      ensures memo == if old(current) != Idle && answer.Some? then answer.value else old(memo)
      ensures groups == old(groups) && expanded == old(expanded) && current == old(current)
      ensures start == old(start) && log == old(log)
    {
      if current == Idle {
        return;
      }
      if answer.Some? {
        memo := answer.value;
      }
    }

    /** switch_task at clock reading `now`: a running task is logged, then
        `name` runs from `now` with an empty memo. */
    method SwitchTask(name: string, now: int)
      requires Valid()
      modifies this
      ensures Valid()
      ensures old(current) != Idle ==> log == old(log) + [LogRecord(old(current), old(start).value, now, old(memo))]
      ensures old(current) == Idle ==> log == old(log)
      ensures current == name && memo == "" && start == Some(now)
      ensures groups == old(groups) && expanded == old(expanded)
    {
      if current != Idle {
        log := log + [LogRecord(current, start.value, now, memo)];
      }
      current := name;
      memo := "";
      start := Some(now);
    }

    /** complete_day at clock reading `now`: a running task, once
        confirmed, is logged and the tracker stops; otherwise nothing
        changes. */
    method CompleteDay(confirmed: bool, now: int)
      requires Valid()
      modifies this
      ensures Valid()
      ensures old(current) != Idle && confirmed ==>
        log == old(log) + [LogRecord(old(current), old(start).value, now, old(memo))]
        && current == Idle && memo == "" && start == None
      ensures !(old(current) != Idle && confirmed) ==>
        log == old(log) && current == old(current) && memo == old(memo) && start == old(start)
      ensures groups == old(groups) && expanded == old(expanded)
    {
      if current != Idle && confirmed {
        log := log + [LogRecord(current, start.value, now, memo)];
        current := Idle;
        memo := "";
        start := None;
      }
    }
  }
}
