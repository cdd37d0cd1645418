/** The per-user store behind the dashboard: the DailyTask, PlannerItem and
    User tables, with one method per request handler. The caller is the
    logged-in user, passed explicitly as `uid`; a form field the request does
    not carry is None. */
module Dashboard {
  import opened Wrappers
  import opened Text
  import opened Table
  import opened Tasks
  import opened Planner
  import opened Report

  /** How a handler answers: a redirect back to the dashboard, a 404 from
      first_or_404, or a 500 from an exception the handler does not catch. */
  datatype Response = Redirect | NotFound | ServerError

  class Store {
    var users: map<nat, User>
    var tasks: seq<Row<Task>>
    var items: seq<Row<Item>>

    /** Primary keys are unique, no user owns more than MaxTasks tasks, and
        every stored planner item has its appointment date. */
    ghost predicate Valid()
      reads this
    {
      UniqueIds(tasks) && UniqueIds(items)
      && (forall u :: Count(tasks, u) <= MaxTasks)
      && (forall i :: 0 <= i < |items| ==> SchemaAccepts(items[i]))
    }

    constructor (users: map<nat, User>)
      ensures Valid()
      ensures this.users == users && tasks == [] && items == []
    {
      this.users := users;
      tasks := [];
      items := [];
    }

    /** home(): the caller's tasks and planner items. The query fixes no order;
        the model lists them in table order. */
    method Home(uid: nat) returns (myTasks: seq<Row<Task>>, myItems: seq<Row<Item>>)
      ensures forall row :: row in myTasks <==> row in tasks && row.userId == uid
      ensures forall row :: row in myItems <==> row in items && row.userId == uid
      ensures |myTasks| == Count(tasks, uid) && |myItems| == Count(items, uid)
      ensures myTasks == Owned(tasks, uid) && myItems == Owned(items, uid)
    {
      myTasks := Owned(tasks, uid);
      myItems := Owned(items, uid);
    }

    /** add_task: insert a task for the caller when the text is not blank and
        the caller owns fewer than MaxTasks tasks. */
    method AddTask(uid: nat, text: Option<string>) returns (r: Response)
      requires Valid()
      modifies this
      ensures Valid()
      ensures users == old(users) && items == old(items)
      ensures r == if text.None? then ServerError else Redirect
      ensures if text.Some? && !IsBlank(text.value) && Count(old(tasks), uid) < MaxTasks
              then tasks == old(tasks) + [Row(NextId(old(tasks)), uid, Task(text.value, false))]
              else tasks == old(tasks)
      ensures forall u :: u != uid ==> Owned(tasks, u) == Owned(old(tasks), u)
    {
      if text.None? {
        // None.strip() raises AttributeError
        return ServerError;
      }
      if Strip(text.value) != [] && Count(tasks, uid) < MaxTasks {
        var row := Row(NextId(tasks), uid, Task(text.value, false));
        var after := tasks + [row];
        forall u ensures Owned(after, u) == Owned(tasks, u) + (if u == uid then [row] else []) {
          OwnedAppend(tasks, row, u);
        }
        AppendKeepsCap(tasks, row);
        tasks := after;
      }
      r := Redirect;
    }

    /** delete_task: delete the caller's task with this id, or answer 404. */
    method DeleteTask(uid: nat, id: nat) returns (r: Response)
      requires Valid()
      modifies this
      ensures Valid()
      ensures users == old(users) && items == old(items)
      ensures r == if id > MaxRowId then ServerError
                   else if HasRow(old(tasks), id, uid) then Redirect else NotFound
      ensures tasks == if id > MaxRowId then old(tasks) else Remove(old(tasks), id, uid)
      ensures r != Redirect ==> tasks == old(tasks)
      ensures r == Redirect ==> |tasks| == |old(tasks)| - 1
      ensures forall u :: u != uid ==> Owned(tasks, u) == Owned(old(tasks), u)
    {
      if id > MaxRowId {
        // the database driver cannot bind the id, and the handler does not catch it
        return ServerError;
      }
      match Find(tasks, id, uid)
      case None =>
        RemoveMissing(tasks, id, uid);
        r := NotFound;
      case Some(i) =>
        ghost var before := tasks;
        RemoveAt(tasks, i, id, uid);
        UniqueIdsWithout(tasks, i);
        forall u ensures Count(Remove(before, id, uid), u) <= Count(before, u)
          && (u != uid ==> Owned(Remove(before, id, uid), u) == Owned(before, u))
        {
          RemoveCount(before, id, uid, u);
          if u != uid {
            RemoveLeavesOthers(before, id, uid, u);
          }
        }
        tasks := tasks[..i] + tasks[i + 1..];
        r := Redirect;
    }

    /** toggle_task: flip `done` on the caller's task with this id, or answer 404. */
    method ToggleTask(uid: nat, id: nat) returns (r: Response)
      requires Valid()
      modifies this
      ensures Valid()
      ensures users == old(users) && items == old(items)
      ensures r == if id > MaxRowId then ServerError
                   else if HasRow(old(tasks), id, uid) then Redirect else NotFound
      ensures tasks == if id > MaxRowId then old(tasks) else ToggleDone(old(tasks), id, uid)
      ensures r != Redirect ==> tasks == old(tasks)
      ensures r == Redirect ==>
        var i := Find(old(tasks), id, uid).value;
        tasks == old(tasks)[i := Flip(old(tasks)[i])]
      ensures forall u :: u != uid ==> Owned(tasks, u) == Owned(old(tasks), u)
    {
      if id > MaxRowId {
        // the database driver cannot bind the id, and the handler does not catch it
        return ServerError;
      }
      match Find(tasks, id, uid)
      case None =>
        ToggleMissing(tasks, id, uid);
        r := NotFound;
      case Some(i) =>
        ghost var before := tasks;
        ToggleAt(tasks, i, id, uid);
        forall u ensures Count(ToggleDone(before, id, uid), u) == Count(before, u)
          && (u != uid ==> Owned(ToggleDone(before, id, uid), u) == Owned(before, u))
        {
          ToggleLeavesOthers(before, id, uid, u);
        }
        tasks := tasks[i := Flip(tasks[i])];
        r := Redirect;
    }

    /** reset_tasks: one bulk update that clears `done` on every task of the caller. */
    method ResetTasks(uid: nat) returns (r: Response)
      requires Valid()
      modifies this
      ensures Valid()
      ensures r == Redirect
      ensures users == old(users) && items == old(items)
      ensures tasks == ResetDone(old(tasks), uid)
      ensures forall i :: 0 <= i < |tasks| && tasks[i].userId == uid ==> !tasks[i].data.done
      ensures forall u :: u != uid ==> Owned(tasks, u) == Owned(old(tasks), u)
    {
      ghost var before := tasks;
      forall u ensures Count(ResetDone(before, uid), u) == Count(before, u)
        && (u != uid ==> Owned(ResetDone(before, uid), u) == Owned(before, u))
      {
        ResetLeavesOthers(before, uid, u);
      }
      tasks := ResetDone(tasks, uid);
      r := Redirect;
    }

    /** db.session.add(row); db.session.commit() for a planner item: the
        commit fails when the row breaks the NOT NULL constraint, and the
        failed request stores nothing. */
    method InsertItem(row: Row<Item>) returns (ok: bool)
      requires Valid() && row.id == NextId(items)
      modifies this
      ensures Valid()
      ensures users == old(users) && tasks == old(tasks)
      ensures ok == SchemaAccepts(row)
      ensures items == if ok then old(items) + [row] else old(items)
    {
      ok := SchemaAccepts(row);
      if ok {
        items := items + [row];
      }
    }

    /** add_item as the handler is written: the row it builds has no
        appointment date, so every non-blank item fails at commit. */
    method AddItemAsWritten(uid: nat, text: Option<string>) returns (r: Response)
      requires Valid()
      modifies this
      ensures Valid()
      ensures users == old(users) && tasks == old(tasks) && items == old(items)
      ensures r == if text.Some? && IsBlank(text.value) then Redirect else ServerError
    {
      if text.None? {
        return ServerError;
      }
      r := Redirect;
      if Strip(text.value) != [] {
        var ok := InsertItem(ItemFromForm(NextId(items), uid, text.value));
        r := if ok then Redirect else ServerError;
      }
    }

    /** add_item with the appointment date the schema requires: append one
        item for the caller when the text is not blank. */
    method AddItem(uid: nat, text: Option<string>, date: CalendarDate) returns (r: Response)
      requires Valid()
      modifies this
      ensures Valid()
      ensures users == old(users) && tasks == old(tasks)
      ensures r == if text.None? then ServerError else Redirect
      ensures if text.Some? && !IsBlank(text.value)
              then items == old(items) + [Row(NextId(old(items)), uid, Item(text.value, Some(date)))]
              else items == old(items)
      ensures forall u :: u != uid ==> Owned(items, u) == Owned(old(items), u)
    {
      if text.None? {
        return ServerError;
      }
      r := Redirect;
      if Strip(text.value) != [] {
        var row := Row(NextId(items), uid, Item(text.value, Some(date)));
        forall u ensures Owned(items + [row], u) == Owned(items, u) + (if u == uid then [row] else []) {
          OwnedAppend(items, row, u);
        }
        var ok := InsertItem(row);
        r := if ok then Redirect else ServerError;
      }
    }

    /** delete_item: delete the caller's planner item with this id, or answer 404. */
    method DeleteItem(uid: nat, id: nat) returns (r: Response)
      requires Valid()
      modifies this
      ensures Valid()
      ensures users == old(users) && tasks == old(tasks)
      ensures r == if id > MaxRowId then ServerError
                   else if HasRow(old(items), id, uid) then Redirect else NotFound
      ensures items == if id > MaxRowId then old(items) else Remove(old(items), id, uid)
      ensures r != Redirect ==> items == old(items)
      ensures r == Redirect ==> |items| == |old(items)| - 1
      ensures forall u :: u != uid ==> Owned(items, u) == Owned(old(items), u)
    {
      if id > MaxRowId {
        // the database driver cannot bind the id, and the handler does not catch it
        return ServerError;
      }
      match Find(items, id, uid)
      case None =>
        RemoveMissing(items, id, uid);
        r := NotFound;
      case Some(i) =>
        ghost var before := items;
        RemoveAt(items, i, id, uid);
        UniqueIdsWithout(items, i);
        forall u | u != uid ensures Owned(Remove(before, id, uid), u) == Owned(before, u) {
          RemoveLeavesOthers(before, id, uid, u);
        }
        items := items[..i] + items[i + 1..];
        r := Redirect;
    }

    /** generate_report: store a report for the caller only when none is stored
        and a condition is set; `g` is what the generative service does if
        it is asked. Returns the user row the report page shows. */
    method GenerateReport(uid: nat, g: Generation) returns (shown: User)
      requires Valid() && uid in users
      modifies this
      ensures Valid()
      ensures tasks == old(tasks) && items == old(items)
      ensures shown == ReportAfter(old(users[uid]), g)
      ensures users == old(users)[uid := shown]
      ensures Truthy(old(users[uid].aiReport)) ==> users == old(users)
      ensures !Truthy(old(users[uid].aiReport)) && Truthy(old(users[uid].condition)) && g.Failed?
        ==> Truthy(users[uid].aiReport)
    {
      var user := users[uid];
      if !Truthy(user.aiReport) && Truthy(user.condition) {
        match g {
          case Generated(t) =>
            user := user.(aiReport := Some(t));
          case Failed(e) =>
            user := user.(aiReport := Some(ErrorPrefix + e));
        }
        users := users[uid := user];
      } else {
        assert users[uid := user] == users;
      }
      shown := user;
    }
  }

  /** Toggling the same task twice restores the task table. */
  method ToggleTwiceRestores(s: Store, uid: nat, id: nat)
    requires s.Valid()
    modifies s
    ensures s.Valid()
    ensures s.tasks == old(s.tasks) && s.items == old(s.items) && s.users == old(s.users)
  {
    var first := s.ToggleTask(uid, id);
    var second := s.ToggleTask(uid, id);
    ToggleTwice(old(s.tasks), id, uid);
  }

  /** A second reset leaves the table as the first one left it. */
  method ResetTwiceIsResetOnce(s: Store, uid: nat)
    requires s.Valid()
    modifies s
    ensures s.Valid()
    ensures s.tasks == ResetDone(old(s.tasks), uid)
    ensures s.users == old(s.users) && s.items == old(s.items)
  {
    var first := s.ResetTasks(uid);
    var second := s.ResetTasks(uid);
    ResetTwice(old(s.tasks), uid);
  }

  /** After a call that stores a non-empty report, a second call changes
      nothing, whatever the service would answer. */
  method ReportWrittenAtMostOnce(s: Store, uid: nat, g1: Generation, g2: Generation)
    requires s.Valid() && uid in s.users
    modifies s
    ensures s.Valid()
    ensures var first := ReportAfter(old(s.users[uid]), g1);
      Truthy(first.aiReport) ==> s.users == old(s.users)[uid := first]
    ensures s.tasks == old(s.tasks) && s.items == old(s.items)
  {
    var first := s.GenerateReport(uid, g1);
    var second := s.GenerateReport(uid, g2);
  }
}
