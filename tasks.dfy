/** Daily tasks: the columns of a DailyTask row and the two in-place updates
    the handlers make to them (toggle one row, reset all of a user's rows). */
module Tasks {
  import opened Table

  datatype Task = Task(text: string, done: bool)

  /** add_task refuses to create more than this many tasks for one user. */
  const MaxTasks: nat := 15

  /** Appending a task for a user below the cap keeps every user within it. */
  lemma AppendKeepsCap(ts: seq<Row<Task>>, row: Row<Task>)
    requires forall u :: Count(ts, u) <= MaxTasks
    requires Count(ts, row.userId) < MaxTasks
    ensures forall u :: Count(ts + [row], u) <= MaxTasks
    ensures Count(ts + [row], row.userId) == Count(ts, row.userId) + 1
  {
    forall u ensures Count(ts + [row], u) == Count(ts, u) + (if u == row.userId then 1 else 0) {
      CountAppend(ts, row, u);
    }
  }

  /** task.done = not task.done: the same row with `done` negated. */
  function Flip(row: Row<Task>): (r: Row<Task>)
    ensures r.id == row.id && r.userId == row.userId && r.data.text == row.data.text
    ensures r.data.done != row.data.done
    ensures r != row
  {
    row.(data := row.data.(done := !row.data.done))
  }

  /** The table after toggling `done` on the rows with this id and owner. */
  function ToggleDone(ts: seq<Row<Task>>, id: nat, uid: nat): (r: seq<Row<Task>>)
    ensures |r| == |ts|
    ensures forall i :: 0 <= i < |ts| ==>
      r[i] == if Matches(ts[i], id, uid) then Flip(ts[i]) else ts[i]
  {
    if ts == [] then []
    else [if Matches(ts[0], id, uid) then Flip(ts[0]) else ts[0]] + ToggleDone(ts[1..], id, uid)
  }

  /** The table after update({done: False}) on the rows of uid. */
  function ResetDone(ts: seq<Row<Task>>, uid: nat): (r: seq<Row<Task>>)
    ensures |r| == |ts|
    ensures forall i :: 0 <= i < |ts| ==> r[i].id == ts[i].id && r[i].userId == ts[i].userId
    ensures forall i :: 0 <= i < |ts| && ts[i].userId == uid ==>
      !r[i].data.done && r[i].data.text == ts[i].data.text
    ensures forall i :: 0 <= i < |ts| && ts[i].userId != uid ==> r[i] == ts[i]
  {
    if ts == [] then []
    else
      var head := if ts[0].userId == uid then ts[0].(data := ts[0].data.(done := false)) else ts[0];
      [head] + ResetDone(ts[1..], uid)
  }

  /** Toggling an id the caller does not own changes nothing. */
  lemma ToggleMissing(ts: seq<Row<Task>>, id: nat, uid: nat)
    requires !HasRow(ts, id, uid)
    ensures ToggleDone(ts, id, uid) == ts
  {
  }

  /** With unique ids, toggling flips exactly the row found at index i. */
  lemma ToggleAt(ts: seq<Row<Task>>, i: nat, id: nat, uid: nat)
    requires UniqueIds(ts) && i < |ts| && Matches(ts[i], id, uid)
    ensures ToggleDone(ts, id, uid) == ts[i := Flip(ts[i])]
  {
  }

  /** Toggling the same task twice restores the table. */
  lemma ToggleTwice(ts: seq<Row<Task>>, id: nat, uid: nat)
    ensures ToggleDone(ToggleDone(ts, id, uid), id, uid) == ts
  {
  }

  /** A toggle scoped to uid leaves every other user's tasks as they were and
      changes no one's task count. */
  lemma ToggleLeavesOthers(ts: seq<Row<Task>>, id: nat, uid: nat, u: nat)
    ensures u != uid ==> Owned(ToggleDone(ts, id, uid), u) == Owned(ts, u)
    ensures Count(ToggleDone(ts, id, uid), u) == Count(ts, u)
  {
    var r := ToggleDone(ts, id, uid);
    if u != uid {
      OwnedAgree(ts, r, u);
    }
    CountAligned(ts, r, u);
  }

  /** Resetting twice is the same as resetting once. */
  lemma ResetTwice(ts: seq<Row<Task>>, uid: nat)
    ensures ResetDone(ResetDone(ts, uid), uid) == ResetDone(ts, uid)
  {
  }

  /** A reset scoped to uid leaves every other user's tasks as they were and
      changes no one's task count. */
  lemma ResetLeavesOthers(ts: seq<Row<Task>>, uid: nat, u: nat)
    ensures u != uid ==> Owned(ResetDone(ts, uid), u) == Owned(ts, u)
    ensures Count(ResetDone(ts, uid), u) == Count(ts, u)
  {
    var r := ResetDone(ts, uid);
    if u != uid {
      OwnedAgree(ts, r, u);
    }
    CountAligned(ts, r, u);
  }
}
