/** An owner-scoped table: every row has a primary key and the id of the user
    who owns it. DailyTask and PlannerItem are both tables of this shape. */
module Table {
  import opened Wrappers

  datatype Row<D> = Row(id: nat, userId: nat, data: D)

  /** The largest integer SQLite stores (2^63 - 1). A larger id taken from a
      URL cannot be bound as a query parameter: the lookup raises. */
  const MaxRowId: nat := 0x7FFF_FFFF_FFFF_FFFF

  /** The row a handler looks up with filter_by(id=..., user_id=...). */
  predicate Matches<D>(row: Row<D>, id: nat, uid: nat) {
    row.id == id && row.userId == uid
  }

  predicate HasRow<D>(ts: seq<Row<D>>, id: nat, uid: nat) {
    exists i :: 0 <= i < |ts| && Matches(ts[i], id, uid)
  }

  /** The primary key is unique. */
  predicate UniqueIds<D>(ts: seq<Row<D>>) {
    forall i, j :: 0 <= i < j < |ts| ==> ts[i].id != ts[j].id
  }

  /** The rows of one user, in table order: filter_by(user_id=uid). */
  function Owned<D(!new)>(ts: seq<Row<D>>, uid: nat): (r: seq<Row<D>>)
    ensures forall row :: row in r <==> row in ts && row.userId == uid
    ensures |r| <= |ts|
  {
    if ts == [] then []
    else (if ts[0].userId == uid then [ts[0]] else []) + Owned(ts[1..], uid)
  }

  /** filter_by(user_id=uid).count() */
  function Count<D(!new)>(ts: seq<Row<D>>, uid: nat): (n: nat)
    ensures n <= |ts|
  {
    |Owned(ts, uid)|
  }

  /** A user's count is zero exactly when the user owns no row. */
  lemma CountZero<D(!new)>(ts: seq<Row<D>>, uid: nat)
    ensures Count(ts, uid) == 0 <==> forall i :: 0 <= i < |ts| ==> ts[i].userId != uid
  {
    var r := Owned(ts, uid);
    assert r == [] ==> forall i :: 0 <= i < |ts| ==> ts[i] !in r;
    assert r != [] ==> r[0] in r && exists i :: 0 <= i < |ts| && ts[i] == r[0];
  }

  /** The id SQLite gives a row inserted without one: one more than the largest
      id in the table, or 1 in an empty table. */
  function NextId<D>(ts: seq<Row<D>>): (n: nat)
    ensures n >= 1
    ensures forall i :: 0 <= i < |ts| ==> ts[i].id < n
    ensures n == 1 || exists i :: 0 <= i < |ts| && ts[i].id == n - 1
  {
    if ts == [] then 1
    else
      var rest := NextId(ts[1..]);
      if ts[0].id + 1 >= rest then ts[0].id + 1
      else
        assert exists i :: 0 <= i < |ts[1..]| && ts[1..][i].id == rest - 1;
        rest
  }

  /** .first() of filter_by(id=id, user_id=uid): the first matching index. */
  function Find<D>(ts: seq<Row<D>>, id: nat, uid: nat): (r: Option<nat>)
    ensures r.None? <==> !HasRow(ts, id, uid)
    ensures r.Some? ==> r.value < |ts| && Matches(ts[r.value], id, uid)
    ensures r.Some? ==> forall i :: 0 <= i < r.value ==> !Matches(ts[i], id, uid)
  {
    if ts == [] then None
    else if Matches(ts[0], id, uid) then Some(0)
    else match Find(ts[1..], id, uid)
      case None =>
        assert forall i :: 1 <= i < |ts| ==> ts[i] == ts[1..][i - 1];
        None
      case Some(k) => Some(k + 1)
  }

  /** The table after a delete scoped by id and owner. */
  function Remove<D(!new)>(ts: seq<Row<D>>, id: nat, uid: nat): (r: seq<Row<D>>)
    ensures forall row :: row in r <==> row in ts && !Matches(row, id, uid)
    ensures |r| <= |ts|
  {
    if ts == [] then []
    else (if Matches(ts[0], id, uid) then [] else [ts[0]]) + Remove(ts[1..], id, uid)
  }

  /** Deleting a row the caller does not own changes nothing. */
  lemma {:induction false} RemoveMissing<D(!new)>(ts: seq<Row<D>>, id: nat, uid: nat)
    requires !HasRow(ts, id, uid)
    ensures Remove(ts, id, uid) == ts
  {
    if ts != [] {
      assert !Matches(ts[0], id, uid);
      forall k | 0 <= k < |ts[1..]| ensures !Matches(ts[1..][k], id, uid) {
        assert ts[1..][k] == ts[k + 1];
      }
      RemoveMissing(ts[1..], id, uid);
    }
  }

  /** With unique ids, deleting the row found at index i removes that row only. */
  lemma {:induction false} RemoveAt<D(!new)>(ts: seq<Row<D>>, i: nat, id: nat, uid: nat)
    requires UniqueIds(ts) && i < |ts| && Matches(ts[i], id, uid)
    ensures Remove(ts, id, uid) == ts[..i] + ts[i + 1..]
  {
    if i == 0 {
      forall k | 0 <= k < |ts[1..]| ensures !Matches(ts[1..][k], id, uid) {
        assert ts[1..][k] == ts[k + 1];
      }
      RemoveMissing(ts[1..], id, uid);
    } else {
      assert ts[0].id != ts[i].id;
      RemoveAt(ts[1..], i - 1, id, uid);
      assert ts[1..][..i - 1] == ts[1..i];
      assert ts[1..][i..] == ts[i + 1..];
      assert ts[..i] == [ts[0]] + ts[1..i];
    }
  }

  /** Removing one row keeps the keys unique. */
  lemma UniqueIdsWithout<D>(ts: seq<Row<D>>, i: nat)
    requires UniqueIds(ts) && i < |ts|
    ensures UniqueIds(ts[..i] + ts[i + 1..])
  {
    var r := ts[..i] + ts[i + 1..];
    forall a, b | 0 <= a < b < |r| ensures r[a].id != r[b].id {
      var a' := if a < i then a else a + 1;
      var b' := if b < i then b else b + 1;
      assert r[a] == ts[a'] && r[b] == ts[b'];
    }
  }

  /** Appending a row adds it to its owner's rows and to no one else's. */
  lemma {:induction false} OwnedAppend<D(!new)>(ts: seq<Row<D>>, row: Row<D>, u: nat)
    ensures Owned(ts + [row], u) == Owned(ts, u) + (if row.userId == u then [row] else [])
  {
    if ts == [] {
      assert Owned([row], u) == (if row.userId == u then [row] else []) + Owned([], u);
    } else {
      assert (ts + [row])[1..] == ts[1..] + [row];
      OwnedAppend(ts[1..], row, u);
    }
  }

  /** A user's view of two tables laid end to end is the view of the first
      followed by the view of the second: together with OwnedAppend this fixes
      the view as the user's rows in table order. */
  lemma {:induction false} OwnedConcat<D(!new)>(a: seq<Row<D>>, b: seq<Row<D>>, u: nat)
    ensures Owned(a + b, u) == Owned(a, u) + Owned(b, u)
  {
    if a == [] {
      assert a + b == b;
    } else {
      assert (a + b)[0] == a[0] && (a + b)[1..] == a[1..] + b;
      OwnedConcat(a[1..], b, u);
    }
  }

  /** Inserting a row raises its owner's count by one and no other count. */
  lemma CountAppend<D(!new)>(ts: seq<Row<D>>, row: Row<D>, u: nat)
    ensures Count(ts + [row], u) == Count(ts, u) + (if row.userId == u then 1 else 0)
  {
    OwnedAppend(ts, row, u);
  }

  /** Two tables of the same length agree on a user's rows when they agree on
      every row that user owns in either of them. */
  lemma {:induction false} OwnedAgree<D(!new)>(a: seq<Row<D>>, b: seq<Row<D>>, u: nat)
    requires |a| == |b|
    requires forall i :: 0 <= i < |a| && (a[i].userId == u || b[i].userId == u) ==> a[i] == b[i]
    ensures Owned(a, u) == Owned(b, u)
  {
    if a != [] {
      OwnedAgree(a[1..], b[1..], u);
    }
  }

  /** A user's row count depends only on the owner column. */
  lemma {:induction false} CountAligned<D(!new), E(!new)>(a: seq<Row<D>>, b: seq<Row<E>>, u: nat)
    requires |a| == |b|
    requires forall i :: 0 <= i < |a| ==> a[i].userId == b[i].userId
    ensures Count(a, u) == Count(b, u)
  {
    if a != [] {
      CountAligned(a[1..], b[1..], u);
    }
  }

  /** A delete scoped to uid leaves every other user's rows as they were. */
  lemma {:induction false} RemoveLeavesOthers<D(!new)>(ts: seq<Row<D>>, id: nat, uid: nat, u: nat)
    requires u != uid
    ensures Owned(Remove(ts, id, uid), u) == Owned(ts, u)
  {
    if ts != [] {
      var r := Remove(ts, id, uid);
      RemoveLeavesOthers(ts[1..], id, uid, u);
      if Matches(ts[0], id, uid) {
        assert r == Remove(ts[1..], id, uid);
      } else {
        assert r[0] == ts[0] && r[1..] == Remove(ts[1..], id, uid);
      }
    }
  }

  /** A delete never raises anyone's row count. */
  lemma {:induction false} RemoveCount<D(!new)>(ts: seq<Row<D>>, id: nat, uid: nat, u: nat)
    ensures Count(Remove(ts, id, uid), u) <= Count(ts, u)
  {
    if ts != [] {
      var r := Remove(ts, id, uid);
      RemoveCount(ts[1..], id, uid, u);
      if Matches(ts[0], id, uid) {
        assert r == Remove(ts[1..], id, uid);
      } else {
        assert r[0] == ts[0] && r[1..] == Remove(ts[1..], id, uid);
      }
    }
  }
}
