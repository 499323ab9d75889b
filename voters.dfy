/**
 The `voters` table: one record type and the table-wide transformations that
 the DELETE and UPDATE statements of the admin and device handlers perform.
 The table is a sequence of records in rowid order.
 */
module Voters {
  import opened Wrappers

  /** One row of `voters(id, name, gender, fingerprint_id, voted, timestamp)`.
      `voted` is the INTEGER column as stored; `timestamp` is NULL or the
      ISO-formatted instant of the last vote. */
  datatype Voter = Voter(
    id: int,
    name: string,
    gender: string,
    fingerprintId: int,
    voted: int,
    timestamp: Option<string>)

  /** `voted` is 0 or 1, and it is 1 exactly when a timestamp is recorded. */
  predicate Consistent(v: Voter)
  {
    (v.voted == 0 || v.voted == 1) && (v.voted == 1 <==> v.timestamp.Some?)
  }

  /** Rowid order: AUTOINCREMENT hands out ids in increasing order, so the
      ids of the rows still present increase along the sequence. */
  predicate IdsIncreasing(rows: seq<Voter>)
  {
    forall i, j :: 0 <= i < j < |rows| ==> rows[i].id < rows[j].id
  }

  predicate TableInvariant(rows: seq<Voter>)
  {
    IdsIncreasing(rows) && forall i :: 0 <= i < |rows| ==> Consistent(rows[i])
  }

  /** The registration data of a record: all columns but the vote state. */
  predicate SameIdentity(a: Voter, b: Voter)
  {
    a.id == b.id && a.name == b.name && a.gender == b.gender && a.fingerprintId == b.fingerprintId
  }

  /** `DELETE FROM voters WHERE id=?`: the rows whose id differs, in order. */
  function Remove(rows: seq<Voter>, id: int): (r: seq<Voter>)
    ensures |r| <= |rows|
    ensures forall v :: v in r <==> v in rows && v.id != id
  {
    if rows == [] then []
    else if rows[0].id == id then Remove(rows[1..], id)
    else [rows[0]] + Remove(rows[1..], id)
  }

  /** `UPDATE voters SET voted=0, timestamp=NULL`: every row loses its vote
      state and keeps its registration data. */
  function ResetAll(rows: seq<Voter>): (r: seq<Voter>)
    ensures |r| == |rows|
    ensures forall i :: 0 <= i < |rows| ==>
      SameIdentity(r[i], rows[i]) && r[i].voted == 0 && r[i].timestamp == None
  {
    if rows == [] then []
    else [rows[0].(voted := 0, timestamp := None)] + ResetAll(rows[1..])
  }

  /** `UPDATE voters SET voted=1, timestamp=? WHERE fingerprint_id=?`: every
      row with fingerprint `f` is marked voted at `now`; other rows are kept. */
  function CastAll(rows: seq<Voter>, f: int, now: string): (r: seq<Voter>)
    ensures |r| == |rows|
    ensures forall i :: 0 <= i < |rows| && rows[i].fingerprintId == f ==>
      SameIdentity(r[i], rows[i]) && r[i].voted == 1 && r[i].timestamp == Some(now)
    ensures forall i :: 0 <= i < |rows| && rows[i].fingerprintId != f ==> r[i] == rows[i]
  {
    if rows == [] then []
    else
      var head := if rows[0].fingerprintId == f then rows[0].(voted := 1, timestamp := Some(now)) else rows[0];
      [head] + CastAll(rows[1..], f, now)
  }

  /** Deleting row by row: the filter of a longer prefix extends the filter
      of the shorter one by the new row exactly when its id differs. */
  lemma {:induction false} RemoveSnoc(s: seq<Voter>, x: Voter, id: int)
    ensures Remove(s + [x], id) == Remove(s, id) + (if x.id == id then [] else [x])
  {
    if s == [] {
      assert [] + [x] == [x];
    } else {
      assert (s + [x])[0] == s[0];
      assert (s + [x])[1..] == s[1..] + [x];
      RemoveSnoc(s[1..], x, id);
    }
  }

  /** Deleting an id that no row carries leaves the table as it was. */
  lemma {:induction false} RemoveAbsent(rows: seq<Voter>, id: int)
    requires forall i :: 0 <= i < |rows| ==> rows[i].id != id
    ensures Remove(rows, id) == rows
  {
    if rows != [] {
      RemoveAbsent(rows[1..], id);
    }
  }

  /** Deleting the id of row `k` removes exactly that row and keeps the
      others in their order. */
  lemma {:induction false} RemoveAt(rows: seq<Voter>, k: int)
    requires IdsIncreasing(rows)
    requires 0 <= k < |rows|
    ensures Remove(rows, rows[k].id) == rows[..k] + rows[k + 1..]
  {
    var id := rows[k].id;
    if k == 0 {
      RemoveAbsent(rows[1..], id);
    } else {
      assert rows[0].id < id;
      var tail := rows[1..];
      assert tail[k - 1] == rows[k];
      RemoveAt(tail, k - 1);
      assert rows[..k] + rows[k + 1..] == [rows[0]] + (tail[..k - 1] + tail[k..]);
    }
  }

  /** A delete keeps the rowid order and every record's consistency. */
  lemma {:induction false} RemovePreservesInvariant(rows: seq<Voter>, id: int)
    requires TableInvariant(rows)
    ensures TableInvariant(Remove(rows, id))
  {
    if rows != [] {
      var tail := rows[1..];
      RemovePreservesInvariant(tail, id);
      if rows[0].id != id {
        var r := Remove(tail, id);
        forall j | 0 <= j < |r|
          ensures rows[0].id < r[j].id
        {
          assert r[j] in tail;
          var k :| 0 <= k < |tail| && tail[k] == r[j];
          assert rows[k + 1] == r[j];
        }
        assert Remove(rows, id) == [rows[0]] + r;
      }
    }
  }

  /** A reset keeps the rowid order and leaves every record consistent. */
  lemma ResetPreservesInvariant(rows: seq<Voter>)
    requires IdsIncreasing(rows)
    ensures TableInvariant(ResetAll(rows))
  {
  }

  /** A vote keeps the rowid order and leaves every record consistent. */
  lemma CastPreservesInvariant(rows: seq<Voter>, f: int, now: string)
    requires TableInvariant(rows)
    ensures TableInvariant(CastAll(rows, f, now))
  {
  }

  /** Resetting twice is resetting once. */
  lemma ResetIdempotent(rows: seq<Voter>)
    ensures ResetAll(ResetAll(rows)) == ResetAll(rows)
  {
  }

  /** A second vote with the same fingerprint only refreshes the timestamp:
      the table is as if only the later vote had been cast. */
  lemma CastTwice(rows: seq<Voter>, f: int, earlier: string, later: string)
    ensures CastAll(CastAll(rows, f, earlier), f, later) == CastAll(rows, f, later)
  {
  }

  /** A vote for a fingerprint that no row carries changes nothing. */
  lemma CastUnregistered(rows: seq<Voter>, f: int, now: string)
    requires forall i :: 0 <= i < |rows| ==> rows[i].fingerprintId != f
    ensures CastAll(rows, f, now) == rows
  {
  }
}
