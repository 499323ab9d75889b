/**
 The database behind the handlers: the `voters` rows in rowid order, the
 AUTOINCREMENT counter, and the four handlers that write to the table.
 */
module VoterDb {
  import opened Wrappers
  import opened Voters
  import opened VoteMachine

  class VoterTable {
    /** The table's rows in rowid order. */
    var rows: seq<Voter>
    /** The id the next INSERT receives: one more than the largest id ever
        handed out (SQLite keeps that largest id in `sqlite_sequence`). */
    var nextId: int
    /** Every id ever handed out, including those of deleted rows. */
    ghost var issued: set<int>

    ghost predicate Valid()
      reads this
    {
      1 <= nextId &&
      TableInvariant(rows) &&
      (forall i :: 0 <= i < |rows| ==> rows[i].id in issued) &&
      (forall id :: id in issued ==> 1 <= id < nextId)
    }

    /** A freshly created, empty table; AUTOINCREMENT starts at 1. */
    constructor ()
      ensures Valid()
      ensures rows == [] && nextId == 1 && issued == {}
    {
      rows := [];
      nextId := 1;
      issued := {};
    }

    /** POST /add_voter: `INSERT INTO voters (name, gender, fingerprint_id,
        voted) VALUES (?, ?, ?, 0)`. Appends one record that has not voted,
        under an id never handed out before; fingerprints are not checked
        for uniqueness. Returns the new id. */
    method AddVoter(name: string, gender: string, fingerprintId: int) returns (id: int)
      requires Valid()
      modifies this
      ensures Valid()
      ensures rows == old(rows) + [Voter(id, name, gender, fingerprintId, 0, None)]
      ensures id !in old(issued) && forall k :: k in old(issued) ==> k < id
      ensures issued == old(issued) + {id}
      ensures id == old(nextId) && nextId == old(nextId) + 1
    {
      id := nextId;
      rows := rows + [Voter(id, name, gender, fingerprintId, 0, None)];
      nextId := nextId + 1;
      issued := issued + {id};
    }

    /** GET /delete_voter/<id>: `DELETE FROM voters WHERE id=?`. Removes
        exactly the row with that id, if any; the counter is not lowered. */
    method DeleteVoter(id: int)
      requires Valid()
      modifies this`rows
      ensures Valid()
      ensures rows == Remove(old(rows), id)
      ensures (forall i :: 0 <= i < |old(rows)| ==> old(rows)[i].id != id) ==> rows == old(rows)
      ensures forall k :: 0 <= k < |old(rows)| && old(rows)[k].id == id ==>
        rows == old(rows)[..k] + old(rows)[k + 1..]
      ensures nextId == old(nextId) && issued == old(issued)
    {
      var kept := DeleteScan(rows, id);
      RemovePreservesInvariant(rows, id);
      forall i | 0 <= i < |kept|
        ensures kept[i].id in issued
      {
        assert kept[i] in rows;
      }
      if forall i :: 0 <= i < |rows| ==> rows[i].id != id {
        RemoveAbsent(rows, id);
      }
      forall k | 0 <= k < |rows| && rows[k].id == id
        ensures kept == rows[..k] + rows[k + 1..]
      {
        RemoveAt(rows, k);
      }
      rows := kept;
    }

    /** GET /reset_votes: `UPDATE voters SET voted=0, timestamp=NULL`, row by
        row over the whole table. */
    method ResetVotes()
      requires Valid()
      modifies this`rows
      ensures Valid()
      ensures rows == ResetAll(old(rows))
    {
      var updated := ResetScan(rows);
      ResetPreservesInvariant(rows);
      rows := updated;
    }

    /** POST /vote: `UPDATE voters SET voted=1, timestamp=? WHERE
        fingerprint_id=?`, row by row. Every matching row is marked voted at
        `now`; the answer is `success` whether or not a row matched. */
    method CastVote(fingerprintId: int, now: string) returns (response: VoteResponse)
      requires Valid()
      modifies this`rows
      ensures Valid()
      ensures rows == CastAll(old(rows), fingerprintId, now)
      ensures response == Recorded && response.status == "success"
    {
      var updated := CastScan(rows, fingerprintId, now);
      CastPreservesInvariant(rows, fingerprintId, now);
      rows := updated;
      response := Recorded;
    }
  }

  /** The scan that `DELETE ... WHERE id=?` performs: keeps, in order, the
      rows whose id differs. */
  method DeleteScan(table: seq<Voter>, id: int) returns (kept: seq<Voter>)
    ensures kept == Remove(table, id)
  {
    kept := [];
    var i := 0;
    while i < |table|
      invariant 0 <= i <= |table|
      invariant kept == Remove(table[..i], id)
    {
      RemoveSnoc(table[..i], table[i], id);
      assert table[..i + 1] == table[..i] + [table[i]];
      if table[i].id != id {
        kept := kept + [table[i]];
      }
      i := i + 1;
    }
    assert table[..|table|] == table;
  }

  /** The row-by-row update of `UPDATE voters SET voted=0, timestamp=NULL`. */
  method ResetScan(table: seq<Voter>) returns (updated: seq<Voter>)
    ensures updated == ResetAll(table)
  {
    updated := table;
    for i := 0 to |updated|
      invariant |updated| == |table|
      invariant forall k :: 0 <= k < i ==> updated[k] == table[k].(voted := 0, timestamp := None)
      invariant forall k :: i <= k < |table| ==> updated[k] == table[k]
    {
      updated := updated[i := updated[i].(voted := 0, timestamp := None)];
    }
    var spec := ResetAll(table);
    assert forall k :: 0 <= k < |table| ==> updated[k] == spec[k];
  }

  /** The row-by-row update of `UPDATE voters SET voted=1, timestamp=?
      WHERE fingerprint_id=?`. */
  method CastScan(table: seq<Voter>, f: int, now: string) returns (updated: seq<Voter>)
    ensures updated == CastAll(table, f, now)
  {
    updated := table;
    for i := 0 to |updated|
      invariant |updated| == |table|
      invariant forall k :: 0 <= k < i && table[k].fingerprintId == f ==>
        updated[k] == table[k].(voted := 1, timestamp := Some(now))
      invariant forall k :: 0 <= k < i && table[k].fingerprintId != f ==> updated[k] == table[k]
      invariant forall k :: i <= k < |table| ==> updated[k] == table[k]
    {
      if updated[i].fingerprintId == f {
        updated := updated[i := updated[i].(voted := 1, timestamp := Some(now))];
      }
    }
    var spec := CastAll(table, f, now);
    assert forall k :: 0 <= k < |table| ==> updated[k] == spec[k];
  }
}
