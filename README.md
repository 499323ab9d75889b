# Voter check-in table, modelled in Dafny

This project models the voter check-in server: its `voters` table and the statements its HTTP handlers run against it. An administrator registers a voter (`add_voter`), deletes one by id (`delete_voter`) and clears every vote for a new round (`reset_votes`). The fingerprint device looks a fingerprint up (`verify_voter`) and then reports that a vote was cast (`cast_vote`). The dashboard shows the total, the counts for the exact genders `Male` and `Female`, the number of recorded votes and their percentage.

Modules, one per component:

- `Wrappers` (`wrappers.dfy`): `Option`, for the nullable `timestamp` column and for lookups that can miss.
- `Voters` (`voters.dfy`): the record `Voter(id, name, gender, fingerprintId, voted, timestamp)`. It also holds the table invariant, which says that ids increase in rowid order and that `voted` is 0 or 1 and is 1 exactly when a timestamp is set. Three pure table transformations stand for the `DELETE` and the two `UPDATE` statements: `Remove`, `ResetAll` and `CastAll`. The lemmas about them are in the same file.
- `VoteMachine` (`vote_machine.dfy`): the lookup `Verify`, which returns `allowed(name)`, `voted` or `not_found`. It reads the first matching row in rowid order (`FirstMatch`). The module also has the fixed `/vote` answer and the lemmas that connect lookups to votes, resets and deletes.
- `Dashboard` (`dashboard.dfy`): the four `COUNT(*)` queries, the exact percentage with its `total > 0` guard, and their bounds.
- `VoterDb` (`voter_table.dfy`): the class `VoterTable`. It has the rows, the AUTOINCREMENT counter `nextId` and a ghost set `issued` of every id ever handed out. The four writing handlers are methods of this class. `AddVoter` appends one record under `nextId` and advances the counter. `DeleteVoter`, `ResetVotes` and `CastVote` each run their statement as a row-by-row scan (`DeleteScan`, `ResetScan` or `CastScan`), and each scan is proved equal to the matching transformation.
- `CheckIn` (`checkin.dfy`): request sequences on a fresh table, as an admin and the device would send them, each with the answers it must get.

The table is a sequence in rowid order. `fetchone` returns "the first row", which the model reads as the first row in that order. SQL leaves this order unspecified, so another SQLite query plan could answer a `verify` for a duplicated fingerprint with a different row. Fingerprints are not treated as unique. `add_voter` does not check them, and a vote marks every row with the fingerprint (`CheckIn.SharedFingerprint`). The clock (`datetime.now().isoformat()`) is the parameter `now` of `CastVote`.

Behaviours of the code that a stricter design might not share, modelled as the code has them:

- `/vote` answers `success` for every fingerprint sqlite3 can bind, also when no row has it (app.py:164), and so does `CastVote`.
- The status string of the second lookup outcome is `voted` (app.py:151).
- A repeat vote for the same fingerprint overwrites the timestamp (app.py:161). `Voters.CastTwice` states this.
- Any name is accepted, the empty one included (app.py:62, 68), so `AddVoter` has no precondition on it.

## Model

| member | source | states |
|---|---|---|
| `Voters.Remove` | app.py:78 | The result holds exactly the rows whose id differs from the deleted id, and it is no longer than the table. |
| `Voters.RemoveAbsent` | app.py:74-81 | Deleting an id that no row has leaves the table unchanged. |
| `Voters.RemoveAt` | app.py:78 | When ids increase, deleting the id of row k removes exactly that row and keeps the others in their order. |
| `Voters.RemovePreservesInvariant` | app.py:78 | A delete keeps ids increasing and keeps every record consistent, with `voted` = 1 exactly when a timestamp is set. |
| `Voters.ResetAll` | app.py:87 | Every row has `voted` = 0 and no timestamp. Id, name, gender and fingerprint are row-for-row unchanged, and the row count is unchanged. |
| `Voters.ResetPreservesInvariant` | app.py:87 | After a reset, ids still increase and every record is consistent. |
| `Voters.ResetIdempotent` | app.py:87 | Resetting twice gives the same table as resetting once. |
| `Voters.CastAll` | app.py:161 | Every row with the fingerprint gets `voted` = 1 and `timestamp` = now, and keeps its registration data. Every other row is unchanged. The row count is unchanged. |
| `Voters.CastPreservesInvariant` | app.py:161 | After a vote, ids still increase and every record is consistent. |
| `Voters.CastTwice` | app.py:161 | A second vote for the same fingerprint only refreshes the timestamp. The result equals a single vote at the later time. |
| `Voters.CastUnregistered` | app.py:161-164 | A vote for a fingerprint that no row has leaves the table unchanged. |
| `VoteMachine.FirstMatch` | app.py:142-143 | Returns no index exactly when no row has the fingerprint. Otherwise it returns the first row with that fingerprint. |
| `VoteMachine.Verify` | app.py:142-153 | Returns `not_found` exactly when no row has the fingerprint. Otherwise it returns `allowed` with the name of the first match when that row's `voted` is 0, and `voted` for any other value. |
| `VoteMachine.VerifyResult.Status` | app.py:149-153 | Allowed gives "allowed", Voted gives "voted" and NotFound gives "not_found", each string for exactly one outcome. |
| `VoteMachine.VerifyAfterCast` | app.py:148-161 | Once a vote is cast for a registered fingerprint, looking that fingerprint up gives `voted`. |
| `VoteMachine.CastKeepsOtherLookups` | app.py:142-161 | A vote for one fingerprint does not change the lookup result for any other fingerprint. |
| `VoteMachine.VerifyAfterReset` | app.py:87-149 | After a reset, a registered fingerprint gives `allowed` with its first row's name, and an unregistered one gives `not_found`. |
| `VoteMachine.VerifyAfterRemove` | app.py:78-153 | Deleting the id that carries all the rows with a fingerprint makes the lookup for that fingerprint give `not_found`. |
| `Dashboard.CountGender` | app.py:121-125 | The count is at most the total, and it is 0 exactly when no row's gender equals the given string exactly. |
| `Dashboard.CountVoted` | app.py:127-128 | The count is at most the total, and it is 0 exactly when no row has `voted` = 1. |
| `Dashboard.GenderCountsDisjoint` | app.py:121-125 | For two different gender strings, the two counts add up to at most the total. |
| `Dashboard.Percent` | app.py:130 | The percentage is 0 when the total is 0. Otherwise percent times total equals voted times 100. It always lies between 0 and 100. |
| `Dashboard.DashboardStats` | app.py:118-130 | The total is the row count, and male and female are the exact-match counts. male + female ≤ total and voted ≤ total. The percentage is the guarded share `Percent(voted, total)`: 0 when the total is 0, and always between 0 and 100. |
| `Dashboard.VotesKeepRegistrationCounts` | app.py:87-128 | A vote or a reset keeps the total and every gender count. A vote never lowers the voted count, and a reset sets it to 0. |
| `Dashboard.PercentOfTenWithThreeVoted` | app.py:130 | A table of 10 rows with 3 voted shows 30 percent. |
| `VoterDb.VoterTable.constructor` | app.py:16-23 | The new table is empty and satisfies the invariant, and the counter starts at 1. |
| `VoterDb.VoterTable.AddVoter` | app.py:60-72 | Appends exactly one record built from the given name, gender and fingerprint, with `voted` = 0 and no timestamp. Its id is new and greater than every id ever issued. Existing records are unchanged, and the invariant is kept. |
| `VoterDb.VoterTable.DeleteVoter` | app.py:74-81 | Removes exactly the row with the id, or does nothing when no row has it. Other rows keep their order. The counter and the set of issued ids are unchanged, and the invariant is kept. |
| `VoterDb.VoterTable.ResetVotes` | app.py:83-90 | The new table is `ResetAll` of the old one. Only the rows change, and the invariant is kept. |
| `VoterDb.VoterTable.CastVote` | app.py:155-164 | The new table is `CastAll` of the old one. The answer is always `success` / "Vote recorded successfully", whether or not a row matched. The invariant is kept. |
| `VoterDb.DeleteScan` | app.py:78 | The row-by-row scan keeps exactly `Remove` of the table. |
| `VoterDb.ResetScan` | app.py:87 | The row-by-row update yields exactly `ResetAll` of the table. |
| `VoterDb.CastScan` | app.py:161 | The row-by-row update yields exactly `CastAll` of the table. |
| `CheckIn.RegisterVerifyVote` | app.py:60-164 | Register Asha (Female, fingerprint 7). Verify gives `allowed("Asha")`, vote gives `success`, and verify then gives `voted`. |
| `CheckIn.IdsNotReused` | app.py:17 | Ids 1 and 2 are issued, and id 2 is deleted. The next registration gets id 3, not 2. |
| `CheckIn.SharedFingerprint` | app.py:68-161 | Two rows share a fingerprint. Verify answers for the earlier row, and one vote marks both rows. After a reset the earlier row is allowed again. |

## Left out

- Flask routing, form and JSON parsing, redirects and templates are HTTP and UI glue.
- Admin login, logout and the session flag are session state with fixed credentials, not table logic.
- The list view (`SELECT * FROM voters`) only renders the rows.
- sqlite3 connections, commits and `CREATE TABLE` are I/O. The table is an in-memory sequence, and each handler's statement is applied as one step.
- CSV and spreadsheet export go through pandas and byte streams, which are foreign libraries.
- `Dashboard.Percent`: the display value `round(voted / total * 100, 2)` is a float. The model gives the exact real share, without the rounding to two decimals.
- `datetime.now().isoformat()` is the clock. It is the opaque string parameter `now`.
- SQLite type affinity for the form strings stored in INTEGER columns is not modelled. `fingerprintId` is an int.
- A `/verify` or `/vote` request without `finger_id` binds SQL NULL, which matches no row. The model takes the fingerprint as an int, so such a request behaves like one for a fingerprint that no row has.
- A `finger_id` of `/verify` or `/vote`, or an id of `/delete_voter`, outside SQLite's signed 64-bit INTEGER range makes sqlite3 raise OverflowError when it binds the value (app.py:142, 161, 78), so the request fails with a server error. The model's ints are unbounded, so such a request behaves like one for a fingerprint or id that no row has: `Verify` gives `not_found`, `CastVote` gives `success` and `DeleteVoter` changes nothing.
- `VoterDb.VoterTable.AddVoter`: AUTOINCREMENT fails with SQLITE_FULL once the id reaches 2^63 - 1. Ids here are unbounded, so that failure is not modelled.
- The model is sequential, with no concurrency or races between `verify` and `vote`. The code uses no locking.
