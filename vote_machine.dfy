/**
 The two requests of the fingerprint device: the read-only eligibility
 lookup behind POST /verify and the vote recorded by POST /vote.
 */
module VoteMachine {
  import opened Wrappers
  import opened Voters

  /** The JSON answer of /verify: `allowed` with the voter's name, `voted`,
      or `not_found`. */
  datatype VerifyResult = Allowed(name: string) | Voted | NotFound
  {
    /** The `status` field of the JSON answer. */
    function Status(): (r: string)
      ensures r == "allowed" <==> Allowed?
      ensures r == "voted" <==> Voted?
      ensures r == "not_found" <==> NotFound?
    {
      match this
      case Allowed(_) => "allowed"
      case Voted => "voted"
      case NotFound => "not_found"
    }
  }

  /** The JSON answer of /vote. */
  datatype VoteResponse = VoteResponse(status: string, message: string)

  /** The one answer /vote ever gives. */
  const Recorded := VoteResponse("success", "Vote recorded successfully")

  /** Some row carries fingerprint `f`. */
  predicate Registered(rows: seq<Voter>, f: int)
  {
    exists i :: 0 <= i < |rows| && rows[i].fingerprintId == f
  }

  /** Row `k` is the first row in rowid order with fingerprint `f`. */
  predicate IsFirstMatch(rows: seq<Voter>, f: int, k: int)
  {
    0 <= k < |rows| && rows[k].fingerprintId == f &&
    forall j :: 0 <= j < k ==> rows[j].fingerprintId != f
  }

  /** The row `fetchone` yields for `WHERE fingerprint_id=?`, taken as the
      first match in rowid order. */
  function FirstMatch(rows: seq<Voter>, f: int): (r: Option<nat>)
    ensures r.None? <==> !Registered(rows, f)
    ensures r.Some? ==> IsFirstMatch(rows, f, r.value)
  {
    if rows == [] then None
    else if rows[0].fingerprintId == f then Some(0)
    else match FirstMatch(rows[1..], f)
      case None => None
      case Some(k) => Some(k + 1)
  }

  /** POST /verify: `not_found` when no row has the fingerprint; otherwise
      the first matching row decides, `allowed` with its name when its
      `voted` column is 0 and `voted` for any other value. */
  function Verify(rows: seq<Voter>, f: int): (r: VerifyResult)
    ensures r.NotFound? <==> !Registered(rows, f)
    ensures forall k :: IsFirstMatch(rows, f, k) ==>
      r == (if rows[k].voted == 0 then Allowed(rows[k].name) else Voted)
  {
    match FirstMatch(rows, f)
    case None => NotFound
    case Some(k) => if rows[k].voted == 0 then Allowed(rows[k].name) else Voted
  }

  /** Once a vote is cast for a registered fingerprint, the lookup for that
      fingerprint answers `voted`. */
  lemma VerifyAfterCast(rows: seq<Voter>, f: int, now: string)
    requires Registered(rows, f)
    ensures Verify(CastAll(rows, f, now), f) == Voted
  {
  }

  /** A vote for one fingerprint does not change the lookup for another. */
  lemma CastKeepsOtherLookups(rows: seq<Voter>, f: int, g: int, now: string)
    requires f != g
    ensures Verify(CastAll(rows, f, now), g) == Verify(rows, g)
  {
  }

  /** After a reset every registered fingerprint is allowed again, with the
      name of its first row, and an unregistered one is still not found. */
  lemma VerifyAfterReset(rows: seq<Voter>, f: int)
    ensures var r := Verify(ResetAll(rows), f);
      (Registered(rows, f) ==> r.Allowed? && r.name == rows[FirstMatch(rows, f).value].name) &&
      (!Registered(rows, f) ==> r == NotFound)
  {
  }

  /** Deleting the only rows that carry fingerprint `f` makes its lookup
      `not_found`. */
  lemma VerifyAfterRemove(rows: seq<Voter>, id: int, f: int)
    requires forall i :: 0 <= i < |rows| && rows[i].fingerprintId == f ==> rows[i].id == id
    ensures Verify(Remove(rows, id), f) == NotFound
  {
  }
}
