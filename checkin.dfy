/**
 Request sequences against a fresh table, as an admin and the fingerprint
 device would issue them, with the answers they must get.
 */
module CheckIn {
  import opened Wrappers
  import opened Voters
  import opened VoteMachine
  import opened Dashboard
  import opened VoterDb

  /** Register Asha (female, fingerprint 7), look her up, record her vote and
      look her up again. */
  method RegisterVerifyVote() returns (before: VerifyResult, response: VoteResponse, after: VerifyResult)
    ensures before == Allowed("Asha") && before.Status() == "allowed"
    ensures response.status == "success"
    ensures after == Voted && after.Status() == "voted"
  {
    var t := new VoterTable();
    var id := t.AddVoter("Asha", "Female", 7);
    before := Verify(t.rows, 7);
    assert IsFirstMatch(t.rows, 7, 0);
    response := t.CastVote(7, "2024-01-01T09:00:00");
    after := Verify(t.rows, 7);
    VerifyAfterCast([Voter(id, "Asha", "Female", 7, 0, None)], 7, "2024-01-01T09:00:00");
  }

  /** Deleting the newest voter does not free its id: the next registration
      gets a fresh one. */
  method IdsNotReused() returns (first: int, second: int, third: int)
    ensures first == 1 && second == 2 && third == 3
  {
    var t := new VoterTable();
    first := t.AddVoter("Asha", "Female", 7);
    second := t.AddVoter("Ravi", "Male", 8);
    t.DeleteVoter(second);
    third := t.AddVoter("Meera", "Female", 9);
  }

  /** Two records registered with the same fingerprint: the lookup answers
      for the earlier one, and one vote marks both. */
  method SharedFingerprint() returns (lookup: VerifyResult, votes: nat, afterReset: VerifyResult)
    ensures lookup == Allowed("Ravi")
    ensures votes == 2
    ensures afterReset == Allowed("Ravi")
  {
    var t := new VoterTable();
    var a := t.AddVoter("Ravi", "Male", 5);
    var b := t.AddVoter("Meera", "Female", 5);
    lookup := Verify(t.rows, 5);
    assert IsFirstMatch(t.rows, 5, 0);
    var response := t.CastVote(5, "2024-01-01T09:00:00");
    votes := CountVoted(t.rows);
    t.ResetVotes();
    afterReset := Verify(t.rows, 5);
    assert IsFirstMatch(t.rows, 5, 0);
  }
}
