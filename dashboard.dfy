/**
 The aggregate counts shown on /dashboard: four COUNT(*) queries over the
 table and the share of recorded votes.
 */
module Dashboard {
  import opened Voters

  /** `SELECT COUNT(*) FROM voters WHERE gender=?`: exact string match. */
  function CountGender(rows: seq<Voter>, g: string): (n: nat)
    ensures n <= |rows|
    ensures n == 0 <==> forall i :: 0 <= i < |rows| ==> rows[i].gender != g
  {
    if rows == [] then 0
    else (if rows[0].gender == g then 1 else 0) + CountGender(rows[1..], g)
  }

  /** `SELECT COUNT(*) FROM voters WHERE voted=1`. */
  function CountVoted(rows: seq<Voter>): (n: nat)
    ensures n <= |rows|
    ensures n == 0 <==> forall i :: 0 <= i < |rows| ==> rows[i].voted != 1
  {
    if rows == [] then 0
    else (if rows[0].voted == 1 then 1 else 0) + CountVoted(rows[1..])
  }

  /** What the dashboard template receives. `percent` is the exact share of
      voters with `voted=1`, in percent; the display rounding is not modelled. */
  datatype Stats = Stats(total: nat, male: nat, female: nat, voted: nat, percent: real)

  /** The share behind `round(voted / total * 100, 2) if total > 0 else 0`,
      without the rounding. */
  function Percent(voted: nat, total: nat): (p: real)
    requires voted <= total
    ensures total == 0 ==> p == 0.0
    ensures total > 0 ==> p * (total as real) == (voted as real) * 100.0
    ensures 0.0 <= p <= 100.0
  {
    if total > 0 then
      var q := (voted as real) / (total as real);
      assert q * (total as real) == voted as real;
      assert 0.0 <= q <= 1.0;
      assert q * 100.0 * (total as real) == (q * (total as real)) * 100.0;
      q * 100.0
    else 0.0
  }

  function DashboardStats(rows: seq<Voter>): (s: Stats)
    ensures s.total == |rows|
    ensures s.male == CountGender(rows, "Male") && s.female == CountGender(rows, "Female")
    ensures s.voted == CountVoted(rows)
    ensures s.male + s.female <= s.total
    ensures s.voted <= s.total
    ensures s.percent == Percent(s.voted, s.total)
    ensures s.total == 0 ==> s.percent == 0.0
    ensures 0.0 <= s.percent <= 100.0
  {
    var total := |rows|;
    var voted := CountVoted(rows);
    assert "Male"[0] != "Female"[0];
    GenderCountsDisjoint(rows, "Male", "Female");
    Stats(total, CountGender(rows, "Male"), CountGender(rows, "Female"), voted, Percent(voted, total))
  }

  /** No row is counted under two different genders. */
  lemma {:induction false} GenderCountsDisjoint(rows: seq<Voter>, g1: string, g2: string)
    requires g1 != g2
    ensures CountGender(rows, g1) + CountGender(rows, g2) <= |rows|
  {
    if rows != [] {
      GenderCountsDisjoint(rows[1..], g1, g2);
    }
  }

  /** Tables with the same genders row by row have the same gender counts. */
  lemma {:induction false} GenderCountsAgree(a: seq<Voter>, b: seq<Voter>, g: string)
    requires |a| == |b|
    requires forall i :: 0 <= i < |a| ==> a[i].gender == b[i].gender
    ensures CountGender(a, g) == CountGender(b, g)
  {
    if a != [] {
      GenderCountsAgree(a[1..], b[1..], g);
    }
  }

  /** A table whose rows are each at least as voted as another's has at
      least as many votes. */
  lemma {:induction false} VotedCountMonotone(a: seq<Voter>, b: seq<Voter>)
    requires |a| == |b|
    requires forall i :: 0 <= i < |a| && a[i].voted == 1 ==> b[i].voted == 1
    ensures CountVoted(a) <= CountVoted(b)
  {
    if a != [] {
      VotedCountMonotone(a[1..], b[1..]);
    }
  }

  /** Voting and resetting change neither the total nor the gender counts;
      a vote never lowers the voted count and a reset brings it to 0. */
  lemma {:induction false} VotesKeepRegistrationCounts(rows: seq<Voter>, f: int, now: string, g: string)
    ensures var cast := CastAll(rows, f, now);
      |cast| == |rows| && CountGender(cast, g) == CountGender(rows, g) &&
      CountVoted(rows) <= CountVoted(cast)
    ensures var reset := ResetAll(rows);
      |reset| == |rows| && CountGender(reset, g) == CountGender(rows, g) &&
      CountVoted(reset) == 0
  {
    var cast := CastAll(rows, f, now);
    var reset := ResetAll(rows);
    GenderCountsAgree(cast, rows, g);
    GenderCountsAgree(reset, rows, g);
    VotedCountMonotone(rows, cast);
  }

  /** The dashboard of a table with 10 rows of which 3 have voted shows 30 percent. */
  lemma PercentOfTenWithThreeVoted(rows: seq<Voter>)
    requires |rows| == 10 && CountVoted(rows) == 3
    ensures DashboardStats(rows).percent == 30.0
  {
  }
}
