/**
 * The instant-runoff election. Each voter ranks every candidate; a round
 * gives each ballot to its highest-ranked candidate still in the race,
 * declares a winner when some candidate holds more than half of the voters,
 * declares a tie among all remaining candidates when they all hold the same
 * (minimal) count, and otherwise eliminates every candidate holding the
 * minimal count and starts the next round.
 *
 * The first half of the module gives the meaning of each step as functions
 * on values (a roster of candidates and the ballot matrix); the class
 * `Election` holds the program's global tables and proves each of its
 * procedures against those functions.
 */
module Runoff {

  import opened Names

  const MAX_VOTERS := 100
  const MAX_CANDIDATES := 9

  datatype Candidate = Candidate(name: string, votes: int, eliminated: bool)

  /** A ballot lists candidate indices by rank; rank 0 is the most preferred. */
  type Ballot = seq<int>

  /**
   * The names on the roster. This and TotalVotes mirror Plurality.NamesOf and
   * Plurality.Total: the runoff candidate record carries an `eliminated` flag,
   * so it is a different type from the plurality one.
   */
  function NamesOf(cs: seq<Candidate>): (r: seq<string>)
    ensures |r| == |cs| && forall i :: 0 <= i < |cs| ==> r[i] == cs[i].name
  {
    seq(|cs|, i requires 0 <= i < |cs| => cs[i].name)
  }

  function Flags(cs: seq<Candidate>): (r: seq<bool>)
    ensures |r| == |cs| && forall i :: 0 <= i < |cs| ==> r[i] == cs[i].eliminated
  {
    seq(|cs|, i requires 0 <= i < |cs| => cs[i].eliminated)
  }

  /** Every entry of every ballot is a candidate index. */
  ghost predicate WellFormed(ballots: seq<Ballot>, n: nat)
  {
    forall i, j :: 0 <= i < |ballots| && 0 <= j < |ballots[i]| ==> 0 <= ballots[i][j] < n
  }

  ghost predicate Indices(ballot: Ballot, n: nat)
  {
    forall j :: 0 <= j < |ballot| ==> 0 <= ballot[j] < n
  }

  // ---------------------------------------------------------------------
  // Tabulation
  // ---------------------------------------------------------------------

  /** Rank `j` of `ballot` is the first one whose candidate is not eliminated. */
  ghost predicate FirstRemaining(ballot: Ballot, eliminated: seq<bool>, j: int)
    requires Indices(ballot, |eliminated|)
  {
    && 0 <= j < |ballot| && !eliminated[ballot[j]]
    && forall k :: 0 <= k < j ==> eliminated[ballot[k]]
  }

  /** The highest-ranked entry of `ballot` whose candidate is not eliminated. */
  function TopChoice(ballot: Ballot, eliminated: seq<bool>): (r: Option<nat>)
    requires Indices(ballot, |eliminated|)
    ensures r.Some? ==> r.value < |eliminated| && !eliminated[r.value]
    ensures r.Some? ==> exists j :: FirstRemaining(ballot, eliminated, j) && ballot[j] == r.value
    ensures r.None? <==> Exhausted(ballot, eliminated)
  {
    if ballot == [] then None
    else if !eliminated[ballot[0]] then
      assert FirstRemaining(ballot, eliminated, 0);
      Some(ballot[0])
    else
      var r := TopChoice(ballot[1..], eliminated);
      assert r.Some? ==> exists j :: FirstRemaining(ballot, eliminated, j) && ballot[j] == r.value by {
        if r.Some? {
          var j :| FirstRemaining(ballot[1..], eliminated, j) && ballot[1..][j] == r.value;
          assert FirstRemaining(ballot, eliminated, j + 1) by {
            forall k | 0 <= k < j + 1 ensures eliminated[ballot[k]] {
              if k > 0 { assert ballot[k] == ballot[1..][k - 1]; }
            }
          }
        }
      }
      r
  }

  /** The rank loop of `tabulate`: once ranks `0 .. j-1` are all eliminated, rank `j` decides. */
  lemma TopChoiceAt(ballot: Ballot, eliminated: seq<bool>, j: nat)
    requires Indices(ballot, |eliminated|)
    requires FirstRemaining(ballot, eliminated, j)
    ensures TopChoice(ballot, eliminated) == Some(ballot[j])
  {
    var r := TopChoice(ballot, eliminated);
    assert !eliminated[ballot[j]];
    var j' :| FirstRemaining(ballot, eliminated, j') && ballot[j'] == r.value;
  }

  /** One ballot is counted: its top choice, if any, gains a vote. */
  function AddBallot(cs: seq<Candidate>, ballot: Ballot): (r: seq<Candidate>)
    requires Indices(ballot, |cs|)
    ensures |r| == |cs| && Flags(r) == Flags(cs) && NamesOf(r) == NamesOf(cs)
  {
    match TopChoice(ballot, Flags(cs))
    case None => cs
    case Some(c) => cs[c := cs[c].(votes := cs[c].votes + 1)]
  }

  /** `tabulate`: the ballots are counted in voter order. */
  function Tabulated(cs: seq<Candidate>, ballots: seq<Ballot>): (r: seq<Candidate>)
    requires WellFormed(ballots, |cs|)
    ensures |r| == |cs| && Flags(r) == Flags(cs) && NamesOf(r) == NamesOf(cs)
  {
    if ballots == [] then cs
    else AddBallot(Tabulated(cs, ballots[..|ballots| - 1]), ballots[|ballots| - 1])
  }

  /** A ballot whose top choice is `c` gives `c` one vote and changes nothing else. */
  lemma AddBallotTo(cs: seq<Candidate>, ballot: Ballot, top: Option<nat>)
    requires Indices(ballot, |cs|) && top == TopChoice(ballot, Flags(cs))
    ensures top.None? ==> AddBallot(cs, ballot) == cs
    ensures top.Some? ==> AddBallot(cs, ballot) == cs[top.value := cs[top.value].(votes := cs[top.value].votes + 1)]
  {
    match top
    case None =>
    case Some(c) =>
  }

  lemma PrefixStep<T>(s: seq<T>, i: nat)
    requires i < |s|
    ensures s[..i + 1] == s[..i] + [s[i]]
  {
  }

  /** Counting one more ballot extends the tabulation by one step. */
  lemma TabulatedStep(cs: seq<Candidate>, ballots: seq<Ballot>, ballot: Ballot)
    requires WellFormed(ballots, |cs|) && Indices(ballot, |cs|)
    ensures WellFormed(ballots + [ballot], |cs|)
    ensures Tabulated(cs, ballots + [ballot]) == AddBallot(Tabulated(cs, ballots), ballot)
  {
    assert (ballots + [ballot])[..|ballots|] == ballots;
  }

  /** Number of ballots whose top choice is candidate `c`. */
  function Tally(ballots: seq<Ballot>, eliminated: seq<bool>, c: nat): nat
    requires WellFormed(ballots, |eliminated|)
  {
    if ballots == [] then 0
    else Tally(ballots[..|ballots| - 1], eliminated, c)
         + (if TopChoice(ballots[|ballots| - 1], eliminated) == Some(c) then 1 else 0)
  }

  /** Number of ballots that still have a candidate in the race. */
  function Counted(ballots: seq<Ballot>, eliminated: seq<bool>): (k: nat)
    requires WellFormed(ballots, |eliminated|)
    ensures k <= |ballots|
  {
    if ballots == [] then 0
    else Counted(ballots[..|ballots| - 1], eliminated)
         + (if TopChoice(ballots[|ballots| - 1], eliminated).Some? then 1 else 0)
  }

  /** Sum of all vote counts. */
  function TotalVotes(cs: seq<Candidate>): int
  {
    if cs == [] then 0 else TotalVotes(cs[..|cs| - 1]) + cs[|cs| - 1].votes
  }

  lemma TotalVotesUpdate(cs: seq<Candidate>, i: nat, v: int)
    requires i < |cs|
    ensures TotalVotes(cs[i := cs[i].(votes := v)]) == TotalVotes(cs) - cs[i].votes + v
  {
    var cs' := cs[i := cs[i].(votes := v)];
    if i < |cs| - 1 {
      assert cs'[..|cs'| - 1] == cs[..|cs| - 1][i := cs[i].(votes := v)];
      TotalVotesUpdate(cs[..|cs| - 1], i, v);
    } else {
      assert cs'[..|cs'| - 1] == cs[..|cs| - 1];
    }
  }

  /**
   * `tabulate` adds to each candidate exactly the number of ballots whose
   * highest-ranked remaining candidate it is; an eliminated candidate gains
   * nothing.
   */
  lemma {:induction false} TabulatedVotes(cs: seq<Candidate>, ballots: seq<Ballot>, c: nat)
    requires WellFormed(ballots, |cs|) && c < |cs|
    ensures Tabulated(cs, ballots)[c].votes == cs[c].votes + Tally(ballots, Flags(cs), c)
    ensures cs[c].eliminated ==> Tabulated(cs, ballots)[c].votes == cs[c].votes
  {
    if ballots != [] {
      var front := ballots[..|ballots| - 1];
      assert WellFormed(front, |cs|);
      TabulatedVotes(cs, front, c);
    }
  }

  lemma {:induction false} TallyEliminated(ballots: seq<Ballot>, eliminated: seq<bool>, c: nat)
    requires WellFormed(ballots, |eliminated|) && c < |eliminated| && eliminated[c]
    ensures Tally(ballots, eliminated, c) == 0
  {
    if ballots != [] {
      TallyEliminated(ballots[..|ballots| - 1], eliminated, c);
    }
  }

  /**
   * Counted from zero, the round's votes add up to the number of ballots
   * that still have a candidate in the race (see CountedBounds).
   */
  lemma {:induction false} TabulatedTotal(cs: seq<Candidate>, ballots: seq<Ballot>)
    requires WellFormed(ballots, |cs|)
    ensures TotalVotes(Tabulated(cs, ballots)) == TotalVotes(cs) + Counted(ballots, Flags(cs))
  {
    if ballots != [] {
      var front := ballots[..|ballots| - 1];
      assert WellFormed(front, |cs|);
      TabulatedTotal(cs, front);
      var before, last := Tabulated(cs, front), ballots[|ballots| - 1];
      var top := TopChoice(last, Flags(before));
      AddBallotTo(before, last, top);
      if top.Some? {
        TotalVotesUpdate(before, top.value, before[top.value].votes + 1);
      }
    }
  }

  /** A ballot is exhausted when every candidate it ranks is eliminated. */
  ghost predicate Exhausted(ballot: Ballot, eliminated: seq<bool>)
    requires Indices(ballot, |eliminated|)
  {
    forall j :: 0 <= j < |ballot| ==> eliminated[ballot[j]]
  }

  /**
   * At most every voter is counted, and every voter is counted when no ballot
   * is exhausted.
   */
  lemma {:induction false} CountedBounds(ballots: seq<Ballot>, eliminated: seq<bool>)
    requires WellFormed(ballots, |eliminated|)
    ensures Counted(ballots, eliminated) <= |ballots|
    ensures (forall i :: 0 <= i < |ballots| ==> !Exhausted(ballots[i], eliminated))
            ==> Counted(ballots, eliminated) == |ballots|
  {
    if ballots != [] {
      var front := ballots[..|ballots| - 1];
      assert WellFormed(front, |eliminated|);
      CountedBounds(front, eliminated);
      if forall i :: 0 <= i < |ballots| ==> !Exhausted(ballots[i], eliminated) {
        assert forall i :: 0 <= i < |front| ==> !Exhausted(front[i], eliminated) by {
          forall i | 0 <= i < |front| ensures !Exhausted(front[i], eliminated) {
            assert front[i] == ballots[i];
          }
        }
        assert !Exhausted(ballots[|ballots| - 1], eliminated);
      }
    }
  }

  // ---------------------------------------------------------------------
  // Winner, minimum, tie, elimination
  // ---------------------------------------------------------------------

  /** The first candidate in roster order holding more than `q` votes. */
  function FirstOver(cs: seq<Candidate>, q: int): (r: Option<nat>)
    ensures r.Some? ==> r.value < |cs| && cs[r.value].votes > q
                         && forall k :: 0 <= k < r.value ==> cs[k].votes <= q
    ensures r.None? <==> forall k :: 0 <= k < |cs| ==> cs[k].votes <= q
  {
    if cs == [] then None
    else if cs[0].votes > q then Some(0)
    else
      match FirstOver(cs[1..], q)
      case None => None
      case Some(k) => Some(k + 1)
  }

  /** `print_winner`: the first candidate in roster order holding more than `n / 2` votes. */
  function MajorityWinner(cs: seq<Candidate>, n: nat): (r: Option<nat>)
    ensures r.Some? ==> r.value < |cs| && cs[r.value].votes > n / 2
                         && forall k :: 0 <= k < r.value ==> cs[k].votes <= n / 2
    ensures r.None? <==> forall k :: 0 <= k < |cs| ==> cs[k].votes <= n / 2
  {
    FirstOver(cs, n / 2)
  }

  lemma MajorityWinnerAt(cs: seq<Candidate>, n: nat, i: nat)
    requires i < |cs| && cs[i].votes > n / 2
    requires forall k :: 0 <= k < i ==> cs[k].votes <= n / 2
    ensures MajorityWinner(cs, n) == Some(i)
  {
  }

  /** Two candidates cannot both clear the strict majority when the votes add up to at most `n`. */
  lemma {:induction false} MajorityIsUnique(cs: seq<Candidate>, n: nat, a: nat, b: nat)
    requires forall k :: 0 <= k < |cs| ==> cs[k].votes >= 0
    requires TotalVotes(cs) <= n
    requires a < |cs| && b < |cs| && cs[a].votes > n / 2 && cs[b].votes > n / 2
    ensures a == b
  {
    if a != b {
      TotalAtLeastTwo(cs, a, b);
    }
  }

  lemma {:induction false} TotalAtLeastTwo(cs: seq<Candidate>, a: nat, b: nat)
    requires forall k :: 0 <= k < |cs| ==> cs[k].votes >= 0
    requires a < |cs| && b < |cs| && a != b
    ensures TotalVotes(cs) >= cs[a].votes + cs[b].votes
  {
    var front := cs[..|cs| - 1];
    var last := |cs| - 1;
    TotalNonNegative(front);
    if a == last {
      TotalAtLeastOne(front, b);
    } else if b == last {
      TotalAtLeastOne(front, a);
    } else {
      TotalAtLeastTwo(front, a, b);
    }
  }

  lemma {:induction false} TotalAtLeastOne(cs: seq<Candidate>, a: nat)
    requires forall k :: 0 <= k < |cs| ==> cs[k].votes >= 0
    requires a < |cs|
    ensures TotalVotes(cs) >= cs[a].votes
  {
    var front := cs[..|cs| - 1];
    TotalNonNegative(front);
    if a < |cs| - 1 {
      TotalAtLeastOne(front, a);
    }
  }

  lemma {:induction false} TotalNonNegative(cs: seq<Candidate>)
    requires forall k :: 0 <= k < |cs| ==> cs[k].votes >= 0
    ensures TotalVotes(cs) >= 0
  {
    if cs != [] {
      TotalNonNegative(cs[..|cs| - 1]);
    }
  }

  /** The reset loop leaves no vote anywhere. */
  lemma {:induction false} ResetTotal(cs: seq<Candidate>)
    ensures TotalVotes(Reset(cs)) == 0
  {
    if cs != [] {
      var front := cs[..|cs| - 1];
      assert Reset(cs)[..|cs| - 1] == Reset(front);
      ResetTotal(front);
    }
  }

  /** The set-up roster holds no vote. */
  lemma {:induction false} FreshTotal(names: seq<string>)
    ensures TotalVotes(Fresh(names)) == 0
  {
    if names != [] {
      var front := names[..|names| - 1];
      assert Fresh(names)[..|names| - 1] == Fresh(front);
      FreshTotal(front);
    }
  }

  /**
   * Tabulated from zeroed counts, every count is non-negative and the votes
   * add up to at most the number of voters, and to exactly that number when
   * no ballot is exhausted.
   */
  lemma TabulatedFromZero(cs: seq<Candidate>, ballots: seq<Ballot>)
    requires WellFormed(ballots, |cs|) && Reset(cs) == cs
    ensures forall k :: 0 <= k < |cs| ==> Tabulated(cs, ballots)[k].votes >= 0
    ensures TotalVotes(Tabulated(cs, ballots)) <= |ballots|
    ensures (forall i :: 0 <= i < |ballots| ==> !Exhausted(ballots[i], Flags(cs)))
            ==> TotalVotes(Tabulated(cs, ballots)) == |ballots|
  {
    ResetTotal(cs);
    TabulatedTotal(cs, ballots);
    CountedBounds(ballots, Flags(cs));
    forall k | 0 <= k < |cs| ensures Tabulated(cs, ballots)[k].votes >= 0 {
      TabulatedVotes(cs, ballots, k);
    }
  }

  /**
   * In a round tabulated from zeroed counts over the `n` ballots, the
   * candidate `print_winner` reports is the only one over `n / 2` votes.
   */
  lemma RoundWinnerUnique(cs: seq<Candidate>, ballots: seq<Ballot>, n: nat, k: nat)
    requires WellFormed(ballots, |cs|) && Reset(cs) == cs && |ballots| == n
    requires k < |cs| && Tabulated(cs, ballots)[k].votes > n / 2
    ensures MajorityWinner(Tabulated(cs, ballots), n) == Some(k)
  {
    var t := Tabulated(cs, ballots);
    TabulatedFromZero(cs, ballots);
    var w := MajorityWinner(t, n);
    assert w.Some?;
    MajorityIsUnique(t, n, w.value, k);
  }

  /** `find_min`: the running minimum over the remaining candidates, starting from `n`. */
  function MinActive(cs: seq<Candidate>, n: int): (m: int)
    ensures m <= n
    ensures forall k :: 0 <= k < |cs| && !cs[k].eliminated ==> m <= cs[k].votes
    ensures m == n || exists k :: 0 <= k < |cs| && !cs[k].eliminated && cs[k].votes == m
  {
    if cs == [] then n
    else
      var m := MinActive(cs[..|cs| - 1], n);
      var last := cs[|cs| - 1];
      if !last.eliminated && last.votes < m then last.votes else m
  }

  /**
   * The minimum is attained by a remaining candidate whenever some remaining
   * candidate holds at most `n` votes.
   */
  lemma MinActiveAttained(cs: seq<Candidate>, n: nat, k: nat)
    requires k < |cs| && !cs[k].eliminated && cs[k].votes <= n
    ensures exists j :: 0 <= j < |cs| && !cs[j].eliminated && cs[j].votes == MinActive(cs, n)
  {
    var m := MinActive(cs, n);
    if m == n {
      assert cs[k].votes == m;
    }
  }

  /** `is_tie(min)`: every remaining candidate holds `min` votes (vacuous when none remain). */
  predicate AllTied(cs: seq<Candidate>, min: int)
  {
    forall k :: 0 <= k < |cs| && !cs[k].eliminated ==> cs[k].votes == min
  }

  /** `eliminate(min)`: every candidate holding exactly `min` votes is flagged. */
  function Eliminated(cs: seq<Candidate>, min: int): (r: seq<Candidate>)
    ensures |r| == |cs| && NamesOf(r) == NamesOf(cs)
    ensures forall k :: 0 <= k < |cs| ==> r[k].votes == cs[k].votes
  {
    seq(|cs|, k requires 0 <= k < |cs| =>
      if cs[k].votes == min then cs[k].(eliminated := true) else cs[k])
  }

  /** Flags are only ever added, and exactly the candidates holding `min` gain one. */
  lemma EliminatedFlags(cs: seq<Candidate>, min: int, k: nat)
    requires k < |cs|
    ensures Eliminated(cs, min)[k].eliminated <==> (cs[k].eliminated || cs[k].votes == min)
    ensures cs[k].eliminated ==> Eliminated(cs, min)[k].eliminated
  {
  }

  /** The vote reset at the end of a round. */
  function Reset(cs: seq<Candidate>): (r: seq<Candidate>)
    ensures |r| == |cs| && Flags(r) == Flags(cs) && NamesOf(r) == NamesOf(cs)
    ensures forall k :: 0 <= k < |cs| ==> r[k].votes == 0
  {
    seq(|cs|, k requires 0 <= k < |cs| => cs[k].(votes := 0))
  }

  /** Number of candidates still in the race. */
  function ActiveCount(eliminated: seq<bool>): (k: nat)
    ensures k <= |eliminated|
  {
    if eliminated == [] then 0
    else ActiveCount(eliminated[..|eliminated| - 1]) + (if eliminated[|eliminated| - 1] then 0 else 1)
  }

  /** Names of the candidates still in the race, in roster order (the tie report). */
  function ActiveNames(cs: seq<Candidate>): seq<string>
  {
    if cs == [] then []
    else ActiveNames(cs[..|cs| - 1]) + (if cs[|cs| - 1].eliminated then [] else [cs[|cs| - 1].name])
  }

  lemma {:induction false} ActiveCountMonotone(before: seq<bool>, after: seq<bool>)
    requires |before| == |after|
    requires forall k :: 0 <= k < |before| && before[k] ==> after[k]
    ensures ActiveCount(after) <= ActiveCount(before)
    ensures (exists k :: 0 <= k < |before| && !before[k] && after[k]) ==> ActiveCount(after) < ActiveCount(before)
    ensures (exists k :: 0 <= k < |after| && !after[k]) ==> ActiveCount(after) >= 1
  {
    if before != [] {
      var n := |before| - 1;
      ActiveCountMonotone(before[..n], after[..n]);
      if exists k :: 0 <= k < |before| && !before[k] && after[k] {
        var k :| 0 <= k < |before| && !before[k] && after[k];
        if k < n {
          assert !before[..n][k] && after[..n][k];
        }
      }
      if exists k :: 0 <= k < |after| && !after[k] {
        var k :| 0 <= k < |after| && !after[k];
        if k < n {
          assert !after[..n][k];
        }
      }
    }
  }

  lemma {:induction false} ActiveNamesCount(cs: seq<Candidate>)
    ensures |ActiveNames(cs)| == ActiveCount(Flags(cs))
    ensures forall x :: x in ActiveNames(cs) ==> x in NamesOf(cs)
  {
    if cs != [] {
      var front := cs[..|cs| - 1];
      ActiveNamesCount(front);
      assert Flags(cs)[..|cs| - 1] == Flags(front);
      forall x | x in ActiveNames(front) ensures x in NamesOf(cs) {
        var i :| 0 <= i < |front| && NamesOf(front)[i] == x;
        assert NamesOf(cs)[i] == x;
      }
      assert NamesOf(cs)[|cs| - 1] == cs[|cs| - 1].name;
    }
  }

  /**
   * The round loop's progress: when a round has no majority winner and the
   * remaining candidates are not all tied at the minimum, elimination removes
   * at least one remaining candidate and keeps at least one.
   */
  lemma EliminationShrinks(cs: seq<Candidate>, n: nat)
    requires MajorityWinner(cs, n).None?
    requires !AllTied(cs, MinActive(cs, n))
    ensures ActiveCount(Flags(Eliminated(cs, MinActive(cs, n)))) < ActiveCount(Flags(cs))
    ensures ActiveCount(Flags(Eliminated(cs, MinActive(cs, n)))) >= 1
  {
    var m := MinActive(cs, n);
    var k :| 0 <= k < |cs| && !cs[k].eliminated && cs[k].votes != m;
    assert cs[k].votes <= n / 2;
    MinActiveAttained(cs, n, k);
    var j :| 0 <= j < |cs| && !cs[j].eliminated && cs[j].votes == m;
    var before, after := Flags(cs), Flags(Eliminated(cs, m));
    forall i | 0 <= i < |cs| ensures after[i] == (before[i] || cs[i].votes == m) {
      EliminatedFlags(cs, m, i);
    }
    assert !before[j] && after[j];
    assert !after[k];
    ActiveCountMonotone(before, after);
  }

  // ---------------------------------------------------------------------
  // The round loop
  // ---------------------------------------------------------------------

  datatype Round = Winner(index: nat) | Tie(min: int) | Continue(min: int)

  /** What one round decides, from the tabulated roster. */
  function Decide(t: seq<Candidate>, n: nat): (r: Round)
    ensures r.Winner? ==> r.index < |t| && t[r.index].votes > n / 2 && MajorityWinner(t, n) == Some(r.index)
    ensures r.Tie? ==> MajorityWinner(t, n).None? && r.min == MinActive(t, n) && AllTied(t, r.min)
    ensures r.Continue? ==> MajorityWinner(t, n).None? && r.min == MinActive(t, n) && !AllTied(t, r.min)
  {
    match MajorityWinner(t, n)
    case Some(w) => Winner(w)
    case None =>
      var m := MinActive(t, n);
      if AllTied(t, m) then Tie(m) else Continue(m)
  }

  /**
   * The names the round loop reports for roster `cs`: rounds repeat until a
   * majority winner or a full tie. Terminates because every continuing round
   * removes at least one remaining candidate.
   */
  function Outcome(cs: seq<Candidate>, ballots: seq<Ballot>, n: nat): seq<string>
    requires WellFormed(ballots, |cs|)
    decreases ActiveCount(Flags(cs))
  {
    var t := Tabulated(Reset(cs), ballots);
    match Decide(t, n)
    case Winner(w) => [t[w].name]
    case Tie(_) => ActiveNames(t)
    case Continue(m) =>
      EliminationShrinks(t, n);
      Outcome(Reset(Eliminated(t, m)), ballots, n)
  }

  /**
   * One round of the loop for a roster whose counts are at zero: a majority
   * ends it with one name, a full tie with the remaining names, and anything
   * else leads to the next round's roster, which has the same outcome and
   * fewer remaining candidates.
   */
  lemma OutcomeStep(cs: seq<Candidate>, ballots: seq<Ballot>, n: nat)
    requires WellFormed(ballots, |cs|) && Reset(cs) == cs
    ensures Decide(Tabulated(cs, ballots), n).Winner? ==>
              Outcome(cs, ballots, n) == [Tabulated(cs, ballots)[Decide(Tabulated(cs, ballots), n).index].name]
    ensures Decide(Tabulated(cs, ballots), n).Tie? ==>
              Outcome(cs, ballots, n) == ActiveNames(Tabulated(cs, ballots))
    ensures Decide(Tabulated(cs, ballots), n).Continue? ==>
              var next := Reset(Eliminated(Tabulated(cs, ballots), Decide(Tabulated(cs, ballots), n).min));
              && WellFormed(ballots, |next|) && Reset(next) == next
              && Outcome(next, ballots, n) == Outcome(cs, ballots, n)
              && ActiveCount(Flags(next)) < ActiveCount(Flags(cs))
  {
    var t := Tabulated(cs, ballots);
    if Decide(t, n).Continue? {
      EliminationShrinks(t, n);
      var next := Reset(Eliminated(t, Decide(t, n).min));
      assert Reset(next) == next;
    }
  }

  /** Number of rounds the loop runs for roster `cs`. */
  function Rounds(cs: seq<Candidate>, ballots: seq<Ballot>, n: nat): nat
    requires WellFormed(ballots, |cs|)
    decreases ActiveCount(Flags(cs))
  {
    var t := Tabulated(Reset(cs), ballots);
    match Decide(t, n)
    case Continue(m) =>
      EliminationShrinks(t, n);
      1 + Rounds(Reset(Eliminated(t, m)), ballots, n)
    case _ => 1
  }

  /**
   * With at least one candidate in the race the loop runs at most as many
   * rounds as there are remaining candidates, and reports at least one name,
   * each of them a roster name.
   */
  lemma {:induction false} OutcomeBounds(cs: seq<Candidate>, ballots: seq<Ballot>, n: nat)
    requires WellFormed(ballots, |cs|)
    requires ActiveCount(Flags(cs)) >= 1
    ensures Rounds(cs, ballots, n) <= ActiveCount(Flags(cs)) <= |cs|
    ensures |Outcome(cs, ballots, n)| >= 1
    ensures forall x :: x in Outcome(cs, ballots, n) ==> x in NamesOf(cs)
    decreases ActiveCount(Flags(cs))
  {
    var t := Tabulated(Reset(cs), ballots);
    match Decide(t, n)
    case Winner(w) =>
      assert NamesOf(t)[w] == t[w].name;
    case Tie(_) =>
      ActiveNamesCount(t);
    case Continue(m) =>
      EliminationShrinks(t, n);
      OutcomeBounds(Reset(Eliminated(t, m)), ballots, n);
  }

  /** A roster and ballots as `main` records them, with every count at zero. */
  function Fresh(names: seq<string>): (r: seq<Candidate>)
    ensures |r| == |names| && NamesOf(r) == names
    ensures ActiveCount(Flags(r)) == |names|
  {
    if names == [] then []
    else
      var r := Fresh(names[..|names| - 1]) + [Candidate(names[|names| - 1], 0, false)];
      assert Flags(r)[..|r| - 1] == Flags(Fresh(names[..|names| - 1]));
      assert NamesOf(r) == names by {
        assert NamesOf(r)[..|r| - 1] == NamesOf(Fresh(names[..|names| - 1]));
      }
      r
  }

  // ---------------------------------------------------------------------
  // The program's tables and procedures
  // ---------------------------------------------------------------------

  class Election {
    var candidates: array<Candidate>
    var preferences: array2<int>
    var voterCount: nat
    var candidateCount: nat

    ghost predicate RosterValid()
      reads this, candidates
    {
      && candidates.Length == MAX_CANDIDATES
      && 1 <= candidateCount <= MAX_CANDIDATES
      && forall k :: 0 <= k < candidateCount ==> candidates[k].votes >= 0
    }

    ghost predicate BallotsValid()
      reads this, preferences
    {
      && preferences.Length0 == MAX_VOTERS && preferences.Length1 == MAX_CANDIDATES
      && candidateCount <= MAX_CANDIDATES
      && voterCount <= MAX_VOTERS
      && forall i, j :: 0 <= i < MAX_VOTERS && 0 <= j < MAX_CANDIDATES ==>
           0 <= preferences[i, j] < candidateCount
    }

    ghost predicate Valid()
      reads this, candidates, preferences
    {
      RosterValid() && BallotsValid()
    }

    /** The candidates in use, `candidates[0 .. candidate_count)`. */
    function Roster(): (r: seq<Candidate>)
      reads this, candidates
      requires RosterValid()
      ensures |r| == candidateCount
    {
      candidates[..candidateCount]
    }

    /** Voter `i`'s ballot: row `i` of `preferences` over the candidates in use. */
    function Row(i: nat): (r: Ballot)
      reads this, preferences
      requires BallotsValid() && i < voterCount
      ensures |r| == candidateCount && Indices(r, candidateCount)
    {
      seq(candidateCount, k reads this, preferences
        requires BallotsValid() && i < voterCount && 0 <= k < candidateCount => preferences[i, k])
    }

    /** The recorded ballots, one row of candidate indices per voter. */
    function Ballots(): (r: seq<Ballot>)
      reads this, preferences
      requires BallotsValid()
      ensures |r| == voterCount && WellFormed(r, candidateCount)
    {
      seq(voterCount, v reads this, preferences requires BallotsValid() && 0 <= v < voterCount => Row(v))
    }

    /**
     * The setup part of `main`: the roster from the command line, every count
     * at zero, nobody eliminated, and the zero-initialised ballot matrix.
     */
    constructor (names: seq<string>, voters: nat)
      requires 1 <= |names| <= MAX_CANDIDATES && voters <= MAX_VOTERS
      ensures Valid() && fresh(candidates) && fresh(preferences)
      ensures Roster() == Fresh(names) && voterCount == voters
      ensures forall i, j :: 0 <= i < MAX_VOTERS && 0 <= j < MAX_CANDIDATES ==> preferences[i, j] == 0
    {
      var table := new Candidate[MAX_CANDIDATES];
      for i := 0 to |names|
        invariant forall k :: 0 <= k < i ==> table[k] == Candidate(names[k], 0, false)
      {
        table[i] := Candidate(names[i], 0, false);
      }
      forall k | 0 <= k < |names| ensures table[k] == Fresh(names)[k] {
        FreshAt(names, k);
      }
      assert table[..|names|] == Fresh(names);
      candidates := table;
      preferences := new int[MAX_VOTERS, MAX_CANDIDATES]((i, j) => 0);
      candidateCount := |names|;
      voterCount := voters;
    }

    /**
     * `vote(voter, rank, name)`: records the index of the first candidate
     * called `name` at `preferences[voter][rank]`; an unknown name changes
     * nothing and fails.
     */
    method Vote(voter: nat, rank: nat, name: string) returns (ok: bool)
      requires Valid() && voter < MAX_VOTERS && rank < MAX_CANDIDATES
      modifies preferences
      ensures Valid()
      ensures ok <==> name in NamesOf(Roster())
      ensures ok ==> preferences[voter, rank] == FirstIndex(NamesOf(Roster()), name).value
      ensures forall i, j :: 0 <= i < MAX_VOTERS && 0 <= j < MAX_CANDIDATES && (i != voter || j != rank) ==>
                preferences[i, j] == old(preferences[i, j])
      ensures !ok ==> forall i, j :: 0 <= i < MAX_VOTERS && 0 <= j < MAX_CANDIDATES ==>
                preferences[i, j] == old(preferences[i, j])
    {
      ghost var names := NamesOf(Roster());
      for i := 0 to candidateCount
        invariant forall j :: 0 <= j < i ==> names[j] != name
      {
        if candidates[i].name == name {
          FirstIndexUnique(names, name, i);
          preferences[voter, rank] := i;
          return true;
        }
      }
      return false;
    }

    /**
     * The ballot-reading loop of `main`: voter by voter, rank by rank, each
     * name is recorded by Vote; the first invalid name aborts (exit code 4).
     */
    method RecordBallots(ballots: seq<seq<string>>) returns (ok: bool)
      requires Valid()
      requires |ballots| == voterCount
      requires forall i :: 0 <= i < |ballots| ==> |ballots[i]| == candidateCount
      modifies preferences
      ensures Valid() && Roster() == old(Roster())
      ensures ok <==> forall i, j :: 0 <= i < |ballots| && 0 <= j < candidateCount ==>
                        ballots[i][j] in NamesOf(Roster())
      ensures ok ==> forall i, j :: 0 <= i < |ballots| && 0 <= j < candidateCount ==>
                       Ballots()[i][j] == FirstIndex(NamesOf(Roster()), ballots[i][j]).value
    {
      ghost var names := NamesOf(Roster());
      for i := 0 to voterCount
        invariant Valid() && Roster() == old(Roster())
        invariant forall v, j :: 0 <= v < i && 0 <= j < candidateCount ==>
                    ballots[v][j] in names && preferences[v, j] == FirstIndex(names, ballots[v][j]).value
      {
        ok := RecordBallot(i, ballots[i]);
        if !ok {
          return false;
        }
      }
      ok := true;
    }

    /** One iteration of the voter loop of `main`: voter `voter`'s ranks in order. */
    method RecordBallot(voter: nat, ranking: seq<string>) returns (ok: bool)
      requires Valid() && voter < voterCount && |ranking| == candidateCount
      modifies preferences
      ensures Valid()
      ensures ok <==> forall j :: 0 <= j < candidateCount ==> ranking[j] in NamesOf(Roster())
      ensures ok ==> forall j :: 0 <= j < candidateCount ==>
                       preferences[voter, j] == FirstIndex(NamesOf(Roster()), ranking[j]).value
      ensures forall v, j :: 0 <= v < MAX_VOTERS && 0 <= j < MAX_CANDIDATES && v != voter ==>
                preferences[v, j] == old(preferences[v, j])
    {
      ghost var names := NamesOf(Roster());
      for j := 0 to candidateCount
        invariant Valid()
        invariant forall k :: 0 <= k < j ==>
                    ranking[k] in names && preferences[voter, k] == FirstIndex(names, ranking[k]).value
        invariant forall v, k :: 0 <= v < MAX_VOTERS && 0 <= k < MAX_CANDIDATES && v != voter ==>
                    preferences[v, k] == old(preferences[v, k])
      {
        ok := Vote(voter, j, ranking[j]);
        if !ok {
          return false;
        }
      }
      ok := true;
    }

    /** `tabulate`: each ballot gives one vote to its highest-ranked remaining candidate. */
    method Tabulate()
      requires Valid()
      modifies candidates
      ensures Valid()
      ensures Roster() == Tabulated(old(Roster()), Ballots())
      ensures candidates[candidateCount..] == old(candidates[candidateCount..])
    {
      ghost var start := Roster();
      ghost var all := Ballots();
      for i := 0 to voterCount
        invariant RosterValid()
        invariant candidates[candidateCount..] == old(candidates[candidateCount..])
        invariant Roster() == Tabulated(start, all[..i])
      {
        TabulatedStep(start, all[..i], all[i]);
        PrefixStep(all, i);
        CountBallot(i, all[i], Roster());
      }
      assert all[..voterCount] == all == Ballots();
    }

    /** One iteration of the voter loop of `tabulate`: voter `i`'s top choice gains a vote. */
    method CountBallot(i: nat, ghost ballot: Ballot, ghost before: seq<Candidate>)
      requires Valid() && i < voterCount && before == Roster()
      requires |ballot| == candidateCount && forall k :: 0 <= k < candidateCount ==> ballot[k] == preferences[i, k]
      modifies candidates
      ensures Valid()
      ensures Roster() == AddBallot(before, ballot)
      ensures candidates[candidateCount..] == old(candidates[candidateCount..])
    {
      var top := TopRanked(i, ballot, Flags(before));
      AddBallotTo(before, ballot, top);
      if top.Some? {
        var c := top.value;
        candidates[c] := candidates[c].(votes := candidates[c].votes + 1);
        assert Roster() == before[c := before[c].(votes := before[c].votes + 1)];
      }
    }

    /**
     * The rank loop of `tabulate` for voter `i`: the candidate at the first
     * rank that is not eliminated, or None when every ranked candidate is.
     */
    method TopRanked(i: nat, ghost ballot: Ballot, ghost flags: seq<bool>) returns (top: Option<nat>)
      requires Valid() && i < voterCount && flags == Flags(Roster())
      requires |ballot| == candidateCount && forall k :: 0 <= k < candidateCount ==> ballot[k] == preferences[i, k]
      ensures top == TopChoice(ballot, flags)
    {
      for j := 0 to candidateCount
        invariant forall k :: 0 <= k < j ==> flags[ballot[k]]
      {
        var c := preferences[i, j];
        if !candidates[c].eliminated {
          TopChoiceAt(ballot, flags, j);
          return Some(c);
        }
      }
      assert Exhausted(ballot, flags);
      return None;
    }

    /**
     * `print_winner`: whether some candidate holds more than
     * `voter_count / 2` votes, and the first such candidate's name.
     */
    method PrintWinner() returns (won: bool, winner: string)
      requires Valid()
      ensures won <==> exists k :: 0 <= k < candidateCount && candidates[k].votes > voterCount / 2
      ensures won ==> exists k :: 0 <= k < candidateCount && candidates[k].votes > voterCount / 2
                        && winner == candidates[k].name
                        && forall j :: 0 <= j < k ==> candidates[j].votes <= voterCount / 2
      ensures won <==> MajorityWinner(Roster(), voterCount).Some?
      ensures won ==> winner == Roster()[MajorityWinner(Roster(), voterCount).value].name
    {
      var majority := voterCount / 2;
      for i := 0 to candidateCount
        invariant forall j :: 0 <= j < i ==> candidates[j].votes <= majority
      {
        if candidates[i].votes > majority {
          MajorityWinnerAt(Roster(), voterCount, i);
          return true, candidates[i].name;
        }
      }
      return false, "";
    }

    /**
     * `find_min`: the smallest count among the remaining candidates, starting
     * from `voter_count`.
     */
    method FindMin() returns (min: int)
      requires Valid()
      ensures min == MinActive(Roster(), voterCount)
      ensures min <= voterCount
      ensures forall k :: 0 <= k < candidateCount && !candidates[k].eliminated ==> min <= candidates[k].votes
      ensures (exists k :: 0 <= k < candidateCount && !candidates[k].eliminated && candidates[k].votes <= voterCount)
              ==> exists k :: 0 <= k < candidateCount && !candidates[k].eliminated && candidates[k].votes == min
    {
      min := voterCount;
      for i := 0 to candidateCount
        invariant min == MinActive(candidates[..i], voterCount)
      {
        assert candidates[..i + 1][..i] == candidates[..i];
        if !candidates[i].eliminated && candidates[i].votes < min {
          min := candidates[i].votes;
        }
      }
      assert candidates[..candidateCount] == Roster();
      if exists k :: 0 <= k < candidateCount && !candidates[k].eliminated && candidates[k].votes <= voterCount {
        var k :| 0 <= k < candidateCount && !candidates[k].eliminated && candidates[k].votes <= voterCount;
        MinActiveAttained(Roster(), voterCount, k);
      }
    }

    /**
     * `is_tie(min)`: counts the remaining candidates and those of them holding
     * `min`; the two counts agree exactly when every remaining candidate holds `min`.
     */
    method IsTie(min: int) returns (tie: bool)
      requires Valid()
      ensures tie <==> forall k :: 0 <= k < candidateCount && !candidates[k].eliminated ==> candidates[k].votes == min
      ensures tie <==> AllTied(Roster(), min)
    {
      var remaining := 0;
      var withMin := 0;
      for i := 0 to candidateCount
        invariant 0 <= withMin <= remaining
        invariant withMin == remaining <==>
                    forall k :: 0 <= k < i && !candidates[k].eliminated ==> candidates[k].votes == min
      {
        if !candidates[i].eliminated {
          remaining := remaining + 1;
          if candidates[i].votes == min {
            withMin := withMin + 1;
          }
        }
      }
      tie := remaining == withMin;
    }

    /** `eliminate(min)`: flags every candidate holding exactly `min` votes. */
    method Eliminate(min: int)
      requires Valid()
      modifies candidates
      ensures Valid()
      ensures Roster() == Eliminated(old(Roster()), min)
      ensures candidates[candidateCount..] == old(candidates[candidateCount..])
    {
      for i := 0 to candidateCount
        invariant forall k :: 0 <= k < i ==> candidates[k] == Eliminated(old(Roster()), min)[k]
        invariant forall k :: i <= k < MAX_CANDIDATES ==> candidates[k] == old(candidates[k])
      {
        if candidates[i].votes == min {
          candidates[i] := candidates[i].(eliminated := true);
        }
      }
    }

    /**
     * The round loop of `main`: tabulate, stop with the winner's name, or with
     * the names of all remaining candidates on a full tie, or eliminate the
     * minimum and reset the counts for the next round.
     */
    method RunRounds() returns (winners: seq<string>)
      requires Valid()
      requires forall k :: 0 <= k < candidateCount ==> candidates[k].votes == 0
      modifies candidates
      ensures Valid() && Ballots() == old(Ballots())
      ensures winners == Outcome(old(Roster()), Ballots(), voterCount)
    {
      ghost var ballots := Ballots();
      assert Reset(Roster()) == Roster();
      var done := false;
      winners := [];
      while !done
        invariant Valid() && unchanged(preferences)
        invariant !done ==> Reset(Roster()) == Roster()
        invariant !done ==> Outcome(Roster(), ballots, voterCount) == Outcome(old(Roster()), ballots, voterCount)
        invariant done ==> winners == Outcome(old(Roster()), ballots, voterCount)
        decreases !done, ActiveCount(Flags(Roster()))
      {
        ghost var before := Roster();
        assert Ballots() == ballots;
        OutcomeStep(before, ballots, voterCount);
        done, winners := PlayRound(ballots, before);
      }
    }

    /**
     * One pass of the round loop, from a roster whose counts are at zero: the
     * tabulated roster's decision either ends the election with its reported
     * names or leaves the next round's roster in place.
     */
    method PlayRound(ghost ballots: seq<Ballot>, ghost before: seq<Candidate>) returns (done: bool, winners: seq<string>)
      requires Valid() && ballots == Ballots() && before == Roster() && Reset(before) == before
      modifies candidates
      ensures Valid()
      ensures done <==> !Decide(Tabulated(before, ballots), voterCount).Continue?
      ensures Decide(Tabulated(before, ballots), voterCount).Winner? ==>
                winners == [Tabulated(before, ballots)[Decide(Tabulated(before, ballots), voterCount).index].name]
      ensures Decide(Tabulated(before, ballots), voterCount).Tie? ==>
                winners == ActiveNames(Tabulated(before, ballots))
      ensures Decide(Tabulated(before, ballots), voterCount).Continue? ==>
                Roster() == Reset(Eliminated(Tabulated(before, ballots), Decide(Tabulated(before, ballots), voterCount).min))
    {
      Tabulate();
      ghost var t := Roster();
      assert t == Tabulated(before, ballots);
      var won, name := PrintWinner();
      assert Roster() == t;
      if won {
        assert Decide(t, voterCount) == Winner(MajorityWinner(t, voterCount).value);
        return true, [name];
      }
      var min := FindMin();
      assert Roster() == t && min == MinActive(t, voterCount);
      var tie := IsTie(min);
      assert Roster() == t && tie == AllTied(t, min);
      if tie {
        winners := RemainingNames();
        return true, winners;
      }
      Eliminate(min);
      ResetVotes();
      return false, [];
    }

    /** The names `print_winner`'s tie branch reports: every remaining candidate, in roster order. */
    method RemainingNames() returns (names: seq<string>)
      requires Valid()
      ensures names == ActiveNames(Roster())
    {
      names := [];
      for i := 0 to candidateCount
        invariant names == ActiveNames(candidates[..i])
      {
        assert candidates[..i + 1][..i] == candidates[..i];
        if !candidates[i].eliminated {
          names := names + [candidates[i].name];
        }
      }
      assert candidates[..candidateCount] == Roster();
    }

    /** The reset loop of `main`: every count goes back to zero before the next round. */
    method ResetVotes()
      requires Valid()
      modifies candidates
      ensures Valid()
      ensures Roster() == Reset(old(Roster()))
      ensures candidates[candidateCount..] == old(candidates[candidateCount..])
    {
      for i := 0 to candidateCount
        invariant forall k :: 0 <= k < i ==> candidates[k] == Reset(old(Roster()))[k]
        invariant forall k :: i <= k < MAX_CANDIDATES ==> candidates[k] == old(candidates[k])
      {
        candidates[i] := candidates[i].(votes := 0);
      }
    }
  }

  lemma FreshAt(names: seq<string>, k: nat)
    requires k < |names|
    ensures Fresh(names)[k] == Candidate(names[k], 0, false)
  {
    if k < |names| - 1 {
      FreshAt(names[..|names| - 1], k);
    }
  }

  lemma FreshOfThree(a: string, b: string, c: string)
    ensures Fresh([a, b, c]) == [Candidate(a, 0, false), Candidate(b, 0, false), Candidate(c, 0, false)]
  {
    FreshAt([a, b, c], 0);
    FreshAt([a, b, c], 1);
    FreshAt([a, b, c], 2);
  }

  lemma ActiveNamesOfThree(x: Candidate, y: Candidate, z: Candidate)
    requires !x.eliminated && !y.eliminated && !z.eliminated
    ensures ActiveNames([x, y, z]) == [x.name, y.name, z.name]
  {
    assert ActiveNames([x]) == [x.name] by {
      assert [x][..0] == [] && [] + [x.name] == [x.name];
    }
    assert ActiveNames([x, y]) == [x.name, y.name] by {
      assert [x, y][..1] == [x] && [x.name] + [y.name] == [x.name, y.name];
    }
    assert [x, y, z][..2] == [x, y] && [x.name, y.name] + [z.name] == [x.name, y.name, z.name];
  }

  /** A ballot whose first choice is still in the race gives that candidate one vote. */
  lemma AddBallotFirst(cs: seq<Candidate>, ballot: Ballot)
    requires Indices(ballot, |cs|) && |ballot| > 0 && !cs[ballot[0]].eliminated
    ensures AddBallot(cs, ballot) == cs[ballot[0] := cs[ballot[0]].(votes := cs[ballot[0]].votes + 1)]
  {
    TopChoiceAt(ballot, Flags(cs), 0);
  }

  /** Three ballots whose first choices are candidates 0, 1 and 2 give each of three fresh candidates one vote. */
  lemma SplitTabulation(cs: seq<Candidate>, ballots: seq<Ballot>, a: string, b: string, c: string)
    requires cs == [Candidate(a, 0, false), Candidate(b, 0, false), Candidate(c, 0, false)]
    requires WellFormed(ballots, 3) && |ballots| == 3
    requires forall i :: 0 <= i < 3 ==> |ballots[i]| > 0 && ballots[i][0] == i
    ensures Tabulated(cs, ballots) == [Candidate(a, 1, false), Candidate(b, 1, false), Candidate(c, 1, false)]
  {
    var t1 := [Candidate(a, 1, false), Candidate(b, 0, false), Candidate(c, 0, false)];
    var t2 := [Candidate(a, 1, false), Candidate(b, 1, false), Candidate(c, 0, false)];
    assert WellFormed(ballots[..1], 3) && WellFormed(ballots[..2], 3);
    assert Tabulated(cs, ballots[..1]) == t1 by {
      assert ballots[..1][..0] == [];
      AddBallotFirst(cs, ballots[0]);
    }
    assert Tabulated(cs, ballots[..2]) == t2 by {
      assert ballots[..2][..1] == ballots[..1];
      AddBallotFirst(t1, ballots[1]);
    }
    assert ballots[..2] == ballots[..|ballots| - 1];
    AddBallotFirst(t2, ballots[2]);
  }

  /**
   * Three voters where ballot `i` ranks candidate `i` first give each
   * candidate one vote in the first round: a full tie, reported as all three
   * names in roster order, with no elimination. The cyclic ballots
   * [0, 1, 2], [1, 2, 0], [2, 0, 1] are one such election.
   */
  lemma SplitFirstChoicesTie(a: string, b: string, c: string, ballots: seq<Ballot>)
    requires WellFormed(ballots, 3) && |ballots| == 3
    requires forall i :: 0 <= i < 3 ==> |ballots[i]| > 0 && ballots[i][0] == i
    ensures Outcome(Fresh([a, b, c]), ballots, 3) == [a, b, c]
    ensures Rounds(Fresh([a, b, c]), ballots, 3) == 1
  {
    var cs := Fresh([a, b, c]);
    FreshOfThree(a, b, c);
    assert Reset(cs) == cs;
    SplitTabulation(cs, ballots, a, b, c);
    var t := [Candidate(a, 1, false), Candidate(b, 1, false), Candidate(c, 1, false)];
    assert MajorityWinner(t, 3).None?;
    assert MinActive(t, 3) == 1;
    ActiveNamesOfThree(t[0], t[1], t[2]);
  }

  // ---------------------------------------------------------------------
  // The voter count that `main` reads
  // ---------------------------------------------------------------------

  /**
   * The voter-count check of `main` as written: the block after `get_int`
   * has lost its `if`, so it prints the limit and exits with code 3 whatever
   * count was read.
   */
  function VoterCheckAsWritten(v: int): Option<int>
  {
    Some(3)
  }

  /** The three voters of the program's own example run are turned away. */
  lemma VoterCheckRejectsThree()
    ensures 3 <= MAX_VOTERS && VoterCheckAsWritten(3) == Some(3)
  {
  }

  /**
   * The check as the surrounding loop and message intend it: exit with
   * code 3 exactly when the count is above `MAX_VOTERS`.
   */
  function VoterCheck(v: int): (exit: Option<int>)
    ensures exit.Some? <==> v > MAX_VOTERS
    ensures exit.Some? ==> exit.value == 3
  {
    if v > MAX_VOTERS then Some(3) else None
  }

  /** C's `n / 2` on an `int`: the quotient truncated toward zero. */
  function CHalf(n: int): (h: int)
    ensures n >= 0 ==> h == n / 2
    ensures n < 0 ==> h <= 0 && 0 <= 2 * h - n <= 1
  {
    if n >= 0 then n / 2 else -((-n) / 2)
  }

  /**
   * One pass of the round loop for any `int` voter count, with C's division
   * in `print_winner`'s threshold and `find_min` starting from the count.
   */
  function DecideAsWritten(t: seq<Candidate>, n: int): Round
  {
    match FirstOver(t, CHalf(n))
    case Some(w) => Winner(w)
    case None =>
      var m := MinActive(t, n);
      if AllTied(t, m) then Tie(m) else Continue(m)
  }

  /** For a voter count that is not negative, the round as written is the round Decide describes. */
  lemma DecideAsWrittenAgrees(t: seq<Candidate>, n: nat)
    ensures DecideAsWritten(t, n) == Decide(t, n)
  {
  }

  /**
   * `VoterCheck` lets `voter_count == -1` through. Then no ballot is read or
   * counted, nobody clears C's threshold `-1 / 2 == 0`, and `find_min`
   * returns -1, which no candidate still in the race holds. So there is no
   * tie, `eliminate(-1)` flags nobody, and the reset roster the next round
   * starts from is the same: the round loop never ends.
   */
  lemma StallsAtMinusOne(cs: seq<Candidate>, k: nat)
    requires Reset(cs) == cs && k < |cs| && !cs[k].eliminated
    ensures VoterCheck(-1).None?
    ensures Tabulated(cs, []) == cs
    ensures DecideAsWritten(cs, -1) == Continue(-1)
    ensures Reset(Eliminated(cs, -1)) == cs
  {
    ZeroVotes(cs);
    assert FirstOver(cs, CHalf(-1)).None?;
    assert MinActive(cs, -1) == -1;
    assert cs[k].votes == 0;
    EliminatedNobody(cs, -1);
  }

  lemma ZeroVotes(cs: seq<Candidate>)
    requires Reset(cs) == cs
    ensures forall j :: 0 <= j < |cs| ==> cs[j].votes == 0
  {
    forall j | 0 <= j < |cs| ensures cs[j].votes == 0 {
      assert Reset(cs)[j].votes == 0;
    }
  }

  /** `eliminate(min)` flags nobody when no candidate holds `min`. */
  lemma EliminatedNobody(cs: seq<Candidate>, min: int)
    requires forall j :: 0 <= j < |cs| ==> cs[j].votes != min
    ensures Eliminated(cs, min) == cs
  {
  }

  /** Below -1 the first candidate is reported as the winner with no ballot counted. */
  lemma FirstWinsBelowMinusOne(cs: seq<Candidate>, n: int)
    requires Reset(cs) == cs && |cs| >= 1 && n <= -2
    ensures VoterCheck(n).None?
    ensures DecideAsWritten(cs, n) == Winner(0)
  {
    ZeroVotes(cs);
  }

  /** A voter count the election can run on: not negative and at most `MAX_VOTERS`. */
  predicate AcceptsVoters(v: int)
  {
    0 <= v <= MAX_VOTERS
  }

  /**
   * With the check also turning away negative counts, every round is the one
   * Decide describes and the round loop ends within as many rounds as there
   * are candidates still in the race, reporting at least one roster name.
   */
  lemma CheckedCountTerminates(cs: seq<Candidate>, ballots: seq<Ballot>, v: int)
    requires AcceptsVoters(v) && WellFormed(ballots, |cs|) && ActiveCount(Flags(cs)) >= 1
    ensures forall t :: DecideAsWritten(t, v) == Decide(t, v)
    ensures Rounds(cs, ballots, v) <= ActiveCount(Flags(cs))
    ensures |Outcome(cs, ballots, v)| >= 1
  {
    forall t ensures DecideAsWritten(t, v) == Decide(t, v) {
      DecideAsWrittenAgrees(t, v);
    }
    OutcomeBounds(cs, ballots, v);
  }
}
