/**
 * The plurality election: every voter names one candidate; a name that is on
 * the roster adds one vote to the first candidate with that name, any other
 * name is reported as an invalid vote and skipped. The winners are all
 * candidates whose count equals the largest count, in roster order.
 */
module Plurality {

  import opened Names

  /** Capacity of the candidate table. */
  const MAX := 9

  datatype Candidate = Candidate(name: string, votes: int)

  function NamesOf(cs: seq<Candidate>): (r: seq<string>)
    ensures |r| == |cs| && forall i :: 0 <= i < |cs| ==> r[i] == cs[i].name
  {
    seq(|cs|, i requires 0 <= i < |cs| => cs[i].name)
  }

  /** Sum of all vote counts. */
  function Total(cs: seq<Candidate>): int
  {
    if cs == [] then 0 else Total(cs[..|cs| - 1]) + cs[|cs| - 1].votes
  }

  /** The running maximum of `print_winner`: starts at 0 and is raised by every larger count. */
  function MaxVotes(cs: seq<Candidate>): (m: int)
    ensures m >= 0
    ensures forall i :: 0 <= i < |cs| ==> cs[i].votes <= m
    ensures m == 0 || exists i :: 0 <= i < |cs| && cs[i].votes == m
  {
    if cs == [] then 0
    else
      var m := MaxVotes(cs[..|cs| - 1]);
      if cs[|cs| - 1].votes > m then cs[|cs| - 1].votes else m
  }

  /** Names of the candidates whose count is `m`, in roster order. */
  function Winners(cs: seq<Candidate>, m: int): seq<string>
  {
    if cs == [] then []
    else Winners(cs[..|cs| - 1], m) + (if cs[|cs| - 1].votes == m then [cs[|cs| - 1].name] else [])
  }

  /** The roster after one call of `vote(name)`. */
  function Cast(cs: seq<Candidate>, name: string): seq<Candidate>
  {
    match FirstIndex(NamesOf(cs), name)
    case None => cs
    case Some(i) => cs[i := cs[i].(votes := cs[i].votes + 1)]
  }

  /** The roster after the tally loop of `main` has processed `ballots` in order. */
  function CastAll(cs: seq<Candidate>, ballots: seq<string>): seq<Candidate>
  {
    if ballots == [] then cs
    else Cast(CastAll(cs, ballots[..|ballots| - 1]), ballots[|ballots| - 1])
  }

  /** Number of ballots that name a candidate on the roster. */
  function Accepted(names: seq<string>, ballots: seq<string>): (n: nat)
    ensures n <= |ballots|
  {
    if ballots == [] then 0
    else Accepted(names, ballots[..|ballots| - 1]) + (if ballots[|ballots| - 1] in names then 1 else 0)
  }

  /** Number of ballots whose first match on the roster is candidate `c`. */
  function BallotsFor(names: seq<string>, ballots: seq<string>, c: nat): nat
  {
    if ballots == [] then 0
    else BallotsFor(names, ballots[..|ballots| - 1], c)
         + (if FirstIndex(names, ballots[|ballots| - 1]) == Some(c) then 1 else 0)
  }

  lemma TotalUpdate(cs: seq<Candidate>, i: nat, v: int)
    requires i < |cs|
    ensures Total(cs[i := cs[i].(votes := v)]) == Total(cs) - cs[i].votes + v
  {
    var cs' := cs[i := cs[i].(votes := v)];
    if i < |cs| - 1 {
      assert cs'[..|cs'| - 1] == cs[..|cs| - 1][i := cs[i].(votes := v)];
      TotalUpdate(cs[..|cs| - 1], i, v);
    } else {
      assert cs'[..|cs'| - 1] == cs[..|cs| - 1];
    }
  }

  /** A vote for a roster name adds exactly one to the total; an unknown name changes no count. */
  lemma CastEffect(cs: seq<Candidate>, name: string)
    ensures NamesOf(Cast(cs, name)) == NamesOf(cs)
    ensures Total(Cast(cs, name)) == Total(cs) + (if name in NamesOf(cs) then 1 else 0)
    ensures name !in NamesOf(cs) ==> Cast(cs, name) == cs
    ensures forall c :: 0 <= c < |cs| ==>
              Cast(cs, name)[c].votes == cs[c].votes + (if FirstIndex(NamesOf(cs), name) == Some(c) then 1 else 0)
  {
    match FirstIndex(NamesOf(cs), name)
    case None =>
    case Some(i) => TotalUpdate(cs, i, cs[i].votes + 1);
  }

  /**
   * Invalid votes do not stop the tally: after the loop each candidate has
   * gained one vote per ballot whose first match it is, and the total has
   * grown by exactly the number of accepted ballots.
   */
  lemma {:induction false} CastAllEffect(cs: seq<Candidate>, ballots: seq<string>)
    ensures NamesOf(CastAll(cs, ballots)) == NamesOf(cs)
    ensures Total(CastAll(cs, ballots)) == Total(cs) + Accepted(NamesOf(cs), ballots)
    ensures forall c :: 0 <= c < |cs| ==>
              CastAll(cs, ballots)[c].votes == cs[c].votes + BallotsFor(NamesOf(cs), ballots, c)
  {
    if ballots != [] {
      var front := ballots[..|ballots| - 1];
      CastAllEffect(cs, front);
      CastEffect(CastAll(cs, front), ballots[|ballots| - 1]);
    }
  }

  lemma {:induction false} WinnersMembers(cs: seq<Candidate>, m: int, x: string)
    ensures x in Winners(cs, m) <==> exists i :: 0 <= i < |cs| && cs[i].votes == m && cs[i].name == x
  {
    if cs != [] {
      var front := cs[..|cs| - 1];
      WinnersMembers(front, m, x);
      if x in Winners(front, m) {
        var i :| 0 <= i < |front| && front[i].votes == m && front[i].name == x;
        assert cs[i] == front[i];
      }
      if exists i :: 0 <= i < |cs| && cs[i].votes == m && cs[i].name == x {
        var i :| 0 <= i < |cs| && cs[i].votes == m && cs[i].name == x;
        if i < |front| {
          assert front[i] == cs[i];
        }
      }
    }
  }

  lemma {:induction false} WinnersLength(cs: seq<Candidate>, m: int)
    ensures |Winners(cs, m)| == |set i | 0 <= i < |cs| && cs[i].votes == m|
  {
    if cs != [] {
      var front := cs[..|cs| - 1];
      WinnersLength(front, m);
      var a := set i | 0 <= i < |front| && front[i].votes == m;
      var b := set i | 0 <= i < |cs| && cs[i].votes == m;
      if cs[|cs| - 1].votes == m {
        assert b == a + {|cs| - 1};
      } else {
        assert b == a;
      }
    }
  }

  /**
   * `print_winner` reports exactly the candidates holding the maximum count;
   * with at least one candidate and no negative count, at least one is reported.
   */
  lemma WinnersOfMax(cs: seq<Candidate>, x: string)
    requires forall i :: 0 <= i < |cs| ==> cs[i].votes >= 0
    ensures x in Winners(cs, MaxVotes(cs)) <==>
              exists i :: 0 <= i < |cs| && cs[i].name == x && forall j :: 0 <= j < |cs| ==> cs[j].votes <= cs[i].votes
    ensures |cs| >= 1 ==> |Winners(cs, MaxVotes(cs))| >= 1
  {
    var m := MaxVotes(cs);
    WinnersMembers(cs, m, x);
    if exists i :: 0 <= i < |cs| && cs[i].name == x && forall j :: 0 <= j < |cs| ==> cs[j].votes <= cs[i].votes {
      var i :| 0 <= i < |cs| && cs[i].name == x && forall j :: 0 <= j < |cs| ==> cs[j].votes <= cs[i].votes;
      if m != 0 {
        var k :| 0 <= k < |cs| && cs[k].votes == m;
        assert cs[k].votes <= cs[i].votes;
      }
      assert cs[i].votes == m;
    }
    if |cs| >= 1 {
      var k: nat := 0;
      if m != 0 {
        k :| 0 <= k < |cs| && cs[k].votes == m;
      }
      assert cs[k].votes == m;
      WinnersMembers(cs, m, cs[k].name);
    }
  }

  /** The roster `main` fills from the command line: the names in order, every count at zero. */
  function Fresh(names: seq<string>): (r: seq<Candidate>)
    ensures NamesOf(r) == names
    ensures forall i :: 0 <= i < |r| ==> r[i].votes == 0
  {
    seq(|names|, i requires 0 <= i < |names| => Candidate(names[i], 0))
  }

  lemma {:induction false} FreshTotal(names: seq<string>)
    ensures Total(Fresh(names)) == 0
  {
    if names != [] {
      var front := names[..|names| - 1];
      assert Fresh(names)[..|names| - 1] == Fresh(front);
      FreshTotal(front);
    }
  }

  /**
   * From the set-up roster, the tally loop leaves each candidate exactly the
   * ballots whose first match it is, and the votes add up to the number of
   * valid ballots.
   */
  lemma TallyFromFresh(names: seq<string>, ballots: seq<string>)
    ensures NamesOf(CastAll(Fresh(names), ballots)) == names
    ensures Total(CastAll(Fresh(names), ballots)) == Accepted(names, ballots)
    ensures forall c :: 0 <= c < |names| ==> CastAll(Fresh(names), ballots)[c].votes == BallotsFor(names, ballots, c)
  {
    FreshTotal(names);
    CastAllEffect(Fresh(names), ballots);
  }

  class Election {
    var candidates: array<Candidate>
    var candidateCount: nat

    ghost predicate Valid()
      reads this, candidates
    {
      && candidates.Length == MAX
      && candidateCount <= MAX
      && forall i :: 0 <= i < candidateCount ==> candidates[i].votes >= 0
    }

    /** The candidates in use, `candidates[0 .. candidate_count)`. */
    function Roster(): seq<Candidate>
      reads this, candidates
      requires Valid()
    {
      candidates[..candidateCount]
    }

    /** Fills the table from the command-line names, every count at zero. */
    constructor (names: seq<string>)
      requires |names| <= MAX
      ensures Valid() && fresh(candidates)
      ensures Roster() == Fresh(names)
    {
      var table := new Candidate[MAX];
      for i := 0 to |names|
        invariant forall k :: 0 <= k < i ==> table[k] == Candidate(names[k], 0)
      {
        table[i] := Candidate(names[i], 0);
      }
      candidates := table;
      candidateCount := |names|;
    }

    /** `vote(name)`: add one vote to the first candidate called `name`. */
    method Vote(name: string) returns (ok: bool)
      requires Valid()
      modifies candidates
      ensures Valid()
      ensures ok <==> name in NamesOf(old(Roster()))
      ensures Roster() == Cast(old(Roster()), name)
      ensures candidates[candidateCount..] == old(candidates[candidateCount..])
    {
      ghost var names := NamesOf(Roster());
      for i := 0 to candidateCount
        invariant candidates[..] == old(candidates[..])
        invariant forall j :: 0 <= j < i ==> names[j] != name
      {
        if candidates[i].name == name {
          FirstIndexUnique(names, name, i);
          candidates[i] := candidates[i].(votes := candidates[i].votes + 1);
          return true;
        }
      }
      return false;
    }

    /**
     * The tally loop of `main`: every ballot is offered to Vote in turn; an
     * invalid one is counted in `rejected` (one "Invalid vote." line) and the
     * loop goes on.
     */
    method Tally(ballots: seq<string>) returns (rejected: nat)
      requires Valid()
      modifies candidates
      ensures Valid()
      ensures Roster() == CastAll(old(Roster()), ballots)
      ensures rejected + Accepted(NamesOf(old(Roster())), ballots) == |ballots|
    {
      ghost var start := Roster();
      rejected := 0;
      for i := 0 to |ballots|
        invariant Valid()
        invariant Roster() == CastAll(start, ballots[..i])
        invariant NamesOf(Roster()) == NamesOf(start)
        invariant rejected + Accepted(NamesOf(start), ballots[..i]) == i
      {
        assert ballots[..i + 1][..i] == ballots[..i];
        CastEffect(Roster(), ballots[i]);
        var ok := Vote(ballots[i]);
        if !ok {
          rejected := rejected + 1;
        }
      }
      assert ballots[..|ballots|] == ballots;
    }

    /**
     * `print_winner`: the largest count (0 when there are no candidates) and
     * the names of all candidates that hold it, in roster order.
     */
    method PrintWinner() returns (maxVotes: int, winners: seq<string>)
      requires Valid()
      ensures maxVotes == MaxVotes(Roster())
      ensures winners == Winners(Roster(), maxVotes)
    {
      maxVotes := 0;
      for i := 0 to candidateCount
        invariant maxVotes == MaxVotes(candidates[..i])
      {
        assert candidates[..i + 1][..i] == candidates[..i];
        if candidates[i].votes > maxVotes {
          maxVotes := candidates[i].votes;
        }
      }
      winners := [];
      for i := 0 to candidateCount
        invariant winners == Winners(candidates[..i], maxVotes)
      {
        assert candidates[..i + 1][..i] == candidates[..i];
        if candidates[i].votes == maxVotes {
          winners := winners + [candidates[i].name];
        }
      }
    }
  }
}
