/**
 * How a round is decided (`Game.endGame`): the spy's guess first, then the
 * vote tally, and the spy by default. Votes are the `votes` map as its
 * entries (voter, target) in map order.
 */
module Verdict {
  import opened Base
  import opened OrderedMap

  /** Player ids (uuid strings); the members below work for ids of any type with equality. */
  type PlayerId = string

  datatype Winner = Spy | Innocent

  /** Number of votes naming `t`. */
  function Count<P(==)>(votes: seq<(P, P)>, t: P): nat {
    if votes == [] then 0
    else Count(votes[..|votes| - 1], t) + (if votes[|votes| - 1].1 == t then 1 else 0)
  }

  /** Position of the first vote naming `t`; `|votes|` when there is none. */
  function First<P(==)>(votes: seq<(P, P)>, t: P): (i: nat)
    ensures i <= |votes|
    ensures i < |votes| ==> votes[i].1 == t
    ensures forall j :: 0 <= j < i ==> votes[j].1 != t
  {
    if votes == [] then 0
    else if votes[0].1 == t then 0
    else
      var i := 1 + First(votes[1..], t);
      assert forall j :: 0 < j < i ==> votes[j] == votes[1..][j - 1];
      i
  }

  /** Appending a vote moves no earlier first vote. */
  lemma {:induction false} FirstExtend<P>(pre: seq<(P, P)>, x: (P, P), t: P)
    ensures First(pre + [x], t) ==
      if First(pre, t) < |pre| then First(pre, t) else if x.1 == t then |pre| else |pre| + 1
  {
    if pre != [] {
      assert (pre + [x])[1..] == pre[1..] + [x];
      FirstExtend(pre[1..], x, t);
    }
  }

  /** A target has votes exactly when somebody voted for it. */
  lemma {:induction false} CountFirst<P>(votes: seq<(P, P)>, t: P)
    ensures Count(votes, t) > 0 <==> First(votes, t) < |votes|
  {
    if votes != [] {
      var pre := votes[..|votes| - 1];
      CountFirst(pre, t);
      assert votes == pre + [votes[|votes| - 1]];
      FirstExtend(pre, votes[|votes| - 1], t);
    }
  }

  /** `voteCount` after the counting loop of `endGame`: targets in order of first vote. */
  function Tally<P(==)>(votes: seq<(P, P)>): seq<(P, nat)> {
    if votes == [] then []
    else
      var prev := Tally(votes[..|votes| - 1]);
      var t := votes[|votes| - 1].1;
      Set(prev, t, Get(prev, t).GetOr(0) + 1)
  }

  /** The tally holds each voted-for target once, with its number of votes. */
  lemma {:induction false} TallyCounts<P>(votes: seq<(P, P)>)
    ensures DistinctKeys(Tally(votes))
    ensures forall t :: Get(Tally(votes), t) == if Count(votes, t) == 0 then None else Some(Count(votes, t))
  {
    if votes != [] {
      var pre := votes[..|votes| - 1];
      var t := votes[|votes| - 1].1;
      var prev := Tally(pre);
      TallyCounts(pre);
      SetDistinct(prev, t, Get(prev, t).GetOr(0) + 1);
      forall u ensures Get(Tally(votes), u) == if Count(votes, u) == 0 then None else Some(Count(votes, u)) {
        CountStep(votes, u);
      }
    }
  }

  /** One counting step: the count of `u` grows by one exactly when the last vote names `u`. */
  lemma CountStep<P>(votes: seq<(P, P)>, u: P)
    requires votes != []
    requires var pre := votes[..|votes| - 1];
      Get(Tally(pre), u) == if Count(pre, u) == 0 then None else Some(Count(pre, u))
    requires var pre := votes[..|votes| - 1]; var t := votes[|votes| - 1].1;
      Get(Tally(pre), t) == if Count(pre, t) == 0 then None else Some(Count(pre, t))
    ensures Get(Tally(votes), u) == if Count(votes, u) == 0 then None else Some(Count(votes, u))
  {
    var prev := Tally(votes[..|votes| - 1]);
    var t := votes[|votes| - 1].1;
    SetGet(prev, t, Get(prev, t).GetOr(0) + 1, u);
  }

  /** Every target in the tally has been voted for. */
  lemma TallyKeyVoted<P>(votes: seq<(P, P)>, k: nat)
    requires k < |Tally(votes)|
    ensures Count(votes, Tally(votes)[k].0) == Tally(votes)[k].1 > 0
    ensures First(votes, Tally(votes)[k].0) < |votes|
  {
    var T := Tally(votes);
    TallyCounts(votes);
    GetAt(T, k);
    assert Get(T, T[k].0) == if Count(votes, T[k].0) == 0 then None else Some(Count(votes, T[k].0));
    CountFirst(votes, T[k].0);
  }

  /** One counting step keeps the places of the targets already counted. */
  lemma TallyStep<P>(pre: seq<(P, P)>, x: (P, P))
    ensures var prev := Tally(pre);
      var T := Tally(pre + [x]);
      if HasKey(prev, x.1) then |T| == |prev| && forall k :: 0 <= k < |prev| ==> T[k].0 == prev[k].0
      else T == prev + [(x.1, 1)]
  {
    var votes := pre + [x];
    assert votes[..|votes| - 1] == pre;
    var prev := Tally(pre);
    SetPlace(prev, x.1, Get(prev, x.1).GetOr(0) + 1);
  }

  /** The tally lists targets in the order their first votes were cast. */
  lemma {:induction false} TallyOrder<P>(votes: seq<(P, P)>)
    ensures forall k1, k2 :: 0 <= k1 < k2 < |Tally(votes)| ==>
      First(votes, Tally(votes)[k1].0) < First(votes, Tally(votes)[k2].0)
  {
    if votes != [] {
      var pre := votes[..|votes| - 1];
      var x := votes[|votes| - 1];
      assert votes == pre + [x];
      var prev := Tally(pre);
      var T := Tally(votes);
      TallyOrder(pre);
      TallyStep(pre, x);
      // every target already counted keeps its first vote
      forall k | 0 <= k < |prev|
        ensures First(pre, prev[k].0) < |pre| && First(votes, prev[k].0) == First(pre, prev[k].0)
      {
        TallyKeyVoted(pre, k);
        FirstExtend(pre, x, prev[k].0);
      }
      if !HasKey(prev, x.1) {
        TallyCounts(pre);
        CountFirst(pre, x.1);
        FirstExtend(pre, x, x.1);
        assert First(votes, T[|prev|].0) == |pre|;
      }
    }
  }

  /**
   * The scan over `voteCount` in `endGame`: the first entry whose count is
   * strictly above every count before it, and that count (0 when empty).
   */
  function PickMax<P(==)>(tally: seq<(P, nat)>): (Option<P>, nat) {
    if tally == [] then (None, 0)
    else
      var (best, most) := PickMax(tally[..|tally| - 1]);
      var (p, c) := tally[|tally| - 1];
      if c > most then (Some(p), c) else (best, most)
  }

  /** Entry `ka` is what the scan returns: its count is the largest, and strictly above all before it. */
  predicate FirstLargestAt<P(==)>(tally: seq<(P, nat)>, ka: int) {
    && 0 <= ka < |tally|
    && PickMax(tally) == (Some(tally[ka].0), tally[ka].1)
    && (forall k :: 0 <= k < ka ==> tally[k].1 < tally[ka].1)
  }

  /** When every count is positive, the scan finds the first entry with the largest count. */
  lemma {:induction false} PickMaxFirstLargest<P>(tally: seq<(P, nat)>)
    requires forall k :: 0 <= k < |tally| ==> tally[k].1 > 0
    ensures forall k :: 0 <= k < |tally| ==> tally[k].1 <= PickMax(tally).1
    ensures tally == [] ==> PickMax(tally).0 == None
    ensures tally != [] ==> exists ka :: FirstLargestAt(tally, ka)
  {
    if tally != [] {
      var pre := tally[..|tally| - 1];
      assert forall k :: 0 <= k < |pre| ==> pre[k] == tally[k];
      PickMaxFirstLargest(pre);
      var (best, most) := PickMax(pre);
      if tally[|tally| - 1].1 > most {
        assert FirstLargestAt(tally, |tally| - 1);
      } else {
        assert pre != [];
        var ka :| FirstLargestAt(pre, ka);
        assert FirstLargestAt(tally, ka);
      }
    }
  }

  /** Every voted-for target has its entry in the tally. */
  lemma TallyFind<P>(votes: seq<(P, P)>, t: P) returns (kt: nat)
    requires Count(votes, t) > 0
    ensures kt < |Tally(votes)| && Tally(votes)[kt].0 == t
  {
    TallyCounts(votes);
    assert HasKey(Tally(votes), t);
    kt :| 0 <= kt < |Tally(votes)| && Tally(votes)[kt].0 == t;
  }

  /** The player `endGame` accuses from the votes: `mostVotedPlayer`. */
  function Accused<P(==)>(votes: seq<(P, P)>): Option<P> {
    PickMax(Tally(votes)).0
  }

  /**
   * Somebody is accused exactly when a vote was cast, and the accused has the
   * most votes; of several targets with that many, the one voted for first.
   */
  lemma AccusedIsFirstMaximum<P>(votes: seq<(P, P)>)
    ensures Accused(votes).Some? <==> votes != []
    ensures Accused(votes).Some? ==>
      var a := Accused(votes).value;
      && Count(votes, a) > 0
      && (forall t :: Count(votes, t) <= Count(votes, a))
      && (forall t :: t != a && Count(votes, t) == Count(votes, a) ==> First(votes, a) < First(votes, t))
  {
    var T := Tally(votes);
    forall k | 0 <= k < |T| ensures T[k].1 == Count(votes, T[k].0) > 0 {
      TallyKeyVoted(votes, k);
    }
    PickMaxFirstLargest(T);
    if votes != [] {
      CountFirst(votes, votes[0].1);
      var k0 := TallyFind(votes, votes[0].1);
      var ka :| FirstLargestAt(T, ka);
      var a := T[ka].0;
      TallyOrder(votes);
      forall t ensures Count(votes, t) <= Count(votes, a)
        && (t != a && Count(votes, t) == Count(votes, a) ==> First(votes, a) < First(votes, t))
      {
        if Count(votes, t) > 0 {
          var kt := TallyFind(votes, t);
          if t != a && Count(votes, t) == Count(votes, a) {
            assert kt != ka;
            assert !(kt < ka);
          }
        }
      }
    }
  }

  /**
   * `endGame`'s winner: a guess decides alone (the spy wins iff it names the
   * location exactly); otherwise, with votes, the innocents win iff the
   * accused is the spy; with neither, the spy wins.
   */
  function Decide<P(==)>(spyGuess: Option<string>, location: Option<string>,
                  votes: seq<(P, P)>, spyId: Option<P>): Winner
  {
    if spyGuess.Some? then
      if spyGuess == location then Spy else Innocent
    else if |votes| > 0 then
      if Accused(votes) == spyId then Innocent else Spy
    else Spy
  }

  /**
   * Without a guess, votes convict the spy exactly when the spy has at least
   * as many votes as anybody, and every target with as many was first voted
   * for after the spy.
   */
  lemma VoteVerdict<P>(location: Option<string>, votes: seq<(P, P)>, s: P)
    requires votes != []
    ensures Decide(None, location, votes, Some(s)) == Innocent <==>
      && (forall t :: Count(votes, t) <= Count(votes, s))
      && (forall t :: t != s && Count(votes, t) == Count(votes, s) ==> First(votes, s) < First(votes, t))
  {
    AccusedIsFirstMaximum(votes);
    var a := Accused(votes).value;
    if (forall t :: Count(votes, t) <= Count(votes, s))
       && (forall t :: t != s && Count(votes, t) == Count(votes, s) ==> First(votes, s) < First(votes, t))
    {
      assert First(votes, a) <= |votes| && First(votes, s) <= |votes|;
      assert Count(votes, a) <= Count(votes, s);
    }
  }

  /** With no guess and no votes (time ran out), the spy wins. */
  lemma {:induction false} SilenceFavoursSpy<P>(location: Option<string>, spyId: Option<P>)
    ensures Decide(None, location, [], spyId) == Spy
  {
  }

  /**
   * Three voters, two votes for `x` and one for `y`, and `x` is not the spy:
   * the spy wins, whatever order the votes came in.
   */
  lemma {:induction false} WrongPluralityFavoursSpy<P>(
    location: Option<string>, p1: P, p2: P, p3: P, x: P, y: P, s: P,
    votes: seq<(P, P)>)
    requires x != y && x != s
    requires votes == [(p1, x), (p2, x), (p3, y)] || votes == [(p1, x), (p2, y), (p3, x)] ||
             votes == [(p1, y), (p2, x), (p3, x)]
    ensures Decide(None, location, votes, Some(s)) == Spy
  {
    VoteVerdict(location, votes, s);
    CountThree(votes[0], votes[1], votes[2], x);
    CountThree(votes[0], votes[1], votes[2], s);
    assert votes == [votes[0], votes[1], votes[2]];
    assert Count(votes, s) < Count(votes, x);
    assert !(forall t :: Count(votes, t) <= Count(votes, s));
  }

  lemma CountThree<P>(a: (P, P), b: (P, P), c: (P, P), t: P)
    ensures Count([a, b, c], t) ==
      (if a.1 == t then 1 else 0) + (if b.1 == t then 1 else 0) + (if c.1 == t then 1 else 0)
  {
    assert [a, b, c][..2] == [a, b];
    assert [a, b][..1] == [a];
    assert [a][..0] == [];
    assert Count([a], t) == (if a.1 == t then 1 else 0);
    assert Count([a, b], t) == Count([a], t) + (if b.1 == t then 1 else 0);
  }

  /**
   * The second loop of `endGame`, run over the counts from the first: the
   * result is the accused player.
   */
  method MostVoted<P(==)>(votes: seq<(P, P)>) returns (mostVotedPlayer: Option<P>)
    ensures mostVotedPlayer == Accused(votes)
  {
    var voteCount: seq<(P, nat)> := [];
    var i := 0;
    while i < |votes|
      invariant 0 <= i <= |votes|
      invariant voteCount == Tally(votes[..i])
    {
      var votedForId := votes[i].1;
      assert votes[..i + 1][..i] == votes[..i];
      voteCount := Set(voteCount, votedForId, Get(voteCount, votedForId).GetOr(0) + 1);
      i := i + 1;
    }
    assert votes[..|votes|] == votes;
    var maxVotes := 0;
    mostVotedPlayer := None;
    var j := 0;
    while j < |voteCount|
      invariant 0 <= j <= |voteCount|
      invariant (mostVotedPlayer, maxVotes) == PickMax(voteCount[..j])
    {
      assert voteCount[..j + 1][..j] == voteCount[..j];
      if voteCount[j].1 > maxVotes {
        maxVotes := voteCount[j].1;
        mostVotedPlayer := Some(voteCount[j].0);
      }
      j := j + 1;
    }
    assert voteCount[..|voteCount|] == voteCount;
  }
}
