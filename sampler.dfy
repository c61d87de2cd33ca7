/**
 The transmission sampler: an infected person draws `infectionFactor` times,
 with replacement, from their neighbour list and infects the distinct people
 drawn. The random generator is replaced by `draws`, the sequence of indices
 it would have produced.
 */
module Sampler {
  import Grid

  /** The distinct elements of a list. */
  function Elements(s: seq<int>): (r: set<int>)
  {
    set x | x in s
  }

  /**
   What the source demands of the random draws: one per unit of infection
   factor, and each one an index into the neighbour list when that list is
   not empty (when it is, the draws are skipped and may be anything).
   */
  predicate ValidDraws(neighbours: seq<int>, draws: seq<nat>, infectionFactor: int)
  {
    |draws| == infectionFactor && DrawsInRange(neighbours, draws)
  }

  /** Every draw indexes the neighbour list, unless that list is empty. */
  predicate DrawsInRange(neighbours: seq<int>, draws: seq<nat>)
  {
    |neighbours| > 0 ==> forall k :: 0 <= k < |draws| ==> draws[k] < |neighbours|
  }

  /** The set of neighbours picked by a run of draws, in draw order. */
  function Drawn(neighbours: seq<int>, draws: seq<nat>): (r: set<int>)
    requires DrawsInRange(neighbours, draws)
    decreases |draws|
  {
    if neighbours == [] || draws == [] then {}
    else Drawn(neighbours, draws[..|draws| - 1]) + {neighbours[draws[|draws| - 1]]}
  }

  /** A person is drawn exactly when some draw points at them. */
  lemma {:induction false} DrawnMembers(neighbours: seq<int>, draws: seq<nat>, x: int)
    requires DrawsInRange(neighbours, draws)
    ensures x in Drawn(neighbours, draws) <==>
      neighbours != [] && exists k :: 0 <= k < |draws| && neighbours[draws[k]] == x
  {
    if neighbours != [] && draws != [] {
      var init := draws[..|draws| - 1];
      DrawnMembers(neighbours, init, x);
      if x in Drawn(neighbours, init) {
        var k :| 0 <= k < |init| && neighbours[init[k]] == x;
        assert draws[k] == init[k];
      }
      if exists k :: 0 <= k < |draws| && neighbours[draws[k]] == x {
        var k :| 0 <= k < |draws| && neighbours[draws[k]] == x;
        if k < |init| {
          assert init[k] == draws[k];
        }
      }
    }
  }

  /** The drawn people are neighbours, and there are no more of them than there were draws. */
  lemma {:induction false} DrawnBounds(neighbours: seq<int>, draws: seq<nat>)
    requires DrawsInRange(neighbours, draws)
    ensures Drawn(neighbours, draws) <= Elements(neighbours)
    ensures |Drawn(neighbours, draws)| <= |draws|
  {
    if neighbours != [] && draws != [] {
      DrawnBounds(neighbours, draws[..|draws| - 1]);
    }
  }

  /** A list has no more distinct elements than entries. */
  lemma {:induction false} ElementsBound(s: seq<int>)
    ensures |Elements(s)| <= |s|
  {
    if s != [] {
      ElementsBound(s[1..]);
      assert Elements(s) == Elements(s[1..]) + {s[0]};
    }
  }

  /** A non-empty set has an element. */
  lemma HasElement(s: set<int>)
    requires s != {}
    ensures exists x :: x in s
  {
    if forall x :: x !in s {
      assert false;
    }
  }

  /** A subset is no larger than the set it is part of. */
  lemma {:induction false} SubsetBound(a: set<int>, b: set<int>)
    requires a <= b
    ensures |a| <= |b|
  {
    if a != {} {
      HasElement(a);
      var x :| x in a;
      SubsetBound(a - {x}, b - {x});
    }
  }

  /** When the draws hit every position of the neighbour list, every neighbour is infected. */
  lemma DrawnCovers(neighbours: seq<int>, draws: seq<nat>)
    requires DrawsInRange(neighbours, draws)
    requires forall j :: 0 <= j < |neighbours| ==> j in draws
    ensures Drawn(neighbours, draws) == Elements(neighbours)
  {
    DrawnBounds(neighbours, draws);
    forall x | x in Elements(neighbours)
      ensures x in Drawn(neighbours, draws)
    {
      var j :| 0 <= j < |neighbours| && neighbours[j] == x;
      assert j in draws;
      var k :| 0 <= k < |draws| && draws[k] == j;
      DrawnMembers(neighbours, draws, x);
    }
  }

  /**
   The people `person` infects in one tick: `infectionFactor` draws from the
   neighbour list, collapsed into a set. The result holds only neighbours, at
   most `infectionFactor` of them and at most as many as there are neighbours,
   and it is empty when the factor is 0 or there is no neighbour.
   */
  method InfectNeighbours(person: int, groupSize: int, infectionFactor: int, draws: seq<nat>)
    returns (infected: set<int>)
    requires ValidDraws(Grid.FindNeighbours(person, groupSize), draws, infectionFactor)
    ensures infected == Drawn(Grid.FindNeighbours(person, groupSize), draws)
    ensures infected <= Elements(Grid.FindNeighbours(person, groupSize))
    ensures 0 <= person < groupSize ==> forall i :: i in infected ==> 0 <= i < groupSize && i != person
    ensures |infected| <= infectionFactor && |infected| <= |Grid.FindNeighbours(person, groupSize)|
    ensures infectionFactor == 0 || Grid.FindNeighbours(person, groupSize) == [] ==> infected == {}
  {
    var neighbours := Grid.FindNeighbours(person, groupSize);
    infected := {};
    for k := 0 to infectionFactor
      invariant infected == Drawn(neighbours, draws[..k])
    {
      if |neighbours| > 0 {
        assert draws[..k + 1][..k] == draws[..k];
        infected := infected + {neighbours[draws[k]]};
      }
    }
    assert draws[..infectionFactor] == draws;
    DrawnBounds(neighbours, draws);
    ElementsBound(neighbours);
    SubsetBound(infected, Elements(neighbours));
    if 0 <= person < groupSize {
      Grid.NeighbourRange(person, groupSize);
    }
  }
}
