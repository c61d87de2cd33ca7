/**
 A complete run of the simulation on a concrete group: four people in one row,
 infection factor one, the first person tapped by hand, and the random
 generator's answers fixed in advance.
 */
module Scenario {
  import Grid
  import Sampler
  import Simulation

  /**
   A tick with one queued person and infection factor one: the single draw
   picks neighbour `next`; if `next` was healthy they are now infected and
   the only one queued, otherwise the queue is left empty.
   */
  method SingleDrawTick(c: Simulation.Controller, person: int, draw: nat, next: int)
    returns (infectedNow: seq<int>)
    requires c.Valid() && c.infectionFactor == 1 && c.queue.elements == [person]
    requires draw < |Grid.FindNeighbours(person, c.groupSize)| && Grid.FindNeighbours(person, c.groupSize)[draw] == next
    modifies c, c.points, c.queue
    ensures c.Valid()
    ensures c.Infected == old(c.Infected) + {next}
    ensures next !in old(c.Infected) ==>
      c.queue.elements == infectedNow == [next]
      && c.infectedCount == old(c.infectedCount) + 1 && c.healthyCount == old(c.healthyCount) - 1
    ensures next in old(c.Infected) ==>
      c.queue.elements == infectedNow == []
      && c.infectedCount == old(c.infectedCount) && c.healthyCount == old(c.healthyCount)
    ensures c.timerActive == old(c.timerActive) && c.isPaused == old(c.isPaused)
  {
    var lists := Simulation.Neighbourhoods([person], c.groupSize);
    assert lists == [Grid.FindNeighbours(person, c.groupSize)];
    assert lists[..0] == [] && [[draw]][..0] == [];
    assert Simulation.Reached(lists, [[draw]]) == Sampler.Drawn(lists[0], [draw]);
    assert [draw][..0] == [];
    assert Sampler.Drawn(lists[0], [draw]) == {next};
    infectedNow := c.UpdateTimer([[draw]]);
    OneNewcomer(infectedNow, next, old(c.Infected));
  }

  /**
   A duplicate-free list whose elements are what `{x}` adds to a set is
   `[x]` when that set lacked `x`, and empty otherwise.
   */
  lemma OneNewcomer(s: seq<int>, x: int, before: set<int>)
    requires Sampler.Elements(s) == (before + {x}) - before && Grid.Distinct(s)
    ensures x !in before ==> s == [x]
    ensures x in before ==> s == []
  {
    assert forall k :: 0 <= k < |s| ==> s[k] in Sampler.Elements(s);
    Simulation.DistinctLengthBound(s, Sampler.Elements(s));
    if x !in before {
      assert x in Sampler.Elements(s);
    }
  }

  /**
   Tapping person 0 and letting the timer fire five times infects the whole
   row, one person per tick, after which the queue is empty, the timer is
   cancelled and the button shows "paused".
   */
  method FourInARow() returns (healthy: int, infected: int, running: bool, paused: bool)
    ensures healthy == 0 && infected == 4
    ensures !running && paused
  {
    var c := new Simulation.Controller(4, 1);
    c.SelectItem(0);
    assert Grid.FindNeighbours(0, 4) == [1];
    var now := SingleDrawTick(c, 0, 0, 1);
    assert Grid.FindNeighbours(1, 4) == [0, 2];
    now := SingleDrawTick(c, 1, 1, 2);
    assert Grid.FindNeighbours(2, 4) == [1, 3];
    now := SingleDrawTick(c, 2, 1, 3);
    assert Grid.FindNeighbours(3, 4) == [2];
    now := SingleDrawTick(c, 3, 0, 2);
    now := c.UpdateTimer([]);
    healthy, infected, running, paused := c.healthyCount, c.infectedCount, c.timerActive, c.isPaused;
  }
}
