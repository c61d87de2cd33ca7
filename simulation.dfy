/**
 The simulation controller's engine: the per-person health array `points`
 (0 healthy, 1 infected), the frontier queue of people whose neighbours have
 not been expanded yet, the healthy and infected counters, and the periodic
 timer reduced to whether it is armed and whether the play/pause button shows
 "paused". Rendering, labels and the collection view are not modelled.
 */
module Simulation {
  import opened Queues
  import Grid
  import Sampler

  /** Largest group size the configuration screen accepts. */
  const MaxGroupSize: int := 1000000

  /** The neighbour list of each frontier person, in frontier order. */
  function Neighbourhoods(frontier: seq<int>, groupSize: int): (r: seq<seq<int>>)
  {
    seq(|frontier|, j requires 0 <= j < |frontier| => Grid.FindNeighbours(frontier[j], groupSize))
  }

  /** One run of draws per neighbour list, each indexing its list. */
  ghost predicate DrawsFit(lists: seq<seq<int>>, draws: seq<seq<nat>>)
  {
    |draws| == |lists| && forall j :: 0 <= j < |lists| ==> Sampler.DrawsInRange(lists[j], draws[j])
  }

  /**
   The set of people picked when the j-th frontier person, whose neighbour list
   is `lists[j]`, draws `draws[j]`, for every j.
   */
  ghost function Reached(lists: seq<seq<int>>, draws: seq<seq<nat>>): (r: set<int>)
    requires DrawsFit(lists, draws)
    decreases |lists|
  {
    if lists == [] then {}
    else
      var last := |lists| - 1;
      assert DrawsFit(lists[..last], draws[..last]) by {
        forall j | 0 <= j < last
          ensures Sampler.DrawsInRange(lists[..last][j], draws[..last][j])
        {
          assert lists[..last][j] == lists[j] && draws[..last][j] == draws[j];
        }
      }
      Reached(lists[..last], draws[..last]) + Sampler.Drawn(lists[last], draws[last])
  }

  /** Draws that fit some lists fit each prefix of them. */
  lemma DrawsFitPrefix(lists: seq<seq<int>>, draws: seq<seq<nat>>, k: int)
    requires DrawsFit(lists, draws) && 0 <= k <= |lists|
    ensures DrawsFit(lists[..k], draws[..k])
  {
    forall j | 0 <= j < k
      ensures Sampler.DrawsInRange(lists[..k][j], draws[..k][j])
    {
      assert lists[..k][j] == lists[j] && draws[..k][j] == draws[j];
    }
  }

  /** Expanding one more frontier person adds exactly the people that person's draws pick. */
  lemma ReachedStep(lists: seq<seq<int>>, draws: seq<seq<nat>>, k: int)
    requires DrawsFit(lists, draws) && 0 <= k < |lists|
    ensures DrawsFit(lists[..k], draws[..k]) && DrawsFit(lists[..k + 1], draws[..k + 1])
    ensures Reached(lists[..k + 1], draws[..k + 1]) == Reached(lists[..k], draws[..k]) + Sampler.Drawn(lists[k], draws[k])
  {
    DrawsFitPrefix(lists, draws, k);
    DrawsFitPrefix(lists, draws, k + 1);
    assert lists[..k + 1][..k] == lists[..k] && draws[..k + 1][..k] == draws[..k];
  }

  /** Someone is reached exactly when some frontier person's draws picked them. */
  lemma {:induction false} ReachedMembers(lists: seq<seq<int>>, draws: seq<seq<nat>>, x: int)
    requires DrawsFit(lists, draws)
    ensures x in Reached(lists, draws) <==> exists j :: 0 <= j < |lists| && x in Sampler.Drawn(lists[j], draws[j])
  {
    if lists != [] {
      var last := |lists| - 1;
      ReachedStep(lists, draws, last);
      assert lists[..last + 1] == lists && draws[..last + 1] == draws;
      var l, d := lists[..last], draws[..last];
      ReachedMembers(l, d, x);
      if x in Reached(l, d) {
        var j :| 0 <= j < |l| && x in Sampler.Drawn(l[j], d[j]);
        assert lists[j] == l[j] && draws[j] == d[j];
      }
      if exists j :: 0 <= j < |lists| && x in Sampler.Drawn(lists[j], draws[j]) {
        var j :| 0 <= j < |lists| && x in Sampler.Drawn(lists[j], draws[j]);
        if j < last {
          assert lists[j] == l[j] && draws[j] == d[j];
        }
      }
    }
  }

  /**
   Everyone a tick reaches from a frontier inside the group is in the group and
   is a grid neighbour of some frontier person.
   */
  lemma ReachedNeighbours(frontier: seq<int>, draws: seq<seq<nat>>, groupSize: int, x: int)
    requires DrawsFit(Neighbourhoods(frontier, groupSize), draws)
    requires forall j :: 0 <= j < |frontier| ==> 0 <= frontier[j] < groupSize
    requires x in Reached(Neighbourhoods(frontier, groupSize), draws)
    ensures 0 <= x < groupSize
    ensures exists j :: 0 <= j < |frontier| && Grid.Adjacent(frontier[j], x, groupSize)
  {
    var lists := Neighbourhoods(frontier, groupSize);
    ReachedMembers(lists, draws, x);
    var j :| 0 <= j < |lists| && x in Sampler.Drawn(lists[j], draws[j]);
    assert lists[j] == Grid.FindNeighbours(frontier[j], groupSize);
    Sampler.DrawnBounds(lists[j], draws[j]);
    Grid.NeighbourIff(frontier[j], x, groupSize);
  }

  /** Popping the front of `frontier[k..] + tail` leaves `frontier[k + 1..] + tail`; a solver aid for the queue invariant of a tick. */
  lemma DropFirst(frontier: seq<int>, k: int, tail: seq<int>)
    requires 0 <= k < |frontier|
    ensures (frontier[k..] + tail)[0] == frontier[k]
    ensures (frontier[k..] + tail)[1..] == frontier[k + 1..] + tail
  {
  }

  /** Regrouping a concatenation; a solver aid for the queue invariant of a tick. */
  lemma ConcatAssoc(a: seq<int>, b: seq<int>, c: seq<int>)
    ensures (a + b) + c == a + (b + c)
  {
  }

  /** The elements of a list grown by one; a solver aid for the inner loop of a tick. */
  lemma ElementsAppend(s: seq<int>, x: int)
    ensures Sampler.Elements(s + [x]) == Sampler.Elements(s) + {x}
  {
  }

  /** The elements of a concatenation; a solver aid for the loop of a tick. */
  lemma ElementsConcat(s: seq<int>, t: seq<int>)
    ensures Sampler.Elements(s + t) == Sampler.Elements(s) + Sampler.Elements(t)
  {
  }

  /** What a set gained over two steps is what it gained in the first plus what it gained in the second; a solver aid for the loop of a tick. */
  lemma GrowthSplit(a: set<int>, b: set<int>, c: set<int>)
    requires a <= b <= c
    ensures c - a == (b - a) + (c - b)
  {
  }

  /** Regrouping a union; a solver aid for the infected-set invariant of a tick. */
  lemma UnionStep(a: set<int>, b: set<int>, c: set<int>, ab: set<int>)
    requires ab == a + b
    ensures ab + c == a + (b + c)
  {
  }

  /** Moving `x` from the unhandled part `rest` of `sampled` to the handled part; a solver aid for the inner loop of a tick. */
  lemma HandledStep(sampled: set<int>, rest: set<int>, infected: set<int>, x: int)
    requires x in rest && rest <= sampled
    ensures infected + (sampled - (rest - {x})) == infected + (sampled - rest) + {x}
    ensures x in infected ==> (sampled - (rest - {x})) - infected == (sampled - rest) - infected
    ensures x !in infected ==> (sampled - (rest - {x})) - infected == (sampled - rest) - infected + {x}
  {
  }

  /** A set of indices below `n` has at most `n` members. */
  lemma {:induction false} IndexSetBound(s: set<int>, n: nat)
    requires forall i :: i in s ==> 0 <= i < n
    ensures |s| <= n
  {
    if s != {} {
      Sampler.HasElement(s);
      var x :| x in s;
      IndexSetBound(s - {n - 1}, n - 1);
      if n - 1 in s {
        assert s == (s - {n - 1}) + {n - 1};
      } else {
        assert s - {n - 1} == s;
      }
    }
  }

  /** A list without duplicates drawn from a set is no longer than the set. */
  lemma {:induction false} DistinctLengthBound(s: seq<int>, universe: set<int>)
    requires Grid.Distinct(s)
    requires forall k :: 0 <= k < |s| ==> s[k] in universe
    ensures |s| <= |universe|
  {
    if s != [] {
      var last := |s| - 1;
      DistinctLengthBound(s[..last], universe - {s[last]});
    }
  }

  class Controller {
    const groupSize: int
    const infectionFactor: int
    /** Health of each person: 0 healthy, 1 infected. */
    const points: array<int>
    /** People infected last tick (or by hand) whose neighbours are still to be expanded. */
    const queue: Queue<int>
    var healthyCount: int
    var infectedCount: int
    /** Whether the periodic timer exists. */
    var timerActive: bool
    /** Whether the play/pause button is in its paused state. */
    var isPaused: bool
    /** The people whose entry in `points` is 1. */
    ghost var Infected: set<int>

    ghost predicate Valid()
      reads this, points, queue
    {
      0 <= groupSize <= MaxGroupSize && 0 <= infectionFactor
      && points.Length == groupSize
      && (forall i {:trigger points[i]} :: 0 <= i < groupSize ==> points[i] == if i in Infected then 1 else 0)
      && (forall i :: i in Infected ==> 0 <= i < groupSize)
      && infectedCount == |Infected|
      && healthyCount + infectedCount == groupSize
      && (forall k :: 0 <= k < |queue.elements| ==> queue.elements[k] in Infected)
      && Grid.Distinct(queue.elements)
      && (timerActive ==> !isPaused)
    }

    /**
     Work left to do: the healthy people plus the queued people. A tick lowers
     it by the number of people it expands and a manual infection keeps it.
     */
    ghost function Pending(): (r: int)
      reads this, queue
    {
      healthyCount + |queue.elements|
    }

    /** Everyone healthy, nobody queued, no timer, button not paused. */
    constructor (groupSize: int, infectionFactor: int)
      requires 0 <= groupSize <= MaxGroupSize && 0 <= infectionFactor
      ensures Valid() && fresh(points) && fresh(queue)
      ensures this.groupSize == groupSize && this.infectionFactor == infectionFactor
      ensures forall i :: 0 <= i < groupSize ==> points[i] == 0
      ensures queue.elements == [] && Infected == {}
      ensures healthyCount == groupSize && infectedCount == 0
      ensures !timerActive && !isPaused
    {
      this.groupSize := groupSize;
      this.infectionFactor := infectionFactor;
      points := new int[groupSize](_ => 0);
      queue := new Queue<int>([]);
      healthyCount := groupSize;
      infectedCount := 0;
      timerActive := false;
      isPaused := false;
      Infected := {};
    }

    /** What a tick needs from the random generator: per queued person, `infectionFactor` valid draws. */
    ghost predicate ValidTickDraws(draws: seq<seq<nat>>)
      reads this, queue
    {
      DrawsFit(Neighbourhoods(queue.elements, groupSize), draws)
      && forall j :: 0 <= j < |draws| ==> |draws[j]| == infectionFactor
    }

    /**
     Marks a healthy person infected: their entry becomes 1, one person moves
     from the healthy to the infected count, and they are queued for expansion.
     */
    method MarkInfected(person: int)
      requires Valid() && 0 <= person < groupSize && points[person] == 0
      modifies this`healthyCount, this`infectedCount, this`Infected, points, queue
      ensures Valid()
      ensures Infected == old(Infected) + {person} && person !in old(Infected)
      ensures points[person] == 1 && forall i :: 0 <= i < groupSize && i != person ==> points[i] == old(points[i])
      ensures queue.elements == old(queue.elements) + [person]
      ensures infectedCount == old(infectedCount) + 1 && healthyCount == old(healthyCount) - 1
    {
      points[person] := 1;
      Infected := Infected + {person};
      infectedCount := infectedCount + 1;
      healthyCount := healthyCount - 1;
      queue.Push(person);
    }

    /**
     The inner loop of a tick: every person of `sampled` still healthy is marked
     infected, counted and queued; `added` lists them in the order they were handled.
     */
    method InfectSampled(sampled: set<int>) returns (added: seq<int>)
      requires Valid()
      requires forall i :: i in sampled ==> 0 <= i < groupSize
      modifies this`healthyCount, this`infectedCount, this`Infected, points, queue
      ensures Valid()
      ensures Infected == old(Infected) + sampled
      ensures Sampler.Elements(added) == sampled - old(Infected)
      ensures queue.elements == old(queue.elements) + added
      ensures infectedCount == old(infectedCount) + |added|
    {
      added := [];
      var rest := sampled;
      while rest != {}
        invariant rest <= sampled
        invariant Valid()
        invariant Infected == old(Infected) + (sampled - rest)
        invariant Sampler.Elements(added) == (sampled - rest) - old(Infected)
        invariant queue.elements == old(queue.elements) + added
        invariant infectedCount == old(infectedCount) + |added|
        decreases rest
      {
        Sampler.HasElement(rest);
        var i :| i in rest;
        HandledStep(sampled, rest, old(Infected), i);
        rest := rest - {i};
        var newlyInfected := InfectIfHealthy(i);
        if newlyInfected {
          ConcatAssoc(old(queue.elements), added, [i]);
          ElementsAppend(added, i);
          added := added + [i];
        }
      }
    }

    /**
     One sampled person: if healthy, they become infected, are counted and are
     queued; an infected person is left alone.
     */
    method InfectIfHealthy(person: int) returns (newlyInfected: bool)
      requires Valid() && 0 <= person < groupSize
      modifies this`healthyCount, this`infectedCount, this`Infected, points, queue
      ensures Valid()
      ensures Infected == old(Infected) + {person}
      ensures newlyInfected <==> person !in old(Infected)
      ensures newlyInfected ==> queue.elements == old(queue.elements) + [person] && infectedCount == old(infectedCount) + 1
      ensures !newlyInfected ==> queue.elements == old(queue.elements) && infectedCount == old(infectedCount)
    {
      newlyInfected := points[person] == 0;
      if newlyInfected {
        MarkInfected(person);
      }
    }

    /**
     One iteration of a tick: pop the oldest queued person, sample their
     neighbours with `personDraws`, and infect and queue the healthy ones.
     */
    method ExpandNext(personDraws: seq<nat>) returns (added: seq<int>)
      requires Valid() && queue.elements != []
      requires Sampler.ValidDraws(Grid.FindNeighbours(queue.elements[0], groupSize), personDraws, infectionFactor)
      modifies this`healthyCount, this`infectedCount, this`Infected, points, queue
      ensures Valid()
      ensures Infected == old(Infected) + Sampler.Drawn(Grid.FindNeighbours(old(queue.elements[0]), groupSize), personDraws)
      ensures Sampler.Elements(added) == Infected - old(Infected)
      ensures queue.elements == old(queue.elements[1..]) + added
      ensures infectedCount == old(infectedCount) + |added|
    {
      added := [];
      var first := queue.Pop();
      if first.Some? {
        var neighbours := Sampler.InfectNeighbours(first.value, groupSize, infectionFactor, personDraws);
        added := InfectSampled(neighbours);
      }
    }

    /**
     One tick: expand exactly the people queued at its start. Each popped person
     samples neighbours; every sampled neighbour still healthy becomes infected,
     is counted and is queued for the next tick. Nobody recovers.
     */
    method Tick(draws: seq<seq<nat>>) returns (infectedNow: seq<int>)
      requires Valid() && ValidTickDraws(draws)
      modifies this`healthyCount, this`infectedCount, this`Infected, points, queue
      ensures Valid()
      ensures Infected == old(Infected) + Reached(Neighbourhoods(old(queue.elements), groupSize), draws)
      ensures forall i :: 0 <= i < groupSize ==>
        points[i] == if old(points[i]) == 1 || i in Reached(Neighbourhoods(old(queue.elements), groupSize), draws) then 1 else 0
      ensures Grid.Distinct(infectedNow)
      ensures Sampler.Elements(infectedNow) == Infected - old(Infected)
      ensures queue.elements == infectedNow
      ensures infectedCount == old(infectedCount) + |infectedNow|
      ensures healthyCount == old(healthyCount) - |infectedNow|
      ensures Pending() == old(Pending()) - old(|queue.elements|)
      ensures timerActive == old(timerActive) && isPaused == old(isPaused)
    {
      ghost var frontier := queue.elements;
      ghost var lists := Neighbourhoods(frontier, groupSize);
      infectedNow := [];
      var queueSize := queue.Size();
      DrawsFitPrefix(lists, draws, 0);
      for k := 0 to queueSize
        invariant Valid()
        invariant queue.elements == frontier[k..] + infectedNow
        invariant DrawsFit(lists[..k], draws[..k])
        invariant Infected == old(Infected) + Reached(lists[..k], draws[..k])
        invariant Sampler.Elements(infectedNow) == Infected - old(Infected)
        invariant infectedCount == old(infectedCount) + |infectedNow|
      {
        DropFirst(frontier, k, infectedNow);
        assert lists[k] == Grid.FindNeighbours(frontier[k], groupSize);
        ghost var before := Infected;
        var added := ExpandNext(draws[k]);
        ElementsConcat(infectedNow, added);
        GrowthSplit(old(Infected), before, Infected);
        ConcatAssoc(frontier[k + 1..], infectedNow, added);
        infectedNow := infectedNow + added;
        ReachedStep(lists, draws, k);
        UnionStep(old(Infected), Reached(lists[..k], draws[..k]), Sampler.Drawn(lists[k], draws[k]), before);
      }
      assert lists[..queueSize] == lists && draws[..queueSize] == draws;
      assert frontier[queueSize..] + infectedNow == infectedNow;
    }

    /**
     Arms the periodic timer unless it is already armed; arming it switches
     the button to its playing state.
     */
    method CreateTimer()
      requires Valid()
      modifies this`timerActive, this`isPaused
      ensures Valid()
      ensures timerActive && !isPaused
      ensures old(timerActive) ==> isPaused == old(isPaused)
    {
      if !timerActive {
        timerActive := true;
        isPaused := false;
      }
    }

    /**
     Invalidates the timer if there is one; only then does the button switch
     to its paused state.
     */
    method CancelTimer()
      requires Valid()
      modifies this`timerActive, this`isPaused
      ensures Valid()
      ensures !timerActive
      ensures isPaused == (old(timerActive) || old(isPaused))
    {
      if timerActive {
        timerActive := false;
        isPaused := true;
      }
    }

    /**
     The play/pause button: resumes a paused simulation, otherwise stops the
     timer. Before the first manual infection there is no timer and the button
     does nothing.
     */
    method PauseButtonPressed()
      requires Valid()
      modifies this`timerActive, this`isPaused
      ensures Valid()
      ensures old(isPaused) ==> timerActive && !isPaused
      ensures old(timerActive) ==> !timerActive && isPaused
      ensures !old(timerActive) && !old(isPaused) ==> !timerActive && !isPaused
    {
      if isPaused {
        CreateTimer();
      } else {
        CancelTimer();
      }
    }

    /**
     A tap on the person `row`: a healthy person is infected by hand, counted,
     queued and the timer is armed; tapping an infected person does nothing.
     Manual infection moves one person from the healthy count to the queue, so
     the pending work is unchanged.
     */
    method SelectItem(row: int)
      requires Valid() && 0 <= row < groupSize
      modifies this, points, queue
      ensures Valid()
      ensures old(points[row]) != 1 ==>
        Infected == old(Infected) + {row} && row !in old(Infected)
        && points[row] == 1
        && queue.elements == old(queue.elements) + [row]
        && infectedCount == old(infectedCount) + 1 && healthyCount == old(healthyCount) - 1
        && timerActive && !isPaused
      ensures old(points[row]) == 1 ==>
        Infected == old(Infected) && queue.elements == old(queue.elements)
        && infectedCount == old(infectedCount) && healthyCount == old(healthyCount)
        && timerActive == old(timerActive) && isPaused == old(isPaused)
      ensures forall i :: 0 <= i < groupSize && i != row ==> points[i] == old(points[i])
      ensures Pending() == old(Pending())
    {
      if points[row] != 1 {
        MarkInfected(row);
        CreateTimer();
      }
    }

    /**
     One timer firing: a tick when someone is queued, otherwise the timer is
     cancelled and the simulation is over. Every tick that does work lowers the
     pending work, which cannot go below zero, so the timer is eventually cancelled.
     */
    method UpdateTimer(draws: seq<seq<nat>>) returns (infectedNow: seq<int>)
      requires Valid() && ValidTickDraws(draws)
      modifies this, points, queue
      ensures Valid()
      ensures old(queue.elements) == [] ==>
        infectedNow == [] && queue.elements == [] && Infected == old(Infected)
        && infectedCount == old(infectedCount) && healthyCount == old(healthyCount)
        && !timerActive && isPaused == (old(timerActive) || old(isPaused))
      ensures old(queue.elements) != [] ==>
        Infected == old(Infected) + Reached(Neighbourhoods(old(queue.elements), groupSize), draws)
        && Sampler.Elements(infectedNow) == Infected - old(Infected)
        && queue.elements == infectedNow
        && infectedCount == old(infectedCount) + |infectedNow|
        && healthyCount == old(healthyCount) - |infectedNow|
        && timerActive == old(timerActive) && isPaused == old(isPaused)
        && 0 <= Pending() < old(Pending())
    {
      var size := queue.Size();
      if size != 0 {
        infectedNow := Tick(draws);
        PendingBound();
      } else {
        infectedNow := [];
        CancelTimer();
      }
    }

    /** Under the invariant the pending work lies between zero and the group size. */
    lemma PendingBound()
      requires Valid()
      ensures 0 <= Pending() <= groupSize
    {
      DistinctLengthBound(queue.elements, Infected);
      IndexSetBound(Infected, groupSize);
    }
  }
}
