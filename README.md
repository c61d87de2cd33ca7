# Epidemic spread simulation: a verified model of the engine

The app shows a group of people as a grid that is fifteen people wide. The
user taps people to infect them. A periodic timer then spreads the infection.
On each firing, every person queued since the previous firing infects up to
`infectionFactor` random grid neighbours. The newly infected are queued for the
next firing. When the queue is empty, the timer stops.

This project models that engine in Dafny:

- `queue.dfy`, module `Queues`: the generic FIFO `Queue<T>`. Its one field is
  the stored list, which `Push`, `Pop`, `Clear` and `Size` read and update in
  place.
- `grid.dfy`, module `Grid`: the neighbour resolver and its four border checks,
  as pure functions.
  - `Row` and `Column` use Swift's truncating `/` and `%`.
  - `FindNeighbours` appends its blocks in the order the source does.
  - The lemmas prove that the resolver returns exactly the clipped
    eight-neighbourhood of a person, without duplicates, and that the relation
    is symmetric.
- `sampler.dfy`, module `Sampler`: the transmission sampler.
  - The random generator becomes a list of draws, one per unit of infection
    factor.
  - `InfectNeighbours` keeps the source's loop.
  - `Drawn` is its specification.
- `simulation.dfy`, module `Simulation`: the controller's engine state as a
  class.
  - It holds the `points` array (0 healthy, 1 infected), the frontier queue, the
    two counters, and the timer reduced to two flags: "armed" and "button shows
    paused".
  - A ghost set `Infected` mirrors the entries equal to 1.
  - `Valid()` ties the state together:
    - the counters add up to the group size;
    - `infectedCount` is the number of infected people;
    - everyone queued is infected and queued once;
    - an armed timer means the button is not paused.
  - `Tick` is the body of `automaticInfection`. It is proved against `Reached`,
    the set of people that the draws of the people queued at the start of the
    tick pick.
  - `UpdateTimer`, `SelectItem` and the timer methods follow the source's
    branches.
- `scenario.dfy`, module `Scenario`: a complete run on four people in one row.
  One manual tap and five timer firings infect everyone and stop the timer.

Randomness is a parameter. Each timer firing receives, for each queued person,
the indices that `Int.random` would have returned.

Notes on how the code behaves:

- Person 16 of a group of 30 sits in the last row. The resolver gives them five
  neighbours, not eight (`Grid.LastRowExample`).
- Whenever the orthogonal neighbour needed to reach a diagonal is missing, the
  diagonal neighbour is also outside the group. So the resolver never misses a
  diagonal neighbour (`Grid.NeighbourComplete`).
- The simulation has no "finished" state. An empty queue only cancels the
  timer. Pressing play re-arms it, and so does a later tap.

## Model

| member | source | states |
|---|---|---|
| Queues.Queue.constructor | vk_test/Models/Queue.swift:3-4 | a queue starts out holding exactly the given list |
| Queues.Queue.Push | vk_test/Models/Queue.swift:6-8 | the element is appended at the back, earlier elements keep their places and order, and the size grows by one |
| Queues.Queue.Pop | vk_test/Models/Queue.swift:10-16 | on a non-empty queue, returns the front element and removes exactly it, so the size drops by one; on an empty queue, returns nothing and leaves the queue empty |
| Queues.Queue.Clear | vk_test/Models/Queue.swift:18-20 | the queue is empty afterwards |
| Queues.Queue.Size | vk_test/Models/Queue.swift:22-24 | the number of stored elements; zero exactly when the queue is empty |
| Queues.PushAllThenPopAll | vk_test/Models/Queue.swift:6-16 | first in, first out: the elements pushed onto an empty queue come out of pop in the order they went in, and the queue is empty afterwards |
| Grid.Row | vk_test/Controllers/SimulationViewController.swift:347 | the row is the quotient of division by 15 truncated toward zero: for a non-negative index the remainder left over lies in [0, 15), for a negative one in (-15, 0] |
| Grid.Column | vk_test/Controllers/SimulationViewController.swift:336 | the column is the remainder modulo 15, which is the usual remainder for non-negative indices and is always strictly between -15 and 15 |
| Grid.CheckLeftBorder | vk_test/Controllers/SimulationViewController.swift:335-338 | for a non-negative index, true exactly when the previous index exists and lies in the same row |
| Grid.CheckRightBorder | vk_test/Controllers/SimulationViewController.swift:340-344 | for a non-negative index, true exactly when the next index is in the group and lies in the same row |
| Grid.CheckTopBorder | vk_test/Controllers/SimulationViewController.swift:346-349 | for a non-negative index, true exactly when the index one row up is non-negative |
| Grid.BottomBorderMeaning | vk_test/Controllers/SimulationViewController.swift:351-354 | the bottom check holds exactly when a member of the group sits in the next row, in the same column |
| Grid.NeighbourSound | vk_test/Controllers/SimulationViewController.swift:302-333 | every index the resolver returns for a person of the group is a different person of the group, at most one row and one column away |
| Grid.NeighbourComplete | vk_test/Controllers/SimulationViewController.swift:302-333 | every different person of the group at most one row and one column away is returned, including every diagonal neighbour |
| Grid.NeighbourIff | vk_test/Controllers/SimulationViewController.swift:302-354 | an index is among a person's neighbours if and only if it is in the clipped eight-neighbourhood |
| Grid.NeighboursDistinct | vk_test/Controllers/SimulationViewController.swift:302-333 | the resolver never lists an index twice |
| Grid.NeighbourRange | vk_test/Controllers/SimulationViewController.swift:302-354 | at most eight neighbours, each in the group and different from the person |
| Grid.NeighbourSymmetric | vk_test/Controllers/SimulationViewController.swift:302-354 | if q is a neighbour of p then p is a neighbour of q |
| Grid.CornerExample | vk_test/Controllers/SimulationViewController.swift:302-333 | in a group of 30, person 0 has neighbours 15, 16 and 1, in that order |
| Grid.LastPersonExample | vk_test/Controllers/SimulationViewController.swift:302-333 | in a group of 30, person 29 has neighbours 28, 13 and 14 |
| Grid.LastRowExample | vk_test/Controllers/SimulationViewController.swift:302-333 | in a group of 30, person 16 has the five neighbours 15, 0, 1, 2 and 17 |
| Grid.InteriorExample | vk_test/Controllers/SimulationViewController.swift:302-333 | an interior person has all eight neighbours, in the resolver's order |
| Grid.LonePersonExample | vk_test/Controllers/SimulationViewController.swift:302-333 | a group of one has no neighbours |
| Sampler.InfectNeighbours | vk_test/Controllers/SimulationViewController.swift:288-300 | the infected set is the set of neighbours the draws pick. It holds only neighbours, who are in the group and are not the person. It has at most `infectionFactor` members and at most as many as there are neighbours, and it is empty when the factor is 0 or there is no neighbour |
| Sampler.DrawnMembers | vk_test/Controllers/SimulationViewController.swift:293-297 | a neighbour is picked if and only if some draw points at them |
| Sampler.DrawnBounds | vk_test/Controllers/SimulationViewController.swift:293-297 | the picked people are neighbours, and there are no more of them than draws |
| Sampler.DrawnCovers | vk_test/Controllers/SimulationViewController.swift:293-297 | when the draws hit every position of the neighbour list, every neighbour is picked |
| Simulation.ReachedStep | vk_test/Controllers/SimulationViewController.swift:265-267 | expanding one more queued person adds exactly the people that person's draws pick |
| Simulation.ReachedMembers | vk_test/Controllers/SimulationViewController.swift:265-276 | a person is reached by a tick if and only if the draws of some person queued at its start picked them |
| Simulation.ReachedNeighbours | vk_test/Controllers/SimulationViewController.swift:265-276 | everyone a tick reaches is in the group and is a grid neighbour of someone queued at its start |
| Simulation.Controller.constructor | vk_test/Controllers/SimulationViewController.swift:147-152 | everyone is healthy, the queue is empty, the healthy count is the group size and the infected count 0, and the timer is off and not paused; the invariant holds |
| Simulation.Controller.MarkInfected | vk_test/Controllers/SimulationViewController.swift:270-274 | a healthy person's entry becomes 1, they are queued once at the back, and one person moves from the healthy to the infected count; no other entry changes and the invariant is kept. A tap performs the same steps, at lines 234 and 357-359 |
| Simulation.Controller.InfectIfHealthy | vk_test/Controllers/SimulationViewController.swift:269-275 | a sampled person who is healthy is infected, counted and queued; an infected one is left alone |
| Simulation.Controller.InfectSampled | vk_test/Controllers/SimulationViewController.swift:268-276 | after handling every sampled person, the infected set has grown by exactly the sampled set. The list of people added holds exactly the sampled people who were healthy, and it is what was appended to the queue. The infected count grows by its length |
| Simulation.Controller.ExpandNext | vk_test/Controllers/SimulationViewController.swift:266-277 | the front person leaves the queue. Exactly the people their draws pick become infected. The newly infected are appended to the rest of the queue |
| Simulation.Controller.Tick | vk_test/Controllers/SimulationViewController.swift:261-278 | the tick expands exactly the people queued at its start, and those it infects are not expanded in the same tick. An entry of `points` is 1 afterwards exactly when it was 1 before or the person was reached, so entries only go from 0 to 1. The returned list holds the newly infected without duplicates and is the new queue. The counters move by its length and still add up to the group size. The pending work drops by the old queue length. The timer is untouched |
| Simulation.Controller.SelectItem | vk_test/Controllers/SimulationViewController.swift:230-237 | tapping a person whose entry is not 1 infects them, queues them once, moves one person from healthy to infected, and leaves the timer armed and the button not paused. Tapping an infected person changes nothing. In both cases the pending work is unchanged |
| Simulation.Controller.CreateTimer | vk_test/Controllers/SimulationViewController.swift:366-380 | afterwards the timer is armed and the button is not paused; an armed timer is left as it was |
| Simulation.Controller.CancelTimer | vk_test/Controllers/SimulationViewController.swift:391-398 | afterwards no timer is armed; the button switches to paused only when a timer was armed |
| Simulation.Controller.UpdateTimer | vk_test/Controllers/SimulationViewController.swift:382-389 | with an empty queue, it only cancels the timer. Otherwise it runs a tick with that tick's whole contract. The pending work, which stays non-negative, then strictly decreases, so the timer is eventually cancelled |
| Simulation.Controller.PauseButtonPressed | vk_test/Controllers/SimulationViewController.swift:129-136 | a paused simulation is resumed and a running one is paused; with no timer and no pause, nothing changes; the invariant is kept |
| Simulation.Controller.PendingBound | vk_test/Controllers/SimulationViewController.swift:384-388 | under the invariant the pending work, healthy people plus queued people, lies between 0 and the group size |
| Scenario.SingleDrawTick | vk_test/Controllers/SimulationViewController.swift:263-276 | with one queued person and one draw, the drawn neighbour ends up infected. They are the only one queued when they were healthy, and the queue is empty otherwise |
| Scenario.FourInARow | vk_test/Controllers/SimulationViewController.swift:230-398 | four people in a row, factor one, person 0 tapped: after five timer firings with fixed draws, nobody is healthy, four are infected, the timer is off and the button shows paused |

## Left out

- The user interface is not modelled. This covers the collection view, the labels, the navigation bar, the `reloadItems` calls and the label text computed in `didSelectItemAt`. They are rendering only.
- The multi-selection `setEditing` path (SimulationViewController.swift:120-127) is not modelled. It sets entries of `points` to 1 without changing the counters or the queue. That would break the invariant that `infectedCount` is the number of entries equal to 1.
- `DispatchQueue` concurrency is not modelled. The source runs a tick on a background queue while taps arrive on the main thread; the model runs a tick as one atomic step.
- The `Timer` object, `RunLoop`, the float period and the tolerance are not modelled. They are OS scheduling; the model keeps only whether a timer is armed.
- `Int.random` is replaced by the `draws` parameter: one list of indices per queued person, each index within range. The distribution is not modelled.
- The configuration screen (MainViewController.swift) is not modelled. Only its range check (line 195) survives, as the constructor's precondition: `0 <= groupSize <= 1000000` and `infectionFactor >= 0`.
- A missing delegate (`simulationInfo?.groupSize ?? 0`) is not modelled separately. It amounts to constructing the controller with group size 0.
- `viewDidDisappear` cancelling the timer is a lifecycle hook. It is covered by `CancelTimer`.
- The order in which Swift iterates a `Set` is unspecified. The inner loop of a tick therefore picks any unhandled sampled person. The contracts state what holds for every order: the set of people infected, and a duplicate-free list of them.
- `automaticInfection` tests `points[i] == 0` and `didSelectItemAt` tests `points[row] != 1`. Under the invariant, entries are only ever 0 or 1, so both tests mean "healthy".
