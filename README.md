# DungeonsAndBacons game core, in Dafny

This project models the rules core of the DungeonsAndBacons roguelike and proves properties of it:

- **`Geometry`**: the integer `Vec2` point algebra.
  - Sum, difference and negation.
  - Manhattan distance.
  - Sign normalisation.
  - Componentwise min and max.
  - Clamping into borders.
  - The 32-bit hash.
- **`World`**: map actors, the creatures among them, the grid and the game.
  - Map actors have a draw order, a lifecycle (begin game, destroy) and a snapshot record.
  - Creatures move, resolve collisions, hit and die.
  - The grid indexes actors by cell.
  - The game applies destroys and spawns once per tick.
- **`Json`** and **`Factory`**: the snapshot records, and the factory that rebuilds actors from them.
- **`Navigation`**: the breadth-first search over the grid.
  - It reuses `marks`/`dists` scratch buffers and has a distance horizon.
  - It offers the `nearest`, `pathToNearest` and `nextToNearest` queries.
- **`Layout`**: the size arithmetic of a sequential UI layout.
  - The index range it lays out.
  - The space its constant children claim.
  - How the rest of the space is split among the filling children.

### How the source's entities are represented

- **Classes for mutable entities.** Entities that the source updates in place are classes whose methods carry `modifies` clauses:
  - `World.Actor`, `World.Grid`, `World.Game` and `World.Registration`;
  - `Navigation.NavigationGraph`, whose buffers are `array<int>` and whose deque is a `seq`;
  - `Layout.SequenceLayout`.
- **Pure code as functions.** The point algebra, the factory and the draw-order comparison are functions and lemmas.
- **One actor class.** The Kotlin class tree has `MapActor`, `Creature`, `Player`, `Mob`, `WallActor` and `DropBag`. The model folds it into one `Actor` class with a `kind` tag. The creature-only state (health, attack, the grid it walks on) is meaningful when `IsCreature(kind)` holds.
- **Collaborators outside the core become parameters or stubs.**
  - The `Collision.collide` table is a function parameter `combine`.
  - The `shuffled()` order of neighbours is a function parameter that must preserve multisets, so no direction bias is assumed.
  - `CreatureStatus.damage` is taken to subtract and stop at zero.
  - The grid is a finite map from cell to the sequence of actors standing there.
  - `org.json` is a map from string keys to integer or string values.
  - The event bus becomes explicit enqueueing: a handler registration is a `Registration` object with a `finished` flag. Publishing a destroy or spawn event appends the actor once per unfinished registration of that channel.
- **Cells outside the grid are impassable.** The navigation graph's `neighbours()` does no bounds check. The model treats a cell outside the grid as impassable, and every search requires its start to be inside the grid.

### Repeated `destroy`

- A second `destroy` might be expected to be a no-op. The code (common/src/main/kotlin/kiwiband/dnb/actors/MapActor.kt:82-86) has no guard. A second call publishes the destroy event again and finishes the registration again. `World.Actor.Destroy` follows the code.

## Model

| member | source | states |
|---|---|---|
| Geometry.IsZero | common/src/main/kotlin/kiwiband/dnb/math/Vec2.kt:13 | a point is zero exactly when it is the origin |
| Geometry.PlusDisplaces | common/src/main/kotlin/kiwiband/dnb/math/Vec2.kt:17 | adding `w` moves a point by exactly the length of `w`, and leaves it in place exactly when `w` is zero |
| Geometry.Neg | common/src/main/kotlin/kiwiband/dnb/math/Vec2.kt:15 | a point plus its negation is the origin |
| Geometry.NegNeg | common/src/main/kotlin/kiwiband/dnb/math/Vec2.kt:15 | negating twice gives the point back |
| Geometry.Minus | common/src/main/kotlin/kiwiband/dnb/math/Vec2.kt:19 | the difference plus the subtrahend is the minuend |
| Geometry.PlusMinus | common/src/main/kotlin/kiwiband/dnb/math/Vec2.kt:17-19 | `(v + w) - w == v` |
| Geometry.MixMax | common/src/main/kotlin/kiwiband/dnb/math/Vec2.kt:21 | each component is an upper bound of both inputs and equals one of them |
| Geometry.MixMin | common/src/main/kotlin/kiwiband/dnb/math/Vec2.kt:23 | each component is a lower bound of both inputs and equals one of them |
| Geometry.Distance | common/src/main/kotlin/kiwiband/dnb/math/Vec2.kt:33-35 | the distance is a natural number; it is zero exactly for equal points; it bounds each coordinate difference |
| Geometry.DistanceSymmetric | common/src/main/kotlin/kiwiband/dnb/math/Vec2.kt:35 | the distance is symmetric |
| Geometry.DistanceTriangle | common/src/main/kotlin/kiwiband/dnb/math/Vec2.kt:35 | the distance obeys the triangle inequality |
| Geometry.Sign | common/src/main/kotlin/kiwiband/dnb/math/Vec2.kt:37 | the signum lies in [-1, 1] and is positive or negative exactly when its argument is; times the argument it gives the absolute value |
| Geometry.Normalize | common/src/main/kotlin/kiwiband/dnb/math/Vec2.kt:37 | each component lies in {-1, 0, 1} with the sign of the original; the result is zero (isZero) exactly when the input is |
| Geometry.NormalizedStepApproaches | common/src/main/kotlin/kiwiband/dnb/math/Vec2.kt:37 | a normalised step towards a target shortens the distance by its own length, so it is strictly shorter unless the step starts at the target |
| Geometry.Clamp | common/src/main/kotlin/kiwiband/dnb/math/Vec2.kt:44-47 | for a non-empty interval the result lies in it; a value inside is kept, and one outside goes to the nearer end |
| Geometry.FitIn | common/src/main/kotlin/kiwiband/dnb/math/Vec2.kt:44-47 | when `a <= b - 1` on both axes the result lies in `[a, b-1]`; a point already inside is returned unchanged |
| Geometry.FitInIdempotent | common/src/main/kotlin/kiwiband/dnb/math/Vec2.kt:44-47 | fitting twice is the same as fitting once |
| Geometry.FitInIncluded | common/src/main/kotlin/kiwiband/dnb/math/Vec2.kt:54-57 | when `a <= b` the result lies in the closed box `[a, b]`; a point already inside is returned unchanged |
| Geometry.Wrap32 | common/src/main/kotlin/kiwiband/dnb/math/Vec2.kt:62 | the result is in the signed 32-bit range and congruent to the input modulo 2^32 |
| Geometry.Hash | common/src/main/kotlin/kiwiband/dnb/math/Vec2.kt:62 | the hash is `0xffff * x + y` reduced modulo 2^32 into the signed 32-bit Int range |
| Geometry.HashRespectsEquality | common/src/main/kotlin/kiwiband/dnb/math/Vec2.kt:25-30 | points equal by coordinates (equals) have equal hashes; this holds because the hash is a function of the coordinates alone |
| World.TypeIdInjective | common/src/main/kotlin/kiwiband/dnb/actors/MapActorFactory.kt:16-19 | distinct actor classes carry distinct tags |
| World.Compare | common/src/main/kotlin/kiwiband/dnb/actors/MapActor.kt:95-100 | the comparison orders by view order (Background < Default < Foreground); within one view order the higher priority comes first, in both directions |
| World.CompareAsWritten | common/src/main/kotlin/kiwiband/dnb/actors/MapActor.kt:95-100 | the code's comparison: a smaller view order is negative and a larger one positive; on equal view orders the result is the signed 32-bit Int congruent to `other.viewPriority - viewPriority` |
| World.Actor.CompareTo | common/src/main/kotlin/kiwiband/dnb/actors/MapActor.kt:95-100 | the intended (corrected) comparison of `compareTo`, not the code's wrapping subtraction (see Findings): a different view order decides the sign in view-order order; on equal view orders it is negative exactly when this actor's priority is higher; it is zero exactly when both view order and priority agree |
| World.CompareReflexive | common/src/main/kotlin/kiwiband/dnb/actors/MapActor.kt:95-100 | an actor compares equal to itself |
| World.CompareAntisymmetric | common/src/main/kotlin/kiwiband/dnb/actors/MapActor.kt:95-100 | swapping the arguments flips the sign of the comparison |
| World.CompareTransitive | common/src/main/kotlin/kiwiband/dnb/actors/MapActor.kt:95-100 | the comparison is transitive |
| World.AsWrittenAgreesWhenBounded | common/src/main/kotlin/kiwiband/dnb/actors/MapActor.kt:97 | while both priorities fit in 30 bits, the 32-bit subtraction has the sign of the intended comparison |
| World.AsWrittenNotAntisymmetric | common/src/main/kotlin/kiwiband/dnb/actors/MapActor.kt:97 | with priorities 0 and Int.MIN_VALUE, each actor compares as drawn before the other |
| World.SnapshotFields | common/src/main/kotlin/kiwiband/dnb/actors/MapActor.kt:103 | the snapshot record holds `x` and `y` equal to the position and `t` equal to the class tag |
| World.Actor.ToJson | common/src/main/kotlin/kiwiband/dnb/actors/MapActor.kt:103 | the snapshot record has exactly the keys `x`, `y` and `t`, holding the position's coordinates and the class tag |
| World.Damage | src/main/kotlin/kiwiband/dnb/actors/creatures/Creature.kt:59 | the new health is never negative: it is exactly the old health minus the damage when that is not negative, and exactly zero otherwise |
| World.Relocated | src/main/kotlin/kiwiband/dnb/actors/creatures/Creature.kt:21 | after updateOne the actor is filed under its new cell and no longer under the old one; every other cell is unchanged; in the two cells involved, every other occupant stays and no other occupant appears |
| World.Survivors | src/main/kotlin/kiwiband/dnb/actors/creatures/Creature.kt:22 | filterDead keeps exactly the occupants that are not dead creatures |
| World.Grid.Add | common/src/main/kotlin/kiwiband/dnb/Game.kt:37 | the actor is appended to the cell of its position |
| World.Grid.Remove | common/src/main/kotlin/kiwiband/dnb/Game.kt:30 | the actor is taken out of the cell of its position |
| World.Grid.Relocate | src/main/kotlin/kiwiband/dnb/actors/creatures/Creature.kt:21 | the new cells are the old ones with the actor refiled from its old cell to its position |
| World.Grid.FilterDead | src/main/kotlin/kiwiband/dnb/actors/creatures/Creature.kt:22 | only the given cell changes, and it keeps its survivors |
| World.AllAllowedAppend | src/main/kotlin/kiwiband/dnb/actors/creatures/Creature.kt:35 | the accumulated `result && ...` stays true exactly while no interacted Block occupant vetoed |
| World.Actor.constructor | common/src/main/kotlin/kiwiband/dnb/actors/MapActor.kt:18-33 | a new actor is not alive, holds the game it is given (none by default) and no tick registration, keeps the given tick order, and has the Default view order with priority 0 |
| World.Actor.CollideDependsOnKinds | common/src/main/kotlin/kiwiband/dnb/actors/MapActor.kt:38 | two pairs of actors with the same collision kinds collide alike; this holds because `collide` is a function of the two kinds alone |
| World.Actor.OnBeginGame | common/src/main/kotlin/kiwiband/dnb/actors/MapActor.kt:54-58 | the actor records the game, holds a new unfinished tick registration in its own tick tier, and is alive |
| World.Actor.OnDestroy | common/src/main/kotlin/kiwiband/dnb/actors/MapActor.kt:91-93 | the tick registration, if any, is finished |
| World.Actor.Destroy | common/src/main/kotlin/kiwiband/dnb/actors/MapActor.kt:82-86 | the actor is no longer alive; its game's destroy queue grows by one copy of it per live destroy handler; its tick registration is finished; nothing else changes: only its `alive` flag, its game's destroy queue and its tick registration are in the frame |
| World.Actor.Hit | src/main/kotlin/kiwiband/dnb/actors/creatures/Creature.kt:58-61 | health becomes the damaged health, and the result says whether it is now zero |
| World.Actor.CheckDead | src/main/kotlin/kiwiband/dnb/actors/creatures/Creature.kt:63-69 | the result is `health == 0`; the tick registration is finished in that case only |
| World.Actor.BlockInteract | src/main/kotlin/kiwiband/dnb/actors/creatures/Creature.kt:45-56 | a non-creature always vetoes and is untouched; a creature is hit with the attacker's attack, and the move is allowed exactly when it is now at zero health |
| World.Actor.InteractWith | src/main/kotlin/kiwiband/dnb/actors/creatures/Creature.kt:33-40 | a Block occupant is interacted with only while nothing has vetoed; an Overlap occupant is always notified; a Pass occupant gets nothing; only a struck creature's health changes |
| World.Actor.ResolveCollision | src/main/kotlin/kiwiband/dnb/actors/creatures/Creature.kt:30-43 | every occupant is handled as above in order; the result is true exactly when no interacted Block occupant vetoed (so it is true for an empty cell); only the occupants' health can change |
| World.Actor.Step | src/main/kotlin/kiwiband/dnb/actors/creatures/Creature.kt:20-22 | the allowed half of a move: the position advances by the direction and the grid becomes the old grid with the creature refiled and the dead dropped from its new cell |
| World.Actor.Move | src/main/kotlin/kiwiband/dnb/actors/creatures/Creature.kt:17-24 | the creature moves exactly when the collision pass allows it; then its position is the old one plus the direction, and the grid has it refiled with the dead creatures dropped from the target cell; on a veto neither position nor grid changes |
| World.Actor.MoveTo | src/main/kotlin/kiwiband/dnb/actors/creatures/Creature.kt:26 | the occupants of the cell one normalised step towards the target are resolved as in `resolveCollision`; the creature moves exactly when that allows it, and then it steps by the normalised difference, strictly approaches the target, and the grid has it refiled with the dead creatures dropped from the target cell; a veto changes neither position nor grid |
| World.ResolveDirection | src/main/kotlin/kiwiband/dnb/actors/creatures/Creature.kt:28 | the direction is the sign-normalised difference: on each axis it is positive, negative or zero exactly as the target's coordinate is greater than, less than or equal to the current one; so it never leads away from the target, and it leads strictly closer unless already there |
| World.RemoveAllAbsent | common/src/main/kotlin/kiwiband/dnb/Game.kt:28-33 | after the destroys, every destroyed actor is gone from the cell it stood on |
| World.RemoveAllShrinks | common/src/main/kotlin/kiwiband/dnb/Game.kt:28-33 | removal never adds an actor to any cell |
| World.AddAllPresent | common/src/main/kotlin/kiwiband/dnb/Game.kt:35-41 | after the spawns, every spawned actor stands in the cell of its position |
| World.AddAllKeeps | common/src/main/kotlin/kiwiband/dnb/Game.kt:35-41 | spawning keeps every actor already in a cell (membership); in the model's append stub they also stay in front |
| World.TickLeavesOtherCells | common/src/main/kotlin/kiwiband/dnb/Game.kt:22-41 | a tick leaves every cell that no destroy or spawn request names as it was |
| World.Game.constructor | common/src/main/kotlin/kiwiband/dnb/Game.kt:15-20 | the clock starts at 0 and the queues and registrations are empty |
| World.Game.PublishDestroy | common/src/main/kotlin/kiwiband/dnb/Game.kt:46 | a destroy request only appends the actor to the destroy queue, once per live destroy handler; the grid is untouched |
| World.Game.PublishSpawn | common/src/main/kotlin/kiwiband/dnb/Game.kt:47 | a spawn request only appends the actor to the spawn queue, once per live spawn handler; the grid is untouched |
| World.Game.DestroyActors | common/src/main/kotlin/kiwiband/dnb/Game.kt:28-33 | the grid loses each queued actor in queue order, and the queue is emptied |
| World.Game.Enter | common/src/main/kotlin/kiwiband/dnb/Game.kt:37-38 | one turn of the spawn loop: the grid gains the actor in the cell of its position, it begins the game with a newly created tick registration, and the actors handled before it stay begun |
| World.Game.EnterAll | common/src/main/kotlin/kiwiband/dnb/Game.kt:36-39 | the grid gains each queued actor in queue order and each has begun the game (alive, with this game and a live tick registration); no position changes |
| World.Game.SpawnActors | common/src/main/kotlin/kiwiband/dnb/Game.kt:35-41 | the grid gains each queued actor in queue order; each has begun the game (alive, with this game and a live tick registration); no position changes; the queue is emptied |
| World.Game.OnTick | common/src/main/kotlin/kiwiband/dnb/Game.kt:22-26 | the clock advances by exactly one; all pending destroys are applied before all pending spawns; both queues end empty |
| World.Game.StartGame | common/src/main/kotlin/kiwiband/dnb/Game.kt:45-50 | three new unfinished registrations are appended, in this order: destroy, spawn, then tick in the BEFORE_DRAW_UI tier; every actor already on the grid has begun the game; only the registrations and the grid actors' game, tick registration and `alive` are in the frame |
| World.Game.EndGame | common/src/main/kotlin/kiwiband/dnb/Game.kt:55-57 | every registration the game recorded is finished |
| Json.GetInt | common/src/main/kotlin/kiwiband/dnb/actors/MapActorFactory.kt:13-14 | an integer field is read exactly when present with integer type; a missing key is a MissingKey error |
| Json.GetString | common/src/main/kotlin/kiwiband/dnb/actors/MapActorFactory.kt:15 | a string field is read exactly when present with string type; a missing key is a MissingKey error |
| Factory.TagKind | common/src/main/kotlin/kiwiband/dnb/actors/MapActorFactory.kt:15-20 | a tag selects exactly the class whose TYPE_ID it is, and nothing when it is no class's tag |
| Factory.CreateMapActor | common/src/main/kotlin/kiwiband/dnb/actors/MapActorFactory.kt:12-22 | the factory succeeds exactly on records with integer `x`, `y` and a string `t`; missing coordinates are an error; a built actor's class is the one its tag names; an unknown tag builds nothing; the wall tag builds a wall at `(x, y)` |
| Factory.UnknownTagYieldsNothing | common/src/main/kotlin/kiwiband/dnb/actors/MapActorFactory.kt:20 | a well-formed record with an unknown tag gives `null`, not an error |
| Factory.MissingCoordinatesFail | common/src/main/kotlin/kiwiband/dnb/actors/MapActorFactory.kt:13-15 | a record without `x` fails on `x`, whatever its tag |
| Factory.KindDeterminedByTag | common/src/main/kotlin/kiwiband/dnb/actors/MapActorFactory.kt:15-20 | two well-formed records with the same tag build the same class, or both build nothing |
| Factory.SnapshotRoundTrip | common/src/main/kotlin/kiwiband/dnb/actors/MapActorFactory.kt:13-16 | the snapshot of any class at any position, fed back to the factory, builds that class; a wall comes back at the same position |
| Factory.ActorRoundTrip | common/src/main/kotlin/kiwiband/dnb/actors/MapActor.kt:103 | the same round trip from a live actor's toJSON |
| Navigation.GetId | src/main/kotlin/kiwiband/dnb/map/NavigationGraph.kt:81 | ids are row-major: for `0 <= x < width` the id divided by the width is `y` and the remainder is `x` |
| Navigation.Passable | src/main/kotlin/kiwiband/dnb/map/NavigationGraph.kt:96-97 | a cell passes checkCell exactly when it is inside the grid and each of its Block occupants is a creature; an empty cell inside the grid passes |
| Navigation.IdInRange | src/main/kotlin/kiwiband/dnb/map/NavigationGraph.kt:81 | a cell inside the grid has an id that indexes the `width * height` buffers |
| Navigation.ToVec2 | src/main/kotlin/kiwiband/dnb/map/NavigationGraph.kt:73-76 | for a non-negative id, the id of the computed cell is the id converted |
| Navigation.IdRoundTrip | src/main/kotlin/kiwiband/dnb/map/NavigationGraph.kt:73-81 | `toVec2M(getId(x, y)) == (x, y)` for `0 <= x < width` and `0 <= y` |
| Navigation.Neighbours | src/main/kotlin/kiwiband/dnb/map/NavigationGraph.kt:83-90 | every neighbour is 4-adjacent and passes checkCell: every occupant is non-Block or a creature |
| Navigation.NeighboursComplete | src/main/kotlin/kiwiband/dnb/map/NavigationGraph.kt:83-97 | every 4-adjacent cell that passes checkCell is among the neighbours |
| Navigation.TreeGrows | src/main/kotlin/kiwiband/dnb/map/NavigationGraph.kt:52-57 | discovering an unmarked passable neighbour with `dist = parent dist + 1` keeps the parent pointers a tree of adjacent passable cells rooted at the start |
| Navigation.WalkLengthBound | src/main/kotlin/kiwiband/dnb/map/NavigationGraph.kt:63-71 | a walk of adjacent cells is at least as long as the distance between its ends |
| Navigation.NavigationGraph.constructor | src/main/kotlin/kiwiband/dnb/map/NavigationGraph.kt:10-12 | both buffers have `width * height` entries, all -1, and the deque is empty |
| Navigation.NavigationGraph.Id | src/main/kotlin/kiwiband/dnb/map/NavigationGraph.kt:81 | a cell inside the grid has an id inside the buffers |
| Navigation.NavigationGraph.Reset | src/main/kotlin/kiwiband/dnb/map/NavigationGraph.kt:34-36 | every mark and distance is -1 and the deque is empty |
| Navigation.NavigationGraph.Begin | src/main/kotlin/kiwiband/dnb/map/NavigationGraph.kt:34-42 | only the start is marked (as its own parent, at distance 0) and the deque holds just the start, so no earlier query's buffers survive; the deque is trivially ordered by distance |
| Navigation.NavigationGraph.Discover | src/main/kotlin/kiwiband/dnb/map/NavigationGraph.kt:52-57 | an unmarked neighbour is appended to the deque and leaves the undiscovered set, with the current cell as parent and one more than its distance; a marked one changes nothing; the tree is kept |
| Navigation.NavigationGraph.Visit | src/main/kotlin/kiwiband/dnb/map/NavigationGraph.kt:52-57 | one turn of the neighbour loop: a neighbour undiscovered so far is appended to the deque with the current cell as parent at one more than its distance; every other mark and distance is unchanged |
| Navigation.NavigationGraph.Pop | src/main/kotlin/kiwiband/dnb/map/NavigationGraph.kt:43 | `pollFirst` takes the head of the deque; a popped cell is discovered and no nearer than the cells popped before it; every discovered cell nearer than it was popped before it; the deque stays ordered by distance within two adjacent layers |
| Navigation.NavigationGraph.Expand | src/main/kotlin/kiwiband/dnb/map/NavigationGraph.kt:51-58 | the deque gains exactly the newly discovered neighbours, in the shuffled order; they get the cell as parent at one more than its distance; every other mark and distance is unchanged; the tree and the layering by distance are kept, and the number of undiscovered plus queued cells does not grow |
| Navigation.NavigationGraph.NewlyCount | src/main/kotlin/kiwiband/dnb/map/NavigationGraph.kt:51-58 | the neighbours newly discovered by one expansion are as many as leave the undiscovered set |
| Navigation.NavigationGraph.NewlyIds | src/main/kotlin/kiwiband/dnb/map/NavigationGraph.kt:51-58 | a neighbour is newly discovered exactly when its id leaves the undiscovered set in that expansion |
| Navigation.NavigationGraph.LayeredGrow | src/main/kotlin/kiwiband/dnb/map/NavigationGraph.kt:51-58 | appending the newly discovered cells, each at one more than the current layer, keeps the deque ordered by distance within two adjacent layers |
| Navigation.NavigationGraph.NoneCloser | src/main/kotlin/kiwiband/dnb/map/NavigationGraph.kt:42-48 | when every discovered cell nearer than the popped one was popped before and none of those satisfied the goal, no discovered cell nearer than the popped one satisfies it |
| Navigation.NavigationGraph.Bfs | src/main/kotlin/kiwiband/dnb/map/NavigationGraph.kt:33-61 | the search ends with a parent tree rooted at the start; a returned cell is inside the grid, discovered, within `maxDistance` of the start, and satisfies the goal; a start that satisfies a nearest-goal is returned itself; a cell returned for a nearest-goal has the least distance among the discovered cells that satisfy it |
| Navigation.NavigationGraph.FindPath | src/main/kotlin/kiwiband/dnb/map/NavigationGraph.kt:63-71 | the path runs from the target back towards the start; it excludes the start; consecutive entries are 4-adjacent and passable; its length is `dists[target]` |
| Navigation.NavigationGraph.NearestCell | src/main/kotlin/kiwiband/dnb/map/NavigationGraph.kt:29-31 | a returned cell satisfies `f`, is within `maxDistance`, and is passable unless it is the start; a start satisfying `f` is returned; no discovered cell satisfying `f` has a smaller distance than the one returned |
| Navigation.NavigationGraph.PathToNearest | src/main/kotlin/kiwiband/dnb/map/NavigationGraph.kt:15-18 | the path is a walk of adjacent passable cells ending next to the start; its first cell satisfies `f` within `maxDistance` and is at most the path's length away; when the start satisfies `f` the path is empty; no discovered cell satisfying `f` is at a smaller distance than the path's length |
| Navigation.NavigationGraph.NextToAdjacent | src/main/kotlin/kiwiband/dnb/map/NavigationGraph.kt:22-25 | the nextToNearest condition holds at a cell exactly when some 4-adjacent passable cell reached at a distance strictly between 0 and the cell's own satisfies `f` |
| Navigation.NavigationGraph.NextToNearest | src/main/kotlin/kiwiband/dnb/map/NavigationGraph.kt:20-27 | the search runs to `maxDistance + 1`; a returned cell has a neighbour reached at a distance strictly between 0 and its own that satisfies `f` |
| Layout.FillCount | client/src/main/kotlin/kiwiband/dnb/ui/views/layout/SequenceLayout.kt:64-69 | there are never more filling children than children |
| Layout.NoFillIffAllConstant | client/src/main/kotlin/kiwiband/dnb/ui/views/layout/SequenceLayout.kt:64-69 | there is no filling child exactly when every child has a constant size |
| Layout.KnownAdditive | client/src/main/kotlin/kiwiband/dnb/ui/views/layout/SequenceLayout.kt:57-70 | the known size and the fill count of consecutive children are the sums over each part |
| Layout.AllFillKnowsPadding | client/src/main/kotlin/kiwiband/dnb/ui/views/layout/SequenceLayout.kt:62-68 | a filling child's own size never counts: with only filling children the known size is the padding alone |
| Layout.Distribute | client/src/main/kotlin/kiwiband/dnb/ui/views/layout/SequenceLayout.kt:71-74 | with `k > 0` filling children, `fillChildSize * k + fatChildrenCount` is the retained size `max(main - known, 0)`, with `0 <= fatChildrenCount < k`; with none both are 0 |
| Layout.SequenceLayout.constructor | client/src/main/kotlin/kiwiband/dnb/ui/views/layout/SequenceLayout.kt:19 | the limits start as `0..Int.MAX_VALUE` and there are no children |
| Layout.SequenceLayout.SetLimits | client/src/main/kotlin/kiwiband/dnb/ui/views/layout/SequenceLayout.kt:19 | setting the limits changes only them |
| Layout.SequenceLayout.Range | client/src/main/kotlin/kiwiband/dnb/ui/views/layout/SequenceLayout.kt:47 | an index is in the range exactly when it is a valid child index within the limits |
| Layout.SequenceLayout.Laid | client/src/main/kotlin/kiwiband/dnb/ui/views/layout/SequenceLayout.kt:47 | the children laid out are those of the range, in order |
| Layout.SequenceLayout.AddChild | client/src/main/kotlin/kiwiband/dnb/ui/views/layout/SequenceLayout.kt:23-28 | exactly one child is appended at the end, and the earlier children are unchanged |
| Layout.SequenceLayout.SetSize | client/src/main/kotlin/kiwiband/dnb/ui/views/layout/SequenceLayout.kt:50-54 | the layout and its controller both take the new size |
| Layout.SequenceLayout.UpdateSize | client/src/main/kotlin/kiwiband/dnb/ui/views/layout/SequenceLayout.kt:56-76 | the request covers the range; its fill size and fat count split the main size left over after the laid-out children's main-axis padding and constant sizes among the filling children |

## Left out

- **The rest of the repository.** The network, threads, terminal input, rendering, activities and session glue are not part of this model. Neither is `SequenceLayout.draw`.
- **`onBlock`, `onOverlap` and `onTick` overrides.** These are open hooks, empty in the core. `World.Actor.InteractWith` records that an Overlap occupant was notified but models no effect of the notification.
- **The tick event itself.** The handler dispatch of the event bus is not modelled; `World.Game.OnTick` is the handler's body.
- **Creature debug output.** The debug `println` calls in `blockInteract` are left out.
- **The grid's internal ordering.** The actors of a cell are a sequence. The sorted order the real grid keeps (by `compareTo`) is not modelled.
- **What `filterDead` triggers.** `filterDead` is modelled as removing dead creatures from one cell. Whatever else the unseen grid does while filtering is not modelled.
- **`fromJSON` of the other classes.** `Player`/`Mob`/`DropBag.fromJSON` are outside the core. `Factory.CreateMapActor` returns the decoded class with its record instead of a built object.
- **The `TYPE_ID` values.** They are not in the core sources. The model uses distinct placeholder strings.
- **org.json coercions.** The snapshot format is modelled as a map of integers and strings. org.json's coercions are not modelled; for example, `getInt` would also accept the numeric string `"5"`.
- **The controller.** The direction controller is abstract in the source, so two things are unmodelled:
  - `ChooseDimension` takes the width on the horizontal axis and the height on the vertical one;
  - `resizeChildren` is represented by the request `Layout.SequenceLayout.UpdateSize` returns.
- **What `addChild` does after appending.** `addChild` calls `resize` of the unseen `Layout` base class after appending. `Layout.SequenceLayout.AddChild` models only the append. Likewise `setSize` first calls `setSize` of the unseen base class; `Layout.SequenceLayout.SetSize` models only the layout's own size and the controller's, not whatever else that call does.
- Geometry.Distance: 32-bit overflow is not modelled. The same goes for the other `Vec2` operations, the layout sums and the navigation ids: coordinates, sizes and ids are unbounded integers. Only `hashCode` and `compareTo` model 32-bit arithmetic. There too the wrap-around matters only for extreme coordinates (beyond about 32767 in magnitude) and extreme priorities (outside 30 bits, see `World.AsWrittenAgreesWhenBounded`); it is modelled because the comparison finding below depends on it and the hash is stated as a value.
- Navigation.NavigationGraph.Bfs: a returned cell is proved to have the least distance among the DISCOVERED cells that satisfy the goal. That every cell reachable within that distance was discovered (breadth-first completeness) is not proved, so nearness is over the search tree built so far. Termination within `width * height` expansions is proved, through the decreasing count of undiscovered plus queued cells, but it is not an `ensures`.
- Navigation.NavigationGraph.Bfs: a start outside the grid is excluded by a precondition. In the source `getId` does not check bounds: a start whose id leaves `[0, width * height)` indexes the buffers out of range, and one whose id stays inside (for example `(width, 0)` with a height of 2 or more, whose id is that of `(0, 1)`) silently searches from the aliased cell.
- World.Game.SpawnActors: does not state that every spawned actor's tick registration is a newly created object; `World.Game.EnterAll` and `World.Game.OnTick` leave it out too. `World.Game.Enter` states it for one actor at a time.
- Navigation.NavigationGraph.NearestCell: nearness is over the discovered cells only, as for `Navigation.NavigationGraph.Bfs`.
- Navigation.NavigationGraph.PathToNearest: the length bound is over the discovered cells only, as for `Navigation.NavigationGraph.Bfs`.
- Navigation.NavigationGraph.NextToNearest: the horizon `maxDistance + 1` is computed on unbounded integers. In Kotlin it wraps to Int.MIN_VALUE when `maxDistance` is Int.MAX_VALUE, and the search then returns null at once, since the start's distance 0 already exceeds the horizon.
- World.Actor.ResolveCollision: requires the occupants of the target cell to be pairwise distinct, and so do `World.Actor.Move` and `World.Actor.MoveTo`. The model states one outcome per occupant against the health before the pass. An actor filed twice in one cell would be struck twice in the source, and the grid's add and spawn do not rule that out; that case is not modelled.
- Geometry.Clamp: `MyMath.clamp` is not part of this model. Its behaviour is assumed to be the usual clamp: below `lo` gives `lo`, above `hi` gives `hi`, otherwise the value; for an empty interval this gives `lo` when `x < lo` and `hi` otherwise, which the real helper may not match.
- World.AddAllKeeps: the earlier actors staying in front of a cell is a property of the model's append stub. The real grid keeps each cell sorted by `compareTo`, so a spawned actor that sorts first goes in front there; only the membership part holds of the source.
- World.Actor.Move: a target cell outside the grid is an empty cell in this model, so a creature at the edge of the map steps off it and nothing vetoes. The same applies to `World.Actor.MoveTo`. What the unseen `map.getActors` returns out of range is not part of this model, and `Navigation` treats off-grid cells as impassable instead.
- **The shared neighbour list.** The static list that `neighbours()` reuses is modelled as a fresh sequence per call.

## Findings

| source | as written | input that shows it | evidently intended | confidence | as-written member | corrected member |
|---|---|---|---|---|---|---|
| common/src/main/kotlin/kiwiband/dnb/actors/MapActor.kt:97 | on equal view orders, `compareTo` returns `other.viewPriority - viewPriority` in 32-bit arithmetic, which wraps around | two Default actors with priorities 0 and Int.MIN_VALUE: both `a.compareTo(b)` and `b.compareTo(a)` are Int.MIN_VALUE, so each sorts before the other | higher priority first, with a comparison that is antisymmetric and transitive for every pair of priorities | not executed | World.AsWrittenNotAntisymmetric | World.Compare, World.Actor.CompareTo |
