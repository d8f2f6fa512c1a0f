# CBISFMLEngine core, modelled in Dafny

A model of the core of the CompuBrite SFML engine. The centre is the collision system:
- the three-tier narrowing test `didCollide` (world bounding boxes, oriented boxes, separating axes);
- the handler registry keyed by an unordered pair of entity types, with an orientation flag;
- the pairwise scan `checkCollisions`.

Around it sit the engine's small bookkeeping structures:
- the two-way membership between systems and entities;
- an entity's children grouped into z-levels;
- the typed property store;
- the state stack and its states;
- the event table;
- the task queue;
- the resource registry.

Coordinates are reals. SFML's `FloatRect::intersects`, `FloatRect::contains` and `Transform::getInverse` are written out as SFML 2.x defines them:
- `intersects` needs strict overlap on min/max-normalised rectangles, and writes an all-zero rectangle when there is none;
- `contains` is half-open;
- `getInverse` gives the identity for a singular transform.

Entity identity is a number `id`, and an entity's dynamic type is a number `kind`. Numeric order on `kind` stands for the order of `type_info` pointers.

Modules:
- `Wrappers` and `Seqs` hold the shared helpers: `Option`, first-occurrence search and removal.
- `Geometry` holds rectangles and affine transforms.
- `Narrowing` models `didCollide` and `satRectangleAndPoints`.
- `Handlers` models `addHandler`, `find`, `handleCollision` and `Dispatcher`.
- `Scan` models `checkCollisions` and `update`.
- `Membership` models `ISystem` and `IEntity` membership.
- `SceneTree` models `IEntity` children and the update order.
- `Properties` models `PropertyManager`.
- `States` models `State` and `StateStack`.
- `Events` models `EventLess` and `EventManager`.
- `Tasks` models `TaskQueue`.
- `Resources` models `ResourceManager`.

## Model

| member | source | states |
|---|---|---|
| Geometry.Intersects | src/CompuBrite/SFML/CollisionSystem.cpp:113 | on a hit the overlap has positive width and height and contains exactly the points both rectangles contain; otherwise it is the all-zero rectangle |
| Geometry.IntersectsSymmetric | src/CompuBrite/SFML/CollisionSystem.cpp:113 | the bounding-box test and its rectangle do not depend on argument order |
| Geometry.SharedPointIntersects | src/CompuBrite/SFML/CollisionSystem.cpp:113 | two rectangles that both contain some point are reported as intersecting |
| Geometry.Contains | src/CompuBrite/SFML/CollisionSystem.cpp:161-169 | containment is half-open: a rectangle without area contains nothing, a point on the right or bottom edge is outside, and the top-left corner of a rectangle with area is inside |
| Geometry.Inverse | src/CompuBrite/SFML/CollisionSystem.cpp:122-123 | a singular transform inverts to the identity; for an invertible one the result undoes it (InverseUndoes) |
| Geometry.RightInverse | src/CompuBrite/SFML/CollisionSystem.cpp:122-123 | for a non-singular transform, applying the inverse and then the transform returns every point |
| Geometry.InverseUndoes | src/CompuBrite/SFML/CollisionSystem.cpp:120-123 | for a non-singular transform, the inverse maps every transformed point back to itself |
| Narrowing.Corners | src/CompuBrite/SFML/CollisionSystem.cpp:127-159 | four points, one per corner, listed bottom-left, bottom-right, top-right, top-left as the point arrays are; their frame meaning is stated by CornersInOtherFrame |
| Narrowing.CornersInOtherFrame | src/CompuBrite/SFML/CollisionSystem.cpp:120-159 | for an invertible target transform, each tested point taken back to the world by the target's transform is the matching corner (0,h), (w,h), (w,0), (0,0) of the source body's local size under the source body's transform |
| Narrowing.CornersInOwnFrame | src/CompuBrite/SFML/CollisionSystem.cpp:120-159 | with an invertible transform, a body's corners taken to the world and back through its own inverse are the corners (0,h), (w,h), (w,0), (0,0) of its local size |
| Narrowing.SatRectangleAndPoints | src/CompuBrite/SFML/CollisionSystem.cpp:41-66 | returns false exactly when every point is strictly on one side of the rectangle (all left, all right, all above or all below); a point on or in the rectangle forces true |
| Narrowing.DidCollide | src/CompuBrite/SFML/CollisionSystem.cpp:104-197 | an entity never collides with itself and keeps the caller's rect; otherwise rect becomes the world-bounds overlap, and the result at AABB, BB and SAT is the conjunction of the tiers up to that level |
| Narrowing.TiersMonotone | src/CompuBrite/SFML/CollisionSystem.cpp:113-196 | a finer level never reports a pair a coarser level rejects, and all levels write the same rect |
| Narrowing.DidCollideSymmetric | src/CompuBrite/SFML/CollisionSystem.cpp:161-196 | the answer and rect do not depend on which entity is passed first |
| Narrowing.FlatBodiesNeverCollide | src/CompuBrite/SFML/CollisionSystem.cpp:161-175 | two entities whose local bounds have no area never pass the oriented-box tier |
| Narrowing.ScenarioFarApart | src/CompuBrite/SFML/CollisionSystem.cpp:113-117 | two 10 x 10 boxes at (0,0) and (100,100) do not collide at any level: the bounding-box tier rejects them and the finer levels never accept more |
| Narrowing.ScenarioOverlap | src/CompuBrite/SFML/CollisionSystem.cpp:113-196 | two 10 x 10 boxes at (0,0) and (5,5) collide at AABB, BB and SAT alike, with overlap (5,5,5,5) |
| Narrowing.TranslatedBoxesCollide | src/CompuBrite/SFML/CollisionSystem.cpp:119-196 | two distinct unrotated 10 x 10 boxes whose world bounds overlap, the second offset right and down by less than a box, pass every tier: a corner lies inside and no axis separates them |
| Narrowing.ScenarioRotatedMiss | src/CompuBrite/SFML/CollisionSystem.cpp:161-175 | a box and a rotated box whose world bounds overlap but whose corners all miss each other pass AABB and fail BB |
| Handlers.MinMax | include/CompuBrite/SFML/CollisionSystem.h:41 | the key holds the two kinds, smaller first |
| Handlers.AddHandler | include/CompuBrite/SFML/CollisionSystem.h:30-43 | the entry for minmax(t1,t2) gets the declared adapter and the flag t2 < t1; no other key changes |
| Handlers.AddHandlerWellFormed | include/CompuBrite/SFML/CollisionSystem.h:33-42 | every stored entry keeps its key equal to the minmax of its declared kinds and its flag equal to their reversal |
| Handlers.LastWriteWins | include/CompuBrite/SFML/CollisionSystem.h:41-42 | registering again for the same unordered pair, in either order, replaces the earlier handler |
| Handlers.Find | src/CompuBrite/SFML/CollisionSystem.cpp:79-84 | a handler is found exactly when the key is registered |
| Handlers.Dispatch | include/CompuBrite/SFML/CollisionSystem.h:56-59 | the callback gets the two entities in the order given and the rectangle unchanged |
| Handlers.HandleCollision | src/CompuBrite/SFML/CollisionSystem.cpp:86-102 | no call without a handler for the pair's key; otherwise one call with (lhs, rhs) iff (rhs.kind < lhs.kind) equals the flag, else (rhs, lhs), with the rectangle unchanged |
| Handlers.DeclaredOrder | include/CompuBrite/SFML/CollisionSystem.h:35-40 | with a well-formed registry the callback's first argument has the first declared kind and its second the second, equal kinds included |
| Handlers.DiscoveryOrderIrrelevant | src/CompuBrite/SFML/CollisionSystem.cpp:89-101 | for different kinds the call is the same whichever entity the scan found first |
| Handlers.ScenarioCircleRectangle | src/CompuBrite/SFML/CollisionSystem.cpp:97-101 | a (circle, rectangle) handler found as (rectangle, circle) still receives the circle first |
| Scan.LexPairsExact | src/CompuBrite/SFML/CollisionSystem.cpp:206-215 | the nested loops visit exactly the index pairs i < j < n, each once, in strictly lexicographic order |
| Scan.LexPairsSmall | src/CompuBrite/SFML/CollisionSystem.cpp:202-205 | fewer than two entities give no pairs |
| Scan.OutcomeExact | src/CompuBrite/SFML/CollisionSystem.cpp:209-213 | a pair fires a callback exactly when it collides and its kinds have a handler; the callback gets the pair's entities and their world-bounds overlap |
| Scan.FireSound | src/CompuBrite/SFML/CollisionSystem.cpp:206-215 | every callback fired during a scan is the outcome of a visited pair |
| Scan.FireComplete | src/CompuBrite/SFML/CollisionSystem.cpp:206-215 | every visited pair with an outcome fires it |
| Scan.CheckCollisions | src/CompuBrite/SFML/CollisionSystem.cpp:199-217 | the nested loops test exactly the pairs of the reference order LexPairs (all i < j, each once, lexicographic, none below two entities, by LexPairsExact and LexPairsSmall), and the callbacks are those of the tested pairs in that order |
| Scan.ScanRow | src/CompuBrite/SFML/CollisionSystem.cpp:207-214 | the inner loop tests position i against every later position in order, appending the fired callbacks |
| Scan.VisitPair | src/CompuBrite/SFML/CollisionSystem.cpp:209-213 | one pair fires at most one callback, on a fresh rectangle |
| Scan.Update | src/CompuBrite/SFML/CollisionSystem.cpp:73-77 | the callbacks are exactly those of checkCollisions over the reference pair order LexPairs, whatever dt is; every callback comes from some pair a < b, and every reported pair's callback runs |
| Membership.AddEntity | src/CompuBrite/SFML/ISystem.cpp:29-40 | a registered entity is a no-op; a new one runs the addProperties hook once, is appended, and with callback the entity lists the system afterwards; other systems and entities unchanged |
| Membership.AddSystem | src/CompuBrite/SFML/IEntity.cpp:80-90 | a present system is a no-op; a new one is appended, and with callback the system lists the entity; without callback the other side is untouched |
| Membership.DropEntity | src/CompuBrite/SFML/ISystem.cpp:42-52 | an absent entity is a no-op; otherwise its first occurrence is removed and, with callback, the entity drops the system; no hook runs |
| Membership.DropSystem | src/CompuBrite/SFML/IEntity.cpp:92-102 | an absent system is a no-op; otherwise it is removed and, with callback, the system drops the entity |
| Membership.AddEntityKeepsInvariants | src/CompuBrite/SFML/ISystem.cpp:29-40 | adding with callback keeps both sides duplicate-free and in agreement |
| Membership.AddSystemKeepsInvariants | src/CompuBrite/SFML/IEntity.cpp:80-90 | adding from the entity side with callback keeps both sides duplicate-free and in agreement |
| Membership.DropEntityKeepsInvariants | src/CompuBrite/SFML/ISystem.cpp:42-52 | dropping with callback keeps the invariants and removes the pair from both sides |
| Membership.DropSystemKeepsInvariants | src/CompuBrite/SFML/IEntity.cpp:92-102 | dropping from the entity side keeps the invariants and removes the pair from both sides |
| Membership.HookRunsOnce | src/CompuBrite/SFML/ISystem.cpp:33-38 | joining from either side runs addProperties exactly once for a new pair and never for an existing one |
| Membership.AddThenDropRestores | src/CompuBrite/SFML/ISystem.cpp:29-52 | adding a new entity and dropping it again restores every vector on both sides |
| SceneTree.DefaultLocalBounds | src/CompuBrite/SFML/IEntity.cpp:12-16 | the default local bounds contain no point |
| SceneTree.AddChild | src/CompuBrite/SFML/IEntity.cpp:36-51 | the child's zOrder is always set; it returns true iff the child is not already at that level; on false the parent is unchanged |
| SceneTree.AddChildLevels | src/CompuBrite/SFML/IEntity.cpp:40-50 | levels stay in ascending z, level z exists afterwards, a true result appends the child at level z, and no other level changes |
| SceneTree.DuplicatesCheckedPerLevel | src/CompuBrite/SFML/IEntity.cpp:45-50 | the same child can be added at two different levels |
| SceneTree.ScheduleAscending | src/CompuBrite/SFML/IEntity.cpp:65-73 | children are visited in ascending z-order |
| SceneTree.PlaceSchedule | src/CompuBrite/SFML/IEntity.cpp:36-51 | a new child enters the visiting order exactly once, after every child at or below its level and before every child above it |
| SceneTree.UpdateTrace | src/CompuBrite/SFML/IEntity.cpp:58-63 | an entity's update starts with its own updateThis |
| SceneTree.TiersTrace | src/CompuBrite/SFML/IEntity.cpp:65-73 | the children loop runs at least one updateThis for every visited child |
| SceneTree.MembersTrace | src/CompuBrite/SFML/IEntity.cpp:69-71 | one level's loop runs at least one updateThis for every child of the level |
| SceneTree.UpdateOrder | src/CompuBrite/SFML/IEntity.cpp:58-73 | update runs updateThis on the entity first, then each child's whole update in visiting order |
| SceneTree.AddOnTopUpdatesLast | src/CompuBrite/SFML/IEntity.cpp:58-73 | a child added above every existing level is updated after everything else |
| Properties.Default | include/CompuBrite/SFML/PropertyManager.h:57 | the default value of each type has that type |
| Properties.Find | include/CompuBrite/SFML/PropertyManager.h:92-102 | a property is found iff the name exists and its stored type is the requested one |
| Properties.Add | include/CompuBrite/SFML/PropertyManager.h:29-38 | an existing name, of any type, is left alone; a new name stores the value with its type |
| Properties.AddDefault | include/CompuBrite/SFML/PropertyManager.h:30 | add without a value stores Type() under a new name |
| Properties.Set | include/CompuBrite/SFML/PropertyManager.h:40-50 | names and types never change; the value changes only on a name-and-type match, otherwise set is a no-op |
| Properties.Get | include/CompuBrite/SFML/PropertyManager.h:52-60 | the result has the requested type; it is the stored value on a match and Type() otherwise |
| Properties.Cref | include/CompuBrite/SFML/PropertyManager.h:80-90 | requires a name-and-type match, and gives the stored value |
| Properties.AssignThroughRef | include/CompuBrite/SFML/PropertyManager.h:62-72 | requires a match; the written value is then found, and no other name changes |
| Properties.GetAfterSet | include/CompuBrite/SFML/PropertyManager.h:40-60 | get after set reads back the value when the set matched, and the default otherwise |
| Properties.SetFrame | include/CompuBrite/SFML/PropertyManager.h:40-60 | set changes no other (name, type) lookup |
| Properties.GetAfterAdd | include/CompuBrite/SFML/PropertyManager.h:29-60 | a fresh property reads back under its own type and as Type() under any other |
| Properties.FirstAddWins | include/CompuBrite/SFML/PropertyManager.h:32-35 | a second add under the same name is ignored |
| Properties.SetTwice | include/CompuBrite/SFML/PropertyManager.h:40-50 | the later of two sets wins, and set is idempotent |
| Properties.WrongTypeReadsDefault | include/CompuBrite/SFML/PropertyManager.h:52-60 | a float property read or set as an int gives 0 and changes nothing |
| States.NewState | src/CompuBrite/SFML/State.cpp:7-11 | a new state has no systems and the given flags, false by default |
| States.AddSystem | src/CompuBrite/SFML/State.cpp:31-35 | appends the system even when already present |
| States.DropSystem | src/CompuBrite/SFML/State.cpp:37-45 | absent systems are ignored; otherwise the first occurrence is erased and the others keep their order, so exactly one copy goes |
| States.DropRemovesOneCopy | src/CompuBrite/SFML/State.cpp:31-45 | a system added twice and dropped once is still there once more than before |
| States.AddThenDrop | src/CompuBrite/SFML/State.cpp:31-45 | adding a system the state lacked and dropping it restores the state |
| States.Stops | src/CompuBrite/SFML/State.cpp:13-29 | draw returns lastDrawn and update returns lastUpdated, whatever the systems did |
| States.SystemRuns | src/CompuBrite/SFML/State.cpp:16-27 | the first visited state's systems run first, in their stored order |
| States.SystemRunsCoversAll | src/CompuBrite/SFML/State.cpp:16-27 | every system of every visited state is run |
| States.Empty | include/CompuBrite/SFML/StateStack.h:26 | a stack is empty exactly when top gives null |
| States.Push | src/CompuBrite/SFML/StateStack.cpp:7-11 | the state goes on top and the rest is kept |
| States.Top | src/CompuBrite/SFML/StateStack.cpp:13-21 | null exactly on an empty stack, else the last pushed state |
| States.Pop | src/CompuBrite/SFML/StateStack.cpp:23-31 | returns the old top; an empty stack stays empty, otherwise only the top is removed |
| States.Clear | src/CompuBrite/SFML/StateStack.cpp:33-37 | the stack is empty afterwards |
| States.PopAfterPush | src/CompuBrite/SFML/StateStack.cpp:7-31 | pop after push returns the pushed state and restores the stack |
| States.PushAfterPop | src/CompuBrite/SFML/StateStack.cpp:7-31 | pushing back what pop returned restores a non-empty stack |
| States.TopDown | src/CompuBrite/SFML/StateStack.cpp:54 | the snapshot lists the stack from the top down |
| States.ReachStopRule | src/CompuBrite/SFML/StateStack.cpp:51-61 | a pass visits at least the top state, no visited state before the last one stops it, and when a state stops it the walk ends there |
| States.Walk | src/CompuBrite/SFML/StateStack.cpp:39-61 | update and draw visit the top-down states up to and including the first that returns true, and run each visited state's systems in order |
| States.WalkStopsAtFirst | src/CompuBrite/SFML/StateStack.cpp:51-61 | a state that stops the pass hides every state below it |
| States.TopStops | src/CompuBrite/SFML/StateStack.cpp:51-61 | a pushed state that stops the pass is visited first and is the only state visited |
| States.PauseScenario | src/CompuBrite/SFML/StateStack.cpp:51-61 | a pause state returning true blocks the game below it; returning false lets both run, pause first, whatever the game state returns |
| Events.EventLessAsWritten | src/CompuBrite/SFML/EventManager.cpp:7-25 | events of different types order by type; events of one type that are not mouse-button events are not less than themselves |
| Events.EventLess | src/CompuBrite/SFML/EventManager.cpp:7-25 | the corrected order keeps the type order and no event is less than itself |
| Events.AsWrittenNotIrreflexive | src/CompuBrite/SFML/EventManager.cpp:15-17 | as written, a mouse-button event is less than itself |
| Events.AsWrittenMergesButtons | src/CompuBrite/SFML/EventManager.cpp:15-17 | as written, presses of different mouse buttons are equivalent |
| Events.CorrectionOnlyTouchesMouse | src/CompuBrite/SFML/EventManager.cpp:7-25 | the corrected order agrees with the written one except between two mouse-button events of one type |
| Events.EventLessBySlot | src/CompuBrite/SFML/EventManager.cpp:7-25 | events order by type, then by key code or button, and otherwise not at all |
| Events.EquivalentIffSameSlot | src/CompuBrite/SFML/EventManager.cpp:7-25 | two events share a table slot exactly when they have the same type and ordering field |
| Events.StrictWeakOrder | src/CompuBrite/SFML/EventManager.cpp:7-25 | the corrected order is irreflexive, asymmetric and transitive, and so is equivalence |
| Events.SlotsOfKeysAndOthers | src/CompuBrite/SFML/EventManager.cpp:10-24 | events of different types never share a slot; key events share one iff their codes match; other events of one type always do |
| Events.Add | src/CompuBrite/SFML/EventManager.cpp:27-31 | the command is stored in the event's slot, an existing slot keeps its original event, and other slots are unchanged |
| Events.AddWellKeyed | src/CompuBrite/SFML/EventManager.cpp:27-31 | every slot keeps holding an event of that slot |
| Events.Find | src/CompuBrite/SFML/EventManager.cpp:33-40 | an empty command when the slot is free, the stored one otherwise |
| Events.Dispatch | src/CompuBrite/SFML/EventManager.cpp:42-49 | the found command is called, with the dispatched event, iff it is not empty |
| Events.FindAfterAdd | src/CompuBrite/SFML/EventManager.cpp:27-40 | an added command is found for every equivalent event, and no other lookup changes |
| Events.LaterAddWins | src/CompuBrite/SFML/EventManager.cpp:30 | a later add for an equivalent event overwrites the command |
| Events.EmptyCommandSilences | src/CompuBrite/SFML/EventManager.cpp:45-48 | registering an empty command makes dispatch do nothing |
| Events.PressAndReleaseSeparate | src/CompuBrite/SFML/EventManager.cpp:12-14 | a key-press command fires for that key code only, and not on release |
| Tasks.Add | src/CompuBrite/SFML/TaskQueue.cpp:31-35 | the task goes at the back and the queue grows by one |
| Tasks.Shl | src/CompuBrite/SFML/TaskQueue.cpp:48-53 | operator<< adds the task, so take returns it next |
| Tasks.Take | src/CompuBrite/SFML/TaskQueue.cpp:37-46 | an empty queue gives an empty task and stays empty; otherwise the back task is removed and returned |
| Tasks.TakeAfterAdd | src/CompuBrite/SFML/TaskQueue.cpp:31-46 | add then take returns the task and restores the queue |
| Tasks.TakeAllIsReverse | src/CompuBrite/SFML/TaskQueue.cpp:37-46 | draining the queue hands tasks out in the reverse of their adding order |
| Tasks.ThreeTasksLifo | src/CompuBrite/SFML/TaskQueue.cpp:37-46 | tasks a, b, c are taken as c, b, a |
| Resources.Find | include/CompuBrite/SFML/ResourceManager.h:59-66 | null exactly when the id is absent |
| Resources.Get | include/CompuBrite/SFML/ResourceManager.h:30-42 | requires the id to be present, and gives the stored resource |
| Resources.Load | include/CompuBrite/SFML/ResourceManager.h:44-56 | a loaded id gives false and no change; a failed file load throws with the file name; otherwise the resource is stored and true returned |
| Resources.LoadThenFind | include/CompuBrite/SFML/ResourceManager.h:44-56 | after a successful load the id finds the loaded resource; a false load changes nothing |
| Resources.LoadFrame | include/CompuBrite/SFML/ResourceManager.h:54 | loading one id never changes what another id finds |
| Resources.SecondLoadRejected | include/CompuBrite/SFML/ResourceManager.h:46-49 | a second load of an id returns false and keeps the first resource |
| Seqs.RemoveFirst | src/CompuBrite/SFML/State.cpp:40-44 | an absent element leaves the vector alone; otherwise the result is one shorter, equal to the input before the first occurrence and shifted down by one after it |
| Seqs.RemoveFirstMultiset | src/CompuBrite/SFML/State.cpp:40-44 | erasing the found element takes away exactly one copy of it |
| Seqs.RemoveFirstNoDups | src/CompuBrite/SFML/ISystem.cpp:45-47 | in a duplicate-free vector, the element is removed, the rest stays, and it stays duplicate-free |

## Left out

- Threads: `ThreadPool` and `Context` are left out. Their behaviour is threads, mutexes, condition variables and the window event loop. `Context.cpp` calls a two-argument `StateStack::update`; the one-argument form in `StateStack.cpp` is the one modelled.
- Engine loop: `Engine` is left out. It is the render and event loop over a window, which is I/O.
- Rendering: `draw`, `drawThis`, `drawChildren`, `DrawingSystem` and render-target calls are left out because they are SFML foreign calls. `IEntity::draw` walks children in the same order as `update`, which `SceneTree.UpdateOrder` states. `States.Walk` covers the stack's draw pass only through the stop rule.
- Shape, sprite and text entities, and `MovementSystem`, are left out. They delegate to SFML or integrate floats.
- Stale code: `Entity.cpp` does not match its header and is left out.
- Demos: `lander.cpp` and `test.cpp` are demo programs and are left out.
- Diagnostics: `CheckPoint` messages are left out; they are side-channel logging only. The same goes for the `Vector2f` stream operator.
- Floats: IEEE float rounding is not modelled. All geometry is over reals.
- Transforms and bounds: `getGlobalBounds` and `getGlobalTransform` are inputs carried by each body. Only `getInverse` and point transformation are written out.
- Narrowing.Corners: this follows the code, which takes the corners from (0,0) and the local size only. A body whose local bounds do not start at the origin is therefore tested with shifted corners.
- Narrowing.FlatBodiesNeverCollide: needs both bodies flat. A body with zero-area local bounds can still pass the oriented tier when one of its corners lies in the other body's bounds.
- Narrowing.SatRectangleAndPoints: takes any number of points. The source always passes an array of four.
- Handlers.Dispatch: `Dispatcher` uses `static_cast`. An entity whose dynamic type is not the declared one would be undefined behaviour. The model hands the entity on unchanged.
- Handlers.Find: the registry is an `unordered_map` keyed by `type_info` pointers. It is modelled as a map keyed by ordered pairs of kinds.
- Properties.Cref: after a failed lookup the source reports the error and then dereferences null. This is a precondition here, and the same holds for `ref`.
- Properties.Find: the type tag is closed to int, real, bool and string. This stands in for the C++ template type; `Vector2f` properties are not modelled.
- Resources.Get: a missing id is a failed expectation in the source. This is a precondition here.
- Resources.Load: `loadFromFile` is a function parameter, because reading files is I/O.
- Events.Add: the table is keyed by the corrected `EventLess` (see Findings). With the comparator as written, `std::map` insertion of mouse-button events is undefined behaviour, so it is not modelled.
- Events.Find: lookup also uses the corrected `EventLess`. With the comparator as written, finding a mouse-button event is undefined behaviour, so it is not modelled.
- Events.Dispatch: only the type, key code and mouse button of `sf::Event` are modelled. The ordering reads nothing else.
- Tasks: the `ThreadPool` documentation describes `take` as taking from the front. The code takes from the back, and the model follows the code.
- Scan.Update: `dt` is ignored, as in the source.
- Scan.CheckCollisions: every pair is tested against one fixed list of entities, and callbacks are pure. In the source the callback receives mutable entities while the loops walk `entities_` directly. A callback that moves an entity changes the `didCollide` result of later pairs, and one that calls `dropEntity` on this system invalidates the loop's iterators. Neither effect is modelled.
- States.Push: the stack holds states by value, while `states_` holds pointers. A setter such as `lastUpdated(bool)` called on a state already on the stack changes the next walk in the source but not here. Pushing one state twice gives one shared object in the source and two copies here.
- SceneTree.AddChild: children are held by value, while `children_` holds pointers. A later change to a child is therefore not seen through its parent. A child added at two levels is two copies here, each with its own zOrder, while the source has one object whose `zOrder_` the last `addChild` wrote.
- SceneTree.UpdateOrder: the datatype only builds finite trees. In the source an entity can be added as its own child or descendant, and `update` then recurses without end. That case is not modelled.
- SceneTree.AddChild: only the two-argument `addChild` is modelled. The one-argument overload, `getGlobalPosition`, `getGlobalBounds` and `getGlobalTransform` are declared in `IEntity.h` but their definitions are not part of this model.
- Membership.AddEntity: `ISystem::addProperties` is recorded as a log entry. The base version does nothing, and what a derived system adds is not part of this model.

## Findings

| source | as written | input that shows it | evidently intended | confidence | as-written member | corrected member |
|---|---|---|---|---|---|---|
| src/CompuBrite/SFML/EventManager.cpp:15-17 | mouse-button events of one type compare with `lhs.mouseButton.button == rhs.mouseButton.button` | two MouseButtonPressed events for the left button: each is less than the other, so the order is not irreflexive. Left and right presses: neither is less, so they share one slot | compare buttons with `<`, as the key branch compares key codes, giving a strict weak order | not executed | Events.AsWrittenNotIrreflexive | Events.StrictWeakOrder |
