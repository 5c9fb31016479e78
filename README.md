# Roguelike AI: state machines, behaviour trees and utility agents on a grid

This project models the AI core of a small turn-based roguelike in Dafny and proves
properties of that model. The game runs on an integer grid. Monsters, squires and
the player are characters that move one cell per turn. A character that tries to
enter a cell another character holds (as its reserved cell) stays put, and strikes
that character if it belongs to another team. The AI comes in three versions:

- In the first (`w1`), every monster runs a finite state machine. Its states
  (patrol, chase, flee, heal self, heal the player) set the agent's next action.
  Its transitions are predicates over the world ("an enemy within 3", "hitpoints
  below 60", and their negation, conjunction and disjunction).
- In the second (`w2`), agents run behaviour trees: sequence, selector, parallel,
  and/or/negate nodes over leaves (move to an entity, flee, patrol, find an enemy
  or a treasure, follow a chain of waypoints). A notifier leaf tells nearby allies
  about an enemy through a reaction event.
- In the third (`w3`), a sensor fills each agent's blackboard with its hitpoints,
  the number of allies nearby and the distances to the closest enemy, the closest
  teammate and the base. Utility scores over those slots choose a behaviour. Every
  strike and self-heal is written to a bounded action log, stamped with a turn
  counter.

A turn happens only after the player acts. Each player action advances a counter,
and the agents plan only when that counter wraps around. Then the actions are
resolved in a fixed order:

1. Self-heals (third version only).
2. Each character reserves the cell it moves to, or stays and strikes the
   characters of other teams already holding that cell.
3. Every character moves to its reservation.
4. The dead are removed.
5. The player collects the heals and power-ups on its cell.
6. Heal cooldowns count down (first version only).

The model is organised by the program's own structure:

- `GridMath`: the helpers of `w3/math.h`.
- `Components`: positions, actions, entity references and the random walk.
- `World`: the entity record and the closest-entity queries.
- `Blackboards`: the blackboard interface.
- `ActionLogs`: the bounded action log, as a class.
- `AiLibrary`: the state and transition library of the first version.
- `StateMachines`: the machines of the first version.
- `BehLibrary` and `BehEval`: the behaviour-tree library, once as functions and once
  as methods over the world array.
- `Turns`: the turn resolution shared by the first and third versions.
- `W1Turn` and `W3Turn`: each version's own turn.
- `Utilities`: the utility scores.

Modelling conventions:

- The world is an `array<Entity>` that the turn methods update in place. Each
  method is proved against a function on `seq<Entity>`, and the lemmas are stated
  about those functions.
- An entity handle is an index into the world.
- Destroying an entity sets its `alive` flag to false.
- Query order is index order.
- Random draws come from a tape `rng: nat` that is passed in and returned.
- Distances are compared through squared integer distances, so no square root is
  needed.

## Model

| member | source | states |
|---|---|---|
| GridMath.Sqr | w3/math.h:6 | a square is non-negative, zero exactly for zero, and at least the number itself |
| GridMath.DistSq | w3/math.h:9 | the squared distance is non-negative and zero exactly when the two cells coincide |
| GridMath.DistSqSymmetric | w3/math.h:9 | the squared distance does not depend on the order of its arguments |
| GridMath.Min | w3/math.h:14 | min returns one of its arguments and is below both |
| GridMath.Max | w3/math.h:15 | max returns one of its arguments and is above both |
| GridMath.DistLeIffSquaresLe | w3/math.h:12 | for a non-negative distance s, s <= d iff d >= 0 and s*s <= d*d (the same for <), which justifies comparing squared distances where the source compares sqrtf(dist_sq) with a radius |
| Components.MoveAt | w1/aiLibrary.cpp:234 | EA_MOVE_START + k for k < 4 is one of the four moves |
| Components.DrawMove | w1/aiLibrary.cpp:234 | a random-walk draw is always a move and consumes part of the random tape |
| Components.DrawMoveCoversMoves | w2/behLibrary.cpp:352 | every move can be drawn by the random walk, with any remaining tape |
| World.NearestIn | w1/aiLibrary.cpp:53-63 | the running closest match among the first n entities is one of them |
| World.NearestInIsNearest | w1/aiLibrary.cpp:53-63 | the scan finds nothing iff nothing matches. Otherwise it returns a matching entity at least as close as every match and strictly closer than every earlier match, because ties keep the first |
| World.Nearest | w1/aiLibrary.cpp:44-68 | on_closest_enemy_pos / on_closest_ally_pos pick the closest live entity of the other (or the same) team, and nothing when there is none |
| World.FindNearest | w2/behLibrary.cpp:236-252 | the query loop with its running minimum computes exactly Nearest |
| World.NearestWithinIffAnyWithin | w2/behLibrary.cpp:252 | the closest enemy is within d iff some enemy is within d, so FindEnemy's test on the closest one decides whether any enemy is in range |
| Blackboards.Empty | w3/roguelike.cpp:11 | a fresh blackboard is well formed and holds nothing |
| Blackboards.RegName | w3/roguelike.cpp:595 | regName returns the handle registered under (name, type) and registers the pair when it is new. It leaves a known pair and every slot unchanged |
| Blackboards.RegNameValid | w3/roguelike.cpp:634 | registering keeps every earlier registration and well-formedness, and a new name gets a handle no other name holds |
| Blackboards.RegNameStable | w3/roguelike.cpp:634 | registering a name twice is the same as once, and two different names get different handles |
| Blackboards.Set | w2/behLibrary.cpp:438 | set writes the value into its slot and no other slot changes |
| Blackboards.SetThenGet | w2/behLibrary.cpp:470-471 | a get after a set returns the value written, and reads of other handles are unaffected |
| ActionLogs.Pushed | w3/roguelike.cpp:502-505 | pushing appends the entry and drops the oldest one when the log then exceeds its capacity |
| ActionLogs.Repeat | w3/roguelike.cpp:536 | n copies of the same message |
| ActionLogs.Stamped | w3/roguelike.cpp:502 | each message is stamped with the turn counter it was pushed under, in order |
| ActionLogs.LastN | w3/roguelike.cpp:504-505 | the newest n entries of a sequence, in order |
| ActionLogs.PushedIsWindow | w3/roguelike.cpp:496-507 | a push onto a log within capacity keeps the newest capacity entries of the log plus the new entry, stays within capacity and ends with the new entry |
| ActionLogs.PushedAllIsWindow | w3/roguelike.cpp:496-507 | any number of pushes keep exactly the newest capacity entries of the old log followed by the stamped messages |
| ActionLogs.LastNOfWindow | w3/roguelike.cpp:504-505 | trimming before appending and trimming after appending agree |
| ActionLogs.PushedAllAppend | w3/roguelike.cpp:496-507 | pushing two batches one after the other equals pushing their concatenation |
| ActionLogs.ActionLog.constructor | w3/roguelike.cpp:455-457 | the world's log starts empty at turn 0 with the given capacity |
| ActionLogs.ActionLog.Push | w3/roguelike.cpp:496-507 | push_to_log adds one entry stamped with the current turn, within capacity |
| ActionLogs.ActionLog.NextTurn | w3/roguelike.cpp:667 | the turn counter goes up by one |
| AiLibrary.MoveTowards | w1/aiLibrary.cpp:25-33 | the move is horizontal iff the horizontal gap is strictly larger, right iff horizontal and the target is to the right, up iff vertical and the target is above, and always a move |
| AiLibrary.InverseMove | w1/aiLibrary.cpp:35-41 | left and right swap, up and down swap, and any other action is returned unchanged |
| AiLibrary.InverseMoveInvolution | w1/aiLibrary.cpp:35-41 | inverting twice gives back the action |
| AiLibrary.LastPlayerIn | w1/aiLibrary.cpp:98-114 | the player query keeps the last live player in query order, and nothing when there is none |
| AiLibrary.FindLastPlayer | w1/aiLibrary.cpp:104-109 | the player-query loop computes exactly LastPlayer |
| AiLibrary.IsAvailable | w1/aiLibrary.cpp:248-382 | each transition's isAvailable, with the query loops and the short-circuiting combinators, computes exactly the predicate Available: some enemy within the distance, the last player within the distance, own hitpoints below the threshold, some player's hitpoints below it, never (EnemyReachable), and not/and/or |
| AiLibrary.HealPlayers | w1/aiLibrary.cpp:206-213 | every live player gains the restoration and no other entity changes |
| AiLibrary.Act | w1/aiLibrary.cpp:116-246 | every state's act changes the world exactly as ActResult says |
| AiLibrary.ActResult | w1/aiLibrary.cpp:116-246 | the world after each state's act; its contract is stated by AiLibrary.Act (the method computes it), AiLibrary.PatrolActSpec, AiLibrary.FleeIsInverseOfChase and W1Turn.ActKeepsLayout |
| AiLibrary.Available | w1/aiLibrary.cpp:248-382 | what each transition's isAvailable answers; stated by AiLibrary.IsAvailable and by StateMachines.PatrolAttackFleeConditions, StateMachines.HealerConditions and StateMachines.SquireConditions |
| AiLibrary.PatrolActSpec | w1/aiLibrary.cpp:218-238 | a patroller farther than the patrol distance from its patrol position walks towards it. Otherwise it takes a random move. Only its action changes |
| AiLibrary.HealPlayerActSpec | w1/aiLibrary.cpp:190-216 | while the cooldown counter is positive nothing changes. Otherwise the counter is reset to the cooldown and every player gains the restoration |
| AiLibrary.FleeIsInverseOfChase | w1/aiLibrary.cpp:116-171 | without an enemy, chasing and fleeing change nothing. With one, the chaser moves towards the closest enemy and the fleer takes exactly the opposite move |
| StateMachines.AddState | w1/roguelike.cpp:16-18 | addState appends the state and returns its index |
| StateMachines.AddTransition | w1/roguelike.cpp:20-28 | addTransition appends the edge and keeps the states and the current state |
| StateMachines.FirstFiringFrom | w1/roguelike.cpp:20-28 | the first edge at or after k that leaves the current state and whose condition holds, or none |
| StateMachines.Tick | w1/roguelike.cpp:409-412 | sm.act takes the first firing edge out of the current state (staying when none fires), then acts in the new state. The machine stays well formed |
| StateMachines.NextIsFirstFiring | w1/roguelike.cpp:20-28 | when edge i fires and no earlier edge does, the machine moves to edge i's target |
| StateMachines.NextIsCurrent | w1/roguelike.cpp:20-28 | when no edge fires the machine stays |
| StateMachines.NextOfTwo | w1/roguelike.cpp:20-28 | with two edges out of the current state, the earlier one wins, then the later one, then staying |
| StateMachines.Next | w1/roguelike.cpp:20-28 | the state after the transition step; stated by StateMachines.NextIsFirstFiring, StateMachines.NextIsCurrent, StateMachines.NextOfTwo and StateMachines.Tick |
| StateMachines.PatrolAttackFleeConditions | w1/roguelike.cpp:20-28 | the composed conditions of add_patrol_attack_flee_sm mean "no enemy within 5", "hp < 60 and an enemy within 5", and "hp < 60 and an enemy within 3" |
| StateMachines.PatrolAttackFleeTable | w1/roguelike.cpp:12-30 | the machine has states patrol(3), chase and flee, and its five edges in the order they are added, starting in patrol |
| StateMachines.PatrolAttackFleeFromPatrol | w1/roguelike.cpp:20-26 | from patrol the machine chases iff an enemy is within 3, and otherwise keeps patrolling |
| StateMachines.PatrolAttackFleeFromChase | w1/roguelike.cpp:21-24 | a chaser with no enemy within 5 patrols, with hp below 60 flees, and otherwise keeps chasing |
| StateMachines.PatrolAttackFleeFromFlee | w1/roguelike.cpp:28 | a fleer returns to patrol iff no enemy is within 7 |
| StateMachines.ScenarioLowHpChaserFlees | w1/roguelike.cpp:23-24 | a chaser with 55 hp and an enemy within 3 switches to fleeing |
| StateMachines.PatrolToFleeEdgeNeverTaken | w1/roguelike.cpp:20-26 | the patrol-to-flee edge is never taken: a hurt patroller with an enemy within 3 chases instead (see Findings) |
| StateMachines.PatrolAttackFleeFixedTable | w1/roguelike.cpp:12-30 | the corrected machine has the same states and edges, with the patrol-to-flee edge moved first |
| StateMachines.PatrolAttackFleeFixedFromPatrol | w1/roguelike.cpp:20-26 | in the corrected machine a patroller with an enemy within 3 flees when its hp is below 60 and chases otherwise |
| StateMachines.PatrolFleeStep | w1/roguelike.cpp:32-42 | add_patrol_flee_sm flees when an enemy is within 3 and returns to patrol when none is within 5 |
| StateMachines.AttackStep | w1/roguelike.cpp:44-50 | add_attack_sm has the single chase state and never leaves it |
| StateMachines.BerserkerStep | w1/roguelike.cpp:52-71 | the berserker chases exactly when its hp is below 60 or an enemy is within 3, whichever state it is in |
| StateMachines.HealerConditions | w1/roguelike.cpp:85-103 | the healer's composed conditions mean hp < 60, hp >= 60, no enemy within 3, and hp >= 60 with an enemy within 3 |
| StateMachines.HealerTable | w1/roguelike.cpp:73-105 | the healer machine has states patrol, chase and heal(hpRegen), and its six edges in the order they are added |
| StateMachines.HealerFromPatrolOrChase | w1/roguelike.cpp:84-94 | from patrol or chase the healer heals below 60 hp, else chases an enemy within 3, else patrols |
| StateMachines.HealerFromHeal | w1/roguelike.cpp:96-103 | from heal the healer keeps healing below 60 hp, else chases an enemy within 3, else patrols |
| StateMachines.HealerHealsFirst | w1/roguelike.cpp:81 | below 60 hp the healer heals from any state: heal has the highest priority |
| StateMachines.SquireConditions | w1/roguelike.cpp:117-150 | the squire's composed conditions mean "player hurt and within 3.1", "player not hurt and an enemy within 4", "player hurt or no enemy within 6", and "not (player hurt and within 1.1)" |
| StateMachines.SquireTable | w1/roguelike.cpp:108-152 | the squire machine has states follow-player, heal-player and chase, and its six edges in the order they are added |
| StateMachines.SquireFromFollow | w1/roguelike.cpp:116-126 | a following squire heals a hurt player within 3.1, else chases an enemy within 4 when the player is not hurt, else keeps following |
| StateMachines.SquireFromHeal | w1/roguelike.cpp:140-150 | a healing squire chases when the player is not hurt and an enemy is within 4. It goes back to following unless the player is hurt and within 1.1 |
| StateMachines.SquireFromChase | w1/roguelike.cpp:128-138 | a chasing squire heals a hurt player within 3.1, else follows when the player is hurt or no enemy is within 6, else keeps chasing |
| BehLibrary.React | w2/behLibrary.cpp:26-49 | react never answers RUNNING, and a failed reaction leaves the blackboard as it was |
| BehLibrary.Sweep | w2/behLibrary.cpp:40-48 | the compound node's sweep over its children never answers RUNNING and changes nothing when it fails |
| BehLibrary.Broadcast | w2/behLibrary.cpp:107-122 | the parallel node's broadcast to every child never answers RUNNING and changes nothing when it fails |
| BehLibrary.Tick | w2/behaviourTree.h:22 | update keeps the world's size and the tree's shape. Only a node that may run answers RUNNING |
| BehLibrary.Scan | w2/behLibrary.cpp:52-153 | the children's loop records one result per child it visits (at least one when there are children) and keeps the children's shape |
| BehLibrary.TickKeepsFrame | w2/behaviourTree.h:22 | an agent's update changes only its own action and blackboard and the blackboards of other agents, never anyone's position, team, hitpoints or liveness |
| BehLibrary.ScanKeepsFrame | w2/behLibrary.cpp:52-153 | the same holds for a compound node's loop over its children |
| BehLibrary.ScanPassesNonStops | w2/behLibrary.cpp:52-153 | every child visited before the last one gave the answer that lets the loop go on |
| BehLibrary.ScanEndsOnStop | w2/behLibrary.cpp:52-153 | a loop that ends before the last child ends on an answer that stops it |
| BehLibrary.ScanLeavesRest | w2/behLibrary.cpp:52-153 | the children after the one the loop stopped on are not touched |
| BehLibrary.ScanStopsAtFirst | w2/behLibrary.cpp:52-153 | the loop runs exactly up to the first child whose answer stops it |
| BehLibrary.CompoundTick | w2/behLibrary.cpp:52-105 | a sequence, selector, parallel, or or and node answers from its children's loop. A sequence or selector records the running child's index, or -1, and the others keep theirs |
| BehLibrary.SequenceAnswer | w2/behLibrary.cpp:52-71 | a sequence succeeds iff all children succeed. Otherwise it answers its first non-success child, after successes only |
| BehLibrary.SelectorAnswer | w2/behLibrary.cpp:73-92 | a selector fails iff all children fail. Otherwise it answers its first non-failing child, after failures only |
| BehLibrary.ParallelAnswer | w2/behLibrary.cpp:96-105 | a parallel node runs iff all children run. Otherwise it answers the first child that did not run |
| BehLibrary.OrAnswer | w2/behLibrary.cpp:125-138 | an or node succeeds iff some child succeeds, on the first success after failures only, and fails only after visiting every child |
| BehLibrary.AndAnswer | w2/behLibrary.cpp:140-153 | an and node fails iff some child fails, on the first failure after successes only, and succeeds only after visiting every child |
| BehLibrary.Finish | w2/behLibrary.cpp:52-153 | the answer of a composite after its loop; stated per composite by BehLibrary.SequenceAnswer, BehLibrary.SelectorAnswer, BehLibrary.ParallelAnswer, BehLibrary.OrAnswer and BehLibrary.AndAnswer |
| BehLibrary.NegateUpdate | w2/behLibrary.cpp:155-171 | a negate node's child never runs. The node succeeds iff the child fails and fails iff the child succeeds, with the child's effects |
| BehLibrary.SweepReactsIffAny | w2/behLibrary.cpp:40-48 | the sweep succeeds iff some child reacts |
| BehLibrary.SweepFirstReactorWins | w2/behLibrary.cpp:40-48 | a successful sweep is the reaction of the first child that reacts, all children before it having failed |
| BehLibrary.BroadcastReactsIffAny | w2/behLibrary.cpp:107-122 | the parallel broadcast succeeds iff some child reacts |
| BehLibrary.CompoundReact | w2/behLibrary.cpp:26-49 | a compound node reacts iff some child reacts. The running child is asked first, and otherwise the first child that reacts answers |
| BehLibrary.ParallelReact | w2/behLibrary.cpp:107-122 | a parallel node reacts iff some child reacts |
| BehLibrary.NoReactorNeverReacts | w2/behaviourTree.h:24-32 | a tree with no reactor for the event fails to react and leaves the blackboard as it was |
| BehLibrary.ReactSelectTargetSpec | w2/behLibrary.cpp:447-474 | react_select_target always succeeds on update and reacts to its own event. Its reaction copies the payload slot into the enemy slot and changes no other slot |
| BehLibrary.NotifyAll | w2/behLibrary.cpp:431-441 | each live teammate within the radius (other than the notifier) receives the payload in its blackboard and its tree's reaction. Every other entity is unchanged |
| BehLibrary.MoveToEntityTick | w2/behLibrary.cpp:181-204 | move_to_entity changes only the agent's action |
| BehLibrary.FindEnemyTick | w2/behLibrary.cpp:231-259 | find_enemy changes only the agent's blackboard |
| BehLibrary.FindTreasureTick | w2/behLibrary.cpp:271-298 | find_treasure changes only the agent's blackboard |
| BehLibrary.FleeTick | w2/behLibrary.cpp:309-326 | flee changes only the agent's action |
| BehLibrary.PatrolTick | w2/behLibrary.cpp:343-355 | patrol changes only the agent's action |
| BehLibrary.ChooseWaypointTick | w2/behLibrary.cpp:378-405 | choose_waypoint changes only the agent's blackboard |
| BehLibrary.NotifyEnemyNearTick | w2/behLibrary.cpp:421-444 | notify_enemy_near changes only blackboards, never the notifier's own |
| BehLibrary.LeafTick | w2/behLibrary.cpp:173-474 | a leaf keeps the frame, and only patrol, move_to_entity and flee can run |
| BehLibrary.MoveToEntityUpdate | w2/behLibrary.cpp:181-204 | move_to_entity fails iff the target is dead and succeeds iff the agent stands on the target. Otherwise it runs with a move towards the target |
| BehLibrary.FleeOpposesChase | w2/behLibrary.cpp:309-326 | flee fails exactly when move_to_entity fails and never succeeds. While running, its move is exactly the inverse of the chaser's |
| BehLibrary.IsLowHpUpdate | w2/behLibrary.cpp:207-221 | is_low_hp succeeds iff hp is below the threshold, never runs and changes nothing |
| BehLibrary.FindEnemyUpdate | w2/behLibrary.cpp:231-259 | find_enemy succeeds iff some enemy is within the distance. It then stores the closest enemy in its slot, and otherwise changes nothing |
| BehLibrary.FindTreasureUpdate | w2/behLibrary.cpp:271-298 | find_treasure succeeds iff some treasure exists and then stores the closest one. Otherwise it changes nothing |
| BehLibrary.PatrolUpdate | w2/behLibrary.cpp:343-355 | patrol always runs with a move: towards the patrol position when farther than the patrol distance, otherwise random |
| BehLibrary.HalfCellMeansSameCell | w2/behLibrary.cpp:387 | on the integer grid, dist < 0.5 means the same cell |
| BehLibrary.ChooseWaypointUpdate | w2/behLibrary.cpp:378-405 | choose_waypoint succeeds away from the waypoint. On it, it fails without a next waypoint, and otherwise advances both slots to the next waypoint and its position |
| BehLibrary.NotifyEnemyNearUpdate | w2/behLibrary.cpp:421-444 | notify_enemy_near fails iff the remembered enemy is dead. Otherwise it notifies exactly the teammates within the radius and never changes the notifier |
| BehLibrary.NotifiedWithoutReactor | w2/behLibrary.cpp:437-439 | an ally whose tree has no reactor just receives the payload slot |
| BehLibrary.Notifies | w2/behLibrary.cpp:433-435 | which entities notify_enemy_near notifies; stated by BehLibrary.NotifyAll and BehLibrary.NotifyEnemyNearUpdate |
| BehLibrary.Notified | w2/behLibrary.cpp:437-439 | a notified ally's blackboard; stated by BehLibrary.NotifyAll, BehLibrary.NotifiedWithoutReactor and BehLibrary.NotificationSelectsTarget |
| BehLibrary.NotificationSelectsTarget | w2/behLibrary.cpp:437-471 | an ally built with react_select_target ends with the notified enemy in its enemy slot |
| BehLibrary.RegVar | w2/behLibrary.cpp:178 | reg_entity_blackboard_var registers the name on the entity's blackboard, keeps the slots, the earlier names and well-formedness |
| BehLibrary.MakePatrol | w2/behLibrary.cpp:333-341 | the patrol constructor registers the slot and stores the agent's current position in it |
| BehLibrary.MakeChooseWaypoint | w2/behLibrary.cpp:363-376 | the choose_waypoint constructor registers two distinct slots under one name and stores the first waypoint and its position when it exists |
| BehLibrary.MakeReactSelectTarget | w2/behLibrary.cpp:453-458 | the react_select_target constructor registers the enemy and payload slots (distinct for distinct names) and writes no slot |
| BehLibrary.MakeComposite | w2/behLibrary.cpp:476-521 | sequence, selector, parallel, negate, orNode and andNode build a compound node with runningIdx -1 over the given children. It may run iff it is a sequence, selector or parallel node with a child that may run, or an empty parallel node |
| BehLibrary.TreeUpdate | w2/behaviourTree.h:50-53 | BehaviourTree::update keeps the frame and the tree's shape |
| BehLibrary.TreeReact | w2/behaviourTree.h:55-58 | BehaviourTree::react on a tree with no reactor leaves the blackboard unchanged |
| BehEval.ReactNode | w2/behLibrary.cpp:26-49 | the react methods compute exactly React |
| BehEval.NotifyAllies | w2/behLibrary.cpp:431-441 | the allies loop updates the world exactly as NotifyAll says |
| BehEval.UpdateLeaf | w2/behLibrary.cpp:173-474 | every leaf's update method computes exactly LeafTick on the world array |
| BehEval.Update | w2/behaviourTree.h:22 | a node's update computes exactly Tick: answer, new node, world and random tape |
| BehEval.UpdateComposite | w2/behLibrary.cpp:52-153 | a compound node's loop over its children computes exactly its answer, children and runningIdx from Tick |
| Turns.MovePos | w1/roguelike.cpp:299-310 | a move shifts the position by one cell on its axis, in its direction (up is +y in the first version, -y in the third). Any other action stays |
| Turns.MoveThenInverse | w1/roguelike.cpp:299-310 | moving then taking the inverse move returns to the start |
| Turns.W3MirrorsW1 | w3/roguelike.cpp:483-494 | the third version's move_pos is the first's with up and down exchanged |
| Turns.MoveTowardsApproaches | w1/aiLibrary.cpp:25-33 | under the first version's move_pos, moving towards a different cell shortens the Manhattan distance by one |
| Turns.IsPlayerActed | w1/roguelike.cpp:276-285 | is_player_acted answers whether the last live player's action is not NOP |
| Turns.PlayerActed | w1/roguelike.cpp:276-285 | whether the player acted; stated by Turns.IsPlayerActed, W1Turn.TurnGating and W3Turn.TurnGating |
| Turns.Wrapped | w1/roguelike.cpp:287-297 | whether some player's action counter wrapped; stated by Turns.UpdPlayerActionsCount, W1Turn.TurnGating and W3Turn.TurnGating |
| Turns.CRem | w1/roguelike.cpp:293 | C++'s % truncates: the remainder is smaller than the divisor in magnitude and has the dividend's sign |
| Turns.CountStepInRange | w1/roguelike.cpp:293-294 | a counter within range stays within range, wraps to 0 exactly from numActions-1, and otherwise goes up by one |
| Turns.CountRisesFromZero | w1/roguelike.cpp:293 | starting from 0 the counter reads k after k < numActions player actions |
| Turns.CountPeriodic | w1/roguelike.cpp:293 | the counter repeats with period numActions |
| Turns.CountCycles | w1/roguelike.cpp:293 | after q full rounds and r more actions the counter reads r |
| Turns.Counted | w1/roguelike.cpp:287-297 | every live player's counter takes one step and no other entity changes |
| Turns.UpdPlayerActionsCount | w1/roguelike.cpp:287-297 | upd_player_actions_count steps the counters and answers whether some player's counter wrapped to 0 |
| Turns.CountedInRange | w1/roguelike.cpp:293-294 | a stepped counter stays within range and is 0 exactly after numActions-1 |
| Turns.Strike | w1/roguelike.cpp:323-331 | the attack loop takes the striker's damage off every character of another team already holding the target cell. No one else changes |
| Turns.Resolve | w1/roguelike.cpp:320-335 | a blocked character's action becomes NOP, an unblocked one reserves its target cell, and every other character loses the striker's damage iff it is hit |
| Turns.MovesUpTo | w1/roguelike.cpp:319-336 | the first pass over the first n characters, with the number of strikes |
| Turns.ResolveActor | w3/roguelike.cpp:526-546 | one character's first pass changes the world as Resolve says and logs one "damaged entity" per strike |
| Turns.StrikeTarget | w3/roguelike.cpp:529-541 | the attack loop changes the world as Strike says, answers whether the cell was held, and logs each strike |
| Turns.ReserveCells | w3/roguelike.cpp:526-546 | the first pass changes the world as MovesUpTo says and logs every strike in order |
| Turns.Commit | w1/roguelike.cpp:338-342 | every live character moves to its reservation with its action cleared, and nothing else changes |
| Turns.CommitMoves | w1/roguelike.cpp:338-342 | the second pass computes exactly Commit |
| Turns.RemoveDead | w1/roguelike.cpp:345-353 | exactly the characters with hp <= 0 die, and nothing else changes |
| Turns.DeleteDead | w1/roguelike.cpp:345-353 | the removal loop computes exactly RemoveDead |
| Turns.PickedUp | w1/roguelike.cpp:355-379 | each player gains every heal and power-up on its cell, a pickup dies iff some player stands on it, and nothing else changes |
| Turns.SinglePlayerPickup | w1/roguelike.cpp:355-379 | with one player, it gains the sum of the heals and of the power-ups on its cell, and exactly the pickups on other cells survive |
| Turns.CollectHeals | w1/roguelike.cpp:361-368 | the heal loop adds the heals on the player's cell and marks them for destruction |
| Turns.CollectPowerups | w1/roguelike.cpp:369-376 | the power-up loop adds the power-ups on the player's cell and marks them for destruction |
| Turns.CollectPickups | w1/roguelike.cpp:359-377 | one player's pickup step extends the collected state by that player |
| Turns.Pickups | w1/roguelike.cpp:355-379 | the deferred pickup pass computes exactly PickedUp, destructions taking effect at the end |
| Turns.HealOn | w1/roguelike.cpp:361-368 | the heal a player on a cell collects; stated by Turns.SinglePlayerPickup, Turns.CollectHeals and Turns.PickedUp |
| Turns.PowerupOn | w1/roguelike.cpp:369-376 | the power-up a player on a cell collects; stated by Turns.SinglePlayerPickup and Turns.PickedUp |
| Turns.ResolveKeepsDistinct | w1/roguelike.cpp:320-335 | one character's first pass keeps live characters' reservations pairwise distinct |
| Turns.MovesKeepDistinct | w1/roguelike.cpp:319-336 | the whole first pass keeps reservations pairwise distinct |
| Turns.MovementSeparates | w1/roguelike.cpp:319-353 | after both passes and the removal of the dead, live characters stand on pairwise different cells, each on its reservation with action NOP |
| Turns.Actions | w1/roguelike.cpp:312-380 | process_actions' movement passes, removal of the dead and pickups, as a function of the world |
| Turns.ActionsSeparate | w1/roguelike.cpp:312-380 | process_actions leaves live characters on pairwise different cells, on their reservations with action NOP, provided their reservations were distinct |
| Turns.ResolveActions | w1/roguelike.cpp:312-380 | process_actions without heals changes the world exactly as Actions says, and logs every strike when there is a log |
| W1Turn.CooldownStep | w1/roguelike.cpp:384-396 | a cooldown counter counts down by one to 0, is clamped to the cooldown, and the ability is otherwise unchanged |
| W1Turn.CooldownRunsDown | w1/roguelike.cpp:384-396 | after n turns a counter within range reads max(counter - n, 0) and stays within range |
| W1Turn.CooldownSteps | w1/roguelike.cpp:382-397 | a heal ability after n cooldown passes; stated by W1Turn.CooldownRunsDown |
| W1Turn.Cooled | w1/roguelike.cpp:382-397 | every live entity with a heal ability takes one cooldown step and nothing else changes |
| W1Turn.ProcessCooldowns | w1/roguelike.cpp:382-397 | process_cooldowns computes exactly Cooled |
| W1Turn.ActKeepsLayout | w1/aiLibrary.cpp:116-246 | no state's act moves anyone or changes liveness, kind, team or heal ability |
| W1Turn.TickAt | w1/roguelike.cpp:409-412 | one agent's machine takes its step and acts, keeping the layout |
| W1Turn.PlanUpTo | w1/roguelike.cpp:407-413 | the planning pass over the first n agents keeps the layout and leaves later machines alone |
| W1Turn.PlanAll | w1/roguelike.cpp:407-413 | the planning loop computes exactly PlanUpTo |
| W1Turn.Turn | w1/roguelike.cpp:399-419 | a turn keeps the number of entities and machines |
| W1Turn.ProcessTurn | w1/roguelike.cpp:399-419 | process_turn changes the world, the machines and the random tape exactly as Turn says |
| W1Turn.TurnGating | w1/roguelike.cpp:399-419 | without a player action nothing happens. Machines step and the tape is consumed only when the counter wraps. Actions and cooldowns are resolved on every player action |
| W1Turn.TurnKeepsCharactersApart | w1/roguelike.cpp:399-419 | a turn keeps reservations distinct, and after a player action live characters stand on pairwise different cells |
| W1Turn.CooledKeepsApart | w1/roguelike.cpp:382-397 | cooldowns move nobody |
| W3Turn.Healed | w3/roguelike.cpp:517-525 | every character whose action is a self-heal gains 10 hp and gets action NOP. Nothing else changes |
| W3Turn.HealPass | w3/roguelike.cpp:517-525 | the heal loop computes exactly Healed and logs "Monster healed itself" once per self-heal |
| W3Turn.HealedKeepsLayout | w3/roguelike.cpp:517-525 | the heal pass moves nobody and leaves no live character with a pending self-heal |
| W3Turn.ProcessActions | w3/roguelike.cpp:509-590 | process_actions applies the heal pass, then the movement passes, the removal of the dead and the pickups. It logs the self-heals and then the strikes |
| W3Turn.AlliesNear | w3/roguelike.cpp:618-619 | the number of teammates within 5 is between 0 and the number scanned, and at least 1 for a live character, which counts itself |
| W3Turn.ClosestSqIsMin | w3/roguelike.cpp:620-631 | the closest-enemy and closest-ally readings are at most FLT_MAX, no measured character is closer, and the reading is the distance to one of them unless it is FLT_MAX |
| W3Turn.ClosestSq | w3/roguelike.cpp:620-631 | the closest-enemy and closest-ally readings; stated by W3Turn.ClosestSqIsMin and W3Turn.ClosestReadsBodies |
| W3Turn.PushNum | w3/roguelike.cpp:593-597 | push_info_to_bb leaves the value readable under its name |
| W3Turn.PushNumValid | w3/roguelike.cpp:593-597 | pushing keeps the blackboard well formed |
| W3Turn.PushNumKeeps | w3/roguelike.cpp:593-597 | pushing under one name leaves other names' handles and values alone |
| W3Turn.SenseIntoReadBack | w3/roguelike.cpp:608-641 | after the sensor, hp, alliesNum, enemyDist, allyDist and baseDist read back the values written, baseDist measured to the base_wp position |
| W3Turn.SensedReadBack | w3/roguelike.cpp:608-641 | a sensing character reads its hp, at least one ally nearby, the closest-enemy reading, and a closest-ally distance of 0 (itself) |
| W3Turn.SensedReadsBodies | w3/roguelike.cpp:603-641 | the sensor depends only on the others' liveness, kind, position and team |
| W3Turn.Gathered | w3/roguelike.cpp:600-643 | gather_world_info keeps the number of entities |
| W3Turn.GatheredAt | w3/roguelike.cpp:600-643 | each sensing agent's blackboard is refreshed from the world as it was before the pass, and nothing else changes |
| W3Turn.GatheredKeepsLayout | w3/roguelike.cpp:600-643 | the sensors move nobody |
| W3Turn.SensorsReadBodies | w3/roguelike.cpp:615-632 | the ally count and the closest readings depend only on liveness, kind, position and team |
| W3Turn.Sense | w3/roguelike.cpp:606-642 | one agent's sensor loop writes exactly Sensed into its blackboard and changes nothing else |
| W3Turn.SenseInto | w3/roguelike.cpp:608-641 | an agent's blackboard after its sensor; stated by W3Turn.SenseIntoReadBack |
| W3Turn.Sensed | w3/roguelike.cpp:603-641 | the blackboard of a sensing agent; stated by W3Turn.SensedReadBack, W3Turn.SensedReadsBodies, W3Turn.Sense and Utilities.NoEnemyNoFight |
| W3Turn.Refreshed | w3/roguelike.cpp:600-643 | the world after the sensor pass; stated by W3Turn.RefreshedAt |
| W3Turn.GatherWorldInfo | w3/roguelike.cpp:600-643 | the sensor loop over all agents computes exactly Gathered |
| W3Turn.Turn | w3/roguelike.cpp:645-671 | a turn keeps the number of entities |
| W3Turn.ProcessTurn | w3/roguelike.cpp:645-671 | process_turn changes the world, the log and the turn counter exactly as Turn says |
| W3Turn.GatherAndPlan | w3/roguelike.cpp:655-666 | planning reads the freshly gathered world |
| W3Turn.TurnGating | w3/roguelike.cpp:645-671 | without a player action nothing happens. The sensors, planning and the turn counter run only when the counter wraps. Heals and actions are resolved on every player action |
| W3Turn.TurnLogIsWindow | w3/roguelike.cpp:645-671 | the log stays within capacity and holds the newest entries of the old log and this turn's messages, stamped with the turn in effect |
| W3Turn.TurnKeepsCharactersApart | w3/roguelike.cpp:645-671 | when planning moves nobody, a turn keeps reservations distinct, and after a player action live characters stand on pairwise different cells |
| Utilities.ReadNum | w3/roguelike.cpp:21-22 | bb.get<float> of a name never registered reads 0 |
| Utilities.FuzzyAgainstPatrol | w3/roguelike.cpp:19-50 | against patrolling (50), patching up wins iff hp < 90, attacking wins iff enemyDist < 5, and fleeing wins iff 50*enemyDist < 450 - 5*hp |
| Utilities.FleeAgainstAttack | w3/roguelike.cpp:19-35 | fleeing outscores attacking iff 40*enemyDist < 400 - 5*hp |
| Utilities.NoEnemyNoFight | w3/roguelike.cpp:613-641 | when the sensor saw no enemy (FLT_MAX), a character with non-negative hp scores fleeing and attacking below patrolling |
| Utilities.HiveAttackScore | w3/roguelike.cpp:86-97 | the hive's attack score is non-negative and bounded by both the enemy ramp and the base ramp |
| Utilities.HiveReturnScore | w3/roguelike.cpp:102-115 | the hive's return score is non-negative and bounded by both the ally ramp and the base ramp |
| Utilities.FleeScore | w3/roguelike.cpp:19-24 | the flee utility; stated by Utilities.FuzzyAgainstPatrol, Utilities.FleeAgainstAttack and Utilities.NoEnemyNoFight |
| Utilities.AttackScore | w3/roguelike.cpp:30-35 | the attack utility; stated by Utilities.FuzzyAgainstPatrol, Utilities.FleeAgainstAttack and Utilities.NoEnemyNoFight |
| Utilities.PatchUpScore | w3/roguelike.cpp:46-50 | the patch-up utility; stated by Utilities.FuzzyAgainstPatrol |
| Utilities.PatrolScore | w3/roguelike.cpp:39-42 | the constant patrol utility 50, the threshold compared in Utilities.FuzzyAgainstPatrol and Utilities.NoEnemyNoFight |
| Utilities.AttackEnemyRamp | w3/roguelike.cpp:59-60 | the enemy ramp of the hive's attack score; stated by Utilities.RampEnds, Utilities.AttackEnemyRampEnd and Utilities.HiveAttackScore |
| Utilities.AttackBaseRamp | w3/roguelike.cpp:62-63 | the base ramp of the hive's attack score; stated by Utilities.RampEnds, Utilities.AttackBaseRampEnds and Utilities.HiveAttackScore |
| Utilities.ReturnAllyRamp | w3/roguelike.cpp:65 | the ally ramp of the hive's return score; stated by Utilities.RampEnds, Utilities.ReturnAllyRampEnd and Utilities.HiveReturnScore |
| Utilities.ReturnBaseRamp | w3/roguelike.cpp:67-68 | the base ramp of the hive's return score; stated by Utilities.RampEnds, Utilities.ReturnBaseRampEnds and Utilities.HiveReturnScore |
| Utilities.RampEnds | w3/roguelike.cpp:59-69 | the ramps pass through their intended ends: 100 at distance 0 and 0 at atk_rad for the enemy, 0 at base_rad2 and 100 at base_rad1 for attacking, the reverse for returning, and 0 at 0 and 100 at ally_rad for the ally |
| Utilities.AttackEnemyRampEnd | w3/roguelike.cpp:59-60 | the enemy ramp reaches 0 at atk_rad |
| Utilities.AttackBaseRampEnds | w3/roguelike.cpp:62-63 | the attack base ramp is 0 at base_rad2 and 100 at base_rad1 |
| Utilities.ReturnBaseRampEnds | w3/roguelike.cpp:67-68 | the return base ramp is 0 at base_rad1 and 100 at base_rad2 |
| Utilities.ReturnAllyRampEnd | w3/roguelike.cpp:65 | the ally ramp reaches 100 at ally_rad |
| Utilities.HiveAttackBounds | w3/roguelike.cpp:86-97 | the hive does not attack an enemy at or beyond atk_rad, nor when at or inside base_rad2 while base_rad2 < base_rad1 |
| Utilities.ReturnNeedsDistantAlly | w3/roguelike.cpp:102-115 | with the closest teammate at distance 0 the return score is 0 |
| Utilities.SensedHiveNeverReturns | w3/roguelike.cpp:614-631 | since the sensor counts the agent itself as its closest teammate, a sensing hive agent always scores returning at 0 |

## Left out

- Rendering, input handling, scene setup, entity creation (create_monster, create_player and the like), print_stats, and the flecs system registration are not modelled.
- The flecs world is an array of entity records. Handles are indices, queries visit entities in index order, and `destruct` sets `alive` to false. The deferred destruction of pickups (Turns.Pickups) takes effect at the end of its block; the other deferred blocks are modelled as taking effect immediately, in query order. Component presence is a kind and flags on the record.
- W1Turn.PlanUpTo: each agent's act takes effect immediately, in query order, so a later agent's transitions see an earlier agent's writes in the same planning pass (a squire's heal of the player is seen by a later squire's PlayerHitpointsLessThan). flecs may queue such writes until the end of the deferred block (w1/roguelike.cpp:407-413); the model does not capture that.
- Random numbers (`rng.gen()` in the first version, `GetRandomValue` in the second) are draws from a tape `rng: nat`. The generator itself is not modelled.
- Floats are modelled as reals, and rounding is not modelled. Hitpoints, damage and scores are exact.
- W3Turn.SenseInto: the sensor stores squared distances in enemyDist, allyDist and baseDist where the source stores their square roots (sqrtf). The utility lemmas are stated over the slot values and hold either way. FLT_MAX and the 0 self-distance are the same under both.
- W3Turn.ClosestSq: compares squared distances. By GridMath.DistLeIffSquaresLe, this picks the same minimum as comparing square roots.
- Utilities.HiveAttackScore: requires non-zero atk_rad, ally_rad and base_rad1 - base_rad2. The source divides by them and would get infinities; IEEE infinities are not modelled.
- Utilities.HiveReturnScore: same precondition as HiveAttackScore.
- The utility selector (utility_selector) and the patch_up behaviour are not part of this model. Only the score functions they are given are modelled.
- The planning of the third version (state machines' act and behaviour trees' update, run over the gathered world) is a parameter `plan` of W3Turn.Turn. The first version's state-machine planning is modelled in full (W1Turn.PlanAll).
- The StateMachine and Blackboard classes (stateMachine.h, blackboard.h) are not part of this model. They are modelled by the behaviour their callers rely on: the first firing edge out of the current state is taken; names are keyed by name and type; an unwritten slot reads as a default value.
- State::enter and State::exit are empty in the source and are not modelled. AttackEnemyState and NopState act as no-ops.
- create_ant_beh and the other tree builders of the game setup are not modelled; the node factories are (BehLibrary.MakeComposite and the leaf constructors).
- Destructors and ownership (delete of children and transitions) are not modelled.
- The assertions that an Or, And or Negate node's child never runs, and that Negate has one child, are a WellFormed precondition on the trees rather than run-time checks.
- A behaviour tree is a value. An update returns the new tree (its runningIdx fields) rather than changing it in place.
- Log entries keep the turn number and the message. The string formatting "turn: msg" and the printf tracing are not modelled.
- The third version's sensor is modelled for live characters that carry the WorldInfoGatherer tag. Entities without a team are not measured.

## Findings

| source | as written | input that shows it | evidently intended | confidence | as-written member | corrected member |
|---|---|---|---|---|---|---|
| w1/roguelike.cpp:20-26 | add_patrol_attack_flee_sm adds patrol→moveToEnemy on "enemy within 3" before patrol→flee on "hp < 60 and enemy within 3". The flee edge's condition implies the chase edge's condition, so with the first firing edge taken the patroller never flees | a patroller with 55 hp and an enemy at distance 2 starts chasing instead of fleeing | a hurt patroller with an enemy within 3 flees, as a hurt chaser does (lines 23-24). The healer's machine shows the same convention: the higher-priority edge is added first (line 81) | medium, not executed; relies on stateMachine.h taking the first firing edge, which is not part of this model | StateMachines.PatrolToFleeEdgeNeverTaken | StateMachines.PatrolAttackFleeFixedFromPatrol |
