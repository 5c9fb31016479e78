/** The agents' state machines: the state and edge lists that w1/roguelike.cpp
    registers for each kind of monster, and one tick of a machine. The
    StateMachine class itself (stateMachine.h) is not part of this model; its
    tick is modelled through the rule the tables are written against: the
    outgoing edges of the current state are tried in registration order, the
    first whose transition holds is taken (at most one per tick), and then the
    state that is current acts once. The enter and exit hooks of every shown
    state are empty, so they are not modelled. */
module StateMachines {
  import opened Components
  import opened GridMath
  import opened World
  import opened AiLibrary

  datatype Edge = Edge(cond: Transition, from: nat, to: nat)

  /** States addressed by index, edges in registration order, the current state. */
  datatype StateMachine = StateMachine(states: seq<State>, edges: seq<Edge>, current: nat)

  predicate WellFormed(sm: StateMachine) {
    && 0 < |sm.states|
    && sm.current < |sm.states|
    && forall i :: 0 <= i < |sm.edges| ==> sm.edges[i].from < |sm.states| && sm.edges[i].to < |sm.states|
  }

  /** A machine before anything is registered; its first state will be the initial one. */
  function NewMachine(): StateMachine {
    StateMachine([], [], 0)
  }

  /** addState: appends a state and returns its index. */
  function AddState(sm: StateMachine, s: State): (r: (StateMachine, nat))
    ensures r.0 == sm.(states := sm.states + [s])
    ensures r.1 == |sm.states| && r.0.states[r.1] == s
  {
    (sm.(states := sm.states + [s]), |sm.states|)
  }

  /** addTransition: appends an edge, which has the lowest priority so far among the
      edges leaving the same state. */
  function AddTransition(sm: StateMachine, t: Transition, from: nat, to: nat): (r: StateMachine)
    ensures r.edges == sm.edges + [Edge(t, from, to)]
    ensures r.states == sm.states && r.current == sm.current
  {
    sm.(edges := sm.edges + [Edge(t, from, to)])
  }

  ghost predicate Fires(sm: StateMachine, es: seq<Entity>, me: nat, i: nat)
    requires me < |es| && i < |sm.edges|
  {
    sm.edges[i].from == sm.current && Available(sm.edges[i].cond, es, me)
  }

  /** The first edge at index k or later that leaves the current state and whose
      transition holds. */
  ghost function FirstFiringFrom(sm: StateMachine, es: seq<Entity>, me: nat, k: nat): (r: Option<nat>)
    requires me < |es| && k <= |sm.edges|
    ensures r.None? <==> forall j :: k <= j < |sm.edges| ==> !Fires(sm, es, me, j)
    ensures r.Some? ==> k <= r.value < |sm.edges| && Fires(sm, es, me, r.value)
                        && forall j :: k <= j < r.value ==> !Fires(sm, es, me, j)
    decreases |sm.edges| - k
  {
    if k == |sm.edges| then None
    else if Fires(sm, es, me, k) then Some(k)
    else FirstFiringFrom(sm, es, me, k + 1)
  }

  /** The state that is current after the transition step of one tick. */
  ghost function Next(sm: StateMachine, es: seq<Entity>, me: nat): nat
    requires me < |es|
  {
    match FirstFiringFrom(sm, es, me, 0)
    case Some(i) => sm.edges[i].to
    case None => sm.current
  }

  /** One tick of an agent's machine: take at most one transition, then act once
      in the state that is now current. */
  method Tick(sm: StateMachine, es: array<Entity>, me: nat, tape: nat) returns (sm': StateMachine, tape': nat)
    requires WellFormed(sm) && me < es.Length
    requires (exists i :: 0 <= i < |sm.states| && sm.states[i].HealPlayerState?) ==> es[me].heal.Some?
    modifies es
    ensures sm' == sm.(current := Next(sm, old(es[..]), me))
    ensures WellFormed(sm')
    ensures (es[..], tape') == ActResult(sm'.states[sm'.current], old(es[..]), me, tape)
  {
    ghost var es0 := es[..];
    var next := sm.current;
    var found := false;
    var i := 0;
    while i < |sm.edges| && !found
      invariant 0 <= i <= |sm.edges|
      invariant !found ==> FirstFiringFrom(sm, es[..], me, 0) == FirstFiringFrom(sm, es[..], me, i)
      invariant found ==> 0 < i && FirstFiringFrom(sm, es[..], me, 0) == Some(i - 1) && next == sm.edges[i - 1].to
      invariant !found ==> next == sm.current
      invariant next < |sm.states|
      invariant es[..] == es0
    {
      var e := sm.edges[i];
      if e.from == sm.current {
        var ok := IsAvailable(e.cond, es, me);
        if ok {
          next, found := e.to, true;
        }
      }
      i := i + 1;
    }
    assert next == Next(sm, es0, me);
    sm' := sm.(current := next);
    assert sm'.states[next].HealPlayerState? ==> es[me].heal.Some?;
    tape' := Act(sm'.states[next], es, me, tape);
  }

  // ---------------------------------------------------------------------------
  // The machines registered by w1/roguelike.cpp

  /** add_patrol_attack_flee_sm: patrol (0), moveToEnemy (1), fleeFromEnemy (2). */
  function PatrolAttackFleeSm(): StateMachine {
    var (m0, patrol) := AddState(NewMachine(), PatrolState(3.0));
    var (m1, moveToEnemy) := AddState(m0, MoveToEnemyState);
    var (m2, fleeFromEnemy) := AddState(m1, FleeFromEnemyState);
    var m3 := AddTransition(m2, EnemyAvailable(3.0), patrol, moveToEnemy);
    var m4 := AddTransition(m3, NegateTransition(EnemyAvailable(5.0)), moveToEnemy, patrol);
    var m5 := AddTransition(m4, AndTransition(HitpointsLessThan(60.0), EnemyAvailable(5.0)), moveToEnemy, fleeFromEnemy);
    var m6 := AddTransition(m5, AndTransition(HitpointsLessThan(60.0), EnemyAvailable(3.0)), patrol, fleeFromEnemy);
    AddTransition(m6, NegateTransition(EnemyAvailable(7.0)), fleeFromEnemy, patrol)
  }

  /** add_patrol_flee_sm: patrol (0), fleeFromEnemy (1). */
  function PatrolFleeSm(): StateMachine {
    var (m0, patrol) := AddState(NewMachine(), PatrolState(3.0));
    var (m1, fleeFromEnemy) := AddState(m0, FleeFromEnemyState);
    var m2 := AddTransition(m1, EnemyAvailable(3.0), patrol, fleeFromEnemy);
    AddTransition(m2, NegateTransition(EnemyAvailable(5.0)), fleeFromEnemy, patrol)
  }

  /** add_attack_sm: a single moveToEnemy state. */
  function AttackSm(): StateMachine {
    AddState(NewMachine(), MoveToEnemyState).0
  }

  /** add_berserker_sm: patrol (0), moveToEnemy (1). */
  function BerserkerSm(): StateMachine {
    var (m0, patrol) := AddState(NewMachine(), PatrolState(3.0));
    var (m1, moveToEnemy) := AddState(m0, MoveToEnemyState);
    var m2 := AddTransition(m1, OrTransition(HitpointsLessThan(60.0), EnemyAvailable(3.0)), patrol, moveToEnemy);
    AddTransition(m2, NegateTransition(OrTransition(HitpointsLessThan(60.0), EnemyAvailable(3.0))), moveToEnemy, patrol)
  }

  /** add_healer_sm: patrol (0), moveToEnemy (1), heal (2). */
  function HealerSm(hpRegen: real): StateMachine {
    var (m0, patrol) := AddState(NewMachine(), PatrolState(3.0));
    var (m1, moveToEnemy) := AddState(m0, MoveToEnemyState);
    var (m2, heal) := AddState(m1, HealSelfState(hpRegen));
    var m3 := AddTransition(m2, HitpointsLessThan(60.0), patrol, heal);
    var m4 := AddTransition(m3, EnemyAvailable(3.0), patrol, moveToEnemy);
    var m5 := AddTransition(m4, HitpointsLessThan(60.0), moveToEnemy, heal);
    var m6 := AddTransition(m5, NegateTransition(EnemyAvailable(3.0)), moveToEnemy, patrol);
    var m7 := AddTransition(m6, AndTransition(NegateTransition(HitpointsLessThan(60.0)), EnemyAvailable(3.0)), heal, moveToEnemy);
    AddTransition(m7, NegateTransition(HitpointsLessThan(60.0)), heal, patrol)
  }

  /** add_squire_sm: moveToPlayer (0), healPlayer (1), moveToEnemy (2). */
  function SquireSm(): StateMachine {
    var (m0, moveToPlayer) := AddState(NewMachine(), MoveToPlayerState);
    var (m1, healPlayer) := AddState(m0, HealPlayerState);
    var (m2, moveToEnemy) := AddState(m1, MoveToEnemyState);
    var m3 := AddTransition(m2, AndTransition(PlayerHitpointsLessThan(100.0), PlayerNearby(3.1)), moveToPlayer, healPlayer);
    var m4 := AddTransition(m3, AndTransition(NegateTransition(PlayerHitpointsLessThan(100.0)), EnemyAvailable(4.0)),
                            moveToPlayer, moveToEnemy);
    var m5 := AddTransition(m4, AndTransition(PlayerHitpointsLessThan(100.0), PlayerNearby(3.1)), moveToEnemy, healPlayer);
    var m6 := AddTransition(m5, OrTransition(PlayerHitpointsLessThan(100.0), NegateTransition(EnemyAvailable(6.0))),
                            moveToEnemy, moveToPlayer);
    var m7 := AddTransition(m6, AndTransition(NegateTransition(PlayerHitpointsLessThan(100.0)), EnemyAvailable(4.0)),
                            healPlayer, moveToEnemy);
    AddTransition(m7, NegateTransition(AndTransition(PlayerHitpointsLessThan(100.0), PlayerNearby(1.1))),
                  healPlayer, moveToPlayer)
  }

  // ---------------------------------------------------------------------------
  // What each table does in one tick

  ghost predicate EnemyWithin(es: seq<Entity>, me: nat, d: real)
    requires me < |es|
  {
    Available(EnemyAvailable(d), es, me)
  }

  /** The state after one tick's transition step, for the machine `sm` put in state `cur`. */
  ghost function NextFrom(sm: StateMachine, cur: nat, es: seq<Entity>, me: nat): nat
    requires me < |es|
  {
    Next(sm.(current := cur), es, me)
  }

  /** The edge at index i is taken when it fires and no edge before it does. */
  lemma NextIsFirstFiring(sm: StateMachine, es: seq<Entity>, me: nat, i: nat)
    requires me < |es| && i < |sm.edges|
    requires Fires(sm, es, me, i)
    requires forall j :: 0 <= j < i ==> !Fires(sm, es, me, j)
    ensures Next(sm, es, me) == sm.edges[i].to
  {
  }

  /** With no edge firing, the current state stays. */
  lemma NextIsCurrent(sm: StateMachine, es: seq<Entity>, me: nat)
    requires me < |es|
    requires forall j :: 0 <= j < |sm.edges| ==> !Fires(sm, es, me, j)
    ensures Next(sm, es, me) == sm.current
  {
  }

  /** When exactly the edges a < b leave the current state, the tick takes the first
      of them whose transition holds, or stays. */
  lemma NextOfTwo(sm: StateMachine, es: seq<Entity>, me: nat, a: nat, b: nat)
    requires me < |es| && a < b < |sm.edges|
    requires sm.edges[a].from == sm.current && sm.edges[b].from == sm.current
    requires forall j :: 0 <= j < |sm.edges| && j != a && j != b ==> sm.edges[j].from != sm.current
    ensures Next(sm, es, me) ==
              if Available(sm.edges[a].cond, es, me) then sm.edges[a].to
              else if Available(sm.edges[b].cond, es, me) then sm.edges[b].to
              else sm.current
  {
    if Available(sm.edges[a].cond, es, me) {
      NextIsFirstFiring(sm, es, me, a);
    } else if Available(sm.edges[b].cond, es, me) {
      NextIsFirstFiring(sm, es, me, b);
    } else {
      NextIsCurrent(sm, es, me);
    }
  }

  /** The edge conditions of the patrol / attack / flee machine in terms of the facts they test. */
  lemma PatrolAttackFleeConditions(es: seq<Entity>, me: nat)
    requires me < |es|
    ensures Available(NegateTransition(EnemyAvailable(5.0)), es, me) == !EnemyWithin(es, me, 5.0)
    ensures Available(AndTransition(HitpointsLessThan(60.0), EnemyAvailable(5.0)), es, me)
            == (es[me].hp < 60.0 && EnemyWithin(es, me, 5.0))
    ensures Available(AndTransition(HitpointsLessThan(60.0), EnemyAvailable(3.0)), es, me)
            == (es[me].hp < 60.0 && EnemyWithin(es, me, 3.0))
  {
  }

  lemma PatrolAttackFleeTable()
    ensures PatrolAttackFleeSm() == StateMachine([PatrolState(3.0), MoveToEnemyState, FleeFromEnemyState], [
      Edge(EnemyAvailable(3.0), 0, 1),
      Edge(NegateTransition(EnemyAvailable(5.0)), 1, 0),
      Edge(AndTransition(HitpointsLessThan(60.0), EnemyAvailable(5.0)), 1, 2),
      Edge(AndTransition(HitpointsLessThan(60.0), EnemyAvailable(3.0)), 0, 2),
      Edge(NegateTransition(EnemyAvailable(7.0)), 2, 0)], 0)
  {
  }

  /** add_patrol_attack_flee_sm as registered, from patrol: an enemy within 3 starts the
      chase, otherwise patrol goes on. The patrol -> flee edge is never taken, because the
      patrol -> moveToEnemy edge registered before it holds whenever it does. */
  lemma PatrolAttackFleeFromPatrol(es: seq<Entity>, me: nat)
    requires me < |es|
    ensures WellFormed(PatrolAttackFleeSm())
    ensures NextFrom(PatrolAttackFleeSm(), 0, es, me) == if EnemyWithin(es, me, 3.0) then 1 else 0
  {
    PatrolAttackFleeTable();
    PatrolAttackFleeConditions(es, me);
    NextOfTwo(PatrolAttackFleeSm().(current := 0), es, me, 0, 3);
  }

  /** From moveToEnemy: losing the enemy beyond 5 returns to patrol; otherwise low
      hitpoints start the flight; otherwise the chase goes on. */
  lemma PatrolAttackFleeFromChase(es: seq<Entity>, me: nat)
    requires me < |es|
    ensures NextFrom(PatrolAttackFleeSm(), 1, es, me) ==
              if !EnemyWithin(es, me, 5.0) then 0 else if es[me].hp < 60.0 then 2 else 1
  {
    PatrolAttackFleeTable();
    PatrolAttackFleeConditions(es, me);
    NextOfTwo(PatrolAttackFleeSm().(current := 1), es, me, 1, 2);
  }

  /** From fleeFromEnemy: the flight ends once no enemy is within 7. */
  lemma PatrolAttackFleeFromFlee(es: seq<Entity>, me: nat)
    requires me < |es|
    ensures NextFrom(PatrolAttackFleeSm(), 2, es, me) == if !EnemyWithin(es, me, 7.0) then 0 else 2
  {
    PatrolAttackFleeTable();
    var at := PatrolAttackFleeSm().(current := 2);
    assert !Fires(at, es, me, 0) && !Fires(at, es, me, 1) && !Fires(at, es, me, 2) && !Fires(at, es, me, 3);
    if !EnemyWithin(es, me, 7.0) {
      NextIsFirstFiring(at, es, me, 4);
    } else {
      NextIsCurrent(at, es, me);
    }
  }

  /** add_patrol_attack_flee_sm: an agent below 60 hitpoints that is chasing an enemy
      within 3 (hence within 5) turns to flight on its next tick. */
  lemma ScenarioLowHpChaserFlees(es: seq<Entity>, me: nat)
    requires me < |es|
    requires es[me].hp == 55.0 && EnemyWithin(es, me, 3.0) && EnemyWithin(es, me, 5.0)
    ensures NextFrom(PatrolAttackFleeSm(), 1, es, me) == 2
  {
    PatrolAttackFleeFromChase(es, me);
  }

  /** As registered, a patrolling agent never goes straight to flight, whatever its
      hitpoints: with 55 hitpoints and an enemy within 3 it starts the chase instead. */
  lemma PatrolToFleeEdgeNeverTaken(es: seq<Entity>, me: nat)
    requires me < |es|
    ensures NextFrom(PatrolAttackFleeSm(), 0, es, me) != 2
    ensures es[me].hp < 60.0 && EnemyWithin(es, me, 3.0) ==> NextFrom(PatrolAttackFleeSm(), 0, es, me) == 1
  {
    PatrolAttackFleeFromPatrol(es, me);
  }

  /** add_patrol_attack_flee_sm with the patrol -> flee edge registered ahead of the
      patrol -> moveToEnemy edge, so that it can be taken. */
  function PatrolAttackFleeSmFixed(): StateMachine {
    var (m0, patrol) := AddState(NewMachine(), PatrolState(3.0));
    var (m1, moveToEnemy) := AddState(m0, MoveToEnemyState);
    var (m2, fleeFromEnemy) := AddState(m1, FleeFromEnemyState);
    var m3 := AddTransition(m2, AndTransition(HitpointsLessThan(60.0), EnemyAvailable(3.0)), patrol, fleeFromEnemy);
    var m4 := AddTransition(m3, EnemyAvailable(3.0), patrol, moveToEnemy);
    var m5 := AddTransition(m4, NegateTransition(EnemyAvailable(5.0)), moveToEnemy, patrol);
    var m6 := AddTransition(m5, AndTransition(HitpointsLessThan(60.0), EnemyAvailable(5.0)), moveToEnemy, fleeFromEnemy);
    AddTransition(m6, NegateTransition(EnemyAvailable(7.0)), fleeFromEnemy, patrol)
  }

  lemma PatrolAttackFleeFixedTable()
    ensures PatrolAttackFleeSmFixed() == StateMachine([PatrolState(3.0), MoveToEnemyState, FleeFromEnemyState], [
      Edge(AndTransition(HitpointsLessThan(60.0), EnemyAvailable(3.0)), 0, 2),
      Edge(EnemyAvailable(3.0), 0, 1),
      Edge(NegateTransition(EnemyAvailable(5.0)), 1, 0),
      Edge(AndTransition(HitpointsLessThan(60.0), EnemyAvailable(5.0)), 1, 2),
      Edge(NegateTransition(EnemyAvailable(7.0)), 2, 0)], 0)
  {
  }

  /** In the reordered table a weak patroller flees from an enemy within 3, a healthy
      one chases it, and the other states behave as registered. */
  lemma PatrolAttackFleeFixedFromPatrol(es: seq<Entity>, me: nat)
    requires me < |es|
    ensures WellFormed(PatrolAttackFleeSmFixed())
    ensures NextFrom(PatrolAttackFleeSmFixed(), 0, es, me) ==
              if !EnemyWithin(es, me, 3.0) then 0 else if es[me].hp < 60.0 then 2 else 1
  {
    PatrolAttackFleeFixedTable();
    PatrolAttackFleeConditions(es, me);
    NextOfTwo(PatrolAttackFleeSmFixed().(current := 0), es, me, 0, 1);
  }

  /** add_patrol_flee_sm: a patroller flees from an enemy within 3 and patrols again
      once none is within 5. */
  lemma PatrolFleeStep(es: seq<Entity>, me: nat)
    requires me < |es|
    ensures WellFormed(PatrolFleeSm())
    ensures NextFrom(PatrolFleeSm(), 0, es, me) == if EnemyWithin(es, me, 3.0) then 1 else 0
    ensures NextFrom(PatrolFleeSm(), 1, es, me) == if EnemyWithin(es, me, 5.0) then 1 else 0
  {
    var sm := PatrolFleeSm();
    assert sm.edges == [Edge(EnemyAvailable(3.0), 0, 1), Edge(NegateTransition(EnemyAvailable(5.0)), 1, 0)];
    var at0, at1 := sm.(current := 0), sm.(current := 1);
    assert !Fires(at0, es, me, 1) && !Fires(at1, es, me, 0);
    if EnemyWithin(es, me, 3.0) {
      NextIsFirstFiring(at0, es, me, 0);
    } else {
      NextIsCurrent(at0, es, me);
    }
    if EnemyWithin(es, me, 5.0) {
      NextIsCurrent(at1, es, me);
    } else {
      NextIsFirstFiring(at1, es, me, 1);
    }
  }

  /** add_attack_sm: the single chasing state never changes. */
  lemma AttackStep(es: seq<Entity>, me: nat)
    requires me < |es|
    ensures WellFormed(AttackSm())
    ensures AttackSm().states == [MoveToEnemyState]
    ensures NextFrom(AttackSm(), 0, es, me) == 0
  {
    NextIsCurrent(AttackSm(), es, me);
  }

  /** add_berserker_sm: from either state, the berserker chases exactly when it is
      below 60 hitpoints or an enemy is within 3, and patrols otherwise. */
  lemma BerserkerStep(es: seq<Entity>, me: nat, cur: nat)
    requires me < |es| && cur < 2
    ensures WellFormed(BerserkerSm())
    ensures NextFrom(BerserkerSm(), cur, es, me) == if es[me].hp < 60.0 || EnemyWithin(es, me, 3.0) then 1 else 0
  {
    var sm := BerserkerSm();
    var rage := OrTransition(HitpointsLessThan(60.0), EnemyAvailable(3.0));
    assert sm.edges == [Edge(rage, 0, 1), Edge(NegateTransition(rage), 1, 0)];
    var at := sm.(current := cur);
    assert Available(rage, es, me) <==> es[me].hp < 60.0 || EnemyWithin(es, me, 3.0);
    if cur == 0 {
      assert !Fires(at, es, me, 1);
      if Available(rage, es, me) {
        NextIsFirstFiring(at, es, me, 0);
      } else {
        NextIsCurrent(at, es, me);
      }
    } else {
      assert !Fires(at, es, me, 0);
      if Available(rage, es, me) {
        NextIsCurrent(at, es, me);
      } else {
        NextIsFirstFiring(at, es, me, 1);
      }
    }
  }

  /** The healer's edge conditions in terms of the facts they test. */
  lemma HealerConditions(es: seq<Entity>, me: nat)
    requires me < |es|
    ensures Available(HitpointsLessThan(60.0), es, me) == (es[me].hp < 60.0)
    ensures Available(NegateTransition(HitpointsLessThan(60.0)), es, me) == (es[me].hp >= 60.0)
    ensures Available(NegateTransition(EnemyAvailable(3.0)), es, me) == !EnemyWithin(es, me, 3.0)
    ensures Available(AndTransition(NegateTransition(HitpointsLessThan(60.0)), EnemyAvailable(3.0)), es, me)
            == (es[me].hp >= 60.0 && EnemyWithin(es, me, 3.0))
  {
  }

  lemma HealerTable(hpRegen: real)
    ensures HealerSm(hpRegen) == StateMachine([PatrolState(3.0), MoveToEnemyState, HealSelfState(hpRegen)], [
      Edge(HitpointsLessThan(60.0), 0, 2),
      Edge(EnemyAvailable(3.0), 0, 1),
      Edge(HitpointsLessThan(60.0), 1, 2),
      Edge(NegateTransition(EnemyAvailable(3.0)), 1, 0),
      Edge(AndTransition(NegateTransition(HitpointsLessThan(60.0)), EnemyAvailable(3.0)), 2, 1),
      Edge(NegateTransition(HitpointsLessThan(60.0)), 2, 0)], 0)
  {
  }

  /** add_healer_sm, from patrol and from moveToEnemy: low hitpoints send the healer
      to heal first; otherwise it chases an enemy within 3 and patrols when there is none. */
  lemma HealerFromPatrolOrChase(hpRegen: real, es: seq<Entity>, me: nat, cur: nat)
    requires me < |es| && cur < 2
    ensures WellFormed(HealerSm(hpRegen))
    ensures NextFrom(HealerSm(hpRegen), cur, es, me) ==
              if es[me].hp < 60.0 then 2 else if EnemyWithin(es, me, 3.0) then 1 else 0
  {
    HealerTable(hpRegen);
    HealerConditions(es, me);
    if cur == 0 {
      NextOfTwo(HealerSm(hpRegen).(current := 0), es, me, 0, 1);
    } else {
      NextOfTwo(HealerSm(hpRegen).(current := 1), es, me, 2, 3);
    }
  }

  /** add_healer_sm, from heal: healing goes on below 60 hitpoints; above, the healer
      chases an enemy within 3 in preference to patrolling. */
  lemma HealerFromHeal(hpRegen: real, es: seq<Entity>, me: nat)
    requires me < |es|
    ensures NextFrom(HealerSm(hpRegen), 2, es, me) ==
              if es[me].hp < 60.0 then 2 else if EnemyWithin(es, me, 3.0) then 1 else 0
  {
    HealerTable(hpRegen);
    HealerConditions(es, me);
    NextOfTwo(HealerSm(hpRegen).(current := 2), es, me, 4, 5);
  }

  /** The priority the healer's table is written for: whatever its state, a healer
      below 60 hitpoints is healing after the transition step. */
  lemma HealerHealsFirst(hpRegen: real, es: seq<Entity>, me: nat, cur: nat)
    requires me < |es| && cur < 3 && es[me].hp < 60.0
    ensures NextFrom(HealerSm(hpRegen), cur, es, me) == 2
  {
    if cur < 2 {
      HealerFromPatrolOrChase(hpRegen, es, me, cur);
    } else {
      HealerFromHeal(hpRegen, es, me);
    }
  }

  /** The squire's edge conditions in terms of the facts they test. */
  lemma SquireConditions(es: seq<Entity>, me: nat)
    requires me < |es|
    ensures Available(AndTransition(PlayerHitpointsLessThan(100.0), PlayerNearby(3.1)), es, me)
            == (PlayerHurt(es, me) && PlayerWithin(es, me, 3.1))
    ensures Available(AndTransition(NegateTransition(PlayerHitpointsLessThan(100.0)), EnemyAvailable(4.0)), es, me)
            == (!PlayerHurt(es, me) && EnemyWithin(es, me, 4.0))
    ensures Available(OrTransition(PlayerHitpointsLessThan(100.0), NegateTransition(EnemyAvailable(6.0))), es, me)
            == (PlayerHurt(es, me) || !EnemyWithin(es, me, 6.0))
    ensures Available(NegateTransition(AndTransition(PlayerHitpointsLessThan(100.0), PlayerNearby(1.1))), es, me)
            == !(PlayerHurt(es, me) && PlayerWithin(es, me, 1.1))
  {
  }

  lemma SquireTable()
    ensures SquireSm() == StateMachine([MoveToPlayerState, HealPlayerState, MoveToEnemyState], [
      Edge(AndTransition(PlayerHitpointsLessThan(100.0), PlayerNearby(3.1)), 0, 1),
      Edge(AndTransition(NegateTransition(PlayerHitpointsLessThan(100.0)), EnemyAvailable(4.0)), 0, 2),
      Edge(AndTransition(PlayerHitpointsLessThan(100.0), PlayerNearby(3.1)), 2, 1),
      Edge(OrTransition(PlayerHitpointsLessThan(100.0), NegateTransition(EnemyAvailable(6.0))), 2, 0),
      Edge(AndTransition(NegateTransition(PlayerHitpointsLessThan(100.0)), EnemyAvailable(4.0)), 1, 2),
      Edge(NegateTransition(AndTransition(PlayerHitpointsLessThan(100.0), PlayerNearby(1.1))), 1, 0)], 0)
  {
  }

  ghost predicate PlayerHurt(es: seq<Entity>, me: nat)
    requires me < |es|
  {
    Available(PlayerHitpointsLessThan(100.0), es, me)
  }

  ghost predicate PlayerWithin(es: seq<Entity>, me: nat, d: real)
    requires me < |es|
  {
    Available(PlayerNearby(d), es, me)
  }

  /** add_squire_sm, from moveToPlayer: a hurt player within 3.1 is healed; an unhurt
      player leaves the squire free to chase an enemy within 4; otherwise it follows. */
  lemma SquireFromFollow(es: seq<Entity>, me: nat)
    requires me < |es|
    ensures WellFormed(SquireSm())
    ensures NextFrom(SquireSm(), 0, es, me) ==
              if PlayerHurt(es, me) && PlayerWithin(es, me, 3.1) then 1
              else if !PlayerHurt(es, me) && EnemyWithin(es, me, 4.0) then 2
              else 0
  {
    SquireTable();
    SquireConditions(es, me);
    NextOfTwo(SquireSm().(current := 0), es, me, 0, 1);
  }

  /** From healPlayer: once the player is unhurt the squire chases an enemy within 4;
      it keeps healing only while the player is hurt and within 1.1, and follows otherwise. */
  lemma SquireFromHeal(es: seq<Entity>, me: nat)
    requires me < |es|
    ensures NextFrom(SquireSm(), 1, es, me) ==
              if !PlayerHurt(es, me) && EnemyWithin(es, me, 4.0) then 2
              else if !(PlayerHurt(es, me) && PlayerWithin(es, me, 1.1)) then 0
              else 1
  {
    SquireTable();
    SquireConditions(es, me);
    NextOfTwo(SquireSm().(current := 1), es, me, 4, 5);
  }

  /** From moveToEnemy: a hurt player within 3.1 is healed; a hurt player further away,
      or no enemy within 6, sends the squire back to the player; otherwise the chase goes on. */
  lemma SquireFromChase(es: seq<Entity>, me: nat)
    requires me < |es|
    ensures NextFrom(SquireSm(), 2, es, me) ==
              if PlayerHurt(es, me) && PlayerWithin(es, me, 3.1) then 1
              else if PlayerHurt(es, me) || !EnemyWithin(es, me, 6.0) then 0
              else 2
  {
    SquireTable();
    SquireConditions(es, me);
    NextOfTwo(SquireSm().(current := 2), es, me, 2, 3);
  }
}
