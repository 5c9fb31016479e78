/** The state-machine building blocks of the first assignment
    (w1/aiLibrary.cpp): the one-step steering rule and its inverse, the
    transition predicates with their Negate/And/Or combinators, and the act
    bodies of the states. An act writes the agent's action slot, its hitpoints,
    or (for the healer) its cooldown and every player's hitpoints. */
module AiLibrary {
  import opened Components
  import opened GridMath
  import opened World

  function Abs(a: int): int {
    if a < 0 then -a else a
  }

  /** move_towards: step along the axis with the larger offset; ties, including
      from == to, go vertical. */
  function MoveTowards(from: Pos, to: Pos): (r: Action)
    ensures r.IsMove()
    ensures (r.MoveLeft? || r.MoveRight?) <==> Abs(to.x - from.x) > Abs(to.y - from.y)
    ensures r.MoveRight? <==> Abs(to.x - from.x) > Abs(to.y - from.y) && to.x > from.x
    ensures r.MoveUp? <==> Abs(to.x - from.x) <= Abs(to.y - from.y) && to.y > from.y
  {
    var dx := to.x - from.x;
    var dy := to.y - from.y;
    if Abs(dx) > Abs(dy) then (if dx > 0 then MoveRight else MoveLeft)
    else (if dy > 0 then MoveUp else MoveDown)
  }

  /** inverse_move: swaps LEFT/RIGHT and UP/DOWN, leaves every other action alone. */
  function InverseMove(a: Action): (r: Action)
    ensures r.IsMove() <==> a.IsMove()
    ensures r == a <==> !a.IsMove()
    ensures a.MoveLeft? <==> r.MoveRight?
    ensures a.MoveUp? <==> r.MoveDown?
  {
    match a
    case MoveLeft => MoveRight
    case MoveRight => MoveLeft
    case MoveUp => MoveDown
    case MoveDown => MoveUp
    case _ => a
  }

  lemma InverseMoveInvolution(a: Action)
    ensures InverseMove(InverseMove(a)) == a
  {
  }

  /** Entities that the player queries visit. */
  predicate IsPlayer(e: Entity) {
    e.alive && e.isPlayer
  }

  /** The player a player query ends on: the queries overwrite their result for
      every player, so the last one in visiting order wins. */
  function LastPlayerIn(es: seq<Entity>, n: nat): (r: Option<nat>)
    requires n <= |es|
    ensures r.None? <==> forall j :: 0 <= j < n ==> !IsPlayer(es[j])
    ensures r.Some? ==> r.value < n && IsPlayer(es[r.value])
                        && forall j :: r.value < j < n ==> !IsPlayer(es[j])
  {
    if n == 0 then None
    else if IsPlayer(es[n - 1]) then Some(n - 1)
    else LastPlayerIn(es, n - 1)
  }

  function LastPlayer(es: seq<Entity>): Option<nat> {
    LastPlayerIn(es, |es|)
  }

  // ---------------------------------------------------------------------------
  // Transitions

  datatype Transition =
    | EnemyAvailable(triggerDist: real)
    | PlayerNearby(triggerDist: real)
    | HitpointsLessThan(threshold: real)
    | PlayerHitpointsLessThan(threshold: real)
    | EnemyReachable
    | NegateTransition(inner: Transition)
    | AndTransition(lhs: Transition, rhs: Transition)
    | OrTransition(lhs: Transition, rhs: Transition)

  /** What each transition's isAvailable answers for agent me. */
  ghost predicate Available(t: Transition, es: seq<Entity>, me: nat)
    requires me < |es|
  {
    match t
    case EnemyAvailable(d) =>
      exists j :: 0 <= j < |es| && Matches(es, me, j, Enemies) && WithinDist(es[j].pos, es[me].pos, d)
    case PlayerNearby(d) =>
      var p := LastPlayer(es);
      p.Some? && WithinDist(es[p.value].pos, es[me].pos, d)
    case HitpointsLessThan(thr) => es[me].hp < thr
    case PlayerHitpointsLessThan(thr) =>
      exists j :: 0 <= j < |es| && IsPlayer(es[j]) && es[j].hp < thr
    case EnemyReachable => false
    case NegateTransition(inner) => !Available(inner, es, me)
    case AndTransition(l, r) => Available(l, es, me) && Available(r, es, me)
    case OrTransition(l, r) => Available(l, es, me) || Available(r, es, me)
  }

  /** isAvailable, as the source evaluates it: the primitive predicates scan the
      world, the combinators evaluate the left operand first and the right one
      only when it can change the answer. */
  method IsAvailable(t: Transition, es: array<Entity>, me: nat) returns (b: bool)
    requires me < es.Length
    ensures b == Available(t, es[..], me)
    decreases t
  {
    match t {
      case EnemyAvailable(d) =>
        b := false;
        var j := 0;
        while j < es.Length
          invariant 0 <= j <= es.Length
          invariant b <==> exists k :: 0 <= k < j && Matches(es[..], me, k, Enemies)
                                      && WithinDist(es[k].pos, es[me].pos, d)
        {
          if Matches(es[..], me, j, Enemies) {
            b := b || WithinDist(es[j].pos, es[me].pos, d);
          }
          j := j + 1;
        }
      case PlayerNearby(d) =>
        b := false;
        var j := 0;
        while j < es.Length
          invariant 0 <= j <= es.Length
          invariant b <==> (var p := LastPlayerIn(es[..], j); p.Some? && WithinDist(es[p.value].pos, es[me].pos, d))
        {
          if IsPlayer(es[j]) {
            b := WithinDist(es[j].pos, es[me].pos, d);
          }
          j := j + 1;
        }
        assert es[..] == es[..es.Length];
      case HitpointsLessThan(thr) =>
        b := es[me].hp < thr;
      case PlayerHitpointsLessThan(thr) =>
        b := false;
        var j := 0;
        while j < es.Length
          invariant 0 <= j <= es.Length
          invariant b <==> exists k :: 0 <= k < j && IsPlayer(es[k]) && es[k].hp < thr
        {
          if IsPlayer(es[j]) {
            b := b || es[j].hp < thr;
          }
          j := j + 1;
        }
      case EnemyReachable =>
        b := false;
      case NegateTransition(inner) =>
        b := IsAvailable(inner, es, me);
        b := !b;
      case AndTransition(l, r) =>
        b := IsAvailable(l, es, me);
        if b {
          b := IsAvailable(r, es, me);
        }
      case OrTransition(l, r) =>
        b := IsAvailable(l, es, me);
        if !b {
          b := IsAvailable(r, es, me);
        }
    }
  }

  // ---------------------------------------------------------------------------
  // States

  datatype State =
    | AttackEnemyState
    | MoveToEnemyState
    | MoveToAllyState
    | MoveToPlayerState
    | FleeFromEnemyState
    | HealSelfState(hpRegen: real)
    | HealPlayerState
    | PatrolState(patrolDist: real)
    | NopState

  /** Adds amount to every player's hitpoints; nothing else changes. */
  function HealPlayers(es: seq<Entity>, amount: real): (r: seq<Entity>)
    ensures |r| == |es|
    ensures forall i :: 0 <= i < |es| ==>
              r[i] == if IsPlayer(es[i]) then es[i].(hp := es[i].hp + amount) else es[i]
  {
    seq(|es|, i requires 0 <= i < |es| => if IsPlayer(es[i]) then es[i].(hp := es[i].hp + amount) else es[i])
  }

  /** The agent's action set to a, every other field and entity unchanged. */
  function WithAction(es: seq<Entity>, me: nat, a: Action): seq<Entity>
    requires me < |es|
  {
    es[me := es[me].(action := a)]
  }

  /** What act does to the world for agent me, and the rest of the random tape. */
  function ActResult(s: State, es: seq<Entity>, me: nat, tape: nat): (seq<Entity>, nat)
    requires me < |es|
    requires s.HealPlayerState? ==> es[me].heal.Some?
  {
    var pos := es[me].pos;
    match s
    case AttackEnemyState => (es, tape)
    case NopState => (es, tape)
    case MoveToEnemyState =>
      var e := Nearest(es, me, Enemies);
      (if e.Some? then WithAction(es, me, MoveTowards(pos, es[e.value].pos)) else es, tape)
    case MoveToAllyState =>
      var e := Nearest(es, me, Allies);
      (if e.Some? then WithAction(es, me, MoveTowards(pos, es[e.value].pos)) else es, tape)
    case MoveToPlayerState =>
      var p := LastPlayer(es);
      (if p.Some? then WithAction(es, me, MoveTowards(pos, es[p.value].pos)) else es, tape)
    case FleeFromEnemyState =>
      var e := Nearest(es, me, Enemies);
      (if e.Some? then WithAction(es, me, InverseMove(MoveTowards(pos, es[e.value].pos))) else es, tape)
    case HealSelfState(regen) =>
      (es[me := es[me].(hp := es[me].hp + regen)], tape)
    case HealPlayerState =>
      var ha := es[me].heal.value;
      if ha.cooldownCounter > 0 then (es, tape)
      else
        var es1 := es[me := es[me].(heal := Some(ha.(cooldownCounter := ha.cooldown)))];
        (HealPlayers(es1, ha.restoration), tape)
    case PatrolState(d) =>
      if !WithinDist(pos, es[me].patrolPos, d) then (WithAction(es, me, MoveTowards(pos, es[me].patrolPos)), tape)
      else var (m, rest) := DrawMove(tape); (WithAction(es, me, m), rest)
  }

  /** State::act for each state class. */
  method Act(s: State, es: array<Entity>, me: nat, tape: nat) returns (tape': nat)
    requires me < es.Length
    requires s.HealPlayerState? ==> es[me].heal.Some?
    modifies es
    ensures (es[..], tape') == ActResult(s, old(es[..]), me, tape)
  {
    tape' := tape;
    var pos := es[me].pos;
    match s {
      case AttackEnemyState =>
      case NopState =>
      case MoveToEnemyState =>
        var e := FindNearest(es, me, Enemies);
        if e.Some? {
          es[me] := es[me].(action := MoveTowards(pos, es[e.value].pos));
        }
      case MoveToAllyState =>
        var e := FindNearest(es, me, Allies);
        if e.Some? {
          es[me] := es[me].(action := MoveTowards(pos, es[e.value].pos));
        }
      case MoveToPlayerState =>
        var p := FindLastPlayer(es);
        if p.Some? {
          es[me] := es[me].(action := MoveTowards(pos, es[p.value].pos));
        }
      case FleeFromEnemyState =>
        var e := FindNearest(es, me, Enemies);
        if e.Some? {
          es[me] := es[me].(action := InverseMove(MoveTowards(pos, es[e.value].pos)));
        }
      case HealSelfState(regen) =>
        es[me] := es[me].(hp := es[me].hp + regen);
      case HealPlayerState =>
        var ha := es[me].heal.value;
        if ha.cooldownCounter == 0 {
          es[me] := es[me].(heal := Some(ha.(cooldownCounter := ha.cooldown)));
          ghost var before := es[..];
          var j := 0;
          while j < es.Length
            invariant 0 <= j <= es.Length
            invariant forall i :: 0 <= i < j ==> es[i] == HealPlayers(before, ha.restoration)[i]
            invariant forall i :: j <= i < es.Length ==> es[i] == before[i]
          {
            if IsPlayer(es[j]) {
              es[j] := es[j].(hp := es[j].hp + ha.restoration);
            }
            j := j + 1;
          }
          assert es[..] == HealPlayers(before, ha.restoration);
        }
      case PatrolState(d) =>
        if !WithinDist(pos, es[me].patrolPos, d) {
          es[me] := es[me].(action := MoveTowards(pos, es[me].patrolPos));
        } else {
          var m;
          m, tape' := DrawMove(tape).0, DrawMove(tape).1;
          es[me] := es[me].(action := m);
        }
    }
  }

  /** The player query of on_player_pos. */
  method FindLastPlayer(es: array<Entity>) returns (p: Option<nat>)
    ensures p == LastPlayer(es[..])
  {
    p := None;
    var j := 0;
    while j < es.Length
      invariant 0 <= j <= es.Length
      invariant p == LastPlayerIn(es[..], j)
    {
      if IsPlayer(es[j]) {
        p := Some(j);
      }
      j := j + 1;
    }
  }

  // ---------------------------------------------------------------------------
  // Properties of the states

  /** PatrolState: outside the patrol radius the agent walks back towards its
      patrol post; inside it takes some move of the move range. Nothing but the
      agent's action changes. */
  lemma PatrolActSpec(d: real, es: seq<Entity>, me: nat, tape: nat)
    requires me < |es|
    ensures var (es', _) := ActResult(PatrolState(d), es, me, tape);
            && |es'| == |es|
            && es' == es[me := es[me].(action := es'[me].action)]
            && (!WithinDist(es[me].pos, es[me].patrolPos, d) ==> es'[me].action == MoveTowards(es[me].pos, es[me].patrolPos))
            && (WithinDist(es[me].pos, es[me].patrolPos, d) ==> es'[me].action.IsMove())
  {
  }

  /** HealPlayerState: while the cooldown runs nothing happens; otherwise the
      cooldown restarts and every player gains the restoration amount. */
  lemma HealPlayerActSpec(es: seq<Entity>, me: nat, tape: nat)
    requires me < |es| && es[me].heal.Some?
    ensures var ha := es[me].heal.value;
            var (es', tape') := ActResult(HealPlayerState, es, me, tape);
            && tape' == tape && |es'| == |es|
            && (ha.cooldownCounter > 0 ==> es' == es)
            && (ha.cooldownCounter == 0 ==>
                  && es'[me].heal == Some(ha.(cooldownCounter := ha.cooldown))
                  && forall i :: 0 <= i < |es| ==>
                       es'[i].hp == (if IsPlayer(es[i]) then es[i].hp + ha.restoration else es[i].hp))
  {
  }

  /** The flee states step in the opposite direction to the chase states. */
  lemma FleeIsInverseOfChase(es: seq<Entity>, me: nat, tape: nat)
    requires me < |es|
    ensures var (chase, _) := ActResult(MoveToEnemyState, es, me, tape);
            var (flee, _) := ActResult(FleeFromEnemyState, es, me, tape);
            var e := Nearest(es, me, Enemies);
            && |chase| == |flee| == |es|
            && (e.None? ==> chase == es && flee == es)
            && (e.Some? ==> chase[me].action == MoveTowards(es[me].pos, es[e.value].pos)
                            && flee[me].action == InverseMove(chase[me].action))
  {
  }
}
