/** The game world as the decision code sees it: a table of entity records
    indexed by handle, in the order the engine's queries visit them. An entity
    that the engine destroys stays in the table with alive = false, and every
    query skips it. Which optional components an entity carries is recorded in
    its kind and in the Option fields. The nearest-entity search that the source
    repeats in several places is defined here once. */
module World {
  import opened Components
  import opened GridMath
  import opened Blackboards

  /** The NextEntity component of a waypoint, if it has one. */
  datatype Link = NoLink | LinkTo(target: EntityRef)

  /** What an entity is, beyond its Position. A Character carries Action,
      MovePos, Hitpoints, Team, MeleeDamage and NumActions (players and monsters). */
  datatype Kind =
    | Character
    | HealPickup(amount: real)
    | PowerupPickup(amount: real)
    | Waypoint(link: Link)
    | Treasure

  /** The healer's ability: hitpoints restored per use, the cooldown in turns, and
      the turns left before the next use. */
  datatype HealAbility = HealAbility(restoration: real, cooldown: nat, cooldownCounter: nat)

  datatype Entity = Entity(
    alive: bool,
    kind: Kind,
    pos: Pos,
    movePos: Pos,
    patrolPos: Pos,
    hp: real,
    team: int,
    damage: real,
    action: Action,
    isPlayer: bool,
    numActions: int,
    curActions: int,
    heal: Option<HealAbility>,
    gathersInfo: bool,
    bb: Blackboard)

  /** is_alive() of a handle. */
  predicate IsAlive(es: seq<Entity>, r: EntityRef) {
    r.Ref? && r.id < |es| && es[r.id].alive
  }

  /** A live entity that has Position and Team, so the characters queries visit it. */
  predicate IsCharacter(e: Entity) {
    e.alive && e.kind.Character?
  }

  /** The candidates of a nearest-entity search made on behalf of one agent. */
  datatype Filter = Enemies | Allies | Treasures

  predicate Matches(es: seq<Entity>, me: nat, j: nat, f: Filter)
    requires me < |es| && j < |es|
  {
    match f
    case Enemies => IsCharacter(es[j]) && es[j].team != es[me].team
    case Allies => IsCharacter(es[j]) && es[j].team == es[me].team
    case Treasures => es[j].alive && es[j].kind.Treasure?
  }

  /** The candidate among the first n entities that the source's search keeps:
      it replaces the best so far only on a strictly smaller distance, so the
      first of the closest candidates wins. */
  function NearestIn(es: seq<Entity>, me: nat, f: Filter, n: nat): (r: Option<nat>)
    requires me < |es| && n <= |es|
    ensures r.Some? ==> r.value < n
  {
    if n == 0 then None
    else
      var best := NearestIn(es, me, f, n - 1);
      if Matches(es, me, n - 1, f)
         && (best.None? || DistSq(es[me].pos, es[n - 1].pos) < DistSq(es[me].pos, es[best.value].pos))
      then Some(n - 1)
      else best
  }

  /** The kept candidate is a candidate, none is strictly closer, and none before it
      is as close; there is none exactly when no entity matches. */
  lemma {:induction false} NearestInIsNearest(es: seq<Entity>, me: nat, f: Filter, n: nat)
    requires me < |es| && n <= |es|
    ensures var r := NearestIn(es, me, f, n);
            && (r.None? <==> forall j :: 0 <= j < n ==> !Matches(es, me, j, f))
            && (r.Some? ==> r.value < n && Matches(es, me, r.value, f))
            && (r.Some? ==> forall j :: 0 <= j < n && Matches(es, me, j, f) ==>
                  DistSq(es[me].pos, es[r.value].pos) <= DistSq(es[me].pos, es[j].pos))
            && (r.Some? ==> forall j :: 0 <= j < r.value && Matches(es, me, j, f) ==>
                  DistSq(es[me].pos, es[r.value].pos) < DistSq(es[me].pos, es[j].pos))
  {
    if n > 0 {
      NearestInIsNearest(es, me, f, n - 1);
    }
  }

  /** The nearest candidate in the whole world. */
  function Nearest(es: seq<Entity>, me: nat, f: Filter): (r: Option<nat>)
    requires me < |es|
    ensures r.None? <==> forall j :: 0 <= j < |es| ==> !Matches(es, me, j, f)
    ensures r.Some? ==> r.value < |es| && Matches(es, me, r.value, f)
    ensures r.Some? ==> forall j :: 0 <= j < |es| && Matches(es, me, j, f) ==>
              DistSq(es[me].pos, es[r.value].pos) <= DistSq(es[me].pos, es[j].pos)
    ensures r.Some? ==> forall j :: 0 <= j < r.value && Matches(es, me, j, f) ==>
              DistSq(es[me].pos, es[r.value].pos) < DistSq(es[me].pos, es[j].pos)
  {
    NearestInIsNearest(es, me, f, |es|);
    NearestIn(es, me, f, |es|)
  }

  /** The search loop of FindEnemy, FindTreasure and on_closest_enemy_pos /
      on_closest_ally_pos. */
  method FindNearest(es: array<Entity>, me: nat, f: Filter) returns (best: Option<nat>)
    requires me < es.Length
    ensures best == Nearest(es[..], me, f)
  {
    ghost var es0 := es[..];
    best := None;
    var j := 0;
    while j < es.Length
      invariant 0 <= j <= es.Length
      invariant best == NearestIn(es0, me, f, j)
    {
      if Matches(es[..], me, j, f)
         && (best.None? || DistSq(es[me].pos, es[j].pos) < DistSq(es[me].pos, es[best.value].pos)) {
        best := Some(j);
      }
      j := j + 1;
    }
  }

  /** The nearest candidate is within distance d exactly when some candidate is. */
  lemma {:induction false} NearestWithinIffAnyWithin(es: seq<Entity>, me: nat, f: Filter, d: real)
    requires me < |es|
    ensures (Nearest(es, me, f).Some? && WithinDist(es[me].pos, es[Nearest(es, me, f).value].pos, d))
            <==> exists j :: 0 <= j < |es| && Matches(es, me, j, f) && WithinDist(es[me].pos, es[j].pos, d)
  {
    var r := Nearest(es, me, f);
    if j :| 0 <= j < |es| && Matches(es, me, j, f) && WithinDist(es[me].pos, es[j].pos, d) {
      assert DistSq(es[me].pos, es[r.value].pos) <= DistSq(es[me].pos, es[j].pos);
    }
  }
}
