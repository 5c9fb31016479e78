/** The utility scores of the third assignment's utility-selector agents
    (create_fuzzy_monster_beh and create_hive_beh in w3/roguelike.cpp): each
    behaviour is paired with a function of the agent's blackboard, and the
    selector runs the behaviour whose score is highest (the selector itself,
    utility_selector, is not part of this model). The scores read the sensor
    slots written by gather_world_info (W3Turn) and are piecewise-linear ramps
    built from min and max; they are modelled over real numbers, so float
    rounding is not modelled. */
module Utilities {
  import opened GridMath
  import opened Blackboards
  import opened World
  import opened W3Turn

  /** bb.get<float>(name): the float slot registered under name; 0.0 when the name
      was never registered or its slot never written. */
  function ReadNum(bb: Blackboard, name: string): (r: real)
    ensures (name, NumKind) !in bb.names ==> r == 0.0
  {
    if (name, NumKind) in bb.names then GetNum(bb, bb.names[(name, NumKind)]) else 0.0
  }

  // ---------------------------------------------------------------------------
  // The fuzzy monster

  /** The score of fleeing: (100 - hp) * 5 - 50 * enemyDist. */
  function FleeScore(bb: Blackboard): real {
    (100.0 - ReadNum(bb, "hp")) * 5.0 - 50.0 * ReadNum(bb, "enemyDist")
  }

  /** The score of attacking: 100 - 10 * enemyDist. */
  function AttackScore(bb: Blackboard): real {
    100.0 - 10.0 * ReadNum(bb, "enemyDist")
  }

  /** The score of patrolling, for the fuzzy monster and the hive alike. */
  const PatrolScore: real := 50.0

  /** The score of patching up: 140 - hp. */
  function PatchUpScore(bb: Blackboard): real {
    140.0 - ReadNum(bb, "hp")
  }

  /** Patching up outscores patrolling exactly below 90 hitpoints, and attacking
      outscores it exactly when the enemy is nearer than 5. */
  lemma FuzzyAgainstPatrol(bb: Blackboard)
    ensures PatchUpScore(bb) > PatrolScore <==> ReadNum(bb, "hp") < 90.0
    ensures AttackScore(bb) > PatrolScore <==> ReadNum(bb, "enemyDist") < 5.0
    ensures FleeScore(bb) > PatrolScore <==> 50.0 * ReadNum(bb, "enemyDist") < 450.0 - 5.0 * ReadNum(bb, "hp")
  {
  }

  /** Fleeing outscores attacking exactly when 40 * enemyDist < 400 - 5 * hp: the
      weaker the monster, the farther away an enemy still drives it off. */
  lemma FleeAgainstAttack(bb: Blackboard)
    ensures FleeScore(bb) > AttackScore(bb) <==> 40.0 * ReadNum(bb, "enemyDist") < 400.0 - 5.0 * ReadNum(bb, "hp")
  {
  }

  /** When the sensor saw no enemy it reports FLT_MAX, and for an agent with
      non-negative hitpoints fleeing and attacking then both score below patrolling. */
  lemma NoEnemyNoFight(es: seq<Entity>, g: nat)
    requires g < |es| && Valid(es[g].bb) && IsCharacter(es[g]) && es[g].hp >= 0.0
    requires ClosestSq(es, g, |es|, false) == FltMax
    ensures FleeScore(Sensed(es, g)) < PatrolScore
    ensures AttackScore(Sensed(es, g)) < PatrolScore
  {
    SensedReadBack(es, g);
    var bb := Sensed(es, g);
    assert ReadNum(bb, "enemyDist") == FltMax;
    assert ReadNum(bb, "hp") == es[g].hp;
  }

  // ---------------------------------------------------------------------------
  // The hive

  /** The parameters of create_hive_beh: the attack radius, the ally radius and the
      two base radii. */
  datatype Hive = Hive(atkRad: real, allyRad: real, baseRad1: real, baseRad2: real)

  /** The slopes the constructor computes divide by atkRad, allyRad and
      baseRad1 - baseRad2. */
  predicate Usable(h: Hive) {
    h.atkRad != 0.0 && h.allyRad != 0.0 && h.baseRad1 != h.baseRad2
  }

  /** The slopes and intercepts create_hive_beh computes once, before building the
      tree: k_atk_enemy = -100 / atkRad (with b_atk_enemy = 100), k_atk_base = 100 /
      (baseRad1 - baseRad2) with b_atk_base = -k_atk_base * baseRad2, k_ret_ally =
      100 / allyRad, and k_ret_base = 100 / (baseRad2 - baseRad1) with b_ret_base =
      -k_ret_base * baseRad1. */
  function KAtkEnemy(h: Hive): real
    requires Usable(h)
  {
    -100.0 / h.atkRad
  }

  function KAtkBase(h: Hive): real
    requires Usable(h)
  {
    100.0 / (h.baseRad1 - h.baseRad2)
  }

  function BAtkBase(h: Hive): real
    requires Usable(h)
  {
    -KAtkBase(h) * h.baseRad2
  }

  function KRetAlly(h: Hive): real
    requires Usable(h)
  {
    100.0 / h.allyRad
  }

  function KRetBase(h: Hive): real
    requires Usable(h)
  {
    100.0 / (h.baseRad2 - h.baseRad1)
  }

  function BRetBase(h: Hive): real
    requires Usable(h)
  {
    -KRetBase(h) * h.baseRad1
  }

  /** ue = max(0, b_atk_enemy + k_atk_enemy * dist). */
  function AttackEnemyRamp(h: Hive, dist: real): real
    requires Usable(h)
  {
    Max(0.0, 100.0 + KAtkEnemy(h) * dist)
  }

  /** ub = max(0, b_atk_base + k_atk_base * dist). */
  function AttackBaseRamp(h: Hive, dist: real): real
    requires Usable(h)
  {
    Max(0.0, BAtkBase(h) + KAtkBase(h) * dist)
  }

  /** ua = max(0, k_ret_ally * dist). */
  function ReturnAllyRamp(h: Hive, dist: real): real
    requires Usable(h)
  {
    Max(0.0, KRetAlly(h) * dist)
  }

  /** ub = max(0, b_ret_base + k_ret_base * dist). */
  function ReturnBaseRamp(h: Hive, dist: real): real
    requires Usable(h)
  {
    Max(0.0, BRetBase(h) + KRetBase(h) * dist)
  }

  /** The score of attacking: min(ue, ub). */
  function HiveAttackScore(h: Hive, bb: Blackboard): (r: real)
    requires Usable(h)
    ensures 0.0 <= r
    ensures r <= AttackEnemyRamp(h, ReadNum(bb, "enemyDist")) && r <= AttackBaseRamp(h, ReadNum(bb, "baseDist"))
  {
    Min(AttackEnemyRamp(h, ReadNum(bb, "enemyDist")), AttackBaseRamp(h, ReadNum(bb, "baseDist")))
  }

  /** The score of returning to base: min(step, slope) with step = min(ua, ub) and
      slope = (ua + ub) / 5. */
  function HiveReturnScore(h: Hive, bb: Blackboard): (r: real)
    requires Usable(h)
    ensures 0.0 <= r
    ensures r <= ReturnAllyRamp(h, ReadNum(bb, "allyDist")) && r <= ReturnBaseRamp(h, ReadNum(bb, "baseDist"))
  {
    var ua := ReturnAllyRamp(h, ReadNum(bb, "allyDist"));
    var ub := ReturnBaseRamp(h, ReadNum(bb, "baseDist"));
    Min(Min(ua, ub), (ua + ub) / 5.0)
  }

  /** The ramps run between 0 and 100 across their radii: the enemy ramp falls
      from 100 next to the enemy to 0 at the attack radius, the attack base ramp
      rises from 0 at baseRad2 to 100 at baseRad1, the return base ramp the other
      way round, and the ally ramp reaches 100 at the ally radius. */
  lemma RampEnds(h: Hive)
    requires Usable(h)
    ensures AttackEnemyRamp(h, 0.0) == 100.0
    ensures h.atkRad > 0.0 ==> AttackEnemyRamp(h, h.atkRad) == 0.0
    ensures AttackBaseRamp(h, h.baseRad2) == 0.0 && AttackBaseRamp(h, h.baseRad1) == 100.0
    ensures ReturnBaseRamp(h, h.baseRad1) == 0.0 && ReturnBaseRamp(h, h.baseRad2) == 100.0
    ensures ReturnAllyRamp(h, 0.0) == 0.0
    ensures h.allyRad > 0.0 ==> ReturnAllyRamp(h, h.allyRad) == 100.0
  {
    AttackEnemyRampEnd(h);
    AttackBaseRampEnds(h);
    ReturnBaseRampEnds(h);
    ReturnAllyRampEnd(h);
  }

  lemma AttackEnemyRampEnd(h: Hive)
    requires Usable(h)
    ensures AttackEnemyRamp(h, h.atkRad) == 0.0
  {
    DivMul(-100.0, h.atkRad);
    assert 100.0 + KAtkEnemy(h) * h.atkRad == 0.0;
  }

  lemma AttackBaseRampEnds(h: Hive)
    requires Usable(h)
    ensures AttackBaseRamp(h, h.baseRad2) == 0.0 && AttackBaseRamp(h, h.baseRad1) == 100.0
  {
    var v := BAtkBase(h) + KAtkBase(h) * h.baseRad1;
    assert AttackBaseRamp(h, h.baseRad1) == Max(0.0, v);
    assert v == 100.0 by {
      DivMul(100.0, h.baseRad1 - h.baseRad2);
      assert KAtkBase(h) * (h.baseRad1 - h.baseRad2) == 100.0;
    }
  }

  lemma ReturnBaseRampEnds(h: Hive)
    requires Usable(h)
    ensures ReturnBaseRamp(h, h.baseRad1) == 0.0 && ReturnBaseRamp(h, h.baseRad2) == 100.0
  {
    var v := BRetBase(h) + KRetBase(h) * h.baseRad2;
    assert ReturnBaseRamp(h, h.baseRad2) == Max(0.0, v);
    assert v == 100.0 by {
      DivMul(100.0, h.baseRad2 - h.baseRad1);
      assert KRetBase(h) * (h.baseRad2 - h.baseRad1) == 100.0;
    }
  }

  lemma ReturnAllyRampEnd(h: Hive)
    requires Usable(h)
    ensures ReturnAllyRamp(h, h.allyRad) == 100.0
  {
    DivMul(100.0, h.allyRad);
    assert KRetAlly(h) * h.allyRad == 100.0;
  }

  /** Dividing by x and multiplying back by x. */
  lemma DivMul(a: real, x: real)
    requires x != 0.0
    ensures (a / x) * x == a
  {
  }

  /** The hive never attacks an enemy at or beyond its attack radius (with a
      positive radius), and with baseRad2 < baseRad1 it never attacks while within
      baseRad2 of its base. */
  lemma HiveAttackBounds(h: Hive, bb: Blackboard)
    requires Usable(h)
    ensures 0.0 < h.atkRad <= ReadNum(bb, "enemyDist") ==> HiveAttackScore(h, bb) == 0.0
    ensures h.baseRad2 < h.baseRad1 && ReadNum(bb, "baseDist") <= h.baseRad2 ==> HiveAttackScore(h, bb) == 0.0
  {
    var de := ReadNum(bb, "enemyDist");
    if 0.0 < h.atkRad <= de {
      var c := 100.0 / h.atkRad;
      DivMul(100.0, h.atkRad);
      Scale(c, h.atkRad, de);
      assert KAtkEnemy(h) * de == -(c * de);
      assert AttackEnemyRamp(h, de) == 0.0;
    }
    var db := ReadNum(bb, "baseDist");
    if h.baseRad2 < h.baseRad1 && db <= h.baseRad2 {
      var k := KAtkBase(h);
      assert k > 0.0;
      Scale(k, db, h.baseRad2);
      assert BAtkBase(h) + k * db == k * db - k * h.baseRad2;
      assert AttackBaseRamp(h, db) == 0.0;
    }
  }

  /** 0 <= c and a <= b give c * a <= c * b. */
  lemma Scale(c: real, a: real, b: real)
    requires 0.0 <= c && a <= b
    ensures c * a <= c * b
  {
    assert c * b - c * a == c * (b - a);
  }

  /** With its closest teammate next to it the hive never wants to return. */
  lemma ReturnNeedsDistantAlly(h: Hive, bb: Blackboard)
    requires Usable(h)
    ensures ReadNum(bb, "allyDist") == 0.0 ==> HiveReturnScore(h, bb) == 0.0
  {
  }

  /** As gather_world_info measures it, the closest teammate of a sensing agent is
      the agent itself, at distance 0, so right after the sensors the hive's
      return-to-base score is 0 whatever the distances to its base and to its
      real allies. */
  lemma SensedHiveNeverReturns(h: Hive, es: seq<Entity>, g: nat)
    requires Usable(h) && g < |es| && Valid(es[g].bb) && IsCharacter(es[g])
    ensures HiveReturnScore(h, Sensed(es, g)) == 0.0
  {
    SensedReadBack(es, g);
    ReturnNeedsDistantAlly(h, Sensed(es, g));
  }
}
