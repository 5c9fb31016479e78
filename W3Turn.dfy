/** One turn of the third version of the game (process_turn in w3/roguelike.cpp):
    the player's action counter as in the first version; when it wraps, the
    sensors fill the blackboards of the information-gathering agents, the agents
    plan, and the turn counter advances; then the actions are resolved: first the
    self-heals, then the movement passes with the third version's UP direction,
    each event logged in the action log of the "world" entity. The planning step
    (state machines and behaviour trees of this version) is a parameter. */
module W3Turn {
  import opened Components
  import opened GridMath
  import opened World
  import opened Blackboards
  import opened ActionLogs
  import opened Turns

  // ---------------------------------------------------------------------------
  // The heal pass of process_actions

  const HealedMsg: string := "Monster healed itself"

  /** What EA_HEAL_SELF restores. */
  const SelfHeal: real := 10.0

  predicate HealsSelf(e: Entity) {
    IsCharacter(e) && e.action == HealSelf
  }

  /** The heal pass: a character whose action is a self-heal gains 10 hitpoints and
      its action becomes NOP; every other entity is untouched. */
  function Healed(es: seq<Entity>): (r: seq<Entity>)
    ensures |r| == |es|
    ensures forall j :: 0 <= j < |es| && HealsSelf(es[j]) ==> r[j] == es[j].(action := Nop, hp := es[j].hp + SelfHeal)
    ensures forall j :: 0 <= j < |es| && !HealsSelf(es[j]) ==> r[j] == es[j]
  {
    seq(|es|, j requires 0 <= j < |es| =>
      if HealsSelf(es[j]) then es[j].(action := Nop, hp := es[j].hp + SelfHeal) else es[j])
  }

  /** The number of self-heals among the first n entities. */
  function HealsIn(es: seq<Entity>, n: nat): nat
    requires n <= |es|
  {
    if n == 0 then 0 else HealsIn(es, n - 1) + if HealsSelf(es[n - 1]) then 1 else 0
  }

  method HealPass(es: array<Entity>, log: ActionLog)
    modifies es, log`entries
    ensures es[..] == Healed(old(es[..]))
    ensures log.entries == PushedAll(old(log.entries), log.turn, Repeat(HealedMsg, HealsIn(old(es[..]), es.Length)), log.capacity)
  {
    ghost var es0 := es[..];
    ghost var entries0 := log.entries;
    ghost var heals := 0;
    var j := 0;
    while j < es.Length
      invariant 0 <= j <= es.Length
      invariant forall k :: 0 <= k < j ==> es[k] == Healed(es0)[k]
      invariant forall k :: j <= k < es.Length ==> es[k] == es0[k]
      invariant heals == HealsIn(es0, j)
      invariant log.entries == PushedAll(entries0, log.turn, Repeat(HealedMsg, heals), log.capacity)
    {
      if IsCharacter(es[j]) && es[j].action == HealSelf {
        es[j] := es[j].(action := Nop);
        LogOneMore(log, entries0, HealedMsg, heals);
        es[j] := es[j].(hp := es[j].hp + SelfHeal);
        heals := heals + 1;
      }
      j := j + 1;
    }
    assert es[..] == Healed(es0);
  }

  /** The heal pass moves nobody, so live characters keep their reservations. */
  lemma HealedKeepsLayout(es: seq<Entity>)
    ensures SameLayout(es, Healed(es))
    ensures forall j :: 0 <= j < |es| ==> Healed(es)[j].action != HealSelf || !IsCharacter(es[j])
  {
  }

  /** The messages process_actions logs, in order: one per self-heal, then one
      per strike. */
  function ActionMessages(es: seq<Entity>): seq<string> {
    Repeat(HealedMsg, HealsIn(es, |es|)) + Repeat(DamagedMsg, MovesUpTo(UpDecreasesY, Healed(es), |es|).1)
  }

  /** process_actions of the third version. */
  method ProcessActions(es: array<Entity>, log: ActionLog)
    modifies es, log
    ensures es[..] == Actions(UpDecreasesY, Healed(old(es[..])))
    ensures log.turn == old(log.turn) && log.capacity == old(log.capacity)
    ensures log.entries == PushedAll(old(log.entries), log.turn, ActionMessages(old(es[..])), log.capacity)
  {
    ghost var es0 := es[..];
    HealPass(es, log);
    ResolveActions(UpDecreasesY, es, log);
    PushedAllAppend(old(log.entries), log.turn, Repeat(HealedMsg, HealsIn(es0, |es0|)),
                    Repeat(DamagedMsg, MovesUpTo(UpDecreasesY, Healed(es0), |es0|).1), log.capacity);
  }

  // ---------------------------------------------------------------------------
  // Sensors: gather_world_info

  /** FLT_MAX, the distance a sensor reports when it saw nothing. */
  const FltMax: real := 340282346638528859811704183484516925440.0

  /** The radius (5) within which teammates count as allies nearby, squared. */
  const AllyRadiusSq: int := 25

  /** The agent's teammates within the ally radius among the first n entities; the
      agent itself is one of them. */
  function AlliesNear(es: seq<Entity>, g: nat, n: nat): (r: real)
    requires g < |es| && n <= |es|
    ensures 0.0 <= r <= n as real
    ensures IsCharacter(es[g]) && g < n ==> 1.0 <= r
  {
    if n == 0 then 0.0
    else
      AlliesNear(es, g, n - 1)
        + if IsCharacter(es[n - 1]) && es[n - 1].team == es[g].team && DistSq(es[g].pos, es[n - 1].pos) < AllyRadiusSq
          then 1.0 else 0.0
  }

  /** Entity k is one of the characters the agent's sensor measures: its teammates
      (ally) or the others (enemy). */
  predicate Measured(es: seq<Entity>, g: nat, k: nat, ally: bool)
    requires g < |es| && k < |es|
  {
    IsCharacter(es[k]) && (es[k].team == es[g].team) == ally
  }

  /** The smallest squared distance to a measured character among the first n
      entities, FLT_MAX when none is closer. */
  function ClosestSq(es: seq<Entity>, g: nat, n: nat, ally: bool): real
    requires g < |es| && n <= |es|
  {
    if n == 0 then FltMax
    else
      var c := ClosestSq(es, g, n - 1, ally);
      var d := DistSq(es[g].pos, es[n - 1].pos) as real;
      if Measured(es, g, n - 1, ally) && d < c then d else c
  }

  /** The sensor's reading is the minimum: no measured character is closer, and it is
      the distance of one of them unless it is FLT_MAX. */
  lemma {:induction false} ClosestSqIsMin(es: seq<Entity>, g: nat, n: nat, ally: bool)
    requires g < |es| && n <= |es|
    ensures ClosestSq(es, g, n, ally) <= FltMax
    ensures forall k :: 0 <= k < n && Measured(es, g, k, ally) ==> ClosestSq(es, g, n, ally) <= DistSq(es[g].pos, es[k].pos) as real
    ensures ClosestSq(es, g, n, ally) == FltMax
            || exists k :: 0 <= k < n && Measured(es, g, k, ally) && ClosestSq(es, g, n, ally) == DistSq(es[g].pos, es[k].pos) as real
  {
    if n > 0 {
      ClosestSqIsMin(es, g, n - 1, ally);
    }
  }

  /** push_info_to_bb for a float: register the name, then write the value. */
  function PushNum(bb: Blackboard, name: string, v: real): (r: Blackboard)
    ensures (name, NumKind) in r.names && GetNum(r, r.names[(name, NumKind)]) == v
  {
    var (b, h) := RegName(bb, name, NumKind);
    Set(b, h, NumV(v))
  }

  lemma PushNumValid(bb: Blackboard, name: string, v: real)
    requires Valid(bb)
    ensures Valid(PushNum(bb, name, v))
  {
    RegNameValid(bb, name, NumKind);
  }

  /** A later push under another name leaves an earlier slot as it was. */
  lemma PushNumKeeps(bb: Blackboard, name: string, v: real, key: (string, Blackboards.Kind))
    requires Valid(bb) && key in bb.names && key != (name, NumKind)
    ensures key in PushNum(bb, name, v).names && PushNum(bb, name, v).names[key] == bb.names[key]
    ensures GetNum(PushNum(bb, name, v), bb.names[key]) == GetNum(bb, bb.names[key])
    ensures GetPos(PushNum(bb, name, v), bb.names[key]) == GetPos(bb, bb.names[key])
  {
    var (b, h) := RegName(bb, name, NumKind);
    RegNameValid(bb, name, NumKind);
    assert Valid(b) && key in b.names && (name, NumKind) in b.names;
    assert h != bb.names[key];
  }

  /** Agent e's blackboard after its sensor measured the given values: hp, then the
      position of the "base_wp" slot is read (registered if need be; the cell (0, 0)
      if never written), then the allies nearby, the closest enemy, the closest
      teammate and the base are written, as squared distances. */
  function SenseInto(e: Entity, allies: real, enemy: real, ally: real): Blackboard {
    var b1 := PushNum(e.bb, "hp", e.hp);
    var (b2, wpSlot) := RegName(b1, "base_wp", PosKind);
    var b3 := PushNum(b2, "alliesNum", allies);
    var b4 := PushNum(b3, "enemyDist", enemy);
    var b5 := PushNum(b4, "allyDist", ally);
    PushNum(b5, "baseDist", DistSq(e.pos, GetPos(b2, wpSlot)) as real)
  }

  /** The blackboard of agent g after the sensor. */
  function Sensed(es: seq<Entity>, g: nat): Blackboard
    requires g < |es|
  {
    SenseInto(es[g], AlliesNear(es, g, |es|), ClosestSq(es, g, |es|, false), ClosestSq(es, g, |es|, true))
  }

  /** Every slot the sensor writes reads back as written, and base_wp as before. */
  lemma SenseIntoReadBack(e: Entity, allies: real, enemy: real, ally: real)
    requires Valid(e.bb)
    ensures var bb := SenseInto(e, allies, enemy, ally);
            && Valid(bb)
            && ("base_wp", PosKind) in bb.names
            && ("hp", NumKind) in bb.names && ("alliesNum", NumKind) in bb.names && ("enemyDist", NumKind) in bb.names
            && ("allyDist", NumKind) in bb.names && ("baseDist", NumKind) in bb.names
            && GetNum(bb, bb.names[("hp", NumKind)]) == e.hp
            && GetNum(bb, bb.names[("alliesNum", NumKind)]) == allies
            && GetNum(bb, bb.names[("enemyDist", NumKind)]) == enemy
            && GetNum(bb, bb.names[("allyDist", NumKind)]) == ally
            && GetNum(bb, bb.names[("baseDist", NumKind)]) == DistSq(e.pos, GetPos(bb, bb.names[("base_wp", PosKind)])) as real
  {
    var b1 := PushNum(e.bb, "hp", e.hp);
    var (b2, wpSlot) := RegName(b1, "base_wp", PosKind);
    var b3 := PushNum(b2, "alliesNum", allies);
    var b4 := PushNum(b3, "enemyDist", enemy);
    var b5 := PushNum(b4, "allyDist", ally);
    var wp := ("base_wp", PosKind);
    var base := DistSq(e.pos, GetPos(b2, wpSlot)) as real;
    var hp, an, ed, ad := ("hp", NumKind), ("alliesNum", NumKind), ("enemyDist", NumKind), ("allyDist", NumKind);
    PushNumValid(e.bb, "hp", e.hp);
    RegNameValid(b1, "base_wp", PosKind);
    PushNumValid(b2, "alliesNum", allies);
    PushNumValid(b3, "enemyDist", enemy);
    PushNumValid(b4, "allyDist", ally);
    PushNumValid(b5, "baseDist", base);
    PushNumKeeps(b2, "alliesNum", allies, hp);
    PushNumKeeps(b2, "alliesNum", allies, wp);
    PushNumKeeps(b3, "enemyDist", enemy, hp);
    PushNumKeeps(b3, "enemyDist", enemy, an);
    PushNumKeeps(b3, "enemyDist", enemy, wp);
    PushNumKeeps(b4, "allyDist", ally, hp);
    PushNumKeeps(b4, "allyDist", ally, an);
    PushNumKeeps(b4, "allyDist", ally, ed);
    PushNumKeeps(b4, "allyDist", ally, wp);
    PushNumKeeps(b5, "baseDist", base, hp);
    PushNumKeeps(b5, "baseDist", base, an);
    PushNumKeeps(b5, "baseDist", base, ed);
    PushNumKeeps(b5, "baseDist", base, ad);
    PushNumKeeps(b5, "baseDist", base, wp);
  }

  /** Reading the sensor slots back: each holds what the sensor measured, and the
      agent counts itself, so a sensing character always sees at least one ally
      nearby and a closest teammate at distance 0. */
  lemma SensedReadBack(es: seq<Entity>, g: nat)
    requires g < |es| && Valid(es[g].bb) && IsCharacter(es[g])
    ensures var bb := Sensed(es, g);
            && Valid(bb)
            && ("hp", NumKind) in bb.names && ("alliesNum", NumKind) in bb.names && ("enemyDist", NumKind) in bb.names
            && ("allyDist", NumKind) in bb.names && ("baseDist", NumKind) in bb.names
            && GetNum(bb, bb.names[("hp", NumKind)]) == es[g].hp
            && GetNum(bb, bb.names[("alliesNum", NumKind)]) == AlliesNear(es, g, |es|) >= 1.0
            && GetNum(bb, bb.names[("enemyDist", NumKind)]) == ClosestSq(es, g, |es|, false)
            && GetNum(bb, bb.names[("allyDist", NumKind)]) == ClosestSq(es, g, |es|, true) == 0.0
            && ("base_wp", PosKind) in bb.names
            && GetNum(bb, bb.names[("baseDist", NumKind)]) == DistSq(es[g].pos, GetPos(bb, bb.names[("base_wp", PosKind)])) as real
  {
    SenseIntoReadBack(es[g], AlliesNear(es, g, |es|), ClosestSq(es, g, |es|, false), ClosestSq(es, g, |es|, true));
    ClosestSqIsMin(es, g, |es|, true);
    assert Measured(es, g, g, true) && DistSq(es[g].pos, es[g].pos) == 0;
  }

  /** The sensor reads only liveness, kinds, positions and teams of the others. */
  lemma SensedReadsBodies(a: seq<Entity>, b: seq<Entity>, g: nat)
    requires SameBodies(a, b) && g < |a| && a[g] == b[g]
    ensures Sensed(a, g) == Sensed(b, g)
  {
    SensorsReadBodies(a, b, g, |a|);
  }

  /** The agents that sense: live characters with the WorldInfoGatherer tag. */
  predicate Gathers(e: Entity) {
    IsCharacter(e) && e.gathersInfo
  }

  /** gather_world_info: every sensing agent's blackboard is refreshed; nothing else
      changes. */
  function Gathered(es: seq<Entity>): (r: seq<Entity>)
    ensures |r| == |es|
  {
    Refreshed(es, SensedAll(es), |es|)
  }

  /** The blackboard every agent would have after its sensor. */
  function SensedAll(es: seq<Entity>): (r: seq<Blackboard>)
    ensures |r| == |es|
  {
    seq(|es|, g requires 0 <= g < |es| => Sensed(es, g))
  }

  /** The sensing agents among the first n receive their blackboard from bbs. */
  function Refreshed(es: seq<Entity>, bbs: seq<Blackboard>, n: nat): (r: seq<Entity>)
    requires n <= |es| == |bbs|
    ensures |r| == |es|
  {
    if n == 0 then es
    else
      var prev := Refreshed(es, bbs, n - 1);
      if Gathers(es[n - 1]) then prev[n - 1 := es[n - 1].(bb := bbs[n - 1])] else prev
  }

  /** The sensors refresh exactly the sensing agents' blackboards; nothing else
      changes. */
  lemma {:induction false} RefreshedAt(es: seq<Entity>, bbs: seq<Blackboard>, n: nat, j: nat)
    requires n <= |es| == |bbs| && j < |es|
    ensures Refreshed(es, bbs, n)[j] == if j < n && Gathers(es[j]) then es[j].(bb := bbs[j]) else es[j]
  {
    if n > 0 {
      RefreshedAt(es, bbs, n - 1, j);
    }
  }

  lemma GatheredAt(es: seq<Entity>, j: nat)
    requires j < |es|
    ensures Gathered(es)[j] == if Gathers(es[j]) then es[j].(bb := Sensed(es, j)) else es[j]
  {
    RefreshedAt(es, SensedAll(es), |es|, j);
  }

  lemma GatheredKeepsLayout(es: seq<Entity>)
    ensures SameLayout(es, Gathered(es))
  {
    forall j | 0 <= j < |es| ensures Gathered(es)[j] == es[j].(bb := Gathered(es)[j].bb) {
      RefreshedAt(es, SensedAll(es), |es|, j);
    }
  }

  /** What the sensors read of an entity: liveness, kind, position and team. */
  predicate SameBodies(a: seq<Entity>, b: seq<Entity>) {
    && |a| == |b|
    && forall k :: 0 <= k < |a| ==>
         a[k].alive == b[k].alive && a[k].kind == b[k].kind && a[k].pos == b[k].pos && a[k].team == b[k].team
  }

  lemma {:induction false} SensorsReadBodies(a: seq<Entity>, b: seq<Entity>, g: nat, n: nat)
    requires SameBodies(a, b) && g < |a| && n <= |a|
    ensures AlliesNear(a, g, n) == AlliesNear(b, g, n)
    ensures ClosestSq(a, g, n, true) == ClosestSq(b, g, n, true)
    ensures ClosestSq(a, g, n, false) == ClosestSq(b, g, n, false)
  {
    AlliesReadBodies(a, b, g, n);
    ClosestReadsBodies(a, b, g, n, true);
    ClosestReadsBodies(a, b, g, n, false);
  }

  lemma {:induction false} AlliesReadBodies(a: seq<Entity>, b: seq<Entity>, g: nat, n: nat)
    requires SameBodies(a, b) && g < |a| && n <= |a|
    ensures AlliesNear(a, g, n) == AlliesNear(b, g, n)
  {
    if n > 0 {
      AlliesReadBodies(a, b, g, n - 1);
      assert a[n - 1].pos == b[n - 1].pos && a[g].pos == b[g].pos;
    }
  }

  lemma {:induction false} ClosestReadsBodies(a: seq<Entity>, b: seq<Entity>, g: nat, n: nat, ally: bool)
    requires SameBodies(a, b) && g < |a| && n <= |a|
    ensures ClosestSq(a, g, n, ally) == ClosestSq(b, g, n, ally)
  {
    if n > 0 {
      ClosestReadsBodies(a, b, g, n - 1, ally);
      var d := DistSq(a[g].pos, a[n - 1].pos) as real;
      assert d == DistSq(b[g].pos, b[n - 1].pos) as real;
      assert Measured(a, g, n - 1, ally) == Measured(b, g, n - 1, ally);
    }
  }

  /** The sensor of agent g, with the loop over every character. */
  method Sense(es: array<Entity>, g: nat)
    requires g < es.Length
    modifies es
    ensures es[..] == old(es[..])[g := old(es[g]).(bb := Sensed(old(es[..]), g))]
  {
    ghost var es0 := es[..];
    var numAllies := 0.0;
    var closestEnemy := FltMax;
    var closestAlly := FltMax;
    var k := 0;
    while k < es.Length
      invariant 0 <= k <= es.Length && es[..] == es0
      invariant numAllies == AlliesNear(es0, g, k)
      invariant closestEnemy == ClosestSq(es0, g, k, false)
      invariant closestAlly == ClosestSq(es0, g, k, true)
    {
      if IsCharacter(es[k]) {
        var d := DistSq(es[g].pos, es[k].pos) as real;
        if es[g].team == es[k].team && d < AllyRadiusSq as real {
          numAllies := numAllies + 1.0;
        }
        if es[g].team != es[k].team && d < closestEnemy {
          closestEnemy := d;
        }
        if es[g].team == es[k].team && d < closestAlly {
          closestAlly := d;
        }
      }
      k := k + 1;
    }
    var bb := SenseInto(es[g], numAllies, closestEnemy, closestAlly);
    es[g] := es[g].(bb := bb);
  }

  method GatherWorldInfo(es: array<Entity>)
    modifies es
    ensures es[..] == Gathered(old(es[..]))
  {
    ghost var es0 := es[..];
    var j := 0;
    while j < es.Length
      invariant 0 <= j <= es.Length
      invariant es[..] == Refreshed(es0, SensedAll(es0), j)
      invariant SameBodies(es0, es[..])
    {
      RefreshedAt(es0, SensedAll(es0), j, j);
      if IsCharacter(es[j]) && es[j].gathersInfo {
        SensedReadsBodies(es0, es[..], j);
        Sense(es, j);
      }
      j := j + 1;
    }
  }

  // ---------------------------------------------------------------------------
  // process_turn

  /** The world, the log and the turn counter after one call of process_turn, with
      plan standing for the agents' planning (state machines and behaviour trees). */
  function Turn(es: seq<Entity>, log: seq<LogEntry>, turn: int, capacity: nat, plan: seq<Entity> -> seq<Entity>)
    : (r: (seq<Entity>, seq<LogEntry>, int))
    requires CountersUsable(es) && forall w :: |plan(w)| == |w|
    ensures |r.0| == |es|
  {
    if !PlayerActed(es) then (es, log, turn)
    else
      var counted := Counted(es);
      var (planned, turn') := if Wrapped(es) then (plan(Gathered(counted)), turn + 1) else (counted, turn);
      (Actions(UpDecreasesY, Healed(planned)), PushedAll(log, turn', ActionMessages(planned), capacity), turn')
  }

  method ProcessTurn(es: array<Entity>, log: ActionLog, plan: seq<Entity> -> seq<Entity>)
    requires CountersUsable(es[..]) && forall w :: |plan(w)| == |w|
    modifies es, log
    ensures log.capacity == old(log.capacity)
    ensures (es[..], log.entries, log.turn) == Turn(old(es[..]), old(log.entries), old(log.turn), log.capacity, plan)
  {
    ghost var es0, turn0 := es[..], log.turn;
    var acted := IsPlayerActed(es);
    if acted {
      var reached := UpdPlayerActionsCount(es);
      ghost var counted := es[..];
      if reached {
        GatherAndPlan(es, plan);
        log.NextTurn();
      }
      assert (es[..], log.turn) == if Wrapped(es0) then (plan(Gathered(counted)), turn0 + 1) else (counted, turn0);
      ProcessActions(es, log);
    }
  }

  /** The sensors, then the agents' planning, on a turn that starts a new round. */
  method GatherAndPlan(es: array<Entity>, plan: seq<Entity> -> seq<Entity>)
    requires forall w :: |plan(w)| == |w|
    modifies es
    ensures es[..] == plan(Gathered(old(es[..])))
  {
    GatherWorldInfo(es);
    var planned := plan(es[..]);
    forall k | 0 <= k < es.Length {
      es[k] := planned[k];
    }
    assert es[..] == planned;
  }

  /** Nothing happens until the player acts; the sensors, the planning and the turn
      counter run only on the player actions that wrap the action counter; the
      actions are resolved on every player action. */
  lemma TurnGating(es: seq<Entity>, log: seq<LogEntry>, turn: int, capacity: nat, plan: seq<Entity> -> seq<Entity>)
    requires CountersUsable(es) && forall w :: |plan(w)| == |w|
    ensures !PlayerActed(es) ==> Turn(es, log, turn, capacity, plan) == (es, log, turn)
    ensures PlayerActed(es) ==> Turn(es, log, turn, capacity, plan).2 == if Wrapped(es) then turn + 1 else turn
    ensures PlayerActed(es) && !Wrapped(es) ==> Turn(es, log, turn, capacity, plan).0 == Actions(UpDecreasesY, Healed(Counted(es)))
    ensures PlayerActed(es) && Wrapped(es) ==>
              Turn(es, log, turn, capacity, plan).0 == Actions(UpDecreasesY, Healed(plan(Gathered(Counted(es)))))
  {
  }

  /** The log of a turn stays within its capacity: it holds the newest entries of
      the old log followed by this turn's messages, all stamped with the turn they
      were written in. */
  lemma TurnLogIsWindow(es: seq<Entity>, log: seq<LogEntry>, turn: int, capacity: nat, plan: seq<Entity> -> seq<Entity>)
    requires CountersUsable(es) && forall w :: |plan(w)| == |w|
    requires |log| <= capacity
    ensures var (es', log', turn') := Turn(es, log, turn, capacity, plan);
            && |log'| <= capacity
            && (PlayerActed(es) ==>
                  log' == LastN(log + Stamped(turn', ActionMessages(if Wrapped(es) then plan(Gathered(Counted(es))) else Counted(es))), capacity))
  {
    var (es', log', turn') := Turn(es, log, turn, capacity, plan);
    if PlayerActed(es) {
      var planned := if Wrapped(es) then plan(Gathered(Counted(es))) else Counted(es);
      PushedAllIsWindow(log, turn', ActionMessages(planned), capacity);
    }
  }

  /** If planning moves nobody (it only sets actions, hitpoints and blackboards),
      a turn keeps live characters on pairwise different cells. */
  lemma TurnKeepsCharactersApart(es: seq<Entity>, log: seq<LogEntry>, turn: int, capacity: nat, plan: seq<Entity> -> seq<Entity>)
    requires CountersUsable(es) && forall w :: |plan(w)| == |w|
    requires forall w :: SameLayout(w, plan(w))
    requires ReservationsDistinct(es)
    ensures ReservationsDistinct(Turn(es, log, turn, capacity, plan).0)
    ensures PlayerActed(es) ==> CellsDistinct(Turn(es, log, turn, capacity, plan).0)
  {
    if PlayerActed(es) {
      var counted := Counted(es);
      assert SameLayout(es, counted);
      LayoutKeepsReservations(es, counted);
      var planned := counted;
      if Wrapped(es) {
        var g := Gathered(counted);
        GatheredKeepsLayout(counted);
        LayoutKeepsReservations(counted, g);
        planned := plan(g);
        LayoutKeepsReservations(g, planned);
      }
      HealedKeepsLayout(planned);
      LayoutKeepsReservations(planned, Healed(planned));
      ActionsSeparate(UpDecreasesY, Healed(planned));
    }
  }
}
