/** Turn resolution, as both versions of the game perform it (w1/roguelike.cpp
    and w3/roguelike.cpp): the player's action counter, the grid step of an
    action, the two passes over the characters' actions (reserve a cell or be
    blocked and strike, then move), the removal of dead characters and the
    pickups. The two versions differ in the direction of UP, which is a
    parameter here, and in the action log, which only the third version keeps
    (a null log stands for its absence). */
module Turns {
  import opened Components
  import opened GridMath
  import opened World
  import opened AiLibrary
  import opened ActionLogs

  /** Which way an UP move goes: towards larger y in w1, smaller y in w3. */
  datatype Axis = UpIncreasesY | UpDecreasesY

  function Manhattan(a: Pos, b: Pos): nat {
    Abs(a.x - b.x) + Abs(a.y - b.y)
  }

  /** move_pos: the cell an action leads to. A move goes to a neighbouring cell,
      horizontally for LEFT/RIGHT and vertically for UP/DOWN; every other action
      stays put. */
  function MovePos(axis: Axis, p: Pos, a: Action): (r: Pos)
    ensures Manhattan(p, r) == if a.IsMove() then 1 else 0
    ensures (a.MoveLeft? || a.MoveRight?) ==> r.y == p.y && (r.x > p.x <==> a.MoveRight?)
    ensures (a.MoveUp? || a.MoveDown?) ==> r.x == p.x && (r.y > p.y <==> (a.MoveUp? <==> axis.UpIncreasesY?))
  {
    match a
    case MoveLeft => Pos(p.x - 1, p.y)
    case MoveRight => Pos(p.x + 1, p.y)
    case MoveUp => if axis.UpIncreasesY? then Pos(p.x, p.y + 1) else Pos(p.x, p.y - 1)
    case MoveDown => if axis.UpIncreasesY? then Pos(p.x, p.y - 1) else Pos(p.x, p.y + 1)
    case _ => p
  }

  /** A move followed by its inverse returns to the start, in either convention. */
  lemma MoveThenInverse(axis: Axis, p: Pos, a: Action)
    ensures MovePos(axis, MovePos(axis, p, a), InverseMove(a)) == p
  {
  }

  /** The third version's move_pos is the first one's with UP and DOWN exchanged. */
  lemma W3MirrorsW1(p: Pos, a: Action)
    ensures MovePos(UpDecreasesY, p, a)
            == MovePos(UpIncreasesY, p, if a.MoveUp? || a.MoveDown? then InverseMove(a) else a)
    ensures !(a.MoveUp? || a.MoveDown?) ==> MovePos(UpDecreasesY, p, a) == MovePos(UpIncreasesY, p, a)
  {
  }

  /** With the first version's move_pos, the step move_towards chooses brings the
      agent one cell closer (in Manhattan distance) to any other cell. */
  lemma MoveTowardsApproaches(from: Pos, to: Pos)
    requires from != to
    ensures Manhattan(MovePos(UpIncreasesY, from, MoveTowards(from, to)), to) == Manhattan(from, to) - 1
  {
    var a := MoveTowards(from, to);
    var r := MovePos(UpIncreasesY, from, a);
    if a.MoveLeft? || a.MoveRight? {
      assert Abs(to.x - from.x) > 0;
      assert Abs(r.x - to.x) == Abs(from.x - to.x) - 1;
    } else if a.MoveUp? {
      assert to.y > from.y;
    } else {
      assert Abs(to.x - from.x) <= Abs(to.y - from.y);
      assert to.y < from.y;
    }
  }

  // ---------------------------------------------------------------------------
  // The player's turn

  /** is_player_acted: the player query overwrites its answer for every player, so
      the last player decides; without a player nobody acted. */
  predicate PlayerActed(es: seq<Entity>) {
    var p := LastPlayer(es);
    p.Some? && es[p.value].action != Nop
  }

  method IsPlayerActed(es: array<Entity>) returns (acted: bool)
    ensures acted == PlayerActed(es[..])
  {
    acted := false;
    var j := 0;
    while j < es.Length
      invariant 0 <= j <= es.Length
      invariant acted == (var p := LastPlayerIn(es[..], j); p.Some? && es[p.value].action != Nop)
    {
      if IsPlayer(es[j]) {
        acted := es[j].action != Nop;
      }
      j := j + 1;
    }
    assert es[..] == es[..es.Length];
  }

  /** C's remainder, which truncates the quotient towards zero. */
  function CRem(a: int, b: int): (r: int)
    requires b != 0
    ensures Abs(r) < Abs(b)
    ensures a >= 0 ==> 0 <= r
    ensures a < 0 ==> r <= 0
  {
    var m := Abs(a) % Abs(b);
    if a < 0 then -m else m
  }

  /** The new curActions after one player action. */
  function CountStep(cur: int, numActions: int): int
    requires numActions != 0
  {
    CRem(cur + 1, numActions)
  }

  /** A counter within [0, numActions) stays there, moves up by one, and wraps to 0
      exactly after its last value. */
  lemma CountStepInRange(cur: int, numActions: int)
    requires 0 < numActions && 0 <= cur < numActions
    ensures 0 <= CountStep(cur, numActions) < numActions
    ensures CountStep(cur, numActions) == 0 <==> cur == numActions - 1
    ensures cur < numActions - 1 ==> CountStep(cur, numActions) == cur + 1
  {
    var r := CountStep(cur, numActions);
    if cur < numActions - 1 {
      assert (cur + 1) % numActions == cur + 1;
    } else {
      assert (cur + 1) % numActions == 0;
    }
  }

  /** The counter after k player actions from 0. */
  function CountAfter(numActions: int, k: nat): int
    requires numActions != 0
  {
    if k == 0 then 0 else CountStep(CountAfter(numActions, k - 1), numActions)
  }

  /** The counter takes the values 0, 1, ..., numActions - 1 on the first actions. */
  lemma {:induction false} CountRisesFromZero(numActions: int, k: nat)
    requires 0 <= k < numActions
    ensures CountAfter(numActions, k) == k
  {
    if k > 0 {
      CountRisesFromZero(numActions, k - 1);
      CountStepInRange(k - 1, numActions);
    }
  }

  /** The counter repeats with period numActions. */
  lemma {:induction false} CountPeriodic(numActions: int, k: nat)
    requires 0 < numActions
    ensures CountAfter(numActions, k + numActions) == CountAfter(numActions, k)
  {
    if k == 0 {
      CountRisesFromZero(numActions, numActions - 1);
      CountStepInRange(numActions - 1, numActions);
    } else {
      CountPeriodic(numActions, k - 1);
    }
  }

  /** After q full rounds of numActions player actions and r more, the counter
      reads r: it wraps to 0 (and the other characters plan) exactly on every
      numActions-th player action. */
  lemma {:induction false} CountCycles(numActions: int, q: nat, r: int)
    requires 0 <= r < numActions
    ensures CountAfter(numActions, q * numActions + r) == r
  {
    if q == 0 {
      CountRisesFromZero(numActions, r);
    } else {
      CountCycles(numActions, q - 1, r);
      assert q * numActions + r == (q - 1) * numActions + r + numActions;
      CountPeriodic(numActions, (q - 1) * numActions + r);
    }
  }

  /** Every player carries a usable NumActions (the source divides by it). */
  predicate CountersUsable(es: seq<Entity>) {
    forall j :: 0 <= j < |es| && IsPlayer(es[j]) ==> es[j].numActions != 0
  }

  /** upd_player_actions_count's new counters: each player's counter steps. */
  function Counted(es: seq<Entity>): (r: seq<Entity>)
    requires CountersUsable(es)
    ensures |r| == |es|
    ensures forall j :: 0 <= j < |es| ==>
              r[j] == if IsPlayer(es[j]) then es[j].(curActions := CountStep(es[j].curActions, es[j].numActions)) else es[j]
  {
    seq(|es|, j requires 0 <= j < |es| && CountersUsable(es) =>
      if IsPlayer(es[j]) then es[j].(curActions := CountStep(es[j].curActions, es[j].numActions)) else es[j])
  }

  /** upd_player_actions_count's answer: some player's counter wrapped to 0. */
  predicate Wrapped(es: seq<Entity>)
    requires CountersUsable(es)
  {
    exists j :: 0 <= j < |es| && IsPlayer(es[j]) && CountStep(es[j].curActions, es[j].numActions) == 0
  }

  method UpdPlayerActionsCount(es: array<Entity>) returns (reached: bool)
    requires CountersUsable(es[..])
    modifies es
    ensures es[..] == Counted(old(es[..]))
    ensures reached == Wrapped(old(es[..]))
  {
    ghost var es0 := es[..];
    reached := false;
    var j := 0;
    while j < es.Length
      invariant 0 <= j <= es.Length
      invariant forall k :: 0 <= k < j ==> es[k] == Counted(es0)[k]
      invariant forall k :: j <= k < es.Length ==> es[k] == es0[k]
      invariant reached <==> exists k :: 0 <= k < j && IsPlayer(es0[k])
                                        && CountStep(es0[k].curActions, es0[k].numActions) == 0
    {
      if IsPlayer(es[j]) {
        es[j] := es[j].(curActions := CRem(es[j].curActions + 1, es[j].numActions));
        reached := reached || es[j].curActions == 0;
      }
      j := j + 1;
    }
    assert es[..] == Counted(es0);
  }

  /** A player's counter within range stays within range. */
  lemma CountedInRange(es: seq<Entity>, j: nat)
    requires CountersUsable(es) && j < |es| && IsPlayer(es[j])
    requires 0 < es[j].numActions && 0 <= es[j].curActions < es[j].numActions
    ensures 0 <= Counted(es)[j].curActions < es[j].numActions
    ensures Counted(es)[j].curActions == 0 <==> es[j].curActions == es[j].numActions - 1
  {
    CountStepInRange(es[j].curActions, es[j].numActions);
  }

  // ---------------------------------------------------------------------------
  // First pass: every character reserves its target cell or is blocked

  /** Entity j, a live character other than the actor i, has reserved cell c. */
  predicate Occupies(es: seq<Entity>, i: nat, j: nat, c: Pos)
    requires i < |es| && j < |es|
  {
    j != i && IsCharacter(es[j]) && es[j].movePos == c
  }

  /** ... and belongs to another team than the actor, so the actor strikes it. */
  predicate Hurts(es: seq<Entity>, i: nat, j: nat, c: Pos)
    requires i < |es| && j < |es|
  {
    Occupies(es, i, j, c) && es[j].team != es[i].team
  }

  predicate BlockedIn(es: seq<Entity>, i: nat, c: Pos, n: nat)
    requires i < |es| && n <= |es|
  {
    exists j :: 0 <= j < n && Occupies(es, i, j, c)
  }

  lemma BlockedInStep(es: seq<Entity>, i: nat, c: Pos, n: nat)
    requires i < |es| && n < |es|
    ensures BlockedIn(es, i, c, n + 1) <==> BlockedIn(es, i, c, n) || Occupies(es, i, n, c)
  {
    if BlockedIn(es, i, c, n + 1) && !Occupies(es, i, n, c) {
      var j :| 0 <= j < n + 1 && Occupies(es, i, j, c);
      assert j < n;
    }
  }

  lemma StrikeStep(es: seq<Entity>, i: nat, c: Pos, n: nat)
    requires i < |es| && n < |es|
    ensures Strike(es, i, c, n + 1)
            == if Hurts(es, i, n, c) then Strike(es, i, c, n)[n := es[n].(hp := es[n].hp - es[i].damage)]
               else Strike(es, i, c, n)
  {
  }

  /** How many of the first n entities the actor strikes. */
  function HitsIn(es: seq<Entity>, i: nat, c: Pos, n: nat): nat
    requires i < |es| && n <= |es|
  {
    if n == 0 then 0 else HitsIn(es, i, c, n - 1) + (if Hurts(es, i, n - 1, c) then 1 else 0)
  }

  /** The world after the actor's strikes on the first n entities. */
  function Strike(es: seq<Entity>, i: nat, c: Pos, n: nat): (r: seq<Entity>)
    requires i < |es|
    ensures |r| == |es|
    ensures forall j :: 0 <= j < |es| ==>
              r[j] == if j < n && Hurts(es, i, j, c) then es[j].(hp := es[j].hp - es[i].damage) else es[j]
  {
    seq(|es|, j requires 0 <= j < |es| =>
      if j < n && Hurts(es, i, j, c) then es[j].(hp := es[j].hp - es[i].damage) else es[j])
  }

  /** The target cell of the actor i. */
  function Target(axis: Axis, es: seq<Entity>, i: nat): Pos
    requires i < |es|
  {
    MovePos(axis, es[i].pos, es[i].action)
  }

  /** The first pass for the actor i. It is blocked exactly when another character
      has reserved its target cell; a blocked actor keeps its MovePos and its action
      becomes NOP, a free one reserves the target. Every character on the target cell
      of another team loses the actor's melee damage; teammates there only block. */
  function Resolve(axis: Axis, es: seq<Entity>, i: nat): (r: seq<Entity>)
    requires i < |es|
    ensures |r| == |es|
    ensures var c := Target(axis, es, i);
            && (BlockedIn(es, i, c, |es|) ==> r[i] == es[i].(action := Nop))
            && (!BlockedIn(es, i, c, |es|) ==> r[i] == es[i].(movePos := c))
    ensures forall j :: 0 <= j < |es| && j != i ==>
              r[j] == es[j].(hp := es[j].hp - (if Hurts(es, i, j, Target(axis, es, i)) then es[i].damage else 0.0))
  {
    var c := Target(axis, es, i);
    var hit := Strike(es, i, c, |es|);
    hit[i := if BlockedIn(es, i, c, |es|) then es[i].(action := Nop) else es[i].(movePos := c)]
  }

  /** The first pass over the first n entities, in order, and the number of strikes. */
  function MovesUpTo(axis: Axis, es: seq<Entity>, n: nat): (r: (seq<Entity>, nat))
    requires n <= |es|
    ensures |r.0| == |es|
    decreases n
  {
    if n == 0 then (es, 0)
    else
      var (prev, hits) := MovesUpTo(axis, es, n - 1);
      if IsCharacter(prev[n - 1]) then
        (Resolve(axis, prev, n - 1), hits + HitsIn(prev, n - 1, Target(axis, prev, n - 1), |prev|))
      else (prev, hits)
  }

  lemma MovesStep(axis: Axis, es: seq<Entity>, i: nat)
    requires i < |es|
    ensures var (prev, hits) := MovesUpTo(axis, es, i);
            MovesUpTo(axis, es, i + 1)
            == if IsCharacter(prev[i]) then (Resolve(axis, prev, i), hits + HitsIn(prev, i, Target(axis, prev, i), |prev|))
               else (prev, hits)
  {
  }

  /** The strike loop of one actor; each strike on another team is logged. */
  method ResolveActor(axis: Axis, es: array<Entity>, i: nat, log: ActionLog?)
    requires i < es.Length
    modifies es, log
    ensures es[..] == Resolve(axis, old(es[..]), i)
    ensures log != null ==>
              && log.turn == old(log.turn) && log.capacity == old(log.capacity)
              && log.entries == PushedAll(old(log.entries), log.turn,
                                          Repeat(DamagedMsg, HitsIn(old(es[..]), i, Target(axis, old(es[..]), i), es.Length)),
                                          log.capacity)
  {
    var c := MovePos(axis, es[i].pos, es[i].action);
    var blocked := StrikeTarget(es, i, c, log);
    if blocked {
      es[i] := es[i].(action := Nop);
    } else {
      es[i] := es[i].(movePos := c);
    }
  }

  /** The inner loop of the first pass: the actor i strikes every character of
      another team that reserved cell c, and is blocked by any character there. */
  method StrikeTarget(es: array<Entity>, i: nat, c: Pos, log: ActionLog?) returns (blocked: bool)
    requires i < es.Length
    modifies es, log
    ensures es[..] == Strike(old(es[..]), i, c, es.Length)
    ensures blocked == BlockedIn(old(es[..]), i, c, es.Length)
    ensures log != null ==>
              && log.turn == old(log.turn) && log.capacity == old(log.capacity)
              && log.entries == PushedAll(old(log.entries), log.turn, Repeat(DamagedMsg, HitsIn(old(es[..]), i, c, es.Length)), log.capacity)
  {
    ghost var es0 := es[..];
    ghost var entries0 := if log != null then log.entries else [];
    blocked := false;
    var j := 0;
    ghost var hits := 0;
    while j < es.Length
      invariant 0 <= j <= es.Length
      invariant es[..] == Strike(es0, i, c, j)
      invariant blocked == BlockedIn(es0, i, c, j)
      invariant hits == HitsIn(es0, i, c, j)
      invariant log != null ==> log.turn == old(log.turn) && log.capacity == old(log.capacity)
      invariant log != null ==> log.entries == PushedAll(entries0, log.turn, Repeat(DamagedMsg, hits), log.capacity)
    {
      blocked, hits := StrikeOne(es, i, c, log, j, es0, entries0, blocked, hits);
      j := j + 1;
    }
  }

  /** One step of the strike loop: entity j, if it occupies the target cell, blocks
      the actor, and is struck when it is of another team. */
  method StrikeOne(es: array<Entity>, i: nat, c: Pos, log: ActionLog?, j: nat, ghost es0: seq<Entity>,
                   ghost entries0: seq<LogEntry>, blocked: bool, ghost hits: nat)
    returns (nowBlocked: bool, ghost nowHits: nat)
    requires i < es.Length == |es0| && j < es.Length
    requires es[..] == Strike(es0, i, c, j) && blocked == BlockedIn(es0, i, c, j) && hits == HitsIn(es0, i, c, j)
    requires log != null ==> log.entries == PushedAll(entries0, log.turn, Repeat(DamagedMsg, hits), log.capacity)
    modifies es, log
    ensures es[..] == Strike(es0, i, c, j + 1)
    ensures nowBlocked == BlockedIn(es0, i, c, j + 1) && nowHits == HitsIn(es0, i, c, j + 1)
    ensures log != null ==>
              && log.turn == old(log.turn) && log.capacity == old(log.capacity)
              && log.entries == PushedAll(entries0, log.turn, Repeat(DamagedMsg, nowHits), log.capacity)
  {
    nowBlocked, nowHits := blocked, hits;
    assert es[j] == es0[j] && es[i] == es0[i];
    BlockedInStep(es0, i, c, j);
    StrikeStep(es0, i, c, j);
    if j != i && IsCharacter(es[j]) && es[j].movePos == c {
      nowBlocked := true;
      if es[i].team != es[j].team {
        if log != null {
          LogOneMore(log, entries0, DamagedMsg, hits);
        }
        nowHits := hits + 1;
        es[j] := es[j].(hp := es[j].hp - es[i].damage);
      }
    }
  }

  const DamagedMsg: string := "damaged entity"

  /** One more entry msg after n of them. */
  method LogOneMore(log: ActionLog, ghost entries0: seq<LogEntry>, msg: string, ghost n: nat)
    requires log.entries == PushedAll(entries0, log.turn, Repeat(msg, n), log.capacity)
    modifies log`entries
    ensures log.entries == PushedAll(entries0, log.turn, Repeat(msg, n + 1), log.capacity)
  {
    RepeatSnoc(msg, n);
    PushedAllSnoc(entries0, log.turn, Repeat(msg, n), msg, log.capacity);
    log.Push(msg);
  }

  /** The first pass over all characters in order. */
  method ReserveCells(axis: Axis, es: array<Entity>, log: ActionLog?)
    modifies es, log
    ensures es[..] == MovesUpTo(axis, old(es[..]), es.Length).0
    ensures log != null ==>
              && log.turn == old(log.turn) && log.capacity == old(log.capacity)
              && log.entries == PushedAll(old(log.entries), log.turn,
                                          Repeat(DamagedMsg, MovesUpTo(axis, old(es[..]), es.Length).1), log.capacity)
  {
    ghost var es0 := es[..];
    ghost var entries0 := if log != null then log.entries else [];
    var i := 0;
    while i < es.Length
      invariant 0 <= i <= es.Length
      invariant es[..] == MovesUpTo(axis, es0, i).0
      invariant log != null ==>
                  && log.turn == old(log.turn) && log.capacity == old(log.capacity)
                  && log.entries == PushedAll(entries0, log.turn, Repeat(DamagedMsg, MovesUpTo(axis, es0, i).1), log.capacity)
    {
      ReserveOne(axis, es, i, log, es0, entries0);
      i := i + 1;
    }
  }

  /** One step of the first pass: character i, if it is one, resolves its action. */
  method ReserveOne(axis: Axis, es: array<Entity>, i: nat, log: ActionLog?, ghost es0: seq<Entity>, ghost entries0: seq<LogEntry>)
    requires i < es.Length == |es0| && es[..] == MovesUpTo(axis, es0, i).0
    requires log != null ==> log.entries == PushedAll(entries0, log.turn, Repeat(DamagedMsg, MovesUpTo(axis, es0, i).1), log.capacity)
    modifies es, log
    ensures es[..] == MovesUpTo(axis, es0, i + 1).0
    ensures log != null ==>
              && log.turn == old(log.turn) && log.capacity == old(log.capacity)
              && log.entries == PushedAll(entries0, log.turn, Repeat(DamagedMsg, MovesUpTo(axis, es0, i + 1).1), log.capacity)
  {
    ghost var before := es[..];
    ghost var hits := MovesUpTo(axis, es0, i).1;
    MovesStep(axis, es0, i);
    if IsCharacter(es[i]) {
      ResolveActor(axis, es, i, log);
      if log != null {
        PushedAllRepeat(entries0, log.turn, hits, HitsIn(before, i, Target(axis, before, i), es.Length), log.capacity);
      }
    }
  }

  /** Pushing a copies and then b copies of the damage message is pushing a + b copies. */
  lemma {:induction false} PushedAllRepeat(log: seq<LogEntry>, turn: int, a: nat, b: nat, capacity: nat)
    ensures PushedAll(PushedAll(log, turn, Repeat(DamagedMsg, a), capacity), turn, Repeat(DamagedMsg, b), capacity)
            == PushedAll(log, turn, Repeat(DamagedMsg, a + b), capacity)
    decreases b
  {
    if b > 0 {
      PushedAllRepeat(log, turn, a, b - 1, capacity);
      RepeatSnoc(DamagedMsg, b - 1);
      RepeatSnoc(DamagedMsg, a + b - 1);
      PushedAllSnoc(PushedAll(log, turn, Repeat(DamagedMsg, a), capacity), turn, Repeat(DamagedMsg, b - 1), DamagedMsg, capacity);
      PushedAllSnoc(log, turn, Repeat(DamagedMsg, a + b - 1), DamagedMsg, capacity);
    }
  }

  // ---------------------------------------------------------------------------
  // Second pass, removal of the dead, pickups

  /** The second pass: every character moves to its MovePos and its action is cleared. */
  function Commit(es: seq<Entity>): (r: seq<Entity>)
    ensures |r| == |es|
    ensures forall j :: 0 <= j < |es| ==>
              r[j] == if IsCharacter(es[j]) then es[j].(pos := es[j].movePos, action := Nop) else es[j]
  {
    seq(|es|, j requires 0 <= j < |es| =>
      if IsCharacter(es[j]) then es[j].(pos := es[j].movePos, action := Nop) else es[j])
  }

  method CommitMoves(es: array<Entity>)
    modifies es
    ensures es[..] == Commit(old(es[..]))
  {
    ghost var es0 := es[..];
    var j := 0;
    while j < es.Length
      invariant 0 <= j <= es.Length
      invariant forall k :: 0 <= k < j ==> es[k] == Commit(es0)[k]
      invariant forall k :: j <= k < es.Length ==> es[k] == es0[k]
    {
      if IsCharacter(es[j]) {
        es[j] := es[j].(pos := es[j].movePos, action := Nop);
      }
      j := j + 1;
    }
    assert es[..] == Commit(es0);
  }

  /** deleteAllDead: exactly the live characters with hitpoints at most 0 are
      destroyed; nothing else changes. */
  function RemoveDead(es: seq<Entity>): (r: seq<Entity>)
    ensures |r| == |es|
    ensures forall j :: 0 <= j < |es| ==> r[j] == es[j].(alive := r[j].alive)
    ensures forall j :: 0 <= j < |es| ==>
              (r[j].alive <==> es[j].alive && !(es[j].kind.Character? && es[j].hp <= 0.0))
  {
    seq(|es|, j requires 0 <= j < |es| =>
      if IsCharacter(es[j]) && es[j].hp <= 0.0 then es[j].(alive := false) else es[j])
  }

  method DeleteDead(es: array<Entity>)
    modifies es
    ensures es[..] == RemoveDead(old(es[..]))
  {
    ghost var es0 := es[..];
    var j := 0;
    while j < es.Length
      invariant 0 <= j <= es.Length
      invariant forall k :: 0 <= k < j ==> es[k] == RemoveDead(es0)[k]
      invariant forall k :: j <= k < es.Length ==> es[k] == es0[k]
    {
      if IsCharacter(es[j]) && es[j].hp <= 0.0 {
        es[j] := es[j].(alive := false);
      }
      j := j + 1;
    }
    assert es[..] == RemoveDead(es0);
  }

  /** A player that the pickup query visits (a live player character). */
  predicate Picker(e: Entity) {
    IsCharacter(e) && e.isPlayer
  }

  predicate IsHealOn(e: Entity, c: Pos) {
    e.alive && e.kind.HealPickup? && e.pos == c
  }

  predicate IsPowerupOn(e: Entity, c: Pos) {
    e.alive && e.kind.PowerupPickup? && e.pos == c
  }

  /** The amounts of the heals (powerups) on cell c among the first n entities. */
  function HealOn(es: seq<Entity>, c: Pos, n: nat): real
    requires n <= |es|
  {
    if n == 0 then 0.0 else HealOn(es, c, n - 1) + (if IsHealOn(es[n - 1], c) then es[n - 1].kind.amount else 0.0)
  }

  function PowerupOn(es: seq<Entity>, c: Pos, n: nat): real
    requires n <= |es|
  {
    if n == 0 then 0.0 else PowerupOn(es, c, n - 1) + (if IsPowerupOn(es[n - 1], c) then es[n - 1].kind.amount else 0.0)
  }

  /** Some player among the first n stands on the cell of pickup k. */
  predicate Claimed(es: seq<Entity>, k: nat, n: nat)
    requires k < |es| && n <= |es|
  {
    exists p :: 0 <= p < n && Picker(es[p]) && es[p].pos == es[k].pos
  }

  predicate IsPickup(e: Entity) {
    e.alive && (e.kind.HealPickup? || e.kind.PowerupPickup?)
  }

  /** The pickup step: every player gains the heals and powerups on its cell, and
      each of those pickups is destroyed. The destruction is deferred to the end of
      the step, so two players on one cell would both collect it. */
  function PickedUp(es: seq<Entity>): (r: seq<Entity>)
    ensures |r| == |es|
    ensures forall j :: 0 <= j < |es| && Picker(es[j]) ==>
              r[j] == es[j].(hp := es[j].hp + HealOn(es, es[j].pos, |es|),
                             damage := es[j].damage + PowerupOn(es, es[j].pos, |es|))
    ensures forall j :: 0 <= j < |es| && IsPickup(es[j]) ==>
              r[j] == es[j].(alive := !Claimed(es, j, |es|))
    ensures forall j :: 0 <= j < |es| && !Picker(es[j]) && !IsPickup(es[j]) ==> r[j] == es[j]
  {
    seq(|es|, j requires 0 <= j < |es| =>
      if Picker(es[j]) then es[j].(hp := es[j].hp + HealOn(es, es[j].pos, |es|),
                                   damage := es[j].damage + PowerupOn(es, es[j].pos, |es|))
      else if IsPickup(es[j]) then es[j].(alive := !Claimed(es, j, |es|))
      else es[j])
  }

  /** The pickup step with only one player: it collects exactly the pickups on its
      cell, which disappear; every other pickup stays. */
  lemma SinglePlayerPickup(es: seq<Entity>, p: nat)
    requires p < |es| && Picker(es[p])
    requires forall q :: 0 <= q < |es| && Picker(es[q]) ==> q == p
    ensures PickedUp(es)[p].hp == es[p].hp + HealOn(es, es[p].pos, |es|)
    ensures PickedUp(es)[p].damage == es[p].damage + PowerupOn(es, es[p].pos, |es|)
    ensures forall k :: 0 <= k < |es| && IsPickup(es[k]) ==>
              (PickedUp(es)[k].alive <==> es[k].pos != es[p].pos)
  {
    forall k | 0 <= k < |es| && IsPickup(es[k])
      ensures PickedUp(es)[k].alive <==> es[k].pos != es[p].pos
    {
      if es[k].pos == es[p].pos {
        assert Claimed(es, k, |es|);
      }
    }
  }

  /** What the pickup loop has done once the players before p were served. */
  function PickedUpBefore(es: seq<Entity>, p: nat): (r: seq<Entity>)
    requires p <= |es|
    ensures |r| == |es|
  {
    seq(|es|, j requires 0 <= j < |es| =>
      if j < p && Picker(es[j]) then PickedUp(es)[j] else es[j])
  }

  /** The heal loop of player p: every live heal on its cell adds its amount to the
      player's hitpoints and is marked for destruction. */
  method CollectHeals(es: array<Entity>, p: nat, doomed: array<bool>, ghost es0: seq<Entity>)
    requires p < es.Length == doomed.Length == |es0|
    requires Picker(es0[p]) && es[..] == PickedUpBefore(es0, p)
    requires forall k :: 0 <= k < es.Length ==> (doomed[k] <==> IsPickup(es0[k]) && Claimed(es0, k, p))
    modifies es, doomed
    ensures es[..] == PickedUpBefore(es0, p)[p := es0[p].(hp := es0[p].hp + HealOn(es0, es0[p].pos, es.Length))]
    ensures forall q :: 0 <= q < es.Length ==>
              (doomed[q] <==> IsPickup(es0[q]) && (Claimed(es0, q, p) || IsHealOn(es0[q], es0[p].pos)))
  {
    var c := es[p].pos;
    var k := 0;
    while k < es.Length
      invariant 0 <= k <= es.Length
      invariant es[..] == PickedUpBefore(es0, p)[p := es0[p].(hp := es0[p].hp + HealOn(es0, c, k))]
      invariant forall q :: 0 <= q < es.Length ==>
                  (doomed[q] <==> IsPickup(es0[q]) && (Claimed(es0, q, p) || (q < k && IsHealOn(es0[q], c))))
    {
      if es[k].alive && es[k].kind.HealPickup? && es[k].pos == c {
        es[p] := es[p].(hp := es[p].hp + es[k].kind.amount);
        doomed[k] := true;
      }
      k := k + 1;
    }
  }

  /** The powerup loop of player p, after its heal loop. */
  method CollectPowerups(es: array<Entity>, p: nat, doomed: array<bool>, ghost es0: seq<Entity>)
    requires p < es.Length == doomed.Length == |es0| && Picker(es0[p])
    requires es[..] == PickedUpBefore(es0, p)[p := es0[p].(hp := es0[p].hp + HealOn(es0, es0[p].pos, es.Length))]
    requires forall q :: 0 <= q < es.Length ==>
               (doomed[q] <==> IsPickup(es0[q]) && (Claimed(es0, q, p) || IsHealOn(es0[q], es0[p].pos)))
    modifies es, doomed
    ensures es[..] == PickedUpBefore(es0, p + 1)
    ensures forall q :: 0 <= q < es.Length ==>
              (doomed[q] <==> IsPickup(es0[q]) && (Claimed(es0, q, p) || IsHealOn(es0[q], es0[p].pos) || IsPowerupOn(es0[q], es0[p].pos)))
  {
    var c := es[p].pos;
    var k := 0;
    while k < es.Length
      invariant 0 <= k <= es.Length
      invariant es[..] == PickedUpBefore(es0, p)[p := es0[p].(hp := es0[p].hp + HealOn(es0, c, es.Length),
                                                              damage := es0[p].damage + PowerupOn(es0, c, k))]
      invariant forall q :: 0 <= q < es.Length ==>
                  (doomed[q] <==> IsPickup(es0[q]) && (Claimed(es0, q, p) || IsHealOn(es0[q], c) || (q < k && IsPowerupOn(es0[q], c))))
    {
      if es[k].alive && es[k].kind.PowerupPickup? && es[k].pos == c {
        es[p] := es[p].(damage := es[p].damage + es[k].kind.amount);
        doomed[k] := true;
      }
      k := k + 1;
    }
    assert es[..] == PickedUpBefore(es0, p + 1);
  }

  /** Both loops of player p; the pickups it collected are now claimed. */
  method CollectPickups(es: array<Entity>, p: nat, doomed: array<bool>, ghost es0: seq<Entity>)
    requires p < es.Length == doomed.Length == |es0|
    requires Picker(es0[p]) && es[..] == PickedUpBefore(es0, p)
    requires forall k :: 0 <= k < es.Length ==> (doomed[k] <==> IsPickup(es0[k]) && Claimed(es0, k, p))
    modifies es, doomed
    ensures es[..] == PickedUpBefore(es0, p + 1)
    ensures forall k :: 0 <= k < es.Length ==> (doomed[k] <==> IsPickup(es0[k]) && Claimed(es0, k, p + 1))
  {
    CollectHeals(es, p, doomed, es0);
    CollectPowerups(es, p, doomed, es0);
    forall q | 0 <= q < es.Length
      ensures doomed[q] <==> IsPickup(es0[q]) && Claimed(es0, q, p + 1)
    {
      if IsPickup(es0[q]) && es0[q].pos == es0[p].pos {
        assert Claimed(es0, q, p + 1);
      }
      if Claimed(es0, q, p + 1) && !Claimed(es0, q, p) {
        var r :| 0 <= r < p + 1 && Picker(es0[r]) && es0[r].pos == es0[q].pos;
        assert r == p;
      }
    }
  }

  /** The pickup step: the players' loops, then the deferred destruction. */
  method Pickups(es: array<Entity>)
    modifies es
    ensures es[..] == PickedUp(old(es[..]))
  {
    ghost var es0 := es[..];
    var doomed := new bool[es.Length](_ => false);
    var p := 0;
    while p < es.Length
      invariant 0 <= p <= es.Length && doomed.Length == es.Length
      invariant es[..] == PickedUpBefore(es0, p)
      invariant forall k :: 0 <= k < es.Length ==> (doomed[k] <==> IsPickup(es0[k]) && Claimed(es0, k, p))
    {
      if Picker(es[p]) {
        CollectPickups(es, p, doomed, es0);
      } else {
        assert PickedUpBefore(es0, p + 1) == PickedUpBefore(es0, p);
        forall k | 0 <= k < es.Length
          ensures Claimed(es0, k, p + 1) == Claimed(es0, k, p)
        {
          if Claimed(es0, k, p + 1) {
            var r :| 0 <= r < p + 1 && Picker(es0[r]) && es0[r].pos == es0[k].pos;
            assert r != p;
          }
        }
      }
      p := p + 1;
    }
    var k := 0;
    while k < es.Length
      invariant 0 <= k <= es.Length
      invariant forall q :: 0 <= q < k ==> es[q] == PickedUp(es0)[q]
      invariant forall q :: k <= q < es.Length ==> es[q] == PickedUpBefore(es0, es.Length)[q]
      invariant forall q :: 0 <= q < es.Length ==> (doomed[q] <==> IsPickup(es0[q]) && Claimed(es0, q, es.Length))
    {
      assert doomed[k] ==> PickedUp(es0)[k] == es[k].(alive := false);
      assert !doomed[k] ==> PickedUp(es0)[k] == es[k];
      if doomed[k] {
        es[k] := es[k].(alive := false);
      }
      k := k + 1;
    }
    assert es[..] == PickedUp(es0);
  }

  // ---------------------------------------------------------------------------
  // No two characters on one cell

  /** The live characters have reserved pairwise different cells. */
  ghost predicate ReservationsDistinct(es: seq<Entity>) {
    forall j, k :: 0 <= j < |es| && 0 <= k < |es| && j != k && IsCharacter(es[j]) && IsCharacter(es[k]) ==>
                     es[j].movePos != es[k].movePos
  }

  /** The live characters stand on pairwise different cells. */
  ghost predicate CellsDistinct(es: seq<Entity>) {
    forall j, k :: 0 <= j < |es| && 0 <= k < |es| && j != k && IsCharacter(es[j]) && IsCharacter(es[k]) ==>
                     es[j].pos != es[k].pos
  }

  /** An actor only reserves a cell nobody else has reserved, so distinct
      reservations stay distinct. */
  lemma ResolveKeepsDistinct(axis: Axis, es: seq<Entity>, i: nat)
    requires i < |es| && ReservationsDistinct(es)
    ensures ReservationsDistinct(Resolve(axis, es, i))
  {
    var r := Resolve(axis, es, i);
    var c := Target(axis, es, i);
    forall j, k | 0 <= j < |r| && 0 <= k < |r| && j != k && IsCharacter(r[j]) && IsCharacter(r[k])
      ensures r[j].movePos != r[k].movePos
    {
      if j == i && !BlockedIn(es, i, c, |es|) {
        assert !Occupies(es, i, k, c);
      } else if k == i && !BlockedIn(es, i, c, |es|) {
        assert !Occupies(es, i, j, c);
      }
    }
  }

  lemma {:induction false} MovesKeepDistinct(axis: Axis, es: seq<Entity>, n: nat)
    requires n <= |es| && ReservationsDistinct(es)
    ensures ReservationsDistinct(MovesUpTo(axis, es, n).0)
  {
    if n > 0 {
      MovesKeepDistinct(axis, es, n - 1);
      MovesStep(axis, es, n - 1);
      MoveKeepsDistinct(axis, MovesUpTo(axis, es, n - 1).0, n - 1);
    }
  }

  /** One step of the first pass keeps reservations distinct. */
  lemma MoveKeepsDistinct(axis: Axis, prev: seq<Entity>, i: nat)
    requires i < |prev| && ReservationsDistinct(prev)
    ensures ReservationsDistinct(if IsCharacter(prev[i]) then Resolve(axis, prev, i) else prev)
  {
    if IsCharacter(prev[i]) {
      ResolveKeepsDistinct(axis, prev, i);
    }
  }

  /** The movement passes and the removal of the dead: if the live characters had
      reserved distinct cells (as they have after every turn, each standing on its
      reservation), afterwards no two live characters stand on the same cell, and
      each stands on its reservation with its action cleared. */
  lemma MovementSeparates(axis: Axis, es: seq<Entity>)
    requires ReservationsDistinct(es)
    ensures var r := RemoveDead(Commit(MovesUpTo(axis, es, |es|).0));
            && CellsDistinct(r) && ReservationsDistinct(r)
            && forall j :: 0 <= j < |r| && IsCharacter(r[j]) ==> r[j].pos == r[j].movePos && r[j].action == Nop
  {
    MovesKeepDistinct(axis, es, |es|);
    var m := MovesUpTo(axis, es, |es|).0;
    var c := Commit(m);
    var r := RemoveDead(c);
    forall j | 0 <= j < |r| && IsCharacter(r[j])
      ensures IsCharacter(c[j]) && IsCharacter(m[j])
    {
    }
  }

  /** The movement passes, the removal of the dead and the pickups. */
  function Actions(axis: Axis, es: seq<Entity>): (r: seq<Entity>)
    ensures |r| == |es|
  {
    PickedUp(RemoveDead(Commit(MovesUpTo(axis, es, |es|).0)))
  }

  /** process_actions (movement, removal of the dead, pickups) keeps live characters
      on pairwise different cells, each on its reservation with its action cleared,
      provided their reservations were distinct before. */
  lemma ActionsSeparate(axis: Axis, es: seq<Entity>)
    requires ReservationsDistinct(es)
    ensures var r := Actions(axis, es);
            && CellsDistinct(r) && ReservationsDistinct(r)
            && forall j :: 0 <= j < |r| && IsCharacter(r[j]) ==> r[j].pos == r[j].movePos && r[j].action == Nop
  {
    MovementSeparates(axis, es);
    var d := RemoveDead(Commit(MovesUpTo(axis, es, |es|).0));
    var r := PickedUp(d);
    forall j | 0 <= j < |es| && IsCharacter(r[j])
      ensures IsCharacter(d[j]) && r[j].pos == d[j].pos && r[j].movePos == d[j].movePos && r[j].action == d[j].action
    {
    }
  }

  /** process_actions without the heal pass: the two movement passes, each strike
      logged when there is a log, then the removal of the dead and the pickups. */
  method ResolveActions(axis: Axis, es: array<Entity>, log: ActionLog?)
    modifies es, log
    ensures es[..] == Actions(axis, old(es[..]))
    ensures log != null ==>
              && log.turn == old(log.turn) && log.capacity == old(log.capacity)
              && log.entries == PushedAll(old(log.entries), log.turn,
                                          Repeat(DamagedMsg, MovesUpTo(axis, old(es[..]), es.Length).1), log.capacity)
  {
    ReserveCells(axis, es, log);
    CommitMoves(es);
    DeleteDead(es);
    Pickups(es);
  }

  /** The parts of the world that planning (setting actions, hitpoints, cooldowns
      and blackboards) never changes. */
  predicate SameLayout(a: seq<Entity>, b: seq<Entity>) {
    && |a| == |b|
    && forall j :: 0 <= j < |a| ==>
         && b[j].alive == a[j].alive && b[j].kind == a[j].kind && b[j].isPlayer == a[j].isPlayer
         && b[j].pos == a[j].pos && b[j].movePos == a[j].movePos && b[j].team == a[j].team
         && b[j].heal.Some? == a[j].heal.Some?
  }

  /** Reservations depend only on the layout. */
  lemma LayoutKeepsReservations(a: seq<Entity>, b: seq<Entity>)
    requires SameLayout(a, b) && ReservationsDistinct(a)
    ensures ReservationsDistinct(b)
  {
    forall j, k | 0 <= j < |b| && 0 <= k < |b| && j != k && IsCharacter(b[j]) && IsCharacter(b[k])
      ensures b[j].movePos != b[k].movePos
    {
      assert IsCharacter(a[j]) && IsCharacter(a[k]);
    }
  }
}
