/** One turn of the first version of the game (process_turn in w1/roguelike.cpp):
    when the player has acted, its action counter steps; when the counter wraps,
    every character with a state machine ticks it once (planning its action);
    then the actions are resolved and the heal cooldowns run down. Each entity's
    state machine, when it has one, sits at the entity's index of a parallel
    array. */
module W1Turn {
  import opened Components
  import opened World
  import opened AiLibrary
  import opened StateMachines
  import opened Turns

  // ---------------------------------------------------------------------------
  // process_cooldowns

  /** One cooldown step: a positive counter drops by one, then the counter is
      clamped to at most the cooldown. */
  function CooldownStep(h: HealAbility): (r: HealAbility)
    ensures r.restoration == h.restoration && r.cooldown == h.cooldown
    ensures r.cooldownCounter <= h.cooldown
    ensures r.cooldownCounter <= h.cooldownCounter
    ensures h.cooldownCounter <= h.cooldown ==> r.cooldownCounter == if h.cooldownCounter == 0 then 0 else h.cooldownCounter - 1
  {
    var c := if h.cooldownCounter > 0 then h.cooldownCounter - 1 else h.cooldownCounter;
    h.(cooldownCounter := if c > h.cooldown then h.cooldown else c)
  }

  function CooldownSteps(h: HealAbility, n: nat): HealAbility {
    if n == 0 then h else CooldownStep(CooldownSteps(h, n - 1))
  }

  /** A counter within its cooldown reaches 0 after as many turns as it reads, one
      turn at a time, and then stays there. */
  lemma {:induction false} CooldownRunsDown(h: HealAbility, n: nat)
    requires h.cooldownCounter <= h.cooldown
    ensures CooldownSteps(h, n).cooldownCounter == if n < h.cooldownCounter then h.cooldownCounter - n else 0
    ensures CooldownSteps(h, n).cooldownCounter <= h.cooldown
    ensures CooldownSteps(h, n).cooldown == h.cooldown && CooldownSteps(h, n).restoration == h.restoration
  {
    if n > 0 {
      CooldownRunsDown(h, n - 1);
    }
  }

  /** Every live entity with a heal ability takes one cooldown step. */
  function Cooled(es: seq<Entity>): (r: seq<Entity>)
    ensures |r| == |es|
    ensures forall j :: 0 <= j < |es| ==>
              r[j] == if es[j].alive && es[j].heal.Some? then es[j].(heal := Some(CooldownStep(es[j].heal.value))) else es[j]
  {
    seq(|es|, j requires 0 <= j < |es| =>
      if es[j].alive && es[j].heal.Some? then es[j].(heal := Some(CooldownStep(es[j].heal.value))) else es[j])
  }

  method ProcessCooldowns(es: array<Entity>)
    modifies es
    ensures es[..] == Cooled(old(es[..]))
  {
    ghost var es0 := es[..];
    var j := 0;
    while j < es.Length
      invariant 0 <= j <= es.Length
      invariant forall k :: 0 <= k < j ==> es[k] == Cooled(es0)[k]
      invariant forall k :: j <= k < es.Length ==> es[k] == es0[k]
    {
      if es[j].alive && es[j].heal.Some? {
        var h := es[j].heal.value;
        var c := h.cooldownCounter;
        if c > 0 {
          c := c - 1;
        }
        if c > h.cooldown {
          c := h.cooldown;
        }
        es[j] := es[j].(heal := Some(h.(cooldownCounter := c)));
      }
      j := j + 1;
    }
    assert es[..] == Cooled(es0);
  }

  // ---------------------------------------------------------------------------
  // Planning: every live entity with a machine ticks it once

  predicate HasHealState(sm: StateMachine) {
    exists i :: 0 <= i < |sm.states| && sm.states[i].HealPlayerState?
  }

  /** The machines fit the world: one slot per entity, every machine well formed,
      and a machine with a heal-player state belongs to an entity with a heal
      ability. */
  predicate Fits(es: seq<Entity>, ms: seq<Option<StateMachine>>) {
    && |ms| == |es|
    && forall j :: 0 <= j < |ms| && ms[j].Some? ==>
         WellFormed(ms[j].value) && (HasHealState(ms[j].value) ==> es[j].heal.Some?)
  }

  /** Acting only sets actions, hitpoints and cooldown counters. */
  lemma ActKeepsLayout(s: State, es: seq<Entity>, me: nat, tape: nat)
    requires me < |es| && (s.HealPlayerState? ==> es[me].heal.Some?)
    ensures SameLayout(es, ActResult(s, es, me, tape).0)
  {
  }

  /** Two machine arrays that differ at most in the machines' current states. */
  predicate SameMachines(ms: seq<Option<StateMachine>>, ms': seq<Option<StateMachine>>) {
    && |ms'| == |ms|
    && forall j :: 0 <= j < |ms| ==>
         ms'[j].Some? == ms[j].Some? && (ms[j].Some? ==> ms'[j].value == ms[j].value.(current := ms'[j].value.current))
  }

  lemma SameTrans(a: seq<Entity>, b: seq<Entity>, c: seq<Entity>,
                  ma: seq<Option<StateMachine>>, mb: seq<Option<StateMachine>>, mc: seq<Option<StateMachine>>)
    requires SameLayout(a, b) && SameLayout(b, c) && SameMachines(ma, mb) && SameMachines(mb, mc)
    ensures SameLayout(a, c) && SameMachines(ma, mc)
  {
  }

  /** The tick of the machine of entity j. */
  ghost function TickAt(es: seq<Entity>, ms: seq<Option<StateMachine>>, tape: nat, j: nat)
    : (r: (seq<Entity>, seq<Option<StateMachine>>, nat))
    requires j < |es| && Fits(es, ms) && ms[j].Some?
    ensures SameLayout(es, r.0) && SameMachines(ms, r.1) && Fits(r.0, r.1)
    ensures r.1 == ms[j := Some(ms[j].value.(current := Next(ms[j].value, es, j)))]
  {
    var sm := ms[j].value;
    var sm' := sm.(current := Next(sm, es, j));
    assert sm'.states[sm'.current].HealPlayerState? ==> HasHealState(sm);
    ActKeepsLayout(sm'.states[sm'.current], es, j, tape);
    var (es', t') := ActResult(sm'.states[sm'.current], es, j, tape);
    (es', ms[j := Some(sm')], t')
  }

  /** The ticks of the machines of the first n entities, in order. */
  ghost function PlanUpTo(es: seq<Entity>, ms: seq<Option<StateMachine>>, tape: nat, n: nat)
    : (r: (seq<Entity>, seq<Option<StateMachine>>, nat))
    requires n <= |es| && Fits(es, ms)
    ensures SameLayout(es, r.0) && SameMachines(ms, r.1) && Fits(r.0, r.1)
    ensures forall j :: n <= j < |ms| ==> r.1[j] == ms[j]
  {
    if n == 0 then (es, ms, tape)
    else
      var prev := PlanUpTo(es, ms, tape, n - 1);
      if prev.0[n - 1].alive && prev.1[n - 1].Some? then
        var r := TickAt(prev.0, prev.1, prev.2, n - 1);
        SameTrans(es, prev.0, r.0, ms, prev.1, r.1);
        r
      else prev
  }

  /** The tick of entity j's machine, if the entity is alive and has one. */
  method PlanOne(es: array<Entity>, ms: array<Option<StateMachine>>, j: nat, tape: nat) returns (tape': nat)
    requires j < es.Length && Fits(es[..], ms[..])
    modifies es, ms
    ensures (es[..], ms[..], tape') == if old(es[j].alive && ms[j].Some?) then TickAt(old(es[..]), old(ms[..]), tape, j)
                                       else (old(es[..]), old(ms[..]), tape)
  {
    tape' := tape;
    if es[j].alive && ms[j].Some? {
      var sm := ms[j].value;
      assert WellFormed(sm) && (HasHealState(sm) ==> es[j].heal.Some?);
      ghost var r := TickAt(es[..], ms[..], tape, j);
      var sm', t' := Tick(sm, es, j, tape);
      ms[j] := Some(sm');
      tape' := t';
      assert (es[..], ms[..], tape') == r;
    }
  }

  /** The planning step of process_turn. */
  method PlanAll(es: array<Entity>, ms: array<Option<StateMachine>>, tape: nat) returns (tape': nat)
    requires Fits(es[..], ms[..])
    modifies es, ms
    ensures (es[..], ms[..], tape') == PlanUpTo(old(es[..]), old(ms[..]), tape, es.Length)
  {
    ghost var es0, ms0 := es[..], ms[..];
    tape' := tape;
    var j := 0;
    while j < es.Length
      invariant 0 <= j <= es.Length == ms.Length
      invariant (es[..], ms[..], tape') == PlanUpTo(es0, ms0, tape, j)
    {
      tape' := PlanOne(es, ms, j, tape');
      j := j + 1;
    }
  }

  // ---------------------------------------------------------------------------
  // process_turn

  /** The world, the machines and the random tape after one call of process_turn. */
  ghost function Turn(es: seq<Entity>, ms: seq<Option<StateMachine>>, tape: nat)
    : (r: (seq<Entity>, seq<Option<StateMachine>>, nat))
    requires Fits(es, ms) && CountersUsable(es)
    ensures |r.0| == |es| && |r.1| == |ms|
  {
    if !PlayerActed(es) then (es, ms, tape)
    else
      var counted := Counted(es);
      assert SameLayout(es, counted);
      var (planned, ms', tape') := if Wrapped(es) then PlanUpTo(counted, ms, tape, |es|) else (counted, ms, tape);
      (Cooled(Actions(UpIncreasesY, planned)), ms', tape')
  }

  method ProcessTurn(es: array<Entity>, ms: array<Option<StateMachine>>, tape: nat) returns (tape': nat)
    requires Fits(es[..], ms[..]) && CountersUsable(es[..])
    modifies es, ms
    ensures (es[..], ms[..], tape') == Turn(old(es[..]), old(ms[..]), tape)
  {
    tape' := tape;
    var acted := IsPlayerActed(es);
    if acted {
      ghost var es0 := es[..];
      var reached := UpdPlayerActionsCount(es);
      assert SameLayout(es0, es[..]);
      if reached {
        tape' := PlanAll(es, ms, tape');
      }
      ResolveActions(UpIncreasesY, es, null);
      ProcessCooldowns(es);
    }
  }

  /** Nothing happens until the player acts; the machines tick (and the random tape
      is read) only on the player actions that wrap the action counter. */
  lemma TurnGating(es: seq<Entity>, ms: seq<Option<StateMachine>>, tape: nat)
    requires Fits(es, ms) && CountersUsable(es)
    ensures !PlayerActed(es) ==> Turn(es, ms, tape) == (es, ms, tape)
    ensures PlayerActed(es) && !Wrapped(es) ==> Turn(es, ms, tape).1 == ms && Turn(es, ms, tape).2 == tape
    ensures PlayerActed(es) ==> Turn(es, ms, tape).0 == Cooled(Actions(UpIncreasesY,
              if Wrapped(es) then PlanUpTo(Counted(es), ms, tape, |es|).0 else Counted(es)))
  {
  }

  /** A turn keeps the machines fitting the world, and keeps live characters on
      pairwise different cells: if their reservations were distinct before the turn,
      they are afterwards, and no two live characters share a cell. */
  lemma TurnKeepsCharactersApart(es: seq<Entity>, ms: seq<Option<StateMachine>>, tape: nat)
    requires Fits(es, ms) && CountersUsable(es) && ReservationsDistinct(es)
    ensures var (es', ms', _) := Turn(es, ms, tape);
            && Fits(es', ms') && ReservationsDistinct(es')
            && (PlayerActed(es) ==> CellsDistinct(es'))
  {
    if PlayerActed(es) {
      var counted := Counted(es);
      assert SameLayout(es, counted);
      var (planned, ms', tape') := if Wrapped(es) then PlanUpTo(counted, ms, tape, |es|) else (counted, ms, tape);
      SameTrans(es, counted, planned, ms, ms, ms');
      LayoutKeepsReservations(es, planned);
      ActionsSeparate(UpIncreasesY, planned);
      ActionsKeepHeal(UpIncreasesY, planned);
      CooledKeepsApart(Actions(UpIncreasesY, planned), ms');
    }
  }

  /** The cooldown step only touches heal abilities. */
  lemma CooledKeepsApart(es: seq<Entity>, ms: seq<Option<StateMachine>>)
    requires Fits(es, ms)
    ensures Fits(Cooled(es), ms)
    ensures ReservationsDistinct(es) ==> ReservationsDistinct(Cooled(es))
    ensures CellsDistinct(es) ==> CellsDistinct(Cooled(es))
  {
    assert SameLayout(es, Cooled(es));
    if ReservationsDistinct(es) {
      LayoutKeepsReservations(es, Cooled(es));
    }
    var r := Cooled(es);
    forall j, k | 0 <= j < |r| && 0 <= k < |r| && j != k && IsCharacter(r[j]) && IsCharacter(r[k]) && CellsDistinct(es)
      ensures r[j].pos != r[k].pos
    {
      assert IsCharacter(es[j]) && IsCharacter(es[k]);
    }
  }

  /** The movement passes, removal of the dead and pickups never give or take a heal
      ability. */
  lemma ActionsKeepHeal(axis: Axis, es: seq<Entity>)
    ensures forall j :: 0 <= j < |es| ==> Actions(axis, es)[j].heal == es[j].heal
    ensures forall ms :: Fits(es, ms) ==> Fits(Actions(axis, es), ms)
  {
    MovesKeepHeal(axis, es, |es|);
  }

  lemma {:induction false} MovesKeepHeal(axis: Axis, es: seq<Entity>, n: nat)
    requires n <= |es|
    ensures forall j :: 0 <= j < |es| ==> MovesUpTo(axis, es, n).0[j].heal == es[j].heal
  {
    if n > 0 {
      MovesKeepHeal(axis, es, n - 1);
    }
  }
}
