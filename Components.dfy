/** The plain component values every part of the game shares: grid positions,
    the discrete action codes and entity handles. The original keeps these in a
    header (ecsTypes.h) that is not part of this model; the shapes below are the
    ones the modelled code reads and writes. */
module Components {

  datatype Option<T> = None | Some(value: T)

  /** A grid cell. Position, MovePos and PatrolPos all have this shape. */
  datatype Pos = Pos(x: int, y: int)

  /** The action slot of an entity. The four moves are the range
      [EA_MOVE_START, EA_MOVE_END) in the order LEFT, RIGHT, DOWN, UP. */
  datatype Action = Nop | MoveLeft | MoveRight | MoveDown | MoveUp | Attack | HealSelf
  {
    predicate IsMove() {
      MoveLeft? || MoveRight? || MoveDown? || MoveUp?
    }
  }

  /** EA_MOVE_START + k: the k-th move of the move range. */
  function MoveAt(k: nat): (a: Action)
    requires k < 4
    ensures a.IsMove()
  {
    if k == 0 then MoveLeft else if k == 1 then MoveRight else if k == 2 then MoveDown else MoveUp
  }

  /** A flecs entity handle: the null entity, or the entity stored at an index of the world table. */
  datatype EntityRef = NoEntity | Ref(id: nat)

  /** The random source, made explicit: a tape whose base-4 digits are the successive
      draws. Every finite sequence of draws is the digit string of some tape. */
  function DrawMove(tape: nat): (r: (Action, nat))
    ensures r.0.IsMove()
    ensures r.1 <= tape
  {
    (MoveAt(tape % 4), tape / 4)
  }

  /** Every move is the outcome of some draw, so the tape model loses no random walk step. */
  lemma {:induction false} DrawMoveCoversMoves(a: Action, rest: nat)
    requires a.IsMove()
    ensures exists tape: nat :: DrawMove(tape) == (a, rest)
  {
    var k: nat := if a.MoveLeft? then 0 else if a.MoveRight? then 1 else if a.MoveDown? then 2 else 3;
    var tape: nat := rest * 4 + k;
    assert tape % 4 == k && tape / 4 == rest;
    assert DrawMove(tape) == (a, rest);
  }
}
