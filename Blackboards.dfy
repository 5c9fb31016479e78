/** The per-agent blackboard as the behaviour-tree code uses it: a name of a
    given value type is registered once and resolved to a stable integer handle
    (regName), and slots are read and written by handle (get/set). A slot that
    was never written, or holds a value of another type, reads as that type's
    default: the null entity, the cell (0, 0), or 0.0. The implementation
    (blackboard.h) is not part of this model; this is the interface the modelled
    code relies on. */
module Blackboards {
  import opened Components

  type Handle = nat

  /** The value types stored on blackboards: flecs::entity, Position and float. */
  datatype Kind = EntityKind | PosKind | NumKind

  datatype Value = EntityV(e: EntityRef) | PosV(p: Pos) | NumV(n: real)

  /** names: the registered (name, type) pairs and their handles; slots: the written
      values; next: the handle the next new registration receives. */
  datatype Blackboard = Blackboard(names: map<(string, Kind), Handle>, slots: map<Handle, Value>, next: nat)

  /** Handles are densely allocated below next, one per registered (name, type). */
  ghost predicate Valid(bb: Blackboard) {
    && (forall key :: key in bb.names ==> bb.names[key] < bb.next)
    && (forall k1, k2 :: k1 in bb.names && k2 in bb.names && bb.names[k1] == bb.names[k2] ==> k1 == k2)
  }

  /** A freshly created blackboard: nothing registered, nothing written. */
  function Empty(): (bb: Blackboard)
    ensures Valid(bb)
    ensures forall h :: Lookup(bb, h) == None
  {
    Blackboard(map[], map[], 0)
  }

  /** regName<T>(name): the existing handle of (name, T), or a new one. */
  function RegName(bb: Blackboard, name: string, kind: Kind): (r: (Blackboard, Handle))
    ensures (name, kind) in r.0.names && r.0.names[(name, kind)] == r.1
    ensures (name, kind) in bb.names ==> r.0 == bb
    ensures r.0.slots == bb.slots
  {
    if (name, kind) in bb.names then (bb, bb.names[(name, kind)])
    else (Blackboard(bb.names[(name, kind) := bb.next], bb.slots, bb.next + 1), bb.next)
  }

  /** Registration keeps a board valid, and a new registration receives a handle no
      other name holds. */
  lemma RegNameValid(bb: Blackboard, name: string, kind: Kind)
    ensures forall key :: key in bb.names ==> key in RegName(bb, name, kind).0.names
                                               && RegName(bb, name, kind).0.names[key] == bb.names[key]
    ensures Valid(bb) ==> Valid(RegName(bb, name, kind).0)
    ensures Valid(bb) && (name, kind) !in bb.names ==> RegName(bb, name, kind).1 !in bb.names.Values
  {
  }

  /** The value written at a handle, if any. */
  function Lookup(bb: Blackboard, h: Handle): Option<Value> {
    if h in bb.slots then Some(bb.slots[h]) else None
  }

  /** set(handle, value). */
  function Set(bb: Blackboard, h: Handle, v: Value): (r: Blackboard)
    ensures Lookup(r, h) == Some(v)
    ensures forall h' :: h' != h ==> Lookup(r, h') == Lookup(bb, h')
    ensures r.names == bb.names && r.next == bb.next
  {
    bb.(slots := bb.slots[h := v])
  }

  /** get<flecs::entity>(handle); the null entity when unset. */
  function GetEntity(bb: Blackboard, h: Handle): EntityRef {
    match Lookup(bb, h)
    case Some(EntityV(e)) => e
    case _ => NoEntity
  }

  /** get<Position>(handle); the cell (0, 0) when unset. */
  function GetPos(bb: Blackboard, h: Handle): Pos {
    match Lookup(bb, h)
    case Some(PosV(p)) => p
    case _ => Pos(0, 0)
  }

  /** get<float>(handle); 0.0 when unset. */
  function GetNum(bb: Blackboard, h: Handle): real {
    match Lookup(bb, h)
    case Some(NumV(n)) => n
    case _ => 0.0
  }

  /** Reading a slot back after writing it yields the written value, whatever its type,
      and no other slot changes. */
  lemma SetThenGet(bb: Blackboard, h: Handle, v: Value, h': Handle)
    ensures v.EntityV? ==> GetEntity(Set(bb, h, v), h) == v.e
    ensures v.PosV? ==> GetPos(Set(bb, h, v), h) == v.p
    ensures v.NumV? ==> GetNum(Set(bb, h, v), h) == v.n
    ensures h' != h ==> GetEntity(Set(bb, h, v), h') == GetEntity(bb, h')
    ensures h' != h ==> GetPos(Set(bb, h, v), h') == GetPos(bb, h')
    ensures h' != h ==> GetNum(Set(bb, h, v), h') == GetNum(bb, h')
  {
  }

  /** Registration is idempotent, and on a valid board two different (name, type)
      pairs never share a handle. */
  lemma {:induction false} RegNameStable(bb: Blackboard, n1: string, k1: Kind, n2: string, k2: Kind)
    requires Valid(bb)
    ensures RegName(RegName(bb, n1, k1).0, n1, k1) == RegName(bb, n1, k1)
    ensures var (bb1, h1) := RegName(bb, n1, k1);
            var (_, h2) := RegName(bb1, n2, k2);
            (n1, k1) != (n2, k2) ==> h1 != h2
  {
    var (bb1, h1) := RegName(bb, n1, k1);
    var (bb2, h2) := RegName(bb1, n2, k2);
    RegNameValid(bb, n1, k1);
    RegNameValid(bb1, n2, k2);
    if (n1, k1) != (n2, k2) {
      assert (n1, k1) in bb2.names && (n2, k2) in bb2.names;
      assert Valid(bb2);
      assert bb2.names[(n1, k1)] == h1;
    }
  }
}
