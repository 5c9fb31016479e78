/** The behaviour-tree updates and reactions as the source performs them: node by
    node, with loops over the children that return early, writing the agent's
    action and blackboard into the entity table in place, and notifying allies one
    after another. Each method is proved to compute exactly what the value
    semantics of BehLibrary (Tick, React, NotifyAll) prescribes, so every property
    proved there holds of these loops. */
module BehEval {
  import opened Components
  import opened GridMath
  import opened Blackboards
  import opened World
  import opened AiLibrary
  import opened BehLibrary

  /** The answers and children of the loop so far, followed by what remains of it. */
  ghost function Join(results: seq<BehResult>, children: seq<Node>, rest: Run): Run {
    Run(results + rest.results, children + rest.children, rest.es, rest.rng)
  }

  lemma JoinStep(results: seq<BehResult>, pre: seq<Node>, r: BehResult, c: Node, rest: Run)
    ensures Join(results, pre, Run([r] + rest.results, [c] + rest.children, rest.es, rest.rng))
            == Join(results + [r], pre + [c], rest)
  {
    assert results + ([r] + rest.results) == (results + [r]) + rest.results;
    assert pre + ([c] + rest.children) == (pre + [c]) + rest.children;
  }

  /** Replacing the element at i of a sequence that agrees with t from i on. */
  lemma Splice<T>(s: seq<T>, t: seq<T>, i: nat, c: T)
    requires i < |s| == |t| && s[i..] == t[i..]
    ensures s[i := c] == s[..i] + ([c] + t[i + 1..])
    ensures s[i := c][..i + 1] == s[..i] + [c]
    ensures s[i := c][i + 1..] == t[i + 1..]
  {
    assert s[i + 1..] == s[i..][1..];
  }

  /** react of any node. */
  method ReactNode(n: Node, e: ReactionEvent, bb: Blackboard) returns (res: BehResult, bb': Blackboard)
    requires WellFormed(n)
    ensures (res, bb') == React(n, e, bb)
    decreases n
  {
    match n
    case Compound(op, cs, ri) =>
      if |cs| == 0 {
        return Fail, bb;
      }
      if op.Parallel? {
        res, bb' := Fail, bb;
        var i := 0;
        while i < |cs|
          invariant 0 <= i <= |cs| && (res == Success || res == Fail)
          invariant Broadcast(cs, 0, e, bb).1 == Broadcast(cs, i, e, bb').1
          invariant Broadcast(cs, 0, e, bb).0 == Success <==> res == Success || Broadcast(cs, i, e, bb').0 == Success
        {
          var r;
          r, bb' := ReactNode(cs[i], e, bb');
          if r == Success {
            res := Success;
          }
          i := i + 1;
        }
        return;
      }
      bb' := bb;
      if ri > -1 {
        res, bb' := ReactNode(cs[ri], e, bb);
        if res == Success {
          return;
        }
      }
      var i := 0;
      while i < |cs|
        invariant 0 <= i <= |cs|
        invariant React(n, e, bb) == Sweep(cs, i, e, bb')
      {
        var r, b := ReactNode(cs[i], e, bb');
        if r == Success {
          return r, b;
        }
        bb' := b;
        i := i + 1;
      }
      return Fail, bb';
    case ReactSelectTarget(ev, enemyBb, payloadBb) =>
      res := if e != ev then Fail else Success;
      bb' := if e != ev then bb else Set(bb, enemyBb, EntityV(GetEntity(bb, payloadBb)));
    case _ =>
      return Fail, bb;
  }

  /** The allies loop of NotifyEnemyNear::update. */
  method NotifyAllies(es: array<Entity>, me: nat, forest: seq<Option<Node>>, radius: real, name: string,
                      enemy: EntityRef)
    requires Env(me, es[..], forest)
    modifies es
    ensures es[..] == NotifyAll(old(es[..]), me, forest, radius, name, enemy)
  {
    ghost var es0 := es[..];
    var j := 0;
    while j < es.Length
      invariant j <= es.Length && NotifiedUpTo(es[..], es0, me, forest, radius, name, enemy, j)
    {
      NotifyOne(es, me, forest, radius, name, enemy, j, es0);
      j := j + 1;
    }
    assert es[..] == NotifyAll(es0, me, forest, radius, name, enemy);
  }

  /** The allies loop after its first j rounds: those entities are as NotifyAll
      leaves them, the rest are untouched. */
  ghost predicate NotifiedUpTo(es: seq<Entity>, es0: seq<Entity>, me: nat, forest: seq<Option<Node>>, radius: real,
                               name: string, enemy: EntityRef, j: nat)
  {
    && Env(me, es0, forest) && |es| == |es0| && j <= |es|
    && (forall k :: 0 <= k < j ==> es[k] == NotifyAll(es0, me, forest, radius, name, enemy)[k])
    && (forall k :: j <= k < |es| ==> es[k] == es0[k])
    && es[me] == es0[me]
  }

  /** One round of the allies loop. */
  method NotifyOne(es: array<Entity>, me: nat, forest: seq<Option<Node>>, radius: real, name: string,
                   enemy: EntityRef, j: nat, ghost es0: seq<Entity>)
    requires j < es.Length && NotifiedUpTo(es[..], es0, me, forest, radius, name, enemy, j)
    modifies es
    ensures NotifiedUpTo(es[..], es0, me, forest, radius, name, enemy, j + 1)
  {
    assert Notifies(es[..], me, forest, radius, j) == Notifies(es0, me, forest, radius, j);
    if Notifies(es[..], me, forest, radius, j) {
      var (bb1, h) := RegName(es[j].bb, name, EntityKind);
      var _, bb2 := ReactNode(forest[j].value, EnemyIsNear, Set(bb1, h, EntityV(enemy)));
      es[j] := es[j].(bb := bb2);
    }
  }

  /** update of a leaf. */
  method UpdateLeaf(n: Node, me: nat, es: array<Entity>, forest: seq<Option<Node>>, rng: nat)
    returns (res: BehResult, rng': nat)
    requires Env(me, es[..], forest) && !n.Compound?
    modifies es
    ensures Outcome(res, n, es[..], rng') == LeafTick(n, me, old(es[..]), forest, rng)
  {
    rng' := rng;
    match n
    case MoveToEntity(h) =>
      var t := GetEntity(es[me].bb, h);
      if !IsAlive(es[..], t) {
        res := Fail;
      } else if es[me].pos != es[t.id].pos {
        es[me] := es[me].(action := MoveTowards(es[me].pos, es[t.id].pos));
        res := Running;
      } else {
        res := Success;
      }
    case IsLowHp(threshold) =>
      res := if es[me].hp < threshold then Success else Fail;
    case FindEnemy(d, h) =>
      var c := FindNearest(es, me, Enemies);
      if c.Some? && WithinDist(es[me].pos, es[c.value].pos, d) {
        es[me] := es[me].(bb := Set(es[me].bb, h, EntityV(Ref(c.value))));
        res := Success;
      } else {
        res := Fail;
      }
    case FindTreasure(h) =>
      var c := FindNearest(es, me, Treasures);
      if c.Some? {
        es[me] := es[me].(bb := Set(es[me].bb, h, EntityV(Ref(c.value))));
        res := Success;
      } else {
        res := Fail;
      }
    case Flee(h) =>
      var t := GetEntity(es[me].bb, h);
      if !IsAlive(es[..], t) {
        res := Fail;
      } else {
        es[me] := es[me].(action := InverseMove(MoveTowards(es[me].pos, es[t.id].pos)));
        res := Running;
      }
    case Patrol(d, h) =>
      var pos := es[me].pos;
      var ppos := GetPos(es[me].bb, h);
      if !WithinDist(pos, ppos, d) {
        es[me] := es[me].(action := MoveTowards(pos, ppos));
      } else {
        var (m, rest) := DrawMove(rng);
        es[me] := es[me].(action := m);
        rng' := rest;
      }
      res := Running;
    case ChooseWaypoint(we, wp) =>
      res := Success;
      var bb := es[me].bb;
      if CloserThan(es[me].pos, GetPos(bb, wp), 0.5) {
        var w := GetEntity(bb, we);
        if !HasNext(es[..], w) {
          res := Fail;
        } else {
          var nxt := es[w.id].kind.link.target;
          if IsAlive(es[..], nxt) {
            es[me] := es[me].(bb := Set(Set(bb, we, EntityV(nxt)), wp, PosV(es[nxt.id].pos)));
          }
        }
      }
    case NotifyEnemyNear(radius, enemyBb, name) =>
      var enemy := GetEntity(es[me].bb, enemyBb);
      if !IsAlive(es[..], enemy) {
        res := Fail;
      } else {
        NotifyAllies(es, me, forest, radius, name, enemy);
        res := Success;
      }
    case ReactSelectTarget(_, _, _) =>
      res := Success;
  }

  /** update of any node; a compound node's new runningIdx and children come back in n'. */
  method Update(n: Node, me: nat, es: array<Entity>, forest: seq<Option<Node>>, rng: nat)
    returns (res: BehResult, n': Node, rng': nat)
    requires Env(me, es[..], forest) && WellFormed(n)
    modifies es
    ensures Outcome(res, n', es[..], rng') == Tick(n, me, old(es[..]), forest, rng)
    decreases n, 2
  {
    if !n.Compound? {
      res, rng' := UpdateLeaf(n, me, es, forest, rng);
      n' := n;
    } else if n.op.NegateNode? {
      var r, c;
      r, c, rng' := Update(n.children[0], me, es, forest, rng);
      res := if r == Fail then Success else Fail;
      n' := Compound(NegateNode, [c], n.runningIdx);
    } else {
      ghost var es0 := es[..];
      var cs, ri;
      res, cs, ri, rng' := UpdateComposite(n.op, n.children, n.runningIdx, me, es, forest, rng);
      n' := Compound(n.op, cs, ri);
      CompoundTick(n.op, n.children, n.runningIdx, me, es0, forest, rng, Scan(n.op, n.children, 0, me, es0, forest, rng));
    }
  }

  /** One turn of a composite's loop, stated on values: after the loop has passed
      the answers results over cs[..i] and child i answers o, either the loop stops
      with o, or the invariant holds again at i + 1. */
  lemma ScanLoopStep(op: Composite, cs: seq<Node>, i: nat, me: nat, es0: seq<Entity>, es: seq<Entity>,
                     forest: seq<Option<Node>>, rng0: nat, rng: nat, results: seq<BehResult>, cs': seq<Node>, o: Outcome)
    requires Env(me, es0, forest) && Env(me, es, forest) && i < |cs| && |cs'| == |cs| && |results| == i
    requires forall k :: 0 <= k < |cs| ==> WellFormed(cs[k])
    requires cs'[i..] == cs[i..]
    requires Scan(op, cs, 0, me, es0, forest, rng0) == Join(results, cs'[..i], Scan(op, cs, i, me, es, forest, rng))
    requires forall k :: 0 <= k < i ==> !Stops(op, results[k])
    requires o == Tick(cs[i], me, es, forest, rng)
    ensures Env(me, o.es, forest)
    ensures cs'[i := o.node][i + 1..] == cs[i + 1..]
    ensures Stops(op, o.res) ==>
              Scan(op, cs, 0, me, es0, forest, rng0) == Run(results + [o.res], cs'[i := o.node], o.es, o.rng)
              && Finish(op, results + [o.res]) == o.res
    ensures !Stops(op, o.res) ==>
              Scan(op, cs, 0, me, es0, forest, rng0)
              == Join(results + [o.res], cs'[i := o.node][..i + 1], Scan(op, cs, i + 1, me, o.es, forest, o.rng))
    ensures forall k :: 0 <= k < i + 1 && !Stops(op, o.res) ==> !Stops(op, (results + [o.res])[k])
  {
    ScanStep(op, cs, i, me, es, forest, rng, o);
    Splice(cs', cs, i, o.node);
    if !Stops(op, o.res) {
      JoinStep(results, cs'[..i], o.res, o.node, Scan(op, cs, i + 1, me, o.es, forest, o.rng));
    }
  }

  /** The loop of Sequence, Selector, Parallel, Or and And::update: update the children
      in order and return at the first answer that stops the composite. Sequence and
      Selector reset runningIdx first and set it to the child that answered RUNNING. */
  method UpdateComposite(op: Composite, cs: seq<Node>, ri: int, me: nat, es: array<Entity>,
                         forest: seq<Option<Node>>, rng: nat)
    returns (res: BehResult, cs': seq<Node>, ri': int, rng': nat)
    requires Env(me, es[..], forest) && WellFormed(Compound(op, cs, ri)) && !op.NegateNode?
    modifies es
    ensures Finished(op, cs, ri, me, old(es[..]), forest, rng, res, cs', ri', es[..], rng')
    decreases cs, 1
  {
    ghost var es0 := es[..];
    ghost var results: seq<BehResult> := [];
    cs' := cs;
    ri' := if op.Sequence? || op.Selector? then -1 else ri;
    res := Exhausted(op);
    rng' := rng;
    var i := 0;
    while i < |cs|
      invariant 0 <= i <= |cs|
      invariant Scanned(op, cs, i, me, es0, es[..], forest, rng, rng', results, cs')
      invariant ri' == if op.Sequence? || op.Selector? then -1 else ri
    {
      var r, c, g := UpdateChild(op, cs, ri, i, me, es, forest, es0, rng, rng', results, cs');
      cs' := cs'[i := c];
      if r == Running && (op.Sequence? || op.Selector?) {
        ri' := i;
      }
      results := results + [r];
      if Stops(op, r) {
        res, rng' := r, g;
        return;
      }
      rng' := g;
      i := i + 1;
    }
    ScanLoopEnd(op, cs, ri, me, es0, es[..], forest, rng, rng', results, cs', ri');
  }

  /** What UpdateComposite promises: the answer, the children's new versions, the
      world and the new runningIdx are those of the loop over the children. */
  ghost predicate Finished(op: Composite, cs: seq<Node>, ri: int, me: nat, es0: seq<Entity>, forest: seq<Option<Node>>,
                           rng0: nat, res: BehResult, cs': seq<Node>, ri': int, es: seq<Entity>, rng: nat)
  {
    && Env(me, es0, forest) && (forall k :: 0 <= k < |cs| ==> WellFormed(cs[k]))
    && var run := Scan(op, cs, 0, me, es0, forest, rng0);
       && res == Finish(op, run.results) && cs' == run.children && es == run.es && rng == run.rng
       && ri' == if op.Sequence? || op.Selector? then (if res == Running then |run.results| - 1 else -1) else ri
  }

  /** The invariant of the loop of UpdateComposite: the children before i answered
      results and became cs'[..i], none of them stopped the loop, and the rest of
      the loop from the current world gives what the whole loop gives. */
  ghost predicate Scanned(op: Composite, cs: seq<Node>, i: nat, me: nat, es0: seq<Entity>, es: seq<Entity>,
                          forest: seq<Option<Node>>, rng0: nat, rng: nat, results: seq<BehResult>, cs': seq<Node>)
  {
    && Env(me, es0, forest) && Env(me, es, forest) && i <= |cs| && |cs'| == |cs| && |results| == i
    && (forall k :: 0 <= k < |cs| ==> WellFormed(cs[k]))
    && cs'[i..] == cs[i..]
    && Scan(op, cs, 0, me, es0, forest, rng0) == Join(results, cs'[..i], Scan(op, cs, i, me, es, forest, rng))
    && (forall k :: 0 <= k < i ==> !Stops(op, results[k]))
  }

  /** One turn of the loop of UpdateComposite: child i is updated in place. */
  method UpdateChild(op: Composite, cs: seq<Node>, ri: int, i: nat, me: nat, es: array<Entity>, forest: seq<Option<Node>>,
                     ghost es0: seq<Entity>, ghost rng0: nat, rng: nat, ghost results: seq<BehResult>, ghost cs': seq<Node>)
    returns (r: BehResult, c: Node, g: nat)
    requires i < |cs| && Scanned(op, cs, i, me, es0, es[..], forest, rng0, rng, results, cs')
    modifies es
    ensures Stops(op, r) ==>
              Finished(op, cs, ri, me, es0, forest, rng0, r, cs'[i := c],
                       if op.Sequence? || op.Selector? then (if r == Running then i else -1) else ri, es[..], g)
    ensures !Stops(op, r) ==> Scanned(op, cs, i + 1, me, es0, es[..], forest, rng0, g, results + [r], cs'[i := c])
    decreases cs, 0
  {
    ghost var before := es[..];
    r, c, g := Update(cs[i], me, es, forest, rng);
    ScanLoopStep(op, cs, i, me, es0, before, forest, rng0, rng, results, cs', Outcome(r, c, es[..], g));
  }

  /** After the last child, the loop's run is exactly what it collected, and a loop
      that never stopped answers as an exhausted composite. */
  lemma ScanLoopEnd(op: Composite, cs: seq<Node>, ri: int, me: nat, es0: seq<Entity>, es: seq<Entity>,
                    forest: seq<Option<Node>>, rng0: nat, rng: nat, results: seq<BehResult>, cs': seq<Node>, ri': int)
    requires Scanned(op, cs, |cs|, me, es0, es, forest, rng0, rng, results, cs')
    requires ri' == if op.Sequence? || op.Selector? then -1 else ri
    ensures Finished(op, cs, ri, me, es0, forest, rng0, Exhausted(op), cs', ri', es, rng)
  {
    assert Scan(op, cs, |cs|, me, es, forest, rng) == Run([], [], es, rng);
    assert results + [] == results && cs'[..|cs|] + [] == cs';
  }
}
