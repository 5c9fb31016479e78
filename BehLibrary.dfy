/** The behaviour trees of w2: composite nodes (Sequence, Selector, Parallel,
    And, Or, Negate), the leaves that read and write the agent's blackboard and
    action, and the reaction protocol by which one agent's tree notifies its
    allies' trees.

    A tree is a value. The one field the source updates in place, runningIdx of
    a compound node, is carried inside the node, and updating a tree yields the
    new tree along with the result. The world is the entity table of World; an
    agent's blackboard is the bb field of its record, and forest[j] is the tree
    of entity j when it has one (the allies query of NotifyEnemyNear visits only
    entities with a tree). Random walks draw from the tape rng. */
module BehLibrary {
  import opened Components
  import opened GridMath
  import opened Blackboards
  import opened World
  import opened AiLibrary

  /** BehResult: the three outcomes of update. */
  datatype BehResult = Success | Fail | Running

  /** ReactionEvent: the single event of the reaction protocol. */
  datatype ReactionEvent = EnemyIsNear

  datatype Composite = Sequence | Selector | Parallel | OrNode | AndNode | NegateNode

  datatype Node =
    | Compound(op: Composite, children: seq<Node>, runningIdx: int)
    | MoveToEntity(entityBb: Handle)
    | IsLowHp(threshold: real)
    | FindEnemy(distance: real, entityBb: Handle)
    | FindTreasure(entityBb: Handle)
    | Flee(entityBb: Handle)
    | Patrol(patrolDist: real, pposBb: Handle)
    | ChooseWaypoint(waypointEntityBb: Handle, waypointPosBb: Handle)
    | NotifyEnemyNear(radius: real, enemyBb: Handle, payloadName: string)
    | ReactSelectTarget(rEvent: ReactionEvent, enemyBb: Handle, payloadBb: Handle)

  /** A node whose update can answer RUNNING. Sequence and Selector only pass on a
      child's RUNNING; Parallel answers RUNNING when empty or when its children do. */
  predicate MayRun(n: Node)
    decreases n
  {
    match n
    case Compound(op, cs, _) =>
      && (op.Sequence? || op.Selector? || op.Parallel?)
      && ((op.Parallel? && |cs| == 0) || exists k :: 0 <= k < |cs| && MayRun(cs[k]))
    case MoveToEntity(_) => true
    case Flee(_) => true
    case Patrol(_, _) => true
    case _ => false
  }

  /** What the source asserts about its trees: a NOT node has exactly one child, the
      children of AND, OR and NOT nodes never answer RUNNING, and runningIdx is -1 or
      the index of a child (only Sequence and Selector ever set it). */
  predicate WellFormed(n: Node)
    decreases n
  {
    match n
    case Compound(op, cs, ri) =>
      && (forall k :: 0 <= k < |cs| ==> WellFormed(cs[k]))
      && -1 <= ri < |cs|
      && (op.Sequence? || op.Selector? || ri == -1)
      && (op.NegateNode? ==> |cs| == 1)
      && ((op.OrNode? || op.AndNode? || op.NegateNode?) ==> forall k :: 0 <= k < |cs| ==> !MayRun(cs[k]))
    case _ => true
  }

  predicate ForestWellFormed(forest: seq<Option<Node>>) {
    forall j :: 0 <= j < |forest| && forest[j].Some? ==> WellFormed(forest[j].value)
  }

  // ---------------------------------------------------------------------------
  // Reactions

  /** react: what a node answers to an event, and the agent's blackboard afterwards.
      A compound node offers the event to its running child first and, unless that
      child absorbs it, to every child in order, the running one included; Parallel
      offers it to every child. Nodes that do not override react answer FAIL. */
  function React(n: Node, e: ReactionEvent, bb: Blackboard): (r: (BehResult, Blackboard))
    requires WellFormed(n)
    ensures r.0 != Running
    ensures r.0 == Fail ==> r.1 == bb
    decreases n, 1
  {
    match n
    case Compound(op, cs, ri) =>
      if |cs| == 0 then (Fail, bb)
      else if op.Parallel? then Broadcast(cs, 0, e, bb)
      else
        var first := if ri > -1 then React(cs[ri], e, bb) else (Fail, bb);
        if ri > -1 && first.0 == Success then first
        else Sweep(cs, 0, e, first.1)
    case ReactSelectTarget(ev, enemyBb, payloadBb) =>
      if e != ev then (Fail, bb)
      else (Success, Set(bb, enemyBb, EntityV(GetEntity(bb, payloadBb))))
    case _ => (Fail, bb)
  }

  /** The sweep of CompoundNode::react over cs[i..]: the first child that reacts wins. */
  function Sweep(cs: seq<Node>, i: nat, e: ReactionEvent, bb: Blackboard): (r: (BehResult, Blackboard))
    requires i <= |cs| && forall k :: 0 <= k < |cs| ==> WellFormed(cs[k])
    ensures r.0 != Running
    ensures r.0 == Fail ==> r.1 == bb
    decreases cs, |cs| - i
  {
    if i == |cs| then (Fail, bb)
    else
      var r0 := React(cs[i], e, bb);
      if r0.0 == Success then r0 else Sweep(cs, i + 1, e, r0.1)
  }

  /** The loop of Parallel::react over cs[i..]: every child reacts, in order. */
  function Broadcast(cs: seq<Node>, i: nat, e: ReactionEvent, bb: Blackboard): (r: (BehResult, Blackboard))
    requires i <= |cs| && forall k :: 0 <= k < |cs| ==> WellFormed(cs[k])
    ensures r.0 != Running
    ensures r.0 == Fail ==> r.1 == bb
    decreases cs, |cs| - i
  {
    if i == |cs| then (Fail, bb)
    else
      var r0 := React(cs[i], e, bb);
      var rest := Broadcast(cs, i + 1, e, r0.1);
      (if r0.0 == Success || rest.0 == Success then Success else Fail, rest.1)
  }

  // ---------------------------------------------------------------------------
  // Updates

  /** The result of updating a node: its answer, the node with its new runningIdx
      fields, the world, and the rest of the random tape. */
  datatype Outcome = Outcome(res: BehResult, node: Node, es: seq<Entity>, rng: nat)

  /** The results of the children updated in order, the children's new versions
      (children not reached are unchanged), the world and the tape afterwards. */
  datatype Run = Run(results: seq<BehResult>, children: seq<Node>, es: seq<Entity>, rng: nat)

  /** The answer on which a composite stops iterating and returns it. */
  predicate Stops(op: Composite, r: BehResult) {
    match op
    case Sequence => r != Success
    case Selector => r != Fail
    case Parallel => r != Running
    case OrNode => r == Success
    case AndNode => r == Fail
    case NegateNode => true
  }

  /** The answer of a composite whose loop ran to the end. */
  function Exhausted(op: Composite): BehResult {
    match op
    case Sequence => Success
    case Selector => Fail
    case Parallel => Running
    case OrNode => Fail
    case AndNode => Success
    case NegateNode => Fail
  }

  /** Only the agent's action and the agents' blackboards change during an update. */
  ghost predicate TreeFrame(es: seq<Entity>, es': seq<Entity>, me: nat) {
    && |es'| == |es|
    && (forall j :: 0 <= j < |es| ==> es'[j] == es[j].(action := es'[j].action, bb := es'[j].bb))
    && (forall j :: 0 <= j < |es| && j != me ==> es'[j].action == es[j].action)
  }

  lemma TreeFrameTrans(es1: seq<Entity>, es2: seq<Entity>, es3: seq<Entity>, me: nat)
    requires TreeFrame(es1, es2, me) && TreeFrame(es2, es3, me)
    ensures TreeFrame(es1, es3, me)
  {
    forall j | 0 <= j < |es1|
      ensures es3[j] == es1[j].(action := es3[j].action, bb := es3[j].bb)
    {
      assert es2[j] == es1[j].(action := es2[j].action, bb := es2[j].bb);
    }
  }

  ghost predicate Env(me: nat, es: seq<Entity>, forest: seq<Option<Node>>) {
    me < |es| && |forest| == |es| && ForestWellFormed(forest)
  }

  /** The same world with entity j's blackboard replaced. */
  function WithBb(es: seq<Entity>, j: nat, bb: Blackboard): seq<Entity>
    requires j < |es|
  {
    es[j := es[j].(bb := bb)]
  }

  /** update of a node on behalf of agent me. */
  function Tick(n: Node, me: nat, es: seq<Entity>, forest: seq<Option<Node>>, rng: nat): (r: Outcome)
    requires Env(me, es, forest) && WellFormed(n)
    ensures |r.es| == |es|
    ensures WellFormed(r.node) && MayRun(r.node) == MayRun(n)
    ensures r.res == Running ==> MayRun(n)
    decreases n, 1
  {
    match n
    case Compound(op, cs, ri) =>
      if op.NegateNode? then
        var o := Tick(cs[0], me, es, forest, rng);
        Outcome(if o.res == Fail then Success else Fail, Compound(NegateNode, [o.node], ri), o.es, o.rng)
      else
      var run := Scan(op, cs, 0, me, es, forest, rng);
      var res := Finish(op, run.results);
      var ri' := if op.Sequence? || op.Selector? then (if res == Running then |run.results| - 1 else -1) else ri;
      MayRunPointwise(op, cs, run.children, ri, ri');
      Outcome(res, Compound(op, run.children, ri'), run.es, run.rng)
    case _ => LeafTick(n, me, es, forest, rng)
  }

  /** Whether a compound node may answer RUNNING depends only on its kind and on
      which children may. */
  lemma MayRunPointwise(op: Composite, cs: seq<Node>, cs': seq<Node>, ri: int, ri': int)
    requires |cs| == |cs'| && forall k :: 0 <= k < |cs| ==> MayRun(cs'[k]) == MayRun(cs[k])
    ensures MayRun(Compound(op, cs', ri')) == MayRun(Compound(op, cs, ri))
  {
    if k :| 0 <= k < |cs| && MayRun(cs[k]) {
      assert MayRun(cs'[k]);
    }
    if k :| 0 <= k < |cs| && MayRun(cs'[k]) {
      assert MayRun(cs[k]);
    }
  }

  /** The answer of a composite after its loop produced results. */
  function Finish(op: Composite, results: seq<BehResult>): BehResult {
    if |results| > 0 && Stops(op, results[|results| - 1]) then results[|results| - 1] else Exhausted(op)
  }

  /** The loop of a composite's update over cs[i..], stopping after the first child
      whose answer stops the composite. */
  function Scan(op: Composite, cs: seq<Node>, i: nat, me: nat, es: seq<Entity>, forest: seq<Option<Node>>, rng: nat): (r: Run)
    requires Env(me, es, forest) && i <= |cs| && forall k :: 0 <= k < |cs| ==> WellFormed(cs[k])
    ensures |r.es| == |es|
    ensures |r.children| == |cs| - i && |r.results| <= |cs| - i
    ensures i < |cs| ==> 0 < |r.results|
    ensures forall k :: 0 <= k < |r.children| ==> WellFormed(r.children[k]) && MayRun(r.children[k]) == MayRun(cs[i + k])
    ensures forall k :: 0 <= k < |r.results| && r.results[k] == Running ==> MayRun(cs[i + k])
    decreases cs, |cs| - i
  {
    if i == |cs| then Run([], [], es, rng)
    else
      var o := Tick(cs[i], me, es, forest, rng);
      if Stops(op, o.res) then Run([o.res], [o.node] + cs[i + 1..], o.es, o.rng)
      else
        var rest := Scan(op, cs, i + 1, me, o.es, forest, o.rng);
        Run([o.res] + rest.results, [o.node] + rest.children, rest.es, rest.rng)
  }

  /** One step of the loop: the first child's update, then the rest unless it stops. */
  lemma ScanStep(op: Composite, cs: seq<Node>, i: nat, me: nat, es: seq<Entity>, forest: seq<Option<Node>>,
                 rng: nat, o: Outcome)
    requires Env(me, es, forest) && i < |cs| && forall k :: 0 <= k < |cs| ==> WellFormed(cs[k])
    requires o == Tick(cs[i], me, es, forest, rng)
    ensures Stops(op, o.res) ==> Scan(op, cs, i, me, es, forest, rng) == Run([o.res], [o.node] + cs[i + 1..], o.es, o.rng)
    ensures !Stops(op, o.res) ==>
              Scan(op, cs, i, me, es, forest, rng)
              == Run([o.res] + Scan(op, cs, i + 1, me, o.es, forest, o.rng).results,
                     [o.node] + Scan(op, cs, i + 1, me, o.es, forest, o.rng).children,
                     Scan(op, cs, i + 1, me, o.es, forest, o.rng).es,
                     Scan(op, cs, i + 1, me, o.es, forest, o.rng).rng)
  {
  }

  /** An update changes only the agent's action and blackboards: positions,
      hitpoints, teams and every other field stay as they were. */
  lemma {:induction false} TickKeepsFrame(n: Node, me: nat, es: seq<Entity>, forest: seq<Option<Node>>, rng: nat)
    requires Env(me, es, forest) && WellFormed(n)
    ensures TreeFrame(es, Tick(n, me, es, forest, rng).es, me)
    decreases n, 1
  {
    match n
    case Compound(op, cs, ri) =>
      if op.NegateNode? {
        TickKeepsFrame(cs[0], me, es, forest, rng);
      } else {
        ScanKeepsFrame(op, cs, 0, me, es, forest, rng);
      }
    case _ =>
  }

  lemma {:induction false} ScanKeepsFrame(op: Composite, cs: seq<Node>, i: nat, me: nat, es: seq<Entity>,
                                          forest: seq<Option<Node>>, rng: nat)
    requires Env(me, es, forest) && i <= |cs| && forall k :: 0 <= k < |cs| ==> WellFormed(cs[k])
    ensures TreeFrame(es, Scan(op, cs, i, me, es, forest, rng).es, me)
    decreases cs, |cs| - i
  {
    if i < |cs| {
      var o := Tick(cs[i], me, es, forest, rng);
      TickKeepsFrame(cs[i], me, es, forest, rng);
      if !Stops(op, o.res) {
        ScanKeepsFrame(op, cs, i + 1, me, o.es, forest, o.rng);
        TreeFrameTrans(es, o.es, Scan(op, cs, i + 1, me, o.es, forest, o.rng).es, me);
      }
    }
  }

  /** The loop goes on past every child whose answer does not stop the composite. */
  lemma {:induction false} ScanPassesNonStops(op: Composite, cs: seq<Node>, i: nat, me: nat, es: seq<Entity>,
                                              forest: seq<Option<Node>>, rng: nat)
    requires Env(me, es, forest) && i <= |cs| && forall k :: 0 <= k < |cs| ==> WellFormed(cs[k])
    ensures forall k :: 0 <= k < |Scan(op, cs, i, me, es, forest, rng).results| - 1 ==>
                          !Stops(op, Scan(op, cs, i, me, es, forest, rng).results[k])
    decreases |cs| - i
  {
    if i < |cs| {
      var o := Tick(cs[i], me, es, forest, rng);
      if !Stops(op, o.res) {
        ScanPassesNonStops(op, cs, i + 1, me, o.es, forest, o.rng);
        var rest := Scan(op, cs, i + 1, me, o.es, forest, o.rng);
        var r := Scan(op, cs, i, me, es, forest, rng);
        assert r.results == [o.res] + rest.results;
        forall k | 0 < k < |r.results| - 1 ensures !Stops(op, r.results[k]) {
          assert r.results[k] == rest.results[k - 1];
        }
      }
    }
  }

  /** A loop that ends before the last child ends on a child whose answer stops it. */
  lemma {:induction false} ScanEndsOnStop(op: Composite, cs: seq<Node>, i: nat, me: nat, es: seq<Entity>,
                                          forest: seq<Option<Node>>, rng: nat)
    requires Env(me, es, forest) && i <= |cs| && forall k :: 0 <= k < |cs| ==> WellFormed(cs[k])
    ensures var r := Scan(op, cs, i, me, es, forest, rng);
            |r.results| < |cs| - i ==> Stops(op, r.results[|r.results| - 1])
    decreases |cs| - i
  {
    if i < |cs| {
      var o := Tick(cs[i], me, es, forest, rng);
      if !Stops(op, o.res) {
        ScanEndsOnStop(op, cs, i + 1, me, o.es, forest, o.rng);
      }
    }
  }

  /** The children after the one the loop stopped on are left as they were. */
  lemma {:induction false} ScanLeavesRest(op: Composite, cs: seq<Node>, i: nat, me: nat, es: seq<Entity>,
                                          forest: seq<Option<Node>>, rng: nat)
    requires Env(me, es, forest) && i <= |cs| && forall k :: 0 <= k < |cs| ==> WellFormed(cs[k])
    ensures forall k :: |Scan(op, cs, i, me, es, forest, rng).results| <= k < |cs| - i ==>
                          Scan(op, cs, i, me, es, forest, rng).children[k] == cs[i + k]
    decreases |cs| - i
  {
    if i < |cs| {
      var o := Tick(cs[i], me, es, forest, rng);
      if !Stops(op, o.res) {
        ScanLeavesRest(op, cs, i + 1, me, o.es, forest, o.rng);
        var rest := Scan(op, cs, i + 1, me, o.es, forest, o.rng);
        var r := Scan(op, cs, i, me, es, forest, rng);
        assert r.results == [o.res] + rest.results && r.children == [o.node] + rest.children;
        forall k | |r.results| <= k < |r.children| ensures r.children[k] == cs[i + k] {
          assert r.children[k] == rest.children[k - 1];
        }
      }
    }
  }

  // ---------------------------------------------------------------------------
  // What each composite's update answers, in terms of the answers its children
  // gave in the order they were updated.

  /** The answers of a composite's loop over n children: it goes on past every answer
      that does not stop it, and it ends early only on one that does. */
  ghost predicate StopsAtFirst(op: Composite, results: seq<BehResult>, n: nat) {
    && |results| <= n
    && (n > 0 ==> |results| > 0)
    && (forall k :: 0 <= k < |results| - 1 ==> !Stops(op, results[k]))
    && (|results| < n ==> Stops(op, results[|results| - 1]))
  }

  lemma ScanStopsAtFirst(op: Composite, cs: seq<Node>, i: nat, me: nat, es: seq<Entity>,
                         forest: seq<Option<Node>>, rng: nat)
    requires Env(me, es, forest) && i <= |cs| && forall k :: 0 <= k < |cs| ==> WellFormed(cs[k])
    ensures StopsAtFirst(op, Scan(op, cs, i, me, es, forest, rng).results, |cs| - i)
  {
    ScanPassesNonStops(op, cs, i, me, es, forest, rng);
    ScanEndsOnStop(op, cs, i, me, es, forest, rng);
  }

  /** Updating a compound node other than NOT: the answer of its loop over the
      children, the children's new versions, and the new runningIdx. */
  lemma CompoundTick(op: Composite, cs: seq<Node>, ri: int, me: nat, es: seq<Entity>, forest: seq<Option<Node>>,
                     rng: nat, run: Run)
    requires Env(me, es, forest) && WellFormed(Compound(op, cs, ri)) && !op.NegateNode?
    requires run == Scan(op, cs, 0, me, es, forest, rng)
    ensures Tick(Compound(op, cs, ri), me, es, forest, rng)
            == Outcome(Finish(op, run.results),
                       Compound(op, run.children,
                                if op.Sequence? || op.Selector? then
                                  (if Finish(op, run.results) == Running then |run.results| - 1 else -1)
                                else ri),
                       run.es, run.rng)
  {
  }

  /** The answer of Sequence's loop: SUCCESS exactly when every child, of which there
      may be none, answered SUCCESS; otherwise the answer of the last child updated,
      every earlier one having answered SUCCESS. */
  lemma SequenceAnswer(results: seq<BehResult>, n: nat)
    requires StopsAtFirst(Sequence, results, n)
    ensures Finish(Sequence, results) == Success <==> |results| == n && forall k :: 0 <= k < n ==> results[k] == Success
    ensures Finish(Sequence, results) != Success ==>
              0 < |results| && Finish(Sequence, results) == results[|results| - 1]
              && forall k :: 0 <= k < |results| - 1 ==> results[k] == Success
  {
  }

  /** The answer of Selector's loop: FAIL exactly when every child, of which there may
      be none, answered FAIL; otherwise the answer of the last child updated, every
      earlier one having answered FAIL. */
  lemma SelectorAnswer(results: seq<BehResult>, n: nat)
    requires StopsAtFirst(Selector, results, n)
    ensures Finish(Selector, results) == Fail <==> |results| == n && forall k :: 0 <= k < n ==> results[k] == Fail
    ensures Finish(Selector, results) != Fail ==>
              0 < |results| && Finish(Selector, results) == results[|results| - 1]
              && forall k :: 0 <= k < |results| - 1 ==> results[k] == Fail
  {
  }

  /** The answer of Parallel's loop: RUNNING exactly when every child, of which there
      may be none, answered RUNNING; otherwise the first other answer. */
  lemma ParallelAnswer(results: seq<BehResult>, n: nat)
    requires StopsAtFirst(Parallel, results, n)
    ensures Finish(Parallel, results) == Running <==> |results| == n && forall k :: 0 <= k < n ==> results[k] == Running
    ensures Finish(Parallel, results) != Running ==>
              0 < |results| && Finish(Parallel, results) == results[|results| - 1]
              && forall k :: 0 <= k < |results| - 1 ==> results[k] == Running
  {
  }

  /** The answer of Or's loop over children that never answer RUNNING: SUCCESS exactly
      when some child succeeded, and then it is the last one updated; FAIL only after
      every child was updated. */
  lemma OrAnswer(results: seq<BehResult>, n: nat)
    requires StopsAtFirst(OrNode, results, n)
    requires forall k :: 0 <= k < |results| ==> results[k] != Running
    ensures Finish(OrNode, results) == Success || Finish(OrNode, results) == Fail
    ensures Finish(OrNode, results) == Success <==> exists k :: 0 <= k < |results| && results[k] == Success
    ensures Finish(OrNode, results) == Success ==>
              results[|results| - 1] == Success && forall k :: 0 <= k < |results| - 1 ==> results[k] == Fail
    ensures Finish(OrNode, results) == Fail ==> |results| == n
  {
  }

  /** The answer of And's loop over children that never answer RUNNING: FAIL exactly
      when some child failed, and then it is the last one updated; SUCCESS only after
      every child was updated. */
  lemma AndAnswer(results: seq<BehResult>, n: nat)
    requires StopsAtFirst(AndNode, results, n)
    requires forall k :: 0 <= k < |results| ==> results[k] != Running
    ensures Finish(AndNode, results) == Success || Finish(AndNode, results) == Fail
    ensures Finish(AndNode, results) == Fail <==> exists k :: 0 <= k < |results| && results[k] == Fail
    ensures Finish(AndNode, results) == Fail ==>
              results[|results| - 1] == Fail && forall k :: 0 <= k < |results| - 1 ==> results[k] == Success
    ensures Finish(AndNode, results) == Success ==> |results| == n
  {
  }

  /** Negate::update: the single child never answers RUNNING, and its answer is
      turned around. */
  lemma NegateUpdate(c: Node, ri: int, me: nat, es: seq<Entity>, forest: seq<Option<Node>>, rng: nat,
                     o: Outcome, oc: Outcome)
    requires Env(me, es, forest) && WellFormed(Compound(NegateNode, [c], ri))
    requires o == Tick(Compound(NegateNode, [c], ri), me, es, forest, rng)
    requires oc == Tick(c, me, es, forest, rng)
    ensures oc.res != Running
    ensures o.res == Success <==> oc.res == Fail
    ensures o.res == Fail <==> oc.res == Success
    ensures o.node == Compound(NegateNode, [oc.node], ri) && o.es == oc.es && o.rng == oc.rng
  {
    assert !MayRun([c][0]);
  }

  // ---------------------------------------------------------------------------
  // What reactions answer

  /** The sweep succeeds exactly when some child from i on reacts with SUCCESS to the
      blackboard as it was: a child that fails leaves it untouched. */
  lemma {:induction false} SweepReactsIffAny(cs: seq<Node>, i: nat, e: ReactionEvent, bb: Blackboard)
    requires i <= |cs| && forall k :: 0 <= k < |cs| ==> WellFormed(cs[k])
    ensures Sweep(cs, i, e, bb).0 == Success <==> exists k :: i <= k < |cs| && React(cs[k], e, bb).0 == Success
    decreases |cs| - i
  {
    if i < |cs| && React(cs[i], e, bb).0 != Success {
      SweepReactsIffAny(cs, i + 1, e, bb);
    }
  }

  /** A sweep that succeeds answers with the reaction of the first child that succeeds. */
  lemma {:induction false} SweepFirstReactorWins(cs: seq<Node>, i: nat, e: ReactionEvent, bb: Blackboard)
    requires i <= |cs| && forall k :: 0 <= k < |cs| ==> WellFormed(cs[k])
    requires Sweep(cs, i, e, bb).0 == Success
    ensures exists k :: i <= k < |cs| && Sweep(cs, i, e, bb) == React(cs[k], e, bb)
                        && forall j :: i <= j < k ==> React(cs[j], e, bb).0 == Fail
    decreases |cs| - i
  {
    if React(cs[i], e, bb).0 != Success {
      SweepFirstReactorWins(cs, i + 1, e, bb);
      var k :| i + 1 <= k < |cs| && Sweep(cs, i + 1, e, bb) == React(cs[k], e, bb)
               && forall j :: i + 1 <= j < k ==> React(cs[j], e, bb).0 == Fail;
      assert forall j :: i <= j < k ==> React(cs[j], e, bb).0 == Fail;
    }
  }

  /** Parallel's loop asks every child; it succeeds exactly when some child reacts
      with SUCCESS to the blackboard as it was. */
  lemma {:induction false} BroadcastReactsIffAny(cs: seq<Node>, i: nat, e: ReactionEvent, bb: Blackboard)
    requires i <= |cs| && forall k :: 0 <= k < |cs| ==> WellFormed(cs[k])
    ensures Broadcast(cs, i, e, bb).0 == Success <==> exists k :: i <= k < |cs| && React(cs[k], e, bb).0 == Success
    decreases |cs| - i
  {
    if i < |cs| && React(cs[i], e, bb).0 != Success {
      BroadcastReactsIffAny(cs, i + 1, e, bb);
    }
  }

  /** CompoundNode::react: FAIL without children; SUCCESS exactly when some child
      reacts with SUCCESS. The running child is asked first and wins when it succeeds;
      otherwise the first child in order that succeeds wins, the running child
      included, since a failed reaction leaves the blackboard as it was. */
  lemma CompoundReact(op: Composite, cs: seq<Node>, ri: int, e: ReactionEvent, bb: Blackboard)
    requires WellFormed(Compound(op, cs, ri)) && !op.Parallel?
    ensures React(Compound(op, cs, ri), e, bb).0 == Success
            <==> exists k :: 0 <= k < |cs| && React(cs[k], e, bb).0 == Success
    ensures ri > -1 && React(cs[ri], e, bb).0 == Success ==> React(Compound(op, cs, ri), e, bb) == React(cs[ri], e, bb)
    ensures !(ri > -1 && React(cs[ri], e, bb).0 == Success) && React(Compound(op, cs, ri), e, bb).0 == Success ==>
              exists k :: 0 <= k < |cs| && React(Compound(op, cs, ri), e, bb) == React(cs[k], e, bb)
                          && forall j :: 0 <= j < k ==> React(cs[j], e, bb).0 == Fail
  {
    SweepReactsIffAny(cs, 0, e, bb);
    var r := React(Compound(op, cs, ri), e, bb);
    if !(ri > -1 && React(cs[ri], e, bb).0 == Success) && r.0 == Success {
      SweepFirstReactorWins(cs, 0, e, bb);
    }
  }

  /** Parallel::react: FAIL without children; otherwise every child reacts, and the
      answer is SUCCESS exactly when some child reacts with SUCCESS. */
  lemma ParallelReact(cs: seq<Node>, ri: int, e: ReactionEvent, bb: Blackboard)
    requires WellFormed(Compound(Parallel, cs, ri))
    ensures React(Compound(Parallel, cs, ri), e, bb).0 == Success
            <==> exists k :: 0 <= k < |cs| && React(cs[k], e, bb).0 == Success
  {
    BroadcastReactsIffAny(cs, 0, e, bb);
  }

  /** Whether some ReactSelectTarget for event e occurs in the tree. */
  predicate HasReactor(n: Node, e: ReactionEvent)
    decreases n
  {
    match n
    case Compound(_, cs, _) => exists k :: 0 <= k < |cs| && HasReactor(cs[k], e)
    case ReactSelectTarget(ev, _, _) => ev == e
    case _ => false
  }

  /** Only ReactSelectTarget overrides react: a tree without one for the event answers
      FAIL and leaves the blackboard as it was. */
  lemma {:induction false} NoReactorNeverReacts(n: Node, e: ReactionEvent, bb: Blackboard)
    requires WellFormed(n) && !HasReactor(n, e)
    ensures React(n, e, bb) == (Fail, bb)
    decreases n
  {
    if n.Compound? {
      var cs := n.children;
      forall k | 0 <= k < |cs| ensures React(cs[k], e, bb).0 == Fail {
        NoReactorNeverReacts(cs[k], e, bb);
      }
      if n.op.Parallel? {
        ParallelReact(cs, n.runningIdx, e, bb);
      } else {
        CompoundReact(n.op, cs, n.runningIdx, e, bb);
      }
    }
  }

  /** ReactSelectTarget: update answers SUCCESS and changes nothing; react to its event
      answers SUCCESS and copies the payload slot into the enemy slot, leaving every
      other slot as it was. */
  lemma ReactSelectTargetSpec(ev: ReactionEvent, enemyBb: Handle, payloadBb: Handle, me: nat, es: seq<Entity>,
                              forest: seq<Option<Node>>, rng: nat, bb: Blackboard)
    requires Env(me, es, forest)
    ensures Tick(ReactSelectTarget(ev, enemyBb, payloadBb), me, es, forest, rng)
            == Outcome(Success, ReactSelectTarget(ev, enemyBb, payloadBb), es, rng)
    ensures React(ReactSelectTarget(ev, enemyBb, payloadBb), ev, bb).0 == Success
    ensures GetEntity(React(ReactSelectTarget(ev, enemyBb, payloadBb), ev, bb).1, enemyBb) == GetEntity(bb, payloadBb)
    ensures forall h :: h != enemyBb ==>
              Lookup(React(ReactSelectTarget(ev, enemyBb, payloadBb), ev, bb).1, h) == Lookup(bb, h)
  {
    SetThenGet(bb, enemyBb, EntityV(GetEntity(bb, payloadBb)), enemyBb);
  }

  /** The waypoint a handle names is alive and links to a next waypoint. */
  predicate HasNext(es: seq<Entity>, w: EntityRef) {
    IsAlive(es, w) && es[w.id].kind.Waypoint? && es[w.id].kind.link.LinkTo?
  }

  /** Whether NotifyEnemyNear on behalf of me notifies entity j: another live
      character of the same team that has a tree, strictly closer than radius. */
  predicate Notifies(es: seq<Entity>, me: nat, forest: seq<Option<Node>>, radius: real, j: nat)
    requires me < |es| && j < |es| && |forest| == |es|
  {
    && j != me
    && IsCharacter(es[j])
    && forest[j].Some?
    && es[j].team == es[me].team
    && (DistSq(es[me].pos, es[j].pos) as real) < radius * radius
  }

  /** An ally's blackboard after the payload is written under name and its tree has
      reacted to ENEMY_IS_NEAR. */
  function Notified(tree: Node, bb: Blackboard, name: string, enemy: EntityRef): Blackboard
    requires WellFormed(tree)
  {
    var (bb1, h) := RegName(bb, name, EntityKind);
    React(tree, EnemyIsNear, Set(bb1, h, EntityV(enemy))).1
  }

  /** The world after notifying every ally of me. */
  function NotifyAll(es: seq<Entity>, me: nat, forest: seq<Option<Node>>, radius: real, name: string, enemy: EntityRef): (r: seq<Entity>)
    requires Env(me, es, forest)
    ensures |r| == |es|
    ensures forall j :: 0 <= j < |es| ==>
              r[j] == if Notifies(es, me, forest, radius, j)
                      then es[j].(bb := Notified(forest[j].value, es[j].bb, name, enemy)) else es[j]
  {
    seq(|es|, j requires 0 <= j < |es| =>
      if Notifies(es, me, forest, radius, j) then es[j].(bb := Notified(forest[j].value, es[j].bb, name, enemy)) else es[j])
  }

  lemma WithActionFrame(es: seq<Entity>, me: nat, a: Action)
    requires me < |es|
    ensures TreeFrame(es, WithAction(es, me, a), me)
  {
  }

  lemma WithBbFrame(es: seq<Entity>, me: nat, bb: Blackboard)
    requires me < |es|
    ensures TreeFrame(es, WithBb(es, me, bb), me)
  {
  }

  /** MoveToEntity::update: FAIL when the target is not alive; RUNNING with a step
      towards it while elsewhere; SUCCESS on its cell. */
  function MoveToEntityTick(n: Node, me: nat, es: seq<Entity>, rng: nat): (r: Outcome)
    requires n.MoveToEntity? && me < |es|
    ensures TreeFrame(es, r.es, me) && r.node == n
  {
    var pos := es[me].pos;
    var t := GetEntity(es[me].bb, n.entityBb);
    if !IsAlive(es, t) then Outcome(Fail, n, es, rng)
    else if pos != es[t.id].pos then
      WithActionFrame(es, me, MoveTowards(pos, es[t.id].pos));
      Outcome(Running, n, WithAction(es, me, MoveTowards(pos, es[t.id].pos)), rng)
    else Outcome(Success, n, es, rng)
  }

  /** FindEnemy::update. */
  function FindEnemyTick(n: Node, me: nat, es: seq<Entity>, rng: nat): (r: Outcome)
    requires n.FindEnemy? && me < |es|
    ensures TreeFrame(es, r.es, me) && r.node == n
  {
    var c := Nearest(es, me, Enemies);
    if c.Some? && WithinDist(es[me].pos, es[c.value].pos, n.distance) then
      var bb := Set(es[me].bb, n.entityBb, EntityV(Ref(c.value)));
      WithBbFrame(es, me, bb);
      Outcome(Success, n, WithBb(es, me, bb), rng)
    else Outcome(Fail, n, es, rng)
  }

  /** FindTreasure::update. */
  function FindTreasureTick(n: Node, me: nat, es: seq<Entity>, rng: nat): (r: Outcome)
    requires n.FindTreasure? && me < |es|
    ensures TreeFrame(es, r.es, me) && r.node == n
  {
    var c := Nearest(es, me, Treasures);
    if c.Some? then
      var bb := Set(es[me].bb, n.entityBb, EntityV(Ref(c.value)));
      WithBbFrame(es, me, bb);
      Outcome(Success, n, WithBb(es, me, bb), rng)
    else Outcome(Fail, n, es, rng)
  }

  /** Flee::update. */
  function FleeTick(n: Node, me: nat, es: seq<Entity>, rng: nat): (r: Outcome)
    requires n.Flee? && me < |es|
    ensures TreeFrame(es, r.es, me) && r.node == n
  {
    var t := GetEntity(es[me].bb, n.entityBb);
    if !IsAlive(es, t) then Outcome(Fail, n, es, rng)
    else
      var a := InverseMove(MoveTowards(es[me].pos, es[t.id].pos));
      WithActionFrame(es, me, a);
      Outcome(Running, n, WithAction(es, me, a), rng)
  }

  /** Patrol::update. */
  function PatrolTick(n: Node, me: nat, es: seq<Entity>, rng: nat): (r: Outcome)
    requires n.Patrol? && me < |es|
    ensures TreeFrame(es, r.es, me) && r.node == n
  {
    var pos := es[me].pos;
    var ppos := GetPos(es[me].bb, n.pposBb);
    var (a, rest) := if !WithinDist(pos, ppos, n.patrolDist) then (MoveTowards(pos, ppos), rng) else DrawMove(rng);
    WithActionFrame(es, me, a);
    Outcome(Running, n, WithAction(es, me, a), rest)
  }

  /** ChooseWaypoint::update. */
  function ChooseWaypointTick(n: Node, me: nat, es: seq<Entity>, rng: nat): (r: Outcome)
    requires n.ChooseWaypoint? && me < |es|
    ensures TreeFrame(es, r.es, me) && r.node == n
  {
    var bb := es[me].bb;
    if !CloserThan(es[me].pos, GetPos(bb, n.waypointPosBb), 0.5) then Outcome(Success, n, es, rng)
    else
      var w := GetEntity(bb, n.waypointEntityBb);
      if !HasNext(es, w) then Outcome(Fail, n, es, rng)
      else
        var nxt := es[w.id].kind.link.target;
        if IsAlive(es, nxt) then
          var bb' := Set(Set(bb, n.waypointEntityBb, EntityV(nxt)), n.waypointPosBb, PosV(es[nxt.id].pos));
          WithBbFrame(es, me, bb');
          Outcome(Success, n, WithBb(es, me, bb'), rng)
        else Outcome(Success, n, es, rng)
  }

  /** NotifyEnemyNear::update. */
  function NotifyEnemyNearTick(n: Node, me: nat, es: seq<Entity>, forest: seq<Option<Node>>, rng: nat): (r: Outcome)
    requires n.NotifyEnemyNear? && Env(me, es, forest)
    ensures TreeFrame(es, r.es, me) && r.node == n
  {
    var enemy := GetEntity(es[me].bb, n.enemyBb);
    if !IsAlive(es, enemy) then Outcome(Fail, n, es, rng)
    else Outcome(Success, n, NotifyAll(es, me, forest, n.radius, n.payloadName, enemy), rng)
  }

  /** update of the leaves. */
  function LeafTick(n: Node, me: nat, es: seq<Entity>, forest: seq<Option<Node>>, rng: nat): (r: Outcome)
    requires Env(me, es, forest) && !n.Compound?
    ensures TreeFrame(es, r.es, me) && r.node == n
    ensures r.res == Running ==> MayRun(n)
  {
    match n
    case MoveToEntity(_) => MoveToEntityTick(n, me, es, rng)
    case IsLowHp(thr) => Outcome(if es[me].hp < thr then Success else Fail, n, es, rng)
    case FindEnemy(_, _) => FindEnemyTick(n, me, es, rng)
    case FindTreasure(_) => FindTreasureTick(n, me, es, rng)
    case Flee(_) => FleeTick(n, me, es, rng)
    case Patrol(_, _) => PatrolTick(n, me, es, rng)
    case ChooseWaypoint(_, _) => ChooseWaypointTick(n, me, es, rng)
    case NotifyEnemyNear(_, _, _) => NotifyEnemyNearTick(n, me, es, forest, rng)
    case ReactSelectTarget(_, _, _) => Outcome(Success, n, es, rng)
  }

  // ---------------------------------------------------------------------------
  // What the leaves do

  /** MoveToEntity::update: FAIL when the target slot names no live entity, SUCCESS
      on the target's cell, and otherwise RUNNING with a step towards it. Only the
      agent's action changes. */
  lemma MoveToEntityUpdate(h: Handle, me: nat, es: seq<Entity>, forest: seq<Option<Node>>, rng: nat,
                           t: EntityRef, o: Outcome)
    requires Env(me, es, forest) && t == GetEntity(es[me].bb, h)
    requires o == Tick(MoveToEntity(h), me, es, forest, rng)
    ensures o.node == MoveToEntity(h) && o.rng == rng
    ensures o.res == Fail <==> !IsAlive(es, t)
    ensures o.res == Success <==> IsAlive(es, t) && es[t.id].pos == es[me].pos
    ensures o.res == Running ==> o.es == WithAction(es, me, MoveTowards(es[me].pos, es[t.id].pos))
    ensures o.res != Running ==> o.es == es
  {
  }

  /** Flee::update steps exactly opposite to the step MoveToEntity takes towards the
      same target, fails exactly when MoveToEntity does, and never succeeds. */
  lemma FleeOpposesChase(h: Handle, me: nat, es: seq<Entity>, forest: seq<Option<Node>>, rng: nat,
                         chase: Outcome, flee: Outcome)
    requires Env(me, es, forest)
    requires chase == Tick(MoveToEntity(h), me, es, forest, rng)
    requires flee == Tick(Flee(h), me, es, forest, rng)
    ensures flee.res == Fail <==> chase.res == Fail
    ensures flee.res != Success
    ensures flee.res == Running ==> flee.es == WithAction(es, me, flee.es[me].action) && flee.es[me].action.IsMove()
    ensures chase.res == Running ==> flee.es[me].action == InverseMove(chase.es[me].action)
    ensures chase.res == Running ==> InverseMove(flee.es[me].action) == chase.es[me].action
  {
    var t := GetEntity(es[me].bb, h);
    if chase.res == Running {
      InverseMoveInvolution(MoveTowards(es[me].pos, es[t.id].pos));
    }
  }

  /** IsLowHp::update: SUCCESS exactly when the agent's hitpoints are below the
      threshold, FAIL otherwise; nothing changes. */
  lemma IsLowHpUpdate(threshold: real, me: nat, es: seq<Entity>, forest: seq<Option<Node>>, rng: nat)
    requires Env(me, es, forest)
    ensures Tick(IsLowHp(threshold), me, es, forest, rng).res == Success <==> es[me].hp < threshold
    ensures Tick(IsLowHp(threshold), me, es, forest, rng).res != Running
    ensures Tick(IsLowHp(threshold), me, es, forest, rng).es == es
  {
  }

  /** FindEnemy::update: SUCCESS exactly when some live character of another team is
      within the search distance; the slot then names the nearest such character
      (the first of equally near ones). FAIL changes nothing. */
  lemma FindEnemyUpdate(d: real, h: Handle, me: nat, es: seq<Entity>, forest: seq<Option<Node>>, rng: nat, o: Outcome)
    requires Env(me, es, forest)
    requires o == Tick(FindEnemy(d, h), me, es, forest, rng)
    ensures o.node == FindEnemy(d, h) && o.rng == rng && o.res != Running
    ensures o.res == Success <==>
              exists j :: 0 <= j < |es| && Matches(es, me, j, Enemies) && WithinDist(es[me].pos, es[j].pos, d)
    ensures o.res == Fail ==> o.es == es
    ensures o.res == Success ==>
              && Nearest(es, me, Enemies).Some?
              && o.es == WithBb(es, me, Set(es[me].bb, h, EntityV(Ref(Nearest(es, me, Enemies).value))))
              && forall j :: 0 <= j < |es| && Matches(es, me, j, Enemies) ==>
                   DistSq(es[me].pos, es[Nearest(es, me, Enemies).value].pos) <= DistSq(es[me].pos, es[j].pos)
  {
    NearestWithinIffAnyWithin(es, me, Enemies, d);
  }

  /** FindTreasure::update: SUCCESS exactly when some treasure is alive, the slot then
      naming the nearest one; FAIL changes nothing. */
  lemma FindTreasureUpdate(h: Handle, me: nat, es: seq<Entity>, forest: seq<Option<Node>>, rng: nat, o: Outcome)
    requires Env(me, es, forest)
    requires o == Tick(FindTreasure(h), me, es, forest, rng)
    ensures o.node == FindTreasure(h) && o.rng == rng && o.res != Running
    ensures o.res == Success <==> exists j :: 0 <= j < |es| && es[j].alive && es[j].kind.Treasure?
    ensures o.res == Fail ==> o.es == es
    ensures o.res == Success ==>
              && Nearest(es, me, Treasures).Some?
              && o.es == WithBb(es, me, Set(es[me].bb, h, EntityV(Ref(Nearest(es, me, Treasures).value))))
              && forall j :: 0 <= j < |es| && Matches(es, me, j, Treasures) ==>
                   DistSq(es[me].pos, es[Nearest(es, me, Treasures).value].pos) <= DistSq(es[me].pos, es[j].pos)
  {
    if j :| 0 <= j < |es| && es[j].alive && es[j].kind.Treasure? {
      assert Matches(es, me, j, Treasures);
    }
  }

  /** Patrol::update always answers RUNNING and sets a move: back towards the patrol
      post when farther than patrolDist from it, a random one otherwise. Only the
      agent's action changes. */
  lemma PatrolUpdate(d: real, h: Handle, me: nat, es: seq<Entity>, forest: seq<Option<Node>>, rng: nat, o: Outcome)
    requires Env(me, es, forest)
    requires o == Tick(Patrol(d, h), me, es, forest, rng)
    ensures o.res == Running && o.node == Patrol(d, h)
    ensures o.es == WithAction(es, me, o.es[me].action) && o.es[me].action.IsMove()
    ensures !WithinDist(es[me].pos, GetPos(es[me].bb, h), d) ==>
              o.es[me].action == MoveTowards(es[me].pos, GetPos(es[me].bb, h)) && o.rng == rng
  {
  }

  /** On the integer grid, being closer than half a cell means being on the cell. */
  lemma HalfCellMeansSameCell(a: Pos, b: Pos)
    ensures CloserThan(a, b, 0.5) <==> a == b
  {
    if a != b {
      assert DistSq(a, b) >= 1;
      assert DistSq(a, b) as real >= 1.0;
    }
  }

  /** ChooseWaypoint::update. Away from the current waypoint: SUCCESS, nothing changes.
      On it, when it has no next link: FAIL, nothing changes. On it with a link to a
      live waypoint: SUCCESS, and both slots advance to that waypoint. On it with a
      link to a dead one: SUCCESS, nothing changes. */
  lemma ChooseWaypointUpdate(we: Handle, wp: Handle, me: nat, es: seq<Entity>, forest: seq<Option<Node>>, rng: nat,
                             o: Outcome)
    requires Env(me, es, forest) && we != wp
    requires o == Tick(ChooseWaypoint(we, wp), me, es, forest, rng)
    ensures o.node == ChooseWaypoint(we, wp) && o.rng == rng && o.res != Running
    ensures es[me].pos != GetPos(es[me].bb, wp) ==> o.res == Success && o.es == es
    ensures es[me].pos == GetPos(es[me].bb, wp) && !HasNext(es, GetEntity(es[me].bb, we)) ==>
              o.res == Fail && o.es == es
    ensures es[me].pos == GetPos(es[me].bb, wp) && HasNext(es, GetEntity(es[me].bb, we)) ==>
              o.res == Success
    ensures o.es != es ==>
              && es[me].pos == GetPos(es[me].bb, wp)
              && HasNext(es, GetEntity(es[me].bb, we))
              && IsAlive(es, es[GetEntity(es[me].bb, we).id].kind.link.target)
              && GetEntity(o.es[me].bb, we) == es[GetEntity(es[me].bb, we).id].kind.link.target
              && GetPos(o.es[me].bb, wp) == es[es[GetEntity(es[me].bb, we).id].kind.link.target.id].pos
              && o.es == WithBb(es, me, o.es[me].bb)
  {
    HalfCellMeansSameCell(es[me].pos, GetPos(es[me].bb, wp));
  }
  /** NotifyEnemyNear::update: FAIL, changing nothing, when the enemy slot names no
      live entity; otherwise SUCCESS, and every other live character of the agent's
      team that has a tree and stands strictly within the radius gets the enemy in its
      payload slot and then reacts to ENEMY_IS_NEAR. No other entity changes, the agent
      included. */
  lemma NotifyEnemyNearUpdate(radius: real, enemyBb: Handle, name: string, me: nat, es: seq<Entity>,
                              forest: seq<Option<Node>>, rng: nat, o: Outcome)
    requires Env(me, es, forest)
    requires o == Tick(NotifyEnemyNear(radius, enemyBb, name), me, es, forest, rng)
    ensures o.node == NotifyEnemyNear(radius, enemyBb, name) && o.rng == rng && o.res != Running
    ensures o.res == Fail <==> !IsAlive(es, GetEntity(es[me].bb, enemyBb))
    ensures o.res == Fail ==> o.es == es
    ensures |o.es| == |es| && o.es[me] == es[me]
    ensures o.res == Success ==>
              forall j :: 0 <= j < |es| ==>
                o.es[j] == if Notifies(es, me, forest, radius, j)
                           then es[j].(bb := Notified(forest[j].value, es[j].bb, name, GetEntity(es[me].bb, enemyBb)))
                           else es[j]
  {
  }

  /** An ally whose tree has no reaction to ENEMY_IS_NEAR only receives the payload. */
  lemma NotifiedWithoutReactor(tree: Node, bb: Blackboard, name: string, enemy: EntityRef)
    requires WellFormed(tree) && !HasReactor(tree, EnemyIsNear)
    ensures Notified(tree, bb, name, enemy)
            == Set(RegName(bb, name, EntityKind).0, RegName(bb, name, EntityKind).1, EntityV(enemy))
  {
    var (bb1, h) := RegName(bb, name, EntityKind);
    NoReactorNeverReacts(tree, EnemyIsNear, Set(bb1, h, EntityV(enemy)));
  }

  /** The reaction protocol end to end: an ally whose tree is a ReactSelectTarget for
      ENEMY_IS_NEAR, built on its blackboard with the payload name the notifier uses,
      ends up with the notifier's enemy in its enemy slot. */
  lemma NotificationSelectsTarget(bb: Blackboard, payloadName: string, enemyName: string, enemy: EntityRef)
    requires Valid(bb)
    ensures MakeReactSelectTarget(bb, EnemyIsNear, payloadName, enemyName).0.ReactSelectTarget?
    ensures var (n, bb1) := MakeReactSelectTarget(bb, EnemyIsNear, payloadName, enemyName);
            GetEntity(Notified(n, bb1, payloadName, enemy), n.enemyBb) == enemy
  {
    var (n, bb1) := MakeReactSelectTarget(bb, EnemyIsNear, payloadName, enemyName);
    var (bb2, h) := RegName(bb1, payloadName, EntityKind);
    assert bb2 == bb1 && h == n.payloadBb;
    var bb3 := Set(bb2, h, EntityV(enemy));
    SetThenGet(bb3, n.enemyBb, EntityV(GetEntity(bb3, h)), n.enemyBb);
    SetThenGet(bb2, h, EntityV(enemy), h);
  }

  // ---------------------------------------------------------------------------
  // Construction

  /** reg_entity_blackboard_var<T>(entity, name): the handle of (name, T) on the agent's
      blackboard, registering it when new; no slot is written. */
  function RegVar(bb: Blackboard, name: string, kind: Blackboards.Kind): (r: (Handle, Blackboard))
    ensures (name, kind) in r.1.names && r.1.names[(name, kind)] == r.0
    ensures r.1.slots == bb.slots
    ensures Valid(bb) ==> Valid(r.1)
    ensures forall key :: key in bb.names ==> key in r.1.names && r.1.names[key] == bb.names[key]
  {
    var (bb1, h) := RegName(bb, name, kind);
    RegNameValid(bb, name, kind);
    (h, bb1)
  }

  /** The Patrol constructor: registers the position slot and stores the agent's
      current cell in it as the patrol post. */
  function MakePatrol(bb: Blackboard, pos: Pos, patrolDist: real, name: string): (r: (Node, Blackboard))
    ensures r.0.Patrol? && r.0.patrolDist == patrolDist
    ensures GetPos(r.1, r.0.pposBb) == pos
    ensures (name, PosKind) in r.1.names && r.1.names[(name, PosKind)] == r.0.pposBb
  {
    var (h, bb1) := RegVar(bb, name, PosKind);
    SetThenGet(bb1, h, PosV(pos), h);
    (Patrol(patrolDist, h), Set(bb1, h, PosV(pos)))
  }

  /** The ChooseWaypoint constructor: one name, registered once as an entity slot and
      once as a position slot (two distinct handles), both set to the first waypoint
      when it exists. */
  function MakeChooseWaypoint(bb: Blackboard, es: seq<Entity>, first: EntityRef, name: string): (r: (Node, Blackboard))
    requires Valid(bb)
    ensures r.0.ChooseWaypoint? && r.0.waypointEntityBb != r.0.waypointPosBb
    ensures IsAlive(es, first) ==> GetEntity(r.1, r.0.waypointEntityBb) == first
                                   && GetPos(r.1, r.0.waypointPosBb) == es[first.id].pos
    ensures !IsAlive(es, first) ==> r.1.slots == bb.slots
  {
    var (we, bb1) := RegVar(bb, name, EntityKind);
    var (wp, bb2) := RegVar(bb1, name, PosKind);
    RegNameStable(bb, name, EntityKind, name, PosKind);
    if IsAlive(es, first) then
      var bb3 := Set(Set(bb2, we, EntityV(first)), wp, PosV(es[first.id].pos));
      SetThenGet(Set(bb2, we, EntityV(first)), wp, PosV(es[first.id].pos), we);
      (ChooseWaypoint(we, wp), bb3)
    else (ChooseWaypoint(we, wp), bb2)
  }

  /** The ReactSelectTarget constructor: registers the enemy slot and the payload slot. */
  function MakeReactSelectTarget(bb: Blackboard, ev: ReactionEvent, payloadName: string, enemyName: string)
    : (r: (Node, Blackboard))
    requires Valid(bb)
    ensures r.0.ReactSelectTarget? && r.0.rEvent == ev && Valid(r.1) && r.1.slots == bb.slots
    ensures (payloadName, EntityKind) in r.1.names && r.1.names[(payloadName, EntityKind)] == r.0.payloadBb
    ensures (enemyName, EntityKind) in r.1.names && r.1.names[(enemyName, EntityKind)] == r.0.enemyBb
    ensures payloadName != enemyName ==> r.0.enemyBb != r.0.payloadBb
  {
    var (e, bb1) := RegVar(bb, enemyName, EntityKind);
    var (p, bb2) := RegVar(bb1, payloadName, EntityKind);
    RegNameStable(bb, enemyName, EntityKind, payloadName, EntityKind);
    (ReactSelectTarget(ev, e, p), bb2)
  }

  /** sequence, selector, parallel, orNode, andNode and negate: a new composite with
      runningIdx -1 and the given children pushed in order. NOT takes exactly one child,
      and the children of AND, OR and NOT never answer RUNNING. */
  method MakeComposite(op: Composite, nodes: seq<Node>) returns (n: Node)
    requires forall k :: 0 <= k < |nodes| ==> WellFormed(nodes[k])
    requires op.NegateNode? ==> |nodes| == 1
    requires (op.OrNode? || op.AndNode? || op.NegateNode?) ==> forall k :: 0 <= k < |nodes| ==> !MayRun(nodes[k])
    ensures n == Compound(op, nodes, -1) && WellFormed(n)
    ensures MayRun(n) <==> (op.Sequence? || op.Selector? || op.Parallel?)
                           && ((op.Parallel? && |nodes| == 0) || exists k :: 0 <= k < |nodes| && MayRun(nodes[k]))
  {
    var children: seq<Node> := [];
    var i := 0;
    while i < |nodes|
      invariant 0 <= i <= |nodes| && children == nodes[..i]
    {
      children := children + [nodes[i]];
      i := i + 1;
    }
    assert children == nodes;
    n := Compound(op, children, -1);
  }

  // ---------------------------------------------------------------------------
  // BehaviourTree

  /** A tree owns its root; the agent's blackboard lives in the world. */
  datatype BehaviourTree = BehaviourTree(root: Node)

  /** BehaviourTree::update: updates the root once and drops its answer. Only the
      agent's action and the blackboards change. */
  function TreeUpdate(t: BehaviourTree, me: nat, es: seq<Entity>, forest: seq<Option<Node>>, rng: nat)
    : (r: (BehaviourTree, seq<Entity>, nat))
    requires Env(me, es, forest) && WellFormed(t.root)
    ensures TreeFrame(es, r.1, me) && WellFormed(r.0.root)
    ensures MayRun(r.0.root) == MayRun(t.root)
  {
    var o := Tick(t.root, me, es, forest, rng);
    TickKeepsFrame(t.root, me, es, forest, rng);
    (BehaviourTree(o.node), o.es, o.rng)
  }

  /** BehaviourTree::react: the root reacts once and its answer is dropped. A tree with
      no reaction to the event leaves the blackboard as it was. */
  function TreeReact(t: BehaviourTree, e: ReactionEvent, bb: Blackboard): (r: Blackboard)
    requires WellFormed(t.root)
    ensures !HasReactor(t.root, e) ==> r == bb
  {
    if HasReactor(t.root, e) then React(t.root, e, bb).1
    else NoReactorNeverReacts(t.root, e, bb); React(t.root, e, bb).1
  }

}
