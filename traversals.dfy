/**
 * The two graph searches of the quantifier solver: collecting the
 * top-level quantifiers of the constraints with their phase in the model
 * (get_active_quantifiers) and collecting the universal variables a
 * quantifier depends on (compute_variable_dependencies_aux).  Both are
 * depth-first searches with an explicit stack and a visited cache.
 */
module QuantTraversal {
  import opened Terms
  import opened QuantSpec

  // ---------------------------------------------------------------------
  // get_active_quantifiers

  /** The real addresses of the roots, in order. */
  function RootNodes(roots: seq<Ref>): (ns: seq<Node>)
    ensures |ns| == |roots| && forall i :: 0 <= i < |roots| ==> ns[i] == roots[i].node
  {
    seq(|roots|, i requires 0 <= i < |roots| => roots[i].node)
  }

  /** The real addresses of the children of n, in order. */
  function ChildNodes(n: Node): (ns: seq<Node>)
    ensures |ns| == |n.children| && forall i :: 0 <= i < |n.children| ==> ns[i] == n.children[i].node
  {
    seq(|n.children|, i requires 0 <= i < |n.children| => n.children[i].node)
  }

  /** The search has visited n, may skip it, or still has it on the stack. */
  predicate Handled(n: Node, cache: set<Node>, visit: seq<Node>)
  {
    n in cache || !QuantifierBelow(n) || n in visit
  }

  /** Every visited node that is not a quantifier has its children handled. */
  predicate ClosedBelow(cache: set<Node>, visit: seq<Node>)
  {
    forall n :: n in cache && !IsQuantifier(n) ==>
      forall i :: 0 <= i < |n.children| ==> Handled(n.children[i].node, cache, visit)
  }

  lemma RegionOfStep(roots: seq<Ref>, m: Node, j: nat)
    requires m in RegionOf(roots) && !IsQuantifier(m) && j < |m.children|
    ensures m.children[j].node in RegionOf(roots)
  {
    var i :| 0 <= i < |roots| && m in Region(roots[i].node);
    RegionStep(roots[i].node, m, j);
  }

  /** Popping cur keeps a handled node handled, once cur is visited or skippable. */
  lemma HandledAfterPop(n: Node, cache: set<Node>, visit: seq<Node>, cache': set<Node>, extra: seq<Node>)
    requires visit != [] && Handled(n, cache, visit) && cache <= cache'
    requires visit[|visit| - 1] in cache' || !QuantifierBelow(visit[|visit| - 1])
    ensures Handled(n, cache', visit[..|visit| - 1] + extra)
  {
    var k := |visit| - 1;
    if n in visit && n != visit[k] {
      assert visit == visit[..k] + [visit[k]];
      assert n in visit[..k];
    }
  }

  /** The search stays inside the region of the roots, and what it has left to do is on the stack. */
  predicate SearchInv(roots: seq<Ref>, cache: set<Node>, visit: seq<Node>)
  {
    && (forall k :: 0 <= k < |visit| ==> visit[k] in RegionOf(roots))
    && cache <= RegionOf(roots)
    && (forall k :: 0 <= k < |roots| ==> Handled(roots[k].node, cache, visit))
    && ClosedBelow(cache, visit)
  }

  /** One step of the search: pop cur, visit it unless it is visited or skippable, push its children. */
  lemma SearchStep(roots: seq<Ref>, cache: set<Node>, visit: seq<Node>, cache': set<Node>, extra: seq<Node>)
    requires visit != [] && SearchInv(roots, cache, visit)
    requires var cur := visit[|visit| - 1];
             && cache <= cache' <= cache + {cur}
             && (cur in cache' || !QuantifierBelow(cur))
             && (cur !in cache && cur in cache' && !IsQuantifier(cur) ==> extra == ChildNodes(cur))
             && (cur in cache || cur !in cache' || IsQuantifier(cur) ==> extra == [])
    ensures visit[|visit| - 1] in RegionOf(roots)
    ensures SearchInv(roots, cache', visit[..|visit| - 1] + extra)
  {
    var cur := visit[|visit| - 1];
    var visit' := visit[..|visit| - 1] + extra;
    forall n, i | n in cache' && !IsQuantifier(n) && 0 <= i < |n.children|
      ensures Handled(n.children[i].node, cache', visit')
    {
      if n in cache {
        HandledAfterPop(n.children[i].node, cache, visit, cache', extra);
      } else {
        assert visit'[|visit| - 1 + i] == n.children[i].node;
      }
    }
    forall k | 0 <= k < |roots| ensures Handled(roots[k].node, cache', visit') {
      HandledAfterPop(roots[k].node, cache, visit, cache', extra);
    }
    forall k | 0 <= k < |visit'| ensures visit'[k] in RegionOf(roots) {
      if k >= |visit| - 1 {
        RegionOfStep(roots, cur, k - (|visit| - 1));
      }
    }
  }

  /** Once the stack is empty, every quantifier in the region of a handled node was visited. */
  lemma {:induction false} VisitedCoversRegion(n: Node, m: Node, cache: set<Node>)
    requires ClosedBelow(cache, []) && Handled(n, cache, [])
    requires m in Region(n) && IsQuantifier(m)
    ensures m in cache
    decreases n
  {
    if !QuantifierBelow(n) {
      RegionNeedsQuantifierBelow(n, m);
    } else if m != n {
      var i :| 0 <= i < |n.children| && m in Region(n.children[i].node);
      VisitedCoversRegion(n.children[i].node, m, cache);
    }
  }

  /** The quantifiers visited so far that are not inactive, in order, with their phase. */
  ghost predicate CollectedSoFar(order: seq<Node>, phase: map<Node, bool>, cache: set<Node>, inactive: set<Node>,
                           engine: Engine, constraints: seq<Ref>, assumptions: seq<Ref>)
  {
    && NoDups(order)
    && (forall q :: q in order <==> q in cache && IsQuantifier(q) && q !in inactive)
    && (forall q :: q in phase <==> q in order)
    && (forall q :: q in phase ==> phase[q] == (engine.assignment(constraints, assumptions, q) == 1))
  }

  /** Visiting a node records it exactly when it is a quantifier that is not inactive. */
  lemma CollectStep(order: seq<Node>, phase: map<Node, bool>, cache: set<Node>, inactive: set<Node>,
                    engine: Engine, constraints: seq<Ref>, assumptions: seq<Ref>, cur: Node)
    requires CollectedSoFar(order, phase, cache, inactive, engine, constraints, assumptions) && cur !in cache
    ensures var rec := IsQuantifier(cur) && cur !in inactive;
            CollectedSoFar(if rec then order + [cur] else order,
                           if rec then phase[cur := engine.assignment(constraints, assumptions, cur) == 1] else phase,
                           cache + {cur}, inactive, engine, constraints, assumptions)
  {
  }

  /**
   * The quantifiers at the top of the constraints that are not inactive,
   * in the order the search meets them, each with its phase: whether the
   * model of the last check assigns it true.
   */
  method CollectTopQuantifiers(roots: seq<Ref>, inactive: set<Node>, engine: Engine,
                               constraints: seq<Ref>, assumptions: seq<Ref>)
    returns (order: seq<Node>, phase: map<Node, bool>)
    ensures NoDups(order)
    ensures forall q :: q in order <==> q in TopsOf(roots) && q !in inactive
    ensures forall q :: q in phase <==> q in order
    ensures forall q :: q in phase ==> phase[q] == (engine.assignment(constraints, assumptions, q) == 1)
  {
    var visit := RootNodes(roots);
    var cache: set<Node> := {};
    order, phase := [], map[];
    forall k | 0 <= k < |roots| ensures roots[k].node in RegionOf(roots) {
      assert roots[k].node in Region(roots[k].node);
    }
    while visit != []
      invariant SearchInv(roots, cache, visit)
      invariant CollectedSoFar(order, phase, cache, inactive, engine, constraints, assumptions)
      decreases RegionOf(roots) - cache, |visit|
    {
      var cur := visit[|visit| - 1];
      if cur in cache || !QuantifierBelow(cur) {
        SearchStep(roots, cache, visit, cache, []);
        visit := visit[..|visit| - 1] + [];
        continue;
      }
      var extra: seq<Node> := if IsQuantifier(cur) then [] else ChildNodes(cur);
      SearchStep(roots, cache, visit, cache + {cur}, extra);
      CollectStep(order, phase, cache, inactive, engine, constraints, assumptions, cur);
      visit := visit[..|visit| - 1] + extra;
      if IsQuantifier(cur) && cur !in inactive {
        order := order + [cur];
        phase := phase[cur := engine.assignment(constraints, assumptions, cur) == 1];
      }
      cache := cache + {cur};
    }
    CollectExit(roots, inactive, engine, constraints, assumptions, cache, order, phase);
  }

  /** The results of the search once its stack is empty. */
  lemma CollectExit(roots: seq<Ref>, inactive: set<Node>, engine: Engine, constraints: seq<Ref>,
                    assumptions: seq<Ref>, cache: set<Node>, order: seq<Node>, phase: map<Node, bool>)
    requires SearchInv(roots, cache, [])
    requires CollectedSoFar(order, phase, cache, inactive, engine, constraints, assumptions)
    ensures NoDups(order)
    ensures forall q :: q in order <==> q in TopsOf(roots) && q !in inactive
    ensures forall q :: q in phase <==> q in order
    ensures forall q :: q in phase ==> phase[q] == (engine.assignment(constraints, assumptions, q) == 1)
  {
    forall q | q in TopsOf(roots) ensures q in cache {
      var k :| 0 <= k < |roots| && q in Region(roots[k].node);
      VisitedCoversRegion(roots[k].node, q, cache);
    }
  }

  // ---------------------------------------------------------------------
  // compute_variable_dependencies_aux

  lemma {:induction false} ReachTrans(n: Node, m: Node)
    requires m in Reach(n)
    ensures Reach(m) <= Reach(n)
    decreases n
  {
    if m != n {
      var i :| 0 <= i < |n.children| && m in Reach(n.children[i].node);
      ReachTrans(n.children[i].node, m);
    }
  }

  /** The variables bound by the quantifiers of s. */
  function BoundVars(s: set<Node>): set<Node>
  {
    set x | x in s && IsQuantifier(x) && |x.children| > 0 :: x.children[0].node
  }

  /** Some quantifier in q binds a term in which p occurs free. */
  predicate BoundBelow(q: Node, p: Node)
  {
    exists x :: x in Reach(q) && IsQuantifier(x) && |x.children| > 0 && p in FreeParams(x.children[0].node)
  }

  /** The search has expanded n, may skip it, or still has it on the stack. */
  predicate Pending(n: Node, cache: set<Node>, visit: seq<Node>)
  {
    n in cache || !Parameterized(n) || n in visit
  }

  predicate ExpandedClosed(processed: set<Node>, cache: set<Node>, visit: seq<Node>)
  {
    forall n :: n in processed ==>
      forall i :: 0 <= i < |n.children| ==> Pending(n.children[i].node, cache, visit)
  }

  lemma PendingAfterPop(n: Node, cache: set<Node>, visit: seq<Node>, cache': set<Node>, extra: seq<Node>)
    requires visit != [] && Pending(n, cache, visit) && cache <= cache'
    requires visit[|visit| - 1] in cache' || !Parameterized(visit[|visit| - 1])
    ensures Pending(n, cache', visit[..|visit| - 1] + extra)
  {
    var k := |visit| - 1;
    if n in visit && n != visit[k] {
      assert visit == visit[..k] + [visit[k]];
      assert n in visit[..k];
    }
  }

  /** The search from q stays inside q, and what it has left to do is on the stack. */
  ghost predicate DepsSearchInv(q: Node, processed: set<Node>, cache: set<Node>, visit: seq<Node>)
  {
    && (forall k :: 0 <= k < |visit| ==> visit[k] in Reach(q))
    && processed <= Reach(q)
    && cache == processed + BoundVars(processed) && cache <= Reach(q)
    && Pending(q, cache, visit)
    && ExpandedClosed(processed, cache, visit)
    && (processed != {} ==> q in processed)
    && (processed == {} ==> visit == [q] || visit == [])
    && (!Parameterized(q) ==> processed == {})
    && (IsQuantifier(q) && |q.children| > 0 && q in processed ==> q.children[0].node !in processed)
  }

  /** The node the search expands next, with the variable it binds when it is a quantifier. */
  function Expanded(cur: Node): set<Node>
  {
    {cur} + if IsQuantifier(cur) && |cur.children| > 0 then {cur.children[0].node} else {}
  }

  /** Popping a node the search skips. */
  lemma DepsSkipStep(q: Node, processed: set<Node>, cache: set<Node>, visit: seq<Node>)
    requires visit != [] && DepsSearchInv(q, processed, cache, visit)
    requires var cur := visit[|visit| - 1]; cur in cache || !Parameterized(cur)
    ensures DepsSearchInv(q, processed, cache, visit[..|visit| - 1])
  {
    var visit' := visit[..|visit| - 1];
    forall n, i | n in processed && 0 <= i < |n.children|
      ensures Pending(n.children[i].node, cache, visit')
    {
      PendingAfterPop(n.children[i].node, cache, visit, cache, []);
      assert visit' + [] == visit';
    }
    PendingAfterPop(q, cache, visit, cache, []);
    assert visit' + [] == visit';
  }

  lemma BoundVarsAdd(processed: set<Node>, cur: Node)
    ensures (processed + {cur}) + BoundVars(processed + {cur}) == (processed + BoundVars(processed)) + Expanded(cur)
  {
    assert BoundVars(processed + {cur}) == BoundVars(processed) + (Expanded(cur) - {cur});
  }

  /** The nodes on the stack stay inside q when the children of one of them are pushed. */
  lemma PushStaysInside(q: Node, visit: seq<Node>)
    requires visit != [] && forall k :: 0 <= k < |visit| ==> visit[k] in Reach(q)
    ensures var cur := visit[|visit| - 1];
            var visit' := visit[..|visit| - 1] + ChildNodes(cur);
            cur in Reach(q) && forall k :: 0 <= k < |visit'| ==> visit'[k] in Reach(q)
  {
    var cur := visit[|visit| - 1];
    var visit' := visit[..|visit| - 1] + ChildNodes(cur);
    ReachTrans(q, cur);
    forall k | 0 <= k < |visit'| ensures visit'[k] in Reach(q) {
      if k >= |visit| - 1 {
        var j := k - (|visit| - 1);
        assert visit'[k] == cur.children[j].node;
        assert cur.children[j].node in Reach(cur.children[j].node);
      }
    }
  }

  lemma ClosedAfterExpand(processed: set<Node>, cache: set<Node>, visit: seq<Node>, cache': set<Node>)
    requires visit != [] && ExpandedClosed(processed, cache, visit)
    requires cache <= cache' && visit[|visit| - 1] in cache'
    ensures var cur := visit[|visit| - 1];
            ExpandedClosed(processed + {cur}, cache', visit[..|visit| - 1] + ChildNodes(cur))
  {
    var cur := visit[|visit| - 1];
    var visit' := visit[..|visit| - 1] + ChildNodes(cur);
    forall n, i | n in processed + {cur} && 0 <= i < |n.children|
      ensures Pending(n.children[i].node, cache', visit')
    {
      if n in processed {
        PendingAfterPop(n.children[i].node, cache, visit, cache', ChildNodes(cur));
      } else {
        assert visit'[|visit| - 1 + i] == n.children[i].node;
      }
    }
  }

  /** Popping and expanding a node: it is marked visited, its variable bound, its children pushed. */
  lemma DepsExpandStep(q: Node, processed: set<Node>, cache: set<Node>, visit: seq<Node>)
    requires visit != [] && DepsSearchInv(q, processed, cache, visit)
    requires var cur := visit[|visit| - 1]; cur !in cache && Parameterized(cur)
    ensures var cur := visit[|visit| - 1];
            && cur in Reach(q) && cur !in processed
            && (IsQuantifier(q) && |q.children| > 0 ==> cur != q.children[0].node)
            && DepsSearchInv(q, processed + {cur}, cache + Expanded(cur), visit[..|visit| - 1] + ChildNodes(cur))
  {
    var cur := visit[|visit| - 1];
    var processed', cache' := processed + {cur}, cache + Expanded(cur);
    PushStaysInside(q, visit);
    if processed == {} {
      assert cur == q;
      if IsQuantifier(q) && |q.children| > 0 {
        ChildIsLower(q, 0);
      }
    }
    BoundVarsAdd(processed, cur);
    if IsQuantifier(cur) && |cur.children| > 0 {
      ReachTrans(q, cur);
      assert cur.children[0].node in Reach(cur.children[0].node);
      assert cur.children[0].node in Reach(cur);
    }
    ClosedAfterExpand(processed, cache, visit, cache');
    PendingAfterPop(q, cache, visit, cache', ChildNodes(cur));
    // the conjuncts of the invariant one by one
    var visit' := visit[..|visit| - 1] + ChildNodes(cur);
    assert (forall k :: 0 <= k < |visit'| ==> visit'[k] in Reach(q));
    assert processed' <= Reach(q);
    assert cache' == processed' + BoundVars(processed');
    assert cache' <= Reach(q);
    assert Pending(q, cache', visit');
    assert ExpandedClosed(processed', cache', visit');
    assert (processed' != {} ==> q in processed');
    assert (processed' == {} ==> visit' == [q] || visit' == []);
    assert (!Parameterized(q) ==> processed' == {});
    assert (IsQuantifier(q) && |q.children| > 0 && q in processed' ==> q.children[0].node !in processed');
  }

  /**
   * Once the stack is empty, every free parameter of a handled node was
   * expanded, unless a visited quantifier binds it.
   */
  lemma {:induction false} ExpandedCoversFree(n: Node, p: Node, processed: set<Node>)
    requires ExpandedClosed(processed, processed + BoundVars(processed), [])
    requires Pending(n, processed + BoundVars(processed), [])
    requires p in FreeParams(n)
    requires forall x :: x in processed && IsQuantifier(x) && |x.children| > 0 ==> p !in FreeParams(x.children[0].node)
    ensures p in processed
    decreases n
  {
    if n in processed {
      if !IsParam(n) {
        var i :| 0 <= i < |n.children| && p in FreeParams(n.children[i].node);
        ExpandedCoversFree(n.children[i].node, p, processed);
      }
    }
  }

  /**
   * No lambda below q binds a universally bound parameter: Bitwuzla marks
   * as forall variables only the parameters of foralls.
   */
  ghost predicate NoLambdaBindsForallVar(q: Node)
  {
    forall m :: m in Reach(q) && m.kind.Lambda? && |m.children| > 0 ==> !IsForallParam(m.children[0].node)
  }

  /** Every universal parameter free in a node on the stack is free in q, or already cached. */
  ghost predicate FreeStaysFree(q: Node, cache: set<Node>, visit: seq<Node>)
  {
    forall k, p :: 0 <= k < |visit| && p in FreeParams(visit[k]) && IsForallParam(p) ==>
      p in FreeParams(q) || p in cache
  }

  /** A parameter free in a child is free in the node, unless the node binds it. */
  lemma FreeParamsOfChild(n: Node, i: nat, p: Node)
    requires i < |n.children| && p in FreeParams(n.children[i].node) && !IsParam(n)
    ensures p in FreeParams(n) || (IsBinder(n) && p == n.children[0].node)
  {
  }

  lemma FreeStaysFreePop(q: Node, cache: set<Node>, visit: seq<Node>)
    requires visit != [] && FreeStaysFree(q, cache, visit)
    ensures FreeStaysFree(q, cache, visit[..|visit| - 1])
  {
    var visit' := visit[..|visit| - 1];
    forall k, p | 0 <= k < |visit'| && p in FreeParams(visit'[k]) && IsForallParam(p)
      ensures p in FreeParams(q) || p in cache
    {
      assert visit'[k] == visit[k];
    }
  }

  /** A universal parameter free in a child of an expanded node is free in q, or cached once the node is. */
  lemma FreeInChild(q: Node, cache: set<Node>, cur: Node, i: nat, p: Node)
    requires i < |cur.children| && p in FreeParams(cur.children[i].node) && IsForallParam(p)
    requires p in FreeParams(cur) ==> p in FreeParams(q) || p in cache
    requires WellFormed(cur) && NoLambdaBindsForallVar(q) && cur in Reach(q)
    ensures p in FreeParams(q) || p in cache + Expanded(cur)
  {
    FreeParamsOfChild(cur, i, p);
    if p !in FreeParams(cur) {
      assert !cur.kind.Lambda?;
    }
  }

  /** The stack property holds for a concatenation when it holds for both parts. */
  lemma FreeStaysFreeAppend(q: Node, cache: set<Node>, xs: seq<Node>, ys: seq<Node>)
    requires FreeStaysFree(q, cache, xs) && FreeStaysFree(q, cache, ys)
    ensures FreeStaysFree(q, cache, xs + ys)
  {
    forall k, p | 0 <= k < |xs + ys| && p in FreeParams((xs + ys)[k]) && IsForallParam(p)
      ensures p in FreeParams(q) || p in cache
    {
      if k < |xs| {
        assert (xs + ys)[k] == xs[k];
      } else {
        assert (xs + ys)[k] == ys[k - |xs|];
      }
    }
  }

  /** The stack property holds for a prefix of the stack and a larger cache. */
  lemma FreeStaysFreePrefix(q: Node, cache: set<Node>, cache': set<Node>, visit: seq<Node>, n: nat)
    requires FreeStaysFree(q, cache, visit) && cache <= cache' && n <= |visit|
    ensures FreeStaysFree(q, cache', visit[..n])
  {
    forall k, p | 0 <= k < n && p in FreeParams(visit[..n][k]) && IsForallParam(p)
      ensures p in FreeParams(q) || p in cache'
    {
      assert visit[..n][k] == visit[k];
    }
  }

  /** The children of the top of the stack keep their free parameters free in q or expanded. */
  lemma FreeStaysFreeChildren(q: Node, cache: set<Node>, visit: seq<Node>)
    requires visit != [] && FreeStaysFree(q, cache, visit)
    requires WellFormed(q) && NoLambdaBindsForallVar(q) && visit[|visit| - 1] in Reach(q)
    ensures var cur := visit[|visit| - 1];
            FreeStaysFree(q, cache + Expanded(cur), ChildNodes(cur))
  {
    var cur := visit[|visit| - 1];
    WellFormedReach(q, cur);
    forall i, p | 0 <= i < |ChildNodes(cur)| && p in FreeParams(ChildNodes(cur)[i]) && IsForallParam(p)
      ensures p in FreeParams(q) || p in cache + Expanded(cur)
    {
      FreeInChild(q, cache, cur, i, p);
    }
  }

  /** Expanding a node keeps the free parameters of the stack free in q or cached. */
  lemma FreeStaysFreeExpand(q: Node, cache: set<Node>, visit: seq<Node>)
    requires visit != [] && FreeStaysFree(q, cache, visit)
    requires WellFormed(q) && NoLambdaBindsForallVar(q) && visit[|visit| - 1] in Reach(q)
    ensures var cur := visit[|visit| - 1];
            FreeStaysFree(q, cache + Expanded(cur), visit[..|visit| - 1] + ChildNodes(cur))
  {
    var cur := visit[|visit| - 1];
    FreeStaysFreePrefix(q, cache, cache + Expanded(cur), visit, |visit| - 1);
    FreeStaysFreeChildren(q, cache, visit);
    FreeStaysFreeAppend(q, cache + Expanded(cur), visit[..|visit| - 1], ChildNodes(cur));
  }

  /** The forall-bound parameters among the expanded nodes, each once. */
  ghost predicate FreeVarsSoFar(freeVars: seq<Ref>, processed: set<Node>)
  {
    && NoDups(freeVars)
    && (forall i :: 0 <= i < |freeVars| ==>
          !freeVars[i].neg && IsForallParam(freeVars[i].node) && freeVars[i].node in processed)
    && (forall p :: p in processed && IsForallParam(p) ==> Plain(p) in freeVars)
    && (processed == {} ==> freeVars == [])
  }

  lemma FreeVarsStep(freeVars: seq<Ref>, processed: set<Node>, cur: Node)
    requires FreeVarsSoFar(freeVars, processed) && cur !in processed
    ensures FreeVarsSoFar(if IsForallParam(cur) then freeVars + [Plain(cur)] else freeVars, processed + {cur})
  {
  }

  /** Appending a parameter free in q keeps every listed parameter free in q. */
  lemma FreeVarsAppend(q: Node, freeVars: seq<Ref>, cur: Node)
    requires forall i :: 0 <= i < |freeVars| ==> freeVars[i].node in FreeParams(q)
    requires cur in FreeParams(q)
    ensures forall i :: 0 <= i < |freeVars + [Plain(cur)]| ==> (freeVars + [Plain(cur)])[i].node in FreeParams(q)
  {
  }

  /** The results of the search from q once its stack is empty. */
  lemma DepsExit(q: Node, processed: set<Node>, cache: set<Node>, freeVars: seq<Ref>)
    requires DepsSearchInv(q, processed, cache, []) && FreeVarsSoFar(freeVars, processed)
    ensures !Parameterized(q) ==> freeVars == []
    ensures NoDups(freeVars)
    ensures forall i :: 0 <= i < |freeVars| ==>
              !freeVars[i].neg && IsForallParam(freeVars[i].node) && freeVars[i].node in Reach(q)
    ensures IsQuantifier(q) && |q.children| > 0 ==>
              forall i :: 0 <= i < |freeVars| ==> freeVars[i].node != q.children[0].node
    ensures forall p :: p in FreeParams(q) && IsForallParam(p) && !BoundBelow(q, p) ==> Plain(p) in freeVars
  {
    forall p | p in FreeParams(q) && IsForallParam(p) && !BoundBelow(q, p) ensures Plain(p) in freeVars {
      ExpandedCoversFree(q, p, processed);
    }
  }

  /**
   * ds lists, once each and not negated, universal parameters free in q
   * (so reachable from q and other than the variable of q itself), and it
   * holds every free universal parameter of q that no quantifier below q
   * binds.
   */
  ghost predicate DependencyList(q: Node, ds: seq<Ref>)
  {
    && NoDups(ds)
    && (forall i :: 0 <= i < |ds| ==>
          !ds[i].neg && IsForallParam(ds[i].node) && ds[i].node in Reach(q) && ds[i].node in FreeParams(q))
    && (IsQuantifier(q) && |q.children| > 0 ==> forall i :: 0 <= i < |ds| ==> ds[i].node != q.children[0].node)
    && (forall p :: p in FreeParams(q) && IsForallParam(p) && !BoundBelow(q, p) ==> Plain(p) in ds)
  }

  /**
   * The universal variables q depends on, in the order the search meets
   * them: the forall-bound parameters reachable from q through nodes that
   * have a free parameter, leaving out the variables of the quantifiers it
   * passes, q's own first of all.
   */
  method VariableDependencies(q: Node) returns (freeVars: seq<Ref>)
    requires WellFormed(q) && NoLambdaBindsForallVar(q)
    ensures !Parameterized(q) ==> freeVars == []
    ensures NoDups(freeVars)
    ensures forall i :: 0 <= i < |freeVars| ==>
              !freeVars[i].neg && IsForallParam(freeVars[i].node) && freeVars[i].node in Reach(q)
    ensures forall i :: 0 <= i < |freeVars| ==> freeVars[i].node in FreeParams(q)
    ensures IsQuantifier(q) && |q.children| > 0 ==>
              forall i :: 0 <= i < |freeVars| ==> freeVars[i].node != q.children[0].node
    ensures forall p :: p in FreeParams(q) && IsForallParam(p) && !BoundBelow(q, p) ==> Plain(p) in freeVars
  {
    var visit := [q];
    var cache: set<Node> := {};
    ghost var processed: set<Node> := {};
    freeVars := [];
    assert q in Reach(q);
    while visit != []
      invariant DepsSearchInv(q, processed, cache, visit)
      invariant FreeVarsSoFar(freeVars, processed)
      invariant FreeStaysFree(q, cache, visit)
      invariant forall i :: 0 <= i < |freeVars| ==> freeVars[i].node in FreeParams(q)
      decreases Reach(q) - cache, |visit|
    {
      var cur := visit[|visit| - 1];
      if !Parameterized(cur) || cur in cache {
        DepsSkipStep(q, processed, cache, visit);
        FreeStaysFreePop(q, cache, visit);
        visit := visit[..|visit| - 1];
        continue;
      }
      DepsExpandStep(q, processed, cache, visit);
      FreeStaysFreeExpand(q, cache, visit);
      if IsForallParam(cur) {
        assert cur in FreeParams(cur);
        FreeVarsAppend(q, freeVars, cur);
      }
      FreeVarsStep(freeVars, processed, cur);
      processed := processed + {cur};
      cache := cache + Expanded(cur);
      if IsForallParam(cur) {
        freeVars := freeVars + [Plain(cur)];
      }
      visit := visit[..|visit| - 1] + ChildNodes(cur);
    }
    DepsExit(q, processed, cache, freeVars);
  }
}
