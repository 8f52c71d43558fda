/**
 * Simultaneous substitution over the term DAG (substitute in
 * src/bzlaslvquantn.c).  The recursive functions below are the
 * specification; the method Substitute is the source's iterative rewrite
 * with an explicit visit stack and a cache keyed by node, and is proved to
 * compute exactly the specification, including the backref table it fills.
 */
module Substitution {
  import opened Terms

  /**
   * The fresh parameter that replaces p (bzla_node_mk_param_with_unique_symbol)
   * when the fresh serials of the substitution start at base: the copy of
   * the parameter with serial k gets serial base + k.  Every node of the
   * clone was created before base, so the copy is a new node, and the
   * copies of two parameters differ.
   */
  function FreshParam(p: Node, base: nat): (q: Node)
    requires p.kind.Param?
    ensures q.kind.Param? && q.kind.forallVar == p.kind.forallVar && q.sort == p.sort && q.children == []
    ensures !CreatedBefore(q, base)
    ensures SerialOf(p) < base ==> CreatedBefore(q, base + base) && q != p
  {
    Node(Param(base + p.kind.serial, p.kind.forallVar), p.sort, p.indices, [])
  }

  /** Distinct parameters get distinct copies. */
  lemma FreshParamInjective(p1: Node, p2: Node, base: nat)
    requires IsParam(p1) && IsParam(p2) && p1.children == [] && p2.children == [] && p1 != p2
    ensures FreshParam(p1, base) != FreshParam(p2, base)
  {
  }

  /** The rewrite of an edge: the rewrite of its node, negated like the edge. */
  function RewriteEdge(r: Ref, substs: map<Node, Ref>, base: nat): Ref
    decreases r.node, 4
  {
    CondInvert(r, Rewrite(r.node, substs, base))
  }

  function RewriteChildren(n: Node, substs: map<Node, Ref>, base: nat): (e: seq<Ref>)
    ensures |e| == |n.children|
    ensures forall i :: 0 <= i < |e| ==> e[i] == RewriteEdge(n.children[i], substs, base)
    decreases n, 1
  {
    seq(|n.children|, i requires 0 <= i < |n.children| => RewriteEdge(n.children[i], substs, base))
  }

  /**
   * A quantifier whose bound variable was replaced by something that is not
   * a parameter is not rebuilt: it becomes its (rewritten) body.
   */
  predicate Collapses(n: Node, e: seq<Ref>)
  {
    IsQuantifier(n) && |n.children| == 2 && |e| == 2 && !IsParam(e[0].node)
  }

  /** How a node that is not a key is rebuilt from its rewritten children e. */
  function Rebuild(n: Node, e: seq<Ref>, base: nat): Ref
  {
    if |n.children| == 0 then
      if IsParam(n) then Plain(FreshParam(n, base)) else Plain(n)
    else if Collapses(n, e) then e[1]
    else Plain(Node(n.kind, n.sort, n.indices, e))
  }

  /** The specification of substitute on a node. */
  function Rewrite(n: Node, substs: map<Node, Ref>, base: nat): Ref
    decreases n, 3
  {
    if n in substs then substs[n]
    else Rebuild(n, RewriteChildren(n, substs, base), base)
  }

  /** The nodes the rewrite visits: it does not descend below a key of substs. */
  function Visited(n: Node, substs: map<Node, Ref>): set<Node>
  {
    {n} + if n in substs then {}
          else (set i, m | 0 <= i < |n.children| && m in Visited(n.children[i].node, substs) :: m)
  }

  /**
   * The visited nodes substitute records in its backref table: every
   * universally bound parameter, and every quantifier that is rebuilt as a
   * quantifier.
   */
  predicate IsBackrefKey(m: Node, substs: map<Node, Ref>, base: nat)
  {
    IsForallParam(m)
    || (m !in substs && IsQuantifier(m) && |m.children| > 0
        && !Collapses(m, RewriteChildren(m, substs, base)))
  }

  function BackrefSpec(n: Node, substs: map<Node, Ref>, base: nat): map<Node, Ref>
  {
    map m | m in Visited(n, substs) && IsBackrefKey(m, substs, base) :: Rewrite(m, substs, base)
  }

  // ---------------------------------------------------------------------
  // Properties of the specification

  /**
   * Quantifiers have the sort of their body, and every value in substs has
   * the sort of its key: then every rewritten node keeps its sort.
   */
  ghost predicate SortsAgree(n: Node, substs: map<Node, Ref>)
  {
    && (forall k :: k in substs ==> substs[k].node.sort == k.sort)
    && (forall m :: m in Reach(n) && IsQuantifier(m) && |m.children| == 2 ==>
          m.sort == m.children[1].node.sort)
  }

  lemma ReachChild(n: Node, i: nat)
    requires i < |n.children|
    ensures Reach(n.children[i].node) <= Reach(n)
  {
  }

  lemma {:induction false} RewriteKeepsSort(n: Node, substs: map<Node, Ref>, base: nat)
    requires SortsAgree(n, substs)
    ensures Rewrite(n, substs, base).node.sort == n.sort
    decreases n
  {
    if n !in substs {
      var e := RewriteChildren(n, substs, base);
      if Collapses(n, e) {
        ReachChild(n, 1);
        RewriteKeepsSort(n.children[1].node, substs, base);
      }
    }
  }

  /**
   * A substitution whose values were created before base rewrites a node
   * created before base into a node whose fresh parameters come from
   * [base, base + base): every node of the result was created before
   * base + base.
   */
  lemma {:induction false} RewriteCreatedBefore(n: Node, substs: map<Node, Ref>, base: nat)
    requires CreatedBefore(n, base)
    requires forall k :: k in substs ==> CreatedBefore(substs[k].node, base)
    ensures CreatedBefore(Rewrite(n, substs, base).node, base + base)
    decreases n
  {
    if n in substs {
      CreatedBeforeMono(substs[n].node, base, base + base);
    } else {
      var e := RewriteChildren(n, substs, base);
      forall i | 0 <= i < |e| ensures CreatedBefore(e[i].node, base + base) {
        RewriteCreatedBefore(n.children[i].node, substs, base);
      }
      if |n.children| == 0 {
        if !IsParam(n) {
          CreatedBeforeMono(n, base, base + base);
        }
      } else if !Collapses(n, e) {
        assert CreatedBefore(Node(n.kind, n.sort, n.indices, e), base + base);
      }
    }
  }

  /** Rewriting a well-formed node with well-formed values gives a well-formed node. */
  lemma {:induction false} RewriteWellFormed(n: Node, substs: map<Node, Ref>, base: nat)
    requires WellFormed(n)
    requires forall k :: k in substs ==> WellFormed(substs[k].node)
    ensures WellFormed(Rewrite(n, substs, base).node)
    decreases n
  {
    if n !in substs {
      var e := RewriteChildren(n, substs, base);
      forall i | 0 <= i < |e| ensures WellFormed(e[i].node) {
        RewriteWellFormed(n.children[i].node, substs, base);
      }
      if |n.children| > 0 && !Collapses(n, e) {
        assert NodeShape(Node(n.kind, n.sort, n.indices, e));
      }
    }
  }

  lemma {:induction false} VisitedInReach(n: Node, m: Node, substs: map<Node, Ref>)
    requires m in Visited(n, substs)
    ensures m in Reach(n)
    decreases n
  {
    if m != n {
      var i :| 0 <= i < |n.children| && m in Visited(n.children[i].node, substs);
      VisitedInReach(n.children[i].node, m, substs);
    }
  }

  /**
   * A quantifier that the rewrite rebuilds as a quantifier becomes a new
   * node: its variable is a parameter no value replaces, so the copy binds
   * a fresh parameter.
   */
  lemma RebuiltQuantifierIsNew(n: Node, m: Node, substs: map<Node, Ref>, base: nat)
    requires WellFormed(n) && m in Visited(n, substs)
    requires forall k :: k in substs ==> !IsParam(substs[k].node)
    requires IsQuantifier(m) && IsBackrefKey(m, substs, base)
    ensures !CreatedBefore(Rewrite(m, substs, base).node, base)
  {
    VisitedInReach(n, m, substs);
    WellFormedReach(n, m);
    var p := m.children[0].node;
    var e := RewriteChildren(m, substs, base);
    assert e[0].node == Rewrite(p, substs, base).node;
    if p in substs {
      assert false;
    }
    assert Rewrite(p, substs, base) == Plain(FreshParam(p, base));
    assert Rewrite(m, substs, base) == Plain(Node(m.kind, m.sort, m.indices, e));
  }

  /**
   * The backref table of substitute, for a well-formed node created before
   * base and values that are no parameters: every key was created before
   * base, every recorded copy is well formed and created before
   * base + base, and the copy of a quantifier is a new node.
   */
  lemma BackrefSpecCreated(n: Node, substs: map<Node, Ref>, base: nat)
    requires CreatedBefore(n, base) && WellFormed(n)
    requires forall k :: k in substs ==>
               CreatedBefore(substs[k].node, base) && WellFormed(substs[k].node) && !IsParam(substs[k].node)
    ensures var b := BackrefSpec(n, substs, base);
            forall m :: m in b ==>
              && CreatedBefore(m, base) && WellFormed(m)
              && CreatedBefore(b[m].node, base + base) && WellFormed(b[m].node)
              && (IsQuantifier(m) ==> !CreatedBefore(b[m].node, base))
  {
    var b := BackrefSpec(n, substs, base);
    forall m | m in b
      ensures CreatedBefore(m, base) && WellFormed(m)
      ensures CreatedBefore(b[m].node, base + base) && WellFormed(b[m].node)
      ensures IsQuantifier(m) ==> !CreatedBefore(b[m].node, base)
    {
      VisitedInReach(n, m, substs);
      CreatedBeforeReach(n, m, base);
      WellFormedReach(n, m);
      RewriteCreatedBefore(m, substs, base);
      RewriteWellFormed(m, substs, base);
      if IsQuantifier(m) {
        RebuiltQuantifierIsNew(n, m, substs, base);
      }
    }
  }

  /** Visited is closed under descending through nodes that are not keys. */
  lemma {:induction false} VisitedTrans(n: Node, x: Node, m: Node, substs: map<Node, Ref>)
    requires x in Visited(n, substs) && m in Visited(x, substs)
    ensures m in Visited(n, substs)
    decreases n
  {
    if x != n {
      assert n !in substs;
      var i :| 0 <= i < |n.children| && x in Visited(n.children[i].node, substs);
      VisitedTrans(n.children[i].node, x, m, substs);
    }
  }

  /** A set that holds n and is closed under descending holds Visited(n). */
  lemma {:induction false} VisitedWithin(n: Node, c: set<Node>, substs: map<Node, Ref>)
    requires n in c
    requires forall m, i :: m in c && m !in substs && 0 <= i < |m.children| ==> m.children[i].node in c
    ensures Visited(n, substs) <= c
    decreases n
  {
    if n !in substs {
      forall i | 0 <= i < |n.children| ensures Visited(n.children[i].node, substs) <= c {
        VisitedWithin(n.children[i].node, c, substs);
      }
    }
  }

  // ---------------------------------------------------------------------
  // The iterative rewrite

  ghost predicate Done(cache: map<Node, Option<Ref>>, m: Node) { m in cache && cache[m].Some? }

  ghost predicate Pending(cache: map<Node, Option<Ref>>, m: Node) { m in cache && cache[m].None? }

  ghost function PendingSet(cache: map<Node, Option<Ref>>): set<Node>
  {
    set m | m in cache && cache[m].None?
  }

  /**
   * The node m was expanded and waits, at index at of the visit stack, for
   * its children: everything above it is lower than m, and each child is
   * either done or still at the place it was pushed to.
   */
  ghost predicate WaitsAt(m: Node, at: nat, visit: seq<Ref>, cache: map<Node, Option<Ref>>)
  {
    && at < |visit|
    && visit[at].node == m
    && (forall j :: at < j < |visit| ==> Height(visit[j].node) < Height(m))
    && (forall c :: 0 <= c < |m.children| ==>
          Done(cache, m.children[c].node)
          || (at + 1 + c < |visit| && visit[at + 1 + c] == m.children[c]))
  }

  /** Everything on the stack and in the cache is a node the rewrite visits. */
  ghost predicate InvShape(n: Ref, substs: map<Node, Ref>, visit: seq<Ref>, cache: map<Node, Option<Ref>>)
  {
    && (n.node in cache || (visit != [] && visit[0] == n))
    && (forall j :: 0 <= j < |visit| ==> visit[j].node in Visited(n.node, substs))
    && cache.Keys <= Visited(n.node, substs)
  }

  /** A finished node holds its rewrite, and so do its children unless it is a key. */
  ghost predicate InvDone(substs: map<Node, Ref>, base: nat, cache: map<Node, Option<Ref>>)
  {
    && (forall m :: Done(cache, m) ==> cache[m].value == Rewrite(m, substs, base))
    && (forall m, c :: Done(cache, m) && m !in substs && 0 <= c < |m.children| ==>
          Done(cache, m.children[c].node))
  }

  ghost predicate InvPending(substs: map<Node, Ref>, visit: seq<Ref>, cache: map<Node, Option<Ref>>,
                             waitsAt: map<Node, nat>)
  {
    forall m :: Pending(cache, m) ==> m !in substs && m in waitsAt && WaitsAt(m, waitsAt[m], visit, cache)
  }

  ghost predicate InvBackref(substs: map<Node, Ref>, base: nat, cache: map<Node, Option<Ref>>,
                             backref: map<Node, Ref>)
  {
    && (forall m :: m in backref <==> Done(cache, m) && IsBackrefKey(m, substs, base))
    && (forall m :: m in backref ==> backref[m] == cache[m].value)
  }

  // Each step of the loop, one invariant at a time.

  lemma ShapeAfterPop(n: Ref, substs: map<Node, Ref>, visit: seq<Ref>, cache: map<Node, Option<Ref>>, v: Ref)
    requires visit != [] && InvShape(n, substs, visit, cache)
    ensures visit[|visit| - 1].node in Visited(n.node, substs)
    ensures InvShape(n, substs, visit[..|visit| - 1], cache[visit[|visit| - 1].node := Some(v)])
  {
  }

  lemma ShapeAfterExpand(n: Ref, substs: map<Node, Ref>, visit: seq<Ref>, cache: map<Node, Option<Ref>>)
    requires visit != [] && InvShape(n, substs, visit, cache)
    requires visit[|visit| - 1].node !in substs
    ensures visit[|visit| - 1].node in Visited(n.node, substs)
    ensures var r := visit[|visit| - 1].node;
            InvShape(n, substs, visit + r.children, cache[r := None])
  {
    var r := visit[|visit| - 1].node;
    assert r in Visited(n.node, substs);
    forall c | 0 <= c < |r.children| ensures r.children[c].node in Visited(n.node, substs) {
      var x := r.children[c].node;
      assert x in Visited(x, substs);
      assert x in Visited(r, substs);
      VisitedTrans(n.node, r, x, substs);
    }
    PushStaysWithin(visit, r.children, Visited(n.node, substs));
  }

  lemma PushStaysWithin(visit: seq<Ref>, pushed: seq<Ref>, s: set<Node>)
    requires forall j :: 0 <= j < |visit| ==> visit[j].node in s
    requires forall c :: 0 <= c < |pushed| ==> pushed[c].node in s
    ensures forall j :: 0 <= j < |visit + pushed| ==> (visit + pushed)[j].node in s
  {
    forall j | 0 <= j < |visit + pushed| ensures (visit + pushed)[j].node in s {
      if j >= |visit| {
        assert (visit + pushed)[j] == pushed[j - |visit|];
      }
    }
  }

  /** Finishing a key, or a node whose children are finished, with its rewrite. */
  lemma DoneAfterSet(substs: map<Node, Ref>, base: nat, cache: map<Node, Option<Ref>>, r: Node, v: Ref)
    requires InvDone(substs, base, cache)
    requires v == Rewrite(r, substs, base)
    requires r in substs || forall c :: 0 <= c < |r.children| ==> Done(cache, r.children[c].node)
    ensures InvDone(substs, base, cache[r := Some(v)])
  {
  }

  lemma DoneAfterExpand(substs: map<Node, Ref>, base: nat, cache: map<Node, Option<Ref>>, r: Node)
    requires InvDone(substs, base, cache) && r !in cache
    ensures InvDone(substs, base, cache[r := None])
  {
  }

  lemma BackrefAfterSet(substs: map<Node, Ref>, base: nat, cache: map<Node, Option<Ref>>,
                        backref: map<Node, Ref>, r: Node, v: Ref, backref': map<Node, Ref>)
    requires InvBackref(substs, base, cache, backref) && !Done(cache, r)
    requires backref' == if IsBackrefKey(r, substs, base) then backref[r := v] else backref
    ensures InvBackref(substs, base, cache[r := Some(v)], backref')
  {
  }

  lemma BackrefAfterExpand(substs: map<Node, Ref>, base: nat, cache: map<Node, Option<Ref>>,
                           backref: map<Node, Ref>, r: Node)
    requires InvBackref(substs, base, cache, backref) && r !in cache
    ensures InvBackref(substs, base, cache[r := None], backref)
  {
  }

  /** Finishing the node on top of the stack and popping it keeps every other pending node waiting. */
  lemma PopKeepsPending(substs: map<Node, Ref>, visit: seq<Ref>, cache: map<Node, Option<Ref>>,
                        waitsAt: map<Node, nat>, v: Ref)
    requires visit != [] && InvPending(substs, visit, cache, waitsAt)
    ensures InvPending(substs, visit[..|visit| - 1], cache[visit[|visit| - 1].node := Some(v)], waitsAt)
  {
    var k := |visit|;
    var top := visit[k - 1].node;
    var visit' := visit[..k - 1];
    var cache' := cache[top := Some(v)];
    forall m | Pending(cache', m) ensures m !in substs && m in waitsAt && WaitsAt(m, waitsAt[m], visit', cache') {
      assert Pending(cache, m);
      var at := waitsAt[m];
      assert at != k - 1;
      forall c | 0 <= c < |m.children|
        ensures Done(cache', m.children[c].node)
                || (at + 1 + c < |visit'| && visit'[at + 1 + c] == m.children[c])
      {
        if !Done(cache, m.children[c].node) {
          assert at + 1 + c < k && visit[at + 1 + c] == m.children[c];
          if at + 1 + c == k - 1 {
            assert m.children[c].node == top;
          }
        }
      }
    }
  }

  /** The node just expanded waits below its children. */
  lemma ExpandedWaits(visit: seq<Ref>, cache: map<Node, Option<Ref>>)
    requires visit != []
    ensures var r := visit[|visit| - 1].node;
            WaitsAt(r, |visit| - 1, visit + r.children, cache)
  {
    var k := |visit|;
    var r := visit[k - 1].node;
    var visit' := visit + r.children;
    forall j | k - 1 < j < |visit'| ensures Height(visit'[j].node) < Height(r) {
      assert visit'[j] == r.children[j - k];
      ChildIsLower(r, j - k);
    }
    forall c | 0 <= c < |r.children| ensures k - 1 + 1 + c < |visit'| && visit'[k - 1 + 1 + c] == r.children[c] {
    }
  }

  /** A node waiting further down keeps waiting when the top of the stack is expanded. */
  lemma OtherWaitsAfterExpand(m: Node, at: nat, visit: seq<Ref>, cache: map<Node, Option<Ref>>)
    requires visit != [] && at < |visit| - 1 && WaitsAt(m, at, visit, cache)
    requires visit[|visit| - 1].node !in cache
    ensures var r := visit[|visit| - 1].node;
            WaitsAt(m, at, visit + r.children, cache[r := None])
  {
    var k := |visit|;
    var r := visit[k - 1].node;
    var visit' := visit + r.children;
    var cache' := cache[r := None];
    assert Height(r) < Height(m);
    forall j | at < j < |visit'| ensures Height(visit'[j].node) < Height(m) {
      if j >= k {
        assert visit'[j] == r.children[j - k];
        ChildIsLower(r, j - k);
      }
    }
    forall c | 0 <= c < |m.children|
      ensures Done(cache', m.children[c].node)
              || (at + 1 + c < |visit'| && visit'[at + 1 + c] == m.children[c])
    {
      if !Done(cache, m.children[c].node) {
        assert at + 1 + c < k && visit[at + 1 + c] == m.children[c];
      }
    }
  }

  lemma ExpandKeepsPending(substs: map<Node, Ref>, visit: seq<Ref>, cache: map<Node, Option<Ref>>,
                           waitsAt: map<Node, nat>)
    requires visit != [] && InvPending(substs, visit, cache, waitsAt)
    requires visit[|visit| - 1].node !in cache && visit[|visit| - 1].node !in substs
    ensures var r := visit[|visit| - 1].node;
            InvPending(substs, visit + r.children, cache[r := None], waitsAt[r := |visit| - 1])
  {
    var k := |visit|;
    var r := visit[k - 1].node;
    var cache' := cache[r := None];
    var waitsAt' := waitsAt[r := k - 1];
    forall m | Pending(cache', m)
      ensures m !in substs && m in waitsAt' && WaitsAt(m, waitsAt'[m], visit + r.children, cache')
    {
      if m == r {
        ExpandedWaits(visit, cache');
      } else {
        assert Pending(cache, m);
        OtherWaitsAfterExpand(m, waitsAt[m], visit, cache);
      }
    }
  }

  /** A pending node on top of the stack has all of its children finished. */
  lemma PendingTopIsReady(substs: map<Node, Ref>, visit: seq<Ref>, cache: map<Node, Option<Ref>>,
                          waitsAt: map<Node, nat>)
    requires visit != [] && InvPending(substs, visit, cache, waitsAt)
    requires Pending(cache, visit[|visit| - 1].node)
    ensures var r := visit[|visit| - 1].node;
            && r !in substs
            && forall c :: 0 <= c < |r.children| ==> Done(cache, r.children[c].node)
  {
    var r := visit[|visit| - 1].node;
    assert !(Height(visit[|visit| - 1].node) < Height(r));
    assert waitsAt[r] == |visit| - 1;
  }

  ghost predicate Inv(n: Ref, substs: map<Node, Ref>, base: nat, visit: seq<Ref>,
                      cache: map<Node, Option<Ref>>, waitsAt: map<Node, nat>, backref: map<Node, Ref>)
  {
    && InvShape(n, substs, visit, cache)
    && InvDone(substs, base, cache)
    && InvPending(substs, visit, cache, waitsAt)
    && InvBackref(substs, base, cache, backref)
  }

  /** When the stack is empty nothing is pending and every visited node is finished. */
  lemma AllFinished(n: Ref, substs: map<Node, Ref>, cache: map<Node, Option<Ref>>, waitsAt: map<Node, nat>)
    requires InvShape(n, substs, [], cache) && InvPending(substs, [], cache, waitsAt)
    requires forall m, c :: Done(cache, m) && m !in substs && 0 <= c < |m.children| ==> Done(cache, m.children[c].node)
    ensures cache.Keys == Visited(n.node, substs)
    ensures forall m :: m in cache ==> Done(cache, m)
  {
    forall m | m in cache ensures Done(cache, m) {
      if Pending(cache, m) {
        assert false;
      }
    }
    VisitedWithin(n.node, cache.Keys, substs);
  }

  /** The recorded keys are exactly the visited backref keys. */
  lemma BackrefKeysComplete(n: Node, substs: map<Node, Ref>, base: nat, cache: map<Node, Option<Ref>>,
                            backref: map<Node, Ref>)
    requires cache.Keys == Visited(n, substs) && forall m :: m in cache ==> Done(cache, m)
    requires InvBackref(substs, base, cache, backref)
    ensures backref.Keys == BackrefSpec(n, substs, base).Keys
  {
    var spec := BackrefSpec(n, substs, base);
    forall m ensures m in backref <==> m in spec {
      assert m in spec <==> m in Visited(n, substs) && IsBackrefKey(m, substs, base);
    }
  }

  lemma BackrefComplete(n: Node, substs: map<Node, Ref>, base: nat, cache: map<Node, Option<Ref>>,
                        backref: map<Node, Ref>)
    requires cache.Keys == Visited(n, substs) && forall m :: m in cache ==> Done(cache, m)
    requires forall m :: Done(cache, m) ==> cache[m].value == Rewrite(m, substs, base)
    requires InvBackref(substs, base, cache, backref)
    ensures backref == BackrefSpec(n, substs, base)
  {
    var spec := BackrefSpec(n, substs, base);
    BackrefKeysComplete(n, substs, base, cache, backref);
    forall m | m in backref ensures backref[m] == spec[m] {
    }
  }

  /** The root then holds the result, and the backref table is complete. */
  lemma LoopExit(n: Ref, substs: map<Node, Ref>, base: nat, cache: map<Node, Option<Ref>>,
                 waitsAt: map<Node, nat>, backref: map<Node, Ref>)
    requires Inv(n, substs, base, [], cache, waitsAt, backref)
    ensures Done(cache, n.node) && cache[n.node].value == Rewrite(n.node, substs, base)
    ensures backref == BackrefSpec(n.node, substs, base)
  {
    AllFinished(n, substs, cache, waitsAt);
    BackrefComplete(n.node, substs, base, cache, backref);
  }

  /**
   * Rebuilds an expanded node from its finished children, and records it in
   * the backref table when it is a universally bound parameter or stays a
   * quantifier.
   */
  method RebuildNode(realCur: Node, cache: map<Node, Option<Ref>>, backref: map<Node, Ref>,
                     keys: seq<Node>, substs: map<Node, Ref>, base: nat)
    returns (res: Ref, backref': map<Node, Ref>, keys': seq<Node>)
    requires realCur !in substs
    requires forall c :: 0 <= c < |realCur.children| ==>
               Done(cache, realCur.children[c].node)
               && cache[realCur.children[c].node].value == Rewrite(realCur.children[c].node, substs, base)
    ensures res == Rewrite(realCur, substs, base)
    ensures backref' == if IsBackrefKey(realCur, substs, base) then backref[realCur := res] else backref
    ensures keys' == if IsBackrefKey(realCur, substs, base) then keys + [realCur] else keys
  {
    var e: seq<Ref> := [];
    for i := 0 to |realCur.children|
      invariant |e| == i
      invariant forall j :: 0 <= j < i ==> e[j] == RewriteEdge(realCur.children[j], substs, base)
    {
      var c := realCur.children[i];
      e := e + [CondInvert(c, cache[c.node].value)];
    }
    assert e == RewriteChildren(realCur, substs, base);
    backref', keys' := backref, keys;
    if |realCur.children| == 0 {
      if IsParam(realCur) {
        res := Plain(FreshParam(realCur, base));
      } else {
        res := Plain(realCur);
      }
    } else if IsQuantifier(realCur) && |realCur.children| == 2 && !IsParam(e[0].node) {
      // the bound variable was substituted by a non-parameter: keep the body
      res := e[1];
    } else {
      res := Plain(Node(realCur.kind, realCur.sort, realCur.indices, e));
      if IsQuantifier(realCur) {
        backref', keys' := backref[realCur := res], keys + [realCur];
      }
    }
    if IsForallParam(realCur) {
      backref', keys' := backref[realCur := res], keys + [realCur];
    }
  }

  /** The measure of the loop: nodes not yet seen, then pending nodes, then the stack. */
  ghost predicate Progress(n: Ref, substs: map<Node, Ref>, visit: seq<Ref>, cache: map<Node, Option<Ref>>,
                           visit': seq<Ref>, cache': map<Node, Option<Ref>>)
  {
    var left := Visited(n.node, substs) - cache.Keys;
    var left' := Visited(n.node, substs) - cache'.Keys;
    left' < left
    || (left' == left && PendingSet(cache') < PendingSet(cache))
    || (left' == left && PendingSet(cache') == PendingSet(cache) && |visit'| < |visit|)
  }

  /** A key of substs on top of the stack is finished with its substitute. */
  lemma StepSubst(n: Ref, substs: map<Node, Ref>, base: nat, visit: seq<Ref>,
                  cache: map<Node, Option<Ref>>, waitsAt: map<Node, nat>, backref: map<Node, Ref>,
                  backref': map<Node, Ref>)
    requires visit != [] && Inv(n, substs, base, visit, cache, waitsAt, backref)
    requires visit[|visit| - 1].node !in cache && visit[|visit| - 1].node in substs
    requires var r := visit[|visit| - 1].node;
             backref' == if IsForallParam(r) then backref[r := substs[r]] else backref
    ensures var r := visit[|visit| - 1].node;
            var cache' := cache[r := Some(substs[r])];
            && Inv(n, substs, base, visit[..|visit| - 1], cache', waitsAt, backref')
            && Progress(n, substs, visit, cache, visit[..|visit| - 1], cache')
  {
    var r := visit[|visit| - 1].node;
    var v := substs[r];
    ShapeAfterPop(n, substs, visit, cache, v);
    DoneAfterSet(substs, base, cache, r, v);
    PopKeepsPending(substs, visit, cache, waitsAt, v);
    BackrefAfterSet(substs, base, cache, backref, r, v, backref');
    SeeingShrinksLeft(Visited(n.node, substs), cache, r, Some(v));
  }

  /** A new node that is not a key is expanded: it stays, pending, below its children. */
  lemma StepExpand(n: Ref, substs: map<Node, Ref>, base: nat, visit: seq<Ref>,
                   cache: map<Node, Option<Ref>>, waitsAt: map<Node, nat>, backref: map<Node, Ref>)
    requires visit != [] && Inv(n, substs, base, visit, cache, waitsAt, backref)
    requires visit[|visit| - 1].node !in cache && visit[|visit| - 1].node !in substs
    ensures var r := visit[|visit| - 1].node;
            var cache' := cache[r := None];
            && Inv(n, substs, base, visit + r.children, cache', waitsAt[r := |visit| - 1], backref)
            && Progress(n, substs, visit, cache, visit + r.children, cache')
  {
    var r := visit[|visit| - 1].node;
    ShapeAfterExpand(n, substs, visit, cache);
    DoneAfterExpand(substs, base, cache, r);
    ExpandKeepsPending(substs, visit, cache, waitsAt);
    BackrefAfterExpand(substs, base, cache, backref, r);
    SeeingShrinksLeft(Visited(n.node, substs), cache, r, None);
  }

  lemma SeeingShrinksLeft(v: set<Node>, cache: map<Node, Option<Ref>>, r: Node, x: Option<Ref>)
    requires r in v && r !in cache
    ensures v - cache[r := x].Keys < v - cache.Keys
  {
    assert r in v - cache.Keys;
  }

  /** A pending node on top of the stack is finished with its rebuilt node. */
  lemma StepFinish(n: Ref, substs: map<Node, Ref>, base: nat, visit: seq<Ref>,
                   cache: map<Node, Option<Ref>>, waitsAt: map<Node, nat>, backref: map<Node, Ref>,
                   res: Ref, backref': map<Node, Ref>)
    requires visit != [] && Inv(n, substs, base, visit, cache, waitsAt, backref)
    requires Pending(cache, visit[|visit| - 1].node)
    requires var r := visit[|visit| - 1].node;
             && res == Rewrite(r, substs, base)
             && backref' == if IsBackrefKey(r, substs, base) then backref[r := res] else backref
    ensures var r := visit[|visit| - 1].node;
            var cache' := cache[r := Some(res)];
            && Inv(n, substs, base, visit[..|visit| - 1], cache', waitsAt, backref')
            && Progress(n, substs, visit, cache, visit[..|visit| - 1], cache')
  {
    var r := visit[|visit| - 1].node;
    PendingTopIsReady(substs, visit, cache, waitsAt);
    ShapeAfterPop(n, substs, visit, cache, res);
    DoneAfterSet(substs, base, cache, r, res);
    PopKeepsPending(substs, visit, cache, waitsAt, res);
    BackrefAfterSet(substs, base, cache, backref, r, res, backref');
    assert r in PendingSet(cache) && r !in PendingSet(cache[r := Some(res)]);
  }

  /** A finished node on top of the stack is popped. */
  lemma StepSkip(n: Ref, substs: map<Node, Ref>, base: nat, visit: seq<Ref>,
                 cache: map<Node, Option<Ref>>, waitsAt: map<Node, nat>, backref: map<Node, Ref>)
    requires visit != [] && Inv(n, substs, base, visit, cache, waitsAt, backref)
    requires Done(cache, visit[|visit| - 1].node)
    ensures Inv(n, substs, base, visit[..|visit| - 1], cache, waitsAt, backref)
    ensures Progress(n, substs, visit, cache, visit[..|visit| - 1], cache)
  {
    var top := visit[|visit| - 1].node;
    ShapeAfterPop(n, substs, visit, cache, cache[top].value);
    PopKeepsPending(substs, visit, cache, waitsAt, cache[top].value);
    assert cache[top := Some(cache[top].value)] == cache;
  }

  /**
   * The rewrite of n (substitute): keys of substs are replaced by their
   * values, every other node reachable below n is rebuilt once from its
   * rewritten children, and the backref table maps every universally
   * bound parameter and every quantifier that stays a quantifier to its
   * rewrite.
   */
  method Substitute(n: Ref, substs: map<Node, Ref>, base: nat)
    returns (result: Ref, backref: map<Node, Ref>, keys: seq<Node>)
    ensures result == CondInvert(n, Rewrite(n.node, substs, base))
    ensures backref == BackrefSpec(n.node, substs, base)
    ensures NoDups(keys) && forall m :: m in keys <==> m in backref
  {
    var cache: map<Node, Option<Ref>> := map[];
    var visit: seq<Ref> := [n];
    ghost var waitsAt: map<Node, nat> := map[];
    backref, keys := map[], [];

    while visit != []
      invariant Inv(n, substs, base, visit, cache, waitsAt, backref)
      invariant NoDups(keys) && forall m :: m in keys <==> m in backref
      decreases Visited(n.node, substs) - cache.Keys, PendingSet(cache), |visit|
    {
      var cur := visit[|visit| - 1];
      var realCur := cur.node;
      ghost var visit0, cache0 := visit, cache;
      if realCur !in cache {
        if realCur in substs {
          var subst := substs[realCur];
          var backref' := backref;
          // keep track of instantiated variables
          if IsForallParam(realCur) {
            assert realCur !in backref;
            backref', keys := backref[realCur := subst], keys + [realCur];
          }
          StepSubst(n, substs, base, visit, cache, waitsAt, backref, backref');
          cache := cache[realCur := Some(subst)];
          backref := backref';
          visit := visit[..|visit| - 1];
        } else {
          StepExpand(n, substs, base, visit, cache, waitsAt, backref);
          cache := cache[realCur := None];
          waitsAt := waitsAt[realCur := |visit| - 1];
          visit := visit + realCur.children;
        }
      } else if cache[realCur].None? {
        PendingTopIsReady(substs, visit, cache, waitsAt);
        assert realCur !in backref;
        var res, backref', keys' := RebuildNode(realCur, cache, backref, keys, substs, base);
        keys := keys';
        StepFinish(n, substs, base, visit, cache, waitsAt, backref, res, backref');
        cache := cache[realCur := Some(res)];
        backref := backref';
        visit := visit[..|visit| - 1];
      } else {
        StepSkip(n, substs, base, visit, cache, waitsAt, backref);
        visit := visit[..|visit| - 1];
      }
      assert Progress(n, substs, visit0, cache0, visit, cache);
    }
    LoopExit(n, substs, base, cache, waitsAt, backref);
    result := CondInvert(n, cache[n.node].value);
  }
}
