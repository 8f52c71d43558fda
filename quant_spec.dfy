/**
 * Pure definitions the quantifier solver state is specified by: the SAT
 * engine seen as an oracle, backref chains, binder chains, free parameters,
 * the top-level quantifiers of a formula and the lemma-cache filter.
 */
module QuantSpec {
  import opened Terms
  import opened Substitution

  /** Results of a satisfiability check (BzlaSolverResult). */
  datatype SolverResult = Sat | Unsat | Unknown

  /**
   * The ground solver of the cloned instance, as an oracle.  Every query
   * names the asserted constraints and the assumptions of the check it is
   * about: the result of the check, whether an assumption failed, and the
   * bits the model assigns to a node.
   */
  datatype Engine = Engine(
    sat: (seq<Ref>, seq<Ref>) -> SolverResult,
    failed: (seq<Ref>, seq<Ref>, Ref) -> bool,
    assignment: (seq<Ref>, seq<Ref>, Node) -> nat)

  // ---------------------------------------------------------------------
  // Backref chains (find_backref, add_backref)

  /** Follows at most fuel backref edges from q. */
  function FollowBackrefs(b: map<Node, Node>, q: Node, fuel: nat): Node
    decreases fuel
  {
    if q in b && fuel > 0 then FollowBackrefs(b, b[q], fuel - 1) else q
  }

  /**
   * The original quantifier q is an instance of.  The table is finite, so
   * on an acyclic table |b| steps always reach a node that is not a key.
   */
  function FindBackref(b: map<Node, Node>, q: Node): Node
  {
    FollowBackrefs(b, q, |b|)
  }

  /** The chain from q leaves the table within n steps. */
  predicate EndsWithin(b: map<Node, Node>, q: Node, n: nat)
    decreases n
  {
    q !in b || (n > 0 && EndsWithin(b, b[q], n - 1))
  }

  predicate Acyclic(b: map<Node, Node>)
  {
    forall q :: q in b ==> EndsWithin(b, q, |b|)
  }

  lemma {:induction false} FollowEnds(b: map<Node, Node>, q: Node, n: nat, m: nat)
    requires EndsWithin(b, q, n) && n <= m
    ensures FollowBackrefs(b, q, m) == FollowBackrefs(b, q, n)
    ensures FollowBackrefs(b, q, n) !in b
    decreases n
  {
    if q in b {
      FollowEnds(b, b[q], n - 1, m - 1);
    }
  }

  /** On an acyclic table find_backref ends at a node that is no instance. */
  lemma FindBackrefIsRoot(b: map<Node, Node>, q: Node)
    requires Acyclic(b)
    ensures FindBackref(b, q) !in b
  {
    if q in b {
      FollowEnds(b, q, |b|, |b|);
    }
  }

  lemma {:induction false} ExtendEnds(b: map<Node, Node>, qfrom: Node, r: Node, q: Node, n: nat)
    requires qfrom !in b && r !in b && r != qfrom && EndsWithin(b, q, n)
    ensures EndsWithin(b[qfrom := r], q, n + 1)
    ensures var z := FollowBackrefs(b, q, n);
            FollowBackrefs(b[qfrom := r], q, n + 1) == if z == qfrom then r else z
    decreases n
  {
    if q in b {
      ExtendEnds(b, qfrom, r, b[q], n - 1);
    }
  }

  /**
   * add_backref on a new instance keeps the table acyclic, maps the new
   * instance to the original of qto, and moves nothing else, except the
   * chains that ended in qfrom, which now continue to that original.
   */
  lemma AddBackrefKeepsAcyclic(b: map<Node, Node>, qfrom: Node, qto: Node)
    requires Acyclic(b) && qfrom !in b && FindBackref(b, qto) != qfrom
    ensures var r := FindBackref(b, qto);
            var b' := b[qfrom := r];
            && Acyclic(b')
            && FindBackref(b', qfrom) == r
            && forall q :: FindBackref(b', q) == if FindBackref(b, q) == qfrom then r else FindBackref(b, q)
  {
    var r := FindBackref(b, qto);
    var b' := b[qfrom := r];
    FindBackrefIsRoot(b, qto);
    assert |b'| == |b| + 1;
    forall q ensures EndsWithin(b', q, |b'|)
      && FindBackref(b', q) == if FindBackref(b, q) == qfrom then r else FindBackref(b, q)
    {
      var n := if q in b then |b| else 0;
      FollowEnds(b, q, n, |b|);
      ExtendEnds(b, qfrom, r, q, n);
      FollowEnds(b', q, n + 1, |b'|);
    }
  }

  /** find_backref ends where it started or at a value of the table. */
  lemma {:induction false} FollowIsKeyOrValue(b: map<Node, Node>, q: Node, fuel: nat)
    ensures var r := FollowBackrefs(b, q, fuel);
            r == q || exists k :: k in b && b[k] == r
    decreases fuel
  {
    if q in b && fuel > 0 {
      FollowIsKeyOrValue(b, b[q], fuel - 1);
    }
  }

  /** Every entry of a is kept in b. */
  ghost predicate Extends<K, V>(a: map<K, V>, b: map<K, V>)
  {
    forall k :: k in a ==> k in b && b[k] == a[k]
  }

  lemma {:induction false} FollowUnmoved(b: map<Node, Node>, b': map<Node, Node>, q: Node, n: nat, base: nat)
    requires Extends(b, b')
    requires forall x :: x in b ==> CreatedBefore(b[x], base)
    requires forall x :: x in b' && x !in b ==> !CreatedBefore(x, base)
    requires CreatedBefore(q, base) && EndsWithin(b, q, n)
    ensures EndsWithin(b', q, n) && FollowBackrefs(b', q, n) == FollowBackrefs(b, q, n)
    decreases n
  {
    if q in b {
      FollowUnmoved(b, b', b[q], n - 1, base);
    }
  }

  /**
   * Entries for new nodes do not move the original of an old node: when
   * every value of an acyclic table was created before base and every key
   * added to it was not, find_backref gives the same answer on both tables
   * for a node created before base.
   */
  lemma FindBackrefUnmoved(b: map<Node, Node>, b': map<Node, Node>, q: Node, base: nat)
    requires Acyclic(b) && Extends(b, b') && |b| <= |b'|
    requires forall x :: x in b ==> CreatedBefore(b[x], base)
    requires forall x :: x in b' && x !in b ==> !CreatedBefore(x, base)
    requires CreatedBefore(q, base)
    ensures FindBackref(b', q) == FindBackref(b, q)
  {
    var n := if q in b then |b| else 0;
    FollowEnds(b, q, n, |b|);
    FollowUnmoved(b, b', q, n, base);
    FollowEnds(b', q, n, |b'|);
  }

  // ---------------------------------------------------------------------
  // Binders

  /**
   * The binders iterated from q (bzla_iter_binder): q, then its body as
   * long as the body is a binder that is not negated.
   */
  function BinderChain(q: Node): (c: seq<Node>)
    ensures forall i :: 0 <= i < |c| ==> IsBinder(c[i]) && |c[i].children| == 2
    ensures IsBinder(q) && |q.children| == 2 <==> c != []
    ensures c != [] ==> c[0] == q
    decreases q
  {
    if IsBinder(q) && |q.children| == 2 then
      [q] + if q.children[1].neg then [] else BinderChain(q.children[1].node)
    else []
  }

  /** The substitution mapping the variable of the i-th binder to vals[i]; later binders win. */
  function BinderSubst(chain: seq<Node>, vals: seq<Ref>): (s: map<Node, Ref>)
    requires |vals| == |chain| && forall i :: 0 <= i < |chain| ==> |chain[i].children| > 0
    ensures s.Keys == set i | 0 <= i < |chain| :: chain[i].children[0].node
    ensures forall k :: k in s ==> s[k] in vals
    decreases |chain|
  {
    if chain == [] then map[]
    else
      var k := |chain| - 1;
      BinderSubst(chain[..k], vals[..k])[chain[k].children[0].node := vals[k]]
  }

  /**
   * Instantiating a quantifier whose variable is replaced by something
   * that is not a parameter yields its rewritten body.
   */
  lemma InstanceIsBody(q: Node, s: map<Node, Ref>, base: nat)
    requires IsQuantifier(q) && |q.children| == 2 && q !in s
    requires q.children[0].node in s && !IsParam(s[q.children[0].node].node)
    ensures Rewrite(q, s, base) == RewriteEdge(q.children[1], s, base)
  {
    var e := RewriteChildren(q, s, base);
    assert Rewrite(q.children[0].node, s, base) == s[q.children[0].node];
    assert e[0] == RewriteEdge(q.children[0], s, base);
  }

  // ---------------------------------------------------------------------
  // Free parameters

  /** The parameters occurring in n that no binder inside n binds. */
  function FreeParams(n: Node): set<Node>
    decreases n
  {
    if IsParam(n) then {n}
    else
      var below := set i, p | 0 <= i < |n.children| && p in FreeParams(n.children[i].node) :: p;
      if IsBinder(n) && |n.children| > 0 then below - {n.children[0].node} else below
  }

  /** The node has a free parameter (the parameterized flag of a node). */
  predicate Parameterized(n: Node)
  {
    FreeParams(n) != {}
  }

  // ---------------------------------------------------------------------
  // Top-level quantifiers of the constraints

  /** The nodes reachable from n without passing through a quantifier (a quantifier itself is included). */
  function Region(n: Node): set<Node>
    decreases n
  {
    {n} + if IsQuantifier(n) then {} else set i, m | 0 <= i < |n.children| && m in Region(n.children[i].node) :: m
  }

  function RegionOf(roots: seq<Ref>): set<Node>
  {
    set i, m | 0 <= i < |roots| && m in Region(roots[i].node) :: m
  }

  /** The quantifiers at the top of the constraints: nested quantifiers are not among them. */
  function TopsOf(roots: seq<Ref>): set<Node>
  {
    set m | m in RegionOf(roots) && IsQuantifier(m)
  }

  lemma {:induction false} RegionInReach(n: Node, m: Node)
    requires m in Region(n)
    ensures m in Reach(n)
    decreases n
  {
    if m != n {
      var i :| 0 <= i < |n.children| && m in Region(n.children[i].node);
      RegionInReach(n.children[i].node, m);
    }
  }

  /** A top-level quantifier of the roots is built when the roots are. */
  lemma TopsBuilt(roots: seq<Ref>, q: Node, b: nat)
    requires RefsBuilt(roots, b) && q in TopsOf(roots)
    ensures Built(q, b)
  {
    var i :| 0 <= i < |roots| && q in Region(roots[i].node);
    RegionInReach(roots[i].node, q);
    BuiltReach(roots[i].node, q, b);
  }

  /** The node is a quantifier or has one below it (the quantifier_below flag). */
  predicate QuantifierBelow(n: Node)
    decreases n
  {
    IsQuantifier(n) || exists i :: 0 <= i < |n.children| && QuantifierBelow(n.children[i].node)
  }

  /** Without a quantifier below, a region holds no quantifier, so the search may skip it. */
  lemma {:induction false} RegionNeedsQuantifierBelow(n: Node, m: Node)
    requires !QuantifierBelow(n) && m in Region(n)
    ensures !IsQuantifier(m)
    decreases n
  {
    if m != n {
      var i :| 0 <= i < |n.children| && m in Region(n.children[i].node);
      RegionNeedsQuantifierBelow(n.children[i].node, m);
    }
  }

  /** A region is closed under the children of its nodes that are not quantifiers. */
  lemma {:induction false} RegionStep(n: Node, m: Node, i: nat)
    requires m in Region(n) && !IsQuantifier(m) && i < |m.children|
    ensures m.children[i].node in Region(n)
    decreases n
  {
    var c := m.children[i].node;
    assert c in Region(c);
    if m != n {
      var j :| 0 <= j < |n.children| && m in Region(n.children[j].node);
      RegionStep(n.children[j].node, m, i);
    }
  }

  // ---------------------------------------------------------------------
  // The lemma cache

  /**
   * The lemmas of pending that add_pending_lemmas asserts, in order: each
   * one that is neither cached nor asserted earlier in the same pass.
   */
  function NewLemmas(pending: seq<Ref>, cache: set<Ref>): seq<Ref>
    decreases |pending|
  {
    if pending == [] then []
    else
      var k := |pending| - 1;
      var prev := NewLemmas(pending[..k], cache);
      if pending[k] in cache || pending[k] in prev then prev else prev + [pending[k]]
  }

  /** Exactly the uncached pending lemmas are asserted, each once. */
  lemma {:induction false} NewLemmasAreTheUncached(pending: seq<Ref>, cache: set<Ref>)
    ensures var r := NewLemmas(pending, cache);
            && NoDups(r)
            && (forall l :: l in r <==> l in pending && l !in cache)
    decreases |pending|
  {
    if pending != [] {
      var k := |pending| - 1;
      NewLemmasAreTheUncached(pending[..k], cache);
      assert pending == pending[..k] + [pending[k]];
    }
  }

  /** One more pending lemma is asserted exactly when it is neither cached nor pending before. */
  lemma NewLemmasSnoc(pending: seq<Ref>, lem: Ref, cache: set<Ref>)
    ensures NewLemmas(pending + [lem], cache)
            == NewLemmas(pending, cache) + if lem in cache || lem in pending then [] else [lem]
  {
    assert (pending + [lem])[..|pending|] == pending;
    NewLemmasAreTheUncached(pending, cache);
  }

  /** Lemmas already in the cache never reach the solver again. */
  lemma NewLemmasOfCached(pending: seq<Ref>, cache: set<Ref>)
    requires forall l :: l in pending ==> l in cache
    ensures NewLemmas(pending, cache) == []
  {
    NewLemmasAreTheUncached(pending, cache);
  }

  // ---------------------------------------------------------------------
  // The quantifiers check_active_quantifiers checks for counterexamples

  /** The active quantifiers with a true phase that are not inactive, in order. */
  function ToCheck(order: seq<Node>, phase: map<Node, bool>, inactive: set<Node>): (c: seq<Node>)
    ensures forall q :: q in c <==> q in order && q in phase && phase[q] && q !in inactive
    ensures NoDups(order) ==> NoDups(c)
    decreases |order|
  {
    if order == [] then []
    else
      var k := |order| - 1;
      var q := order[k];
      var prev := ToCheck(order[..k], phase, inactive);
      assert forall x :: x in order <==> x in order[..k] || x == q;
      if q in phase && phase[q] && q !in inactive then prev + [q] else prev
  }

  /** The prefix of s up to i + 1 is the prefix up to i followed by s[i]. */
  lemma PrefixStep<T>(s: seq<T>, i: int)
    requires 0 <= i < |s|
    ensures s[..i + 1] == s[..i] + [s[i]]
  {
  }

  /** Extending the order by one quantifier extends the list to check by at most that one. */
  lemma ToCheckSnoc(order: seq<Node>, q: Node, phase: map<Node, bool>, inactive: set<Node>)
    ensures ToCheck(order + [q], phase, inactive)
            == ToCheck(order, phase, inactive) + if q in phase && phase[q] && q !in inactive then [q] else []
  {
    assert (order + [q])[..|order|] == order;
  }

  // ---------------------------------------------------------------------
  // The ground check (check_ground_formulas)

  /**
   * The assumptions of xs, in order, that the check of cs under all of
   * `all` does not report as failed.
   */
  function Unfailed(engine: Engine, cs: seq<Ref>, all: seq<Ref>, xs: seq<Ref>): (kept: seq<Ref>)
    ensures |kept| <= |xs|
    ensures forall l :: l in kept <==> l in xs && !engine.failed(cs, all, l)
    ensures NoDups(xs) ==> NoDups(kept)
    decreases |xs|
  {
    if xs == [] then []
    else
      var k := |xs| - 1;
      var prev := Unfailed(engine, cs, all, xs[..k]);
      assert forall x :: x in xs <==> x in xs[..k] || x == xs[k];
      if engine.failed(cs, all, xs[k]) then prev else prev + [xs[k]]
  }

  /** Nothing is dropped exactly when no assumption failed. */
  lemma {:induction false} UnfailedKeepsAll(engine: Engine, cs: seq<Ref>, all: seq<Ref>, xs: seq<Ref>)
    ensures |Unfailed(engine, cs, all, xs)| == |xs| <==> forall l :: l in xs ==> !engine.failed(cs, all, l)
    decreases |xs|
  {
    if xs != [] {
      var k := |xs| - 1;
      UnfailedKeepsAll(engine, cs, all, xs[..k]);
      assert xs == xs[..k] + [xs[k]];
      assert forall x :: x in xs <==> x in xs[..k] || x == xs[k];
    }
  }

  /**
   * The rounds of the ground check from the assumptions xs: check; on SAT
   * stop; otherwise drop every failed assumption and check again, unless
   * none failed.  Gives the last result and the assumptions it was
   * reached under.  Each further round has strictly fewer assumptions.
   */
  function GroundCheck(engine: Engine, cs: seq<Ref>, xs: seq<Ref>): (SolverResult, seq<Ref>)
    decreases |xs|
  {
    var res := engine.sat(cs, xs);
    if res == Sat then (Sat, xs)
    else
      var kept := Unfailed(engine, cs, xs, xs);
      UnfailedKeepsAll(engine, cs, xs, xs);
      if |kept| == |xs| then (res, xs) else GroundCheck(engine, cs, kept)
  }

  /**
   * The ground check ends with the result of the check under its final
   * assumptions, which are some of the initial ones; when that result is
   * not SAT, none of them failed.
   */
  lemma {:induction false} GroundCheckEnds(engine: Engine, cs: seq<Ref>, xs: seq<Ref>)
    ensures var (res, final) := GroundCheck(engine, cs, xs);
            && res == engine.sat(cs, final)
            && |final| <= |xs|
            && (forall l :: l in final ==> l in xs)
            && (NoDups(xs) ==> NoDups(final))
            && (res != Sat ==> forall l :: l in final ==> !engine.failed(cs, final, l))
    decreases |xs|
  {
    if engine.sat(cs, xs) != Sat {
      var kept := Unfailed(engine, cs, xs, xs);
      UnfailedKeepsAll(engine, cs, xs, xs);
      if |kept| != |xs| {
        GroundCheckEnds(engine, cs, kept);
      }
    }
  }

  /** Without assumptions the ground check is the plain check of the constraints. */
  lemma GroundCheckWithoutAssumptions(engine: Engine, cs: seq<Ref>)
    ensures GroundCheck(engine, cs, []) == (engine.sat(cs, []), [])
  {
    assert Unfailed(engine, cs, [], []) == [];
  }
}
