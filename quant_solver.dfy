/**
 * The state of the quantifier solver (QuantSolverState in
 * src/bzlaslvquantn.c) and the operations of its counterexample-guided
 * refinement loop.  The solver works on a clone of the user's instance: the
 * clone's asserted formulas are the constant formula plus the lemmas the
 * solver asserts, and its ground solver is the oracle engine.
 *
 * Both the clone and the solver state are objects whose tables the
 * operations update in place; each method names the fields it may change
 * and states their new values.
 */
module QuantSolver {
  import opened Terms
  import opened Substitution
  import opened QuantSpec
  import opened QuantTraversal

  /** The model value of n after the check named by constraints and assumptions (get_value). */
  function ModelValue(engine: Engine, constraints: seq<Ref>, assumptions: seq<Ref>, n: Node): (v: Ref)
    ensures !IsParam(v.node) && v.node.sort == n.sort && forall b :: Built(v.node, b)
  {
    MkBvConst(n.sort, engine.assignment(constraints, assumptions, n))
  }

  /** A fresh Boolean constant, as get_ce_literal creates them. */
  predicate IsBoolVar(r: Ref)
  {
    !r.neg && r.node.kind.Var? && r.node == FreshVar(r.node.kind.serial, BoolSort)
  }

  /** The dependencies of an instance: those of its original, each substituted variable replaced. */
  function MapDeps(ds: seq<Ref>, substs: map<Node, Ref>): (r: seq<Ref>)
  {
    seq(|ds|, i requires 0 <= i < |ds| => if !ds[i].neg && ds[i].node in substs then substs[ds[i].node] else ds[i])
  }

  lemma MapDepsBuilt(ds: seq<Ref>, substs: map<Node, Ref>, b: nat)
    requires RefsBuilt(ds, b) && forall k :: k in substs ==> Built(substs[k].node, b)
    ensures RefsBuilt(MapDeps(ds, substs), b)
  {
  }

  // ---------------------------------------------------------------------
  // Recording the instances of a substitution

  /** The backref table is acyclic and relates nodes built before b. */
  ghost predicate BackrefTableBuilt(t: map<Node, Node>, b: nat)
  {
    Acyclic(t) && forall q :: q in t ==> Built(q, b) && Built(t[q], b)
  }

  /** Every quantifier with dependencies, and each of its dependencies, was built before b. */
  ghost predicate DepsTableBuilt(d: map<Node, seq<Ref>>, b: nat)
  {
    forall q :: q in d ==> Built(q, b) && RefsBuilt(d[q], b)
  }

  lemma TablesGrow(t: map<Node, Node>, d: map<Node, seq<Ref>>, b: nat, b': nat)
    requires BackrefTableBuilt(t, b) && DepsTableBuilt(d, b) && b <= b'
    ensures BackrefTableBuilt(t, b') && DepsTableBuilt(d, b')
  {
    forall q | q in d ensures Built(q, b') && RefsBuilt(d[q], b') {
      BuiltMono(q, b, b');
      RefsBuiltMono(d[q], b, b');
    }
    forall q | q in t ensures Built(q, b') && Built(t[q], b') {
      BuiltMono(q, b, b');
      BuiltMono(t[q], b, b');
    }
  }

  /**
   * The backref table of a substitution from serial base: its keys were
   * built before base, every copy was built before top, and the copy of a
   * quantifier is a new node, created from base on.
   */
  ghost predicate CopiesBuilt(backref: map<Node, Ref>, base: nat, top: nat)
  {
    forall k :: k in backref ==>
      && Built(k, base) && Built(backref[k].node, top)
      && (IsQuantifier(k) ==> !CreatedBefore(backref[k].node, base))
  }

  /** The table of substitute, from serial base, is one whose copies were built before base + base. */
  lemma BackrefSpecBuilt(q: Node, substs: map<Node, Ref>, base: nat, top: nat)
    requires Built(q, base) && top == base + base
    requires forall k :: k in substs ==> Built(substs[k].node, base) && !IsParam(substs[k].node)
    ensures CopiesBuilt(BackrefSpec(q, substs, base), base, top)
  {
    BackrefSpecCopies(q, substs, base);
    CopiesBuiltAt(BackrefSpec(q, substs, base), base, base + base, top);
  }

  lemma BackrefSpecCopies(q: Node, substs: map<Node, Ref>, base: nat)
    requires Built(q, base)
    requires forall k :: k in substs ==> Built(substs[k].node, base) && !IsParam(substs[k].node)
    ensures CopiesBuilt(BackrefSpec(q, substs, base), base, base + base)
  {
    BackrefSpecCreated(q, substs, base);
  }

  lemma CopiesBuiltAt(backref: map<Node, Ref>, base: nat, b: nat, top: nat)
    requires CopiesBuilt(backref, base, b) && top == b
    ensures CopiesBuilt(backref, base, top)
  {
  }

  /**
   * x, which the tables b0 and d0 did not hold, is recorded in t and d as
   * the copy of the quantifier k of backref: an instance of the original
   * of k, with the dependencies of k, each substituted variable replaced.
   */
  ghost predicate RecordedCopy(x: Node, k: Node, backref: map<Node, Ref>, b0: map<Node, Node>,
                               d0: map<Node, seq<Ref>>, t: map<Node, Node>, d: map<Node, seq<Ref>>)
  {
    && k in backref && IsQuantifier(k) && backref[k].node == x
    && x in t && t[x] == FindBackref(b0, k)
    && x in d && d[x] == MapDeps(if k in d0 then d0[k] else [], backref)
  }

  /**
   * The tables t and d extend b0 and d0 by recorded copies only, each a
   * node created from base on, and stay acyclic and built before top.
   */
  ghost predicate RecordInv(b0: map<Node, Node>, d0: map<Node, seq<Ref>>, t: map<Node, Node>,
                            d: map<Node, seq<Ref>>, origin: map<Node, Node>, backref: map<Node, Ref>,
                            base: nat, top: nat)
  {
    && Extends(b0, t) && Extends(d0, d) && |b0| <= |t|
    && BackrefTableBuilt(t, top) && DepsTableBuilt(d, top)
    && (forall x :: x in t && x !in b0 ==>
          x in origin && RecordedCopy(x, origin[x], backref, b0, d0, t, d) && !CreatedBefore(x, base))
    && (forall x :: x in d && x !in d0 ==> x in t && x !in b0)
  }

  /** Before anything is recorded, the invariant holds. */
  lemma RecordInvInit(b0: map<Node, Node>, d0: map<Node, seq<Ref>>, backref: map<Node, Ref>, base: nat, top: nat)
    requires BackrefTableBuilt(b0, base) && DepsTableBuilt(d0, base) && base <= top
    ensures RecordInv(b0, d0, b0, d0, map[], backref, base, top)
  {
    TablesGrow(b0, d0, base, top);
  }

  /** The original of a built node is built. */
  lemma OriginBuilt(b0: map<Node, Node>, k: Node, base: nat)
    requires forall x :: x in b0 ==> Built(x, base) && Built(b0[x], base)
    requires Built(k, base)
    ensures Built(FindBackref(b0, k), base)
  {
    FollowIsKeyOrValue(b0, k, |b0|);
  }

  /**
   * Entries for new nodes leave the original of the old node k where it
   * was, and that original, an old node, is not the new node qi.
   */
  lemma OriginalUnmoved(b0: map<Node, Node>, t: map<Node, Node>, k: Node, qi: Node, base: nat, top: nat)
    requires BackrefTableBuilt(b0, base) && Extends(b0, t) && |b0| <= |t|
    requires forall x :: x in t && x !in b0 ==> !CreatedBefore(x, base)
    requires Built(k, base) && !CreatedBefore(qi, base) && base <= top
    ensures FindBackref(t, k) == FindBackref(b0, k) != qi
    ensures Built(FindBackref(b0, k), top)
  {
    OriginalKept(b0, t, k, base);
    BuiltMono(FindBackref(b0, k), base, top);
  }

  lemma OriginalKept(b0: map<Node, Node>, t: map<Node, Node>, k: Node, base: nat)
    requires BackrefTableBuilt(b0, base) && Extends(b0, t) && |b0| <= |t|
    requires forall x :: x in t && x !in b0 ==> !CreatedBefore(x, base)
    requires Built(k, base)
    ensures FindBackref(t, k) == FindBackref(b0, k)
    ensures Built(FindBackref(b0, k), base)
  {
    FindBackrefUnmoved(b0, t, k, base);
    OriginBuilt(b0, k, base);
  }

  /** Adding entries for a built node keeps the tables built. */
  lemma TablesAdd(t: map<Node, Node>, d: map<Node, seq<Ref>>, qi: Node, r: Node, ds: seq<Ref>, b: nat)
    requires BackrefTableBuilt(t, b) && DepsTableBuilt(d, b) && Acyclic(t[qi := r])
    requires Built(qi, b) && Built(r, b) && RefsBuilt(ds, b)
    ensures BackrefTableBuilt(t[qi := r], b) && DepsTableBuilt(d[qi := ds], b)
  {
    var t', d' := t[qi := r], d[qi := ds];
    forall x | x in t' ensures Built(x, b) && Built(t'[x], b) {
      if x != qi {
        assert t'[x] == t[x];
      }
    }
    forall x | x in d' ensures Built(x, b) && RefsBuilt(d'[x], b) {
      if x != qi {
        assert d'[x] == d[x];
      }
    }
  }

  /** A dependency list for a built node keeps the dependency table built. */
  lemma DepsTableAdd(d: map<Node, seq<Ref>>, q: Node, ds: seq<Ref>, b: nat)
    requires DepsTableBuilt(d, b) && Built(q, b) && RefsBuilt(ds, b)
    ensures DepsTableBuilt(d[q := ds], b)
  {
    forall x | x in d[q := ds] ensures Built(x, b) && RefsBuilt(d[q := ds][x], b) {
      if x != q {
        assert d[q := ds][x] == d[x];
      }
    }
  }

  /** The variables a built quantifier depends on occur in it, so they are built. */
  lemma DependenciesBuilt(q: Node, ds: seq<Ref>, b: nat)
    requires Built(q, b) && forall i :: 0 <= i < |ds| ==> ds[i].node in Reach(q)
    ensures RefsBuilt(ds, b)
  {
    forall i | 0 <= i < |ds| ensures Built(ds[i].node, b) {
      BuiltReach(q, ds[i].node, b);
    }
  }

  /** The copies recorded in t and d stay recorded when a new copy qi is added. */
  lemma CopiesAdd(b0: map<Node, Node>, d0: map<Node, seq<Ref>>, t: map<Node, Node>, d: map<Node, seq<Ref>>,
                  origin: map<Node, Node>, backref: map<Node, Ref>, base: nat, k: Node, qi: Node, r: Node,
                  ds: seq<Ref>)
    requires forall x :: x in t && x !in b0 ==>
               x in origin && RecordedCopy(x, origin[x], backref, b0, d0, t, d) && !CreatedBefore(x, base)
    requires k in backref && IsQuantifier(k) && qi == backref[k].node
    requires qi !in t && qi !in d && !CreatedBefore(qi, base)
    requires r == FindBackref(b0, k) && ds == MapDeps(if k in d0 then d0[k] else [], backref)
    ensures forall x :: x in t[qi := r] && x !in b0 ==>
              && x in origin[qi := k]
              && RecordedCopy(x, origin[qi := k][x], backref, b0, d0, t[qi := r], d[qi := ds])
              && !CreatedBefore(x, base)
  {
    var t', d', origin' := t[qi := r], d[qi := ds], origin[qi := k];
    forall x | x in t' && x !in b0
      ensures x in origin' && RecordedCopy(x, origin'[x], backref, b0, d0, t', d') && !CreatedBefore(x, base)
    {
      if x != qi {
        assert RecordedCopy(x, origin[x], backref, b0, d0, t, d);
      }
    }
  }

  lemma ExtendsPut<K, V>(a: map<K, V>, b: map<K, V>, k: K, v: V)
    requires Extends(a, b) && k !in b
    ensures Extends(a, b[k := v])
  {
  }

  lemma NewDepsAdd(b0: map<Node, Node>, d0: map<Node, seq<Ref>>, t: map<Node, Node>, d: map<Node, seq<Ref>>,
                   qi: Node, r: Node, ds: seq<Ref>)
    requires forall x :: x in d && x !in d0 ==> x in t && x !in b0
    requires qi !in b0
    ensures forall x :: x in d[qi := ds] && x !in d0 ==> x in t[qi := r] && x !in b0
  {
  }

  /** Recording a new copy keeps the invariant. */
  lemma RecordInvAdd(b0: map<Node, Node>, d0: map<Node, seq<Ref>>, t: map<Node, Node>, d: map<Node, seq<Ref>>,
                     origin: map<Node, Node>, backref: map<Node, Ref>, base: nat, top: nat,
                     k: Node, qi: Node, r: Node, ds: seq<Ref>)
    requires RecordInv(b0, d0, t, d, origin, backref, base, top)
    requires k in backref && IsQuantifier(k) && qi == backref[k].node
    requires qi !in t && qi !in d && !CreatedBefore(qi, base) && Built(qi, top) && Acyclic(t[qi := r])
    requires r == FindBackref(b0, k) && Built(r, top)
    requires ds == MapDeps(if k in d0 then d0[k] else [], backref) && RefsBuilt(ds, top)
    ensures RecordInv(b0, d0, t[qi := r], d[qi := ds], origin[qi := k], backref, base, top)
  {
    assert qi !in b0 && |t[qi := r]| == |t| + 1;
    ExtendsPut(b0, t, qi, r);
    ExtendsPut(d0, d, qi, ds);
    TablesAdd(t, d, qi, r, ds, top);
    CopiesAdd(b0, d0, t, d, origin, backref, base, k, qi, r, ds);
    NewDepsAdd(b0, d0, t, d, qi, r, ds);
  }

  /**
   * Recording the copy qi of the quantifier k: when qi is recorded
   * already, there is nothing to do; otherwise the original of k has not
   * moved and is not qi, and recording qi keeps the invariant.
   */
  lemma RecordInvStep(b0: map<Node, Node>, d0: map<Node, seq<Ref>>, t: map<Node, Node>, d: map<Node, seq<Ref>>,
                      origin: map<Node, Node>, backref: map<Node, Ref>, base: nat, top: nat, k: Node, qi: Node)
    requires RecordInv(b0, d0, t, d, origin, backref, base, top) && CopiesBuilt(backref, base, top)
    requires BackrefTableBuilt(b0, base) && DepsTableBuilt(d0, base) && base <= top
    requires k in backref && IsQuantifier(k) && qi == backref[k].node
    ensures qi in t ==> qi in d
    ensures qi !in t ==>
              var r := FindBackref(b0, k);
              && qi !in d && k != qi && Acyclic(t) && FindBackref(t, k) == r && r != qi
              && (k in d <==> k in d0) && (k in d ==> d[k] == d0[k])
              && RecordInv(b0, d0, t[qi := r], d[qi := MapDeps(if k in d0 then d0[k] else [], backref)],
                           origin[qi := k], backref, base, top)
  {
    if qi in t {
      assert RecordedCopy(qi, origin[qi], backref, b0, d0, t, d);
      return;
    }
    assert Built(k, base) && !CreatedBefore(qi, base) && Built(qi, top);
    OriginalUnmoved(b0, t, k, qi, base, top);
    var r := FindBackref(b0, k);
    assert qi !in d0 && qi !in d;
    var ds := if k in d0 then d0[k] else [];
    KeyDeps(b0, d0, t, d, origin, backref, base, top, k, ds);
    MapDepsBuilt(ds, backref, top);
    AddBackrefKeepsAcyclic(t, qi, k);
    RecordInvAdd(b0, d0, t, d, origin, backref, base, top, k, qi, r, MapDeps(ds, backref));
  }

  /** The dependencies of an old key k are where the old table put them, built before top. */
  lemma KeyDeps(b0: map<Node, Node>, d0: map<Node, seq<Ref>>, t: map<Node, Node>, d: map<Node, seq<Ref>>,
                origin: map<Node, Node>, backref: map<Node, Ref>, base: nat, top: nat, k: Node, ds: seq<Ref>)
    requires RecordInv(b0, d0, t, d, origin, backref, base, top)
    requires DepsTableBuilt(d0, base) && base <= top && CreatedBefore(k, base)
    requires ds == (if k in d0 then d0[k] else [])
    ensures (k in d <==> k in d0) && (k in d ==> d[k] == d0[k]) && RefsBuilt(ds, top)
  {
    if k in d0 {
      RefsBuiltMono(ds, base, top);
    }
  }

  /** The instance of a built quantifier, from serial base, was built before base + base. */
  lemma InstanceBuilt(q: Node, substs: map<Node, Ref>, base: nat, top: nat)
    requires Built(q, base) && top == base + base
    requires forall k :: k in substs ==> Built(substs[k].node, base) && !IsParam(substs[k].node)
    ensures Built(Rewrite(q, substs, base).node, top)
  {
    RewriteCreatedBefore(q, substs, base);
    RewriteWellFormed(q, substs, base);
  }

  /** The copy of every quantifier among the first n keys is a key of t. */
  ghost predicate CopiesIn(keys: seq<Node>, n: nat, backref: map<Node, Ref>, t: map<Node, Node>)
  {
    forall j :: 0 <= j < n && j < |keys| && keys[j] in backref && IsQuantifier(keys[j]) ==> backref[keys[j]].node in t
  }

  lemma CopiesInStep(keys: seq<Node>, n: nat, backref: map<Node, Ref>, t: map<Node, Node>, t': map<Node, Node>)
    requires CopiesIn(keys, n, backref, t) && t.Keys <= t'.Keys && n < |keys|
    requires keys[n] in backref && IsQuantifier(keys[n]) ==> backref[keys[n]].node in t'
    ensures CopiesIn(keys, n + 1, backref, t')
  {
  }

  /** Every quantifier key has its copy in t once all keys are recorded. */
  lemma CopiesInAll(keys: seq<Node>, backref: map<Node, Ref>, t: map<Node, Node>)
    requires CopiesIn(keys, |keys|, backref, t) && forall m :: m in keys <==> m in backref
    ensures forall k :: k in backref && IsQuantifier(k) ==> backref[k].node in t
  {
    forall k | k in backref && IsQuantifier(k) ensures backref[k].node in t {
      var j :| 0 <= j < |keys| && keys[j] == k;
    }
  }

  /** Every entry the recording added is a recorded copy of some quantifier. */
  lemma RecordedCopies(b0: map<Node, Node>, d0: map<Node, seq<Ref>>, t: map<Node, Node>, d: map<Node, seq<Ref>>,
                       origin: map<Node, Node>, backref: map<Node, Ref>, base: nat, top: nat)
    requires RecordInv(b0, d0, t, d, origin, backref, base, top)
    ensures forall x :: x in t && x !in b0 ==> exists k :: RecordedCopy(x, k, backref, b0, d0, t, d)
  {
    forall x | x in t && x !in b0 ensures exists k :: RecordedCopy(x, k, backref, b0, d0, t, d) {
      assert RecordedCopy(x, origin[x], backref, b0, d0, t, d);
    }
  }

  /** Values instantiate may substitute: nodes built before b that are not parameters. */
  ghost predicate SubstValues(vals: seq<Ref>, b: nat)
  {
    RefsBuilt(vals, b) && forall i :: 0 <= i < |vals| ==> !IsParam(vals[i].node)
  }

  /** Replacing the variables of a chain by such values substitutes only such values. */
  lemma BinderSubstValues(chain: seq<Node>, vals: seq<Ref>, b: nat)
    requires |vals| == |chain| && forall i :: 0 <= i < |chain| ==> |chain[i].children| > 0
    requires SubstValues(vals, b)
    ensures var s := BinderSubst(chain, vals);
            forall k :: k in s ==> Built(s[k].node, b) && !IsParam(s[k].node)
  {
    var s := BinderSubst(chain, vals);
    forall k | k in s ensures Built(s[k].node, b) && !IsParam(s[k].node) {
      var i :| 0 <= i < |vals| && vals[i] == s[k];
    }
  }

  /** The skolemization lemma of q for the skolems vals: not q implies not its instance. */
  function SkolemizationLemmaFor(q: Node, vals: seq<Ref>, base: nat): Ref
    requires |vals| == |BinderChain(q)|
  {
    MkImplies(Invert(Plain(q)), Invert(Rewrite(q, BinderSubst(BinderChain(q), vals), base)))
  }

  /** The counterexample lemma of q: its literal implies that the instance by constants vals is false. */
  function CeLemmaFor(q: Node, lit: Ref, vals: seq<Ref>, base: nat): Ref
    requires |vals| == |BinderChain(q)|
  {
    MkImplies(lit, Invert(Rewrite(q, BinderSubst(BinderChain(q), vals), base)))
  }

  /** The value instantiation lemma of q: q implies its instance by model values vals. */
  function ValueLemmaFor(q: Node, vals: seq<Ref>, base: nat): Ref
    requires |vals| == |BinderChain(q)|
  {
    MkImplies(Plain(q), Rewrite(q, BinderSubst(BinderChain(q), vals), base))
  }

  /** The values m maps the keys to, in order. */
  function Lookup<K, V>(keys: seq<K>, m: map<K, V>): (vs: seq<V>)
    requires forall i :: 0 <= i < |keys| ==> keys[i] in m
    ensures |vs| == |keys| && forall i :: 0 <= i < |keys| ==> vs[i] == m[keys[i]]
  {
    seq(|keys|, i requires 0 <= i < |keys| => m[keys[i]])
  }

  /** The model values of the given terms (get_value on each). */
  function ModelValues(engine: Engine, constraints: seq<Ref>, assumptions: seq<Ref>, ts: seq<Ref>): (vs: seq<Ref>)
    ensures |vs| == |ts|
    ensures forall i :: 0 <= i < |ts| ==> vs[i] == ModelValue(engine, constraints, assumptions, ts[i].node)
  {
    seq(|ts|, i requires 0 <= i < |ts| => ModelValue(engine, constraints, assumptions, ts[i].node))
  }

  /** The sorts of a list of dependencies, in order. */
  function DepSorts(ds: seq<Ref>): (s: seq<Sort>)
    ensures |s| == |ds| && forall i :: 0 <= i < |ds| ==> s[i] == ds[i].node.sort
  {
    seq(|ds|, i requires 0 <= i < |ds| => ds[i].node.sort)
  }

  /**
   * What mk_skolem makes for the binder q from the skolem table s and the
   * counter n: the skolem, and the table and counter after.  Without
   * dependencies it is a fresh constant of the variable's sort; otherwise
   * the skolem function of q's original, created with the dependency sorts
   * when missing, applied to the dependencies.
   */
  function SkolemFor(q: Node, deps: map<Node, seq<Ref>>, backrefs: map<Node, Node>, s: map<Node, Ref>, n: nat)
    : (r: (Ref, map<Node, Ref>, nat))
    requires |q.children| > 0
    ensures r.0.node.sort == q.children[0].node.sort && !IsParam(r.0.node)
    ensures Extends(s, r.1) && n <= r.2 <= n + 1
  {
    var sort := q.children[0].node.sort;
    if q !in deps then (Plain(FreshVar(n, sort)), s, n + 1)
    else
      var root := FindBackref(backrefs, q);
      if root in s then (MkApply(s[root].node, deps[q], sort), s, n)
      else
        var f := Node(Uf(n), FunSort(DepSorts(deps[q]), sort), [], []);
        (MkApply(f, deps[q], sort), s[root := Plain(f)], n + 1)
  }


  /**
   * The clone of the user's instance that the quantifier solver works on
   * (a Bzla): its asserted formulas are the constant formula plus the
   * lemmas asserted so far, its ground solver is the oracle engine, and it
   * remembers the constraints and assumptions of its last check, whose
   * model and failed assumptions the engine reports.
   */
  class Bzla {
    const engine: Engine
    /** The formulas asserted in the clone before the solver starts. */
    const formula: seq<Ref>
    /** The clone is inconsistent (bzla->inconsistent). */
    const inconsistent: bool
    /** The quantifiers of the clone when the solver starts (bzla->quantifiers). */
    const quantifiers: seq<Node>
    /** The lemmas asserted in the clone, in order (bzla_assert_exp). */
    var lemmas: seq<Ref>
    /** The serial of the next node the clone creates. */
    var nextSerial: nat
    var lastConstraints: seq<Ref>
    var lastAssumptions: seq<Ref>

    constructor (engine: Engine, formula: seq<Ref>, inconsistent: bool, quantifiers: seq<Node>, firstSerial: nat)
      ensures this.engine == engine && this.formula == formula && this.inconsistent == inconsistent
      ensures this.quantifiers == quantifiers && lemmas == [] && nextSerial == firstSerial
      ensures lastConstraints == [] && lastAssumptions == []
    {
      this.engine, this.formula, this.inconsistent, this.quantifiers := engine, formula, inconsistent, quantifiers;
      lemmas, nextSerial := [], firstSerial;
      lastConstraints, lastAssumptions := [], [];
    }

    function Constraints(): seq<Ref>
      reads this`lemmas
    {
      formula + lemmas
    }

    /** n occurs in none of the asserted formulas: the clone has just created it. */
    ghost predicate IsNew(n: Node)
      reads this`lemmas
    {
      forall i :: 0 <= i < |Constraints()| ==> n !in Reach(Constraints()[i].node)
    }

    /**
     * Drops the assumptions of the previous check, assumes the given ones
     * and checks (bzla_reset_incremental_usage, bzla_assume_exp, sat).
     */
    method Sat(assumptions: seq<Ref>) returns (res: SolverResult)
      modifies this`lastConstraints, this`lastAssumptions
      ensures lastConstraints == Constraints() && lastAssumptions == assumptions
      ensures res == engine.sat(lastConstraints, lastAssumptions)
    {
      lastConstraints, lastAssumptions := Constraints(), assumptions;
      res := engine.sat(lastConstraints, lastAssumptions);
    }
  }

  /** The state of the quantifier solver (QuantSolverState). */
  class QuantSolverState {
    const bzla: Bzla
    /** active_quantifiers, in insertion order, and the phase flag of each. */
    var activeOrder: seq<Node>
    var phase: map<Node, bool>
    var inactive: set<Node>
    var deps: map<Node, seq<Ref>>
    var backrefs: map<Node, Node>
    var skolems: map<Node, Ref>
    var instConstants: map<Node, Ref>
    var skolemizationLemmas: map<Node, Ref>
    /** default_instantiations: the counterexample lemma of each quantifier. */
    var ceLemmas: map<Node, Ref>
    var lemmasPending: seq<Ref>
    var lemmaCache: set<Ref>
    /** ce_literals, and the order in which they were created. */
    var ceLiterals: map<Node, Ref>
    var ceOrder: seq<Node>
    /** The quantifier each counterexample literal belongs to, by the literal's serial. */
    ghost var ceOwner: map<nat, Node>
    var addedLemma: bool

    /** Every cached lemma was asserted in the clone, and each exactly once. */
    ghost predicate LemmasValid()
      reads this`lemmaCache, bzla`lemmas
    {
      NoDups(bzla.lemmas) && forall l :: l in bzla.lemmas <==> l in lemmaCache
    }

    ghost predicate ActiveValid()
      reads this`activeOrder, this`phase
    {
      && NoDups(activeOrder)
      && (forall q :: q in activeOrder <==> q in phase)
      && (forall q :: q in phase ==> IsQuantifier(q))
    }

    /** Each quantifier has its own fresh Boolean literal. */
    ghost predicate CeValid()
      reads this`ceOrder, this`ceLiterals, this`ceOwner, bzla`nextSerial
    {
      CeTables(ceOrder, ceLiterals, ceOwner, bzla.nextSerial)
    }

    /** Skolems and instantiation constants are never parameters. */
    ghost predicate TermsValid()
      reads this`skolems, this`instConstants
    {
      && (forall q :: q in skolems ==> !IsParam(skolems[q].node))
      && (forall q :: q in instConstants ==> !IsParam(instConstants[q].node))
    }

    /** The asserted and pending lemmas were built before b. */
    ghost predicate FormulasBuilt(b: nat)
      reads bzla`lemmas, this`lemmasPending
    {
      RefsBuilt(bzla.Constraints(), b) && RefsBuilt(lemmasPending, b)
    }

    /** The skolems and instantiation constants were built before b. */
    ghost predicate SymbolsBuilt(b: nat)
      reads this`skolems, this`instConstants
    {
      && (forall q :: q in skolems ==> Built(skolems[q].node, b))
      && (forall q :: q in instConstants ==> Built(instConstants[q].node, b))
    }

    /** The cached instantiation lemmas were built before b. */
    ghost predicate LemmaTablesBuilt(b: nat)
      reads this`skolemizationLemmas, this`ceLemmas
    {
      && (forall q :: q in skolemizationLemmas ==> Built(skolemizationLemmas[q].node, b))
      && (forall q :: q in ceLemmas ==> Built(ceLemmas[q].node, b))
    }

    /** Every quantifier with dependencies, and each of its dependencies, was built before b. */
    ghost predicate DepsBuilt(b: nat)
      reads this`deps
    {
      DepsTableBuilt(deps, b)
    }

    /** The backref table is acyclic and relates nodes built before b. */
    ghost predicate BackrefsBuilt(b: nat)
      reads this`backrefs
    {
      BackrefTableBuilt(backrefs, b)
    }

    /** The active quantifiers were built before b. */
    ghost predicate PhaseBuilt(b: nat)
      reads this`phase
    {
      forall q :: q in phase ==> Built(q, b)
    }

    /** Every node the solver holds was built before b. */
    ghost predicate BuiltBefore(b: nat)
      reads bzla`lemmas, this`lemmasPending, this`skolems, this`instConstants, this`skolemizationLemmas,
            this`ceLemmas, this`deps, this`backrefs, this`phase
    {
      && FormulasBuilt(b) && SymbolsBuilt(b) && LemmaTablesBuilt(b) && DepsBuilt(b) && BackrefsBuilt(b)
      && PhaseBuilt(b) && QuantifiersBuilt(bzla.quantifiers, b)
    }

    /** What was built before b was built before every later counter. */
    lemma BuiltGrows(b: nat, b': nat)
      requires BuiltBefore(b) && b <= b'
      ensures BuiltBefore(b')
    {
      RefsBuiltMono(bzla.Constraints(), b, b');
      RefsBuiltMono(lemmasPending, b, b');
      forall q | q in skolems ensures Built(skolems[q].node, b') {
        BuiltMono(skolems[q].node, b, b');
      }
      forall q | q in instConstants ensures Built(instConstants[q].node, b') {
        BuiltMono(instConstants[q].node, b, b');
      }
      forall q | q in skolemizationLemmas ensures Built(skolemizationLemmas[q].node, b') {
        BuiltMono(skolemizationLemmas[q].node, b, b');
      }
      forall q | q in ceLemmas ensures Built(ceLemmas[q].node, b') {
        BuiltMono(ceLemmas[q].node, b, b');
      }
      forall q | q in deps ensures Built(q, b') && RefsBuilt(deps[q], b') {
        BuiltMono(q, b, b');
        RefsBuiltMono(deps[q], b, b');
      }
      forall q | q in backrefs ensures Built(q, b') && Built(backrefs[q], b') {
        BuiltMono(q, b, b');
        BuiltMono(backrefs[q], b, b');
      }
      forall q | q in phase ensures Built(q, b') {
        BuiltMono(q, b, b');
      }
      forall q | q in bzla.quantifiers ensures Built(q, b') {
        BuiltMono(q, b, b');
      }
    }

    /** A node not created before the counter occurs in no asserted formula. */
    lemma CreatedIsNew(n: Node, b: nat)
      requires FormulasBuilt(b) && !CreatedBefore(n, b)
      ensures bzla.IsNew(n)
    {
      forall i | 0 <= i < |bzla.Constraints()| ensures n !in Reach(bzla.Constraints()[i].node) {
        NewIsUnreached(bzla.Constraints()[i].node, n, b);
      }
    }

    ghost predicate Valid()
      reads this`lemmaCache, bzla`lemmas, this`activeOrder, this`phase, this`ceOrder, this`ceLiterals, this`ceOwner,
            bzla`nextSerial, this`skolems, this`instConstants, this`lemmasPending, this`skolemizationLemmas,
            this`ceLemmas, this`deps, this`backrefs
    {
      LemmasValid() && ActiveValid() && CeValid() && TermsValid() && BuiltBefore(bzla.nextSerial)
    }

    /** A fresh solver state on a clone (new_quant_solver_state): every table empty. */
    constructor (bzla: Bzla)
      requires bzla.lemmas == []
      requires RefsBuilt(bzla.formula, bzla.nextSerial) && QuantifiersBuilt(bzla.quantifiers, bzla.nextSerial)
      ensures Valid() && this.bzla == bzla && !addedLemma
      ensures activeOrder == [] && phase == map[] && inactive == {} && deps == map[] && backrefs == map[]
      ensures skolems == map[] && instConstants == map[] && ceLiterals == map[] && ceOrder == []
      ensures skolemizationLemmas == map[] && ceLemmas == map[]
      ensures lemmasPending == [] && lemmaCache == {}
    {
      this.bzla := bzla;
      activeOrder, phase, inactive, deps, backrefs := [], map[], {}, map[], map[];
      skolems, instConstants, skolemizationLemmas, ceLemmas := map[], map[], map[], map[];
      lemmasPending, lemmaCache := [], {};
      ceLiterals, ceOrder, ceOwner := map[], [], map[];
      addedLemma := false;
    }

    /** The active quantifier q is universal in the current model (is_forall). */
    predicate IsForall(q: Node)
      reads this`phase
    {
      q in phase && phase[q]
    }

    /** The active quantifier q is existential in the current model (is_exists). */
    predicate IsExists(q: Node)
      reads this`phase
    {
      q in phase && !phase[q]
    }

    predicate IsInactive(q: Node)
      reads this`inactive
    {
      q in inactive
    }

    // -------------------------------------------------------------------
    // The inactive set

    /** Marks q inactive; q must not be inactive yet (set_inactive). */
    method SetInactive(q: Node)
      requires !IsInactive(q)
      modifies this`inactive
      ensures inactive == old(inactive) + {q}
      ensures IsInactive(q) && old(inactive) < inactive
    {
      inactive := inactive + {q};
    }

    // -------------------------------------------------------------------
    // Backrefs and instances

    /**
     * Records that qfrom is an instance of the original of qto; an existing
     * entry is kept (add_backref).  On an acyclic table a new instance
     * leads straight to the original.
     */
    method AddBackref(qfrom: Node, qto: Node)
      modifies this`backrefs
      ensures backrefs == if qfrom in old(backrefs) then old(backrefs)
                          else old(backrefs)[qfrom := FindBackref(old(backrefs), qto)]
      ensures Acyclic(old(backrefs)) && qfrom !in old(backrefs) && FindBackref(old(backrefs), qto) != qfrom ==>
                Acyclic(backrefs) && FindBackref(backrefs, qfrom) == FindBackref(old(backrefs), qto)
    {
      var backref := FindBackref(backrefs, qto);
      if qfrom in backrefs {
        return;
      }
      if Acyclic(backrefs) && backref != qfrom {
        AddBackrefKeepsAcyclic(backrefs, qfrom, qto);
      }
      backrefs := backrefs[qfrom := backref];
    }

    /**
     * Gives the new instance qi of q the dependencies of q, with every
     * substituted variable replaced by its value (add_instance).  A
     * quantifier without dependencies passes on none.
     */
    method AddInstance(q: Node, qi: Node, substs: map<Node, Ref>)
      modifies this`deps
      ensures deps == if q == qi || qi in old(deps) then old(deps)
                      else old(deps)[qi := MapDeps(if q in old(deps) then old(deps)[q] else [], substs)]
    {
      if q == qi {
        return;
      }
      if qi in deps {
        return;
      }
      var qdeps := if q in deps then deps[q] else [];
      var qideps: seq<Ref> := [];
      for i := 0 to |qdeps|
        invariant qideps == MapDeps(qdeps[..i], substs)
      {
        var cur := qdeps[i];
        if !cur.neg && cur.node in substs {
          qideps := qideps + [substs[cur.node]];
        } else {
          qideps := qideps + [cur];
        }
      }
      assert qdeps[..|qdeps|] == qdeps;
      deps := deps[qi := qideps];
    }

    /**
     * Records every quantifier k among keys as an original of its rebuilt
     * copy backref[k], and gives the copy its dependencies (the loop of
     * instantiate).  The copies are nodes created from serial base on, so
     * none of them is in the tables yet and the table stays acyclic.
     */
    method RecordInstances(keys: seq<Node>, backref: map<Node, Ref>, ghost base: nat, ghost top: nat)
      returns (ghost origin: map<Node, Node>)
      requires forall k :: k in keys <==> k in backref
      requires CopiesBuilt(backref, base, top) && BackrefsBuilt(base) && DepsBuilt(base) && base <= top
      modifies this`backrefs, this`deps
      ensures RecordInv(old(backrefs), old(deps), backrefs, deps, origin, backref, base, top)
      ensures BackrefsBuilt(top) && DepsBuilt(top)
      ensures forall k :: k in backref && IsQuantifier(k) ==> backref[k].node in backrefs
      ensures forall x :: x in backrefs && x !in old(backrefs) ==>
                exists k :: RecordedCopy(x, k, backref, old(backrefs), old(deps), backrefs, deps)
    {
      ghost var b0, d0 := backrefs, deps;
      origin := map[];
      RecordInvInit(b0, d0, backref, base, top);
      for i := 0 to |keys|
        invariant RecordInv(b0, d0, backrefs, deps, origin, backref, base, top)
        invariant CopiesIn(keys, i, backref, backrefs)
      {
        var k := keys[i];
        ghost var before := backrefs;
        if IsQuantifier(k) {
          origin := RecordInstance(k, backref, b0, d0, origin, base, top);
        }
        CopiesInStep(keys, i, backref, before, backrefs);
      }
      CopiesInAll(keys, backref, backrefs);
      RecordedCopies(b0, d0, backrefs, deps, origin, backref, base, top);
    }

    /** Records the copy of the quantifier k (one round of the loop of instantiate). */
    method RecordInstance(k: Node, backref: map<Node, Ref>, ghost b0: map<Node, Node>, ghost d0: map<Node, seq<Ref>>,
                          ghost origin: map<Node, Node>, ghost base: nat, ghost top: nat)
      returns (ghost origin': map<Node, Node>)
      requires RecordInv(b0, d0, backrefs, deps, origin, backref, base, top) && CopiesBuilt(backref, base, top)
      requires BackrefTableBuilt(b0, base) && DepsTableBuilt(d0, base) && base <= top
      requires k in backref && IsQuantifier(k)
      modifies this`backrefs, this`deps
      ensures RecordInv(b0, d0, backrefs, deps, origin', backref, base, top)
      ensures backref[k].node in backrefs && old(backrefs).Keys <= backrefs.Keys
    {
      var qi := backref[k].node;
      RecordInvStep(b0, d0, backrefs, deps, origin, backref, base, top, k, qi);
      origin' := if qi in backrefs then origin else origin[qi := k];
      AddBackref(qi, k);
      AddInstance(k, qi, backref);
    }

    /**
     * Substitutes substs into q and records every quantifier the
     * substitution rebuilt as an instance of its original (instantiate).
     * The fresh parameters of the instance take their serials from the
     * clone's counter, above every node the clone holds, and the counter
     * moves past them: each rebuilt quantifier is a new node, recorded
     * once, and the backref table stays acyclic.
     */
    method Instantiate(q: Node, substs: map<Node, Ref>) returns (result: Ref)
      requires IsQuantifier(q) && Valid() && Built(q, bzla.nextSerial)
      requires forall k :: k in substs ==> Built(substs[k].node, bzla.nextSerial) && !IsParam(substs[k].node)
      modifies this`backrefs, this`deps, bzla`nextSerial
      ensures Valid()
      ensures bzla.nextSerial == 2 * old(bzla.nextSerial) + 1
      ensures result == Rewrite(q, substs, old(bzla.nextSerial)) && Built(result.node, bzla.nextSerial)
      ensures Extends(old(backrefs), backrefs) && Extends(old(deps), deps)
      ensures var b := BackrefSpec(q, substs, old(bzla.nextSerial));
              forall k :: k in b && IsQuantifier(k) ==>
                b[k].node in backrefs && b[k].node !in old(backrefs) && bzla.IsNew(b[k].node)
      ensures var b := BackrefSpec(q, substs, old(bzla.nextSerial));
              forall x :: x in backrefs && x !in old(backrefs) ==>
                exists k :: RecordedCopy(x, k, b, old(backrefs), old(deps), backrefs, deps)
      ensures forall x :: x in deps && x !in old(deps) ==> x in backrefs && x !in old(backrefs)
    {
      var base := bzla.nextSerial;
      var top := base + base;
      var backref, keys;
      result, backref, keys := Substitute(Plain(q), substs, base);
      BackrefSpecBuilt(q, substs, base, top);
      InstanceBuilt(q, substs, base, top);
      CopiesAreNew(backref, base, top);
      RecordAndAdvance(keys, backref, base, top);
      BuiltMono(result.node, top, bzla.nextSerial);
    }

    /**
     * Records the copies of backref (from serial base, built before top)
     * and moves the counter past top.
     */
    method RecordAndAdvance(keys: seq<Node>, backref: map<Node, Ref>, ghost base: nat, top: nat)
      requires Valid() && bzla.nextSerial == base <= top
      requires forall k :: k in keys <==> k in backref
      requires CopiesBuilt(backref, base, top)
      modifies this`backrefs, this`deps, bzla`nextSerial
      ensures Valid() && bzla.nextSerial == top + 1
      ensures Extends(old(backrefs), backrefs) && Extends(old(deps), deps)
      ensures forall k :: k in backref && IsQuantifier(k) ==> backref[k].node in backrefs
      ensures forall x :: x in backrefs && x !in old(backrefs) ==>
                exists k :: RecordedCopy(x, k, backref, old(backrefs), old(deps), backrefs, deps)
      ensures forall x :: x in deps && x !in old(deps) ==> x in backrefs && x !in old(backrefs)
    {
      BuiltGrows(base, top);
      ghost var origin := RecordInstances(keys, backref, base, top);
      Advance(top, top + 1);
    }

    /** The copies of the quantifiers of a substitution from serial base are new nodes. */
    lemma CopiesAreNew(backref: map<Node, Ref>, base: nat, top: nat)
      requires FormulasBuilt(base) && BackrefsBuilt(base) && CopiesBuilt(backref, base, top)
      ensures forall k :: k in backref && IsQuantifier(k) ==> bzla.IsNew(backref[k].node) && backref[k].node !in backrefs
    {
      forall k | k in backref && IsQuantifier(k) ensures bzla.IsNew(backref[k].node) && backref[k].node !in backrefs {
        CreatedIsNew(backref[k].node, base);
      }
    }

    /**
     * Moves the counter from above top up to n: every node built before
     * top stays built.
     */
    method Advance(top: nat, n: nat)
      requires LemmasValid() && ActiveValid() && CeValid() && TermsValid()
      requires BuiltBefore(top) && bzla.nextSerial <= top <= n
      modifies bzla`nextSerial
      ensures Valid() && bzla.nextSerial == n
    {
      BuiltGrows(top, n);
      CeTablesGrow(ceOrder, ceLiterals, ceOwner, bzla.nextSerial, n);
      bzla.nextSerial := n;
    }

    // -------------------------------------------------------------------
    // Fresh symbols

    /** The instantiation constant of the binder q, created once (get_inst_constant). */
    method GetInstConstant(q: Node) returns (ic: Ref)
      requires |q.children| > 0 && Valid()
      modifies this`instConstants, bzla`nextSerial
      ensures Valid()
      ensures q in instConstants && ic == instConstants[q] && !IsParam(ic.node)
      ensures q in old(instConstants) ==> instConstants == old(instConstants) && bzla.nextSerial == old(bzla.nextSerial)
      ensures q !in old(instConstants) ==>
                && ic == Plain(FreshVar(old(bzla.nextSerial), q.children[0].node.sort))
                && instConstants == old(instConstants)[q := ic]
                && bzla.nextSerial == old(bzla.nextSerial) + 1
                && bzla.IsNew(ic.node)
                && forall q' :: q' in old(instConstants) ==> old(instConstants)[q'] != ic
    {
      if q in instConstants {
        return instConstants[q];
      }
      var b := bzla.nextSerial;
      ic := Plain(FreshVar(b, q.children[0].node.sort));
      FreshVarIsNew(b, ic.node.sort);
      CreatedIsNew(ic.node, b);
      BuiltGrows(b, b + 1);
      instConstants := instConstants[q := ic];
      Advance(b + 1, b + 1);
    }

    /**
     * The counterexample literal of q, a fresh Boolean constant created once
     * (get_ce_literal); it differs from the literal of every other quantifier.
     */
    method GetCeLiteral(q: Node) returns (lit: Ref)
      requires Valid()
      modifies this`ceLiterals, this`ceOrder, this`ceOwner, bzla`nextSerial
      ensures Valid()
      ensures ceLiterals == old(ceLiterals)[q := lit] && IsBoolVar(lit) && Built(lit.node, bzla.nextSerial)
      ensures Extends(old(ceLiterals), ceLiterals) && bzla.nextSerial >= old(bzla.nextSerial)
      ensures forall q' :: q' in ceLiterals && q' != q ==> ceLiterals[q'] != lit
      ensures q in old(ceLiterals) ==>
                lit == old(ceLiterals)[q] && ceOrder == old(ceOrder) && bzla.nextSerial == old(bzla.nextSerial)
      ensures q !in old(ceLiterals) ==>
                && lit == Plain(FreshVar(old(bzla.nextSerial), BoolSort))
                && ceOrder == old(ceOrder) + [q] && bzla.nextSerial == old(bzla.nextSerial) + 1
                && bzla.IsNew(lit.node)
    {
      if q in ceLiterals {
        lit := ceLiterals[q];
        CeLiteralsDistinct(ceOrder, ceLiterals, ceOwner, bzla.nextSerial, q);
        return;
      }
      lit := NewCeLiteral(q);
    }

    /** Creates the counterexample literal of q, which has none yet. */
    method NewCeLiteral(q: Node) returns (lit: Ref)
      requires Valid() && q !in ceLiterals
      modifies this`ceLiterals, this`ceOrder, this`ceOwner, bzla`nextSerial
      ensures Valid() && Built(lit.node, bzla.nextSerial)
      ensures lit == Plain(FreshVar(old(bzla.nextSerial), BoolSort)) && bzla.IsNew(lit.node)
      ensures ceLiterals == old(ceLiterals)[q := lit] && forall q' :: q' in old(ceLiterals) ==> old(ceLiterals)[q'] != lit
      ensures ceOrder == old(ceOrder) + [q] && bzla.nextSerial == old(bzla.nextSerial) + 1
    {
      var b := bzla.nextSerial;
      lit := Plain(FreshVar(b, BoolSort));
      FreshVarIsNew(b, BoolSort);
      CreatedIsNew(lit.node, b);
      BuiltGrows(b, b + 1);
      CeTablesAdd(ceOrder, ceLiterals, ceOwner, b, q);
      ceLiterals, ceOrder, ceOwner := ceLiterals[q := lit], ceOrder + [q], ceOwner[b := q];
      bzla.nextSerial := b + 1;
    }

    /**
     * The skolem function application for a quantifier with dependencies:
     * one uninterpreted function per original quantifier, created once and
     * applied to the dependencies of q (mk_skolem_aux).  Without
     * dependencies there is nothing to apply.
     */
    method MkSkolemAux(q: Node) returns (sk: Option<Ref>)
      requires |q.children| > 0 && Valid()
      modifies this`skolems, bzla`nextSerial
      ensures Valid()
      ensures sk.Some? ==> Built(sk.value.node, bzla.nextSerial)
      ensures q !in deps ==> sk == None && skolems == old(skolems) && bzla.nextSerial == old(bzla.nextSerial)
      ensures q in deps ==>
                && sk.Some?
                && (sk.value, skolems, bzla.nextSerial) == SkolemFor(q, deps, backrefs, old(skolems), old(bzla.nextSerial))
      ensures var root := FindBackref(backrefs, q);
              q in deps && root !in old(skolems) ==> bzla.IsNew(skolems[root].node)
    {
      if q !in deps {
        return None;
      }
      var backref := FindBackref(backrefs, q);
      var ds := deps[q];
      var sorts: seq<Sort> := [];
      for i := 0 to |ds|
        invariant sorts == DepSorts(ds[..i])
      {
        sorts := sorts + [ds[i].node.sort];
      }
      assert ds[..|ds|] == ds;
      var f: Node;
      if backref in skolems {
        f := skolems[backref].node;
      } else {
        f := NewSkolemFunction(backref, FunSort(sorts, q.children[0].node.sort));
      }
      ApplyBuilt(f, ds, q.children[0].node.sort, bzla.nextSerial);
      sk := Some(MkApply(f, ds, q.children[0].node.sort));
    }

    /** Creates the skolem function of the original quantifier root (bzla_exp_uf in mk_skolem_aux). */
    method NewSkolemFunction(root: Node, sort: Sort) returns (f: Node)
      requires Valid() && root !in skolems
      modifies this`skolems, bzla`nextSerial
      ensures Valid() && Built(f, bzla.nextSerial) && bzla.IsNew(f)
      ensures f == Node(Uf(old(bzla.nextSerial)), sort, [], [])
      ensures skolems == old(skolems)[root := Plain(f)] && bzla.nextSerial == old(bzla.nextSerial) + 1
    {
      var b := bzla.nextSerial;
      f := Node(Uf(b), sort, [], []);
      CreatedIsNew(f, b);
      BuiltGrows(b, b + 1);
      skolems := skolems[root := Plain(f)];
      Advance(b + 1, b + 1);
    }

    /** A skolem for q: the application above, or a fresh constant without dependencies (mk_skolem). */
    method MkSkolem(q: Node) returns (sk: Ref)
      requires |q.children| > 0 && Valid()
      modifies this`skolems, bzla`nextSerial
      ensures Valid() && Built(sk.node, bzla.nextSerial)
      ensures (sk, skolems, bzla.nextSerial) == SkolemFor(q, deps, backrefs, old(skolems), old(bzla.nextSerial))
      ensures q !in deps ==> bzla.IsNew(sk.node)
    {
      var aux := MkSkolemAux(q);
      if aux.Some? {
        sk := aux.value;
      } else {
        sk := NewSkolemConstant(q.children[0].node.sort);
      }
    }

    /** Creates a skolem constant (bzla_node_create_var in mk_skolem). */
    method NewSkolemConstant(sort: Sort) returns (sk: Ref)
      requires Valid()
      modifies bzla`nextSerial
      ensures Valid() && Built(sk.node, bzla.nextSerial) && bzla.IsNew(sk.node)
      ensures sk == Plain(FreshVar(old(bzla.nextSerial), sort)) && bzla.nextSerial == old(bzla.nextSerial) + 1
    {
      var b := bzla.nextSerial;
      sk := Plain(FreshVar(b, sort));
      FreshVarIsNew(b, sort);
      CreatedIsNew(sk.node, b);
      BuiltGrows(b, b + 1);
      Advance(b + 1, b + 1);
    }

    /**
     * The skolem of the binder q, created once (get_skolem): a first call
     * makes it as mk_skolem does and caches it under q.
     */
    method GetSkolem(q: Node) returns (sk: Ref)
      requires |q.children| > 0 && Valid()
      modifies this`skolems, bzla`nextSerial
      ensures Valid()
      ensures Extends(old(skolems), skolems) && bzla.nextSerial >= old(bzla.nextSerial)
      ensures q in skolems && sk == skolems[q] && !IsParam(sk.node) && Built(sk.node, bzla.nextSerial)
      ensures q in old(skolems) ==> skolems == old(skolems) && bzla.nextSerial == old(bzla.nextSerial)
      ensures q !in old(skolems) ==>
                var r := SkolemFor(q, deps, backrefs, old(skolems), old(bzla.nextSerial));
                && sk == r.0 && skolems == r.1[q := sk] && bzla.nextSerial == r.2
                && sk.node.sort == q.children[0].node.sort
    {
      if q in skolems {
        return skolems[q];
      }
      sk := MkSkolem(q);
      skolems := skolems[q := sk];
    }

    // -------------------------------------------------------------------
    // Lemmas

    /** Asserts lem in the clone and caches it, unless it is cached (add_lemma, and the body of add_pending_lemmas). */
    method AssertUncached(lem: Ref) returns (added: bool)
      requires Valid() && Built(lem.node, bzla.nextSerial)
      modifies this`lemmaCache, bzla`lemmas
      ensures Valid()
      ensures added <==> lem !in old(lemmaCache)
      ensures bzla.lemmas == old(bzla.lemmas) + if added then [lem] else []
      ensures lemmaCache == old(lemmaCache) + {lem}
    {
      added := lem !in lemmaCache;
      if added {
        RefsBuiltAppend(bzla.Constraints(), lem, bzla.nextSerial);
        assert bzla.Constraints() + [lem] == bzla.formula + (bzla.lemmas + [lem]);
        bzla.lemmas := bzla.lemmas + [lem];
        lemmaCache := lemmaCache + {lem};
      }
    }

    /** Asserts lem in the clone unless it was asserted before (add_lemma). */
    method AddLemma(lem: Ref)
      requires Valid() && Built(lem.node, bzla.nextSerial)
      modifies this`lemmaCache, this`addedLemma, bzla`lemmas
      ensures Valid()
      ensures lem in bzla.lemmas && lem in lemmaCache
      ensures bzla.lemmas == old(bzla.lemmas) + if lem in old(lemmaCache) then [] else [lem]
      ensures lemmaCache == old(lemmaCache) + {lem}
      ensures addedLemma == (old(addedLemma) || lem !in old(lemmaCache))
      ensures instConstants == old(instConstants) && bzla.nextSerial == old(bzla.nextSerial)
    {
      var added := AssertUncached(lem);
      if added {
        addedLemma := true;
      }
    }

    /** Asserts every pending lemma not asserted before, then empties the stack (add_pending_lemmas). */
    method AddPendingLemmas() returns (added: bool)
      requires Valid()
      modifies this`lemmaCache, this`lemmasPending, bzla`lemmas
      ensures Valid()
      ensures lemmasPending == []
      ensures bzla.lemmas == old(bzla.lemmas) + NewLemmas(old(lemmasPending), old(lemmaCache))
      ensures forall l :: l in lemmaCache <==> l in old(lemmaCache) || l in old(lemmasPending)
      ensures added == (NewLemmas(old(lemmasPending), old(lemmaCache)) != [])
    {
      added := false;
      var pending := lemmasPending;
      for i := 0 to |pending|
        invariant bzla.lemmas == old(bzla.lemmas) + NewLemmas(pending[..i], old(lemmaCache))
        invariant forall l :: l in lemmaCache <==> l in old(lemmaCache) || l in pending[..i]
        invariant added == (NewLemmas(pending[..i], old(lemmaCache)) != [])
        invariant Valid()
      {
        var lem := pending[i];
        PrefixStep(pending, i);
        NewLemmasSnoc(pending[..i], lem, old(lemmaCache));
        var isNew := AssertUncached(lem);
        added := added || isNew;
      }
      assert pending[..|pending|] == pending;
      lemmasPending := [];
    }

    /** The skolems of the binders of a chain, created where missing. */
    method SkolemsFor(chain: seq<Node>) returns (vals: seq<Ref>)
      requires forall i :: 0 <= i < |chain| ==> |chain[i].children| > 0
      requires Valid()
      modifies this`skolems, bzla`nextSerial
      ensures Valid()
      ensures Extends(old(skolems), skolems) && bzla.nextSerial >= old(bzla.nextSerial)
      ensures (forall i :: 0 <= i < |chain| ==> chain[i] in skolems) && vals == Lookup(chain, skolems)
      ensures SubstValues(vals, bzla.nextSerial)
    {
      vals := [];
      for i := 0 to |chain|
        invariant Valid()
        invariant Extends(old(skolems), skolems) && bzla.nextSerial >= old(bzla.nextSerial)
        invariant |vals| == i && forall j :: 0 <= j < i ==> chain[j] in skolems && vals[j] == skolems[chain[j]]
      {
        var sk := GetSkolem(chain[i]);
        vals := vals + [sk];
      }
      CachedValues(chain, skolems);
    }

    /** The cached skolems or instantiation constants of a chain are values instantiate may substitute. */
    lemma CachedValues(chain: seq<Node>, m: map<Node, Ref>)
      requires Valid() && (m == skolems || m == instConstants)
      requires forall i :: 0 <= i < |chain| ==> chain[i] in m
      ensures SubstValues(Lookup(chain, m), bzla.nextSerial)
    {
    }

    /** The instantiation constants of the binders of a chain, created where missing. */
    method InstConstantsFor(chain: seq<Node>) returns (vals: seq<Ref>)
      requires forall i :: 0 <= i < |chain| ==> |chain[i].children| > 0
      requires Valid()
      modifies this`instConstants, bzla`nextSerial
      ensures Valid()
      ensures Extends(old(instConstants), instConstants) && bzla.nextSerial >= old(bzla.nextSerial)
      ensures (forall i :: 0 <= i < |chain| ==> chain[i] in instConstants) && vals == Lookup(chain, instConstants)
      ensures SubstValues(vals, bzla.nextSerial)
    {
      vals := [];
      for i := 0 to |chain|
        invariant Valid()
        invariant Extends(old(instConstants), instConstants) && bzla.nextSerial >= old(bzla.nextSerial)
        invariant |vals| == i && forall j :: 0 <= j < i ==> chain[j] in instConstants && vals[j] == instConstants[chain[j]]
      {
        var ic := GetInstConstant(chain[i]);
        vals := vals + [ic];
      }
      CachedValues(chain, instConstants);
    }

    // -------------------------------------------------------------------
    // Instantiation lemmas

    /** The skolemization lemma of q, built once (get_skolemization_lemma). */
    method GetSkolemizationLemma(q: Node) returns (lem: Ref)
      requires IsQuantifier(q) && Valid() && Built(q, bzla.nextSerial)
      modifies this`skolemizationLemmas, this`skolems, this`backrefs, this`deps, bzla`nextSerial
      ensures Valid() && Built(lem.node, bzla.nextSerial)
      ensures q in skolemizationLemmas && lem == skolemizationLemmas[q]
      ensures Extends(old(skolemizationLemmas), skolemizationLemmas) && Extends(old(skolems), skolems)
      ensures Extends(old(backrefs), backrefs) && Extends(old(deps), deps)
      ensures bzla.nextSerial >= old(bzla.nextSerial)
      ensures q in old(skolemizationLemmas) ==>
                && skolemizationLemmas == old(skolemizationLemmas) && skolems == old(skolems)
                && backrefs == old(backrefs) && deps == old(deps) && bzla.nextSerial == old(bzla.nextSerial)
      ensures q !in old(skolemizationLemmas) ==>
                var chain := BinderChain(q);
                && (forall i :: 0 <= i < |chain| ==> chain[i] in skolems)
                && skolemizationLemmas == old(skolemizationLemmas)[q := lem]
                && exists base: nat :: old(bzla.nextSerial) <= base < bzla.nextSerial &&
                     lem == SkolemizationLemmaFor(q, Lookup(chain, skolems), base)
    {
      if q in skolemizationLemmas {
        return skolemizationLemmas[q];
      }
      lem := NewSkolemizationLemma(q);
    }

    /** Builds the skolemization lemma of q and caches it. */
    method NewSkolemizationLemma(q: Node) returns (lem: Ref)
      requires IsQuantifier(q) && Valid() && Built(q, bzla.nextSerial)
      modifies this`skolemizationLemmas, this`skolems, this`backrefs, this`deps, bzla`nextSerial
      ensures Valid() && Built(lem.node, bzla.nextSerial)
      ensures Extends(old(skolems), skolems) && Extends(old(backrefs), backrefs) && Extends(old(deps), deps)
      ensures bzla.nextSerial > old(bzla.nextSerial)
      ensures var chain := BinderChain(q);
              && (forall i :: 0 <= i < |chain| ==> chain[i] in skolems)
              && skolemizationLemmas == old(skolemizationLemmas)[q := lem]
              && exists base: nat :: old(bzla.nextSerial) <= base < bzla.nextSerial &&
                   lem == SkolemizationLemmaFor(q, Lookup(chain, skolems), base)
    {
      var sks := SkolemsFor(BinderChain(q));
      BuiltMono(q, old(bzla.nextSerial), bzla.nextSerial);
      ghost var base;
      lem, base := MkSkolemizationLemma(q, sks);
    }

    method CacheSkolemizationLemma(q: Node, lem: Ref)
      requires Valid() && Built(lem.node, bzla.nextSerial)
      modifies this`skolemizationLemmas
      ensures Valid() && skolemizationLemmas == old(skolemizationLemmas)[q := lem]
    {
      skolemizationLemmas := skolemizationLemmas[q := lem];
    }

    /**
     * Builds the skolemization lemma of q for the skolems sks of its binders:
     * not q implies that its instance by them is false (the construction
     * in get_skolemization_lemma).
     */
    method MkSkolemizationLemma(q: Node, sks: seq<Ref>) returns (lem: Ref, ghost base: nat)
      requires IsQuantifier(q) && Valid() && Built(q, bzla.nextSerial)
      requires |sks| == |BinderChain(q)| && SubstValues(sks, bzla.nextSerial)
      modifies this`backrefs, this`deps, bzla`nextSerial, this`skolemizationLemmas
      ensures Valid() && Built(lem.node, bzla.nextSerial)
      ensures Extends(old(backrefs), backrefs) && Extends(old(deps), deps)
      ensures old(bzla.nextSerial) == base < bzla.nextSerial
      ensures lem == SkolemizationLemmaFor(q, sks, base)
      ensures skolemizationLemmas == old(skolemizationLemmas)[q := lem]
    {
      base := bzla.nextSerial;
      var inst := InstantiateChain(q, sks);
      lem := MkImplies(Invert(Plain(q)), Invert(inst));
      ImpliesBuilt(Invert(Plain(q)), Invert(inst), bzla.nextSerial);
      CacheSkolemizationLemma(q, lem);
    }

    /** Instantiates q with vals for the variables of its binder chain (instantiate). */
    method InstantiateChain(q: Node, vals: seq<Ref>) returns (inst: Ref)
      requires IsQuantifier(q) && Valid() && Built(q, bzla.nextSerial)
      requires |vals| == |BinderChain(q)| && SubstValues(vals, bzla.nextSerial)
      modifies this`backrefs, this`deps, bzla`nextSerial
      ensures Valid() && Built(inst.node, bzla.nextSerial) && Built(q, bzla.nextSerial)
      ensures inst == Rewrite(q, BinderSubst(BinderChain(q), vals), old(bzla.nextSerial))
      ensures old(bzla.nextSerial) < bzla.nextSerial
      ensures Extends(old(backrefs), backrefs) && Extends(old(deps), deps)
      ensures instConstants == old(instConstants)
    {
      BinderSubstValues(BinderChain(q), vals, bzla.nextSerial);
      inst := Instantiate(q, BinderSubst(BinderChain(q), vals));
      BuiltMono(q, old(bzla.nextSerial), bzla.nextSerial);
    }

    /** The counterexample lemma of q, built once (get_ce_lemma). */
    method GetCeLemma(q: Node) returns (lem: Ref)
      requires IsQuantifier(q) && Valid() && Built(q, bzla.nextSerial)
      modifies this`ceLemmas, this`instConstants, this`backrefs, this`deps, this`ceLiterals, this`ceOrder,
               this`ceOwner, bzla`nextSerial
      ensures Valid() && Built(lem.node, bzla.nextSerial)
      ensures q in ceLemmas && lem == ceLemmas[q]
      ensures Extends(old(ceLemmas), ceLemmas) && Extends(old(ceLiterals), ceLiterals)
      ensures Extends(old(instConstants), instConstants)
      ensures Extends(old(backrefs), backrefs) && Extends(old(deps), deps)
      ensures q in old(ceLemmas) ==>
                && ceLemmas == old(ceLemmas) && instConstants == old(instConstants) && ceLiterals == old(ceLiterals)
                && ceOrder == old(ceOrder) && backrefs == old(backrefs) && deps == old(deps)
                && bzla.nextSerial == old(bzla.nextSerial)
      ensures q !in old(ceLemmas) ==>
                var chain := BinderChain(q);
                && q in ceLiterals
                && (forall i :: 0 <= i < |chain| ==> chain[i] in instConstants)
                && ceLemmas == old(ceLemmas)[q := lem]
                && exists base: nat :: old(bzla.nextSerial) <= base < bzla.nextSerial &&
                     lem == CeLemmaFor(q, ceLiterals[q], Lookup(chain, instConstants), base)
    {
      if q in ceLemmas {
        return ceLemmas[q];
      }
      lem := NewCeLemma(q);
    }

    /** Builds the counterexample lemma of q and caches it. */
    method NewCeLemma(q: Node) returns (lem: Ref)
      requires IsQuantifier(q) && Valid() && Built(q, bzla.nextSerial)
      modifies this`ceLemmas, this`instConstants, this`backrefs, this`deps, this`ceLiterals, this`ceOrder,
               this`ceOwner, bzla`nextSerial
      ensures Valid() && Built(lem.node, bzla.nextSerial)
      ensures Extends(old(ceLiterals), ceLiterals) && Extends(old(instConstants), instConstants)
      ensures Extends(old(backrefs), backrefs) && Extends(old(deps), deps)
      ensures var chain := BinderChain(q);
              && q in ceLiterals
              && (forall i :: 0 <= i < |chain| ==> chain[i] in instConstants)
              && ceLemmas == old(ceLemmas)[q := lem]
              && exists base: nat :: old(bzla.nextSerial) <= base < bzla.nextSerial &&
                   lem == CeLemmaFor(q, ceLiterals[q], Lookup(chain, instConstants), base)
    {
      var ics := InstConstantsFor(BinderChain(q));
      BuiltMono(q, old(bzla.nextSerial), bzla.nextSerial);
      ghost var base;
      lem, base := MkCeLemma(q, ics);
    }

    /**
     * Builds the counterexample lemma of q for the instantiation constants
     * ics of its binders and caches it: the literal of q implies that the
     * instance of q by them is false (the construction in get_ce_lemma).
     */
    method MkCeLemma(q: Node, ics: seq<Ref>) returns (lem: Ref, ghost base: nat)
      requires IsQuantifier(q) && Valid() && Built(q, bzla.nextSerial)
      requires |ics| == |BinderChain(q)| && SubstValues(ics, bzla.nextSerial)
      modifies this`ceLemmas, this`backrefs, this`deps, this`ceLiterals, this`ceOrder, this`ceOwner, bzla`nextSerial
      ensures Valid() && Built(lem.node, bzla.nextSerial)
      ensures Extends(old(ceLiterals), ceLiterals) && Extends(old(backrefs), backrefs) && Extends(old(deps), deps)
      ensures old(bzla.nextSerial) == base < bzla.nextSerial
      ensures q in ceLiterals && lem == CeLemmaFor(q, ceLiterals[q], ics, base)
      ensures ceLemmas == old(ceLemmas)[q := lem] && instConstants == old(instConstants)
    {
      base := bzla.nextSerial;
      var inst := InstantiateChain(q, ics);
      lem := CacheCeLemma(q, inst);
    }

    /** Caches the implication from the counterexample literal of q to the negated instance inst. */
    method CacheCeLemma(q: Node, inst: Ref) returns (lem: Ref)
      requires Valid() && Built(inst.node, bzla.nextSerial)
      modifies this`ceLemmas, this`ceLiterals, this`ceOrder, this`ceOwner, bzla`nextSerial
      ensures Valid() && Built(lem.node, bzla.nextSerial)
      ensures Extends(old(ceLiterals), ceLiterals) && bzla.nextSerial >= old(bzla.nextSerial)
      ensures q in ceLiterals && lem == MkImplies(ceLiterals[q], Invert(inst))
      ensures ceLemmas == old(ceLemmas)[q := lem]
      ensures backrefs == old(backrefs) && deps == old(deps) && instConstants == old(instConstants)
    {
      ghost var serial := bzla.nextSerial;
      var lit := GetCeLiteral(q);
      lem := MkImplies(lit, Invert(inst));
      BuiltMono(inst.node, serial, bzla.nextSerial);
      ImpliesBuilt(lit, Invert(inst), bzla.nextSerial);
      StoreCeLemma(q, lem);
    }

    method StoreCeLemma(q: Node, lem: Ref)
      requires Valid() && Built(lem.node, bzla.nextSerial)
      modifies this`ceLemmas
      ensures Valid() && ceLemmas == old(ceLemmas)[q := lem]
    {
      ceLemmas := ceLemmas[q := lem];
    }

    /**
     * Builds the value instantiation lemma of q: q implies its instance by
     * the model values of its instantiation constants (the construction in
     * add_value_instantiation_lemma).
     */
    method MkValueLemma(q: Node) returns (lem: Ref, ghost values: seq<Ref>, ghost base: nat)
      requires IsQuantifier(q) && Valid() && Built(q, bzla.nextSerial)
      modifies this`instConstants, this`backrefs, this`deps, bzla`nextSerial
      ensures Valid() && Built(lem.node, bzla.nextSerial)
      ensures Extends(old(instConstants), instConstants)
      ensures Extends(old(backrefs), backrefs) && Extends(old(deps), deps)
      ensures old(bzla.nextSerial) <= base < bzla.nextSerial
      ensures var chain := BinderChain(q);
              && (forall i :: 0 <= i < |chain| ==> chain[i] in instConstants)
              && values == ModelValues(bzla.engine, bzla.lastConstraints, bzla.lastAssumptions,
                                       Lookup(chain, instConstants))
      ensures |values| == |BinderChain(q)| && lem == ValueLemmaFor(q, values, base)
    {
      var ics := InstConstantsFor(BinderChain(q));
      var vals := ModelValues(bzla.engine, bzla.lastConstraints, bzla.lastAssumptions, ics);
      assert SubstValues(vals, bzla.nextSerial);
      BuiltMono(q, old(bzla.nextSerial), bzla.nextSerial);
      values := vals;
      lem, base := BuildValueLemma(q, vals);
    }

    /** Builds the value instantiation lemma of q for the values vals of its binders. */
    method BuildValueLemma(q: Node, vals: seq<Ref>) returns (lem: Ref, ghost base: nat)
      requires IsQuantifier(q) && Valid() && Built(q, bzla.nextSerial)
      requires |vals| == |BinderChain(q)| && SubstValues(vals, bzla.nextSerial)
      modifies this`backrefs, this`deps, bzla`nextSerial
      ensures Valid() && Built(lem.node, bzla.nextSerial)
      ensures Extends(old(backrefs), backrefs) && Extends(old(deps), deps) && instConstants == old(instConstants)
      ensures old(bzla.nextSerial) == base < bzla.nextSerial
      ensures lem == ValueLemmaFor(q, vals, base)
    {
      base := bzla.nextSerial;
      var inst := InstantiateChain(q, vals);
      lem := MkImplies(Plain(q), inst);
      ImpliesBuilt(Plain(q), inst, bzla.nextSerial);
    }

    /**
     * Instantiates q by the model values of its instantiation constants and
     * asserts that q implies the instance (add_value_instantiation_lemma).
     */
    method AddValueInstantiationLemma(q: Node) returns (ghost lem: Ref, ghost values: seq<Ref>, ghost base: nat)
      requires IsQuantifier(q) && Valid() && Built(q, bzla.nextSerial)
      modifies this`instConstants, this`backrefs, this`deps, bzla`nextSerial, this`lemmaCache, this`addedLemma,
               bzla`lemmas
      ensures Valid()
      ensures Extends(old(instConstants), instConstants)
      ensures old(bzla.nextSerial) <= base < bzla.nextSerial
      ensures var chain := BinderChain(q);
              && (forall i :: 0 <= i < |chain| ==> chain[i] in instConstants)
              && values == ModelValues(bzla.engine, bzla.lastConstraints, bzla.lastAssumptions,
                                       Lookup(chain, instConstants))
      ensures |values| == |BinderChain(q)| && lem == ValueLemmaFor(q, values, base)
      ensures bzla.lemmas == old(bzla.lemmas) + (if lem in old(lemmaCache) then [] else [lem])
      ensures lemmaCache == old(lemmaCache) + {lem}
      ensures addedLemma == (old(addedLemma) || lem !in old(lemmaCache))
    {
      var l;
      l, values, base := MkValueLemma(q);
      AddLemma(l);
      lem := l;
    }

    // -------------------------------------------------------------------
    // Active quantifiers and dependencies

    /**
     * Collects the top-level quantifiers of the asserted formulas that are
     * not inactive, with their phase in the model of the last check
     * (get_active_quantifiers).
     */
    method GetActiveQuantifiers()
      requires Valid()
      modifies this`activeOrder, this`phase
      ensures Valid()
      ensures forall q :: q in activeOrder <==> q in TopsOf(bzla.Constraints()) && q !in inactive
      ensures forall q :: q in phase ==>
                phase[q] == (bzla.engine.assignment(bzla.lastConstraints, bzla.lastAssumptions, q) == 1)
    {
      var order, ph := CollectTopQuantifiers(bzla.Constraints(), inactive, bzla.engine,
                                             bzla.lastConstraints, bzla.lastAssumptions);
      forall q | q in ph ensures Built(q, bzla.nextSerial) {
        TopsBuilt(bzla.Constraints(), q, bzla.nextSerial);
      }
      activeOrder, phase := order, ph;
    }

    /**
     * Gives every parameterized quantifier of the clone that has none yet
     * the list of universal variables it depends on
     * (compute_variable_dependencies).
     */
    method ComputeVariableDependencies()
      requires Valid() && NoLambdaBindsForallVars(bzla.quantifiers)
      modifies this`deps
      ensures Valid()
      ensures Extends(old(deps), deps)
      ensures forall q :: q in bzla.quantifiers && Parameterized(q) ==> q in deps
      ensures forall q :: q in deps && q !in old(deps) ==>
                q in bzla.quantifiers && Parameterized(q) && DependencyList(q, deps[q])
    {
      var quantifiers := bzla.quantifiers;
      for i := 0 to |quantifiers|
        invariant Valid()
        invariant Extends(old(deps), deps)
        invariant forall j :: 0 <= j < i && Parameterized(quantifiers[j]) ==> quantifiers[j] in deps
        invariant forall q :: q in deps && q !in old(deps) ==>
                    q in quantifiers[..i] && Parameterized(q) && DependencyList(q, deps[q])
      {
        ComputeDependenciesOf(quantifiers[i]);
      }
    }

    /** The loop body of compute_variable_dependencies for the quantifier q of the clone. */
    method ComputeDependenciesOf(q: Node)
      requires Valid() && q in bzla.quantifiers && NoLambdaBindsForallVar(q)
      modifies this`deps
      ensures Valid() && Extends(old(deps), deps)
      ensures Parameterized(q) ==> q in deps
      ensures forall x :: x in deps && x !in old(deps) ==> x == q && Parameterized(q) && DependencyList(q, deps[q])
    {
      if !Parameterized(q) {
        return;
      }
      if q in deps {
        return;
      }
      var freeVars := VariableDependencies(q);
      DependenciesBuilt(q, freeVars, bzla.nextSerial);
      AddDependencies(q, freeVars);
    }

    /** Records the dependency list ds of q. */
    method AddDependencies(q: Node, ds: seq<Ref>)
      requires Valid() && Built(q, bzla.nextSerial) && RefsBuilt(ds, bzla.nextSerial)
      modifies this`deps
      ensures Valid() && deps == old(deps)[q := ds]
    {
      DepsTableAdd(deps, q, ds, bzla.nextSerial);
      deps := deps[q := ds];
    }

    // -------------------------------------------------------------------
    // One refinement round (check_active_quantifiers)

    /** Asserts the counterexample lemma of q (add_lemma on get_ce_lemma). */
    method AddCeLemma(q: Node)
      requires IsQuantifier(q) && Valid() && Built(q, bzla.nextSerial)
      modifies this`ceLemmas, this`instConstants, this`backrefs, this`deps, this`ceLiterals, this`ceOrder,
               this`ceOwner, this`lemmaCache, this`addedLemma, bzla`nextSerial, bzla`lemmas
      ensures Valid()
      ensures q in ceLemmas && ceLemmas[q] in lemmaCache && ceLemmas[q] in bzla.lemmas
      ensures Extends(old(ceLemmas), ceLemmas) && old(lemmaCache) <= lemmaCache
      ensures LemmaFlagTracks(old(addedLemma), old(bzla.lemmas), addedLemma, bzla.lemmas)
    {
      var lem := GetCeLemma(q);
      AddLemma(lem);
    }

    /** Asserts the skolemization lemma of q (add_lemma on get_skolemization_lemma). */
    method AddSkolemizationLemma(q: Node)
      requires IsQuantifier(q) && Valid() && Built(q, bzla.nextSerial)
      modifies this`skolemizationLemmas, this`skolems, this`backrefs, this`deps, this`lemmaCache, this`addedLemma,
               bzla`nextSerial, bzla`lemmas
      ensures Valid()
      ensures q in skolemizationLemmas && skolemizationLemmas[q] in lemmaCache && skolemizationLemmas[q] in bzla.lemmas
      ensures Extends(old(skolemizationLemmas), skolemizationLemmas) && old(lemmaCache) <= lemmaCache
      ensures LemmaFlagTracks(old(addedLemma), old(bzla.lemmas), addedLemma, bzla.lemmas)
    {
      var lem := GetSkolemizationLemma(q);
      AddLemma(lem);
    }

    /**
     * The body of the first loop of check_active_quantifiers for the active
     * quantifier q: the counterexample lemma when q is universal and not
     * inactive (then q is to be checked), the skolemization lemma when q is
     * existential.
     */
    method AddActiveLemma(q: Node) returns (checkIt: bool)
      requires Valid() && q in activeOrder
      modifies this`ceLemmas, this`instConstants, this`backrefs, this`deps, this`ceLiterals, this`ceOrder,
               this`ceOwner, this`skolemizationLemmas, this`skolems, this`lemmaCache, this`addedLemma, bzla`nextSerial, bzla`lemmas
      ensures Valid()
      ensures checkIt <==> IsForall(q) && !IsInactive(q)
      ensures checkIt ==> q in ceLemmas && ceLemmas[q] in lemmaCache
      ensures IsExists(q) ==> q in skolemizationLemmas && skolemizationLemmas[q] in lemmaCache
      ensures Extends(old(ceLemmas), ceLemmas) && Extends(old(skolemizationLemmas), skolemizationLemmas)
      ensures old(lemmaCache) <= lemmaCache
      ensures LemmaFlagTracks(old(addedLemma), old(bzla.lemmas), addedLemma, bzla.lemmas)
    {
      checkIt := false;
      if IsForall(q) {
        if !IsInactive(q) {
          AddCeLemma(q);
          checkIt := true;
        }
      } else {
        AddSkolemizationLemma(q);
      }
    }

    /**
     * One step of the first pass of check_active_quantifiers: handles the
     * active quantifier order[i], keeping what the pass promises for the
     * quantifiers before it true for the quantifiers up to it.
     */
    method AddActiveLemmaAt(order: seq<Node>, i: nat, toCheck: seq<Node>, ghost flag0: bool, ghost lemmas0: seq<Ref>)
      returns (toCheck': seq<Node>)
      requires Valid() && activeOrder == order && i < |order|
      requires toCheck == ToCheck(order[..i], phase, inactive)
      requires LemmasCached(toCheck, ceLemmas, lemmaCache)
      requires ExistsLemmasCached(order[..i], phase, skolemizationLemmas, lemmaCache)
      requires LemmaFlagTracks(flag0, lemmas0, addedLemma, bzla.lemmas)
      modifies this`ceLemmas, this`instConstants, this`backrefs, this`deps, this`ceLiterals, this`ceOrder,
               this`ceOwner, this`skolemizationLemmas, this`skolems, this`lemmaCache, this`addedLemma, bzla`nextSerial, bzla`lemmas
      ensures Valid()
      ensures toCheck' == ToCheck(order[..i + 1], phase, inactive)
      ensures LemmasCached(toCheck', ceLemmas, lemmaCache)
      ensures ExistsLemmasCached(order[..i + 1], phase, skolemizationLemmas, lemmaCache)
      ensures LemmaFlagTracks(flag0, lemmas0, addedLemma, bzla.lemmas)
    {
      var q := order[i];
      ghost var ce, sk, cache, flag, lemmas := ceLemmas, skolemizationLemmas, lemmaCache, addedLemma, bzla.lemmas;
      var checkIt := AddActiveLemma(q);
      LemmasCachedGrow(toCheck, ce, cache, ceLemmas, lemmaCache);
      ExistsLemmasCachedGrow(order[..i], phase, sk, cache, skolemizationLemmas, lemmaCache);
      LemmaFlagTracksTrans(flag0, lemmas0, flag, lemmas, addedLemma, bzla.lemmas);
      PrefixStep(order, i);
      ToCheckSnoc(order[..i], q, phase, inactive);
      toCheck' := if checkIt then toCheck + [q] else toCheck;
    }

    /**
     * The first pass of check_active_quantifiers: asserts the counterexample
     * lemma of every universal active quantifier that is not inactive, and
     * the skolemization lemma of every existential one.  Gives the
     * quantifiers whose counterexamples are checked next.
     */
    method AddActiveLemmas() returns (toCheck: seq<Node>)
      requires Valid()
      modifies this`ceLemmas, this`instConstants, this`backrefs, this`deps, this`ceLiterals, this`ceOrder,
               this`ceOwner, this`skolemizationLemmas, this`skolems, this`lemmaCache, this`addedLemma, bzla`nextSerial, bzla`lemmas
      ensures Valid()
      ensures toCheck == ToCheck(activeOrder, phase, inactive)
      ensures LemmasCached(toCheck, ceLemmas, lemmaCache)
      ensures ExistsLemmasCached(activeOrder, phase, skolemizationLemmas, lemmaCache)
      ensures LemmaFlagTracks(old(addedLemma), old(bzla.lemmas), addedLemma, bzla.lemmas)
    {
      toCheck := [];
      var order := activeOrder;
      for i := 0 to |order|
        invariant Valid()
        invariant toCheck == ToCheck(order[..i], phase, inactive)
        invariant LemmasCached(toCheck, ceLemmas, lemmaCache)
        invariant ExistsLemmasCached(order[..i], phase, skolemizationLemmas, lemmaCache)
        invariant LemmaFlagTracks(old(addedLemma), old(bzla.lemmas), addedLemma, bzla.lemmas)
      {
        toCheck := AddActiveLemmaAt(order, i, toCheck, old(addedLemma), old(bzla.lemmas));
      }
      assert order[..|order|] == order;
    }

    /**
     * lem is the value instantiation lemma of q for the model values, in
     * the last check, of the instantiation constants of q's binders, and
     * it is asserted.
     */
    ghost predicate ValueLemmaAsserted(q: Node, lem: Ref, values: seq<Ref>, base: nat)
      reads this`instConstants, this`lemmaCache, bzla`lemmas, bzla`lastConstraints, bzla`lastAssumptions
    {
      var chain := BinderChain(q);
      && (forall i :: 0 <= i < |chain| ==> chain[i] in instConstants)
      && values == ModelValues(bzla.engine, bzla.lastConstraints, bzla.lastAssumptions, Lookup(chain, instConstants))
      && lem == ValueLemmaFor(q, values, base)
      && lem in lemmaCache && lem in bzla.lemmas
    }

    /**
     * What the check of q under its literal lit leads to (the branches of
     * the second loop of check_active_quantifiers): the value instantiation
     * lemma of q on SAT, otherwise q becomes inactive when lit failed.
     */
    method Refine(q: Node, lit: Ref, res: SolverResult)
      returns (deactivated: bool, ghost lem: Ref, ghost values: seq<Ref>, ghost base: nat)
      requires Valid() && IsQuantifier(q) && Built(q, bzla.nextSerial) && q !in inactive
      requires res == bzla.engine.sat(bzla.lastConstraints, bzla.lastAssumptions)
      modifies this`instConstants, this`backrefs, this`deps, this`lemmaCache, this`addedLemma, this`inactive,
               bzla`nextSerial, bzla`lemmas
      ensures Valid()
      ensures inactive == if deactivated then old(inactive) + {q} else old(inactive)
      ensures deactivated <==> res != Sat && bzla.engine.failed(bzla.lastConstraints, bzla.lastAssumptions, lit)
      ensures res == Sat ==> ValueLemmaAsserted(q, lem, values, base)
      ensures res != Sat ==> bzla.lemmas == old(bzla.lemmas) && lemmaCache == old(lemmaCache)
      ensures old(lemmaCache) <= lemmaCache
      ensures LemmaFlagTracks(old(addedLemma), old(bzla.lemmas), addedLemma, bzla.lemmas)
    {
      deactivated, lem, values, base := false, lit, [], 0;
      if res == Sat {
        lem, values, base := AddValueInstantiationLemma(q);
      } else if bzla.engine.failed(bzla.lastConstraints, bzla.lastAssumptions, lit) {
        deactivated := true;
        SetInactive(q);
      }
    }

    /**
     * Checks q for a counterexample under its literal (the body of the
     * second loop of check_active_quantifiers).  On SAT the value
     * instantiation lemma of q is asserted; otherwise q becomes inactive
     * when its literal failed.
     */
    method CheckCounterexample(q: Node)
      returns (deactivated: bool, ghost lem: Ref, ghost values: seq<Ref>, ghost base: nat)
      requires Valid() && IsQuantifier(q) && Built(q, bzla.nextSerial) && q !in inactive
      modifies this`ceLiterals, this`ceOrder, this`ceOwner, this`instConstants, this`backrefs, this`deps,
               this`lemmaCache,
               this`addedLemma, this`inactive, bzla`nextSerial, bzla`lemmas, bzla`lastConstraints,
               bzla`lastAssumptions
      ensures Valid()
      ensures inactive == if deactivated then old(inactive) + {q} else old(inactive)
      ensures q in ceLiterals && bzla.lastAssumptions == [ceLiterals[q]]
      ensures deactivated <==>
                && bzla.engine.sat(bzla.lastConstraints, bzla.lastAssumptions) != Sat
                && bzla.engine.failed(bzla.lastConstraints, bzla.lastAssumptions, ceLiterals[q])
      ensures bzla.engine.sat(bzla.lastConstraints, bzla.lastAssumptions) == Sat ==>
                ValueLemmaAsserted(q, lem, values, base)
      ensures old(lemmaCache) <= lemmaCache
      ensures LemmaFlagTracks(old(addedLemma), old(bzla.lemmas), addedLemma, bzla.lemmas)
    {
      var lit := GetCeLiteral(q);
      BuiltMono(q, old(bzla.nextSerial), bzla.nextSerial);
      var res := bzla.Sat([lit]);
      deactivated, lem, values, base := Refine(q, lit, res);
    }

    /**
     * One step of the second pass of check_active_quantifiers: checks
     * toCheck[i] and counts it when it became inactive, keeping what the
     * pass promises for the quantifiers before it true up to it.
     */
    method CheckCounterexampleAt(toCheck: seq<Node>, i: nat, numInactive: nat, ghost inactive0: set<Node>)
      returns (numInactive': nat)
      requires Valid() && NoDups(toCheck) && i < |toCheck|
      requires forall q :: q in toCheck ==> q in phase && q !in inactive0
      requires inactive0 <= inactive && forall q :: q in inactive ==> q in inactive0 || q in toCheck[..i]
      requires numInactive <= i && (numInactive == i <==> forall j :: 0 <= j < i ==> toCheck[j] in inactive)
      modifies this`ceLiterals, this`ceOrder, this`ceOwner, this`instConstants, this`backrefs, this`deps,
               this`lemmaCache,
               this`addedLemma, this`inactive, bzla`nextSerial, bzla`lemmas, bzla`lastConstraints,
               bzla`lastAssumptions
      ensures Valid()
      ensures inactive0 <= inactive && forall q :: q in inactive ==> q in inactive0 || q in toCheck[..i + 1]
      ensures numInactive' <= i + 1 && (numInactive' == i + 1 <==> forall j :: 0 <= j < i + 1 ==> toCheck[j] in inactive)
      ensures old(lemmaCache) <= lemmaCache
      ensures LemmaFlagTracks(old(addedLemma), old(bzla.lemmas), addedLemma, bzla.lemmas)
    {
      var q := toCheck[i];
      assert forall j :: 0 <= j < i ==> toCheck[j] != q;
      PrefixStep(toCheck, i);
      var deactivated;
      ghost var lem: Ref, values: seq<Ref>, base: nat;
      deactivated, lem, values, base := CheckCounterexample(q);
      numInactive' := if deactivated then numInactive + 1 else numInactive;
    }

    /**
     * The second pass of check_active_quantifiers: checks each quantifier
     * for a counterexample and counts those that became inactive.  Done
     * when every one of them did.
     */
    method CheckCounterexamples(toCheck: seq<Node>, ghost flag0: bool, ghost lemmas0: seq<Ref>) returns (done: bool)
      requires Valid() && NoDups(toCheck)
      requires forall q :: q in toCheck ==> q in phase && q !in inactive
      requires LemmasCached(toCheck, ceLemmas, lemmaCache)
      requires ExistsLemmasCached(activeOrder, phase, skolemizationLemmas, lemmaCache)
      requires LemmaFlagTracks(flag0, lemmas0, addedLemma, bzla.lemmas)
      modifies this`ceLiterals, this`ceOrder, this`ceOwner, this`instConstants, this`backrefs, this`deps,
               this`lemmaCache,
               this`addedLemma, this`inactive, bzla`nextSerial, bzla`lemmas, bzla`lastConstraints,
               bzla`lastAssumptions
      ensures Valid()
      ensures old(inactive) <= inactive && forall q :: q in inactive ==> q in old(inactive) || q in toCheck
      ensures done <==> forall q :: q in toCheck ==> q in inactive
      ensures LemmasCached(toCheck, ceLemmas, lemmaCache)
      ensures ExistsLemmasCached(activeOrder, phase, skolemizationLemmas, lemmaCache)
      ensures LemmaFlagTracks(flag0, lemmas0, addedLemma, bzla.lemmas)
    {
      done := CheckEachCounterexample(toCheck, flag0, lemmas0);
      LemmasCachedMore(toCheck, activeOrder, phase, ceLemmas, skolemizationLemmas, old(lemmaCache), lemmaCache);
    }

    /** The loop of check_active_quantifiers over the quantifiers to check. */
    method CheckEachCounterexample(toCheck: seq<Node>, ghost flag0: bool, ghost lemmas0: seq<Ref>) returns (done: bool)
      requires Valid() && NoDups(toCheck)
      requires forall q :: q in toCheck ==> q in phase && q !in inactive
      requires LemmaFlagTracks(flag0, lemmas0, addedLemma, bzla.lemmas)
      modifies this`ceLiterals, this`ceOrder, this`ceOwner, this`instConstants, this`backrefs, this`deps,
               this`lemmaCache,
               this`addedLemma, this`inactive, bzla`nextSerial, bzla`lemmas, bzla`lastConstraints,
               bzla`lastAssumptions
      ensures Valid()
      ensures old(inactive) <= inactive && forall q :: q in inactive ==> q in old(inactive) || q in toCheck
      ensures done <==> forall q :: q in toCheck ==> q in inactive
      ensures old(lemmaCache) <= lemmaCache
      ensures LemmaFlagTracks(flag0, lemmas0, addedLemma, bzla.lemmas)
    {
      var numInactive: nat := 0;
      for i := 0 to |toCheck|
        invariant Valid()
        invariant old(inactive) <= inactive && forall q :: q in inactive ==> q in old(inactive) || q in toCheck[..i]
        invariant numInactive <= i && (numInactive == i <==> forall j :: 0 <= j < i ==> toCheck[j] in inactive)
        invariant old(lemmaCache) <= lemmaCache
        invariant LemmaFlagTracks(flag0, lemmas0, addedLemma, bzla.lemmas)
      {
        ghost var flag, lemmas := addedLemma, bzla.lemmas;
        numInactive := CheckCounterexampleAt(toCheck, i, numInactive, old(inactive));
        LemmaFlagTracksTrans(flag0, lemmas0, flag, lemmas, addedLemma, bzla.lemmas);
      }
      assert toCheck[..|toCheck|] == toCheck;
      done := numInactive == |toCheck|;
    }

    /**
     * One refinement round (check_active_quantifiers): the counterexample
     * lemma of every universal active quantifier that is not inactive and
     * the skolemization lemma of every existential one are asserted, and
     * the universal ones are checked for counterexamples.  Done exactly
     * when every universal active quantifier is inactive at the end.
     */
    method CheckActiveQuantifiers() returns (done: bool)
      requires Valid()
      modifies this`ceLemmas, this`instConstants, this`backrefs, this`deps, this`ceLiterals, this`ceOrder,
               this`ceOwner, this`skolemizationLemmas, this`skolems, this`lemmaCache, this`addedLemma, this`inactive,
               bzla`nextSerial, bzla`lemmas, bzla`lastConstraints, bzla`lastAssumptions
      ensures Valid()
      ensures LemmasCached(ToCheck(activeOrder, phase, old(inactive)), ceLemmas, lemmaCache)
      ensures ExistsLemmasCached(activeOrder, phase, skolemizationLemmas, lemmaCache)
      ensures old(inactive) <= inactive
      ensures forall q :: q in inactive && q !in old(inactive) ==> q in activeOrder && IsForall(q)
      ensures done <==> forall q :: q in activeOrder && IsForall(q) ==> q in inactive
      ensures LemmaFlagTracks(old(addedLemma), old(bzla.lemmas), addedLemma, bzla.lemmas)
    {
      var toCheck := AddActiveLemmas();
      done := CheckCounterexamples(toCheck, old(addedLemma), old(bzla.lemmas));
    }

    /**
     * Checks q under its counterexample literal (the body of the loop of
     * check_ce_literals): q becomes inactive when the check is UNSAT and
     * the literal failed.
     */
    method CheckCeLiteral(q: Node) returns (deactivated: bool)
      requires Valid() && q !in inactive
      modifies this`ceLiterals, this`ceOrder, this`ceOwner, this`inactive, bzla`nextSerial,
               bzla`lastConstraints, bzla`lastAssumptions
      ensures Valid()
      ensures inactive == if deactivated then old(inactive) + {q} else old(inactive)
      ensures q in ceLiterals && bzla.lastAssumptions == [ceLiterals[q]]
      ensures deactivated <==>
                && bzla.engine.sat(bzla.lastConstraints, bzla.lastAssumptions) == Unsat
                && bzla.engine.failed(bzla.lastConstraints, bzla.lastAssumptions, ceLiterals[q])
    {
      var lit := GetCeLiteral(q);
      var res := bzla.Sat([lit]);
      deactivated := res == Unsat && bzla.engine.failed(bzla.lastConstraints, bzla.lastAssumptions, lit);
      if deactivated {
        SetInactive(q);
      }
    }

    /**
     * One step of check_ce_literals: counts the active quantifier order[i]
     * when it is universal, and when it is not inactive yet checks its
     * literal and counts it as inactive when it became so.
     */
    method CheckCeLiteralAt(order: seq<Node>, i: nat, numActive: nat, numInactive: nat, ghost inactive0: set<Node>)
      returns (numActive': nat, numInactive': nat)
      requires Valid() && activeOrder == order && i < |order|
      requires inactive0 <= inactive && forall q :: q in inactive ==> q in inactive0 || (q in order[..i] && IsForall(q))
      requires numInactive <= numActive
      requires numInactive == numActive <==> forall q :: q in order[..i] && IsForall(q) ==> q in inactive
      modifies this`ceLiterals, this`ceOrder, this`ceOwner, this`inactive, bzla`nextSerial,
               bzla`lastConstraints, bzla`lastAssumptions
      ensures Valid()
      ensures inactive0 <= inactive && forall q :: q in inactive ==> q in inactive0 || (q in order[..i + 1] && IsForall(q))
      ensures numInactive' <= numActive'
      ensures numInactive' == numActive' <==> forall q :: q in order[..i + 1] && IsForall(q) ==> q in inactive
    {
      var q := order[i];
      assert q !in order[..i];
      PrefixStep(order, i);
      numActive', numInactive' := numActive, numInactive;
      if IsForall(q) {
        numActive' := numActive' + 1;
        if IsInactive(q) {
          numInactive' := numInactive' + 1;
        } else {
          var deactivated := CheckCeLiteral(q);
          if deactivated {
            numInactive' := numInactive' + 1;
          }
        }
      }
    }

    /**
     * Checks the counterexample literal of every universal active
     * quantifier that is not inactive yet, and marks the quantifier
     * inactive when the check is UNSAT and the literal failed
     * (check_ce_literals).  True when every universal active quantifier is
     * inactive at the end.
     */
    method CheckCeLiterals() returns (allInactive: bool)
      requires Valid()
      modifies this`ceLiterals, this`ceOrder, this`ceOwner, this`inactive, bzla`nextSerial,
               bzla`lastConstraints, bzla`lastAssumptions
      ensures Valid()
      ensures old(inactive) <= inactive
      ensures forall q :: q in inactive && q !in old(inactive) ==> q in activeOrder && IsForall(q)
      ensures allInactive <==> forall q :: q in activeOrder && IsForall(q) ==> q in inactive
    {
      var numInactive: nat, numActive: nat := 0, 0;
      var order := activeOrder;
      for i := 0 to |order|
        invariant Valid()
        invariant old(inactive) <= inactive
        invariant forall q :: q in inactive ==> q in old(inactive) || (q in order[..i] && IsForall(q))
        invariant numInactive <= numActive
        invariant numInactive == numActive <==> forall q :: q in order[..i] && IsForall(q) ==> q in inactive
      {
        numActive, numInactive := CheckCeLiteralAt(order, i, numActive, numInactive, old(inactive));
      }
      assert order[..|order|] == order;
      allInactive := numActive == numInactive;
    }

    // -------------------------------------------------------------------
    // The ground check

    /** The counterexample literals of the quantifiers that are not inactive, in creation order. */
    function GroundAssumptions(): (ls: seq<Ref>)
      reads this`ceOrder, this`ceLiterals, this`inactive
      requires forall q :: q in ceOrder ==> q in ceLiterals
      ensures forall l :: l in ls <==> exists q :: q in ceOrder && q !in inactive && ceLiterals[q] == l
    {
      LiveLiterals(ceOrder, ceLiterals, inactive)
    }

    /** The assumptions the ground check starts from (the first loop of check_ground_formulas). */
    method CollectGroundAssumptions() returns (assumptions: seq<Ref>)
      requires forall q :: q in ceOrder ==> q in ceLiterals
      ensures assumptions == GroundAssumptions()
    {
      assumptions := [];
      for i := 0 to |ceOrder|
        invariant assumptions == LiveLiterals(ceOrder[..i], ceLiterals, inactive)
      {
        assert ceOrder[..i + 1][..i] == ceOrder[..i];
        var q := ceOrder[i];
        if q in inactive {
          continue;
        }
        assumptions := assumptions + [ceLiterals[q]];
      }
      assert ceOrder[..|ceOrder|] == ceOrder;
    }

    /**
     * The assumptions that the last check did not report as failed, and
     * whether any did fail (the removal loop of check_ground_formulas).
     */
    method DropFailed(assumptions: seq<Ref>) returns (kept: seq<Ref>, failed: bool)
      ensures kept == Unfailed(bzla.engine, bzla.lastConstraints, bzla.lastAssumptions, assumptions)
      ensures failed <==> |kept| < |assumptions|
    {
      kept, failed := [], false;
      for j := 0 to |assumptions|
        invariant kept == Unfailed(bzla.engine, bzla.lastConstraints, bzla.lastAssumptions, assumptions[..j])
        invariant failed == (|kept| < j)
      {
        assert assumptions[..j + 1][..j] == assumptions[..j];
        var lit := assumptions[j];
        if bzla.engine.failed(bzla.lastConstraints, bzla.lastAssumptions, lit) {
          failed := true;
        } else {
          kept := kept + [lit];
        }
      }
      assert assumptions[..|assumptions|] == assumptions;
    }

    /**
     * Checks the ground formulas under the counterexample literals of the
     * quantifiers that are not inactive, dropping failed literals until the
     * check is SAT or no literal failed (check_ground_formulas).  An
     * inconsistent clone is UNSAT at once.
     */
    method CheckGroundFormulas() returns (res: SolverResult)
      requires Valid()
      modifies bzla`lastConstraints, bzla`lastAssumptions
      ensures bzla.inconsistent ==>
                res == Unsat && bzla.lastConstraints == old(bzla.lastConstraints)
                && bzla.lastAssumptions == old(bzla.lastAssumptions)
      ensures !bzla.inconsistent ==>
                && bzla.lastConstraints == bzla.Constraints()
                && (res, bzla.lastAssumptions) == GroundCheck(bzla.engine, bzla.Constraints(), GroundAssumptions())
    {
      if bzla.inconsistent {
        return Unsat;
      }
      var assumptions := CollectGroundAssumptions();
      ghost var seed := assumptions;
      var cs := bzla.Constraints();
      while true
        invariant GroundCheck(bzla.engine, cs, assumptions) == GroundCheck(bzla.engine, cs, seed)
        invariant cs == bzla.Constraints() && seed == GroundAssumptions()
        decreases |assumptions|
      {
        res := bzla.Sat(assumptions);
        if res == Sat {
          break;
        }
        var kept, failed := DropFailed(assumptions);
        if !failed {
          break;
        }
        assumptions := kept;
      }
    }

    /**
     * The part of a round of check_quantifiers after a SAT ground check:
     * the active quantifiers of the ground model, addedLemma reset, and one
     * round of instantiation (check_active_quantifiers).  The active
     * quantifiers are the top-level quantifiers of the formulas that are
     * not inactive, with the phase the model of the last check gives them,
     * their lemmas are asserted, and addedLemma says whether a new lemma was
     * asserted.
     */
    method InstantiationRound() returns (done: bool)
      requires Valid()
      modifies this`activeOrder, this`phase, this`ceLemmas, this`instConstants, this`backrefs, this`deps,
               this`ceLiterals, this`ceOrder, this`ceOwner, this`skolemizationLemmas, this`skolems,
               this`lemmaCache, this`addedLemma, this`inactive,
               bzla`nextSerial, bzla`lemmas, bzla`lastConstraints, bzla`lastAssumptions
      ensures Valid()
      ensures forall q :: q in activeOrder <==> q in TopsOf(old(bzla.Constraints())) && q !in old(inactive)
      ensures forall q :: q in phase ==>
                phase[q] == (bzla.engine.assignment(old(bzla.lastConstraints), old(bzla.lastAssumptions), q) == 1)
      ensures LemmasCached(ToCheck(activeOrder, phase, old(inactive)), ceLemmas, lemmaCache)
      ensures ExistsLemmasCached(activeOrder, phase, skolemizationLemmas, lemmaCache)
      ensures LemmaFlagTracks(false, old(bzla.lemmas), addedLemma, bzla.lemmas)
      ensures old(inactive) <= inactive
      ensures done <==> forall q :: q in activeOrder && IsForall(q) ==> q in inactive
    {
      GetActiveQuantifiers();
      addedLemma := false;
      done := CheckActiveQuantifiers();
    }

    /**
     * What a round that asserted no new lemma leaves after a SAT ground
     * check under the assumptions m: the asserted formulas are satisfiable
     * under m, the phase of each active quantifier is its value in that
     * model, and every top-level quantifier of the formulas is active or
     * inactive.
     */
    ghost predicate RoundModel(m: seq<Ref>)
      reads this`activeOrder, this`phase, this`inactive, bzla`lemmas
    {
      && bzla.engine.sat(bzla.Constraints(), m) == Sat
      && (forall q :: q in phase ==> phase[q] == (bzla.engine.assignment(bzla.Constraints(), m, q) == 1))
      && (forall q :: q in TopsOf(bzla.Constraints()) ==> q in activeOrder || q in inactive)
    }

    /**
     * One round of the refinement loop of check_quantifiers: the ground
     * check, and after a SAT ground check the instantiation round.  The
     * ground check runs on the formulas and lemmas asserted so far under
     * the literals of the quantifiers that are not inactive; groundAssumptions
     * are the literals it ends with.
     */
    method RefinementRound() returns (ground: SolverResult, done: bool, ghost groundAssumptions: seq<Ref>)
      requires Valid()
      modifies this`activeOrder, this`phase, this`ceLemmas, this`instConstants, this`backrefs, this`deps,
               this`ceLiterals, this`ceOrder, this`ceOwner, this`skolemizationLemmas, this`skolems,
               this`lemmaCache, this`addedLemma, this`inactive,
               bzla`nextSerial, bzla`lemmas, bzla`lastConstraints, bzla`lastAssumptions
      ensures Valid()
      ensures bzla.inconsistent ==> ground == Unsat
      ensures !bzla.inconsistent ==>
                (ground, groundAssumptions) == GroundCheck(bzla.engine, old(bzla.Constraints()), old(GroundAssumptions()))
      ensures ground != Sat ==> !done && bzla.lemmas == old(bzla.lemmas) && addedLemma == old(addedLemma)
      ensures ground != Sat ==> inactive == old(inactive) && ceOrder == old(ceOrder) && ceLiterals == old(ceLiterals)
      ensures old(inactive) <= inactive
      ensures ground == Sat && !addedLemma ==> RoundModel(groundAssumptions)
      ensures ground == Sat ==>
                && (forall q :: q in activeOrder <==> q in TopsOf(old(bzla.Constraints())) && q !in old(inactive))
                && (forall q :: q in phase ==>
                      phase[q] == (bzla.engine.assignment(old(bzla.Constraints()), groundAssumptions, q) == 1))
                && LemmasCached(ToCheck(activeOrder, phase, old(inactive)), ceLemmas, lemmaCache)
                && ExistsLemmasCached(activeOrder, phase, skolemizationLemmas, lemmaCache)
                && LemmaFlagTracks(false, old(bzla.lemmas), addedLemma, bzla.lemmas)
                && (done <==> forall q :: q in activeOrder && IsForall(q) ==> q in inactive)
    {
      ground := CheckGroundFormulas();
      groundAssumptions := bzla.lastAssumptions;
      done := false;
      if ground == Sat {
        GroundCheckEnds(bzla.engine, bzla.Constraints(), GroundAssumptions());
        done := InstantiationRound();
        if !addedLemma {
          LemmaFlagTracksNone(old(bzla.lemmas), bzla.lemmas);
        }
      }
    }
  }

  /**
   * The counterexample literal tables: the creation order lists each
   * quantifier with a literal once, every literal is a fresh Boolean
   * constant created before serial next, and owner maps the serial of each
   * literal back to its quantifier, so no two quantifiers share a literal.
   */
  ghost predicate CeTables(order: seq<Node>, lits: map<Node, Ref>, owner: map<nat, Node>, next: nat)
  {
    && NoDups(order)
    && (forall q :: q in order <==> q in lits)
    && (forall q :: q in lits ==>
          && IsBoolVar(lits[q])
          && lits[q].node.kind.serial < next
          && lits[q].node.kind.serial in owner && owner[lits[q].node.kind.serial] == q)
  }

  /** The literal of q is the literal of no other quantifier. */
  lemma CeLiteralsDistinct(order: seq<Node>, lits: map<Node, Ref>, owner: map<nat, Node>, next: nat, q: Node)
    requires CeTables(order, lits, owner, next) && q in lits
    ensures forall q' :: q' in lits && q' != q ==> lits[q'] != lits[q]
  {
    forall q' | q' in lits && q' != q
      ensures lits[q'] != lits[q]
    {
      assert owner[lits[q'].node.kind.serial] == q';
    }
  }

  lemma CeTablesGrow(order: seq<Node>, lits: map<Node, Ref>, owner: map<nat, Node>, next: nat, next': nat)
    requires CeTables(order, lits, owner, next) && next <= next'
    ensures CeTables(order, lits, owner, next')
  {
  }

  /** A literal created at serial next for a new quantifier keeps the tables consistent and distinct. */
  lemma CeTablesAdd(order: seq<Node>, lits: map<Node, Ref>, owner: map<nat, Node>, next: nat, q: Node)
    requires CeTables(order, lits, owner, next) && q !in lits
    ensures var lit := Plain(FreshVar(next, BoolSort));
            && CeTables(order + [q], lits[q := lit], owner[next := q], next + 1)
            && forall q' :: q' in lits ==> lits[q'] != lit
  {
    var lit := Plain(FreshVar(next, BoolSort));
    var lits' := lits[q := lit];
    assert q !in order;
    forall q' | q' in lits'
      ensures lits'[q'].node.kind.serial < next + 1
      ensures owner[next := q][lits'[q'].node.kind.serial] == q'
    {
      if q' != q {
        assert lits'[q'] == lits[q'];
      }
    }
  }

  /** The literals lits gives the quantifiers of order that are not inactive, in order. */
  function LiveLiterals(order: seq<Node>, lits: map<Node, Ref>, inactive: set<Node>): (ls: seq<Ref>)
    requires forall q :: q in order ==> q in lits
    ensures forall l :: l in ls <==> exists q :: q in order && q !in inactive && lits[q] == l
    decreases |order|
  {
    if order == [] then []
    else
      var k := |order| - 1;
      var prev := LiveLiterals(order[..k], lits, inactive);
      assert forall x :: x in order <==> x in order[..k] || x == order[k];
      if order[k] in inactive then prev else prev + [lits[order[k]]]
  }

  /** Every quantifier of qs has a lemma in ls, and that lemma is among the asserted ones. */
  ghost predicate LemmasCached(qs: seq<Node>, ls: map<Node, Ref>, cache: set<Ref>)
  {
    forall q :: q in qs ==> q in ls && ls[q] in cache
  }

  /** Every existential quantifier of qs (phase false) has a lemma in ls among the asserted ones. */
  ghost predicate ExistsLemmasCached(qs: seq<Node>, phase: map<Node, bool>, ls: map<Node, Ref>, cache: set<Ref>)
  {
    forall q :: q in qs && q in phase && !phase[q] ==> q in ls && ls[q] in cache
  }

  /** Lemma tables that only grow and a cache that only grows keep the lemmas asserted. */
  lemma LemmasCachedGrow(qs: seq<Node>, ls: map<Node, Ref>, cache: set<Ref>, ls': map<Node, Ref>, cache': set<Ref>)
    requires LemmasCached(qs, ls, cache) && Extends(ls, ls') && cache <= cache'
    ensures LemmasCached(qs, ls', cache')
  {
  }

  lemma ExistsLemmasCachedGrow(qs: seq<Node>, phase: map<Node, bool>, ls: map<Node, Ref>, cache: set<Ref>,
                               ls': map<Node, Ref>, cache': set<Ref>)
    requires ExistsLemmasCached(qs, phase, ls, cache) && Extends(ls, ls') && cache <= cache'
    ensures ExistsLemmasCached(qs, phase, ls', cache')
  {
  }

  /** A cache that only grows keeps both kinds of lemmas asserted. */
  lemma LemmasCachedMore(qs: seq<Node>, order: seq<Node>, phase: map<Node, bool>, ce: map<Node, Ref>,
                         sk: map<Node, Ref>, cache: set<Ref>, cache': set<Ref>)
    requires LemmasCached(qs, ce, cache) && ExistsLemmasCached(order, phase, sk, cache) && cache <= cache'
    ensures LemmasCached(qs, ce, cache') && ExistsLemmasCached(order, phase, sk, cache')
  {
  }

  /**
   * From lemma list l0 and flag a0 to lemma list l and flag a: the list
   * only grew, and the flag is set exactly when it was set before or a
   * lemma was added (the meaning of addedLemma).
   */
  ghost predicate LemmaFlagTracks(a0: bool, l0: seq<Ref>, a: bool, l: seq<Ref>)
  {
    l0 <= l && (a <==> a0 || |l0| < |l|)
  }

  lemma LemmaFlagTracksTrans(a0: bool, l0: seq<Ref>, a1: bool, l1: seq<Ref>, a2: bool, l2: seq<Ref>)
    requires LemmaFlagTracks(a0, l0, a1, l1) && LemmaFlagTracks(a1, l1, a2, l2)
    ensures LemmaFlagTracks(a0, l0, a2, l2)
  {
  }

  /** The quantifiers of an instance were built before b. */
  ghost predicate QuantifiersBuilt(qs: seq<Node>, b: nat)
  {
    forall q :: q in qs ==> Built(q, b)
  }

  /** No lambda in the quantifiers of an instance binds a universally bound parameter. */
  ghost predicate NoLambdaBindsForallVars(qs: seq<Node>)
  {
    forall q :: q in qs ==> NoLambdaBindsForallVar(q)
  }

  /** With the flag clear before and after, no lemma was added. */
  lemma LemmaFlagTracksNone(l0: seq<Ref>, l: seq<Ref>)
    requires LemmaFlagTracks(false, l0, false, l)
    ensures l0 == l
  {
  }

  /** The outcome of the quantifier solver's check: a result, or an abort. */
  datatype QuantOutcome = Aborted(reason: string) | Checked(result: SolverResult)

  /**
   * The quantifier solver of an instance (BzlaQuantSolver): the parts of
   * the user's instance its first check clones, and the solver state,
   * created on that first check.
   */
  class QuantSolver {
    const formula: seq<Ref>
    const inconsistent: bool
    const quantifiers: seq<Node>
    const incremental: bool
    /** The ground solver a fresh clone gets (bzla_new_fun_solver). */
    const cloneEngine: Engine
    /** The serial of the next node the clone creates. */
    const firstSerial: nat
    var state: QuantSolverState?

    /**
     * What the instance guarantees of its formulas and quantifiers: they
     * were built before the clone's first serial, and no lambda in a
     * quantifier binds a universally bound parameter.
     */
    ghost predicate InputValid()
    {
      && RefsBuilt(formula, firstSerial) && QuantifiersBuilt(quantifiers, firstSerial)
      && NoLambdaBindsForallVars(quantifiers)
    }

    ghost predicate Valid()
      reads this, state, if state == null then {} else {state.bzla}
    {
      && InputValid()
      && (state != null ==> state.Valid() && state.bzla.quantifiers == quantifiers)
    }

    constructor (formula: seq<Ref>, inconsistent: bool, quantifiers: seq<Node>, incremental: bool,
                 cloneEngine: Engine, firstSerial: nat)
      requires RefsBuilt(formula, firstSerial) && QuantifiersBuilt(quantifiers, firstSerial)
      requires NoLambdaBindsForallVars(quantifiers)
      ensures Valid() && state == null
      ensures this.formula == formula && this.inconsistent == inconsistent && this.quantifiers == quantifiers
      ensures this.incremental == incremental && this.cloneEngine == cloneEngine && this.firstSerial == firstSerial
    {
      this.formula, this.inconsistent, this.quantifiers := formula, inconsistent, quantifiers;
      this.incremental, this.cloneEngine, this.firstSerial := incremental, cloneEngine, firstSerial;
      state := null;
    }

    /** The lemmas asserted in the clone so far; none before the clone exists. */
    ghost function Lemmas(): seq<Ref>
      reads this, state, if state == null then {} else {state.bzla}
    {
      if state == null then [] else state.bzla.lemmas
    }

    /**
     * The refinement loop (check_quantifiers): the ground check decides
     * UNSAT; after a SAT ground check a round of instantiation decides SAT
     * when every universal active quantifier is inactive and no new lemma
     * was asserted, UNKNOWN when no new lemma was asserted otherwise, and
     * loops when a lemma was asserted.  The loop runs at most fuel rounds,
     * and runs out only when each of them asserted a new lemma.
     * roundLemmas are the lemmas asserted before the last round, and
     * groundModel the assumptions its ground check ended with.
     */
    method CheckQuantifiers(fuel: nat)
      returns (res: SolverResult, done: bool, ghost ground: SolverResult, ghost outOfFuel: bool,
               ghost roundLemmas: seq<Ref>, ghost groundModel: seq<Ref>)
      requires Valid()
      modifies this, state, if state == null then {} else {state.bzla}
      ensures Valid() && state != null
      ensures old(state) != null ==> state == old(state) && old(state.inactive) <= state.inactive
      ensures old(state) == null ==>
                fresh(state) && fresh(state.bzla) && state.bzla.formula == formula && state.bzla.engine == cloneEngine
      ensures old(Lemmas()) <= Lemmas()
      ensures outOfFuel ==> res == Unknown && |old(Lemmas())| + fuel <= |Lemmas()|
      ensures res == Unsat ==>
                && !outOfFuel && ground != Sat
                && (state.bzla.inconsistent ||
                    GroundCheck(state.bzla.engine, state.bzla.Constraints(), state.GroundAssumptions()).0 != Sat)
      ensures res == Sat ==>
                && !outOfFuel && ground == Sat && done && !state.addedLemma
                && state.bzla.lemmas == roundLemmas
                && state.RoundModel(groundModel)
                && (forall q :: q in state.activeOrder ==> q in TopsOf(state.bzla.Constraints()))
                && (forall q :: q in state.activeOrder && state.IsForall(q) ==> q in state.inactive)
                && ExistsLemmasCached(state.activeOrder, state.phase, state.skolemizationLemmas, state.lemmaCache)
      ensures res == Unknown ==>
                outOfFuel || (ground == Sat && !done && !state.addedLemma && state.bzla.lemmas == roundLemmas)
      ensures res == Unknown && !outOfFuel ==>
                && state.RoundModel(groundModel)
                && exists q :: q in state.activeOrder && state.IsForall(q) && q !in state.inactive
    {
      if state == null {
        var clone := new Bzla(cloneEngine, formula, inconsistent, quantifiers, firstSerial);
        state := new QuantSolverState(clone);
      }
      var st := state;
      st.ComputeVariableDependencies();
      var f: nat := fuel;
      ground, done, outOfFuel, roundLemmas, groundModel := Unknown, false, false, st.bzla.lemmas, [];
      while true
        invariant st == state && st.Valid() && st.bzla.quantifiers == quantifiers
        invariant old(state) != null ==> st == old(state) && old(state.inactive) <= st.inactive
        invariant old(state) == null ==> fresh(st) && fresh(st.bzla)
        invariant f <= fuel && old(Lemmas()) <= st.bzla.lemmas && |old(Lemmas())| + (fuel - f) <= |st.bzla.lemmas|
        invariant !outOfFuel
        decreases f
      {
        if f == 0 {
          res, outOfFuel := Unknown, true;
          return;
        }
        f := f - 1;
        var g;
        roundLemmas := st.bzla.lemmas;
        g, done, groundModel := st.RefinementRound();
        ground := g;
        if g == Sat {
          if !st.addedLemma {
            LemmaFlagTracksNone(roundLemmas, st.bzla.lemmas);
          }
          if done && !st.addedLemma {
            res := Sat;
            break;
          }
          if !st.addedLemma {
            res := Unknown;
            break;
          }
        } else {
          res := Unsat;
          break;
        }
      }
    }

    /**
     * The quantifier solver's check (check_sat_quant_solver): incremental
     * mode aborts and leaves the solver as it was; otherwise the outcome is
     * the result of the refinement loop, with what that loop promises of
     * each result.
     */
    method CheckSat(fuel: nat) returns (outcome: QuantOutcome)
      requires Valid()
      modifies this, state, if state == null then {} else {state.bzla}
      ensures Valid()
      ensures incremental <==> outcome.Aborted?
      ensures incremental ==> state == old(state) && (state != null ==> unchanged(state, state.bzla))
      ensures outcome.Checked? ==> state != null && old(Lemmas()) <= Lemmas()
      ensures outcome == Checked(Unsat) ==>
                || state.bzla.inconsistent
                || GroundCheck(state.bzla.engine, state.bzla.Constraints(), state.GroundAssumptions()).0 != Sat
      ensures outcome == Checked(Sat) ==>
                && (exists m :: state.RoundModel(m))
                && (forall q :: q in state.activeOrder && state.IsForall(q) ==> q in state.inactive)
                && ExistsLemmasCached(state.activeOrder, state.phase, state.skolemizationLemmas, state.lemmaCache)
                && !state.addedLemma
      ensures outcome == Checked(Unknown) ==>
                || |old(Lemmas())| + fuel <= |Lemmas()|
                || ((exists m :: state.RoundModel(m)) &&
                    exists q :: q in state.activeOrder && state.IsForall(q) && q !in state.inactive)
    {
      if incremental {
        return Aborted("incremental mode not supported for BV");
      }
      var res, done, ground, outOfFuel, roundLemmas, groundModel := CheckQuantifiers(fuel);
      outcome := Checked(res);
    }
  }
}
